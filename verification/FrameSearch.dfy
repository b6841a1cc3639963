/** `find_x29`: looking for the youngest stack frames in a stack image, given as a map from
    addresses to the frame pointers stored there. */
module FrameSearch {
  /** One map entry: the frame pointer `x29` stored at `addr`. */
  datatype Entry = Entry(addr: nat, x29: nat)

  /** Iteration order of the map: increasing addresses. */
  ghost predicate Sorted(m: seq<Entry>) {
    forall i, j :: 0 <= i < j < |m| ==> m[i].addr < m[j].addr
  }

  /** The addresses that store the frame pointer `a`. */
  function Holders(m: seq<Entry>, a: nat): set<nat> {
    set i | 0 <= i < |m| && m[i].x29 == a :: m[i].addr
  }

  /** The addresses below `a` that store the frame pointer `a`. */
  function Callees(m: seq<Entry>, a: nat): set<nat> {
    set i | 0 <= i < |m| && m[i].x29 == a && m[i].addr < a :: m[i].addr
  }

  ghost predicate IsStored(m: seq<Entry>, a: nat) {
    exists i :: 0 <= i < |m| && m[i].x29 == a
  }

  /** Entry `k` is the start of the search: the largest address that is also stored as a frame
      pointer. */
  ghost predicate IsStart(m: seq<Entry>, k: nat) {
    k < |m| && IsStored(m, m[k].addr) && forall j :: k < j < |m| ==> !IsStored(m, m[j].addr)
  }

  /** A chain of frames: the first one holds `start` (at any address), and each further one holds
      the one before it and lies strictly below it. */
  ghost predicate Path(m: seq<Entry>, start: nat, p: seq<nat>) {
    && |p| > 0 && Stores(m, p[0], start)
    && forall i :: 0 < i < |p| ==> Stores(m, p[i], p[i - 1]) && p[i] < p[i - 1]
  }

  /** The frame pointer `x29` is stored at `addr`. */
  ghost predicate Stores(m: seq<Entry>, addr: nat, x29: nat) {
    exists i :: 0 <= i < |m| && m[i] == Entry(addr, x29)
  }

  /** No address below `a` stores the frame pointer `a`. */
  ghost predicate Youngest(m: seq<Entry>, a: nat) {
    forall i :: 0 <= i < |m| && m[i].x29 == a ==> m[i].addr >= a
  }

  lemma StoresIff(m: seq<Entry>, a: nat, x: nat)
    ensures a in Holders(m, x) <==> Stores(m, a, x)
    ensures a in Callees(m, x) <==> Stores(m, a, x) && a < x
  {
    if Stores(m, a, x) {
      var i :| 0 <= i < |m| && m[i] == Entry(a, x);
      assert m[i].addr in Holders(m, x);
    }
  }

  lemma YoungestIff(m: seq<Entry>, a: nat)
    ensures Callees(m, a) == {} <==> Youngest(m, a)
  {
    if !Youngest(m, a) {
      var i :| 0 <= i < |m| && m[i].x29 == a && m[i].addr < a;
      assert m[i].addr in Callees(m, a);
    }
  }

  ghost predicate Reaches(m: seq<Entry>, start: nat, a: nat) {
    exists p :: Path(m, start, p) && p[|p| - 1] == a
  }

  /** The addresses reached after `n` descending steps. */
  ghost function Level(m: seq<Entry>, start: nat, n: nat): set<nat> {
    if n == 0 then Holders(m, start)
    else set b, a | b in Level(m, start, n - 1) && a in Callees(m, b) :: a
  }

  /** The final addresses among the first `n` levels. */
  ghost function Done(m: seq<Entry>, start: nat, n: nat): set<nat> {
    if n == 0 then {} else Done(m, start, n - 1) + Finals(m, Level(m, start, n - 1))
  }

  ghost function Finals(m: seq<Entry>, s: set<nat>): set<nat> {
    set a | a in s && Callees(m, a) == {}
  }

  lemma {:induction false} PathLevel(m: seq<Entry>, start: nat, p: seq<nat>, n: nat)
    requires Path(m, start, p) && n < |p|
    ensures p[n] in Level(m, start, n)
  {
    StoresIff(m, p[n], if n == 0 then start else p[n - 1]);
    hide Holders, Callees, Stores;
    if n > 0 {
      PathLevel(m, start, p, n - 1);
    }
  }

  lemma {:induction false} LevelPath(m: seq<Entry>, start: nat, n: nat, a: nat) returns (p: seq<nat>)
    requires a in Level(m, start, n)
    ensures Path(m, start, p) && |p| == n + 1 && p[n] == a
  {
    hide Holders, Callees, Stores;
    if n == 0 {
      StoresIff(m, a, start);
      p := [a];
    } else {
      var b :| b in Level(m, start, n - 1) && a in Callees(m, b);
      var q := LevelPath(m, start, n - 1, b);
      StoresIff(m, a, b);
      p := q + [a];
    }
  }

  /** Levels are exactly what paths reach. */
  lemma ReachesLevel(m: seq<Entry>, start: nat, a: nat)
    ensures Reaches(m, start, a) <==> exists n: nat :: a in Level(m, start, n)
  {
    if Reaches(m, start, a) {
      var p :| Path(m, start, p) && p[|p| - 1] == a;
      PathLevel(m, start, p, |p| - 1);
    }
    if n: nat :| a in Level(m, start, n) {
      var p := LevelPath(m, start, n, a);
      assert p[|p| - 1] == a;
    }
  }

  lemma {:induction false} EmptyLevels(m: seq<Entry>, start: nat, n: nat, k: nat)
    requires n <= k && Level(m, start, n) == {}
    ensures Level(m, start, k) == {}
  {
    if n < k {
      EmptyLevels(m, start, n, k - 1);
    }
  }

  lemma {:induction false} DoneSound(m: seq<Entry>, start: nat, n: nat, a: nat) returns (k: nat)
    requires a in Done(m, start, n)
    ensures Callees(m, a) == {} && k < n && a in Level(m, start, k)
  {
    if a in Done(m, start, n - 1) {
      k := DoneSound(m, start, n - 1, a);
    } else {
      k := n - 1;
    }
  }

  lemma {:induction false} DoneHas(m: seq<Entry>, start: nat, n: nat, k: nat, a: nat)
    requires Callees(m, a) == {} && k < n && a in Level(m, start, k)
    ensures a in Done(m, start, n)
  {
    if k < n - 1 {
      DoneHas(m, start, n - 1, k, a);
    }
  }

  /** Once a level is empty, the collected addresses are the childless reachable ones. */
  lemma DoneComplete(m: seq<Entry>, start: nat, n: nat, a: nat)
    requires Level(m, start, n) == {}
    ensures a in Done(m, start, n) <==> Callees(m, a) == {} && Reaches(m, start, a)
  {
    ReachesLevel(m, start, a);
    if a in Done(m, start, n) {
      var k := DoneSound(m, start, n, a);
    }
    if Callees(m, a) == {} && Reaches(m, start, a) {
      var k: nat :| a in Level(m, start, k);
      if k >= n {
        EmptyLevels(m, start, n, k);
      }
      DoneHas(m, start, n, k, a);
    }
  }

  /** If the first level is inhabited, the last inhabited level is all final. */
  lemma {:induction false} DoneInhabited(m: seq<Entry>, start: nat, n: nat)
    requires Holders(m, start) != {} && Level(m, start, n) == {}
    ensures Done(m, start, n) != {}
  {
    assert n > 0;
    if Level(m, start, n - 1) == {} {
      DoneInhabited(m, start, n - 1);
    } else {
      var b :| b in Level(m, start, n - 1);
      assert Callees(m, b) <= Level(m, start, n);
      assert b in Finals(m, Level(m, start, n - 1));
    }
  }

  /** Step 1: the set of stored frame pointers. */
  method StoredSet(m: seq<Entry>) returns (stored: set<nat>)
    ensures forall a :: a in stored <==> IsStored(m, a)
  {
    stored := {};
    for i := 0 to |m|
      invariant forall a :: a in stored <==> exists k :: 0 <= k < i && m[k].x29 == a
    {
      ghost var before := stored;
      stored := stored + {m[i].x29};
      forall a ensures a in stored <==> exists k :: 0 <= k < i + 1 && m[k].x29 == a {
        if a == m[i].x29 {
          assert m[i].x29 == a;
        }
        if a in before {
          var k :| 0 <= k < i && m[k].x29 == a;
        }
      }
    }
  }

  /** Step 2: the search from the largest key down. */
  method FindStart(m: seq<Entry>) returns (found: bool, k: nat)
    ensures found ==> IsStart(m, k)
    ensures !found ==> forall j :: 0 <= j < |m| ==> !IsStored(m, m[j].addr)
  {
    var stored := StoredSet(m);
    k := |m|;
    while k > 0
      invariant 0 <= k <= |m|
      invariant forall j :: k <= j < |m| ==> !IsStored(m, m[j].addr)
    {
      k := k - 1;
      if m[k].addr in stored {
        return true, k;
      }
    }
    return false, 0;
  }

  /** Step 3: everything that stores the start address, above or below it. */
  method FirstAddrs(m: seq<Entry>, start: nat) returns (s: set<nat>)
    ensures s == Holders(m, start)
  {
    s := {};
    for i := 0 to |m|
      invariant s == set k | 0 <= k < i && m[k].x29 == start :: m[k].addr
    {
      if m[i].x29 == start {
        s := s + {m[i].addr};
      }
    }
  }

  /** The scan for one address in step 4. */
  method Below(m: seq<Entry>, a: nat) returns (s: set<nat>)
    ensures s == Callees(m, a)
  {
    s := {};
    for i := 0 to |m|
      invariant s == set k | 0 <= k < i && m[k].x29 == a && m[k].addr < a :: m[k].addr
    {
      if m[i].x29 == a && m[i].addr < a {
        s := s + {m[i].addr};
      }
    }
  }

  /** One pass of step 4 over the working set. */
  method Descend(m: seq<Entry>, current: set<nat>, result: set<nat>) returns (next: set<nat>, result': set<nat>)
    ensures next == set b, a | b in current && a in Callees(m, b) :: a
    ensures result' == result + Finals(m, current)
  {
    next, result' := {}, result;
    var todo := current;
    ghost var seen: set<nat> := {};
    while todo != {}
      invariant seen + todo == current && seen !! todo
      invariant next == set b, a | b in seen && a in Callees(m, b) :: a
      invariant result' == result + Finals(m, seen)
      decreases todo
    {
      var addr :| addr in todo;
      var below := Below(m, addr);
      next := next + below;
      if below == {} {
        result' := result' + {addr};
      }
      todo, seen := todo - {addr}, seen + {addr};
    }
    assert seen == current;
  }

  /** `find_x29`. The result is exactly the set of youngest addresses that the chosen start
      reaches; the loop ends because every working set lies strictly below the largest member of
      the one before. */
  method FindX29(m: seq<Entry>) returns (r: set<nat>)
    requires Sorted(m)
    ensures forall k: nat, a :: IsStart(m, k) ==> (a in r <==> Youngest(m, a) && Reaches(m, m[k].addr, a))
    ensures r == {} <==> forall k: nat :: !IsStart(m, k)
  {
    hide Holders, Callees, Level, Done, Youngest, Reaches, Finals;
    var found, k := FindStart(m);
    if !found {
      return {};
    }
    var start := m[k].addr;
    var current := FirstAddrs(m, start);
    r := {};
    ghost var n, top := 0, m[|m| - 1].addr + 1;
    HoldersBelow(m, start);
    Began(m, start);
    while current != {}
      invariant current == Level(m, start, n) && r == Done(m, start, n)
      invariant forall a :: a in current ==> a < top
      decreases top
    {
      var next;
      next, r := Descend(m, current, r);
      Descended(m, start, n, next, top);
      current, n, top := next, n + 1, top - 1;
    }
    forall a ensures a in r <==> Youngest(m, a) && Reaches(m, start, a) {
      DoneComplete(m, start, n, a);
      YoungestIff(m, a);
    }
    StartHeld(m, start);
    DoneInhabited(m, start, n);
    forall j: nat | IsStart(m, j) ensures j == k {
    }
  }

  lemma Began(m: seq<Entry>, start: nat)
    ensures Level(m, start, 0) == Holders(m, start) && Done(m, start, 0) == {}
  {
  }

  lemma StartHeld(m: seq<Entry>, start: nat)
    requires IsStored(m, start)
    ensures Holders(m, start) != {}
  {
    var i :| 0 <= i < |m| && m[i].x29 == start;
    assert m[i].addr in Holders(m, start);
  }

  /** One pass gives the next level, which lies below the largest member of this one. */
  lemma Descended(m: seq<Entry>, start: nat, n: nat, next: set<nat>, top: nat)
    requires Level(m, start, n) != {} && forall a :: a in Level(m, start, n) ==> a < top
    requires next == set b, a | b in Level(m, start, n) && a in Callees(m, b) :: a
    ensures next == Level(m, start, n + 1) && top > 0 && forall a :: a in next ==> a < top - 1
    ensures Done(m, start, n + 1) == Done(m, start, n) + Finals(m, Level(m, start, n))
  {
    hide Finals, Holders;
    var x :| x in Level(m, start, n);
  }

  lemma HoldersBelow(m: seq<Entry>, start: nat)
    requires Sorted(m) && m != []
    ensures forall a :: a in Holders(m, start) ==> a < m[|m| - 1].addr + 1
  {
  }

  /** The first step really is unrestricted: a start address may be reached from above, and such an
      address is then a final one. */
  lemma StartFromAbove()
    ensures var m := [Entry(16, 32), Entry(48, 16)];
            Sorted(m) && IsStart(m, 0) && 48 > m[0].addr && Youngest(m, 48) && Reaches(m, 16, 48)
  {
    var m := [Entry(16, 32), Entry(48, 16)];
    assert m[1].x29 == 16;
    assert IsStored(m, 16);
    assert !IsStored(m, 48);
    assert m[1] == Entry(48, 16);
    assert Stores(m, 48, 16);
    assert Path(m, 16, [48]) && [48][|[48]| - 1] == 48;
  }
}
