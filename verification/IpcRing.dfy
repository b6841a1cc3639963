/** The first half of `parser_ipc_log_page`: laying out a circular list of log pages as one buffer. */
module IpcRing {
  import opened Bytes

  /** A log page: the next byte to read, the next byte to write, and its data area. */
  datatype IpcPage = IpcPage(rd: nat, wr: nat, data: bytes)

  /** A snapshot of one log: the address of the list head, the page to start from, the offset of a
      page's list node, the size of a data area, the list pointers and the readable pages. */
  datatype Log = Log(head: nat, start: nat, off: nat, size: nat, next: map<nat, nat>, pages: map<nat, IpcPage>)

  ghost predicate PageAt(l: Log, ring: seq<nat>, k: nat)
    requires k < |ring|
  {
    && ring[k] in l.pages && ring[k] + l.off in l.next && ring[k] + l.off != l.head
    && l.next[ring[k] + l.off] == (if k + 1 < |ring| then ring[k + 1] + l.off else l.head)
    && l.pages[ring[k]].rd <= l.size && l.pages[ring[k]].wr <= l.size == |l.pages[ring[k]].data|
  }

  ghost predicate Distinct(ring: seq<nat>) {
    forall i, j :: 0 <= i < j < |ring| ==> ring[i] != ring[j]
  }

  /** The list runs from the head over the pages of `ring` back to the head. */
  ghost predicate Ring(l: Log, ring: seq<nat>) {
    && |ring| > 0 && Distinct(ring) && l.head in l.next && l.next[l.head] == ring[0] + l.off
    && forall k :: 0 <= k < |ring| ==> PageAt(l, ring, k)
  }

  /** The index of the `j`-th page counted from page `s` around the ring. */
  function Turn(n: nat, s: nat, j: nat): nat
    requires s < n && j <= n
  {
    if s + j < n then s + j else s + j - n
  }

  ghost function PageOf(l: Log, ring: seq<nat>, s: nat, j: nat): (p: IpcPage)
    requires Ring(l, ring) && s < |ring| && j < |ring|
    ensures p.rd <= l.size && p.wr <= l.size == |p.data|
  {
    assert PageAt(l, ring, Turn(|ring|, s, j));
    l.pages[ring[Turn(|ring|, s, j)]]
  }

  /** There is nothing to read on the `j`-th page: the read position is at the write position or at the
      end of the data area. */
  ghost predicate NothingOn(l: Log, ring: seq<nat>, s: nat, j: nat)
    requires Ring(l, ring) && s < |ring| && j < |ring|
  {
    var p := PageOf(l, ring, s, j);
    p.rd == p.wr || p.rd == l.size
  }

  /** The reader goes on behind the `j`-th page: the start page has wrapped, or page `j` is full. */
  ghost predicate GoesOn(l: Log, ring: seq<nat>, s: nat, j: nat)
    requires Ring(l, ring) && s < |ring| && j < |ring|
  {
    PageOf(l, ring, s, 0).rd > PageOf(l, ring, s, 0).wr || PageOf(l, ring, s, j).wr == l.size
  }

  /** Pages 0 to `m` have something to read and lead on to each other. */
  ghost predicate Walked(l: Log, ring: seq<nat>, s: nat, m: nat)
    requires Ring(l, ring) && s < |ring| && m <= |ring|
  {
    && (forall j :: 0 <= j < m ==> !NothingOn(l, ring, s, j))
    && (forall j :: 0 <= j < m - 1 ==> GoesOn(l, ring, s, j))
  }

  /** Why the reader stops after `m` pages: a full turn, nothing on the next page, or a page that is
      not full while the start page had not wrapped. */
  ghost predicate Ends(l: Log, ring: seq<nat>, s: nat, m: nat)
    requires Ring(l, ring) && s < |ring| && m <= |ring|
  {
    || (m > 0 && !GoesOn(l, ring, s, m - 1))
    || m == |ring|
    || NothingOn(l, ring, s, m)
  }

  /** Following the list pointer of page `k`, past the head if need be, gives the next page. */
  lemma NextPage(l: Log, ring: seq<nat>, k: nat)
    requires Ring(l, ring) && k < |ring|
    ensures ring[k] in l.pages && ring[k] + l.off in l.next && l.head in l.next
    ensures var a := l.next[ring[k] + l.off];
            (if a == l.head then l.next[a] else a) == ring[if k + 1 < |ring| then k + 1 else 0] + l.off
  {
    assert PageAt(l, ring, k);
    if k + 1 < |ring| {
      assert PageAt(l, ring, k + 1);
    }
  }

  // ---------------------------------------------------------------- where each byte comes from

  /** Byte `at` of the data area of page `page`. */
  datatype Pos = Pos(page: nat, at: nat)

  /** The unread places of the `j`-th page: from `rd` to `wr`, or to the end if `wr` is behind. */
  ghost function ChunkPlaces(l: Log, ring: seq<nat>, s: nat, j: nat): seq<Pos>
    requires Ring(l, ring) && s < |ring| && j < |ring|
  {
    var p := PageOf(l, ring, s, j);
    seq(if p.rd <= p.wr then p.wr - p.rd else l.size - p.rd,
        i requires 0 <= i => Pos(ring[Turn(|ring|, s, j)], p.rd + i))
  }

  ghost function PlacesTo(l: Log, ring: seq<nat>, s: nat, m: nat): seq<Pos>
    requires Ring(l, ring) && s < |ring| && m <= |ring|
  {
    if m == 0 then [] else PlacesTo(l, ring, s, m - 1) + ChunkPlaces(l, ring, s, m - 1)
  }

  /** The front of the start page, which new bytes overwrote after the page had wrapped. */
  ghost function FrontPlaces(l: Log, ring: seq<nat>, s: nat): seq<Pos>
    requires Ring(l, ring) && s < |ring|
  {
    var p := PageOf(l, ring, s, 0);
    seq(if p.rd > p.wr then p.wr else 0, i requires 0 <= i => Pos(ring[s], i))
  }

  /** Where the bytes of the finished buffer come from, in order. */
  ghost function Places(l: Log, ring: seq<nat>, s: nat, m: nat): seq<Pos>
    requires Ring(l, ring) && s < |ring| && m <= |ring|
  {
    PlacesTo(l, ring, s, m) + FrontPlaces(l, ring, s)
  }

  ghost predicate Is(l: Log, b: byte, p: Pos) {
    p.page in l.pages && p.at < |l.pages[p.page].data| && b == l.pages[p.page].data[p.at]
  }

  /** `ps` says where each byte of `bs` comes from. */
  ghost predicate From(l: Log, bs: bytes, ps: seq<Pos>) {
    |bs| == |ps| && forall i :: 0 <= i < |bs| ==> Is(l, bs[i], ps[i])
  }

  lemma FromConcat(l: Log, a: bytes, ps: seq<Pos>, b: bytes, qs: seq<Pos>)
    requires From(l, a, ps) && From(l, b, qs)
    ensures From(l, a + b, ps + qs)
  {
    hide Is;
  }

  lemma FromUnique(l: Log, a: bytes, b: bytes, ps: seq<Pos>)
    requires From(l, a, ps) && From(l, b, ps)
    ensures a == b
  {
    forall i | 0 <= i < |a| ensures a[i] == b[i] {
      assert Is(l, a[i], ps[i]) && Is(l, b[i], ps[i]);
    }
  }

  // ---------------------------------------------------------------- the walk

  /** `buf` is the unread bytes of the first `m` pages in ring order and then the start page's front,
      where `m` is the number of pages up to the first reason to stop. */
  ghost predicate Linear(l: Log, ring: seq<nat>, s: nat, m: nat, buf: bytes)
    requires Ring(l, ring) && s < |ring|
  {
    && m <= |ring| && Walked(l, ring, s, m) && Ends(l, ring, s, m)
    && From(l, buf, Places(l, ring, s, m))
  }

  /** What the reader takes of a page: from `rd` to `wr`, or to the end if `wr` is behind. */
  function Chunk(size: nat, p: IpcPage): bytes
    requires p.rd <= size && p.wr <= size == |p.data|
  {
    if p.rd <= p.wr then p.data[p.rd..p.wr] else p.data[p.rd..]
  }

  lemma ChunkFrom(l: Log, ring: seq<nat>, s: nat, j: nat)
    requires Ring(l, ring) && s < |ring| && j < |ring|
    ensures From(l, Chunk(l.size, PageOf(l, ring, s, j)), ChunkPlaces(l, ring, s, j))
    ensures Chunk(l.size, PageOf(l, ring, s, j)) == [] <==> NothingOn(l, ring, s, j)
  {
    hide Distinct;
    assert PageAt(l, ring, Turn(|ring|, s, j));
  }

  lemma FrontFrom(l: Log, ring: seq<nat>, s: nat)
    requires Ring(l, ring) && s < |ring|
    ensures var p := PageOf(l, ring, s, 0);
            From(l, if p.rd > p.wr then p.data[..p.wr] else [], FrontPlaces(l, ring, s))
  {
    hide Distinct;
    assert PageAt(l, ring, s);
  }

  /** The walk lays the log out in one buffer. */
  method ReadPages(l: Log, ghost ring: seq<nat>, ghost s: nat) returns (buf: bytes)
    requires Ring(l, ring) && s < |ring| && ring[s] == l.start
    ensures exists m: nat :: Linear(l, ring, s, m, buf)
  {
    hide PageAt, Distinct, Chunk, ChunkPlaces, FrontPlaces, NothingOn, From;
    NextPage(l, ring, s);
    var cur := l.start;
    var first := l.pages[cur];
    ghost var p0 := PageOf(l, ring, s, 0);
    var wrapped := first.rd > first.wr;
    buf := [];
    ghost var m := 0;
    NothingFrom(l);
    while cur in l.pages
      invariant m < |ring| && Walked(l, ring, s, m) && From(l, buf, PlacesTo(l, ring, s, m))
      invariant wrapped == (p0.rd > p0.wr)
      invariant cur in l.pages && cur == ring[Turn(|ring|, s, m)] && (m > 0 ==> GoesOn(l, ring, s, m - 1))
      decreases |ring| - m
    {
      NextPage(l, ring, Turn(|ring|, s, m));
      var p := l.pages[cur];
      assert p == PageOf(l, ring, s, m);
      var chunk := Chunk(l.size, p);
      ChunkFrom(l, ring, s, m);
      if |chunk| == 0 {
        break;
      }
      FromConcat(l, buf, PlacesTo(l, ring, s, m), chunk, ChunkPlaces(l, ring, s, m));
      buf := buf + chunk;
      m := m + 1;
      if !wrapped && p.wr < l.size {
        break;
      }
      assert GoesOn(l, ring, s, m - 1);
      var list := l.next[cur + l.off];
      if list == l.head {
        list := l.next[list];
      }
      cur := list - l.off;
      TurnsBack(ring, s, m);
      if cur == l.start {
        break;
      }
      NextPage(l, ring, Turn(|ring|, s, m));
    }
    FrontFrom(l, ring, s);
    ghost var chunks := buf;
    if wrapped {
      buf := buf + first.data[..first.wr];
    } else {
      assert buf + [] == buf;
    }
    FromConcat(l, chunks, PlacesTo(l, ring, s, m), if wrapped then p0.data[..p0.wr] else [], FrontPlaces(l, ring, s));
    assert Linear(l, ring, s, m, buf);
  }

  lemma NothingFrom(l: Log)
    ensures From(l, [], [])
  {
  }

  /** The walk is back at the start page after a full turn and not before. */
  lemma TurnsBack(ring: seq<nat>, s: nat, m: nat)
    requires Distinct(ring) && s < |ring| && 0 < m <= |ring|
    ensures ring[Turn(|ring|, s, m)] == ring[s] <==> m == |ring|
  {
    var t := Turn(|ring|, s, m);
    if t < s {
      assert ring[t] != ring[s];
    } else if s < t {
      assert ring[s] != ring[t];
    }
  }

  // ---------------------------------------------------------------- the places taken

  /** Byte `x` of page `p` is unread. */
  ghost predicate Unread(l: Log, p: IpcPage, x: nat) {
    p.rd <= x < if p.rd <= p.wr then p.wr else l.size
  }

  /** A place is taken only if it is unread, on one of the first `m` pages. */
  lemma {:induction false} PlaceOf(l: Log, ring: seq<nat>, s: nat, m: nat, i: nat) returns (j: nat)
    requires Ring(l, ring) && s < |ring| && m <= |ring| && i < |PlacesTo(l, ring, s, m)|
    ensures j < m && PlacesTo(l, ring, s, m)[i].page == ring[Turn(|ring|, s, j)]
    ensures Unread(l, PageOf(l, ring, s, j), PlacesTo(l, ring, s, m)[i].at)
    decreases m
  {
    hide Ring, PageOf;
    if i < |PlacesTo(l, ring, s, m - 1)| {
      j := PlaceOf(l, ring, s, m - 1, i);
    } else {
      j := m - 1;
    }
  }

  /** Every unread place of the first `m` pages is taken. */
  lemma {:induction false} UnreadTaken(l: Log, ring: seq<nat>, s: nat, m: nat, j: nat, x: nat) returns (i: nat)
    requires Ring(l, ring) && s < |ring| && j < m <= |ring| && Unread(l, PageOf(l, ring, s, j), x)
    ensures i < |PlacesTo(l, ring, s, m)| && PlacesTo(l, ring, s, m)[i] == Pos(ring[Turn(|ring|, s, j)], x)
    decreases m
  {
    hide Ring, PageOf;
    if j < m - 1 {
      i := UnreadTaken(l, ring, s, m - 1, j, x);
    } else {
      i := |PlacesTo(l, ring, s, m - 1)| + x - PageOf(l, ring, s, j).rd;
    }
  }

  /** Places are taken page by page in ring order, and upwards on each page. */
  lemma {:induction false} InRingOrder(l: Log, ring: seq<nat>, s: nat, m: nat, i: nat, k: nat) returns (a: nat, b: nat)
    requires Ring(l, ring) && s < |ring| && m <= |ring| && i < k < |PlacesTo(l, ring, s, m)|
    ensures var ps := PlacesTo(l, ring, s, m);
            && a <= b < m && ps[i].page == ring[Turn(|ring|, s, a)] && ps[k].page == ring[Turn(|ring|, s, b)]
            && (a == b ==> ps[i].at < ps[k].at)
    decreases m
  {
    hide Ring, PageOf;
    var before := PlacesTo(l, ring, s, m - 1);
    if k < |before| {
      a, b := InRingOrder(l, ring, s, m - 1, i, k);
    } else if i < |before| {
      a := PlaceOf(l, ring, s, m - 1, i);
      b := m - 1;
    } else {
      a, b := m - 1, m - 1;
    }
  }

  lemma TurnsDiffer(ring: seq<nat>, s: nat, i: nat, j: nat)
    requires Distinct(ring) && s < |ring| && i < j < |ring|
    ensures ring[Turn(|ring|, s, i)] != ring[Turn(|ring|, s, j)]
  {
    var x, y := Turn(|ring|, s, i), Turn(|ring|, s, j);
    if x < y {
      assert ring[x] != ring[y];
    } else {
      assert ring[y] != ring[x];
    }
  }

  /** The start page's overwritten front comes last, from its first byte to the write position. */
  lemma FrontLast(l: Log, ring: seq<nat>, s: nat, m: nat)
    requires Ring(l, ring) && s < |ring| && m <= |ring|
    ensures var p, ps := PageOf(l, ring, s, 0), Places(l, ring, s, m);
            var t := |PlacesTo(l, ring, s, m)|;
            && ps[..t] == PlacesTo(l, ring, s, m) && |ps| == t + (if p.rd > p.wr then p.wr else 0)
            && forall i :: t <= i < |ps| ==> ps[i] == Pos(ring[s], i - t)
  {
    hide Ring, PageOf, PlacesTo;
  }

  /** No byte of the log is taken twice, and no page is visited twice. */
  lemma NoByteTwice(l: Log, ring: seq<nat>, s: nat, m: nat, i: nat, k: nat)
    requires Ring(l, ring) && s < |ring| && m <= |ring| && i < k < |Places(l, ring, s, m)|
    ensures Places(l, ring, s, m)[i] != Places(l, ring, s, m)[k]
  {
    hide PageAt, PlacesTo;
    var before := PlacesTo(l, ring, s, m);
    if k < |before| {
      var a, b := InRingOrder(l, ring, s, m, i, k);
      if a < b {
        TurnsDiffer(ring, s, a, b);
      }
    } else if i < |before| {
      var j := PlaceOf(l, ring, s, m, i);
      if j > 0 {
        TurnsDiffer(ring, s, 0, j);
      }
    }
  }

  /** The walk does not go past a reason to stop. */
  lemma WalkLeast(l: Log, ring: seq<nat>, s: nat, m: nat, n: nat)
    requires Ring(l, ring) && s < |ring| && m <= |ring| && n <= |ring| && Walked(l, ring, s, n) && Ends(l, ring, s, m)
    ensures n <= m
  {
    hide Ring, NothingOn, GoesOn;
  }

  /** The snapshot determines the buffer: no two buffers are laid out from one log. */
  lemma WalkUnique(l: Log, ring: seq<nat>, s: nat, m: nat, a: bytes, n: nat, b: bytes)
    requires Ring(l, ring) && s < |ring| && Linear(l, ring, s, m, a) && Linear(l, ring, s, n, b)
    ensures m == n && a == b
  {
    hide Walked, Ends, Ring, From, Places;
    WalkLeast(l, ring, s, m, n);
    WalkLeast(l, ring, s, n, m);
    FromUnique(l, a, b, Places(l, ring, s, m));
  }

  // ---------------------------------------------------------------- what is left out

  /** The number of pages a reader should go over: up to the first page that does not lead on, or all
      the way around. An empty page is no reason to stop. */
  ghost predicate Meant(l: Log, ring: seq<nat>, s: nat, n: nat)
    requires Ring(l, ring) && s < |ring|
  {
    && 0 < n <= |ring| && (forall j :: 0 <= j < n - 1 ==> GoesOn(l, ring, s, j))
    && (n == |ring| || !GoesOn(l, ring, s, n - 1))
  }

  /** Every log has an intended stop. */
  lemma {:induction false} MeantExists(l: Log, ring: seq<nat>, s: nat, k: nat) returns (n: nat)
    requires Ring(l, ring) && s < |ring| && k < |ring| && forall j :: 0 <= j < k ==> GoesOn(l, ring, s, j)
    ensures Meant(l, ring, s, n)
    decreases |ring| - k
  {
    hide Ring, GoesOn;
    if k + 1 == |ring| || !GoesOn(l, ring, s, k) {
      n := k + 1;
    } else {
      n := MeantExists(l, ring, s, k + 1);
    }
  }

  lemma PlacesNone(l: Log, ring: seq<nat>, s: nat, j: nat)
    requires Ring(l, ring) && s < |ring| && j < |ring|
    ensures ChunkPlaces(l, ring, s, j) == [] <==> NothingOn(l, ring, s, j)
  {
    hide Ring;
  }

  lemma {:induction false} PlacesGrow(l: Log, ring: seq<nat>, s: nat, m: nat, n: nat)
    requires Ring(l, ring) && s < |ring| && m <= n <= |ring|
    ensures |PlacesTo(l, ring, s, m)| <= |PlacesTo(l, ring, s, n)|
    ensures |PlacesTo(l, ring, s, m)| == |PlacesTo(l, ring, s, n)| <==>
            forall j :: m <= j < n ==> NothingOn(l, ring, s, j)
    ensures (forall j :: m <= j < n ==> NothingOn(l, ring, s, j)) ==>
            PlacesTo(l, ring, s, m) == PlacesTo(l, ring, s, n)
    decreases n
  {
    hide Ring, NothingOn, ChunkPlaces;
    if m < n {
      PlacesGrow(l, ring, s, m, n - 1);
      PlacesNone(l, ring, s, n - 1);
    }
  }

  lemma WalkWithin(l: Log, ring: seq<nat>, s: nat, m: nat, n: nat)
    requires Ring(l, ring) && s < |ring| && m <= |ring| && Walked(l, ring, s, m) && Meant(l, ring, s, n)
    ensures m <= n
  {
    hide Ring, NothingOn, GoesOn;
  }

  /** The reader never goes past the intended stop, and it returns what it should (`want`) if and only
      if every page between its own stop and the intended one has nothing to read. */
  lemma ReadsAllIff(l: Log, ring: seq<nat>, s: nat, m: nat, n: nat, buf: bytes, want: bytes)
    requires Ring(l, ring) && s < |ring| && Linear(l, ring, s, m, buf)
    requires Meant(l, ring, s, n) && From(l, want, Places(l, ring, s, n))
    ensures m <= n
    ensures buf == want <==> forall j :: m <= j < n ==> NothingOn(l, ring, s, j)
  {
    hide Ring, Walked, Ends, NothingOn, PlacesTo, FrontPlaces, Is;
    WalkWithin(l, ring, s, m, n);
    PlacesGrow(l, ring, s, m, n);
    if forall j :: m <= j < n ==> NothingOn(l, ring, s, j) {
      FromUnique(l, buf, want, Places(l, ring, s, m));
    }
  }

  /** Seen before the walk: the first page without unread bytes, if the walk would go over it, must be
      followed by nothing but such pages. */
  lemma ReadsAllFrom(l: Log, ring: seq<nat>, s: nat, m: nat, n: nat, buf: bytes, want: bytes, e: nat)
    requires Ring(l, ring) && s < |ring| && Linear(l, ring, s, m, buf)
    requires Meant(l, ring, s, n) && From(l, want, Places(l, ring, s, n)) && e <= n
    requires (forall j :: 0 <= j < e ==> !NothingOn(l, ring, s, j)) && (e == n || NothingOn(l, ring, s, e))
    ensures m == e
    ensures buf == want <==> forall j :: e <= j < n ==> NothingOn(l, ring, s, j)
  {
    hide Ring, NothingOn, From, Places;
    ReadsAllIff(l, ring, s, m, n, buf, want);
    StopsAtEmpty(l, ring, s, m, n, e);
  }

  lemma StopsAtEmpty(l: Log, ring: seq<nat>, s: nat, m: nat, n: nat, e: nat)
    requires Ring(l, ring) && s < |ring| && m <= n && e <= n && Meant(l, ring, s, n)
    requires m <= |ring| && Walked(l, ring, s, m) && Ends(l, ring, s, m)
    requires (forall j :: 0 <= j < e ==> !NothingOn(l, ring, s, j)) && (e == n || NothingOn(l, ring, s, e))
    ensures m == e
  {
    hide Ring, NothingOn, GoesOn;
    WalkLeast(l, ring, s, m, e);
  }

  /** A start page whose read position is at the very end, wrapped or not, makes the reader stop at
      once: only that page's overwritten front is taken, and every other page is left out. */
  lemma ReadAtEndLosesRest(l: Log, ring: seq<nat>, s: nat, m: nat, n: nat, buf: bytes, want: bytes)
    requires Ring(l, ring) && s < |ring| && Linear(l, ring, s, m, buf)
    requires Meant(l, ring, s, n) && From(l, want, Places(l, ring, s, n))
    requires PageOf(l, ring, s, 0).rd == l.size
    ensures var p := PageOf(l, ring, s, 0);
            m == 0 && buf == if p.rd > p.wr then p.data[..p.wr] else []
    ensures n > 1 || |ring| == 1
    ensures buf == want <==> forall j :: 0 <= j < n ==> NothingOn(l, ring, s, j)
  {
    hide Ring, PageOf, From, FrontPlaces;
    assert NothingOn(l, ring, s, 0);
    assert GoesOn(l, ring, s, 0);
    ReadsAllFrom(l, ring, s, m, n, buf, want, 0);
    FrontFrom(l, ring, s);
    var p := PageOf(l, ring, s, 0);
    assert Places(l, ring, s, 0) == FrontPlaces(l, ring, s);
    FromUnique(l, buf, if p.rd > p.wr then p.data[..p.wr] else [], FrontPlaces(l, ring, s));
  }
}
