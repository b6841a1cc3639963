/** `parse_buffer_page`: decoding the variable-length records of one trace page. */
module RingPage {
  import opened Bytes

  /** A record handed to `parse_trace_entry`: the offset of its payload from the page's data area
      and its absolute time. */
  datatype Visit = Visit(at: nat, time: nat)

  /** A page: its data area as far as it can be read, its committed length and its time stamp.
      `tail(p)` is the value the decoder uses for the word behind the header at `p`: the source
      reads only the header, so that word is whatever follows it in the reader's memory. */
  datatype Page = Page(mem: bytes, commit: nat, stamp: nat, tail: nat -> nat)

  /** `event_timestamp` and `total_read`; `event_addr` is always the data area plus `pos`. Time is
      kept unreduced and wrapped to 64 bits where it is reported. */
  datatype State = State(pos: int, time: nat)

  /** Conversion of an unsigned 32-bit value to `int`. */
  function Signed(x: nat): int {
    var y := x % 0x1_0000_0000;
    if y < 0x8000_0000 then y else y - 0x1_0000_0000
  }

  /** The 32-bit shift of an extend word. */
  function Shifted(ext: nat): nat {
    ext * 0x800_0000 % 0x1_0000_0000
  }

  function TypeLen(pg: Page, pos: nat): nat {
    U(pg.mem, pos, 4) % 32
  }

  function Delta(pg: Page, pos: nat): nat {
    U(pg.mem, pos, 4) / 32
  }

  /** The loop goes on from `s`: something is left, the header can be read, and it is not padding
      behind the page's end (`event_end` leaves out the 16 bytes before the data area). */
  predicate Runs(pg: Page, s: State) {
    && s.pos < pg.commit && 0 <= s.pos && s.pos + 4 <= |pg.mem|
    && !(TypeLen(pg, s.pos) == 29 && s.pos + 16 > pg.commit)
  }

  function TraceLen(pg: Page, pos: nat): int {
    var t := TypeLen(pg, pos);
    if t == 0 then Signed(4 + pg.tail(pos))
    else if t <= 28 then 4 + 4 * t
    else if t == 29 then
      if Delta(pg, pos) == 1 then Signed(4 + pg.tail(pos))
      else if pos + 16 <= pg.commit then Signed(4 + (pg.commit - (pos + 16))) else 0
    else 8
  }

  function Next(pg: Page, s: State): State
    requires s.pos >= 0
  {
    var t, now := TypeLen(pg, s.pos), s.time + Delta(pg, s.pos);
    State(s.pos + TraceLen(pg, s.pos),
          if t == 30 then now + Shifted(U(pg.mem, s.pos + 4, 4)) else if t == 31 then 0 else now)
  }

  /** The record reported in one turn of the loop. */
  function Reported(pg: Page, s: State): seq<Visit>
    requires s.pos >= 0
  {
    var t, time := TypeLen(pg, s.pos), (pg.stamp + (s.time + Delta(pg, s.pos))) % 0x1_0000_0000_0000_0000;
    if t == 0 then [Visit(s.pos + 8, time)] else if t <= 28 then [Visit(s.pos + 4, time)] else []
  }

  /** A turn makes progress exactly when its length, as an `int`, is positive; only a length word
      read from behind a header can break that. */
  lemma Progress(pg: Page, s: State)
    requires Runs(pg, s) && pg.commit < 0x8000_0000
    ensures Next(pg, s).pos > s.pos <==>
            (TypeLen(pg, s.pos) == 0 || (TypeLen(pg, s.pos) == 29 && Delta(pg, s.pos) == 1)
             ==> 0 < (4 + pg.tail(s.pos)) % 0x1_0000_0000 < 0x8000_0000)
  {
    hide U;
  }

  /** Length words stay below the range in which they turn negative. */
  ghost predicate SaneLengths(pg: Page) {
    pg.commit < 0x8000_0000 && forall p: nat :: pg.tail(p) < 0x7fff_fffc
  }

  lemma SaneProgress(pg: Page, s: State)
    requires SaneLengths(pg) && Runs(pg, s)
    ensures Next(pg, s).pos >= s.pos + 4
  {
    hide U;
    assert pg.tail(s.pos) < 0x7fff_fffc;
  }

  /** At most `n` turns from `s` on: what they report and where they end. */
  function Ran(pg: Page, s: State, n: nat): (seq<Visit>, State)
    decreases n
  {
    if n == 0 || !Runs(pg, s) then ([], s)
    else
      var (vs, e) := Ran(pg, Next(pg, s), n - 1);
      (Reported(pg, s) + vs, e)
  }

  /** The loop ends within `n` turns. */
  ghost predicate EndsIn(pg: Page, n: nat) {
    !Runs(pg, Ran(pg, State(0, 0), n).1)
  }

  lemma {:induction false} RanUnique(pg: Page, s: State, n: nat, k: nat)
    requires !Runs(pg, Ran(pg, s, n).1) && !Runs(pg, Ran(pg, s, k).1)
    ensures Ran(pg, s, n) == Ran(pg, s, k)
    decreases n
  {
    hide U, Next, Reported;
    if n > 0 && k > 0 && Runs(pg, s) {
      RanUnique(pg, Next(pg, s), n - 1, k - 1);
    }
  }

  /** With sane length words the loop ends: every turn takes at least 4 of the committed bytes. */
  lemma {:induction false} SaneEnds(pg: Page, s: State, n: nat)
    requires SaneLengths(pg) && s.pos + 4 * n >= pg.commit
    ensures !Runs(pg, Ran(pg, s, n).1)
    decreases n
  {
    if n > 0 && Runs(pg, s) {
      SaneProgress(pg, s);
      hide Next, Reported;
      SaneEnds(pg, Next(pg, s), n - 1);
    }
  }

  lemma RanNext(pg: Page, s: State, n: nat, before: seq<Visit>)
    requires n > 0 && Runs(pg, s)
    ensures (before + Reported(pg, s)) + Ran(pg, Next(pg, s), n - 1).0 == before + Ran(pg, s, n).0
    ensures Ran(pg, Next(pg, s), n - 1).1 == Ran(pg, s, n).1
  {
    hide Runs, Next, Reported;
  }

  /** `parse_buffer_page`, on every page on which the loop ends: it reports exactly the records of its
      turns; and with sane length words it takes at most a quarter as many turns as there are
      committed bytes. */
  method ParseBufferPage(pg: Page) returns (visits: seq<Visit>, turns: nat)
    requires exists n: nat :: EndsIn(pg, n)
    ensures forall n: nat :: EndsIn(pg, n) ==> visits == Ran(pg, State(0, 0), n).0 && turns <= n
    ensures SaneLengths(pg) ==> 4 * turns <= pg.commit + 3
  {
    hide U, TraceLen, Reported, Runs, Next, Ran, SaneLengths;
    ghost var n: nat :| EndsIn(pg, n);
    visits, turns := [], 0;
    var s := State(0, 0);
    ghost var whole := Ran(pg, s, n);
    assert visits + whole.0 == whole.0;
    NoTurns(pg, s);
    while s.pos < pg.commit
      invariant turns <= n && visits + Ran(pg, s, n - turns).0 == whole.0 && Ran(pg, s, n - turns).1 == whole.1
      invariant Ran(pg, State(0, 0), turns).1 == s && forall k: nat :: k < turns ==> !EndsIn(pg, k)
      invariant SaneLengths(pg) ==> 4 * turns <= s.pos && (turns > 0 ==> 4 * (turns - 1) < pg.commit)
      decreases n - turns
    {
      if !Runs(pg, s) {
        break;
      }
      if SaneLengths(pg) {
        SaneStep(pg, s);
      }
      GoesFurther(pg, s, n - turns);
      RanNext(pg, s, n - turns, visits);
      RanMore(pg, State(0, 0), turns);
      visits := visits + Reported(pg, s);
      s := Next(pg, s);
      turns := turns + 1;
    }
    Stopped(pg, s, n - turns);
    assert visits + [] == visits;
    forall k: nat | EndsIn(pg, k) ensures visits == Ran(pg, State(0, 0), k).0 && turns <= k {
      RanUnique(pg, State(0, 0), n, k);
    }
  }

  lemma NoTurns(pg: Page, s: State)
    ensures Ran(pg, s, 0) == ([], s)
  {
  }

  lemma Stopped(pg: Page, s: State, n: nat)
    requires s.pos >= pg.commit || !Runs(pg, s)
    ensures !Runs(pg, s) && Ran(pg, s, n).0 == []
  {
    hide U;
  }

  lemma SaneStep(pg: Page, s: State)
    requires SaneLengths(pg) && Runs(pg, s)
    ensures Next(pg, s).pos >= s.pos + 4 && s.pos < pg.commit
  {
    hide Next;
    SaneProgress(pg, s);
  }

  lemma GoesFurther(pg: Page, s: State, n: nat)
    requires Runs(pg, s) && !Runs(pg, Ran(pg, s, n).1)
    ensures n > 0 && s.pos >= 0
  {
    hide U, Next;
  }

  /** One turn more. */
  lemma {:induction false} RanMore(pg: Page, s: State, n: nat)
    requires Runs(pg, Ran(pg, s, n).1)
    ensures Ran(pg, s, n + 1).1 == Next(pg, Ran(pg, s, n).1)
    decreases n
  {
    hide U, Next, Reported;
    if n > 0 {
      RanMore(pg, Next(pg, s), n - 1);
    }
  }

  // ---------------------------------------------------------------- when the loop ends

  lemma {:induction false} RanAdd(pg: Page, s: State, a: nat, b: nat)
    ensures Ran(pg, s, a + b).1 == Ran(pg, Ran(pg, s, a).1, b).1
    decreases a
  {
    hide U, Next, Reported;
    if a > 0 && Runs(pg, s) {
      RanAdd(pg, Next(pg, s), a - 1, b);
    }
  }

  /** Where the loop goes depends on its position alone. */
  lemma {:induction false} SamePath(pg: Page, s: State, t: State, n: nat)
    requires s.pos == t.pos
    ensures Ran(pg, s, n).1.pos == Ran(pg, t, n).1.pos
    decreases n
  {
    hide U, TraceLen, Reported;
    if n > 0 && Runs(pg, s) {
      SamePath(pg, Next(pg, s), Next(pg, t), n - 1);
    }
  }

  /** The position after `n` turns. */
  function PosAfter(pg: Page, n: nat): int {
    Ran(pg, State(0, 0), n).1.pos
  }

  /** The loop takes exactly `n` turns. */
  ghost predicate Takes(pg: Page, n: nat) {
    EndsIn(pg, n) && forall k: nat :: k < n ==> !EndsIn(pg, k)
  }

  lemma TakesSome(pg: Page, n: nat) returns (k: nat)
    requires EndsIn(pg, n)
    ensures k <= n && Takes(pg, k)
  {
    hide EndsIn;
    k := 0;
    while !EndsIn(pg, k)
      invariant k <= n && forall j: nat :: j < k ==> !EndsIn(pg, j)
      decreases n - k
    {
      k := k + 1;
    }
  }

  /** A loop that ends never returns to a position. */
  lemma NoReturn(pg: Page, n: nat, i: nat, j: nat)
    requires Takes(pg, n) && i < j < n
    ensures PosAfter(pg, i) != PosAfter(pg, j)
  {
    hide Ran, Runs;
    var s0 := State(0, 0);
    var d := n - j;
    RanAdd(pg, s0, j, d);
    RanAdd(pg, s0, i, d);
    assert !EndsIn(pg, i + d);
    if PosAfter(pg, i) == PosAfter(pg, j) {
      SamePath(pg, Ran(pg, s0, i).1, Ran(pg, s0, j).1, d);
      SameRuns(pg, Ran(pg, s0, i + d).1, Ran(pg, s0, n).1);
    }
  }

  lemma SameRuns(pg: Page, s: State, t: State)
    requires s.pos == t.pos
    ensures Runs(pg, s) == Runs(pg, t)
  {
  }

  lemma RunsInside(pg: Page, n: nat)
    requires !EndsIn(pg, n)
    ensures 0 <= PosAfter(pg, n) < pg.commit
  {
    hide Ran;
  }

  ghost function Positions(pg: Page, n: nat): set<int> {
    if n == 0 then {} else Positions(pg, n - 1) + {PosAfter(pg, n - 1)}
  }

  /** Position `x` was met within `k` turns. */
  ghost predicate Met(pg: Page, k: nat, x: int) {
    exists i: nat :: i < k && PosAfter(pg, i) == x
  }

  lemma {:induction false} PositionsMet(pg: Page, k: nat, x: int)
    ensures x in Positions(pg, k) <==> Met(pg, k, x)
  {
    hide PosAfter;
    if k > 0 {
      PositionsMet(pg, k - 1, x);
      assert PosAfter(pg, k - 1) == x ==> Met(pg, k, x);
    }
  }

  lemma {:induction false} PositionsCount(pg: Page, n: nat, k: nat)
    requires Takes(pg, n) && k <= n
    ensures |Positions(pg, k)| == k
  {
    hide PosAfter, EndsIn;
    if k > 0 {
      PositionsCount(pg, n, k - 1);
      NewPosition(pg, n, k - 1);
    }
  }

  lemma NewPosition(pg: Page, n: nat, k: nat)
    requires Takes(pg, n) && k < n
    ensures PosAfter(pg, k) !in Positions(pg, k)
  {
    hide PosAfter, EndsIn, Positions;
    PositionsMet(pg, k, PosAfter(pg, k));
    forall i: nat | i < k ensures PosAfter(pg, i) != PosAfter(pg, k) {
      NoReturn(pg, n, i, k);
    }
  }

  lemma PositionsInside(pg: Page, n: nat, x: int)
    requires Takes(pg, n) && x in Positions(pg, n)
    ensures 0 <= x < pg.commit
  {
    hide PosAfter, EndsIn, Positions;
    PositionsMet(pg, n, x);
    var i: nat :| i < n && PosAfter(pg, i) == x;
    RunsInside(pg, i);
  }

  lemma {:induction false} FewerThan(xs: set<int>, n: nat)
    requires forall x :: x in xs ==> 0 <= x < n
    ensures |xs| <= n
  {
    if n == 0 {
      assert forall x :: x !in xs;
      assert xs == {};
    } else {
      FewerThan(xs - {n - 1}, n - 1);
    }
  }

  /** The loop ends if and only if it ends within as many turns as there are committed bytes. */
  lemma EndsIff(pg: Page)
    ensures (exists n: nat :: EndsIn(pg, n)) <==> EndsIn(pg, pg.commit)
  {
    hide EndsIn;
    if n: nat :| EndsIn(pg, n) {
      var k := TakesSome(pg, n);
      PositionsCount(pg, k, k);
      forall x | x in Positions(pg, k) ensures 0 <= x < pg.commit {
        PositionsInside(pg, k, x);
      }
      FewerThan(Positions(pg, k), pg.commit);
      StaysEnded(pg, k, pg.commit);
    }
  }

  /** No length word is negative as an `int`. */
  ghost predicate NoneNegative(pg: Page) {
    pg.commit < 0x8000_0000 && forall p: nat :: (4 + pg.tail(p)) % 0x1_0000_0000 < 0x8000_0000
  }

  /** After `k` turns the loop stands at a record of length 0: a length word of 2^32 - 4. */
  ghost predicate ZeroMet(pg: Page, k: nat) {
    !EndsIn(pg, k) && PosAfter(pg, k) >= 0 && TraceLen(pg, PosAfter(pg, k)) == 0
  }

  lemma NeverBack(pg: Page, s: State)
    requires NoneNegative(pg) && Runs(pg, s)
    ensures TraceLen(pg, s.pos) >= 0 && Next(pg, s).pos == s.pos + TraceLen(pg, s.pos)
  {
    hide U;
    assert (4 + pg.tail(s.pos)) % 0x1_0000_0000 < 0x8000_0000;
  }

  /** Without a record of length 0 every turn takes at least one byte. */
  lemma {:induction false} PosAtLeast(pg: Page, k: nat)
    requires NoneNegative(pg) && !EndsIn(pg, k) && forall j: nat :: !ZeroMet(pg, j)
    ensures PosAfter(pg, k) >= k
  {
    hide Runs, Next, TraceLen, Ran, NoneNegative;
    if k == 0 {
      NoTurns(pg, State(0, 0));
    } else {
      if EndsIn(pg, k - 1) {
        StaysEnded(pg, k - 1, k);
      }
      PosAtLeast(pg, k - 1);
      var s := Ran(pg, State(0, 0), k - 1).1;
      RanMore(pg, State(0, 0), k - 1);
      RunsInside(pg, k - 1);
      assert !ZeroMet(pg, k - 1);
      NeverBack(pg, s);
    }
  }

  /** A loop that meets a record of length 0 stays there. */
  lemma {:induction false} ZeroStays(pg: Page, k: nat, n: nat)
    requires ZeroMet(pg, k)
    ensures !EndsIn(pg, k + n) && PosAfter(pg, k + n) == PosAfter(pg, k)
    decreases n
  {
    hide Ran;
    if n > 0 {
      ZeroStays(pg, k, n - 1);
      hide U, TraceLen;
      var s := Ran(pg, State(0, 0), k + n - 1).1;
      RanMore(pg, State(0, 0), k + n - 1);
      SameRuns(pg, s, Next(pg, s));
    }
  }

  /** If no length word is negative, the loop ends if and only if it meets no record of length 0. */
  lemma EndsUnlessZero(pg: Page)
    requires NoneNegative(pg)
    ensures (exists n: nat :: EndsIn(pg, n)) <==> forall k: nat :: !ZeroMet(pg, k)
  {
    hide EndsIn, ZeroMet, NoneNegative;
    if n: nat, k: nat :| EndsIn(pg, n) && ZeroMet(pg, k) {
      ZeroStays(pg, k, n);
      StaysEnded(pg, n, k + n);
    }
    if forall k: nat :: !ZeroMet(pg, k) {
      CommitEnds(pg);
    }
  }

  lemma CommitEnds(pg: Page)
    requires NoneNegative(pg) && forall k: nat :: !ZeroMet(pg, k)
    ensures EndsIn(pg, pg.commit)
  {
    hide EndsIn, ZeroMet, NoneNegative, PosAfter;
    if !EndsIn(pg, pg.commit) {
      PosAtLeast(pg, pg.commit);
      RunsInside(pg, pg.commit);
    }
  }

  lemma StaysEnded(pg: Page, k: nat, n: nat)
    requires EndsIn(pg, k) && k <= n
    ensures EndsIn(pg, n)
  {
    hide Runs;
    RanAdd(pg, State(0, 0), k, n - k);
  }

  /** A long record with length word 2^32 - 4 has length 0: the loop then never ends. */
  lemma StuckForever(pg: Page, n: nat)
    requires |pg.mem| >= 4 && pg.commit > 0 && TypeLen(pg, 0) == 0 && pg.tail(0) == 0xffff_fffc
    ensures !EndsIn(pg, n) && Ran(pg, State(0, 0), n).1.pos == 0
  {
    StuckFrom(pg, State(0, 0), n);
  }

  lemma {:induction false} StuckFrom(pg: Page, s: State, n: nat)
    requires |pg.mem| >= 4 && pg.commit > 0 && TypeLen(pg, 0) == 0 && pg.tail(0) == 0xffff_fffc && s.pos == 0
    ensures Runs(pg, Ran(pg, s, n).1) && Ran(pg, s, n).1.pos == 0
    decreases n
  {
    hide U;
    if n > 0 {
      StuckFrom(pg, Next(pg, s), n - 1);
    }
  }

  // ---------------------------------------------------------------- encoding

  /** What the kernel writes: short and long data, time extensions, absolute times and discarded data. */
  datatype Record =
    | Short(delta: nat, payload: bytes)
    | Long(delta: nat, payload: bytes)
    | Extend(delta: nat, ext: nat)
    | Absolute(delta: nat, word: nat)
    | Discarded(delta: nat, payload: bytes)

  predicate IsData(r: Record) {
    r.Short? || r.Long?
  }

  predicate ValidRecord(r: Record) {
    && r.delta < 0x800_0000
    && match r
       case Short(_, p) => |p| % 4 == 0 && 4 <= |p| <= 112
       case Long(_, p) => |p| < 0x7fff_fff8
       case Extend(_, e) => e < 0x1_0000_0000
       case Absolute(_, w) => w < 0x1_0000_0000
       case Discarded(d, p) => d == 1 && |p| < 0x7fff_fff8
  }

  function Kind(r: Record): nat {
    match r
    case Short(_, p) => |p| / 4
    case Long(_, _) => 0
    case Extend(_, _) => 30
    case Absolute(_, _) => 31
    case Discarded(_, _) => 29
  }

  function HeaderWord(r: Record): nat {
    r.delta * 32 + Kind(r)
  }

  function Body(r: Record): bytes {
    match r
    case Short(_, p) => p
    case Long(_, p) => LE(|p| + 4, 4) + p
    case Extend(_, e) => LE(e, 4)
    case Absolute(_, w) => LE(w, 4)
    case Discarded(_, p) => LE(|p| + 4, 4) + p
  }

  function Encode(r: Record): (bs: bytes)
    ensures |bs| >= 4
  {
    LE(HeaderWord(r), 4) + Body(r)
  }

  function EncodeFrom(rs: seq<Record>, i: nat): bytes
    decreases |rs| - i
  {
    if i >= |rs| then [] else Encode(rs[i]) + EncodeFrom(rs, i + 1)
  }

  /** The time that record `r` adds when extend words are shifted in 32 bits (as here) or in 64
      bits (as meant). */
  function Added(r: Record): nat {
    r.delta + if r.Extend? then r.ext * 0x800_0000 % 0x1_0000_0000 else 0
  }

  function Meant(r: Record): nat {
    r.delta + if r.Extend? then r.ext * 0x800_0000 else 0
  }

  /** The time behind record `r`; an absolute time sets it back to that of the page. */
  function TimeBehind(r: Record, time: nat): nat {
    if r.Absolute? then 0 else time + Added(r)
  }

  /** The records a reader should see: every data record, in order, at its payload, with the page
      stamp plus the deltas so far. */
  function Expected(rs: seq<Record>, i: nat, pos: nat, time: nat, stamp: nat): seq<Visit>
    decreases |rs| - i
  {
    if i >= |rs| then []
    else
      var now := time + rs[i].delta;
      (match rs[i]
       case Short(_, _) => [Visit(pos + 4, (stamp + now) % 0x1_0000_0000_0000_0000)]
       case Long(_, _) => [Visit(pos + 8, (stamp + now) % 0x1_0000_0000_0000_0000)]
       case _ => [])
      + Expected(rs, i + 1, pos + |Encode(rs[i])|, TimeBehind(rs[i], time), stamp)
  }

  /** For every record with a length word the decoder's length word is the one that was written. */
  ghost predicate LengthsSeen(pg: Page, rs: seq<Record>, i: nat, pos: nat)
    decreases |rs| - i
  {
    i >= |rs| || ((rs[i].Long? || rs[i].Discarded? ==> pg.tail(pos) == |rs[i].payload| + 4) &&
      LengthsSeen(pg, rs, i + 1, pos + |Encode(rs[i])|))
  }

  lemma HeaderReads(pg: Page, r: Record, pos: nat)
    requires ValidRecord(r) && Holds(pg.mem, pos, Encode(r))
    ensures pos + |Encode(r)| <= |pg.mem|
    ensures U(pg.mem, pos, 4) == HeaderWord(r) && Holds(pg.mem, pos + 4, Body(r))
  {
    assert Agrees(pg.mem, pos, Encode(r), |Encode(r)| - 1);
    hide Holds, U, LE;
    Pow256Values();
    TakeWord(pg.mem, pos, HeaderWord(r), 4, Body(r));
  }

  lemma HeaderFields(r: Record)
    ensures HeaderWord(r) / 32 == r.delta || !ValidRecord(r)
    ensures ValidRecord(r) ==>
            HeaderWord(r) % 32 == match r
                                  case Short(_, p) => |p| / 4
                                  case Long(_, _) => 0
                                  case Extend(_, _) => 30
                                  case Absolute(_, _) => 31
                                  case Discarded(_, _) => 29
  {
  }

  /** The reported time of `r` in state `s`. */
  function Stamped(pg: Page, s: State, r: Record): nat {
    (pg.stamp + (s.time + r.delta)) % 0x1_0000_0000_0000_0000
  }

  /** One turn over one encoded record. */
  lemma TurnReads(pg: Page, r: Record, s: State)
    requires ValidRecord(r) && s.pos >= 0 && Holds(pg.mem, s.pos, Encode(r)) && s.pos + |Encode(r)| <= pg.commit
    requires r.Long? || r.Discarded? ==> pg.tail(s.pos) == |r.payload| + 4
    requires r.Discarded? ==> s.pos + 16 <= pg.commit
    ensures Runs(pg, s) && Next(pg, s) == State(s.pos + |Encode(r)|, TimeBehind(r, s.time))
    ensures Reported(pg, s) == match r
                               case Short(_, _) => [Visit(s.pos + 4, Stamped(pg, s, r))]
                               case Long(_, _) => [Visit(s.pos + 8, Stamped(pg, s, r))]
                               case _ => []
  {
    hide Holds, U, LE;
    HeaderReads(pg, r, s.pos);
    HeaderFields(r);
    if r.Extend? {
      Pow256Values();
      WordHeld(pg.mem, s.pos + 4, r.ext, 4);
    }
  }

  lemma {:induction false} DecodesFrom(pg: Page, rs: seq<Record>, i: nat, s: State)
    requires s.pos >= 0 && i <= |rs| && (forall k :: 0 <= k < |rs| ==> ValidRecord(rs[k]))
    requires Holds(pg.mem, s.pos, EncodeFrom(rs, i)) && s.pos + |EncodeFrom(rs, i)| == pg.commit
    requires LengthsSeen(pg, rs, i, s.pos)
    ensures Ran(pg, s, |rs| - i).0 == Expected(rs, i, s.pos, s.time, pg.stamp)
    ensures !Runs(pg, Ran(pg, s, |rs| - i).1)
    decreases |rs| - i
  {
    hide Holds, Encode, Runs, Next, Reported, ValidRecord, TimeBehind;
    if i == |rs| {
      Stopped(pg, s, 0);
    } else {
      HoldsConcat(pg.mem, s.pos, Encode(rs[i]), EncodeFrom(rs, i + 1));
      if rs[i].Discarded? && s.pos + 16 > pg.commit {
        TooShort(rs, i, pg.commit - s.pos);
        DiscardStops(pg, rs[i], s);
        NoneExpected(rs, i + 1, s.pos + |Encode(rs[i])|, TimeBehind(rs[i], s.time), pg.stamp);
      } else {
        TurnReads(pg, rs[i], s);
        DecodesFrom(pg, rs, i + 1, Next(pg, s));
      }
    }
  }

  lemma NoneExpected(rs: seq<Record>, i: nat, pos: nat, time: nat, stamp: nat)
    requires i >= |rs|
    ensures Expected(rs, i, pos, time, stamp) == []
  {
  }

  lemma RecordSize(r: Record)
    requires ValidRecord(r)
    ensures |Encode(r)| >= 8
  {
  }

  /** In less than 16 bytes there is room for one record. */
  lemma TooShort(rs: seq<Record>, i: nat, n: nat)
    requires i < |rs| && (forall k :: 0 <= k < |rs| ==> ValidRecord(rs[k])) && |EncodeFrom(rs, i)| == n < 16
    ensures i + 1 == |rs|
  {
    hide ValidRecord, Encode;
    RecordSize(rs[i]);
    if i + 1 < |rs| {
      RecordSize(rs[i + 1]);
    }
  }

  /** Less than 16 bytes before the committed end discarded data ends the loop, like padding. */
  lemma DiscardStops(pg: Page, r: Record, s: State)
    requires ValidRecord(r) && r.Discarded? && s.pos >= 0 && Holds(pg.mem, s.pos, Encode(r)) &&
             s.pos + 16 > pg.commit
    ensures !Runs(pg, s)
  {
    hide Holds, U, LE;
    HeaderReads(pg, r, s.pos);
    HeaderFields(r);
  }

  /** Decoding a page inverts encoding it: for any sequence of records that fills the committed
      bytes, one turn per record ends the loop and exactly the data records are reported, in order,
      at their payloads, with the page stamp plus the deltas so far. */
  lemma PageDecodes(pg: Page, rs: seq<Record>)
    requires forall k :: 0 <= k < |rs| ==> ValidRecord(rs[k])
    requires Holds(pg.mem, 0, EncodeFrom(rs, 0)) && |EncodeFrom(rs, 0)| == pg.commit
    requires LengthsSeen(pg, rs, 0, 0)
    ensures EndsIn(pg, |rs|) && Ran(pg, State(0, 0), |rs|).0 == Expected(rs, 0, 0, 0, pg.stamp)
  {
    hide Holds, EncodeFrom, Runs, ValidRecord, Ran, Expected, LengthsSeen;
    DecodesFrom(pg, rs, 0, State(0, 0));
  }

  // ---------------------------------------------------------------- time

  /** The time behind the first `n` records, as here and as meant. */
  function AddedSum(rs: seq<Record>, n: nat): nat
    requires n <= |rs|
  {
    if n == 0 then 0 else TimeBehind(rs[n - 1], AddedSum(rs, n - 1))
  }

  function MeantSum(rs: seq<Record>, n: nat): nat
    requires n <= |rs|
  {
    if n == 0 || rs[n - 1].Absolute? then 0 else MeantSum(rs, n - 1) + Meant(rs[n - 1])
  }

  /** The number of records up to the last absolute time among the first `n`. */
  function Since(rs: seq<Record>, n: nat): (m: nat)
    requires n <= |rs|
    ensures m <= n && (forall k :: m <= k < n ==> !rs[k].Absolute?) && (m > 0 ==> rs[m - 1].Absolute?)
  {
    if n == 0 || rs[n - 1].Absolute? then n else Since(rs, n - 1)
  }

  lemma ShiftLoses(r: Record)
    ensures Added(r) <= Meant(r)
    ensures Added(r) == Meant(r) <==> (r.Extend? ==> r.ext < 32)
  {
    if r.Extend? {
      if r.ext < 32 {
      } else {
        assert r.ext * 0x800_0000 >= 0x1_0000_0000;
      }
    }
  }

  lemma {:induction false} SumsExact(rs: seq<Record>, n: nat)
    requires n <= |rs|
    ensures AddedSum(rs, n) <= MeantSum(rs, n)
    ensures AddedSum(rs, n) == MeantSum(rs, n) <==>
            forall k :: Since(rs, n) <= k < n && rs[k].Extend? ==> rs[k].ext < 32
  {
    hide Added, Meant;
    if n > 0 {
      SumsExact(rs, n - 1);
      ShiftLoses(rs[n - 1]);
    }
  }

  /** The data records before record `i`: the place of record `i` among the reported ones. */
  function DataBefore(rs: seq<Record>, i: nat): nat
    requires i <= |rs|
  {
    if i == 0 then 0 else DataBefore(rs, i - 1) + if IsData(rs[i - 1]) then 1 else 0
  }

  lemma ExpectedStep(rs: seq<Record>, k: nat, pos: nat, stamp: nat) returns (own: seq<Visit>)
    requires k < |rs|
    ensures Expected(rs, k, pos, AddedSum(rs, k), stamp)
            == own + Expected(rs, k + 1, pos + |Encode(rs[k])|, AddedSum(rs, k + 1), stamp)
    ensures |own| == if IsData(rs[k]) then 1 else 0
    ensures own != [] ==> own[0].time == (stamp + (AddedSum(rs, k) + rs[k].delta)) % 0x1_0000_0000_0000_0000
  {
    hide Encode, TimeBehind;
    var time := (stamp + (AddedSum(rs, k) + rs[k].delta)) % 0x1_0000_0000_0000_0000;
    own := match rs[k]
    case Short(_, _) => [Visit(pos + 4, time)]
    case Long(_, _) => [Visit(pos + 8, time)]
    case _ => [];
  }

  /** Data record `i` is reported at its place, with the page stamp, the running time and its own
      delta. */
  lemma {:induction false} ReportedAt(rs: seq<Record>, k: nat, pos: nat, stamp: nat, i: nat)
    requires k <= i < |rs| && IsData(rs[i])
    ensures var vs, j := Expected(rs, k, pos, AddedSum(rs, k), stamp), DataBefore(rs, i) - DataBefore(rs, k);
            0 <= j < |vs| && vs[j].time == (stamp + (AddedSum(rs, i) + rs[i].delta)) % 0x1_0000_0000_0000_0000
    decreases i - k
  {
    hide Encode, Expected, AddedSum;
    var own := ExpectedStep(rs, k, pos, stamp);
    if k < i {
      assert DataBefore(rs, k + 1) == DataBefore(rs, k) + |own|;
      ReportedAt(rs, k + 1, pos + |Encode(rs[k])|, stamp, i);
    }
  }

  lemma SameRemainder(x: nat, a: nat, b: nat)
    requires a <= b < 0x1_0000_0000_0000_0000
    ensures (x + a) % 0x1_0000_0000_0000_0000 == (x + b) % 0x1_0000_0000_0000_0000 <==> a == b
  {
  }

  /** The reported time of data record `i` is the page stamp plus all time that was meant before it if
      and only if every extend word behind the last absolute time before it is below 32. */
  lemma TimeExact(rs: seq<Record>, i: nat, stamp: nat)
    requires i < |rs| && IsData(rs[i]) && MeantSum(rs, i) < 0x1_0000_0000_0000_0000
    ensures DataBefore(rs, i) < |Expected(rs, 0, 0, 0, stamp)|
    ensures Expected(rs, 0, 0, 0, stamp)[DataBefore(rs, i)].time
            == (stamp + MeantSum(rs, i) + rs[i].delta) % 0x1_0000_0000_0000_0000
            <==> forall k :: Since(rs, i) <= k < i && rs[k].Extend? ==> rs[k].ext < 32
  {
    hide Expected, AddedSum, MeantSum, DataBefore;
    NothingAdded(rs);
    ReportedAt(rs, 0, 0, stamp, i);
    SumsExact(rs, i);
    var time := Expected(rs, 0, 0, 0, stamp)[DataBefore(rs, i)].time;
    TimesAgree(stamp, rs[i].delta, AddedSum(rs, i), MeantSum(rs, i), time);
  }

  lemma NothingAdded(rs: seq<Record>)
    ensures AddedSum(rs, 0) == 0 && DataBefore(rs, 0) == 0
  {
  }

  lemma TimesAgree(stamp: nat, delta: nat, a: nat, b: nat, time: nat)
    requires a <= b < 0x1_0000_0000_0000_0000 && time == (stamp + (a + delta)) % 0x1_0000_0000_0000_0000
    ensures time == (stamp + b + delta) % 0x1_0000_0000_0000_0000 <==> a == b
  {
    var x := stamp + delta;
    assert stamp + (a + delta) == x + a && stamp + b + delta == x + b;
    SameRemainder(x, a, b);
  }

  /** Behind 2^64 units of meant time lost words can cancel out: 64 extend words of 2^31 add nothing,
      and nothing is what 64 bits keep of the 2^64 units they stand for. */
  lemma {:induction false} LostTimeWraps(n: nat)
    requires n <= 64
    ensures var rs := seq(64, _ => Extend(0, 0x8000_0000));
            AddedSum(rs, n) == 0 && MeantSum(rs, n) == n * 0x400_0000_0000_0000
  {
    if n > 0 {
      LostTimeWraps(n - 1);
    }
  }

  /** A plain padding record ends the loop if and only if it starts less than 16 bytes before the
      committed end; otherwise the loop goes on 12 bytes before that end, inside the padding. */
  lemma PaddingStopsShort(pg: Page, s: State)
    requires 0 <= s.pos < pg.commit < 0x8000_0000 && s.pos + 4 <= |pg.mem|
    requires TypeLen(pg, s.pos) == 29 && Delta(pg, s.pos) != 1
    ensures !Runs(pg, s) <==> s.pos + 16 > pg.commit
    ensures Runs(pg, s) ==> Next(pg, s).pos == pg.commit - 12
  {
    hide U;
  }
}
