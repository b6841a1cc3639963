/** Reading the end of a finished trace.dat the way trace-cmd does: the CPU count, the options one
    after the other, and each array's table and pages from the position that names it. */
module TraceRead {
  import opened Bytes
  import opened Writes
  import opened TraceDat
  import opened TraceBuffers

  /** What an option says about an instance. */
  datatype Instance = Instance(offset: nat, name: bytes)

  /** The options from `p` on, up to the option 0, and where they end. Only option 3, an instance
      buffer, is known. */
  function ReadOptions(d: bytes, p: nat): Option<(seq<Instance>, nat)>
    decreases |d| - p
  {
    if p >= |d| || U(d, p, 2) == 0 then Some(([], p + 2))
    else
      var size := U(d, p + 2, 4);
      if U(d, p, 2) != 3 || size < 9 || p + 6 + size > |d| then None
      else
        match ReadOptions(d, p + 6 + size)
        case None => None
        case Some((xs, end)) => Some(([Instance(U(d, p + 6, 8), Sub(d, p + 14, size - 9))] + xs, end))
  }

  /** The instances among the arrays from `i` on. */
  function InstancesFrom(ts: seq<Array>, os: seq<nat>, i: nat): seq<Instance>
    requires i <= |ts| == |os|
    decreases |ts| - i
  {
    if i == |ts| then []
    else (if ts[i].Global() then [] else [Instance(os[i], ts[i].name)]) + InstancesFrom(ts, os, i + 1)
  }

  /** One option record is read and the next one is behind it. */
  lemma OptionReads(d: bytes, p: nat, nr: nat, ts: seq<Array>, os: seq<nat>, i: nat)
    requires i < |ts| == |os| && !ts[i].Global() && Holds(d, p, ResBytes(nr, ts, os))
    requires os[i] < 0x1_0000_0000_0000_0000 && |ts[i].name| + 9 < 0x1_0000_0000
    ensures var q := p + OptionPos(ts, i);
            && q < |d| && U(d, q, 2) == 3 && q + 6 + U(d, q + 2, 4) == p + OptionPos(ts, i + 1) <= |d|
            && U(d, q + 2, 4) == |ts[i].name| + 9 && U(d, q + 6, 8) == os[i]
            && Sub(d, q + 14, |ts[i].name|) == ts[i].name
  {
    hide U, ResBytes, Sub, Holds, Ascii;
    ResReads(d, p, nr, ts, os, i);
    NameHeld(d, p + OptionPos(ts, i) + 14, ts[i].name);
  }

  lemma NameHeld(d: bytes, p: nat, name: bytes)
    requires Holds(d, p, name + [0])
    ensures p + |name| + 1 <= |d| && Sub(d, p, |name|) == name
  {
    hide Sub;
    var bs := name + [0];
    assert Agrees(d, p, bs, |name|);
    HoldsPrefix(d, p, name, [0]);
    SubHeld(d, p, name);
  }

  lemma TailReads(d: bytes, p: nat, nr: nat, ts: seq<Array>, os: seq<nat>)
    requires |ts| == |os| && Holds(d, p, ResBytes(nr, ts, os)) && nr < 0x1_0000_0000
    ensures U(d, p, 4) == nr && Holds(d, p + 4, Ascii("options  ") + [0])
    ensures var q := p + OptionPos(ts, |ts|); U(d, q, 2) == 0 && Holds(d, q + 2, Ascii("flyrecord") + [0])
  {
    hide Holds, U, LE, OptionsTo;
    Pow256Values();
    var rest := OptionsTo(ts, os, |ts|) + ResTail();
    HoldsConcat(d, p, ResHead(nr), rest);
    OptionsLength(ts, os, |ts|);
    HoldsConcat(d, p + 14, OptionsTo(ts, os, |ts|), ResTail());
    TakeWord(d, p, nr, 4, OptionsTag());
    TakeWord(d, p + OptionPos(ts, |ts|), 0, 2, FlyTag());
  }

  lemma {:induction false} OptionsRead(d: bytes, p: nat, nr: nat, ts: seq<Array>, os: seq<nat>, i: nat)
    requires i <= |ts| == |os| && Holds(d, p, ResBytes(nr, ts, os)) && nr < 0x1_0000_0000
    requires forall k :: 0 <= k < |ts| ==> os[k] < 0x1_0000_0000_0000_0000 && |ts[k].name| + 9 < 0x1_0000_0000
    ensures ReadOptions(d, p + OptionPos(ts, i)) == Some((InstancesFrom(ts, os, i), p + OptionPos(ts, |ts|) + 2))
    decreases |ts| - i
  {
    hide Holds, U, ResBytes, Sub;
    if i == |ts| {
      TailReads(d, p, nr, ts, os);
    } else {
      OptionsRead(d, p, nr, ts, os, i + 1);
      if ts[i].Global() {
        assert [] + InstancesFrom(ts, os, i + 1) == InstancesFrom(ts, os, i + 1);
      } else {
        OptionReads(d, p, nr, ts, os, i);
      }
    }
  }

  /** Instances are listed in order: each behind as many as precede it. */
  lemma {:induction false} InstanceAt(ts: seq<Array>, os: seq<nat>, j: nat, i: nat)
    requires j <= i <= |ts| == |os|
    ensures |InstancesTo(ts, j)| <= |InstancesTo(ts, i)|
    ensures |InstancesFrom(ts, os, j)| == |InstancesTo(ts, |ts|)| - |InstancesTo(ts, j)|
    ensures i < |ts| && !ts[i].Global() ==>
              var k := |InstancesTo(ts, i)| - |InstancesTo(ts, j)|;
              k < |InstancesFrom(ts, os, j)| && InstancesFrom(ts, os, j)[k] == Instance(os[i], ts[i].name)
    decreases |ts| - j
  {
    hide Ascii;
    if j < |ts| {
      InstanceAt(ts, os, j + 1, if i == j then j + 1 else i);
    }
  }

  // ---------------------------------------------------------------- pages

  lemma {:induction false} PageHeld(d: bytes, p: nat, ps: seq<bytes>, page: nat, n: nat, k: nat)
    requires k < n <= |ps| && Holds(d, p, JoinTo(ps, n)) && forall i :: 0 <= i < |ps| ==> |ps[i]| == page
    ensures Holds(d, p + page * k, ps[k])
    decreases n
  {
    hide Holds;
    HoldsConcat(d, p, JoinTo(ps, n - 1), ps[n - 1]);
    PagesLength(ps, page, n - 1);
    if k < n - 1 {
      PageHeld(d, p, ps, page, n - 1, k);
    }
  }

  /** The entry at `e` names a page-aligned range that is exactly the pages `ps`, in order. */
  ghost predicate NamesPages(d: bytes, e: nat, ps: seq<bytes>, page: nat)
    requires page > 0
  {
    && U(d, e, 8) % page == 0 && U(d, e + 8, 8) == page * |ps|
    && forall k :: 0 <= k < |ps| ==> Holds(d, U(d, e, 8) + page * k, ps[k])
  }

  /** The range of entry `c` begins where the one before ends; the first one at the next page boundary
      behind the table. */
  ghost predicate Packed(d: bytes, q: nat, a: Array, page: nat, c: nat) {
    if c == 0 then 0 <= U(d, q, 8) - (q + 16 * |a.bufs|) < page
    else U(d, q + 16 * c, 8) == U(d, q + 16 * c - 16, 8) + U(d, q + 16 * c - 8, 8)
  }

  /** A table with one entry per CPU at `q`. */
  ghost predicate ArrayReads(d: bytes, q: nat, a: Array, page: nat)
    requires page > 0
  {
    forall c: nat :: c < |a.bufs| ==> NamesPages(d, q + 16 * c, a.bufs[c], page) && Packed(d, q, a, page, c)
  }

  /** The end of all arrays. */
  function BuffersEnd(ts: seq<Array>, page: nat, at: nat): nat
    requires page > 0
  {
    OrderInRange(ts);
    ArrayPos(ts, page, Order(ts), BuffersAt(at, ts), |Order(ts)|)
  }

  /** Every position lies before the end. */
  lemma BeforeEnd(ts: seq<Array>, page: nat, at: nat, i: nat, c: nat)
    requires ValidArrays(ts, page) && i < |ts| && c <= |ts[i].bufs|
    ensures Place(ts, page, at, i) <= CpuPos(ts, page, at, i, c) <= BuffersEnd(ts, page, at)
    ensures c < |ts[i].bufs| ==>
              CpuPos(ts, page, at, i, c) + BufferSize(page, ts[i].bufs[c]) <= BuffersEnd(ts, page, at)
  {
    hide BufferSize, BufferPos, ValidArray, Tag, Rank, Order, InRange, Steps, ArrayPos, BuffersAt;
    OrderInRange(ts);
    RankOf(ts, i);
    var a, p, q := ts[i], BuffersAt(at, ts), Place(ts, page, at, i);
    NextPlace(ts, page, p, i);
    ArrayPosGrows(ts, page, Order(ts), p, Rank(ts, i) + 1, |Order(ts)|);
    BufferPosGrows(a, page, DataStart(a, page, q + |Tag(a)|), c, |a.bufs|);
  }

  lemma ArrayRead(d: bytes, at: nat, nr: nat, ts: seq<Array>, page: nat, stale: seq<nat>, i: nat)
    requires ValidArrays(ts, page) && |stale| == |ts| && i < |ts|
    requires BuffersEnd(ts, page, at) < 0x1_0000_0000_0000_0000
    ensures ArrayReads(TraceImage(d, at, nr, ts, page, stale), Place(ts, page, at, i) + |Tag(ts[i])|, ts[i], page)
  {
    hide Holds, TraceImage, U, Place, Tag, BuffersEnd, CpuPos, ValidArray, BufferSize;
    var F, a, q := TraceImage(d, at, nr, ts, page, stale), ts[i], Place(ts, page, at, i) + |Tag(ts[i])|;
    forall c: nat | c < |a.bufs| ensures NamesPages(F, q + 16 * c, a.bufs[c], page) && Packed(F, q, a, page, c) {
      PackedRead(d, at, nr, ts, page, stale, i, c);
      BeforeEnd(ts, page, at, i, c);
      TableNamesPages(d, at, nr, ts, page, stale, i, c);
      PageLengths(a, page, c);
      forall k | 0 <= k < |a.bufs[c]| ensures Holds(F, U(F, q + 16 * c, 8) + page * k, a.bufs[c][k]) {
        PageHeld(F, U(F, q + 16 * c, 8), a.bufs[c], page, |a.bufs[c]|, k);
      }
    }
  }

  lemma PackedRead(d: bytes, at: nat, nr: nat, ts: seq<Array>, page: nat, stale: seq<nat>, i: nat, c: nat)
    requires ValidArrays(ts, page) && |stale| == |ts| && i < |ts| && c < |ts[i].bufs|
    requires BuffersEnd(ts, page, at) < 0x1_0000_0000_0000_0000
    ensures Packed(TraceImage(d, at, nr, ts, page, stale), Place(ts, page, at, i) + |Tag(ts[i])|, ts[i], page, c)
  {
    hide Holds, TraceImage, U, Place, Tag, BuffersEnd, CpuPos, ValidArray, BufferSize;
    BeforeEnd(ts, page, at, i, c);
    TableNamesPages(d, at, nr, ts, page, stale, i, c);
    CpuFollows(ts, page, at, i, c);
    if c > 0 {
      BeforeEnd(ts, page, at, i, c - 1);
      TableNamesPages(d, at, nr, ts, page, stale, i, c - 1);
    }
  }

  lemma CpuFollows(ts: seq<Array>, page: nat, at: nat, i: nat, c: nat)
    requires page > 0 && i < |ts| && c < |ts[i].bufs|
    ensures if c == 0 then
              0 <= CpuPos(ts, page, at, i, 0) - (Place(ts, page, at, i) + |Tag(ts[i])| + 16 * |ts[i].bufs|) < page
            else CpuPos(ts, page, at, i, c) == CpuPos(ts, page, at, i, c - 1) + page * |ts[i].bufs[c - 1]|
  {
    hide Place, Tag;
  }

  lemma PageLengths(a: Array, page: nat, c: nat)
    requires ValidArray(a, page) && c < |a.bufs|
    ensures forall k :: 0 <= k < |a.bufs[c]| ==> |a.bufs[c][k]| == page
  {
  }

  // ---------------------------------------------------------------- the whole end of the file

  /** Instance `i` is option number `k`: its name, and at its position a "flyrecord" and the table. */
  ghost predicate InstanceReads(d: bytes, x: Instance, a: Array, page: nat)
    requires page > 0
  {
    x.name == a.name && Holds(d, x.offset, Ascii("flyrecord") + [0]) && ArrayReads(d, x.offset + 10, a, page)
  }

  /** What a reader of the finished file `d` gets at `at`. */
  ghost predicate EndReads(d: bytes, at: nat, nr: nat, ts: seq<Array>, page: nat)
    requires page > 0
  {
    && U(d, at, 4) == nr && Holds(d, at + 4, Ascii("options  ") + [0]) && ReadOptions(d, at + 14).Some?
    && var (xs, end) := ReadOptions(d, at + 14).value;
       && |xs| == |InstancesTo(ts, |ts|)| && Holds(d, end, Ascii("flyrecord") + [0])
       && (forall i: nat :: i < |ts| && !ts[i].Global() ==>
             |InstancesTo(ts, i)| < |xs| && InstanceReads(d, xs[|InstancesTo(ts, i)|], ts[i], page))
       && (forall i: nat :: i < |ts| && ts[i].Global() && GlobalsTo(ts, i) == [] ==>
             ArrayReads(d, end + 10, ts[i], page))
  }

  lemma BlockInFile(d: bytes, at: nat, nr: nat, ts: seq<Array>, page: nat, stale: seq<nat>)
    requires page > 0 && |stale| == |ts|
    ensures Holds(TraceImage(d, at, nr, ts, page, stale), at, ResBytes(nr, ts, NewOffsets(ts, page, BuffersAt(at, ts))))
  {
    hide Holds, ResBytes, Applied, WriteAt, Order, NewOffset, Steps, InRange;
    OrderInRange(ts);
    StepsLength(ts, page, BuffersAt(at, ts));
    HoldsWritten(Applied(WriteAt(d, at, ResBytes(nr, ts, stale)), Steps(ts, page, Order(ts), BuffersAt(at, ts)),
                         |Order(ts)|),
                 at, ResBytes(nr, ts, NewOffsets(ts, page, BuffersAt(at, ts))));
  }

  /** The first global array stands right behind the block. */
  lemma FirstGlobal(ts: seq<Array>, page: nat, at: nat, i: nat)
    requires page > 0 && i < |ts| && ts[i].Global() && GlobalsTo(ts, i) == []
    ensures Place(ts, page, at, i) + |Tag(ts[i])| == BuffersAt(at, ts)
  {
    hide Order, BuffersAt, FlyTag, InRange;
    OrderInRange(ts);
    RankOf(ts, i);
    FirstPos(ts, page, Order(ts), BuffersAt(at, ts));
  }

  lemma PlacesFit(ts: seq<Array>, page: nat, at: nat)
    requires ValidArrays(ts, page) && BuffersEnd(ts, page, at) < 0x1_0000_0000_0000_0000
    ensures var os := NewOffsets(ts, page, BuffersAt(at, ts));
            && (forall k :: 0 <= k < |ts| ==> os[k] < 0x1_0000_0000_0000_0000 && |ts[k].name| + 9 < 0x1_0000_0000)
            && forall k :: 0 <= k < |ts| ==> os[k] == Place(ts, page, at, k)
  {
    hide BuffersEnd, BuffersAt, NewOffset, CpuPos;
    var os := NewOffsets(ts, page, BuffersAt(at, ts));
    forall k | 0 <= k < |ts| ensures os[k] < 0x1_0000_0000_0000_0000 && |ts[k].name| + 9 < 0x1_0000_0000 {
      BeforeEnd(ts, page, at, k, 0);
      assert ValidArray(ts[k], page);
    }
  }

  lemma InstanceInFile(d: bytes, at: nat, nr: nat, ts: seq<Array>, page: nat, stale: seq<nat>, i: nat)
    requires ValidArrays(ts, page) && |stale| == |ts| && i < |ts| && !ts[i].Global()
    requires BuffersEnd(ts, page, at) < 0x1_0000_0000_0000_0000
    ensures InstanceReads(TraceImage(d, at, nr, ts, page, stale), Instance(Place(ts, page, at, i), ts[i].name), ts[i],
                          page)
  {
    hide BuffersEnd, TraceImage, Place, CpuPos, ArrayReads, Holds, ValidArray, OptionPos, Ascii;
    BeforeEnd(ts, page, at, i, 0);
    OptionNamesTag(d, at, nr, ts, page, stale, i);
    ArrayRead(d, at, nr, ts, page, stale, i);
  }

  lemma InstancesRead(d: bytes, at: nat, nr: nat, ts: seq<Array>, page: nat, stale: seq<nat>, i: nat)
    requires ValidArrays(ts, page) && |stale| == |ts| && i < |ts| && !ts[i].Global()
    requires BuffersEnd(ts, page, at) < 0x1_0000_0000_0000_0000
    ensures var F, xs := TraceImage(d, at, nr, ts, page, stale),
              InstancesFrom(ts, NewOffsets(ts, page, BuffersAt(at, ts)), 0);
            |InstancesTo(ts, i)| < |xs| && InstanceReads(F, xs[|InstancesTo(ts, i)|], ts[i], page)
  {
    hide BuffersEnd, TraceImage, Place, NewOffsets, InstanceReads, Ascii, ValidArray, InstancesFrom;
    PlacesFit(ts, page, at);
    InstanceAt(ts, NewOffsets(ts, page, BuffersAt(at, ts)), 0, i);
    InstanceInFile(d, at, nr, ts, page, stale, i);
  }

  lemma GlobalReads(d: bytes, at: nat, nr: nat, ts: seq<Array>, page: nat, stale: seq<nat>, i: nat)
    requires ValidArrays(ts, page) && |stale| == |ts| && i < |ts| && ts[i].Global() && GlobalsTo(ts, i) == []
    requires BuffersEnd(ts, page, at) < 0x1_0000_0000_0000_0000
    ensures ArrayReads(TraceImage(d, at, nr, ts, page, stale), BuffersAt(at, ts), ts[i], page)
  {
    hide BuffersEnd, TraceImage, Place, ArrayReads, Ascii, ValidArray, Tag, BuffersAt, GlobalsTo;
    FirstGlobal(ts, page, at, i);
    ArrayRead(d, at, nr, ts, page, stale, i);
  }

  /** The options of the finished file. */
  lemma BlockReads(d: bytes, at: nat, nr: nat, ts: seq<Array>, page: nat, stale: seq<nat>)
    requires ValidArrays(ts, page) && |stale| == |ts| && nr < 0x1_0000_0000
    requires BuffersEnd(ts, page, at) < 0x1_0000_0000_0000_0000
    ensures var F, xs := TraceImage(d, at, nr, ts, page, stale),
              InstancesFrom(ts, NewOffsets(ts, page, BuffersAt(at, ts)), 0);
            && U(F, at, 4) == nr && Holds(F, at + 4, Ascii("options  ") + [0])
            && ReadOptions(F, at + 14) == Some((xs, BuffersAt(at, ts) - 10)) && |xs| == |InstancesTo(ts, |ts|)|
            && Holds(F, BuffersAt(at, ts) - 10, Ascii("flyrecord") + [0])
  {
    hide BuffersEnd, TraceImage, Place, Holds, U, ResBytes, NewOffsets, ReadOptions, Ascii, ValidArray, InstancesFrom;
    var F, os := TraceImage(d, at, nr, ts, page, stale), NewOffsets(ts, page, BuffersAt(at, ts));
    BlockInFile(d, at, nr, ts, page, stale);
    PlacesFit(ts, page, at);
    TailReads(F, at, nr, ts, os);
    OptionsRead(F, at, nr, ts, os, 0);
    InstanceAt(ts, os, 0, 0);
  }

  /** The end of the finished file reads back: the CPU count, every instance in order with its name,
      its tag and all its pages, and the first global array's pages behind the block. */
  lemma TraceReads(d: bytes, at: nat, nr: nat, ts: seq<Array>, page: nat, stale: seq<nat>)
    requires ValidArrays(ts, page) && |stale| == |ts| && nr < 0x1_0000_0000
    requires BuffersEnd(ts, page, at) < 0x1_0000_0000_0000_0000
    ensures EndReads(TraceImage(d, at, nr, ts, page, stale), at, nr, ts, page)
  {
    hide BuffersEnd, TraceImage, Holds, U, NewOffsets, ReadOptions, ArrayReads, InstanceReads, Ascii, ValidArray,
      InstancesFrom, BuffersAt, InstancesTo, GlobalsTo;
    var F, xs := TraceImage(d, at, nr, ts, page, stale), InstancesFrom(ts, NewOffsets(ts, page, BuffersAt(at, ts)), 0);
    BlockReads(d, at, nr, ts, page, stale);
    forall i: nat | i < |ts| && !ts[i].Global()
      ensures |InstancesTo(ts, i)| < |xs| && InstanceReads(F, xs[|InstancesTo(ts, i)|], ts[i], page)
    {
      InstancesRead(d, at, nr, ts, page, stale, i);
    }
    forall i: nat | i < |ts| && ts[i].Global() && GlobalsTo(ts, i) == []
      ensures ArrayReads(F, BuffersAt(at, ts), ts[i], page)
    {
      GlobalReads(d, at, nr, ts, page, stale, i);
    }
  }
}
