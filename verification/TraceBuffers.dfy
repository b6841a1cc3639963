/** The buffer section of trace.dat: for each trace array a table of (offset, size) per CPU and,
    page aligned behind it, the CPUs' pages. */
module TraceBuffers {
  import opened Bytes
  import opened OutFile
  import opened Writes
  import opened TraceDat

  /** The bytes of the first `c` CPUs. */
  function CpusTo(a: Array, c: nat): bytes
    requires c <= |a.bufs|
  {
    if c == 0 then [] else CpusTo(a, c - 1) + Join(a.bufs[c - 1])
  }

  /** `buffer_size` as the table states it. */
  function BufferSize(page: nat, ps: seq<bytes>): nat {
    page * |ps|
  }

  /** `buffer_offset` of CPU `c`. */
  function BufferPos(a: Array, page: nat, start: nat, c: nat): nat
    requires c <= |a.bufs|
  {
    if c == 0 then start else BufferPos(a, page, start, c - 1) + BufferSize(page, a.bufs[c - 1])
  }

  function Entry(a: Array, page: nat, start: nat, c: nat): (bs: bytes)
    requires c < |a.bufs|
    ensures |bs| == 16
  {
    LE(BufferPos(a, page, start, c), 8) + LE(BufferSize(page, a.bufs[c]), 8)
  }

  function TableTo(a: Array, page: nat, start: nat, c: nat): (bs: bytes)
    requires c <= |a.bufs|
    ensures |bs| == 16 * c
  {
    if c == 0 then [] else TableTo(a, page, start, c - 1) + Entry(a, page, start, c - 1)
  }

  /** Where the pages start when the table starts at `p`. */
  function DataStart(a: Array, page: nat, p: nat): nat
    requires page > 0
  {
    RoundUp(p + 16 * |a.bufs|, page)
  }

  function ArrayEnd(a: Array, page: nat, p: nat): nat
    requires page > 0
  {
    BufferPos(a, page, DataStart(a, page, p), |a.bufs|)
  }

  lemma {:induction false} PagesLength(ps: seq<bytes>, page: nat, k: nat)
    requires k <= |ps| && forall i :: 0 <= i < |ps| ==> |ps[i]| == page
    ensures |JoinTo(ps, k)| == page * k
  {
    if k > 0 {
      PagesLength(ps, page, k - 1);
      assert page * k == page * (k - 1) + page;
    }
  }

  /** A CPU's pages take exactly the size that the table states. */
  lemma CpuSize(a: Array, page: nat, c: nat)
    requires ValidArray(a, page) && c < |a.bufs|
    ensures |Join(a.bufs[c])| == BufferSize(page, a.bufs[c])
  {
    forall i | 0 <= i < |a.bufs[c]| ensures |a.bufs[c][i]| == page {
    }
    PagesLength(a.bufs[c], page, |a.bufs[c]|);
  }

  lemma {:induction false} CpusLength(a: Array, page: nat, start: nat, c: nat)
    requires ValidArray(a, page) && c <= |a.bufs|
    ensures start + |CpusTo(a, c)| == BufferPos(a, page, start, c)
  {
    hide Join, BufferSize, ValidArray;
    if c > 0 {
      CpusLength(a, page, start, c - 1);
      CpuSize(a, page, c - 1);
    }
  }

  /** The table half of `write_trace_array_buffers`. */
  method WriteTable(f: File, a: Array, page: nat, start: nat)
    modifies f
    ensures f.data == WriteAt(old(f.data), old(f.pos), TableTo(a, page, start, |a.bufs|))
  {
    hide WriteAt, Entry, BufferSize;
    ghost var d, p := f.data, f.pos;
    var pos: nat := start;
    WriteNothing(d, p);
    for c := 0 to |a.bufs|
      invariant pos == BufferPos(a, page, start, c)
      invariant f.data == WriteAt(d, p, TableTo(a, page, start, c)) && f.pos == p + 16 * c
    {
      WriteEntry(f, a, page, start, c, pos);
      WriteTwice(d, p, TableTo(a, page, start, c), Entry(a, page, start, c));
      pos := pos + BufferSize(page, a.bufs[c]);
    }
  }

  method WriteEntry(f: File, a: Array, page: nat, ghost start: nat, c: nat, pos: nat)
    requires c < |a.bufs| && pos == BufferPos(a, page, start, c)
    modifies f
    ensures f.data == WriteAt(old(f.data), old(f.pos), Entry(a, page, start, c)) && f.pos == old(f.pos) + 16
  {
    hide WriteAt, LE, BufferSize;
    WriteTwice(f.data, f.pos, LE(pos, 8), LE(BufferSize(page, a.bufs[c]), 8));
    f.Write(LE(pos, 8));
    f.Write(LE(BufferSize(page, a.bufs[c]), 8));
  }

  /** One CPU's pages, one `fwrite` each. */
  method WriteCpu(f: File, ps: seq<bytes>)
    modifies f
    ensures f.data == WriteAt(old(f.data), old(f.pos), Join(ps)) && f.pos == old(f.pos) + |Join(ps)|
  {
    hide WriteAt;
    ghost var d, p := f.data, f.pos;
    WriteNothing(d, p);
    for k := 0 to |ps|
      invariant f.data == WriteAt(d, p, JoinTo(ps, k)) && f.pos == p + |JoinTo(ps, k)|
    {
      WriteTwice(d, p, JoinTo(ps, k), ps[k]);
      f.Write(ps[k]);
    }
  }

  method WriteCpus(f: File, a: Array)
    modifies f
    ensures f.data == WriteAt(old(f.data), old(f.pos), CpusTo(a, |a.bufs|)) &&
            f.pos == old(f.pos) + |CpusTo(a, |a.bufs|)|
  {
    hide WriteAt, Join;
    ghost var d, p := f.data, f.pos;
    WriteNothing(d, p);
    for c := 0 to |a.bufs|
      invariant f.data == WriteAt(d, p, CpusTo(a, c)) && f.pos == p + |CpusTo(a, c)|
    {
      WriteTwice(d, p, CpusTo(a, c), Join(a.bufs[c]));
      WriteCpu(f, a.bufs[c]);
    }
  }

  /** The two writes of one array: `tag` (the flyrecord tag of an instance, or nothing) with the
      table behind it, and the pages. */
  function ArrayStep(a: Array, page: nat, tag: bytes, at: nat): Step
    requires page > 0
  {
    var p := at + |tag|;
    var start := DataStart(a, page, p);
    Step(Op(at, tag + TableTo(a, page, start, |a.bufs|)), Op(start, CpusTo(a, |a.bufs|)))
  }

  /** `write_trace_array_buffers`, after `tag` was written at `at`. */
  method WriteArray(f: File, a: Array, page: nat, tag: bytes)
    requires page > 0 && ValidArray(a, page)
    modifies f
    ensures f.data == Written(old(f.data), ArrayStep(a, page, tag, old(f.pos)))
    ensures f.pos == ArrayEnd(a, page, old(f.pos) + |tag|)
  {
    hide WriteAt, TableTo, CpusTo, DataStart, BufferPos, ValidArray;
    ghost var d, at := f.data, f.pos;
    f.Write(tag);
    var start := DataStart(a, page, f.pos);
    WriteTable(f, a, page, start);
    WriteTwice(d, at, tag, TableTo(a, page, start, |a.bufs|));
    f.Seek(start);
    WriteCpus(f, a);
    CpusLength(a, page, start, |a.bufs|);
  }

  // ---------------------------------------------------------------- all arrays

  /** The arrays in the order of the two loops: first the global ones, then the instances. */
  function GlobalsTo(ts: seq<Array>, i: nat): seq<nat>
    requires i <= |ts|
  {
    if i == 0 then [] else GlobalsTo(ts, i - 1) + if ts[i - 1].Global() then [i - 1] else []
  }

  function InstancesTo(ts: seq<Array>, i: nat): seq<nat>
    requires i <= |ts|
  {
    if i == 0 then [] else InstancesTo(ts, i - 1) + if ts[i - 1].Global() then [] else [i - 1]
  }

  function Order(ts: seq<Array>): seq<nat> {
    GlobalsTo(ts, |ts|) + InstancesTo(ts, |ts|)
  }

  function Tag(a: Array): bytes {
    if a.Global() then [] else FlyTag()
  }

  /** `ord` lists array numbers. */
  ghost predicate InRange(ts: seq<Array>, ord: seq<nat>) {
    forall k :: 0 <= k < |ord| ==> ord[k] < |ts|
  }

  /** The file position at which the `k`-th array of the order is written. */
  function ArrayPos(ts: seq<Array>, page: nat, ord: seq<nat>, p: nat, k: nat): nat
    requires page > 0 && k <= |ord| && InRange(ts, ord)
  {
    if k == 0 then p
    else
      var a := ts[ord[k - 1]];
      ArrayEnd(a, page, ArrayPos(ts, page, ord, p, k - 1) + |Tag(a)|)
  }

  function Steps(ts: seq<Array>, page: nat, ord: seq<nat>, p: nat): seq<Step>
    requires page > 0 && InRange(ts, ord)
  {
    seq(|ord|, k requires 0 <= k < |ord| => ArrayStep(ts[ord[k]], page, Tag(ts[ord[k]]), ArrayPos(ts, page, ord, p, k)))
  }

  lemma {:induction false} GlobalsAt(ts: seq<Array>, i: nat, n: nat)
    requires i < n <= |ts|
    ensures |GlobalsTo(ts, i)| <= |GlobalsTo(ts, n)| && |InstancesTo(ts, i)| <= |InstancesTo(ts, n)|
    ensures ts[i].Global() ==> |GlobalsTo(ts, i)| < |GlobalsTo(ts, n)| && GlobalsTo(ts, n)[|GlobalsTo(ts, i)|] == i
    ensures !ts[i].Global() ==>
              |InstancesTo(ts, i)| < |InstancesTo(ts, n)| && InstancesTo(ts, n)[|InstancesTo(ts, i)|] == i
    decreases n
  {
    if i < n - 1 {
      GlobalsAt(ts, i, n - 1);
    }
  }

  /** Where array `i` stands in the order. */
  function Rank(ts: seq<Array>, i: nat): nat
    requires i < |ts|
  {
    if ts[i].Global() then |GlobalsTo(ts, i)| else |GlobalsTo(ts, |ts|)| + |InstancesTo(ts, i)|
  }

  lemma RankOf(ts: seq<Array>, i: nat)
    requires i < |ts|
    ensures Rank(ts, i) < |Order(ts)| && Order(ts)[Rank(ts, i)] == i
  {
    GlobalsAt(ts, i, |ts|);
  }

  lemma {:induction false} MembersInRange(ts: seq<Array>, i: nat)
    requires i <= |ts|
    ensures forall k :: 0 <= k < |GlobalsTo(ts, i)| ==> GlobalsTo(ts, i)[k] < i && ts[GlobalsTo(ts, i)[k]].Global()
    ensures forall k :: 0 <= k < |InstancesTo(ts, i)| ==>
              InstancesTo(ts, i)[k] < i && !ts[InstancesTo(ts, i)[k]].Global()
  {
    if i > 0 {
      MembersInRange(ts, i - 1);
    }
  }

  lemma OrderInRange(ts: seq<Array>)
    ensures InRange(ts, Order(ts))
  {
    MembersInRange(ts, |ts|);
  }

  /** The position that `offset` gets for array `i`. */
  function NewOffset(ts: seq<Array>, page: nat, p: nat, i: nat): nat
    requires page > 0 && i < |ts|
  {
    OrderInRange(ts);
    RankOf(ts, i);
    ArrayPos(ts, page, Order(ts), p, Rank(ts, i))
  }

  /** One of the two loops of `write_buffer_data`: it handles the arrays whose name matches. */
  method WriteLoop(f: File, ts: seq<Array>, page: nat, offs: array<nat>, global: bool, ghost d0: bytes, ghost p: nat)
    requires ValidArrays(ts, page) && offs.Length == |ts| && InRange(ts, Order(ts))
    requires var k := if global then 0 else |GlobalsTo(ts, |ts|)|;
             f.data == Applied(d0, Steps(ts, page, Order(ts), p), k) && f.pos == ArrayPos(ts, page, Order(ts), p, k)
    modifies f, offs
    ensures var k := if global then |GlobalsTo(ts, |ts|)| else |Order(ts)|;
            f.data == Applied(d0, Steps(ts, page, Order(ts), p), k) && f.pos == ArrayPos(ts, page, Order(ts), p, k)
    ensures forall i :: 0 <= i < |ts| ==>
              offs[i] == if ts[i].Global() == global then NewOffset(ts, page, p, i) else old(offs[i])
  {
    hide Written, ArrayStep, ArrayEnd, ValidArray, Applied, Steps, ArrayPos, NewOffset, Order, Rank;
    ghost var ord, steps := Order(ts), Steps(ts, page, Order(ts), p);
    ghost var k := if global then 0 else |GlobalsTo(ts, |ts|)|;
    OrderLength(ts);
    StepsLength(ts, page, p);
    for i := 0 to |ts|
      invariant k == if global then |GlobalsTo(ts, i)| else |GlobalsTo(ts, |ts|)| + |InstancesTo(ts, i)|
      invariant InRange(ts, ord) && k <= |ord| == |steps|
      invariant f.data == Applied(d0, steps, k) && f.pos == ArrayPos(ts, page, ord, p, k)
      invariant forall j :: 0 <= j < |ts| ==>
                  offs[j] == if j < i && ts[j].Global() == global then NewOffset(ts, page, p, j) else old(offs[j])
    {
      if ts[i].Global() == global {
        NextArray(ts, page, d0, p, i, k);
        offs[i] := f.pos;
        WriteArray(f, ts[i], page, if global then [] else FlyTag());
        k := k + 1;
      }
    }
  }

  lemma StepsLength(ts: seq<Array>, page: nat, p: nat)
    requires page > 0 && InRange(ts, Order(ts))
    ensures |Steps(ts, page, Order(ts), p)| == |Order(ts)|
  {
    hide Order;
  }

  lemma OrderLength(ts: seq<Array>)
    ensures |Order(ts)| == |GlobalsTo(ts, |ts|)| + |InstancesTo(ts, |ts|)|
  {
  }

  /** Array `i` is the next one of the order, and writing it is the next step. */
  lemma NextArray(ts: seq<Array>, page: nat, d: bytes, p: nat, i: nat, k: nat)
    requires page > 0 && InRange(ts, Order(ts)) && i < |ts|
    requires k == if ts[i].Global() then |GlobalsTo(ts, i)| else |GlobalsTo(ts, |ts|)| + |InstancesTo(ts, i)|
    ensures k < |Order(ts)| == |Steps(ts, page, Order(ts), p)|
    ensures NewOffset(ts, page, p, i) == ArrayPos(ts, page, Order(ts), p, k)
    ensures var at, steps := ArrayPos(ts, page, Order(ts), p, k), Steps(ts, page, Order(ts), p);
            && Applied(d, steps, k + 1) == Written(Applied(d, steps, k), ArrayStep(ts[i], page, Tag(ts[i]), at))
            && ArrayPos(ts, page, Order(ts), p, k + 1) == ArrayEnd(ts[i], page, at + |Tag(ts[i])|)
  {
    hide Written, ArrayStep, ArrayEnd, Order, InRange, Applied, Tag, GlobalsTo, InstancesTo, ArrayPos, Steps;
    RankOf(ts, i);
    StepsLength(ts, page, p);
    StepAt(ts, page, Order(ts), p, k);
    AppliedNext(d, Steps(ts, page, Order(ts), p), k);
  }

  lemma StepAt(ts: seq<Array>, page: nat, ord: seq<nat>, p: nat, k: nat)
    requires page > 0 && InRange(ts, ord) && k < |ord|
    ensures |Steps(ts, page, ord, p)| == |ord|
    ensures var a, at := ts[ord[k]], ArrayPos(ts, page, ord, p, k);
            && Steps(ts, page, ord, p)[k] == ArrayStep(a, page, Tag(a), at)
            && ArrayPos(ts, page, ord, p, k + 1) == ArrayEnd(a, page, at + |Tag(a)|)
  {
    hide ArrayStep, ArrayEnd, Tag;
  }

  /** `write_buffer_data`: the global arrays, then the instances behind their tags; every array's
      `offset` becomes the position at which it was written. */
  method WriteBufferData(f: File, ts: seq<Array>, page: nat, offs: array<nat>)
    requires ValidArrays(ts, page) && offs.Length == |ts|
    modifies f, offs
    ensures InRange(ts, Order(ts))
    ensures f.data == Applied(old(f.data), Steps(ts, page, Order(ts), old(f.pos)), |Order(ts)|)
    ensures forall i :: 0 <= i < |ts| ==> offs[i] == NewOffset(ts, page, old(f.pos), i)
  {
    hide NewOffset, Steps, ArrayPos;
    OrderInRange(ts);
    ghost var d, p := f.data, f.pos;
    StartOfSteps(ts, page, d, p);
    OrderLength(ts);
    WriteLoop(f, ts, page, offs, true, d, p);
    WriteLoop(f, ts, page, offs, false, d, p);
  }

  lemma StartOfSteps(ts: seq<Array>, page: nat, d: bytes, p: nat)
    requires page > 0 && InRange(ts, Order(ts))
    ensures Applied(d, Steps(ts, page, Order(ts), p), 0) == d && ArrayPos(ts, page, Order(ts), p, 0) == p
  {
  }

  // ---------------------------------------------------------------- the finished file

  /** The file after the options block, the buffers, and the options block again. */
  function TraceImage(d: bytes, at: nat, nr: nat, ts: seq<Array>, page: nat, stale: seq<nat>): bytes
    requires page > 0 && |stale| == |ts|
  {
    OrderInRange(ts);
    var p := BuffersAt(at, ts);
    WriteAt(Applied(WriteAt(d, at, ResBytes(nr, ts, stale)), Steps(ts, page, Order(ts), p), |Order(ts)|),
            at, ResBytes(nr, ts, NewOffsets(ts, page, p)))
  }

  /** The buffers start right behind the options block. */
  function BuffersAt(at: nat, ts: seq<Array>): nat {
    at + OptionPos(ts, |ts|) + 12
  }

  function NewOffsets(ts: seq<Array>, page: nat, p: nat): (os: seq<nat>)
    requires page > 0
    ensures |os| == |ts|
  {
    seq(|ts|, i requires 0 <= i < |ts| => NewOffset(ts, page, p, i))
  }

  /** The end of `write_trace_data`: the block with stale positions, the buffers, and the block
      again with the positions that writing the buffers has set. */
  method WriteResAndBuffers(f: File, nr: nat, ts: seq<Array>, page: nat, offs: array<nat>)
    requires ValidArrays(ts, page) && offs.Length == |ts|
    modifies f, offs
    ensures f.data == TraceImage(old(f.data), old(f.pos), nr, ts, page, old(offs[..]))
  {
    hide WriteAt, ResBytes, NewOffset, Steps, Applied, ValidArray, Order, InRange;
    var at := f.pos;
    ResLength(nr, ts, offs[..]);
    WriteResData(f, nr, ts, offs);
    WriteBufferData(f, ts, page, offs);
    assert offs[..] == NewOffsets(ts, page, BuffersAt(at, ts));
    f.Seek(at);
    WriteResData(f, nr, ts, offs);
  }

  lemma {:induction false} BufferPosGrows(a: Array, page: nat, start: nat, c: nat, e: nat)
    requires c <= e <= |a.bufs|
    ensures start <= BufferPos(a, page, start, c) <= BufferPos(a, page, start, e)
    ensures c < e ==> BufferPos(a, page, start, c) + BufferSize(page, a.bufs[c]) <= BufferPos(a, page, start, e)
  {
    hide BufferSize;
    if c < e {
      BufferPosGrows(a, page, start, c, e - 1);
    } else if c > 0 {
      BufferPosGrows(a, page, start, c - 1, c - 1);
    }
  }

  /** The shape of step `k`: tag and table, then the pages, ending where step `k + 1` begins. */
  lemma StepShape(ts: seq<Array>, page: nat, ord: seq<nat>, p: nat, k: nat)
    requires ValidArrays(ts, page) && InRange(ts, ord) && k < |ord|
    ensures var s, a, at := Steps(ts, page, ord, p)[k], ts[ord[k]], ArrayPos(ts, page, ord, p, k);
            && s == ArrayStep(a, page, Tag(a), at)
            && s.hdr.at == at && End(s.hdr) == at + |Tag(a)| + 16 * |a.bufs| <= s.data.at
            && End(s.data) == ArrayPos(ts, page, ord, p, k + 1) && s.data.at <= End(s.data)
  {
    hide TableTo, CpusTo, BufferPos, ValidArray, Tag;
    var a, at := ts[ord[k]], ArrayPos(ts, page, ord, p, k);
    CpusLength(a, page, DataStart(a, page, at + |Tag(a)|), |a.bufs|);
  }

  lemma {:induction false} ArrayPosGrows(ts: seq<Array>, page: nat, ord: seq<nat>, p: nat, j: nat, k: nat)
    requires ValidArrays(ts, page) && InRange(ts, ord) && j <= k <= |ord|
    ensures p <= ArrayPos(ts, page, ord, p, j) <= ArrayPos(ts, page, ord, p, k)
  {
    hide Steps, ArrayStep, ValidArray, InRange, ArrayPos;
    if j < k {
      ArrayPosGrows(ts, page, ord, p, j, k - 1);
      StepShape(ts, page, ord, p, k - 1);
    } else if k > 0 {
      ArrayPosGrows(ts, page, ord, p, k - 1, k - 1);
      StepShape(ts, page, ord, p, k - 1);
    } else {
      FirstPos(ts, page, ord, p);
    }
  }

  lemma FirstPos(ts: seq<Array>, page: nat, ord: seq<nat>, p: nat)
    requires page > 0 && InRange(ts, ord)
    ensures ArrayPos(ts, page, ord, p, 0) == p
  {
  }

  lemma LaterStep(ts: seq<Array>, page: nat, ord: seq<nat>, p: nat, k: nat, j: nat, lo: nat, hi: nat)
    requires ValidArrays(ts, page) && InRange(ts, ord) && k < j < |ord|
    requires hi <= ArrayPos(ts, page, ord, p, k + 1)
    ensures StepOutside(Steps(ts, page, ord, p)[j], lo, hi)
  {
    hide ArrayStep, ValidArray, InRange, ArrayPos, Steps;
    StepShape(ts, page, ord, p, j);
    ArrayPosGrows(ts, page, ord, p, k + 1, j);
  }

  /** Every array's tag, table and pages are in the image after all arrays are written. */
  lemma ArrayHeld(d: bytes, ts: seq<Array>, page: nat, ord: seq<nat>, p: nat, k: nat)
    requires ValidArrays(ts, page) && InRange(ts, ord) && k < |ord|
    ensures var e, s := Applied(d, Steps(ts, page, ord, p), |ord|), Steps(ts, page, ord, p)[k];
            Holds(e, s.hdr.at, s.hdr.bs) && Holds(e, s.data.at, s.data.bs)
  {
    hide ArrayStep, ValidArray, ArrayPos, Holds, Applied;
    var steps := Steps(ts, page, ord, p);
    var s := steps[k];
    StepShape(ts, page, ord, p, k);
    forall j | k < j < |steps|
      ensures StepOutside(steps[j], s.hdr.at, End(s.hdr)) && StepOutside(steps[j], s.data.at, End(s.data))
    {
      LaterStep(ts, page, ord, p, k, j, s.hdr.at, End(s.hdr));
      LaterStep(ts, page, ord, p, k, j, s.data.at, End(s.data));
    }
    UntouchedHeader(d, steps, k);
    UntouchedData(d, steps, k);
  }

  /** The array's own place in the finished file. */
  function Place(ts: seq<Array>, page: nat, at: nat, i: nat): nat
    requires page > 0 && i < |ts|
  {
    NewOffset(ts, page, BuffersAt(at, ts), i)
  }

  /** The finished file keeps everything the buffers wrote: patching the block stays before them. */
  lemma PatchKeeps(d: bytes, at: nat, nr: nat, ts: seq<Array>, page: nat, stale: seq<nat>, q: nat, bs: bytes)
    requires page > 0 && |stale| == |ts| && InRange(ts, Order(ts)) && BuffersAt(at, ts) <= q
    requires Holds(Applied(WriteAt(d, at, ResBytes(nr, ts, stale)), Steps(ts, page, Order(ts), BuffersAt(at, ts)),
                           |Order(ts)|), q, bs)
    ensures Holds(TraceImage(d, at, nr, ts, page, stale), q, bs)
  {
    hide Holds, ResBytes, Steps, Applied, WriteAt, Kept, NewOffset, Order, InRange;
    StepsLength(ts, page, BuffersAt(at, ts));
    var e := Applied(WriteAt(d, at, ResBytes(nr, ts, stale)), Steps(ts, page, Order(ts), BuffersAt(at, ts)),
                     |Order(ts)|);
    var os := NewOffsets(ts, page, BuffersAt(at, ts));
    ResLength(nr, ts, os);
    WriteKeeps(e, at, ResBytes(nr, ts, os), q, q + |bs|);
    HoldsKept(e, TraceImage(d, at, nr, ts, page, stale), q, bs, q, q + |bs|);
  }

  /** Tag, table and pages of array `i` stand in the finished file at its recorded position. */
  lemma ArrayInFile(d: bytes, at: nat, nr: nat, ts: seq<Array>, page: nat, stale: seq<nat>, i: nat)
    requires ValidArrays(ts, page) && |stale| == |ts| && i < |ts|
    ensures var F, a, q := TraceImage(d, at, nr, ts, page, stale), ts[i], Place(ts, page, at, i);
            var start := DataStart(a, page, q + |Tag(a)|);
            && Holds(F, q, Tag(a) + TableTo(a, page, start, |a.bufs|)) && Holds(F, start, CpusTo(a, |a.bufs|))
            && BuffersAt(at, ts) <= q
  {
    hide Holds, ResBytes, Applied, WriteAt, TraceImage, TableTo, CpusTo, ValidArray, Order, InRange, DataStart, Rank,
      Steps, ArrayStep, ArrayPos, BuffersAt, Tag;
    OrderInRange(ts);
    RankOf(ts, i);
    var k, ord, p := Rank(ts, i), Order(ts), BuffersAt(at, ts);
    StepsLength(ts, page, p);
    ArrayHeld(WriteAt(d, at, ResBytes(nr, ts, stale)), ts, page, ord, p, k);
    StepShape(ts, page, ord, p, k);
    ArrayPosGrows(ts, page, ord, p, k, k);
    var s := Steps(ts, page, ord, p)[k];
    PatchKeeps(d, at, nr, ts, page, stale, s.hdr.at, s.hdr.bs);
    PatchKeeps(d, at, nr, ts, page, stale, s.data.at, s.data.bs);
    StepWrites(ts[i], page, Tag(ts[i]), ArrayPos(ts, page, ord, p, k));
  }

  lemma StepWrites(a: Array, page: nat, tag: bytes, at: nat)
    requires page > 0
    ensures var start, s := DataStart(a, page, at + |tag|), ArrayStep(a, page, tag, at);
            && s.hdr == Op(at, tag + TableTo(a, page, start, |a.bufs|))
            && s.data == Op(start, CpusTo(a, |a.bufs|))
  {
    hide DataStart, TableTo, CpusTo;
  }

  /** After `write_trace_data` every instance's option record holds the position where its
      flyrecord tag stands. */
  lemma OptionNamesTag(d: bytes, at: nat, nr: nat, ts: seq<Array>, page: nat, stale: seq<nat>, i: nat)
    requires ValidArrays(ts, page) && |stale| == |ts| && i < |ts| && !ts[i].Global()
    requires Place(ts, page, at, i) < 0x1_0000_0000_0000_0000
    ensures var F := TraceImage(d, at, nr, ts, page, stale);
            && U(F, at + OptionPos(ts, i) + 6, 8) == Place(ts, page, at, i)
            && Holds(F, at + OptionPos(ts, i) + 14, ts[i].name + [0])
            && Holds(F, Place(ts, page, at, i), FlyTag())
  {
    hide Holds, ResBytes, Applied, WriteAt, TableTo, CpusTo, Order, DataStart, FlyTag, U, NewOffset, Steps;
    OrderInRange(ts);
    StepsLength(ts, page, BuffersAt(at, ts));
    var F, a, q := TraceImage(d, at, nr, ts, page, stale), ts[i], Place(ts, page, at, i);
    var os := NewOffsets(ts, page, BuffersAt(at, ts));
    HoldsWritten(Applied(WriteAt(d, at, ResBytes(nr, ts, stale)), Steps(ts, page, Order(ts), BuffersAt(at, ts)),
                         |Order(ts)|),
                 at, ResBytes(nr, ts, os));
    assert ValidArray(a, page);
    ResReads(F, at, nr, ts, os, i);
    ArrayInFile(d, at, nr, ts, page, stale, i);
    HoldsPrefix(F, q, FlyTag(), TableTo(a, page, DataStart(a, page, q + |Tag(a)|), |a.bufs|));
  }

  // ---------------------------------------------------------------- the per-CPU table

  lemma {:induction false} EntryHeld(d: bytes, p: nat, a: Array, page: nat, start: nat, n: nat, c: nat)
    requires c < n <= |a.bufs| && Holds(d, p, TableTo(a, page, start, n))
    ensures Holds(d, p + 16 * c, Entry(a, page, start, c))
    decreases n
  {
    hide Holds, Entry;
    HoldsConcat(d, p, TableTo(a, page, start, n - 1), Entry(a, page, start, n - 1));
    if c < n - 1 {
      EntryHeld(d, p, a, page, start, n - 1, c);
    }
  }

  lemma {:induction false} CpuHeld(d: bytes, p: nat, a: Array, page: nat, n: nat, c: nat)
    requires ValidArray(a, page) && c < n <= |a.bufs| && Holds(d, p, CpusTo(a, n))
    ensures Holds(d, BufferPos(a, page, p, c), Join(a.bufs[c]))
    decreases n
  {
    hide Holds, Join, ValidArray, BufferPos;
    HoldsConcat(d, p, CpusTo(a, n - 1), Join(a.bufs[n - 1]));
    CpusLength(a, page, p, n - 1);
    if c < n - 1 {
      CpuHeld(d, p, a, page, n - 1, c);
    }
  }

  lemma EntryRead(d: bytes, p: nat, a: Array, page: nat, start: nat, c: nat)
    requires c < |a.bufs| && Holds(d, p, Entry(a, page, start, c))
    requires BufferPos(a, page, start, c) + BufferSize(page, a.bufs[c]) < 0x1_0000_0000_0000_0000
    ensures U(d, p, 8) == BufferPos(a, page, start, c) && U(d, p + 8, 8) == BufferSize(page, a.bufs[c])
  {
    hide Holds, U, LE, BufferPos, BufferSize;
    Pow256Values();
    TakeWord(d, p, BufferPos(a, page, start, c), 8, LE(BufferSize(page, a.bufs[c]), 8));
    WordHeld(d, p + 8, BufferSize(page, a.bufs[c]), 8);
  }

  lemma {:induction false} BufferPosAligned(a: Array, page: nat, start: nat, c: nat)
    requires page > 0 && start % page == 0 && c <= |a.bufs|
    ensures BufferPos(a, page, start, c) % page == 0
  {
    if c > 0 {
      BufferPosAligned(a, page, start, c - 1);
      MulMod(|a.bufs[c - 1]|, page);
      assert BufferSize(page, a.bufs[c - 1]) == |a.bufs[c - 1]| * page;
      AddMultiple(BufferPos(a, page, start, c - 1), BufferSize(page, a.bufs[c - 1]), page);
    }
  }

  /** Where the data of CPU `c` of array `i` is. */
  function CpuPos(ts: seq<Array>, page: nat, at: nat, i: nat, c: nat): nat
    requires page > 0 && i < |ts| && c <= |ts[i].bufs|
  {
    BufferPos(ts[i], page, DataStart(ts[i], page, Place(ts, page, at, i) + |Tag(ts[i])|), c)
  }

  /** Each table entry names a page-aligned range that holds exactly that CPU's pages, in order. */
  lemma TableNamesPages(d: bytes, at: nat, nr: nat, ts: seq<Array>, page: nat, stale: seq<nat>, i: nat, c: nat)
    requires ValidArrays(ts, page) && |stale| == |ts| && i < |ts| && c < |ts[i].bufs|
    requires CpuPos(ts, page, at, i, c) + BufferSize(page, ts[i].bufs[c]) < 0x1_0000_0000_0000_0000
    ensures var F, e := TraceImage(d, at, nr, ts, page, stale), Place(ts, page, at, i) + |Tag(ts[i])| + 16 * c;
            && U(F, e, 8) == CpuPos(ts, page, at, i, c) && U(F, e, 8) % page == 0
            && U(F, e + 8, 8) == page * |ts[i].bufs[c]| == |Join(ts[i].bufs[c])|
            && Holds(F, U(F, e, 8), Join(ts[i].bufs[c]))
  {
    hide Holds, TableTo, CpusTo, TraceImage, U, Entry, BufferPos, Place, Tag, Join;
    var F, a, q := TraceImage(d, at, nr, ts, page, stale), ts[i], Place(ts, page, at, i);
    var start := DataStart(a, page, q + |Tag(a)|);
    assert ValidArray(a, page);
    ArrayInFile(d, at, nr, ts, page, stale, i);
    HoldsConcat(F, q, Tag(a), TableTo(a, page, start, |a.bufs|));
    EntryHeld(F, q + |Tag(a)|, a, page, start, |a.bufs|, c);
    EntryRead(F, q + |Tag(a)| + 16 * c, a, page, start, c);
    CpuHeld(F, start, a, page, |a.bufs|, c);
    CpuSize(a, page, c);
    BufferPosAligned(a, page, start, c);
  }

  lemma LaterArray(ts: seq<Array>, page: nat, at: nat, i: nat, j: nat)
    requires ValidArrays(ts, page) && i < |ts| && j < |ts| && Rank(ts, i) < Rank(ts, j)
    ensures CpuPos(ts, page, at, i, |ts[i].bufs|) <= CpuPos(ts, page, at, j, 0)
  {
    hide BufferSize, BufferPos, ArrayPos, ValidArray, Tag, Rank, Order, InRange, Steps;
    OrderInRange(ts);
    RankOf(ts, i);
    RankOf(ts, j);
    var p := BuffersAt(at, ts);
    NextPlace(ts, page, p, i);
    ArrayPosGrows(ts, page, Order(ts), p, Rank(ts, i) + 1, Rank(ts, j));
    BufferPosGrows(ts[j], page, DataStart(ts[j], page, Place(ts, page, at, j) + |Tag(ts[j])|), 0, 0);
  }

  lemma RangeBefore(ts: seq<Array>, page: nat, at: nat, i: nat, c: nat, j: nat, e: nat)
    requires ValidArrays(ts, page) && i < |ts| && c < |ts[i].bufs| && j < |ts| && e < |ts[j].bufs|
    requires (i == j && c < e) || (i != j && Rank(ts, i) < Rank(ts, j))
    ensures CpuPos(ts, page, at, i, c) + BufferSize(page, ts[i].bufs[c]) <= CpuPos(ts, page, at, j, e)
  {
    hide BufferSize, BufferPos, ValidArray, Tag, Rank, Place, DataStart;
    var sa, sb := DataStart(ts[i], page, Place(ts, page, at, i) + |Tag(ts[i])|),
      DataStart(ts[j], page, Place(ts, page, at, j) + |Tag(ts[j])|);
    if i == j {
      BufferPosGrows(ts[i], page, sa, c, e);
    } else {
      BufferPosGrows(ts[i], page, sa, c, |ts[i].bufs|);
      BufferPosGrows(ts[j], page, sb, 0, e);
      LaterArray(ts, page, at, i, j);
    }
  }

  lemma NextPlace(ts: seq<Array>, page: nat, p: nat, i: nat)
    requires page > 0 && i < |ts| && InRange(ts, Order(ts)) && Rank(ts, i) < |Order(ts)|
    ensures ArrayPos(ts, page, Order(ts), p, Rank(ts, i) + 1)
            == ArrayEnd(ts[i], page, NewOffset(ts, page, p, i) + |Tag(ts[i])|)
  {
    hide Order, Rank, InRange, ArrayEnd, Tag;
    RankOf(ts, i);
  }

  /** Different arrays have different places in the order. */
  lemma RankInjective(ts: seq<Array>, i: nat, j: nat)
    requires i < |ts| && j < |ts| && i != j
    ensures Rank(ts, i) != Rank(ts, j)
  {
    RankOf(ts, i);
    RankOf(ts, j);
  }

  /** The ranges that two different table entries name are disjoint: CPUs of one array follow each
      other, and arrays follow each other in the order in which they are written. */
  lemma RangesDisjoint(ts: seq<Array>, page: nat, at: nat, i: nat, c: nat, j: nat, e: nat)
    requires ValidArrays(ts, page) && i < |ts| && c < |ts[i].bufs| && j < |ts| && e < |ts[j].bufs| && (i, c) != (j, e)
    ensures || CpuPos(ts, page, at, i, c) + BufferSize(page, ts[i].bufs[c]) <= CpuPos(ts, page, at, j, e)
            || CpuPos(ts, page, at, j, e) + BufferSize(page, ts[j].bufs[e]) <= CpuPos(ts, page, at, i, c)
  {
    hide BufferSize, CpuPos, Rank, ValidArray;
    if i != j {
      RankInjective(ts, i, j);
    }
    if (i == j && c < e) || (i != j && Rank(ts, i) < Rank(ts, j)) {
      RangeBefore(ts, page, at, i, c, j, e);
    } else {
      RangeBefore(ts, page, at, j, e, i, c);
    }
  }
}
