/** The finished trace.dat as a whole: what the last three steps of the writer leave of the earlier
    sections, and what the patch changes. */
module TraceFile {
  import opened Bytes
  import opened Writes
  import opened TraceDat
  import opened TraceBuffers
  import opened EventLines
  import opened EventText
  import opened EventSection
  import opened EventReader

  /** The file before the options block is written again. */
  function Unpatched(d: bytes, at: nat, nr: nat, ts: seq<Array>, page: nat, stale: seq<nat>): bytes
    requires page > 0 && |stale| == |ts|
  {
    OrderInRange(ts);
    Applied(WriteAt(d, at, ResBytes(nr, ts, stale)), Steps(ts, page, Order(ts), BuffersAt(at, ts)), |Order(ts)|)
  }

  lemma TraceIsPatched(d: bytes, at: nat, nr: nat, ts: seq<Array>, page: nat, stale: seq<nat>)
    requires page > 0 && |stale| == |ts|
    ensures TraceImage(d, at, nr, ts, page, stale)
            == WriteAt(Unpatched(d, at, nr, ts, page, stale), at,
                       ResBytes(nr, ts, NewOffsets(ts, page, BuffersAt(at, ts))))
  {
    hide WriteAt, Applied, Steps, ResBytes, NewOffset, Order, InRange;
  }

  /** The buffers stay behind the options block. */
  lemma BuffersBehind(ts: seq<Array>, page: nat, at: nat, lo: nat, hi: nat, d: bytes)
    requires ValidArrays(ts, page) && hi <= BuffersAt(at, ts) && InRange(ts, Order(ts))
    ensures |Steps(ts, page, Order(ts), BuffersAt(at, ts))| == |Order(ts)|
    ensures Kept(d, Applied(d, Steps(ts, page, Order(ts), BuffersAt(at, ts)), |Order(ts)|), lo, hi)
  {
    hide Steps, ArrayStep, ArrayPos, ValidArray, Kept, Order, InRange, Applied;
    var ord, p := Order(ts), BuffersAt(at, ts);
    var steps := Steps(ts, page, ord, p);
    StepsLength(ts, page, p);
    forall j | 0 <= j < |steps| ensures StepOutside(steps[j], lo, hi) {
      StepShape(ts, page, ord, p, j);
      ArrayPosGrows(ts, page, ord, p, j, j);
    }
    AppliedKeeps(d, steps, 0, |steps|, lo, hi);
    NothingApplied(d, steps);
  }

  lemma NothingApplied(d: bytes, steps: seq<Step>)
    ensures Applied(d, steps, 0) == d
  {
  }

  /** Everything before the options block survives all three steps. */
  lemma EarlierSurvives(d: bytes, at: nat, nr: nat, ts: seq<Array>, page: nat, stale: seq<nat>)
    requires ValidArrays(ts, page) && |stale| == |ts|
    ensures Kept(d, TraceImage(d, at, nr, ts, page, stale), 0, at)
  {
    hide WriteAt, Kept, ResBytes, Steps, ValidArray, Order, NewOffset, Applied, TraceImage, InRange;
    OrderInRange(ts);
    TraceIsPatched(d, at, nr, ts, page, stale);
    var d1 := WriteAt(d, at, ResBytes(nr, ts, stale));
    var d2, f := Unpatched(d, at, nr, ts, page, stale), TraceImage(d, at, nr, ts, page, stale);
    WriteKeeps(d, at, ResBytes(nr, ts, stale), 0, at);
    BuffersBehind(ts, page, at, 0, at, d1);
    KeptTrans(d, d1, d2, 0, at);
    WriteKeeps(d2, at, ResBytes(nr, ts, NewOffsets(ts, page, BuffersAt(at, ts))), 0, at);
    KeptTrans(d, d2, f, 0, at);
  }

  lemma WithinKept(d: bytes, e: bytes, q: nat, bs: bytes, at: nat)
    requires Within(d, q, bs) && q + |bs| <= at && Kept(d, e, 0, at)
    ensures Within(e, q, bs)
  {
    hide Holds, KeptAt;
    HoldsKept(d, e, q, bs, 0, at);
  }

  /** The event section still reads back from the finished file: every event in its system's block,
      each block's texts those of its events, and each event once. */
  lemma EventsReadFromTrace(d: bytes, q: nat, evs: seq<Event>, common: seq<TraceField>, ids: seq<nat>,
                                               at: nat, nr: nat, ts: seq<Array>, page: nat, stale: seq<nat>)
    requires var names := Systems(evs, |evs|);
             && names[0] == Ascii("ftrace") && |evs| == |ids| && Readable(evs, common, names) &&
                Numbered(evs, names, ids, |evs|)
             && Within(d, q, Section(evs, common, names, ids)) && q + |Section(evs, common, names, ids)| <= at
    requires ValidArrays(ts, page) && |stale| == |ts|
    ensures var f := TraceImage(d, at, nr, ts, page, stale);
            && ReadSection(f, q).Some?
            && var (bs, end) := ReadSection(f, q).value;
               && end == q + |Section(evs, common, Systems(evs, |evs|), ids)| && |bs| == |Systems(evs, |evs|)|
               && (forall i {:trigger ids[i]} :: 0 <= i < |evs| ==>
                     ids[i] >= 1 && EventReader.Stands(evs, common, bs, i, ids[i] - 1, CountTo(ids, ids[i], i)))
               && (forall k: nat, r: nat :: k < |bs| && r < |bs[k].texts| ==> Comes(evs, common, ids, bs, k, r))
  {
    hide Within, Section, ReadSection, TraceImage, Systems, Readable, Numbered, Ascii, ValidArray, Kept, CountTo,
      TextsTo, EventReader.Stands, Comes;
    var names, f := Systems(evs, |evs|), TraceImage(d, at, nr, ts, page, stale);
    EarlierSurvives(d, at, nr, ts, page, stale);
    WithinKept(d, f, q, Section(evs, common, names, ids), at);
    SectionReads(f, q, evs, common, names, ids);
    EveryEventOnce(f, q, evs, common, ids);
  }

  // ---------------------------------------------------------------- the patch

  lemma BlockHeld(d: bytes, at: nat, nr: nat, ts: seq<Array>, page: nat, stale: seq<nat>)
    requires ValidArrays(ts, page) && |stale| == |ts|
    ensures Holds(Unpatched(d, at, nr, ts, page, stale), at, ResBytes(nr, ts, stale))
  {
    hide WriteAt, Kept, ResBytes, Steps, ValidArray, Order, Applied, InRange, Holds;
    OrderInRange(ts);
    var bs := ResBytes(nr, ts, stale);
    var d1 := WriteAt(d, at, bs);
    ResLength(nr, ts, stale);
    HoldsWritten(d, at, bs);
    BuffersBehind(ts, page, at, at, BuffersAt(at, ts), d1);
    HoldsKept(d1, Unpatched(d, at, nr, ts, page, stale), at, bs, at, BuffersAt(at, ts));
  }

  /** Writing `b` over `a` changes nothing but the bytes in which they differ. */
  lemma Overwrite(e: bytes, at: nat, a: bytes, b: bytes, k: nat)
    requires Holds(e, at, a) && |a| == |b| > 0
    ensures |WriteAt(e, at, b)| == |e|
    ensures k < |e| && WriteAt(e, at, b)[k] != e[k] ==> at <= k < at + |a| && a[k - at] != b[k - at]
  {
    assert Bytes.Agrees(e, at, a, |a| - 1);
    if k < |e| {
      WriteAtIndex(e, at, b, k);
      if at <= k < at + |a| {
        assert Bytes.Agrees(e, at, a, k - at);
      }
    }
  }

  /** The patched file has the length of the unpatched one and differs from it only in the 8-byte
      position fields of the option records. */
  lemma PatchTouchesOffsets(d: bytes, at: nat, nr: nat, ts: seq<Array>, page: nat, stale: seq<nat>, k: nat)
    requires ValidArrays(ts, page) && |stale| == |ts|
    ensures var e, f := Unpatched(d, at, nr, ts, page, stale), TraceImage(d, at, nr, ts, page, stale);
            |e| == |f| && (k < |e| && e[k] != f[k] ==> at <= k && InOffsetField(ts, k - at, |ts|))
  {
    hide WriteAt, ResBytes, Holds, TraceImage, Unpatched, NewOffsets, ValidArray, InOffsetField, OptionPos;
    var e, os := Unpatched(d, at, nr, ts, page, stale), NewOffsets(ts, page, BuffersAt(at, ts));
    var a, b := ResBytes(nr, ts, stale), ResBytes(nr, ts, os);
    TraceIsPatched(d, at, nr, ts, page, stale);
    BlockHeld(d, at, nr, ts, page, stale);
    ResLength(nr, ts, stale);
    ResLength(nr, ts, os);
    Overwrite(e, at, a, b, k);
    if at <= k < at + |a| && !InOffsetField(ts, k - at, |ts|) {
      ResPatched(nr, ts, stale, os, k - at);
    }
  }
}
