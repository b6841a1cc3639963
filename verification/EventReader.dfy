/** A reader of the event section that knows nothing but its counts, lengths and NULs. */
module EventReader {
  import opened Bytes
  import opened EventLines
  import opened EventText
  import opened EventFormat
  import opened EventSection

  /** A system and the texts of its events. */
  datatype SystemEvents = SystemEvents(system: bytes, texts: seq<bytes>)

  /** `n` records from `p`, each behind its own length; and where they end. */
  function ReadTexts(d: bytes, p: nat, n: nat): Option<(seq<bytes>, nat)> {
    if n == 0 then Some(([], p))
    else
      match ReadTexts(d, p, n - 1)
      case None => None
      case Some((ts, q)) =>
        var len := U(d, q, 8);
        if q + 8 + len <= |d| then Some((ts + [Sub(d, q + 8, len)], q + 8 + len)) else None
  }

  /** A count and as many records. */
  function ReadBlock(d: bytes, p: nat): Option<(seq<bytes>, nat)> {
    ReadTexts(d, p + 4, U(d, p, 4))
  }

  /** `n` blocks from `p`, each behind its system's name. */
  function ReadSystems(d: bytes, p: nat, n: nat): Option<(seq<SystemEvents>, nat)> {
    if n == 0 then Some(([], p))
    else
      match ReadSystems(d, p, n - 1)
      case None => None
      case Some((bs, q)) =>
        var name := CStr(d, q);
        match ReadBlock(d, q + |name| + 1)
        case None => None
        case Some((ts, r)) => Some((bs + [SystemEvents(name, ts)], r))
  }

  /** The ftrace events, a count, and as many named systems. */
  function ReadSection(d: bytes, p: nat): Option<(seq<SystemEvents>, nat)> {
    match ReadBlock(d, p)
    case None => None
    case Some((ts, q)) =>
      match ReadSystems(d, q + 4, U(d, q, 4))
      case None => None
      case Some((bs, r)) => Some(([SystemEvents(Ascii("ftrace"), ts)] + bs, r))
  }

  /** Counts and lengths fit their words, and a system's name has no NUL. */
  ghost predicate Readable(evs: seq<Event>, common: seq<TraceField>, names: seq<bytes>) {
    && |evs| < 0x1_0000_0000 && |names| <= 0x1_0000_0000
    && (forall i :: 0 <= i < |evs| ==> |TextOf(common, evs[i])| < 0x1_0000_0000_0000_0000)
    && (forall k :: 0 <= k < |names| ==> NulFree(names[k]))
  }

  /** The file holds `bs` at `p`, all of it inside the file. */
  ghost predicate Within(d: bytes, p: nat, bs: bytes) {
    Holds(d, p, bs) && p + |bs| <= |d|
  }

  lemma WithinConcat(d: bytes, p: nat, a: bytes, b: bytes)
    requires Within(d, p, a + b)
    ensures Within(d, p, a) && Within(d, p + |a|, b)
  {
    hide Holds;
    HoldsConcat(d, p, a, b);
  }

  lemma {:induction false} CountTexts(evs: seq<Event>, common: seq<TraceField>, ids: seq<nat>, id: nat, i: nat)
    requires i <= |evs| == |ids|
    ensures |TextsTo(evs, common, ids, id, i)| == CountTo(ids, id, i)
  {
    hide TextOf;
    if i > 0 {
      CountTexts(evs, common, ids, id, i - 1);
    }
  }

  lemma RecordReads(d: bytes, q: nat, common: seq<TraceField>, e: Event)
    requires Within(d, q, EventBytes(common, e)) && |TextOf(common, e)| < 0x1_0000_0000_0000_0000
    ensures U(d, q, 8) == |TextOf(common, e)| && q + 8 + U(d, q, 8) <= |d|
    ensures Sub(d, q + 8, U(d, q, 8)) == TextOf(common, e)
  {
    hide TextOf, LE, U, Sub, Holds;
    Pow256Values();
    TakeWord(d, q, |TextOf(common, e)|, 8, TextOf(common, e));
    SubHeld(d, q + 8, TextOf(common, e));
  }

  lemma {:induction false} TextsRead(d: bytes, p: nat, evs: seq<Event>, common: seq<TraceField>, ids: seq<nat>,
                                     id: nat, i: nat)
    requires i <= |evs| == |ids| && Within(d, p, RecordsTo(evs, common, ids, id, i))
    requires forall i :: 0 <= i < |evs| ==> |TextOf(common, evs[i])| < 0x1_0000_0000_0000_0000
    ensures ReadTexts(d, p, CountTo(ids, id, i))
            == Some((TextsTo(evs, common, ids, id, i), p + |RecordsTo(evs, common, ids, id, i)|))
  {
    hide TextOf, EventBytes, U, Sub, Within;
    if i > 0 {
      var rec := if ids[i - 1] == id then EventBytes(common, evs[i - 1]) else [];
      WithinConcat(d, p, RecordsTo(evs, common, ids, id, i - 1), rec);
      TextsRead(d, p, evs, common, ids, id, i - 1);
      if ids[i - 1] == id {
        RecordReads(d, p + |RecordsTo(evs, common, ids, id, i - 1)|, common, evs[i - 1]);
      } else {
        assert TextsTo(evs, common, ids, id, i) == TextsTo(evs, common, ids, id, i - 1);
        assert RecordsTo(evs, common, ids, id, i) == RecordsTo(evs, common, ids, id, i - 1);
      }
    }
  }

  lemma BlockReads(d: bytes, p: nat, evs: seq<Event>, common: seq<TraceField>, ids: seq<nat>, id: nat)
    requires |evs| == |ids| && |evs| < 0x1_0000_0000 && Within(d, p, Block(evs, common, ids, id))
    requires forall i :: 0 <= i < |evs| ==> |TextOf(common, evs[i])| < 0x1_0000_0000_0000_0000
    ensures ReadBlock(d, p) == Some((TextsTo(evs, common, ids, id, |evs|), p + |Block(evs, common, ids, id)|))
  {
    hide TextOf, LE, U, Within, CountTo, RecordsTo, ReadTexts, TextsTo, Holds;
    var n, rs := CountTo(ids, id, |ids|), RecordsTo(evs, common, ids, id, |evs|);
    WithinConcat(d, p, LE(n, 4), rs);
    WordWithin(d, p, n);
    TextsRead(d, p + 4, evs, common, ids, id, |evs|);
  }

  lemma WordWithin(d: bytes, p: nat, v: nat)
    requires Within(d, p, LE(v, 4)) && v < 0x1_0000_0000
    ensures U(d, p, 4) == v
  {
    hide Holds, U, LE;
    Pow256Values();
    WordHeld(d, p, v, 4);
  }

  /** What the section says about the systems before number `k`, without "ftrace". */
  function NamedEvents(evs: seq<Event>, common: seq<TraceField>, names: seq<bytes>, ids: seq<nat>,
                       k: nat): (r: seq<SystemEvents>)
    requires k <= |names| && |evs| == |ids|
    ensures |r| == if k == 0 then 0 else k - 1
    ensures forall j :: 1 <= j < k ==> r[j - 1] == SystemEvents(names[j], TextsTo(evs, common, ids, j + 1, |evs|))
  {
    if k <= 1 then []
    else NamedEvents(evs, common, names, ids, k - 1) + [SystemEvents(names[k - 1], TextsTo(evs, common, ids, k, |evs|))]
  }

  lemma NamedReads(d: bytes, q: nat, evs: seq<Event>, common: seq<TraceField>, names: seq<bytes>, ids: seq<nat>, k: nat)
    requires k < |names| && |evs| == |ids| && Readable(evs, common, names) &&
             Within(d, q, Named(evs, common, names, ids, k))
    ensures CStr(d, q) == names[k]
    ensures ReadBlock(d, q + |names[k]| + 1)
            == Some((TextsTo(evs, common, ids, k + 1, |evs|), q + |Named(evs, common, names, ids, k)|))
  {
    hide TextOf, Block, CStr, Holds, ReadBlock, TextsTo;
    WithinConcat(d, q, names[k] + [0], Block(evs, common, ids, k + 1));
    CStrHeld(d, q, names[k]);
    BlockReads(d, q + |names[k]| + 1, evs, common, ids, k + 1);
  }

  lemma {:induction false} SystemsRead(d: bytes, p: nat, evs: seq<Event>, common: seq<TraceField>,
                                       names: seq<bytes>, ids: seq<nat>, k: nat)
    requires 1 <= k <= |names| && |evs| == |ids| && Readable(evs, common, names) &&
             Within(d, p, NamedTo(evs, common, names, ids, k))
    ensures ReadSystems(d, p, k - 1)
            == Some((NamedEvents(evs, common, names, ids, k), p + |NamedTo(evs, common, names, ids, k)|))
  {
    hide Readable, Named, CStr, ReadBlock, TextsTo, Within;
    if k > 1 {
      var before := NamedTo(evs, common, names, ids, k - 1);
      WithinConcat(d, p, before, Named(evs, common, names, ids, k - 1));
      SystemsRead(d, p, evs, common, names, ids, k - 1);
      NamedReads(d, p + |before|, evs, common, names, ids, k - 1);
    }
  }

  /** The section is complete and self-delimiting: a reader that follows only counts and lengths
      gets every system with the texts of its events, in order, and ends where the section ends. */
  lemma SectionReads(d: bytes, p: nat, evs: seq<Event>, common: seq<TraceField>, names: seq<bytes>, ids: seq<nat>)
    requires |names| >= 1 && names[0] == Ascii("ftrace") && |evs| == |ids| && Readable(evs, common, names)
    requires Within(d, p, Section(evs, common, names, ids))
    ensures ReadSection(d, p).Some?
    ensures var (bs, end) := ReadSection(d, p).value;
            && end == p + |Section(evs, common, names, ids)| && |bs| == |names|
            && forall k :: 0 <= k < |names| ==> bs[k] == SystemEvents(names[k], TextsTo(evs, common, ids, k + 1, |evs|))
  {
    hide Within, Block, ReadBlock, TextsTo, NamedTo, ReadSystems, U, LE, Ascii, TextOf;
    var b, n, rest := Block(evs, common, ids, 1), |names| - 1, NamedTo(evs, common, names, ids, |names|);
    WithinConcat(d, p, b, LE(n, 4) + rest);
    WithinConcat(d, p + |b|, LE(n, 4), rest);
    BlockReads(d, p, evs, common, ids, 1);
    WordWithin(d, p + |b|, n);
    SystemsRead(d, p + |b| + 4, evs, common, names, ids, |names|);
  }

  /** Every event stands in the block of its own system, at the place that counts the earlier events
      of that system. */
  lemma {:induction false} EventListed(evs: seq<Event>, common: seq<TraceField>, ids: seq<nat>, i: nat, n: nat)
    requires i < n <= |evs| == |ids|
    ensures CountTo(ids, ids[i], i) < |TextsTo(evs, common, ids, ids[i], n)|
    ensures TextsTo(evs, common, ids, ids[i], n)[CountTo(ids, ids[i], i)] == TextOf(common, evs[i])
    decreases n
  {
    hide TextOf;
    CountTexts(evs, common, ids, ids[i], n - 1);
    if i < n - 1 {
      EventListed(evs, common, ids, i, n - 1);
    }
  }

  /** Every text of a block is that of exactly one event of the system. */
  lemma {:induction false} ListedOnce(evs: seq<Event>, common: seq<TraceField>, ids: seq<nat>, id: nat, n: nat,
                                      r: nat) returns (i: nat)
    requires n <= |evs| == |ids| && r < |TextsTo(evs, common, ids, id, n)|
    ensures i < n && ids[i] == id && CountTo(ids, id, i) == r
    ensures TextsTo(evs, common, ids, id, n)[r] == TextOf(common, evs[i])
    decreases n
  {
    hide TextOf;
    CountTexts(evs, common, ids, id, n - 1);
    if r < |TextsTo(evs, common, ids, id, n - 1)| {
      i := ListedOnce(evs, common, ids, id, n - 1, r);
    } else {
      i := n - 1;
    }
  }

  /** Two events of one system have different places. */
  lemma {:induction false} PlacesDiffer(ids: seq<nat>, id: nat, i: nat, j: nat)
    requires i < j < |ids| && ids[i] == id
    ensures CountTo(ids, id, i) < CountTo(ids, id, j)
    decreases j
  {
    if i < j - 1 {
      PlacesDiffer(ids, id, i, j - 1);
    }
  }

  /** Event `i` is text `r` of block `k`, and that text says what the event is. */
  ghost predicate Stands(evs: seq<Event>, common: seq<TraceField>, bs: seq<SystemEvents>, i: nat, k: nat, r: nat) {
    && i < |evs| && k < |bs| && r < |bs[k].texts|
    && bs[k].system == evs[i].system && bs[k].texts[r] == TextOf(common, evs[i])
    && (ValidFields(common) && ValidEvent(evs[i]) ==>
          ReadFormat(bs[k].texts[r])
          == Some(Format(evs[i].name, evs[i].id, common, evs[i].fields, evs[i].fmt)))
  }

  lemma StandsIn(evs: seq<Event>, common: seq<TraceField>, bs: seq<SystemEvents>, i: nat, k: nat, r: nat)
    requires i < |evs| && k < |bs| && r < |bs[k].texts|
    requires bs[k].system == evs[i].system && bs[k].texts[r] == TextOf(common, evs[i])
    ensures Stands(evs, common, bs, i, k, r)
  {
    hide TextOf, ReadFormat, ValidFields, ValidEvent;
    if ValidFields(common) && ValidEvent(evs[i]) {
      TextReads(common, evs[i]);
    }
  }

  /** Text `r` of block `k` is an event of that block's number, the `r`-th such event. */
  ghost predicate Comes(evs: seq<Event>, common: seq<TraceField>, ids: seq<nat>, bs: seq<SystemEvents>, k: nat,
                        r: nat) {
    exists i: nat :: i < |evs| == |ids| && Stands(evs, common, bs, i, k, r) && ids[i] == k + 1 &&
      CountTo(ids, k + 1, i) == r
  }

  /** Reading the section back gives exactly the events: `place` sends the events one to one onto
      the (block, text) pairs that the reader finds. */
  lemma {:induction false} EveryEventOnce(d: bytes, p: nat, evs: seq<Event>, common: seq<TraceField>, ids: seq<nat>)
    requires var names := Systems(evs, |evs|);
             && names[0] == Ascii("ftrace") && |evs| == |ids| && Readable(evs, common, names)
             && Numbered(evs, names, ids, |evs|) && Within(d, p, Section(evs, common, names, ids))
    ensures ReadSection(d, p).Some?
    ensures var bs := ReadSection(d, p).value.0;
            && (forall i {:trigger ids[i]} :: 0 <= i < |evs| ==>
                  ids[i] >= 1 && Stands(evs, common, bs, i, ids[i] - 1, CountTo(ids, ids[i], i)))
            && (forall k: nat, r: nat :: k < |bs| && r < |bs[k].texts| ==> Comes(evs, common, ids, bs, k, r))
            && (forall i, j :: 0 <= i < j < |evs| && ids[i] == ids[j] ==>
                  CountTo(ids, ids[i], i) != CountTo(ids, ids[j], j))
  {
    hide TextsTo, CountTo, TextOf, Within, Section, ReadSection, Systems, Ascii, Stands;
    var names := Systems(evs, |evs|);
    SectionReads(d, p, evs, common, names, ids);
    var bs := ReadSection(d, p).value.0;
    forall i {:trigger ids[i]} | 0 <= i < |evs|
      ensures ids[i] >= 1 && Stands(evs, common, bs, i, ids[i] - 1, CountTo(ids, ids[i], i))
    {
      assert NumberedAt(evs, names, ids, i);
      EventListed(evs, common, ids, i, |evs|);
      StandsIn(evs, common, bs, i, ids[i] - 1, CountTo(ids, ids[i], i));
    }
    forall k: nat, r: nat | k < |bs| && r < |bs[k].texts| ensures Comes(evs, common, ids, bs, k, r) {
      var i := ListedOnce(evs, common, ids, k + 1, |evs|, r);
      assert NumberedAt(evs, names, ids, i);
      StandsIn(evs, common, bs, i, k, r);
    }
    forall i, j | 0 <= i < j < |evs| && ids[i] == ids[j]
      ensures CountTo(ids, ids[i], i) != CountTo(ids, ids[j], j)
    {
      PlacesDiffer(ids, ids[i], i, j);
    }
  }
}
