/** The event section of trace.dat: a block of events per system, self-delimiting by counts and
    lengths. */
module EventSection {
  import opened Bytes
  import opened OutFile
  import opened EventLines
  import opened EventText

  /** The systems of the first `i` events in the order of their first use; "ftrace" leads. */
  function Systems(evs: seq<Event>, i: nat): (names: seq<bytes>)
    requires i <= |evs|
    ensures 1 <= |names| <= i + 1
  {
    if i == 0 then [Ascii("ftrace")]
    else
      var names := Systems(evs, i - 1);
      if evs[i - 1].system in names then names else names + [evs[i - 1].system]
  }

  /** Event `i` carries the number of its system, which is the system's place in `names`. */
  ghost predicate NumberedAt(evs: seq<Event>, names: seq<bytes>, ids: seq<nat>, i: nat)
    requires i < |evs| && i < |ids|
  {
    1 <= ids[i] <= |names| && names[ids[i] - 1] == evs[i].system
  }

  /** The first `n` events are numbered. */
  ghost predicate Numbered(evs: seq<Event>, names: seq<bytes>, ids: seq<nat>, n: nat) {
    n <= |evs| == |ids| && forall i :: 0 <= i < n ==> NumberedAt(evs, names, ids, i)
  }

  ghost predicate Distinct(names: seq<bytes>) {
    forall i, j :: 0 <= i < j < |names| ==> names[i] != names[j]
  }

  /** Some event among the first `n` has number `id`. */
  ghost predicate Used(ids: seq<nat>, n: nat, id: nat) {
    exists i :: 0 <= i < n && i < |ids| && ids[i] == id
  }

  /** Numbers are dense: every number from 2 up to `m` is some event's. */
  ghost predicate Dense(ids: seq<nat>, n: nat, m: nat) {
    forall id :: 2 <= id <= m ==> Used(ids, n, id)
  }

  /** Numbers come in the order of first use: the numbers below an event's own are those of earlier
      events (1 is "ftrace"). */
  ghost predicate InOrder(ids: seq<nat>, n: nat) {
    forall i: nat, x :: i < n && i < |ids| && 2 <= x < ids[i] ==> Used(ids, i, x)
  }

  /** The map from system names to numbers, as far as it is filled. */
  ghost predicate Mapped(m: map<bytes, nat>, names: seq<bytes>) {
    && (forall s :: s in m ==> 1 <= m[s] <= |names| && names[m[s] - 1] == s)
    && (forall k :: 0 <= k < |names| ==> names[k] in m && m[names[k]] == k + 1)
  }

  lemma MappedDistinct(m: map<bytes, nat>, names: seq<bytes>)
    requires Mapped(m, names)
    ensures Distinct(names)
  {
    forall i, j | 0 <= i < j < |names| ensures names[i] != names[j] {
      assert m[names[i]] == i + 1 && m[names[j]] == j + 1;
    }
  }

  lemma MappedMore(m: map<bytes, nat>, names: seq<bytes>, s: bytes)
    requires Mapped(m, names) && s !in m
    ensures Mapped(m[s := |names| + 1], names + [s]) && s !in names
  {
  }

  /** The numbering loop of `write_events_data`: numbers are handed out in the order of first use,
      "ftrace" first, without gaps. */
  method AssignIds(evs: seq<Event>, ids: array<nat>) returns (next: nat)
    requires ids.Length == |evs|
    modifies ids
    ensures var names := Systems(evs, |evs|);
            && next == |names| + 1 && Distinct(names) && names[0] == Ascii("ftrace")
            && Numbered(evs, names, ids[..], |evs|) && Dense(ids[..], |evs|, |names|) && InOrder(ids[..], |evs|)
  {
    hide Numbered, Dense, InOrder, Ascii, Mapped;
    next := 1;
    var m: map<bytes, nat> := map[];
    m := m[Ascii("ftrace") := next];
    next := next + 1;
    FirstMapped(evs, ids[..]);
    for i := 0 to |evs|
      invariant next == |Systems(evs, i)| + 1 && Mapped(m, Systems(evs, i)) && Systems(evs, i)[0] == Ascii("ftrace")
      invariant Numbered(evs, Systems(evs, i), ids[..], i) && Dense(ids[..], i, |Systems(evs, i)|)
      invariant InOrder(ids[..], i)
    {
      ghost var before, names := ids[..], Systems(evs, i);
      var sys := evs[i].system;
      assert sys in m <==> sys in names by {
        MappedKeys(m, names, sys);
      }
      if sys !in m {
        MappedMore(m, names, sys);
        m := m[sys := next];
        next := next + 1;
      }
      MappedTo(m, Systems(evs, i + 1), sys);
      ids[i] := m[sys];
      NumberedMore(evs, i, before, m[sys]);
      OrderMore(before, i, m[sys], |names|);
      assert ids[..] == before[i := m[sys]];
    }
    MappedDistinct(m, Systems(evs, |evs|));
  }

  lemma FirstMapped(evs: seq<Event>, ids: seq<nat>)
    requires |ids| == |evs|
    ensures Mapped(map[Ascii("ftrace") := 1], Systems(evs, 0))
    ensures Numbered(evs, Systems(evs, 0), ids, 0) && Dense(ids, 0, |Systems(evs, 0)|) && InOrder(ids, 0)
  {
  }

  lemma MappedKeys(m: map<bytes, nat>, names: seq<bytes>, s: bytes)
    requires Mapped(m, names)
    ensures s in m <==> s in names
  {
  }

  lemma MappedTo(m: map<bytes, nat>, names: seq<bytes>, s: bytes)
    requires Mapped(m, names) && s in names
    ensures s in m && 1 <= m[s] <= |names| && names[m[s] - 1] == s
  {
  }

  /** Numbering one more event. */
  lemma NumberedMore(evs: seq<Event>, i: nat, ids: seq<nat>, id: nat)
    requires i < |evs| && Numbered(evs, Systems(evs, i), ids, i) && Dense(ids, i, |Systems(evs, i)|)
    requires var names := Systems(evs, i + 1); 1 <= id <= |names| && names[id - 1] == evs[i].system
    requires evs[i].system !in Systems(evs, i) ==> id == |Systems(evs, i)| + 1
    ensures var after := ids[i := id];
            Numbered(evs, Systems(evs, i + 1), after, i + 1) && Dense(after, i + 1, |Systems(evs, i + 1)|)
  {
    var after, n, old0, new0 := ids[i := id], i + 1, Systems(evs, i), Systems(evs, i + 1);
    forall k | 0 <= k < i + 1 ensures NumberedAt(evs, new0, after, k) {
      if k < i {
        assert NumberedAt(evs, old0, ids, k);
      }
    }
    forall x | 2 <= x <= |new0| ensures Used(after, n, x) {
      if x <= |old0| {
        assert Used(ids, i, x);
        var k :| 0 <= k < i && ids[k] == x;
        assert after[k] == x;
      } else {
        assert after[i] == x;
      }
    }
  }

  lemma OrderMore(ids: seq<nat>, i: nat, id: nat, m: nat)
    requires i < |ids| && InOrder(ids, i) && Dense(ids, i, m) && id <= m + 1
    ensures InOrder(ids[i := id], i + 1)
  {
    var after := ids[i := id];
    forall k: nat, x | k < i + 1 && 2 <= x < after[k] ensures Used(after, k, x) {
      assert Used(ids, k, x);
      var j :| 0 <= j < k && ids[j] == x;
      assert after[j] == x;
    }
  }

  // ---------------------------------------------------------------- the blocks

  function CountTo(ids: seq<nat>, id: nat, i: nat): (n: nat)
    requires i <= |ids|
    ensures n <= i
  {
    if i == 0 then 0 else CountTo(ids, id, i - 1) + if ids[i - 1] == id then 1 else 0
  }

  /** The texts of the events numbered `id` among the first `i`. */
  function TextsTo(evs: seq<Event>, common: seq<TraceField>, ids: seq<nat>, id: nat, i: nat): seq<bytes>
    requires i <= |evs| == |ids|
  {
    if i == 0 then []
    else TextsTo(evs, common, ids, id, i - 1) + if ids[i - 1] == id then [TextOf(common, evs[i - 1])] else []
  }

  function RecordsTo(evs: seq<Event>, common: seq<TraceField>, ids: seq<nat>, id: nat, i: nat): bytes
    requires i <= |evs| == |ids|
  {
    if i == 0 then []
    else RecordsTo(evs, common, ids, id, i - 1) + if ids[i - 1] == id then EventBytes(common, evs[i - 1]) else []
  }

  /** One system's block: the number of events, then their records. */
  function Block(evs: seq<Event>, common: seq<TraceField>, ids: seq<nat>, id: nat): bytes
    requires |evs| == |ids|
  {
    LE(CountTo(ids, id, |ids|), 4) + RecordsTo(evs, common, ids, id, |evs|)
  }

  /** A named block. */
  function Named(evs: seq<Event>, common: seq<TraceField>, names: seq<bytes>, ids: seq<nat>, k: nat): bytes
    requires k < |names| && |evs| == |ids|
  {
    (names[k] + [0]) + Block(evs, common, ids, k + 1)
  }

  /** The named blocks of the systems before number `k`, without "ftrace". */
  function NamedTo(evs: seq<Event>, common: seq<TraceField>, names: seq<bytes>, ids: seq<nat>, k: nat): bytes
    requires k <= |names| && |evs| == |ids|
  {
    if k <= 1 then [] else NamedTo(evs, common, names, ids, k - 1) + Named(evs, common, names, ids, k - 1)
  }

  /** The whole section. */
  function Section(evs: seq<Event>, common: seq<TraceField>, names: seq<bytes>, ids: seq<nat>): bytes
    requires |names| >= 1 && |evs| == |ids|
  {
    Block(evs, common, ids, 1) + (LE(|names| - 1, 4) + NamedTo(evs, common, names, ids, |names|))
  }

  /** `write_events`. */
  method WriteEvents(f: File, evs: seq<Event>, common: seq<TraceField>, ids: array<nat>, id: nat)
    requires ids.Length == |evs|
    modifies f
    ensures f.data == WriteAt(old(f.data), old(f.pos), Block(evs, common, ids[..], id))
    ensures f.pos == old(f.pos) + |Block(evs, common, ids[..], id)|
  {
    hide WriteAt, EventBytes, LE;
    ghost var xs, d, p := ids[..], f.data, f.pos;
    var total := 0;
    for i := 0 to |evs|
      invariant total == CountTo(xs, id, i)
    {
      if ids[i] == id {
        total := total + 1;
      }
    }
    f.Write(LE(total, 4));
    ghost var head := LE(total, 4);
    ghost var done := head;
    assert head + RecordsTo(evs, common, xs, id, 0) == head;
    for i := 0 to |evs|
      invariant ids[..] == xs && done == head + RecordsTo(evs, common, xs, id, i)
      invariant f.data == WriteAt(d, p, done) && f.pos == p + |done|
    {
      if ids[i] == id {
        WriteEvent(f, common, evs[i]);
        WriteTwice(d, p, done, EventBytes(common, evs[i]));
        done := done + EventBytes(common, evs[i]);
        assert done == head + RecordsTo(evs, common, xs, id, i + 1);
      } else {
        assert RecordsTo(evs, common, xs, id, i + 1) == RecordsTo(evs, common, xs, id, i);
      }
    }
  }

  /** The inner search of `write_events_data`: the first event with number `id`. */
  method FindSystem(evs: seq<Event>, ids: array<nat>, id: nat) returns (j: nat)
    requires ids.Length == |evs| && Used(ids[..], |evs|, id)
    ensures j < |evs| && ids[j] == id
  {
    ghost var k :| 0 <= k < |evs| && ids[..][k] == id;
    j := 0;
    while ids[j] != id
      invariant j <= k
      decreases k - j
    {
      j := j + 1;
    }
  }

  /** `write_events_data`. */
  method WriteEventsData(f: File, evs: seq<Event>, common: seq<TraceField>, ids: array<nat>)
    requires ids.Length == |evs|
    modifies f, ids
    ensures Numbered(evs, Systems(evs, |evs|), ids[..], |evs|) && InOrder(ids[..], |evs|)
    ensures Distinct(Systems(evs, |evs|)) && Systems(evs, |evs|)[0] == Ascii("ftrace")
    ensures f.data == WriteAt(old(f.data), old(f.pos), Section(evs, common, Systems(evs, |evs|), ids[..]))
  {
    hide WriteAt, LE, Block, Systems, Ascii, Distinct, InOrder, Used;
    ghost var d, p, names := f.data, f.pos, Systems(evs, |evs|);
    var next := AssignIds(evs, ids);
    ghost var xs := ids[..];
    WriteEvents(f, evs, common, ids, 1);
    var nr := next - 2;
    WriteTwice(d, p, Block(evs, common, xs, 1), LE(nr, 4));
    f.Write(LE(nr, 4));
    ghost var head := Block(evs, common, xs, 1) + LE(nr, 4);
    ghost var done := head;
    assert head + NamedTo(evs, common, names, xs, 1) == head;
    for id := 2 to nr + 2
      invariant ids[..] == xs && done == head + NamedTo(evs, common, names, xs, id - 1)
      invariant f.data == WriteAt(d, p, done) && f.pos == p + |done|
    {
      var j := FindSystem(evs, ids, id);
      assert NumberedAt(evs, names, xs, j) && xs[j] == id;
      WriteNamed(f, evs, common, ids, evs[j].system, ids[j]);
      ghost var more := Named(evs, common, names, xs, id - 1);
      WriteTwice(d, p, done, more);
      NamedNext(evs, common, names, xs, id - 1, head, done);
      done := done + more;
    }
    assert done == Section(evs, common, names, xs);
  }

  method WriteNamed(f: File, evs: seq<Event>, common: seq<TraceField>, ids: array<nat>, sys: bytes, id: nat)
    requires ids.Length == |evs|
    modifies f
    ensures f.data == WriteAt(old(f.data), old(f.pos), (sys + [0]) + Block(evs, common, ids[..], id))
    ensures f.pos == old(f.pos) + |(sys + [0]) + Block(evs, common, ids[..], id)|
  {
    hide WriteAt, Block;
    ghost var d, p := f.data, f.pos;
    f.Write(sys + [0]);
    WriteEvents(f, evs, common, ids, id);
    WriteTwice(d, p, sys + [0], Block(evs, common, ids[..], id));
  }

  lemma NamedNext(evs: seq<Event>, common: seq<TraceField>, names: seq<bytes>, ids: seq<nat>, k: nat, head: bytes,
                  done: bytes)
    requires 1 <= k < |names| && |evs| == |ids| && done == head + NamedTo(evs, common, names, ids, k)
    ensures done + Named(evs, common, names, ids, k) == head + NamedTo(evs, common, names, ids, k + 1)
  {
    hide Named;
  }
}
