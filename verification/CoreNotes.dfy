/** The note segment of the core file: how its size is counted and how its bytes are
    emitted are two different pieces of code, and the reader only sees the result. */
module CoreNotes {
  import opened Bytes
  import opened OutFile

  /** `memelfnote`; `data` is absent when a register parser failed. */
  datatype Note = Note(name: bytes, kind: nat, datasz: nat, data: Option<bytes>)

  /** A thread's notes; `prstatus_ptr` is the note at index `pr`. */
  datatype Thread = Thread(notes: seq<Note>, pr: nat)

  ghost predicate ValidNote(n: Note) {
    && |n.name| + 1 < 0x1_0000_0000 && n.datasz < 0x8000_0000 && n.kind < 0x1_0000_0000
    && (n.data.Some? ==> |n.data.value| == n.datasz)
  }

  ghost predicate ValidNotes(ns: seq<Note>) {
    forall n :: n in ns ==> ValidNote(n)
  }

  ghost predicate ValidThread(t: Thread) {
    t.pr < |t.notes| && ValidNotes(t.notes)
  }

  ghost predicate ValidThreads(ts: seq<Thread>) {
    forall k :: 0 <= k < |ts| ==> ValidThread(ts[k])
  }

  /** `notesize`. */
  function NoteSize(n: Note): nat {
    12 + Round4(|n.name| + 1) + Round4(n.datasz)
  }

  function SizeSum(ns: seq<Note>): nat {
    if ns == [] then 0 else NoteSize(ns[0]) + SizeSum(ns[1..])
  }

  function WithData(ns: seq<Note>): seq<Note> {
    if ns == [] then []
    else if ns[0].data.Some? then [ns[0]] + WithData(ns[1..])
    else WithData(ns[1..])
  }

  lemma {:induction false} WithDataMembers(ns: seq<Note>)
    ensures forall n :: n in WithData(ns) ==> n in ns && n.data.Some?
  {
    if ns != [] {
      WithDataMembers(ns[1..]);
    }
  }

  /** The notes with data of the threads from `i` on. */
  function CountedFrom(ts: seq<Thread>, i: nat): nat
    decreases |ts| - i
  {
    if i >= |ts| then 0 else SizeSum(WithData(ts[i].notes)) + CountedFrom(ts, i + 1)
  }

  /** `pt_note_size`, the value that goes into the note header's `p_filesz`. */
  function PtNoteSize(ts: seq<Thread>, process: seq<Note>): nat {
    SizeSum(process) + CountedFrom(ts, 0)
  }

  /** `pt_note_size` as `write_core_file` adds it up. */
  method CountNotes(ts: seq<Thread>, process: seq<Note>) returns (size: nat)
    ensures size == PtNoteSize(ts, process)
  {
    size := 0;
    for k := 0 to |process|
      invariant size + SizeSum(process[k..]) == SizeSum(process)
    {
      size := size + NoteSize(process[k]);
      assert process[k..][1..] == process[k + 1..];
    }
    for i := 0 to |ts|
      invariant size + CountedFrom(ts, i) == PtNoteSize(ts, process)
    {
      var ns := ts[i].notes;
      ghost var before := size;
      for j := 0 to |ns|
        invariant size + SizeSum(WithData(ns[j..])) == before + SizeSum(WithData(ns))
      {
        assert ns[j..][1..] == ns[j + 1..];
        if ns[j].data.Some? {
          size := size + NoteSize(ns[j]);
          assert WithData(ns[j..])[1..] == WithData(ns[j + 1..]);
        }
      }
    }
  }

  function Descriptor(n: Note): bytes {
    if n.data.Some? then n.data.value else []
  }

  /** `bs` written at `pos` and padded to a 4-byte file position. */
  function Aligned(pos: nat, bs: bytes): bytes {
    bs + Zeros(Round4(pos + |bs|) - (pos + |bs|))
  }

  method WriteAligned(f: File, bs: bytes)
    modifies f
    ensures f.data == WriteAt(old(f.data), old(f.pos), Aligned(old(f.pos), bs))
    ensures f.pos == old(f.pos) + |Aligned(old(f.pos), bs)|
  {
    assert Padding(f.pos + |bs|, 4) == Zeros(Round4(f.pos + |bs|) - (f.pos + |bs|));
    WriteTwice(f.data, f.pos, bs, Padding(f.pos + |bs|, 4));
    f.Write(bs);
    f.DumpAlign(4);
  }

  function NhdrBytes(n: Note): (bs: bytes)
    ensures |bs| == 12
  {
    LE(|n.name| + 1, 4) + (LE(n.datasz, 4) + LE(n.kind, 4))
  }

  /** Everything `writenote` emits at file position `pos`: header, name with its NUL,
      padding, descriptor, padding. The padding depends on the absolute position. */
  function NoteBytes(pos: nat, n: Note): (bs: bytes)
    ensures |bs| >= 12
  {
    var named := NhdrBytes(n) + Aligned(pos + 12, n.name + [0]);
    named + Aligned(pos + |named|, Descriptor(n))
  }

  /** `writenote`. */
  method WriteNote(f: File, n: Note)
    modifies f
    ensures f.data == WriteAt(old(f.data), old(f.pos), NoteBytes(old(f.pos), n))
    ensures f.pos == old(f.pos) + |NoteBytes(old(f.pos), n)|
  {
    hide NhdrBytes, Aligned, WriteAt;
    ghost var named := NhdrBytes(n) + Aligned(f.pos + 12, n.name + [0]);
    WriteTwice(f.data, f.pos, NhdrBytes(n), Aligned(f.pos + 12, n.name + [0]));
    WriteTwice(f.data, f.pos, named, Aligned(f.pos + |named|, Descriptor(n)));
    f.Write(NhdrBytes(n));
    WriteAligned(f, n.name + [0]);
    WriteAligned(f, Descriptor(n));
  }

  function NotesBytes(pos: nat, ns: seq<Note>): bytes
    decreases |ns|
  {
    if ns == [] then []
    else NoteBytes(pos, ns[0]) + NotesBytes(pos + |NoteBytes(pos, ns[0])|, ns[1..])
  }

  /** The notes of one thread in emission order; the process-wide notes come right
      after the first thread's status. */
  function ThreadNotes(t: Thread, process: seq<Note>): seq<Note>
    requires t.pr < |t.notes|
  {
    [t.notes[t.pr]] + process + Others(t)
  }

  function Others(t: Thread): seq<Note>
    requires t.pr < |t.notes|
  {
    WithData(t.notes[..t.pr]) + WithData(t.notes[t.pr + 1..])
  }

  /** The notes of the threads from `i` on. */
  function EmittedFrom(ts: seq<Thread>, process: seq<Note>, i: nat): seq<Note>
    requires forall k :: 0 <= k < |ts| ==> ts[k].pr < |ts[k].notes|
    decreases |ts| - i
  {
    if i >= |ts| then []
    else ThreadNotes(ts[i], if i == 0 then process else []) + EmittedFrom(ts, process, i + 1)
  }

  function Emitted(ts: seq<Thread>, process: seq<Note>): seq<Note>
    requires forall k :: 0 <= k < |ts| ==> ts[k].pr < |ts[k].notes|
  {
    EmittedFrom(ts, process, 0)
  }

  /** One `writenote` call of the loops below. */
  method WriteNext(f: File, n: Note, ghost d0: bytes, ghost start: nat, ghost goal: bytes,
                   ghost done: bytes, ghost rest: seq<Note>) returns (ghost done': bytes)
    requires rest != [] && rest[0] == n
    requires Emitting(d0, start, goal, f.data, f.pos, done, NotesBytes(f.pos, rest))
    modifies f
    ensures Emitting(d0, start, goal, f.data, f.pos, done', NotesBytes(f.pos, rest[1..]))
  {
    ghost var bs := NoteBytes(f.pos, n);
    EmitNext(d0, start, goal, f.data, f.pos, done, bs, NotesBytes(f.pos + |bs|, rest[1..]));
    WriteNote(f, n);
    done' := done + bs;
  }

  /** The process-wide notes, one `writenote` each. */
  method WriteProcess(f: File, ns: seq<Note>, ghost d0: bytes, ghost start: nat, ghost goal: bytes,
                      ghost done: bytes, ghost after: seq<Note>) returns (ghost done': bytes)
    requires Emitting(d0, start, goal, f.data, f.pos, done, NotesBytes(f.pos, ns + after))
    modifies f
    ensures Emitting(d0, start, goal, f.data, f.pos, done', NotesBytes(f.pos, after))
  {
    done' := done;
    for k := 0 to |ns|
      invariant Emitting(d0, start, goal, f.data, f.pos, done', NotesBytes(f.pos, ns[k..] + after))
    {
      done' := WriteNext(f, ns[k], d0, start, goal, done', ns[k..] + after);
      assert (ns[k..] + after)[1..] == ns[k + 1..] + after;
    }
    assert ns[|ns|..] + after == after;
  }

  /** A thread's remaining notes: every note with data except the status note. */
  method WriteOthers(f: File, t: Thread, ghost d0: bytes, ghost start: nat, ghost goal: bytes,
                     ghost done: bytes, ghost after: seq<Note>) returns (ghost done': bytes)
    requires t.pr < |t.notes|
    requires Emitting(d0, start, goal, f.data, f.pos, done, NotesBytes(f.pos, Others(t) + after))
    modifies f
    ensures Emitting(d0, start, goal, f.data, f.pos, done', NotesBytes(f.pos, after))
  {
    done' := done;
    assert OthersFrom(t, 0) == Others(t);
    for j := 0 to |t.notes|
      invariant Emitting(d0, start, goal, f.data, f.pos, done', NotesBytes(f.pos, OthersFrom(t, j) + after))
    {
      OthersStep(t, j, after);
      if j != t.pr && t.notes[j].data.Some? {
        done' := WriteNext(f, t.notes[j], d0, start, goal, done', OthersFrom(t, j) + after);
      }
    }
    assert OthersFrom(t, |t.notes|) + after == after;
  }

  /** The body of the thread loop. */
  method WriteThread(f: File, t: Thread, process: seq<Note>, ghost d0: bytes, ghost start: nat, ghost goal: bytes,
                     ghost done: bytes, ghost after: seq<Note>) returns (ghost done': bytes)
    requires t.pr < |t.notes|
    requires Emitting(d0, start, goal, f.data, f.pos, done, NotesBytes(f.pos, ThreadNotes(t, process) + after))
    modifies f
    ensures Emitting(d0, start, goal, f.data, f.pos, done', NotesBytes(f.pos, after))
  {
    ghost var all, rest := ThreadNotes(t, process) + after, process + (Others(t) + after);
    assert all == [t.notes[t.pr]] + rest && all[1..] == rest;
    done' := WriteNext(f, t.notes[t.pr], d0, start, goal, done, all);
    done' := WriteProcess(f, process, d0, start, goal, done', Others(t) + after);
    done' := WriteOthers(f, t, d0, start, goal, done', after);
  }

  /** `write_pt_note`: the loops emit exactly `NotesBytes` of the emission order. */
  method WritePtNote(f: File, start: nat, ts: seq<Thread>, process: seq<Note>)
    requires forall k :: 0 <= k < |ts| ==> ts[k].pr < |ts[k].notes|
    modifies f
    ensures f.data == WriteAt(old(f.data), start, NotesBytes(start, Emitted(ts, process)))
  {
    hide NoteBytes, ThreadNotes, WriteAt;
    f.Seek(start);
    ghost var d0, goal := f.data, NotesBytes(start, Emitted(ts, process));
    ghost var done: bytes := [];
    EmitStart(d0, start, goal);
    for i := 0 to |ts|
      invariant Emitting(d0, start, goal, f.data, f.pos, done, NotesBytes(f.pos, EmittedFrom(ts, process, i)))
    {
      var extra := if i == 0 then process else [];
      ghost var after := EmittedFrom(ts, process, i + 1);
      assert EmittedFrom(ts, process, i) == ThreadNotes(ts[i], extra) + after;
      done := WriteThread(f, ts[i], extra, d0, start, goal, done, after);
    }
    EmitEnd(d0, start, goal, f.data, f.pos, done);
  }

  /** The notes that the inner loop still has to emit from index `j` on. */
  ghost function OthersFrom(t: Thread, j: nat): seq<Note>
    requires t.pr < |t.notes| && j <= |t.notes|
  {
    if j <= t.pr then WithData(t.notes[j..t.pr]) + WithData(t.notes[t.pr + 1..]) else WithData(t.notes[j..])
  }

  lemma OthersStep(t: Thread, j: nat, after: seq<Note>)
    requires t.pr < |t.notes| && j < |t.notes|
    ensures if j != t.pr && t.notes[j].data.Some? then
              && OthersFrom(t, j) + after != [] && (OthersFrom(t, j) + after)[0] == t.notes[j]
              && (OthersFrom(t, j) + after)[1..] == OthersFrom(t, j + 1) + after
            else OthersFrom(t, j) == OthersFrom(t, j + 1)
  {
    if j < t.pr {
      assert t.notes[j..t.pr][1..] == t.notes[j + 1..t.pr];
    } else if j > t.pr {
      assert t.notes[j..][1..] == t.notes[j + 1..];
    } else {
      assert t.notes[j..j] == [];
    }
  }

  // ---------------------------------------------------------------- sizes

  /** What a note really occupies. */
  ghost function EmitSize(n: Note): nat {
    12 + Round4(|n.name| + 1) + (if n.data.Some? then Round4(n.datasz) else 0)
  }

  ghost function EmitSum(ns: seq<Note>): nat {
    if ns == [] then 0 else EmitSize(ns[0]) + EmitSum(ns[1..])
  }

  lemma AlignedSize(pos: nat, bs: bytes)
    requires pos % 4 == 0
    ensures |Aligned(pos, bs)| == Round4(|bs|)
  {
    assert (pos + |bs|) % 4 == |bs| % 4;
  }

  lemma NoteBytesSize(pos: nat, n: Note)
    requires pos % 4 == 0 && ValidNote(n)
    ensures |NoteBytes(pos, n)| == EmitSize(n)
    ensures EmitSize(n) % 4 == 0
  {
    hide NhdrBytes, Aligned, Round4;
    AlignedSize(pos + 12, n.name + [0]);
    AlignedSize(pos + 12 + Round4(|n.name| + 1), Descriptor(n));
  }

  lemma {:induction false} NotesBytesSize(pos: nat, ns: seq<Note>)
    requires pos % 4 == 0 && ValidNotes(ns)
    ensures |NotesBytes(pos, ns)| == EmitSum(ns)
    decreases |ns|
  {
    if ns == [] {
    } else {
      NoteBytesSize(pos, ns[0]);
      NotesBytesSize(pos + |NoteBytes(pos, ns[0])|, ns[1..]);
    }
  }

  lemma {:induction false} EmitSumConcat(a: seq<Note>, b: seq<Note>)
    ensures EmitSum(a + b) == EmitSum(a) + EmitSum(b)
  {
    if a == [] {
      assert a + b == b;
    } else {
      EmitSumConcat(a[1..], b);
      assert (a + b)[1..] == a[1..] + b;
    }
  }

  lemma {:induction false} WithDataConcat(a: seq<Note>, b: seq<Note>)
    ensures WithData(a + b) == WithData(a) + WithData(b)
  {
    if a == [] {
      assert a + b == b;
    } else {
      WithDataConcat(a[1..], b);
      assert (a + b)[1..] == a[1..] + b;
    }
  }

  lemma {:induction false} EmitSumWithData(ns: seq<Note>)
    requires forall n :: n in ns ==> n.data.Some?
    ensures EmitSum(ns) == SizeSum(ns)
  {
    if ns == [] {
    } else {
      EmitSumWithData(ns[1..]);
    }
  }

  /** One thread emits what it counts, plus the whole status note when that note has no data. */
  lemma ThreadSize(t: Thread, process: seq<Note>)
    requires t.pr < |t.notes|
    ensures EmitSum(ThreadNotes(t, process)) ==
            EmitSum(process) + SizeSum(WithData(t.notes)) + Uncounted(t)
  {
    hide EmitSum, SizeSum, WithData, EmitSize;
    var a, b, n := t.notes[..t.pr], t.notes[t.pr + 1..], t.notes[t.pr];
    EmitSumConcat([n] + process, Others(t));
    EmitSumConcat([n], process);
    EmitSumConcat(WithData(a), WithData(b));
    CountedSize(t.notes, a, n, b);
    OneSize(n);
  }

  lemma OneSize(n: Note)
    ensures EmitSum([n]) == EmitSize(n) && WithData([n]) == if n.data.Some? then [n] else []
    ensures EmitSum(WithData([n])) == if n.data.Some? then EmitSize(n) else 0
  {
    hide EmitSize;
    assert [n][1..] == [];
  }

  lemma CountedSize(ns: seq<Note>, a: seq<Note>, n: Note, b: seq<Note>)
    requires ns == a + [n] + b
    ensures SizeSum(WithData(ns)) == EmitSum(WithData(a)) + EmitSum(WithData([n])) + EmitSum(WithData(b))
  {
    hide EmitSum, SizeSum, WithData;
    assert ns == a + ([n] + b);
    WithDataConcat(a, [n] + b);
    WithDataConcat([n], b);
    EmitSumConcat(WithData(a), WithData([n]) + WithData(b));
    EmitSumConcat(WithData([n]), WithData(b));
    WithDataMembers(ns);
    EmitSumWithData(WithData(ns));
  }

  ghost predicate StatusPresent(ts: seq<Thread>, i: nat)
    requires forall k :: 0 <= k < |ts| ==> ts[k].pr < |ts[k].notes|
  {
    forall k :: i <= k < |ts| ==> ts[k].notes[ts[k].pr].data.Some?
  }

  /** What a thread emits beyond what it counts. */
  ghost function Uncounted(t: Thread): nat
    requires t.pr < |t.notes|
  {
    if t.notes[t.pr].data.Some? then 0 else EmitSize(t.notes[t.pr])
  }

  lemma FromStep(ts: seq<Thread>, process: seq<Note>, i: nat)
    requires forall k :: 0 <= k < |ts| ==> ts[k].pr < |ts[k].notes|
    requires i < |ts|
    ensures EmitSum(EmittedFrom(ts, process, i)) ==
            (if i == 0 then EmitSum(process) else 0) + SizeSum(WithData(ts[i].notes)) + Uncounted(ts[i])
            + EmitSum(EmittedFrom(ts, process, i + 1))
  {
    var extra := if i == 0 then process else [];
    ThreadSize(ts[i], extra);
    EmitSumConcat(ThreadNotes(ts[i], extra), EmittedFrom(ts, process, i + 1));
  }

  lemma {:induction false} RestSize(ts: seq<Thread>, process: seq<Note>, i: nat)
    requires forall k :: 0 <= k < |ts| ==> ts[k].pr < |ts[k].notes|
    requires i > 0
    ensures EmitSum(EmittedFrom(ts, process, i)) >= CountedFrom(ts, i)
    ensures EmitSum(EmittedFrom(ts, process, i)) == CountedFrom(ts, i) <==> StatusPresent(ts, i)
    decreases |ts| - i
  {
    if i >= |ts| {
    } else {
      RestSize(ts, process, i + 1);
      FromStep(ts, process, i);
      assert StatusPresent(ts, i) <==> ts[i].notes[ts[i].pr].data.Some? && StatusPresent(ts, i + 1);
    }
  }

  lemma {:induction false} EmittedValid(ts: seq<Thread>, process: seq<Note>, i: nat)
    requires ValidThreads(ts) && ValidNotes(process)
    ensures ValidNotes(EmittedFrom(ts, process, i))
    decreases |ts| - i
  {
    if i >= |ts| {
    } else {
      assert ValidThread(ts[i]);
      WithDataMembers(ts[i].notes[..ts[i].pr]);
      WithDataMembers(ts[i].notes[ts[i].pr + 1..]);
      EmittedValid(ts, process, i + 1);
    }
  }

  /** The counted size is the emitted size exactly when there is a thread to carry the
      process notes and every thread's status note has data. */
  lemma NoteSegmentSize(start: nat, ts: seq<Thread>, process: seq<Note>)
    requires ValidThreads(ts) && ValidNotes(process) && start % 4 == 0
    requires process != [] && forall n :: n in process ==> n.data.Some?
    ensures |NotesBytes(start, Emitted(ts, process))| == PtNoteSize(ts, process) <==> ts != [] && StatusPresent(ts, 0)
  {
    assert |NotesBytes(start, Emitted(ts, process))| == EmitSum(EmittedFrom(ts, process, 0)) by {
      EmittedValid(ts, process, 0);
      NotesBytesSize(start, Emitted(ts, process));
    }
    FirstSize(ts, process);
  }

  lemma WholeSize(ts: seq<Thread>, process: seq<Note>)
    requires ts != [] && forall k :: 0 <= k < |ts| ==> ts[k].pr < |ts[k].notes|
    ensures EmitSum(EmittedFrom(ts, process, 0)) - PtNoteSize(ts, process) ==
            EmitSum(process) - SizeSum(process) + Uncounted(ts[0])
            + EmitSum(EmittedFrom(ts, process, 1)) - CountedFrom(ts, 1)
  {
    FromStep(ts, process, 0);
    assert CountedFrom(ts, 0) == SizeSum(WithData(ts[0].notes)) + CountedFrom(ts, 1);
  }

  lemma FirstSize(ts: seq<Thread>, process: seq<Note>)
    requires forall k :: 0 <= k < |ts| ==> ts[k].pr < |ts[k].notes|
    requires process != [] && forall n :: n in process ==> n.data.Some?
    ensures EmitSum(EmittedFrom(ts, process, 0)) == PtNoteSize(ts, process) <==> ts != [] && StatusPresent(ts, 0)
  {
    if ts == [] {
      AtLeastHeader(process);
    } else {
      EmitSumWithData(process);
      WholeSize(ts, process);
      RestSize(ts, process, 1);
      StatusSplit(ts);
    }
  }

  lemma AtLeastHeader(ns: seq<Note>)
    requires ns != []
    ensures SizeSum(ns) >= 12
  {
  }

  lemma StatusSplit(ts: seq<Thread>)
    requires ts != [] && forall k :: 0 <= k < |ts| ==> ts[k].pr < |ts[k].notes|
    ensures StatusPresent(ts, 0) <==> Uncounted(ts[0]) == 0 && StatusPresent(ts, 1)
  {
  }

  // ---------------------------------------------------------------- the reader

  /** A note as a reader of the note section sees it: `name` includes the NUL. */
  datatype ReadNote = ReadNote(name: bytes, kind: nat, desc: bytes)

  /** The note walk of the System V gABI over `d[pos..end]`. */
  function ParseNotes(d: bytes, pos: nat, end: nat): seq<ReadNote>
    requires end <= |d|
    decreases end - pos
  {
    if pos + 12 > end then []
    else
      var namesz, descsz, kind := U(d, pos, 4), U(d, pos + 4, 4), U(d, pos + 8, 4);
      var desc := pos + 12 + Round4(namesz);
      var next := desc + Round4(descsz);
      if next > end then []
      else
        [ReadNote(Sub(d, pos + 12, namesz), kind, Sub(d, desc, descsz))] + ParseNotes(d, next, end)
  }

  function AsRead(n: Note): ReadNote {
    ReadNote(n.name + [0], n.kind, Descriptor(n))
  }

  function AllAsRead(ns: seq<Note>): seq<ReadNote> {
    if ns == [] then [] else [AsRead(ns[0])] + AllAsRead(ns[1..])
  }

  lemma HeaderRead(d: bytes, pos: nat, n: Note)
    requires ValidNote(n) && Holds(d, pos, NhdrBytes(n))
    ensures U(d, pos, 4) == |n.name| + 1 && U(d, pos + 4, 4) == n.datasz && U(d, pos + 8, 4) == n.kind
  {
    Pow256Values();
    TakeWord(d, pos, |n.name| + 1, 4, LE(n.datasz, 4) + LE(n.kind, 4));
    TakeWord(d, pos + 4, n.datasz, 4, LE(n.kind, 4));
    WordHeld(d, pos + 8, n.kind, 4);
  }

  lemma NoteRead(d: bytes, pos: nat, n: Note)
    requires pos % 4 == 0 && ValidNote(n) && n.data.Some?
    requires Holds(d, pos, NoteBytes(pos, n))
    ensures Holds(d, pos, NhdrBytes(n))
    ensures Holds(d, pos + 12, n.name + [0])
    ensures Holds(d, pos + 12 + Round4(|n.name| + 1), n.data.value)
  {
    hide Holds, NhdrBytes, Aligned, Round4;
    var name := Aligned(pos + 12, n.name + [0]);
    var named := NhdrBytes(n) + name;
    var desc := Aligned(pos + |named|, n.data.value);
    AlignedSize(pos + 12, n.name + [0]);
    HoldsConcat(d, pos, named, desc);
    HoldsConcat(d, pos, NhdrBytes(n), name);
    AlignedHeld(d, pos + 12, n.name + [0]);
    AlignedHeld(d, pos + |named|, n.data.value);
  }

  lemma AlignedHeld(d: bytes, pos: nat, bs: bytes)
    requires Holds(d, pos, Aligned(pos, bs))
    ensures Holds(d, pos, bs)
  {
    hide Holds, Round4;
    HoldsPrefix(d, pos, bs, Zeros(Round4(pos + |bs|) - (pos + |bs|)));
  }

  lemma ParseOne(d: bytes, pos: nat, next: nat, end: nat, r: ReadNote)
    requires next <= end <= |d|
    requires pos + 12 + Round4(|r.name|) + Round4(|r.desc|) == next
    requires U(d, pos, 4) == |r.name| && U(d, pos + 4, 4) == |r.desc| && U(d, pos + 8, 4) == r.kind
    requires Holds(d, pos + 12, r.name) && Holds(d, pos + 12 + Round4(|r.name|), r.desc)
    ensures ParseNotes(d, pos, end) == [r] + ParseNotes(d, next, end)
  {
    hide Holds, U, Sub, Round4;
    SubHeld(d, pos + 12, r.name);
    SubHeld(d, pos + 12 + Round4(|r.name|), r.desc);
  }

  lemma OneNote(d: bytes, pos: nat, end: nat, n: Note, bs: bytes)
    requires pos % 4 == 0 && ValidNote(n) && n.data.Some? && bs == NoteBytes(pos, n)
    requires Holds(d, pos, bs) && pos + |bs| <= end <= |d|
    ensures ParseNotes(d, pos, end) == [AsRead(n)] + ParseNotes(d, pos + |bs|, end)
    ensures (pos + |bs|) % 4 == 0
  {
    hide Holds, NoteBytes, ParseNotes, U, NhdrBytes, Round4;
    NoteBytesSize(pos, n);
    NoteRead(d, pos, n);
    HeaderRead(d, pos, n);
    ParseOne(d, pos, pos + |bs|, end, AsRead(n));
  }

  /** A reader of the note segment recovers every emitted note, in order, and nothing else. */
  lemma {:induction false} NotesRead(d: bytes, pos: nat, end: nat, ns: seq<Note>)
    requires pos % 4 == 0 && ValidNotes(ns) && forall n :: n in ns ==> n.data.Some?
    requires Holds(d, pos, NotesBytes(pos, ns)) && pos + |NotesBytes(pos, ns)| == end <= |d|
    ensures ParseNotes(d, pos, end) == AllAsRead(ns)
    decreases |ns|
  {
    if ns == [] {
    } else {
      hide Holds, NoteBytes, ParseNotes, ValidNote;
      var bs := NoteBytes(pos, ns[0]);
      HoldsConcat(d, pos, bs, NotesBytes(pos + |bs|, ns[1..]));
      OneNote(d, pos, end, ns[0], bs);
      NotesRead(d, pos + |bs|, end, ns[1..]);
    }
  }
}
