/** What a reader of the finished core file sees: headers, notes, memory and link maps. */
module CoreRead {
  import opened Bytes
  import opened Elf
  import opened Auxv
  import opened Writes
  import opened CoreNotes
  import opened CoreLoads
  import opened FakeLinkMap
  import opened FakeReader
  import opened CoreDump

  /** The program header table ends before the notes exactly when the segment count fits
      `e_phnum`: the extended numbering of the gABI is not implemented. */
  lemma HeaderTableFits(p: Process)
    ensures Slot(p.t.cls, EhdrSize(p.t.cls), Segments(p)) <= NoteStart(p) <==> Segments(p) <= PN_XNUM
    ensures Slot(p.t.cls, FirstSlot(p), |p.vmas|) == Slot(p.t.cls, EhdrSize(p.t.cls), Segments(p))
  {
  }

  /** All threads and notes are complete, the segments fit the header table, no VMA has a failed
      or a double replacement, and the offsets and addresses fit the class's words. */
  ghost predicate Dumpable(p: Process) {
    && 176 <= p.page < Limit(p)
    && p.t.machine < 0x1_0000 && p.t.eflags < 0x1_0000_0000
    && ValidThreads(p.threads) && p.threads != [] && StatusPresent(p.threads, 0)
    && ValidNotes(ProcessNotes(p)) && (forall n :: n in ProcessNotes(p) ==> n.data.Some?)
    && Segments(p) <= PN_XNUM
    && CleanAll(p.vmas)
    && FirstData(p) + DumpSum(p.vmas, |p.vmas|) < Limit(p)
    && (forall i :: 0 <= i < |p.vmas| ==> p.vmas[i].start < Limit(p) && p.vmas[i].size < Limit(p))
    && (HasFake(p) ==> NamesOk(p.self, Resolved(p.libs, |p.libs|)) && FAKE + FakeRoom(p) < Limit(p))
  }

  function Limit(p: Process): nat {
    Pow256(WordSize(p.t.cls))
  }

  lemma LimitFits(p: Process)
    ensures 0x1_0000_0000 <= Limit(p) <= 0x1_0000_0000_0000_0000
  {
    Pow256Values();
  }

  /** The four regions of the file in order: headers, notes, fake segment, memory. */
  lemma Layout(p: Process)
    requires p.page > 0 && Segments(p) <= PN_XNUM
    ensures EhdrSize(p.t.cls) + PhdrSize(p.t.cls) == Slot(p.t.cls, EhdrSize(p.t.cls), 1) <= FirstSlot(p)
    ensures HasFake(p) ==> Slot(p.t.cls, EhdrSize(p.t.cls), 1) + PhdrSize(p.t.cls) == FirstSlot(p)
    ensures FirstSlot(p) <= Slot(p.t.cls, FirstSlot(p), |p.vmas|) == NoteStart(p)
    ensures NoteStart(p) + CoreDump.NoteSize(p) <= DataStart(p) <= FirstData(p)
    ensures NoteStart(p) % 4 == 0
  {
    hide PtNoteSize, FakeSize, Segments, HasFake;
    HeaderSlots(p);
    SlotMod4(p.t.cls, PhNum(p));
    NotesThenData(p);
  }

  lemma HeaderSlots(p: Process)
    requires Segments(p) <= PN_XNUM
    ensures EhdrSize(p.t.cls) + PhdrSize(p.t.cls) == Slot(p.t.cls, EhdrSize(p.t.cls), 1) <= FirstSlot(p)
    ensures HasFake(p) ==> Slot(p.t.cls, EhdrSize(p.t.cls), 1) + PhdrSize(p.t.cls) == FirstSlot(p)
    ensures FirstSlot(p) <= Slot(p.t.cls, FirstSlot(p), |p.vmas|) == NoteStart(p)
  {
    hide HasFake;
  }

  lemma NotesThenData(p: Process)
    requires p.page > 0
    ensures NoteStart(p) + CoreDump.NoteSize(p) <= DataStart(p) <= FirstData(p)
  {
    hide PtNoteSize, FakeSize, NoteStart, HasFake, FakeRoom;
  }

  lemma SlotMod4(c: Class, n: nat)
    ensures Slot(c, EhdrSize(c), n) % 4 == 0
  {
    assert 64 + 56 * n == 4 * (16 + 14 * n) && 52 + 32 * n == 4 * (13 + 8 * n);
    FourTimes(if c.Elf64? then 16 + 14 * n else 13 + 8 * n);
  }

  lemma FourTimes(k: nat)
    ensures (4 * k) % 4 == 0
  {
  }

  lemma NotesLength(p: Process)
    requires Dumpable(p)
    ensures |NotesBytes(NoteStart(p), EmittedNotes(p))| == CoreDump.NoteSize(p)
  {
    hide NotesBytes, PtNoteSize, StatusPresent, Emitted;
    Layout(p);
    NoteSegmentSize(NoteStart(p), p.threads, ProcessNotes(p));
  }

  // ---------------------------------------------------------------- the parts before the memory

  lemma NotesImageHolds(p: Process)
    requires Dumpable(p)
    ensures Holds(NotesImage(p), 0, EhdrBytes(p.t, ET_CORE, PhNum(p)))
    ensures Holds(NotesImage(p), EhdrSize(p.t.cls), PhdrBytes(p.t.cls, NotePhdr(p)))
    ensures Holds(NotesImage(p), NoteStart(p), NotesBytes(NoteStart(p), EmittedNotes(p)))
  {
    hide EhdrBytes, PhdrBytes, NotesBytes, WriteAt, Holds, Kept, NotePhdr, DataStart, NoteStart, Limit, FirstSlot,
      FirstData;
    var c, n := p.t.cls, EhdrSize(p.t.cls);
    var e, h, ns := EhdrBytes(p.t, ET_CORE, PhNum(p)), PhdrBytes(c, NotePhdr(p)),
      NotesBytes(NoteStart(p), EmittedNotes(p));
    var d1 := WriteAt([], 0, e);
    var d2 := WriteAt(d1, n, h);
    Layout(p);
    EhdrLength(p.t, ET_CORE, PhNum(p));
    PhdrLength(c, NotePhdr(p));
    HoldsWritten([], 0, e);
    WriteKeeps(d1, n, h, 0, n);
    HoldsKept(d1, d2, 0, e, 0, n);
    HoldsWritten(d1, n, h);
    WriteKeeps(d2, NoteStart(p), ns, 0, n + PhdrSize(c));
    HoldsKept(d2, NotesImage(p), 0, e, 0, n + PhdrSize(c));
    HoldsKept(d2, NotesImage(p), n, h, 0, n + PhdrSize(c));
    HoldsWritten(d2, NoteStart(p), ns);
  }

  lemma HeadKeeps(p: Process, lo: nat, hi: nat)
    requires p.page >= 176 && Segments(p) <= PN_XNUM && ValidThreads(p.threads)
    requires hi <= Slot(p.t.cls, EhdrSize(p.t.cls), 1) || (NoteStart(p) <= lo && hi <= DataStart(p))
    ensures Kept(NotesImage(p), HeadImage(p), lo, hi)
  {
    hide NotesImage, FakeImage, FakePhdr, PhdrBytes, WriteAt, Kept, DataStart, NoteStart, FirstData, FakeBytes;
    Layout(p);
    var d := NotesImage(p);
    if HasFake(p) {
      var h := FakePhdr(p.t.cls, p.page, p.self, p.libs, DataStart(p));
      var e := FakeImage(d, p.t, p.page, p.self, p.libs, DataStart(p));
      PhdrLength(p.t.cls, h);
      FakeImageKeeps(p, d, lo, hi);
      WriteKeeps(e, Slot(p.t.cls, EhdrSize(p.t.cls), 1), PhdrBytes(p.t.cls, h), lo, hi);
      KeptTrans(d, e, HeadImage(p), lo, hi);
    } else {
      KeptSelf(d, lo, hi);
    }
  }

  lemma FakeImageKeeps(p: Process, d: bytes, lo: nat, hi: nat)
    requires p.page >= 176 && hi <= DataStart(p)
    ensures Kept(d, FakeImage(d, p.t, p.page, p.self, p.libs, DataStart(p)), lo, hi)
  {
    hide WriteAt, Kept, DataStart, FakeBytes;
    var bs := FakeBytes(p.t, p.page, p.self, p.libs);
    WriteKeeps(d, DataStart(p), bs + Padding(DataStart(p) + |bs|, p.page), lo, hi);
  }

  lemma FinalKeeps(p: Process, lo: nat, hi: nat)
    requires Dumpable(p) && hi <= FirstData(p)
    requires hi <= FirstSlot(p) || NoteStart(p) <= lo
    ensures Kept(HeadImage(p), CoreImage(p), lo, hi)
  {
    hide HeadImage, LoadsImage, Kept, FirstData, NoteStart, DumpSum, CleanAll;
    LimitFits(p);
    Layout(p);
    LoadsKeep(p.t.cls, p.page, HeadImage(p), p.vmas, FirstSlot(p), FirstData(p), lo, hi);
  }

  /** Whatever the notes image holds in its headers or its notes is in the finished file. */
  lemma NotesPartKept(p: Process, at: nat, bs: bytes, lo: nat, hi: nat)
    requires Dumpable(p) && Holds(NotesImage(p), at, bs) && lo <= at && at + |bs| <= hi
    requires hi <= Slot(p.t.cls, EhdrSize(p.t.cls), 1) || (NoteStart(p) <= lo && hi <= DataStart(p))
    ensures Holds(CoreImage(p), at, bs)
  {
    hide NotesImage, HeadImage, CoreImage, Holds, Kept, DataStart, NoteStart, FirstData, FirstSlot, DumpSum,
      CleanAll, Limit;
    Layout(p);
    HeadKeeps(p, lo, hi);
    FinalKeeps(p, lo, hi);
    HoldsKept(NotesImage(p), HeadImage(p), at, bs, lo, hi);
    HoldsKept(HeadImage(p), CoreImage(p), at, bs, lo, hi);
  }

  // ---------------------------------------------------------------- the reader's theorems

  /** The ELF header of the finished file announces exactly its segments. */
  lemma HeaderReads(p: Process)
    requires Dumpable(p)
    ensures EhdrAt(p.t.cls, CoreImage(p), 0) == EhdrOf(p.t, ET_CORE, Segments(p))
  {
    hide EhdrBytes, CoreImage, Holds, EhdrAt, NotesImage;
    var n := EhdrSize(p.t.cls);
    Layout(p);
    NotesImageHolds(p);
    EhdrLength(p.t, ET_CORE, PhNum(p));
    NotesPartKept(p, 0, EhdrBytes(p.t, ET_CORE, PhNum(p)), 0, n);
    EhdrRead(p.t, CoreImage(p), 0, ET_CORE, PhNum(p));
  }

  /** Slot 0 is the note segment, and walking it gives back every note that was emitted, in
      order, and nothing else. */
  lemma NotesReadBack(p: Process)
    requires Dumpable(p)
    ensures PhdrAt(p.t.cls, CoreImage(p), EhdrSize(p.t.cls)) == NotePhdr(p)
    ensures PaddrAt(p.t.cls, CoreImage(p), EhdrSize(p.t.cls)) == 0
    ensures NoteStart(p) + CoreDump.NoteSize(p) <= |CoreImage(p)|
    ensures ParseNotes(CoreImage(p), NoteStart(p), NoteStart(p) + CoreDump.NoteSize(p)) == AllAsRead(EmittedNotes(p))
  {
    hide CoreImage, Holds, PhdrAt, PaddrAt, NotesImage, PhdrBytes, NotesBytes, ParseNotes, AllAsRead, Emitted,
      PtNoteSize, NoteStart, DataStart, FirstData, FirstSlot, DumpSum, CleanAll, StatusPresent;
    var c, n, ns := p.t.cls, EhdrSize(p.t.cls), NotesBytes(NoteStart(p), EmittedNotes(p));
    Layout(p);
    LimitFits(p);
    NotesImageHolds(p);
    NotesLength(p);
    PhdrLength(c, NotePhdr(p));
    NotesPartKept(p, n, PhdrBytes(c, NotePhdr(p)), 0, n + PhdrSize(c));
    NotesPartKept(p, NoteStart(p), ns, NoteStart(p), DataStart(p));
    PhdrRead(c, CoreImage(p), n, NotePhdr(p));
    PaddrRead(c, CoreImage(p), n, NotePhdr(p));
    EmittedComplete(p);
    HeldEnd(CoreImage(p), NoteStart(p), ns);
    NotesRead(CoreImage(p), NoteStart(p), NoteStart(p) + CoreDump.NoteSize(p), EmittedNotes(p));
  }

  lemma HeldEnd(d: bytes, at: nat, bs: bytes)
    requires Holds(d, at, bs) && bs != []
    ensures at + |bs| <= |d|
  {
    assert Agrees(d, at, bs, |bs| - 1);
  }

  lemma EmittedComplete(p: Process)
    requires Dumpable(p)
    ensures ValidNotes(EmittedNotes(p)) && (forall n :: n in EmittedNotes(p) ==> n.data.Some?)
    ensures NotesBytes(NoteStart(p), EmittedNotes(p)) != []
  {
    hide NotesBytes, NoteStart, FirstData, FirstSlot, DumpSum, CleanAll, ProcessNotes;
    EmittedValid(p.threads, ProcessNotes(p), 0);
    EmittedWithData(p.threads, ProcessNotes(p), 0);
    EmittedSome(NoteStart(p), p.threads, ProcessNotes(p));
  }

  lemma EmittedSome(pos: nat, ts: seq<Thread>, process: seq<Note>)
    requires ts != [] && forall k :: 0 <= k < |ts| ==> ts[k].pr < |ts[k].notes|
    ensures NotesBytes(pos, Emitted(ts, process)) != []
  {
    hide NoteBytes;
    assert Emitted(ts, process) != [];
  }

  lemma {:induction false} EmittedWithData(ts: seq<Thread>, process: seq<Note>, i: nat)
    requires forall k :: 0 <= k < |ts| ==> ts[k].pr < |ts[k].notes|
    requires StatusPresent(ts, 0) && forall n :: n in process ==> n.data.Some?
    ensures forall n :: n in EmittedFrom(ts, process, i) ==> n.data.Some?
    decreases |ts| - i
  {
    if i < |ts| {
      WithDataMembers(ts[i].notes[..ts[i].pr]);
      WithDataMembers(ts[i].notes[ts[i].pr + 1..]);
      EmittedWithData(ts, process, i + 1);
    }
  }

  /** The finished file represents the process: the slot of VMA `i` holds its program header,
      and for a VMA that is not filtered every byte of its content stands at `p_offset` plus the
      distance from `vm_start`; memory that could not be read reads as zero. */
  lemma SegmentReads(p: Process, i: nat)
    requires Dumpable(p) && i < |p.vmas|
    ensures var v, ph := p.vmas[i], PhdrAt(p.t.cls, CoreImage(p), Slot(p.t.cls, FirstSlot(p), i));
            && ph == LoadPhdr(v, SegmentPos(p.vmas, FirstData(p), i), p.page)
            && (!Filtered(v) ==> Holds(CoreImage(p), ph.offset, Content(v)))
            && PaddrAt(p.t.cls, CoreImage(p), Slot(p.t.cls, FirstSlot(p), i)) == 0
  {
    hide HeadImage, LoadsImage, Holds, PhdrAt, PhdrBytes, FirstData, FirstSlot, NoteStart, Content, CleanAll, PaddrAt;
    var v, at := p.vmas[i], SegmentPos(p.vmas, FirstData(p), i);
    Layout(p);
    LimitFits(p);
    DumpSumMono(p.vmas, i, |p.vmas|);
    SegmentHeld(p.t.cls, p.page, HeadImage(p), p.vmas, FirstSlot(p), FirstData(p), i);
    PhdrRead(p.t.cls, CoreImage(p), Slot(p.t.cls, FirstSlot(p), i), LoadPhdr(v, at, p.page));
    PaddrRead(p.t.cls, CoreImage(p), Slot(p.t.cls, FirstSlot(p), i), LoadPhdr(v, at, p.page));
  }

  /** The file ranges of the header table, the notes, the fake segment and the memory segments
      are disjoint and increasing, for any number of VMAs; position `|vmas|` is the end of the file. */
  lemma RangesOrdered(p: Process, i: nat, j: nat)
    requires Dumpable(p) && i <= j <= |p.vmas|
    ensures Slot(p.t.cls, EhdrSize(p.t.cls), Segments(p)) == NoteStart(p)
    ensures NoteStart(p) + CoreDump.NoteSize(p) <= DataStart(p)
    ensures DataStart(p) + FakeRoom(p) <= SegmentPos(p.vmas, FirstData(p), i)
    ensures i < j ==> SegmentPos(p.vmas, FirstData(p), i) + DumpSize(p.vmas[i]) <= SegmentPos(p.vmas, FirstData(p), j)
  {
    hide DataStart, FakeRoom, DumpSum, CleanAll, PtNoteSize;
    HeaderTableFits(p);
    Layout(p);
    LimitFits(p);
    if i < j {
      SegmentsOrdered(p.vmas, FirstData(p), i, j);
    }
  }

  lemma FirstDataMod(p: Process)
    requires p.page > 0
    ensures FirstData(p) % p.page == FakeRoom(p) % p.page
    ensures FirstData(p) % p.page == 0 <==> (HasFake(p) ==> FakeRoom(p) % p.page == 0)
  {
    hide NoteStart, PtNoteSize, FakeSize;
    AddMultiple(FakeRoom(p), DataStart(p), p.page);
    MulMod(0, p.page);
  }

  /** The header of memory segment `i` in the finished file. */
  function LoadHeader(p: Process, i: nat): Phdr
    requires ValidThreads(p.threads) && p.page >= 176
  {
    PhdrAt(p.t.cls, CoreImage(p), Slot(p.t.cls, FirstSlot(p), i))
  }

  /** Segment `i` has `p_offset` congruent to `p_vaddr` modulo `p_align`, as read from the file. */
  ghost predicate Congruent(p: Process, i: nat)
    requires ValidThreads(p.threads) && p.page >= 176
  {
    var h := LoadHeader(p, i);
    h.align > 0 && h.offset % h.align == h.vaddr % h.align
  }

  /** In the finished file `p_offset` is congruent to `p_vaddr` modulo `p_align` for every memory
      segment exactly when the fake segment is absent or happens to end on a page boundary. */
  lemma OffsetsCongruent(p: Process)
    requires Dumpable(p) && p.vmas != []
    requires forall i :: 0 <= i < |p.vmas| ==> p.vmas[i].start % p.page == 0 && p.vmas[i].size % p.page == 0
    ensures (forall i :: 0 <= i < |p.vmas| ==> Congruent(p, i)) <==> (HasFake(p) ==> FakeRoom(p) % p.page == 0)
  {
    hide DumpSum, NoteStart, PtNoteSize, FakeSize, FirstData, FakeRoom, Congruent, CleanAll, StatusPresent, Limit;
    FirstDataMod(p);
    forall i | 0 <= i < |p.vmas| ensures Congruent(p, i) <==> FirstData(p) % p.page == 0 {
      CongruentIff(p, i);
    }
    assert Congruent(p, 0) <==> FirstData(p) % p.page == 0;
  }

  lemma CongruentIff(p: Process, i: nat)
    requires Dumpable(p) && i < |p.vmas|
    requires forall i :: 0 <= i < |p.vmas| ==> p.vmas[i].start % p.page == 0 && p.vmas[i].size % p.page == 0
    ensures Congruent(p, i) <==> FirstData(p) % p.page == 0
  {
    hide CoreImage, PhdrAt, Holds, FirstData, FirstSlot, DumpSum, CleanAll, StatusPresent, Limit, SegmentPos, Content;
    SegmentReads(p, i);
    SegmentPosMod(p.vmas, FirstData(p), p.page, i);
  }

  // ---------------------------------------------------------------- the fake segment in the file

  lemma FakeLength(p: Process)
    requires p.page >= 176
    ensures |FakeBytes(p.t, p.page, p.self, p.libs)| == FakeSize(p.t.cls, p.page, p.self, p.libs)
  {
    hide HeaderPart, DynamicFields, Pack, ListPart, Strtab, Resolved;
    HeaderPartLength(p.t, p.page);
    DynamicLength(p.t.cls, p.page);
  }

  lemma FakeHeld(p: Process)
    requires Dumpable(p) && HasFake(p)
    ensures Holds(CoreImage(p), Slot(p.t.cls, EhdrSize(p.t.cls), 1),
                  PhdrBytes(p.t.cls, FakePhdr(p.t.cls, p.page, p.self, p.libs, DataStart(p))))
    ensures Holds(CoreImage(p), DataStart(p), FakeBytes(p.t, p.page, p.self, p.libs))
  {
    hide NotesImage, LoadsImage, CoreImage, FakePhdr, PhdrBytes, WriteAt, Kept, Holds, DataStart, NoteStart,
      FirstSlot, FakeBytes, FakeSize,
      CleanAll, DumpSum, Limit;
    var c, at := p.t.cls, Slot(p.t.cls, EhdrSize(p.t.cls), 1);
    var h, bs := PhdrBytes(c, FakePhdr(c, p.page, p.self, p.libs, DataStart(p))),
      FakeBytes(p.t, p.page, p.self, p.libs);
    var d := FakeImage(NotesImage(p), p.t, p.page, p.self, p.libs, DataStart(p));
    Layout(p);
    FakeLength(p);
    PhdrLength(c, FakePhdr(c, p.page, p.self, p.libs, DataStart(p)));
    var pad := Padding(DataStart(p) + |bs|, p.page);
    HoldsWritten(NotesImage(p), DataStart(p), bs + pad);
    HoldsPrefix(d, DataStart(p), bs, pad);
    HoldsWritten(d, at, h);
    WriteKeeps(d, at, h, DataStart(p), FirstData(p));
    HoldsKept(d, HeadImage(p), DataStart(p), bs, DataStart(p), FirstData(p));
    FinalKeeps(p, at, FirstSlot(p));
    HoldsKept(HeadImage(p), CoreImage(p), at, h, at, FirstSlot(p));
    FinalKeeps(p, DataStart(p), FirstData(p));
    HoldsKept(HeadImage(p), CoreImage(p), DataStart(p), bs, DataStart(p), FirstData(p));
  }

  /** In the finished file, slot 1 maps the fake segment, and a debugger that starts from `AT_PHDR`
      finds the fake image and then exactly the resolved libraries. */
  lemma FakeReads(p: Process)
    requires Dumpable(p) && HasFake(p)
    ensures var ph := PhdrAt(p.t.cls, CoreImage(p), Slot(p.t.cls, EhdrSize(p.t.cls), 1));
            && ph == FakePhdr(p.t.cls, p.page, p.self, p.libs, DataStart(p))
            && DebuggerFinds(p.t.cls, CoreImage(p), ph.offset, ph.filesz, FAKE + EhdrSize(p.t.cls),
                             Entries(p.t.cls, p.self, Resolved(p.libs, |p.libs|)))
  {
    hide CoreImage, PhdrAt, PhdrBytes, Holds, DebuggerFinds, Entries, Resolved, FakeBytes, FakeSize, DataStart,
      NoteStart, CleanAll, DumpSum,
      NamesOk;
    Layout(p);
    LimitFits(p);
    FakeHeld(p);
    PhdrRead(p.t.cls, CoreImage(p), Slot(p.t.cls, EhdrSize(p.t.cls), 1),
             FakePhdr(p.t.cls, p.page, p.self, p.libs, DataStart(p)));
    FakeSegmentReads(p.t, p.page, p.self, p.libs, CoreImage(p), DataStart(p));
  }

  lemma {:induction false} AsReadAt(ns: seq<Note>, k: nat)
    requires k < |ns|
    ensures |AllAsRead(ns)| == |ns| && AllAsRead(ns)[k] == AsRead(ns[k])
  {
    hide AsRead;
    if k > 0 {
      AsReadAt(ns[1..], k - 1);
    } else if |ns| > 1 {
      AsReadAt(ns[1..], 0);
    } else {
      assert AllAsRead(ns[1..]) == [];
    }
  }

  // ---------------------------------------------------------------- unread memory

  lemma PastEndIsZero(d: bytes, lo: nat, hi: nat)
    requires |d| <= lo
    ensures ZeroOn(d, lo, hi)
  {
  }

  lemma ZeroAfterWrite(d: bytes, at: nat, bs: bytes, lo: nat, hi: nat)
    requires ZeroOn(d, lo, hi) && (forall k :: 0 <= k < |bs| && lo <= at + k ==> bs[k] == 0)
    ensures ZeroOn(WriteAt(d, at, bs), lo, hi)
  {
    var e := WriteAt(d, at, bs);
    forall i | lo <= i < hi ensures ZeroAt(e, i) {
      assert ZeroAt(d, i);
      if i < |e| {
        WriteAtIndex(d, at, bs, i);
      }
    }
  }

  lemma HeadZero(p: Process, hi: nat)
    requires Dumpable(p)
    ensures ZeroOn(HeadImage(p), FirstData(p), hi)
  {
    hide ZeroOn, WriteAt, DataStart, NoteStart, FirstSlot, PhdrBytes, EhdrBytes, NotesBytes, FakeBytes, CleanAll,
      DumpSum, Limit,
      FakeSize, FakePhdr, NotePhdr, StatusPresent;
    var lo := FirstData(p);
    Layout(p);
    NotesLength(p);
    EhdrLength(p.t, ET_CORE, PhNum(p));
    PhdrLength(p.t.cls, NotePhdr(p));
    PastEndIsZero([], lo, hi);
    var d1 := WriteAt([], 0, EhdrBytes(p.t, ET_CORE, PhNum(p)));
    ZeroAfterWrite([], 0, EhdrBytes(p.t, ET_CORE, PhNum(p)), lo, hi);
    var d2 := WriteAt(d1, EhdrSize(p.t.cls), PhdrBytes(p.t.cls, NotePhdr(p)));
    ZeroAfterWrite(d1, EhdrSize(p.t.cls), PhdrBytes(p.t.cls, NotePhdr(p)), lo, hi);
    ZeroAfterWrite(d2, NoteStart(p), NotesBytes(NoteStart(p), EmittedNotes(p)), lo, hi);
    if HasFake(p) {
      var bs := FakeBytes(p.t, p.page, p.self, p.libs);
      FakeLength(p);
      ZeroAfterWrite(NotesImage(p), DataStart(p), bs + Padding(DataStart(p) + |bs|, p.page), lo, hi);
      var d := FakeImage(NotesImage(p), p.t, p.page, p.self, p.libs, DataStart(p));
      var h := FakePhdr(p.t.cls, p.page, p.self, p.libs, DataStart(p));
      PhdrLength(p.t.cls, h);
      ZeroAfterWrite(d, Slot(p.t.cls, EhdrSize(p.t.cls), 1), PhdrBytes(p.t.cls, h), lo, hi);
    }
  }

  lemma ZeroWithin(d: bytes, lo0: nat, lo: nat, hi: nat)
    requires lo0 <= lo && ZeroOn(d, lo0, hi)
    ensures ZeroOn(d, lo, hi)
  {
  }

  /** A dumped VMA whose memory could not be read has only zeros (or nothing) in its file range. */
  lemma UnreadReadsZero(p: Process, i: nat)
    requires Dumpable(p) && i < |p.vmas| && !Filtered(p.vmas[i]) && Content(p.vmas[i]) == []
    ensures var at := SegmentPos(p.vmas, FirstData(p), i); ZeroOn(CoreImage(p), at, at + p.vmas[i].size)
  {
    hide HeadImage, LoadsImage, ZeroOn, FirstData, FirstSlot, NoteStart, CleanAll, Content;
    var at := SegmentPos(p.vmas, FirstData(p), i);
    Layout(p);
    LimitFits(p);
    HeadZero(p, at + p.vmas[i].size);
    ZeroWithin(HeadImage(p), FirstData(p), at, at + p.vmas[i].size);
    UnreadStaysZero(p.t.cls, p.page, HeadImage(p), p.vmas, FirstSlot(p), FirstData(p), i);
  }

  // ---------------------------------------------------------------- too many segments

  /** With more than `PN_XNUM` segments the header of a memory segment is written over the first
      note: a reader of the note segment finds a program header there. */
  lemma TooManySegments(p: Process)
    requires ValidThreads(p.threads) && p.page >= 176 && CleanAll(p.vmas)
    requires Segments(p) > PN_XNUM && FirstData(p) + DumpSum(p.vmas, |p.vmas|) < 0x1_0000_0000_0000_0000
    ensures var i := PN_XNUM - (if HasFake(p) then 2 else 1);
            && i < |p.vmas|
            && Holds(CoreImage(p), NoteStart(p),
                     PhdrBytes(p.t.cls, LoadPhdr(p.vmas[i], SegmentPos(p.vmas, FirstData(p), i), p.page)))
  {
    hide HeadImage, Applied, Holds, PhdrBytes, VmaStep, CleanAll, DumpSum, FakeRoom, PtNoteSize;
    var c, i := p.t.cls, PN_XNUM - (if HasFake(p) then 2 else 1);
    var ph, dp := FirstSlot(p), FirstData(p);
    var steps := LoadSteps(c, p.page, p.vmas, ph, dp);
    assert Slot(c, ph, i) == NoteStart(p);
    NoteRoom(p);
    StepRange(c, p.page, p.vmas, ph, dp, i);
    SegmentsOrdered(p.vmas, dp, i, i + 1);
    forall j | i < j < |steps| ensures StepOutside(steps[j], Slot(c, ph, i), Slot(c, ph, i) + PhdrSize(c)) {
      StepRange(c, p.page, p.vmas, ph, dp, j);
      SegmentsOrdered(p.vmas, dp, i, j);
    }
    UntouchedHeader(HeadImage(p), steps, i);
  }

  lemma NoteRoom(p: Process)
    ensures CoreDump.NoteSize(p) >= 56
  {
    hide AuxvNote, PtNoteSize, Round4;
    var ns := ProcessNotes(p);
    assert ns == [ns[0]] + ([ns[1]] + ([ns[2]] + [ns[3]]));
    FourNotes(ns[0], ns[1], ns[2], ns[3]);
    CountedAtLeast(p.threads, ns);
  }

  lemma CountedAtLeast(ts: seq<Thread>, process: seq<Note>)
    ensures PtNoteSize(ts, process) >= SizeSum(process)
  {
  }

  lemma FourNotes(a: Note, b: Note, c: Note, e: Note)
    ensures SizeSum([a] + ([b] + ([c] + [e]))) >= 64
  {
    hide SizeSum;
    SizeCons(a, [b] + ([c] + [e]));
    SizeCons(b, [c] + [e]);
    SizeCons(c, [e]);
    SizeCons(e, []);
  }

  lemma SizeCons(n: Note, ns: seq<Note>)
    ensures SizeSum([n] + ns) >= 16 + SizeSum(ns) && [n] + [] == [n]
  {
    assert ([n] + ns)[1..] == ns;
  }
}
