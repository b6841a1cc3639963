/** What the finished core file says to a reader that knows the gABI and nothing of the writer: it
    finds the program headers through the ELF header, and everything else through them. */
module CoreMeaning {
  import opened Bytes
  import opened Elf
  import opened Auxv
  import opened CoreNotes
  import opened NoteOrder
  import opened CoreLoads
  import opened FakeLinkMap
  import opened FakeReader
  import opened CoreDump
  import opened CoreRead
  import NtFile

  /** Where program header `k` stands, by the ELF header's own members. */
  function PhdrPos(e: Ehdr, k: nat): nat {
    e.phoff + e.phentsize * k
  }

  function PhdrIn(c: Class, d: bytes, k: nat): Phdr {
    PhdrAt(c, d, PhdrPos(EhdrAt(c, d, 0), k))
  }

  function PaddrIn(c: Class, d: bytes, k: nat): nat {
    PaddrAt(c, d, PhdrPos(EhdrAt(c, d, 0), k))
  }

  /** The number of segments in front of the memory segments. */
  function Ahead(p: Process): nat {
    if p.link && p.libs != [] then 2 else 1
  }

  /** The ELF header: a core file of the process's class and machine whose program headers follow the
      header, one for the notes, one for the fake segment if there is one, one for each VMA. */
  lemma HeaderSays(p: Process)
    requires Dumpable(p)
    ensures var e, wide := EhdrAt(p.t.cls, CoreImage(p), 0), p.t.cls.Elf64?;
            && e.magic == 0x464c_457f && e.cls == (if wide then 2 else 1) && e.data == 1 && e.version == 1
            && e.osabi == p.t.osabi && e.pad == 0 && e.etype == 4 && e.machine == p.t.machine && e.eversion == 1
            && e.entry == 0 && e.shoff == 0 && e.flags == p.t.eflags
            && e.phoff == e.ehsize == (if wide then 64 else 52) && e.phentsize == (if wide then 56 else 32)
            && e.phnum == Ahead(p) + |p.vmas| && e.shentsize == 0 && e.shnum == 0 && e.shstrndx == 0
  {
    hide CoreImage, EhdrAt, Dumpable;
    HeaderReads(p);
  }

  lemma Basics(p: Process)
    requires Dumpable(p)
    ensures ValidThreads(p.threads) && p.page >= 176 && p.threads != []
  {
  }

  lemma SlotIn(p: Process, k: nat)
    requires Dumpable(p)
    ensures PhdrIn(p.t.cls, CoreImage(p), k) == PhdrAt(p.t.cls, CoreImage(p), Slot(p.t.cls, EhdrSize(p.t.cls), k))
    ensures PaddrIn(p.t.cls, CoreImage(p), k) == PaddrAt(p.t.cls, CoreImage(p), Slot(p.t.cls, EhdrSize(p.t.cls), k))
  {
    hide CoreImage, EhdrAt, Dumpable, PhdrAt, PaddrAt, ValidThreads;
    Basics(p);
    HeaderSays(p);
    var e := EhdrAt(p.t.cls, CoreImage(p), 0);
    if p.t.cls.Elf64? {
      assert e.phentsize * k == 56 * k;
    } else {
      assert e.phentsize * k == 32 * k;
    }
  }

  // ---------------------------------------------------------------- memory

  /** The bytes that stand for the VMA's memory: the executable's header, a library image, or what was
      read. */
  function MemoryOf(v: Vma): bytes {
    if v.head.Replaced? then v.head.image else if |v.libs| > 0 then v.libs[0] else v.mem
  }

  /** The byte of address `a` stands at `p_offset` plus the distance from `p_vaddr`. */
  ghost predicate ByteAt(d: bytes, h: Phdr, start: nat, bs: bytes, a: nat) {
    && h.vaddr <= a && start <= a && a - start < |bs|
    && h.offset + (a - h.vaddr) < |d| && d[h.offset + (a - h.vaddr)] == bs[a - start]
  }

  lemma HeaderFlags(v: Vma, at: nat, page: nat)
    ensures var h := LoadPhdr(v, at, page);
            && h.ptype == 1 && h.offset == at && h.vaddr == v.start && h.memsz == v.size && h.align == page
            && h.filesz == (if v.shadow || !(v.r || v.w || v.x) then 0 else v.size)
            && h.flags < 8 && (h.flags % 2 == 1 <==> v.x) && (h.flags / 2 % 2 == 1 <==> v.w)
            && (h.flags / 4 % 2 == 1 <==> v.r)
  {
  }

  lemma AddressByte(d: bytes, h: Phdr, bs: bytes, a: nat)
    requires Holds(d, h.offset, bs) && h.vaddr <= a < h.vaddr + |bs|
    ensures ByteAt(d, h, h.vaddr, bs, a)
  {
    assert Agrees(d, h.offset, bs, a - h.vaddr);
  }

  /** The header of VMA `i` names its address, size and permissions, and every byte of a dumped VMA
      stands at the file position that belongs to its address. */
  lemma SegmentSays(p: Process, i: nat)
    requires Dumpable(p) && i < |p.vmas|
    ensures var v, d := p.vmas[i], CoreImage(p);
            var h := PhdrIn(p.t.cls, d, Ahead(p) + i);
            var dumped := !v.shadow && (v.r || v.w || v.x);
            && h.ptype == 1 && h.vaddr == v.start && h.memsz == v.size && h.align == p.page
            && PaddrIn(p.t.cls, d, Ahead(p) + i) == 0 && h.filesz == (if dumped then v.size else 0)
            && h.flags < 8 && (h.flags % 2 == 1 <==> v.x) && (h.flags / 2 % 2 == 1 <==> v.w)
            && (h.flags / 4 % 2 == 1 <==> v.r)
            && (dumped ==> forall a: nat :: v.start <= a < v.start + |MemoryOf(v)| ==>
                  ByteAt(d, h, v.start, MemoryOf(v), a))
  {
    hide CoreImage, PhdrAt, PaddrAt, Dumpable, LoadPhdr, Holds, SegmentPos, FirstData, PhdrIn, PaddrIn, ByteAt,
      ValidThreads;
    Basics(p);
    var v, d, c := p.vmas[i], CoreImage(p), p.t.cls;
    SlotIn(p, Ahead(p) + i);
    assert Slot(c, EhdrSize(c), Ahead(p) + i) == Slot(c, FirstSlot(p), i);
    SegmentReads(p, i);
    HeaderFlags(v, SegmentPos(p.vmas, FirstData(p), i), p.page);
    var h := PhdrIn(c, d, Ahead(p) + i);
    if !Filtered(v) {
      forall a: nat | v.start <= a < v.start + |MemoryOf(v)| ensures ByteAt(d, h, v.start, MemoryOf(v), a) {
        AddressByte(d, h, MemoryOf(v), a);
      }
    }
  }

  // ---------------------------------------------------------------- notes

  /** The notes of the first program header's segment. */
  function NotesIn(c: Class, d: bytes): seq<ReadNote> {
    var h := PhdrIn(c, d, 0);
    if h.offset + h.filesz <= |d| then ParseNotes(d, h.offset, h.offset + h.filesz) else []
  }

  /** A note with data as a reader should see it. */
  function Shown(n: Note): ReadNote {
    ReadNote(n.name + [0], n.kind, if n.data.Some? then n.data.value else [])
  }

  lemma ShownIsRead(n: Note)
    ensures AsRead(n) == Shown(n)
  {
  }

  /** The note segment's header: its bytes, no address, no size in memory, no flags. */
  lemma NoteSegmentSays(p: Process)
    requires Dumpable(p)
    ensures var d := CoreImage(p);
            var h := PhdrIn(p.t.cls, d, 0);
            && h.ptype == 4 && h.vaddr == 0 && h.memsz == 0 && h.flags == 0 && h.align == 0
            && PaddrIn(p.t.cls, d, 0) == 0 && h.offset + h.filesz <= |d|
            && NotesIn(p.t.cls, d) == AllAsRead(EmittedNotes(p))
  {
    hide CoreImage, PhdrAt, PaddrAt, Dumpable, PhdrIn, PaddrIn, ValidThreads, ParseNotes, AllAsRead, NoteStart,
      CoreDump.NoteSize;
    Basics(p);
    SlotIn(p, 0);
    NotesReadBack(p);
  }

  /** Everything the threads and the process contribute stands in the note segment at its place: for
      each thread its status note, behind the first one the four process notes in their order, then the
      thread's other notes with data in their own order; and nothing else. */
  lemma NotesSay(p: Process, i: nat, j: nat)
    requires Dumpable(p) && i < |p.threads| && j < |p.threads[i].notes|
    ensures var ns, t, at := NotesIn(p.t.cls, CoreImage(p)), p.threads[i], StatusAt(p.threads, 4, i);
            && |ns| == StatusAt(p.threads, 4, |p.threads|) && at < |ns| && 4 < |ns|
            && t.pr < |t.notes| && ns[at] == Shown(t.notes[t.pr])
            && ns[1] == Shown(p.psinfo) && ns[2] == Shown(p.siginfo) && ns[4] == Shown(p.files)
            && (j != t.pr && t.notes[j].data.Some? ==>
                  var k := at + 1 + (if i == 0 then 4 else 0) + OthersBefore(t, j);
                  k < |ns| && ns[k] == Shown(t.notes[j]))
  {
    hide CoreImage, NotesIn, AllAsRead, Dumpable, StatusAt, OthersBefore, Emitted, PhdrIn, AuxvNote, Shown;
    Basics(p);
    NoteSegmentSays(p);
    var ts, ps := p.threads, ProcessNotes(p);
    NoteCount(ts, ps);
    StatusRead(ts, ps, i);
    if j != ts[i].pr && ts[i].notes[j].data.Some? {
      OtherRead(ts, ps, i, j, StatusAt(ts, 4, i) + 1 + (if i == 0 then 4 else 0) + OthersBefore(ts[i], j));
    }
    ProcessAt(ts, ps, 0);
    ProcessAt(ts, ps, 1);
    ProcessAt(ts, ps, 3);
  }

  lemma StatusRead(ts: seq<Thread>, ps: seq<Note>, i: nat)
    requires Wellformed(ts) && i < |ts|
    ensures var all, at := Emitted(ts, ps), StatusAt(ts, |ps|, i);
            && at < |all| == |AllAsRead(all)| && ts[i].pr < |ts[i].notes|
            && AllAsRead(all)[at] == Shown(ts[i].notes[ts[i].pr])
  {
    hide AllAsRead, StatusAt, OthersBefore, Emitted, Shown;
    NotePlaces(ts, ps, i, ts[i].pr);
    ReadAt(Emitted(ts, ps), StatusAt(ts, |ps|, i));
  }

  lemma OtherRead(ts: seq<Thread>, ps: seq<Note>, i: nat, j: nat, k: nat)
    requires Wellformed(ts) && i < |ts| && j < |ts[i].notes| && j != ts[i].pr && ts[i].notes[j].data.Some?
    requires k == StatusAt(ts, |ps|, i) + 1 + (if i == 0 then |ps| else 0) + OthersBefore(ts[i], j)
    ensures var all := Emitted(ts, ps); k < |all| == |AllAsRead(all)| && AllAsRead(all)[k] == Shown(ts[i].notes[j])
  {
    hide AllAsRead, StatusAt, OthersBefore, Emitted, Shown;
    NotePlaces(ts, ps, i, j);
    ReadAt(Emitted(ts, ps), k);
  }

  lemma ReadAt(all: seq<Note>, k: nat)
    requires k < |all|
    ensures |AllAsRead(all)| == |all| && AllAsRead(all)[k] == Shown(all[k])
  {
    hide AllAsRead, Shown;
    AsReadAt(all, k);
    ShownIsRead(all[k]);
  }

  lemma ProcessAt(ts: seq<Thread>, ps: seq<Note>, k: nat)
    requires Wellformed(ts) && ts != [] && k < |ps|
    ensures var all := Emitted(ts, ps);
            |AllAsRead(all)| == |all| > 1 + k && AllAsRead(all)[1 + k] == Shown(ps[k])
  {
    hide AllAsRead, Shown, Emitted;
    ProcessPlaces(ts, ps, k);
    ReadAt(Emitted(ts, ps), 1 + k);
  }

  // ---------------------------------------------------------------- the layout

  /** Offset and file size of program header `k` behind the notes. */
  lemma OffsetsRead(p: Process, k: nat)
    requires Dumpable(p) && 1 <= k < Ahead(p) + |p.vmas|
    ensures var h := PhdrIn(p.t.cls, CoreImage(p), k);
            if k < Ahead(p) then h.offset == DataStart(p) && h.filesz == FakeRoom(p)
            else
              && h.offset == SegmentPos(p.vmas, FirstData(p), k - Ahead(p))
              && h.filesz == DumpSize(p.vmas[k - Ahead(p)])
  {
    hide CoreImage, PhdrAt, Dumpable, PhdrIn, ValidThreads, SegmentPos, FirstData, DataStart, FakeSize, Holds, Content,
      DebuggerFinds, Entries;
    Basics(p);
    SlotIn(p, k);
    if k < Ahead(p) {
      FakeReads(p);
    } else {
      SegmentReads(p, k - Ahead(p));
      assert Slot(p.t.cls, EhdrSize(p.t.cls), k) == Slot(p.t.cls, FirstSlot(p), k - Ahead(p));
    }
  }

  lemma NextSegment(vs: seq<Vma>, dp: nat, i: nat)
    requires i < |vs|
    ensures SegmentPos(vs, dp, 0) == dp && SegmentPos(vs, dp, i + 1) == SegmentPos(vs, dp, i) + DumpSize(vs[i])
  {
  }

  /** The file is packed: the notes begin where the header table ends, the first segment behind them at
      the next page boundary, and every further one where the one before ends. */
  lemma LayoutSays(p: Process, k: nat)
    requires Dumpable(p) && 1 <= k < Ahead(p) + |p.vmas|
    ensures var c, d := p.t.cls, CoreImage(p);
            var e, n, h := EhdrAt(c, d, 0), PhdrIn(c, d, 0), PhdrIn(c, d, k);
            && n.offset == e.phoff + e.phentsize * e.phnum
            && (k == 1 ==> h.offset % p.page == 0 && 0 <= h.offset - (n.offset + n.filesz) < p.page)
            && (k > 1 ==> h.offset == PhdrIn(c, d, k - 1).offset + PhdrIn(c, d, k - 1).filesz)
  {
    hide CoreImage, PhdrAt, EhdrAt, Dumpable, PhdrIn, ValidThreads, SegmentPos, DumpSize, FakeSize, CoreDump.NoteSize;
    Basics(p);
    OffsetsRead(p, k);
    NotesOffset(p);
    if k > 1 {
      OffsetsRead(p, k - 1);
    }
    if k >= Ahead(p) {
      NextSegment(p.vmas, FirstData(p), if k > Ahead(p) then k - Ahead(p) - 1 else 0);
    }
  }

  lemma NotesOffset(p: Process)
    requires Dumpable(p)
    ensures var c, d := p.t.cls, CoreImage(p);
            var e, n := EhdrAt(c, d, 0), PhdrIn(c, d, 0);
            && n.offset == e.phoff + e.phentsize * e.phnum == NoteStart(p) && n.filesz == CoreDump.NoteSize(p)
  {
    hide CoreImage, PhdrAt, EhdrAt, Dumpable, PhdrIn, ValidThreads, CoreDump.NoteSize, ParseNotes, AllAsRead;
    Basics(p);
    SlotIn(p, 0);
    HeaderSays(p);
    NotesReadBack(p);
    PhdrCount(p);
    var e := EhdrAt(p.t.cls, CoreImage(p), 0);
    if p.t.cls.Elf64? {
      assert e.phentsize * e.phnum == 56 * e.phnum;
    } else {
      assert e.phentsize * e.phnum == 32 * e.phnum;
    }
  }

  lemma PhdrCount(p: Process)
    requires Dumpable(p)
    ensures PhNum(p) == Ahead(p) + |p.vmas|
  {
  }

  // ---------------------------------------------------------------- the auxiliary vector

  lemma {:induction false} SetEncodable(es: seq<Aux>, key: nat, val: nat, w: nat, i: nat)
    requires Encodable(es, w) && 0 < key < Pow256(w) && val < Pow256(w)
    ensures Encodable(SetAux(es, key, val, i), w) && |SetAux(es, key, val, i)| <= |es| + 1
    decreases |es| - i
  {
    hide Pow256;
    if i < |es| && es[i].key != key {
      SetEncodable(es, key, val, w, i + 1);
    }
  }

  /** The entries that go into the file. */
  lemma FinalEntries(p: Process, key: nat)
    requires Encodable(p.aux, WordSize(p.t.cls))
    ensures Encodable(FinalAux(p), WordSize(p.t.cls)) && |FinalAux(p)| <= |p.aux| + 2
    ensures var fake := p.link && p.libs != [];
            Lookup(FinalAux(p), key, 0)
            == if fake && key == 3 then Some(0x10_0000 + if p.t.cls.Elf64? then 64 else 52)
               else if fake && key == 31 then Some(0)
               else Lookup(p.aux, key, 0)
  {
    hide SetAux, Lookup, Encodable, Pow256;
    if HasFake(p) {
      var w, at := WordSize(p.t.cls), FAKE + EhdrSize(p.t.cls);
      Pow256Values();
      var es := SetAux(p.aux, AT_PHDR, at, 0);
      SetEncodable(p.aux, AT_PHDR, at, w, 0);
      SetEncodable(es, AT_EXECFN, 0, w, 0);
      LookupSet(p.aux, AT_PHDR, at, key, 0);
      LookupSet(es, AT_EXECFN, 0, key, 0);
    }
  }

  /** The fourth note of the file is the auxiliary vector: a scan answers AT_PHDR with the fake image's
      program headers and AT_EXECFN with 0 if there is a fake segment, and every other key, and every
      key without a fake segment, as the process does. */
  lemma AuxvSays(p: Process, key: nat, n: nat)
    requires Dumpable(p) && Encodable(p.aux, WordSize(p.t.cls)) && |p.aux| + 2 < n
    ensures var ns, fake := NotesIn(p.t.cls, CoreImage(p)), p.link && p.libs != [];
            && |ns| > 3 && ns[3].kind == p.auxv.kind && ns[3].name == p.auxv.name + [0]
            && Find(ns[3].desc, 0, WordSize(p.t.cls), key, 0, n)
               == if fake && key == 3 then Some(0x10_0000 + if p.t.cls.Elf64? then 64 else 52)
                  else if fake && key == 31 then Some(0)
                  else Lookup(p.aux, key, 0)
  {
    hide CoreImage, NotesIn, AllAsRead, Dumpable, AuxvData, Find, FinalAux, Lookup, Encodable, PhdrIn, Emitted;
    Basics(p);
    NoteSegmentSays(p);
    AuxvPresent(p);
    ProcessAt(p.threads, ProcessNotes(p), 2);
    FinalEntries(p, key);
    AuxvReads(p.auxv.data.value, FinalAux(p), WordSize(p.t.cls), key, n);
  }

  lemma AuxvPresent(p: Process)
    requires Dumpable(p)
    ensures p.auxv.data.Some?
    ensures Wellformed(p.threads)
  {
    hide AuxvData, FinalAux;
    assert AuxvNote(p) in ProcessNotes(p);
  }

  /** The fifth note of the file is the table of mapped files: it decodes to the page size and every
      range with its name. */
  lemma FilesSay(p: Process, vs: seq<NtFile.FileVma>)
    requires Dumpable(p) && |vs| < Limit(p) && forall k :: 0 <= k < |vs| ==> NtFile.Fits(WordSize(p.t.cls), vs[k])
    requires p.files.data == Some(NtFile.Payload(WordSize(p.t.cls), p.page, vs))
    ensures var ns := NotesIn(p.t.cls, CoreImage(p));
            && |ns| > 4 && ns[4].kind == p.files.kind
            && NtFile.DecodeFiles(p.t.cls, ns[4].desc) == (p.page, vs)
  {
    hide CoreImage, NotesIn, AllAsRead, Emitted, PhdrIn, NtFile.Payload, NtFile.DecodeFiles, NtFile.Fits, CleanAll,
      DumpSum, StatusPresent, FirstData;
    Basics(p);
    NoteSegmentSays(p);
    AuxvPresent(p);
    ProcessAt(p.threads, ProcessNotes(p), 3);
    NtFile.FilesReadBack(p.t.cls, p.page, vs);
  }

  // ---------------------------------------------------------------- the libraries

  /** The libraries found before name `i`. */
  function FoundBefore(libs: seq<Option<Lib>>, i: nat): nat
    requires i <= |libs|
  {
    if i == 0 then 0 else FoundBefore(libs, i - 1) + if libs[i - 1].Some? then 1 else 0
  }

  lemma {:induction false} FoundIs(libs: seq<Option<Lib>>, i: nat)
    requires i <= |libs|
    ensures |Resolved(libs, i)| == FoundBefore(libs, i)
  {
    if i > 0 {
      FoundIs(libs, i - 1);
    }
  }

  /** What a debugger should be told of library `l`: its load base takes the program headers of the
      file to where they are mapped, its dynamic section lies at that base, all at the word size. */
  ghost predicate Tells(c: Class, e: Entry, l: Lib) {
    var m := if c.Elf64? then 0x1_0000_0000_0000_0000 else 0x1_0000_0000;
    && e.addr < m && e.ld < m && e.name == l.name
    && (e.addr + l.phdrVaddr) % m == (l.vmStart + l.phdrOffset) % m
    && (e.addr + l.dynVaddr) % m == e.ld
  }

  lemma Wrapped64(x: int, y: nat)
    requires x + y >= 0
    ensures (x % 0x1_0000_0000_0000_0000 + y) % 0x1_0000_0000_0000_0000 == (x + y) % 0x1_0000_0000_0000_0000
  {
  }

  lemma Wrapped32(x: int, y: nat)
    requires x + y >= 0
    ensures (x % 0x1_0000_0000 + y) % 0x1_0000_0000 == (x + y) % 0x1_0000_0000
  {
  }

  lemma EntryTells(c: Class, self: bytes, rs: seq<Lib>, k: nat)
    requires k < |rs|
    ensures |Entries(c, self, rs)| == |rs| + 1 && Tells(c, Entries(c, self, rs)[k + 1], rs[k])
  {
    var l := rs[k];
    var x := l.vmStart + (l.phdrOffset - l.phdrVaddr);
    if c.Elf64? {
      Wrapped64(x, l.phdrVaddr);
    } else {
      Wrapped32(x, l.phdrVaddr);
    }
  }

  /** The fake segment's header, and the ELF image it maps: a shared object with two program headers. */
  lemma FakeSegmentSays(p: Process)
    requires Dumpable(p) && p.link && p.libs != []
    ensures var c, d, page := p.t.cls, CoreImage(p), p.page;
            var h, eh := PhdrIn(c, d, 1), if c.Elf64? then 64 else 52;
            var inner := EhdrAt(c, d, h.offset);
            && h.ptype == 1 && h.vaddr == 0x10_0000 && h.filesz == h.memsz && h.flags == 6 && h.align == page
            && PaddrIn(c, d, 1) == 0
            && inner.magic == 0x464c_457f && inner.etype == 3 && inner.machine == p.t.machine
            && inner.phoff == eh && inner.phentsize == (if c.Elf64? then 56 else 32) && inner.phnum == 2
            && PhdrAt(c, d, h.offset + eh) == Phdr(6, eh, eh, 0, page, 4, 8)
            && PhdrAt(c, d, h.offset + eh + inner.phentsize) == Phdr(2, page, page, page, page, 6, 8)
  {
    hide CoreImage, PhdrAt, PaddrAt, EhdrAt, Dumpable, PhdrIn, PaddrIn, ValidThreads, DebuggerFinds, Entries,
      FakeBytes, Holds, DataStart, FakeSize, HeaderPart, PhdrBytes;
    Basics(p);
    SlotIn(p, 1);
    FakeReads(p);
    FakeHeld(p);
    FakeFits(p);
    SegmentParts(p.t, p.page, p.self, p.libs, CoreImage(p), DataStart(p));
    HeadersRead(p.t, p.page, CoreImage(p), DataStart(p));
    InnerHeader(p.t, p.page, CoreImage(p), DataStart(p));
    PaddrRead(p.t.cls, CoreImage(p), Slot(p.t.cls, EhdrSize(p.t.cls), 1),
              FakePhdr(p.t.cls, p.page, p.self, p.libs, DataStart(p)));
  }

  lemma FakeFits(p: Process)
    requires Dumpable(p) && HasFake(p)
    ensures p.page < Pow256(WordSize(p.t.cls)) && p.t.machine < 0x1_0000 && p.t.eflags < 0x1_0000_0000
    ensures PhdrFits(p.t.cls, FakePhdr(p.t.cls, p.page, p.self, p.libs, DataStart(p)))
  {
    hide DumpSum, CleanAll, NoteStart, CoreDump.NoteSize, StatusPresent, FakeSize, NamesOk, Resolved;
    Layout(p);
    LimitFits(p);
  }

  lemma InnerHeader(t: Target, page: nat, d: bytes, at: nat)
    requires Holds(d, at, HeaderPart(t, page)) && t.machine < 0x1_0000 && t.eflags < 0x1_0000_0000
    ensures EhdrAt(t.cls, d, at) == EhdrOf(t, 3, 2)
  {
    hide Holds, EhdrBytes, PhdrBytes, EhdrAt;
    HoldsPrefix(d, at, EhdrBytes(t, 3, 2),
                PhdrBytes(t.cls, PhdrPhdr(t.cls, page)) + PhdrBytes(t.cls, DynamicPhdr(page)));
    EhdrRead(t, d, at, 3, 2);
  }

  /** Starting from the fake segment's program headers, the debugger's list names the fake image and then
      every library that was found, in order, each with its own base, dynamic section and name; names
      that were skipped leave no trace. */
  lemma LibrariesSay(p: Process, i: nat)
    requires Dumpable(p) && p.link && p.libs != [] && i < |p.libs|
    ensures var c, d := p.t.cls, CoreImage(p);
            var h, es := PhdrIn(c, d, 1), Entries(c, p.self, Resolved(p.libs, |p.libs|));
            && DebuggerFinds(c, d, h.offset, h.filesz, 0x10_0000 + (if c.Elf64? then 64 else 52), es)
            && |es| == 1 + FoundBefore(p.libs, |p.libs|) && es[0] == Entry(0x10_0000, 0, p.self)
            && (p.libs[i].Some? ==>
                  1 + FoundBefore(p.libs, i) < |es| && Tells(c, es[1 + FoundBefore(p.libs, i)], p.libs[i].value))
  {
    hide CoreImage, PhdrAt, Dumpable, PhdrIn, ValidThreads, DebuggerFinds, Resolved, DataStart, FakeSize, Tells,
      FoundBefore;
    Basics(p);
    SlotIn(p, 1);
    FakeReads(p);
    var rs := Resolved(p.libs, |p.libs|);
    FoundIs(p.libs, |p.libs|);
    if p.libs[i].Some? {
      ResolvedNext(p.libs, i);
      FoundIs(p.libs, i);
      EntryTells(p.t.cls, p.self, rs, |Resolved(p.libs, i)|);
    }
  }
}
