/** The whole core file: `write_core_file`, and what a reader of the finished file sees. */
module CoreDump {
  import opened Bytes
  import opened OutFile
  import opened Elf
  import opened Auxv
  import opened CoreNotes
  import opened CoreLoads
  import opened FakeLinkMap

  /** Everything `write_core_file` works from. `libs` is `lib_list` (in set order, with the
      libraries that cannot be resolved marked), `link` says that the fake link map was asked
      for, and `self` is the fake image's name. */
  datatype Process = Process(
    t: Target, page: nat, threads: seq<Thread>,
    psinfo: Note, siginfo: Note, auxv: Note, files: Note, aux: seq<Aux>,
    vmas: seq<Vma>, link: bool, libs: seq<Option<Lib>>, self: bytes)

  predicate HasFake(p: Process) {
    p.link && p.libs != []
  }

  /** `set_auxv` before the notes are written. */
  function FinalAux(p: Process): seq<Aux> {
    if HasFake(p) then SetAux(SetAux(p.aux, AT_PHDR, FAKE + EhdrSize(p.t.cls), 0), AT_EXECFN, 0, 0) else p.aux
  }

  function AuxvNote(p: Process): Note {
    if p.auxv.data.None? then p.auxv
    else p.auxv.(data := Some(AuxvData(p.auxv.data.value, FinalAux(p), WordSize(p.t.cls))))
  }

  /** The process-wide notes, in emission order. */
  function ProcessNotes(p: Process): seq<Note> {
    [p.psinfo, p.siginfo, AuxvNote(p), p.files]
  }

  function Segments(p: Process): nat {
    |p.vmas| + 1 + if HasFake(p) then 1 else 0
  }

  function PhNum(p: Process): nat {
    if Segments(p) > 0xffff then 0xffff else Segments(p)
  }

  /** `get_pt_note_data_start`. */
  function NoteStart(p: Process): nat {
    Slot(p.t.cls, EhdrSize(p.t.cls), PhNum(p))
  }

  function NoteSize(p: Process): nat {
    PtNoteSize(p.threads, ProcessNotes(p))
  }

  function NotePhdr(p: Process): Phdr {
    Phdr(PT_NOTE, NoteStart(p), 0, NoteSize(p), 0, 0, 0)
  }

  function EmittedNotes(p: Process): seq<Note>
    requires ValidThreads(p.threads)
  {
    Emitted(p.threads, ProcessNotes(p))
  }

  /** Where the first load segment starts. */
  function DataStart(p: Process): nat
    requires p.page > 0
  {
    RoundUp(NoteStart(p) + NoteSize(p), p.page)
  }

  function FakeRoom(p: Process): nat {
    if HasFake(p) then FakeSize(p.t.cls, p.page, p.self, p.libs) else 0
  }

  /** The first VMA's header slot and data position. */
  function FirstSlot(p: Process): nat {
    Slot(p.t.cls, EhdrSize(p.t.cls), if HasFake(p) then 2 else 1)
  }

  function FirstData(p: Process): nat
    requires p.page > 0
  {
    DataStart(p) + FakeRoom(p)
  }

  /** The image after the ELF header, the note header and the notes. */
  function NotesImage(p: Process): bytes
    requires ValidThreads(p.threads)
  {
    WriteAt(
      WriteAt(
        WriteAt([], 0, EhdrBytes(p.t, ET_CORE, PhNum(p))),
        EhdrSize(p.t.cls), PhdrBytes(p.t.cls, NotePhdr(p))),
      NoteStart(p), NotesBytes(NoteStart(p), EmittedNotes(p)))
  }

  /** The image before the segment loop. */
  function HeadImage(p: Process): bytes
    requires ValidThreads(p.threads) && p.page >= 176
  {
    if HasFake(p) then
      WriteAt(FakeImage(NotesImage(p), p.t, p.page, p.self, p.libs, DataStart(p)),
              Slot(p.t.cls, EhdrSize(p.t.cls), 1),
                PhdrBytes(p.t.cls, FakePhdr(p.t.cls, p.page, p.self, p.libs, DataStart(p))))
    else NotesImage(p)
  }

  /** The finished file. */
  function CoreImage(p: Process): bytes
    requires ValidThreads(p.threads) && p.page >= 176
  {
    LoadsImage(p.t.cls, p.page, HeadImage(p), p.vmas, FirstSlot(p), FirstData(p))
  }

  /** The note half of `write_core_file`. */
  method WriteHeadAndNotes(f: File, p: Process) returns (size: nat)
    requires ValidThreads(p.threads) && f.data == [] && p.auxv.data.Some?
    modifies f
    ensures f.data == NotesImage(p) && size == NoteSize(p)
  {
    hide WriteAt, EhdrBytes, PhdrBytes, NotesBytes, Emitted, PtNoteSize;
    EhdrLength(p.t, ET_CORE, PhNum(p));
    f.Seek(0);
    f.Write(EhdrBytes(p.t, ET_CORE, PhNum(p)));
    var data := FillAuxv(p.auxv.data.value, FinalAux(p), WordSize(p.t.cls));
    var notes := [p.psinfo, p.siginfo, p.auxv.(data := Some(data)), p.files];
    size := CountNotes(p.threads, notes);
    f.Seek(EhdrSize(p.t.cls));
    f.Write(PhdrBytes(p.t.cls, NotePhdr(p)));
    WritePtNote(f, NoteStart(p), p.threads, notes);
  }

  /** `write_core_file`. */
  method WriteCoreFile(p: Process) returns (f: File)
    requires ValidThreads(p.threads) && p.page >= 176 && IsPow2(p.page) && p.auxv.data.Some?
    ensures fresh(f) && f.data == CoreImage(p)
  {
    hide NotesImage, FakeImage, LoadsImage, IsPow2, FakePhdr, PhdrBytes, WriteAt, NoteStart, NoteSize, FakeSize,
      ValidThreads;
    f := new File();
    var size := WriteHeadAndNotes(f, p);
    var slot, pos := EhdrSize(p.t.cls), RoundUp(NoteStart(p) + size, p.page);
    if p.link && p.libs != [] {
      slot := slot + PhdrSize(p.t.cls);
      pos := WriteFakeData(f, p.t, p.page, p.self, p.libs, slot, pos);
    }
    WriteLoads(f, p.t.cls, p.page, p.vmas, slot, pos);
  }
}
