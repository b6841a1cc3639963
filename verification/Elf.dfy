/** The ELF structures that the core writer emits, in both classes, and the reader's
    view of them: a member is the little-endian word at its offset. */
module Elf {
  import opened Bytes

  datatype Class = Elf32 | Elf64

  const PT_LOAD: nat := 1
  const PT_DYNAMIC: nat := 2
  const PT_NOTE: nat := 4
  const PT_PHDR: nat := 6
  const ET_DYN: nat := 3
  const ET_CORE: nat := 4
  const PF_W: nat := 2
  const PF_R: nat := 4
  /** `e_phnum` saturates here; the extended numbering of the gABI is not used. */
  const PN_XNUM: nat := 0xffff

  function WordSize(c: Class): nat {
    if c.Elf64? then 8 else 4
  }

  function EhdrSize(c: Class): nat {
    if c.Elf64? then 64 else 52
  }

  function PhdrSize(c: Class): nat {
    if c.Elf64? then 56 else 32
  }

  /** What the process's register-set view contributes to every ELF header. */
  datatype Target = Target(cls: Class, osabi: byte, machine: nat, eflags: nat)

  function Ident(t: Target): (bs: bytes)
    ensures |bs| == 16
  {
    [0x7f, 0x45, 0x4c, 0x46, if t.cls.Elf64? then 2 else 1, 1, 1, t.osabi] + Zeros(8)
  }

  function EhdrTop(t: Target, etype: nat): seq<Field> {
    var w := WordSize(t.cls);
    [F(etype, 2), F(t.machine, 2), F(1, 4), F(0, w), F(EhdrSize(t.cls), w), F(0, w)]
  }

  function EhdrBottom(t: Target, phnum: nat): seq<Field> {
    [F(t.eflags, 4), F(EhdrSize(t.cls), 2), F(PhdrSize(t.cls), 2), F(phnum, 2), F(0, 2), F(0, 2), F(0, 2)]
  }

  /** `fill_elf_header`. */
  function EhdrBytes(t: Target, etype: nat, phnum: nat): bytes {
    Ident(t) + (Pack(EhdrTop(t, etype), 0) + Pack(EhdrBottom(t, phnum), 0))
  }

  lemma EhdrLength(t: Target, etype: nat, phnum: nat)
    ensures |Pack(EhdrTop(t, etype), 0)| == 8 + 3 * WordSize(t.cls) && |Pack(EhdrBottom(t, phnum), 0)| == 16
    ensures |EhdrBytes(t, etype, phnum)| == EhdrSize(t.cls)
  {
    var a, b := EhdrTop(t, etype), EhdrBottom(t, phnum);
    WidthStep(a, 5); WidthStep(a, 4); WidthStep(a, 3); WidthStep(a, 2); WidthStep(a, 1);
    WidthStep(b, 6); WidthStep(b, 5); WidthStep(b, 4); WidthStep(b, 3); WidthStep(b, 2); WidthStep(b, 1);
  }

  /** An ELF header as a reader sees it, with its identification bytes. */
  datatype Ehdr = Ehdr(magic: nat, cls: nat, data: nat, version: nat, osabi: nat, pad: nat,
                       etype: nat, machine: nat, eversion: nat, entry: nat, phoff: nat, shoff: nat,
                       flags: nat, ehsize: nat, phentsize: nat, phnum: nat, shentsize: nat, shnum: nat, shstrndx: nat)

  function EhdrAt(c: Class, d: bytes, p: nat): Ehdr {
    var w := WordSize(c);
    var q := p + 24 + 3 * w;
    Ehdr(U(d, p, 4), U(d, p + 4, 1), U(d, p + 5, 1), U(d, p + 6, 1), U(d, p + 7, 1), U(d, p + 8, 8),
         U(d, p + 16, 2), U(d, p + 18, 2), U(d, p + 20, 4), U(d, p + 24, w), U(d, p + 24 + w, w),
           U(d, p + 24 + 2 * w, w),
         U(d, q, 4), U(d, q + 4, 2), U(d, q + 6, 2), U(d, q + 8, 2), U(d, q + 10, 2), U(d, q + 12, 2), U(d, q + 14, 2))
  }

  /** The header that announces `phnum` program headers right behind it, and no sections. */
  function EhdrOf(t: Target, etype: nat, phnum: nat): Ehdr {
    Ehdr(0x464c_457f, if t.cls.Elf64? then 2 else 1, 1, 1, t.osabi, 0, etype, t.machine, 1, 0, EhdrSize(t.cls), 0,
         t.eflags, EhdrSize(t.cls), PhdrSize(t.cls), phnum, 0, 0, 0)
  }

  lemma ByteHeld(d: bytes, p: nat, bs: bytes, k: nat)
    requires Holds(d, p, bs) && k < |bs|
    ensures U(d, p + k, 1) == bs[k]
  {
    assert Agrees(d, p, bs, k);
    assert U(d, p + k, 1) == d[p + k] + 256 * U(d, p + k + 1, 0);
  }

  lemma MagicRead(t: Target, d: bytes, p: nat)
    requires Holds(d, p, Ident(t))
    ensures U(d, p, 4) == 0x464c_457f
  {
    var bs := Ident(t);
    assert Agrees(d, p, bs, 0) && Agrees(d, p, bs, 1) && Agrees(d, p, bs, 2) && Agrees(d, p, bs, 3);
    assert U(d, p + 3, 1) == d[p + 3] + 256 * U(d, p + 4, 0);
    assert U(d, p + 2, 2) == d[p + 2] + 256 * U(d, p + 3, 1);
    assert U(d, p + 1, 3) == d[p + 1] + 256 * U(d, p + 2, 2);
    assert U(d, p, 4) == d[p] + 256 * U(d, p + 1, 3);
  }

  lemma {:induction false} ZeroWord(d: bytes, p: nat, w: nat)
    requires Holds(d, p, Zeros(w))
    ensures U(d, p, w) == 0
    decreases w
  {
    if w > 0 {
      assert Agrees(d, p, Zeros(w), 0);
      assert Zeros(w) == Zeros(1) + Zeros(w - 1);
      HoldsConcat(d, p, Zeros(1), Zeros(w - 1));
      ZeroWord(d, p + 1, w - 1);
    }
  }

  lemma IdentRead(t: Target, d: bytes, p: nat)
    requires Holds(d, p, Ident(t))
    ensures U(d, p + 4, 1) == (if t.cls.Elf64? then 2 else 1) && U(d, p + 5, 1) == 1 && U(d, p + 6, 1) == 1
    ensures U(d, p + 7, 1) == t.osabi && U(d, p + 8, 8) == 0
  {
    hide U, Holds;
    ByteHeld(d, p, Ident(t), 4);
    ByteHeld(d, p, Ident(t), 5);
    ByteHeld(d, p, Ident(t), 6);
    ByteHeld(d, p, Ident(t), 7);
    HoldsConcat(d, p, Ident(t)[..8], Ident(t)[8..]);
    assert Ident(t) == Ident(t)[..8] + Ident(t)[8..] && Ident(t)[8..] == Zeros(8);
    ZeroWord(d, p + 8, 8);
  }

  lemma TopRead(t: Target, d: bytes, p: nat, etype: nat)
    requires Holds(d, p, Pack(EhdrTop(t, etype), 0)) && etype < 0x1_0000 && t.machine < 0x1_0000
    ensures var w := WordSize(t.cls);
            && U(d, p, 2) == etype && U(d, p + 2, 2) == t.machine && U(d, p + 4, 4) == 1
            && U(d, p + 8, w) == 0 && U(d, p + 8 + w, w) == EhdrSize(t.cls) && U(d, p + 8 + 2 * w, w) == 0
  {
    hide U, Holds, Pack, Pow256;
    Pow256Values();
    var w, fs := WordSize(t.cls), EhdrTop(t, etype);
    TakeField(d, p, fs, 0);
    TakeField(d, p + 2, fs, 1);
    TakeField(d, p + 4, fs, 2);
    TakeField(d, p + 8, fs, 3);
    TakeField(d, p + 8 + w, fs, 4);
    TakeField(d, p + 8 + 2 * w, fs, 5);
  }

  lemma BottomRead(t: Target, d: bytes, p: nat, phnum: nat)
    requires Holds(d, p, Pack(EhdrBottom(t, phnum), 0)) && phnum < 0x1_0000 && t.eflags < 0x1_0000_0000
    ensures U(d, p, 4) == t.eflags && U(d, p + 4, 2) == EhdrSize(t.cls) && U(d, p + 6, 2) == PhdrSize(t.cls)
    ensures U(d, p + 8, 2) == phnum && U(d, p + 10, 2) == 0 && U(d, p + 12, 2) == 0 && U(d, p + 14, 2) == 0
  {
    hide U, Holds, Pack, Pow256;
    Pow256Values();
    var fs := EhdrBottom(t, phnum);
    TakeField(d, p, fs, 0);
    TakeField(d, p + 4, fs, 1);
    TakeField(d, p + 6, fs, 2);
    TakeField(d, p + 8, fs, 3);
    TakeField(d, p + 10, fs, 4);
    TakeField(d, p + 12, fs, 5);
    TakeField(d, p + 14, fs, 6);
  }

  /** A reader of either class finds every member of the header that was written. */
  lemma EhdrRead(t: Target, d: bytes, p: nat, etype: nat, phnum: nat)
    requires Holds(d, p, EhdrBytes(t, etype, phnum))
    requires etype < 0x1_0000 && phnum < 0x1_0000 && t.machine < 0x1_0000 && t.eflags < 0x1_0000_0000
    ensures EhdrAt(t.cls, d, p) == EhdrOf(t, etype, phnum)
  {
    hide U, Holds, Ident, EhdrTop, EhdrBottom, Pack;
    var a, b := Pack(EhdrTop(t, etype), 0), Pack(EhdrBottom(t, phnum), 0);
    EhdrLength(t, etype, phnum);
    HoldsConcat(d, p, Ident(t), a + b);
    HoldsConcat(d, p + 16, a, b);
    MagicRead(t, d, p);
    IdentRead(t, d, p);
    TopRead(t, d, p + 16, etype);
    BottomRead(t, d, p + 16 + |a|, phnum);
  }

  datatype Phdr = Phdr(ptype: nat, offset: nat, vaddr: nat, filesz: nat, memsz: nat, flags: nat, align: nat)

  /** The two classes place `p_flags` differently; `p_paddr` is always zero. */
  function PhdrFields(c: Class, h: Phdr): seq<Field> {
    match c
    case Elf64 => [F(h.ptype, 4), F(h.flags, 4), F(h.offset, 8), F(h.vaddr, 8), F(0, 8), F(h.filesz, 8),
                   F(h.memsz, 8), F(h.align, 8)]
    case Elf32 => [F(h.ptype, 4), F(h.offset, 4), F(h.vaddr, 4), F(0, 4), F(h.filesz, 4), F(h.memsz, 4),
                   F(h.flags, 4), F(h.align, 4)]
  }

  /** `write_phdr`. */
  function PhdrBytes(c: Class, h: Phdr): bytes {
    Pack(PhdrFields(c, h), 0)
  }

  lemma PhdrLength(c: Class, h: Phdr)
    ensures |PhdrBytes(c, h)| == PhdrSize(c)
  {
    var fs := PhdrFields(c, h);
    WidthStep(fs, 7); WidthStep(fs, 6); WidthStep(fs, 5); WidthStep(fs, 4);
    WidthStep(fs, 3); WidthStep(fs, 2); WidthStep(fs, 1);
  }

  function PhdrAt(c: Class, d: bytes, p: nat): Phdr {
    match c
    case Elf64 => Phdr(U(d, p, 4), U(d, p + 8, 8), U(d, p + 16, 8), U(d, p + 32, 8), U(d, p + 40, 8),
                       U(d, p + 4, 4), U(d, p + 48, 8))
    case Elf32 => Phdr(U(d, p, 4), U(d, p + 4, 4), U(d, p + 8, 4), U(d, p + 16, 4), U(d, p + 20, 4),
                       U(d, p + 24, 4), U(d, p + 28, 4))
  }

  /** The values that survive the member widths of the class. */
  predicate PhdrFits(c: Class, h: Phdr) {
    && h.ptype < 0x1_0000_0000 && h.flags < 0x1_0000_0000
    && h.offset < Pow256(WordSize(c)) && h.vaddr < Pow256(WordSize(c)) && h.filesz < Pow256(WordSize(c))
    && h.memsz < Pow256(WordSize(c)) && h.align < Pow256(WordSize(c))
  }

  /** A reader of either class gets back the program header that was written. */
  lemma PhdrRead(c: Class, d: bytes, p: nat, h: Phdr)
    requires Holds(d, p, PhdrBytes(c, h)) && PhdrFits(c, h)
    ensures PhdrAt(c, d, p) == h
  {
    if c.Elf64? {
      PhdrRead64(d, p, h);
    } else {
      PhdrRead32(d, p, h);
    }
  }

  lemma PhdrRead64(d: bytes, p: nat, h: Phdr)
    requires Holds(d, p, PhdrBytes(Elf64, h)) && PhdrFits(Elf64, h)
    ensures PhdrAt(Elf64, d, p) == h
  {
    hide U, Holds, Pack, Pow256;
    Pow256Values();
    var fs := PhdrFields(Elf64, h);
    TakeField(d, p, fs, 0);
    TakeField(d, p + 4, fs, 1);
    TakeField(d, p + 8, fs, 2);
    TakeField(d, p + 16, fs, 3);
    TakeField(d, p + 24, fs, 4);
    TakeField(d, p + 32, fs, 5);
    TakeField(d, p + 40, fs, 6);
    TakeField(d, p + 48, fs, 7);
  }

  lemma PhdrRead32(d: bytes, p: nat, h: Phdr)
    requires Holds(d, p, PhdrBytes(Elf32, h)) && PhdrFits(Elf32, h)
    ensures PhdrAt(Elf32, d, p) == h
  {
    hide U, Holds, Pack, Pow256;
    Pow256Values();
    var fs := PhdrFields(Elf32, h);
    TakeField(d, p, fs, 0);
    TakeField(d, p + 4, fs, 1);
    TakeField(d, p + 8, fs, 2);
    TakeField(d, p + 12, fs, 3);
    TakeField(d, p + 16, fs, 4);
    TakeField(d, p + 20, fs, 5);
    TakeField(d, p + 24, fs, 6);
    TakeField(d, p + 28, fs, 7);
  }

  /** `p_paddr` as a reader sees it. */
  function PaddrAt(c: Class, d: bytes, p: nat): nat {
    match c
    case Elf64 => U(d, p + 24, 8)
    case Elf32 => U(d, p + 12, 4)
  }

  /** The physical address is always zero. */
  lemma PaddrRead(c: Class, d: bytes, p: nat, h: Phdr)
    requires Holds(d, p, PhdrBytes(c, h)) && PhdrFits(c, h)
    ensures PaddrAt(c, d, p) == 0
  {
    hide U, Holds, Pack, Pow256;
    Pow256Values();
    var fs := PhdrFields(c, h);
    TakeField(d, p, fs, 0);
    TakeField(d, p + 4, fs, 1);
    if c.Elf64? {
      TakeField(d, p + 8, fs, 2);
      TakeField(d, p + 16, fs, 3);
      TakeField(d, p + 24, fs, 4);
    } else {
      TakeField(d, p + 8, fs, 2);
      TakeField(d, p + 12, fs, 3);
    }
  }
}
