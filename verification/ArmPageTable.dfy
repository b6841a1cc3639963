/** The two-level ARM page-table walk with one cached table per level. */
module ArmPageTable {
  import opened Bytes

  /** A memory snapshot that can be read everywhere. */
  type Memory = nat -> byte

  /** The machine: kernel virtual memory, physical memory, and the page-table layout flag. */
  datatype Machine = Machine(kmem: Memory, pmem: Memory, v2: bool)

  /** A lookup: the page directory of an address space and the virtual address. */
  datatype Query = Query(pgd: nat, vaddr: nat)

  ghost predicate ValidQuery(q: Query) {
    q.pgd < 0x1_0000_0000 && q.vaddr < 0x1_0000_0000
  }

  function Word(m: Memory, a: nat): nat {
    m(a) + 256 * (m(a + 1) + 256 * (m(a + 2) + 256 * m(a + 3)))
  }

  function PageBase(x: nat): (b: nat)
    ensures b <= x && b % 4096 == 0
  {
    x - x % 4096
  }

  /** `page_dir`: two words per 2 MB, and one more if bit 20 is set. */
  function PageDir(q: Query): nat {
    (q.pgd + 4 * (q.vaddr / 0x20_0000 * 2) + (if q.vaddr / 0x10_0000 % 2 == 1 then 4 else 0)) % 0x1_0000_0000
  }

  /** `pmd_page_addr`. */
  function PmdPageAddr(v2: bool, pmd: nat): nat {
    if v2 then PageBase(pmd) else (pmd - pmd % 2048 + 2048) % 0x1_0000_0000
  }

  /** `page_table`: the address of the entry for `vaddr` in the table that `pmd` points to. */
  function PageTable(v2: bool, pmd: nat, vaddr: nat): nat {
    (PmdPageAddr(v2, pmd) + 4 * (vaddr / 4096 % 512)) % 0x1_0000_0000
  }

  /** The cached tables and the addresses they were read from. */
  datatype Cache = Cache(lastPgd: nat, pgd: bytes, lastPtbl: nat, ptbl: bytes)

  function Block(m: Memory, base: nat, n: nat): (bs: bytes)
    ensures |bs| == n
  {
    seq<byte>(n, i requires 0 <= i => m(base + i))
  }

  /** `cfill_pgd` and `cfill_ptbl`. */
  function FillPgd(m: Machine, c: Cache, base: nat): Cache {
    if base == c.lastPgd then c else c.(lastPgd := base, pgd := Block(m.kmem, base, 16384))
  }

  function FillPtbl(m: Machine, c: Cache, base: nat): Cache {
    if base == c.lastPtbl then c else c.(lastPtbl := base, ptbl := Block(m.pmem, base, 4096))
  }

  /** One lookup: the new cache and the entry. */
  function Lookup(m: Machine, c: Cache, q: Query): (Cache, nat) {
    var c1 := FillPgd(m, c, PageBase(q.pgd));
    var pmd := U(c1.pgd, PageDir(q) % 16384, 4);
    if pmd == 0 then (c1, 0)
    else
      var at := PageTable(m.v2, pmd, q.vaddr);
      var c2 := FillPtbl(m, c1, PageBase(at));
      (c2, U(c2.ptbl, at % 4096, 4))
  }

  /** The walk without caches: the directory entry of the address's megabyte, then the entry of its
      page among 512. The table starts at the page the directory entry names, or, in the old layout,
      2048 bytes behind the 2048-byte block it names. */
  function Walk(m: Machine, q: Query): nat {
    var pmd := Word(m.kmem, q.pgd + 4 * (q.vaddr / 0x10_0000));
    var table := if m.v2 then pmd / 4096 * 4096 else pmd / 2048 * 2048 + 2048;
    if pmd == 0 then 0 else Word(m.pmem, (table + 4 * (q.vaddr / 4096 % 512)) % 0x1_0000_0000)
  }

  lemma WrapTwice(x: nat, y: nat)
    ensures (x % 0x1_0000_0000 + y) % 0x1_0000_0000 == (x + y) % 0x1_0000_0000
  {
  }

  lemma WalkEntry(m: Machine, q: Query)
    ensures var pmd := Word(m.kmem, q.pgd + 4 * (q.vaddr / 0x10_0000));
            Walk(m, q) == if pmd == 0 then 0 else Word(m.pmem, PageTable(m.v2, pmd, q.vaddr))
  {
    hide Word;
    var pmd := Word(m.kmem, q.pgd + 4 * (q.vaddr / 0x10_0000));
    WrapTwice(pmd / 2048 * 2048 + 2048, 4 * (q.vaddr / 4096 % 512));
  }

  class ParserPlugin {
    const m: Machine
    const pgd: array<byte>
    const ptbl: array<byte>
    var lastPgd: nat
    var lastPtbl: nat

    ghost predicate Valid()
      reads this
    {
      pgd.Length == 16384 && ptbl.Length == 4096 && pgd != ptbl
    }

    ghost function Contents(): Cache
      reads this, pgd, ptbl
    {
      Cache(lastPgd, pgd[..], lastPtbl, ptbl[..])
    }

    /** Nothing is read yet; the keys are 0. */
    constructor (m: Machine)
      ensures Valid() && this.m == m && lastPgd == 0 && lastPtbl == 0 && fresh(pgd) && fresh(ptbl)
    {
      this.m := m;
      pgd, ptbl := new byte[16384], new byte[4096];
      lastPgd, lastPtbl := 0, 0;
    }

    method Readmem(mem: Memory, base: nat, buf: array<byte>)
      modifies buf
      ensures buf[..] == Block(mem, base, buf.Length)
    {
      forall i | 0 <= i < buf.Length {
        buf[i] := mem(base + i);
      }
    }

    method CfillPgd(base: nat)
      requires Valid()
      modifies this`lastPgd, pgd
      ensures Contents() == FillPgd(m, old(Contents()), base)
    {
      if lastPgd != base {
        Readmem(m.kmem, base, pgd);
        lastPgd := base;
      }
    }

    method CfillPtbl(base: nat)
      requires Valid()
      modifies this`lastPtbl, ptbl
      ensures Contents() == FillPtbl(m, old(Contents()), base)
    {
      if lastPtbl != base {
        Readmem(m.pmem, base, ptbl);
        lastPtbl := base;
      }
    }

    /** `get_arm_pte` from the point where the page directory is known. */
    method GetArmPte(q: Query) returns (pte: nat)
      requires Valid()
      modifies this, pgd, ptbl
      ensures Valid() && (Contents(), pte) == Lookup(m, old(Contents()), q)
    {
      hide U, Block, PageBase, PageTable;
      var dir := q.pgd + 4 * (q.vaddr / 0x20_0000 * 2);
      if q.vaddr / 0x10_0000 % 2 == 1 {
        dir := dir + 4;
      }
      dir := dir % 0x1_0000_0000;
      CfillPgd(PageBase(q.pgd));
      var pmd := U(pgd[..], dir % 16384, 4);
      if pmd == 0 {
        return 0;
      }
      var at := PageTable(m.v2, pmd, q.vaddr);
      CfillPtbl(PageBase(at));
      pte := U(ptbl[..], at % 4096, 4);
    }
  }

  // ---------------------------------------------------------------- the directory entry

  lemma HalvesOfMegabytes(v: nat)
    ensures v / 0x20_0000 * 2 + v / 0x10_0000 % 2 == v / 0x10_0000
  {
    var x := v / 0x10_0000;
    assert x / 2 == v / 0x20_0000;
  }

  /** The directory offset is 4 * (vaddr >> 20). */
  lemma DirOffset(q: Query)
    ensures PageDir(q) == (q.pgd + 4 * (q.vaddr / 0x10_0000)) % 0x1_0000_0000
  {
    HalvesOfMegabytes(q.vaddr);
  }

  /** The address of the word that the lookup takes as the directory entry. */
  function DirSlot(q: Query): nat {
    PageBase(q.pgd) + PageDir(q) % 16384
  }

  /** In a 16 KB-aligned directory that is the entry itself. */
  lemma AlignedSlot(q: Query)
    requires ValidQuery(q) && q.pgd % 16384 == 0
    ensures DirSlot(q) == PageDir(q) == q.pgd + 4 * (q.vaddr / 0x10_0000)
    ensures PageBase(q.pgd) == q.pgd && PageDir(q) % 16384 == 4 * (q.vaddr / 0x10_0000) <= 16380
  {
    hide PageDir;
    DirOffset(q);
    var k, o := q.pgd / 16384, 4 * (q.vaddr / 0x10_0000);
    NoCarry(k, o);
    SlotRemainder(k, o);
    WholePages(4 * k);
  }

  lemma NoCarry(k: nat, o: nat)
    requires k <= 262143 && o <= 16380
    ensures (16384 * k + o) % 0x1_0000_0000 == 16384 * k + o
  {
  }

  lemma SlotRemainder(k: nat, o: nat)
    requires o <= 16380
    ensures (16384 * k + o) % 16384 == o
  {
  }

  lemma WholePages(k: nat)
    ensures (4096 * k) % 4096 == 0
  {
  }

  /** And only there: a word-aligned directory gives the right slot for every address exactly when it
      is 16 KB aligned. */
  lemma SlotIff(pgd: nat)
    requires pgd < 0x1_0000_0000 && pgd % 4 == 0
    ensures (forall v: nat :: v < 0x1_0000_0000 ==> DirSlot(Query(pgd, v)) == PageDir(Query(pgd, v))) <==>
            pgd % 16384 == 0
  {
    hide DirSlot, PageDir;
    if pgd % 16384 == 0 {
      forall v: nat | v < 0x1_0000_0000 ensures DirSlot(Query(pgd, v)) == PageDir(Query(pgd, v)) {
        AlignedSlot(Query(pgd, v));
      }
    } else {
      var v := Misplaced(pgd);
    }
  }

  /** An address whose entry is looked for in the wrong place. */
  lemma Misplaced(pgd: nat) returns (v: nat)
    requires pgd < 0x1_0000_0000 && pgd % 4 == 0 && pgd % 16384 != 0
    ensures v < 0x1_0000_0000 && DirSlot(Query(pgd, v)) != PageDir(Query(pgd, v))
  {
    hide PageDir;
    if pgd % 16384 >= 4096 {
      v := 0;
      DirOffset(Query(pgd, v));
    } else {
      v := 0xfff0_0000;
      AtLeastAWord(pgd);
      FarMisplaced(pgd / 16384, pgd % 16384);
    }
  }

  lemma AtLeastAWord(pgd: nat)
    requires pgd % 4 == 0 && pgd % 16384 > 0
    ensures pgd % 16384 >= 4 && pgd == 16384 * (pgd / 16384) + pgd % 16384
  {
    DivMod(pgd, 16384);
    WordRemainder(4096 * (pgd / 16384), pgd % 16384);
  }

  lemma FarMisplaced(k: nat, r: nat)
    requires k <= 262143 && 4 <= r < 4096
    ensures var q := Query(16384 * k + r, 0xfff0_0000); DirSlot(q) != PageDir(q)
  {
    hide PageDir, PageBase;
    DirOffset(Query(16384 * k + r, 0xfff0_0000));
    FarSlot(k, r);
  }

  lemma WordRemainder(k: nat, r: nat)
    requires (4 * k + r) % 4 == 0 && r > 0
    ensures r >= 4
  {
  }

  lemma FarSlot(k: nat, r: nat)
    requires k <= 262143 && 4 <= r < 4096
    ensures var pgd := 16384 * k + r;
            (pgd + 16380) % 0x1_0000_0000 != PageBase(pgd) + (pgd + 16380) % 0x1_0000_0000 % 16384
  {
    hide PageBase;
    BaseBelow(k, r);
    var far := 16384 * (k + 1) + (r - 4);
    assert far == (16384 * k + r) + 16380;
    if k < 262143 {
      NoCarry(k + 1, r - 4);
      SlotRemainder(k + 1, r - 4);
    } else {
      Carry(r - 4);
    }
  }

  lemma BaseBelow(k: nat, r: nat)
    requires r < 4096
    ensures PageBase(16384 * k + r) == 16384 * k
  {
    PageRemainder(4 * k, r);
  }

  lemma PageRemainder(k: nat, r: nat)
    requires r < 4096
    ensures (4096 * k + r) % 4096 == r
  {
  }

  lemma Carry(o: nat)
    requires o < 4096
    ensures (0x1_0000_0000 + o) % 0x1_0000_0000 == o && o % 16384 == o
  {
  }

  // ---------------------------------------------------------------- agreement

  lemma WordOfBlock(m: Memory, base: nat, n: nat, off: nat)
    requires off + 4 <= n
    ensures U(Block(m, base, n), off, 4) == Word(m, base + off)
  {
    var b := Block(m, base, n);
    assert U(b, off + 3, 1) == b[off + 3] + 256 * U(b, off + 4, 0);
    assert U(b, off + 2, 2) == b[off + 2] + 256 * U(b, off + 3, 1);
    assert U(b, off + 1, 3) == b[off + 1] + 256 * U(b, off + 2, 2);
  }

  /** What is known of a cache: a buffer that was ever filled equals memory at its key, and the key of
      a buffer that was never filled is 0. */
  ghost predicate Coherent(m: Machine, c: Cache, pgdFilled: bool, ptblFilled: bool) {
    && (if pgdFilled then c.pgd == Block(m.kmem, c.lastPgd, 16384) else c.lastPgd == 0)
    && (if ptblFilled then c.ptbl == Block(m.pmem, c.lastPtbl, 4096) else c.lastPtbl == 0)
  }

  /** The directory entry that lookup `q` meets in cache `c`, and the base of the table it leads to. */
  function EntryMet(m: Machine, c: Cache, q: Query): nat {
    U(FillPgd(m, c, PageBase(q.pgd)).pgd, PageDir(q) % 16384, 4)
  }

  function TableBase(m: Machine, pmd: nat, q: Query): nat {
    PageBase(PageTable(m.v2, pmd, q.vaddr))
  }

  /** Every lookup keeps that; a buffer counts as filled once a base other than 0 was asked for. */
  lemma LookupCoherent(m: Machine, c: Cache, q: Query, pf: bool, tf: bool)
    requires Coherent(m, c, pf, tf)
    ensures var pmd := EntryMet(m, c, q);
            Coherent(m, Lookup(m, c, q).0, pf || PageBase(q.pgd) != 0, tf || (pmd != 0 && TableBase(m, pmd, q) != 0))
  {
    hide U, Block, PageDir, PageTable, PageBase;
  }

  lemma TableSlot(v2: bool, pmd: nat, v: nat)
    ensures var at := PageTable(v2, pmd, v); at % 4096 <= 4092 && PageBase(at) + at % 4096 == at
  {
    hide PmdPageAddr;
    var x := TableWords(v2, pmd);
    var w := x + v / 4096 % 512;
    Words32(w);
    WordsInPage(w % 0x4000_0000);
  }

  /** One table serves 512 pages: two addresses share an entry exactly when their page numbers agree
      modulo 512. */
  lemma TableEntries(v2: bool, pmd: nat, v: nat, u: nat)
    ensures PageTable(v2, pmd, v) == PageTable(v2, pmd, u) <==> v / 4096 % 512 == u / 4096 % 512
  {
    hide PmdPageAddr;
    var x := TableWords(v2, pmd);
    var i, j := v / 4096 % 512, u / 4096 % 512;
    Words32(x + i);
    Words32(x + j);
    if i != j {
      RemaindersDiffer(x, i, j);
    }
  }

  lemma RemaindersDiffer(x: nat, i: nat, j: nat)
    requires i < 512 && j < 512 && i != j
    ensures (x + i) % 0x4000_0000 != (x + j) % 0x4000_0000
  {
  }

  lemma TableWords(v2: bool, pmd: nat) returns (x: nat)
    ensures PmdPageAddr(v2, pmd) == 4 * x
  {
    if v2 {
      x := 1024 * (pmd / 4096);
    } else {
      x := 512 * ((pmd / 2048 + 1) % 0x20_0000);
      HalfPages(pmd / 2048 + 1);
    }
  }

  lemma HalfPages(y: nat)
    ensures (2048 * y) % 0x1_0000_0000 == 2048 * (y % 0x20_0000)
  {
  }

  lemma Words32(w: nat)
    ensures (4 * w) % 0x1_0000_0000 == 4 * (w % 0x4000_0000)
  {
  }

  lemma WordsInPage(w: nat)
    ensures (4 * w) % 4096 == 4 * (w % 1024) <= 4092
  {
  }

  /** The directory entry of `q` in memory. */
  function DirEntry(m: Machine, q: Query): nat {
    Word(m.kmem, q.pgd + 4 * (q.vaddr / 0x10_0000))
  }

  /** The entry is read from the directory at its base, cached or not. */
  lemma PgdEntry(m: Machine, c: Cache, q: Query, pf: bool, tf: bool)
    requires Coherent(m, c, pf, tf) && ValidQuery(q) && q.pgd % 16384 == 0 && (q.pgd != 0 || pf)
    ensures EntryMet(m, c, q) == DirEntry(m, q)
  {
    hide U, Block, PageDir, Word, PageBase;
    AlignedSlot(q);
    WordOfBlock(m.kmem, q.pgd, 16384, PageDir(q) % 16384);
  }

  lemma PtblEntry(m: Machine, c: Cache, at: nat, pf: bool, tf: bool)
    requires Coherent(m, c, pf, tf) && (PageBase(at) != 0 || tf) && at % 4096 <= 4092 && PageBase(at) + at % 4096 == at
    ensures U(FillPtbl(m, c, PageBase(at)).ptbl, at % 4096, 4) == Word(m.pmem, at)
  {
    hide U, Block, Word, PageBase;
    WordOfBlock(m.pmem, PageBase(at), 4096, at % 4096);
  }

  lemma FillPgdCoherent(m: Machine, c: Cache, base: nat, pf: bool, tf: bool)
    requires Coherent(m, c, pf, tf)
    ensures Coherent(m, FillPgd(m, c, base), pf || base != 0, tf)
  {
    hide Block;
  }

  /** One lookup returns what the walk without caches returns, if each table it needs is at a base
      other than 0 or its buffer was filled before. */
  lemma LookupAgrees(m: Machine, c: Cache, q: Query, pf: bool, tf: bool)
    requires Coherent(m, c, pf, tf) && ValidQuery(q) && q.pgd % 16384 == 0 && (q.pgd != 0 || pf)
    requires DirEntry(m, q) == 0 || TableBase(m, DirEntry(m, q), q) != 0 || tf
    ensures Lookup(m, c, q).1 == Walk(m, q)
  {
    hide U, Block, PageDir, PageTable, PageBase, Word, Coherent;
    WalkEntry(m, q);
    PgdEntry(m, c, q, pf, tf);
    FillPgdCoherent(m, c, PageBase(q.pgd), pf, tf);
    var pmd := DirEntry(m, q);
    TableSlot(m.v2, pmd, q.vaddr);
    if pmd != 0 {
      PtblEntry(m, FillPgd(m, c, PageBase(q.pgd)), PageTable(m.v2, pmd, q.vaddr), pf || PageBase(q.pgd) != 0, tf);
    }
  }

  // ---------------------------------------------------------------- runs

  /** The cache after the first `k` lookups. */
  function After(m: Machine, c: Cache, qs: seq<Query>, k: nat): Cache
    requires k <= |qs|
  {
    if k == 0 then c else Lookup(m, After(m, c, qs, k - 1), qs[k - 1]).0
  }

  /** One of the first `k` lookups asked for a directory at a base other than 0. */
  predicate PgdRead(qs: seq<Query>, k: nat)
    requires k <= |qs|
  {
    k > 0 && (PgdRead(qs, k - 1) || PageBase(qs[k - 1].pgd) != 0)
  }

  /** One of the first `k` lookups read a table at a base other than 0. */
  predicate PtblRead(m: Machine, c: Cache, qs: seq<Query>, k: nat)
    requires k <= |qs|
  {
    k > 0 && (PtblRead(m, c, qs, k - 1)
              || var pmd := EntryMet(m, After(m, c, qs, k - 1), qs[k - 1]);
                 pmd != 0 && TableBase(m, pmd, qs[k - 1]) != 0)
  }

  ghost predicate Unused(c: Cache) {
    c.lastPgd == 0 && c.lastPtbl == 0 && |c.pgd| == 16384 && |c.ptbl| == 4096
  }

  lemma {:induction false} RunCoherent(m: Machine, c: Cache, qs: seq<Query>, k: nat)
    requires Unused(c) && k <= |qs|
    ensures Coherent(m, After(m, c, qs, k), PgdRead(qs, k), PtblRead(m, c, qs, k))
  {
    hide Lookup, EntryMet, TableBase, PageBase, Block;
    if k > 0 {
      RunCoherent(m, c, qs, k - 1);
      LookupCoherent(m, After(m, c, qs, k - 1), qs[k - 1], PgdRead(qs, k - 1), PtblRead(m, c, qs, k - 1));
    }
  }

  /** Over any sequence of lookups from an unused cache, whatever the other lookups asked for and
      whatever the buffers held, a lookup returns what the walk without caches returns if each table
      it needs is at a base other than 0 or an earlier lookup read one that is. */
  lemma RunAgrees(m: Machine, c: Cache, qs: seq<Query>, k: nat)
    requires Unused(c) && k < |qs| && ValidQuery(qs[k]) && qs[k].pgd % 16384 == 0
    requires qs[k].pgd != 0 || PgdRead(qs, k)
    requires var pmd := DirEntry(m, qs[k]); pmd == 0 || TableBase(m, pmd, qs[k]) != 0 || PtblRead(m, c, qs, k)
    ensures Lookup(m, After(m, c, qs, k), qs[k]).1 == Walk(m, qs[k])
  {
    hide Lookup, Walk, Coherent, After, PgdRead, PtblRead, TableBase, DirEntry;
    RunCoherent(m, c, qs, k);
    LookupAgrees(m, After(m, c, qs, k), qs[k], PgdRead(qs, k), PtblRead(m, c, qs, k));
  }

  // ---------------------------------------------------------------- when a run agrees

  /** Directories that the architecture allows: 16 KB aligned, and not at address 0. */
  ghost predicate Proper(q: Query) {
    ValidQuery(q) && q.pgd % 16384 == 0 && q.pgd != 0
  }

  ghost predicate AllProper(qs: seq<Query>) {
    forall j :: 0 <= j < |qs| ==> Proper(qs[j])
  }

  /** In memory, the walk of `q` reads a table, and its base is not 0. */
  ghost predicate ReadsTable(m: Machine, q: Query) {
    DirEntry(m, q) != 0 && TableBase(m, DirEntry(m, q), q) != 0
  }

  /** The walk of `q` reads the table in physical page 0. */
  ghost predicate ReadsPageZero(m: Machine, q: Query) {
    DirEntry(m, q) != 0 && TableBase(m, DirEntry(m, q), q) == 0
  }

  ghost predicate ReadBefore(m: Machine, qs: seq<Query>, k: nat)
    requires k <= |qs|
  {
    exists j :: 0 <= j < k && ReadsTable(m, qs[j])
  }

  /** With proper directories the tables that were read are those of the memory. */
  lemma {:induction false} ReadsAreMemory(m: Machine, c: Cache, qs: seq<Query>, k: nat)
    requires Unused(c) && AllProper(qs) && k <= |qs|
    ensures PtblRead(m, c, qs, k) <==> ReadBefore(m, qs, k)
  {
    hide EntryMet, DirEntry, TableBase, After, Unused;
    if k > 0 {
      ReadsAreMemory(m, c, qs, k - 1);
      RunCoherent(m, c, qs, k - 1);
      assert Proper(qs[k - 1]);
      PgdEntry(m, After(m, c, qs, k - 1), qs[k - 1], PgdRead(qs, k - 1), PtblRead(m, c, qs, k - 1));
      assert PtblRead(m, c, qs, k) <==> PtblRead(m, c, qs, k - 1) || ReadsTable(m, qs[k - 1]);
      ReadBeforeStep(m, qs, k);
    }
  }

  lemma ReadBeforeStep(m: Machine, qs: seq<Query>, k: nat)
    requires 0 < k <= |qs|
    ensures ReadBefore(m, qs, k) <==> ReadBefore(m, qs, k - 1) || ReadsTable(m, qs[k - 1])
  {
    hide ReadsTable;
    if ReadsTable(m, qs[k - 1]) {
      assert ReadBefore(m, qs, k);
    }
  }

  /** As long as no table was read, the table buffer is the initial one. */
  lemma {:induction false} BufferUntouched(m: Machine, c: Cache, qs: seq<Query>, k: nat)
    requires Unused(c) && k <= |qs| && !PtblRead(m, c, qs, k)
    ensures After(m, c, qs, k).lastPtbl == 0 && After(m, c, qs, k).ptbl == c.ptbl
  {
    hide U, Block, PageDir, PageTable, PageBase;
    if k > 0 {
      BufferUntouched(m, c, qs, k - 1);
    }
  }

  /** Before any table was read, a lookup that needs the table in page 0 returns what the buffer held
      at the beginning. */
  lemma PageZeroUnread(m: Machine, c: Cache, qs: seq<Query>, k: nat)
    requires Unused(c) && k < |qs| && AllProper(qs) && !ReadBefore(m, qs, k) && ReadsPageZero(m, qs[k])
    ensures Lookup(m, After(m, c, qs, k), qs[k]).1
            == U(c.ptbl, PageTable(m.v2, DirEntry(m, qs[k]), qs[k].vaddr) % 4096, 4)
  {
    hide U, Block, PageDir, PageTable, PageBase, Word, After, ReadBefore, Unused, PtblRead, PgdRead, Coherent;
    ReadsAreMemory(m, c, qs, k);
    BufferUntouched(m, c, qs, k);
    RunCoherent(m, c, qs, k);
    assert Proper(qs[k]);
    PgdEntry(m, After(m, c, qs, k), qs[k], PgdRead(qs, k), PtblRead(m, c, qs, k));
  }

  /** Two unused caches whose table buffers disagree everywhere. */
  function Filler(b: byte): (c: Cache)
    ensures c.lastPgd == 0 && c.lastPtbl == 0 && |c.pgd| == 16384 && |c.ptbl| == 4096
    ensures forall i :: 0 <= i < 4096 ==> c.ptbl[i] == b
  {
    Cache(0, seq<byte>(16384, _ => b), 0, seq<byte>(4096, _ => b))
  }

  lemma FillersDiffer(off: nat)
    requires off <= 4092
    ensures U(Filler(0).ptbl, off, 4) % 256 == 0 && U(Filler(1).ptbl, off, 4) % 256 == 1
  {
    FirstByte(Filler(0).ptbl, off, 3);
    FirstByte(Filler(1).ptbl, off, 3);
  }

  lemma FirstByte(d: bytes, p: nat, w: nat)
    requires p < |d|
    ensures U(d, p, w + 1) % 256 == d[p]
  {
    assert U(d, p, w + 1) == d[p] + 256 * U(d, p + 1, w);
  }

  ghost predicate EntryRight(m: Machine, c: Cache, qs: seq<Query>, k: nat)
    requires k < |qs|
  {
    Lookup(m, After(m, c, qs, k), qs[k]).1 == Walk(m, qs[k])
  }

  /** Lookup `k` of a run returns the right entry whatever the unused buffers held if and only if it
      does not need the table in physical page 0, or an earlier lookup read a table elsewhere. */
  lemma RunAgreesIff(m: Machine, qs: seq<Query>, k: nat)
    requires AllProper(qs) && k < |qs|
    ensures (forall c :: Unused(c) ==> EntryRight(m, c, qs, k)) <==> (ReadsPageZero(m, qs[k]) ==> ReadBefore(m, qs, k))
  {
    hide U, Lookup, Walk, After, ReadBefore, PgdRead, PtblRead, DirEntry, TableBase, PageTable, Filler;
    if ReadsPageZero(m, qs[k]) && !ReadBefore(m, qs, k) {
      var off := PageTable(m.v2, DirEntry(m, qs[k]), qs[k].vaddr) % 4096;
      TableSlot(m.v2, DirEntry(m, qs[k]), qs[k].vaddr);
      FillersDiffer(off);
      PageZeroUnread(m, Filler(0), qs, k);
      PageZeroUnread(m, Filler(1), qs, k);
      assert !EntryRight(m, Filler(0), qs, k) || !EntryRight(m, Filler(1), qs, k);
    } else {
      forall c | Unused(c) ensures EntryRight(m, c, qs, k) {
        ReadsAreMemory(m, c, qs, k);
        assert Proper(qs[k]);
        RunAgrees(m, c, qs, k);
      }
    }
  }

  /** The first lookup of all is right whatever the buffers held if and only if the bases it reads are
      not 0. */
  lemma FirstAgreesIff(m: Machine, q: Query)
    requires Proper(q)
    ensures (forall c :: Unused(c) ==> Lookup(m, c, q).1 == Walk(m, q)) <==> !ReadsPageZero(m, q)
  {
    hide Lookup, Walk, ReadsPageZero;
    var qs := [q];
    RunAgreesIff(m, qs, 0);
    forall c ensures EntryRight(m, c, qs, 0) <==> Lookup(m, c, q).1 == Walk(m, q) {
      assert After(m, c, qs, 0) == c;
    }
  }
}
