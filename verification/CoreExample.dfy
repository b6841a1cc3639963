/** A process that meets every condition of the core-file theorems, with and without the fake
    segment: the theorems are not empty. */
module CoreExample {
  import opened Bytes
  import opened Elf
  import opened Auxv
  import opened CoreNotes
  import opened CoreLoads
  import opened FakeLinkMap
  import opened FakeReader
  import opened CoreDump
  import opened CoreRead

  function EmptyNote(): Note {
    Note([], 1, 0, Some([]))
  }

  function AuxNote(): Note {
    Note([], 6, 48, Some(Zeros(48)))
  }

  function OneThread(): Thread {
    Thread([EmptyNote()], 0)
  }

  function OneVma(): Vma {
    Vma(false, 8192, 2, true, false, false, [1, 2], NoMatch, [])
  }

  function OneLib(): Lib {
    Lib(8192, 0, 0, 16, [0x61, 0])
  }

  /** One thread, one VMA, one library. */
  function Small(link: bool): Process {
    Process(Target(Elf64, 0, 183, 0), 4096, [OneThread()], EmptyNote(), EmptyNote(), AuxNote(), EmptyNote(), [],
            [OneVma()], link, [Some(OneLib())], [0x5b, 0])
  }

  lemma AuxSize(link: bool)
    ensures |AuxvData(Zeros(48), FinalAux(Small(link)), 8)| == 48
  {
    hide Pack;
    var es := FinalAux(Small(link));
    assert |es| <= 2 by {
      var a := SetAux([], AT_PHDR, FAKE + 64, 0);
      assert a == [Aux(AT_PHDR, FAKE + 64)];
      assert SetAux(a, AT_EXECFN, 0, 0) == SetAux(a, AT_EXECFN, 0, 1) == a + [Aux(AT_EXECFN, 0)];
    }
    FieldsWidth(es, 0);
  }

  lemma {:induction false} FieldsWidth(es: seq<Aux>, k: nat)
    requires |es| <= 2 && k <= 2 * |es| + 2
    ensures Width(Fields(es, 8), k) == 8 * (2 * |es| + 2 - k)
    decreases 2 * |es| + 2 - k
  {
    if k < 2 * |es| + 2 {
      FieldsWidth(es, k + 1);
    }
  }

  lemma SmallNotes(link: bool)
    ensures ValidNotes(ProcessNotes(Small(link))) && (forall n :: n in ProcessNotes(Small(link)) ==> n.data.Some?)
    ensures SizeSum(ProcessNotes(Small(link))) == 112
  {
    hide AuxvData, FinalAux;
    AuxSize(link);
    var ns := ProcessNotes(Small(link));
    assert ns[1..][1..] == ns[2..] && ns[2..][1..] == ns[3..] && ns[3..][1..] == [];
    assert SizeSum(ns[3..]) == 16 && SizeSum(ns[2..]) == 80 && SizeSum(ns[1..]) == 96;
  }

  lemma SmallThreads()
    ensures ValidThreads([OneThread()]) && StatusPresent([OneThread()], 0) && CountedFrom([OneThread()], 0) == 16
  {
    var ns := [EmptyNote()];
    assert ns[1..] == [];
    assert WithData(ns) == ns;
    assert SizeSum(ns) == CoreNotes.NoteSize(ns[0]) + SizeSum([]);
    assert CountedFrom([OneThread()], 1) == 0;
  }

  lemma SmallLibs()
    ensures Resolved([Some(OneLib())], 1) == [OneLib()] && |Strtab([0x5b, 0], [OneLib()])| == 4
    ensures NamesOk([0x5b, 0], [OneLib()])
  {
    var libs := [Some(OneLib())];
    assert Resolved(libs, 0) == [];
    assert NamesTo([OneLib()], 0) == [];
    assert NamesTo([OneLib()], 1) == NamesTo([OneLib()], 0) + OneLib().name;
  }

  lemma SmallRoom(link: bool)
    ensures FakeRoom(Small(link)) <= 8276
    ensures NamesOk([0x5b, 0], Resolved(Small(link).libs, 1))
  {
    hide Resolved, Strtab, NamesOk, FakeSize;
    SmallLibs();
    assert Small(link).libs == [Some(OneLib())];
    SizeParts(Elf64, 4096, [0x5b, 0], Small(link).libs);
  }

  lemma SizeParts(c: Class, page: nat, self: bytes, libs: seq<Option<Lib>>)
    ensures FakeSize(c, page, self, libs) <= page + page + 40 * (|libs| + 1) + |Strtab(self, Resolved(libs, |libs|))|
  {
    hide Strtab, Resolved;
  }

  lemma SmallData(link: bool)
    ensures CleanAll([OneVma()]) && DumpSum([OneVma()], 1) == 2
    ensures FirstData(Small(link)) <= 20000
  {
    hide FakeRoom, SizeSum, ProcessNotes, CountedFrom;
    SmallNotes(link);
    SmallThreads();
    SmallRoom(link);
    assert DumpSum([OneVma()], 0) == 0;
  }

  /** Every condition holds for the small process. */
  lemma SmallIsDumpable(link: bool)
    ensures Dumpable(Small(link)) && HasFake(Small(link)) == link
  {
    hide FirstData, FakeRoom, ProcessNotes, ValidThreads, StatusPresent, CleanAll, DumpSum, Resolved, NamesOk;
    Pow256Values();
    SmallNotes(link);
    SmallThreads();
    SmallRoom(link);
    SmallData(link);
  }
}
