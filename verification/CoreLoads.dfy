/** The memory segments of the core file: one program header and one data block per VMA,
    written alternately with two independent file positions. */
module CoreLoads {
  import opened Bytes
  import opened OutFile
  import opened Elf
  import opened Writes

  /** Outcome of replacing the main executable's header segment: not asked for, asked for
      but no symbol file, or the bytes of the file. */
  datatype Head = NoMatch | Failed | Replaced(image: bytes)

  /** A VMA with everything `write_pt_load` learns about it: whether its name marks sanitizer
      shadow memory, its permissions, its memory (empty when nothing was read), and the library
      images that replace it. */
  datatype Vma = Vma(shadow: bool, start: nat, size: nat, r: bool, w: bool, x: bool,
                     mem: bytes, head: Head, libs: seq<bytes>)

  ghost predicate ValidVma(v: Vma) {
    && (v.mem == [] || |v.mem| == v.size)
    && (v.head.Replaced? ==> |v.head.image| == v.size)
    && (forall i :: 0 <= i < |v.libs| ==> |v.libs[i]| == v.size)
  }

  /** Addition of `size_t` values. */
  function AddSize(p: nat, n: nat): nat {
    (p + n) % 0x1_0000_0000_0000_0000
  }

  /** `vma_dump_size` with the two filters that the writer enables. */
  predicate Filtered(v: Vma) {
    v.shadow || (!v.r && !v.w && !v.x)
  }

  function SegmentFlags(v: Vma): nat {
    (if v.r then 4 else 0) + (if v.w then 2 else 0) + (if v.x then 1 else 0)
  }

  function LoadPhdr(v: Vma, dataPos: nat, page: nat): Phdr {
    Phdr(PT_LOAD, dataPos, v.start, if Filtered(v) then 0 else v.size, v.size, SegmentFlags(v), page)
  }

  predicate IsReplaced(v: Vma) {
    v.head.Failed? || (v.head.Replaced? && |v.head.image| > 0) || v.libs != []
  }

  /** The bytes written for a dumped VMA, starting at its data position. */
  function Payload(v: Vma): bytes {
    HeadBytes(v) + (Join(v.libs) + (if IsReplaced(v) then [] else v.mem))
  }

  function AfterHead(v: Vma, p: nat): nat {
    match v.head
    case NoMatch => p
    case Failed => AddSize(p, 0xffff_ffff_ffff_ffff)
    case Replaced(image) => if |image| > 0 then AddSize(p, |image|) else p
  }

  /** `data_pos` after the first `k` libraries. */
  function AfterLibs(p: nat, libs: seq<bytes>, k: nat): nat
    requires k <= |libs|
  {
    if k == 0 then p else AddSize(AfterLibs(p, libs, k - 1), |libs[k - 1]|)
  }

  /** `data_pos` after a dumped VMA. A failed head replacement returns `(size_t)-1`, which
      the caller takes for a positive size. */
  function NextPos(v: Vma, p: nat): nat {
    var q := AfterLibs(AfterHead(v, p), v.libs, |v.libs|);
    if IsReplaced(v) then q else AddSize(q, v.size)
  }

  /** `load_data_pos` when the loop reaches VMA `i`. */
  function DataPos(vs: seq<Vma>, dp: nat, i: nat): nat
    requires i <= |vs|
  {
    if i == 0 then dp
    else if Filtered(vs[i - 1]) then DataPos(vs, dp, i - 1)
    else NextPos(vs[i - 1], DataPos(vs, dp, i - 1))
  }

  /** Header slot `i` of a table at `base`. */
  function Slot(c: Class, base: nat, i: nat): nat {
    if c.Elf64? then base + 56 * i else base + 32 * i
  }

  /** The two writes of VMA `v`: its header into its slot, its data at the data position. */
  function VmaStep(c: Class, page: nat, v: Vma, slot: nat, pos: nat): Step {
    Step(Op(slot, PhdrBytes(c, LoadPhdr(v, pos, page))), Op(pos, if Filtered(v) then [] else Payload(v)))
  }

  function LoadSteps(c: Class, page: nat, vs: seq<Vma>, ph: nat, dp: nat): seq<Step> {
    seq(|vs|, i requires 0 <= i < |vs| => VmaStep(c, page, vs[i], Slot(c, ph, i), DataPos(vs, dp, i)))
  }

  /** The image after the whole segment loop. */
  function LoadsImage(c: Class, page: nat, d: bytes, vs: seq<Vma>, ph: nat, dp: nat): bytes {
    Applied(d, LoadSteps(c, page, vs, ph, dp), |vs|)
  }

  /** The library loop of `write_pt_load`: each match is written and advances `data_pos`. */
  method WriteLibs(f: File, libs: seq<bytes>, pos: nat) returns (next: nat)
    modifies f
    ensures f.data == WriteAt(old(f.data), old(f.pos), Join(libs)) && f.pos == old(f.pos) + |Join(libs)|
    ensures next == AfterLibs(pos, libs, |libs|)
  {
    hide WriteAt, AddSize;
    next := pos;
    ghost var d, p := f.data, f.pos;
    WriteNothing(d, p);
    for k := 0 to |libs|
      invariant f.data == WriteAt(d, p, JoinTo(libs, k)) && f.pos == p + |JoinTo(libs, k)|
      invariant next == AfterLibs(pos, libs, k)
    {
      WriteTwice(d, p, JoinTo(libs, k), libs[k]);
      f.Write(libs[k]);
      next := AddSize(next, |libs[k]|);
    }
  }

  /** `write_pt_load`. */
  method WritePtLoad(f: File, c: Class, page: nat, v: Vma, phdrPos: nat, dataPos: nat) returns (next: nat)
    modifies f
    ensures f.data == Written(old(f.data), VmaStep(c, page, v, phdrPos, dataPos))
    ensures next == if Filtered(v) then dataPos else NextPos(v, dataPos)
  {
    f.Seek(phdrPos);
    f.Write(PhdrBytes(c, LoadPhdr(v, dataPos, page)));
    if Filtered(v) {
      WriteNothing(f.data, dataPos);
      return dataPos;
    }
    f.Seek(dataPos);
    next := WritePayload(f, v, dataPos);
  }

  function HeadBytes(v: Vma): bytes {
    if v.head.Replaced? then v.head.image else []
  }

  /** The head-replacement part of `write_pt_load`. */
  method WriteHead(f: File, v: Vma, pos: nat) returns (next: nat, replace: bool)
    modifies f
    ensures f.data == WriteAt(old(f.data), old(f.pos), HeadBytes(v)) && f.pos == old(f.pos) + |HeadBytes(v)|
    ensures next == AfterHead(v, pos) && replace == (v.head.Failed? || (v.head.Replaced? && |v.head.image| > 0))
  {
    next, replace := pos, false;
    WriteNothing(f.data, f.pos);
    match v.head {
      case NoMatch =>
      case Failed =>
        next, replace := AddSize(next, 0xffff_ffff_ffff_ffff), true;
      case Replaced(image) =>
        f.Write(image);
        if |image| > 0 {
          next, replace := AddSize(next, |image|), true;
        }
    }
  }

  /** The data half of `write_pt_load`, with the file already at `dataPos`. */
  method WritePayload(f: File, v: Vma, dataPos: nat) returns (next: nat)
    modifies f
    ensures f.data == WriteAt(old(f.data), old(f.pos), Payload(v))
    ensures next == NextPos(v, dataPos)
  {
    hide WriteAt, AddSize, Join, AfterLibs, AfterHead;
    ghost var d, p, a, b := f.data, f.pos, HeadBytes(v), Join(v.libs);
    ghost var mem := if IsReplaced(v) then [] else v.mem;
    var replace;
    next, replace := WriteHead(f, v, dataPos);
    next := WriteLibs(f, v.libs, next);
    replace := replace || v.libs != [];
    WriteTwice(d, p, a, b);
    WriteTwice(d, p, a + b, mem);
    assert Payload(v) == a + (b + mem) == (a + b) + mem;
    WriteNothing(f.data, f.pos);
    if !replace {
      f.Write(v.mem);
      next := AddSize(next, v.size);
    }
  }

  /** The VMA loop of `write_core_file`; `phdrPos` is the slot before the first VMA's. */
  method WriteLoads(f: File, c: Class, page: nat, vs: seq<Vma>, phdrPos: nat, dataPos: nat)
    modifies f
    ensures f.data == LoadsImage(c, page, old(f.data), vs, phdrPos + PhdrSize(c), dataPos)
  {
    hide VmaStep, Applied, Written, Filtered, NextPos, LoadSteps, DataPos;
    ghost var ph := phdrPos + PhdrSize(c);
    ghost var steps := LoadSteps(c, page, vs, ph, dataPos);
    var slot: nat, pos: nat := phdrPos, dataPos;
    StepsStart(c, page, old(f.data), vs, ph, dataPos);
    for i := 0 to |vs|
      invariant slot + PhdrSize(c) == Slot(c, ph, i) && pos == DataPos(vs, dataPos, i)
      invariant f.data == Applied(old(f.data), steps, i)
    {
      slot := slot + PhdrSize(c);
      StepOf(c, page, vs, ph, dataPos, i);
      AppliedNext(old(f.data), steps, i);
      pos := WritePtLoad(f, c, page, vs[i], slot, pos);
    }
  }

  lemma StepsStart(c: Class, page: nat, d: bytes, vs: seq<Vma>, ph: nat, dp: nat)
    ensures |LoadSteps(c, page, vs, ph, dp)| == |vs| && DataPos(vs, dp, 0) == dp
    ensures Applied(d, LoadSteps(c, page, vs, ph, dp), 0) == d
  {
    hide VmaStep;
  }

  lemma StepOf(c: Class, page: nat, vs: seq<Vma>, ph: nat, dp: nat, i: nat)
    requires i < |vs|
    ensures LoadSteps(c, page, vs, ph, dp)[i] == VmaStep(c, page, vs[i], Slot(c, ph, i), DataPos(vs, dp, i))
    ensures DataPos(vs, dp, i + 1)
            == if Filtered(vs[i]) then DataPos(vs, dp, i) else NextPos(vs[i], DataPos(vs, dp, i))
  {
    hide VmaStep, NextPos, Filtered;
  }

  // ---------------------------------------------------------------- when the layout is exact

  /** No failed head replacement and at most one replacement. */
  predicate Clean(v: Vma) {
    !v.head.Failed? && |v.libs| + (if v.head.Replaced? then 1 else 0) <= 1
  }

  lemma {:induction false} AfterLibsSum(p: nat, libs: seq<bytes>, k: nat)
    requires k <= |libs| && p + |JoinTo(libs, k)| < 0x1_0000_0000_0000_0000
    ensures AfterLibs(p, libs, k) == p + |JoinTo(libs, k)|
  {
    if k > 0 {
      JoinNext(libs, k - 1);
      AfterLibsSum(p, libs, k - 1);
    }
  }

  /** Each library image has the size of the VMA. */
  lemma {:induction false} LibsSize(v: Vma, k: nat)
    requires ValidVma(v) && k <= |v.libs|
    ensures k == 0 ==> |JoinTo(v.libs, k)| == 0
    ensures k == 1 ==> |JoinTo(v.libs, k)| == v.size
    ensures k >= 2 ==> |JoinTo(v.libs, k)| >= 2 * v.size
  {
    if k > 0 {
      JoinNext(v.libs, k - 1);
      LibsSize(v, k - 1);
    }
  }

  /** `data_pos` moves by exactly the segment's `p_filesz` if and only if the VMA is clean. */
  lemma AdvanceExact(v: Vma, p: nat)
    requires ValidVma(v) && v.size >= 2 && p >= 1
    requires p + |Join(v.libs)| + v.size < 0x1_0000_0000_0000_0000
    ensures NextPos(v, p) == p + v.size <==> Clean(v)
  {
    hide JoinTo;
    var q := AfterHead(v, p);
    assert q == match v.head case NoMatch => p case Failed => p - 1 case Replaced(_) => p + v.size;
    AfterLibsSum(q, v.libs, |v.libs|);
    LibsSize(v, |v.libs|);
  }

  /** The bytes that a clean VMA's segment should have. */
  function Content(v: Vma): bytes {
    if v.head.Replaced? then v.head.image else if v.libs != [] then v.libs[0] else v.mem
  }

  function DumpSize(v: Vma): nat {
    if Filtered(v) then 0 else v.size
  }

  lemma CleanStep(v: Vma, p: nat)
    requires ValidVma(v) && Clean(v) && p + v.size < 0x1_0000_0000_0000_0000
    ensures Payload(v) == Content(v) && NextPos(v, p) == p + v.size
    ensures Content(v) == [] || |Content(v)| == v.size
  {
    CleanBytes(v);
    CleanPos(v, p);
  }

  lemma CleanBytes(v: Vma)
    requires ValidVma(v) && Clean(v)
    ensures Payload(v) == Content(v) && (Content(v) == [] || |Content(v)| == v.size)
  {
    hide Join;
    if v.libs == [] {
      JoinNothing();
    } else {
      assert v.libs == [v.libs[0]];
      JoinOne(v.libs[0]);
    }
  }

  lemma JoinNothing()
    ensures Join([]) == []
  {
  }

  lemma CleanPos(v: Vma, p: nat)
    requires ValidVma(v) && Clean(v) && p + v.size < 0x1_0000_0000_0000_0000
    ensures NextPos(v, p) == p + v.size
  {
    hide JoinTo;
    LibsSize(v, |v.libs|);
    AfterLibsSum(AfterHead(v, p), v.libs, |v.libs|);
  }

  ghost predicate CleanAll(vs: seq<Vma>) {
    forall i :: 0 <= i < |vs| ==> ValidVma(vs[i]) && Clean(vs[i])
  }

  /** What the dumped VMAs before `i` take in the file. */
  function DumpSum(vs: seq<Vma>, i: nat): nat
    requires i <= |vs|
  {
    if i == 0 then 0 else DumpSum(vs, i - 1) + DumpSize(vs[i - 1])
  }

  lemma {:induction false} DumpSumMono(vs: seq<Vma>, i: nat, j: nat)
    requires i <= j <= |vs|
    ensures DumpSum(vs, i) <= DumpSum(vs, j)
  {
    if i < j {
      DumpSumMono(vs, i, j - 1);
    }
  }

  /** Where the segment of VMA `i` belongs. */
  function SegmentPos(vs: seq<Vma>, dp: nat, i: nat): nat
    requires i <= |vs|
  {
    dp + DumpSum(vs, i)
  }

  /** For clean VMAs the data position is the sum of the segment sizes. */
  lemma {:induction false} DataPosSum(vs: seq<Vma>, dp: nat, i: nat)
    requires CleanAll(vs) && i <= |vs| && dp + DumpSum(vs, |vs|) < 0x1_0000_0000_0000_0000
    ensures DataPos(vs, dp, i) == SegmentPos(vs, dp, i)
  {
    hide DataPos, DumpSum, Filtered, NextPos, ValidVma, Clean;
    if i == 0 {
      StepsStart(Elf64, 0, [], vs, 0, dp);
      NothingDumped(vs);
    } else {
      var k := i - 1;
      DataPosSum(vs, dp, k);
      DumpSumMono(vs, i, |vs|);
      StepOf(Elf64, 0, vs, 0, dp, k);
      DumpSumStep(vs, k);
      if !Filtered(vs[k]) {
        CleanPos(vs[k], dp + DumpSum(vs, k));
      }
    }
  }

  lemma NothingDumped(vs: seq<Vma>)
    ensures DumpSum(vs, 0) == 0
  {
  }

  lemma DumpSumStep(vs: seq<Vma>, k: nat)
    requires k < |vs|
    ensures DumpSum(vs, k + 1) == DumpSum(vs, k) + if Filtered(vs[k]) then 0 else vs[k].size
  {
    hide Filtered;
  }

  /** Segments follow each other in the file: a later one starts at or after the end of every
      earlier one. */
  lemma {:induction false} SegmentsOrdered(vs: seq<Vma>, dp: nat, i: nat, j: nat)
    requires CleanAll(vs) && i < j <= |vs| && dp + DumpSum(vs, |vs|) < 0x1_0000_0000_0000_0000
    ensures dp <= SegmentPos(vs, dp, i)
    ensures SegmentPos(vs, dp, i) + DumpSize(vs[i]) <= SegmentPos(vs, dp, j)
  {
    DumpSumMono(vs, i + 1, j);
  }

  /** The step of VMA `i` when all VMAs are clean, and where it can land. */
  lemma StepRange(c: Class, page: nat, vs: seq<Vma>, ph: nat, dp: nat, i: nat)
    requires CleanAll(vs) && i < |vs| && dp + DumpSum(vs, |vs|) < 0x1_0000_0000_0000_0000
    ensures var s := LoadSteps(c, page, vs, ph, dp)[i];
            && s.hdr == Op(Slot(c, ph, i), PhdrBytes(c, LoadPhdr(vs[i], SegmentPos(vs, dp, i), page)))
            && s.data == Op(SegmentPos(vs, dp, i), if Filtered(vs[i]) then [] else Content(vs[i]))
            && |s.hdr.bs| == PhdrSize(c)
            && |s.data.bs| <= DumpSize(vs[i])
  {
    PhdrLength(c, LoadPhdr(vs[i], SegmentPos(vs, dp, i), page));
    DataPosSum(vs, dp, i);
    if !Filtered(vs[i]) {
      DumpSumMono(vs, i + 1, |vs|);
      CleanStep(vs[i], SegmentPos(vs, dp, i));
    }
  }

  lemma PairOrdered(c: Class, page: nat, vs: seq<Vma>, ph: nat, dp: nat, i: nat, j: nat)
    requires CleanAll(vs) && i < j < |vs| && dp + DumpSum(vs, |vs|) < 0x1_0000_0000_0000_0000
    ensures var s, t := LoadSteps(c, page, vs, ph, dp)[i], LoadSteps(c, page, vs, ph, dp)[j];
            End(s.hdr) <= t.hdr.at && End(s.data) <= t.data.at
  {
    StepRange(c, page, vs, ph, dp, i);
    StepRange(c, page, vs, ph, dp, j);
    SegmentsOrdered(vs, dp, i, j);
  }

  lemma StepBounds(c: Class, page: nat, vs: seq<Vma>, ph: nat, dp: nat, i: nat)
    requires CleanAll(vs) && i < |vs| && dp + DumpSum(vs, |vs|) < 0x1_0000_0000_0000_0000
    ensures var s := LoadSteps(c, page, vs, ph, dp)[i];
            ph <= s.hdr.at && End(s.hdr) <= Slot(c, ph, |vs|) && dp <= s.data.at
  {
    StepRange(c, page, vs, ph, dp, i);
    SegmentsOrdered(vs, dp, i, i + 1);
  }

  lemma StepsCount(c: Class, page: nat, vs: seq<Vma>, ph: nat, dp: nat)
    ensures |LoadSteps(c, page, vs, ph, dp)| == |vs|
  {
  }

  /** For clean VMAs the segment loop is an ordered writer. */
  lemma LoadsOrdered(c: Class, page: nat, vs: seq<Vma>, ph: nat, dp: nat)
    requires CleanAll(vs) && dp + DumpSum(vs, |vs|) < 0x1_0000_0000_0000_0000 && Slot(c, ph, |vs|) <= dp
    ensures Ordered(LoadSteps(c, page, vs, ph, dp), ph, Slot(c, ph, |vs|), dp)
  {
    hide LoadSteps, CleanAll, DumpSum, End, Slot;
    var steps, end := LoadSteps(c, page, vs, ph, dp), Slot(c, ph, |vs|);
    StepsCount(c, page, vs, ph, dp);
    forall i | 0 <= i < |steps|
      ensures ph <= steps[i].hdr.at && End(steps[i].hdr) <= end && dp <= steps[i].data.at
    {
      StepBounds(c, page, vs, ph, dp, i);
    }
    forall i, j | 0 <= i < j < |steps|
      ensures End(steps[i].hdr) <= steps[j].hdr.at && End(steps[i].data) <= steps[j].data.at
    {
      PairOrdered(c, page, vs, ph, dp, i, j);
    }
  }

  /** The segment loop leaves alone everything before both of its positions, and everything
      between the end of the header table and the data position. */
  lemma LoadsKeep(c: Class, page: nat, d: bytes, vs: seq<Vma>, ph: nat, dp: nat, lo: nat, hi: nat)
    requires CleanAll(vs) && dp + DumpSum(vs, |vs|) < 0x1_0000_0000_0000_0000 && Slot(c, ph, |vs|) <= dp
    requires hi <= dp && (hi <= ph || Slot(c, ph, |vs|) <= lo)
    ensures Kept(d, LoadsImage(c, page, d, vs, ph, dp), lo, hi)
  {
    hide Ordered, Kept, Applied, VmaStep, DataPos;
    LoadsOrdered(c, page, vs, ph, dp);
    OrderedKeeps(d, LoadSteps(c, page, vs, ph, dp), ph, Slot(c, ph, |vs|), dp, lo, hi);
  }

  /** After the whole loop VMA `i` still has its header and its data, where the header says: no
      later write touches them. */
  lemma SegmentHeld(c: Class, page: nat, d: bytes, vs: seq<Vma>, ph: nat, dp: nat, i: nat)
    requires CleanAll(vs) && i < |vs| && dp + DumpSum(vs, |vs|) < 0x1_0000_0000_0000_0000 && Slot(c, ph, |vs|) <= dp
    ensures Holds(LoadsImage(c, page, d, vs, ph, dp), Slot(c, ph, i),
                  PhdrBytes(c, LoadPhdr(vs[i], SegmentPos(vs, dp, i), page)))
    ensures !Filtered(vs[i]) ==> Holds(LoadsImage(c, page, d, vs, ph, dp), SegmentPos(vs, dp, i), Content(vs[i]))
  {
    var steps := LoadSteps(c, page, vs, ph, dp);
    LoadsOrdered(c, page, vs, ph, dp);
    StepRange(c, page, vs, ph, dp, i);
    HeaderSurvives(d, steps, ph, Slot(c, ph, |vs|), dp, i);
    DataSurvives(d, steps, ph, Slot(c, ph, |vs|), dp, i);
  }

  lemma DataBounds(c: Class, page: nat, vs: seq<Vma>, ph: nat, dp: nat, i: nat)
    requires CleanAll(vs) && i < |vs| && dp + DumpSum(vs, |vs|) < 0x1_0000_0000_0000_0000
    ensures var b := LoadSteps(c, page, vs, ph, dp)[i].data;
            && b.at == SegmentPos(vs, dp, i) && End(b) <= SegmentPos(vs, dp, i) + DumpSize(vs[i])
            && (!Filtered(vs[i]) ==> b.bs == Content(vs[i]))
  {
    StepRange(c, page, vs, ph, dp, i);
  }

  lemma UnreadOutside(vs: seq<Vma>, dp: nat, i: nat, j: nat, s: Step)
    requires CleanAll(vs) && i < |vs| && j < |vs| && dp + DumpSum(vs, |vs|) < 0x1_0000_0000_0000_0000
    requires End(s.hdr) <= dp && s.data.at == SegmentPos(vs, dp, j) &&
             End(s.data) <= SegmentPos(vs, dp, j) + DumpSize(vs[j])
    requires !Filtered(vs[i]) && (j == i ==> s.data.bs == [])
    ensures StepOutside(s, SegmentPos(vs, dp, i), SegmentPos(vs, dp, i) + vs[i].size)
  {
    if j < i {
      SegmentsOrdered(vs, dp, j, i);
    } else if j > i {
      SegmentsOrdered(vs, dp, i, j);
    }
  }

  /** A segment whose memory could not be read keeps whatever zeros were there. */
  lemma UnreadStaysZero(c: Class, page: nat, d: bytes, vs: seq<Vma>, ph: nat, dp: nat, i: nat)
    requires CleanAll(vs) && i < |vs| && dp + DumpSum(vs, |vs|) < 0x1_0000_0000_0000_0000 && Slot(c, ph, |vs|) <= dp
    requires !Filtered(vs[i]) && Content(vs[i]) == []
    requires ZeroOn(d, SegmentPos(vs, dp, i), SegmentPos(vs, dp, i) + vs[i].size)
    ensures ZeroOn(LoadsImage(c, page, d, vs, ph, dp), SegmentPos(vs, dp, i), SegmentPos(vs, dp, i) + vs[i].size)
  {
    var steps, lo, hi := LoadSteps(c, page, vs, ph, dp), SegmentPos(vs, dp, i), SegmentPos(vs, dp, i) + vs[i].size;
    forall j | 0 <= j < |steps| ensures StepOutside(steps[j], lo, hi) {
      StepBounds(c, page, vs, ph, dp, j);
      DataBounds(c, page, vs, ph, dp, j);
      UnreadOutside(vs, dp, i, j, steps[j]);
    }
    AppliedKeeps(d, steps, 0, |steps|, lo, hi);
    ZeroKept(d, LoadsImage(c, page, d, vs, ph, dp), lo, hi);
  }

  /** Page-sized VMAs keep every segment at the alignment of the first one. */
  lemma {:induction false} SegmentPosMod(vs: seq<Vma>, dp: nat, page: nat, i: nat)
    requires i <= |vs| && page > 0 && forall k :: 0 <= k < |vs| ==> vs[k].size % page == 0
    ensures SegmentPos(vs, dp, i) % page == dp % page
  {
    hide Filtered;
    if i > 0 {
      SegmentPosMod(vs, dp, page, i - 1);
      ghost var x, m := SegmentPos(vs, dp, i - 1), DumpSize(vs[i - 1]);
      assert SegmentPos(vs, dp, i) == x + m;
      hide SegmentPos, DumpSize;
      ZeroMod(page);
      assert m % page == 0 by {
        DumpSizeMod(vs[i - 1], page);
      }
      AddMultiple(x, m, page);
    }
  }

  lemma ZeroMod(page: nat)
    requires page > 0
    ensures 0 % page == 0
  {
  }

  lemma DumpSizeMod(v: Vma, page: nat)
    requires page > 0 && v.size % page == 0
    ensures DumpSize(v) % page == 0
  {
    hide Filtered;
    ZeroMod(page);
  }

  lemma FailedSteps(c: Class, page: nat, v: Vma, w: Vma, ph: nat, dp: nat)
    requires !Filtered(v) && v.head == Failed && v.libs == []
    requires !Filtered(w) && ValidVma(w) && Clean(w)
    requires dp >= 1 && dp + w.size < 0x1_0000_0000_0000_0000
    ensures LoadSteps(c, page, [v, w], ph, dp) ==
            [Step(Op(Slot(c, ph, 0), PhdrBytes(c, LoadPhdr(v, dp, page))), Op(dp, [])),
             Step(Op(Slot(c, ph, 1), PhdrBytes(c, LoadPhdr(w, dp - 1, page))), Op(dp - 1, Content(w)))]
  {
    hide PhdrBytes, LoadPhdr, Payload, NextPos, DataPos, LoadSteps, Content, Clean, Filtered;
    var vs, steps := [v, w], LoadSteps(c, page, [v, w], ph, dp);
    FailedStep(v, dp);
    StepsStart(c, page, [], vs, ph, dp);
    StepOf(c, page, vs, ph, dp, 0);
    StepOf(c, page, vs, ph, dp, 1);
    CleanStep(w, dp - 1);
    assert steps == [steps[0], steps[1]];
  }

  lemma FailedStep(v: Vma, dp: nat)
    requires v.head == Failed && v.libs == [] && 1 <= dp < 0x1_0000_0000_0000_0000
    ensures Payload(v) == [] && NextPos(v, dp) == dp - 1
  {
    hide Join;
    JoinNothing();
  }

  lemma FirstHeader(d: bytes, s: Step, t: Step)
    requires StepOutside(t, s.hdr.at, End(s.hdr)) && Outside(s.data, s.hdr.at, End(s.hdr))
    ensures Holds(Written(Written(d, s), t), s.hdr.at, s.hdr.bs)
  {
    var h := s.hdr;
    var d1 := WriteAt(d, h.at, h.bs);
    HoldsWritten(d, h.at, h.bs);
    WriteKeeps(d1, s.data.at, s.data.bs, h.at, End(h));
    HoldsKept(d1, Written(d, s), h.at, h.bs, h.at, End(h));
    WrittenKeeps(Written(d, s), t, h.at, End(h));
    HoldsKept(Written(d, s), Written(Written(d, s), t), h.at, h.bs, h.at, End(h));
  }

  lemma SecondStep(d: bytes, t: Step)
    requires End(t.hdr) <= t.data.at
    ensures Holds(Written(d, t), t.hdr.at, t.hdr.bs) && Holds(Written(d, t), t.data.at, t.data.bs)
  {
    var h, b := t.hdr, t.data;
    var d1 := WriteAt(d, h.at, h.bs);
    HoldsWritten(d, h.at, h.bs);
    HoldsWritten(d1, b.at, b.bs);
    WriteKeeps(d1, b.at, b.bs, h.at, End(h));
    HoldsKept(d1, Written(d, t), h.at, h.bs, h.at, End(h));
  }

  lemma TwoSteps(d: bytes, steps: seq<Step>, s: Step, t: Step)
    requires steps == [s, t]
    requires StepOutside(t, s.hdr.at, End(s.hdr)) && Outside(s.data, s.hdr.at, End(s.hdr)) && End(t.hdr) <= t.data.at
    ensures var e := Applied(d, steps, 2);
            Holds(e, s.hdr.at, s.hdr.bs) && Holds(e, t.hdr.at, t.hdr.bs) && Holds(e, t.data.at, t.data.bs)
  {
    assert Applied(d, steps, 1) == Written(Applied(d, steps, 0), s);
    FirstHeader(d, s, t);
    SecondStep(Written(d, s), t);
  }

  /** Byte `x` lies in `[a, a + m)` and in `[b, b + n)`. */
  predicate InBoth(a: nat, m: nat, b: nat, n: nat, x: nat) {
    a <= x < a + m && b <= x < b + n
  }

  ghost predicate Overlap(a: nat, m: nat, b: nat, n: nat) {
    exists x: nat :: InBoth(a, m, b, n, x)
  }

  lemma HoldsBehind(d: bytes, p: nat, bs: bytes)
    requires Holds(d, p, bs) && bs != []
    ensures Holds(d, p + 1, bs[1..])
  {
    hide Holds;
    assert bs == [bs[0]] + bs[1..];
    HoldsConcat(d, p, [bs[0]], bs[1..]);
  }

  /** A failed head replacement is not harmless: the next segment starts one byte early, its
      range overlaps the one that the failed VMA's header announces, and that header then names the
      bytes of the next VMA from its second one on. */
  lemma FailedHeadMisplaces(c: Class, page: nat, d: bytes, v: Vma, w: Vma, ph: nat, dp: nat)
    requires !Filtered(v) && v.head == Failed && v.libs == []
    requires !Filtered(w) && ValidVma(w) && Clean(w)
    requires dp >= 1 && dp + w.size < 0x1_0000_0000_0000_0000 && Slot(c, ph, 2) <= dp - 1
    ensures var e := LoadsImage(c, page, d, [v, w], ph, dp);
            && Holds(e, Slot(c, ph, 0), PhdrBytes(c, LoadPhdr(v, dp, page)))
            && Holds(e, Slot(c, ph, 1), PhdrBytes(c, LoadPhdr(w, dp - 1, page)))
            && Holds(e, dp - 1, Content(w))
            && (Content(w) != [] ==> Holds(e, dp, Content(w)[1..]))
            && (Overlap(dp, v.size, dp - 1, w.size) <==> v.size > 0 && w.size > 1)
  {
    hide WriteAt, Applied, VmaStep, PhdrBytes, DataPos, Holds, Content;
    FailedSteps(c, page, v, w, ph, dp);
    PhdrLength(c, LoadPhdr(v, dp, page));
    PhdrLength(c, LoadPhdr(w, dp - 1, page));
    var steps := LoadSteps(c, page, [v, w], ph, dp);
    TwoSteps(d, steps, steps[0], steps[1]);
    if Content(w) != [] {
      HoldsBehind(LoadsImage(c, page, d, [v, w], ph, dp), dp - 1, Content(w));
    }
    assert v.size > 0 && w.size > 1 ==> InBoth(dp, v.size, dp - 1, w.size, dp);
  }
}
