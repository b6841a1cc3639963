/** The synthetic segment that makes a debugger find the process's libraries: a fake ELF image
    whose dynamic section leads to a doubly linked list of link maps. Its words have the size of
    the core's own class. */
module FakeLinkMap {
  import opened Bytes
  import opened OutFile
  import opened Elf

  /** `FAKE_AUXV_PHDR`: the address at which the fake image claims to be loaded. */
  const FAKE: nat := 0x100000
  const DT_DEBUG: nat := 21

  /** A library whose symbol file and header segment were found. `name` is the name of that
      segment's VMA and already ends with a NUL. */
  datatype Lib = Lib(vmStart: nat, phdrOffset: nat, phdrVaddr: nat, dynVaddr: nat, name: bytes)

  datatype Node = Node(addr: nat, name: nat, ld: nat, next: nat, prev: nat)

  /** Unsigned arithmetic at the word size. */
  function Wrap(c: Class, x: int): (r: nat) {
    if c.Elf64? then x % 0x1_0000_0000_0000_0000 else x % 0x1_0000_0000
  }

  function LoadBase(c: Class, l: Lib): nat {
    Wrap(c, l.vmStart + (l.phdrOffset - l.phdrVaddr))
  }

  function NodeSize(c: Class): nat {
    if c.Elf64? then 40 else 20
  }

  function NodeAt(c: Class, base: nat, k: nat): nat {
    if c.Elf64? then base + 40 * k else base + 20 * k
  }

  /** The libraries among the first `i` names that were not skipped. */
  function Resolved(libs: seq<Option<Lib>>, i: nat): seq<Lib>
    requires i <= |libs|
  {
    if i == 0 then []
    else if libs[i - 1].Some? then Resolved(libs, i - 1) + [libs[i - 1].value]
    else Resolved(libs, i - 1)
  }

  lemma {:induction false} ResolvedPrefix(libs: seq<Option<Lib>>, i: nat, j: nat)
    requires i <= j <= |libs|
    ensures |Resolved(libs, i)| <= |Resolved(libs, j)| && |Resolved(libs, j)| <= j
    ensures forall k :: 0 <= k < |Resolved(libs, i)| ==> Resolved(libs, j)[k] == Resolved(libs, i)[k]
  {
    if i < j {
      ResolvedPrefix(libs, i, j - 1);
    } else if j > 0 {
      ResolvedPrefix(libs, i - 1, j - 1);
    }
  }

  function NamesTo(rs: seq<Lib>, k: nat): bytes
    requires k <= |rs|
  {
    if k == 0 then [] else NamesTo(rs, k - 1) + rs[k - 1].name
  }

  /** The string table: the fake image's own name (`self`, with its NUL), then the libraries'. */
  function Strtab(self: bytes, rs: seq<Lib>): bytes {
    self + NamesTo(rs, |rs|)
  }

  /** Where the name of node `k` starts in the string table; node 0 is the fake image itself. */
  function NameOff(self: bytes, rs: seq<Lib>, k: nat): nat
    requires k <= |rs|
  {
    if k == 0 then 0 else |self| + |NamesTo(rs, k - 1)|
  }

  /** Node `k` while more nodes may follow; `base` and `strs` are the addresses of the list and
      of the string table. */
  function OpenNode(c: Class, base: nat, strs: nat, self: bytes, rs: seq<Lib>, k: nat): Node
    requires k <= |rs|
  {
    if k == 0 then Node(FAKE, strs, 0, NodeAt(c, base, 1), 0)
    else
      var a := LoadBase(c, rs[k - 1]);
      Node(a, strs + NameOff(self, rs, k), Wrap(c, a + rs[k - 1].dynVaddr), NodeAt(c, base, k + 1),
           NodeAt(c, base, k - 1))
  }

  /** Node `k` of the finished list: the last one has no successor. */
  function NodeOf(c: Class, base: nat, strs: nat, self: bytes, rs: seq<Lib>, k: nat): Node
    requires k <= |rs|
  {
    var n := OpenNode(c, base, strs, self, rs, k);
    if k == |rs| then n.(next := 0) else n
  }

  const ZERO_NODE: Node := Node(0, 0, 0, 0, 0)

  /** The link-map buffer: one node per resolved library plus the fake image, and zeros for
      the names that were skipped. */
  function Nodes(c: Class, base: nat, strs: nat, self: bytes, rs: seq<Lib>, n: nat): seq<Node> {
    seq(n, k requires 0 <= k < n => if k <= |rs| then NodeOf(c, base, strs, self, rs, k) else ZERO_NODE)
  }

  function NodeFields(c: Class, nd: Node): seq<Field> {
    var w := WordSize(c);
    [F(nd.addr, w), F(nd.name, w), F(nd.ld, w), F(nd.next, w), F(nd.prev, w)]
  }

  function NodeBytes(c: Class, nd: Node): bytes {
    Pack(NodeFields(c, nd), 0)
  }

  lemma NodeLength(c: Class, nd: Node)
    ensures |NodeBytes(c, nd)| == NodeSize(c)
  {
    var fs := NodeFields(c, nd);
    WidthStep(fs, 4); WidthStep(fs, 3); WidthStep(fs, 2); WidthStep(fs, 1);
  }

  /** The first `k` nodes of the buffer. */
  function NodesBytes(c: Class, nodes: seq<Node>, k: nat): (bs: bytes)
    requires k <= |nodes|
    ensures |bs| == NodeAt(c, 0, k)
  {
    if k == 0 then [] else NodeLength(c, nodes[k - 1]); NodesBytes(c, nodes, k - 1) + NodeBytes(c, nodes[k - 1])
  }

  lemma NextNode(c: Class, base: nat, strs: nat, self: bytes, rs: seq<Lib>, k: nat)
    requires k < |rs|
    ensures var a, at := LoadBase(c, rs[k]), NodeAt(c, base, k);
            OpenNode(c, base, strs, self, rs, k + 1) ==
            Node(a, strs + |self + NamesTo(rs, k)|, Wrap(c, a + rs[k].dynVaddr), NodeAt(c, at, 2), at)
  {
  }

  /** The buffer with nodes `0..cur` filled in and the rest still zero. */
  ghost predicate Filled(c: Class, base: nat, strs: nat, self: bytes, rs: seq<Lib>, s: seq<Node>, cur: nat) {
    && cur <= |rs| && cur < |s|
    && (forall k :: 0 <= k <= cur ==> s[k] == OpenNode(c, base, strs, self, rs, k))
    && (forall k :: cur < k < |s| ==> s[k] == ZERO_NODE)
  }

  lemma FillNext(c: Class, base: nat, strs: nat, self: bytes, rs: seq<Lib>, s: seq<Node>, cur: nat, nd: Node)
    requires Filled(c, base, strs, self, rs, s, cur) && cur < |rs| && cur + 1 < |s|
    requires nd == OpenNode(c, base, strs, self, rs, cur + 1)
    ensures Filled(c, base, strs, self, rs, s[cur + 1 := nd], cur + 1)
  {
  }

  lemma FillDone(c: Class, base: nat, strs: nat, self: bytes, rs: seq<Lib>, s: seq<Node>)
    requires Filled(c, base, strs, self, rs, s, |rs|)
    ensures s[|rs| := s[|rs|].(next := 0)] == Nodes(c, base, strs, self, rs, |s|)
  {
  }

  lemma ResolvedNext(libs: seq<Option<Lib>>, i: nat)
    requires i < |libs| && libs[i].Some?
    ensures var k := |Resolved(libs, i)|;
            k < |Resolved(libs, |libs|)| && Resolved(libs, |libs|)[k] == libs[i].value &&
              |Resolved(libs, i + 1)| == k + 1
  {
    ResolvedPrefix(libs, i + 1, |libs|);
    assert Resolved(libs, i + 1)[|Resolved(libs, i)|] == libs[i].value;
  }

  lemma ResolvedSkip(libs: seq<Option<Lib>>, i: nat)
    requires i < |libs| && libs[i].None?
    ensures Resolved(libs, i + 1) == Resolved(libs, i)
  {
  }

  lemma NamesNext(rs: seq<Lib>, k: nat)
    requires k < |rs|
    ensures NamesTo(rs, k + 1) == NamesTo(rs, k) + rs[k].name
  {
  }

  /** The buffer before the loop: only the fake image's node is filled in. */
  lemma FillStart(c: Class, base: nat, strs: nat, self: bytes, libs: seq<Option<Lib>>, s: seq<Node>)
    requires |s| > 0 && s[0] == Node(FAKE, strs, 0, NodeAt(c, base, 1), 0)
    requires forall k :: 0 < k < |s| ==> s[k] == ZERO_NODE
    ensures var rs := Resolved(libs, |libs|);
            && Resolved(libs, 0) == [] && NamesTo(rs, 0) == [] && Filled(c, base, strs, self, rs, s, 0)
  {
    hide NodeAt;
  }

  lemma FillRoom(c: Class, base: nat, strs: nat, self: bytes, rs: seq<Lib>, s: seq<Node>, cur: nat)
    requires Filled(c, base, strs, self, rs, s, cur)
    ensures cur <= |rs| && cur < |s|
  {
    hide OpenNode;
  }

  method SetNode(buf: array<Node>, k: nat, nd: Node)
    requires k < buf.Length
    modifies buf
    ensures buf[..] == old(buf[..])[k := nd]
  {
    buf[k] := nd;
  }

  /** One resolved library: its node goes into the next place of the buffer. */
  method AddLib(c: Class, buf: array<Node>, curMap: nat, cur: nat, strtab: bytes, l: Lib,
                ghost base: nat, strs: nat, ghost self: bytes, ghost rs: seq<Lib>)
    requires Filled(c, base, strs, self, rs, buf[..], cur) && cur < |rs| && rs[cur] == l && cur + 1 < buf.Length
    requires curMap == NodeAt(c, base, cur) && strtab == self + NamesTo(rs, cur)
    modifies buf
    ensures Filled(c, base, strs, self, rs, buf[..], cur + 1)
  {
    NextNode(c, base, strs, self, rs, cur);
    var a := LoadBase(c, l);
    var nd := Node(a, strs + |strtab|, Wrap(c, a + l.dynVaddr), NodeAt(c, curMap, 2), curMap);
    FillNext(c, base, strs, self, rs, buf[..], cur, nd);
    SetNode(buf, cur + 1, nd);
  }

  /** The fill loop of `write_fake_data`: the buffer is updated in place, skipped names leave no
      hole, and the last node's `next` is cleared at the end. */
  method FillLinkMaps(c: Class, base: nat, strs: nat, self: bytes, libs: seq<Option<Lib>>)
    returns (nodes: seq<Node>, strtab: bytes)
    ensures nodes == Nodes(c, base, strs, self, Resolved(libs, |libs|), |libs| + 1)
    ensures strtab == Strtab(self, Resolved(libs, |libs|))
  {
    hide LoadBase, Wrap, Nodes, Resolved, NamesTo, Filled, OpenNode;
    ghost var rs := Resolved(libs, |libs|);
    var buf := new Node[|libs| + 1](_ => ZERO_NODE);
    strtab := self;
    buf[0] := Node(FAKE, strs, 0, NodeAt(c, base, 1), 0);
    var curMap, cur := base, 0;
    FillStart(c, base, strs, self, libs, buf[..]);
    assert self + [] == self;
    for i := 0 to |libs|
      invariant cur == |Resolved(libs, i)| <= i && cur <= |rs| && curMap == NodeAt(c, base, cur)
      invariant Filled(c, base, strs, self, rs, buf[..], cur)
      invariant strtab == self + NamesTo(rs, cur)
    {
      if libs[i].Some? {
        ResolvedNext(libs, i);
        NamesNext(rs, cur);
        assert (self + NamesTo(rs, cur)) + rs[cur].name == self + NamesTo(rs, cur + 1);
        AddLib(c, buf, curMap, cur, strtab, libs[i].value, base, strs, self, rs);
        cur := cur + 1;
        curMap := NodeAt(c, curMap, 1);
        strtab := strtab + libs[i].value.name;
      } else {
        ResolvedSkip(libs, i);
      }
    }
    FillRoom(c, base, strs, self, rs, buf[..], cur);
    FillDone(c, base, strs, self, rs, buf[..]);
    SetNode(buf, cur, buf[cur].(next := 0));
    nodes := buf[..];
  }

  // ---------------------------------------------------------------- the segment

  function PhdrPhdr(c: Class, page: nat): Phdr {
    Phdr(PT_PHDR, EhdrSize(c), EhdrSize(c), 0, page, PF_R, 8)
  }

  function DynamicPhdr(page: nat): Phdr {
    Phdr(PT_DYNAMIC, page, page, page, page, PF_R + PF_W, 8)
  }

  /** The ELF image at the start of the segment. */
  function HeaderPart(t: Target, page: nat): bytes {
    EhdrBytes(t, ET_DYN, 2) + (PhdrBytes(t.cls, PhdrPhdr(t.cls, page)) + PhdrBytes(t.cls, DynamicPhdr(page)))
  }

  /** The dynamic section's only entry, and the debugger structure it points to. */
  function DynamicFields(c: Class, page: nat): seq<Field> {
    var w := WordSize(c);
    [F(DT_DEBUG, w), F(FAKE + page + 2 * w, w), F(1, w), F(FAKE + page + page, w)]
  }

  function ListBase(page: nat): nat {
    FAKE + page + page
  }

  function ListSize(c: Class, libs: seq<Option<Lib>>): nat {
    NodeAt(c, 0, |libs| + 1)
  }

  function ListPart(c: Class, page: nat, self: bytes, libs: seq<Option<Lib>>): (bs: bytes)
    ensures |bs| == ListSize(c, libs)
  {
    var n := |libs| + 1;
    NodesBytes(c, Nodes(c, ListBase(page), ListBase(page) + ListSize(c, libs), self, Resolved(libs, |libs|), n), n)
  }

  function PadTo(bs: bytes, n: nat): bytes
    requires |bs| <= n
  {
    bs + Zeros(n - |bs|)
  }

  lemma HeaderPartLength(t: Target, page: nat)
    ensures |HeaderPart(t, page)| == EhdrSize(t.cls) + 2 * PhdrSize(t.cls) <= 176
  {
    EhdrLength(t, ET_DYN, 2);
    PhdrLength(t.cls, PhdrPhdr(t.cls, page));
    PhdrLength(t.cls, DynamicPhdr(page));
  }

  lemma DynamicLength(c: Class, page: nat)
    ensures |Pack(DynamicFields(c, page), 0)| == 4 * WordSize(c) <= 32
  {
    var fs := DynamicFields(c, page);
    WidthStep(fs, 3); WidthStep(fs, 2); WidthStep(fs, 1); WidthStep(fs, 0);
  }

  /** The whole segment, without the file padding behind it. */
  function FakeBytes(t: Target, page: nat, self: bytes, libs: seq<Option<Lib>>): bytes
    requires page >= 176
  {
    HeaderPartLength(t, page);
    DynamicLength(t.cls, page);
    PadTo(HeaderPart(t, page), page)
    + (PadTo(Pack(DynamicFields(t.cls, page), 0), page)
    + (ListPart(t.cls, page, self, libs) + Strtab(self, Resolved(libs, |libs|))))
  }

  function FakeSize(c: Class, page: nat, self: bytes, libs: seq<Option<Lib>>): nat {
    page + page + ListSize(c, libs) + |Strtab(self, Resolved(libs, |libs|))|
  }

  function FakePhdr(c: Class, page: nat, self: bytes, libs: seq<Option<Lib>>, dp: nat): Phdr {
    var n := FakeSize(c, page, self, libs);
    Phdr(PT_LOAD, dp, FAKE, n, n, PF_R + PF_W, page)
  }

  /** The image after the segment and the file padding behind it were written at `dp`. */
  function FakeImage(d: bytes, t: Target, page: nat, self: bytes, libs: seq<Option<Lib>>, dp: nat): bytes
    requires page >= 176
  {
    var bs := FakeBytes(t, page, self, libs);
    WriteAt(d, dp, bs + Padding(dp + |bs|, page))
  }

  lemma PageFill(dp: nat, page: nat, n: nat)
    requires page > 0 && dp % page == 0 && n <= page
    ensures n < page ==> (dp + n) % page == n
    ensures |Padding(dp + n, page)| == if n == 0 then 0 else page - n
    ensures (dp + page) % page == 0
  {
    AddMod(dp, page);
    if n < page {
      AddMultiple(n, dp, page);
      DivMod(n, page);
      UniqueRemainder(n, 0, n, n / page, n % page, page);
    }
  }

  /** A block and its padding to the page end. */
  method WritePage(f: File, bs: bytes, page: nat)
    requires IsPow2(page) && 0 < |bs| <= page && f.pos % page == 0
    modifies f
    ensures f.data == WriteAt(old(f.data), old(f.pos), PadTo(bs, page)) && f.pos == old(f.pos) + page
    ensures f.pos % page == 0
  {
    ghost var d, p := f.data, f.pos;
    PageFill(p, page, |bs|);
    f.Write(bs);
    f.DumpAlign(page);
    WriteTwice(d, p, bs, Padding(p + |bs|, page));
  }

  /** Two blocks and padding to the next page. */
  method WriteTail(f: File, list: bytes, strtab: bytes, page: nat)
    requires IsPow2(page)
    modifies f
    ensures f.data == WriteAt(old(f.data), old(f.pos),
                              (list + strtab) + Padding(old(f.pos) + |list + strtab|, page))
  {
    ghost var d, p := f.data, f.pos;
    f.Write(list);
    f.Write(strtab);
    WriteTwice(d, p, list, strtab);
    f.DumpAlign(page);
    WriteTwice(d, p, list + strtab, Padding(p + |list + strtab|, page));
  }

  /** The file side of `write_fake_data`: two padded pages, two blocks, and padding. */
  method WriteParts(f: File, a: bytes, b: bytes, list: bytes, strtab: bytes, page: nat)
    requires IsPow2(page) && 0 < |a| <= page && 0 < |b| <= page && f.pos % page == 0
    modifies f
    ensures var bs := PadTo(a, page) + (PadTo(b, page) + (list + strtab));
            f.data == WriteAt(old(f.data), old(f.pos), bs + Padding(old(f.pos) + |bs|, page))
  {
    hide WriteAt, IsPow2;
    ghost var d, p, x, y, z := f.data, f.pos, PadTo(a, page), PadTo(b, page), list + strtab;
    WritePage(f, a, page);
    WritePage(f, b, page);
    WriteTail(f, list, strtab, page);
    ghost var pad := Padding(p + page + page + |z|, page);
    Regroup(d, p, x, y, z, pad);
  }

  lemma Regroup(d: bytes, p: nat, x: bytes, y: bytes, z: bytes, pad: bytes)
    ensures WriteAt(WriteAt(WriteAt(d, p, x), p + |x|, y), p + |x| + |y|, z + pad) == WriteAt(d, p, (x + (y + z)) + pad)
  {
    WriteTwice(d, p, x, y);
    WriteTwice(d, p, x + y, z + pad);
    assert (x + y) + (z + pad) == (x + (y + z)) + pad;
  }

  method Pages(t: Target, page: nat) returns (a: bytes, b: bytes)
    ensures a == HeaderPart(t, page) && b == Pack(DynamicFields(t.cls, page), 0)
    ensures 0 < |a| <= 176 && 0 < |b| <= 32
  {
    HeaderPartLength(t, page);
    DynamicLength(t.cls, page);
    a, b := HeaderPart(t, page), Pack(DynamicFields(t.cls, page), 0);
  }

  method BuildList(c: Class, page: nat, self: bytes, libs: seq<Option<Lib>>) returns (list: bytes, strtab: bytes)
    ensures list == ListPart(c, page, self, libs) && strtab == Strtab(self, Resolved(libs, |libs|))
  {
    hide NodesBytes, Resolved, Strtab, NodeOf;
    var base := ListBase(page);
    var nodes;
    nodes, strtab := FillLinkMaps(c, base, base + ListSize(c, libs), self, libs);
    list := NodesBytes(c, nodes, |libs| + 1);
  }

  /** The segment and the file padding behind it. */
  method WriteFakeBody(f: File, t: Target, page: nat, self: bytes, libs: seq<Option<Lib>>)
    returns (size: nat)
    requires page >= 176 && IsPow2(page) && f.pos % page == 0
    modifies f
    ensures f.data == FakeImage(old(f.data), t, page, self, libs, old(f.pos))
    ensures size == FakeSize(t.cls, page, self, libs)
  {
    hide HeaderPart, DynamicFields, Pack, ListPart, Resolved, WriteAt, Padding, IsPow2;
    var list, strtab := BuildList(t.cls, page, self, libs);
    var a, b := Pages(t, page);
    WriteParts(f, a, b, list, strtab, page);
    size := page + page + |list| + |strtab|;
  }

  /** `write_fake_data`: the segment at `dp`, then its program header. */
  method WriteFakeData(f: File, t: Target, page: nat, self: bytes, libs: seq<Option<Lib>>, phdrPos: nat, dp: nat)
    returns (next: nat)
    requires page >= 176 && IsPow2(page) && dp % page == 0
    modifies f
    ensures f.data == WriteAt(FakeImage(old(f.data), t, page, self, libs, dp),
                              phdrPos, PhdrBytes(t.cls, FakePhdr(t.cls, page, self, libs, dp)))
    ensures next == dp + FakeSize(t.cls, page, self, libs)
  {
    hide WriteAt, FakeImage, FakeBytes, IsPow2, PhdrBytes, FakeSize;
    f.Seek(dp);
    var size := WriteFakeBody(f, t, page, self, libs);
    f.Seek(phdrPos);
    f.Write(PhdrBytes(t.cls, FakePhdr(t.cls, page, self, libs, dp)));
    next := dp + size;
  }
}
