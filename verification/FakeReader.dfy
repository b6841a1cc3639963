/** What a debugger finds when it follows the pointers of the fake segment through the
    segment's own program header. */
module FakeReader {
  import opened Bytes
  import opened Elf
  import opened FakeLinkMap

  /** A link-map entry as the debugger reports it; `name` includes the NUL. */
  datatype Entry = Entry(addr: nat, ld: nat, name: bytes)

  /** A NUL-terminated string with no other NUL. */
  ghost predicate IsCName(s: bytes) {
    |s| > 0 && s[|s| - 1] == 0 && forall i :: 0 <= i < |s| - 1 ==> s[i] != 0
  }

  /** The file offset behind an address of the segment loaded from offset `dp`. */
  function Off(dp: nat, a: nat): nat
    requires FAKE <= a
  {
    dp + (a - FAKE)
  }

  ghost predicate CStringAt(d: bytes, dp: nat, size: nat, a: nat, s: bytes) {
    FAKE <= a && a + |s| <= FAKE + size && IsCName(s) && Holds(d, Off(dp, a), s)
  }

  /** The node at address `a` lies in the segment and carries entry `e`, with `prev` behind it. */
  ghost predicate NodeIs(c: Class, d: bytes, dp: nat, size: nat, a: nat, prev: nat, e: Entry) {
    && FAKE <= a && a + NodeSize(c) <= FAKE + size
    && var w, p := WordSize(c), Off(dp, a);
       && U(d, p, w) == e.addr && U(d, p + 2 * w, w) == e.ld && U(d, p + 4 * w, w) == prev
       && CStringAt(d, dp, size, U(d, p + w, w), e.name)
  }

  function NextOf(c: Class, d: bytes, dp: nat, a: nat): nat
    requires FAKE <= a
  {
    U(d, Off(dp, a) + 3 * WordSize(c), WordSize(c))
  }

  /** Following `next` from `a` visits exactly the entries `es[k..]`, each `prev` names the node
      before, and the list ends with a null pointer. */
  ghost predicate Chain(c: Class, d: bytes, dp: nat, size: nat, a: nat, prev: nat, es: seq<Entry>, k: nat)
    decreases |es| - k
  {
    if k >= |es| then a == 0
    else NodeIs(c, d, dp, size, a, prev, es[k]) && Chain(c, d, dp, size, NextOf(c, d, dp, a), a, es, k + 1)
  }

  lemma CNameNoLonger(d: bytes, p: nat, s: bytes, t: bytes)
    requires IsCName(s) && IsCName(t) && Holds(d, p, s) && Holds(d, p, t)
    ensures |s| <= |t|
  {
    if |t| <= |s| {
      assert Agrees(d, p, s, |t| - 1) && Agrees(d, p, t, |t| - 1);
    }
  }

  lemma CNameUnique(d: bytes, p: nat, s: bytes, t: bytes)
    requires IsCName(s) && IsCName(t) && Holds(d, p, s) && Holds(d, p, t)
    ensures s == t
  {
    CNameNoLonger(d, p, s, t);
    CNameNoLonger(d, p, t, s);
    forall i | 0 <= i < |s| ensures s[i] == t[i] {
      assert Agrees(d, p, s, i) && Agrees(d, p, t, i);
    }
  }

  /** The chain determines its entries: no two different lists can be read from one image. */
  lemma {:induction false} ChainUnique(c: Class, d: bytes, dp: nat, size: nat, a: nat, prev: nat, es: seq<Entry>,
                                       fs: seq<Entry>, k: nat)
    requires Chain(c, d, dp, size, a, prev, es, k) && Chain(c, d, dp, size, a, prev, fs, k)
    requires k <= |es| && k <= |fs|
    ensures |es| == |fs| && forall i :: k <= i < |es| ==> es[i] == fs[i]
    decreases |es| - k
  {
    if k < |es| && k < |fs| {
      CNameUnique(d, Off(dp, U(d, Off(dp, a) + WordSize(c), WordSize(c))), es[k].name, fs[k].name);
      ChainUnique(c, d, dp, size, NextOf(c, d, dp, a), a, es, fs, k + 1);
    }
  }

  /** The entry that node `k` should carry. */
  function EntryOf(c: Class, self: bytes, rs: seq<Lib>, k: nat): Entry
    requires k <= |rs|
  {
    if k == 0 then Entry(FAKE, 0, self)
    else Entry(LoadBase(c, rs[k - 1]), Wrap(c, LoadBase(c, rs[k - 1]) + rs[k - 1].dynVaddr), rs[k - 1].name)
  }

  function Entries(c: Class, self: bytes, rs: seq<Lib>): seq<Entry> {
    seq(|rs| + 1, k requires 0 <= k <= |rs| => EntryOf(c, self, rs, k))
  }

  // ---------------------------------------------------------------- reading the pieces

  lemma NodeRead(c: Class, d: bytes, p: nat, nd: Node)
    requires Holds(d, p, NodeBytes(c, nd))
    requires var m := Pow256(WordSize(c)); nd.addr < m && nd.name < m && nd.ld < m && nd.next < m && nd.prev < m
    ensures var w := WordSize(c);
            && U(d, p, w) == nd.addr && U(d, p + w, w) == nd.name && U(d, p + 2 * w, w) == nd.ld
            && U(d, p + 3 * w, w) == nd.next && U(d, p + 4 * w, w) == nd.prev
  {
    hide U, Holds, Pack, Pow256;
    var fs, w := NodeFields(c, nd), WordSize(c);
    TakeField(d, p, fs, 0);
    TakeField(d, p + w, fs, 1);
    TakeField(d, p + 2 * w, fs, 2);
    TakeField(d, p + 3 * w, fs, 3);
    TakeField(d, p + 4 * w, fs, 4);
  }

  lemma {:induction false} NodeHeld(c: Class, d: bytes, p: nat, nodes: seq<Node>, n: nat, k: nat)
    requires k < n <= |nodes| && Holds(d, p, NodesBytes(c, nodes, n))
    ensures Holds(d, NodeAt(c, p, k), NodeBytes(c, nodes[k]))
    decreases n
  {
    HoldsConcat(d, p, NodesBytes(c, nodes, n - 1), NodeBytes(c, nodes[n - 1]));
    if k < n - 1 {
      NodeHeld(c, d, p, nodes, n - 1, k);
    }
  }

  lemma {:induction false} NameHeld(d: bytes, p: nat, rs: seq<Lib>, n: nat, k: nat)
    requires k < n <= |rs| && Holds(d, p, NamesTo(rs, n))
    ensures Holds(d, p + |NamesTo(rs, k)|, rs[k].name)
    ensures |NamesTo(rs, k)| + |rs[k].name| <= |NamesTo(rs, n)|
    decreases n
  {
    HoldsConcat(d, p, NamesTo(rs, n - 1), rs[n - 1].name);
    if k < n - 1 {
      NameHeld(d, p, rs, n - 1, k);
    }
  }

  /** The name of node `k` stands at its offset in the string table. */
  lemma StrtabHeld(d: bytes, p: nat, self: bytes, rs: seq<Lib>, k: nat)
    requires k <= |rs| && Holds(d, p, Strtab(self, rs))
    ensures var nm := if k == 0 then self else rs[k - 1].name;
            Holds(d, p + NameOff(self, rs, k), nm) && NameOff(self, rs, k) + |nm| <= |Strtab(self, rs)|
  {
    HoldsConcat(d, p, self, NamesTo(rs, |rs|));
    if k > 0 {
      NameHeld(d, p + |self|, rs, |rs|, k - 1);
    }
  }

  // ---------------------------------------------------------------- the list

  ghost predicate NamesOk(self: bytes, rs: seq<Lib>) {
    IsCName(self) && forall k :: 0 <= k < |rs| ==> IsCName(rs[k].name)
  }

  lemma WrapFits(c: Class, x: int)
    ensures Wrap(c, x) < Pow256(WordSize(c))
  {
    Pow256Values();
  }

  /** `nodes` is the buffer for `rs` with the list at `base` and the strings at `strs`. */
  ghost predicate IsList(c: Class, base: nat, strs: nat, self: bytes, rs: seq<Lib>, nodes: seq<Node>) {
    && |rs| < |nodes| && strs == NodeAt(c, base, |nodes|)
    && forall k :: 0 <= k <= |rs| ==> nodes[k] == NodeOf(c, base, strs, self, rs, k)
  }

  ghost predicate WordsFit(nd: Node, m: nat) {
    nd.addr < m && nd.name < m && nd.ld < m && nd.next < m && nd.prev < m
  }

  lemma NodeFits(c: Class, base: nat, strs: nat, self: bytes, rs: seq<Lib>, n: nat, k: nat)
    requires k <= |rs| < n && FAKE <= base && strs == NodeAt(c, base, n)
    requires strs + NameOff(self, rs, k) < Pow256(WordSize(c))
    ensures WordsFit(NodeOf(c, base, strs, self, rs, k), Pow256(WordSize(c)))
  {
    if k > 0 {
      WrapFits(c, rs[k - 1].vmStart + (rs[k - 1].phdrOffset - rs[k - 1].phdrVaddr));
      WrapFits(c, LoadBase(c, rs[k - 1]) + rs[k - 1].dynVaddr);
    }
  }

  lemma NodeMeaning(c: Class, base: nat, strs: nat, self: bytes, rs: seq<Lib>, k: nat)
    requires k <= |rs|
    ensures var nd, e := NodeOf(c, base, strs, self, rs, k), EntryOf(c, self, rs, k);
            && nd.addr == e.addr && nd.ld == e.ld && nd.name == strs + NameOff(self, rs, k)
            && nd.prev == (if k == 0 then 0 else NodeAt(c, base, k - 1))
            && nd.next == (if k == |rs| then 0 else NodeAt(c, base, k + 1))
            && e.name == if k == 0 then self else rs[k - 1].name
  {
  }

  lemma NameReads(c: Class, d: bytes, dp: nat, size: nat, strs: nat, self: bytes, rs: seq<Lib>, k: nat)
    requires NamesOk(self, rs) && k <= |rs|
    requires FAKE <= strs && strs + |Strtab(self, rs)| <= FAKE + size && Holds(d, Off(dp, strs), Strtab(self, rs))
    ensures CStringAt(d, dp, size, strs + NameOff(self, rs, k), EntryOf(c, self, rs, k).name)
  {
    StrtabHeld(d, Off(dp, strs), self, rs, k);
    assert Off(dp, strs + NameOff(self, rs, k)) == Off(dp, strs) + NameOff(self, rs, k);
  }

  lemma NodeIsFrom(c: Class, d: bytes, dp: nat, size: nat, a: nat, prev: nat, e: Entry, nd: Node)
    requires FAKE <= a && a + NodeSize(c) <= FAKE + size
    requires nd.addr == e.addr && nd.ld == e.ld && nd.prev == prev && CStringAt(d, dp, size, nd.name, e.name)
    requires Holds(d, Off(dp, a), NodeBytes(c, nd)) && WordsFit(nd, Pow256(WordSize(c)))
    ensures NodeIs(c, d, dp, size, a, prev, e) && NextOf(c, d, dp, a) == nd.next
  {
    NodeRead(c, d, Off(dp, a), nd);
  }

  /** Reading node `k`: it carries entry `k`, and its links are the neighbours' addresses. */
  lemma NodeReads(c: Class, d: bytes, dp: nat, size: nat, base: nat, strs: nat, self: bytes, rs: seq<Lib>,
                  nodes: seq<Node>, k: nat)
    requires IsList(c, base, strs, self, rs, nodes) && NamesOk(self, rs) && k <= |rs|
    requires FAKE <= base && strs + |Strtab(self, rs)| <= FAKE + size < Pow256(WordSize(c))
    requires Holds(d, Off(dp, strs), Strtab(self, rs)) && Holds(d, Off(dp, base), NodesBytes(c, nodes, |nodes|))
    ensures NodeIs(c, d, dp, size, NodeAt(c, base, k), if k == 0 then 0 else NodeAt(c, base, k - 1),
                   EntryOf(c, self, rs, k))
    ensures NextOf(c, d, dp, NodeAt(c, base, k)) == if k == |rs| then 0 else NodeAt(c, base, k + 1)
  {
    hide U, Holds, NodeBytes, NodesBytes, NodeIs, NamesOk, Strtab, CStringAt, WordsFit, NodeOf, EntryOf, NameOff,
      Pow256, NextOf;
    var nd, e, a := nodes[k], EntryOf(c, self, rs, k), NodeAt(c, base, k);
    StrtabHeld(d, Off(dp, strs), self, rs, k);
    NameReads(c, d, dp, size, strs, self, rs, k);
    NodeMeaning(c, base, strs, self, rs, k);
    NodeFits(c, base, strs, self, rs, |nodes|, k);
    assert Holds(d, Off(dp, a), NodeBytes(c, nd)) by {
      NodeHeld(c, d, Off(dp, base), nodes, |nodes|, k);
    }
    NodeIsFrom(c, d, dp, size, a, nd.prev, e, nd);
  }

  /** The debugger's walk over the list visits the fake image and then exactly the resolved
      libraries, in order, and ends. */
  lemma {:induction false} ListReads(c: Class, d: bytes, dp: nat, size: nat, base: nat, strs: nat, self: bytes,
                                     rs: seq<Lib>, nodes: seq<Node>, k: nat)
    requires IsList(c, base, strs, self, rs, nodes) && NamesOk(self, rs) && k <= |rs|
    requires FAKE <= base && strs + |Strtab(self, rs)| <= FAKE + size < Pow256(WordSize(c))
    requires Holds(d, Off(dp, strs), Strtab(self, rs)) && Holds(d, Off(dp, base), NodesBytes(c, nodes, |nodes|))
    ensures Chain(c, d, dp, size, NodeAt(c, base, k), if k == 0 then 0 else NodeAt(c, base, k - 1),
                  Entries(c, self, rs), k)
    decreases |rs| - k
  {
    hide U, Holds, NodeIs, NodesBytes, NamesOk, Pow256, Strtab, NodeOf, EntryOf;
    NodeReads(c, d, dp, size, base, strs, self, rs, nodes, k);
    var es, a := Entries(c, self, rs), NodeAt(c, base, k);
    assert es[k] == EntryOf(c, self, rs, k);
    if k < |rs| {
      ListReads(c, d, dp, size, base, strs, self, rs, nodes, k + 1);
    }
    ChainCons(c, d, dp, size, a, if k == 0 then 0 else NodeAt(c, base, k - 1), es, k);
  }

  lemma ChainCons(c: Class, d: bytes, dp: nat, size: nat, a: nat, prev: nat, es: seq<Entry>, k: nat)
    requires k < |es| && NodeIs(c, d, dp, size, a, prev, es[k])
    requires Chain(c, d, dp, size, NextOf(c, d, dp, a), a, es, k + 1)
    ensures Chain(c, d, dp, size, a, prev, es, k)
  {
  }

  // ---------------------------------------------------------------- the whole segment

  lemma HoldsPadded(d: bytes, p: nat, bs: bytes, n: nat, rest: bytes)
    requires |bs| <= n && Holds(d, p, PadTo(bs, n) + rest)
    ensures Holds(d, p, bs) && Holds(d, p + n, rest)
  {
    HoldsConcat(d, p, PadTo(bs, n), rest);
    HoldsConcat(d, p, bs, Zeros(n - |bs|));
  }

  lemma {:induction false} SegmentParts(t: Target, page: nat, self: bytes, libs: seq<Option<Lib>>, d: bytes, dp: nat)
    requires page >= 176 && Holds(d, dp, FakeBytes(t, page, self, libs))
    ensures Holds(d, dp, HeaderPart(t, page)) && Holds(d, dp + page, Pack(DynamicFields(t.cls, page), 0))
    ensures Holds(d, dp + page + page, ListPart(t.cls, page, self, libs))
    ensures Holds(d, dp + page + page + ListSize(t.cls, libs), Strtab(self, Resolved(libs, |libs|)))
  {
    hide Holds, Pack, PadTo, HeaderPart, ListPart, Strtab, Resolved;
    var list, strtab := ListPart(t.cls, page, self, libs), Strtab(self, Resolved(libs, |libs|));
    var dyn := Pack(DynamicFields(t.cls, page), 0);
    HeaderPartLength(t, page);
    DynamicLength(t.cls, page);
    HoldsPadded(d, dp, HeaderPart(t, page), page, PadTo(dyn, page) + (list + strtab));
    HoldsPadded(d, dp + page, dyn, page, list + strtab);
    HoldsConcat(d, dp + page + page, list, strtab);
  }

  lemma HeadersRead(t: Target, page: nat, d: bytes, dp: nat)
    requires Holds(d, dp, HeaderPart(t, page)) && page < Pow256(WordSize(t.cls))
    ensures PhdrAt(t.cls, d, dp + EhdrSize(t.cls)) == PhdrPhdr(t.cls, page)
    ensures PhdrAt(t.cls, d, dp + EhdrSize(t.cls) + PhdrSize(t.cls)) == DynamicPhdr(page)
  {
    hide U, Pack, Holds, EhdrBytes;
    var c, e, a, b := t.cls, EhdrBytes(t, ET_DYN, 2), PhdrPhdr(t.cls, page), DynamicPhdr(page);
    Pow256Values();
    EhdrLength(t, ET_DYN, 2);
    PhdrLength(c, a);
    HoldsConcat(d, dp, e, PhdrBytes(c, a) + PhdrBytes(c, b));
    HoldsConcat(d, dp + EhdrSize(c), PhdrBytes(c, a), PhdrBytes(c, b));
    PhdrRead(c, d, dp + EhdrSize(c), a);
    PhdrRead(c, d, dp + EhdrSize(c) + PhdrSize(c), b);
  }

  lemma DynamicRead(c: Class, page: nat, d: bytes, p: nat)
    requires Holds(d, p, Pack(DynamicFields(c, page), 0)) && FAKE + page + page + 16 < Pow256(WordSize(c))
    ensures var w := WordSize(c);
            && U(d, p, w) == DT_DEBUG && U(d, p + w, w) == FAKE + page + 2 * w
            && U(d, p + 2 * w, w) == 1 && U(d, p + 3 * w, w) == ListBase(page)
  {
    var fs, w := DynamicFields(c, page), WordSize(c);
    TakeField(d, p, fs, 0);
    TakeField(d, p + w, fs, 1);
    TakeField(d, p + 2 * w, fs, 2);
    TakeField(d, p + 3 * w, fs, 3);
  }

  /** What a debugger does with the segment that a `PT_LOAD` header maps from file offset `dp`
      to address `FAKE`: it locates the program headers at the auxiliary vector's `AT_PHDR`,
      relocates by the difference to `PT_PHDR`, finds the dynamic section, takes its `DT_DEBUG`
      value as the debugger structure, and walks the link maps from there. Everything it reads lies
      in the `size` bytes of the segment. */
  ghost predicate DebuggerFinds(c: Class, d: bytes, dp: nat, size: nat, atPhdr: nat, es: seq<Entry>) {
    && FAKE <= atPhdr && atPhdr + 2 * PhdrSize(c) <= FAKE + size
    && var w, ph, dyn := WordSize(c), PhdrAt(c, d, Off(dp, atPhdr)), PhdrAt(c, d, Off(dp, atPhdr) + PhdrSize(c));
       && ph.ptype == 6 && dyn.ptype == 2 && FAKE <= atPhdr - ph.vaddr
       && var at := atPhdr - ph.vaddr + dyn.vaddr;
          && at + 2 * w <= FAKE + size && U(d, Off(dp, at), w) == 21
          && var dbg := U(d, Off(dp, at) + w, w);
             FAKE <= dbg && dbg + 2 * w <= FAKE + size && U(d, Off(dp, dbg), w) == 1 &&
               Chain(c, d, dp, size, U(d, Off(dp, dbg) + w, w), 0, es, 0)
  }

  lemma DebuggerFindsFrom(c: Class, d: bytes, dp: nat, size: nat, page: nat, es: seq<Entry>)
    requires PhdrAt(c, d, dp + EhdrSize(c)) == PhdrPhdr(c, page)
    requires PhdrAt(c, d, dp + EhdrSize(c) + PhdrSize(c)) == DynamicPhdr(page)
    requires var w, p := WordSize(c), dp + page;
             && U(d, p, w) == DT_DEBUG && U(d, p + w, w) == FAKE + page + 2 * w
             && U(d, p + 2 * w, w) == 1 && U(d, p + 3 * w, w) == ListBase(page)
    requires Chain(c, d, dp, size, ListBase(page), 0, es, 0) && page >= 176 && page + page <= size
    ensures DebuggerFinds(c, d, dp, size, FAKE + EhdrSize(c), es)
  {
    hide U;
    var w := WordSize(c);
    assert Off(dp, FAKE + EhdrSize(c)) == dp + EhdrSize(c);
    assert Off(dp, FAKE + page) == dp + page;
    assert Off(dp, FAKE + page + 2 * w) == dp + page + 2 * w;
  }

  /** Wherever the segment stands in a file, a debugger that starts from `AT_PHDR` finds the fake
      image and then exactly the libraries that were resolved, in order, even when names were
      skipped in between. */
  lemma FakeSegmentReads(t: Target, page: nat, self: bytes, libs: seq<Option<Lib>>, d: bytes, dp: nat)
    requires page >= 176 && Holds(d, dp, FakeBytes(t, page, self, libs))
    requires NamesOk(self, Resolved(libs, |libs|))
    requires FAKE + FakeSize(t.cls, page, self, libs) < Pow256(WordSize(t.cls))
    ensures DebuggerFinds(t.cls, d, dp, FakeSize(t.cls, page, self, libs), FAKE + EhdrSize(t.cls),
                          Entries(t.cls, self, Resolved(libs, |libs|)))
  {
    hide U, Pack, Holds, Chain, Entries, Resolved, FakeBytes, HeaderPart, ListPart, Strtab, NamesOk;
    var c, rs, size := t.cls, Resolved(libs, |libs|), FakeSize(t.cls, page, self, libs);
    var es := Entries(c, self, rs);
    SegmentParts(t, page, self, libs, d, dp);
    HeadersRead(t, page, d, dp);
    DynamicRead(c, page, d, dp + page);
    ListPartReads(c, page, self, libs, d, dp);
    DebuggerFindsFrom(c, d, dp, size, page, es);
  }

  lemma ListPartReads(c: Class, page: nat, self: bytes, libs: seq<Option<Lib>>, d: bytes, dp: nat)
    requires Holds(d, dp + page + page, ListPart(c, page, self, libs))
    requires Holds(d, dp + page + page + ListSize(c, libs), Strtab(self, Resolved(libs, |libs|)))
    requires NamesOk(self, Resolved(libs, |libs|))
    requires FAKE + FakeSize(c, page, self, libs) < Pow256(WordSize(c))
    ensures Chain(c, d, dp, FakeSize(c, page, self, libs), ListBase(page), 0,
                  Entries(c, self, Resolved(libs, |libs|)), 0)
  {
    hide U, Holds, Chain, Entries, NodesBytes, NamesOk, Pow256;
    var rs, n, base := Resolved(libs, |libs|), |libs| + 1, ListBase(page);
    var strs := base + ListSize(c, libs);
    var nodes := Nodes(c, base, strs, self, rs, n);
    ResolvedPrefix(libs, 0, |libs|);
    ListReads(c, d, dp, FakeSize(c, page, self, libs), base, strs, self, rs, nodes, 0);
  }
}
