/** The device tree indexes agree with the tree, and the name search finds exactly the matches. */
module DeviceIndex {
  import opened Bytes
  import opened DeviceTree

  /** "/a/b/c" for the names a, b, c. */
  ghost function Joined(ns: seq<string>): string {
    if ns == [] then "" else Joined(ns[..|ns| - 1]) + "/" + ns[|ns| - 1]
  }

  /** The index key of the node with those ancestor names. */
  ghost function Key(ns: seq<string>): string {
    "/" + Joined(ns)
  }

  ghost predicate AllSlashFree(ns: seq<string>) {
    forall i :: 0 <= i < |ns| ==> Without(ns[i], '/')
  }

  /** Some node of the sibling chain has that name. */
  ghost predicate HasName(t: Tree, x: string) {
    t.Node? && (t.fullName == x || HasName(t.sibling, x))
  }

  /** Below the root: names have no slash and siblings have different names. */
  ghost predicate Legal(root: nat, t: Tree) {
    t.Node? ==>
      && t.addr != root && Without(t.fullName, '/') && !HasName(t.sibling, t.fullName)
      && Legal(root, t.child) && Legal(root, t.sibling)
  }

  /** The ancestor names of each visited node, in the order of `Visits`. */
  ghost function Names(pre: seq<string>, t: Tree): seq<seq<string>>
    decreases t
  {
    match t
    case Nil => []
    case Node(_, _, fullName, _, _, c, s) => Names(pre + [fullName], c) + Names(pre, s) + [pre + [fullName]]
  }

  // ---------------------------------------------------------------- paths are injective

  lemma {:induction false} JoinedInjective(a: seq<string>, b: seq<string>)
    requires AllSlashFree(a) && AllSlashFree(b) && Joined(a) == Joined(b)
    ensures a == b
    decreases |a|
  {
    if a != [] && b != [] {
      var p, q := a[..|a| - 1], b[..|b| - 1];
      SplitLast(Joined(p), a[|a| - 1], Joined(q), b[|b| - 1], '/');
      JoinedInjective(p, q);
      assert a == p + [a[|a| - 1]] && b == q + [b[|b| - 1]];
    } else {
      assert |Joined(a)| == 0 || |Joined(b)| == 0;
    }
  }

  lemma JoinedMore(ns: seq<string>, x: string)
    ensures Joined(ns + [x]) == Joined(ns) + "/" + x
  {
    assert (ns + [x])[..|ns|] == ns;
  }

  /** A node's ancestor names extend the prefix by the name of one of the siblings. */
  lemma {:induction false} NamesExtend(root: nat, pre: seq<string>, t: Tree, i: nat)
    requires Legal(root, t) && AllSlashFree(pre) && i < |Names(pre, t)|
    ensures var ns := Names(pre, t)[i]; |pre| < |ns| && ns[..|pre|] == pre && HasName(t, ns[|pre|]) && AllSlashFree(ns)
    decreases t
  {
    var own := pre + [t.fullName];
    var cs, ss := Names(own, t.child), Names(pre, t.sibling);
    if i < |cs| {
      NamesExtend(root, own, t.child, i);
      var ns := cs[i];
      assert ns[|pre|] == ns[..|own|][|pre|];
      assert ns[..|pre|] == ns[..|own|][..|pre|];
    } else if i < |cs| + |ss| {
      NamesExtend(root, pre, t.sibling, i - |cs|);
    }
  }

  lemma {:induction false} NamesDiffer(root: nat, pre: seq<string>, t: Tree, i: nat, j: nat)
    requires Legal(root, t) && AllSlashFree(pre) && i < j < |Names(pre, t)|
    ensures Names(pre, t)[i] != Names(pre, t)[j]
    decreases t
  {
    hide HasName, Without;
    var own := pre + [t.fullName];
    var cs, ss := Names(own, t.child), Names(pre, t.sibling);
    if i < |cs| {
      NamesExtend(root, own, t.child, i);
      assert cs[i][|pre|] == cs[i][..|own|][|pre|];
      if j < |cs| {
        NamesDiffer(root, own, t.child, i, j);
      } else if j < |cs| + |ss| {
        NamesExtend(root, pre, t.sibling, j - |cs|);
      }
    } else if i < |cs| + |ss| {
      NamesExtend(root, pre, t.sibling, i - |cs|);
      if j < |cs| + |ss| {
        NamesDiffer(root, pre, t.sibling, i - |cs|, j - |cs|);
      }
    }
  }

  /** The key of each visit is that of its ancestor names. */
  lemma {:induction false} KeysAre(root: nat, pre: seq<string>, t: Tree, i: nat)
    requires Legal(root, t)
    ensures |Visits(root, Key(pre), t)| == |Names(pre, t)|
    ensures i < |Names(pre, t)| ==> Visits(root, Key(pre), t)[i].key == Key(Names(pre, t)[i])
    decreases t
  {
    hide HasName, Without, Joined;
    if t.Node? {
      var own := pre + [t.fullName];
      JoinedMore(pre, t.fullName);
      assert Key(own) == KeyOf(root, Key(pre), t.addr, t.fullName);
      KeysAre(root, own, t.child, i);
      KeysAre(root, pre, t.sibling, if i < |Names(own, t.child)| then 0 else i - |Names(own, t.child)|);
    }
  }

  // ---------------------------------------------------------------- the whole tree

  /** What reading a dump with root `root` gives: the root node with its legal subtree. */
  ghost predicate LegalTree(root: nat, t: Tree) {
    t.Node? && t.addr == root && t.fullName == "/" && t.sibling.Nil? && Legal(root, t.child)
  }

  /** The ancestor names of every node of the tree; the root has none. */
  ghost function AllNames(t: Tree): seq<seq<string>>
    requires t.Node?
  {
    Names([], t.child) + [[]]
  }

  lemma TreeVisits(root: nat, t: Tree, i: nat)
    requires LegalTree(root, t)
    ensures |Visits(root, "", t)| == |AllNames(t)|
    ensures i < |AllNames(t)| ==> Visits(root, "", t)[i].key == Key(AllNames(t)[i]) && AllSlashFree(AllNames(t)[i])
  {
    hide Legal, Names, HasName, Without;
    assert Key([]) == "/";
    KeysAre(root, [], t.child, i);
    if i < |Names([], t.child)| {
      NamesExtend(root, [], t.child, i);
    }
  }

  lemma NamesUnique(root: nat, t: Tree, i: nat, j: nat)
    requires LegalTree(root, t) && i < j < |AllNames(t)|
    ensures AllNames(t)[i] != AllNames(t)[j]
  {
    hide Legal, Names, HasName, Without;
    if j < |Names([], t.child)| {
      NamesDiffer(root, [], t.child, i, j);
    } else {
      NamesExtend(root, [], t.child, i);
    }
  }

  /** Different nodes have different keys. */
  lemma KeysDiffer(root: nat, t: Tree, i: nat, j: nat)
    requires LegalTree(root, t) && i < j < |Visits(root, "", t)|
    ensures Visits(root, "", t)[i].key != Visits(root, "", t)[j].key
  {
    hide Legal, Visits, AllSlashFree, AllNames, Joined;
    TreeVisits(root, t, i);
    TreeVisits(root, t, j);
    NamesUnique(root, t, i, j);
    var a, b := AllNames(t)[i], AllNames(t)[j];
    if Key(a) == Key(b) {
      assert Joined(a) == Key(a)[1..] && Joined(b) == Key(b)[1..];
      JoinedInjective(a, b);
    }
  }

  // ---------------------------------------------------------------- the maps

  ghost predicate KeysDistinct(vs: seq<Visit>) {
    forall i, j :: 0 <= i < j < |vs| ==> vs[i].key != vs[j].key
  }

  /** No node is linked twice. */
  ghost predicate AddrsDistinct(vs: seq<Visit>) {
    forall i, j :: 0 <= i < j < |vs| ==> vs[i].addr != vs[j].addr
  }

  lemma {:induction false} PathMapHas(vs: seq<Visit>, k: nat, i: nat)
    requires KeysDistinct(vs) && i < k <= |vs|
    ensures vs[i].key in PathMap(map[], vs, k) && PathMap(map[], vs, k)[vs[i].key] == vs[i].node
    decreases k
  {
    if i < k - 1 {
      PathMapHas(vs, k - 1, i);
    }
  }

  lemma {:induction false} AddrMapHas(vs: seq<Visit>, k: nat, i: nat)
    requires AddrsDistinct(vs) && i < k <= |vs|
    ensures vs[i].addr in AddrMap(map[], vs, k) && AddrMap(map[], vs, k)[vs[i].addr] == vs[i].node
    decreases k
  {
    if i < k - 1 {
      AddrMapHas(vs, k - 1, i);
    }
  }

  /** The maps hold nothing but visits. */
  lemma {:induction false} PathMapFrom(vs: seq<Visit>, k: nat, key: string) returns (i: nat)
    requires k <= |vs| && key in PathMap(map[], vs, k)
    ensures i < k && vs[i].key == key && PathMap(map[], vs, k)[key] == vs[i].node
    decreases k
  {
    if vs[k - 1].key == key {
      i := k - 1;
    } else {
      i := PathMapFrom(vs, k - 1, key);
    }
  }

  lemma {:induction false} AddrMapFrom(vs: seq<Visit>, k: nat, addr: nat) returns (i: nat)
    requires k <= |vs| && addr in AddrMap(map[], vs, k)
    ensures i < k && vs[i].addr == addr && AddrMap(map[], vs, k)[addr] == vs[i].node
    decreases k
  {
    if vs[k - 1].addr == addr {
      i := k - 1;
    } else {
      i := AddrMapFrom(vs, k - 1, addr);
    }
  }

  /** `n` is a node of the tree. */
  ghost predicate Part(t: Tree, n: Tree) {
    t.Node? && n.Node? && (n == t || Part(t.child, n) || Part(t.sibling, n))
  }

  /** Every node of the tree is visited, under its own address. */
  lemma {:induction false} PartVisited(root: nat, path: string, t: Tree, n: Tree) returns (i: nat)
    requires Part(t, n)
    ensures i < |Visits(root, path, t)| && Visits(root, path, t)[i].node == n && Visits(root, path, t)[i].addr == n.addr
    decreases t
  {
    var key := KeyOf(root, path, t.addr, t.fullName);
    var cs, ss := Visits(root, key, t.child), Visits(root, path, t.sibling);
    if n == t {
      i := |cs| + |ss|;
    } else if Part(t.child, n) {
      i := PartVisited(root, key, t.child, n);
    } else {
      var k := PartVisited(root, path, t.sibling, n);
      i := |cs| + k;
    }
  }

  lemma {:induction false} VisitedPart(root: nat, path: string, t: Tree, i: nat)
    requires i < |Visits(root, path, t)|
    ensures Part(t, Visits(root, path, t)[i].node) && Visits(root, path, t)[i].node.Node?
    ensures Visits(root, path, t)[i].node.addr == Visits(root, path, t)[i].addr
    decreases t
  {
    var key := KeyOf(root, path, t.addr, t.fullName);
    var cs, ss := Visits(root, key, t.child), Visits(root, path, t.sibling);
    if i < |cs| {
      VisitedPart(root, key, t.child, i);
    } else if i < |cs| + |ss| {
      VisitedPart(root, path, t.sibling, i - |cs|);
    }
  }

  ghost function ByPath(root: nat, t: Tree): map<string, Tree> {
    PathMap(map[], Visits(root, "", t), |Visits(root, "", t)|)
  }

  ghost function ByAddr(root: nat, t: Tree): map<nat, Tree> {
    AddrMap(map[], Visits(root, "", t), |Visits(root, "", t)|)
  }

  /** Every node that was read is in the path map under its own key. */
  lemma PathIndexAgrees(root: nat, t: Tree, i: nat)
    requires LegalTree(root, t) && i < |Visits(root, "", t)|
    ensures var v := Visits(root, "", t)[i]; v.key in ByPath(root, t) && ByPath(root, t)[v.key] == v.node
  {
    hide LegalTree, Visits, PathMap;
    var vs := Visits(root, "", t);
    forall j, k | 0 <= j < k < |vs| ensures vs[j].key != vs[k].key {
      KeysDiffer(root, t, j, k);
    }
    PathMapHas(vs, |vs|, i);
  }

  /** The address map answers for exactly the nodes of the tree. */
  lemma AddrIndexAgrees(root: nat, t: Tree, addr: nat)
    requires AddrsDistinct(Visits(root, "", t))
    ensures addr in ByAddr(root, t) ==>
              var n := ByAddr(root, t)[addr]; Part(t, n) && n.Node? && n.addr == addr
    ensures forall n :: Part(t, n) && n.addr == addr ==> addr in ByAddr(root, t) && ByAddr(root, t)[addr] == n
  {
    hide Visits, AddrMap, AddrsDistinct;
    var vs := Visits(root, "", t);
    if addr in ByAddr(root, t) {
      var i := AddrMapFrom(vs, |vs|, addr);
      VisitedPart(root, "", t, i);
    }
    forall n | Part(t, n) && n.addr == addr ensures addr in ByAddr(root, t) && ByAddr(root, t)[addr] == n {
      var i := PartVisited(root, "", t, n);
      AddrMapHas(vs, |vs|, i);
    }
  }

  // ---------------------------------------------------------------- node paths

  /** What `read_node` stores in every node: the user path of its key. */
  ghost predicate Stored(root: nat, path: string, t: Tree)
    decreases t
  {
    t.Node? ==>
      var key := KeyOf(root, path, t.addr, t.fullName);
      && t.nodePath == UserPath(key) && (t.addr == root ==> t.fullName == "/")
      && Stored(root, key, t.child) && Stored(root, path, t.sibling)
  }

  lemma {:induction false} BuiltStored(mem: Memory, root: nat, path: string, addr: nat, t: Shape)
    requires Shaped(mem, addr, t)
    ensures Stored(root, path, Built(mem, root, path, addr, t))
    decreases t
  {
    if t.Fork? {
      var key := KeyOf(root, path, addr, mem[addr].fullName);
      BuiltStored(mem, root, key, mem[addr].child, t.child);
      BuiltStored(mem, root, path, mem[addr].sibling, t.sibling);
    }
  }

  /** The reader linked the node at `link` under `n`, or nothing if no node can be read there. */
  ghost predicate LinkedTo(mem: Memory, link: nat, n: Tree) {
    (n.Nil? <==> link !in mem) && (n.Node? ==> n.addr == link)
  }

  /** The tree mirrors the dump: every node has the names, the properties and the links of the
      structure at its address; only the root is renamed. */
  lemma {:induction false} TreeMirrorsMemory(mem: Memory, root: nat, path: string, addr: nat, t: Shape, n: Tree)
    requires Shaped(mem, addr, t) && Part(Built(mem, root, path, addr, t), n)
    ensures n.addr in mem
    ensures var raw := mem[n.addr];
            && n.name == raw.name && n.props == raw.props
            && n.fullName == (if n.addr == root then "/" else raw.fullName)
            && LinkedTo(mem, raw.child, n.child) && LinkedTo(mem, raw.sibling, n.sibling)
    decreases t
  {
    var key := KeyOf(root, path, addr, mem[addr].fullName);
    if Part(Built(mem, root, key, mem[addr].child, t.child), n) {
      TreeMirrorsMemory(mem, root, key, mem[addr].child, t.child, n);
    } else if Part(Built(mem, root, path, mem[addr].sibling, t.sibling), n) {
      TreeMirrorsMemory(mem, root, path, mem[addr].sibling, t.sibling, n);
    }
  }

  /** The key ends with the node's name, and the node's path is derived from it. */
  ghost predicate KeyFits(v: Visit) {
    && v.node.Node? && v.node.nodePath == UserPath(v.key) && |v.node.fullName| <= |v.key|
    && v.key[|v.key| - |v.node.fullName|..] == v.node.fullName
  }

  /** A visited node's key ends with its name, and its path is derived from the key. */
  lemma {:induction false} VisitStored(root: nat, path: string, t: Tree, i: nat)
    requires Stored(root, path, t) && i < |Visits(root, path, t)|
    ensures KeyFits(Visits(root, path, t)[i])
    decreases t
  {
    hide UserPath;
    var key := KeyOf(root, path, t.addr, t.fullName);
    var cs, ss := Visits(root, key, t.child), Visits(root, path, t.sibling);
    if i < |cs| {
      VisitStored(root, key, t.child, i);
    } else if i < |cs| + |ss| {
      VisitStored(root, path, t.sibling, i - |cs|);
    }
  }

  /** The node path is the slash-joined list of ancestor names; the root's is empty. */
  lemma NodePaths(root: nat, t: Tree, i: nat)
    requires LegalTree(root, t) && Stored(root, "", t) && i < |Visits(root, "", t)|
    ensures |AllNames(t)| == |Visits(root, "", t)| && Visits(root, "", t)[i].node.Node?
    ensures Visits(root, "", t)[i].node.nodePath == Joined(AllNames(t)[i])
  {
    hide Legal, Stored, Visits, AllNames, AllSlashFree, Without, Joined, Key, UserPath;
    TreeVisits(root, t, i);
    VisitStored(root, "", t, i);
    UserPathOfKey(AllNames(t)[i]);
  }

  lemma UserPathOfKey(ns: seq<string>)
    ensures UserPath(Key(ns)) == Joined(ns)
  {
    hide Joined;
    JoinedStarts(ns);
    assert Key(ns)[1..] == Joined(ns);
  }

  lemma {:induction false} JoinedStarts(ns: seq<string>)
    ensures ns == [] <==> Joined(ns) == ""
    ensures ns != [] ==> Joined(ns)[0] == '/'
    decreases |ns|
  {
    if ns != [] {
      JoinedStarts(ns[..|ns| - 1]);
    }
  }

  // ---------------------------------------------------------------- the name search

  lemma SharesPart(s: string, x: string, at: nat, q: string, i: nat)
    requires at + |x| <= |s| && s[at..at + |x|] == x && i < |x| && x[i] in q
    ensures Shares(s, q)
  {
    assert s[at + i] == s[at..at + |x|][i];
  }

  lemma SharesNothing(s: string)
    ensures !Shares(s, "")
  {
  }

  lemma SharesPath(key: string)
    requires UserPath(key) != ""
    ensures Shares(key, UserPath(key))
  {
    hide Shares;
    SharesPart(key, UserPath(key), 1, UserPath(key), 0);
  }

  /** What the search returns: the nodes whose full name or path is the query, and those whose short
      name is the query unless it shares no character with the key; and nothing for the empty query. */
  lemma PrefilterExact(root: nat, path: string, t: Tree, i: nat, q: string)
    requires Stored(root, path, t) && i < |Visits(root, path, t)|
    ensures var v := Visits(root, path, t)[i];
            && v.node.Node?
            && ((Shares(v.key, q) && Matches(v.node, q))
                <==> q != "" && (|| v.node.fullName == q
                                 || v.node.nodePath == q
                                 || (v.node.name == q && Shares(v.key, v.node.name))))
  {
    hide Stored, Visits, Shares, UserPath;
    VisitStored(root, path, t, i);
    var v := Visits(root, path, t)[i];
    SharesNothing(v.key);
    if q != "" && v.node.fullName == q {
      SharesPart(v.key, q, |v.key| - |q|, q, 0);
    }
    if q != "" && v.node.nodePath == q {
      SharesPath(v.key);
    }
  }

  /** The prefilter drops no match of a non-empty query when the short name starts the full name. */
  lemma PrefilterSafe(root: nat, path: string, t: Tree, i: nat, q: string)
    requires Stored(root, path, t) && i < |Visits(root, path, t)| && Visits(root, path, t)[i].node.Node?
    requires Visits(root, path, t)[i].node.name <= Visits(root, path, t)[i].node.fullName
    ensures var v := Visits(root, path, t)[i];
            Shares(v.key, q) && Matches(v.node, q) <==> q != "" && Matches(v.node, q)
  {
    hide Stored, Visits, Shares, UserPath;
    PrefilterExact(root, path, t, i, q);
    VisitStored(root, path, t, i);
    var v := Visits(root, path, t)[i];
    if q != "" && v.node.name == q {
      SharesPart(v.key, v.node.fullName, |v.key| - |v.node.fullName|, q, 0);
    }
  }

  /** Every short name starts its node's full name. */
  ghost predicate ShortNames(t: Tree) {
    t.Node? ==> t.name <= t.fullName && ShortNames(t.child) && ShortNames(t.sibling)
  }

  lemma {:induction false} ShortVisit(root: nat, path: string, t: Tree, i: nat)
    requires ShortNames(t) && i < |Visits(root, path, t)|
    ensures var n := Visits(root, path, t)[i].node; n.Node? && n.name <= n.fullName
    decreases t
  {
    var key := KeyOf(root, path, t.addr, t.fullName);
    var cs, ss := Visits(root, key, t.child), Visits(root, path, t.sibling);
    if i < |cs| {
      ShortVisit(root, key, t.child, i);
    } else if i < |cs| + |ss| {
      ShortVisit(root, path, t.sibling, i - |cs|);
    }
  }

  /** The search hits `n` under some key. */
  ghost predicate Hit(m: map<string, Tree>, q: string, n: Tree) {
    exists k :: k in m && m[k] == n && Shares(k, q) && Matches(m[k], q)
  }

  /** `find_node_by_name` returns exactly the nodes of the tree that match a non-empty query. */
  lemma SearchExact(root: nat, t: Tree, q: string, n: Tree)
    requires LegalTree(root, t) && Stored(root, "", t) && ShortNames(t)
    ensures Hit(ByPath(root, t), q, n) <==>
            Part(t, n) && q != "" && (n.fullName == q || n.name == q || n.nodePath == q)
  {
    hide LegalTree, Stored, ShortNames, Visits, PathMap, Shares;
    var m, vs := ByPath(root, t), Visits(root, "", t);
    if Hit(m, q, n) {
      var k :| k in m && m[k] == n && Shares(k, q) && Matches(m[k], q);
      var i := PathMapFrom(vs, |vs|, k);
      VisitedPart(root, "", t, i);
      ShortVisit(root, "", t, i);
      PrefilterSafe(root, "", t, i, q);
    }
    if Part(t, n) && q != "" && Matches(n, q) {
      var i := PartVisited(root, "", t, n);
      ShortVisit(root, "", t, i);
      PrefilterSafe(root, "", t, i, q);
      PathIndexAgrees(root, t, i);
      assert vs[i].key in m && m[vs[i].key] == n;
    }
  }

  /** The list that `FindNodeByName` promises holds exactly the matching nodes. */
  lemma ResultExact(root: nat, t: Tree, q: string, res: seq<Tree>, found: seq<string>, n: Tree)
    requires LegalTree(root, t) && Stored(root, "", t) && ShortNames(t) && |res| == |found|
    requires var m := ByPath(root, t);
             && (forall i :: 0 <= i < |res| ==> found[i] in m && res[i] == m[found[i]])
             && (forall k :: k in found <==> k in m && Shares(k, q) && Matches(m[k], q))
    ensures n in res <==> Part(t, n) && q != "" && (n.fullName == q || n.name == q || n.nodePath == q)
  {
    hide LegalTree, Stored, ShortNames, ByPath, Shares, Matches;
    var m := ByPath(root, t);
    SearchExact(root, t, q, n);
    if n in res {
      var i :| 0 <= i < |res| && res[i] == n;
      assert found[i] in found;
      assert Hit(m, q, n);
    }
    if Hit(m, q, n) {
      var k :| k in m && m[k] == n && Shares(k, q) && Matches(m[k], q);
      var i :| 0 <= i < |found| && found[i] == k;
      assert res[i] == n;
    }
  }

  /** A search by name on a legal tree whose short names start the full names: the result is exactly
      the nodes of the dump's tree that match a non-empty query. */
  method NodesNamed(d: Devicetree, q: string) returns (res: seq<Tree>)
    requires d.Valid() && LegalTree(d.rootAddr, d.Whole()) && ShortNames(d.Whole())
    modifies d
    ensures d.Valid()
    ensures forall n :: n in res <==>
              Part(d.Whole(), n) && q != "" && (n.fullName == q || n.name == q || n.nodePath == q)
  {
    hide LegalTree, ShortNames, Matches, Stored, Shares, Visits, Built;
    ghost var found;
    res, found := d.FindNodeByName(q);
    BuiltStored(d.mem, d.rootAddr, "", d.rootAddr, d.shape);
    forall n
      ensures n in res <==> Part(d.Whole(), n) && q != "" && (n.fullName == q || n.name == q || n.nodePath == q)
    {
      ResultExact(d.rootAddr, d.Whole(), q, res, found, n);
    }
  }

  /** A short name that shares no character with its key is never found. */
  lemma DroppedMatch()
    ensures var n := Node(2, "b", "a", "/a", [], Nil, Nil);
            var t := Node(1, "", "/", "", [], n, Nil);
            LegalTree(1, t) && Stored(1, "", t) && Part(t, n) && Matches(n, "b") && !Hit(ByPath(1, t), "b", n)
  {
    var n := Node(2, "b", "a", "/a", [], Nil, Nil);
    var t := Node(1, "", "/", "", [], n, Nil);
    assert Visits(1, "//a", Nil) == [] && Visits(1, "/", Nil) == [];
    assert KeyOf(1, "/", 2, "a") == "//a";
    assert Visits(1, "/", n) == [Visit(2, "//a", n)];
    var vs := Visits(1, "", t);
    assert vs == [Visit(2, "//a", n), Visit(1, "/", t)];
    assert !Shares("//a", "b") && !Shares("/", "b");
    forall k | k in ByPath(1, t) ensures !Shares(k, "b") {
      hide Shares, PathMap;
      var i := PathMapFrom(vs, |vs|, k);
    }
  }
}
