/** The device tree reader: a child/sibling tree read from memory and its two indexes. */
module DeviceTree {
  import opened Bytes

  datatype Property = Property(addr: nat, name: string, value: bytes)

  /** A `device_node` structure in the dump. */
  datatype RawNode = RawNode(name: string, fullName: string, props: seq<Property>, child: nat, sibling: nat)

  /** A chain of siblings as the reader links it; `Nil` is the null pointer. */
  datatype Tree =
    | Nil
    | Node(addr: nat, name: string, fullName: string, nodePath: string, props: seq<Property>, child: Tree,
           sibling: Tree)

  /** The readable nodes of the dump. */
  type Memory = map<nat, RawNode>

  /** The shape of the links below an address; memory without a shape has a cycle. */
  datatype Shape = Leaf | Fork(child: Shape, sibling: Shape)

  ghost predicate Shaped(mem: Memory, addr: nat, t: Shape)
    decreases t
  {
    match t
    case Leaf => addr !in mem
    case Fork(c, s) => addr in mem && Shaped(mem, mem[addr].child, c) && Shaped(mem, mem[addr].sibling, s)
  }

  /** The index key of a node: "/" for the root, else the parent's key, a slash and the name. */
  function KeyOf(root: nat, path: string, addr: nat, fullName: string): string {
    if addr == root then "/" else path + "/" + fullName
  }

  function FullNameOf(root: nat, addr: nat, fullName: string): string {
    if addr == root then "/" else fullName
  }

  /** The path a user gives: the key without its doubled slash, and nothing for the root. */
  function UserPath(key: string): string {
    if |key| >= 2 && key[0] == '/' && key[1] == '/' then key[1..] else ""
  }

  /** The tree below `addr`. */
  ghost function Built(mem: Memory, root: nat, path: string, addr: nat, t: Shape): (n: Tree)
    requires Shaped(mem, addr, t)
    ensures n.Nil? <==> addr !in mem
    ensures n.Node? ==> n.addr == addr && n.fullName == FullNameOf(root, addr, mem[addr].fullName)
    decreases t
  {
    match t
    case Leaf => Nil
    case Fork(c, s) =>
      var raw := mem[addr];
      var key := KeyOf(root, path, addr, raw.fullName);
      Node(addr, raw.name, FullNameOf(root, addr, raw.fullName), UserPath(key), raw.props,
           Built(mem, root, key, raw.child, c), Built(mem, root, path, raw.sibling, s))
  }

  /** What `read_node` enters into the two maps for one node. */
  datatype Visit = Visit(addr: nat, key: string, node: Tree)

  /** All visits of a chain in the order of their entry: children, then siblings, then the node. */
  ghost function Visits(root: nat, path: string, t: Tree): seq<Visit>
    decreases t
  {
    match t
    case Nil => []
    case Node(addr, _, fullName, _, _, c, s) =>
      var key := KeyOf(root, path, addr, fullName);
      Visits(root, key, c) + Visits(root, path, s) + [Visit(addr, key, t)]
  }

  ghost function AddrMap(m: map<nat, Tree>, vs: seq<Visit>, k: nat): map<nat, Tree>
    requires k <= |vs|
  {
    if k == 0 then m else AddrMap(m, vs, k - 1)[vs[k - 1].addr := vs[k - 1].node]
  }

  ghost function PathMap(m: map<string, Tree>, vs: seq<Visit>, k: nat): map<string, Tree>
    requires k <= |vs|
  {
    if k == 0 then m else PathMap(m, vs, k - 1)[vs[k - 1].key := vs[k - 1].node]
  }

  lemma {:induction false} MapsPrefix(a: map<nat, Tree>, p: map<string, Tree>, us: seq<Visit>, vs: seq<Visit>, k: nat)
    requires k <= |us|
    ensures AddrMap(a, us + vs, k) == AddrMap(a, us, k) && PathMap(p, us + vs, k) == PathMap(p, us, k)
  {
    if k > 0 {
      MapsPrefix(a, p, us, vs, k - 1);
    }
  }

  lemma {:induction false} MapsConcat(a: map<nat, Tree>, p: map<string, Tree>, us: seq<Visit>, vs: seq<Visit>, k: nat)
    requires k <= |vs|
    ensures AddrMap(a, us + vs, |us| + k) == AddrMap(AddrMap(a, us, |us|), vs, k)
    ensures PathMap(p, us + vs, |us| + k) == PathMap(PathMap(p, us, |us|), vs, k)
  {
    if k == 0 {
      MapsPrefix(a, p, us, vs, |us|);
    } else {
      MapsConcat(a, p, us, vs, k - 1);
      assert (us + vs)[|us| + k - 1] == vs[k - 1];
    }
  }

  /** Entering the visits of a node after those of its children and siblings. */
  lemma MapsNode(a: map<nat, Tree>, p: map<string, Tree>, cs: seq<Visit>, ss: seq<Visit>, v: Visit)
    ensures var vs := cs + ss + [v];
            var a2, p2 := AddrMap(AddrMap(a, cs, |cs|), ss, |ss|), PathMap(PathMap(p, cs, |cs|), ss, |ss|);
            AddrMap(a, vs, |vs|) == a2[v.addr := v.node] && PathMap(p, vs, |vs|) == p2[v.key := v.node]
  {
    MapsConcat(a, p, cs, ss, |ss|);
    MapsConcat(a, p, cs + ss, [v], 1);
    MapsOne(AddrMap(a, cs + ss, |cs + ss|), PathMap(p, cs + ss, |cs + ss|), v);
  }

  lemma MapsOne(a: map<nat, Tree>, p: map<string, Tree>, v: Visit)
    ensures AddrMap(a, [v], 1) == a[v.addr := v.node] && PathMap(p, [v], 1) == p[v.key := v.node]
  {
    assert AddrMap(a, [v], 0) == a && PathMap(p, [v], 0) == p;
  }

  /** Some character of `q` occurs in `s`: `s.find_last_of(q)` finds something. */
  predicate Shares(s: string, q: string) {
    exists i :: 0 <= i < |s| && s[i] in q
  }

  /** The three comparisons of `find_node_by_name`. */
  predicate Matches(n: Tree, q: string) {
    n.Node? && (n.fullName == q || n.name == q || n.nodePath == q)
  }

  class Devicetree {
    const mem: Memory
    const rootAddr: nat
    ghost const shape: Shape
    var root: Tree
    var byAddr: map<nat, Tree>
    var byPath: map<string, Tree>

    /** The maps are empty until the tree is read, and then hold the visits of the whole tree. */
    ghost predicate Valid()
      reads this
    {
      && Shaped(mem, rootAddr, shape)
      && if root.Nil? then byAddr == map[] && byPath == map[]
         else root == Whole() && byAddr == AddrIndex() && byPath == PathIndex()
    }

    ghost function Whole(): Tree
      requires Shaped(mem, rootAddr, shape)
    {
      Built(mem, rootAddr, "", rootAddr, shape)
    }

    ghost function AllVisits(): seq<Visit>
      requires Shaped(mem, rootAddr, shape)
    {
      Visits(rootAddr, "", Whole())
    }

    ghost function AddrIndex(): map<nat, Tree>
      requires Shaped(mem, rootAddr, shape)
    {
      AddrMap(map[], AllVisits(), |AllVisits()|)
    }

    ghost function PathIndex(): map<string, Tree>
      requires Shaped(mem, rootAddr, shape)
    {
      PathMap(map[], AllVisits(), |AllVisits()|)
    }

    constructor (mem: Memory, rootAddr: nat, ghost shape: Shape)
      requires Shaped(mem, rootAddr, shape)
      ensures Valid() && this.mem == mem && this.rootAddr == rootAddr && this.shape == shape && root.Nil?
    {
      this.mem, this.rootAddr, this.shape := mem, rootAddr, shape;
      root, byAddr, byPath := Nil, map[], map[];
    }

    /** `read_node`. */
    method ReadNode(path: string, addr: nat, ghost t: Shape) returns (node: Tree)
      requires Shaped(mem, addr, t)
      modifies this`byAddr, this`byPath
      ensures node == Built(mem, rootAddr, path, addr, t)
      ensures var vs := Visits(rootAddr, path, node);
              byAddr == AddrMap(old(byAddr), vs, |vs|) && byPath == PathMap(old(byPath), vs, |vs|)
      decreases t
    {
      hide AddrMap, PathMap, UserPath;
      if addr !in mem {
        MapsNone(byAddr, byPath);
        return Nil;
      }
      ghost var a, p := byAddr, byPath;
      var raw := mem[addr];
      var fullName, key := raw.fullName, "";
      if addr == rootAddr {
        fullName := "/";
        key := fullName;
      } else {
        key := path + "/" + fullName;
      }
      var child := ReadNode(key, raw.child, t.child);
      var sibling := ReadNode(path, raw.sibling, t.sibling);
      node := Node(addr, raw.name, fullName, UserPath(key), raw.props, child, sibling);
      byAddr := byAddr[addr := node];
      byPath := byPath[key := node];
      MapsNode(a, p, Visits(rootAddr, key, child), Visits(rootAddr, path, sibling), Visit(addr, key, node));
    }

    /** The tree is read on first use. */
    method Load()
      requires Valid()
      modifies this
      ensures Valid() && root == Whole() && byAddr == AddrIndex() && byPath == PathIndex()
    {
      hide AddrMap, PathMap, Built;
      if root.Nil? {
        root := ReadNode("", rootAddr, shape);
        MapsNone(map[], map[]);
      }
    }

    /** `find_node_by_addr`: the node that was read at that address, or null. */
    method FindNodeByAddr(addr: nat) returns (n: Tree)
      requires Valid()
      modifies this
      ensures Valid() && byAddr == AddrIndex()
      ensures n == if addr in byAddr then byAddr[addr] else Nil
    {
      hide AddrMap, PathMap, Built, Visits;
      Load();
      var keys := byAddr.Keys;
      while keys != {}
        invariant Valid() && byAddr == AddrIndex() && keys <= byAddr.Keys
        invariant addr in byAddr ==> addr in keys
        decreases |keys|
      {
        var k :| k in keys;
        if k == addr {
          return byAddr[k];
        }
        keys := keys - {k};
      }
      n := Nil;
    }

    /** `find_node_by_name`: one result for each key that passes the prefilter and whose node
        matches, in the order in which the map is walked. */
    method FindNodeByName(q: string) returns (res: seq<Tree>, ghost found: seq<string>)
      requires Valid()
      modifies this
      ensures Valid() && byPath == PathIndex() && |res| == |found|
      ensures forall i :: 0 <= i < |res| ==> found[i] in byPath && res[i] == byPath[found[i]]
      ensures forall i, j :: 0 <= i < j < |found| ==> found[i] != found[j]
      ensures forall k :: k in found <==> k in byPath && Shares(k, q) && Matches(byPath[k], q)
    {
      hide AddrMap, PathMap, Built, Visits, Shares, Matches;
      Load();
      res, found := [], [];
      var keys := byPath.Keys;
      while keys != {}
        invariant Valid() && byPath == PathIndex() && |res| == |found| && keys <= byPath.Keys
        invariant forall i :: 0 <= i < |res| ==> found[i] in byPath && res[i] == byPath[found[i]]
        invariant forall i, j :: 0 <= i < j < |found| ==> found[i] != found[j]
        invariant forall k :: k in found <==> k in byPath && k !in keys && Shares(k, q) && Matches(byPath[k], q)
        decreases |keys|
      {
        var key :| key in keys;
        keys := keys - {key};
        if Shares(key, q) && Matches(byPath[key], q) {
          res, found := res + [byPath[key]], found + [key];
        }
      }
    }
  }

  lemma MapsNone(a: map<nat, Tree>, p: map<string, Tree>)
    ensures AddrMap(a, [], 0) == a && PathMap(p, [], 0) == p
  {
  }
}
