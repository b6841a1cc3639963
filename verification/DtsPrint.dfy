/** `print_node`: the bracketed listing of a device tree, and reading it back. */
module DtsPrint {
  import opened Bytes
  import opened DeviceTree
  import opened DtsValue

  /** What is printed of a node's and a property's identity: the address only on request. */
  datatype Label = Label(addr: Option<nat>, name: string)
  datatype PropLine = PropLine(tag: Label, value: Value)

  /** The pieces of the listing: a tab, `name{`, a property line, an empty line, `};`. */
  datatype Token = Tab | Open(tag: Label) | Prop(line: PropLine) | Blank | Close

  /** The part of a tree that the listing shows. */
  datatype Outline = End | Item(tag: Label, props: seq<PropLine>, child: Outline, sibling: Outline)

  function LabelOf(withAddr: bool, addr: nat, name: string): Label {
    Label(if withAddr then Some(addr) else None, name)
  }

  function LineOf(withAddr: bool, symbol: bool, p: Property): PropLine {
    PropLine(LabelOf(withAddr, p.addr, p.name), Rendered(symbol, p.name, p.value))
  }

  function Lines(withAddr: bool, symbol: bool, ps: seq<Property>): seq<PropLine> {
    seq(|ps|, i requires 0 <= i < |ps| => LineOf(withAddr, symbol, ps[i]))
  }

  function Outlined(withAddr: bool, t: Tree): Outline
    decreases t
  {
    match t
    case Nil => End
    case Node(addr, _, fullName, _, props, c, s) =>
      Item(LabelOf(withAddr, addr, fullName), Lines(withAddr, IsSymbolNode(fullName), props),
           Outlined(withAddr, c), Outlined(withAddr, s))
  }

  function Tabs(n: nat): (ts: seq<Token>)
    ensures |ts| == n
  {
    seq(n, _ => Tab)
  }

  /** The first `k` property lines, one level deeper than their node. */
  function PropsTo(ps: seq<PropLine>, level: nat, k: nat): seq<Token>
    requires k <= |ps|
  {
    if k == 0 then [] else PropsTo(ps, level, k - 1) + (Tabs(level + 1) + [Prop(ps[k - 1])])
  }

  function Head(o: Outline, level: nat): seq<Token>
    requires o.Item?
  {
    Tabs(level) + [Open(o.tag)]
  }

  /** The children of a node, behind an empty line if there are any. */
  function Body(o: Outline, level: nat): seq<Token>
    requires o.Item?
    decreases o, 0
  {
    if o.child.End? then [] else [Blank] + Listing(o.child, level + 1)
  }

  /** The listing of a chain of siblings at `level`. */
  function Listing(o: Outline, level: nat): seq<Token>
    decreases o, 1
  {
    if o.End? then []
    else
      (Head(o, level) + PropsTo(o.props, level, |o.props|))
      + (Body(o, level) + ((Tabs(level) + [Close]) + Listing(o.sibling, level)))
  }

  class Printer {
    var out: seq<Token>

    constructor ()
      ensures out == []
    {
      out := [];
    }

    method PrintTabs(n: nat)
      modifies this
      ensures out == old(out) + Tabs(n)
    {
      ghost var was := out;
      assert was + Tabs(0) == was;
      for i := 0 to n
        invariant out == was + Tabs(i)
      {
        out := out + [Tab];
        assert Tabs(i) + [Tab] == Tabs(i + 1);
      }
    }

    /** `print_properties`. */
    method PrintProperties(props: seq<Property>, level: nat, symbol: bool, withAddr: bool)
      modifies this
      ensures out == old(out) + PropsTo(Lines(withAddr, symbol, props), level, |props|)
    {
      hide Tabs, Rendered, LabelOf;
      ghost var was, ps := out, Lines(withAddr, symbol, props);
      for i := 0 to |props|
        invariant out == was + PropsTo(ps, level, i)
      {
        PrintTabs(level + 1);
        var value := RenderValue(symbol, props[i].name, props[i].value);
        out := out + [Prop(PropLine(LabelOf(withAddr, props[i].addr, props[i].name), value))];
        assert ps[i] == LineOf(withAddr, symbol, props[i]);
      }
    }

    /** `print_node`; without the show flag it walks the tree and prints nothing. */
    method PrintNode(t: Tree, level: nat, show: bool, withAddr: bool)
      requires t.Node?
      modifies this
      ensures out == old(out) + Shown(show, Listing(Outlined(withAddr, t), level))
      decreases t, 1
    {
      hide Tabs, LabelOf, Lines, PropsTo, Listing, Body, Outlined, IsSymbolNode;
      ghost var was, o := out, Outlined(withAddr, t);
      OutlineParts(withAddr, t);
      ListingParts(o, level);
      var symbol := IsSymbolNode(t.fullName);
      if show {
        PrintTabs(level);
        out := out + [Open(LabelOf(withAddr, t.addr, t.fullName))];
        PrintProperties(t.props, level, symbol, withAddr);
        LinesLength(withAddr, symbol, t.props);
      }
      ghost var start := out;
      assert start == was + Shown(show, Head(o, level) + PropsTo(o.props, level, |o.props|));
      PrintChild(t, level, show, withAddr);
      ghost var inner := out;
      if show {
        PrintTabs(level);
        out := out + [Close];
      }
      ghost var closed := out;
      assert closed == inner + Shown(show, Tabs(level) + [Close]);
      PrintSibling(t, level, show, withAddr);
      Appended(show, was, Head(o, level) + PropsTo(o.props, level, |o.props|), Body(o, level),
               Tabs(level) + [Close], Listing(o.sibling, level));
    }

    method PrintChild(t: Tree, level: nat, show: bool, withAddr: bool)
      requires t.Node? && Outlined(withAddr, t).Item?
      modifies this
      ensures out == old(out) + Shown(show, Body(Outlined(withAddr, t), level))
      decreases t, 0
    {
      hide Listing, Body, Outlined;
      OutlineParts(withAddr, t);
      BodyParts(Outlined(withAddr, t), level);
      if t.child != Nil {
        if show {
          out := out + [Blank];
        }
        PrintNode(t.child, level + 1, show, withAddr);
      }
    }

    method PrintSibling(t: Tree, level: nat, show: bool, withAddr: bool)
      requires t.Node? && Outlined(withAddr, t).Item?
      modifies this
      ensures out == old(out) + Shown(show, Listing(Outlined(withAddr, t).sibling, level))
      decreases t, 0
    {
      hide Listing, Outlined;
      OutlineParts(withAddr, t);
      NothingListed(level);
      if t.sibling != Nil {
        PrintNode(t.sibling, level, show, withAddr);
      }
    }
  }

  lemma OutlineParts(withAddr: bool, t: Tree)
    requires t.Node?
    ensures Outlined(withAddr, t) == Item(LabelOf(withAddr, t.addr, t.fullName),
                                          Lines(withAddr, IsSymbolNode(t.fullName), t.props),
                                          Outlined(withAddr, t.child), Outlined(withAddr, t.sibling))
    ensures Outlined(withAddr, t.child).End? <==> t.child.Nil?
    ensures Outlined(withAddr, t.sibling).End? <==> t.sibling.Nil?
  {
  }

  /** What the show flag lets through. */
  ghost function Shown(show: bool, ts: seq<Token>): seq<Token> {
    if show then ts else []
  }

  lemma Appended(show: bool, w: seq<Token>, a: seq<Token>, b: seq<Token>, c: seq<Token>, d: seq<Token>)
    ensures (((w + Shown(show, a)) + Shown(show, b)) + Shown(show, c)) + Shown(show, d)
            == w + Shown(show, a + (b + (c + d)))
  {
  }

  lemma BodyParts(o: Outline, level: nat)
    requires o.Item?
    ensures Body(o, level) == if o.child.End? then [] else [Blank] + Listing(o.child, level + 1)
  {
    hide Listing;
  }

  lemma LinesLength(withAddr: bool, symbol: bool, ps: seq<Property>)
    ensures |Lines(withAddr, symbol, ps)| == |ps|
  {
  }

  // ---------------------------------------------------------------- reading a listing

  /** The first position from `i` on that is not a tab. */
  function SkipTabs(ts: seq<Token>, i: nat): (j: nat)
    ensures i <= j && (i <= |ts| ==> j <= |ts|)
    decreases |ts| - i
  {
    if i < |ts| && ts[i].Tab? then SkipTabs(ts, i + 1) else i
  }

  /** The property lines from `i` on, and where they end. */
  function ReadProps(ts: seq<Token>, i: nat): (r: (seq<PropLine>, nat))
    ensures i <= r.1
    decreases |ts| - i
  {
    var j := SkipTabs(ts, i);
    if j < |ts| && ts[j].Prop? then
      var (ps, k) := ReadProps(ts, j + 1);
      ([ts[j].line] + ps, k)
    else ([], i)
  }

  /** A reader that looks at brackets only: the chain of siblings that starts at `i`, and where it
      ends. */
  function Read(ts: seq<Token>, i: nat): (r: (Outline, nat))
    ensures i <= r.1
    decreases |ts| - i
  {
    var j := SkipTabs(ts, i);
    if j >= |ts| || !ts[j].Open? then (End, i)
    else
      var (props, k) := ReadProps(ts, j + 1);
      var b := if k < |ts| && ts[k].Blank? then k + 1 else k;
      var (child, c) := Read(ts, b);
      var e := SkipTabs(ts, c);
      if e >= |ts| || !ts[e].Close? then (End, i)
      else
        var (sibling, n) := Read(ts, e + 1);
        (Item(ts[j].tag, props, child, sibling), n)
  }

  /** The first of `n` tabs, or the token behind them. */
  lemma TabsFirst(ts: seq<Token>, i: nat, n: nat, x: Token)
    requires Holds(ts, i, Tabs(n) + [x])
    ensures i < |ts| && ts[i] == if n == 0 then x else Tab
    ensures n > 0 ==> Holds(ts, i + 1, Tabs(n - 1) + [x])
  {
    var xs := Tabs(n) + [x];
    assert Agrees(ts, i, xs, 0);
    if n > 0 {
      assert xs == [Tab] + (Tabs(n - 1) + [x]);
      hide Holds;
      HoldsConcat(ts, i, [Tab], Tabs(n - 1) + [x]);
    }
  }

  lemma SkipStep(ts: seq<Token>, i: nat)
    requires i < |ts|
    ensures SkipTabs(ts, i) == if ts[i].Tab? then SkipTabs(ts, i + 1) else i
  {
  }

  /** Behind `n` tabs comes `x`. */
  lemma {:induction false} AfterTabs(ts: seq<Token>, i: nat, n: nat, x: Token)
    requires Holds(ts, i, Tabs(n) + [x]) && !x.Tab?
    ensures SkipTabs(ts, i) == i + n && i + n < |ts| && ts[i + n] == x
    decreases n
  {
    hide Holds, Tabs, SkipTabs;
    TabsFirst(ts, i, n, x);
    SkipStep(ts, i);
    if n > 0 {
      AfterTabs(ts, i + 1, n - 1, x);
    }
  }

  /** What follows at `i` is neither a property nor an opening, tabs aside. */
  ghost predicate NotProp(ts: seq<Token>, i: nat) {
    var j := SkipTabs(ts, i); j < |ts| ==> !ts[j].Prop?
  }

  ghost predicate NotOpen(ts: seq<Token>, i: nat) {
    var j := SkipTabs(ts, i); j < |ts| ==> !ts[j].Open?
  }

  /** Property lines read back, from line `m` on. */
  ghost function PropsFrom(ps: seq<PropLine>, level: nat, m: nat): seq<Token>
    requires m <= |ps|
    decreases |ps| - m
  {
    if m == |ps| then [] else (Tabs(level + 1) + [Prop(ps[m])]) + PropsFrom(ps, level, m + 1)
  }

  lemma {:induction false} PropsSplit(ps: seq<PropLine>, level: nat, m: nat)
    requires m <= |ps|
    ensures PropsTo(ps, level, |ps|) == PropsTo(ps, level, m) + PropsFrom(ps, level, m)
    decreases |ps| - m
  {
    hide Tabs;
    if m < |ps| {
      PropsSplit(ps, level, m + 1);
    }
  }

  lemma {:induction false} PropsRead(ts: seq<Token>, i: nat, ps: seq<PropLine>, level: nat, m: nat)
    requires m <= |ps| && Holds(ts, i, PropsFrom(ps, level, m)) && NotProp(ts, i + |PropsFrom(ps, level, m)|)
    ensures ReadProps(ts, i) == (ps[m..], i + |PropsFrom(ps, level, m)|)
    decreases |ps| - m
  {
    hide Tabs, Holds, SkipTabs, ReadProps;
    if m < |ps| {
      HoldsConcat(ts, i, Tabs(level + 1) + [Prop(ps[m])], PropsFrom(ps, level, m + 1));
      AfterTabs(ts, i, level + 1, Prop(ps[m]));
      PropsRead(ts, i + level + 2, ps, level, m + 1);
      ReadPropsOne(ts, i);
      assert ps[m..] == [ps[m]] + ps[m + 1..];
    } else {
      ReadPropsNone(ts, i);
      assert ps[m..] == [];
    }
  }

  lemma ReadPropsOne(ts: seq<Token>, i: nat)
    requires SkipTabs(ts, i) < |ts| && ts[SkipTabs(ts, i)].Prop?
    ensures var j := SkipTabs(ts, i); var r := ReadProps(ts, j + 1);
            ReadProps(ts, i) == ([ts[j].line] + r.0, r.1)
  {
    hide SkipTabs;
  }

  lemma ReadPropsNone(ts: seq<Token>, i: nat)
    requires NotProp(ts, i)
    ensures ReadProps(ts, i) == ([], i)
  {
    hide SkipTabs;
  }

  /** The end of a node and the chain behind it. */
  function Rest(o: Outline, level: nat): seq<Token>
    requires o.Item?
  {
    (Tabs(level) + [Close]) + Listing(o.sibling, level)
  }

  /** Between the property lines and the closing bracket. */
  lemma BodyStart(ts: seq<Token>, i: nat, o: Outline, level: nat)
    requires o.Item? && Holds(ts, i, Body(o, level) + Rest(o, level))
    ensures NotProp(ts, i) && i < |ts|
    ensures ts[i].Blank? <==> o.child.Item?
  {
    hide Holds, Listing, Tabs;
    HoldsConcat(ts, i, Body(o, level), Rest(o, level));
    if o.child.End? {
      HoldsConcat(ts, i, Tabs(level) + [Close], Listing(o.sibling, level));
      AfterTabs(ts, i, level, Close);
      TabOrClose(ts, i, level);
    } else {
      HoldsConcat(ts, i, [Blank], Listing(o.child, level + 1));
      FirstOf(ts, i, Blank);
    }
  }

  lemma TabOrClose(ts: seq<Token>, i: nat, n: nat)
    requires SkipTabs(ts, i) == i + n < |ts| && ts[i + n] == Close
    ensures i < |ts| && !ts[i].Blank?
  {
  }

  lemma FirstOf(ts: seq<Token>, i: nat, x: Token)
    requires Holds(ts, i, [x])
    ensures i < |ts| && ts[i] == x
    ensures !x.Tab? ==> SkipTabs(ts, i) == i
  {
    assert Agrees(ts, i, [x], 0);
  }

  /** Reading the start of a node: its label and its properties. */
  lemma StartRead(ts: seq<Token>, i: nat, o: Outline, level: nat)
    requires o.Item? && Holds(ts, i, Listing(o, level))
    ensures var k := i + level + 1 + |PropsTo(o.props, level, |o.props|)|;
            && SkipTabs(ts, i) == i + level < |ts| && ts[i + level] == Open(o.tag)
            && ReadProps(ts, i + level + 1) == (o.props, k)
            && Holds(ts, k, Body(o, level) + Rest(o, level))
            && k < |ts| && (ts[k].Blank? <==> o.child.Item?)
  {
    hide Holds, Listing, Tabs, SkipTabs, PropsTo, PropsFrom, ReadProps, Body, Rest, NotProp;
    var ps := PropsTo(o.props, level, |o.props|);
    ListingParts(o, level);
    HoldsConcat(ts, i, Head(o, level) + ps, Body(o, level) + Rest(o, level));
    HoldsConcat(ts, i, Head(o, level), ps);
    AfterTabs(ts, i, level, Open(o.tag));
    BodyStart(ts, i + level + 1 + |ps|, o, level);
    PropsWhole(o.props, level);
    PropsRead(ts, i + level + 1, o.props, level, 0);
    assert o.props[0..] == o.props;
  }

  lemma PropsWhole(ps: seq<PropLine>, level: nat)
    ensures PropsTo(ps, level, |ps|) == PropsFrom(ps, level, 0)
  {
    PropsSplit(ps, level, 0);
    assert PropsTo(ps, level, 0) == [];
  }

  lemma ListingParts(o: Outline, level: nat)
    requires o.Item?
    ensures Listing(o, level)
            == (Head(o, level) + PropsTo(o.props, level, |o.props|)) + (Body(o, level) + Rest(o, level))
  {
    hide Head, PropsTo, Body, Tabs;
  }

  /** The listing loses no structure: reading it back by its brackets gives the same tree, whatever
      stands before it and behind it, as long as no further sibling follows. */
  lemma {:induction false} ReadsBack(ts: seq<Token>, i: nat, o: Outline, level: nat)
    requires Holds(ts, i, Listing(o, level)) && NotOpen(ts, i + |Listing(o, level)|)
    ensures Read(ts, i) == (o, i + |Listing(o, level)|)
    decreases o
  {
    hide Holds, Listing, Tabs, SkipTabs, PropsTo, ReadProps, Read, Head;
    if o.Item? {
      var ps := PropsTo(o.props, level, |o.props|);
      var k := i + level + 1 + |ps|;
      ListingParts(o, level);
      StartRead(ts, i, o, level);
      HoldsConcat(ts, k, Body(o, level), Rest(o, level));
      var c := k + |Body(o, level)|;
      HoldsConcat(ts, c, Tabs(level) + [Close], Listing(o.sibling, level));
      AfterTabs(ts, c, level, Close);
      ChildRead(ts, k, o, level);
      HeadLength(o, level);
      ReadsBack(ts, c + level + 1, o.sibling, level);
      ReadStep(ts, i, o, level, k, c, c + level);
    } else {
      NothingListed(level);
      ReadNothing(ts, i);
    }
  }

  lemma HeadLength(o: Outline, level: nat)
    requires o.Item?
    ensures |Head(o, level)| == level + 1
  {
  }

  lemma NothingListed(level: nat)
    ensures Listing(End, level) == []
  {
  }

  lemma ReadNothing(ts: seq<Token>, i: nat)
    requires NotOpen(ts, i)
    ensures Read(ts, i) == (End, i)
  {
  }

  /** The children read back. */
  lemma ChildRead(ts: seq<Token>, k: nat, o: Outline, level: nat)
    requires o.Item? && Holds(ts, k, Body(o, level))
    requires var e := k + |Body(o, level)|; SkipTabs(ts, e) == e + level < |ts| && ts[e + level] == Close
    ensures var b := if o.child.Item? then k + 1 else k; Read(ts, b) == (o.child, k + |Body(o, level)|)
    decreases o, 0
  {
    hide Holds, Listing, SkipTabs, Read;
    if o.child.Item? {
      HoldsConcat(ts, k, [Blank], Listing(o.child, level + 1));
      ReadsBack(ts, k + 1, o.child, level + 1);
    } else {
      ReadNothing(ts, k);
    }
  }

  lemma ReadStep(ts: seq<Token>, i: nat, o: Outline, level: nat, k: nat, c: nat, e: nat)
    requires o.Item? && SkipTabs(ts, i) == i + level < |ts| && ts[i + level] == Open(o.tag)
    requires ReadProps(ts, i + level + 1) == (o.props, k) && k < |ts| && (ts[k].Blank? <==> o.child.Item?)
    requires Read(ts, if o.child.Item? then k + 1 else k) == (o.child, c)
    requires SkipTabs(ts, c) == e < |ts| && ts[e].Close? && Read(ts, e + 1).0 == o.sibling
    ensures Read(ts, i) == (o, Read(ts, e + 1).1)
  {
    hide SkipTabs, ReadProps;
  }

  // ---------------------------------------------------------------- what is read back

  /** A property line says what the property is. */
  ghost predicate LineSays(l: PropLine, p: Property, withAddr: bool, symbol: bool) {
    && l.tag.name == p.name && l.tag.addr == (if withAddr then Some(p.addr) else None)
    && Says(l.value, symbol, p.name, p.value)
  }

  /** `o` is the tree `t`: names, addresses on request, all properties in order, children and
      siblings. In nodes of symbols and aliases all properties are strings. */
  ghost predicate Depicts(o: Outline, t: Tree, withAddr: bool)
    decreases t
  {
    match t
    case Nil => o.End?
    case Node(addr, _, fullName, _, props, c, s) =>
      && o.Item? && o.tag.name == fullName && o.tag.addr == (if withAddr then Some(addr) else None)
      && |o.props| == |props|
      && (forall i :: 0 <= i < |props| ==>
            LineSays(o.props[i], props[i], withAddr, Contains(fullName, "symbols") || Contains(fullName, "aliases")))
      && Depicts(o.child, c, withAddr) && Depicts(o.sibling, s, withAddr)
  }

  lemma LinesSay(withAddr: bool, symbol: bool, ps: seq<Property>, i: nat)
    requires i < |ps|
    ensures |Lines(withAddr, symbol, ps)| == |ps| && LineSays(Lines(withAddr, symbol, ps)[i], ps[i], withAddr, symbol)
  {
    hide Rendered, Says;
    RenderedSays(symbol, ps[i].name, ps[i].value);
  }

  lemma {:induction false} OutlineDepicts(withAddr: bool, t: Tree)
    ensures Depicts(Outlined(withAddr, t), t, withAddr)
    decreases t
  {
    hide Lines, LineSays, Contains;
    if t.Node? {
      var symbol := IsSymbolNode(t.fullName);
      LinesLength(withAddr, symbol, t.props);
      forall i | 0 <= i < |t.props|
        ensures LineSays(Lines(withAddr, symbol, t.props)[i], t.props[i], withAddr, symbol)
      {
        LinesSay(withAddr, symbol, t.props, i);
      }
      OutlineDepicts(withAddr, t.child);
      OutlineDepicts(withAddr, t.sibling);
    }
  }

  /** The whole listing of a tree reads back as that tree. */
  lemma RoundTrip(withAddr: bool, t: Tree, level: nat)
    ensures var (o, end) := Read(Listing(Outlined(withAddr, t), level), 0);
            Depicts(o, t, withAddr) && end == |Listing(Outlined(withAddr, t), level)|
  {
    hide Listing, Read, Outlined, SkipTabs, Depicts;
    var o := Outlined(withAddr, t);
    var ts := Listing(o, level);
    assert forall k :: 0 <= k < |ts| ==> Agrees(ts, 0, ts, k);
    PastEnd(ts);
    ReadsBack(ts, 0, o, level);
    OutlineDepicts(withAddr, t);
  }

  lemma PastEnd(ts: seq<Token>)
    ensures NotOpen(ts, |ts|)
  {
  }
}
