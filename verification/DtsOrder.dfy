/** The lines of the listing: every node once, in pre-order, each line indented by its depth. */
module DtsOrder {
  import opened Bytes
  import opened DtsPrint

  /** A line: its token and the number of tabs before it. */
  datatype Line = Line(token: Token, tabs: nat)

  /** The lines from `i` on; `tabs` were already passed. */
  function LinesFrom(ts: seq<Token>, i: nat, tabs: nat): seq<Line>
    decreases |ts| - i
  {
    if i >= |ts| then []
    else if ts[i].Tab? then LinesFrom(ts, i + 1, tabs + 1)
    else [Line(ts[i], tabs)] + LinesFrom(ts, i + 1, 0)
  }

  /** The property lines from `m` on. */
  function PropLines(ps: seq<PropLine>, tabs: nat, m: nat): seq<Line>
    requires m <= |ps|
    decreases |ps| - m
  {
    if m == |ps| then [] else [Line(Prop(ps[m]), tabs)] + PropLines(ps, tabs, m + 1)
  }

  /** The lines that a tree at `depth` should have: the opening bracket, the properties one deeper, an
      empty line and the children one deeper if there are any, the closing bracket, the siblings. */
  function TreeLines(o: Outline, depth: nat): seq<Line>
    decreases o, 0
  {
    if o.End? then []
    else
      ([Line(Open(o.tag), depth)] + PropLines(o.props, depth + 1, 0))
      + (ChildLines(o.child, depth) + ([Line(Close, depth)] + TreeLines(o.sibling, depth)))
  }

  function ChildLines(child: Outline, depth: nat): seq<Line>
    decreases child, 1
  {
    if child.End? then [] else [Line(Blank, 0)] + TreeLines(child, depth + 1)
  }

  lemma {:induction false} LineAt(ts: seq<Token>, i: nat, n: nat, x: Token, tabs: nat)
    requires Holds(ts, i, Tabs(n) + [x]) && !x.Tab?
    ensures LinesFrom(ts, i, tabs) == [Line(x, tabs + n)] + LinesFrom(ts, i + n + 1, 0)
    decreases n
  {
    hide Holds, Tabs, LinesFrom;
    TabsFirst(ts, i, n, x);
    LinesStep(ts, i, tabs);
    if n > 0 {
      LineAt(ts, i + 1, n - 1, x, tabs + 1);
    }
  }

  lemma LinesStep(ts: seq<Token>, i: nat, tabs: nat)
    requires i < |ts|
    ensures LinesFrom(ts, i, tabs)
            == if ts[i].Tab? then LinesFrom(ts, i + 1, tabs + 1) else [Line(ts[i], tabs)] + LinesFrom(ts, i + 1, 0)
  {
  }

  lemma {:induction false} PropsLined(ts: seq<Token>, i: nat, ps: seq<PropLine>, level: nat, m: nat)
    requires m <= |ps| && Holds(ts, i, PropsFrom(ps, level, m))
    ensures LinesFrom(ts, i, 0) == PropLines(ps, level + 1, m) + LinesFrom(ts, i + |PropsFrom(ps, level, m)|, 0)
    decreases |ps| - m
  {
    hide Tabs, Holds, LinesFrom;
    if m < |ps| {
      HoldsConcat(ts, i, Tabs(level + 1) + [Prop(ps[m])], PropsFrom(ps, level, m + 1));
      LineAt(ts, i, level + 1, Prop(ps[m]), 0);
      PropsLined(ts, i + level + 2, ps, level, m + 1);
    }
  }

  /** The opening bracket of a node and its properties. */
  lemma StartLined(ts: seq<Token>, i: nat, o: Outline, level: nat)
    requires o.Item? && Holds(ts, i, Head(o, level) + PropsTo(o.props, level, |o.props|))
    ensures LinesFrom(ts, i, 0)
            == ([Line(Open(o.tag), level)] + PropLines(o.props, level + 1, 0))
               + LinesFrom(ts, i + level + 1 + |PropsTo(o.props, level, |o.props|)|, 0)
  {
    hide Tabs, Holds, LinesFrom, PropsTo, PropsFrom, PropLines;
    HoldsConcat(ts, i, Head(o, level), PropsTo(o.props, level, |o.props|));
    LineAt(ts, i, level, Open(o.tag), 0);
    PropsWhole(o.props, level);
    PropsLined(ts, i + level + 1, o.props, level, 0);
  }

  lemma BodyLined(ts: seq<Token>, i: nat, o: Outline, level: nat)
    requires o.Item? && Holds(ts, i, Body(o, level))
    ensures LinesFrom(ts, i, 0) == ChildLines(o.child, level) + LinesFrom(ts, i + |Body(o, level)|, 0)
    decreases o, 0
  {
    hide Holds, Listing, LinesFrom, TreeLines;
    if o.child.Item? {
      HoldsConcat(ts, i, [Blank], Listing(o.child, level + 1));
      BlankLined(ts, i);
      ListingLined(ts, i + 1, o.child, level + 1);
    }
  }

  lemma BlankLined(ts: seq<Token>, i: nat)
    requires Holds(ts, i, [Blank])
    ensures LinesFrom(ts, i, 0) == [Line(Blank, 0)] + LinesFrom(ts, i + 1, 0)
  {
    FirstOf(ts, i, Blank);
  }

  lemma NoLines(depth: nat)
    ensures TreeLines(End, depth) == []
  {
  }

  lemma TreeParts(o: Outline, depth: nat)
    requires o.Item?
    ensures TreeLines(o, depth)
            == ([Line(Open(o.tag), depth)] + PropLines(o.props, depth + 1, 0))
               + (ChildLines(o.child, depth) + ([Line(Close, depth)] + TreeLines(o.sibling, depth)))
  {
    hide PropLines, ChildLines;
  }

  lemma {:induction false} ListingLined(ts: seq<Token>, i: nat, o: Outline, level: nat)
    requires Holds(ts, i, Listing(o, level))
    ensures LinesFrom(ts, i, 0) == TreeLines(o, level) + LinesFrom(ts, i + |Listing(o, level)|, 0)
    decreases o, 1
  {
    hide Holds, Listing, LinesFrom, Tabs, PropsTo, Body, Head, TreeLines, PropLines, ChildLines;
    NothingListed(level);
    NoLines(level);
    if o.Item? {
      var ps := PropsTo(o.props, level, |o.props|);
      ListingParts(o, level);
      HeadLength(o, level);
      TreeParts(o, level);
      var k := i + level + 1 + |ps|;
      var c := k + |Body(o, level)|;
      HoldsConcat(ts, i, Head(o, level) + ps, Body(o, level) + Rest(o, level));
      HoldsConcat(ts, k, Body(o, level), Rest(o, level));
      HoldsConcat(ts, c, Tabs(level) + [Close], Listing(o.sibling, level));
      StartLined(ts, i, o, level);
      BodyLined(ts, k, o, level);
      LineAt(ts, c, level, Close, 0);
      ListingLined(ts, c + level + 1, o.sibling, level);
    }
  }

  /** The listing has exactly the lines of the tree, in order, each behind as many tabs as it is deep. */
  lemma ListedLines(o: Outline, level: nat)
    ensures LinesFrom(Listing(o, level), 0, 0) == TreeLines(o, level)
  {
    hide Listing, TreeLines;
    var ts := Listing(o, level);
    assert forall k :: 0 <= k < |ts| ==> Agrees(ts, 0, ts, k);
    ListingLined(ts, 0, o, level);
    assert LinesFrom(ts, |ts|, 0) == [];
  }

  // ---------------------------------------------------------------- the nodes

  /** The opening brackets among lines. */
  function Opened(ls: seq<Line>): seq<(Label, nat)> {
    if ls == [] then []
    else (if ls[0].token.Open? then [(ls[0].token.tag, ls[0].tabs)] else []) + Opened(ls[1..])
  }

  /** The nodes of an outline in pre-order with their depth. */
  function Preorder(o: Outline, depth: nat): seq<(Label, nat)> {
    if o.End? then [] else [(o.tag, depth)] + (Preorder(o.child, depth + 1) + Preorder(o.sibling, depth))
  }

  lemma {:induction false} OpenedConcat(a: seq<Line>, b: seq<Line>)
    ensures Opened(a + b) == Opened(a) + Opened(b)
  {
    hide Opened;
    OpenedNone();
    if a == [] {
      assert a + b == b;
    } else {
      OpenedConcat(a[1..], b);
      OpenedStep(a);
      OpenedStep(a + b);
      assert (a + b)[0] == a[0] && (a + b)[1..] == a[1..] + b;
    }
  }

  lemma OpenedStep(ls: seq<Line>)
    requires ls != []
    ensures Opened(ls) == (if ls[0].token.Open? then [(ls[0].token.tag, ls[0].tabs)] else []) + Opened(ls[1..])
  {
  }

  lemma OpenedOne(l: Line)
    ensures Opened([l]) == if l.token.Open? then [(l.token.tag, l.tabs)] else []
  {
    assert [l][1..] == [];
  }

  lemma {:induction false} OpenedProps(ps: seq<PropLine>, tabs: nat, m: nat)
    requires m <= |ps|
    ensures Opened(PropLines(ps, tabs, m)) == []
    decreases |ps| - m
  {
    hide Opened;
    if m == |ps| {
      OpenedNone();
    } else {
      OpenedProps(ps, tabs, m + 1);
      OpenedConcat([Line(Prop(ps[m]), tabs)], PropLines(ps, tabs, m + 1));
      OpenedOne(Line(Prop(ps[m]), tabs));
    }
  }

  lemma OpenedNone()
    ensures Opened([]) == []
  {
  }

  lemma {:induction false} OpenedTree(o: Outline, depth: nat)
    ensures Opened(TreeLines(o, depth)) == Preorder(o, depth)
    decreases o
  {
    hide Opened, PropLines;
    OpenedNone();
    if o.Item? {
      var a, b := [Line(Open(o.tag), depth)], PropLines(o.props, depth + 1, 0);
      var c, d, e := ChildLines(o.child, depth), [Line(Close, depth)], TreeLines(o.sibling, depth);
      OpenedTree(o.child, depth + 1);
      OpenedTree(o.sibling, depth);
      OpenedConcat(a + b, c + (d + e));
      OpenedConcat(a, b);
      OpenedConcat(c, d + e);
      OpenedConcat(d, e);
      OpenedOne(Line(Open(o.tag), depth));
      OpenedOne(Line(Close, depth));
      OpenedProps(o.props, depth + 1, 0);
      OpenedChild(o.child, depth);
    }
  }

  lemma OpenedChild(child: Outline, depth: nat)
    ensures Opened(ChildLines(child, depth)) == if child.End? then [] else Opened(TreeLines(child, depth + 1))
  {
    hide Opened, TreeLines;
    OpenedNone();
    OpenedOne(Line(Blank, 0));
    OpenedConcat([Line(Blank, 0)], TreeLines(child, depth + 1));
  }

  /** The opening brackets of a listing are the nodes of the tree, each once, in pre-order, and the
      tabs before each are its depth. */
  lemma ListedInPreorder(o: Outline, level: nat)
    ensures Opened(LinesFrom(Listing(o, level), 0, 0)) == Preorder(o, level)
  {
    hide Listing, Preorder, Opened, LinesFrom, TreeLines;
    ListedLines(o, level);
    OpenedTree(o, level);
  }
}
