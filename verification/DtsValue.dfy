/** How a property's value is printed, and what of it can be read back. */
module DtsValue {
  import opened Bytes

  /** Nothing, a string, or 32-bit cells. */
  datatype Value = Flag | Text(text: bytes) | Cells(cells: seq<nat>)

  /** `s.find(t)` finds something. */
  predicate Contains(s: string, t: string) {
    exists i :: 0 <= i <= |s| - |t| && OccursAt(s, t, i)
  }

  predicate OccursAt(s: string, t: string, i: nat)
    requires i + |t| <= |s|
  {
    s[i..i + |t|] == t
  }

  predicate ContainsAny(s: string, ts: seq<string>) {
    exists k :: 0 <= k < |ts| && Contains(s, ts[k])
  }

  /** `str_props` and `int_props`. */
  function StrProps(): seq<string> {
    ["model", "compatible", "bootargs", "name", "function", "device_type", "type", "label", "fsmgr_flags",
     "regulator-type", "iommu-faults", "pins", "parts", "serial", "hsuart", "names"]
  }

  function IntProps(): seq<string> {
    ["phandle", "reg", "size", "cells", "addr", "offset", "id", "strength"]
  }

  /** The nodes all of whose properties are strings. */
  predicate IsSymbolNode(fullName: string) {
    Contains(fullName, "symbols") || Contains(fullName, "aliases")
  }

  predicate AsText(symbol: bool, name: string, length: nat) {
    symbol || ContainsAny(name, StrProps()) || !(ContainsAny(name, IntProps()) || length % 4 == 0)
  }

  function Digits(a: nat, b: nat, c: nat, d: nat): nat {
    ((a * 256 + b) * 256 + c) * 256 + d
  }

  /** The big-endian word at `p`, as `ntohl` gives it on a little-endian host. */
  function Cell(v: bytes, p: nat): nat
    requires p + 4 <= |v|
  {
    Digits(v[p], v[p + 1], v[p + 2], v[p + 3])
  }

  function CellsTo(v: bytes, k: nat): (cs: seq<nat>)
    requires 4 * k <= |v|
    ensures |cs| == k
  {
    if k == 0 then [] else CellsTo(v, k - 1) + [Cell(v, 4 * (k - 1))]
  }

  /** What is printed for a value. */
  function Rendered(symbol: bool, name: string, v: bytes): Value {
    if v == [] then Flag
    else if AsText(symbol, name, |v|) then Text(CStr(v, 0))
    else Cells(CellsTo(v, |v| / 4))
  }

  /** The value part of `print_properties`. */
  method RenderValue(symbol: bool, name: string, v: bytes) returns (r: Value)
    ensures r == Rendered(symbol, name, v)
  {
    hide CStr, Cell, StrProps, IntProps, Contains;
    if |v| == 0 {
      return Flag;
    }
    if symbol || ContainsAny(name, StrProps()) {
      r := Text(CStr(v, 0));
    } else if ContainsAny(name, IntProps()) || |v| % 4 == 0 {
      var cells: seq<nat> := [];
      for i := 0 to |v| / 4
        invariant cells == CellsTo(v, i)
      {
        cells := cells + [Cell(v, 4 * i)];
      }
      r := Cells(cells);
    } else {
      r := Text(CStr(v, 0));
    }
  }

  // ---------------------------------------------------------------- reading a value back

  function BigEndian(c: nat): (bs: bytes)
    ensures |bs| == 4
  {
    [c / 0x100_0000 % 256, c / 0x1_0000 % 256, c / 0x100 % 256, c % 256]
  }

  function BytesOf(cs: seq<nat>, k: nat): (bs: bytes)
    requires k <= |cs|
    ensures |bs| == 4 * k
  {
    if k == 0 then [] else BytesOf(cs, k - 1) + BigEndian(cs[k - 1])
  }

  /** The value that a printed one stands for: a string has its NUL behind it. */
  function ReadValue(r: Value): bytes {
    match r
    case Flag => []
    case Text(t) => t + [0]
    case Cells(cs) => BytesOf(cs, |cs|)
  }

  lemma CellBytes(v: bytes, p: nat)
    requires p + 4 <= |v|
    ensures BigEndian(Cell(v, p)) == [v[p], v[p + 1], v[p + 2], v[p + 3]]
  {
    CellDigits(v[p], v[p + 1], v[p + 2], v[p + 3]);
  }

  lemma CellDigits(a: byte, b: byte, c: byte, d: byte)
    ensures var x := Digits(a, b, c, d);
            x % 256 == d && x / 0x100 % 256 == c && x / 0x1_0000 % 256 == b && x / 0x100_0000 % 256 == a
  {
    var x := Digits(a, b, c, d);
    assert x / 0x100 == (a * 256 + b) * 256 + c;
    assert x / 0x1_0000 == a * 256 + b;
    assert x / 0x100_0000 == a;
  }

  lemma {:induction false} CellsRead(v: bytes, k: nat, n: nat)
    requires 4 * k <= |v| && k <= n && 4 * n <= |v|
    ensures BytesOf(CellsTo(v, n), k) == v[..4 * k]
    decreases k
  {
    hide Cell, BigEndian;
    if k > 0 {
      CellsRead(v, k - 1, n);
      CellsAt(v, n, k - 1);
      CellBytes(v, 4 * (k - 1));
      assert v[..4 * k] == v[..4 * (k - 1)] + [v[4 * k - 4], v[4 * k - 3], v[4 * k - 2], v[4 * k - 1]];
    }
  }

  lemma {:induction false} CellsAt(v: bytes, n: nat, i: nat)
    requires i < n && 4 * n <= |v|
    ensures CellsTo(v, n)[i] == Cell(v, 4 * i)
    decreases n
  {
    hide Cell;
    if i < n - 1 {
      CellsAt(v, n - 1, i);
    }
  }

  /** A value that is one string: its only NUL is its last byte. */
  ghost predicate OneString(v: bytes) {
    |v| > 0 && v[|v| - 1] == 0 && NulFree(v[..|v| - 1])
  }

  lemma TextRead(v: bytes)
    ensures CStr(v, 0) + [0] == v <==> OneString(v)
  {
    CStrFree(v, 0);
    if OneString(v) {
      var t := v[..|v| - 1];
      assert v == t + [0];
      HeldWhole(v);
      CStrHeld(v, 0, t);
    }
    if CStr(v, 0) + [0] == v {
      assert v[..|v| - 1] == CStr(v, 0);
    }
  }

  lemma {:induction false} CStrFree(v: bytes, q: nat)
    ensures NulFree(CStr(v, q))
    decreases |v| - q
  {
    if q < |v| && v[q] != 0 {
      CStrFree(v, q + 1);
    }
  }

  lemma CellsWhole(v: bytes)
    ensures BytesOf(CellsTo(v, |v| / 4), |v| / 4) == v <==> |v| % 4 == 0
  {
    hide CellsTo, BytesOf;
    CellsRead(v, |v| / 4, |v| / 4);
    assert |v| % 4 == 0 ==> v[..4 * (|v| / 4)] == v;
  }

  // ---------------------------------------------------------------- what a printed value says

  /** The property's name has one of the words that make it a string, or one that makes it a number. */
  ghost predicate NamedText(name: string) {
    || Contains(name, "model") || Contains(name, "compatible") || Contains(name, "bootargs") || Contains(name, "name")
    || Contains(name, "function") || Contains(name, "device_type") || Contains(name, "type") || Contains(name, "label")
    || Contains(name, "fsmgr_flags") || Contains(name, "regulator-type") || Contains(name, "iommu-faults")
    || Contains(name, "pins") || Contains(name, "parts") || Contains(name, "serial") || Contains(name, "hsuart")
    || Contains(name, "names")
  }

  ghost predicate NamedNumber(name: string) {
    || Contains(name, "phandle") || Contains(name, "reg") || Contains(name, "size") || Contains(name, "cells")
    || Contains(name, "addr") || Contains(name, "offset") || Contains(name, "id") || Contains(name, "strength")
  }

  lemma AnyText(name: string)
    ensures ContainsAny(name, StrProps()) <==> NamedText(name)
  {
    hide Contains;
    var ts := StrProps();
    if ContainsAny(name, ts) {
      var k :| 0 <= k < |ts| && Contains(name, ts[k]);
    } else {
      assert !Contains(name, ts[0]) && !Contains(name, ts[1]) && !Contains(name, ts[2]) && !Contains(name, ts[3]);
      assert !Contains(name, ts[4]) && !Contains(name, ts[5]) && !Contains(name, ts[6]) && !Contains(name, ts[7]);
      assert !Contains(name, ts[8]) && !Contains(name, ts[9]) && !Contains(name, ts[10]) && !Contains(name, ts[11]);
      assert !Contains(name, ts[12]) && !Contains(name, ts[13]) && !Contains(name, ts[14]) && !Contains(name, ts[15]);
    }
  }

  lemma AnyNumber(name: string)
    ensures ContainsAny(name, IntProps()) <==> NamedNumber(name)
  {
    hide Contains;
    var ts := IntProps();
    if ContainsAny(name, ts) {
      var k :| 0 <= k < |ts| && Contains(name, ts[k]);
    } else {
      assert !Contains(name, ts[0]) && !Contains(name, ts[1]) && !Contains(name, ts[2]) && !Contains(name, ts[3]);
      assert !Contains(name, ts[4]) && !Contains(name, ts[5]) && !Contains(name, ts[6]) && !Contains(name, ts[7]);
    }
  }

  ghost predicate IsWord(w: nat, a: nat, b: nat, c: nat, d: nat) {
    w == 0x100_0000 * a + 0x1_0000 * b + 0x100 * c + d
  }

  /** `r` says of the bytes `v` what a reader may take from it: nothing of nothing; of a string node's
      property, of one named like a string, and of odd bytes the text before the first NUL; of all
      others the whole big-endian words. */
  ghost predicate Says(r: Value, symbol: bool, name: string, v: bytes) {
    if v == [] then r == Flag
    else if symbol || NamedText(name) || (!NamedNumber(name) && |v| % 4 != 0) then
      && r.Text? && |r.text| <= |v| && NulFree(r.text) && r.text == v[..|r.text|]
      && (|r.text| < |v| ==> v[|r.text|] == 0)
    else
      && r.Cells? && |r.cells| == |v| / 4
      && forall i :: 0 <= i < |v| / 4 ==>
           IsWord(r.cells[i], v[4 * i], v[4 * i + 1], v[4 * i + 2], v[4 * i + 3])
  }

  lemma {:induction false} CStrEnds(v: bytes, q: nat)
    requires q <= |v|
    ensures var t := CStr(v, q); q + |t| <= |v| && t == v[q..q + |t|] && (q + |t| < |v| ==> v[q + |t|] == 0)
    decreases |v| - q
  {
    if q < |v| && v[q] != 0 {
      CStrEnds(v, q + 1);
    }
  }

  /** What is printed says it. */
  lemma RenderedSays(symbol: bool, name: string, v: bytes)
    ensures Says(Rendered(symbol, name, v), symbol, name, v)
  {
    hide CStr, CellsTo, ContainsAny, NamedText, NamedNumber;
    AnyText(name);
    AnyNumber(name);
    CStrEnds(v, 0);
    CStrFree(v, 0);
    forall i | 0 <= i < |v| / 4 ensures CellsTo(v, |v| / 4)[i] == Cell(v, 4 * i) {
      CellsAt(v, |v| / 4, i);
    }
  }

  /** The printed value stands for the property's bytes if and only if there are none, or it is
      printed as a string and is one string, or it is printed as cells and has whole cells. */
  lemma ValueReadsBack(symbol: bool, name: string, v: bytes)
    ensures ReadValue(Rendered(symbol, name, v)) == v <==>
            || v == []
            || if symbol || NamedText(name) || (!NamedNumber(name) && |v| % 4 != 0) then OneString(v) else |v| % 4 == 0
  {
    hide ContainsAny, NamedText, NamedNumber, CStr, CellsTo, BytesOf, OneString;
    AnyText(name);
    AnyNumber(name);
    if v != [] {
      TextRead(v);
      CellsWhole(v);
    }
  }
}
