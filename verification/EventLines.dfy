/** The lines of an event's format text. */
module EventLines {
  import opened Bytes

  /** `trace_field`. */
  datatype TraceField = TraceField(kind: bytes, name: bytes, offset: nat, size: nat, signed: bool)

  const NL: byte := 10
  const SPACE: byte := 32
  const COLON: byte := 58
  const SEMICOLON: byte := 59
  const BRACKET: byte := 91

  /** `%u`. */
  function Dec(n: nat): (bs: bytes)
    ensures |bs| > 0 && forall i :: 0 <= i < |bs| ==> 48 <= bs[i] <= 57
  {
    if n < 10 then [48 + n] else Dec(n / 10) + [48 + n % 10]
  }

  /** The position of the first `c` from `i` on, or the length. */
  function Find(s: bytes, c: byte, i: nat): (r: nat)
    requires i <= |s|
    ensures i <= r <= |s| && (r < |s| ==> s[r] == c) && forall k :: i <= k < r ==> s[k] != c
    decreases |s| - i
  {
    if i == |s| || s[i] == c then i else Find(s, c, i + 1)
  }

  /** The declaration of a field: an array's dimension goes behind its name. */
  function Decl(f: TraceField): bytes {
    var p := Find(f.kind, BRACKET, 0);
    if p == |f.kind| || f.kind == Ascii("__data_loc") then f.kind + [SPACE] + f.name
    else (f.kind[..p] + [SPACE] + f.name) + f.kind[p..]
  }

  function Semi(a: bytes, rest: bytes): bytes {
    a + [SEMICOLON] + rest
  }

  function FieldPart(f: TraceField): bytes {
    Ascii("\tfield:") + Decl(f)
  }

  function OffsetPart(f: TraceField): bytes {
    Ascii("\toffset:") + Dec(f.offset)
  }

  function SizePart(f: TraceField): bytes {
    Ascii("\tsize:") + Dec(f.size)
  }

  function SignedPart(f: TraceField): bytes {
    Ascii("\tsigned:") + Dec(if f.signed then 1 else 0)
  }

  /** The line of one field. */
  function FieldLine(f: TraceField): bytes {
    Semi(FieldPart(f), Semi(OffsetPart(f), Semi(SizePart(f), Semi(SignedPart(f), [NL]))))
  }

  // ---------------------------------------------------------------- the parts of a line

  /** Neither name nor type has a separator; a name has no space and no bracket. */
  ghost predicate ValidField(f: TraceField) {
    && Without(f.kind, SEMICOLON) && Without(f.kind, NL) && Without(f.name, SEMICOLON) && Without(f.name, NL)
    && Without(f.name, SPACE) && Without(f.name, BRACKET)
  }

  lemma DataLocPlain()
    ensures Find(Ascii("__data_loc"), BRACKET, 0) == |Ascii("__data_loc")|
  {
    assert "__data_loc" == ['_', '_', 'd', 'a', 't', 'a', '_', 'l', 'o', 'c'];
    assert forall i :: 0 <= i < |Ascii("__data_loc")| ==> Ascii("__data_loc")[i] != BRACKET;
  }

  /** The dimension of an array type, and what stands before it. */
  function Dims(k: bytes): bytes {
    k[Find(k, BRACKET, 0)..]
  }

  function Base(k: bytes): bytes {
    k[..Find(k, BRACKET, 0)]
  }

  lemma DeclParts(f: TraceField)
    ensures Decl(f) == (Base(f.kind) + [SPACE] + f.name) + Dims(f.kind)
  {
    hide Ascii, Find;
    DataLocPlain();
    if Find(f.kind, BRACKET, 0) == |f.kind| {
      assert Base(f.kind) == f.kind && Dims(f.kind) == [];
    }
  }

  lemma FrontOf(f: TraceField)
    requires ValidField(f)
    ensures Without(Base(f.kind) + [SPACE] + f.name, BRACKET) && (Dims(f.kind) == [] || Dims(f.kind)[0] == BRACKET)
    ensures Base(f.kind) + Dims(f.kind) == f.kind
  {
  }

  lemma PlainPart(s: string, n: nat, c: byte)
    requires Without(Ascii(s), c) && (c < 48 || c > 57)
    ensures Without(Ascii(s) + Dec(n), c)
  {
    hide Ascii;
  }

  lemma LiteralPlain(s: string, c: byte)
    requires forall i :: 0 <= i < |s| ==> (s[i] as int) % 256 != c
    ensures Without(Ascii(s), c)
  {
  }

  lemma LiteralsPlain(c: byte)
    requires c == SEMICOLON || c == NL
    ensures Without(Ascii("\tfield:"), c) && Without(Ascii("\toffset:"), c)
    ensures Without(Ascii("\tsize:"), c) && Without(Ascii("\tsigned:"), c)
  {
    hide Ascii, Without;
    LiteralPlain("\tfield:", c);
    LiteralPlain("\toffset:", c);
    LiteralPlain("\tsize:", c);
    LiteralPlain("\tsigned:", c);
  }

  /** No part of a line has a separator or a line feed in it. */
  lemma PartsPlain(f: TraceField, c: byte)
    requires ValidField(f) && (c == SEMICOLON || c == NL)
    ensures Without(FieldPart(f), c) && Without(OffsetPart(f), c) && Without(SizePart(f), c) &&
            Without(SignedPart(f), c)
  {
    hide Ascii, Decl, Dec, Find;
    LiteralsPlain(c);
    DeclPlain(f, c);
    PlainPart("\toffset:", f.offset, c);
    PlainPart("\tsize:", f.size, c);
    PlainPart("\tsigned:", if f.signed then 1 else 0, c);
  }

  lemma DeclPlain(f: TraceField, c: byte)
    requires ValidField(f) && (c == SEMICOLON || c == NL)
    ensures Without(Decl(f), c)
  {
    hide Ascii, Find;
  }
}
