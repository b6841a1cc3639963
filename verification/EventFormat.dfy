/** A reader of event format text as trace-cmd reads it: it splits lines at line feeds and items at
    semicolons and finds each value by the word in front of it. It gives back every printed event. */
module EventFormat {
  import opened Bytes
  import opened EventLines
  import opened EventText

  /** The value of a decimal number. */
  function Value(ds: bytes): nat {
    if ds == [] then 0
    else 10 * Value(ds[..|ds| - 1]) + if 48 <= ds[|ds| - 1] <= 57 then ds[|ds| - 1] - 48 else 0
  }

  /** `s` up to its first `c`, and behind it. */
  function Upto(s: bytes, c: byte): bytes {
    s[..Find(s, c, 0)]
  }

  function Behind(s: bytes, c: byte): (r: bytes)
    ensures s != [] ==> |r| < |s|
  {
    var p := Find(s, c, 0);
    if p == |s| then [] else s[p + 1..]
  }

  function Starts(s: bytes, p: bytes): bool {
    |p| <= |s| && s[..|p|] == p
  }

  /** The first item of a line that has the word `key` in front of its colon; items end with a
      semicolon. */
  function ItemOf(s: bytes, key: bytes): Option<bytes>
    decreases |s|
  {
    if Find(s, ';' as int, 0) == |s| then None
    else
      var item := Upto(s, ';' as int);
      if Find(item, ':' as int, 0) < |item| && Upto(item, ':' as int) == key then Some(Behind(item, ':' as int))
      else ItemOf(Behind(s, ';' as int), key)
  }

  /** The word at the end of `s`. */
  function LastWord(s: bytes): (w: bytes)
    ensures |w| <= |s|
  {
    if s == [] || s[|s| - 1] == ' ' as int then [] else LastWord(s[..|s| - 1]) + [s[|s| - 1]]
  }

  /** Type and name from a declaration: the name is the last word in front of the dimension, which
      belongs to the type. */
  function ReadDecl(d: bytes): (bytes, bytes) {
    var b := Find(d, '[' as int, 0);
    var name := LastWord(d[..b]);
    (d[..if |name| < b then b - |name| - 1 else 0] + d[b..], name)
  }

  function ReadField(line: bytes): Option<TraceField> {
    match (ItemOf(line, Ascii("\tfield")), ItemOf(line, Ascii("\toffset")), ItemOf(line, Ascii("\tsize")),
           ItemOf(line, Ascii("\tsigned")))
    case (Some(decl), Some(offset), Some(size), Some(signed)) =>
      var (kind, name) := ReadDecl(decl);
      Some(TraceField(kind, name, Value(offset), Value(size), Value(signed) != 0))
    case _ => None
  }

  /** Field lines up to an empty line, and the text behind that. */
  function ReadFields(s: bytes): Option<(seq<TraceField>, bytes)>
    decreases |s|
  {
    if s == [] then None
    else if s[0] == '\n' as int then Some(([], s[1..]))
    else
      match (ReadField(Upto(s, '\n' as int)), ReadFields(Behind(s, '\n' as int)))
      case (Some(f), Some((fs, rest))) => Some(([f] + fs, rest))
      case _ => None
  }

  /** What a format text says. */
  datatype Format = Format(name: bytes, id: nat, common: seq<TraceField>, fields: seq<TraceField>, fmt: bytes)

  function ReadBody(s: bytes): Option<(seq<TraceField>, seq<TraceField>, bytes)> {
    match ReadFields(s)
    case None => None
    case Some((common, s1)) =>
      match ReadFields(s1)
      case None => None
      case Some((fields, s2)) =>
        if Starts(s2, Ascii("print fmt: ")) && |s2| > 11 && s2[|s2| - 1] == '\n' as int
        then Some((common, fields, s2[11..|s2| - 1])) else None
  }

  /** The whole text: name, number, "format:", the common fields, an empty line, the event's own
      fields, an empty line and the print format. */
  function ReadFormat(t: bytes): Option<Format> {
    var t1 := Behind(t, '\n' as int);
    var t2 := Behind(t1, '\n' as int);
    if !(Starts(t, Ascii("name: ")) && Starts(t1, Ascii("ID: ")) && Starts(t2, Ascii("format:\n"))) then None
    else
      match ReadBody(t2[8..])
      case None => None
      case Some((common, fields, fmt)) =>
        var name, id := Behind(Upto(t, '\n' as int), ' ' as int), Behind(Upto(t1, '\n' as int), ' ' as int);
        Some(Format(name, Value(id), common, fields, fmt))
  }

  // ---------------------------------------------------------------- numbers and pieces

  lemma {:induction false} DecValue(n: nat)
    ensures Value(Dec(n)) == n
  {
    if n >= 10 {
      DecValue(n / 10);
      assert (Dec(n / 10) + [48 + n % 10])[..|Dec(n / 10)|] == Dec(n / 10);
    }
  }

  /** Text without `c` in front of a `c` is what a reader up to `c` gets. */
  lemma Cut(a: bytes, c: byte, rest: bytes)
    requires Without(a, c)
    ensures Find(a + [c] + rest, c, 0) == |a| && Upto(a + [c] + rest, c) == a && Behind(a + [c] + rest, c) == rest
  {
    var s := a + [c] + rest;
    assert s[|a|] == c;
  }

  // ---------------------------------------------------------------- declarations

  lemma {:induction false} LastWordOf(a: bytes, w: bytes)
    requires Without(w, SPACE)
    ensures LastWord(a + [SPACE] + w) == w
  {
    var s := a + [SPACE] + w;
    if w != [] {
      var v := w[..|w| - 1];
      assert s[..|s| - 1] == a + [SPACE] + v;
      LastWordOf(a, v);
    }
  }

  /** The bracket in a declaration is the type's. */
  lemma BracketAt(a: bytes, b: bytes)
    requires Without(a, BRACKET) && (b == [] || b[0] == BRACKET)
    ensures Find(a + b, BRACKET, 0) == |a|
  {
    if b != [] {
      assert (a + b)[|a|] == BRACKET;
    }
  }

  lemma DeclReads(f: TraceField)
    requires ValidField(f)
    ensures ReadDecl(Decl(f)) == (f.kind, f.name)
  {
    hide Decl, Base, Dims, Find, LastWord;
    DeclParts(f);
    FrontOf(f);
    var a, b := Base(f.kind) + [SPACE] + f.name, Dims(f.kind);
    BracketAt(a, b);
    LastWordOf(Base(f.kind), f.name);
    assert (a + b)[..|a|] == a && (a + b)[|a|..] == b;
    assert (a + b)[..|Base(f.kind)|] == Base(f.kind);
  }

  // ---------------------------------------------------------------- one line

  /** One item of a line. */
  lemma Item(word: bytes, v: bytes, rest: bytes, key: bytes)
    requires Without(word, COLON) && Without(word + [COLON] + v, SEMICOLON)
    ensures ItemOf(Semi(word + [COLON] + v, rest), key) == if word == key then Some(v) else ItemOf(rest, key)
  {
    hide Find, Without, Upto, Behind;
    Cut(word + [COLON] + v, SEMICOLON, rest);
    Cut(word, COLON, v);
  }

  lemma Words()
    ensures Without(Ascii("\tfield"), COLON) && Without(Ascii("\toffset"), COLON)
    ensures Without(Ascii("\tsize"), COLON) && Without(Ascii("\tsigned"), COLON)
    ensures Ascii("\tfield:") == Ascii("\tfield") + [COLON] && Ascii("\toffset:") == Ascii("\toffset") + [COLON]
    ensures Ascii("\tsize:") == Ascii("\tsize") + [COLON] && Ascii("\tsigned:") == Ascii("\tsigned") + [COLON]
    ensures Ascii("\tsigned") != Ascii("\toffset")
  {
    LiteralPlain("\tfield", COLON);
    LiteralPlain("\toffset", COLON);
    LiteralPlain("\tsize", COLON);
    LiteralPlain("\tsigned", COLON);
    assert Ascii("\tsigned")[1] == 115 && Ascii("\toffset")[1] == 111;
  }

  /** A field's line in front of `rest`. */
  function LineAnd(f: TraceField, rest: bytes): bytes {
    Semi(FieldPart(f), Semi(OffsetPart(f), Semi(SizePart(f), Semi(SignedPart(f), rest))))
  }

  /** Each item is found under its own word. */
  lemma ItemsOf(f: TraceField, rest: bytes, key: bytes)
    requires ValidField(f)
    ensures key == Ascii("\tfield") ==> ItemOf(LineAnd(f, rest), key) == Some(Decl(f))
    ensures key == Ascii("\toffset") ==> ItemOf(LineAnd(f, rest), key) == Some(Dec(f.offset))
    ensures key == Ascii("\tsize") ==> ItemOf(LineAnd(f, rest), key) == Some(Dec(f.size))
    ensures key == Ascii("\tsigned") ==> ItemOf(LineAnd(f, rest), key) == Some(Dec(if f.signed then 1 else 0))
  {
    hide Semi, ItemOf, Ascii, Decl, Dec, Without, ValidField;
    Words();
    PartsPlain(f, SEMICOLON);
    var r3 := Semi(SignedPart(f), rest);
    var r2 := Semi(SizePart(f), r3);
    Item(Ascii("\tfield"), Decl(f), Semi(OffsetPart(f), r2), key);
    Item(Ascii("\toffset"), Dec(f.offset), r2, key);
    Item(Ascii("\tsize"), Dec(f.size), r3, key);
    Item(Ascii("\tsigned"), Dec(if f.signed then 1 else 0), rest, key);
  }

  lemma LineReads(f: TraceField, rest: bytes)
    requires ValidField(f)
    ensures ReadField(LineAnd(f, rest)) == Some(f)
  {
    hide ItemOf, Ascii, Decl, Dec, ValidField, LineAnd, ReadDecl, Value;
    ItemsOf(f, rest, Ascii("\tfield"));
    ItemsOf(f, rest, Ascii("\toffset"));
    ItemsOf(f, rest, Ascii("\tsize"));
    ItemsOf(f, rest, Ascii("\tsigned"));
    DeclReads(f);
    DecValue(f.offset);
    DecValue(f.size);
    DecValue(if f.signed then 1 else 0);
  }

  /** Every field's line reads back: type with its dimension, name, offset, size and sign. */
  lemma FieldReads(f: TraceField)
    requires ValidField(f)
    ensures ReadField(FieldLine(f)) == Some(f)
  {
    hide ReadField, Semi, ValidField;
    LineReads(f, [NL]);
  }

  // ---------------------------------------------------------------- the lines of an event

  lemma LineEnds(f: TraceField)
    requires ValidField(f)
    ensures FieldLine(f) == LineAnd(f, []) + [NL] && Without(LineAnd(f, []), NL)
    ensures |LineAnd(f, [])| > 0 && LineAnd(f, [])[0] == 9
  {
    hide FieldPart, OffsetPart, SizePart, SignedPart, ValidField;
    PartsPlain(f, NL);
    FieldPartStarts(f);
  }

  lemma FieldPartStarts(f: TraceField)
    ensures |FieldPart(f)| > 0 && FieldPart(f)[0] == 9
  {
    hide Decl;
    assert "\tfield:"[0] == '\t';
  }

  lemma LinesCons(fs: seq<TraceField>)
    requires fs != []
    ensures Join(Lines(fs)) == FieldLine(fs[0]) + Join(Lines(fs[1..]))
  {
    hide FieldLine, Join;
    assert Lines(fs) == [FieldLine(fs[0])] + Lines(fs[1..]);
    JoinTwo([FieldLine(fs[0])], Lines(fs[1..]));
    JoinOne(FieldLine(fs[0]));
  }

  lemma NoLines()
    ensures Join(Lines([])) == []
  {
  }

  lemma {:induction false} FieldsRead(fs: seq<TraceField>, rest: bytes)
    requires ValidFields(fs)
    ensures ReadFields(Join(Lines(fs)) + ([NL] + rest)) == Some((fs, rest))
    decreases |fs|
  {
    hide Join, Lines, ValidField, FieldLine, LineAnd, Without, ReadField, Upto, Behind;
    var s := Join(Lines(fs)) + ([NL] + rest);
    if fs == [] {
      NoLines();
      assert s == [NL] + rest;
    } else {
      var line, more := LineAnd(fs[0], []), Join(Lines(fs[1..])) + ([NL] + rest);
      LinesCons(fs);
      LineEnds(fs[0]);
      assert s == line + [NL] + more;
      Cut(line, NL, more);
      LineReads(fs[0], []);
      FieldsRead(fs[1..], rest);
      assert [fs[0]] + fs[1..] == fs;
    }
  }

  // ---------------------------------------------------------------- the whole text

  /** The text behind the first three lines. */
  function Body(common: seq<TraceField>, e: Event): bytes {
    Join(Lines(common)) + ([NL] + (Join(Lines(e.fields)) + FmtLine(e)))
  }

  lemma TextParts(common: seq<TraceField>, e: Event)
    ensures TextOf(common, e) == NameLine(e) + (IdLine(e) + (FormatLine() + Body(common, e)))
  {
    hide JoinTo, FieldLine, NameLine, IdLine, FormatLine, FmtLine, Join, Lines;
    var a, b, c, d := NameLine(e), IdLine(e), FormatLine(), FmtLine(e);
    var xs, ys := Lines(common), Lines(e.fields);
    var ps := [a] + ([b] + ([c] + (xs + ([[NL]] + (ys + [d])))));
    assert Pieces(common, e) == ps;
    JoinTwo([a], [b] + ([c] + (xs + ([[NL]] + (ys + [d])))));
    JoinTwo([b], [c] + (xs + ([[NL]] + (ys + [d]))));
    JoinTwo([c], xs + ([[NL]] + (ys + [d])));
    JoinTwo(xs, [[NL]] + (ys + [d]));
    JoinTwo([[NL]], ys + [d]);
    JoinTwo(ys, [d]);
    JoinOne(a);
    JoinOne(b);
    JoinOne(c);
    JoinOne([NL]);
    JoinOne(d);
  }

  lemma FmtSplits(e: Event)
    ensures FmtLine(e) == [NL] + (Ascii("print fmt: ") + e.fmt + [NL])
  {
    assert "\nprint fmt: " == ['\n'] + "print fmt: ";
    assert Ascii("\nprint fmt: ") == [NL] + Ascii("print fmt: ");
  }

  lemma BodyReads(common: seq<TraceField>, e: Event)
    requires ValidFields(common) && ValidFields(e.fields)
    ensures ReadBody(Body(common, e)) == Some((common, e.fields, e.fmt))
  {
    hide Join, Lines, FmtLine, ValidFields, ReadFields, Ascii;
    FmtSplits(e);
    var fmt := Ascii("print fmt: ") + e.fmt + [NL];
    FieldsRead(common, Join(Lines(e.fields)) + FmtLine(e));
    FieldsRead(e.fields, fmt);
    assert fmt[..11] == Ascii("print fmt: ") && fmt[11..|fmt| - 1] == e.fmt;
  }

  /** A line that is a word, a space and a value. */
  lemma HeadLine(word: bytes, v: bytes, rest: bytes)
    requires Without(word, SPACE) && Without(word + [SPACE] + v, NL)
    ensures var s := word + [SPACE] + v + [NL] + rest;
            Starts(s, word + [SPACE]) && Behind(s, NL) == rest && Behind(Upto(s, NL), SPACE) == v
  {
    hide Without, Find, Upto, Behind;
    Cut(word + [SPACE] + v, NL, rest);
    Cut(word, SPACE, v);
    var s := word + [SPACE] + v + [NL] + rest;
    assert s[..|word| + 1] == word + [SPACE];
  }

  lemma HeadWords(c: byte)
    requires c == SPACE || c == NL
    ensures Ascii("name: ") == Ascii("name:") + [SPACE] && Ascii("ID: ") == Ascii("ID:") + [SPACE]
    ensures Without(Ascii("name:"), c) && Without(Ascii("ID:"), c)
  {
    LiteralPlain("name:", c);
    LiteralPlain("ID:", c);
  }

  lemma NameReads(e: Event, rest: bytes)
    requires Without(e.name, NL)
    ensures var s := NameLine(e) + rest;
            Starts(s, Ascii("name: ")) && Behind(s, NL) == rest && Behind(Upto(s, NL), SPACE) == e.name
  {
    hide Ascii, Starts, Upto, Behind;
    HeadWords(SPACE);
    HeadWords(NL);
    HeadLine(Ascii("name:"), e.name, rest);
  }

  lemma IdReads(e: Event, rest: bytes)
    ensures var s := IdLine(e) + rest;
            Starts(s, Ascii("ID: ")) && Behind(s, NL) == rest && Value(Behind(Upto(s, NL), SPACE)) == e.id
  {
    hide Ascii, Starts, Upto, Behind, Value;
    HeadWords(SPACE);
    HeadWords(NL);
    PlainPart("ID:", e.id, NL);
    HeadLine(Ascii("ID:"), Dec(e.id), rest);
    DecValue(e.id);
  }

  lemma FormatStarts(body: bytes)
    ensures Starts(FormatLine() + body, Ascii("format:\n")) && (FormatLine() + body)[8..] == body
  {
    hide Ascii;
  }

  /** Every event's text reads back: name, number, common fields, own fields and print format. */
  lemma TextReads(common: seq<TraceField>, e: Event)
    requires ValidFields(common) && ValidEvent(e)
    ensures ReadFormat(TextOf(common, e)) == Some(Format(e.name, e.id, common, e.fields, e.fmt))
  {
    hide TextOf, Body, Starts, Upto, Behind, Value, ReadBody, ValidFields, Ascii, NameLine, IdLine;
    TextParts(common, e);
    var body := FormatLine() + Body(common, e);
    NameReads(e, IdLine(e) + body);
    IdReads(e, body);
    BodyReads(common, e);
    FormatStarts(Body(common, e));
  }

  /** So no two events that differ in name, number, fields or format have the same text. */
  lemma TextUnique(common: seq<TraceField>, e: Event, f: Event)
    requires ValidFields(common) && ValidEvent(e) && ValidEvent(f) && TextOf(common, e) == TextOf(common, f)
    ensures e.name == f.name && e.id == f.id && e.fields == f.fields && e.fmt == f.fmt
  {
    hide TextOf, ReadFormat, ValidFields, ValidEvent;
    TextReads(common, e);
    TextReads(common, f);
  }
}
