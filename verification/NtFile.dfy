/** The NT_FILE note: a table of mapped file ranges followed by their names. */
module NtFile {
  import opened Bytes
  import opened Elf

  /** A file-backed VMA; `name` is without the NUL that the writer appends. */
  datatype FileVma = FileVma(start: nat, end: nat, pgoff: nat, name: bytes)

  function Range(w: nat, v: FileVma): (bs: bytes)
    ensures |bs| == 3 * w
  {
    LE(v.start, w) + (LE(v.end, w) + LE(v.pgoff, w))
  }

  /** The ranges from VMA `i` on. */
  function Ranges(w: nat, vs: seq<FileVma>, i: nat): bytes
    decreases |vs| - i
  {
    if i >= |vs| then [] else Range(w, vs[i]) + Ranges(w, vs, i + 1)
  }

  /** The names from VMA `i` on, each with its NUL. */
  function Names(vs: seq<FileVma>, i: nat): bytes
    decreases |vs| - i
  {
    if i >= |vs| then [] else (vs[i].name + [0]) + Names(vs, i + 1)
  }

  /** The note's descriptor: count, page size, ranges, names. */
  function Payload(w: nat, page: nat, vs: seq<FileVma>): bytes {
    (LE(|vs|, w) + LE(page, w)) + (Ranges(w, vs, 0) + Names(vs, 0))
  }

  /** The counting pass of `parser_nt_file`. */
  method CountFiles(w: nat, vs: seq<FileVma>) returns (ranges: nat, names: nat, count: nat)
    ensures ranges == |Ranges(w, vs, 0)| && names == |Names(vs, 0)| && count == |vs|
  {
    hide Range;
    ranges, names, count := 0, 0, 0;
    for i := 0 to |vs|
      invariant ranges + |Ranges(w, vs, i)| == |Ranges(w, vs, 0)|
      invariant names + |Names(vs, i)| == |Names(vs, 0)| && count == i
    {
      ranges := ranges + 3 * w;
      names := names + |vs[i].name + [0]|;
      count := count + 1;
    }
  }

  /** The pass over the ranges. */
  method AppendRanges(w: nat, vs: seq<FileVma>, head: bytes) returns (data: bytes)
    ensures data == head + Ranges(w, vs, 0)
  {
    hide LE;
    data := head;
    for i := 0 to |vs|
      invariant data + Ranges(w, vs, i) == head + Ranges(w, vs, 0)
    {
      ghost var d := data;
      data := data + LE(vs[i].start, w);
      data := data + LE(vs[i].end, w);
      data := data + LE(vs[i].pgoff, w);
      assert data == d + Range(w, vs[i]);
      assert (d + Range(w, vs[i])) + Ranges(w, vs, i + 1) == d + Ranges(w, vs, i);
    }
    assert data + [] == data;
  }

  /** The pass over the names. */
  method AppendNames(vs: seq<FileVma>, head: bytes) returns (data: bytes)
    ensures data == head + Names(vs, 0)
  {
    data := head;
    for i := 0 to |vs|
      invariant data + Names(vs, i) == head + Names(vs, 0)
    {
      assert (data + (vs[i].name + [0])) + Names(vs, i + 1) == data + Names(vs, i);
      data := data + (vs[i].name + [0]);
    }
    assert data + [] == data;
  }

  /** `parser_nt_file`: a counting pass that reserves the buffer, then the header words, a pass
      over the ranges and a pass over the names. */
  method ParserNtFile(w: nat, page: nat, vs: seq<FileVma>) returns (data: bytes, reserved: nat)
    ensures data == Payload(w, page, vs)
    ensures reserved == |data|
  {
    hide LE, Ranges, Names;
    var ranges, names, count := CountFiles(w, vs);
    reserved := 2 * w + ranges + names;
    data := [];
    data := data + LE(count, w);
    data := data + LE(page, w);
    ghost var head := data;
    assert head == LE(|vs|, w) + LE(page, w);
    data := AppendRanges(w, vs, data);
    data := AppendNames(vs, data);
    assert (head + Ranges(w, vs, 0)) + Names(vs, 0) == head + (Ranges(w, vs, 0) + Names(vs, 0));
  }

  /** A reader's table: ranges from `p`, names from `q`, entry `i` of `n` next. */
  function Decode(d: bytes, w: nat, p: nat, q: nat, i: nat, n: nat): seq<FileVma>
    decreases n - i
  {
    if i >= n then []
    else
      [FileVma(U(d, p, w), U(d, p + w, w), U(d, p + 2 * w, w), CStr(d, q))]
      + Decode(d, w, p + 3 * w, q + |CStr(d, q)| + 1, i + 1, n)
  }

  function NamesAt(c: Class, n: nat): nat {
    if c.Elf64? then 16 + 24 * n else 8 + 12 * n
  }

  function DecodeFiles(c: Class, d: bytes): (nat, seq<FileVma>) {
    var w, n := WordSize(c), U(d, 0, WordSize(c));
    (U(d, w, w), Decode(d, w, 2 * w, NamesAt(c, n), 0, n))
  }

  ghost predicate Fits(w: nat, v: FileVma) {
    v.start < Pow256(w) && v.end < Pow256(w) && v.pgoff < Pow256(w) && NulFree(v.name)
  }

  lemma RangeReads(d: bytes, p: nat, w: nat, v: FileVma)
    requires Fits(w, v) && Holds(d, p, Range(w, v))
    ensures U(d, p, w) == v.start && U(d, p + w, w) == v.end && U(d, p + 2 * w, w) == v.pgoff
  {
    hide LE, Holds, U;
    TakeWord(d, p, v.start, w, LE(v.end, w) + LE(v.pgoff, w));
    TakeWord(d, p + w, v.end, w, LE(v.pgoff, w));
    WordHeld(d, p + 2 * w, v.pgoff, w);
  }

  lemma {:induction false} TableReads(d: bytes, w: nat, vs: seq<FileVma>, p: nat, q: nat, i: nat)
    requires i <= |vs| && (forall k :: 0 <= k < |vs| ==> Fits(w, vs[k]))
    requires Holds(d, p, Ranges(w, vs, i)) && Holds(d, q, Names(vs, i))
    ensures Decode(d, w, p, q, i, |vs|) == vs[i..]
    decreases |vs| - i
  {
    hide Holds, U, CStr, Range;
    if i < |vs| {
      var v := vs[i];
      HoldsConcat(d, p, Range(w, v), Ranges(w, vs, i + 1));
      HoldsConcat(d, q, v.name + [0], Names(vs, i + 1));
      RangeReads(d, p, w, v);
      CStrHeld(d, q, v.name);
      TableReads(d, w, vs, p + 3 * w, q + |v.name| + 1, i + 1);
      assert vs[i..] == [v] + vs[i + 1..];
    }
  }

  lemma {:induction false} RangesLength(w: nat, vs: seq<FileVma>, i: nat, c: Class)
    requires i <= |vs| && w == WordSize(c)
    ensures 2 * w + |Ranges(w, vs, i)| == NamesAt(c, |vs| - i)
    decreases |vs| - i
  {
    hide Range;
    if i < |vs| {
      RangesLength(w, vs, i + 1, c);
    }
  }

  /** Decoding the note gives back the page size and every range with its name, in order, for any
      number of files and both word sizes. */
  lemma FilesReadBack(c: Class, page: nat, vs: seq<FileVma>)
    requires |vs| < Pow256(WordSize(c)) && page < Pow256(WordSize(c))
    requires forall k :: 0 <= k < |vs| ==> Fits(WordSize(c), vs[k])
    ensures DecodeFiles(c, Payload(WordSize(c), page, vs)) == (page, vs)
  {
    hide LE, U, Ranges, Names, Decode, Fits;
    var w := WordSize(c);
    var d, a, b := Payload(w, page, vs), Ranges(w, vs, 0), Names(vs, 0);
    HeldWhole(d);
    HoldsConcat(d, 0, LE(|vs|, w) + LE(page, w), a + b);
    TakeWord(d, 0, |vs|, w, LE(page, w));
    WordHeld(d, w, page, w);
    HoldsConcat(d, 2 * w, a, b);
    RangesLength(w, vs, 0, c);
    TableReads(d, w, vs, 2 * w, NamesAt(c, |vs|), 0);
    assert vs[0..] == vs;
  }
}
