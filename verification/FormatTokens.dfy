/** The print-format tokenizer: a quoted format is cut into literal prefixes and `%` formats. */
module FormatTokens {
  import opened Bytes

  /** A format starts with '%' and has a space nowhere but at its end. */
  ghost predicate IsFormat(f: string) {
    |f| > 0 && f[0] == '%' && forall i :: 0 <= i < |f| - 1 ==> f[i] != ' '
  }

  ghost predicate EndsInSpace(f: string) {
    |f| > 0 && f[|f| - 1] == ' '
  }

  /** The `k`-th prefix and format are well formed; a format that does not end in a space is the last
      thing of the body. */
  ghost predicate PieceOk(ps: seq<string>, fs: seq<string>, tail: string, k: nat)
    requires k < |ps| == |fs|
  {
    && Without(ps[k], '%') && IsFormat(fs[k])
    && (EndsInSpace(fs[k]) || (k == |ps| - 1 && tail == ""))
  }

  /** A decomposition: prefixes, formats, and a tail without '%'. */
  ghost predicate Decomposed(ps: seq<string>, fs: seq<string>, tail: string) {
    |ps| == |fs| && Without(tail, '%') && forall k :: 0 <= k < |ps| ==> PieceOk(ps, fs, tail, k)
  }

  /** The text of the pieces from `k` on and the tail. */
  ghost function Rebuilt(ps: seq<string>, fs: seq<string>, tail: string, k: nat): string
    requires k <= |ps| == |fs|
    decreases |ps| - k
  {
    if k == |ps| then tail else ps[k] + (fs[k] + Rebuilt(ps, fs, tail, k + 1))
  }

  /** The text of the first `k` pieces. */
  ghost function Taken(ps: seq<string>, fs: seq<string>, k: nat): string
    requires k <= |ps| == |fs|
  {
    if k == 0 then "" else Taken(ps, fs, k - 1) + (ps[k - 1] + fs[k - 1])
  }

  lemma {:induction false} TakenRebuilt(ps: seq<string>, fs: seq<string>, tail: string, k: nat)
    requires k <= |ps| == |fs|
    ensures Taken(ps, fs, k) + Rebuilt(ps, fs, tail, k) == Taken(ps, fs, |ps|) + tail
    decreases |ps| - k
  {
    if k < |ps| {
      TakenRebuilt(ps, fs, tail, k + 1);
      var a, b, c, d := Taken(ps, fs, k), ps[k], fs[k], Rebuilt(ps, fs, tail, k + 1);
      assert (a + (b + c)) + d == a + (b + (c + d));
    }
  }

  lemma {:induction false} TakenMore(ps: seq<string>, fs: seq<string>, p: string, f: string, k: nat)
    requires k <= |ps| == |fs|
    ensures Taken(ps + [p], fs + [f], k) == Taken(ps, fs, k)
  {
    if k > 0 {
      TakenMore(ps, fs, p, f, k - 1);
    }
  }

  /** The body between the quotes: `fmt.substr(1, fmt.length() - 2)`. The empty string makes `substr`
      throw; a single character leaves nothing. */
  function BodyOf(fmt: string): Option<string> {
    if |fmt| == 0 then None else if |fmt| == 1 then Some("") else Some(fmt[1..|fmt| - 1])
  }

  /** The pieces found so far, all ending in a space unless the body is used up. */
  ghost predicate Found(body: string, ps: seq<string>, fs: seq<string>, last: nat) {
    && |ps| == |fs| && last <= |body| && Taken(ps, fs, |ps|) == body[..last]
    && forall k :: 0 <= k < |ps| ==>
                     Without(ps[k], '%') && IsFormat(fs[k]) && (EndsInSpace(fs[k]) || (k == |ps| - 1 && last == |body|))
  }

  lemma FoundMore(body: string, ps: seq<string>, fs: seq<string>, last: nat, i: nat, j: nat)
    requires Found(body, ps, fs, last) && last <= i < j <= |body| && Without(body[last..i], '%') && IsFormat(body[i..j])
    requires EndsInSpace(body[i..j]) || j == |body|
    ensures Found(body, ps + [body[last..i]], fs + [body[i..j]], j)
  {
    hide Without, IsFormat, EndsInSpace;
    TakenMore(ps, fs, body[last..i], body[i..j], |ps|);
    assert body[..j] == body[..last] + (body[last..i] + body[i..j]);
  }

  lemma FoundEnd(body: string, ps: seq<string>, fs: seq<string>, last: nat)
    requires Found(body, ps, fs, last) && Without(body[last..], '%')
    ensures Decomposed(ps, fs, body[last..]) && Rebuilt(ps, fs, body[last..], 0) == body
  {
    hide Without, IsFormat, EndsInSpace;
    TakenRebuilt(ps, fs, body[last..], 0);
    assert Taken(ps, fs, 0) + Rebuilt(ps, fs, body[last..], 0) == Rebuilt(ps, fs, body[last..], 0);
    assert body[..last] + body[last..] == body;
    forall k | 0 <= k < |ps| ensures PieceOk(ps, fs, body[last..], k) {
    }
  }

  /** The inner loop: the end of the format that starts at `i`. */
  method FormatEnd(body: string, i: nat) returns (j: nat)
    requires i < |body| && body[i] == '%'
    ensures i < j <= |body| && IsFormat(body[i..j]) && (EndsInSpace(body[i..j]) || j == |body|)
  {
    j := i + 1;
    while j < |body| && body[j] != ' '
      invariant i < j <= |body| && forall k :: i < k < j ==> body[k] != ' '
    {
      j := j + 1;
    }
    if j < |body| {
      j := j + 1;
    }
  }

  /** `parse_format_string`; `ok` is false where `substr` throws. The pieces and the unread tail
      rebuild the body. */
  method ParseFormatString(fmt: string) returns (ok: bool, prefixes: seq<string>, formats: seq<string>,
                           ghost tail: string)
    ensures ok <==> fmt != ""
    ensures ok ==> && Decomposed(prefixes, formats, tail)
                   && Rebuilt(prefixes, formats, tail, 0) == if |fmt| == 1 then "" else fmt[1..|fmt| - 1]
  {
    prefixes, formats, tail := [], [], "";
    if |fmt| == 0 {
      return false, prefixes, formats, tail;
    }
    var body := BodyOf(fmt).value;
    var last, i := 0, 0;
    while i < |body|
      invariant last <= i <= |body| && Found(body, prefixes, formats, last) && Without(body[last..i], '%')
      decreases |body| - i
    {
      hide IsFormat, EndsInSpace, Found;
      if body[i] == '%' {
        var j := FormatEnd(body, i);
        FoundMore(body, prefixes, formats, last, i, j);
        prefixes, formats := prefixes + [body[last..i]], formats + [body[i..j]];
        i, last := j, j;
      } else {
        assert body[last..i + 1] == body[last..i] + [body[i]];
        i := i + 1;
      }
    }
    ok, tail := true, body[last..];
    assert body[last..i] == body[last..];
    FoundEnd(body, prefixes, formats, last);
  }

  // ---------------------------------------------------------------- uniqueness

  /** The first '%' of a text ends its prefix. */
  lemma PrefixUnique(p: string, x: string, q: string, y: string)
    requires p + x == q + y && Without(p, '%') && Without(q, '%')
    requires |x| > 0 && x[0] == '%' && |y| > 0 && y[0] == '%'
    ensures p == q && x == y
  {
    PrefixNotLonger(p, x, q, y);
    PrefixNotLonger(q, y, p, x);
    assert (p + x)[..|p|] == p && (q + y)[..|q|] == q;
    assert (p + x)[|p|..] == x && (q + y)[|q|..] == y;
  }

  lemma PrefixNotLonger(p: string, x: string, q: string, y: string)
    requires p + x == q + y && Without(p, '%') && |y| > 0 && y[0] == '%'
    ensures |p| <= |q|
  {
    assert (q + y)[|q|] == '%';
  }

  /** A format ends at its first space, or else at the end of the text. */
  lemma FormatNotLonger(f: string, x: string, g: string, y: string)
    requires f + x == g + y && IsFormat(f) && IsFormat(g) && (EndsInSpace(g) || y == "")
    ensures |f| <= |g|
  {
    if EndsInSpace(g) {
      assert (f + x)[|g| - 1] == ' ';
    }
  }

  lemma SameFormat(f: string, x: string, g: string, y: string)
    requires f + x == g + y && IsFormat(f) && IsFormat(g)
    requires (EndsInSpace(f) || x == "") && (EndsInSpace(g) || y == "")
    ensures f == g && x == y
  {
    hide IsFormat, EndsInSpace;
    FormatNotLonger(f, x, g, y);
    FormatNotLonger(g, y, f, x);
    assert (f + x)[..|f|] == f && (g + y)[..|g|] == g;
    assert (f + x)[|f|..] == x && (g + y)[|g|..] == y;
  }

  /** A piece's rest is empty if its format does not end in a space. */
  lemma PieceRest(ps: seq<string>, fs: seq<string>, tail: string, k: nat)
    requires Decomposed(ps, fs, tail) && k < |ps|
    ensures Without(ps[k], '%') && IsFormat(fs[k]) && |fs[k]| > 0 && fs[k][0] == '%'
    ensures EndsInSpace(fs[k]) || Rebuilt(ps, fs, tail, k + 1) == ""
  {
    hide Without;
    assert PieceOk(ps, fs, tail, k);
  }

  /** A text with a piece has a '%', a bare tail has none. */
  lemma EndIff(ps: seq<string>, fs: seq<string>, tail: string, k: nat)
    requires Decomposed(ps, fs, tail) && k <= |ps|
    ensures Without(Rebuilt(ps, fs, tail, k), '%') <==> k == |ps|
  {
    hide IsFormat, EndsInSpace;
    if k < |ps| {
      PieceRest(ps, fs, tail, k);
      assert Rebuilt(ps, fs, tail, k)[|ps[k]|] == '%';
    }
  }

  lemma {:induction false} UniqueFrom(ps: seq<string>, fs: seq<string>, tail: string, qs: seq<string>,
                                      gs: seq<string>, rest: string, k: nat)
    requires Decomposed(ps, fs, tail) && Decomposed(qs, gs, rest) && k <= |ps| && k <= |qs|
    requires Rebuilt(ps, fs, tail, k) == Rebuilt(qs, gs, rest, k)
    ensures |ps| == |qs| && ps[k..] == qs[k..] && fs[k..] == gs[k..] && tail == rest
    decreases |ps| - k
  {
    hide IsFormat, EndsInSpace, Without;
    EndIff(ps, fs, tail, k);
    EndIff(qs, gs, rest, k);
    if k < |ps| {
      PieceRest(ps, fs, tail, k);
      PieceRest(qs, gs, rest, k);
      var x, y := Rebuilt(ps, fs, tail, k + 1), Rebuilt(qs, gs, rest, k + 1);
      PrefixUnique(ps[k], fs[k] + x, qs[k], gs[k] + y);
      SameFormat(fs[k], x, gs[k], y);
      UniqueFrom(ps, fs, tail, qs, gs, rest, k + 1);
      FrontSame(ps, qs, k);
      FrontSame(fs, gs, k);
    }
  }

  lemma FrontSame(ps: seq<string>, qs: seq<string>, k: nat)
    requires k < |ps| && k < |qs| && ps[k] == qs[k] && ps[k + 1..] == qs[k + 1..]
    ensures ps[k..] == qs[k..]
  {
    assert ps[k..] == [ps[k]] + ps[k + 1..] && qs[k..] == [qs[k]] + qs[k + 1..];
  }

  /** A body has one decomposition: whatever prefixes, formats and tail rebuild it are the ones that
      `parse_format_string` returns. */
  lemma Unique(ps: seq<string>, fs: seq<string>, tail: string, qs: seq<string>, gs: seq<string>, rest: string)
    requires Decomposed(ps, fs, tail) && Decomposed(qs, gs, rest) &&
             Rebuilt(ps, fs, tail, 0) == Rebuilt(qs, gs, rest, 0)
    ensures ps == qs && fs == gs && tail == rest
  {
    UniqueFrom(ps, fs, tail, qs, gs, rest, 0);
    assert ps[0..] == ps && qs[0..] == qs && fs[0..] == fs && gs[0..] == gs;
  }

  /** No quote stands in `[lo, hi)`. */
  ghost predicate Unquoted(s: string, lo: nat, hi: nat) {
    forall i :: lo <= i < hi && i < |s| ==> s[i] != '"'
  }

  /** The first quoted part is `[from, to)`: with both quotes, or to the end if it is not closed. */
  ghost predicate QuotedPart(s: string, from: nat, to: nat) {
    && from < to <= |s| && s[from] == '"' && Unquoted(s, 0, from)
    && (|| (to == |s| && Unquoted(s, from + 1, to))
        || (from + 1 < to && s[to - 1] == '"' && Unquoted(s, from + 1, to - 1)))
  }

  /** `extractFormatString`: the first quoted part with its quotes; to the end if it is not closed,
      and nothing without a quote. */
  method ExtractFormatString(input: string) returns (result: string, ghost from: nat, ghost to: nat)
    ensures Unquoted(input, 0, |input|) ==> result == ""
    ensures !Unquoted(input, 0, |input|) ==> QuotedPart(input, from, to) && result == input[from..to]
  {
    var inQuote := false;
    result, from, to := "", 0, 0;
    for n := 0 to |input|
      invariant to == n
      invariant !inQuote ==> result == "" && Unquoted(input, 0, n)
      invariant inQuote ==> from < n && result == input[from..n] && input[from] == '"'
      invariant inQuote ==> Unquoted(input, 0, from) && Unquoted(input, from + 1, n)
    {
      var ch := input[n];
      to := n + 1;
      if ch == '"' {
        if inQuote {
          result := result + [ch];
          assert result == input[from..to];
          return;
        }
        result := result + [ch];
        inQuote, from := true, n;
        assert input[from..to] == [ch];
      } else if inQuote {
        result := result + [ch];
        assert result == input[from..to];
      }
    }
  }
}
