/** Bytes, little-endian words and random-access byte images.

    Every writer of the repository copies the first `w` bytes of an integer on a
    little-endian host; `LE` is that copy and `U` is how a reader gets it back. */
module Bytes {
  type byte = x: int | 0 <= x < 256
  type bytes = seq<byte>

  datatype Option<+T> = None | Some(value: T)

  /** The bytes of a literal. */
  function Ascii(s: string): (bs: bytes)
    ensures |bs| == |s|
  {
    seq<byte>(|s|, i requires 0 <= i < |s| => (s[i] as int) % 256)
  }

  function Pow256(w: nat): (r: nat)
    ensures r > 0
  {
    if w == 0 then 1 else 256 * Pow256(w - 1)
  }

  /** The values of `Pow256` at the word sizes in use. */
  lemma Pow256Values()
    ensures Pow256(1) == 0x100 && Pow256(2) == 0x1_0000
    ensures Pow256(4) == 0x1_0000_0000 && Pow256(8) == 0x1_0000_0000_0000_0000
  {
    assert Pow256(2) == 256 * Pow256(1);
    assert Pow256(4) == 256 * Pow256(3) && Pow256(3) == 256 * Pow256(2);
    assert Pow256(6) == 256 * Pow256(5) && Pow256(5) == 256 * Pow256(4);
    assert Pow256(8) == 256 * Pow256(7) && Pow256(7) == 256 * Pow256(6);
  }

  /** The low `w` bytes of `n`, least significant first. */
  function LE(n: nat, w: nat): (bs: bytes)
    ensures |bs| == w
  {
    if w == 0 then [] else [n % 256] + LE(n / 256, w - 1)
  }

  /** `n` zero bytes. */
  function Zeros(n: nat): (bs: bytes)
    ensures |bs| == n
    ensures forall i :: 0 <= i < n ==> bs[i] == 0
  {
    seq(n, _ => 0)
  }

  /** Rounds `x` up to a multiple of `y` (`defs.h`). */
  function RoundUp(x: nat, y: nat): (r: nat)
    requires y > 0
    ensures x <= r < x + y
    ensures r % y == 0
  {
    DivMod(x + (y - 1), y);
    MulMod((x + (y - 1)) / y, y);
    ((x + (y - 1)) / y) * y
  }

  /** `RoundUp` at the note alignment. */
  function Round4(x: nat): (r: nat)
    ensures x <= r < x + 4 && r % 4 == 0
  {
    RoundUp(x, 4)
  }

  lemma DivMod(x: nat, y: nat)
    requires y > 0
    ensures x == (x / y) * y + x % y && 0 <= x % y < y
  {
  }

  lemma {:induction false} MulMod(q: nat, y: nat)
    requires y > 0
    ensures (q * y) % y == 0
  {
    if q == 0 {
    } else {
      MulMod(q - 1, y);
      AddMod((q - 1) * y, y);
      assert q * y == (q - 1) * y + y;
    }
  }

  lemma AddMod(x: nat, y: nat)
    requires y > 0
    ensures (x + y) % y == x % y
  {
    var q := (x + y) / y - 1;
    DivMod(x + y, y);
    DivMod(x, y);
    UniqueRemainder(x, q, (x + y) % y, x / y, x % y, y);
  }

  lemma UniqueRemainder(x: nat, q0: int, r0: int, q1: int, r1: int, y: nat)
    requires y > 0 && 0 <= r0 < y && 0 <= r1 < y
    requires x == q0 * y + r0 && x == q1 * y + r1
    ensures q0 == q1 && r0 == r1
  {
    assert (q0 - q1) * y == r1 - r0 && (q1 - q0) * y == r0 - r1;
    if q0 > q1 {
      AtLeastOnce(q0 - q1, y);
    } else if q0 < q1 {
      AtLeastOnce(q1 - q0, y);
    }
  }

  lemma AtLeastOnce(k: nat, y: nat)
    requires k >= 1
    ensures k * y >= y
  {
    assert k * y == y + (k - 1) * y;
  }

  /** Sums of multiples are multiples, and adding a multiple keeps the remainder. */
  lemma AddMultiple(x: nat, m: nat, y: nat)
    requires y > 0 && m % y == 0
    ensures (x + m) % y == x % y
  {
    DivMod(m, y);
    DivMod(x, y);
    DivMod(x + m, y);
    var a, b := m / y, x / y;
    assert x + m == (a + b) * y + x % y by {
      assert (a + b) * y == a * y + b * y;
    }
    UniqueRemainder(x + m, (x + m) / y, (x + m) % y, a + b, x % y, y);
  }

  /** The zero bytes that `dump_align` adds at position `pos`. */
  function Padding(pos: nat, align: nat): bytes
    requires align > 0
  {
    Zeros(if pos % align == 0 then 0 else align - pos % align)
  }

  /** Byte `i` of `d` after writing `bs` at offset `p`; a gap beyond the old end reads as zero. */
  function ByteAfter(d: bytes, p: nat, bs: bytes, i: nat): byte {
    if p <= i < p + |bs| then bs[i - p] else if i < |d| then d[i] else 0
  }

  /** `d` after writing `bs` at offset `p`; an empty write does not extend `d`. */
  function WriteAt(d: bytes, p: nat, bs: bytes): bytes {
    seq(if bs == [] || p + |bs| <= |d| then |d| else p + |bs|, i requires i >= 0 => ByteAfter(d, p, bs, i))
  }

  lemma WriteAtIndex(d: bytes, p: nat, bs: bytes, i: nat)
    requires i < |WriteAt(d, p, bs)|
    ensures WriteAt(d, p, bs)[i] == ByteAfter(d, p, bs, i)
  {
  }

  lemma WriteNothing(d: bytes, p: nat)
    ensures WriteAt(d, p, []) == d
  {
  }

  /** Consecutive writes are one write. */
  lemma WriteTwice(d: bytes, p: nat, a: bytes, b: bytes)
    ensures WriteAt(WriteAt(d, p, a), p + |a|, b) == WriteAt(d, p, a + b)
  {
    var l, r := WriteAt(WriteAt(d, p, a), p + |a|, b), WriteAt(d, p, a + b);
    assert |l| == |r|;
    forall i | 0 <= i < |l| ensures l[i] == r[i] {
      WriteAtIndex(d, p, a + b, i);
      WriteAtIndex(WriteAt(d, p, a), p + |a|, b, i);
      if i < |WriteAt(d, p, a)| {
        WriteAtIndex(d, p, a, i);
      }
    }
  }

  /** A writer that started at `start` of `d0` has put out `done`, has reached `pos` of `d`, and
      still has `tail` of `goal` to put out. */
  ghost predicate Emitting(d0: bytes, start: nat, goal: bytes, d: bytes, pos: nat, done: bytes, tail: bytes) {
    d == WriteAt(d0, start, done) && pos == start + |done| && goal == done + tail
  }

  lemma EmitStart(d: bytes, start: nat, goal: bytes)
    ensures Emitting(d, start, goal, d, start, [], goal)
  {
    WriteNothing(d, start);
    assert [] + goal == goal;
  }

  /** Putting out the next piece. */
  lemma EmitNext(d0: bytes, start: nat, goal: bytes, d: bytes, pos: nat, done: bytes, bs: bytes, tail: bytes)
    requires Emitting(d0, start, goal, d, pos, done, bs + tail)
    ensures Emitting(d0, start, goal, WriteAt(d, pos, bs), pos + |bs|, done + bs, tail)
  {
    WriteTwice(d0, start, done, bs);
    assert done + (bs + tail) == (done + bs) + tail;
  }

  lemma EmitEnd(d0: bytes, start: nat, goal: bytes, d: bytes, pos: nat, done: bytes)
    requires Emitting(d0, start, goal, d, pos, done, [])
    ensures d == WriteAt(d0, start, goal) && pos == start + |goal|
  {
    assert done + [] == done;
  }

  ghost predicate Agrees<T>(d: seq<T>, p: nat, bs: seq<T>, i: int)
    requires 0 <= i < |bs|
  {
    p + i < |d| && d[p + i] == bs[i]
  }

  /** `bs` stands at offset `p` of `d`. */
  ghost predicate Holds<T>(d: seq<T>, p: nat, bs: seq<T>) {
    forall i :: 0 <= i < |bs| ==> Agrees(d, p, bs, i)
  }

  lemma HoldsWritten(d: bytes, p: nat, bs: bytes)
    ensures Holds(WriteAt(d, p, bs), p, bs)
  {
    forall i | 0 <= i < |bs| ensures Agrees(WriteAt(d, p, bs), p, bs, i) {
      WriteAtIndex(d, p, bs, p + i);
    }
  }

  lemma HoldsConcat<T>(d: seq<T>, p: nat, a: seq<T>, b: seq<T>)
    ensures Holds(d, p, a + b) <==> Holds(d, p, a) && Holds(d, p + |a|, b)
  {
    var c := a + b;
    if Holds(d, p, c) {
      forall i | 0 <= i < |a| ensures Agrees(d, p, a, i) {
        assert Agrees(d, p, c, i);
      }
      var q := p + |a|;
      forall i | 0 <= i < |b| ensures Agrees(d, q, b, i) {
        assert Agrees(d, p, c, |a| + i);
      }
    }
    if Holds(d, p, a) && Holds(d, p + |a|, b) {
      forall i | 0 <= i < |c| ensures Agrees(d, p, c, i) {
        if i < |a| {
          assert Agrees(d, p, a, i);
        } else {
          assert Agrees(d, p + |a|, b, i - |a|);
        }
      }
    }
  }

  lemma HoldsPrefix(d: bytes, p: nat, a: bytes, b: bytes)
    requires Holds(d, p, a + b)
    ensures Holds(d, p, a)
  {
    HoldsConcat(d, p, a, b);
  }

  /** The `n` bytes at offset `p`. */
  function Sub(d: bytes, p: nat, n: nat): (r: bytes)
    requires p + n <= |d|
    ensures |r| == n
  {
    seq(n, i requires 0 <= i < n => d[p + i])
  }

  lemma SubHeld(d: bytes, p: nat, bs: bytes)
    requires Holds(d, p, bs) && p + |bs| <= |d|
    ensures Sub(d, p, |bs|) == bs
  {
    forall i | 0 <= i < |bs| ensures Sub(d, p, |bs|)[i] == bs[i] {
      assert Agrees(d, p, bs, i);
    }
  }

  ghost predicate KeptAt(d: bytes, e: bytes, i: nat) {
    i < |e| ==> e[i] == if i < |d| then d[i] else 0
  }

  /** `e` keeps every byte that `d` has in `[lo, hi)` and adds only zeros there. */
  ghost predicate Kept(d: bytes, e: bytes, lo: nat, hi: nat) {
    |d| <= |e| && forall i :: lo <= i < hi ==> KeptAt(d, e, i)
  }

  lemma KeptSelf(d: bytes, lo: nat, hi: nat)
    ensures Kept(d, d, lo, hi)
  {
  }

  lemma KeptTrans(a: bytes, b: bytes, c: bytes, lo: nat, hi: nat)
    requires Kept(a, b, lo, hi) && Kept(b, c, lo, hi)
    ensures Kept(a, c, lo, hi)
  {
    forall i | lo <= i < hi ensures KeptAt(a, c, i) {
      assert KeptAt(a, b, i) && KeptAt(b, c, i);
    }
  }

  lemma WriteKeeps(d: bytes, p: nat, bs: bytes, lo: nat, hi: nat)
    requires hi <= p || p + |bs| <= lo
    ensures Kept(d, WriteAt(d, p, bs), lo, hi)
  {
    forall i | lo <= i < hi ensures KeptAt(d, WriteAt(d, p, bs), i) {
      if i < |WriteAt(d, p, bs)| {
        WriteAtIndex(d, p, bs, i);
      }
    }
  }

  lemma HoldsKept(d: bytes, e: bytes, p: nat, bs: bytes, lo: nat, hi: nat)
    requires Holds(d, p, bs) && Kept(d, e, lo, hi)
    requires lo <= p && p + |bs| <= hi
    ensures Holds(e, p, bs)
  {
    forall i | 0 <= i < |bs| ensures Agrees(e, p, bs, i) {
      assert Agrees(d, p, bs, i) && KeptAt(d, e, p + i);
    }
  }

  ghost predicate ZeroAt(d: bytes, i: nat) {
    i < |d| ==> d[i] == 0
  }

  /** Bytes that exist in `[lo, hi)` are zero. */
  ghost predicate ZeroOn(d: bytes, lo: nat, hi: nat) {
    forall i :: lo <= i < hi ==> ZeroAt(d, i)
  }

  lemma ZeroKept(d: bytes, e: bytes, lo: nat, hi: nat)
    requires ZeroOn(d, lo, hi) && Kept(d, e, lo, hi)
    ensures ZeroOn(e, lo, hi)
  {
    forall i | lo <= i < hi ensures ZeroAt(e, i) {
      assert ZeroAt(d, i) && KeptAt(d, e, i);
    }
  }

  /** The `w`-byte little-endian word at offset `p`; bytes past the end count as zero. */
  function U(d: bytes, p: nat, w: nat): nat
    decreases w
  {
    if w == 0 then 0 else (if p < |d| then d[p] else 0) + 256 * U(d, p + 1, w - 1)
  }

  lemma {:induction false} WordHeld(d: bytes, p: nat, v: nat, w: nat)
    requires Holds(d, p, LE(v, w)) && v < Pow256(w)
    ensures U(d, p, w) == v
    decreases w
  {
    if w == 0 {
    } else {
      assert Agrees(d, p, LE(v, w), 0);
      HoldsConcat<byte>(d, p, [v % 256], LE(v / 256, w - 1));
      WordHeld(d, p + 1, v / 256, w - 1);
    }
  }

  /** Reading one word of a sequence of words: it comes back and the rest follows it. */
  lemma TakeWord(d: bytes, p: nat, v: nat, w: nat, rest: bytes)
    requires Holds(d, p, LE(v, w) + rest) && v < Pow256(w)
    ensures U(d, p, w) == v && Holds(d, p + w, rest)
  {
    HoldsConcat(d, p, LE(v, w), rest);
    WordHeld(d, p, v, w);
  }

  /** A struct member: its value and its width in bytes. */
  datatype Field = F(v: nat, w: nat)

  /** The total width of the members from `k` on. */
  function Width(fs: seq<Field>, k: nat): nat
    decreases |fs| - k
  {
    if k >= |fs| then 0 else fs[k].w + Width(fs, k + 1)
  }

  lemma WidthStep(fs: seq<Field>, k: nat)
    requires k < |fs|
    ensures Width(fs, k) == fs[k].w + Width(fs, k + 1)
    ensures k + 1 == |fs| ==> Width(fs, k + 1) == 0
  {
  }

  /** The memory image of the members of a packed struct from `k` on. */
  function Pack(fs: seq<Field>, k: nat): (bs: bytes)
    ensures |bs| == Width(fs, k)
    decreases |fs| - k
  {
    if k >= |fs| then [] else LE(fs[k].v, fs[k].w) + Pack(fs, k + 1)
  }

  /** Reading member `k` of a packed struct. */
  lemma TakeField(d: bytes, p: nat, fs: seq<Field>, k: nat)
    requires k < |fs| && fs[k].v < Pow256(fs[k].w)
    requires Holds(d, p, Pack(fs, k))
    ensures U(d, p, fs[k].w) == fs[k].v && Holds(d, p + fs[k].w, Pack(fs, k + 1))
  {
    TakeWord(d, p, fs[k].v, fs[k].w, Pack(fs, k + 1));
  }

  lemma HeldWhole<T>(d: seq<T>)
    ensures Holds(d, 0, d)
  {
  }

  /** The NUL-terminated string at `q`, without the NUL. */
  function CStr(d: bytes, q: nat): bytes
    decreases |d| - q
  {
    if q >= |d| || d[q] == 0 then [] else [d[q]] + CStr(d, q + 1)
  }

  ghost predicate NulFree(s: bytes) {
    forall i :: 0 <= i < |s| ==> s[i] != 0
  }

  lemma {:induction false} CStrReads(d: bytes, q: nat, s: bytes, k: nat)
    requires NulFree(s) && Holds(d, q, s + [0]) && k <= |s|
    ensures CStr(d, q + k) == s[k..]
    decreases |s| - k
  {
    assert Agrees(d, q, s + [0], k);
    if k < |s| {
      CStrReads(d, q, s, k + 1);
      assert s[k..] == [s[k]] + s[k + 1..];
    }
  }

  lemma CStrHeld(d: bytes, q: nat, s: bytes)
    requires NulFree(s) && Holds(d, q, s + [0])
    ensures CStr(d, q) == s
  {
    CStrReads(d, q, s, 0);
    assert s[0..] == s;
  }

  /** The concatenation of the first `k` pieces. */
  function JoinTo(ps: seq<bytes>, k: nat): bytes
    requires k <= |ps|
  {
    if k == 0 then [] else JoinTo(ps, k - 1) + ps[k - 1]
  }

  /** All pieces in one text. */
  function Join(ps: seq<bytes>): bytes {
    JoinTo(ps, |ps|)
  }

  lemma JoinNone(ps: seq<bytes>)
    ensures JoinTo(ps, 0) == []
  {
  }

  lemma JoinNext(ps: seq<bytes>, k: nat)
    requires k < |ps|
    ensures JoinTo(ps, k + 1) == JoinTo(ps, k) + ps[k]
  {
  }

  lemma {:induction false} JoinFront(a: seq<bytes>, b: seq<bytes>, k: nat)
    requires k <= |a|
    ensures JoinTo(a + b, k) == JoinTo(a, k)
  {
    if k > 0 {
      JoinFront(a, b, k - 1);
    }
  }

  lemma {:induction false} JoinConcat(a: seq<bytes>, b: seq<bytes>, k: nat)
    requires k <= |b|
    ensures JoinTo(a + b, |a| + k) == JoinTo(a, |a|) + JoinTo(b, k)
    decreases k
  {
    hide JoinTo;
    if k == 0 {
      JoinFront(a, b, |a|);
      JoinNone(b);
    } else {
      JoinConcat(a, b, k - 1);
      JoinNext(a + b, |a| + k - 1);
      JoinNext(b, k - 1);
      var x, y, z := JoinTo(a, |a|), JoinTo(b, k - 1), b[k - 1];
      assert (x + y) + z == x + (y + z);
    }
  }

  lemma JoinTwo(a: seq<bytes>, b: seq<bytes>)
    ensures Join(a + b) == Join(a) + Join(b)
  {
    JoinConcat(a, b, |b|);
  }

  lemma JoinOne(p: bytes)
    ensures Join([p]) == p
  {
    assert JoinTo([p], 1) == JoinTo([p], 0) + p;
  }

  // ---------------------------------------------------------------- splitting at a separator

  ghost predicate Without<T>(s: seq<T>, c: T) {
    forall i :: 0 <= i < |s| ==> s[i] != c
  }

  lemma NotLonger<T>(a: seq<T>, x: seq<T>, b: seq<T>, y: seq<T>, c: T)
    requires a + [c] + x == b + [c] + y && Without(x, c)
    ensures |a| >= |b|
  {
    assert (a + [c] + x)[|b|] == c;
    assert forall k :: |a| < k < |a + [c] + x| ==> (a + [c] + x)[k] == x[k - |a| - 1];
  }

  /** A text is split at its last `c` in one way. */
  lemma SplitLast<T>(a: seq<T>, x: seq<T>, b: seq<T>, y: seq<T>, c: T)
    requires a + [c] + x == b + [c] + y && Without(x, c) && Without(y, c)
    ensures a == b && x == y
  {
    NotLonger(a, x, b, y, c);
    NotLonger(b, y, a, x, c);
    var s := a + [c] + x;
    assert s[..|a|] == a && s[..|b|] == b && s[|a| + 1..] == x && s[|b| + 1..] == y;
  }
}
