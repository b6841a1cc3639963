/** The trace.dat writer: the options block, written twice, and the per-CPU buffers whose
    positions the second writing fills in. */
module TraceDat {
  import opened Bytes
  import opened OutFile

  /** A trace array: its name and the pages of each CPU's ring buffer (one ring buffer per CPU). */
  datatype Array = Array(name: bytes, bufs: seq<seq<bytes>>) {
    predicate Global() {
      name == Ascii("global")
    }
  }

  ghost predicate ValidArray(a: Array, page: nat) {
    |a.name| + 9 < 0x1_0000_0000
    && forall c, k :: 0 <= c < |a.bufs| && 0 <= k < |a.bufs[c]| ==> |a.bufs[c][k]| == page
  }

  ghost predicate ValidArrays(ts: seq<Array>, page: nat) {
    page > 0 && forall i :: 0 <= i < |ts| ==> ValidArray(ts[i], page)
  }

  /** "options  " and "flyrecord", each with its NUL. */
  function OptionsTag(): (bs: bytes)
    ensures |bs| == 10
  {
    Ascii("options  ") + [0]
  }

  function FlyTag(): (bs: bytes)
    ensures |bs| == 10
  {
    Ascii("flyrecord") + [0]
  }

  // ---------------------------------------------------------------- the options block

  /** The option record of an instance: tag, size, buffer position, name. */
  function OptionBytes(a: Array, off: nat): (bs: bytes)
    ensures |bs| == 15 + |a.name|
  {
    (LE(3, 2) + LE(|a.name| + 9, 4)) + (LE(off, 8) + (a.name + [0]))
  }

  /** The option records of the first `i` arrays; the global one has none. */
  function OptionsTo(ts: seq<Array>, offs: seq<nat>, i: nat): bytes
    requires i <= |ts| == |offs|
  {
    if i == 0 then []
    else OptionsTo(ts, offs, i - 1) + (if ts[i - 1].Global() then [] else OptionBytes(ts[i - 1], offs[i - 1]))
  }

  function ResHead(nr: nat): (bs: bytes)
    ensures |bs| == 14
  {
    LE(nr, 4) + OptionsTag()
  }

  function ResTail(): (bs: bytes)
    ensures |bs| == 12
  {
    LE(0, 2) + FlyTag()
  }

  /** What `write_res_data` writes with the positions `offs`. */
  function ResBytes(nr: nat, ts: seq<Array>, offs: seq<nat>): bytes
    requires |ts| == |offs|
  {
    ResHead(nr) + (OptionsTo(ts, offs, |ts|) + ResTail())
  }

  /** Where the option record of array `i` starts in the block. */
  function OptionPos(ts: seq<Array>, i: nat): nat
    requires i <= |ts|
  {
    if i == 0 then 14 else OptionPos(ts, i - 1) + if ts[i - 1].Global() then 0 else 15 + |ts[i - 1].name|
  }

  /** `write_res_data`. */
  method WriteResData(f: File, nr: nat, ts: seq<Array>, offs: array<nat>)
    requires offs.Length == |ts|
    modifies f
    ensures f.data == WriteAt(old(f.data), old(f.pos), ResBytes(nr, ts, offs[..]))
    ensures f.pos == old(f.pos) + |ResBytes(nr, ts, offs[..])|
  {
    hide WriteAt, OptionBytes, ResHead, ResTail;
    ghost var d, p, os := f.data, f.pos, offs[..];
    var head, tail := ResHead(nr), ResTail();
    f.Write(head);
    ghost var done := head;
    assert head + OptionsTo(ts, os, 0) == head;
    for i := 0 to |ts|
      invariant offs[..] == os && done == head + OptionsTo(ts, os, i)
      invariant f.data == WriteAt(d, p, done) && f.pos == p + |done|
    {
      if !ts[i].Global() {
        var rec := OptionBytes(ts[i], offs[i]);
        f.Write(rec);
        WriteTwice(d, p, done, rec);
        done := done + rec;
        assert done == head + OptionsTo(ts, os, i + 1);
      } else {
        assert OptionsTo(ts, os, i + 1) == OptionsTo(ts, os, i);
      }
    }
    f.Write(tail);
    WriteTwice(d, p, done, tail);
    assert done + tail == ResBytes(nr, ts, os);
  }

  lemma {:induction false} OptionsLength(ts: seq<Array>, offs: seq<nat>, i: nat)
    requires i <= |ts| == |offs|
    ensures 14 + |OptionsTo(ts, offs, i)| == OptionPos(ts, i)
  {
    hide OptionBytes;
    if i > 0 {
      OptionsLength(ts, offs, i - 1);
    }
  }

  /** The two writings of the block have the same length, whatever positions they carry. */
  lemma ResLength(nr: nat, ts: seq<Array>, offs: seq<nat>)
    requires |ts| == |offs|
    ensures |ResBytes(nr, ts, offs)| == OptionPos(ts, |ts|) + 12
  {
    hide OptionsTo;
    OptionsLength(ts, offs, |ts|);
  }

  lemma {:induction false} OptionHeld(d: bytes, p: nat, ts: seq<Array>, offs: seq<nat>, n: nat, i: nat)
    requires i < n <= |ts| == |offs| && !ts[i].Global() && Holds(d, p + 14, OptionsTo(ts, offs, n))
    ensures Holds(d, p + OptionPos(ts, i), OptionBytes(ts[i], offs[i]))
    decreases n
  {
    hide Holds, OptionBytes;
    OptionsLength(ts, offs, n - 1);
    var last := if ts[n - 1].Global() then [] else OptionBytes(ts[n - 1], offs[n - 1]);
    HoldsConcat(d, p + 14, OptionsTo(ts, offs, n - 1), last);
    if i < n - 1 {
      OptionHeld(d, p, ts, offs, n - 1, i);
    }
  }

  lemma OptionRead(d: bytes, p: nat, a: Array, off: nat)
    requires Holds(d, p, OptionBytes(a, off)) && off < 0x1_0000_0000_0000_0000 && |a.name| + 9 < 0x1_0000_0000
    ensures U(d, p, 2) == 3 && U(d, p + 2, 4) == |a.name| + 9 && U(d, p + 6, 8) == off && Holds(d, p + 14, a.name + [0])
  {
    hide Holds, U, LE;
    Pow256Values();
    HoldsConcat(d, p, LE(3, 2) + LE(|a.name| + 9, 4), LE(off, 8) + (a.name + [0]));
    TakeWord(d, p, 3, 2, LE(|a.name| + 9, 4));
    WordHeld(d, p + 2, |a.name| + 9, 4);
    TakeWord(d, p + 6, off, 8, a.name + [0]);
  }

  /** A file that holds the block gives every instance's position back from its option record. */
  lemma ResReads(d: bytes, p: nat, nr: nat, ts: seq<Array>, offs: seq<nat>, i: nat)
    requires i < |ts| == |offs| && !ts[i].Global() && Holds(d, p, ResBytes(nr, ts, offs))
    requires offs[i] < 0x1_0000_0000_0000_0000 && |ts[i].name| + 9 < 0x1_0000_0000
    ensures var q := p + OptionPos(ts, i);
            U(d, q, 2) == 3 && U(d, q + 2, 4) == |ts[i].name| + 9 && U(d, q + 6, 8) == offs[i] &&
              Holds(d, q + 14, ts[i].name + [0])
  {
    hide Holds, U, OptionBytes, OptionsTo, ResHead, ResTail;
    var os := OptionsTo(ts, offs, |ts|);
    HoldsConcat(d, p, ResHead(nr), os + ResTail());
    HoldsConcat(d, p + 14, os, ResTail());
    OptionHeld(d, p, ts, offs, |ts|, i);
    OptionRead(d, p + OptionPos(ts, i), ts[i], offs[i]);
  }

  /** Byte `k` of the block belongs to the position field of some option record. */
  ghost predicate InOffsetField(ts: seq<Array>, k: nat, n: nat)
    requires n <= |ts|
  {
    exists i :: 0 <= i < n && OptionField(ts, i, k)
  }

  ghost predicate OptionField(ts: seq<Array>, i: nat, k: nat)
    requires i < |ts|
  {
    !ts[i].Global() && OptionPos(ts, i) + 6 <= k < OptionPos(ts, i) + 14
  }

  lemma OptionSame(a: Array, x: nat, y: nat, k: nat)
    requires k < 15 + |a.name| && !(6 <= k < 14)
    ensures OptionBytes(a, x)[k] == OptionBytes(a, y)[k]
  {
    hide LE;
  }

  lemma {:induction false} OptionsSame(ts: seq<Array>, xs: seq<nat>, ys: seq<nat>, n: nat, k: nat)
    requires n <= |ts| == |xs| == |ys| && 14 <= k < OptionPos(ts, n) && !InOffsetField(ts, k, n)
    ensures |OptionsTo(ts, xs, n)| == |OptionsTo(ts, ys, n)| == OptionPos(ts, n) - 14
    ensures OptionsTo(ts, xs, n)[k - 14] == OptionsTo(ts, ys, n)[k - 14]
    decreases n
  {
    hide OptionBytes;
    OptionsLength(ts, xs, n);
    OptionsLength(ts, ys, n);
    OptionsLength(ts, xs, n - 1);
    OptionsLength(ts, ys, n - 1);
    if k < OptionPos(ts, n - 1) {
      assert !InOffsetField(ts, k, n - 1);
      OptionsSame(ts, xs, ys, n - 1, k);
    } else {
      assert !OptionField(ts, n - 1, k);
      OptionSame(ts[n - 1], xs[n - 1], ys[n - 1], k - OptionPos(ts, n - 1));
    }
  }

  /** Writing the block again with other positions changes nothing but the 8-byte position fields,
      whatever stale positions the first writing carried. */
  lemma ResPatched(nr: nat, ts: seq<Array>, xs: seq<nat>, ys: seq<nat>, k: nat)
    requires |ts| == |xs| == |ys| && k < |ResBytes(nr, ts, xs)| && !InOffsetField(ts, k, |ts|)
    ensures |ResBytes(nr, ts, xs)| == |ResBytes(nr, ts, ys)| && ResBytes(nr, ts, xs)[k] == ResBytes(nr, ts, ys)[k]
  {
    hide OptionsTo, ResHead, ResTail;
    ResLength(nr, ts, xs);
    ResLength(nr, ts, ys);
    OptionsLength(ts, xs, |ts|);
    OptionsLength(ts, ys, |ts|);
    if 14 <= k < OptionPos(ts, |ts|) {
      OptionsSame(ts, xs, ys, |ts|, k);
    }
  }
}
