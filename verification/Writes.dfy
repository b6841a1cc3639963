/** A writer that alternates between two file positions, and what survives of its writes. */
module Writes {
  import opened Bytes

  /** `bs` written at file position `at`. */
  datatype Op = Op(at: nat, bs: bytes)

  /** A header write followed by a data write. */
  datatype Step = Step(hdr: Op, data: Op)

  function Written(d: bytes, s: Step): bytes {
    WriteAt(WriteAt(d, s.hdr.at, s.hdr.bs), s.data.at, s.data.bs)
  }

  /** `d` after the first `n` steps. */
  function Applied(d: bytes, steps: seq<Step>, n: nat): bytes
    requires n <= |steps|
  {
    if n == 0 then d else Written(Applied(d, steps, n - 1), steps[n - 1])
  }

  /** Write `o` stays outside `[lo, hi)`. */
  ghost predicate Outside(o: Op, lo: nat, hi: nat) {
    o.at + |o.bs| <= lo || hi <= o.at
  }

  ghost predicate StepOutside(s: Step, lo: nat, hi: nat) {
    Outside(s.hdr, lo, hi) && Outside(s.data, lo, hi)
  }

  lemma WrittenKeeps(d: bytes, s: Step, lo: nat, hi: nat)
    requires StepOutside(s, lo, hi)
    ensures Kept(d, Written(d, s), lo, hi)
  {
    var d1 := WriteAt(d, s.hdr.at, s.hdr.bs);
    WriteKeeps(d, s.hdr.at, s.hdr.bs, lo, hi);
    WriteKeeps(d1, s.data.at, s.data.bs, lo, hi);
    KeptTrans(d, d1, Written(d, s), lo, hi);
  }

  /** Steps `m` to `n` leave a range alone that they all stay out of. */
  lemma {:induction false} AppliedKeeps(d: bytes, steps: seq<Step>, m: nat, n: nat, lo: nat, hi: nat)
    requires m <= n <= |steps| && forall j :: m <= j < n ==> StepOutside(steps[j], lo, hi)
    ensures Kept(Applied(d, steps, m), Applied(d, steps, n), lo, hi)
  {
    if m == n {
      KeptSelf(Applied(d, steps, m), lo, hi);
    } else {
      AppliedKeeps(d, steps, m, n - 1, lo, hi);
      WrittenKeeps(Applied(d, steps, n - 1), steps[n - 1], lo, hi);
      KeptTrans(Applied(d, steps, m), Applied(d, steps, n - 1), Applied(d, steps, n), lo, hi);
    }
  }

  lemma AppliedNext(d: bytes, steps: seq<Step>, k: nat)
    requires k < |steps|
    ensures Applied(d, steps, k + 1) == Written(Applied(d, steps, k), steps[k])
  {
    hide Written;
  }

  function End(o: Op): nat {
    o.at + |o.bs|
  }

  /** Headers fill slots in `[ph, end)` in increasing order, data blocks follow each other from
      `dp` on, and the slots end before the data begins. */
  ghost predicate Ordered(steps: seq<Step>, ph: nat, end: nat, dp: nat) {
    && end <= dp
    && (forall i :: 0 <= i < |steps| ==> ph <= steps[i].hdr.at && End(steps[i].hdr) <= end && dp <= steps[i].data.at)
    && (forall i, j :: 0 <= i < j < |steps| ==>
          End(steps[i].hdr) <= steps[j].hdr.at && End(steps[i].data) <= steps[j].data.at)
  }

  /** Ordered steps leave alone everything before both positions, and everything between the
      slots and the data. */
  lemma OrderedKeeps(d: bytes, steps: seq<Step>, ph: nat, end: nat, dp: nat, lo: nat, hi: nat)
    requires Ordered(steps, ph, end, dp) && hi <= dp && (hi <= ph || end <= lo)
    ensures Kept(d, Applied(d, steps, |steps|), lo, hi)
  {
    AppliedKeeps(d, steps, 0, |steps|, lo, hi);
  }

  /** A header that no later write touches is still there at the end. */
  lemma UntouchedHeader(d: bytes, steps: seq<Step>, i: nat)
    requires i < |steps|
    requires Outside(steps[i].data, steps[i].hdr.at, End(steps[i].hdr))
    requires forall j :: i < j < |steps| ==> StepOutside(steps[j], steps[i].hdr.at, End(steps[i].hdr))
    ensures Holds(Applied(d, steps, |steps|), steps[i].hdr.at, steps[i].hdr.bs)
  {
    hide WriteAt, Holds, Kept;
    var h, s := steps[i].hdr, steps[i];
    var d0 := Applied(d, steps, i);
    var d1 := WriteAt(d0, h.at, h.bs);
    HoldsWritten(d0, h.at, h.bs);
    WriteKeeps(d1, s.data.at, s.data.bs, h.at, End(h));
    HoldsKept(d1, Written(d0, s), h.at, h.bs, h.at, End(h));
    AppliedKeeps(d, steps, i + 1, |steps|, h.at, End(h));
    HoldsKept(Applied(d, steps, i + 1), Applied(d, steps, |steps|), h.at, h.bs, h.at, End(h));
  }

  /** Every header of an ordered writer is still there at the end. */
  lemma HeaderSurvives(d: bytes, steps: seq<Step>, ph: nat, end: nat, dp: nat, i: nat)
    requires Ordered(steps, ph, end, dp) && i < |steps|
    ensures Holds(Applied(d, steps, |steps|), steps[i].hdr.at, steps[i].hdr.bs)
  {
    hide Applied, Holds;
    UntouchedHeader(d, steps, i);
  }

  /** Data that no later write touches is still there at the end. */
  lemma UntouchedData(d: bytes, steps: seq<Step>, i: nat)
    requires i < |steps|
    requires forall j :: i < j < |steps| ==> StepOutside(steps[j], steps[i].data.at, End(steps[i].data))
    ensures Holds(Applied(d, steps, |steps|), steps[i].data.at, steps[i].data.bs)
  {
    hide WriteAt, Holds, Kept;
    var b, s := steps[i].data, steps[i];
    HoldsWritten(WriteAt(Applied(d, steps, i), s.hdr.at, s.hdr.bs), b.at, b.bs);
    AppliedKeeps(d, steps, i + 1, |steps|, b.at, End(b));
    HoldsKept(Applied(d, steps, i + 1), Applied(d, steps, |steps|), b.at, b.bs, b.at, End(b));
  }

  /** So is every data block. */
  lemma DataSurvives(d: bytes, steps: seq<Step>, ph: nat, end: nat, dp: nat, i: nat)
    requires Ordered(steps, ph, end, dp) && i < |steps|
    ensures Holds(Applied(d, steps, |steps|), steps[i].data.at, steps[i].data.bs)
  {
    hide Applied, Holds;
    UntouchedData(d, steps, i);
  }
}
