/** The auxiliary vector note: the writer puts the (possibly changed) entries over the saved
    copy, followed by a null entry. */
module Auxv {
  import opened Bytes

  const AT_PHDR: nat := 3
  const AT_EXECFN: nat := 31

  /** An entry: its type and its value. */
  datatype Aux = Aux(key: nat, val: nat)

  /** The value that a scan from `i` finds for `key`. */
  function Lookup(es: seq<Aux>, key: nat, i: nat): Option<nat>
    decreases |es| - i
  {
    if i >= |es| then None else if es[i].key == key then Some(es[i].val) else Lookup(es, key, i + 1)
  }

  /** `set_auxv`. */
  function SetAux(es: seq<Aux>, key: nat, val: nat, i: nat): seq<Aux>
    decreases |es| - i
  {
    if i >= |es| then es + [Aux(key, val)]
    else if es[i].key == key then es[i := Aux(key, val)]
    else SetAux(es, key, val, i + 1)
  }

  /** Setting one key changes the answer for that key only. */
  lemma {:induction false} LookupSet(es: seq<Aux>, key: nat, val: nat, other: nat, i: nat)
    requires i <= |es| && forall j :: 0 <= j < i ==> es[j].key != key
    ensures var fs := SetAux(es, key, val, i);
            && |es| <= |fs| && (forall j :: 0 <= j < i ==> fs[j] == es[j])
            && Lookup(fs, key, i) == Some(val)
            && (other != key ==> Lookup(fs, other, i) == Lookup(es, other, i))
    decreases |es| - i
  {
    var fs := SetAux(es, key, val, i);
    if i >= |es| {
      assert fs[i].key == key && Lookup(fs, other, i + 1) == None;
    } else if es[i].key == key {
      if other != key {
        LookupSame(es, fs, other, i + 1);
      }
    } else {
      LookupSet(es, key, val, other, i + 1);
      assert fs[i] == es[i];
    }
  }

  lemma {:induction false} LookupSame(es: seq<Aux>, fs: seq<Aux>, key: nat, i: nat)
    requires |es| == |fs| && forall j :: i <= j < |es| ==> es[j] == fs[j]
    ensures Lookup(es, key, i) == Lookup(fs, key, i)
    decreases |es| - i
  {
    if i < |es| {
      LookupSame(es, fs, key, i + 1);
    }
  }

  function Fields(es: seq<Aux>, w: nat): seq<Field> {
    seq(2 * |es| + 2, k requires 0 <= k < 2 * |es| + 2 =>
      if k / 2 >= |es| then F(0, w) else if k % 2 == 0 then F(es[k / 2].key, w) else F(es[k / 2].val, w))
  }

  /** The note's descriptor: the entries and a null entry over the saved bytes. */
  function AuxvData(saved: bytes, es: seq<Aux>, w: nat): bytes {
    WriteAt(saved, 0, Pack(Fields(es, w), 0))
  }

  /** The fill loop of `write_pt_note`: entry after entry, then the null entry. */
  method FillAuxv(saved: bytes, es: seq<Aux>, w: nat) returns (data: bytes)
    ensures data == AuxvData(saved, es, w)
  {
    hide WriteAt, Fields;
    ghost var fs, goal := Fields(es, w), Pack(Fields(es, w), 0);
    ghost var done: bytes := [];
    var pos: nat := 0;
    data := saved;
    EmitStart(saved, 0, goal);
    for i := 0 to |es|
      invariant Emitting(saved, 0, goal, data, pos, done, Pack(fs, 2 * i))
    {
      PackPair(es, w, i);
      EmitNext(saved, 0, goal, data, pos, done, LE(es[i].key, w) + LE(es[i].val, w), Pack(fs, 2 * (i + 1)));
      data, done := WriteAt(data, pos, LE(es[i].key, w) + LE(es[i].val, w)),
        done + (LE(es[i].key, w) + LE(es[i].val, w));
      pos := pos + 2 * w;
    }
    PackPair(es, w, |es|);
    EmitNext(saved, 0, goal, data, pos, done, LE(0, w) + LE(0, w), []);
    EmitEnd(saved, 0, goal, WriteAt(data, pos, LE(0, w) + LE(0, w)), pos + 2 * w, done + (LE(0, w) + LE(0, w)));
    data := WriteAt(data, pos, LE(0, w) + LE(0, w));
  }

  lemma PackPair(es: seq<Aux>, w: nat, i: nat)
    requires i <= |es|
    ensures var fs := Fields(es, w);
            if i < |es| then Pack(fs, 2 * i) == (LE(es[i].key, w) + LE(es[i].val, w)) + Pack(fs, 2 * (i + 1))
            else Pack(fs, 2 * i) == (LE(0, w) + LE(0, w)) + []
  {
    hide LE, Pack, Fields;
    var fs, k := Fields(es, w), 2 * i;
    PairFields(es, w, i);
    PackStep(fs, k);
    PackStep(fs, k + 1);
    PackEnd(fs);
    var a, b, rest := LE(fs[k].v, w), LE(fs[k + 1].v, w), Pack(fs, k + 2);
    assert a + (b + rest) == (a + b) + rest;
  }

  lemma PairFields(es: seq<Aux>, w: nat, i: nat)
    requires i <= |es|
    ensures |Fields(es, w)| == 2 * |es| + 2
    ensures Fields(es, w)[2 * i] == F(if i < |es| then es[i].key else 0, w)
    ensures Fields(es, w)[2 * i + 1] == F(if i < |es| then es[i].val else 0, w)
  {
    assert 2 * i / 2 == i && (2 * i + 1) / 2 == i;
  }

  lemma PackStep(fs: seq<Field>, k: nat)
    requires k < |fs|
    ensures Pack(fs, k) == LE(fs[k].v, fs[k].w) + Pack(fs, k + 1)
  {
    hide LE;
  }

  lemma PackEnd(fs: seq<Field>)
    ensures Pack(fs, |fs|) == []
  {
  }

  /** A reader's scan of the vector at `p`, with entry `i` next and `n` entries of room. */
  function Find(d: bytes, p: nat, w: nat, key: nat, i: nat, n: nat): Option<nat>
    decreases n - i
  {
    if i >= n then None
    else
      var k := U(d, p, w);
      if k == 0 then None else if k == key then Some(U(d, p + w, w)) else Find(d, p + 2 * w, w, key, i + 1, n)
  }

  ghost predicate Encodable(es: seq<Aux>, w: nat) {
    forall j :: 0 <= j < |es| ==> 0 < es[j].key < Pow256(w) && es[j].val < Pow256(w)
  }

  lemma PairRead(d: bytes, p: nat, es: seq<Aux>, w: nat, i: nat)
    requires i < |es| && Encodable(es, w) && Holds(d, p, Pack(Fields(es, w), 2 * i))
    ensures U(d, p, w) == es[i].key && U(d, p + w, w) == es[i].val &&
            Holds(d, p + 2 * w, Pack(Fields(es, w), 2 * (i + 1)))
  {
    hide Pack, Holds, U, Pow256;
    var fs := Fields(es, w);
    assert 2 * i / 2 == i && (2 * i + 1) / 2 == i;
    assert fs[2 * i] == F(es[i].key, w) && fs[2 * i + 1] == F(es[i].val, w);
    TakeField(d, p, fs, 2 * i);
    TakeField(d, p + w, fs, 2 * i + 1);
  }

  /** A reader of the vector gets the writer's answer for every key. */
  lemma {:induction false} FindReads(d: bytes, p: nat, es: seq<Aux>, w: nat, key: nat, i: nat, n: nat)
    requires i <= |es| < n && Encodable(es, w) && Holds(d, p, Pack(Fields(es, w), 2 * i))
    ensures Find(d, p, w, key, i, n) == Lookup(es, key, i)
    decreases |es| - i
  {
    hide Pack, Holds, U, Pow256;
    if i < |es| {
      PairRead(d, p, es, w, i);
      FindReads(d, p + 2 * w, es, w, key, i + 1, n);
    } else {
      var fs := Fields(es, w);
      assert fs[2 * i] == F(0, w);
      ZeroFits(w);
      TakeField(d, p, fs, 2 * i);
    }
  }

  lemma ZeroFits(w: nat)
    ensures 0 < Pow256(w)
  {
  }

  /** The scan of the written descriptor answers as the entries do. */
  lemma AuxvReads(saved: bytes, es: seq<Aux>, w: nat, key: nat, n: nat)
    requires |es| < n && Encodable(es, w)
    ensures Find(AuxvData(saved, es, w), 0, w, key, 0, n) == Lookup(es, key, 0)
  {
    hide Pack, Fields, Find, Lookup;
    HoldsWritten(saved, 0, Pack(Fields(es, w), 0));
    FindReads(AuxvData(saved, es, w), 0, es, w, key, 0, n);
  }
}
