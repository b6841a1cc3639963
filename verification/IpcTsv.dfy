/** The second half of `parser_ipc_log_page`: decoding the type-size-value records of the buffer. */
module IpcTsv {
  import opened Bytes
  import opened IpcRing

  /** A log line before formatting: time stamp, qtimer, text. */
  datatype Line = Line(stamp: nat, qtimer: nat, text: bytes)

  /** The decoder's state: `len` (and `dataPtr` with it) and the two times, which are kept from line
      to line. */
  datatype State = State(len: nat, stamp: nat, qtimer: nat)

  /** Byte `p` of the memory that starts at the buffer; what cannot be seen counts as zero. */
  function At(mem: bytes, p: nat): byte {
    if p < |mem| then mem[p] else 0
  }

  /** `n` bytes from `p`. */
  function Text(mem: bytes, p: nat, n: nat): (t: bytes)
    ensures |t| == n
  {
    seq<byte>(n, i requires 0 <= i => At(mem, p + i))
  }

  /** A time of 4 or 8 bytes at `p`; any other size keeps the old value. */
  function Time(mem: bytes, p: nat, size: nat, was: nat): nat {
    if size == 4 || size == 8 then U(mem, p, size) else was
  }

  /** The optional item of type `kind` at `p`: its size, or 0 if the item there has another type. */
  function ItemSize(mem: bytes, p: nat, kind: byte): nat {
    if At(mem, p) == kind then At(mem, p + 1) else 0
  }

  /** Where the qtimer item and the text item of a record start. */
  function QtimerPos(mem: bytes, s: State): nat {
    s.len + 4 + ItemSize(mem, s.len + 2, 1)
  }

  function TextPos(mem: bytes, s: State): nat {
    QtimerPos(mem, s) + 2 + ItemSize(mem, QtimerPos(mem, s), 5)
  }

  /** The state behind one record. */
  function Next(mem: bytes, s: State): State {
    var q, t := QtimerPos(mem, s), TextPos(mem, s);
    State(t + 2 + ItemSize(mem, t, 4),
          if At(mem, s.len + 2) == 1 then Time(mem, s.len + 4, At(mem, s.len + 3), s.stamp) else s.stamp,
          if At(mem, q) == 5 then Time(mem, q + 2, At(mem, q + 1), s.qtimer) else s.qtimer)
  }

  /** The line of one record, if it has a text item. */
  function LineOf(mem: bytes, s: State): seq<Line> {
    var t := TextPos(mem, s);
    if At(mem, t) == 4 then [Line(Next(mem, s).stamp, Next(mem, s).qtimer, Text(mem, t + 2, At(mem, t + 1)))] else []
  }

  /** All lines from state `s` on, and where decoding ends, for a buffer of `n` bytes. */
  function Decoded(mem: bytes, n: nat, s: State): (seq<Line>, nat)
    decreases n - s.len
  {
    if s.len >= n then ([], s.len)
    else
      var (ls, end) := Decoded(mem, n, Next(mem, s));
      (LineOf(mem, s) + ls, end)
  }

  /** One turn of the decoding loop. */
  method DecodeRecord(mem: bytes, s: State) returns (t: State, line: seq<Line>)
    ensures t == Next(mem, s) && line == LineOf(mem, s)
  {
    hide U, Text, At;
    var len: nat, stamp: nat, qtimer: nat := s.len, s.stamp, s.qtimer;
    line := [];
    len := len + 2;
    var kind, size := At(mem, len), At(mem, len + 1);
    len := len + 2;
    if kind == 1 {
      stamp := Time(mem, len, size, stamp);
      len := len + size;
    }
    kind, size := At(mem, len), At(mem, len + 1);
    len := len + 2;
    if kind == 5 {
      qtimer := Time(mem, len, size, qtimer);
      len := len + size;
    }
    kind, size := At(mem, len), At(mem, len + 1);
    len := len + 2;
    if kind == 4 {
      line := [Line(stamp, qtimer, Text(mem, len, size))];
      len := len + size;
    }
    t := State(len, stamp, qtimer);
  }

  /** Every record has at least its four headers. */
  lemma RecordAdvances(mem: bytes, s: State)
    ensures Next(mem, s).len >= s.len + 8
  {
  }

  lemma DecodedNext(mem: bytes, n: nat, s: State, before: seq<Line>)
    requires s.len < n
    ensures var rest := Decoded(mem, n, Next(mem, s));
            before + Decoded(mem, n, s).0 == (before + LineOf(mem, s)) + rest.0 && Decoded(mem, n, s).1 == rest.1
  {
    hide Next, LineOf;
    RecordAdvances(mem, s);
  }

  /** The decoding loop. `mem` is the buffer and whatever memory follows it: a record that is cut off
      by the end of the buffer is read from there. Each turn consumes at least 8 bytes. */
  method DecodeLog(mem: bytes, n: nat) returns (logs: seq<Line>, len: nat, turns: nat)
    requires n <= |mem|
    ensures (logs, len) == Decoded(mem, n, State(0, 0, 0))
    ensures 8 * turns <= len && (turns == 0 || 8 * (turns - 1) < n)
  {
    hide Next, LineOf;
    logs, turns := [], 0;
    var s := State(0, 0, 0);
    ghost var whole := Decoded(mem, n, s);
    assert logs + whole.0 == whole.0;
    while s.len < n
      invariant logs + Decoded(mem, n, s).0 == whole.0 && Decoded(mem, n, s).1 == whole.1
      invariant 8 * turns <= s.len && (turns == 0 || 8 * (turns - 1) < n)
      decreases n - s.len
    {
      DecodedNext(mem, n, s, logs);
      RecordAdvances(mem, s);
      var line;
      s, line := DecodeRecord(mem, s);
      logs := logs + line;
      turns := turns + 1;
    }
    assert logs + [] == logs;
    len := s.len;
  }

  // ---------------------------------------------------------------- the record encoding

  /** A time item of a record: a time of 4 or 8 bytes, an item of the right type and another size, or
      the header of an item of another type, behind which the next header is expected at once. */
  datatype Item = Timed(v: nat, w: byte) | Raw(value: bytes) | Other(kind: byte, size: byte)

  /** The text item, or the header of an item of another type. */
  datatype Message = Message(text: bytes) | NoMessage(kind: byte, size: byte)

  /** A record: the two bytes of its outer header, a time stamp (type 1), a qtimer (type 5) and a text
      (type 4) of at most 255 bytes. */
  datatype Record = Record(kind: byte, size: byte, stamp: Item, qtimer: Item, message: Message)

  ghost predicate ValidItem(x: Item, kind: byte) {
    match x
    case Timed(v, w) => (w == 4 || w == 8) && v < Pow256(w)
    case Raw(value) => |value| <= 255 && |value| != 4 && |value| != 8
    case Other(k, _) => k != kind
  }

  ghost predicate ValidRecord(r: Record) {
    && ValidItem(r.stamp, 1) && ValidItem(r.qtimer, 5)
    && if r.message.Message? then |r.message.text| <= 255 else r.message.kind != 4
  }

  ghost function EncodeItem(x: Item, kind: byte): bytes
    requires ValidItem(x, kind)
  {
    match x
    case Timed(v, w) => [kind, w] + LE(v, w)
    case Raw(value) => [kind, |value|] + value
    case Other(k, z) => [k, z]
  }

  ghost function EncodeMessage(m: Message): bytes
    requires m.Message? ==> |m.text| <= 255
  {
    if m.Message? then [4, |m.text|] + m.text else [m.kind, m.size]
  }

  ghost function Encode(r: Record): bytes
    requires ValidRecord(r)
  {
    [r.kind, r.size] + (EncodeItem(r.stamp, 1) + (EncodeItem(r.qtimer, 5) + EncodeMessage(r.message)))
  }

  ghost predicate ValidRecords(rs: seq<Record>) {
    forall i :: 0 <= i < |rs| ==> ValidRecord(rs[i])
  }

  /** The records from `i` on, one behind the other. */
  ghost function EncodeFrom(rs: seq<Record>, i: nat): bytes
    requires ValidRecords(rs) && i <= |rs|
    decreases |rs| - i
  {
    if i == |rs| then [] else Encode(rs[i]) + EncodeFrom(rs, i + 1)
  }

  /** The time stamp in force behind the first `n` records: the last one given. */
  function StampAfter(rs: seq<Record>, n: nat): nat
    requires n <= |rs|
  {
    if n == 0 then 0 else if rs[n - 1].stamp.Timed? then rs[n - 1].stamp.v else StampAfter(rs, n - 1)
  }

  function QtimerAfter(rs: seq<Record>, n: nat): nat
    requires n <= |rs|
  {
    if n == 0 then 0 else if rs[n - 1].qtimer.Timed? then rs[n - 1].qtimer.v else QtimerAfter(rs, n - 1)
  }

  /** The lines of the first `n` records: one for each text, under the times in force. */
  function LinesTo(rs: seq<Record>, n: nat): seq<Line>
    requires n <= |rs|
  {
    if n == 0 then []
    else LinesTo(rs, n - 1) + match rs[n - 1].message
                              case Message(text) => [Line(StampAfter(rs, n), QtimerAfter(rs, n), text)]
                              case NoMessage(_, _) => []
  }

  /** If every record has both times and a text, its lines are those records. */
  lemma {:induction false} FullRecords(rs: seq<Record>, n: nat)
    requires n <= |rs| && forall i :: 0 <= i < n ==>
             rs[i].stamp.Timed? && rs[i].qtimer.Timed? && rs[i].message.Message?
    ensures |LinesTo(rs, n)| == n
    ensures forall i :: 0 <= i < n ==>
            LinesTo(rs, n)[i] == Line(rs[i].stamp.v, rs[i].qtimer.v, rs[i].message.text)
  {
    if n > 0 {
      FullRecords(rs, n - 1);
    }
  }

  lemma AtHeld(d: bytes, p: nat, bs: bytes, i: nat)
    requires Holds(d, p, bs) && i < |bs|
    ensures At(d, p + i) == bs[i]
  {
    assert Agrees(d, p, bs, i);
  }

  lemma TextHeld(d: bytes, p: nat, t: bytes)
    requires Holds(d, p, t)
    ensures Text(d, p, |t|) == t
  {
    forall i | 0 <= i < |t| ensures Text(d, p, |t|)[i] == t[i] {
      AtHeld(d, p, t, i);
    }
  }

  /** An item header of two bytes and what follows it. */
  lemma TakeHeader(d: bytes, p: nat, a: byte, b: byte, rest: bytes)
    requires Holds(d, p, [a, b] + rest)
    ensures At(d, p) == a && At(d, p + 1) == b && Holds(d, p + 2, rest)
  {
    HoldsConcat(d, p, [a, b], rest);
    AtHeld(d, p, [a, b], 0);
    AtHeld(d, p, [a, b], 1);
  }

  /** A time item gives its time or leaves the old one, and the next item is behind it. */
  lemma ItemDecodes(d: bytes, p: nat, x: Item, kind: byte, rest: bytes, was: nat)
    requires ValidItem(x, kind) && Holds(d, p, EncodeItem(x, kind) + rest)
    ensures 2 + ItemSize(d, p, kind) == |EncodeItem(x, kind)| && Holds(d, p + |EncodeItem(x, kind)|, rest)
    ensures (if At(d, p) == kind then Time(d, p + 2, At(d, p + 1), was) else was) == if x.Timed? then x.v else was
  {
    hide Holds, U, LE, At;
    match x
    case Timed(v, w) =>
      assert EncodeItem(x, kind) + rest == [kind, w] + (LE(v, w) + rest);
      TakeHeader(d, p, kind, w, LE(v, w) + rest);
      TakeWord(d, p + 2, v, w, rest);
    case Raw(value) =>
      assert EncodeItem(x, kind) + rest == [kind, |value|] + (value + rest);
      TakeHeader(d, p, kind, |value|, value + rest);
      HoldsConcat(d, p + 2, value, rest);
    case Other(k, z) =>
      TakeHeader(d, p, k, z, rest);
  }

  lemma MessageDecodes(d: bytes, p: nat, m: Message)
    requires (if m.Message? then |m.text| <= 255 else m.kind != 4) && Holds(d, p, EncodeMessage(m))
    ensures 2 + ItemSize(d, p, 4) == |EncodeMessage(m)| && (At(d, p) == 4 <==> m.Message?)
    ensures m.Message? ==> Text(d, p + 2, At(d, p + 1)) == m.text
  {
    hide Holds, At, Text;
    if m.Message? {
      TakeHeader(d, p, 4, |m.text|, m.text);
      TextHeld(d, p + 2, m.text);
    } else {
      assert EncodeMessage(m) == [m.kind, m.size] + [];
      TakeHeader(d, p, m.kind, m.size, []);
    }
  }

  /** One record decodes to its own line, and the next record is behind it. */
  lemma RecordDecodes(mem: bytes, s: State, r: Record)
    requires ValidRecord(r) && Holds(mem, s.len, Encode(r))
    ensures Next(mem, s) == State(s.len + |Encode(r)|, if r.stamp.Timed? then r.stamp.v else s.stamp,
                                  if r.qtimer.Timed? then r.qtimer.v else s.qtimer)
    ensures LineOf(mem, s) == if r.message.Message?
                              then [Line(Next(mem, s).stamp, Next(mem, s).qtimer, r.message.text)] else []
  {
    hide Holds, U, At, Text, Time, ItemSize, EncodeItem, EncodeMessage, ValidItem;
    var a, b, c := EncodeItem(r.stamp, 1), EncodeItem(r.qtimer, 5), EncodeMessage(r.message);
    TakeHeader(mem, s.len, r.kind, r.size, a + (b + c));
    ItemDecodes(mem, s.len + 2, r.stamp, 1, b + c, s.stamp);
    ItemDecodes(mem, s.len + 2 + |a|, r.qtimer, 5, c, s.qtimer);
    MessageDecodes(mem, s.len + 2 + |a| + |b|, r.message);
  }

  lemma {:induction false} RecordsDecode(mem: bytes, rs: seq<Record>, i: nat, s: State)
    requires ValidRecords(rs) && i <= |rs| && Holds(mem, s.len, EncodeFrom(rs, i))
    requires s.stamp == StampAfter(rs, i) && s.qtimer == QtimerAfter(rs, i)
    ensures var (ls, end) := Decoded(mem, s.len + |EncodeFrom(rs, i)|, s);
            LinesTo(rs, i) + ls == LinesTo(rs, |rs|) && end == s.len + |EncodeFrom(rs, i)|
    decreases |rs| - i
  {
    hide Holds, Encode, Next, LineOf, ValidRecord;
    if i == |rs| {
      assert LinesTo(rs, i) + [] == LinesTo(rs, i);
    } else {
      HoldsConcat(mem, s.len, Encode(rs[i]), EncodeFrom(rs, i + 1));
      RecordDecodes(mem, s, rs[i]);
      RecordAdvances(mem, s);
      RecordsDecode(mem, rs, i + 1, Next(mem, s));
      DecodedNext(mem, s.len + |EncodeFrom(rs, i)|, s, LinesTo(rs, i));
    }
  }

  /** Decoding inverts encoding: any run of records gives the line of each text under the times in
      force, in order, and the decoder ends exactly at the end of the buffer, whatever memory follows. */
  lemma DecodesBack(mem: bytes, rs: seq<Record>)
    requires ValidRecords(rs) && Holds(mem, 0, EncodeFrom(rs, 0))
    ensures Decoded(mem, |EncodeFrom(rs, 0)|, State(0, 0, 0)) == (LinesTo(rs, |rs|), |EncodeFrom(rs, 0)|)
  {
    hide Holds, EncodeFrom, ValidRecords, Decoded;
    RecordsDecode(mem, rs, 0, State(0, 0, 0));
    var (ls, end) := Decoded(mem, |EncodeFrom(rs, 0)|, State(0, 0, 0));
    assert LinesTo(rs, 0) + ls == ls;
  }

  /** `parser_ipc_log_page`: if the log laid out in ring order is a run of whole records, the log's
      lines are those of the records. */
  method ParserIpcLogPage(l: Log, behind: bytes, ghost ring: seq<nat>, ghost s: nat,
                          ghost rs: seq<Record>) returns (logs: seq<Line>)
    requires Ring(l, ring) && s < |ring| && ring[s] == l.start && ValidRecords(rs)
    ensures forall m: nat :: Linear(l, ring, s, m, EncodeFrom(rs, 0)) ==> logs == LinesTo(rs, |rs|)
  {
    hide Ring, Linear, EncodeFrom, ValidRecords, LinesTo, Decoded;
    var buf := ReadPages(l, ring, s);
    var len, turns;
    logs, len, turns := DecodeLog(buf + behind, |buf|);
    ghost var n: nat :| Linear(l, ring, s, n, buf);
    forall m: nat | Linear(l, ring, s, m, EncodeFrom(rs, 0)) ensures logs == LinesTo(rs, |rs|) {
      WalkUnique(l, ring, s, m, EncodeFrom(rs, 0), n, buf);
      HeldFirst(buf, behind);
      DecodesBack(buf + behind, rs);
    }
  }

  lemma HeldFirst(a: bytes, b: bytes)
    ensures Holds(a + b, 0, a)
  {
    forall i | 0 <= i < |a| ensures Agrees(a + b, 0, a, i) {
    }
  }
}
