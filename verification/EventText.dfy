/** The growing print buffer of the trace.dat writer and the text of one event. */
module EventText {
  import opened Bytes
  import opened OutFile
  import opened EventLines

  /** What `vsnprintf` leaves in a buffer of `|d|` bytes when it prints `t` from `pos` on: as much
      of `t` as fits in front of the terminating NUL. */
  function Printed(d: bytes, pos: nat, t: bytes): (r: bytes)
    requires pos <= |d|
    ensures |r| == |d|
  {
    var room := |d| - pos;
    if room == 0 then d
    else if |t| < room then d[..pos] + t + [0] + d[pos + |t| + 1..]
    else d[..pos] + t[..room - 1] + [0]
  }

  /** The `std::vector<char>` and the position that `write_to_buf` keeps. */
  class PrintBuffer {
    var data: bytes
    var pos: nat

    /** Nothing printed yet, or the text with exactly one byte, the NUL, behind it. */
    ghost predicate Valid()
      reads this
    {
      (data == [] && pos == 0) || (|data| == pos + 1 && data[pos] == 0)
    }

    ghost function Text(): bytes
      requires Valid()
      reads this
    {
      data[..pos]
    }

    constructor ()
      ensures Valid() && Text() == [] && data == []
    {
      data, pos := [], 0;
    }

    /** `vsnprintf` into the room behind `pos`; `None` is a format it cannot print. */
    method Vsnprintf(text: Option<bytes>) returns (n: int)
      requires pos <= |data|
      modifies this`data
      ensures text.None? ==> n == -1 && data == old(data)
      ensures text.Some? ==> n == |text.value| && data == Printed(old(data), pos, text.value)
    {
      if text.None? {
        return -1;
      }
      data := Printed(data, pos, text.value);
      n := |text.value|;
    }

    /** `write_to_buf`: prints if the text fits and otherwise grows the buffer and prints again.
        The buffer is always one byte longer than the text, whatever was printed before. */
    method WriteToBuf(text: Option<bytes>)
      requires Valid()
      modifies this
      ensures Valid()
      ensures text.None? ==> data == old(data) && pos == old(pos)
      ensures text.Some? ==> Text() == old(Text()) + text.value && |data| == pos + 1
    {
      var n := Vsnprintf(text);
      if n > -1 && n < |data| - pos {
        pos := pos + n;
      } else {
        if n == -1 {
          return;
        }
        data := data + Zeros(pos + n + 1 - |data|);
        n := Vsnprintf(text);
        pos := pos + n;
      }
    }
  }

  /** An event: its system, name, number, fields and print format. */
  datatype Event = Event(system: bytes, name: bytes, id: nat, fields: seq<TraceField>, fmt: bytes)

  function NameLine(e: Event): bytes {
    Ascii("name: ") + e.name + [NL]
  }

  function IdLine(e: Event): bytes {
    Ascii("ID: ") + Dec(e.id) + [NL]
  }

  function FormatLine(): bytes {
    Ascii("format:\n")
  }

  function FmtLine(e: Event): bytes {
    Ascii("\nprint fmt: ") + e.fmt + [NL]
  }

  function Lines(fs: seq<TraceField>): (ls: seq<bytes>)
    ensures |ls| == |fs|
  {
    seq(|fs|, i requires 0 <= i < |fs| => FieldLine(fs[i]))
  }

  /** The lines of an event in the order in which they are printed. */
  function Pieces(common: seq<TraceField>, e: Event): seq<bytes> {
    [NameLine(e), IdLine(e), FormatLine()] + Lines(common) + [[NL]] + Lines(e.fields) + [FmtLine(e)]
  }

  function TextOf(common: seq<TraceField>, e: Event): bytes {
    Join(Pieces(common, e))
  }

  /** The record of an event: the length of its text, then the text. */
  function EventBytes(common: seq<TraceField>, e: Event): (bs: bytes)
    ensures |bs| == 8 + |TextOf(common, e)|
  {
    LE(|TextOf(common, e)|, 8) + TextOf(common, e)
  }

  /** Prints one line, which stands in `ps` at `k`. */
  method PrintLine(b: PrintBuffer, line: bytes, ghost ps: seq<bytes>, ghost k: nat)
    requires b.Valid() && k < |ps| && b.Text() == JoinTo(ps, k) && ps[k] == line
    modifies b
    ensures b.Valid() && b.Text() == JoinTo(ps, k + 1) && |b.data| == b.pos + 1
  {
    hide JoinTo;
    JoinNext(ps, k);
    b.WriteToBuf(Some(line));
  }

  /** One of the two field loops of `write_event`; the lines stand in `ps` from `k` on. */
  method PrintFields(b: PrintBuffer, fs: seq<TraceField>, ghost ps: seq<bytes>, ghost k: nat)
    requires b.Valid() && k + |fs| <= |ps| && b.Text() == JoinTo(ps, k)
    requires forall i :: 0 <= i < |fs| ==> ps[k + i] == FieldLine(fs[i])
    modifies b
    ensures b.Valid() && b.Text() == JoinTo(ps, k + |fs|)
  {
    hide JoinTo, FieldLine;
    for i := 0 to |fs|
      invariant b.Valid() && b.Text() == JoinTo(ps, k + i)
    {
      PrintLine(b, FieldLine(fs[i]), ps, k + i);
    }
  }

  /** `write_event`: the length word is the number of text bytes that follow it. */
  method WriteEvent(f: File, common: seq<TraceField>, e: Event)
    modifies f
    ensures f.data == WriteAt(old(f.data), old(f.pos), EventBytes(common, e))
    ensures f.pos == old(f.pos) + |EventBytes(common, e)|
  {
    hide JoinTo, WriteAt, LE, FieldLine, NameLine, IdLine, FormatLine, FmtLine;
    ghost var ps, m, n := Pieces(common, e), |common|, |e.fields|;
    var b := new PrintBuffer();
    JoinNone(ps);
    PrintLine(b, NameLine(e), ps, 0);
    PrintLine(b, IdLine(e), ps, 1);
    PrintLine(b, FormatLine(), ps, 2);
    PrintFields(b, common, ps, 3);
    PrintLine(b, [NL], ps, 3 + m);
    PrintFields(b, e.fields, ps, 4 + m);
    PrintLine(b, FmtLine(e), ps, 4 + m + n);
    WriteTwice(f.data, f.pos, LE(b.pos, 8), b.data[..|b.data| - 1]);
    f.Write(LE(b.pos, 8));
    f.Write(b.data[..|b.data| - 1]);
  }

  ghost predicate ValidFields(fs: seq<TraceField>) {
    forall i :: 0 <= i < |fs| ==> ValidField(fs[i])
  }

  ghost predicate ValidEvent(e: Event) {
    Without(e.name, NL) && ValidFields(e.fields)
  }
}
