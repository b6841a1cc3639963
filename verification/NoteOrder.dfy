/** Where each note of the process stands in the note segment. */
module NoteOrder {
  import opened Bytes
  import opened CoreNotes

  /** The notes with data before index `j` of a thread's list, without the status note. */
  function OthersBefore(t: Thread, j: nat): nat
    requires j <= |t.notes|
  {
    if j == 0 then 0
    else OthersBefore(t, j - 1) + if j - 1 != t.pr && t.notes[j - 1].data.Some? then 1 else 0
  }

  lemma {:induction false} OthersDrop(t: Thread, j: nat)
    requires t.pr < |t.notes| && j <= |t.notes|
    ensures OthersBefore(t, j) <= |Others(t)| && Others(t)[OthersBefore(t, j)..] == OthersFrom(t, j)
  {
    hide OthersFrom, Others;
    if j == 0 {
      OthersStart(t);
      assert Others(t)[0..] == Others(t);
    } else {
      OthersDrop(t, j - 1);
      OthersStep(t, j - 1, []);
      var k := OthersBefore(t, j - 1);
      assert OthersFrom(t, j - 1) + [] == OthersFrom(t, j - 1) && OthersFrom(t, j) + [] == OthersFrom(t, j);
      if j - 1 != t.pr && t.notes[j - 1].data.Some? {
        assert Others(t)[k..][1..] == Others(t)[k + 1..];
      }
    }
  }

  lemma OthersStart(t: Thread)
    requires t.pr < |t.notes|
    ensures OthersFrom(t, 0) == Others(t)
  {
    hide WithData;
    assert t.notes[0..t.pr] == t.notes[..t.pr];
  }

  /** A note of a thread stands among the thread's others at the number of its predecessors. */
  lemma OthersAt(t: Thread, j: nat)
    requires t.pr < |t.notes| && j < |t.notes| && j != t.pr && t.notes[j].data.Some?
    ensures OthersBefore(t, j) < |Others(t)| && Others(t)[OthersBefore(t, j)] == t.notes[j]
  {
    hide OthersFrom, Others, OthersBefore;
    OthersDrop(t, j);
    OthersStep(t, j, []);
    assert OthersFrom(t, j) + [] == OthersFrom(t, j);
    assert Others(t)[OthersBefore(t, j)] == Others(t)[OthersBefore(t, j)..][0];
  }

  lemma OthersCount(t: Thread)
    requires t.pr < |t.notes|
    ensures |Others(t)| == OthersBefore(t, |t.notes|)
  {
    hide Others, OthersBefore;
    OthersDrop(t, |t.notes|);
    NoneLeft(t);
  }

  lemma NoneLeft(t: Thread)
    requires t.pr < |t.notes|
    ensures OthersFrom(t, |t.notes|) == []
  {
    assert t.notes[|t.notes|..] == [];
  }

  ghost predicate Wellformed(ts: seq<Thread>) {
    forall k :: 0 <= k < |ts| ==> ts[k].pr < |ts[k].notes|
  }

  /** The place of thread `i`'s status note: behind the notes of the threads before it, of which the
      first also carries the `np` process notes. */
  function StatusAt(ts: seq<Thread>, np: nat, i: nat): nat
    requires i <= |ts|
  {
    if i == 0 then 0
    else StatusAt(ts, np, i - 1) + 1 + (if i == 1 then np else 0) + OthersBefore(ts[i - 1], |ts[i - 1].notes|)
  }

  lemma {:induction false} EmittedDrop(ts: seq<Thread>, process: seq<Note>, i: nat)
    requires Wellformed(ts) && i <= |ts|
    ensures StatusAt(ts, |process|, i) <= |Emitted(ts, process)|
    ensures Emitted(ts, process)[StatusAt(ts, |process|, i)..] == EmittedFrom(ts, process, i)
  {
    hide EmittedFrom, OthersBefore;
    var all := Emitted(ts, process);
    if i == 0 {
      assert all[0..] == all;
    } else {
      EmittedDrop(ts, process, i - 1);
      EmittedStep(ts, process, i - 1);
      var k, n := StatusAt(ts, |process|, i - 1), StatusAt(ts, |process|, i);
      assert all[k..][n - k..] == all[n..];
    }
  }

  /** The notes of one thread and those behind them. */
  lemma EmittedStep(ts: seq<Thread>, process: seq<Note>, i: nat)
    requires Wellformed(ts) && i < |ts|
    ensures var here, m := EmittedFrom(ts, process, i), if i == 0 then |process| else 0;
            var n := 1 + m + OthersBefore(ts[i], |ts[i].notes|);
            && n <= |here| && here[n..] == EmittedFrom(ts, process, i + 1)
            && here[0] == ts[i].notes[ts[i].pr]
            && (forall k :: 0 <= k < m ==> here[1 + k] == process[k])
            && (forall k :: 0 <= k < |Others(ts[i])| ==> here[1 + m + k] == Others(ts[i])[k])
  {
    hide Others, OthersBefore;
    OthersCount(ts[i]);
    var extra := if i == 0 then process else [];
    var own := ThreadNotes(ts[i], extra);
    assert EmittedFrom(ts, process, i) == own + EmittedFrom(ts, process, i + 1);
    assert |own| == 1 + |extra| + |Others(ts[i])|;
  }

  /** Thread `i`'s status note comes first, then the process notes (for the first thread), then the
      thread's other notes with data in their own order. */
  lemma NotePlaces(ts: seq<Thread>, process: seq<Note>, i: nat, j: nat)
    requires Wellformed(ts) && i < |ts| && j < |ts[i].notes|
    ensures var all, at, m := Emitted(ts, process), StatusAt(ts, |process|, i), if i == 0 then |process| else 0;
            && at < |all| && all[at] == ts[i].notes[ts[i].pr]
            && (j != ts[i].pr && ts[i].notes[j].data.Some? ==>
                  at + 1 + m + OthersBefore(ts[i], j) < |all|
                  && all[at + 1 + m + OthersBefore(ts[i], j)] == ts[i].notes[j])
  {
    hide EmittedFrom, OthersBefore, StatusAt, Others, Emitted;
    var all, at, m := Emitted(ts, process), StatusAt(ts, |process|, i), if i == 0 then |process| else 0;
    EmittedDrop(ts, process, i);
    EmittedStep(ts, process, i);
    OthersCount(ts[i]);
    var here := EmittedFrom(ts, process, i);
    assert all[at..][0] == all[at];
    if j != ts[i].pr && ts[i].notes[j].data.Some? {
      OthersAt(ts[i], j);
      var k := OthersBefore(ts[i], j);
      assert here[1 + m + k] == Others(ts[i])[k];
      assert all[at + 1 + m + k] == all[at..][1 + m + k];
    }
  }

  lemma ProcessPlaces(ts: seq<Thread>, process: seq<Note>, k: nat)
    requires Wellformed(ts) && ts != [] && k < |process|
    ensures 1 + k < |Emitted(ts, process)| && Emitted(ts, process)[1 + k] == process[k]
  {
    hide EmittedFrom, OthersBefore, Others;
    EmittedStep(ts, process, 0);
    assert Emitted(ts, process) == EmittedFrom(ts, process, 0);
  }

  /** Nothing else is emitted. */
  lemma NoteCount(ts: seq<Thread>, process: seq<Note>)
    requires Wellformed(ts)
    ensures |Emitted(ts, process)| == StatusAt(ts, |process|, |ts|)
  {
    hide StatusAt;
    EmittedDrop(ts, process, |ts|);
    assert EmittedFrom(ts, process, |ts|) == [];
  }
}
