/** The buntdb scan: a producer goroutine walks the tree inside a transaction and
    hands rows to the iterator through a channel of 64, until it runs out of rows or
    the iterator's done channel closes. */
module ScanHandoff {
  import opened Store

  const CAPACITY: nat := 64

  datatype Phase = Open | Draining | Closed

  /** next rows have been offered and sent; exited means the producer has returned and
      its deferred close of ch has run; ended means Next has reported false; drained
      are the rows that Close took off ch and dropped. */
  datatype State = State(next: nat, ch: seq<Row>, exited: bool, done: bool, phase: Phase, seen: seq<Row>, ended: bool,
                         drained: seq<Row>)

  /** Select in the producer has two ready arms when done is closed and ch has room;
      either may be taken. */
  datatype Step = Send | Quit | Finish | NextRow | NextEnd | Close | Drain | DrainEnd

  predicate Init(s: State)
  {
    s == State(0, [], false, false, Open, [], false, [])
  }

  predicate Enabled(rows: seq<Row>, s: State, step: Step)
  {
    match step
    case Send => !s.exited && s.next < |rows| && |s.ch| < CAPACITY
    case Quit => !s.exited && s.next < |rows| && s.done
    case Finish => !s.exited && s.next >= |rows|
    case NextRow => s.phase.Open? && !s.ended && s.ch != []
    case NextEnd => s.phase.Open? && !s.ended && s.ch == [] && s.exited
    case Close => s.phase.Open?
    case Drain => s.phase.Draining? && s.ch != []
    case DrainEnd => s.phase.Draining? && s.ch == [] && s.exited
  }

  function After(rows: seq<Row>, s: State, step: Step): State
    requires Enabled(rows, s, step)
  {
    match step
    case Send => s.(ch := s.ch + [rows[s.next]], next := s.next + 1)
    case Quit => s.(exited := true)
    case Finish => s.(exited := true)
    case NextRow => s.(seen := s.seen + [s.ch[0]], ch := s.ch[1..])
    case NextEnd => s.(ended := true)
    case Close => s.(done := true, phase := Draining)
    case Drain => s.(ch := s.ch[1..], drained := s.drained + [s.ch[0]])
    case DrainEnd => s.(phase := Closed)
  }

  ghost predicate Run(rows: seq<Row>, states: seq<State>, steps: seq<Step>)
  {
    && |states| == |steps| + 1 && Init(states[0])
    && forall i | 0 <= i < |steps| ::
         Enabled(rows, states[i], steps[i]) && states[i + 1] == After(rows, states[i], steps[i])
  }

  ghost predicate Inv(rows: seq<Row>, s: State)
  {
    && s.next <= |rows| && |s.ch| <= CAPACITY
    && s.seen + s.drained + s.ch == rows[..s.next]
    && (s.phase.Open? ==> s.drained == [] && !s.done)
    && (!s.phase.Open? ==> s.done)
    && (s.exited && !s.done ==> s.next == |rows|)
    && (s.ended ==> s.exited && s.seen == rows)
    && (s.phase.Closed? ==> s.exited && s.ch == [])
  }

  lemma InvStep(rows: seq<Row>, s: State, step: Step)
    requires Inv(rows, s) && Enabled(rows, s, step)
    ensures Inv(rows, After(rows, s, step))
  {
  }

  lemma {:induction false} RunInv(rows: seq<Row>, states: seq<State>, steps: seq<Step>, i: nat)
    requires Run(rows, states, steps) && i < |states|
    ensures Inv(rows, states[i])
  {
    if i > 0 {
      RunInv(rows, states, steps, i - 1);
      InvStep(rows, states[i - 1], steps[i - 1]);
    }
  }

  /** Next sees the producer's rows in order, from the first, without a gap; the rows
      sent are those seen, then those dropped by Close, then those in the channel, of
      which there are at most 64; and when Next says there are no more, there were
      none. */
  lemma InOrderNoGaps(rows: seq<Row>, states: seq<State>, steps: seq<Step>, i: nat)
    requires Run(rows, states, steps) && i < |states|
    ensures states[i].next <= |rows| && states[i].seen <= rows && |states[i].ch| <= CAPACITY
    ensures states[i].ended ==> states[i].seen == rows
    ensures states[i].seen + states[i].drained + states[i].ch == rows[..states[i].next] <= rows
    ensures states[i].phase.Open? ==> states[i].drained == []
  {
    RunInv(rows, states, steps, i);
  }

  // ---- while the iterator is open ----

  /** The steps still to come before Next has reported the end, unless Close comes. */
  function ToEnd(rows: seq<Row>, s: State): int
  {
    2 * (|rows| - s.next) + |s.ch| + (if s.exited then 0 else 1) + (if s.ended then 0 else 1)
  }

  /** Until Next has reported the end some step besides Close is possible, and when none
      is, Next has seen every row. */
  lemma OpenGoesOn(rows: seq<Row>, s: State)
    requires Inv(rows, s) && s.phase.Open?
    ensures (forall step | step != Close :: !Enabled(rows, s, step)) <==> s.ended
    ensures s.ended ==> s.seen == rows
  {
    if !s.ended {
      if s.ch != [] {
        assert Enabled(rows, s, NextRow);
      } else if s.exited {
        assert Enabled(rows, s, NextEnd);
      } else if s.next < |rows| {
        assert Enabled(rows, s, Send);
      } else {
        assert Enabled(rows, s, Finish);
      }
    }
  }

  /** As long as the iterator stays open, every step uses up one of a number of steps
      fixed at any earlier moment; so a scan that is not closed reaches its end. */
  lemma {:induction false} ScanEnds(rows: seq<Row>, states: seq<State>, steps: seq<Step>, i: nat, k: nat)
    requires Run(rows, states, steps) && i <= k < |states| && states[k].phase.Open?
    ensures states[i].phase.Open?
    ensures 0 <= ToEnd(rows, states[k]) <= ToEnd(rows, states[i]) - (k - i)
    decreases k
  {
    RunInv(rows, states, steps, k);
    if i < k {
      RunInv(rows, states, steps, k - 1);
      ScanEnds(rows, states, steps, i, k - 1);
    }
  }

  // ---- after Close ----

  /** The steps still to come once the drain has begun. */
  function Remaining(rows: seq<Row>, s: State): int
  {
    |s.ch| + (if s.exited then 0 else 1 + 2 * (|rows| - s.next)) + (if s.phase.Closed? then 0 else 1)
  }

  /** Some step is possible until the drain has returned and the producer has gone. */
  lemma NoDeadlock(rows: seq<Row>, s: State)
    requires Inv(rows, s) && !s.phase.Open?
    ensures (forall step :: !Enabled(rows, s, step)) <==> s.phase.Closed?
    ensures s.phase.Closed? ==> s.exited && s.ch == []
  {
    if s.phase.Draining? {
      if s.ch != [] {
        assert Enabled(rows, s, Drain);
      } else if s.exited {
        assert Enabled(rows, s, DrainEnd);
      } else if s.next < |rows| {
        assert Enabled(rows, s, Quit);
      } else {
        assert Enabled(rows, s, Finish);
      }
    }
  }

  /** Whichever way each select resolves, every step after Close uses up one of a
      number of steps fixed at the moment of Close; so the producer exits and the
      drain ends. */
  lemma {:induction false} CloseTerminates(rows: seq<Row>, states: seq<State>, steps: seq<Step>, i: nat, k: nat)
    requires Run(rows, states, steps) && i <= k < |states| && !states[i].phase.Open?
    ensures !states[k].phase.Open?
    ensures 0 <= Remaining(rows, states[k]) <= Remaining(rows, states[i]) - (k - i)
    decreases k
  {
    RunInv(rows, states, steps, k);
    if i < k {
      CloseTerminates(rows, states, steps, i, k - 1);
      RunInv(rows, states, steps, k - 1);
    }
  }
}
