/** The log writer gets on (lib/zlog/src/consumer.c): once every message has been signalled, the writer's own steps,
    a bounded number of them, take and write all there is, whatever state it is in. */
module LogProgress {
  import opened RingFifo
  import opened RingSize
  import opened LogWriter

  /** What the writer thread does by itself. */
  predicate Own(step: Step) { step.Check? || step.Wake? || step.Take? || step.Leave? || step.Drained? }

  /** What producers still have to do for messages they have reserved. */
  predicate Owed(step: Step) { step.Complete? || step.Signal? }

  ghost predicate AllSignalled(s: State) { forall i | 0 <= i < |s.msgs| :: s.msgs[i].signalled }

  /** Asleep without a wake-up on the way, or gone. */
  predicate AtRest(s: State) { s.writer == Waiting(false) || s.writer.Finished? }

  /** What the writer believes to be pending, when it does not go to sleep, is all that has been signalled. */
  lemma SeesAll(s: State, step: Step)
    requires Inv(s) && Enabled(s, step) && (step.Check? || step.Wake?)
    ensures var t := Next(s, step);
      if t.writer.Waiting? then Taken(s) == Sent(s.msgs) else t.writer.Draining? && Taken(t) + t.writer.pending == Sent(t.msgs)
  {
    UsedIsExact(Sent(s.msgs), Taken(s));
  }

  /** How far the writer is from having done everything. */
  ghost function Rank(s: State): nat
    requires Taken(s) <= |s.msgs|
  {
    6 * (|s.msgs| - Taken(s)) +
    match s.writer
    case Finished => 0
    case Waiting(woken) => if woken then 4 else 0
    case AtLock => 2
    case Draining(pending) => if pending > 0 then 1 else 3
    case Handling(_) => 4
  }

  /** What the writer does next. */
  function OwnStep(s: State): Step {
    match s.writer
    case AtLock => Check
    case Waiting(_) => Wake
    case Draining(pending) => if pending > 0 then Take else Drained
    case Handling(_) => Leave
    case Finished => Drained
  }

  lemma NeverStuck(s: State)
    requires Inv(s) && AllSignalled(s) && !AtRest(s)
    ensures Own(OwnStep(s)) && Enabled(s, OwnStep(s))
  {
  }

  /** Every step of its own gets it nearer, unless it is woken for nothing. */
  lemma OwnStepDescends(s: State, step: Step)
    requires Inv(s) && AllSignalled(s) && Enabled(s, step) && Own(step) && !AtRest(s)
    ensures var t := Next(s, step); Inv(t) && t.msgs == s.msgs && Rank(t) < Rank(s)
  {
    StepKeepsInv(s, step);
    AllSent(s.msgs);
    if step.Check? || step.Wake? { SeesAll(s, step); }
  }

  /** When it rests, everything has been taken, every committed log written, and it is gone exactly if it was told
      to; a flush that was waited for can return. */
  lemma RestIsDone(s: State)
    requires Inv(s) && AllSignalled(s) && AtRest(s)
    ensures s.dequeued == Taken(s) == |s.msgs| && s.output == LogWriter.Committed(s.msgs)
    ensures s.writer.Finished? <==> s.msgs != [] && s.msgs[|s.msgs| - 1].kind.ExitCmd?
    ensures s.flushing >= 0 ==> Enabled(s, FlushReturns)
  {
    AllSent(s.msgs);
    assert s.msgs[..|s.msgs|] == s.msgs;
  }

  // ---------- Continuations ----------

  ghost predicate Path(s: State, states: seq<State>, steps: seq<Step>) {
    && |states| == |steps| + 1 && states[0] == s
    && forall i {:trigger steps[i]} | 0 <= i < |steps| ::
         Enabled(states[i], steps[i]) && states[i + 1] == Next(states[i], steps[i])
  }

  lemma PathFirst(s: State, step: Step, states: seq<State>, steps: seq<Step>)
    requires Enabled(s, step) && Path(Next(s, step), states, steps)
    ensures Path(s, [s] + states, [step] + steps)
  {
  }

  lemma PathRest(s: State, states: seq<State>, steps: seq<Step>)
    requires Path(s, states, steps) && steps != []
    ensures Enabled(s, steps[0]) && Path(Next(s, steps[0]), states[1..], steps[1..])
  {
    assert steps[0] in steps;
    forall i | 0 <= i < |steps[1..]|
      ensures Enabled(states[1..][i], steps[1..][i]) && states[1..][i + 1] == Next(states[1..][i], steps[1..][i])
    {
      assert steps[1..][i] == steps[i + 1];
    }
  }

  ghost predicate OwnPath(s: State, states: seq<State>, steps: seq<Step>) {
    Path(s, states, steps) && forall i | 0 <= i < |steps| :: Own(steps[i])
  }

  lemma OwnPathFirst(s: State, step: Step, states: seq<State>, steps: seq<Step>)
    requires Enabled(s, step) && Own(step) && OwnPath(Next(s, step), states, steps)
    ensures OwnPath(s, [s] + states, [step] + steps) && ([s] + states)[|[step] + steps|] == states[|steps|]
  {
    PathFirst(s, step, states, steps);
  }

  /** These messages have all been taken, those that are committed logs have been written in order, and the writer
      rests, for good exactly if the last of them told it to. */
  ghost predicate Written(msgs: seq<Msg>, t: State) {
    && t.msgs == msgs && AtRest(t)
    && t.dequeued == |msgs| && t.output == LogWriter.Committed(msgs)
    && (t.writer.Finished? <==> msgs != [] && msgs[|msgs| - 1].kind.ExitCmd?)
  }

  /** From any state of any run: left to itself, the writer has written everything within a number of steps that is
      known beforehand. */
  lemma {:induction false} WritesEverything(s: State) returns (states: seq<State>, steps: seq<Step>)
    requires Inv(s) && AllSignalled(s)
    ensures OwnPath(s, states, steps) && |steps| <= Rank(s) && Written(s.msgs, states[|steps|])
    decreases Rank(s), 1
  {
    if AtRest(s) {
      RestIsDone(s);
      states, steps := [s], [];
    } else {
      states, steps := StepAndOn(s);
    }
  }

  lemma {:induction false} StepAndOn(s: State) returns (states: seq<State>, steps: seq<Step>)
    requires Inv(s) && AllSignalled(s) && !AtRest(s)
    ensures OwnPath(s, states, steps) && |steps| <= Rank(s) && Written(s.msgs, states[|steps|])
    decreases Rank(s), 0
  {
    var step := OwnStep(s);
    NeverStuck(s);
    OwnStepDescends(s, step);
    var later, more := WritesEverything(Next(s, step));
    OwnPathFirst(s, step, later, more);
    states, steps := [s] + later, [step] + more;
  }

  /** And there is no other way: any steps of its own, one after the other and not from sleep, are no more than
      that. */
  lemma {:induction false} NoDetour(s: State, states: seq<State>, steps: seq<Step>)
    requires Inv(s) && AllSignalled(s) && Path(s, states, steps)
    requires forall i | 0 <= i < |steps| :: Own(steps[i]) && !AtRest(states[i])
    ensures |steps| <= Rank(s)
    decreases steps
  {
    if steps != [] {
      PathRest(s, states, steps);
      OwnStepDescends(s, steps[0]);
      forall i | 0 <= i < |steps[1..]|
        ensures Own(steps[1..][i]) && !AtRest(states[1..][i])
      {
        assert steps[1..][i] == steps[i + 1] && states[1..][i] == states[i + 1];
      }
      NoDetour(Next(s, steps[0]), states[1..], steps[1..]);
    }
  }

  lemma PathJoin(s: State, a: seq<State>, x: seq<Step>, b: seq<State>, y: seq<Step>)
    requires Path(s, a, x) && Path(a[|x|], b, y)
    ensures Path(s, a + b[1..], x + y) && (a + b[1..])[|x + y|] == b[|y|]
  {
    forall i | 0 <= i < |x + y|
      ensures Enabled((a + b[1..])[i], (x + y)[i]) && (a + b[1..])[i + 1] == Next((a + b[1..])[i], (x + y)[i])
    {
      if i < |x| {
        assert (x + y)[i] == x[i];
      } else {
        assert (x + y)[i] == y[i - |x|];
        assert (a + b[1..])[i] == b[i - |x|] && (a + b[1..])[i + 1] == b[i + 1 - |x|];
      }
    }
  }

  /** Producers can always finish what they have begun. */
  lemma {:induction false} ProducersFinish(s: State) returns (states: seq<State>, steps: seq<Step>)
    requires Inv(s)
    ensures Path(s, states, steps) && forall i | 0 <= i < |steps| :: Owed(steps[i])
    ensures var t := states[|steps|]; Inv(t) && AllSignalled(t) && |t.msgs| == |s.msgs|
    decreases |s.msgs| - Sent(s.msgs), 2
  {
    if AllSignalled(s) {
      states, steps := [s], [];
    } else {
      var i: nat :| i < |s.msgs| && !s.msgs[i].signalled;
      if s.msgs[i].flag.Reserved? {
        states, steps := CompleteAndOn(s, i);
      } else {
        states, steps := SignalAndOn(s, i);
      }
    }
  }

  /** One step of a producer. */
  lemma OwedStep(s: State, step: Step)
    requires Inv(s) && Enabled(s, step) && Owed(step)
    ensures var t := Next(s, step);
      && Inv(t) && |t.msgs| == |s.msgs| && Sent(t.msgs) == Sent(s.msgs) + (if step.Signal? then 1 else 0)
      && (step.Complete? && !s.msgs[step.i].signalled ==> Enabled(t, Signal(step.i)))
  {
    StepKeepsInv(s, step);
    match step
    case Complete(i, flag) => SentUpdate(s.msgs, i, s.msgs[i].(flag := flag));
    case Signal(i) => SentUpdate(s.msgs, i, s.msgs[i].(signalled := true));
  }

  lemma {:induction false} CompleteAndOn(s: State, i: nat) returns (states: seq<State>, steps: seq<Step>)
    requires Inv(s) && i < |s.msgs| && s.msgs[i].flag.Reserved? && !s.msgs[i].signalled
    ensures Path(s, states, steps) && forall k | 0 <= k < |steps| :: Owed(steps[k])
    ensures var t := states[|steps|]; Inv(t) && AllSignalled(t) && |t.msgs| == |s.msgs|
    decreases |s.msgs| - Sent(s.msgs), 1
  {
    var step := Complete(i, Flag.Committed);
    OwedStep(s, step);
    states, steps := SignalAndOn(Next(s, step), i);
    PathFirst(s, step, states, steps);
    states, steps := [s] + states, [step] + steps;
  }

  lemma {:induction false} SignalAndOn(s: State, i: nat) returns (states: seq<State>, steps: seq<Step>)
    requires Inv(s) && Enabled(s, Signal(i))
    ensures Path(s, states, steps) && forall k | 0 <= k < |steps| :: Owed(steps[k])
    ensures var t := states[|steps|]; Inv(t) && AllSignalled(t) && |t.msgs| == |s.msgs|
    decreases |s.msgs| - Sent(s.msgs), 0
  {
    OwedStep(s, Signal(i));
    states, steps := ProducersFinish(Next(s, Signal(i)));
    PathFirst(s, Signal(i), states, steps);
    states, steps := [s] + states, [Signal(i)] + steps;
  }

  /** So no run gets into a state from which a message that has been reserved can no longer be written. */
  lemma NothingLost(states: seq<State>, steps: seq<Step>, i: nat) returns (later: seq<State>, more: seq<Step>)
    requires Run(states, steps) && i < |states|
    ensures Path(states[i], later, more) && forall k | 0 <= k < |more| :: Own(more[k]) || Owed(more[k])
    ensures var t := later[|more|];
      |t.msgs| == |states[i].msgs| && Written(t.msgs, t)
  {
    RunKeepsInv(states, steps, i);
    var a, x := ProducersFinish(states[i]);
    var b, y := WritesEverything(a[|x|]);
    PathJoin(states[i], a, x, b, y);
    later, more := a + b[1..], x + y;
  }
}
