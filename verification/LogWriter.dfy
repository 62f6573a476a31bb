/** The log writer thread of lib/zlog/src/consumer.c and its producers, as atomic steps in any interleaving:
    reserve, commit or discard, signal; wait, drain, exit; and flush. */
module LogWriter {
  import opened RingFifo
  import opened RingSize

  datatype Kind = Log | FlushCmd | ExitCmd

  /** A message of the ring, in reservation order; signalled once its producer has sent its signal. */
  datatype Msg = Msg(kind: Kind, flag: Flag, signalled: bool)

  datatype Writer =
    | AtLock                   // about to take siglock
    | Waiting(woken: bool)     // in pthread_cond_wait
    | Draining(pending: nat)   // at the head of the inner loop
    | Handling(pending: nat)   // a message is taken, fifo_out is still to come
    | Finished

  datatype State = State(
    msgs: seq<Msg>,        // every message ever reserved
    dequeued: nat,         // how many have left the ring
    sigSend: nat,          // both signal counters are 32-bit words
    sigRecv: nat,
    writer: Writer,
    exiting: bool,         // logc->exit
    seenExit: bool,        // the writer's own flag
    output: seq<nat>,      // the messages handed to the category, by position
    flushing: int,         // the flush being waited for, or -1
    flushDone: bool)

  datatype Step =
    | Reserve(kind: Kind)            // fifo_reserve under queue_in_lock
    | Complete(i: nat, flag: Flag)   // fifo_commit or fifo_discard
    | Signal(i: nat)                 // enque_signal
    | Check                          // the writer compares the counters under siglock
    | Wake                           // pthread_cond_wait returns, also without a signal
    | Take                           // a message that is no longer reserved is handled
    | Leave                          // fifo_out
    | Drained                        // the inner loop ends
    | FlushReturns

  const START := State([], 0, 0, 0, AtLock, false, false, [], -1, true)

  predicate Enabled(s: State, step: Step) {
    match step
    case Reserve(kind) => !s.exiting && |s.msgs| - s.dequeued < WORD - 1 && (kind.FlushCmd? ==> s.flushing == -1)
    case Complete(i, flag) =>
      && i < |s.msgs| && s.msgs[i].flag.Reserved? && !flag.Reserved?
      && (s.msgs[i].kind.Log? || flag.Committed?)
    case Signal(i) => i < |s.msgs| && !s.msgs[i].flag.Reserved? && !s.msgs[i].signalled
    case Check => s.writer.AtLock?
    case Wake => s.writer.Waiting?
    case Take => s.writer.Draining? && s.writer.pending > 0 && s.dequeued < |s.msgs| && !s.msgs[s.dequeued].flag.Reserved?
    case Leave => s.writer.Handling?
    case Drained => s.writer.Draining? && (s.writer.pending == 0 || s.dequeued == |s.msgs|)
    case FlushReturns => 0 <= s.flushing < |s.msgs| && s.msgs[s.flushing].signalled && s.flushDone
  }

  function Next(s: State, step: Step): State
    requires Enabled(s, step)
  {
    match step
    case Reserve(kind) =>
      s.(msgs := s.msgs + [Msg(kind, Reserved, false)],
         exiting := kind.ExitCmd?,
         flushing := if kind.FlushCmd? then |s.msgs| else s.flushing,
         flushDone := s.flushDone && !kind.FlushCmd?)
    case Complete(i, flag) => s.(msgs := s.msgs[i := s.msgs[i].(flag := flag)])
    case Signal(i) =>
      s.(msgs := s.msgs[i := s.msgs[i].(signalled := true)], sigSend := Wrap(s.sigSend + 1),
         writer := if s.writer.Waiting? then Waiting(true) else s.writer)
    case Check => s.(writer := if s.sigRecv == s.sigSend then Waiting(false) else Draining(Wrap(s.sigSend - s.sigRecv)))
    case Wake => s.(writer := Draining(Wrap(s.sigSend - s.sigRecv)))
    case Take =>
      var m := s.msgs[s.dequeued];
      s.(writer := Handling(s.writer.pending - 1), sigRecv := Wrap(s.sigRecv + 1),
         output := s.output + (if m.flag.Committed? && m.kind.Log? then [s.dequeued] else []),
         seenExit := s.seenExit || (m.flag.Committed? && m.kind.ExitCmd?),
         flushDone := s.flushDone || (m.flag.Committed? && m.kind.FlushCmd?))
    case Leave => s.(dequeued := s.dequeued + 1, writer := Draining(s.writer.pending))
    case Drained => s.(writer := if s.seenExit then Finished else AtLock)
    case FlushReturns => s.(flushing := -1)
  }

  // ---------- Counting ----------

  function Sent(msgs: seq<Msg>): (n: nat)
    ensures n <= |msgs|
  {
    if msgs == [] then 0 else Sent(msgs[..|msgs| - 1]) + if msgs[|msgs| - 1].signalled then 1 else 0
  }

  function Completed(msgs: seq<Msg>): (n: nat)
    ensures n <= |msgs|
  {
    if msgs == [] then 0 else Completed(msgs[..|msgs| - 1]) + if msgs[|msgs| - 1].flag.Reserved? then 0 else 1
  }

  /** The logged messages among the first ones, by position: what has to be written, in order. */
  function Committed(msgs: seq<Msg>): seq<nat> {
    if msgs == [] then []
    else
      var m := msgs[|msgs| - 1];
      Committed(msgs[..|msgs| - 1]) + if m.flag.Committed? && m.kind.Log? then [|msgs| - 1] else []
  }

  lemma {:induction false} SentUpdate(msgs: seq<Msg>, i: nat, m: Msg)
    requires i < |msgs|
    ensures Sent(msgs[i := m]) == Sent(msgs) - (if msgs[i].signalled then 1 else 0) + (if m.signalled then 1 else 0)
    decreases |msgs|
  {
    var n := |msgs| - 1;
    if i < n {
      SentUpdate(msgs[..n], i, m);
      assert msgs[i := m][..n] == msgs[..n][i := m];
    } else {
      assert msgs[i := m][..n] == msgs[..n];
    }
  }

  lemma {:induction false} SentAfterCompleted(msgs: seq<Msg>)
    requires forall i | 0 <= i < |msgs| && msgs[i].signalled :: !msgs[i].flag.Reserved?
    ensures Sent(msgs) <= Completed(msgs)
    decreases |msgs|
  {
    if msgs != [] { SentAfterCompleted(msgs[..|msgs| - 1]); }
  }

  lemma {:induction false} AllSent(msgs: seq<Msg>)
    ensures Sent(msgs) == |msgs| <==> forall i | 0 <= i < |msgs| :: msgs[i].signalled
    decreases |msgs|
  {
    if msgs != [] {
      var n := |msgs| - 1;
      AllSent(msgs[..n]);
      if forall i | 0 <= i < |msgs| :: msgs[i].signalled {
        assert forall i | 0 <= i < n :: msgs[..n][i].signalled;
      }
      if Sent(msgs) == |msgs| {
        forall i | 0 <= i < |msgs|
          ensures msgs[i].signalled
        {
          if i < n { assert msgs[..n][i].signalled; }
        }
      }
    }
  }

  /** Every committed log is to be written, nothing else is, and in the order of the reservations. */
  lemma {:induction false} CommittedExactly(msgs: seq<Msg>)
    ensures forall i: nat :: i in Committed(msgs) <==> i < |msgs| && msgs[i].kind.Log? && msgs[i].flag.Committed?
    ensures forall j, k | 0 <= j < k < |Committed(msgs)| :: Committed(msgs)[j] < Committed(msgs)[k]
    decreases |msgs|
  {
    if msgs != [] {
      var before := Committed(msgs[..|msgs| - 1]);
      CommittedExactly(msgs[..|msgs| - 1]);
      forall j | 0 <= j < |before|
        ensures before[j] < |msgs| - 1
      {
        assert before[j] in before;
      }
    }
  }

  // ---------- What every step keeps ----------

  /** How many messages the writer has taken. */
  ghost function Taken(s: State): nat {
    if s.writer.Handling? then s.dequeued + 1 else s.dequeued
  }

  ghost predicate Resting(s: State) { s.writer.AtLock? || s.writer.Waiting? }

  ghost function Pending(s: State): nat {
    if s.writer.Draining? || s.writer.Handling? then s.writer.pending else 0
  }

  /** The signal counters: no message is taken before a signal for it has been sent, and the writer sleeps
      only when it has taken one message for every signal. */
  ghost predicate Counters(sent: nat, total: nat, taken: nat, dequeued: nat, pending: nat, sigSend: nat, sigRecv: nat, asleep: bool) {
    && taken + pending <= sent <= total < dequeued + WORD
    && dequeued <= taken
    && sigSend == Wrap(sent) && sigRecv == Wrap(taken)
    && (asleep ==> sent == taken)
  }

  /** Nothing is signalled or taken while it is reserved, and what was taken and committed has been written
      out, once and in order. */
  ghost predicate Order(msgs: seq<Msg>, taken: nat, output: seq<nat>) {
    && taken <= |msgs|
    && (forall i {:trigger msgs[i].signalled} | 0 <= i < |msgs| && msgs[i].signalled :: !msgs[i].flag.Reserved?)
    && (forall i {:trigger msgs[i].flag} | 0 <= i < taken :: !msgs[i].flag.Reserved?)
    && output == Committed(msgs[..taken])
  }

  /** The exit command is the last message; the writer has seen it exactly when it has taken everything and that
      was the last, and then never goes back to the lock. */
  ghost predicate Ending(msgs: seq<Msg>, taken: nat, exiting: bool, seenExit: bool, finished: bool, resting: bool) {
    && (forall i {:trigger msgs[i].kind} | 0 <= i < |msgs| && msgs[i].kind.ExitCmd? :: i == |msgs| - 1 && exiting)
    && (forall i {:trigger msgs[i].flag} | 0 <= i < |msgs| && msgs[i].flag.Discarded? :: msgs[i].kind.Log?)
    && (seenExit <==> 0 < taken == |msgs| && msgs[|msgs| - 1].kind.ExitCmd?)
    && (finished ==> seenExit) && (resting ==> !seenExit)
  }

  /** A flush is done exactly when its command, and so everything before it, has been taken. */
  ghost predicate Flushing(msgs: seq<Msg>, taken: nat, flushing: int, done: bool) {
    && -1 <= flushing < |msgs|
    && (flushing >= 0 ==> msgs[flushing].kind.FlushCmd? && (done <==> flushing < taken))
    && (forall i {:trigger msgs[i].kind} | taken <= i < |msgs| && msgs[i].kind.FlushCmd? :: flushing == i)
  }

  ghost predicate Counted(s: State) {
    Counters(Sent(s.msgs), |s.msgs|, Taken(s), s.dequeued, Pending(s), s.sigSend, s.sigRecv, s.writer == Waiting(false))
  }

  ghost predicate Inv(s: State) {
    && Counted(s)
    && Order(s.msgs, Taken(s), s.output)
    && Ending(s.msgs, Taken(s), s.exiting, s.seenExit, s.writer.Finished?, Resting(s))
    && Flushing(s.msgs, Taken(s), s.flushing, s.flushDone)
  }

  lemma SentAppend(msgs: seq<Msg>, m: Msg)
    ensures Sent(msgs + [m]) == Sent(msgs) + if m.signalled then 1 else 0
  {
    assert (msgs + [m])[..|msgs|] == msgs;
  }

  lemma OrderAppend(msgs: seq<Msg>, taken: nat, output: seq<nat>, m: Msg)
    requires Order(msgs, taken, output) && !m.signalled
    ensures Order(msgs + [m], taken, output)
  {
    assert (msgs + [m])[..taken] == msgs[..taken];
  }

  lemma EndingAppend(msgs: seq<Msg>, taken: nat, resting: bool, m: Msg)
    requires taken <= |msgs| && Ending(msgs, taken, false, false, false, resting) && m.flag.Reserved?
    ensures Ending(msgs + [m], taken, m.kind.ExitCmd?, false, false, resting)
  {
  }

  lemma FlushingAppend(msgs: seq<Msg>, taken: nat, flushing: int, done: bool, m: Msg)
    requires taken <= |msgs| && Flushing(msgs, taken, flushing, done)
    requires m.kind.FlushCmd? ==> flushing == -1
    ensures !m.kind.FlushCmd? ==> Flushing(msgs + [m], taken, flushing, done)
    ensures m.kind.FlushCmd? ==> Flushing(msgs + [m], taken, |msgs|, false)
  {
  }

  /** A producer marks its message completed or signalled. */
  lemma MarkKeeps(msgs: seq<Msg>, taken: nat, output: seq<nat>, i: nat, m: Msg)
    requires Order(msgs, taken, output) && i < |msgs| && m.kind == msgs[i].kind && !m.flag.Reserved?
    requires msgs[i].flag.Reserved? || m.flag == msgs[i].flag
    ensures Order(msgs[i := m], taken, output)
  {
    MarkKeepsCommitted(msgs, i, m, taken);
  }

  lemma {:induction false} MarkKeepsCommitted(msgs: seq<Msg>, i: nat, m: Msg, k: nat)
    requires i < |msgs| && k <= |msgs| && m.kind == msgs[i].kind && (i < k ==> m.flag == msgs[i].flag)
    ensures Committed(msgs[i := m][..k]) == Committed(msgs[..k])
    decreases k
  {
    if k > 0 {
      MarkKeepsCommitted(msgs, i, m, k - 1);
      assert msgs[i := m][..k][..k - 1] == msgs[i := m][..k - 1] && msgs[..k][..k - 1] == msgs[..k - 1];
    }
  }

  lemma MarkKeepsEnding(msgs: seq<Msg>, taken: nat, exiting: bool, seenExit: bool, finished: bool, resting: bool, i: nat, m: Msg)
    requires Ending(msgs, taken, exiting, seenExit, finished, resting) && i < |msgs| && m.kind == msgs[i].kind
    requires m.flag.Discarded? ==> m.kind.Log?
    ensures Ending(msgs[i := m], taken, exiting, seenExit, finished, resting)
  {
  }

  lemma MarkKeepsFlushing(msgs: seq<Msg>, taken: nat, flushing: int, done: bool, i: nat, m: Msg)
    requires Flushing(msgs, taken, flushing, done) && i < |msgs| && m.kind == msgs[i].kind
    ensures Flushing(msgs[i := m], taken, flushing, done)
  {
  }

  lemma OrderTake(msgs: seq<Msg>, taken: nat, output: seq<nat>)
    requires Order(msgs, taken, output) && taken < |msgs| && !msgs[taken].flag.Reserved?
    ensures Order(msgs, taken + 1, output + if msgs[taken].flag.Committed? && msgs[taken].kind.Log? then [taken] else [])
  {
    assert msgs[..taken + 1][..taken] == msgs[..taken];
  }

  lemma CountersSignal(sent: nat, total: nat, taken: nat, dequeued: nat, pending: nat, sigSend: nat, sigRecv: nat, asleep: bool)
    requires Counters(sent, total, taken, dequeued, pending, sigSend, sigRecv, asleep) && sent < total
    ensures Counters(sent + 1, total, taken, dequeued, pending, Wrap(sigSend + 1), sigRecv, false)
  {
    WrapAdd(sent, 1);
  }

  lemma CountersTake(sent: nat, total: nat, taken: nat, dequeued: nat, pending: nat, sigSend: nat, sigRecv: nat)
    requires Counters(sent, total, taken, dequeued, pending, sigSend, sigRecv, false) && pending > 0
    ensures Counters(sent, total, taken + 1, dequeued, pending - 1, sigSend, Wrap(sigRecv + 1), false)
  {
    WrapAdd(taken, 1);
  }

  lemma EndingTake(msgs: seq<Msg>, taken: nat, exiting: bool, seenExit: bool)
    requires taken < |msgs| && !msgs[taken].flag.Reserved? && Ending(msgs, taken, exiting, seenExit, false, false)
    ensures Ending(msgs, taken + 1, exiting, seenExit || (msgs[taken].flag.Committed? && msgs[taken].kind.ExitCmd?), false, false)
  {
  }

  lemma FlushingTake(msgs: seq<Msg>, taken: nat, flushing: int, done: bool)
    requires taken < |msgs| && !msgs[taken].flag.Reserved? && Flushing(msgs, taken, flushing, done)
    requires msgs[taken].flag.Discarded? ==> msgs[taken].kind.Log?
    ensures Flushing(msgs, taken + 1, flushing, done || (msgs[taken].flag.Committed? && msgs[taken].kind.FlushCmd?))
  {
  }

  lemma ReserveCounts(s: State, kind: Kind)
    requires Counted(s) && Enabled(s, Reserve(kind))
    ensures Counted(Next(s, Reserve(kind)))
  {
    SentAppend(s.msgs, Msg(kind, Reserved, false));
  }

  lemma CompleteCounts(s: State, i: nat, flag: Flag)
    requires Counted(s) && Enabled(s, Complete(i, flag))
    ensures Counted(Next(s, Complete(i, flag)))
  {
    SentUpdate(s.msgs, i, s.msgs[i].(flag := flag));
  }

  lemma SignalCounts(s: State, i: nat)
    requires Counted(s) && Enabled(s, Signal(i))
    ensures Counted(Next(s, Signal(i)))
  {
    var t := Next(s, Signal(i));
    SentUpdate(s.msgs, i, s.msgs[i].(signalled := true));
    assert Sent(t.msgs) == Sent(s.msgs) + 1 <= |s.msgs|;
    CountersSignal(Sent(s.msgs), |s.msgs|, Taken(s), s.dequeued, Pending(s), s.sigSend, s.sigRecv, s.writer == Waiting(false));
  }

  lemma TakeCounts(s: State)
    requires Counted(s) && Enabled(s, Take)
    ensures Counted(Next(s, Take))
  {
    CountersTake(Sent(s.msgs), |s.msgs|, Taken(s), s.dequeued, Pending(s), s.sigSend, s.sigRecv);
  }

  lemma ReserveKeeps(s: State, kind: Kind)
    requires Inv(s) && Enabled(s, Reserve(kind))
    ensures Inv(Next(s, Reserve(kind)))
  {
    var m := Msg(kind, Reserved, false);
    ReserveCounts(s, kind);
    OrderAppend(s.msgs, Taken(s), s.output, m);
    EndingAppend(s.msgs, Taken(s), Resting(s), m);
    FlushingAppend(s.msgs, Taken(s), s.flushing, s.flushDone, m);
  }

  lemma CompleteKeeps(s: State, i: nat, flag: Flag)
    requires Inv(s) && Enabled(s, Complete(i, flag))
    ensures Inv(Next(s, Complete(i, flag)))
  {
    var m := s.msgs[i].(flag := flag);
    CompleteCounts(s, i, flag);
    MarkKeeps(s.msgs, Taken(s), s.output, i, m);
    MarkKeepsEnding(s.msgs, Taken(s), s.exiting, s.seenExit, s.writer.Finished?, Resting(s), i, m);
    MarkKeepsFlushing(s.msgs, Taken(s), s.flushing, s.flushDone, i, m);
  }

  lemma SignalKeeps(s: State, i: nat)
    requires Inv(s) && Enabled(s, Signal(i))
    ensures Inv(Next(s, Signal(i)))
  {
    var m := s.msgs[i].(signalled := true);
    SignalCounts(s, i);
    MarkKeeps(s.msgs, Taken(s), s.output, i, m);
    MarkKeepsEnding(s.msgs, Taken(s), s.exiting, s.seenExit, s.writer.Finished?, Resting(s), i, m);
    MarkKeepsFlushing(s.msgs, Taken(s), s.flushing, s.flushDone, i, m);
  }

  lemma AwakeKeeps(s: State, step: Step)
    requires Inv(s) && Enabled(s, step) && (step.Check? || step.Wake?)
    ensures Inv(Next(s, step))
  {
    UsedIsExact(Sent(s.msgs), Taken(s));
  }

  lemma TakeKeeps(s: State)
    requires Inv(s) && Enabled(s, Take)
    ensures Inv(Next(s, Take))
  {
    TakeCounts(s);
    OrderTake(s.msgs, Taken(s), s.output);
    EndingTake(s.msgs, Taken(s), s.exiting, s.seenExit);
    FlushingTake(s.msgs, Taken(s), s.flushing, s.flushDone);
  }

  lemma RestKeeps(s: State, step: Step)
    requires Inv(s) && Enabled(s, step) && (step.Leave? || step.Drained? || step.FlushReturns?)
    ensures Inv(Next(s, step))
  {
  }

  lemma StepKeepsInv(s: State, step: Step)
    requires Inv(s) && Enabled(s, step)
    ensures Inv(Next(s, step))
  {
    match step
    case Reserve(kind) => ReserveKeeps(s, kind);
    case Complete(i, flag) => CompleteKeeps(s, i, flag);
    case Signal(i) => SignalKeeps(s, i);
    case Check => AwakeKeeps(s, step);
    case Wake => AwakeKeeps(s, step);
    case Take => TakeKeeps(s);
    case _ => RestKeeps(s, step);
  }

  // ---------- Whole runs ----------

  ghost predicate Run(states: seq<State>, steps: seq<Step>) {
    && |states| == |steps| + 1 && states[0] == START
    && forall i {:trigger steps[i]} | 0 <= i < |steps| ::
         Enabled(states[i], steps[i]) && states[i + 1] == Next(states[i], steps[i])
  }

  /** Runs start empty and go on with any step that is enabled. */
  lemma RunsGoOn(states: seq<State>, steps: seq<Step>, step: Step)
    ensures Run([START], [])
    ensures Run(states, steps) && Enabled(states[|steps|], step) ==> Run(states + [Next(states[|steps|], step)], steps + [step])
  {
    if Run(states, steps) && Enabled(states[|steps|], step) {
      var more, on := states + [Next(states[|steps|], step)], steps + [step];
      forall i | 0 <= i < |on|
        ensures Enabled(more[i], on[i]) && more[i + 1] == Next(more[i], on[i])
      {
        if i < |steps| { assert on[i] == steps[i]; }
      }
    }
  }

  lemma {:induction false} RunKeepsInv(states: seq<State>, steps: seq<Step>, i: nat)
    requires Run(states, steps) && i < |states|
    ensures Inv(states[i])
    decreases i
  {
    if i > 0 {
      RunKeepsInv(states, steps, i - 1);
      StepKeepsInv(states[i - 1], steps[i - 1]);
    }
  }

  /** In every run: what is taken was signalled for, what is signalled was completed, and whenever the writer
      believes that messages are pending there is one at the head of the ring. */
  lemma WriterSafety(states: seq<State>, steps: seq<Step>, i: nat)
    requires Run(states, steps) && i < |states|
    ensures var s := states[i]; Taken(s) <= Sent(s.msgs) <= Completed(s.msgs) <= |s.msgs|
    ensures var s := states[i]; s.sigSend == Wrap(Sent(s.msgs)) && s.sigRecv == Wrap(Taken(s))
    ensures var s := states[i]; s.writer.Draining? && s.writer.pending > 0 ==> s.dequeued < |s.msgs|
    ensures var s := states[i]; forall k | 0 <= k < Taken(s) :: !s.msgs[k].flag.Reserved?
    ensures var s := states[i]; s.output == Committed(s.msgs[..Taken(s)])
  {
    RunKeepsInv(states, steps, i);
    SentAfterCompleted(states[i].msgs);
  }

  /** If the writer sleeps, no wake-up is on its way and every producer has signalled, the ring is empty. */
  lemma NothingStranded(states: seq<State>, steps: seq<Step>, i: nat)
    requires Run(states, steps) && i < |states| && states[i].writer == Waiting(false)
    requires forall k | 0 <= k < |states[i].msgs| :: states[i].msgs[k].signalled
    ensures states[i].dequeued == |states[i].msgs|
  {
    RunKeepsInv(states, steps, i);
    AllSent(states[i].msgs);
  }

  /** Once the exit command has been handled, every message before it has been taken, and every committed
      log among them has been written exactly once, in reservation order. */
  lemma ExitIsLast(states: seq<State>, steps: seq<Step>, i: nat)
    requires Run(states, steps) && i < |states| && states[i].seenExit
    ensures var s := states[i];
            && s.msgs != [] && s.msgs[|s.msgs| - 1].kind.ExitCmd? && Taken(s) == |s.msgs|
            && s.output == Committed(s.msgs)
  {
    RunKeepsInv(states, steps, i);
    var s := states[i];
    assert s.msgs[..|s.msgs|] == s.msgs;
  }

  /** When a flush returns, everything reserved before it has been taken. */
  lemma FlushWaits(states: seq<State>, steps: seq<Step>, i: nat)
    requires Run(states, steps) && i < |steps| && steps[i].FlushReturns?
    ensures states[i].flushing < Taken(states[i]) <= |states[i].msgs|
    ensures states[i].output == Committed(states[i].msgs[..Taken(states[i])])
  {
    RunKeepsInv(states, steps, i);
  }
}
