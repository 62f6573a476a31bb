/** The log writer's queue as it is kept: the messages in the byte ring of lib/zlog/src/fifo.c and the signal protocol
    of lib/zlog/src/consumer.c together. Every access to the ring is a step of the writer's state machine. */
module LogRing {
  import opened RingFifo
  import opened RingSize
  import opened LogWriter
  import opened LogProgress

  /** The live messages of the ring are those that have been reserved and not dequeued, with their flags. */
  ghost predicate Mirrors(live: seq<Entry>, tape: seq<Cell>, msgs: seq<Msg>, dequeued: nat) {
    && dequeued <= |msgs| && |live| == |msgs| - dequeued
    && forall j {:trigger live[j]} | 0 <= j < |live| :: Shows(live[j], tape, msgs[dequeued + j].flag)
  }

  ghost predicate Shows(e: Entry, tape: seq<Cell>, flag: Flag) {
    e.pos < |tape| && tape[e.pos].Head? && tape[e.pos].flag == flag
  }

  lemma MirrorsAppend(live: seq<Entry>, tape: seq<Cell>, msgs: seq<Msg>, dequeued: nat, e: Entry, more: seq<Cell>, m: Msg)
    requires Mirrors(live, tape, msgs, dequeued) && |tape| < |more| && more[..|tape|] == tape
    requires Shows(e, more, m.flag)
    ensures Mirrors(live + [e], more, msgs + [m], dequeued)
  {
    forall j | 0 <= j < |live + [e]|
      ensures Shows((live + [e])[j], more, (msgs + [m])[dequeued + j].flag)
    {
      if j < |live| {
        assert Shows(live[j], tape, msgs[dequeued + j].flag);
        assert more[live[j].pos] == tape[live[j].pos];
      }
    }
  }

  lemma MirrorsFlag(live: seq<Entry>, tape: seq<Cell>, gout: nat, msgs: seq<Msg>, dequeued: nat, i: nat, flag: Flag)
    requires Mirrors(live, tape, msgs, dequeued) && Laid(live, tape, gout) && i < |live|
    ensures live[i].pos < |tape|
    ensures Mirrors(live, tape[live[i].pos := Head(live[i].total, flag)], msgs[dequeued + i := msgs[dequeued + i].(flag := flag)], dequeued)
  {
    LaidAt(live, tape, gout, i);
    forall j | 0 <= j < |live|
      ensures Shows(live[j], tape[live[i].pos := Head(live[i].total, flag)], if j == i then flag else msgs[dequeued + j].flag)
    {
      LaidAt(live, tape, gout, j);
      if j < i { LaidInOrder(live, tape, gout, j, i); }
      if i < j { LaidInOrder(live, tape, gout, i, j); }
      assert Shows(live[j], tape, msgs[dequeued + j].flag);
    }
  }

  lemma MirrorsSignal(live: seq<Entry>, tape: seq<Cell>, msgs: seq<Msg>, dequeued: nat, i: nat)
    requires Mirrors(live, tape, msgs, dequeued) && i < |msgs|
    ensures Mirrors(live, tape, msgs[i := msgs[i].(signalled := true)], dequeued)
  {
    forall j | 0 <= j < |live|
      ensures Shows(live[j], tape, msgs[i := msgs[i].(signalled := true)][dequeued + j].flag)
    {
      assert Shows(live[j], tape, msgs[dequeued + j].flag);
    }
  }

  lemma MirrorsDrop(live: seq<Entry>, tape: seq<Cell>, msgs: seq<Msg>, dequeued: nat)
    requires Mirrors(live, tape, msgs, dequeued) && live != []
    ensures Mirrors(live[1..], tape, msgs, dequeued + 1)
  {
    forall j | 0 <= j < |live[1..]|
      ensures Shows(live[1..][j], tape, msgs[dequeued + 1 + j].flag)
    {
      assert live[1..][j] == live[j + 1];
    }
  }

  /** A ring has fewer messages than its counters can tell apart. */
  lemma {:induction false} LiveBytes(live: seq<Entry>, tape: seq<Cell>, gout: nat)
    requires Laid(live, tape, gout)
    ensures gout + |live| * HEAD_SIZE <= |tape|
    decreases |live|
  {
    if live != [] { LiveBytes(live[..|live| - 1], tape[..live[|live| - 1].pos], gout); }
  }

  /** Producers hold the heads of their messages. */
  ghost predicate Held(live: seq<Entry>, heads: seq<nat>, total: nat, dequeued: nat, size: nat) {
    && 0 < size && |heads| == total && dequeued + |live| == total
    && forall j {:trigger live[j]} | 0 <= j < |live| :: heads[dequeued + j] == Residue(live[j].pos, size)
  }

  lemma HeldAppend(live: seq<Entry>, heads: seq<nat>, total: nat, dequeued: nat, size: nat, e: Entry, head: nat)
    requires Held(live, heads, total, dequeued, size) && head == Residue(e.pos, size)
    ensures Held(live + [e], heads + [head], total + 1, dequeued, size)
  {
    forall j | 0 <= j < |live + [e]|
      ensures (heads + [head])[dequeued + j] == Residue((live + [e])[j].pos, size)
    {
      if j < |live| { assert heads[dequeued + j] == Residue(live[j].pos, size); }
    }
  }

  lemma HeldDrop(live: seq<Entry>, heads: seq<nat>, total: nat, dequeued: nat, size: nat)
    requires Held(live, heads, total, dequeued, size) && live != []
    ensures Held(live[1..], heads, total, dequeued + 1, size)
  {
    forall j | 0 <= j < |live[1..]|
      ensures heads[dequeued + 1 + j] == Residue(live[1..][j].pos, size)
    {
      assert live[1..][j] == live[j + 1];
    }
  }

  class Queue {
    const fifo: Fifo
    var s: State          // signals, commands and what has become of every message
    var heads: seq<nat>   // where the head of every message is, or was

    ghost predicate Valid()
      reads this, fifo, fifo.ring
    {
      Inv(s) && Linked(s.msgs, s.dequeued)
    }

    /** The ring holds these messages but the first ones. */
    ghost predicate Linked(msgs: seq<Msg>, dequeued: nat)
      reads this`heads, fifo, fifo.ring
    {
      && fifo.Valid()
      && Mirrors(fifo.live, fifo.tape, msgs, dequeued)
      && Held(fifo.live, heads, |msgs|, dequeued, fifo.size)
    }

    /** log_consumer_create, with a ring of at most 2^19 pages. */
    constructor (pages: bv32)
      requires pages <= 0x8_0000
      ensures Valid() && s == START && fresh(fifo) && fresh(fifo.ring)
    {
      fifo := new Fifo(pages);
      s, heads := START, [];
    }

    /** What the ring's bytes leave room for is within the bounds of the signal counters. */
    lemma FewEnough()
      requires Valid()
      ensures |s.msgs| - s.dequeued < WORD - 1
    {
      LiveBytes(fifo.live, fifo.tape, fifo.gout);
    }

    /** The step that goes with an access to the ring. */
    method Record(step: Step)
      requires Inv(s) && Enabled(s, step)
      modifies this`s
      ensures Inv(s) && s == Next(old(s), step)
    {
      StepKeepsInv(s, step);
      s := Next(s, step);
    }

    /** log_consumer_queue_reserve, which refuses once the exit command is there, and the reservation of the two
        commands: when the ring has room it is the step of the state machine, and otherwise nothing happens. */
    method Enqueue(kind: Kind, n: nat) returns (ok: bool)
      requires Valid() && n + HEAD_SIZE < WORD && (s.exiting ==> kind.Log?) && (kind.FlushCmd? ==> s.flushing == -1)
      modifies this, fifo`inn, fifo`tape, fifo`live, fifo.ring
      ensures Valid() && (ok <==> !old(s).exiting && n + HEAD_SIZE <= fifo.size - old(fifo.Used()))
      ensures if ok then Enabled(old(s), Reserve(kind)) && s == Next(old(s), Reserve(kind)) else s == old(s)
    {
      if s.exiting { return false; }
      FewEnough();
      ok := Push(n, Msg(kind, Reserved, false), s.msgs, s.dequeued);
      if ok { Record(Reserve(kind)); }
    }

    method Push(n: nat, ghost m: Msg, ghost msgs: seq<Msg>, ghost dequeued: nat) returns (ok: bool)
      requires Linked(msgs, dequeued) && n + HEAD_SIZE < WORD && m.flag.Reserved?
      modifies this`heads, fifo`inn, fifo`tape, fifo`live, fifo.ring
      ensures ok <==> n + HEAD_SIZE <= fifo.size - old(fifo.Used())
      ensures Linked(if ok then msgs + [m] else msgs, dequeued)
    {
      ghost var live, tape := fifo.live, fifo.tape;
      var head;
      head, ok := fifo.Reserve(n);
      if ok {
        ghost var e := Entry(|tape|, n + HEAD_SIZE);
        MirrorsAppend(live, tape, msgs, dequeued, e, fifo.tape, m);
        HeldAppend(live, heads, |msgs|, dequeued, fifo.size, e, head);
        heads := heads + [head];
      }
    }

    /** What is reserved has not left the ring. */
    lemma StillThere(i: nat)
      requires Valid() && i < |s.msgs| && s.msgs[i].flag.Reserved?
      ensures s.dequeued <= i
    {
    }

    /** fifo_commit or fifo_discard. */
    method Settle(i: nat, flag: Flag)
      requires Valid() && Enabled(s, Complete(i, flag))
      modifies this`s, fifo`tape, fifo.ring
      ensures Valid() && s == Next(old(s), Complete(i, flag))
    {
      StillThere(i);
      Mark(i, flag, s.msgs, s.dequeued);
      Record(Complete(i, flag));
    }

    method Mark(i: nat, flag: Flag, ghost msgs: seq<Msg>, ghost dequeued: nat)
      requires Linked(msgs, dequeued) && dequeued <= i < |msgs|
      modifies fifo`tape, fifo.ring
      ensures Linked(msgs[i := msgs[i].(flag := flag)], dequeued)
    {
      assert heads[i] == Residue(fifo.live[i - dequeued].pos, fifo.size);
      MirrorsFlag(fifo.live, fifo.tape, fifo.gout, msgs, dequeued, i - dequeued, flag);
      fifo.SetFlag(heads[i], flag, i - dequeued);
    }

    /** fifo_peek and the look at the flag: a message is taken exactly when the state machine can take one. */
    method TakeOldest() returns (taken: bool)
      requires Valid() && s.writer.Draining? && s.writer.pending > 0
      modifies this`s
      ensures Valid() && (taken <==> Enabled(old(s), Take)) && s == if taken then Next(old(s), Take) else old(s)
    {
      var head, some := fifo.Peek();
      if some { assert Shows(fifo.live[0], fifo.tape, s.msgs[s.dequeued].flag); }
      taken := some && !fifo.ring[head].flag.Reserved?;
      if taken { Record(Take); }
    }

    /** fifo_out of the message that has been handled. */
    method DropOldest()
      requires Valid() && s.writer.Handling?
      modifies this`s, fifo`out, fifo`gout, fifo`live
      ensures Valid() && s == Next(old(s), Leave)
    {
      Drop(s.dequeued, s.msgs);
      Record(Leave);
    }

    method Drop(oldest: nat, ghost msgs: seq<Msg>)
      requires Linked(msgs, oldest) && oldest < |msgs|
      modifies fifo`out, fifo`gout, fifo`live
      ensures Linked(msgs, oldest + 1)
    {
      assert heads[oldest] == Residue(fifo.live[0].pos, fifo.size);
      MirrorsDrop(fifo.live, fifo.tape, msgs, oldest);
      HeldDrop(fifo.live, heads, |msgs|, oldest, fifo.size);
      fifo.Out(heads[oldest]);
    }

    /** The inner loop ends when nothing is pending or fifo_peek finds nothing. */
    method LoopEnds() returns (ends: bool)
      requires Valid() && s.writer.Draining?
      ensures ends <==> Enabled(s, Drained)
    {
      var _, some := fifo.Peek();
      ends := s.writer.pending == 0 || !some;
    }

    /** The steps that leave the ring alone. */
    method Beside(step: Step)
      requires Valid() && Enabled(s, step)
      requires step.Signal? || step.Check? || step.Wake? || step.Drained? || step.FlushReturns?
      modifies this`s
      ensures Valid() && s == Next(old(s), step)
    {
      if step.Signal? { MirrorsSignal(fifo.live, fifo.tape, s.msgs, s.dequeued, step.i); }
      Record(step);
    }

    /** One step of the writer thread, with what it does to the ring. */
    method WriterStep()
      requires Valid() && AllSignalled(s) && !AtRest(s)
      modifies this`s, fifo`out, fifo`gout, fifo`live
      ensures Valid() && Enabled(old(s), OwnStep(old(s))) && s == Next(old(s), OwnStep(old(s)))
    {
      NeverStuck(s);
      var step := OwnStep(s);
      if step.Take? {
        var _ := TakeOldest();
      } else if step.Leave? {
        DropOldest();
      } else {
        Beside(step);
      }
    }

    /** The writer thread, when every message has been signalled: it writes all that is committed, in order, empties
        the ring, and then sleeps, or ends if the last message told it to. */
    method WriteOut()
      requires Valid() && AllSignalled(s)
      modifies this`s, fifo`out, fifo`gout, fifo`live
      ensures Valid() && Written(old(s).msgs, s) && fifo.live == []
    {
      while !AtRest(s)
        invariant Valid() && AllSignalled(s) && s.msgs == old(s).msgs
        decreases Rank(s)
      {
        NeverStuck(s);
        OwnStepDescends(s, OwnStep(s));
        WriterStep();
      }
      RestIsDone(s);
    }

    /** Any interleaving of the threads: the ring and the state machine stay together, so every result about its
        runs is one about the messages in the ring. */
    method Run(events: nat)
      requires Valid()
      modifies this, fifo, fifo.ring
      ensures Valid() && s.output == LogWriter.Committed(s.msgs[..Taken(s)])
    {
      var k := 0;
      while k < events
        invariant Valid()
      {
        var step: Step, n: nat := *, *;
        if Enabled(s, step) {
          match step
          case Reserve(kind) => if n + HEAD_SIZE < WORD { var _ := Enqueue(kind, n); }
          case Complete(i, flag) => Settle(i, flag);
          case Take => var _ := TakeOldest();
          case Leave => DropOldest();
          case _ => Beside(step);
        }
        k := k + 1;
      }
    }
  }
}
