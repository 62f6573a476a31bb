/** The timeout sweep of handle_clth_timeout in server/worker.c over the deadline heap. */
module TimerSweep {
  import opened TimerOrder
  import opened TimerHeap
  import opened TimerRuns

  const CLTH_EMPTY := -1
  const CLTH_TIMEOUT := -2
  const CLTH_NOT_APPLICABLE := -3

  /** cl_timerheap_compute_root_timediff at a given clock reading. */
  method ComputeRootTimediff(heap: Heap, target: State, now: Time) returns (diff: int)
    requires heap.Valid()
    ensures diff == CLTH_EMPTY <==> heap.num == 0
    ensures diff == CLTH_NOT_APPLICABLE <==> heap.num > 0 && heap.members[0].state != target
    ensures diff == CLTH_TIMEOUT <==> heap.num > 0 && heap.members[0].state == target && heap.times[0].sec <= now.sec
    ensures diff >= 0 ==> diff == 1000 * (heap.times[0].sec - now.sec) && diff > 0
    ensures diff >= CLTH_NOT_APPLICABLE
  {
    if heap.num == 0 { return CLTH_EMPTY; }
    var root := heap.slots[0];
    assert root == heap.members[0];
    var seconds := root.deadline.sec - now.sec;
    if root.state != target { return CLTH_NOT_APPLICABLE; }
    if seconds <= 0 { return CLTH_TIMEOUT; }
    return seconds * 1000;
  }

  /** CLOCK_MONOTONIC never runs backwards. */
  method ReadClock(last: Time) returns (now: Time)
    ensures !Less(now, last)
  {
    assert !Less(last, last);
    now :| !Less(now, last);
  }

  /** Clients that have left the heap, each for a reason that still holds. */
  ghost predicate Released(gone: multiset<Client>, now: Time, all: set<Client>)
    reads all
  {
    forall c | c in gone :: c in all && (c.state != ACCEPTED || c.deadline.sec <= now.sec)
  }

  /** One case of the sweep: the root is popped, and if it is disconnected it is removed once more. */
  method TakeRoot(heap: Heap, disconnect: bool) returns (client: Client)
    requires heap.Valid() && heap.num > 0
    modifies heap, heap.slots, heap.repr`index
    ensures heap.Valid() && heap.slots == old(heap.slots) && heap.num == old(heap.num) - 1
    ensures client == old(heap.members)[0] && heap.repr <= old(heap.repr)
    ensures old(multiset(heap.members)) == multiset(heap.members) + multiset{client}
    ensures heap.times == Removed(heap.reading, old(heap.times), 0)
  {
    client := heap.Pop();
    if disconnect { heap.Remove(client); }
  }

  /** One turn of the sweep: the clock is read, and the root stays or goes; one that was still waiting is told that
      its time is up. */
  method Turn(heap: Heap, last: Time) returns (wait: int, now: Time, gone: Client?, told: bool)
    requires heap.Valid()
    modifies heap, heap.slots, heap.repr`index
    ensures heap.Valid() && heap.slots == old(heap.slots) && heap.repr <= old(heap.repr) && !Less(now, last)
    ensures gone == null ==> heap.members == old(heap.members) && heap.times == old(heap.times) && (wait == CLTH_EMPTY <==> heap.num == 0)
    ensures gone == null && heap.num > 0 ==>
              wait == 1000 * (heap.times[0].sec - now.sec) && wait > 0 && heap.members[0].state == ACCEPTED
    ensures gone != null ==> old(heap.num) > 0 && heap.num == old(heap.num) - 1 && gone in old(heap.repr)
    ensures gone != null ==> old(multiset(heap.members)) == multiset(heap.members) + multiset{gone}
    ensures gone != null ==> Popped(heap.reading, old(heap.times), heap.times)
    ensures gone != null ==> gone.state != ACCEPTED || gone.deadline.sec <= now.sec
    ensures told <==> gone != null && gone.state == ACCEPTED
  {
    now := ReadClock(last);
    wait := ComputeRootTimediff(heap, ACCEPTED, now);
    if wait == CLTH_EMPTY || wait >= 0 { return wait, now, null, false; }
    told := wait == CLTH_TIMEOUT;
    gone := TakeRoot(heap, told);
  }

  /** The clients told that their time is up are those that left while still waiting, once each, and it was. */
  ghost predicate Told(told: seq<Client>, gone: multiset<Client>, now: Time, all: set<Client>)
    reads all
  {
    && multiset(told) <= gone
    && (forall c | c in told :: c in all && c.state == ACCEPTED && c.deadline.sec <= now.sec)
    && (forall c | c in gone :: c in all && (c.state == ACCEPTED ==> multiset(told)[c] == gone[c]))
  }

  lemma StillReleased(told: seq<Client>, gone: multiset<Client>, last: Time, now: Time, all: set<Client>)
    requires Released(gone, last, all) && Told(told, gone, last, all) && !Less(now, last)
    ensures Released(gone, now, all) && Told(told, gone, now, all)
  {
  }

  /** One more client has left. */
  lemma OneGone(told: seq<Client>, gone: multiset<Client>, last: Time, now: Time, all: set<Client>, client: Client, late: bool)
    requires Released(gone, last, all) && Told(told, gone, last, all) && !Less(now, last) && client in all
    requires (late <==> client.state == ACCEPTED) && (late ==> client.deadline.sec <= now.sec)
    ensures Released(gone + multiset{client}, now, all)
    ensures Told(told + if late then [client] else [], gone + multiset{client}, now, all)
  {
    var more := told + if late then [client] else [];
    assert multiset(more) == multiset(told) + if late then multiset{client} else multiset{};
    forall c | c in more
      ensures c in all && c.state == ACCEPTED && c.deadline.sec <= now.sec
    {
      assert c in multiset(more);
    }
  }

  /** How long the worker may sleep. */
  ghost predicate Waits(heap: Heap, wait: int, now: Time)
    reads heap, heap.members
  {
    && (wait == CLTH_EMPTY <==> heap.num == 0)
    && (heap.num > 0 ==> |heap.members| > 0 && |heap.times| > 0 && heap.members[0].state == ACCEPTED
                         && wait == 1000 * (heap.times[0].sec - now.sec) && wait > 0)
  }

  /** One turn, with the books on who has gone. */
  method Round(heap: Heap, last: Time, before: seq<Client>, ghost gone: multiset<Client>, ghost all: set<Client>)
    returns (done: bool, wait: int, now: Time, told: seq<Client>, ghost out: multiset<Client>)
    requires heap.Valid() && heap.repr <= all && Released(gone, last, all) && Told(before, gone, last, all)
    modifies heap, heap.slots, heap.repr`index
    ensures heap.Valid() && heap.slots == old(heap.slots) && heap.repr <= all && heap.repr <= old(heap.repr) && !Less(now, last)
    ensures Released(out, now, all) && Told(told, out, now, all)
    ensures multiset(heap.members) + out == old(multiset(heap.members)) + gone
    ensures done ==> heap.times == old(heap.times) && Waits(heap, wait, now)
    ensures !done ==> heap.num < old(heap.num) && Popped(heap.reading, old(heap.times), heap.times)
  {
    var client, late;
    wait, now, client, late := Turn(heap, last);
    done := client == null;
    if done {
      StillReleased(before, gone, last, now, all);
      told, out := before, gone;
    } else {
      OneGone(before, gone, last, now, all, client, late);
      told, out := before + if late then [client] else [], gone + multiset{client};
    }
  }

  /** The sweep ends, and takes out only clients that are no longer waiting or out of time, from the root on. With
      MIN as intended, and with MIN as written if every pop was harmless, it leaves nobody whose deadline had passed
      at its last clock reading. */
  method Sweep(heap: Heap, start: Time) returns (wait: int, now: Time, told: seq<Client>, ghost gone: multiset<Client>)
    requires heap.Valid()
    modifies heap, heap.slots, heap.repr`index
    ensures heap.Valid() && !Less(now, start)
    ensures old(multiset(heap.members)) == multiset(heap.members) + gone
    ensures Released(gone, now, old(heap.repr)) && Told(told, gone, now, old(heap.repr))
    ensures wait == CLTH_EMPTY <==> heap.num == 0
    ensures heap.num > 0 ==> wait == 1000 * (heap.times[0].sec - now.sec) && wait > 0 && heap.members[0].state == ACCEPTED
    ensures PoppedTo(heap.reading, old(heap.times), heap.times)
    ensures Ordered(old(heap.times)) && (heap.reading.Intended? || HarmlessTo(old(heap.times), heap.num)) ==>
              Ordered(heap.times) && forall k | 0 <= k < heap.num :: heap.members[k].deadline.sec > now.sec
  {
    ghost var was := heap.times;
    wait, now, told, gone := Rounds(heap, start);
    SweptOrdered(heap.reading, was, heap.times, now.sec);
    DeadlinesKept(heap, now.sec);
  }

  lemma DeadlinesKept(heap: Heap, now: int)
    requires heap.Valid()
    ensures (forall k | 0 <= k < |heap.times| :: heap.times[k].sec > now)
            ==> forall k | 0 <= k < heap.num :: heap.members[k].deadline.sec > now
  {
  }

  /** The loop of the sweep. */
  method Rounds(heap: Heap, start: Time) returns (wait: int, now: Time, told: seq<Client>, ghost gone: multiset<Client>)
    requires heap.Valid()
    modifies heap, heap.slots, heap.repr`index
    ensures heap.Valid() && !Less(now, start)
    ensures old(multiset(heap.members)) == multiset(heap.members) + gone
    ensures Released(gone, now, old(heap.repr)) && Told(told, gone, now, old(heap.repr))
    ensures Waits(heap, wait, now) && PoppedTo(heap.reading, old(heap.times), heap.times)
  {
    wait, now := CLTH_EMPTY, start;
    gone, told := multiset{}, [];
    ghost var was, all := heap.times, heap.repr;
    var done := false;
    while !done
      invariant heap.Valid() && !Less(now, start) && heap.slots == old(heap.slots) && heap.repr <= all
      invariant old(multiset(heap.members)) == multiset(heap.members) + gone
      invariant Released(gone, now, all) && Told(told, gone, now, all)
      invariant PoppedTo(heap.reading, was, heap.times)
      invariant done ==> Waits(heap, wait, now)
      decreases heap.num, !done
    {
      ghost var times := heap.times;
      done, wait, now, told, gone := Round(heap, now, told, gone, all);
      if !done { PoppedOn(heap.reading, was, times, heap.times); }
    }
  }
}
