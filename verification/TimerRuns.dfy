/** Sweeps of the deadline heap, and whole runs of joins, departures and sweeps, on the deadlines alone: when
    nobody is left behind (server/cltimerheap.c, handle_clth_timeout in server/worker.c). */
module TimerRuns {
  import opened TimerOrder
  import opened ByteStrings

  // ---------- The pops of one sweep ----------

  /** The heap after the first deadline has been popped n times. */
  function Pops(r: Reading, h: seq<Time>, n: nat): (t: seq<Time>)
    requires n <= |h|
    ensures |t| == |h| - n
    decreases n
  {
    if n == 0 then h else Pops(r, Removed(r, h, 0), n - 1)
  }

  /** Every one of these pops keeps the order with MIN as written. */
  ghost predicate HarmlessPops(h: seq<Time>, n: nat)
    requires n <= |h|
    decreases n
  {
    n == 0 || (RemovesHarmlessly(h, 0) && HarmlessPops(Removed(AsWritten, h, 0), n - 1))
  }

  lemma {:induction false} PopsNext(r: Reading, h: seq<Time>, n: nat)
    requires n < |h|
    ensures Pops(r, h, n + 1) == Removed(r, Pops(r, h, n), 0)
    decreases n
  {
    if n > 0 { PopsNext(r, Removed(r, h, 0), n - 1); }
  }

  lemma {:induction false} PopsOrdered(r: Reading, h: seq<Time>, n: nat)
    requires n <= |h| && Ordered(h) && (r.AsWritten? ==> HarmlessPops(h, n))
    ensures Ordered(Pops(r, h, n))
    decreases n
  {
    if n > 0 {
      if r.AsWritten? { RemovedAsWritten(h, 0); } else { RemovedOrders(h, 0); }
      PopsOrdered(r, Removed(r, h, 0), n - 1);
    }
  }

  ghost predicate Popped(r: Reading, h: seq<Time>, t: seq<Time>) { h != [] && t == Removed(r, h, 0) }

  /** t is what some pops have left of h. */
  ghost predicate PoppedTo(r: Reading, h: seq<Time>, t: seq<Time>) { |t| <= |h| && t == Pops(r, h, |h| - |t|) }

  /** The pops that leave n deadlines are harmless. */
  ghost predicate HarmlessTo(h: seq<Time>, n: nat) { n <= |h| && HarmlessPops(h, |h| - n) }

  lemma PoppedOn(r: Reading, h: seq<Time>, t: seq<Time>, u: seq<Time>)
    requires PoppedTo(r, h, t) && Popped(r, t, u)
    ensures PoppedTo(r, h, u)
  {
    PopsNext(r, h, |h| - |t|);
  }

  lemma SweptOrdered(r: Reading, h: seq<Time>, t: seq<Time>, now: int)
    requires PoppedTo(r, h, t) && (t == [] || t[0].sec > now)
    ensures Ordered(h) && (r.Intended? || HarmlessTo(h, |t|)) ==> Ordered(t) && forall k | 0 <= k < |t| :: t[k].sec > now
  {
    if Ordered(h) && (r.Intended? || HarmlessTo(h, |t|)) {
      PopsOrdered(r, h, |h| - |t|);
      NobodyLate(t, now);
    }
  }

  lemma NobodyLate(h: seq<Time>, now: int)
    requires h == [] || h[0].sec > now
    ensures Ordered(h) ==> forall k | 0 <= k < |h| :: h[k].sec > now
  {
    if Ordered(h) {
      forall k | 0 <= k < |h|
        ensures h[k].sec > now
      {
        RootIsFirst(h, k);
      }
    }
  }

  /** What a sweep leaves when everybody is still waiting and the clock stands still. */
  function Left(r: Reading, h: seq<Time>, now: int): seq<Time>
    decreases |h|
  {
    if h == [] || h[0].sec > now then h else Left(r, Removed(r, h, 0), now)
  }

  lemma {:induction false} LeftIntended(h: seq<Time>, now: int)
    requires Ordered(h)
    ensures forall k | 0 <= k < |Left(Intended, h, now)| :: Left(Intended, h, now)[k].sec > now
    decreases |h|
  {
    if h == [] || h[0].sec > now {
      NobodyLate(h, now);
    } else {
      RemovedOrders(h, 0);
      LeftIntended(Removed(Intended, h, 0), now);
    }
  }

  // ---------- The heap over whole runs ----------

  /** CLTH_AUTH_MAXPERM_TIME. */
  const PERMITTED := 4

  /** A client joins, one in some slot leaves, or the sweep runs; everybody else is still waiting. */
  datatype Act = Join(at: Time) | Leave(slot: nat) | Sweeps(now: int)

  function Acted(r: Reading, h: seq<Time>, act: Act): seq<Time> {
    match act
    case Join(at) => SiftUp(r, h + [Time(at.sec + PERMITTED, at.nsec)], |h|)
    case Leave(slot) => if slot < |h| then Removed(r, h, slot) else h
    case Sweeps(now) => Left(r, h, now)
  }

  function Play(r: Reading, h: seq<Time>, acts: seq<Act>): seq<Time>
    decreases acts
  {
    if acts == [] then h else Play(r, Acted(r, h, acts[0]), acts[1..])
  }

  ghost predicate NobodyLeft(h: seq<Time>, now: int) { forall k | 0 <= k < |h| :: h[k].sec > now }

  /** After every sweep of a run nobody is late. */
  ghost predicate AllInTime(r: Reading, h: seq<Time>, acts: seq<Act>)
    decreases acts
  {
    acts == [] || (var t := Acted(r, h, acts[0]);
                   (acts[0].Sweeps? ==> NobodyLeft(t, acts[0].now)) && AllInTime(r, t, acts[1..]))
  }

  /** Every removal of a sweep, or of a run, is one of those that keep the order with MIN as written. */
  ghost predicate HarmlessSweep(h: seq<Time>, now: int)
    decreases |h|
  {
    h == [] || h[0].sec > now || (RemovesHarmlessly(h, 0) && HarmlessSweep(Removed(AsWritten, h, 0), now))
  }

  ghost predicate HarmlessRun(h: seq<Time>, acts: seq<Act>)
    decreases acts
  {
    acts == [] || ((match acts[0]
                    case Join(_) => true
                    case Leave(slot) => slot < |h| ==> RemovesHarmlessly(h, slot)
                    case Sweeps(now) => HarmlessSweep(h, now))
                   && HarmlessRun(Acted(AsWritten, h, acts[0]), acts[1..]))
  }

  /** A sweep with the macro as written leaves nobody late when every pop is harmless. */
  lemma {:induction false} LeftHarmless(h: seq<Time>, now: int)
    requires Ordered(h) && HarmlessSweep(h, now)
    ensures Ordered(Left(AsWritten, h, now)) && NobodyLeft(Left(AsWritten, h, now), now)
    decreases |h|
  {
    if h == [] || h[0].sec > now {
      NobodyLate(h, now);
    } else {
      RemovedAsWritten(h, 0);
      LeftHarmless(Removed(AsWritten, h, 0), now);
    }
  }

  lemma {:induction false} LeftOrdered(h: seq<Time>, now: int)
    requires Ordered(h)
    ensures Ordered(Left(Intended, h, now))
    decreases |h|
  {
    if h != [] && h[0].sec <= now {
      RemovedOrders(h, 0);
      LeftOrdered(Removed(Intended, h, 0), now);
    }
  }

  /** In every run, with MIN as intended, and with MIN as written if all removals are harmless, nobody is late
      after a sweep. */
  lemma {:induction false} RunInTime(r: Reading, h: seq<Time>, acts: seq<Act>)
    requires Ordered(h) && (r.AsWritten? ==> HarmlessRun(h, acts))
    ensures AllInTime(r, h, acts) && Ordered(Play(r, h, acts))
    decreases acts
  {
    if acts != [] {
      match acts[0] {
        case Join(at) => AddedOrders(r, h, Time(at.sec + PERMITTED, at.nsec));
        case Leave(slot) =>
          if slot < |h| {
            if r.AsWritten? { RemovedAsWritten(h, slot); } else { RemovedOrders(h, slot); }
          }
        case Sweeps(now) =>
          if r.AsWritten? {
            LeftHarmless(h, now);
          } else {
            LeftIntended(h, now);
            LeftOrdered(h, now);
          }
      }
      RunInTime(r, Acted(r, h, acts[0]), acts[1..]);
    }
  }

  // ---------- A run in which somebody is passed over ----------

  function Seconds(seconds: seq<int>): (h: seq<Time>)
    ensures |h| == |seconds|
    ensures forall k | 0 <= k < |h| :: h[k] == Time(seconds[k], 0)
  {
    seq(|seconds|, k requires 0 <= k < |seconds| => Time(seconds[k], 0))
  }

  /** A later deadline stays where it was added. */
  lemma JoinLast(h: seq<int>, now: int)
    requires NoneAfter(h, DeadlineOf(now))
    ensures Acted(AsWritten, Seconds(h), Join(Time(now, 0))) == Seconds(h + [now + PERMITTED])
  {
    assert Seconds(h) + [Time(now + PERMITTED, 0)] == Seconds(h + [now + PERMITTED]);
    if h != [] { assert Parent(|h|) < |h| && h[Parent(|h|)] <= DeadlineOf(now); }
  }

  /** The sift down from i, given the children on its way. */
  function Sunk(h: seq<int>, i: nat): (t: seq<int>)
    requires i < |h|
    ensures |t| == |h|
    decreases |h| - i
  {
    if 2 * i + 1 >= |h| then h
    else
      var c := if 2 * i + 2 < |h| && h[2 * i + 2] <= h[2 * i + 1] then 2 * i + 2 else 2 * i + 1;
      if h[i] < h[c] && i == 0 then h else Sunk(Swapped(h, i, c), c)
  }

  lemma {:induction false} SunkIsSiftDown(h: seq<int>, i: nat)
    requires i < |h|
    ensures SiftDown(AsWritten, Seconds(h), i) == Seconds(Sunk(h, i))
    decreases |h| - i
  {
    if 2 * i + 1 < |h| {
      var c := Child(Seconds(h), i);
      assert Swapped(Seconds(h), i, c) == Seconds(Swapped(h, i, c));
      SunkIsSiftDown(Swapped(h, i, c), c);
    }
  }

  lemma PopSeconds(h: seq<int>, t: seq<int>)
    requires |h| > 1 && t == h[0 := h[|h| - 1]][..|h| - 1]
    ensures Removed(AsWritten, Seconds(h), 0) == Seconds(Sunk(t, 0))
  {
    assert Replaced(Seconds(h), 0) == Seconds(t);
    SunkIsSiftDown(t, 0);
  }

  function DeadlineOf(second: int): int { second + PERMITTED }

  function JoinAt(second: int): Act { Join(Time(second, 0)) }

  lemma PlayOne(h: seq<Time>, act: Act, acts: seq<Act>)
    ensures Play(AsWritten, h, [act] + acts) == Play(AsWritten, Acted(AsWritten, h, act), acts)
    ensures !AllInTime(AsWritten, Acted(AsWritten, h, act), acts) ==> !AllInTime(AsWritten, h, [act] + acts)
  {
    assert ([act] + acts)[1..] == acts;
  }

  lemma {:induction false} PlayAppend(h: seq<Time>, a: seq<Act>, b: seq<Act>)
    ensures Play(AsWritten, h, a + b) == Play(AsWritten, Play(AsWritten, h, a), b)
    decreases a
  {
    if a == [] {
      assert a + b == b;
    } else {
      assert (a + b)[1..] == a[1..] + b;
      PlayAppend(Acted(AsWritten, h, a[0]), a[1..], b);
    }
  }

  ghost predicate NoneAfter(h: seq<int>, deadline: int) { forall i :: 0 <= i < |h| ==> h[i] <= deadline }

  /** Nobody in the heap has a deadline after those to come, which come in order. */
  ghost predicate InOrder(h: seq<int>, ats: seq<int>)
    decreases ats
  {
    ats == [] || (NoneAfter(h, DeadlineOf(ats[0])) && InOrder(h + [DeadlineOf(ats[0])], ats[1..]))
  }

  /** Clients that join in order stand in order. */
  lemma {:induction false} PlayJoins(h: seq<int>, ats: seq<int>)
    requires InOrder(h, ats)
    ensures Play(AsWritten, Seconds(h), Map(JoinAt, ats)) == Seconds(h + Map(DeadlineOf, ats))
    decreases ats
  {
    if ats == [] {
      assert h + [] == h;
    } else {
      JoinLast(h, ats[0]);
      HeadTail(ats);
      MapHead(JoinAt, ats[0], ats[1..]);
      MapHead(DeadlineOf, ats[0], ats[1..]);
      PlayOne(Seconds(h), JoinAt(ats[0]), Map(JoinAt, ats[1..]));
      PlayJoins(h + [DeadlineOf(ats[0])], ats[1..]);
      Assoc(h, [DeadlineOf(ats[0])], Map(DeadlineOf, ats[1..]));
    }
  }

  lemma FirstSweep()
    ensures Left(AsWritten, Seconds([4, 4, 4, 5, 6, 7, 7]), 4) == Seconds([5, 7, 7, 6])
  {
    PopSeconds([4, 4, 4, 5, 6, 7, 7], [7, 4, 4, 5, 6, 7]);
    assert Swapped([7, 4, 4, 5, 6, 7], 0, 2) == [4, 4, 7, 5, 6, 7] == Swapped([4, 4, 7, 5, 6, 7], 2, 5);
    assert Sunk([7, 4, 4, 5, 6, 7], 0) == Sunk([4, 4, 7, 5, 6, 7], 2) == Sunk([4, 4, 7, 5, 6, 7], 5);
    SecondPop();
  }

  lemma SecondPop()
    ensures Left(AsWritten, Seconds([4, 4, 7, 5, 6, 7]), 4) == Seconds([5, 7, 7, 6])
  {
    PopSeconds([4, 4, 7, 5, 6, 7], [7, 4, 7, 5, 6]);
    assert Swapped([7, 4, 7, 5, 6], 0, 1) == [4, 7, 7, 5, 6] && Swapped([4, 7, 7, 5, 6], 1, 3) == [4, 5, 7, 7, 6];
    assert Sunk([7, 4, 7, 5, 6], 0) == Sunk([4, 7, 7, 5, 6], 1) == Sunk([4, 5, 7, 7, 6], 3);
    ThirdPop();
  }

  /** Here second 6 goes below second 7. */
  lemma ThirdPop()
    ensures Left(AsWritten, Seconds([4, 5, 7, 7, 6]), 4) == Seconds([5, 7, 7, 6])
  {
    PopSeconds([4, 5, 7, 7, 6], [6, 5, 7, 7]);
    assert Swapped([6, 5, 7, 7], 0, 1) == [5, 6, 7, 7] && Swapped([5, 6, 7, 7], 1, 3) == [5, 7, 7, 6];
    assert Sunk([6, 5, 7, 7], 0) == Sunk([5, 6, 7, 7], 1) == Sunk([5, 7, 7, 6], 3);
  }

  lemma LastSweeps()
    ensures Left(AsWritten, Seconds([5, 7, 7, 6, 8]), 5) == Seconds([7, 7, 8, 6])
    ensures Left(AsWritten, Seconds([7, 7, 8, 6]), 6) == Seconds([7, 7, 8, 6])
  {
    PopSeconds([5, 7, 7, 6, 8], [8, 7, 7, 6]);
    assert Swapped([8, 7, 7, 6], 0, 2) == [7, 7, 8, 6];
    assert Sunk([8, 7, 7, 6], 0) == Sunk([7, 7, 8, 6], 2);
  }

  /** Seven clients join, an eighth after the first sweep, and there is one sweep a second. */
  function UnluckyRun(): seq<Act> {
    Map(JoinAt, [0, 0, 0, 1, 2, 3, 3]) + ([Sweeps(4)] + ([JoinAt(4)] + ([Sweeps(5)] + [Sweeps(6)])))
  }

  lemma JoinsInOrder()
    ensures InOrder([], [0, 0, 0, 1, 2, 3, 3])
  {
    assert InOrder([4, 4, 4, 5, 6, 7, 7], []);
    assert InOrder([4, 4, 4, 5, 6, 7], [3]) by { assert [4, 4, 4, 5, 6, 7] + [7] == [4, 4, 4, 5, 6, 7, 7] && [3][1..] == []; }
    assert InOrder([4, 4, 4, 5, 6], [3, 3]) by { assert [4, 4, 4, 5, 6] + [7] == [4, 4, 4, 5, 6, 7] && [3, 3][1..] == [3]; }
    assert InOrder([4, 4, 4, 5], [2, 3, 3]) by { assert [4, 4, 4, 5] + [6] == [4, 4, 4, 5, 6] && [2, 3, 3][1..] == [3, 3]; }
    assert InOrder([4, 4, 4], [1, 2, 3, 3]) by { assert [4, 4, 4] + [5] == [4, 4, 4, 5] && [1, 2, 3, 3][1..] == [2, 3, 3]; }
    assert InOrder([4, 4], [0, 1, 2, 3, 3]) by { assert [4, 4] + [4] == [4, 4, 4] && [0, 1, 2, 3, 3][1..] == [1, 2, 3, 3]; }
    assert InOrder([4], [0, 0, 1, 2, 3, 3]) by { assert [4] + [4] == [4, 4] && [0, 0, 1, 2, 3, 3][1..] == [0, 1, 2, 3, 3]; }
    assert [] + [4] == [4] && [0, 0, 0, 1, 2, 3, 3][1..] == [0, 0, 1, 2, 3, 3];
  }

  lemma SomebodyLeft()
    ensures Play(AsWritten, Seconds([7, 7, 8, 6]), [Sweeps(6)]) == Seconds([7, 7, 8, 6])
    ensures !AllInTime(AsWritten, Seconds([7, 7, 8, 6]), [Sweeps(6)])
  {
    LastSweeps();
    assert [Sweeps(6)][1..] == [];
    assert Seconds([7, 7, 8, 6])[3].sec == 6;
  }

  lemma AfterFirstSweep()
    ensures var tail := [JoinAt(4)] + ([Sweeps(5)] + [Sweeps(6)]);
      Play(AsWritten, Seconds([5, 7, 7, 6]), tail) == Seconds([7, 7, 8, 6])
      && !AllInTime(AsWritten, Seconds([5, 7, 7, 6]), tail)
  {
    JoinLast([5, 7, 7, 6], 4);
    assert [5, 7, 7, 6] + [8] == [5, 7, 7, 6, 8];
    LastSweeps();
    SomebodyLeft();
    PlayOne(Seconds([5, 7, 7, 6, 8]), Sweeps(5), [Sweeps(6)]);
    PlayOne(Seconds([5, 7, 7, 6]), JoinAt(4), [Sweeps(5)] + [Sweeps(6)]);
  }

  lemma TailOfRun()
    ensures var tail := [Sweeps(4)] + ([JoinAt(4)] + ([Sweeps(5)] + [Sweeps(6)]));
      Play(AsWritten, Seconds([4, 4, 4, 5, 6, 7, 7]), tail) == Seconds([7, 7, 8, 6])
      && !AllInTime(AsWritten, Seconds([4, 4, 4, 5, 6, 7, 7]), tail)
  {
    FirstSweep();
    AfterFirstSweep();
    PlayOne(Seconds([4, 4, 4, 5, 6, 7, 7]), Sweeps(4), [JoinAt(4)] + ([Sweeps(5)] + [Sweeps(6)]));
  }

  /** With the macro as written, joins and timeouts alone pass somebody over: of eight clients that join within
      four seconds, the one whose time is up at second 6 is left below a later root by the sweep at second 6. */
  lemma LeftAsWritten()
    ensures Play(AsWritten, [], UnluckyRun()) == Seconds([7, 7, 8, 6])
    ensures !AllInTime(AsWritten, [], UnluckyRun())
  {
    var joins, tail := Map(JoinAt, [0, 0, 0, 1, 2, 3, 3]), [Sweeps(4)] + ([JoinAt(4)] + ([Sweeps(5)] + [Sweeps(6)]));
    assert Seconds([]) == [];
    JoinsInOrder();
    PlayJoins([], [0, 0, 0, 1, 2, 3, 3]);
    assert [] + Map(DeadlineOf, [0, 0, 0, 1, 2, 3, 3]) == [4, 4, 4, 5, 6, 7, 7];
    PlayAppend([], joins, tail);
    TailOfRun();
    NotInTime(AsWritten, [], joins, tail);
  }

  lemma {:induction false} NotInTime(r: Reading, h: seq<Time>, a: seq<Act>, b: seq<Act>)
    requires !AllInTime(r, Play(r, h, a), b)
    ensures !AllInTime(r, h, a + b)
    decreases a
  {
    if a == [] {
      assert a + b == b;
    } else {
      assert (a + b)[1..] == a[1..] + b;
      NotInTime(r, Acted(r, h, a[0]), a[1..], b);
    }
  }
}
