/** When a sweep of the deadline heap leaves nobody late: the exact condition, under either reading of MIN and
    for any heap, ordered or not (server/cltimerheap.c, handle_clth_timeout in server/worker.c). */
module TimerDrain {
  import opened TimerOrder
  import opened TimerRuns

  /** The deadlines in the order in which popping gives them out, until the heap is empty. */
  function Drained(r: Reading, h: seq<Time>): (d: seq<Time>)
    ensures |d| == |h|
    decreases |h|
  {
    if h == [] then [] else [h[0]] + Drained(r, Removed(r, h, 0))
  }

  lemma {:induction false} SiftDownPermutes(r: Reading, h: seq<Time>, i: nat)
    requires i < |h|
    ensures multiset(SiftDown(r, h, i)) == multiset(h)
    decreases |h| - i
  {
    if 2 * i + 1 < |h| && MinIs(r, h, i, Child(h, i), Child(h, i)) {
      SwappedPermutes(h, i, Child(h, i));
      SiftDownPermutes(r, Swapped(h, i, Child(h, i)), Child(h, i));
    }
  }

  lemma {:induction false} SiftUpPermutes(r: Reading, h: seq<Time>, i: nat)
    requires i < |h|
    ensures multiset(SiftUp(r, h, i)) == multiset(h)
    decreases i
  {
    if i > 0 && MinIs(r, h, i, Parent(i), i) {
      SwappedPermutes(h, i, Parent(i));
      SiftUpPermutes(r, Swapped(h, i, Parent(i)), Parent(i));
    }
  }

  lemma RemovedPermutes(r: Reading, h: seq<Time>, i: nat)
    requires i < |h|
    ensures multiset(Removed(r, h, i)) == multiset(h) - multiset{h[i]}
  {
    DetachPermutes(h, i);
    if i < |h| - 1 {
      assert Replaced(h, i) == Swapped(h, i, |h| - 1)[..|h| - 1];
      SiftUpPermutes(r, Replaced(h, i), i);
      SiftDownPermutes(r, Replaced(h, i), i);
    }
  }

  lemma {:induction false} LeftIsPart(r: Reading, h: seq<Time>, now: int)
    ensures multiset(Left(r, h, now)) <= multiset(h)
    ensures Left(r, h, now) == [] || Left(r, h, now)[0].sec > now
    decreases |h|
  {
    if h != [] && h[0].sec <= now {
      RemovedPermutes(r, h, 0);
      LeftIsPart(r, Removed(r, h, 0), now);
    }
  }

  /** Joining adds exactly one deadline, four seconds from now, under either reading. */
  lemma JoinAdds(r: Reading, h: seq<Time>, at: Time)
    ensures multiset(Acted(r, h, Join(at))) == multiset(h) + multiset{Time(at.sec + 4, at.nsec)}
  {
    var t := Time(at.sec + PERMITTED, at.nsec);
    SiftUpPermutes(r, h + [t], |h|);
    assert multiset(h + [t]) == multiset(h) + multiset{t};
  }

  /** Leaving takes out exactly the one in that slot. */
  lemma LeaveTakes(r: Reading, h: seq<Time>, slot: nat)
    ensures slot < |h| ==> multiset(Acted(r, h, Leave(slot))) == multiset(h) - multiset{h[slot]}
    ensures slot >= |h| ==> Acted(r, h, Leave(slot)) == h
  {
    if slot < |h| { RemovedPermutes(r, h, slot); }
  }

  /** Every deadline is given out exactly once. */
  lemma {:induction false} DrainedPermutes(r: Reading, h: seq<Time>)
    ensures multiset(Drained(r, h)) == multiset(h)
    decreases |h|
  {
    if h != [] {
      RemovedPermutes(r, h, 0);
      DrainedPermutes(r, Removed(r, h, 0));
      assert h[0] in multiset(h);
    }
  }

  /** Nothing that is due is given out after something that is not. */
  ghost predicate NoneBehind(d: seq<Time>, now: int) {
    forall i, j | 0 <= i < j < |d| && d[i].sec > now :: d[j].sec > now
  }

  lemma NobodyLeftOf(h: seq<Time>, d: seq<Time>, now: int)
    requires multiset(h) == multiset(d)
    ensures NobodyLeft(h, now) <==> NobodyLeft(d, now)
  {
    forall t ensures t in h <==> t in d {
      assert t in h <==> t in multiset(h);
    }
    assert NobodyLeft(h, now) <==> forall t | t in h :: t.sec > now;
    assert NobodyLeft(d, now) <==> forall t | t in d :: t.sec > now;
  }

  lemma BehindFirst(t: Time, d: seq<Time>, now: int)
    ensures NoneBehind([t] + d, now) <==> NoneBehind(d, now) && (t.sec > now ==> NobodyLeft(d, now))
  {
    var all := [t] + d;
    if NoneBehind(all, now) {
      forall i, j | 0 <= i < j < |d| && d[i].sec > now
        ensures d[j].sec > now
      {
        assert all[i + 1] == d[i] && all[j + 1] == d[j];
      }
      forall j | 0 <= j < |d| && t.sec > now
        ensures d[j].sec > now
      {
        assert all[0] == t && all[j + 1] == d[j];
      }
    }
  }

  /** The exact condition: a sweep leaves nobody late if and only if popping on and on would give out nothing due
      after something that is not. */
  lemma {:induction false} LeftExactly(r: Reading, h: seq<Time>, now: int)
    ensures NobodyLeft(Left(r, h, now), now) <==> NoneBehind(Drained(r, h), now)
    decreases |h|
  {
    if h != [] {
      var t := Removed(r, h, 0);
      BehindFirst(h[0], Drained(r, t), now);
      if h[0].sec <= now {
        LeftExactly(r, t, now);
      } else {
        DrainedPermutes(r, h);
        NobodyLeftOf(h, Drained(r, h), now);
        AllLater(h[0], Drained(r, t), now);
      }
    }
  }

  lemma AllLater(t: Time, d: seq<Time>, now: int)
    requires t.sec > now
    ensures NobodyLeft([t] + d, now) <==> NoneBehind(d, now) && NobodyLeft(d, now)
  {
    var all := [t] + d;
    assert forall k | 0 <= k < |d| :: all[k + 1] == d[k];
  }

  /** A sweep at this time leaves nobody late. */
  ghost predicate InTime(r: Reading, h: seq<Time>, now: int) { NobodyLeft(Left(r, h, now), now) }

  ghost predicate InOrderOfSeconds(d: seq<Time>) { forall i, j | 0 <= i < j < |d| :: d[i].sec <= d[j].sec }

  lemma OrderedIsNoneBehind(d: seq<Time>)
    ensures InOrderOfSeconds(d) <==> forall now :: NoneBehind(d, now)
  {
    if forall now :: NoneBehind(d, now) {
      forall i, j | 0 <= i < j < |d|
        ensures d[i].sec <= d[j].sec
      {
        assert NoneBehind(d, d[j].sec);
      }
    }
  }

  /** Whenever the clock is read: every sweep is in time if and only if the heap gives out its deadlines in the
      order of their seconds. */
  lemma AlwaysInTime(r: Reading, h: seq<Time>)
    ensures (forall now :: InTime(r, h, now)) <==> InOrderOfSeconds(Drained(r, h))
  {
    var d := Drained(r, h);
    forall now ensures InTime(r, h, now) <==> NoneBehind(d, now) {
      LeftExactly(r, h, now);
    }
    OrderedIsNoneBehind(d);
  }
}
