/** The order kept by the deadline heap of server/cltimerheap.c: its MIN macro, sifting up and sifting
    down, on sequences of deadlines.

    MIN is a conditional expression without outer parentheses, so MIN(..) == x does not compare the
    minimum with x: it parses as first-test ? a : (rest == x). Both readings are modelled. */
module TimerOrder {

  datatype Time = Time(sec: int, nsec: int)

  datatype Reading = Intended | AsWritten

  predicate Less(a: Time, b: Time) {
    a.sec < b.sec || (a.sec == b.sec && a.nsec < b.nsec)
  }

  /** Earlier is what it is on the clock, whole seconds and nanoseconds of one. */
  lemma LessIsEarlier(a: Time, b: Time)
    requires 0 <= a.nsec < 1_000_000_000 && 0 <= b.nsec < 1_000_000_000
    ensures Less(a, b) <==> 1_000_000_000 * a.sec + a.nsec < 1_000_000_000 * b.sec + b.nsec
  {
  }

  /** MIN(h, a, b) as a value. */
  function Min(h: seq<Time>, a: nat, b: nat): nat
    requires a < |h| && b < |h|
  {
    if h[a].sec < h[b].sec then a
    else if h[a].sec != h[b].sec then b
    else if h[a].nsec < h[b].nsec then a else b
  }

  /** MIN(h, a, b) == x as a condition: meant as a comparison with the minimum, but written so that the
      value a itself is the condition when a is in an earlier second. */
  predicate MinIs(r: Reading, h: seq<Time>, a: nat, b: nat, x: nat)
    requires a < |h| && b < |h|
  {
    if r.AsWritten? && h[a].sec < h[b].sec then a != 0 else Min(h, a, b) == x
  }

  function Parent(i: nat): nat
    requires i > 0
  {
    (i - 1) / 2
  }

  function Swapped<T>(s: seq<T>, i: nat, j: nat): (t: seq<T>)
    requires i < |s| && j < |s|
    ensures |t| == |s|
  {
    s[i := s[j]][j := s[i]]
  }

  lemma SwappedPermutes<T>(s: seq<T>, i: nat, j: nat)
    requires i < |s| && j < |s|
    ensures multiset(Swapped(s, i, j)) == multiset(s)
  {
  }

  /** What is exchanged with the last element and then cut off is the only thing that goes. */
  lemma DetachPermutes<T>(s: seq<T>, i: nat)
    requires i < |s|
    ensures multiset(Swapped(s, i, |s| - 1)[..|s| - 1]) == multiset(s) - multiset{s[i]}
    ensures i == |s| - 1 ==> multiset(s[..i]) == multiset(s) - multiset{s[i]}
    ensures Swapped(s, i, |s| - 1)[|s| - 1] == s[i]
  {
    SwappedPermutes(s, i, |s| - 1);
    WithoutLast(Swapped(s, i, |s| - 1));
    WithoutLast(s);
  }

  lemma WithoutLast<T>(s: seq<T>)
    requires s != []
    ensures multiset(s[..|s| - 1]) == multiset(s) - multiset{s[|s| - 1]}
  {
    assert s == s[..|s| - 1] + [s[|s| - 1]];
  }

  /** No deadline is before that of its parent. */
  ghost predicate Ordered(h: seq<Time>) {
    forall k | 0 < k < |h| :: !Less(h[k], h[Parent(k)])
  }

  // ---------- Sifting up ----------

  function SiftUp(r: Reading, h: seq<Time>, i: nat): (t: seq<Time>)
    requires i < |h|
    ensures |t| == |h|
    decreases i
  {
    if i > 0 && MinIs(r, h, i, Parent(i), i) then SiftUp(r, Swapped(h, i, Parent(i)), Parent(i)) else h
  }

  /** Only the deadline at i may be before its parent's. */
  ghost predicate LooseUp(h: seq<Time>, i: nat)
    requires i < |h|
  {
    && (forall k | 0 < k < |h| && k != i :: !Less(h[k], h[Parent(k)]))
    && (forall k | 0 < k < |h| && Parent(k) == i && i > 0 :: !Less(h[k], h[Parent(i)]))
  }

  /** Sifting up restores the order, however the macro is read: index 0 never is its first argument. */
  lemma {:induction false} SiftUpOrders(r: Reading, h: seq<Time>, i: nat)
    requires i < |h| && LooseUp(h, i)
    ensures Ordered(SiftUp(r, h, i))
    decreases i
  {
    if i > 0 && MinIs(r, h, i, Parent(i), i) {
      var p, t := Parent(i), Swapped(h, i, Parent(i));
      assert Less(h[i], h[p]);
      forall k | 0 < k < |t| && k != p
        ensures !Less(t[k], t[Parent(k)])
      {
        assert !Less(h[k], h[Parent(k)]) || k == i;
      }
      SiftUpOrders(r, t, p);
    }
  }

  // ---------- Sifting down ----------

  /** The child that is compared with its parent at i. */
  function Child(h: seq<Time>, i: nat): (c: nat)
    requires 2 * i + 1 < |h|
    ensures i < c < |h| && Parent(c) == i
    ensures forall k | 0 < k < |h| && Parent(k) == i :: !Less(h[k], h[c])
  {
    if 2 * i + 2 < |h| then Min(h, 2 * i + 1, 2 * i + 2) else 2 * i + 1
  }

  function SiftDown(r: Reading, h: seq<Time>, i: nat): (t: seq<Time>)
    requires i < |h|
    ensures |t| == |h|
    decreases |h| - i
  {
    if 2 * i + 1 >= |h| then h
    else
      var c := Child(h, i);
      if MinIs(r, h, i, c, c) then SiftDown(r, Swapped(h, i, c), c) else h
  }

  /** Only the deadline at i may be after its children's. */
  ghost predicate LooseDown(h: seq<Time>, i: nat)
    requires i < |h|
  {
    && (forall k | 0 < k < |h| && Parent(k) != i :: !Less(h[k], h[Parent(k)]))
    && (forall k | 0 < k < |h| && Parent(k) == i && i > 0 :: !Less(h[k], h[Parent(i)]))
  }

  lemma StepDown(h: seq<Time>, i: nat)
    requires i < |h| && LooseDown(h, i) && 2 * i + 1 < |h| && !Less(h[i], h[Child(h, i)])
    ensures LooseDown(Swapped(h, i, Child(h, i)), Child(h, i))
  {
    var c := Child(h, i);
    var t := Swapped(h, i, c);
    forall k | 0 < k < |t| && Parent(k) != c
      ensures !Less(t[k], t[Parent(k)])
    {
      assert Parent(k) != i ==> !Less(h[k], h[Parent(k)]);
    }
  }

  lemma {:induction false} SiftDownOrders(h: seq<Time>, i: nat)
    requires i < |h| && LooseDown(h, i)
    ensures Ordered(SiftDown(Intended, h, i))
    decreases |h| - i
  {
    if 2 * i + 1 < |h| && !Less(h[i], h[Child(h, i)]) {
      StepDown(h, i);
      SiftDownOrders(Swapped(h, i, Child(h, i)), Child(h, i));
    }
  }

  /** The intended sift from i stops at a leaf, at the root, or beside a child in the same second. */
  ghost predicate StopsHarmlessly(h: seq<Time>, i: nat)
    requires i < |h|
    decreases |h| - i
  {
    if 2 * i + 1 >= |h| then true
    else
      var c := Child(h, i);
      if Less(h[i], h[c]) then i == 0 || h[i].sec == h[c].sec
      else StopsHarmlessly(Swapped(h, i, c), c)
  }

  /** A deadline has been moved below a later second, with only later seconds underneath. */
  ghost predicate Sinking(h: seq<Time>, i: nat)
    requires i < |h|
  {
    && i > 0 && h[i].sec < h[Parent(i)].sec
    && (forall k | 0 < k < |h| && k != i && Parent(k) != i :: !Less(h[k], h[Parent(k)]))
    && (forall k | 0 < k < |h| && Parent(k) == i :: h[i].sec < h[k].sec && !Less(h[k], h[Parent(i)]))
  }

  /** Moving a deadline below a child in a later second makes or keeps it sinking. */
  lemma StartsSinking(h: seq<Time>, i: nat)
    requires i < |h| && 2 * i + 1 < |h| && h[i].sec < h[Child(h, i)].sec
    requires LooseDown(h, i) || Sinking(h, i)
    ensures Sinking(Swapped(h, i, Child(h, i)), Child(h, i))
  {
    var c := Child(h, i);
    var t := Swapped(h, i, c);
    forall k | 0 < k < |t| && k != c && Parent(k) != c
      ensures !Less(t[k], t[Parent(k)])
    {
    }
    forall k | 0 < k < |t| && Parent(k) == c
      ensures t[c].sec < t[k].sec && !Less(t[k], t[i])
    {
      assert !Less(h[k], h[c]);
    }
  }

  /** As written, the sift then carries it on to a leaf, below a later second still. */
  lemma {:induction false} SinksToLeaf(h: seq<Time>, i: nat)
    requires i < |h| && Sinking(h, i)
    ensures !Ordered(SiftDown(AsWritten, h, i))
    decreases |h| - i
  {
    if 2 * i + 1 < |h| {
      assert h[i].sec < h[Child(h, i)].sec;
      StartsSinking(h, i);
      SinksToLeaf(Swapped(h, i, Child(h, i)), Child(h, i));
    } else {
      assert Less(h[i], h[Parent(i)]);
    }
  }

  /** As written, sifting down restores the order exactly when the intended sift stops harmlessly. */
  lemma {:induction false} SiftDownAsWritten(h: seq<Time>, i: nat)
    requires i < |h| && LooseDown(h, i)
    ensures Ordered(SiftDown(AsWritten, h, i)) <==> StopsHarmlessly(h, i)
    decreases |h| - i
  {
    if 2 * i + 1 < |h| {
      var c := Child(h, i);
      if !Less(h[i], h[c]) {
        StepDown(h, i);
        SiftDownAsWritten(Swapped(h, i, c), c);
      } else if i != 0 && h[i].sec < h[c].sec {
        StartsSinking(h, i);
        SinksToLeaf(Swapped(h, i, c), c);
      }
    }
  }

  // ---------- The first deadline ----------

  lemma {:induction false} RootIsFirst(h: seq<Time>, k: nat)
    requires Ordered(h) && k < |h|
    ensures !Less(h[k], h[0])
    decreases k
  {
    if k > 0 { RootIsFirst(h, Parent(k)); }
  }

  // ---------- Adding and removing ----------

  lemma AddedOrders(r: Reading, h: seq<Time>, t: Time)
    requires Ordered(h)
    ensures Ordered(SiftUp(r, h + [t], |h|))
  {
    SiftUpOrders(r, h + [t], |h|);
  }

  /** The last deadline replaces the one at i. */
  function Replaced(h: seq<Time>, i: nat): (t: seq<Time>)
    requires i < |h| - 1
    ensures |t| == |h| - 1
  {
    h[i := h[|h| - 1]][..|h| - 1]
  }

  lemma ReplacedLoose(h: seq<Time>, i: nat)
    requires Ordered(h) && i < |h| - 1
    ensures i > 0 && Less(Replaced(h, i)[i], h[Parent(i)]) ==> LooseUp(Replaced(h, i), i)
    ensures i == 0 || !Less(Replaced(h, i)[i], h[Parent(i)]) ==> LooseDown(Replaced(h, i), i)
  {
  }

  /** The deadlines after the one at i has been removed. */
  function Removed(r: Reading, h: seq<Time>, i: nat): (t: seq<Time>)
    requires i < |h|
    ensures |t| == |h| - 1
  {
    if i == |h| - 1 then h[..i]
    else
      var t := Replaced(h, i);
      if i > 0 && MinIs(r, t, i, Parent(i), i) then SiftUp(r, t, i) else SiftDown(r, t, i)
  }

  lemma RemovedOrders(h: seq<Time>, i: nat)
    requires Ordered(h) && i < |h|
    ensures Ordered(Removed(Intended, h, i))
  {
    if i < |h| - 1 {
      ReplacedLoose(h, i);
      var t := Replaced(h, i);
      if i > 0 && Less(t[i], t[Parent(i)]) { SiftUpOrders(Intended, t, i); } else { SiftDownOrders(t, i); }
    }
  }

  /** What a caller can tell before a removal: the last deadline goes, or the one that takes the place
      rises, or the intended sift stops harmlessly. */
  ghost predicate RemovesHarmlessly(h: seq<Time>, i: nat)
    requires i < |h|
  {
    || i == |h| - 1
    || (i > 0 && Less(Replaced(h, i)[i], h[Parent(i)]))
    || StopsHarmlessly(Replaced(h, i), i)
  }

  lemma RemovedAsWritten(h: seq<Time>, i: nat)
    requires Ordered(h) && i < |h|
    ensures Ordered(Removed(AsWritten, h, i)) <==> RemovesHarmlessly(h, i)
  {
    if i < |h| - 1 {
      ReplacedLoose(h, i);
      var t := Replaced(h, i);
      if i > 0 && Less(t[i], t[Parent(i)]) { SiftUpOrders(AsWritten, t, i); } else { SiftDownAsWritten(t, i); }
    }
  }
}
