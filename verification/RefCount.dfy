/** The reference counts of table nodes (node_get, node_put, htable_add, htable_get and htable_remove in
    server/htable.c) as a system of atomic steps taken by any number of threads. */
module RefCount {

  type Id = nat
  type Key = seq<bv8>

  datatype State = State(
    linked: set<Id>,          // the nodes the table holds
    counts: map<Id, int>,     // ref_cnt of every node ever made
    handles: multiset<Id>,    // references held by threads, creators included
    unlinking: multiset<Id>,  // nodes out of the table whose table reference is about to be put
    freed: multiset<Id>)      // calls of free_fn

  datatype Step =
    | Make(id: Id)     // a new node, ref_cnt 1
    | Add(id: Id)      // htable_add by a thread that holds the node
    | Get(id: Id)      // htable_get that finds the node, under the stripe's lock
    | Look(id: Id)     // htable_get that finds the node without counting the result
    | Put(id: Id)      // node_put by a holder
    | Unlink(id: Id)   // htable_remove that finds the node, up to the unlinking
    | Release(id: Id)  // htable_remove, its node_put

  const START := State({}, map[], multiset{}, multiset{}, multiset{})

  ghost predicate Enabled(s: State, step: Step) {
    match step
    case Make(id) => id !in s.counts
    case Add(id) => id in s.handles
    case Get(id) => id in s.linked
    case Look(id) => id in s.linked
    case Put(id) => id in s.handles
    case Unlink(id) => id in s.linked
    case Release(id) => id in s.unlinking
  }

  ghost function Count(s: State, id: Id): int {
    if id in s.counts then s.counts[id] else 0
  }

  /** node_put: one reference less; free_fn on the last. */
  ghost function Dropped(s: State, id: Id): State {
    var n := Count(s, id) - 1;
    s.(counts := s.counts[id := n], freed := if n == 0 then s.freed + multiset{id} else s.freed)
  }

  ghost function Next(key: Id -> Key, s: State, step: Step): State {
    match step
    case Make(id) => s.(counts := s.counts[id := 1], handles := s.handles + multiset{id})
    case Add(id) =>
      if exists other :: other in s.linked && key(other) == key(id) then s
      else s.(linked := s.linked + {id}, handles := s.handles - multiset{id})
    case Get(id) => s.(counts := s.counts[id := Count(s, id) + 1], handles := s.handles + multiset{id})
    case Look(_) => s
    case Put(id) => Dropped(s, id).(handles := s.handles - multiset{id})
    case Unlink(id) => s.(linked := s.linked - {id}, unlinking := s.unlinking + multiset{id})
    case Release(id) => Dropped(s, id).(unlinking := s.unlinking - multiset{id})
  }

  /** Every reference there is to a node: the table's, those of threads, those being given up. */
  ghost function References(s: State, id: Id): nat {
    (if id in s.linked then 1 else 0) + s.handles[id] + s.unlinking[id]
  }

  /** A node is counted once for the table and once for every outstanding reference, and it has been freed
      exactly once if nothing refers to it any more, and not at all before. */
  ghost predicate Counted(s: State, id: Id) {
    if id in s.counts
    then s.counts[id] == References(s, id) && s.freed[id] == if s.counts[id] == 0 then 1 else 0
    else References(s, id) == 0 && s.freed[id] == 0
  }

  ghost predicate Inv(key: Id -> Key, s: State) {
    && (forall id :: Counted(s, id))
    && (forall n, m | n in s.linked && m in s.linked && key(n) == key(m) :: n == m)
  }

  /** No step touches the memory of a node that has been freed. */
  lemma NoUseAfterFree(key: Id -> Key, s: State, step: Step)
    requires Inv(key, s) && Enabled(s, step) && !step.Make?
    ensures step.id in s.counts && s.counts[step.id] > 0 && s.freed[step.id] == 0
  {
    assert Counted(s, step.id);
  }

  lemma StepKeepsInv(key: Id -> Key, s: State, step: Step)
    requires Inv(key, s) && Enabled(s, step)
    ensures Inv(key, Next(key, s, step))
  {
    var t := Next(key, s, step);
    forall id
      ensures Counted(t, id)
    {
      assert Counted(s, id);
      assert Counted(s, step.id);
    }
  }

  // ---------- Whole runs ----------

  /** The states of a run, one atomic step after the other, in any interleaving. */
  ghost predicate Run(key: Id -> Key, states: seq<State>, steps: seq<Step>) {
    && |states| == |steps| + 1 && states[0] == START
    && forall i {:trigger steps[i]} | 0 <= i < |steps| ::
         Enabled(states[i], steps[i]) && states[i + 1] == Next(key, states[i], steps[i])
  }

  lemma {:induction false} RunKeepsInv(key: Id -> Key, states: seq<State>, steps: seq<Step>, i: nat)
    requires Run(key, states, steps) && i < |states|
    ensures Inv(key, states[i])
    decreases i
  {
    if i > 0 {
      RunKeepsInv(key, states, steps, i - 1);
      StepKeepsInv(key, states[i - 1], steps[i - 1]);
    }
  }

  /** In every run, a node that has been made is freed at most once, and it has been freed exactly when the
      table has let it go and no reference is outstanding; until then every step finds it alive. */
  lemma FreedOnce(key: Id -> Key, states: seq<State>, steps: seq<Step>, i: nat, id: Id)
    requires Run(key, states, steps) && i < |states| && id in states[i].counts
    ensures states[i].freed[id] <= 1
    ensures states[i].freed[id] == 1 <==> id !in states[i].linked && id !in states[i].handles && id !in states[i].unlinking
    ensures i < |steps| && !steps[i].Make? ==> states[i].freed[steps[i].id] == 0
  {
    RunKeepsInv(key, states, steps, i);
    assert Counted(states[i], id);
    if i < |steps| && !steps[i].Make? { NoUseAfterFree(key, states[i], steps[i]); }
  }

  /** Once freed, never referred to again. */
  lemma {:induction false} StaysFreed(key: Id -> Key, states: seq<State>, steps: seq<Step>, i: nat, j: nat, id: Id)
    requires Run(key, states, steps) && i <= j < |states| && id in states[i].counts && states[i].freed[id] == 1
    ensures id in states[j].counts && states[j].freed[id] == 1
    decreases j
  {
    if i < j {
      StaysFreed(key, states, steps, i, j - 1, id);
      RunKeepsInv(key, states, steps, j - 1);
      assert steps[j - 1].Make? || steps[j - 1].id != id by {
        if !steps[j - 1].Make? { NoUseAfterFree(key, states[j - 1], steps[j - 1]); }
      }
    }
  }

  /** The states from s on. */
  ghost function Trace(key: Id -> Key, s: State, steps: seq<Step>): (states: seq<State>)
    ensures |states| == |steps| + 1 && states[0] == s
    ensures forall i {:trigger steps[i]} | 0 <= i < |steps| :: states[i + 1] == Next(key, states[i], steps[i])
    decreases steps
  {
    if steps == [] then [s]
    else
      var rest := Trace(key, Next(key, s, steps[0]), steps[1..]);
      assert forall i | 1 <= i < |steps| :: steps[i] == steps[1..][i - 1];
      [s] + rest
  }

  // ---------- Letting go ----------

  ghost predicate Goes(key: Id -> Key, s: State, steps: seq<Step>)
    decreases steps
  {
    steps == [] || (Enabled(s, steps[0]) && Goes(key, Next(key, s, steps[0]), steps[1..]))
  }

  ghost function Gone(key: Id -> Key, s: State, steps: seq<Step>): State
    decreases steps
  {
    if steps == [] then s else Gone(key, Next(key, s, steps[0]), steps[1..])
  }

  /** A step that gives up a reference to a node. */
  ghost function LettingGo(s: State, id: Id): Step {
    if id in s.linked then Unlink(id) else if id in s.unlinking then Release(id) else Put(id)
  }

  /** Nothing keeps a node alive for good: from any state, those who hold it can let it go, and then it is freed. */
  lemma {:induction false} CanBeFreed(key: Id -> Key, s: State, id: Id) returns (steps: seq<Step>)
    requires Inv(key, s) && id in s.counts
    ensures Goes(key, s, steps) && forall i | 0 <= i < |steps| :: steps[i].id == id && !steps[i].Make?
    ensures Gone(key, s, steps).freed[id] == 1
    decreases References(s, id) + if id in s.linked then 1 else 0
  {
    assert Counted(s, id);
    if References(s, id) == 0 {
      steps := [];
    } else {
      var step := LettingGo(s, id);
      StepKeepsInv(key, s, step);
      var rest := CanBeFreed(key, Next(key, s, step), id);
      steps := [step] + rest;
      assert steps[1..] == rest;
    }
  }

  /** A result that is not counted says that the node was there, and no more: it can have been freed by the
      time it is looked at. */
  lemma UncountedCanDangle(key: Id -> Key, id: Id)
    ensures var steps := [Make(id), Add(id), Look(id), Unlink(id), Release(id)];
      var states := Trace(key, START, steps);
      Run(key, states, steps) && states[5].freed[id] == 1
  {
    var steps := [Make(id), Add(id), Look(id), Unlink(id), Release(id)];
    var states := Trace(key, START, steps);
    assert steps[0] == Make(id) && steps[1] == Add(id) && steps[2] == Look(id) && steps[3] == Unlink(id) && steps[4] == Release(id);
    assert states[1] == START.(counts := map[id := 1], handles := multiset{id});
    assert states[2] == State({id}, map[id := 1], multiset{}, multiset{}, multiset{});
    assert states[4] == State({}, map[id := 1], multiset{}, multiset{id}, multiset{});
  }
}
