/** Loops as repeated application of one turn. */
module Iteration {

  function Iterate<A>(turn: A -> A, x: A, n: nat): A
    decreases n
  {
    if n == 0 then x else Iterate(turn, turn(x), n - 1)
  }

  /** What one turn keeps, any number of turns keeps. */
  lemma {:induction false} IterateKeeps<A(!new)>(turn: A -> A, p: A -> bool, x: A, n: nat)
    requires p(x) && forall y :: p(y) ==> p(turn(y))
    ensures p(Iterate(turn, x, n))
    decreases n
  {
    if n > 0 { IterateKeeps(turn, p, turn(x), n - 1); }
  }

  /** A loop whose turns shrink its state unless it has ended or is stuck gets to one of the two. */
  lemma {:induction false} EndsOrSticks<A(!new)>(turn: A -> A, size: A -> nat, ended: A -> bool, stuck: A -> bool, x: A, n: nat)
    requires n > size(x)
    requires forall y :: (ended(y) ==> ended(turn(y))) && (stuck(y) ==> stuck(turn(y)))
    requires forall y :: ended(y) || stuck(y) || size(turn(y)) < size(y)
    ensures ended(Iterate(turn, x, n)) || stuck(Iterate(turn, x, n))
    decreases n
  {
    if ended(x) {
      IterateKeeps(turn, ended, x, n);
    } else if stuck(x) {
      IterateKeeps(turn, stuck, x, n);
    } else {
      EndsOrSticks(turn, size, ended, stuck, turn(x), n - 1);
    }
  }
}
