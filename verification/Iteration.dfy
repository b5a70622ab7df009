/** Doing the same thing over and over. */
module Iteration {
  function Iterate<S>(f: S -> S, s: S, n: nat): S
    decreases n
  {
    if n == 0 then s else Iterate(f, f(s), n - 1)
  }

  lemma {:induction false} IterateAdd<S>(f: S -> S, s: S, n: nat, m: nat)
    ensures Iterate(f, Iterate(f, s, n), m) == Iterate(f, s, n + m)
    decreases n
  {
    if n > 0 { IterateAdd(f, f(s), n - 1, m); }
  }

  /** What no step makes larger, no number of steps does. */
  lemma {:induction false} IterateShrinks<S(!new)>(f: S -> S, size: S -> nat, s: S, n: nat)
    requires forall t :: size(f(t)) <= size(t)
    ensures size(Iterate(f, s, n)) <= size(s)
    decreases n
  {
    if n > 0 { IterateShrinks(f, size, f(s), n - 1); }
  }
}
