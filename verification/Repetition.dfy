/** Repeating a step while it can be taken, up to a number of times. */
module Repetition {
  function Repeat<S>(able: S -> bool, step: S -> S, s: S, n: nat): S
    decreases n
  {
    if n == 0 || !able(s) then s else Repeat(able, step, step(s), n - 1)
  }

  /** How many steps that takes. */
  function Taken<S>(able: S -> bool, step: S -> S, s: S, n: nat): nat
    decreases n
  {
    if n == 0 || !able(s) then 0 else 1 + Taken(able, step, step(s), n - 1)
  }

  lemma {:induction false} RepeatAdds<S>(able: S -> bool, step: S -> S, s: S, a: nat, b: nat)
    ensures Repeat(able, step, Repeat(able, step, s, a), b) == Repeat(able, step, s, a + b)
    ensures Taken(able, step, s, a) + Taken(able, step, Repeat(able, step, s, a), b) == Taken(able, step, s, a + b)
    decreases a
  {
    if a > 0 && able(s) {
      RepeatAdds(able, step, step(s), a - 1, b);
    }
  }

  /** The i-th listed state steps to the next one, unless it cannot step. */
  ghost predicate Leads<S>(able: S -> bool, step: S -> S, at: nat -> S, i: nat, end: nat) {
    able(at(i)) ==> i + 1 < end && step(at(i)) == at(i + 1)
  }

  /** If each step leads from one listed state to the next, repeating leads along the list. */
  lemma {:induction false} RepeatFollows<S>(able: S -> bool, step: S -> S, at: nat -> S, n: nat, from: nat, end: nat)
    requires from < end
    requires forall i: nat :: from <= i < end ==> Leads(able, step, at, i, end)
    ensures var to := from + Taken(able, step, at(from), n);
            to < end && Repeat(able, step, at(from), n) == at(to)
    decreases n
  {
    if n > 0 && able(at(from)) {
      assert Leads(able, step, at, from, end);
      RepeatFollows(able, step, at, n - 1, from + 1, end);
    }
  }
}
