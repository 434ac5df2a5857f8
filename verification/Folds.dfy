/** Reading a list item by item, and how to reason about it by what one item does. */
module Folds {
  import opened Results
  import opened Seqs

  /** Items numbered n, n + 1, ... read one after the other, up to the first error. */
  function Fold<S, T, E>(read: (S, nat, T) -> Result<S, E>, s: S, n: nat, items: seq<T>): Result<S, E>
    decreases |items|
  {
    if items == [] then Ok(s)
    else
      var r := read(s, n, items[0]);
      if r.Err? then r else Fold(read, r.value, n + 1, items[1..])
  }

  lemma {:induction false} FoldBoth<S, T, E>(read: (S, nat, T) -> Result<S, E>,
                                         s: S, n: nat, a: seq<T>, b: seq<T>, mid: S)
    requires Fold(read, s, n, a) == Ok(mid)
    ensures Fold(read, s, n, a + b) == Fold(read, mid, n + |a|, b)
    decreases |a|
  {
    if a == [] {
      EmptyUnit(b);
    } else {
      FirstOfConcat(a, b);
      FoldBoth(read, read(s, n, a[0]).value, n + 1, a[1..], b, mid);
    }
  }

  lemma {:induction false} FoldStops<S, T, E>(read: (S, nat, T) -> Result<S, E>, s: S, n: nat, a: seq<T>, b: seq<T>)
    requires Fold(read, s, n, a).Err?
    ensures Fold(read, s, n, a + b) == Fold(read, s, n, a)
    decreases |a|
  {
    FirstOfConcat(a, b);
    if read(s, n, a[0]).Ok? {
      FoldStops(read, read(s, n, a[0]).value, n + 1, a[1..], b);
    }
  }

  /** Reading one item later, from a changed state, changes the outcome in the same way. */
  ghost predicate Carries<S, T, E>(read: (S, nat, T) -> Result<S, E>, f: S -> S, g: E -> E, s: S, n: nat, item: T) {
    read(f(s), n + 1, item) ==
    match read(s, n, item)
    case Ok(s') => Ok(f(s'))
    case Err(e) => Err(g(e))
  }

  lemma {:induction false} FoldCarries<S(!new), T(!new), E>(read: (S, nat, T) -> Result<S, E>, f: S -> S, g: E -> E,
                                                            m: nat, s: S, n: nat, items: seq<T>)
    requires n > m && forall s, n: nat, item :: n > m ==> Carries(read, f, g, s, n, item)
    ensures Fold(read, f(s), n + 1, items) ==
            match Fold(read, s, n, items)
            case Ok(s') => Ok(f(s'))
            case Err(e) => Err(g(e))
    decreases |items|
  {
    if items != [] {
      assert Carries(read, f, g, s, n, items[0]);
      var r := read(s, n, items[0]);
      if r.Ok? {
        FoldCarries(read, f, g, m, r.value, n + 1, items[1..]);
      }
    }
  }

  /** From a state that fits item i, reading it leads to one that fits the next, or to a fair error. */
  ghost predicate Keeps<S, T, E>(read: (S, nat, T) -> Result<S, E>, items: seq<T>, n: nat,
                                 fits: (S, nat) -> bool, fair: E -> bool, s: S, i: nat)
    requires i < |items|
  {
    fits(s, i) ==>
      match read(s, n + i, items[i])
      case Ok(s') => fits(s', i + 1)
      case Err(e) => fair(e)
  }

  /** What every item keeps, the whole list keeps. */
  lemma {:induction false} FoldKeeps<S(!new), T, E>(read: (S, nat, T) -> Result<S, E>, items: seq<T>, n: nat,
                                                    fits: (S, nat) -> bool, fair: E -> bool, s: S, i: nat)
    requires i <= |items| && fits(s, i)
    requires forall s, j :: 0 <= j < |items| ==> Keeps(read, items, n, fits, fair, s, j)
    ensures match Fold(read, s, n + i, items[i..])
            case Ok(s') => fits(s', |items|)
            case Err(e) => fair(e)
    decreases |items| - i
  {
    if i < |items| {
      FirstFrom(items, i);
      assert Keeps(read, items, n, fits, fair, s, i);
      var r := read(s, n + i, items[i]);
      if r.Ok? {
        FoldKeeps(read, items, n, fits, fair, r.value, i + 1);
      }
    }
  }

  /** From a state that fits item i, reading it succeeds exactly when it is allowed; the error blames it. */
  ghost predicate Admits<S, T, E>(read: (S, nat, T) -> Result<S, E>, items: seq<T>, n: nat, fits: (S, nat) -> bool,
                                  allowed: nat -> bool, blames: (E, nat) -> bool, s: S, i: nat)
    requires i < |items|
  {
    fits(s, i) ==>
      match read(s, n + i, items[i])
      case Ok(s') => allowed(i) && fits(s', i + 1)
      case Err(e) => !allowed(i) && blames(e, i)
  }

  /** Item j is the first from i on that is not allowed. */
  ghost predicate FirstRefused(allowed: nat -> bool, i: nat, j: nat) {
    i <= j && !allowed(j) && forall k :: i <= k < j ==> allowed(k)
  }

  /** Then the whole list is read exactly when every item is allowed, and the error blames the first
      that is not. */
  lemma {:induction false} FoldAdmits<S(!new), T, E>(read: (S, nat, T) -> Result<S, E>, items: seq<T>, n: nat,
                                                     fits: (S, nat) -> bool, allowed: nat -> bool,
                                                     blames: (E, nat) -> bool, s: S, i: nat)
    requires i <= |items| && fits(s, i)
    requires forall s, j :: 0 <= j < |items| ==> Admits(read, items, n, fits, allowed, blames, s, j)
    ensures match Fold(read, s, n + i, items[i..])
            case Ok(s') => fits(s', |items|) && forall j :: i <= j < |items| ==> allowed(j)
            case Err(e) => exists j :: 0 <= j < |items| && FirstRefused(allowed, i, j) && blames(e, j)
    decreases |items| - i
  {
    if i < |items| {
      FirstFrom(items, i);
      assert Admits(read, items, n, fits, allowed, blames, s, i);
      var r := read(s, n + i, items[i]);
      if r.Ok? {
        FoldAdmits(read, items, n, fits, allowed, blames, r.value, i + 1);
        var end := Fold(read, r.value, n + (i + 1), items[i + 1..]);
        if end.Err? {
          var j :| 0 <= j < |items| && FirstRefused(allowed, i + 1, j) && blames(end.error, j);
          assert FirstRefused(allowed, i, j);
        }
      } else {
        assert FirstRefused(allowed, i, i);
      }
    }
  }
}
