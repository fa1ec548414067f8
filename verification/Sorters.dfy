/** What a sort does with a given number of elements: it only compares and swaps positions, so it is a
    decision tree over the answers. */
module Sorters {
  import opened Orders

  /** R is what a part of a sort tells the rest of it. */
  datatype Sorter<R> =
    | Done(result: R)
    | Swap(i: int, j: int, next: Sorter<R>)
    | Less(i: int, j: int, yes: Sorter<R>, no: Sorter<R>)

  /** The sort stays inside its n positions. */
  predicate Fits<R>(t: Sorter<R>, n: nat) {
    match t
    case Done(_) => true
    case Swap(i, j, next) => 0 <= i < n && 0 <= j < n && Fits(next, n)
    case Less(i, j, yes, no) => 0 <= i < n && 0 <= j < n && Fits(yes, n) && Fits(no, n)
  }

  /** The sort never compares a position with itself. */
  predicate NoSelfCompare<R>(t: Sorter<R>) {
    match t
    case Done(_) => true
    case Swap(_, _, next) => NoSelfCompare(next)
    case Less(i, j, yes, no) => i != j && NoSelfCompare(yes) && NoSelfCompare(no)
  }

  /** What it makes of a sequence, and what it tells. Positions outside do nothing. */
  function Eval<R, E>(t: Sorter<R>, less: (E, E) -> bool, s: seq<E>): (R, seq<E>)
    decreases t, 1
  {
    match t
    case Done(r) => (r, s)
    case Swap(i, j, next) => EvalSwap(i, j, next, less, s)
    case Less(i, j, yes, no) => EvalLess(i, j, yes, no, less, s)
  }

  function EvalSwap<R, E>(i: int, j: int, next: Sorter<R>, less: (E, E) -> bool, s: seq<E>): (R, seq<E>)
    decreases next, 2
  {
    Eval(next, less, if 0 <= i < |s| && 0 <= j < |s| then Exchanged(s, i, j) else s)
  }

  function EvalLess<R, E>(i: int, j: int, yes: Sorter<R>, no: Sorter<R>, less: (E, E) -> bool, s: seq<E>): (R, seq<E>)
    decreases Less(i, j, yes, no), 0
  {
    if 0 <= i < |s| && 0 <= j < |s| && less(s[i], s[j]) then Eval(yes, less, s) else Eval(no, less, s)
  }

  lemma SwapStep<R, E>(next: Sorter<R>, less: (E, E) -> bool, s: seq<E>, t: seq<E>, i: int, j: int)
    requires 0 <= i < |s| && 0 <= j < |s| && Exchange(s, t, i, j)
    ensures Eval(Swap(i, j, next), less, s) == Eval(next, less, t)
  {
    ExchangeIs(s, t, i, j);
    assert Eval(Swap(i, j, next), less, s) == EvalSwap(i, j, next, less, s);
  }

  lemma LessStep<R, E>(yes: Sorter<R>, no: Sorter<R>, less: (E, E) -> bool, s: seq<E>, i: int, j: int)
    requires 0 <= i < |s| && 0 <= j < |s|
    ensures Eval(Less(i, j, yes, no), less, s) == Eval(if less(s[i], s[j]) then yes else no, less, s)
  {
    assert Eval(Less(i, j, yes, no), less, s) == EvalLess(i, j, yes, no, less, s);
  }

  /** One part after another. */
  function Then<R>(t: Sorter<()>, u: Sorter<R>): Sorter<R>
    decreases t
  {
    match t
    case Done(_) => u
    case Swap(i, j, next) => Swap(i, j, Then(next, u))
    case Less(i, j, yes, no) => Less(i, j, Then(yes, u), Then(no, u))
  }

  /** One part, and then what its result says. */
  function Bind<R, S>(t: Sorter<R>, f: R -> Sorter<S>): Sorter<S>
    decreases t
  {
    match t
    case Done(r) => f(r)
    case Swap(i, j, next) => Swap(i, j, Bind(next, f))
    case Less(i, j, yes, no) => Less(i, j, Bind(yes, f), Bind(no, f))
  }

  lemma {:induction false} EvalThen<R, E>(t: Sorter<()>, u: Sorter<R>, less: (E, E) -> bool, s: seq<E>)
    ensures Eval(Then(t, u), less, s) == Eval(u, less, Eval(t, less, s).1)
    decreases t
  {
    match t
    case Done(_) =>
    case Swap(i, j, next) =>
      EvalThen(next, u, less, if 0 <= i < |s| && 0 <= j < |s| then Exchanged(s, i, j) else s);
    case Less(i, j, yes, no) =>
      EvalThen(yes, u, less, s);
      EvalThen(no, u, less, s);
  }

  lemma {:induction false} EvalBind<R, S, E>(t: Sorter<R>, f: R -> Sorter<S>, less: (E, E) -> bool, s: seq<E>)
    ensures Eval(Bind(t, f), less, s) == Eval(f(Eval(t, less, s).0), less, Eval(t, less, s).1)
    decreases t
  {
    match t
    case Done(_) =>
    case Swap(i, j, next) =>
      EvalBind(next, f, less, if 0 <= i < |s| && 0 <= j < |s| then Exchanged(s, i, j) else s);
    case Less(i, j, yes, no) =>
      EvalBind(yes, f, less, s);
      EvalBind(no, f, less, s);
  }

  /** Inside its n positions, never comparing one with itself, and with results of one kind. */
  predicate Sound<R>(t: Sorter<R>, n: nat, good: R -> bool) {
    match t
    case Done(r) => good(r)
    case Swap(i, j, next) => 0 <= i < n && 0 <= j < n && Sound(next, n, good)
    case Less(i, j, yes, no) => 0 <= i < n && 0 <= j < n && i != j && Sound(yes, n, good) && Sound(no, n, good)
  }

  lemma {:induction false} SoundSorter<R>(t: Sorter<R>, n: nat, good: R -> bool)
    requires Sound(t, n, good)
    ensures Fits(t, n) && NoSelfCompare(t)
    decreases t
  {
    match t
    case Done(_) =>
    case Swap(_, _, next) => SoundSorter(next, n, good);
    case Less(_, _, yes, no) =>
      SoundSorter(yes, n, good);
      SoundSorter(no, n, good);
  }

  function Any<R>(): R -> bool {
    _ => true
  }

  lemma {:induction false} SoundThen<R>(t: Sorter<()>, u: Sorter<R>, n: nat, good: R -> bool)
    requires Sound(t, n, Any<()>()) && Sound(u, n, good)
    ensures Sound(Then(t, u), n, good)
    decreases t
  {
    match t
    case Done(_) =>
    case Swap(_, _, next) => SoundThen(next, u, n, good);
    case Less(_, _, yes, no) =>
      SoundThen(yes, u, n, good);
      SoundThen(no, u, n, good);
  }

  lemma {:induction false} SoundBind<R(!new), S>(t: Sorter<R>, f: R -> Sorter<S>, n: nat, told: R -> bool,
                                                 good: S -> bool)
    requires Sound(t, n, told) && forall r :: told(r) ==> Sound(f(r), n, good)
    ensures Sound(Bind(t, f), n, good)
    decreases t
  {
    match t
    case Done(_) =>
    case Swap(_, _, next) => SoundBind(next, f, n, told, good);
    case Less(_, _, yes, no) =>
      SoundBind(yes, f, n, told, good);
      SoundBind(no, f, n, told, good);
  }
}
