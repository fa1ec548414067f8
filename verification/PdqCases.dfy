/** The sort that the adversary's cases are built for: Go's quicksort makes the adversary's comparisons
    again and ends with its permutation. */
module PdqCases {
  import opened Words
  import opened Orders
  import opened Sorters
  import opened PdqTree
  import opened Adversary
  import Pdqsort

  /** The adversary against the quicksort of n elements. */
  function Played(n: nat): (State, seq<Answer>) {
    SortIsSound(n);
    Play(SortTree(n), Start(n))
  }

  /** The quicksort of the elements of a case, with the answers it gets. */
  function Sorting(els: seq<Elem>, lenDesc: bool): (seq<Elem>, seq<Answer>) {
    SortIsSound(|els|);
    Sort(SortTree(|els|), els, Id, ByCase(lenDesc))
  }

  lemma {:induction false} SortEvals<E>(t: Sorter<()>, els: seq<E>, id: E -> nat, less: (E, E) -> bool)
    requires Fits(t, |els|)
    ensures Sort(t, els, id, less).0 == Eval(t, less, els).1
    decreases t
  {
    match t
    case Done(_) =>
    case Swap(i, j, next) =>
      SortEvals(next, Exchanged(els, i, j), id, less);
    case Less(i, j, yes, no) =>
      SortEvals(yes, els, id, less);
      SortEvals(no, els, id, less);
  }

  lemma CaseIsOrder(lenDesc: bool)
    ensures WeakOrder(ByCase(lenDesc))
  {
  }

  /** The quicksort of a case, for either comparator, makes every comparison that the adversary answered,
      in the same order and with the same answer. */
  lemma PdqRepeatsAdversary(values: seq<int>, els: seq<Elem>, lenDesc: bool)
    requires |els| < TWO64 && PatternValues(values, Played(|els|).0, lenDesc) && CaseElements(els, values, lenDesc)
    ensures var sorted, played := Sorting(els, lenDesc), Played(|els|);
            && sorted.1 == played.1
            && |sorted.0| == |played.0.ids|
            && forall p :: 0 <= p < |sorted.0| ==> sorted.0[p].id == played.0.ids[p]
  {
    SortIsSound(|els|);
    CaseRepeatsAdversary(SortTree(|els|), |els|, values, els, lenDesc);
  }

  /** In place, the case ends sorted and in the order that the adversary was left with. */
  method SortCase(els: array<Elem>, ghost values: seq<int>, lenDesc: bool)
    requires els.Length < TWO64 && PatternValues(values, Played(els.Length).0, lenDesc)
    requires CaseElements(els[..], values, lenDesc)
    modifies els
    ensures Sorted(ByCase(lenDesc), els[..], 0, els.Length) && els.Length == |Played(els.Length).0.ids|
    ensures forall p :: 0 <= p < els.Length ==> els[p].id == Played(els.Length).0.ids[p]
  {
    ghost var s := els[..];
    CaseIsOrder(lenDesc);
    Pdqsort.Slice(els, ByCase(lenDesc));
    SortIsSound(|s|);
    SortEvals(SortTree(|s|), s, Id, ByCase(lenDesc));
    PdqRepeatsAdversary(values, s, lenDesc);
    assert els[..] == Sorting(s, lenDesc).0;
  }
}
