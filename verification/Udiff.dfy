/** Byte edits of a text: validated, applied, and expanded to whole lines. */
module Udiff {
  import opened Words
  import opened LineText
  import opened Splices
  import Collections
  import opened Orders
  import StableSort

  type Edit = Splice<Byte>

  // ----- validate

  /** By (start, end). */
  predicate Less(a: Edit, b: Edit) {
    if a.start != b.start then a.start < b.start else a.end < b.end
  }

  lemma LessIsOrder()
    ensures WeakOrder(Less)
  {
  }

  predicate InOrder(edits: seq<Edit>) {
    forall i :: 0 < i < |edits| ==> !Less(edits[i], edits[i - 1])
  }

  /** Behind every edit that is not greater, so equal edits keep their order. */
  function Insert(sorted: seq<Edit>, e: Edit): seq<Edit> {
    if sorted == [] || !Less(e, Last(sorted)) then sorted + [e]
    else Insert(Front(sorted), e) + [Last(sorted)]
  }

  /** The stable sort of the edits. */
  function SortEdits(edits: seq<Edit>): seq<Edit> {
    if edits == [] then [] else Insert(SortEdits(Front(edits)), Last(edits))
  }

  /** Sorting a copy only when needed is the same as always sorting. */
  lemma {:induction false} SortOfSorted(edits: seq<Edit>)
    requires InOrder(edits)
    ensures SortEdits(edits) == edits
  {
    if edits != [] {
      SortOfSorted(Front(edits));
      assert |edits| > 1 ==> Last(Front(edits)) == edits[|edits| - 2];
      assert edits == Front(edits) + [Last(edits)];
    }
  }

  /** The sort orders the edits, and keeps edits of one place in their order, so it loses none. */
  lemma SortWorks(edits: seq<Edit>)
    ensures Sorted(Less, SortEdits(edits), 0, |SortEdits(edits)|) && Stable(Less, edits, SortEdits(edits))
  {
    LessIsOrder();
    SortInOrder(edits);
    NeighboursSorted(Less, SortEdits(edits), |SortEdits(edits)|);
    forall x ensures Alike(Less, edits, x) == Alike(Less, SortEdits(edits), x) {
      SortAlike(edits, x);
    }
  }

  lemma {:induction false} SortInOrder(edits: seq<Edit>)
    ensures InOrder(SortEdits(edits))
  {
    if edits != [] {
      SortInOrder(Front(edits));
      InsertInOrder(SortEdits(Front(edits)), Last(edits));
    }
  }

  lemma {:induction false} InsertInOrder(sorted: seq<Edit>, e: Edit)
    requires InOrder(sorted)
    ensures var r := Insert(sorted, e);
            && r != [] && InOrder(r)
            && (Last(r) == e || (sorted != [] && Last(r) == Last(sorted)))
  {
    if sorted != [] && Less(e, Last(sorted)) {
      var front, last := Front(sorted), Last(sorted);
      InsertInOrder(front, e);
      assert front != [] ==> Last(front) == sorted[|sorted| - 2];
    }
  }

  lemma {:induction false} SortAlike(edits: seq<Edit>, x: Edit)
    ensures Alike(Less, edits, x) == Alike(Less, SortEdits(edits), x)
  {
    if edits != [] {
      SortAlike(Front(edits), x);
      InsertAlike(SortEdits(Front(edits)), Last(edits), x);
      assert edits == Front(edits) + [Last(edits)];
      AlikeConcat(Less, Front(edits), [Last(edits)], x);
    }
  }

  lemma {:induction false} InsertAlike(sorted: seq<Edit>, e: Edit, x: Edit)
    ensures Alike(Less, Insert(sorted, e), x) == Alike(Less, sorted, x) + Alike(Less, [e], x)
  {
    if sorted == [] || !Less(e, Last(sorted)) {
      AlikeConcat(Less, sorted, [e], x);
    } else {
      var front, last := Front(sorted), Last(sorted);
      InsertAlike(front, e, x);
      LessIsOrder();
      OneIsUnlike(Less, [last], [e], x);
      AlikeConcat(Less, Insert(front, e), [last], x);
      assert sorted == front + [last];
      AlikeConcat(Less, front, [last], x);
    }
  }

  /** Any sort that orders the edits and keeps those of each place in their order gives this list. */
  lemma SortIsUnique(edits: seq<Edit>, r: seq<Edit>)
    requires Sorted(Less, r, 0, |r|) && Stable(Less, edits, r)
    ensures r == SortEdits(edits)
  {
    LessIsOrder();
    SortWorks(edits);
    OneStableSort(Less, r, SortEdits(edits));
  }

  datatype Checked = Checked(edits: seq<Edit>, size: int) | OutOfBounds | Overlapping

  /** validate: the sorted edits and the size of the result, exactly when they can be applied. */
  method Validate(src: seq<Byte>, edits: seq<Edit>) returns (r: Checked)
    ensures r.Checked? <==> Valid(SortEdits(edits), |src|)
    ensures r.Checked? ==> r.edits == SortEdits(edits) && r.size == |Apply(src, r.edits)|
    ensures r.OutOfBounds? <==> BoundsFail(SortEdits(edits), |src|)
    ensures r.Overlapping? <==> OverlapFails(SortEdits(edits), |src|)
  {
    LessIsOrder();
    var sorted := edits;
    var already := StableSort.IsSorted(edits, Less);
    if !already {
      sorted := SortCopy(edits);
    } else {
      SortIsUnique(edits, edits);
    }
    r := CheckSorted(src, sorted);
  }

  /** sort_edits, on a copy. */
  method SortCopy(edits: seq<Edit>) returns (sorted: seq<Edit>)
    ensures sorted == SortEdits(edits)
  {
    LessIsOrder();
    var v := new Edit[|edits|](i requires 0 <= i < |edits| => edits[i]);
    assert v[..] == edits;
    StableSort.SliceStable(v, Less);
    sorted := v[..];
    SortIsUnique(edits, sorted);
  }

  /** Its loop over the sorted edits. */
  method CheckSorted(src: seq<Byte>, sorted: seq<Edit>) returns (r: Checked)
    ensures r.Checked? <==> Valid(sorted, |src|)
    ensures r.Checked? ==> r.edits == sorted && r.size == |Apply(src, sorted)|
    ensures r.OutOfBounds? <==> BoundsFail(sorted, |src|)
    ensures r.Overlapping? <==> OverlapFails(sorted, |src|)
  {
    var size := |src|;
    var lastEnd := 0;
    for i := 0 to |sorted|
      invariant Valid(sorted[..i], |src|) && lastEnd == End(sorted[..i])
      invariant size == |src| + Growth(sorted[..i])
    {
      var e := sorted[i];
      if e.start > e.end || e.end > |src| {
        FirstFailure(sorted, |src|, i);
        return OutOfBounds;
      }
      if e.start < lastEnd {
        FirstFailure(sorted, |src|, i);
        return Overlapping;
      }
      assert sorted[..i + 1] == sorted[..i] + [e];
      FrontOfAppend(sorted[..i], e);
      size := size + |e.ins| + e.start - e.end;
      lastEnd := e.end;
    }
    assert sorted[..|sorted|] == sorted;
    OutLength(src, sorted);
    NoFailure(sorted, |src|);
    return Checked(sorted, size);
  }

  predicate InBoundsAt(e: Edit, n: nat) {
    e.start <= e.end <= n
  }

  /** The first edit that cannot follow those before it is out of bounds. */
  ghost predicate BoundsFail(edits: seq<Edit>, n: nat) {
    exists k :: 0 <= k < |edits| && Valid(edits[..k], n) && !InBoundsAt(edits[k], n)
  }

  /** Or it is in bounds and overlaps the one before. */
  ghost predicate OverlapFails(edits: seq<Edit>, n: nat) {
    exists k :: 0 <= k < |edits| && Valid(edits[..k], n) && InBoundsAt(edits[k], n) && edits[k].start < End(edits[..k])
  }

  lemma FirstFailure(edits: seq<Edit>, n: nat, k: nat)
    requires k < |edits| && Valid(edits[..k], n)
    requires !(End(edits[..k]) <= edits[k].start && InBoundsAt(edits[k], n))
    ensures !Valid(edits, n)
    ensures BoundsFail(edits, n) <==> !InBoundsAt(edits[k], n)
    ensures OverlapFails(edits, n) <==> InBoundsAt(edits[k], n)
  {
    forall j | 0 <= j < |edits| && Valid(edits[..j], n)
      ensures j <= k && (j < k ==> InBoundsAt(edits[j], n) && End(edits[..j]) <= edits[j].start)
    {
      if j > k {
        PrefixAt(edits, n, j, k);
      } else if j < k {
        PrefixAt(edits, n, k, j);
      }
    }
    if Valid(edits, n) {
      ValidPrefix(edits, n, k);
    }
  }

  lemma PrefixAt(edits: seq<Edit>, n: nat, j: nat, k: nat)
    requires k < j <= |edits| && Valid(edits[..j], n)
    ensures InBoundsAt(edits[k], n) && End(edits[..k]) <= edits[k].start
  {
    assert edits[..j][..k] == edits[..k];
    ValidPrefix(edits[..j], n, k);
  }

  lemma NoFailure(edits: seq<Edit>, n: nat)
    requires Valid(edits, n)
    ensures !BoundsFail(edits, n) && !OverlapFails(edits, n)
  {
    forall k | 0 <= k < |edits| ensures InBoundsAt(edits[k], n) && End(edits[..k]) <= edits[k].start {
      ValidPrefix(edits, n, k);
    }
  }

  // ----- expanding to whole lines

  /** The start of the line that p lies in. */
  function LineStart(src: seq<Byte>, p: nat): (s: nat)
    requires p <= |src|
    ensures s <= p && (s == 0 || src[s - 1] == NL)
    ensures forall i :: s <= i < p ==> src[i] != NL
  {
    if p == 0 || src[p - 1] == NL then p else LineStart(src, p - 1)
  }

  /** A line may start at p. */
  predicate LineBreak(src: seq<Byte>, p: nat)
    requires p <= |src|
  {
    p == 0 || src[p - 1] == NL
  }

  predicate EndsLine(s: seq<Byte>) {
    s == [] || s[|s| - 1] == NL
  }

  /** Where an edit ends once it takes in the rest of its last line, if it cuts one. */
  function ExpandedEnd(src: seq<Byte>, end: nat, ins: seq<Byte>): (x: nat)
    requires end <= |src|
    ensures end <= x <= LineEnd(src, end) <= |src|
    ensures x == end || x == LineEnd(src, end)
    ensures x == |src| || LineBreak(src, x)
    ensures x == |src| || x > end || EndsLine(ins)
  {
    if LineBreak(src, end) && EndsLine(ins) then end else LineEnd(src, end)
  }

  /** expandEdit. */
  function Expand(src: seq<Byte>, e: Edit): Edit
    requires e.start <= e.end <= |src|
  {
    var s := LineStart(src, e.start);
    var ins := src[s..e.start] + e.ins;
    var end := ExpandedEnd(src, e.end, ins);
    Splice(s, end, ins + src[e.end..end])
  }

  /** The edit replaces complete lines by complete lines; only at the end of the text may either
      lack its newline. */
  predicate WholeLines(src: seq<Byte>, e: Edit) {
    && e.start <= e.end <= |src|
    && LineBreak(src, e.start)
    && (e.end == |src| || (LineBreak(src, e.end) && EndsLine(e.ins)))
  }

  /** The fast path: nothing to expand. */
  predicate Aligned(src: seq<Byte>, e: Edit)
    requires e.start <= e.end <= |src|
  {
    && e.start < |src|
    && LineBreak(src, e.start) && LineBreak(src, e.end) && EndsLine(e.ins)
  }

  predicate AllAligned(src: seq<Byte>, edits: seq<Edit>) {
    forall i :: 0 <= i < |edits| ==> edits[i].start <= edits[i].end <= |src| && Aligned(src, edits[i])
  }

  /** Whole-line edits with whole lines between them. */
  ghost predicate Settled(src: seq<Byte>, edits: seq<Edit>) {
    && (forall i :: 0 <= i < |edits| ==> WholeLines(src, edits[i]))
    && forall i :: 0 < i < |edits| ==> BreakBetween(src, edits[i - 1], edits[i])
  }

  predicate BreakBetween(src: seq<Byte>, d: Edit, e: Edit) {
    d.end <= e.start <= |src| && NL in src[d.end..e.start]
  }

  /** Nothing to expand or to merge. */
  lemma SettledNext(src: seq<Byte>, edits: seq<Edit>, k: nat)
    requires k < |edits| && Valid(edits, |src|)
    ensures edits[..k + 1] == edits[..k] + [edits[k]]
    ensures Settled(src, edits) ==>
              && edits[k].start <= edits[k].end <= |src| && Expand(src, edits[k]) == edits[k]
              && (k + 1 < |edits| ==> BreakBetween(src, edits[k], edits[k + 1]))
  {
    if Settled(src, edits) {
      var e := edits[k];
      assert WholeLines(src, e) && LineStart(src, e.start) == e.start;
      assert src[e.start..e.start] + e.ins == e.ins;
      assert ExpandedEnd(src, e.end, e.ins) == e.end;
      assert e.ins + src[e.end..e.end] == e.ins;
      assert k + 1 < |edits| ==> BreakBetween(src, edits[k + 1 - 1], edits[k + 1]);
    }
  }

  lemma ExpandWhole(src: seq<Byte>, e: Edit)
    requires e.start <= e.end <= |src|
    ensures var x := Expand(src, e);
            && WholeLines(src, x) && x.start <= e.start && e.end <= x.end <= LineEnd(src, e.end)
            && (e.end < |src| && LineBreak(src, x.end) ==> EndsLine(x.ins))
  {
    EndWhole(src, e.end, src[LineStart(src, e.start)..e.start] + e.ins);
  }

  lemma EndWhole(src: seq<Byte>, end: nat, ins: seq<Byte>)
    requires end <= |src|
    ensures var x := ExpandedEnd(src, end, ins);
            && (x == |src| || EndsLine(ins + src[end..x]))
            && (end < |src| && LineBreak(src, x) ==> EndsLine(ins + src[end..x]))
  {
    EndsWith(ins, src, end, ExpandedEnd(src, end, ins));
  }

  lemma EndsWith(ins: seq<Byte>, src: seq<Byte>, i: nat, j: nat)
    requires i <= j <= |src|
    ensures i == j ==> ins + src[i..j] == ins
    ensures i < j && LineBreak(src, j) ==> EndsLine(ins + src[i..j])
  {
    if i < j {
      assert (ins + src[i..j])[|ins| + j - i - 1] == src[j - 1];
    }
  }

  /** What an expanded edit writes is what the edit wrote, between the rest of its lines. */
  lemma ExpandOut(src: seq<Byte>, done: seq<Edit>, e: Edit)
    requires Valid(done, |src|) && e.start <= e.end <= |src| && End(done) <= LineStart(src, e.start)
    ensures var x := Expand(src, e);
            && Valid(done + [e], |src|) && Valid(done + [x], |src|) && x.end <= |src|
            && Out(src, done + [x]) == Out(src, done + [e]) + src[e.end..x.end]
  {
    var x := Expand(src, e);
    Widen(src, done, e, x.start, x.end);
  }

  /** lineEdits, for validated edits: the same change, in whole lines. */
  method LineEdits(src: seq<Byte>, edits: seq<Edit>) returns (out: seq<Edit>)
    requires Valid(edits, |src|)
    ensures Valid(out, |src|) && Apply(src, out) == Apply(src, edits)
    ensures forall i :: 0 <= i < |out| ==> WholeLines(src, out[i])
    ensures forall i :: 0 <= i < |out| - 1 ==> EndsLine(out[i].ins)
    ensures forall i :: 0 <= i < |out| ==> Touches(src, edits, out[i])
    ensures AllAligned(src, edits) || Settled(src, edits) ==> out == edits
  {
    InBounds(edits, |src|);
    if AllAligned(src, edits) {
      AlignedWhole(src, edits);
      return edits;
    }
    out := ExpandAll(src, edits);
  }

  /** Its slow path. */
  method ExpandAll(src: seq<Byte>, edits: seq<Edit>) returns (out: seq<Edit>)
    requires Valid(edits, |src|) && edits != []
    ensures Valid(out, |src|) && Apply(src, out) == Apply(src, edits)
    ensures forall i :: 0 <= i < |out| ==> WholeLines(src, out[i]) && Touches(src, edits, out[i])
    ensures forall i :: 0 <= i < |out| - 1 ==> EndsLine(out[i].ins)
    ensures Settled(src, edits) ==> out == edits
  {
    out := [];
    var prev := edits[0];
    ghost var first := 0;
    StartPending(src, edits);
    for k := 1 to |edits|
      invariant Expanding(src, edits, out, prev, first, k)
    {
      out, prev, first := ExpandNext(src, edits, out, prev, first, k);
    }
    assert edits[..|edits|] == edits;
    LastFlush(src, out, prev, edits);
    SettledNext(src, edits, |edits| - 1);
    ExpandTouches(src, edits, out, prev, first, |edits|);
    out := out + [Expand(src, prev)];
  }

  /** The state of its loop before edit k. */
  ghost predicate Expanding(src: seq<Byte>, edits: seq<Edit>, out: seq<Edit>, prev: Edit, first: nat, k: nat) {
    && 0 < k <= |edits| && Pending(src, out, prev, edits[..k]) && Spans(src, edits, out, prev, first, k)
    && (Settled(src, edits) ==> prev == edits[k - 1] && out == edits[..k - 1])
  }

  /** Its body: merge with the edit before, or flush that one. */
  method ExpandNext(src: seq<Byte>, edits: seq<Edit>, out: seq<Edit>, prev: Edit, ghost first: nat, k: nat)
    returns (nextOut: seq<Edit>, next: Edit, ghost nextFirst: nat)
    requires Valid(edits, |src|) && k < |edits| && Expanding(src, edits, out, prev, first, k)
    ensures Expanding(src, edits, nextOut, next, nextFirst, k + 1)
  {
    var e := edits[k];
    ValidPrefix(edits, |src|, k);
    var between := src[prev.end..e.start];
    if NL !in between {
      Merged(src, edits, out, prev, first, k);
      nextOut, next, nextFirst := out, Splice(prev.start, e.end, prev.ins + between + e.ins), first;
    } else {
      Flushed(src, edits, out, prev, first, k);
      nextOut, next, nextFirst := out + [Expand(src, prev)], e, k;
    }
  }

  lemma Merged(src: seq<Byte>, edits: seq<Edit>, out: seq<Edit>, prev: Edit, first: nat, k: nat)
    requires Valid(edits, |src|) && k < |edits| && Expanding(src, edits, out, prev, first, k)
    requires prev.end <= edits[k].start <= edits[k].end <= |src| && NL !in src[prev.end..edits[k].start]
    ensures var e := edits[k];
            var joined := Splice(prev.start, e.end, prev.ins + src[prev.end..e.start] + e.ins);
            Expanding(src, edits, out, joined, first, k + 1)
  {
    Collections.Next(edits, k);
    NotSettled(src, edits, prev, k);
    MergeKeeps(src, out, prev, edits[..k], edits[k]);
    MergeSpans(src, edits, out, prev, first, k);
  }

  lemma NotSettled(src: seq<Byte>, edits: seq<Edit>, prev: Edit, k: nat)
    requires 0 < k < |edits| && prev.end == edits[k - 1].end <= edits[k].start <= |src|
    requires NL !in src[prev.end..edits[k].start]
    ensures !Settled(src, edits)
  {
    assert !BreakBetween(src, edits[k - 1], edits[k]);
  }

  lemma MergeSpans(src: seq<Byte>, edits: seq<Edit>, out: seq<Edit>, prev: Edit, first: nat, k: nat)
    requires k < |edits| && Spans(src, edits, out, prev, first, k)
    requires prev.end <= edits[k].start <= |src| && NL !in src[prev.end..edits[k].start]
    ensures forall ins :: Spans(src, edits, out, Splice(prev.start, edits[k].end, ins), first, k + 1)
  {
    assert OneLineRun(src, edits, first, k);
  }

  lemma Flushed(src: seq<Byte>, edits: seq<Edit>, out: seq<Edit>, prev: Edit, first: nat, k: nat)
    requires Valid(edits, |src|) && k < |edits| && Expanding(src, edits, out, prev, first, k)
    requires prev.end <= edits[k].start <= edits[k].end <= |src| && NL in src[prev.end..edits[k].start]
    ensures Expanding(src, edits, out + [Expand(src, prev)], edits[k], k, k + 1)
  {
    Collections.Next(edits, k);
    SettledNext(src, edits, k - 1);
    FlushKeeps(src, out, prev, edits[..k], edits[k]);
    ExpandTouches(src, edits, out, prev, first, k);
  }

  /** Where the edits of out and prev come from: prev is one run of edits, up to edit k. */
  ghost predicate Spans(src: seq<Byte>, edits: seq<Edit>, out: seq<Edit>, prev: Edit, first: nat, k: nat) {
    && first < k <= |edits| && OneLineRun(src, edits, first, k - 1)
    && prev.start == edits[first].start && prev.end == edits[k - 1].end
    && forall i :: 0 <= i < |out| ==> Touches(src, edits, out[i])
  }

  /** No line break between edits i to j, from one to the next. */
  ghost predicate OneLineRun(src: seq<Byte>, edits: seq<Edit>, i: nat, j: nat)
    requires i <= j < |edits|
  {
    forall m :: i < m <= j ==>
      edits[m - 1].end <= edits[m].start <= |src| && NL !in src[edits[m - 1].end..edits[m].start]
  }

  /** x reaches no further than the lines of a run of edits that share lines. */
  ghost predicate Touches(src: seq<Byte>, edits: seq<Edit>, x: Edit) {
    exists i, j :: TouchesRun(src, edits, x, i, j)
  }

  ghost predicate TouchesRun(src: seq<Byte>, edits: seq<Edit>, x: Edit, i: int, j: int) {
    && 0 <= i <= j < |edits| && edits[i].start <= |src| && edits[j].end <= |src|
    && OneLineRun(src, edits, i, j)
    && x.start == LineStart(src, edits[i].start) && edits[j].end <= x.end <= LineEnd(src, edits[j].end)
  }

  lemma ExpandTouches(src: seq<Byte>, edits: seq<Edit>, out: seq<Edit>, prev: Edit, first: nat, k: nat)
    requires prev.start <= prev.end <= |src| && Spans(src, edits, out, prev, first, k)
    ensures var all := out + [Expand(src, prev)];
            forall i :: 0 <= i < |all| ==> Touches(src, edits, all[i])
  {
    ExpandWhole(src, prev);
    assert TouchesRun(src, edits, Expand(src, prev), first, k - 1);
  }

  lemma AlignedWhole(src: seq<Byte>, edits: seq<Edit>)
    requires AllAligned(src, edits)
    ensures forall i :: 0 <= i < |edits| ==> WholeLines(src, edits[i]) && EndsLine(edits[i].ins)
    ensures forall i :: 0 <= i < |edits| ==> Touches(src, edits, edits[i])
  {
    forall i | 0 <= i < |edits| ensures Touches(src, edits, edits[i]) {
      assert TouchesRun(src, edits, edits[i], i, i);
    }
  }

  lemma StartPending(src: seq<Byte>, edits: seq<Edit>)
    requires Valid(edits, |src|) && edits != []
    ensures Pending(src, [], edits[0], edits[..1])
  {
    ValidPrefix(edits, |src|, 1);
    ValidPrefix(edits, |src|, 0);
    assert edits[..1] == [] + [edits[0]];
  }

  lemma LastFlush(src: seq<Byte>, out: seq<Edit>, prev: Edit, edits: seq<Edit>)
    requires Pending(src, out, prev, edits)
    ensures var all := out + [Expand(src, prev)];
            && Valid(all, |src|) && Apply(src, all) == Apply(src, edits)
            && (forall i :: 0 <= i < |all| ==> WholeLines(src, all[i]))
            && forall i :: 0 <= i < |all| - 1 ==> EndsLine(all[i].ins)
  {
    var x := Expand(src, prev);
    ExpandOut(src, out, prev);
    ExpandWhole(src, prev);
    FrontOfAppend(out, x);
    SameRest(src, Out(src, edits), prev.end, x.end);
  }

  lemma SameRest(src: seq<Byte>, out: seq<Byte>, p: nat, q: nat)
    requires p <= q <= |src|
    ensures out + src[p..q] + src[q..] == out + src[p..]
  {
    assert src[p..] == src[p..q] + src[q..];
    Collections.Associative(out, src[p..q], src[q..]);
  }

  lemma {:induction false} InBounds(edits: seq<Edit>, n: nat)
    requires Valid(edits, n)
    ensures forall i :: 0 <= i < |edits| ==> edits[i].start <= edits[i].end <= n
  {
    forall i | 0 <= i < |edits| ensures edits[i].start <= edits[i].end <= n {
      ValidPrefix(edits, n, i);
    }
  }

  /** While expanding: out is flushed, prev is the edit still growing, and together they are what
      the edits seen so far are. */
  ghost predicate Pending(src: seq<Byte>, out: seq<Edit>, prev: Edit, seen: seq<Edit>) {
    && Valid(seen, |src|) && Valid(out, |src|) && Valid(out + [prev], |src|)
    && prev.start <= prev.end <= |src| && prev.end == End(seen)
    && End(out) <= LineStart(src, prev.start)
    && Out(src, out + [prev]) == Out(src, seen)
    && forall i :: 0 <= i < |out| ==> WholeLines(src, out[i]) && EndsLine(out[i].ins)
  }

  lemma MergeKeeps(src: seq<Byte>, out: seq<Edit>, prev: Edit, seen: seq<Edit>, e: Edit)
    requires Pending(src, out, prev, seen) && prev.end <= e.start <= e.end <= |src|
    ensures Pending(src, out, Splice(prev.start, e.end, prev.ins + src[prev.end..e.start] + e.ins), seen + [e])
  {
    var longer := Splice(prev.start, e.end, prev.ins + src[prev.end..e.start] + e.ins);
    Append(src, out, prev);
    Append(src, out, longer);
    Append(src, seen, e);
    var head := Out(src, out) + src[End(out)..prev.start];
    Collections.Associative(head, prev.ins + src[prev.end..e.start], e.ins);
    Collections.Associative(head, prev.ins, src[prev.end..e.start]);
  }

  lemma FlushKeeps(src: seq<Byte>, out: seq<Edit>, prev: Edit, seen: seq<Edit>, e: Edit)
    requires Pending(src, out, prev, seen) && prev.end <= e.start <= e.end <= |src|
    requires NL in src[prev.end..e.start]
    ensures Pending(src, out + [Expand(src, prev)], e, seen + [e])
  {
    var x := Expand(src, prev);
    ExpandOut(src, out, prev);
    ExpandWhole(src, prev);
    NewlineBetween(src, prev.end, e.start);
    FrontOfAppend(out, x);
    Append(src, out + [x], e);
    Append(src, seen, e);
    Collections.Join(src, prev.end, x.end, e.start);
    Collections.Associative(Out(src, out + [prev]), src[prev.end..x.end], src[x.end..e.start]);
  }

  lemma NewlineBetween(src: seq<Byte>, p: nat, q: nat)
    requires p <= q <= |src| && NL in src[p..q]
    ensures p < |src| && LineEnd(src, p) <= LineStart(src, q) && LineBreak(src, LineEnd(src, p))
  {
    var i :| 0 <= i < q - p && src[p..q][i] == NL;
    assert src[p + i] == NL;
  }
}
