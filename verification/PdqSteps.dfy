/** How the tree of the quicksort runs: one comparison or exchange at a time. */
module PdqSteps {
  import opened Orders
  import opened Sorters
  import opened PdqTree

  // ----- insertion sort

  lemma SinkStep<T>(less: (T, T) -> bool, s: seq<T>, t: seq<T>, a: int, j: int, p: int)
    requires 0 <= a < j < |s| && p == j - 1 && less(s[j], s[p]) && Exchange(s, t, j, p)
    ensures Eval(SinkTree(a, j), less, s) == Eval(SinkTree(a, p), less, t)
  {
    LessStep(Swap(j, p, SinkTree(a, p)), Done(()), less, s, j, p);
    SwapStep(SinkTree(a, p), less, s, t, j, p);
  }

  lemma SinkEnd<T>(less: (T, T) -> bool, s: seq<T>, a: int, j: int)
    requires 0 <= a <= j < |s| && (j == a || !less(s[j], s[j - 1]))
    ensures Eval(SinkTree(a, j), less, s) == ((), s)
  {
    if j > a {
      LessStep(Swap(j, j - 1, SinkTree(a, j - 1)), Done(()), less, s, j, j - 1);
    }
  }

  lemma InsertionStep<T>(less: (T, T) -> bool, s: seq<T>, t: seq<T>, a: int, b: int, i: int, p: int)
    requires i < b && p == i + 1 && Eval(SinkTree(a, i), less, s) == ((), t)
    ensures Eval(InsertionTree(a, b, i), less, s) == Eval(InsertionTree(a, b, p), less, t)
  {
    EvalThen(SinkTree(a, i), InsertionTree(a, b, p), less, s);
  }

  lemma RiseStep<T>(less: (T, T) -> bool, s: seq<T>, t: seq<T>, j: int, b: int, p: int)
    requires 0 < j < b <= |s| && p == j + 1 && less(s[j], s[j - 1]) && Exchange(s, t, j, j - 1)
    ensures Eval(RiseTree(j, b), less, s) == Eval(RiseTree(p, b), less, t)
  {
    LessStep(Swap(j, j - 1, RiseTree(p, b)), Done(()), less, s, j, j - 1);
    SwapStep(RiseTree(p, b), less, s, t, j, j - 1);
  }

  lemma RiseEnd<T>(less: (T, T) -> bool, s: seq<T>, j: int, b: int)
    requires 0 < j <= b <= |s| && (j == b || !less(s[j], s[j - 1]))
    ensures Eval(RiseTree(j, b), less, s) == ((), s)
  {
    if j < b {
      LessStep(Swap(j, j - 1, RiseTree(j + 1, b)), Done(()), less, s, j, j - 1);
    }
  }

  // ----- heap sort

  lemma ChildStep<T>(less: (T, T) -> bool, s: seq<T>, root: int, child: int, hi: int, first: int)
    requires 0 <= root && 0 <= first && first + hi <= |s| && 2 * root + 1 < hi
    requires var c := 2 * root + 1;
             child == if c + 1 < hi && less(s[first + c], s[first + c + 1]) then c + 1 else c
    ensures Eval(SiftTree(root, hi, first), less, s) == Eval(SiftAt(root, child, hi, first), less, s)
  {
    var c := 2 * root + 1;
    if c + 1 < hi {
      LessStep(SiftAt(root, c + 1, hi, first), SiftAt(root, c, hi, first), less, s, first + c, first + c + 1);
    }
  }

  lemma SiftDownStep<T>(less: (T, T) -> bool, s: seq<T>, t: seq<T>, root: int, child: int, hi: int, first: int)
    requires 0 <= root < child < hi && 0 <= first && first + hi <= |s| && less(s[first + root], s[first + child])
    requires Exchange(s, t, first + root, first + child)
    ensures Eval(SiftAt(root, child, hi, first), less, s) == Eval(SiftTree(child, hi, first), less, t)
  {
    var i, j := first + root, first + child;
    LessStep(Swap(i, j, SiftTree(child, hi, first)), Done(()), less, s, i, j);
    SwapStep(SiftTree(child, hi, first), less, s, t, i, j);
  }

  lemma SiftDownEnd<T>(less: (T, T) -> bool, s: seq<T>, root: int, child: int, hi: int, first: int)
    requires 0 <= root < child < hi && 0 <= first && first + hi <= |s| && !less(s[first + root], s[first + child])
    ensures Eval(SiftAt(root, child, hi, first), less, s) == ((), s)
  {
    var i, j := first + root, first + child;
    LessStep(Swap(i, j, SiftTree(child, hi, first)), Done(()), less, s, i, j);
  }

  lemma SiftNone<T>(less: (T, T) -> bool, s: seq<T>, root: int, hi: int, first: int)
    requires 0 <= root && 2 * root + 1 >= hi
    ensures Eval(SiftTree(root, hi, first), less, s) == ((), s)
  {
  }

  lemma BuildStep<T>(less: (T, T) -> bool, s: seq<T>, t: seq<T>, first: int, hi: int, i: int, p: int)
    requires 0 <= i && p == i - 1 && Eval(SiftTree(i, hi, first), less, s) == ((), t)
    ensures Eval(BuildTree(first, hi, i), less, s) == Eval(BuildTree(first, hi, p), less, t)
  {
    EvalThen(SiftTree(i, hi, first), BuildTree(first, hi, p), less, s);
  }

  lemma PopStep<T>(less: (T, T) -> bool, s: seq<T>, t: seq<T>, u: seq<T>, first: int, i: int, p: int)
    requires 0 <= first && 0 <= i && p == i - 1 && first + i < |s| && Exchange(s, t, first, first + i)
    requires Eval(SiftTree(0, i, first), less, t) == ((), u)
    ensures Eval(PopTree(first, i), less, s) == Eval(PopTree(first, p), less, u)
  {
    var sift, rest := SiftTree(0, i, first), PopTree(first, p);
    SwapStep(Then(sift, rest), less, s, t, first, first + i);
    EvalThen(sift, rest, less, t);
  }

  lemma HeapSteps<T>(less: (T, T) -> bool, s: seq<T>, t: seq<T>, u: seq<T>, a: int, b: int)
    requires a <= b && Eval(BuildTree(a, b - a, LastParent(b - a)), less, s) == ((), t)
    requires Eval(PopTree(a, b - a - 1), less, t) == ((), u)
    ensures Eval(HeapTree(a, b), less, s) == ((), u)
  {
    EvalThen(BuildTree(a, b - a, LastParent(b - a)), PopTree(a, b - a - 1), less, s);
  }

  // ----- partitions

  /** The answer that FrontTree asks for. */
  predicate InFront<T>(less: (T, T) -> bool, equal: bool, pivot: T, x: T) {
    if equal then !less(pivot, x) else less(x, pivot)
  }

  /** Where a scan leads. */
  function Scanned(equal: bool, a: int, p: int, q: int, first: bool): Sorter<(int, int, bool)> {
    if p <= q then AcrossTree(equal, a, p, q) else Done((p, q, first))
  }

  lemma FrontStep<R, T>(yes: Sorter<R>, no: Sorter<R>, less: (T, T) -> bool, s: seq<T>, equal: bool, a: int, p: int)
    requires 0 <= a < |s| && 0 <= p < |s|
    ensures Eval(FrontTree(equal, a, p, yes, no), less, s) ==
            Eval(if InFront(less, equal, s[a], s[p]) then yes else no, less, s)
  {
    if equal {
      LessStep(no, yes, less, s, a, p);
    } else {
      LessStep(yes, no, less, s, p, a);
    }
  }

  lemma UpStep<T>(less: (T, T) -> bool, s: seq<T>, equal: bool, a: int, p: int, q: int, first: bool, next: int)
    requires 0 <= a < |s| && 0 <= p <= q < |s| && next == p + 1
    ensures Eval(UpTree(equal, a, p, q, first), less, s) ==
            if InFront(less, equal, s[a], s[p]) then Eval(UpTree(equal, a, next, q, first), less, s)
            else Eval(DownTree(equal, a, p, q, first), less, s)
  {
    FrontStep(UpTree(equal, a, next, q, first), DownTree(equal, a, p, q, first), less, s, equal, a, p);
  }

  lemma DownStep<T>(less: (T, T) -> bool, s: seq<T>, equal: bool, a: int, p: int, q: int, first: bool, next: int)
    requires 0 <= a < |s| && 0 <= p <= q < |s| && next == q - 1
    ensures Eval(DownTree(equal, a, p, q, first), less, s) ==
            if InFront(less, equal, s[a], s[q]) then Eval(AcrossTree(equal, a, p, q), less, s)
            else Eval(DownTree(equal, a, p, next, first), less, s)
  {
    FrontStep(AcrossTree(equal, a, p, q), DownTree(equal, a, p, next, first), less, s, equal, a, q);
  }

  lemma AcrossStep<T>(less: (T, T) -> bool, s: seq<T>, t: seq<T>, equal: bool, a: int, p: int, q: int, p': int, q': int)
    requires 0 <= p <= q < |s| && p' == p + 1 && q' == q - 1 && Exchange(s, t, p, q)
    ensures Eval(AcrossTree(equal, a, p, q), less, s) == Eval(UpTree(equal, a, p', q', false), less, t)
  {
    SwapStep(UpTree(equal, a, p', q', false), less, s, t, p, q);
  }

  lemma PartitionSteps<T>(less: (T, T) -> bool, s: seq<T>, t: seq<T>, u: seq<T>, w: seq<T>,
                          a: int, b: int, pivot: int, front: int, mid: int, already: bool)
    requires 0 <= a <= pivot < b <= |s| && Exchange(s, t, a, pivot)
    requires Eval(UpTree(false, a, a + 1, b - 1, true), less, t) == ((front, mid, already), u)
    requires |u| == |s| && a <= mid < b && Exchange(u, w, mid, a)
    ensures Eval(PartitionTree(a, b, pivot), less, s) == ((mid, already), w)
  {
    var up := UpTree(false, a, a + 1, b - 1, true);
    SwapStep(Bind(up, PlaceTree(a)), less, s, t, a, pivot);
    EvalBind(up, PlaceTree(a), less, t);
    SwapStep(Done((mid, already)), less, u, w, mid, a);
  }

  lemma EqualSteps<T>(less: (T, T) -> bool, s: seq<T>, t: seq<T>, a: int, b: int, pivot: int)
    requires 0 <= a <= pivot < b <= |s| && Exchange(s, t, a, pivot)
    ensures Eval(PartitionEqualTree(a, b, pivot), less, s) == Eval(UpTree(true, a, a + 1, b - 1, true), less, t)
  {
    SwapStep(UpTree(true, a, a + 1, b - 1, true), less, s, t, a, pivot);
  }

  // ----- rearranging

  lemma ReverseStep<T>(less: (T, T) -> bool, s: seq<T>, t: seq<T>, i: int, j: int, p: int, q: int)
    requires 0 <= i < j < |s| && Exchange(s, t, i, j) && p == i + 1 && q == j - 1
    ensures Eval(ReverseTree(i, j), less, s) == Eval(ReverseTree(p, q), less, t)
  {
    SwapStep(ReverseTree(p, q), less, s, t, i, j);
  }

  lemma BreakStep<T>(less: (T, T) -> bool, s: seq<T>, t: seq<T>, a: int, idx: int, last: int, random: nat, length: nat,
                     other: nat, p: int, next: nat)
    requires 0 < length && 0 <= a && a + length <= |s| && 0 <= idx <= last < |s|
    requires p == idx + 1 && next == NextRandom(random) && other == Wrapped(next, length)
    requires Exchange(s, t, idx, a + other)
    ensures Eval(BreakFrom(a, idx, last, random, length), less, s) == Eval(BreakFrom(a, p, last, next, length), less, t)
  {
    var rest := BreakFrom(a, p, last, next, length);
    BreakFirst(a, idx, last, random, length, other, rest);
    SwapStep(rest, less, s, t, idx, a + other);
  }

  lemma BreakFirst(a: int, idx: int, last: int, random: nat, length: nat, other: nat, rest: Sorter<()>)
    requires 0 < length && idx <= last && other == Wrapped(NextRandom(random), length)
    requires rest == BreakFrom(a, idx + 1, last, NextRandom(random), length)
    ensures BreakFrom(a, idx, last, random, length) == Swap(idx, a + other, rest)
  {
  }

  lemma BreakSteps<T>(less: (T, T) -> bool, s: seq<T>, a: int, b: int, start: int, last: int)
    requires b - a >= 8 && start == a + (b - a) / 4 * 2 - 1 && last == start + 2
    ensures Eval(BreakTree(a, b), less, s) == Eval(BreakFrom(a, start, last, b - a, b - a), less, s)
  {
  }

  // ----- choosing a pivot

  /** The two indices in order. */
  predicate Ordered2<T>(less: (T, T) -> bool, s: seq<T>, a: int, b: int, x: int, y: int, swaps: nat, n: nat)
    requires 0 <= a < |s| && 0 <= b < |s|
  {
    if less(s[b], s[a]) then x == b && y == a && n == swaps + 1 else x == a && y == b && n == swaps
  }

  lemma MedianSteps<T>(less: (T, T) -> bool, s: seq<T>, use: Use, a: int, b: int, c: int, swaps: nat,
                       x: int, y: int, n: nat, y': int, z: int, n': nat, w: int, m: int, n'': nat)
    requires 0 <= a < |s| && 0 <= b < |s| && 0 <= c < |s|
    requires Ordered2(less, s, a, b, x, y, swaps, n) && Ordered2(less, s, y, c, y', z, n, n')
    requires Ordered2(less, s, x, y', w, m, n', n'')
    ensures Eval(MedianTree(use, a, b, c, swaps), less, s) == Eval(UseTree(use, m, n''), less, s)
  {
    LessStep(MedianOf(use, b, a, c, swaps + 1), MedianOf(use, a, b, c, swaps), less, s, b, a);
    LessStep(Upper(use, x, c, n + 1), Upper(use, x, y, n), less, s, c, y);
    LessStep(UseTree(use, x, n' + 1), UseTree(use, y', n'), less, s, y', x);
  }

  lemma ChooseSteps<T>(less: (T, T) -> bool, s: seq<T>, a: int, b: int, i: int, j: int, k: int)
    requires i == a + (b - a) / 4 && j == a + (b - a) / 4 * 2 && k == a + (b - a) / 4 * 3
    ensures b - a >= 50 ==>
              Eval(ChooseTree(a, b), less, s) == Eval(MedianTree(First(j, k), i - 1, i, i + 1, 0), less, s)
    ensures 8 <= b - a < 50 ==> Eval(ChooseTree(a, b), less, s) == Eval(MedianTree(Last, i, j, k, 0), less, s)
    ensures b - a < 8 ==> Eval(ChooseTree(a, b), less, s) == ((j, HintOf(0)), s)
  {
  }

  // ----- ranges that may be sorted already

  lemma AscendStep<T>(less: (T, T) -> bool, s: seq<T>, a: int, b: int, i: int, step: nat, p: int)
    requires step < 5 && 0 < i < b <= |s| && p == i + 1
    ensures Eval(AscendTree(a, b, i, step), less, s) ==
            if less(s[i], s[i - 1]) then Eval(ShiftTree(a, b, i, step), less, s)
            else Eval(AscendTree(a, b, p, step), less, s)
  {
    LessStep(ShiftTree(a, b, i, step), AscendTree(a, b, p, step), less, s, i, i - 1);
  }

  lemma ShiftSteps<T>(less: (T, T) -> bool, s: seq<T>, t: seq<T>, u: seq<T>, w: seq<T>, a: int, b: int, i: int,
                      step: nat)
    requires step < 5 && 0 <= a < i < b <= |s| && b - a >= 50 && Exchange(s, t, i, i - 1)
    requires if i - a >= 2 then Eval(SinkTree(0, i - 1), less, t) == ((), u) else u == t
    requires if b - i >= 2 then Eval(RiseTree(i + 1, b), less, u) == ((), w) else w == u
    ensures Eval(ShiftTree(a, b, i, step), less, s) == Eval(PartialTree(a, b, i, step + 1), less, w)
  {
    var left := if i - a >= 2 then SinkTree(0, i - 1) else Done(());
    var right := if b - i >= 2 then RiseTree(i + 1, b) else Done(());
    SwapStep(Then(left, Then(right, PartialTree(a, b, i, step + 1))), less, s, t, i, i - 1);
    EvalThen(left, Then(right, PartialTree(a, b, i, step + 1)), less, t);
    EvalThen(right, PartialTree(a, b, i, step + 1), less, u);
  }

  // ----- the sort

  lemma ReadySteps<T>(less: (T, T) -> bool, s: seq<T>, t: seq<T>, u: seq<T>, lo: int, hi: int,
                      balanced: bool, partitioned: bool, r: (int, Hint), pivot: int, try: bool)
    requires if balanced then t == s else Eval(BreakTree(lo, hi), less, s) == ((), t)
    requires Eval(ChooseTree(lo, hi), less, t) == (r, t)
    requires if r.1 == Decreasing then Eval(ReverseTree(lo, hi - 1), less, t) == ((), u) else u == t
    requires pivot == if r.1 == Decreasing then hi - 1 - (r.0 - lo) else r.0
    requires try == (balanced && partitioned && r.1 != UnknownHint)
    ensures Eval(ReadyTree(lo, hi, balanced, partitioned), less, s) == Eval(TryTree(lo, hi, pivot, try), less, u)
  {
    var steady := balanced && partitioned;
    var before := if balanced then Done(()) else BreakTree(lo, hi);
    EvalThen(before, Bind(ChooseTree(lo, hi), ChosenTree(lo, hi, steady)), less, s);
    EvalBind(ChooseTree(lo, hi), ChosenTree(lo, hi, steady), less, t);
    if r.1 == Decreasing {
      EvalThen(ReverseTree(lo, hi - 1), TryTree(lo, hi, pivot, steady), less, t);
    }
  }

  lemma TrySteps<T>(less: (T, T) -> bool, s: seq<T>, t: seq<T>, lo: int, hi: int, pivot: int, try: bool, done: bool)
    requires if try then Eval(PartialTree(lo, hi, lo + 1, 0), less, s) == (done, t) else t == s && !done
    ensures Eval(TryTree(lo, hi, pivot, try), less, s) == ((pivot, done), t)
  {
    if try {
      EvalBind(PartialTree(lo, hi, lo + 1, 0), WithPivot(pivot), less, s);
    }
  }

  /** One turn of the loop, up to the partition. */
  lemma TurnSteps<T>(less: (T, T) -> bool, s: seq<T>, t: seq<T>, lo: int, hi: int, bad: nat, balanced: bool,
                     partitioned: bool, pivot: int, done: bool, bad': nat)
    requires 0 <= lo <= pivot < hi <= |t| && hi - lo > 12 && bad > 0 && bad' == if balanced then bad else bad - 1
    requires Eval(ReadyTree(lo, hi, balanced, partitioned), less, s) == ((pivot, done), t)
    ensures Eval(Pdq(lo, hi, bad, balanced, partitioned), less, s) ==
            if done then ((), t)
            else if lo > 0 && !less(t[lo - 1], t[pivot])
            then Eval(SkipTree(lo, hi, bad', balanced, partitioned, pivot), less, t)
            else Eval(DivideTree(lo, hi, bad', pivot), less, t)
  {
    EvalBind(ReadyTree(lo, hi, balanced, partitioned), AfterReady(lo, hi, bad', balanced, partitioned), less, s);
    if !done && lo > 0 {
      var divide, skip := DivideTree(lo, hi, bad', pivot), SkipTree(lo, hi, bad', balanced, partitioned, pivot);
      LessStep(divide, skip, less, t, lo - 1, pivot);
    }
  }

  lemma SkipSteps<T>(less: (T, T) -> bool, s: seq<T>, t: seq<T>, lo: int, hi: int, bad: nat, balanced: bool,
                     partitioned: bool, pivot: int, mid: int)
    requires lo < mid <= hi
    requires Eval(PartitionEqualTree(lo, hi, pivot), less, s).0.0 == mid
    requires Eval(PartitionEqualTree(lo, hi, pivot), less, s).1 == t
    ensures Eval(SkipTree(lo, hi, bad, balanced, partitioned, pivot), less, s) ==
            Eval(Pdq(mid, hi, bad, balanced, partitioned), less, t)
  {
    EvalBind(PartitionEqualTree(lo, hi, pivot), AfterSkip(lo, hi, bad, balanced, partitioned), less, s);
  }

  /** The partition, and the shorter side. The loop goes on with the other one. */
  lemma DivideSteps<T>(less: (T, T) -> bool, s: seq<T>, t: seq<T>, u: seq<T>, lo: int, hi: int, bad: nat, pivot: int,
                       mid: int, partitioned: bool, from: int, to: int, balanced: bool)
    requires lo <= mid < hi && Eval(PartitionTree(lo, hi, pivot), less, s) == ((mid, partitioned), t)
    requires if mid - lo < hi - mid
             then && Eval(Pdq(lo, mid, bad, true, true), less, t) == ((), u)
                  && from == mid + 1 && to == hi && balanced == (mid - lo >= (hi - lo) / 8)
             else && Eval(Pdq(mid + 1, hi, bad, true, true), less, t) == ((), u)
                  && from == lo && to == mid && balanced == (hi - mid >= (hi - lo) / 8)
    ensures Eval(DivideTree(lo, hi, bad, pivot), less, s) == Eval(Pdq(from, to, bad, balanced, partitioned), less, u)
  {
    EvalBind(PartitionTree(lo, hi, pivot), AfterDivide(lo, hi, bad), less, s);
    var shorter := if mid - lo < hi - mid then Pdq(lo, mid, bad, true, true) else Pdq(mid + 1, hi, bad, true, true);
    var other := Pdq(from, to, bad, balanced, partitioned);
    SidesInOrder(lo, hi, bad, mid, partitioned, shorter, other);
    EvalThen(shorter, other, less, t);
  }

  lemma SidesInOrder(lo: int, hi: int, bad: nat, mid: int, partitioned: bool, shorter: Sorter<()>, other: Sorter<()>)
    requires lo <= mid < hi
    requires if mid - lo < hi - mid
             then && shorter == Pdq(lo, mid, bad, true, true)
                  && other == Pdq(mid + 1, hi, bad, mid - lo >= (hi - lo) / 8, partitioned)
             else && shorter == Pdq(mid + 1, hi, bad, true, true)
                  && other == Pdq(lo, mid, bad, hi - mid >= (hi - lo) / 8, partitioned)
    ensures AfterDivide(lo, hi, bad)((mid, partitioned)) == Then(shorter, other)
  {
  }
}
