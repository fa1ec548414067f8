/** Go's pattern-defeating quicksort, in place: insertion sort for short ranges, heap sort when too
    many pivots were bad, and partitions between. For every strict weak order it sorts. */
module Pdqsort {
  import opened Orders
  import opened PdqSteps
  import opened PdqTree
  import opened Sorters

  // ----- insertion sort

  /** Sorts the range; equal elements keep their order. */
  method InsertionSort<T(!new)>(v: array<T>, less: (T, T) -> bool, a: int, b: int)
    requires WeakOrder(less) && 0 <= a <= b <= v.Length
    modifies v
    ensures Sorted(less, v[..], a, b) && Moved(old(v[..]), v[..], a, b) && Stable(less, old(v[..]), v[..])
    ensures Sorted(less, old(v[..]), a, b) ==> v[..] == old(v[..])
    ensures Eval(InsertionTree(a, b, a + 1), less, old(v[..])) == ((), v[..])
  {
    ghost var s := v[..];
    var i := a + 1;
    while i < b
      invariant a < i && (i <= b || i == a + 1) && Sorted(less, v[..], a, if i <= b then i else b)
      invariant Moved(s, v[..], a, b) && Stable(less, s, v[..]) && (Sorted(less, s, a, b) ==> v[..] == s)
      invariant Eval(InsertionTree(a, b, i), less, v[..]) == Eval(InsertionTree(a, b, a + 1), less, s)
    {
      ghost var t, p := v[..], i;
      Sink(v, less, a, b, i);
      MovedTwice(s, t, v[..], a, b);
      StableTwice(less, s, t, v[..]);
      i := i + 1;
      InsertionStep(less, t, v[..], a, b, p, i);
    }
  }

  /** Its inner loop: element i goes down to its place among those before it. */
  method Sink<T(!new)>(v: array<T>, less: (T, T) -> bool, a: int, b: int, i: int)
    requires WeakOrder(less) && 0 <= a < i < b <= v.Length && Sorted(less, v[..], a, i)
    modifies v
    ensures Sorted(less, v[..], a, i + 1) && Moved(old(v[..]), v[..], a, b) && Stable(less, old(v[..]), v[..])
    ensures !less(old(v[i]), old(v[i - 1])) ==> v[..] == old(v[..])
    ensures Eval(SinkTree(a, i), less, old(v[..])) == ((), v[..])
  {
    ghost var s := v[..];
    var j := i;
    RotateNone(s, i, i + 1);
    while j > a && less(v[j], v[j - 1])
      invariant a <= j <= i && v[..] == Rotated(s, j, i, i + 1) && (!less(s[i], s[i - 1]) ==> j == i)
      invariant forall k :: j <= k < i ==> less(s[i], s[k])
      invariant Eval(SinkTree(a, j), less, v[..]) == Eval(SinkTree(a, i), less, s)
    {
      j := SinkOne(v, s, less, a, j, i);
    }
    SinkEnd(less, v[..], a, j);
    SunkTo(s, j, i);
    SunkSorted(less, s, a, j, i);
    SunkStable(less, s, a, j, i, b);
  }

  /** One step of it. */
  method SinkOne<T>(v: array<T>, ghost s: seq<T>, ghost less: (T, T) -> bool, ghost a: int, j: int, ghost i: int)
    returns (p: int)
    requires 0 <= a < j <= i < |s| && v[..] == Rotated(s, j, i, i + 1) && |s| == v.Length && less(v[j], v[j - 1])
    modifies v
    ensures p == j - 1 && v[..] == Rotated(s, p, i, i + 1) && less(s[i], s[p])
    ensures Eval(SinkTree(a, j), less, old(v[..])) == Eval(SinkTree(a, p), less, v[..])
  {
    ghost var t := v[..];
    p := j - 1;
    SunkTo(s, j, i);
    Orders.Swap(v, j, p);
    SinkStep(less, t, v[..], a, j, p);
  }

  lemma SunkTo<T>(s: seq<T>, j: int, i: int)
    requires 0 <= j <= i < |s|
    ensures var t := Rotated(s, j, i, i + 1);
            && |t| == |s| && t[j] == s[i]
            && (j > 0 ==> t[j - 1] == s[j - 1] && Exchanged(t, j, j - 1) == Rotated(s, j - 1, i, i + 1))
  {
    RotatedAt(s, j, i, i + 1);
    if j > 0 {
      RotateDown(s, j, i);
    }
  }

  lemma SunkSorted<T(!new)>(less: (T, T) -> bool, s: seq<T>, a: int, j: int, i: int)
    requires WeakOrder(less) && 0 <= a <= j <= i < |s| && Sorted(less, s, a, i)
    requires (forall k :: j <= k < i ==> less(s[i], s[k])) && (j > a ==> !less(s[i], s[j - 1]))
    ensures |Rotated(s, j, i, i + 1)| == |s| && Sorted(less, Rotated(s, j, i, i + 1), a, i + 1)
  {
    var t := Rotated(s, j, i, i + 1);
    RotatedAt(s, j, i, i + 1);
    forall p | a <= p < j ensures !less(s[i], s[p]) {
      if p < j - 1 {
        Between(less, s[p], s[j - 1], s[i]);
      }
    }
    forall p, q | a <= p < q < i + 1 ensures !less(t[q], t[p]) {
      assert t[p] == if p < j then s[p] else if p == j then s[i] else s[p - 1];
      assert t[q] == if q < j then s[q] else if q == j then s[i] else s[q - 1];
    }
  }

  lemma SunkStable<T(!new)>(less: (T, T) -> bool, s: seq<T>, a: int, j: int, i: int, b: int)
    requires WeakOrder(less) && 0 <= a <= j <= i < b <= |s| && forall k :: j <= k < i ==> less(s[i], s[k])
    ensures Moved(s, Rotated(s, j, i, i + 1), a, b) && Stable(less, s, Rotated(s, j, i, i + 1))
  {
    RotateMoves(s, j, i, i + 1);
    MovedWithin(s, Rotated(s, j, i, i + 1), j, i + 1, a, b);
    RotateStable(less, s, j, i, i + 1);
  }

  // ----- heap sort

  /** In the heap from first on, element p does not belong before element c. */
  ghost predicate AtLeast<T>(less: (T, T) -> bool, s: seq<T>, first: int, p: int, c: int)
    requires 0 <= first && 0 <= p && first + p < |s| && 0 <= c && first + c < |s|
  {
    !less(s[first + p], s[first + c])
  }

  ghost predicate InHeap<T>(less: (T, T) -> bool, s: seq<T>, first: int, c: int)
    requires 0 <= first && 0 < c && first + c < |s|
  {
    AtLeast(less, s, first, (c - 1) / 2, c)
  }

  /** The heap of hi elements is right from parent lo on. */
  ghost predicate Heap<T>(less: (T, T) -> bool, s: seq<T>, first: int, lo: int, hi: int)
    requires 0 <= first && first + hi <= |s|
  {
    forall c :: 0 < c < hi && lo <= (c - 1) / 2 ==> InHeap(less, s, first, c)
  }

  /** It is right but for the children of root, and these fit below the parent of root. */
  ghost predicate HeapBut<T>(less: (T, T) -> bool, s: seq<T>, first: int, lo: int, hi: int, root: int)
    requires 0 <= first && first + hi <= |s| && 0 <= root <= hi
  {
    && (forall c :: 0 < c < hi && lo <= (c - 1) / 2 != root ==> InHeap(less, s, first, c))
    && (0 < root && lo <= (root - 1) / 2 ==> FitsOver(less, s, first, hi, root, (root - 1) / 2))
  }

  /** The children of root do not belong behind element p. */
  ghost predicate FitsOver<T>(less: (T, T) -> bool, s: seq<T>, first: int, hi: int, root: int, p: int)
    requires 0 <= first && 0 <= p && first + p < |s| && first + hi <= |s|
  {
    forall c :: 0 < c < hi && (c - 1) / 2 == root ==> AtLeast(less, s, first, p, c)
  }

  method SiftDown<T(!new)>(v: array<T>, less: (T, T) -> bool, lo: int, hi: int, first: int)
    requires WeakOrder(less) && 0 <= lo <= hi && 0 <= first && first + hi <= v.Length
    requires HeapBut(less, v[..], first, lo, hi, lo)
    modifies v
    ensures Heap(less, v[..], first, lo, hi) && Moved(old(v[..]), v[..], first + lo, first + hi)
    ensures Eval(SiftTree(lo, hi, first), less, old(v[..])) == ((), v[..])
  {
    ghost var s := v[..];
    var root := lo;
    while 2 * root + 1 < hi
      invariant lo <= root <= hi && HeapBut(less, v[..], first, lo, hi, root)
      invariant Moved(s, v[..], first + lo, first + hi)
      invariant Eval(SiftTree(root, hi, first), less, v[..]) == Eval(SiftTree(lo, hi, first), less, s)
      decreases hi - root
    {
      var child := GreatestChild(v, less, first, hi, root);
      if !less(v[first + root], v[first + child]) {
        SiftEnds(less, v[..], first, lo, hi, root, child);
        SiftDownEnd(less, v[..], root, child, hi, first);
        return;
      }
      SiftSwap(v, s, less, first, lo, hi, root, child);
      root := child;
    }
    SiftNone(less, v[..], root, hi, first);
  }

  method SiftSwap<T(!new)>(v: array<T>, ghost s: seq<T>, ghost less: (T, T) -> bool, first: int, ghost lo: int,
                           ghost hi: int, root: int, child: int)
    requires WeakOrder(less) && 0 <= first && first + hi <= v.Length && 0 <= lo <= root <= hi
    requires HeapBut(less, v[..], first, lo, hi, root) && Greatest(less, v[..], first, hi, root, child)
    requires less(v[first + root], v[first + child]) && Moved(s, v[..], first + lo, first + hi)
    modifies v
    ensures HeapBut(less, v[..], first, lo, hi, child) && Moved(s, v[..], first + lo, first + hi)
    ensures Eval(SiftAt(root, child, hi, first), less, old(v[..])) == Eval(SiftTree(child, hi, first), less, v[..])
  {
    ghost var t := v[..];
    SwapSince(v, s, first + root, first + child, first + lo, first + hi);
    SiftDownStep(less, t, v[..], root, child, hi, first);
    SiftStep(less, t, v[..], first, lo, hi, root, child);
  }

  method GreatestChild<T(!new)>(v: array<T>, less: (T, T) -> bool, first: int, hi: int, root: int) returns (child: int)
    requires WeakOrder(less) && 0 <= first && first + hi <= v.Length && 0 <= root && 2 * root + 1 < hi
    ensures Greatest(less, v[..], first, hi, root, child)
    ensures Eval(SiftTree(root, hi, first), less, v[..]) == Eval(SiftAt(root, child, hi, first), less, v[..])
  {
    child := 2 * root + 1;
    if child + 1 < hi && less(v[first + child], v[first + child + 1]) {
      child := child + 1;
    }
    ChildStep(less, v[..], root, child, hi, first);
    forall c | 0 < c < hi && (c - 1) / 2 == root ensures AtLeast(less, v[..], first, child, c) {
      assert c == 2 * root + 1 || c == 2 * root + 2;
    }
  }

  /** A child of root, and no child of root belongs behind it. */
  ghost predicate Greatest<T>(less: (T, T) -> bool, s: seq<T>, first: int, hi: int, root: int, child: int)
    requires 0 <= first && first + hi <= |s| && 0 <= root
  {
    0 < child < hi && (child - 1) / 2 == root && FitsOver(less, s, first, hi, root, child)
  }

  lemma SiftEnds<T(!new)>(less: (T, T) -> bool, s: seq<T>, first: int, lo: int, hi: int, root: int, child: int)
    requires WeakOrder(less) && 0 <= first && first + hi <= |s| && 0 <= lo <= root <= hi
    requires HeapBut(less, s, first, lo, hi, root) && Greatest(less, s, first, hi, root, child)
    requires !less(s[first + root], s[first + child])
    ensures Heap(less, s, first, lo, hi)
  {
    forall c | 0 < c < hi && lo <= (c - 1) / 2 ensures InHeap(less, s, first, c) {
      if (c - 1) / 2 == root {
        assert AtLeast(less, s, first, child, c);
        Between(less, s[first + c], s[first + child], s[first + root]);
      }
    }
  }

  lemma SiftStep<T(!new)>(less: (T, T) -> bool, s: seq<T>, t: seq<T>, first: int, lo: int, hi: int, root: int,
                          child: int)
    requires WeakOrder(less) && 0 <= first && first + hi <= |s| && 0 <= lo <= root <= hi
    requires HeapBut(less, s, first, lo, hi, root) && Greatest(less, s, first, hi, root, child)
    requires less(s[first + root], s[first + child]) && Exchange(s, t, first + root, first + child)
    ensures HeapBut(less, t, first, lo, hi, child)
  {
    forall c | 0 < c < hi && lo <= (c - 1) / 2 != child ensures InHeap(less, t, first, c) {
      if (c - 1) / 2 == root {
        assert AtLeast(less, s, first, child, c);
      } else {
        assert InHeap(less, s, first, c);
        assert c == root ==> AtLeast(less, s, first, (root - 1) / 2, child);
      }
    }
    forall c | 0 < c < hi && (c - 1) / 2 == child ensures AtLeast(less, t, first, root, c) {
      assert InHeap(less, s, first, c);
    }
  }

  lemma {:induction false} HeapTop<T(!new)>(less: (T, T) -> bool, s: seq<T>, first: int, hi: int, k: int)
    requires WeakOrder(less) && 0 <= first && first + hi <= |s| && Heap(less, s, first, 0, hi) && 0 <= k < hi
    ensures AtLeast(less, s, first, 0, k)
    decreases k
  {
    if k > 0 {
      HeapTop(less, s, first, hi, (k - 1) / 2);
      assert InHeap(less, s, first, k);
      Between(less, s[first + k], s[first + (k - 1) / 2], s[first]);
    }
  }

  method HeapSort<T(!new)>(v: array<T>, less: (T, T) -> bool, a: int, b: int)
    requires WeakOrder(less) && 0 <= a <= b <= v.Length
    modifies v
    ensures Sorted(less, v[..], a, b) && Moved(old(v[..]), v[..], a, b)
    ensures Eval(HeapTree(a, b), less, old(v[..])) == ((), v[..])
  {
    ghost var s := v[..];
    BuildHeap(v, less, a, b - a);
    ghost var built := v[..];
    var i := b - a - 1;
    while i >= 0
      invariant -1 <= i < b - a && Heap(less, v[..], a, 0, i + 1) && Moved(s, v[..], a, b)
      invariant Eval(PopTree(a, i), less, v[..]) == Eval(PopTree(a, b - a - 1), less, built)
      invariant Sorted(less, v[..], a + i + 1, b) && Split(less, v[..], a, a + i + 1, b)
    {
      ghost var t := v[..];
      i := PopMax(v, less, a, b, i);
      MovedTwice(s, t, v[..], a, b);
    }
    HeapSteps(less, s, built, v[..], a, b);
  }

  method BuildHeap<T(!new)>(v: array<T>, less: (T, T) -> bool, first: int, hi: int)
    requires WeakOrder(less) && 0 <= first && 0 <= hi && first + hi <= v.Length
    modifies v
    ensures Heap(less, v[..], first, 0, hi) && Moved(old(v[..]), v[..], first, first + hi)
    ensures Eval(BuildTree(first, hi, LastParent(hi)), less, old(v[..])) == ((), v[..])
  {
    ghost var s := v[..];
    var i := LastParent(hi);
    while i >= 0
      invariant -1 <= i <= hi && (i == hi ==> i == 0)
      invariant Eval(BuildTree(first, hi, i), less, v[..]) == Eval(BuildTree(first, hi, LastParent(hi)), less, s)
      invariant Heap(less, v[..], first, i + 1, hi) && Moved(s, v[..], first, first + hi)
    {
      ghost var t, p := v[..], i;
      Heapify(v, less, i, hi, first);
      MovedTwice(s, t, v[..], first, first + hi);
      i := i - 1;
      BuildStep(less, t, v[..], first, hi, p, i);
    }
  }

  /** One parent more. */
  method Heapify<T(!new)>(v: array<T>, less: (T, T) -> bool, i: int, hi: int, first: int)
    requires WeakOrder(less) && 0 <= i <= hi && 0 <= first
    requires first + hi <= v.Length && Heap(less, v[..], first, i + 1, hi)
    modifies v
    ensures Heap(less, v[..], first, i, hi) && Moved(old(v[..]), v[..], first, first + hi)
    ensures Eval(SiftTree(i, hi, first), less, old(v[..])) == ((), v[..])
  {
    ghost var s := v[..];
    SiftDown(v, less, i, hi, first);
    MovedWithin(s, v[..], first + i, first + hi, first, first + hi);
  }

  /** The greatest element of the heap goes behind the others. */
  method PopMax<T(!new)>(v: array<T>, less: (T, T) -> bool, a: int, ghost b: int, i: int) returns (next: int)
    requires WeakOrder(less) && 0 <= a <= b <= v.Length && 0 <= i < b - a && Heap(less, v[..], a, 0, i + 1)
    requires Sorted(less, v[..], a + i + 1, b) && Split(less, v[..], a, a + i + 1, b)
    modifies v
    ensures next == i - 1 && Heap(less, v[..], a, 0, i) && Moved(old(v[..]), v[..], a, b)
    ensures Sorted(less, v[..], a + i, b) && Split(less, v[..], a, a + i, b)
    ensures Eval(PopTree(a, i), less, old(v[..])) == Eval(PopTree(a, next), less, v[..])
  {
    ghost var s := v[..];
    SwapIn(v, a, a + i, a, b);
    ghost var t := v[..];
    PopKeeps(less, s, t, a, b, i);
    SiftDown(v, less, 0, i, a);
    Popped(less, s, t, v[..], a, b, i);
    next := i - 1;
    PopStep(less, s, t, v[..], a, i, next);
  }

  lemma Popped<T>(less: (T, T) -> bool, s: seq<T>, t: seq<T>, u: seq<T>, a: int, b: int, i: int)
    requires 0 <= a <= b <= |s| && 0 <= i < b - a && Moved(s, t, a, b) && Moved(t, u, a, a + i)
    requires Sorted(less, t, a + i, b) && Split(less, t, a, a + i, b)
    ensures Moved(s, u, a, b) && Sorted(less, u, a + i, b) && Split(less, u, a, a + i, b)
  {
    PoppedMoved(s, t, u, a, b, i);
    MovedSplit(less, t, u, a, a + i, b, a, a + i);
    SortedElsewhere(less, t, u, a + i, b, a, a + i);
  }

  lemma PoppedMoved<T>(s: seq<T>, t: seq<T>, u: seq<T>, a: int, b: int, i: int)
    requires 0 <= a <= b <= |s| && 0 <= i < b - a && Moved(s, t, a, b) && Moved(t, u, a, a + i)
    ensures Moved(s, u, a, b)
  {
    MovedWithin(t, u, a, a + i, a, b);
    MovedTwice(s, t, u, a, b);
  }

  lemma PopKeeps<T(!new)>(less: (T, T) -> bool, s: seq<T>, t: seq<T>, a: int, b: int, i: int)
    requires WeakOrder(less) && 0 <= a <= b <= |s| && 0 <= i < b - a && Heap(less, s, a, 0, i + 1)
    requires Sorted(less, s, a + i + 1, b) && Split(less, s, a, a + i + 1, b) && Exchange(s, t, a, a + i)
    ensures HeapBut(less, t, a, 0, i, 0) && Sorted(less, t, a + i, b) && Split(less, t, a, a + i, b)
  {
    forall c | 0 < c < i && 0 != (c - 1) / 2 ensures InHeap(less, t, a, c) {
      assert InHeap(less, s, a, c);
    }
    forall p, q | a <= p < a + i <= q < b ensures !less(t[q], t[p]) {
      var k := if p == a then a + i else p;
      assert t[p] == s[k];
      if q == a + i {
        HeapTop(less, s, a, i + 1, k - a);
      }
    }
  }

  // ----- partitions

  /** The pivot is at a. Behind it and up to hi, elements before i belong to the front and those behind j
      to the back. */
  ghost predicate Parted<T>(less: (T, T) -> bool, equal: bool, s: seq<T>, a: int, i: int, j: int, hi: int)
    requires 0 <= a < i && a < hi && j < hi <= |s|
  {
    && (forall k :: a < k < i && k < hi ==> InFront(less, equal, s[a], s[k]))
    && (forall k :: j < k < hi && a < k ==> !InFront(less, equal, s[a], s[k]))
  }

  /** Skips the elements at both ends that are where they belong. */
  method Scan<T>(v: array<T>, less: (T, T) -> bool, equal: bool, a: int, i: int, j: int, ghost hi: int,
                 ghost first: bool)
    returns (p: int, q: int)
    requires 0 <= a < i <= j + 1 <= hi <= v.Length && a < hi && Parted(less, equal, v[..], a, i, j, hi)
    ensures i <= p <= q + 1 <= j + 1 && Parted(less, equal, v[..], a, p, q, hi)
    ensures p <= q ==> p < q && !InFront(less, equal, v[a], v[p]) && InFront(less, equal, v[a], v[q])
    ensures Eval(UpTree(equal, a, i, j, first), less, v[..]) == Eval(Scanned(equal, a, p, q, first), less, v[..])
  {
    p := ScanUp(v, less, equal, a, i, j, hi, first);
    q := j;
    if p <= j {
      q := ScanDown(v, less, equal, a, p, j, hi, first);
    }
  }

  method ScanUp<T>(v: array<T>, less: (T, T) -> bool, equal: bool, a: int, i: int, j: int, ghost hi: int,
                   ghost first: bool)
    returns (p: int)
    requires 0 <= a < i <= j + 1 <= hi <= v.Length && a < hi && Parted(less, equal, v[..], a, i, j, hi)
    ensures i <= p <= j + 1 && Parted(less, equal, v[..], a, p, j, hi) && (p <= j ==> !InFront(less, equal, v[a], v[p]))
    ensures Eval(UpTree(equal, a, i, j, first), less, v[..]) == Eval(DownTree(equal, a, p, j, first), less, v[..])
  {
    ghost var run := Eval(UpTree(equal, a, i, j, first), less, v[..]);
    p := i;
    while p <= j && InFront(less, equal, v[a], v[p])
      invariant i <= p <= j + 1 && Parted(less, equal, v[..], a, p, j, hi)
      invariant Eval(UpTree(equal, a, p, j, first), less, v[..]) == run
    {
      p := p + 1;
      UpStep(less, v[..], equal, a, p - 1, j, first, p);
    }
    if p <= j {
      UpStep(less, v[..], equal, a, p, j, first, p + 1);
    }
  }

  method ScanDown<T>(v: array<T>, less: (T, T) -> bool, equal: bool, a: int, p: int, j: int, ghost hi: int,
                     ghost first: bool)
    returns (q: int)
    requires 0 <= a < p <= j < hi <= v.Length && Parted(less, equal, v[..], a, p, j, hi)
    ensures p <= q + 1 <= j + 1 && Parted(less, equal, v[..], a, p, q, hi)
    ensures p <= q ==> InFront(less, equal, v[a], v[q])
    ensures Eval(DownTree(equal, a, p, j, first), less, v[..]) == Eval(Scanned(equal, a, p, q, first), less, v[..])
  {
    ghost var run := Eval(DownTree(equal, a, p, j, first), less, v[..]);
    q := j;
    while p <= q && !InFront(less, equal, v[a], v[q])
      invariant p <= q + 1 <= j + 1 && Parted(less, equal, v[..], a, p, q, hi)
      invariant Eval(DownTree(equal, a, p, q, first), less, v[..]) == run
    {
      q := q - 1;
      DownStep(less, v[..], equal, a, p, q + 1, first, q);
    }
    if p <= q {
      DownStep(less, v[..], equal, a, p, q, first, q - 1);
    }
  }

  /** Exchanges one element that belongs to the back with one that belongs to the front. */
  method SwapAcross<T>(v: array<T>, ghost s: seq<T>, ghost less: (T, T) -> bool, ghost equal: bool, ghost a: int,
                       i: int, j: int, ghost hi: int)
    returns (p: int, q: int)
    requires 0 <= a < i < j < hi <= v.Length && Parted(less, equal, v[..], a, i, j, hi)
    requires !InFront(less, equal, v[a], v[i]) && InFront(less, equal, v[a], v[j]) && Moved(s, v[..], a + 1, hi)
    modifies v
    ensures p == i + 1 && q == j - 1 && Parted(less, equal, v[..], a, p, q, hi) && Moved(s, v[..], a + 1, hi)
    ensures Eval(AcrossTree(equal, a, i, j), less, old(v[..])) == Eval(UpTree(equal, a, p, q, false), less, v[..])
  {
    ghost var t := v[..];
    SwapSince(v, s, i, j, a + 1, hi);
    p, q := i + 1, j - 1;
    AcrossStep(less, t, v[..], equal, a, i, j, p, q);
    PartedAcross(less, equal, t, v[..], a, i, j, hi);
  }

  lemma PartedAcross<T>(less: (T, T) -> bool, equal: bool, s: seq<T>, t: seq<T>, a: int, i: int, j: int, hi: int)
    requires 0 <= a < i < j < hi <= |s| && Parted(less, equal, s, a, i, j, hi) && Exchange(s, t, i, j)
    requires !InFront(less, equal, s[a], s[i]) && InFront(less, equal, s[a], s[j])
    ensures Parted(less, equal, t, a, i + 1, j - 1, hi)
  {
  }

  /** The loop of both partitions. */
  method PartFrom<T>(v: array<T>, ghost s: seq<T>, less: (T, T) -> bool, equal: bool, a: int, start: int, end: int,
                     ghost hi: int, ghost first: bool)
    returns (i: int, j: int, ghost told: bool)
    requires 0 <= a < start <= end + 1 <= hi <= v.Length && a < hi && Parted(less, equal, v[..], a, start, end, hi)
    requires Moved(s, v[..], a + 1, hi)
    modifies v
    ensures a < i == j + 1 <= hi && Parted(less, equal, v[..], a, i, j, hi) && Moved(s, v[..], a + 1, hi)
    ensures Eval(UpTree(equal, a, start, end, first), less, old(v[..])) == ((i, j, told), v[..])
    ensures !first ==> !told
  {
    ghost var run := Eval(UpTree(equal, a, start, end, first), less, v[..]);
    i, j, told := start, end, first;
    while true
      invariant a < i <= j + 1 <= hi && Parted(less, equal, v[..], a, i, j, hi) && Moved(s, v[..], a + 1, hi)
      invariant Eval(UpTree(equal, a, i, j, told), less, v[..]) == run && (!first ==> !told)
      decreases j - i
    {
      i, j := Scan(v, less, equal, a, i, j, hi, told);
      if i > j {
        return;
      }
      i, j := SwapAcross(v, s, less, equal, a, i, j, hi);
      told := false;
    }
  }

  /** Elements before mid belong before the one at mid, and those behind it do not. */
  ghost predicate Partitioned<T>(less: (T, T) -> bool, s: seq<T>, a: int, mid: int, b: int)
    requires 0 <= a <= mid < b <= |s|
  {
    (forall k :: a <= k < mid ==> less(s[k], s[mid])) && (forall k :: mid < k < b ==> !less(s[k], s[mid]))
  }

  /** The pivot, at a, goes between the two sides. */
  method PlacePivot<T>(v: array<T>, ghost less: (T, T) -> bool, a: int, ghost b: int, mid: int)
    requires 0 <= a <= mid < b <= v.Length && Parted(less, false, v[..], a, mid + 1, mid, b)
    modifies v
    ensures Partitioned(less, v[..], a, mid, b) && Moved(old(v[..]), v[..], a, b) && Exchange(old(v[..]), v[..], mid, a)
  {
    ghost var s := v[..];
    SwapIn(v, mid, a, a, b);
    forall k | a <= k < mid ensures less(v[k], v[mid]) {
      assert InFront(less, false, s[a], s[if k == a then mid else k]);
    }
    forall k | mid < k < b ensures !less(v[k], v[mid]) {
      assert !InFront(less, false, s[a], s[k]);
    }
  }

  method Partition<T(!new)>(v: array<T>, less: (T, T) -> bool, a: int, b: int, pivot: int)
    returns (mid: int, already: bool)
    requires 0 <= a <= pivot < b <= v.Length
    modifies v
    ensures a <= mid < b && Partitioned(less, v[..], a, mid, b) && Moved(old(v[..]), v[..], a, b)
    ensures v[mid] == old(v[pivot]) && (already ==> Exchange(Exchanged(old(v[..]), a, pivot), v[..], mid, a))
    ensures Eval(PartitionTree(a, b, pivot), less, old(v[..])) == ((mid, already), v[..])
  {
    ghost var s := v[..];
    SwapIn(v, a, pivot, a, b);
    ghost var t, front := v[..], 0;
    front, mid, already := PartAround(v, less, a, b);
    MovedTwice(s, t, v[..], a, b);
    ghost var u := v[..];
    PlacePivot(v, less, a, b, mid);
    MovedTwice(s, u, v[..], a, b);
    PartitionSteps(less, s, t, u, v[..], a, b, pivot, front, mid, already);
  }

  /** Its two rounds, with the pivot at a. */
  method PartAround<T(!new)>(v: array<T>, less: (T, T) -> bool, a: int, b: int)
    returns (ghost front: int, mid: int, already: bool)
    requires 0 <= a < b <= v.Length
    modifies v
    ensures a <= mid < b && front == mid + 1 && Parted(less, false, v[..], a, front, mid, b) && v[a] == old(v[a])
    ensures Moved(old(v[..]), v[..], a, b) && (already ==> v[..] == old(v[..]))
    ensures Eval(UpTree(false, a, a + 1, b - 1, true), less, old(v[..])) == ((front, mid, already), v[..])
  {
    ghost var s := v[..];
    var i, j := Scan(v, less, false, a, a + 1, b - 1, b, true);
    already := i > j;
    if !already {
      i, j := SwapAcross(v, s, less, false, a, i, j, b);
      ghost var told;
      i, j, told := PartFrom(v, s, less, false, a, i, j, b, false);
    }
    PartMoved(s, v[..], a, b);
    front, mid := i, j;
  }

  lemma PartMoved<T>(s: seq<T>, t: seq<T>, a: int, b: int)
    requires 0 <= a < b <= |s| && Moved(s, t, a + 1, b)
    ensures Moved(s, t, a, b) && s[a] == t[a]
  {
    MovedElsewhere(s, t, a + 1, b);
    MovedWithin(s, t, a + 1, b, a, b);
  }

  /** For ranges without an element smaller than the pivot: those equal to it come first. */
  method PartitionEqual<T(!new)>(v: array<T>, less: (T, T) -> bool, a: int, b: int, pivot: int) returns (mid: int)
    requires WeakOrder(less) && 0 <= a <= pivot < b <= v.Length
    modifies v
    ensures a < mid <= b && NoneAbove(less, v[..], a, mid, old(v[pivot])) && Moved(old(v[..]), v[..], a, b)
    ensures forall k :: mid <= k < b ==> less(old(v[pivot]), v[k])
    ensures Eval(PartitionEqualTree(a, b, pivot), less, old(v[..])).0.0 == mid
    ensures Eval(PartitionEqualTree(a, b, pivot), less, old(v[..])).1 == v[..]
  {
    ghost var s := v[..];
    SwapIn(v, a, pivot, a, b);
    ghost var t, told := v[..], true;
    var last;
    mid, last, told := PartFrom(v, t, less, true, a, a + 1, b - 1, b, true);
    EqualSteps(less, s, t, a, b, pivot);
    EqualParts(less, t, v[..], a, mid, b);
    MovedTwice(s, t, v[..], a, b);
  }

  lemma EqualParts<T(!new)>(less: (T, T) -> bool, s: seq<T>, t: seq<T>, a: int, mid: int, b: int)
    requires WeakOrder(less) && 0 <= a < mid <= b <= |s|
    requires Moved(s, t, a + 1, b) && Parted(less, true, t, a, mid, mid - 1, b)
    ensures Moved(s, t, a, b) && NoneAbove(less, t, a, mid, s[a]) && forall k :: mid <= k < b ==> less(s[a], t[k])
  {
    MovedElsewhere(s, t, a + 1, b);
    MovedWithin(s, t, a + 1, b, a, b);
    forall k | a <= k < mid ensures !less(s[a], t[k]) {
      assert a < k ==> InFront(less, true, t[a], t[k]);
    }
    forall k | mid <= k < b ensures less(s[a], t[k]) {
      assert !InFront(less, true, t[a], t[k]);
    }
  }

  // ----- rearranging

  /** The elements from a to b, as far as i from both ends, in reverse. */
  ghost function Turned<T>(s: seq<T>, a: int, b: int, i: int): (t: seq<T>)
    requires 0 <= a <= i && b <= |s|
    ensures |t| == |s|
  {
    seq(|s|, k requires 0 <= k < |s| => if a <= k < b && (k < i || a + b - 1 - i < k) then s[a + b - 1 - k] else s[k])
  }

  lemma TurnOne<T>(s: seq<T>, t: seq<T>, a: int, b: int, i: int, j: int)
    requires 0 <= a <= i < j < b <= |s| && i + j == a + b - 1 && Exchange(Turned(s, a, b, i), t, i, j)
    ensures t == Turned(s, a, b, i + 1)
  {
  }

  method ReverseRange<T>(v: array<T>, ghost less: (T, T) -> bool, a: int, b: int)
    requires 0 <= a <= b <= v.Length
    modifies v
    ensures Moved(old(v[..]), v[..], a, b) && forall k :: a <= k < b ==> v[k] == old(v[a + b - 1 - k])
    ensures Eval(ReverseTree(a, b - 1), less, old(v[..])) == ((), v[..])
  {
    ghost var s := v[..];
    var i, j := a, b - 1;
    TurnedNone(s, a, b);
    while i < j
      invariant a <= i && i + j == a + b - 1 && i <= j + 1 && Moved(s, v[..], a, b) && v[..] == Turned(s, a, b, i)
      invariant Eval(ReverseTree(i, j), less, v[..]) == Eval(ReverseTree(a, b - 1), less, s)
    {
      ghost var t, p, q := v[..], i, j;
      SwapSince(v, s, i, j, a, b);
      TurnOne(s, v[..], a, b, i, j);
      i, j := i + 1, j - 1;
      ReverseStep(less, t, v[..], p, q, i, j);
    }
    TurnedAll(s, v[..], a, b, i);
  }

  lemma TurnedNone<T>(s: seq<T>, a: int, b: int)
    requires 0 <= a <= b <= |s|
    ensures Turned(s, a, b, a) == s && Moved(s, s, a, b)
  {
  }

  lemma TurnedAll<T>(s: seq<T>, t: seq<T>, a: int, b: int, i: int)
    requires 0 <= a <= i && b <= |s| && t == Turned(s, a, b, i) && a + b - 1 - i <= i
    ensures forall k :: a <= k < b ==> t[k] == s[a + b - 1 - k]
  {
  }

  /** Three elements from the middle change places with others. */
  method BreakPatterns<T>(v: array<T>, ghost less: (T, T) -> bool, a: int, b: int)
    requires 0 <= a <= b <= v.Length
    modifies v
    ensures Moved(old(v[..]), v[..], a, b) && Eval(BreakTree(a, b), less, old(v[..])) == ((), v[..])
  {
    var length := b - a;
    if length >= 8 {
      var idx := a + length / 4 * 2 - 1;
      BreakSteps(less, v[..], a, b, idx, idx + 2);
      BreakBetween(v, less, a, b, idx, idx + 2);
    }
  }

  /** Its loop. */
  method BreakBetween<T>(v: array<T>, ghost less: (T, T) -> bool, a: int, b: int, start: int, last: int)
    requires 0 <= a <= start <= last + 1 <= b <= v.Length && a < b
    modifies v
    ensures Moved(old(v[..]), v[..], a, b)
    ensures Eval(BreakFrom(a, start, last, b - a, b - a), less, old(v[..])) == ((), v[..])
  {
    ghost var s := v[..];
    var idx, random: nat := start, b - a;
    while idx <= last
      invariant start <= idx <= last + 1 && Moved(s, v[..], a, b)
      invariant Eval(BreakFrom(a, idx, last, random, b - a), less, v[..]) ==
                Eval(BreakFrom(a, start, last, b - a, b - a), less, s)
    {
      idx, random := BreakOne(v, s, less, a, b, idx, last, random);
    }
  }

  /** One of the three. */
  method BreakOne<T>(v: array<T>, ghost s: seq<T>, ghost less: (T, T) -> bool, a: int, b: int, idx: int,
                     ghost last: int, random: nat)
    returns (p: int, next: nat)
    requires 0 <= a <= idx <= last < b <= v.Length && Moved(s, v[..], a, b)
    modifies v
    ensures p == idx + 1 && Moved(s, v[..], a, b)
    ensures Eval(BreakFrom(a, idx, last, random, b - a), less, old(v[..])) ==
            Eval(BreakFrom(a, p, last, next, b - a), less, v[..])
  {
    ghost var t := v[..];
    p, next := idx + 1, NextRandom(random);
    var other := Wrapped(next, b - a);
    SwapSince(v, s, idx, a + other, a, b);
    BreakStep(less, t, v[..], a, idx, last, random, b - a, other, p, next);
  }

  // ----- choosing a pivot

  method Order2<T>(v: array<T>, less: (T, T) -> bool, a: int, b: int, swaps: nat) returns (x: int, y: int, n: nat)
    requires 0 <= a < v.Length && 0 <= b < v.Length
    ensures Ordered2(less, v[..], a, b, x, y, swaps, n)
  {
    if less(v[b], v[a]) {
      return b, a, swaps + 1;
    }
    return a, b, swaps;
  }

  /** Of the other two, one does not belong behind m and one not before it. */
  ghost predicate IsMedian<T>(less: (T, T) -> bool, s: seq<T>, m: int, p: int, q: int)
    requires 0 <= m < |s| && 0 <= p < |s| && 0 <= q < |s|
  {
    !less(s[m], s[p]) && !less(s[q], s[m])
  }

  method Median<T(!new)>(v: array<T>, less: (T, T) -> bool, a: int, b: int, c: int, swaps: nat, ghost use: Use)
    returns (m: int, n: nat, ghost p: int, ghost q: int)
    requires WeakOrder(less) && 0 <= a < v.Length && 0 <= b < v.Length && 0 <= c < v.Length
    ensures multiset{m, p, q} == multiset{a, b, c} && IsMedian(less, v[..], m, p, q) && swaps <= n <= swaps + 3
    ensures m == a || m == b || m == c
    ensures !less(v[b], v[a]) && !less(v[c], v[b]) ==> m == b && n == swaps
    ensures Eval(MedianTree(use, a, b, c, swaps), less, v[..]) == Eval(UseTree(use, m, n), less, v[..])
  {
    var x, y, k := Order2(v, less, a, b, swaps);
    var y', z, k' := Order2(v, less, y, c, k);
    assert !less(v[y], v[x]) && !less(v[z], v[y]);
    Between(less, v[x], v[y], v[z]);
    var w;
    w, m, n := Order2(v, less, x, y', k');
    p, q := w, z;
    MedianSteps(less, v[..], use, a, b, c, swaps, x, y, k, y', z, k', w, m, n);
  }

  /** A static pivot for short ranges, the median of three, or the median of three medians. */
  method ChoosePivot<T(!new)>(v: array<T>, less: (T, T) -> bool, a: int, b: int) returns (pivot: int, hint: Hint)
    requires WeakOrder(less) && 0 <= a < b <= v.Length
    ensures a <= pivot < b && (Sorted(less, v[..], a, b) ==> hint == Increasing)
    ensures Eval(ChooseTree(a, b), less, v[..]) == ((pivot, hint), v[..])
  {
    var l := b - a;
    var i, j, k := a + l / 4, a + l / 4 * 2, a + l / 4 * 3;
    ChooseSteps(less, v[..], a, b, i, j, k);
    if l >= 8 {
      var swaps;
      j, swaps := MedianOfMedians(v, less, a, b, i, j, k);
      return j, HintOf(swaps);
    }
    pivot, hint := j, HintOf(0);
  }

  method MedianOfMedians<T(!new)>(v: array<T>, less: (T, T) -> bool, a: int, b: int, i0: int, j0: int, k0: int)
    returns (m: int, swaps: nat)
    requires WeakOrder(less) && 0 <= a <= i0 < j0 < k0 < b <= v.Length && (b - a >= 50 ==> a < i0 && k0 < b - 1)
    ensures a <= m < b && (Sorted(less, v[..], a, b) ==> swaps == 0)
    ensures Eval(if b - a >= 50 then MedianTree(First(j0, k0), i0 - 1, i0, i0 + 1, 0)
                 else MedianTree(Last, i0, j0, k0, 0), less, v[..]) == ((m, HintOf(swaps)), v[..])
  {
    var i, j, k := i0, j0, k0;
    swaps := 0;
    InOrder(less, v[..], a, b, i, j, k);
    if b - a >= 50 {
      i, j, k, swaps := Ninther(v, less, i, j, k);
    }
    ghost var p, q;
    m, swaps, p, q := Median(v, less, i, j, k, swaps, Last);
  }

  lemma InOrder<T>(less: (T, T) -> bool, s: seq<T>, a: int, b: int, i: int, j: int, k: int)
    requires 0 <= a <= i < j < k < b <= |s|
    ensures Sorted(less, s, a, b) ==> !less(s[j], s[i]) && !less(s[k], s[j])
    ensures Sorted(less, s, a, b) && a < i && k < b - 1 ==>
              Centred(less, s, i) && Centred(less, s, j) && Centred(less, s, k)
  {
  }

  /** Three medians of neighbours. */
  method Ninther<T(!new)>(v: array<T>, less: (T, T) -> bool, i0: int, j0: int, k0: int)
    returns (i: int, j: int, k: int, swaps: nat)
    requires WeakOrder(less) && 0 < i0 < v.Length - 1 && 0 < j0 < v.Length - 1 && 0 < k0 < v.Length - 1
    ensures i0 - 1 <= i <= i0 + 1 && j0 - 1 <= j <= j0 + 1 && k0 - 1 <= k <= k0 + 1
    ensures Centred(less, v[..], i0) && Centred(less, v[..], j0) && Centred(less, v[..], k0) ==>
              i == i0 && j == j0 && k == k0 && swaps == 0
    ensures Eval(MedianTree(First(j0, k0), i0 - 1, i0, i0 + 1, 0), less, v[..]) ==
            Eval(MedianTree(Last, i, j, k, swaps), less, v[..])
  {
    i, swaps := MedianAdjacent(v, less, i0, 0, First(j0, k0));
    j, swaps := MedianAdjacent(v, less, j0, swaps, Second(i, k0));
    k, swaps := MedianAdjacent(v, less, k0, swaps, Third(i, j));
  }

  /** The element is in order with its neighbours. */
  ghost predicate Centred<T>(less: (T, T) -> bool, s: seq<T>, a: int)
    requires 0 < a < |s| - 1
  {
    !less(s[a], s[a - 1]) && !less(s[a + 1], s[a])
  }

  method MedianAdjacent<T(!new)>(v: array<T>, less: (T, T) -> bool, a: int, swaps: nat, ghost use: Use)
    returns (m: int, n: nat)
    requires WeakOrder(less) && 0 < a < v.Length - 1
    ensures a - 1 <= m <= a + 1 && (Centred(less, v[..], a) ==> m == a && n == swaps)
    ensures Eval(MedianTree(use, a - 1, a, a + 1, swaps), less, v[..]) == Eval(UseTree(use, m, n), less, v[..])
  {
    ghost var p, q;
    m, n, p, q := Median(v, less, a - 1, a, a + 1, swaps, use);
  }

  // ----- ranges that may be sorted already

  /** Shifts a few elements, and tells whether the range is sorted then. The element before the range,
      if there is one, stops what is shifted to the left. */
  method PartialInsertionSort<T(!new)>(v: array<T>, less: (T, T) -> bool, a: int, b: int) returns (sorted: bool)
    requires WeakOrder(less) && 0 <= a < b <= v.Length && Floored(less, v[..], a, b)
    modifies v
    ensures Moved(old(v[..]), v[..], a, b) && (sorted ==> Sorted(less, v[..], a, b))
    ensures Sorted(less, old(v[..]), a, b) ==> sorted && v[..] == old(v[..])
    ensures Eval(PartialTree(a, b, a + 1, 0), less, old(v[..])) == (sorted, v[..])
  {
    ghost var s := v[..];
    var i := a + 1;
    for step := 0 to 5
      invariant a < i <= b && Sorted(less, v[..], a, i) && Moved(s, v[..], a, b)
      invariant Sorted(less, s, a, b) ==> step == 0 && v[..] == s
      invariant Eval(PartialTree(a, b, i, step), less, v[..]) == Eval(PartialTree(a, b, a + 1, 0), less, s)
    {
      i := SortedUpTo(v, less, a, b, i, step);
      if i == b {
        return true;
      }
      if b - a < 50 {
        return false;
      }
      ghost var t := v[..];
      MovedFloor(less, s, t, a, b);
      ShiftBoth(v, less, a, b, i, step);
      MovedTwice(s, t, v[..], a, b);
    }
    return false;
  }

  /** No element of the range belongs before the one in front of it. */
  ghost predicate Floored<T>(less: (T, T) -> bool, s: seq<T>, a: int, b: int)
    requires 0 <= a <= b <= |s|
  {
    a > 0 ==> NoneBelow(less, s, a, b, s[a - 1])
  }

  lemma MovedFloor<T>(less: (T, T) -> bool, s: seq<T>, t: seq<T>, a: int, b: int)
    requires Moved(s, t, a, b) && Floored(less, s, a, b)
    ensures Floored(less, t, a, b)
  {
    if a > 0 {
      MovedElsewhere(s, t, a, b);
      MovedBounds(less, s, t, a, b, s[a - 1]);
    }
  }

  method SortedUpTo<T(!new)>(v: array<T>, less: (T, T) -> bool, ghost a: int, b: int, start: int, ghost step: nat)
    returns (i: int)
    requires WeakOrder(less) && step < 5 && 0 <= a < start <= b <= v.Length && Sorted(less, v[..], a, start)
    ensures start <= i <= b && Sorted(less, v[..], a, i) && (i < b ==> less(v[i], v[i - 1]))
    ensures Eval(AscendTree(a, b, start, step), less, v[..]) ==
            if i < b then Eval(ShiftTree(a, b, i, step), less, v[..]) else (true, v[..])
  {
    i := start;
    while i < b && !less(v[i], v[i - 1])
      invariant start <= i <= b && Sorted(less, v[..], a, i)
      invariant Eval(AscendTree(a, b, i, step), less, v[..]) == Eval(AscendTree(a, b, start, step), less, v[..])
    {
      SortedNext(less, v[..], a, i);
      i := i + 1;
      AscendStep(less, v[..], a, b, i - 1, step, i);
    }
    if i < b {
      AscendStep(less, v[..], a, b, i, step, i + 1);
    }
  }

  lemma SortedNext<T(!new)>(less: (T, T) -> bool, s: seq<T>, a: int, i: int)
    requires WeakOrder(less) && 0 <= a < i < |s| && Sorted(less, s, a, i) && !less(s[i], s[i - 1])
    ensures Sorted(less, s, a, i + 1)
  {
    forall k | a <= k < i ensures !less(s[i], s[k]) {
      if k < i - 1 {
        Between(less, s[k], s[i - 1], s[i]);
      }
    }
  }

  /** The smaller of two neighbours goes to the left, the greater to the right. */
  method ShiftBoth<T(!new)>(v: array<T>, less: (T, T) -> bool, a: int, b: int, i: int, ghost step: nat)
    requires WeakOrder(less) && 0 <= a < i < b <= v.Length && Sorted(less, v[..], a, i) && Floored(less, v[..], a, b)
    requires step < 5 && b - a >= 50
    modifies v
    ensures Moved(old(v[..]), v[..], a, b) && Sorted(less, v[..], a, i)
    ensures Eval(ShiftTree(a, b, i, step), less, old(v[..])) == Eval(PartialTree(a, b, i, step + 1), less, v[..])
  {
    ghost var s := v[..];
    SwapIn(v, i, i - 1, a, b);
    ghost var t := v[..];
    if i - a >= 2 {
      MovedFloor(less, s, t, a, b);
      ShiftLeft(v, less, a, b, i - 1);
      MovedTwice(s, t, v[..], a, b);
    }
    ghost var u := v[..];
    if b - i >= 2 {
      ShiftRight(v, less, i, b);
      SortedElsewhere(less, u, v[..], a, i, i, b);
      MovedWithin(u, v[..], i, b, a, b);
      MovedTwice(s, u, v[..], a, b);
    }
    ShiftSteps(less, s, t, u, v[..], a, b, i, step);
  }

  /** Like Sink, with no check for the start of the range. */
  method ShiftLeft<T(!new)>(v: array<T>, less: (T, T) -> bool, ghost a: int, ghost b: int, i: int)
    requires WeakOrder(less) && 0 <= a < i < b <= v.Length && Sorted(less, v[..], a, i) && Floored(less, v[..], a, b)
    modifies v
    ensures Sorted(less, v[..], a, i + 1) && Moved(old(v[..]), v[..], a, b)
    ensures Eval(SinkTree(0, i), less, old(v[..])) == ((), v[..])
  {
    ghost var s := v[..];
    var j := i;
    RotateNone(s, i, i + 1);
    while j >= 1 && less(v[j], v[j - 1])
      invariant a <= j <= i && v[..] == Rotated(s, j, i, i + 1)
      invariant forall k :: j <= k < i ==> less(s[i], s[k])
      invariant Eval(SinkTree(0, j), less, v[..]) == Eval(SinkTree(0, i), less, s)
    {
      j := SinkOne(v, s, less, 0, j, i);
    }
    SinkEnd(less, v[..], 0, j);
    SunkTo(s, j, i);
    SunkSorted(less, s, a, j, i);
    SunkStable(less, s, a, j, i, b);
  }

  method ShiftRight<T>(v: array<T>, less: (T, T) -> bool, i: int, b: int)
    requires 0 <= i < b <= v.Length
    modifies v
    ensures Moved(old(v[..]), v[..], i, b) && Eval(RiseTree(i + 1, b), less, old(v[..])) == ((), v[..])
  {
    ghost var s := v[..];
    var j := i + 1;
    while j < b && less(v[j], v[j - 1])
      invariant i < j <= b && Moved(s, v[..], i, b)
      invariant Eval(RiseTree(j, b), less, v[..]) == Eval(RiseTree(i + 1, b), less, s)
    {
      ghost var t, p := v[..], j;
      SwapSince(v, s, j, j - 1, i, b);
      j := j + 1;
      RiseStep(less, t, v[..], p, b, j);
    }
    RiseEnd(less, v[..], j, b);
  }

  // ----- the sort

  /** What lies outside lo to hi is in its place: sorted, and nothing belongs across. */
  ghost predicate Around<T>(less: (T, T) -> bool, s: seq<T>, a: int, lo: int, hi: int, b: int)
    requires 0 <= a <= lo <= hi <= b <= |s|
  {
    && Sorted(less, s, a, lo) && Sorted(less, s, hi, b)
    && Split(less, s, a, lo, b) && Split(less, s, a, hi, b) && Floored(less, s, a, b)
  }

  lemma AroundMoved<T>(less: (T, T) -> bool, s: seq<T>, t: seq<T>, a: int, lo: int, hi: int, b: int)
    requires 0 <= a <= lo <= hi <= b <= |s| && Around(less, s, a, lo, hi, b) && Moved(s, t, lo, hi)
    ensures Around(less, t, a, lo, hi, b) && Moved(s, t, a, b)
  {
    MovedWithin(s, t, lo, hi, a, b);
    MovedFloor(less, s, t, a, b);
    SortedElsewhere(less, s, t, a, lo, lo, hi);
    SortedElsewhere(less, s, t, hi, b, lo, hi);
    MovedSplit(less, s, t, a, lo, b, lo, hi);
    MovedSplit(less, s, t, a, hi, b, lo, hi);
  }

  lemma AroundFloor<T>(less: (T, T) -> bool, s: seq<T>, a: int, lo: int, hi: int, b: int)
    requires 0 <= a <= lo <= hi <= b <= |s| && Around(less, s, a, lo, hi, b)
    ensures Floored(less, s, lo, hi)
  {
  }

  lemma AroundSorted<T>(less: (T, T) -> bool, s: seq<T>, a: int, lo: int, hi: int, b: int)
    requires 0 <= a <= lo <= hi <= b <= |s| && Around(less, s, a, lo, hi, b) && Sorted(less, s, lo, hi)
    ensures Sorted(less, s, a, b)
  {
    SortedJoin(less, s, a, lo, hi);
    SortedJoin(less, s, a, hi, b);
  }

  lemma SplitWiden<T>(less: (T, T) -> bool, s: seq<T>, a: int, lo: int, m: int, hi: int, b: int)
    requires 0 <= a <= lo <= m <= hi <= b <= |s| && Split(less, s, lo, m, hi)
    requires Split(less, s, a, lo, b) && Split(less, s, a, hi, b)
    ensures Split(less, s, a, m, b)
  {
  }

  /** Elements equal to the one before the range join what is done. */
  lemma AroundEqual<T(!new)>(less: (T, T) -> bool, s: seq<T>, a: int, lo: int, mid: int, hi: int, b: int, p: T)
    requires WeakOrder(less) && 0 <= a <= lo <= mid <= hi <= b <= |s| && Around(less, s, a, lo, hi, b)
    requires NoneBelow(less, s, lo, hi, p) && NoneAbove(less, s, lo, mid, p)
    requires forall k :: mid <= k < hi ==> less(p, s[k])
    ensures Around(less, s, a, mid, hi, b)
  {
    forall i, j | lo <= i < mid && i < j < hi ensures !less(s[j], s[i]) {
      Between(less, s[i], p, s[j]);
    }
    SplitWiden(less, s, a, lo, mid, hi, b);
    SortedJoin(less, s, a, lo, mid);
  }

  lemma PivotSplits<T(!new)>(less: (T, T) -> bool, s: seq<T>, a: int, lo: int, mid: int, hi: int, b: int)
    requires WeakOrder(less) && 0 <= a <= lo <= mid < hi <= b <= |s| && Around(less, s, a, lo, hi, b)
    requires Partitioned(less, s, lo, mid, hi)
    ensures Split(less, s, a, mid, b) && Split(less, s, a, mid + 1, b)
    ensures Floored(less, s, lo, mid) && Floored(less, s, mid + 1, hi)
  {
    forall i, j | lo <= i < mid < j < hi ensures !less(s[j], s[i]) {
      Between(less, s[i], s[mid], s[j]);
    }
    SplitWiden(less, s, a, lo, mid, hi, b);
    SplitWiden(less, s, a, lo, mid + 1, hi, b);
  }

  lemma LeftDone<T(!new)>(less: (T, T) -> bool, s: seq<T>, t: seq<T>, a: int, lo: int, mid: int, hi: int, b: int)
    requires 0 <= a <= lo <= mid < hi <= b <= |s| && Around(less, s, a, lo, hi, b)
    requires Split(less, s, a, mid, b) && Split(less, s, a, mid + 1, b)
    requires Moved(s, t, lo, mid) && Sorted(less, t, lo, mid)
    ensures Around(less, t, a, mid + 1, hi, b) && Moved(s, t, a, b)
  {
    MovedWithin(s, t, lo, mid, lo, hi);
    AroundMoved(less, s, t, a, lo, hi, b);
    MovedSplit(less, s, t, a, mid, b, lo, mid);
    MovedSplit(less, s, t, a, mid + 1, b, lo, mid);
    SortedJoin(less, t, a, lo, mid);
    SortedJoin(less, t, a, mid, mid + 1);
  }

  lemma RightDone<T(!new)>(less: (T, T) -> bool, s: seq<T>, t: seq<T>, a: int, lo: int, mid: int, hi: int, b: int)
    requires 0 <= a <= lo <= mid < hi <= b <= |s| && Around(less, s, a, lo, hi, b)
    requires Split(less, s, a, mid, b) && Split(less, s, a, mid + 1, b)
    requires Moved(s, t, mid + 1, hi) && Sorted(less, t, mid + 1, hi)
    ensures Around(less, t, a, lo, mid, b) && Moved(s, t, a, b)
  {
    MovedWithin(s, t, mid + 1, hi, lo, hi);
    AroundMoved(less, s, t, a, lo, hi, b);
    MovedSplit(less, s, t, a, mid, b, mid + 1, hi);
    MovedSplit(less, s, t, a, mid + 1, b, mid + 1, hi);
    SortedJoin(less, t, mid + 1, hi, b);
    SortedJoin(less, t, mid, mid + 1, b);
  }

  /** The end of the sort: what is left is short, or its pivots were bad too often. */
  method SortRest<T(!new)>(v: array<T>, less: (T, T) -> bool, ghost a: int, lo: int, hi: int, ghost b: int,
                           ghost balanced: bool, ghost partitioned: bool)
    requires WeakOrder(less) && 0 <= a <= lo <= hi <= b <= v.Length && Around(less, v[..], a, lo, hi, b)
    modifies v
    ensures Sorted(less, v[..], a, b) && Moved(old(v[..]), v[..], a, b)
    ensures Sorted(less, old(v[..]), a, b) && hi - lo <= 12 ==> v[..] == old(v[..])
    ensures Eval(Pdq(lo, hi, 0, balanced, partitioned), less, old(v[..])) == ((), v[..])
  {
    ghost var s := v[..];
    if hi - lo <= 12 {
      InsertionSort(v, less, lo, hi);
    } else {
      HeapSort(v, less, lo, hi);
    }
    AroundMoved(less, s, v[..], a, lo, hi, b);
    AroundSorted(less, v[..], a, lo, hi, b);
  }

  /** Breaks patterns after an unbalanced partition, and finds a pivot. A range that looks reversed is
      reversed first. */
  method Prepare<T(!new)>(v: array<T>, less: (T, T) -> bool, lo: int, hi: int, balanced: bool, partitioned: bool)
    returns (pivot: int, try: bool)
    requires WeakOrder(less) && 0 <= lo < hi <= v.Length
    modifies v
    ensures lo <= pivot < hi && Moved(old(v[..]), v[..], lo, hi)
    ensures balanced && partitioned && Sorted(less, old(v[..]), lo, hi) ==> try && v[..] == old(v[..])
    ensures Eval(ReadyTree(lo, hi, balanced, partitioned), less, old(v[..])) ==
            Eval(TryTree(lo, hi, pivot, try), less, v[..])
  {
    ghost var s := v[..];
    if !balanced {
      BreakPatterns(v, less, lo, hi);
    }
    ghost var t := v[..];
    var chosen, hint := ChoosePivot(v, less, lo, hi);
    pivot := chosen;
    if hint == Decreasing {
      ReverseRange(v, less, lo, hi);
      MovedTwice(s, t, v[..], lo, hi);
      pivot := hi - 1 - (chosen - lo);
    }
    try := balanced && partitioned && hint != UnknownHint;
    ReadySteps(less, s, t, v[..], lo, hi, balanced, partitioned, (chosen, hint), pivot, try);
  }

  /** Finds the pivot of the next partition, unless the range turns out to be sorted. */
  method Ready<T(!new)>(v: array<T>, less: (T, T) -> bool, ghost a: int, lo: int, hi: int, ghost b: int,
                        balanced: bool, partitioned: bool)
    returns (pivot: int, done: bool)
    requires WeakOrder(less) && 0 <= a <= lo < hi <= b <= v.Length && Around(less, v[..], a, lo, hi, b)
    modifies v
    ensures lo <= pivot < hi && Around(less, v[..], a, lo, hi, b) && Moved(old(v[..]), v[..], a, b)
    ensures done ==> Sorted(less, v[..], lo, hi)
    ensures balanced && partitioned && Sorted(less, old(v[..]), lo, hi) ==> done && v[..] == old(v[..])
    ensures Eval(ReadyTree(lo, hi, balanced, partitioned), less, old(v[..])) == ((pivot, done), v[..])
  {
    ghost var s := v[..];
    var try;
    pivot, try := Prepare(v, less, lo, hi, balanced, partitioned);
    ghost var t := v[..];
    AroundMoved(less, s, t, a, lo, hi, b);
    done := false;
    if try {
      AroundFloor(less, t, a, lo, hi, b);
      done := PartialInsertionSort(v, less, lo, hi);
      AroundMoved(less, t, v[..], a, lo, hi, b);
      MovedTwice(s, t, v[..], a, b);
    }
    TrySteps(less, t, v[..], lo, hi, pivot, try, done);
  }

  /** The pivot is not greater than what lies before the range: all elements equal to it are done. */
  method SkipEqual<T(!new)>(v: array<T>, less: (T, T) -> bool, ghost a: int, lo: int, hi: int, ghost b: int, pivot: int,
                            ghost bad: nat, ghost balanced: bool, ghost partitioned: bool)
    returns (mid: int)
    requires WeakOrder(less) && 0 <= a <= lo <= pivot < hi <= b <= v.Length && Around(less, v[..], a, lo, hi, b)
    requires lo > 0 && !less(v[lo - 1], v[pivot])
    modifies v
    ensures lo < mid <= hi && Around(less, v[..], a, mid, hi, b) && Moved(old(v[..]), v[..], a, b)
    ensures Eval(SkipTree(lo, hi, bad, balanced, partitioned, pivot), less, old(v[..])) ==
            Eval(Pdq(mid, hi, bad, balanced, partitioned), less, v[..])
  {
    ghost var s, p := v[..], v[pivot];
    NoneSmaller(less, s, a, lo, hi, b, p);
    mid := PartitionEqual(v, less, lo, hi, pivot);
    MovedBounds(less, s, v[..], lo, hi, p);
    AroundMoved(less, s, v[..], a, lo, hi, b);
    AroundEqual(less, v[..], a, lo, mid, hi, b, p);
    SkipSteps(less, s, v[..], lo, hi, bad, balanced, partitioned, pivot, mid);
  }

  lemma NoneSmaller<T(!new)>(less: (T, T) -> bool, s: seq<T>, a: int, lo: int, hi: int, b: int, p: T)
    requires WeakOrder(less) && 0 <= a <= lo <= hi <= b <= |s| && Around(less, s, a, lo, hi, b)
    requires lo > 0 && !less(s[lo - 1], p)
    ensures NoneBelow(less, s, lo, hi, p)
  {
    AroundFloor(less, s, a, lo, hi, b);
    forall k | lo <= k < hi ensures !less(s[k], p) {
      Between(less, p, s[lo - 1], s[k]);
    }
  }

  /** One partition. */
  method Halve<T(!new)>(v: array<T>, less: (T, T) -> bool, ghost a: int, lo: int, hi: int, ghost b: int, pivot: int)
    returns (mid: int, already: bool)
    requires WeakOrder(less) && 0 <= a <= lo <= pivot < hi <= b <= v.Length && Around(less, v[..], a, lo, hi, b)
    modifies v
    ensures lo <= mid < hi && Around(less, v[..], a, lo, hi, b) && Moved(old(v[..]), v[..], a, b)
    ensures Split(less, v[..], a, mid, b) && Split(less, v[..], a, mid + 1, b)
    ensures Floored(less, v[..], lo, mid) && Floored(less, v[..], mid + 1, hi)
    ensures Eval(PartitionTree(lo, hi, pivot), less, old(v[..])) == ((mid, already), v[..])
  {
    ghost var s := v[..];
    mid, already := Partition(v, less, lo, hi, pivot);
    AroundMoved(less, s, v[..], a, lo, hi, b);
    PivotSplits(less, v[..], a, lo, mid, hi, b);
  }

  /** pdqsort_func: sorts the range. What lies before it must not belong behind any of it. */
  method Pdqsort<T(!new)>(v: array<T>, less: (T, T) -> bool, a: int, b: int, limit: nat)
    requires WeakOrder(less) && 0 <= a <= b <= v.Length && Floored(less, v[..], a, b)
    modifies v
    ensures Sorted(less, v[..], a, b) && Moved(old(v[..]), v[..], a, b)
    ensures Sorted(less, old(v[..]), a, b) && (limit > 0 || b - a <= 12) ==> v[..] == old(v[..])
    ensures Eval(Pdq(a, b, limit, true, true), less, old(v[..])) == ((), v[..])
    decreases b - a, 1
  {
    ghost var s := v[..];
    var lo, hi, bad, balanced, partitioned := a, b, limit, true, true;
    while hi - lo > 12 && bad > 0
      invariant a <= lo <= hi <= b && bad >= 0 && Around(less, v[..], a, lo, hi, b) && Moved(s, v[..], a, b)
      invariant Sorted(less, s, a, b) ==> v[..] == s && lo == a && hi == b && bad == limit && balanced && partitioned
      invariant Eval(Pdq(lo, hi, bad, balanced, partitioned), less, v[..]) ==
                Eval(Pdq(a, b, limit, true, true), less, s)
      decreases hi - lo
    {
      ghost var t := v[..];
      var pivot, done := Ready(v, less, a, lo, hi, b, balanced, partitioned);
      MovedTwice(s, t, v[..], a, b);
      ghost var before := bad;
      bad := if balanced then bad else bad - 1;
      TurnSteps(less, t, v[..], lo, hi, before, balanced, partitioned, pivot, done, bad);
      if done {
        AroundSorted(less, v[..], a, lo, hi, b);
        return;
      }
      t := v[..];
      if lo > 0 && !less(v[lo - 1], v[pivot]) {
        lo := SkipEqual(v, less, a, lo, hi, b, pivot, bad, balanced, partitioned);
      } else {
        lo, hi, balanced, partitioned := Divide(v, less, a, lo, hi, b, pivot, bad);
      }
      MovedTwice(s, t, v[..], a, b);
    }
    ghost var t := v[..];
    AtTheEnd(lo, hi, bad, balanced, partitioned);
    SortRest(v, less, a, lo, hi, b, balanced, partitioned);
    MovedTwice(s, t, v[..], a, b);
  }

  lemma AtTheEnd(lo: int, hi: int, bad: nat, balanced: bool, partitioned: bool)
    requires lo <= hi && (hi - lo <= 12 || bad == 0)
    ensures Pdq(lo, hi, bad, balanced, partitioned) == Pdq(lo, hi, 0, balanced, partitioned)
  {
  }

  /** A partition, and the shorter side is sorted. */
  method Divide<T(!new)>(v: array<T>, less: (T, T) -> bool, ghost a: int, lo: int, hi: int, ghost b: int, pivot: int,
                         bad: nat)
    returns (from: int, to: int, balanced: bool, partitioned: bool)
    requires WeakOrder(less) && 0 <= a <= lo <= pivot < hi <= b <= v.Length && Around(less, v[..], a, lo, hi, b)
    modifies v
    ensures lo <= from <= to <= hi && to - from < hi - lo
    ensures Around(less, v[..], a, from, to, b) && Moved(old(v[..]), v[..], a, b)
    ensures Eval(DivideTree(lo, hi, bad, pivot), less, old(v[..])) ==
            Eval(Pdq(from, to, bad, balanced, partitioned), less, v[..])
    decreases hi - lo, 0
  {
    ghost var s := v[..];
    var mid;
    mid, partitioned := Halve(v, less, a, lo, hi, b, pivot);
    ghost var t := v[..];
    if mid - lo < hi - mid {
      balanced := mid - lo >= (hi - lo) / 8;
      SortLeft(v, less, a, lo, mid, hi, b, bad);
      from, to := mid + 1, hi;
    } else {
      balanced := hi - mid >= (hi - lo) / 8;
      SortRight(v, less, a, lo, mid, hi, b, bad);
      from, to := lo, mid;
    }
    MovedTwice(s, t, v[..], a, b);
    DivideSteps(less, s, t, v[..], lo, hi, bad, pivot, mid, partitioned, from, to, balanced);
  }

  method SortLeft<T(!new)>(v: array<T>, less: (T, T) -> bool, ghost a: int, lo: int, mid: int, ghost hi: int,
                           ghost b: int, bad: nat)
    requires WeakOrder(less) && 0 <= a <= lo <= mid < hi <= b <= v.Length && Around(less, v[..], a, lo, hi, b)
    requires Split(less, v[..], a, mid, b) && Split(less, v[..], a, mid + 1, b) && Floored(less, v[..], lo, mid)
    modifies v
    ensures Around(less, v[..], a, mid + 1, hi, b) && Moved(old(v[..]), v[..], a, b)
    ensures Eval(Pdq(lo, mid, bad, true, true), less, old(v[..])) == ((), v[..])
    decreases mid - lo, 2
  {
    ghost var s := v[..];
    Pdqsort(v, less, lo, mid, bad);
    LeftDone(less, s, v[..], a, lo, mid, hi, b);
  }

  method SortRight<T(!new)>(v: array<T>, less: (T, T) -> bool, ghost a: int, ghost lo: int, mid: int, hi: int,
                            ghost b: int, bad: nat)
    requires WeakOrder(less) && 0 <= a <= lo <= mid < hi <= b <= v.Length && Around(less, v[..], a, lo, hi, b)
    requires Split(less, v[..], a, mid, b) && Split(less, v[..], a, mid + 1, b) && Floored(less, v[..], mid + 1, hi)
    modifies v
    ensures Around(less, v[..], a, lo, mid, b) && Moved(old(v[..]), v[..], a, b)
    ensures Eval(Pdq(mid + 1, hi, bad, true, true), less, old(v[..])) == ((), v[..])
    decreases hi - mid - 1, 2
  {
    ghost var s := v[..];
    Pdqsort(v, less, mid + 1, hi, bad);
    RightDone(less, s, v[..], a, lo, mid, hi, b);
  }

  /** slice: for every strict weak order, the same elements in order; what is sorted stays as it is. */
  method Slice<T(!new)>(v: array<T>, less: (T, T) -> bool)
    requires WeakOrder(less)
    modifies v
    ensures Sorted(less, v[..], 0, v.Length) && multiset(v[..]) == multiset(old(v[..]))
    ensures Sorted(less, old(v[..]), 0, v.Length) ==> v[..] == old(v[..])
    ensures Eval(SortTree(v.Length), less, old(v[..])) == ((), v[..])
  {
    ghost var s := v[..];
    Pdqsort(v, less, 0, v.Length, BitsLen(v.Length));
    assert s[0..v.Length] == s && v[..][0..v.Length] == v[..];
  }
}
