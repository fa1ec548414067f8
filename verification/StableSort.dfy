/** Go's stable sort, in place: sorted blocks are merged by symmetric comparisons and rotations. For
    every strict weak order it sorts, and equal elements keep their order. */
module StableSort {
  import opened Orders
  import Pdqsort

  // ----- rotations

  /** The n elements from a on and those from b on change places. */
  function RangesSwapped<T>(s: seq<T>, a: int, b: int, n: int): seq<T>
    requires 0 <= a && 0 <= n && a + n <= b && b + n <= |s|
  {
    s[..a] + s[b..b + n] + s[a + n..b] + s[a..a + n] + s[b + n..]
  }

  lemma RangesSwappedAt<T>(s: seq<T>, a: int, b: int, n: int)
    requires 0 <= a && 0 <= n && a + n <= b && b + n <= |s|
    ensures var t := RangesSwapped(s, a, b, n);
            && |t| == |s|
            && (forall k :: 0 <= k < a || a + n <= k < b || b + n <= k < |s| ==> t[k] == s[k])
            && (forall k :: a <= k < a + n ==> t[k] == s[k + b - a])
            && (forall k :: b <= k < b + n ==> t[k] == s[k + a - b])
  {
  }

  method SwapRange<T>(v: array<T>, a: int, b: int, n: int)
    requires 0 <= a && 0 <= n && a + n <= b && b + n <= v.Length
    modifies v
    ensures v[..] == RangesSwapped(old(v[..]), a, b, n)
  {
    ghost var s := v[..];
    SwappedNone(s, a, b);
    for i := 0 to n
      invariant v[..] == RangesSwapped(s, a, b, i)
    {
      SwappedNext(s, a, b, i);
      Swap(v, a + i, b + i);
    }
  }

  lemma SwappedNone<T>(s: seq<T>, a: int, b: int)
    requires 0 <= a <= b <= |s|
    ensures RangesSwapped(s, a, b, 0) == s
  {
  }

  lemma SwappedNext<T>(s: seq<T>, a: int, b: int, i: int)
    requires 0 <= a && 0 <= i && a + i < b && b + i < |s|
    ensures |RangesSwapped(s, a, b, i)| == |s|
    ensures Exchanged(RangesSwapped(s, a, b, i), a + i, b + i) == RangesSwapped(s, a, b, i + 1)
  {
    RangesSwappedAt(s, a, b, i);
    RangesSwappedAt(s, a, b, i + 1);
    var t, u := Exchanged(RangesSwapped(s, a, b, i), a + i, b + i), RangesSwapped(s, a, b, i + 1);
    assert |t| == |u| && forall k :: 0 <= k < |t| ==> t[k] == u[k];
  }

  /** The parts of five blocks in a row. */
  lemma FiveBlocks<T>(h: seq<T>, p: seq<T>, q: seq<T>, u: seq<T>, r: seq<T>, i: int, j: int, k: int)
    requires i == |h| + |p| && j == i + |q| && k == j + |u|
    ensures var t := h + p + q + u + r;
            t[..|h|] == h && t[|h|..i] == p && t[i..j] == q && t[j..k] == u && t[k..] == r && t[..i] == h + p
  {
    ThreeBlocks(h, p, q + u + r);
    ThreeBlocks(h + p, q, u + r);
    ThreeBlocks(h + p + q, u, r);
    assert h + p + q + u + r == h + p + (q + u + r) == h + p + q + (u + r);
  }

  lemma ThreeBlocks<T>(h: seq<T>, p: seq<T>, r: seq<T>)
    ensures var t := h + p + r;
            t[..|h|] == h && t[|h|..|h| + |p|] == p && t[|h| + |p|..] == r
  {
  }

  /** The second block is the shorter: it is in place after the swap, the first is not yet. */
  lemma RotateShortRight<T>(s: seq<T>, t: seq<T>, a: int, m: int, b: int, c: int)
    requires 0 <= a < c < m < b <= |s| && c - a == b - m && t == RangesSwapped(s, a, m, b - m)
    ensures |t| == |s| && Rotated(t, c, m, b) == Rotated(s, a, m, b)
  {
    FiveBlocks(s[..a], s[m..b], s[c..m], s[a..c], s[b..], c, m, b);
    assert s[a..m] == s[a..c] + s[c..m];
  }

  lemma RotateShortLeft<T>(s: seq<T>, t: seq<T>, a: int, m: int, b: int, c: int)
    requires 0 <= a < m < c < b <= |s| && m - a == b - c && t == RangesSwapped(s, a, c, m - a)
    ensures |t| == |s| && Rotated(t, a, m, c) == Rotated(s, a, m, b)
  {
    FiveBlocks(s[..a], s[c..b], s[m..c], s[a..m], s[b..], m, c, b);
    assert s[m..b] == s[m..c] + s[c..b];
  }

  lemma RotateEqual<T>(s: seq<T>, a: int, m: int, b: int)
    requires 0 <= a < m < b <= |s| && m - a == b - m
    ensures RangesSwapped(s, a, m, m - a) == Rotated(s, a, m, b)
  {
  }

  /** What is left is to rotate the i elements before m and the j elements from m on. */
  ghost predicate LeftToRotate<T>(s: seq<T>, m: int, i: int, j: int, goal: seq<T>) {
    0 <= i <= m && 0 <= j && m + j <= |s| && Rotated(s, m - i, m, m + j) == goal
  }

  method Rotate<T>(v: array<T>, a: int, m: int, b: int)
    requires 0 <= a < m < b <= v.Length
    modifies v
    ensures v[..] == Rotated(old(v[..]), a, m, b)
  {
    ghost var goal := Rotated(v[..], a, m, b);
    var i, j := m - a, b - m;
    while i != j
      invariant 0 < i <= m - a && 0 < j <= b - m && LeftToRotate(v[..], m, i, j, goal)
      decreases i + j
    {
      i, j := SwapShorter(v, m, i, j, goal);
    }
    SwapEqual(v, m, i, goal);
  }

  /** The shorter block changes places with as much of the other, and is done. */
  method SwapShorter<T>(v: array<T>, m: int, i: int, j: int, ghost goal: seq<T>) returns (p: int, q: int)
    requires 0 < i <= m && 0 < j && m + j <= v.Length && i != j && LeftToRotate(v[..], m, i, j, goal)
    modifies v
    ensures 0 < p <= i && 0 < q <= j && p + q < i + j && LeftToRotate(v[..], m, p, q, goal)
  {
    if i > j {
      p, q := SwapRight(v, m, i, j, goal);
    } else {
      p, q := SwapLeft(v, m, i, j, goal);
    }
  }

  method SwapRight<T>(v: array<T>, m: int, i: int, j: int, ghost goal: seq<T>) returns (p: int, q: int)
    requires 0 < j < i <= m && m + j <= v.Length && LeftToRotate(v[..], m, i, j, goal)
    modifies v
    ensures p == i - j && q == j && LeftToRotate(v[..], m, p, q, goal)
  {
    p, q := i - j, j;
    ghost var s := v[..];
    SwapRange(v, m - i, m, j);
    ShortRight(s, v[..], m, i, j, p, q, goal);
  }

  lemma ShortRight<T>(s: seq<T>, t: seq<T>, m: int, i: int, j: int, p: int, q: int, goal: seq<T>)
    requires 0 < j < i <= m && m + j <= |s| && p == i - j && q == j && LeftToRotate(s, m, i, j, goal)
    requires t == RangesSwapped(s, m - i, m, j)
    ensures LeftToRotate(t, m, p, q, goal)
  {
    RotateShortRight(s, t, m - i, m, m + j, m - p);
  }

  method SwapLeft<T>(v: array<T>, m: int, i: int, j: int, ghost goal: seq<T>) returns (p: int, q: int)
    requires 0 < i < j && i <= m && m + j <= v.Length && LeftToRotate(v[..], m, i, j, goal)
    modifies v
    ensures p == i && q == j - i && LeftToRotate(v[..], m, p, q, goal)
  {
    p, q := i, j - i;
    ghost var s := v[..];
    SwapRange(v, m - i, m + q, i);
    ShortLeft(s, v[..], m, i, j, p, q, goal);
  }

  lemma ShortLeft<T>(s: seq<T>, t: seq<T>, m: int, i: int, j: int, p: int, q: int, goal: seq<T>)
    requires 0 < i < j && i <= m && m + j <= |s| && p == i && q == j - i && LeftToRotate(s, m, i, j, goal)
    requires t == RangesSwapped(s, m - i, m + q, i)
    ensures LeftToRotate(t, m, p, q, goal)
  {
    RotateShortLeft(s, t, m - i, m, m + j, m + q);
  }

  method SwapEqual<T>(v: array<T>, m: int, i: int, ghost goal: seq<T>)
    requires 0 < i <= m && m + i <= v.Length && LeftToRotate(v[..], m, i, i, goal)
    modifies v
    ensures v[..] == goal
  {
    RotateEqual(v[..], m - i, m, m + i);
    SwapRange(v, m - i, m, i);
  }

  // ----- merging

  /** What a merge does: the range is sorted, with equal elements in their order. */
  ghost predicate Merged<T(!new)>(less: (T, T) -> bool, s: seq<T>, t: seq<T>, a: int, b: int) {
    Moved(s, t, a, b) && Stable(less, s, t) && Sorted(less, t, a, b)
  }

  /** Half of a number, rounded down. */
  function Half(x: nat): nat {
    x / 2
  }

  /** The one element of the first block goes behind those of the second that belong before it. */
  method MergeFirst<T(!new)>(v: array<T>, less: (T, T) -> bool, a: int, b: int)
    requires WeakOrder(less) && 0 <= a < a + 1 < b <= v.Length && Sorted(less, v[..], a + 1, b)
    modifies v
    ensures Merged(less, old(v[..]), v[..], a, b)
  {
    ghost var s := v[..];
    var i := PlaceOfFirst(v, less, a, b);
    var k := a;
    RotateNone(s, a, a + 1);
    while k < i - 1
      invariant a <= k < i && v[..] == Rotated(s, a, a + 1, k + 1)
    {
      RotateUp(s, a, k);
      Swap(v, k, k + 1);
      k := k + 1;
    }
    FirstMerged(less, s, v[..], a, i, b);
  }

  method PlaceOfFirst<T>(v: array<T>, less: (T, T) -> bool, a: int, b: int) returns (i: int)
    requires 0 <= a < a + 1 < b <= v.Length
    ensures a < i <= b && (i > a + 1 ==> less(v[i - 1], v[a])) && (i < b ==> !less(v[i], v[a]))
  {
    var j := b;
    i := a + 1;
    while i < j
      invariant a < i <= j <= b
      invariant (i > a + 1 ==> less(v[i - 1], v[a])) && (j < b ==> !less(v[j], v[a]))
    {
      var h := Half(i + j);
      if less(v[h], v[a]) {
        i := h + 1;
      } else {
        j := h;
      }
    }
  }

  lemma FirstMerged<T(!new)>(less: (T, T) -> bool, s: seq<T>, t: seq<T>, a: int, i: int, b: int)
    requires WeakOrder(less) && 0 <= a < i <= b <= |s| && Sorted(less, s, a + 1, b) && t == Rotated(s, a, a + 1, i)
    requires (i > a + 1 ==> less(s[i - 1], s[a])) && (i < b ==> !less(s[i], s[a]))
    ensures Merged(less, s, t, a, b)
  {
    FirstBelongs(less, s, a, i, b);
    FirstSorted(less, s, t, a, i, b);
    RotateMoves(s, a, a + 1, i);
    MovedWithin(s, t, a, i, a, b);
    RotateStable(less, s, a, a + 1, i);
  }

  lemma FirstBelongs<T(!new)>(less: (T, T) -> bool, s: seq<T>, a: int, i: int, b: int)
    requires WeakOrder(less) && 0 <= a < i <= b <= |s| && Sorted(less, s, a + 1, b)
    requires (i > a + 1 ==> less(s[i - 1], s[a])) && (i < b ==> !less(s[i], s[a]))
    ensures forall k :: a < k < i ==> less(s[k], s[a])
    ensures forall k :: i <= k < b ==> !less(s[k], s[a])
  {
    forall k | a < k < i ensures less(s[k], s[a]) {
      if k < i - 1 {
        assert Chains(less, s[a], s[k], s[i - 1]);
      }
    }
    forall k | i <= k < b ensures !less(s[k], s[a]) {
      if i < k {
        Between(less, s[a], s[i], s[k]);
      }
    }
  }

  lemma FirstSorted<T(!new)>(less: (T, T) -> bool, s: seq<T>, t: seq<T>, a: int, i: int, b: int)
    requires WeakOrder(less) && 0 <= a < i <= b <= |s| && Sorted(less, s, a + 1, b) && t == Rotated(s, a, a + 1, i)
    requires (forall k :: a < k < i ==> less(s[k], s[a])) && (forall k :: i <= k < b ==> !less(s[k], s[a]))
    ensures |t| == |s| && Sorted(less, t, a, b)
  {
    RotatedAt(s, a, a + 1, i);
    forall p, q | a <= p < q < b ensures !less(t[q], t[p]) {
      assert t[p] == s[if p < i - 1 then p + 1 else if p == i - 1 then a else p];
      assert t[q] == s[if q < i - 1 then q + 1 else if q == i - 1 then a else q];
    }
  }

  /** The one element of the second block goes before those of the first that belong behind it. */
  method MergeLast<T(!new)>(v: array<T>, less: (T, T) -> bool, a: int, m: int)
    requires WeakOrder(less) && 0 <= a < m < v.Length && Sorted(less, v[..], a, m)
    modifies v
    ensures Merged(less, old(v[..]), v[..], a, m + 1)
  {
    ghost var s := v[..];
    var i := PlaceOfLast(v, less, a, m);
    var k := m;
    RotateNone(s, m, m + 1);
    while k > i
      invariant i <= k <= m && v[..] == Rotated(s, k, m, m + 1)
    {
      RotateDown(s, k, m);
      Swap(v, k, k - 1);
      k := k - 1;
    }
    LastMerged(less, s, v[..], a, i, m);
  }

  method PlaceOfLast<T>(v: array<T>, less: (T, T) -> bool, a: int, m: int) returns (i: int)
    requires 0 <= a < m < v.Length
    ensures a <= i <= m && (i > a ==> !less(v[m], v[i - 1])) && (i < m ==> less(v[m], v[i]))
  {
    var j := m;
    i := a;
    while i < j
      invariant a <= i <= j <= m
      invariant (i > a ==> !less(v[m], v[i - 1])) && (j < m ==> less(v[m], v[j]))
    {
      var h := Half(i + j);
      if !less(v[m], v[h]) {
        i := h + 1;
      } else {
        j := h;
      }
    }
  }

  lemma LastMerged<T(!new)>(less: (T, T) -> bool, s: seq<T>, t: seq<T>, a: int, i: int, m: int)
    requires WeakOrder(less) && 0 <= a <= i <= m < |s| && Sorted(less, s, a, m) && t == Rotated(s, i, m, m + 1)
    requires (i > a ==> !less(s[m], s[i - 1])) && (i < m ==> less(s[m], s[i]))
    ensures Merged(less, s, t, a, m + 1)
  {
    forall k | i <= k < m ensures less(s[m], s[k]) {
      if i < k {
        assert Chains(less, s[i], s[k], s[m]);
      }
    }
    Pdqsort.SunkSorted(less, s, a, i, m);
    Pdqsort.SunkStable(less, s, a, i, m, m + 1);
  }

  /** Where the blocks from a to m and from m to b are cut, for halves that meet at mid. */
  ghost predicate CutPoint<T>(less: (T, T) -> bool, s: seq<T>, a: int, m: int, b: int, start: int, end: int)
    requires 0 <= a <= m <= b <= |s|
  {
    && a <= start <= m <= end <= b
    && (start < m && m < end ==> less(s[end - 1], s[start]))
    && (a < start && end < b ==> !less(s[end], s[start - 1]))
  }

  method FindCut<T(!new)>(v: array<T>, less: (T, T) -> bool, a: int, m: int, b: int) returns (start: int, end: int)
    requires 0 <= a < m < b <= v.Length
    ensures CutPoint(less, v[..], a, m, b, start, end) && start + end == Half(a + b) + m
  {
    var mid := Half(a + b);
    var n := mid + m;
    var r;
    if m > mid {
      start, r := n - b, mid;
    } else {
      start, r := a, m;
    }
    ghost var first, last := start, r;
    var p := n - 1;
    while start < r
      invariant first <= start <= r <= last
      invariant (start > first ==> !less(v[p - (start - 1)], v[start - 1])) && (r < last ==> less(v[p - r], v[r]))
    {
      var c := Half(start + r);
      if !less(v[p - c], v[c]) {
        start := c + 1;
      } else {
        r := c;
      }
    }
    end := n - start;
  }

  /** After the rotation each half consists of two sorted blocks, and nothing belongs across. */
  lemma CutMoves<T(!new)>(less: (T, T) -> bool, s: seq<T>, a: int, m: int, b: int, start: int, end: int)
    requires WeakOrder(less) && 0 <= a <= m <= b <= |s| && Sorted(less, s, a, m) && Sorted(less, s, m, b)
    requires CutPoint(less, s, a, m, b, start, end)
    ensures Moved(s, Rotated(s, start, m, end), a, b) && Stable(less, s, Rotated(s, start, m, end))
  {
    forall i, j | start <= i < m <= j < end ensures less(s[j], s[i]) {
      CutLess(less, s, a, m, b, start, end, i, j);
    }
    RotateMoves(s, start, m, end);
    MovedWithin(s, Rotated(s, start, m, end), start, end, a, b);
    RotateStable(less, s, start, m, end);
  }

  lemma CutLess<T(!new)>(less: (T, T) -> bool, s: seq<T>, a: int, m: int, b: int, start: int, end: int, i: int, j: int)
    requires WeakOrder(less) && 0 <= a <= m <= b <= |s| && Sorted(less, s, a, m) && Sorted(less, s, m, b)
    requires CutPoint(less, s, a, m, b, start, end) && start <= i < m <= j < end
    ensures less(s[j], s[i])
  {
    assert start < i ==> !less(s[i], s[start]);
    assert j < end - 1 ==> !less(s[end - 1], s[j]);
    assert Chains(less, s[start], s[i], s[j]) && Chains(less, s[start], s[j], s[end - 1]);
  }

  lemma CutAtMost<T(!new)>(less: (T, T) -> bool, s: seq<T>, a: int, m: int, b: int, start: int, end: int, i: int,
                           j: int)
    requires WeakOrder(less) && 0 <= a <= m <= b <= |s| && Sorted(less, s, a, m) && Sorted(less, s, m, b)
    requires CutPoint(less, s, a, m, b, start, end) && a <= i < start && end <= j < b
    ensures !less(s[j], s[i])
  {
    if i < start - 1 {
      Between(less, s[i], s[start - 1], s[end]);
    }
    if end < j {
      Between(less, s[i], s[end], s[j]);
    }
  }

  lemma CutSplits<T(!new)>(less: (T, T) -> bool, s: seq<T>, t: seq<T>, a: int, m: int, b: int, start: int, end: int,
                           mid: int)
    requires WeakOrder(less) && 0 <= a <= m <= b <= |s| && Sorted(less, s, a, m) && Sorted(less, s, m, b)
    requires CutPoint(less, s, a, m, b, start, end) && start + end == mid + m && t == Rotated(s, start, m, end)
    ensures |t| == |s| && start <= mid <= end && Split(less, t, a, mid, b)
    ensures Sorted(less, t, a, start) && Sorted(less, t, start, mid)
    ensures Sorted(less, t, mid, end) && Sorted(less, t, end, b)
  {
    RotatedAt(s, start, m, end);
    forall p, q | a <= p < mid <= q < b ensures !less(t[q], t[p]) {
      var i, j := if p < start then p else p + m - start, if q < end then q + m - end else q;
      assert t[p] == s[i] && t[q] == s[j];
      if p < start && end <= q {
        CutAtMost(less, s, a, m, b, start, end, i, j);
      } else if start <= p && q < end {
        CutLess(less, s, a, m, b, start, end, j, i);
      }
    }
  }

  method SymMerge<T(!new)>(v: array<T>, less: (T, T) -> bool, a: int, m: int, b: int)
    requires WeakOrder(less) && 0 <= a < m < b <= v.Length && Sorted(less, v[..], a, m) && Sorted(less, v[..], m, b)
    modifies v
    ensures Merged(less, old(v[..]), v[..], a, b)
    decreases b - a
  {
    if m - a == 1 {
      MergeFirst(v, less, a, b);
      return;
    }
    if b - m == 1 {
      MergeLast(v, less, a, m);
      return;
    }
    ghost var s := v[..];
    var mid := Half(a + b);
    var start, end := CutAndRotate(v, less, a, m, b);
    ghost var t := v[..];
    if a < start && start < mid {
      SymMerge(v, less, a, start, mid);
    }
    ghost var u := v[..];
    LeftMerged(less, s, t, u, a, start, mid, end, b);
    if mid < end && end < b {
      SymMerge(v, less, mid, end, b);
    }
    RightMerged(less, s, u, v[..], a, mid, end, b);
  }

  method CutAndRotate<T(!new)>(v: array<T>, less: (T, T) -> bool, a: int, m: int, b: int) returns (start: int, end: int)
    requires WeakOrder(less) && 0 <= a < m < b <= v.Length && Sorted(less, v[..], a, m) && Sorted(less, v[..], m, b)
    modifies v
    ensures Moved(old(v[..]), v[..], a, b) && Stable(less, old(v[..]), v[..])
    ensures a <= start <= Half(a + b) <= end <= b && Split(less, v[..], a, Half(a + b), b)
    ensures Sorted(less, v[..], a, start) && Sorted(less, v[..], start, Half(a + b))
    ensures Sorted(less, v[..], Half(a + b), end) && Sorted(less, v[..], end, b)
  {
    ghost var s := v[..];
    start, end := FindCut(v, less, a, m, b);
    CutMoves(less, s, a, m, b, start, end);
    if start < m && m < end {
      Rotate(v, start, m, end);
    } else {
      RotateNone(s, start, end);
    }
    CutSplits(less, s, v[..], a, m, b, start, end, Half(a + b));
  }

  /** What is done, and what is left, when the left half is merged. */
  ghost predicate HalfMerged<T(!new)>(less: (T, T) -> bool, s: seq<T>, u: seq<T>, a: int, mid: int, end: int, b: int) {
    && 0 <= a <= mid <= end <= b <= |u| && Moved(s, u, a, b) && Stable(less, s, u) && Sorted(less, u, a, mid)
    && Split(less, u, a, mid, b) && Sorted(less, u, mid, end) && Sorted(less, u, end, b)
  }

  lemma LeftMerged<T(!new)>(less: (T, T) -> bool, s: seq<T>, t: seq<T>, u: seq<T>, a: int, start: int, mid: int,
                            end: int, b: int)
    requires 0 <= a <= start <= mid <= end <= b <= |t|
    requires Moved(s, t, a, b) && Stable(less, s, t) && Split(less, t, a, mid, b)
    requires Sorted(less, t, a, start) && Sorted(less, t, start, mid)
    requires Sorted(less, t, mid, end) && Sorted(less, t, end, b)
    requires if a < start < mid then Merged(less, t, u, a, mid) else u == t
    ensures HalfMerged(less, s, u, a, mid, end, b)
  {
    if a < start < mid {
      MovedSplit(less, t, u, a, mid, b, a, mid);
      SortedElsewhere(less, t, u, mid, end, a, mid);
      SortedElsewhere(less, t, u, end, b, a, mid);
      MovedWithin(t, u, a, mid, a, b);
      MovedTwice(s, t, u, a, b);
      StableTwice(less, s, t, u);
    }
  }

  lemma RightMerged<T(!new)>(less: (T, T) -> bool, s: seq<T>, t: seq<T>, u: seq<T>, a: int, mid: int, end: int, b: int)
    requires HalfMerged(less, s, t, a, mid, end, b)
    requires if mid < end < b then Merged(less, t, u, mid, b) else u == t
    ensures Merged(less, s, u, a, b)
  {
    if mid < end < b {
      MovedSplit(less, t, u, a, mid, b, mid, b);
      SortedElsewhere(less, t, u, a, mid, mid, b);
      MovedWithin(t, u, mid, b, a, b);
      MovedTwice(s, t, u, a, b);
      StableTwice(less, s, t, u);
    }
    SortedJoin(less, u, a, mid, b);
  }

  // ----- the sort

  /** From a to n, sorted blocks of the size, of which the last may be shorter. */
  ghost predicate Blocks<T>(less: (T, T) -> bool, s: seq<T>, a: int, n: int, size: int)
    requires 0 <= a <= n <= |s| && 0 < size
    decreases n - a
  {
    if n - a <= size then Sorted(less, s, a, n)
    else Sorted(less, s, a, a + size) && Blocks(less, s, a + size, n, size)
  }

  /** Up to a, sorted blocks of just that size. */
  ghost predicate FullBlocks<T>(less: (T, T) -> bool, s: seq<T>, a: int, size: int)
    requires 0 <= a <= |s| && 0 < size
    decreases a
  {
    a == 0 || (size <= a && FullBlocks(less, s, a - size, size) && Sorted(less, s, a - size, a))
  }

  lemma {:induction false} BlocksJoin<T>(less: (T, T) -> bool, s: seq<T>, a: int, n: int, size: int)
    requires 0 <= a <= n <= |s| && 0 < size && FullBlocks(less, s, a, size) && Blocks(less, s, a, n, size)
    ensures Blocks(less, s, 0, n, size)
    decreases a
  {
    if a > 0 {
      BlocksJoin(less, s, a - size, n, size);
    }
  }

  lemma {:induction false} BlocksElsewhere<T>(less: (T, T) -> bool, s: seq<T>, t: seq<T>, a: int, n: int, size: int,
                                              lo: int, hi: int)
    requires 0 <= a <= n <= |s| && 0 < size && Blocks(less, s, a, n, size) && Moved(s, t, lo, hi) && hi <= a
    ensures Blocks(less, t, a, n, size)
    decreases n - a
  {
    if n - a <= size {
      SortedElsewhere(less, s, t, a, n, lo, hi);
    } else {
      SortedElsewhere(less, s, t, a, a + size, lo, hi);
      BlocksElsewhere(less, s, t, a + size, n, size, lo, hi);
    }
  }

  lemma {:induction false} FullElsewhere<T>(less: (T, T) -> bool, s: seq<T>, t: seq<T>, a: int, size: int, lo: int,
                                            hi: int)
    requires 0 <= a <= |s| && 0 < size && FullBlocks(less, s, a, size) && Moved(s, t, lo, hi) && a <= lo
    ensures FullBlocks(less, t, a, size)
    decreases a
  {
    if a > 0 {
      FullElsewhere(less, s, t, a - size, size, lo, hi);
      SortedElsewhere(less, s, t, a - size, a, lo, hi);
    }
  }

  /** What every phase keeps. */
  ghost predicate Kept<T(!new)>(less: (T, T) -> bool, s: seq<T>, t: seq<T>) {
    Moved(s, t, 0, |s|) && Stable(less, s, t)
  }

  lemma KeptAfter<T(!new)>(less: (T, T) -> bool, s: seq<T>, t: seq<T>, u: seq<T>, a: int, b: int)
    requires Kept(less, s, t) && Moved(t, u, a, b) && Stable(less, t, u)
    ensures Kept(less, s, u)
  {
    MovedWithin(t, u, a, b, 0, |s|);
    MovedTwice(s, t, u, 0, |s|);
    StableTwice(less, s, t, u);
  }

  /** Sorts blocks of the size one by one. */
  method SortBlocks<T(!new)>(v: array<T>, less: (T, T) -> bool, size: int)
    requires WeakOrder(less) && 0 < size
    modifies v
    ensures Blocks(less, v[..], 0, v.Length, size) && Kept(less, old(v[..]), v[..])
  {
    ghost var s := v[..];
    var a, b := 0, size;
    while b <= v.Length
      invariant 0 <= a <= v.Length && b == a + size && FullBlocks(less, v[..], a, size) && Kept(less, s, v[..])
    {
      ghost var t := v[..];
      Pdqsort.InsertionSort(v, less, a, b);
      FullElsewhere(less, t, v[..], a, size, a, b);
      KeptAfter(less, s, t, v[..], a, b);
      a := b;
      b := b + size;
    }
    ghost var t := v[..];
    Pdqsort.InsertionSort(v, less, a, v.Length);
    FullElsewhere(less, t, v[..], a, size, a, v.Length);
    KeptAfter(less, s, t, v[..], a, v.Length);
    BlocksJoin(less, v[..], a, v.Length, size);
  }

  /** Merges neighbouring blocks of the size. */
  method MergeBlocks<T(!new)>(v: array<T>, less: (T, T) -> bool, size: int)
    requires WeakOrder(less) && 0 < size && Blocks(less, v[..], 0, v.Length, size)
    modifies v
    ensures Blocks(less, v[..], 0, v.Length, 2 * size) && Kept(less, old(v[..]), v[..])
  {
    ghost var s := v[..];
    var n := v.Length;
    var a, b := 0, 2 * size;
    while b <= n
      invariant 0 <= a <= n && b == a + 2 * size && Kept(less, s, v[..])
      invariant FullBlocks(less, v[..], a, 2 * size) && Blocks(less, v[..], a, n, size)
    {
      ghost var t := v[..];
      MergePair(v, less, a, b, size);
      KeptAfter(less, s, t, v[..], a, b);
      a := b;
      b := b + 2 * size;
    }
    var m := a + size;
    if m < n {
      ghost var t := v[..];
      SymMerge(v, less, a, m, n);
      FullElsewhere(less, t, v[..], a, 2 * size, a, n);
      KeptAfter(less, s, t, v[..], a, n);
    }
    BlocksJoin(less, v[..], a, n, 2 * size);
  }

  method MergePair<T(!new)>(v: array<T>, less: (T, T) -> bool, a: int, b: int, size: int)
    requires WeakOrder(less) && 0 < size && 0 <= a && b == a + 2 * size <= v.Length
    requires FullBlocks(less, v[..], a, 2 * size) && Blocks(less, v[..], a, v.Length, size)
    modifies v
    ensures Moved(old(v[..]), v[..], a, b) && Stable(less, old(v[..]), v[..])
    ensures FullBlocks(less, v[..], b, 2 * size) && Blocks(less, v[..], b, v.Length, size)
  {
    ghost var s := v[..];
    TwoBlocks(less, s, a, v.Length, size);
    SymMerge(v, less, a, a + size, b);
    PairMerged(less, s, v[..], a, b, size);
  }

  lemma PairMerged<T(!new)>(less: (T, T) -> bool, s: seq<T>, t: seq<T>, a: int, b: int, size: int)
    requires 0 < size && 0 <= a && b == a + 2 * size <= |s| && Merged(less, s, t, a, b)
    requires FullBlocks(less, s, a, 2 * size) && Blocks(less, s, b, |s|, size)
    ensures FullBlocks(less, t, b, 2 * size) && Blocks(less, t, b, |t|, size)
  {
    FullElsewhere(less, s, t, a, 2 * size, a, b);
    BlocksElsewhere(less, s, t, b, |s|, size, a, b);
  }

  lemma TwoBlocks<T>(less: (T, T) -> bool, s: seq<T>, a: int, n: int, size: int)
    requires 0 <= a && a + 2 * size <= n <= |s| && 0 < size && Blocks(less, s, a, n, size)
    ensures Sorted(less, s, a, a + size) && Sorted(less, s, a + size, a + 2 * size)
    ensures Blocks(less, s, a + 2 * size, n, size)
  {
    assert Blocks(less, s, a + size, n, size);
  }

  /** slice_stable: for every strict weak order, the same elements in order, equal ones as they came. */
  method SliceStable<T(!new)>(v: array<T>, less: (T, T) -> bool)
    requires WeakOrder(less)
    modifies v
    ensures Sorted(less, v[..], 0, v.Length)
    ensures multiset(v[..]) == multiset(old(v[..])) && Stable(less, old(v[..]), v[..])
  {
    ghost var s := v[..];
    var size := 20;
    SortBlocks(v, less, size);
    while size < v.Length
      invariant 0 < size && Blocks(less, v[..], 0, v.Length, size) && Kept(less, s, v[..])
      decreases v.Length - size
    {
      ghost var t := v[..];
      MergeBlocks(v, less, size);
      KeptAfter(less, s, t, v[..], 0, v.Length);
      size := size * 2;
    }
    assert s[0..v.Length] == s && v[..][0..v.Length] == v[..];
  }

  /** is_sorted: looks at neighbours, from the end. */
  method IsSorted<T(!new)>(s: seq<T>, less: (T, T) -> bool) returns (sorted: bool)
    requires WeakOrder(less)
    ensures sorted <==> Sorted(less, s, 0, |s|)
  {
    var i := |s| - 1;
    while i > 0
      invariant (i == -1 && |s| == 0) || (0 <= i < |s| && Sorted(less, s, i, |s|))
    {
      if less(s[i], s[i - 1]) {
        return false;
      }
      forall k | i < k < |s| ensures !less(s[k], s[i - 1]) {
        Between(less, s[i - 1], s[i], s[k]);
      }
      i := i - 1;
    }
    return true;
  }
}
