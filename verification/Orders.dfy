/** What it means to sort in place by a comparison: parts of a sequence in order, elements moved
    within a range, and equal elements kept in their order. */
module Orders {

  /** A strict weak order, as a sort asks for. */
  ghost predicate WeakOrder<T(!new)>(less: (T, T) -> bool) {
    (forall x, y :: less(x, y) ==> !less(y, x)) && forall x, y, z :: Chains(less, x, y, z)
  }

  /** If y does not belong before x, nor z before y, then z does not belong before x. */
  ghost predicate Chains<T>(less: (T, T) -> bool, x: T, y: T, z: T) {
    !less(y, x) && !less(z, y) ==> !less(z, x)
  }

  lemma Between<T(!new)>(less: (T, T) -> bool, x: T, y: T, z: T)
    requires WeakOrder(less) && !less(y, x) && !less(z, y)
    ensures !less(z, x)
  {
    assert Chains(less, x, y, z);
  }

  /** The elements from a to b are in order. */
  ghost predicate Sorted<T>(less: (T, T) -> bool, s: seq<T>, a: int, b: int)
    requires 0 <= a <= b <= |s|
  {
    forall i, j :: a <= i < j < b ==> !less(s[j], s[i])
  }

  /** No element from m to b belongs before one from a to m. */
  ghost predicate Split<T>(less: (T, T) -> bool, s: seq<T>, a: int, m: int, b: int)
    requires 0 <= a <= m <= b <= |s|
  {
    forall i, j :: a <= i < m <= j < b ==> !less(s[j], s[i])
  }

  /** x belongs before none of the elements from a to b. */
  ghost predicate NoneAbove<T>(less: (T, T) -> bool, s: seq<T>, a: int, b: int, x: T)
    requires 0 <= a <= b <= |s|
  {
    forall k :: a <= k < b ==> !less(x, s[k])
  }

  /** None of the elements from a to b belongs before x. */
  ghost predicate NoneBelow<T>(less: (T, T) -> bool, s: seq<T>, a: int, b: int, x: T)
    requires 0 <= a <= b <= |s|
  {
    forall k :: a <= k < b ==> !less(s[k], x)
  }

  /** t is s with the elements from a to b rearranged. */
  ghost predicate Moved<T>(s: seq<T>, t: seq<T>, a: int, b: int) {
    && |s| == |t| && 0 <= a <= b <= |s| && s[..a] == t[..a] && s[b..] == t[b..]
    && multiset(s[a..b]) == multiset(t[a..b])
  }

  lemma MovedTwice<T>(s: seq<T>, t: seq<T>, u: seq<T>, a: int, b: int)
    requires Moved(s, t, a, b) && Moved(t, u, a, b)
    ensures Moved(s, u, a, b)
  {
  }

  lemma MovedWithin<T>(s: seq<T>, t: seq<T>, a: int, b: int, lo: int, hi: int)
    requires Moved(s, t, a, b) && 0 <= lo <= a && b <= hi <= |s|
    ensures Moved(s, t, lo, hi)
  {
    assert s[lo..hi] == s[lo..a] + s[a..b] + s[b..hi] && t[lo..hi] == t[lo..a] + t[a..b] + t[b..hi];
    assert s[lo..a] == s[..a][lo..] && t[lo..a] == t[..a][lo..];
    assert s[b..hi] == s[b..][..hi - b] && t[b..hi] == t[b..][..hi - b];
    assert s[..lo] == s[..a][..lo] && t[..lo] == t[..a][..lo];
    assert s[hi..] == s[b..][hi - b..] && t[hi..] == t[b..][hi - b..];
  }

  /** Outside the range nothing has changed. */
  lemma MovedElsewhere<T>(s: seq<T>, t: seq<T>, a: int, b: int)
    requires Moved(s, t, a, b)
    ensures forall k :: 0 <= k < a || b <= k < |s| ==> s[k] == t[k]
  {
    forall k | 0 <= k < a || b <= k < |s| ensures s[k] == t[k] {
      if k < a {
        assert s[..a][k] == t[..a][k];
      } else {
        assert s[b..][k - b] == t[b..][k - b];
      }
    }
  }

  /** An element of the range was in it before. */
  lemma MovedFrom<T>(s: seq<T>, t: seq<T>, a: int, b: int, k: int) returns (j: int)
    requires Moved(s, t, a, b) && a <= k < b
    ensures a <= j < b && s[j] == t[k]
  {
    assert t[a..b][k - a] in multiset(t[a..b]);
    assert t[k] in s[a..b];
    var i :| 0 <= i < b - a && s[a..b][i] == t[k];
    j := a + i;
  }

  lemma MovedBounds<T>(less: (T, T) -> bool, s: seq<T>, t: seq<T>, a: int, b: int, x: T)
    requires Moved(s, t, a, b)
    ensures NoneAbove(less, s, a, b, x) ==> NoneAbove(less, t, a, b, x)
    ensures NoneBelow(less, s, a, b, x) ==> NoneBelow(less, t, a, b, x)
  {
    forall k | a <= k < b
      ensures NoneAbove(less, s, a, b, x) ==> !less(x, t[k])
      ensures NoneBelow(less, s, a, b, x) ==> !less(t[k], x)
    {
      var j := MovedFrom(s, t, a, b, k);
    }
  }

  /** Rearranging one side of a split keeps it. */
  lemma MovedSplit<T>(less: (T, T) -> bool, s: seq<T>, t: seq<T>, a: int, m: int, b: int, lo: int, hi: int)
    requires Moved(s, t, lo, hi) && 0 <= a <= m <= b <= |s| && Split(less, s, a, m, b)
    requires (a <= lo && hi <= m) || (m <= lo && hi <= b)
    ensures Split(less, t, a, m, b)
  {
    MovedElsewhere(s, t, lo, hi);
    forall i, j | a <= i < m <= j < b ensures !less(t[j], t[i]) {
      if lo <= i < hi {
        var k := MovedFrom(s, t, lo, hi, i);
        assert !less(s[j], s[k]);
      } else if lo <= j < hi {
        var k := MovedFrom(s, t, lo, hi, j);
        assert !less(s[k], s[i]);
      }
    }
  }

  lemma SortedElsewhere<T>(less: (T, T) -> bool, s: seq<T>, t: seq<T>, a: int, b: int, lo: int, hi: int)
    requires Moved(s, t, lo, hi) && 0 <= a <= b <= |s| && Sorted(less, s, a, b) && (hi <= a || b <= lo)
    ensures Sorted(less, t, a, b)
  {
    MovedElsewhere(s, t, lo, hi);
  }

  lemma SortedJoin<T>(less: (T, T) -> bool, s: seq<T>, a: int, m: int, b: int)
    requires 0 <= a <= m <= b <= |s| && Sorted(less, s, a, m) && Sorted(less, s, m, b) && Split(less, s, a, m, b)
    ensures Sorted(less, s, a, b)
  {
  }

  // ----- exchanging two elements

  function Exchanged<T>(s: seq<T>, i: int, j: int): seq<T>
    requires 0 <= i < |s| && 0 <= j < |s|
  {
    s[i := s[j]][j := s[i]]
  }

  lemma ExchangeMoves<T>(s: seq<T>, i: int, j: int, a: int, b: int)
    requires 0 <= a <= i < b <= |s| && a <= j < b
    ensures Moved(s, Exchanged(s, i, j), a, b)
  {
    var t := Exchanged(s, i, j);
    assert t[a..b] == Exchanged(s[a..b], i - a, j - a);
    ExchangeKeeps(s[a..b], i - a, j - a);
  }

  lemma ExchangeKeeps<T>(s: seq<T>, i: int, j: int)
    requires 0 <= i < |s| && 0 <= j < |s|
    ensures multiset(Exchanged(s, i, j)) == multiset(s)
  {
  }

  method Swap<T>(v: array<T>, i: int, j: int)
    requires 0 <= i < v.Length && 0 <= j < v.Length
    modifies v
    ensures v[..] == Exchanged(old(v[..]), i, j)
  {
    v[i], v[j] := v[j], v[i];
  }

  /** t is s with elements i and j exchanged. */
  ghost predicate Exchange<T>(s: seq<T>, t: seq<T>, i: int, j: int)
    requires 0 <= i < |s| && 0 <= j < |s|
  {
    |s| == |t| && t[i] == s[j] && t[j] == s[i] && forall k :: 0 <= k < |s| && k != i && k != j ==> t[k] == s[k]
  }

  lemma ExchangeIs<T>(s: seq<T>, t: seq<T>, i: int, j: int)
    requires 0 <= i < |s| && 0 <= j < |s| && Exchange(s, t, i, j)
    ensures t == Exchanged(s, i, j)
  {
  }

  /** The same, with what it means for a range around the two. */
  method SwapIn<T>(v: array<T>, i: int, j: int, ghost a: int, ghost b: int)
    requires 0 <= a <= i < b <= v.Length && a <= j < b
    modifies v
    ensures Exchange(old(v[..]), v[..], i, j) && Moved(old(v[..]), v[..], a, b)
  {
    ExchangeMoves(v[..], i, j, a, b);
    Swap(v, i, j);
  }

  /** One more exchange, after s was rearranged. */
  method SwapSince<T>(v: array<T>, ghost s: seq<T>, i: int, j: int, ghost a: int, ghost b: int)
    requires Moved(s, v[..], a, b) && a <= i < b && a <= j < b
    modifies v
    ensures Exchange(old(v[..]), v[..], i, j) && Moved(s, v[..], a, b)
  {
    ghost var t := v[..];
    SwapIn(v, i, j, a, b);
    MovedTwice(s, t, v[..], a, b);
  }

  // ----- rotating two neighbouring blocks

  /** The blocks from a to m and from m to b change places. */
  function Rotated<T>(s: seq<T>, a: int, m: int, b: int): seq<T>
    requires 0 <= a <= m <= b <= |s|
  {
    s[..a] + s[m..b] + s[a..m] + s[b..]
  }

  lemma RotatedAt<T>(s: seq<T>, a: int, m: int, b: int)
    requires 0 <= a <= m <= b <= |s|
    ensures var t := Rotated(s, a, m, b);
            && |t| == |s|
            && (forall k :: 0 <= k < a || b <= k < |s| ==> t[k] == s[k])
            && (forall k :: a <= k < a + b - m ==> t[k] == s[k + m - a])
            && (forall k :: a + b - m <= k < b ==> t[k] == s[k + m - b])
  {
  }

  lemma RotateMoves<T>(s: seq<T>, a: int, m: int, b: int)
    requires 0 <= a <= m <= b <= |s|
    ensures Moved(s, Rotated(s, a, m, b), a, b)
  {
    var t := Rotated(s, a, m, b);
    assert t[..a] == s[..a] && t[b..] == s[b..];
    assert t[a..b] == s[m..b] + s[a..m] && s[a..b] == s[a..m] + s[m..b];
  }

  /** The last element of the range comes one place further to the front. */
  lemma RotateDown<T>(s: seq<T>, a: int, i: int)
    requires 0 < a <= i < |s|
    ensures Exchanged(Rotated(s, a, i, i + 1), a, a - 1) == Rotated(s, a - 1, i, i + 1)
  {
    RotatedAt(s, a, i, i + 1);
    RotatedAt(s, a - 1, i, i + 1);
    var t, u := Exchanged(Rotated(s, a, i, i + 1), a, a - 1), Rotated(s, a - 1, i, i + 1);
    assert |t| == |u| && forall k :: 0 <= k < |t| ==> t[k] == u[k];
  }

  /** The first element of the range comes one place further to the back. */
  lemma RotateUp<T>(s: seq<T>, a: int, k: int)
    requires 0 <= a <= k < |s| - 1
    ensures Exchanged(Rotated(s, a, a + 1, k + 1), k, k + 1) == Rotated(s, a, a + 1, k + 2)
  {
    RotatedAt(s, a, a + 1, k + 1);
    RotatedAt(s, a, a + 1, k + 2);
    var t, u := Exchanged(Rotated(s, a, a + 1, k + 1), k, k + 1), Rotated(s, a, a + 1, k + 2);
    assert |t| == |u| && forall j :: 0 <= j < |t| ==> t[j] == u[j];
  }

  lemma RotateNone<T>(s: seq<T>, a: int, b: int)
    requires 0 <= a <= b <= |s|
    ensures Rotated(s, a, a, b) == s == Rotated(s, a, b, b)
  {
  }

  // ----- equal elements

  /** The elements that the order does not tell from x, as they come. */
  function Alike<T>(less: (T, T) -> bool, s: seq<T>, x: T): seq<T> {
    if s == [] then []
    else Alike(less, s[..|s| - 1], x) + (if Equal(less, s[|s| - 1], x) then [s[|s| - 1]] else [])
  }

  predicate Equal<T>(less: (T, T) -> bool, x: T, y: T) {
    !less(x, y) && !less(y, x)
  }

  /** Elements that are alike come in the same order in both. */
  ghost predicate Stable<T(!new)>(less: (T, T) -> bool, s: seq<T>, t: seq<T>) {
    forall x :: Alike(less, s, x) == Alike(less, t, x)
  }

  lemma StableTwice<T(!new)>(less: (T, T) -> bool, s: seq<T>, t: seq<T>, u: seq<T>)
    requires Stable(less, s, t) && Stable(less, t, u)
    ensures Stable(less, s, u)
  {
    forall x ensures Alike(less, s, x) == Alike(less, u, x) {
      assert Alike(less, s, x) == Alike(less, t, x);
    }
  }

  lemma {:induction false} AlikeConcat<T>(less: (T, T) -> bool, s: seq<T>, t: seq<T>, x: T)
    ensures Alike(less, s + t, x) == Alike(less, s, x) + Alike(less, t, x)
  {
    if t == [] {
      assert s + t == s;
    } else {
      AlikeConcat(less, s, t[..|t| - 1], x);
      assert (s + t)[..|s + t| - 1] == s + t[..|t| - 1];
    }
  }

  lemma {:induction false} NoneAlike<T>(less: (T, T) -> bool, s: seq<T>, x: T)
    requires forall i :: 0 <= i < |s| ==> !Equal(less, s[i], x)
    ensures Alike(less, s, x) == []
  {
    if s != [] {
      NoneAlike(less, s[..|s| - 1], x);
    }
  }

  /** Blocks of which one belongs before the other as a whole can be rotated. */
  lemma RotateStable<T(!new)>(less: (T, T) -> bool, s: seq<T>, a: int, m: int, b: int)
    requires WeakOrder(less) && 0 <= a <= m <= b <= |s|
    requires forall i, j :: a <= i < m <= j < b ==> less(s[j], s[i])
    ensures Stable(less, s, Rotated(s, a, m, b))
  {
    forall x ensures Alike(less, s, x) == Alike(less, Rotated(s, a, m, b), x) {
      var u, w := s[a..m], s[m..b];
      OneIsUnlike(less, u, w, x);
      assert s == s[..a] + u + w + s[b..];
      AlikeBlocks(less, s[..a], u, w, s[b..], x);
      AlikeBlocks(less, s[..a], w, u, s[b..], x);
    }
  }

  lemma OneIsUnlike<T(!new)>(less: (T, T) -> bool, u: seq<T>, w: seq<T>, x: T)
    requires WeakOrder(less) && forall i, j :: 0 <= i < |u| && 0 <= j < |w| ==> less(w[j], u[i])
    ensures Alike(less, u, x) == [] || Alike(less, w, x) == []
  {
    if i :| 0 <= i < |u| && Equal(less, u[i], x) {
      forall j | 0 <= j < |w| ensures !Equal(less, w[j], x) {
        assert less(w[j], u[i]) && Chains(less, u[i], x, w[j]);
      }
      NoneAlike(less, w, x);
    } else {
      NoneAlike(less, u, x);
    }
  }

  lemma AlikeBlocks<T>(less: (T, T) -> bool, h: seq<T>, u: seq<T>, w: seq<T>, r: seq<T>, x: T)
    ensures Alike(less, h + u + w + r, x) ==
            Alike(less, h, x) + Alike(less, u, x) + Alike(less, w, x) + Alike(less, r, x)
  {
    AlikeConcat(less, h + u + w, r, x);
    AlikeConcat(less, h + u, w, x);
    AlikeConcat(less, h, u, x);
  }

  // ----- there is one stable sort

  lemma {:induction false} NeighboursSorted<T(!new)>(less: (T, T) -> bool, s: seq<T>, n: int)
    requires WeakOrder(less) && 0 <= n <= |s| && forall i :: 0 < i < |s| ==> !less(s[i], s[i - 1])
    ensures Sorted(less, s, 0, n)
    decreases n
  {
    if n > 1 {
      NeighboursSorted(less, s, n - 1);
      forall k | 0 <= k < n - 2 ensures !less(s[n - 1], s[k]) {
        Between(less, s[k], s[n - 2], s[n - 1]);
      }
    }
  }

  /** Sorted sequences in which equal elements come in the same order are the same. */
  lemma {:induction false} OneStableSort<T(!new)>(less: (T, T) -> bool, s: seq<T>, t: seq<T>)
    requires WeakOrder(less) && Sorted(less, s, 0, |s|) && Sorted(less, t, 0, |t|) && Stable(less, s, t)
    ensures s == t
    decreases |s|
  {
    if s == [] && t != [] {
      SameLast(less, t, s);
    } else if s != [] {
      SameLast(less, s, t);
      var f, g := s[..|s| - 1], t[..|t| - 1];
      forall x ensures Alike(less, f, x) == Alike(less, g, x) {
        FrontAlike(less, s, t, x);
      }
      OneStableSort(less, f, g);
      assert s == f + [s[|s| - 1]] && t == g + [t[|t| - 1]];
    }
  }

  lemma FrontAlike<T>(less: (T, T) -> bool, s: seq<T>, t: seq<T>, x: T)
    requires s != [] && t != [] && s[|s| - 1] == t[|t| - 1] && Alike(less, s, x) == Alike(less, t, x)
    ensures Alike(less, s[..|s| - 1], x) == Alike(less, t[..|t| - 1], x)
  {
    var f, g, last := Alike(less, s[..|s| - 1], x), Alike(less, t[..|t| - 1], x), s[|s| - 1];
    if Equal(less, last, x) {
      assert f == (f + [last])[..|f|] && g == (g + [last])[..|g|];
    } else {
      assert f + [] == f && g + [] == g;
    }
  }

  lemma SameLast<T(!new)>(less: (T, T) -> bool, s: seq<T>, t: seq<T>)
    requires WeakOrder(less) && Sorted(less, s, 0, |s|) && Sorted(less, t, 0, |t|) && Stable(less, s, t) && s != []
    ensures t != [] && s[|s| - 1] == t[|t| - 1]
  {
    var x := s[|s| - 1];
    LastAlike(less, s);
    NotAboveLast(less, t, x);
    var y := t[|t| - 1];
    LastAlike(less, t);
    NotAboveLast(less, s, y);
    assert Equal(less, y, x);
    assert Alike(less, t, x) == Alike(less, t[..|t| - 1], x) + [y];
  }

  lemma LastAlike<T(!new)>(less: (T, T) -> bool, s: seq<T>)
    requires WeakOrder(less) && s != []
    ensures Alike(less, s, s[|s| - 1]) != []
    ensures Alike(less, s, s[|s| - 1])[|Alike(less, s, s[|s| - 1])| - 1] == s[|s| - 1]
  {
  }

  /** In a sorted sequence nothing belongs behind the last element. */
  lemma NotAboveLast<T(!new)>(less: (T, T) -> bool, s: seq<T>, x: T)
    requires WeakOrder(less) && Sorted(less, s, 0, |s|) && Alike(less, s, x) != []
    ensures s != [] && !less(s[|s| - 1], x)
  {
    if forall i :: 0 <= i < |s| ==> !Equal(less, s[i], x) {
      NoneAlike(less, s, x);
    } else {
      var i :| 0 <= i < |s| && Equal(less, s[i], x);
      if i < |s| - 1 {
        Between(less, x, s[i], s[|s| - 1]);
      }
    }
  }
}
