/** How far apart two sequences are: the fewest single steps, right or down, on a way through their
    edit graph, and that labels grown row by row reach exactly the points that near. */
module Distance {
  import opened Labels
  import opened Lcs
  import opened Splices
  import opened Traces

  /** The most matches on a way from (0, 0) to (x, y); nothing matches beyond a and b. */
  ghost function Most<T>(a: seq<T>, b: seq<T>, x: nat, y: nat): nat
    decreases x + y
  {
    if x == 0 || y == 0 then 0
    else if Match(a, b, x - y, x - 1) then Most(a, b, x - 1, y - 1) + 1
    else
      var p, q := Most(a, b, x - 1, y), Most(a, b, x, y - 1);
      if p < q then q else p
  }

  /** The single steps on such a way. */
  ghost function Dist<T>(a: seq<T>, b: seq<T>, x: nat, y: nat): int {
    x + y - 2 * Most(a, b, x, y)
  }

  /** A step costs at most one, and never brings back more than one. */
  lemma {:induction false} MostSteps<T>(a: seq<T>, b: seq<T>, x: nat, y: nat)
    ensures Most(a, b, x, y) <= Most(a, b, x + 1, y) <= Most(a, b, x, y) + 1
    ensures Most(a, b, x, y) <= Most(a, b, x, y + 1) <= Most(a, b, x, y) + 1
    decreases x + y
  {
    if x > 0 {
      MostSteps(a, b, x - 1, y);
    }
    if y > 0 {
      MostSteps(a, b, x, y - 1);
    }
  }

  /** Along a diagonal the distance never falls. */
  lemma MostDiagonal<T>(a: seq<T>, b: seq<T>, x: nat, y: nat)
    ensures Most(a, b, x + 1, y + 1) <= Most(a, b, x, y) + 1
    ensures Match(a, b, x - y, x) ==> Most(a, b, x + 1, y + 1) == Most(a, b, x, y) + 1
  {
    MostSteps(a, b, x, y);
  }

  lemma {:induction false} DistBounds<T>(a: seq<T>, b: seq<T>, x: nat, y: nat)
    ensures Dist(a, b, x, y) >= x - y && Dist(a, b, x, y) >= y - x
    decreases x + y
  {
    if x > 0 && y > 0 {
      DistBounds(a, b, x - 1, y);
      DistBounds(a, b, x, y - 1);
      DistBounds(a, b, x - 1, y - 1);
    }
  }

  /** Where the last elements do not match, a shortest way ends with a step. */
  lemma LastStep<T>(a: seq<T>, b: seq<T>, x: nat, y: nat)
    requires x + y > 0 && !Match(a, b, x - y, x - 1)
    ensures || (x > 0 && Dist(a, b, x - 1, y) == Dist(a, b, x, y) - 1)
            || (y > 0 && Dist(a, b, x, y - 1) == Dist(a, b, x, y) - 1)
  {
  }

  lemma LastMatch<T>(a: seq<T>, b: seq<T>, x: nat, y: nat)
    requires Match(a, b, x - y, x - 1)
    ensures x > 0 && y > 0 && Dist(a, b, x - 1, y - 1) == Dist(a, b, x, y)
  {
  }

  lemma {:induction false} Diagonal<T>(a: seq<T>, b: seq<T>, x: nat, y: nat, u: nat, v: nat)
    requires u - x == v - y >= 0
    ensures Dist(a, b, x, y) <= Dist(a, b, u, v)
    ensures Snake(a, b, x - y, x, u) ==> Dist(a, b, u, v) == Dist(a, b, x, y)
    decreases u
  {
    if x < u {
      Diagonal(a, b, x, y, u - 1, v - 1);
      MostDiagonal(a, b, u - 1, v - 1);
      if Snake(a, b, x - y, x, u) {
        SnakeEnd(a, b, x - y, x, u);
      }
    }
  }

  /** Steps right and down cost at most their number. */
  lemma {:induction false} Walk<T>(a: seq<T>, b: seq<T>, x: nat, y: nat, u: nat, v: nat)
    requires x <= u && y <= v
    ensures Dist(a, b, u, v) <= Dist(a, b, x, y) + (u - x) + (v - y)
    ensures Most(a, b, x, y) <= Most(a, b, u, v)
    decreases u + v
  {
    if x < u {
      Walk(a, b, x, y, u - 1, v);
      MostSteps(a, b, u - 1, v);
    } else if y < v {
      Walk(a, b, x, y, u, v - 1);
      MostSteps(a, b, u, v - 1);
    }
  }

  // ----- common subsequences and edits are ways

  /** A common subsequence, and none matches more. */
  ghost predicate Longest<T(!new)>(lcs: seq<Diag>, a: seq<T>, b: seq<T>) {
    Common(lcs, a, b) && forall other :: Common(other, a, b) ==> Size(other) <= Size(lcs)
  }

  /** No replacements that make b of a delete and insert less. */
  ghost predicate Shortest<T(!new)>(edits: seq<Splice<T>>, a: seq<T>, b: seq<T>) {
    forall other :: Valid(other, |a|) && Apply(a, other) == b ==> Cost(edits) <= Cost(other)
  }

  /** Some replacements that make b of a delete and insert fewer than n elements. */
  ghost predicate CanBeClose<T(!new)>(a: seq<T>, b: seq<T>, n: int) {
    exists edits :: Valid(edits, |a|) && Apply(a, edits) == b && Cost(edits) < n
  }

  /** If the sequences can be that close, the common subsequence is a longest one and the
      replacements are the shortest. */
  ghost predicate BestWithin<T(!new)>(edits: seq<Splice<T>>, lcs: seq<Diag>, a: seq<T>, b: seq<T>, n: int) {
    CanBeClose(a, b, n) ==> Longest(lcs, a, b) && Shortest(edits, a, b)
  }

  /** The replacements are as few as the sequences are apart, if that is less than n. */
  ghost predicate AsFewWithin<T>(edits: seq<Splice<T>>, a: seq<T>, b: seq<T>, n: int) {
    Dist(a, b, |a|, |b|) < n ==> Cost(edits) <= Dist(a, b, |a|, |b|)
  }

  /** A way within the distance is a longest common subsequence and leaves a shortest list of
      replacements. */
  lemma Optimal<T(!new)>(edits: seq<Splice<T>>, lcs: seq<Diag>, a: seq<T>, b: seq<T>, n: int)
    requires Common(lcs, a, b) && Cost(edits) == |a| + |b| - 2 * Size(lcs)
    requires AsFewWithin(edits, a, b, n)
    ensures BestWithin(edits, lcs, a, b, n)
  {
    forall other | Common(other, a, b) ensures Size(other) <= Most(a, b, |a|, |b|) {
      CommonWithin(other, a, b, |a|, |b|);
    }
    forall other | Valid(other, |a|) && Apply(a, other) == b ensures Dist(a, b, |a|, |b|) <= Cost(other) {
      EditsCost(other, a, b);
    }
  }

  /** Equal sequences are not apart. */
  lemma NoneForEqual<T>(edits: seq<Splice<T>>, a: seq<T>, b: seq<T>, n: nat)
    requires Valid(edits, |a|) && Separated(edits) && AsFewWithin(edits, a, b, n) && n > 0
    ensures a == b ==> edits == []
  {
    if a == b {
      Diagonal(a, b, 0, 0, |a|, |b|);
      CostOfSome(edits, |a|);
    }
  }

  /** No common subsequence has more matches. */
  lemma {:induction false} CommonWithin<T>(lcs: seq<Diag>, a: seq<T>, b: seq<T>, x: nat, y: nat)
    requires Common(lcs, a, b) && EndsBy(lcs, x, y)
    ensures Size(lcs) <= Most(a, b, x, y)
  {
    if lcs != [] {
      var n := |lcs| - 1;
      var d := lcs[n];
      assert Matches(d, a, b);
      Init(lcs, a, b, 0, 0, x, y);
      CommonWithin(lcs[..n], a, b, d.x, d.y);
      DiagonalSnake(d, a, b);
      Diagonal(a, b, d.x, d.y, d.x + d.len, d.y + d.len);
      Walk(a, b, d.x + d.len, d.y + d.len, x, y);
    }
  }

  lemma CommonDist<T>(lcs: seq<Diag>, a: seq<T>, b: seq<T>)
    requires Common(lcs, a, b)
    ensures Dist(a, b, |a|, |b|) <= |a| + |b| - 2 * Size(lcs)
  {
    CommonWithin(lcs, a, b, |a|, |b|);
  }

  lemma DiagonalSnake<T>(d: Diag, a: seq<T>, b: seq<T>)
    requires Matches(d, a, b)
    ensures Snake(a, b, d.x - d.y, d.x, d.x + d.len)
  {
    var s, t, k := a[d.x..d.x + d.len], b[d.y..d.y + d.len], d.x - d.y;
    forall i | d.x <= i < d.x + d.len ensures Match(a, b, k, i) {
      assert s[i - d.x] == a[i] && t[i - d.x] == b[i - k];
    }
  }

  /** No replacements that make b of a delete and insert less. */
  lemma EditsCost<T>(edits: seq<Splice<T>>, a: seq<T>, b: seq<T>)
    requires Valid(edits, |a|) && Apply(a, edits) == b
    ensures Dist(a, b, |a|, |b|) <= Cost(edits)
  {
    var x, out := End(edits), Out(a, edits);
    EndWithin(edits, |a|);
    assert b[..|out|] == out && b[|out|..] == a[x..];
    OutCost(edits, a, b);
    var k := x - |out|;
    forall i | x <= i < |a| ensures Match(a, b, k, i) {
      assert a[i] == a[x..][i - x] == b[|out|..][i - x];
    }
    Diagonal(a, b, x, |out|, |a|, |b|);
  }

  lemma EndWithin<T>(edits: seq<Splice<T>>, n: nat)
    requires Valid(edits, n)
    ensures End(edits) <= n
  {
  }

  lemma {:induction false} OutCost<T>(edits: seq<Splice<T>>, a: seq<T>, b: seq<T>)
    requires Valid(edits, |a|) && Out(a, edits) <= b
    ensures Dist(a, b, End(edits), |Out(a, edits)|) <= Cost(edits)
  {
    if edits != [] {
      var front, e := Front(edits), Last(edits);
      var x, out, keep := End(front), Out(a, front), a[End(front)..e.start];
      OutCost(front, a, b);
      var k := x - |out|;
      forall i | x <= i < e.start ensures Match(a, b, k, i) {
        assert (out + keep + e.ins)[|out| + i - x] == keep[i - x] == a[i];
      }
      SnakeAndWalk(a, b, k, x, |out|, e.start, |out| + |keep|, End(edits), |Out(a, edits)|);
    }
  }

  lemma SnakeAndWalk<T>(a: seq<T>, b: seq<T>, k: int, p: nat, q: nat, x: nat, y: nat, u: nat, v: nat)
    requires x - p == y - q >= 0 && k == p - q && Snake(a, b, k, p, x) && x <= u && y <= v
    ensures Dist(a, b, u, v) <= Dist(a, b, p, q) + (u - x) + (v - y)
  {
    Diagonal(a, b, p, q, x, y);
    Walk(a, b, x, y, u, v);
  }

  // ----- labels reach exactly the points that near

  /** Every label of row d is within d steps. */
  lemma {:induction false} LabelNear<T>(a: seq<T>, b: seq<T>, vec: seq<seq<int>>, d: nat, j: nat)
    requires j <= d < |vec| && Rows(a, b, vec, d + 1) && |vec[d]| == d + 1
    ensures Near(a, b, vec[d], j)
    decreases d
  {
    var x := vec[d][j];
    assert RowReached(a, b, vec, d) && Reached(a, b, Prev(vec, d), j, x);
    if d == 0 {
      Diagonal(a, b, 0, 0, x, x);
    } else {
      assert RowReached(a, b, vec, d - 1);
      if j > 0 {
        LabelNear(a, b, vec, d - 1, j - 1);
      }
      if j < d {
        LabelNear(a, b, vec, d - 1, j);
      }
      NextNear(a, b, vec[d - 1], j, x, Y(vec[d], j));
    }
  }

  ghost predicate Near<T>(a: seq<T>, b: seq<T>, row: seq<int>, j: nat)
    requires j < |row|
  {
    row[j] >= 0 && Y(row, j) >= 0 && Dist(a, b, row[j], Y(row, j)) < |row|
  }

  /** A label on the diagonal k of row d is within d steps of the origin. */
  lemma AtNear<T>(a: seq<T>, b: seq<T>, vec: seq<seq<int>>, d: nat, k: int)
    requires d < |vec| && Rows(a, b, vec, d + 1) && |vec[d]| == d + 1 && On(vec[d], k)
    ensures var x := At(vec[d], k);
            0 <= x && 0 <= x - k && Dist(a, b, x, x - k) <= d
  {
    LabelNear(a, b, vec, d, (d + k) / 2);
  }

  lemma NextNear<T>(a: seq<T>, b: seq<T>, prev: seq<int>, j: nat, x: nat, y: nat)
    requires prev != [] && Reached(a, b, prev, j, x) && y == x - (2 * j - |prev|)
    requires j > 0 ==> Near(a, b, prev, j - 1)
    requires j < |prev| ==> Near(a, b, prev, j)
    ensures Dist(a, b, x, y) <= |prev|
  {
    var k := 2 * j - |prev|;
    if j > 0 && Snake(a, b, k, prev[j - 1] + 1, x) {
      StepAndSnake(a, b, prev[j - 1], Y(prev, j - 1), 1, 0, k, x, y);
    } else {
      StepAndSnake(a, b, prev[j], Y(prev, j), 0, 1, k, x, y);
    }
  }

  lemma StepAndSnake<T>(a: seq<T>, b: seq<T>, p: nat, q: nat, right: nat, down: nat, k: int, x: nat, y: nat)
    requires right + down == 1 && k == p + right - (q + down) == x - y && Snake(a, b, k, p + right, x)
    ensures Dist(a, b, x, y) <= Dist(a, b, p, q) + 1
  {
    MostSteps(a, b, p, q);
    Diagonal(a, b, p + right, q + down, x, y);
  }

  /** If (p, q) is as near as the row, the row's label on its diagonal is not before it. */
  ghost predicate Covers<T>(a: seq<T>, b: seq<T>, row: seq<int>, p: nat, q: nat) {
    Dist(a, b, p, q) < |row| && Even(|row| - 1 + p - q) ==> On(row, p - q) && p <= At(row, p - q)
  }

  ghost predicate Furthest<T>(a: seq<T>, b: seq<T>, row: seq<int>, u: int, v: int) {
    forall p: nat, q: nat :: p <= u && q <= v ==> Covers(a, b, row, p, q)
  }

  /** The row after a furthest one is furthest. */
  lemma NextFurthest<T>(a: seq<T>, b: seq<T>, prev: seq<int>, row: seq<int>, u: int, v: int)
    requires RowStep(prev, row, u, v) && Stopped(a, b, row, u, v) && AtLeast(row, 0)
    requires prev == [] || Furthest(a, b, prev, u, v)
    ensures Furthest(a, b, row, u, v)
  {
    forall p: nat, q: nat | p <= u && q <= v ensures Covers(a, b, row, p, q) {
      NextCovers(a, b, prev, row, u, v, p, q);
    }
  }

  lemma {:induction false} NextCovers<T>(a: seq<T>, b: seq<T>, prev: seq<int>, row: seq<int>, u: int, v: int, p: nat,
                                         q: nat)
    requires RowStep(prev, row, u, v) && Stopped(a, b, row, u, v) && AtLeast(row, 0)
    requires prev == [] || Furthest(a, b, prev, u, v)
    requires p <= u && q <= v
    ensures Covers(a, b, row, p, q)
    decreases p + q
  {
    if p > 0 && Match(a, b, p - q, p - 1) {
      NextCovers(a, b, prev, row, u, v, p - 1, q - 1);
      CoversMatch(a, b, row, u, v, p, q);
    } else if p + q > 0 {
      CoversStep(a, b, prev, row, u, v, p, q);
    } else {
      assert Even(|row| - 1) ==> At(row, 0) >= 0;
    }
  }

  lemma CoversMatch<T>(a: seq<T>, b: seq<T>, row: seq<int>, u: int, v: int, p: nat, q: nat)
    requires Stopped(a, b, row, u, v) && 0 < p <= u && 0 < q <= v && Match(a, b, p - q, p - 1)
    requires Covers(a, b, row, p - 1, q - 1)
    ensures Covers(a, b, row, p, q)
  {
    LastMatch(a, b, p, q);
    if On(row, p - q) {
      var j := (|row| - 1 + p - q) / 2;
      assert StopsAt(a, b, 2 * j - (|row| - 1), row[j], u, v);
    }
  }

  lemma CoversStep<T>(a: seq<T>, b: seq<T>, prev: seq<int>, row: seq<int>, u: int, v: int, p: nat, q: nat)
    requires RowStep(prev, row, u, v) && (prev == [] || Furthest(a, b, prev, u, v))
    requires p <= u && q <= v && p + q > 0 && !Match(a, b, p - q, p - 1)
    ensures Covers(a, b, row, p, q)
  {
    LastStep(a, b, p, q);
    DistBounds(a, b, p, q);
    if On(row, p - q) {
      var j := (|row| - 1 + p - q) / 2;
      assert StepAt(prev, j, row[j], u, v);
    }
    if p > 0 && Dist(a, b, p - 1, q) == Dist(a, b, p, q) - 1 {
      DistBounds(a, b, p - 1, q);
      assert prev != [] ==> Covers(a, b, prev, p - 1, q);
    } else {
      DistBounds(a, b, p, q - 1);
      assert prev != [] ==> Covers(a, b, prev, p, q - 1);
    }
  }

  lemma RowDoneFurthest<T>(a: seq<T>, b: seq<T>, vec: seq<seq<int>>, d: nat, u: int, v: int, stop: bool)
    requires RowDone(a, b, vec, d, u, v, stop) && Furthest(a, b, vec[d], u, v)
    ensures Furthest(a, b, vec[d + 1], u, v)
  {
    assert RowReached(a, b, vec, d + 1);
    NextFurthest(a, b, vec[d], vec[d + 1], u, v);
  }

  /** A corner that a furthest row is short of is further than the row, if it is no nearer. */
  lemma CornerFurther<T>(a: seq<T>, b: seq<T>, row: seq<int>, u: nat, v: nat)
    requires row != [] && Furthest(a, b, row, u, v) && ShortOfCorner(row, u, v) && Dist(a, b, u, v) >= |row| - 1
    ensures Dist(a, b, u, v) >= |row|
  {
    if Dist(a, b, u, v) == |row| - 1 {
      CornerReached(a, b, row, u, v);
    }
  }

  lemma CornerReached<T>(a: seq<T>, b: seq<T>, row: seq<int>, u: nat, v: nat)
    requires row != [] && Furthest(a, b, row, u, v) && Dist(a, b, u, v) == |row| - 1
    ensures !ShortOfCorner(row, u, v)
  {
    assert Covers(a, b, row, u, v);
    var j := (|row| - 1 + u - v) / 2;
    assert row[j] + Y(row, j) >= u + v;
  }

  // ----- both ends

  ghost function Reverse<T>(s: seq<T>): (r: seq<T>)
    ensures |r| == |s| && forall i :: 0 <= i < |s| ==> r[i] == s[|s| - 1 - i]
  {
    seq(|s|, i requires 0 <= i < |s| => s[|s| - 1 - i])
  }

  /** The same for backward rows, seen from the other end. */
  ghost predicate FurthestBack<T>(a: seq<T>, b: seq<T>, row: seq<int>) {
    Furthest(Reverse(a), Reverse(b), Mirror(row, |a|), |a|, |b|)
  }

  lemma BackFurthest<T>(a: seq<T>, b: seq<T>, prev: seq<int>, row: seq<int>)
    requires RowBack(prev, row, |a|, |b|) && StoppedBack(a, b, row) && AtMost(row, |a|)
    requires prev == [] || FurthestBack(a, b, prev)
    ensures FurthestBack(a, b, row)
  {
    MirrorStep(prev, row, |a|, |b|);
    MirrorStopped(a, b, row);
    NextFurthest(Reverse(a), Reverse(b), Mirror(prev, |a|), Mirror(row, |a|), |a|, |b|);
  }

  lemma MirrorStopped<T>(a: seq<T>, b: seq<T>, row: seq<int>)
    requires StoppedBack(a, b, row) && AtMost(row, |a|)
    ensures Stopped(Reverse(a), Reverse(b), Mirror(row, |a|), |a|, |b|)
  {
    var r := Mirror(row, |a|);
    forall i | 0 <= i < |r| ensures StopsAt(Reverse(a), Reverse(b), 2 * i - (|r| - 1), r[i], |a|, |b|) {
      var j := |row| - 1 - i;
      assert StopsBack(a, b, 2 * j - (|row| - 1) + |a| - |b|, row[j]);
    }
  }

  lemma RowDoneFurthestBack<T>(a: seq<T>, b: seq<T>, vec: seq<seq<int>>, d: nat)
    requires RowDoneBack(a, b, vec, d) && FurthestBack(a, b, vec[d])
    ensures FurthestBack(a, b, vec[d + 1])
  {
    assert RowReachedBack(a, b, vec, d + 1);
    BackFurthest(a, b, vec[d], vec[d + 1]);
  }

  /** The single steps on a shortest way from (x, y) to the far corner. */
  ghost function BackDist<T>(a: seq<T>, b: seq<T>, x: nat, y: nat): int
    requires x <= |a| && y <= |b|
  {
    Dist(Reverse(a), Reverse(b), |a| - x, |b| - y)
  }

  lemma BackSteps<T>(a: seq<T>, b: seq<T>, x: nat, y: nat)
    requires x <= |a| && y <= |b|
    ensures x > 0 ==> BackDist(a, b, x - 1, y) <= BackDist(a, b, x, y) + 1
    ensures y > 0 ==> BackDist(a, b, x, y - 1) <= BackDist(a, b, x, y) + 1
    ensures Match(a, b, x - y, x - 1) ==> BackDist(a, b, x - 1, y - 1) == BackDist(a, b, x, y)
  {
    var p, q := |a| - x, |b| - y;
    MostSteps(Reverse(a), Reverse(b), p, q);
    MostDiagonal(Reverse(a), Reverse(b), p, q);
    assert |a| - (x - 1) == p + 1 && |b| - (y - 1) == q + 1;
  }

  lemma {:induction false} BackDiagonal<T>(a: seq<T>, b: seq<T>, x: nat, y: nat, u: nat, v: nat)
    requires x <= u <= |a| && y <= v <= |b| && u - x == v - y && Snake(a, b, x - y, x, u)
    ensures BackDist(a, b, x, y) == BackDist(a, b, u, v)
    decreases u
  {
    if x < u {
      SnakeEnd(a, b, x - y, x, u);
      BackSteps(a, b, u, v);
      BackDiagonal(a, b, x, y, u - 1, v - 1);
    }
  }

  /** From a point on a shortest way back to one at distance f: what is behind it is no further than
      the rest. */
  lemma {:induction false} SplitFrom<T>(a: seq<T>, b: seq<T>, x: nat, y: nat, f: nat, total: int)
    returns (p: nat, q: nat)
    requires x <= |a| && y <= |b| && f <= Dist(a, b, x, y)
    requires BackDist(a, b, x, y) <= total - Dist(a, b, x, y)
    ensures p <= |a| && q <= |b| && Dist(a, b, p, q) == f
    ensures BackDist(a, b, p, q) <= total - f
    decreases x + y
  {
    if Dist(a, b, x, y) == f {
      p, q := x, y;
    } else {
      p, q := OneBack(a, b, x, y, total);
      p, q := SplitFrom(a, b, p, q, f, total);
    }
  }

  /** One match or one step back. */
  lemma OneBack<T>(a: seq<T>, b: seq<T>, x: nat, y: nat, total: int) returns (p: nat, q: nat)
    requires x <= |a| && y <= |b| && Dist(a, b, x, y) > 0
    requires BackDist(a, b, x, y) <= total - Dist(a, b, x, y)
    ensures p <= x && q <= y && p + q < x + y && Dist(a, b, p, q) >= Dist(a, b, x, y) - 1
    ensures BackDist(a, b, p, q) <= total - Dist(a, b, p, q)
  {
    BackSteps(a, b, x, y);
    if Match(a, b, x - y, x - 1) {
      LastMatch(a, b, x, y);
      p, q := x - 1, y - 1;
    } else {
      LastStep(a, b, x, y);
      if x > 0 && Dist(a, b, x - 1, y) == Dist(a, b, x, y) - 1 {
        p, q := x - 1, y;
      } else {
        p, q := x, y - 1;
      }
    }
  }

  /** Furthest rows from both ends that have not met: the ends are further apart than both rows
      together, if they are no nearer. */
  lemma ApartIsFurther<T>(a: seq<T>, b: seq<T>, f: seq<int>, g: seq<int>)
    requires f != [] && g != [] && Apart(f, g, |a| - |b|)
    requires Furthest(a, b, f, |a|, |b|) && FurthestBack(a, b, g)
    requires Dist(a, b, |a|, |b|) >= |f| - 1 + |g| - 1
    ensures Dist(a, b, |a|, |b|) > |f| - 1 + |g| - 1
  {
    var total, df, db := Dist(a, b, |a|, |b|), |f| - 1, |g| - 1;
    if total == df + db {
      var p, q := SplitFrom(a, b, |a|, |b|, df, total);
      MeetOnWay(a, b, f, g, p, q);
    }
  }

  lemma MeetOnWay<T>(a: seq<T>, b: seq<T>, f: seq<int>, g: seq<int>, p: nat, q: nat)
    requires f != [] && g != [] && p <= |a| && q <= |b|
    requires Furthest(a, b, f, |a|, |b|) && FurthestBack(a, b, g)
    requires Dist(a, b, p, q) == |f| - 1 && BackDist(a, b, p, q) <= |g| - 1
    requires Dist(a, b, |a|, |b|) == |f| - 1 + |g| - 1
    ensures Meet(f, g, |a| - |b|, p - q)
  {
    var r, x, y := Mirror(g, |a|), |a| - p, |b| - q;
    assert Covers(a, b, f, p, q);
    assert Covers(Reverse(a), Reverse(b), r, x, y);
    assert Even(|g| - 1 + x - y);
    var i := (|g| - 1 + x - y) / 2;
    assert r[i] == |a| - g[|g| - 1 - i];
  }
}
