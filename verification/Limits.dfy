/** What the diff search finds when it stops at its limit: only matches within that many steps of an
    end, so it can miss what lies between. */
module Limits {
  import opened Distance
  import opened Labels
  import opened Lcs
  import opened Traces

  // ----- traces stay near where they came from

  lemma SpotNear<T>(a: seq<T>, b: seq<T>, vec: seq<seq<int>>, s: Spot)
    requires OnWay(a, b, vec, s)
    ensures s.x >= 0 && s.Y() >= 0 && Dist(a, b, s.x, s.Y()) <= s.d
  {
    if s.d == 0 {
      Diagonal(a, b, 0, 0, s.x, s.x);
    } else {
      NeighboursNear(a, b, vec, s.d, s.j);
      NextNear(a, b, vec[s.d - 1], s.j, s.x, s.Y());
    }
  }

  lemma NeighboursNear<T>(a: seq<T>, b: seq<T>, vec: seq<seq<int>>, d: nat, j: nat)
    requires 0 < d < |vec| && j <= d && Rows(a, b, vec, d)
    ensures |vec[d - 1]| == d
    ensures (j > 0 ==> Near(a, b, vec[d - 1], j - 1)) && (j < d ==> Near(a, b, vec[d - 1], j))
  {
    assert RowReached(a, b, vec, d - 1);
    if j > 0 {
      LabelNear(a, b, vec, d - 1, j - 1);
    }
    if j < d {
      LabelNear(a, b, vec, d - 1, j);
    }
  }

  lemma MirrorSnake<T>(a: seq<T>, b: seq<T>, k: int, s: int, x: int)
    requires Snake(a, b, k, s, x)
    ensures Snake(Reverse(a), Reverse(b), |a| - |b| - k, |a| - x, |a| - s)
  {
    var l := |a| - |b| - k;
    forall i | |a| - x <= i < |a| - s ensures Match(Reverse(a), Reverse(b), l, i) {
      assert Match(a, b, k, |a| - 1 - i);
    }
  }

  /** Seen from the far corner, a backward label is a forward one. */
  lemma MirrorReached<T>(a: seq<T>, b: seq<T>, prev: seq<int>, j: nat, x: int)
    requires ReachedBack(a, b, prev, j, x)
    ensures Reached(Reverse(a), Reverse(b), Mirror(prev, |a|), |prev| - j, |a| - x)
  {
    var k, r := 2 * j - |prev| + |a| - |b|, Mirror(prev, |a|);
    if prev == [] {
      MirrorSnake(a, b, k, x, |a|);
    } else if j > 0 && Snake(a, b, k, x, prev[j - 1]) {
      MirrorSnake(a, b, k, x, prev[j - 1]);
      assert r[|prev| - j] == |a| - prev[j - 1];
    } else {
      MirrorSnake(a, b, k, x, prev[j] - 1);
      assert r[|prev| - j - 1] == |a| - prev[j];
    }
  }

  /** Label j of a backward row, seen from the far corner, is as near as the row. */
  ghost predicate NearBack<T>(a: seq<T>, b: seq<T>, row: seq<int>, j: nat)
    requires j < |row|
  {
    Near(Reverse(a), Reverse(b), Mirror(row, |a|), |row| - 1 - j)
  }

  lemma NextNearBack<T>(a: seq<T>, b: seq<T>, prev: seq<int>, j: nat, x: int, p: nat, q: nat)
    requires prev != [] && ReachedBack(a, b, prev, j, x) && p == |a| - x && q == |a| - (x - (2 * j - |prev|))
    requires (j > 0 ==> NearBack(a, b, prev, j - 1)) && (j < |prev| ==> NearBack(a, b, prev, j))
    ensures Dist(Reverse(a), Reverse(b), p, q) <= |prev|
  {
    MirrorReached(a, b, prev, j, x);
    NextNear(Reverse(a), Reverse(b), Mirror(prev, |a|), |prev| - j, p, q);
  }

  lemma FirstNearBack<T>(a: seq<T>, b: seq<T>, x: int)
    requires ReachedBack(a, b, [], 0, x)
    ensures Dist(Reverse(a), Reverse(b), |a| - x, |a| - x) <= 0
  {
    MirrorReached(a, b, [], 0, x);
    assert Mirror([], |a|) == [];
    Diagonal(Reverse(a), Reverse(b), 0, 0, |a| - x, |a| - x);
  }

  lemma {:induction false} LabelNearBack<T>(a: seq<T>, b: seq<T>, vec: seq<seq<int>>, d: nat, j: nat)
    requires j <= d < |vec| && RowsBack(a, b, vec, d + 1) && |vec[d]| == d + 1
    ensures NearBack(a, b, vec[d], j)
    decreases d
  {
    if d > 0 {
      assert RowReachedBack(a, b, vec, d - 1);
      if j > 0 {
        LabelNearBack(a, b, vec, d - 1, j - 1);
      }
      if j < d {
        LabelNearBack(a, b, vec, d - 1, j);
      }
    }
    assert RowReachedBack(a, b, vec, d) && ReachedBack(a, b, Prev(vec, d), j, vec[d][j]);
    EntryNearBack(a, b, Prev(vec, d), vec[d], j);
  }

  lemma EntryNearBack<T>(a: seq<T>, b: seq<T>, prev: seq<int>, row: seq<int>, j: nat)
    requires |row| == |prev| + 1 && j <= |prev| && ReachedBack(a, b, prev, j, row[j])
    requires (j > 0 ==> NearBack(a, b, prev, j - 1)) && (j < |prev| ==> NearBack(a, b, prev, j))
    ensures NearBack(a, b, row, j)
  {
    var p, q := |a| - row[j], |a| - Y(row, j);
    if prev == [] {
      FirstNearBack(a, b, row[j]);
    } else {
      NextNearBack(a, b, prev, j, row[j], p, q);
    }
    MirrorNear(a, b, row, j, p, q);
  }

  lemma MirrorNear<T>(a: seq<T>, b: seq<T>, row: seq<int>, j: nat, p: nat, q: nat)
    requires j < |row| && p == |a| - row[j] && q == |a| - Y(row, j) && Dist(Reverse(a), Reverse(b), p, q) < |row|
    ensures NearBack(a, b, row, j)
  {
    var r, i := Mirror(row, |a|), |row| - 1 - j;
    assert r[i] == p && Y(r, i) == q;
  }

  lemma SpotNearBack<T>(a: seq<T>, b: seq<T>, vec: seq<seq<int>>, s: Spot)
    requires OnWayBack(a, b, vec, s)
    ensures s.x <= |a| && s.Y() <= |a| && Dist(Reverse(a), Reverse(b), |a| - s.x, |a| - s.Y()) <= s.d
  {
    if s.d == 0 {
      FirstNearBack(a, b, s.x);
    } else {
      NeighboursNearBack(a, b, vec, s.d, s.j);
      NextNearBack(a, b, vec[s.d - 1], s.j, s.x, |a| - s.x, |a| - s.Y());
    }
  }

  lemma NeighboursNearBack<T>(a: seq<T>, b: seq<T>, vec: seq<seq<int>>, d: nat, j: nat)
    requires 0 < d < |vec| && j <= d && RowsBack(a, b, vec, d)
    ensures |vec[d - 1]| == d
    ensures (j > 0 ==> NearBack(a, b, vec[d - 1], j - 1)) && (j < d ==> NearBack(a, b, vec[d - 1], j))
  {
    assert RowReachedBack(a, b, vec, d - 1);
    if j > 0 {
      LabelNearBack(a, b, vec, d - 1, j - 1);
    }
    if j < d {
      LabelNearBack(a, b, vec, d - 1, j);
    }
  }

  // ----- and so do the diagonals they collect

  ghost predicate NearStart<T>(d: Diag, a: seq<T>, b: seq<T>, n: int) {
    0 <= d.x && 0 <= d.y && Dist(a, b, d.x, d.y) <= n
  }

  ghost predicate NearEnd<T>(d: Diag, a: seq<T>, b: seq<T>, n: int) {
    0 <= d.x + d.len <= |a| && 0 <= d.y + d.len <= |b| && BackDist(a, b, d.x + d.len, d.y + d.len) <= n
  }

  /** Every diagonal starts within n steps of (0, 0) or ends within n steps of the far corner. */
  ghost predicate NearEnds<T>(lcs: seq<Diag>, a: seq<T>, b: seq<T>, n: int) {
    forall i :: 0 <= i < |lcs| ==> NearStart(lcs[i], a, b, n) || NearEnd(lcs[i], a, b, n)
  }

  /** f matches as many elements as any way of up to n steps from (0, 0). */
  ghost predicate MostFromStart<T>(f: seq<Diag>, a: seq<T>, b: seq<T>, n: int) {
    forall p: nat, q: nat :: p <= |a| && q <= |b| && Dist(a, b, p, q) <= n ==> Most(a, b, p, q) <= Size(f)
  }

  /** The same from the far corner. */
  ghost predicate MostFromEnd<T>(g: seq<Diag>, a: seq<T>, b: seq<T>, n: int) {
    MostFromStart(g, Reverse(a), Reverse(b), n)
  }

  /** Where the infinity of the search lies. */
  const INFINITY := 0x200_0000

  /** lcs is put together from two ways of up to n steps, one from each end, that match as many elements
      as any; from the far corner as long as x + y is below the search's infinity. */
  ghost predicate FromParts<T>(lcs: seq<Diag>, f: seq<Diag>, g: seq<Diag>, a: seq<T>, b: seq<T>, n: int) {
    && Common(f, a, b) && Common(g, a, b) && (forall i :: 0 <= i < |lcs| ==> FromOne(lcs[i], f + g))
    && AllNearStart(f, a, b, n) && AllNearEnd(g, a, b, n)
    && MostFromStart(f, a, b, n) && (|a| + |b| < INFINITY ==> MostFromEnd(g, a, b, n))
  }

  /** So it is for all common subsequences found in a search up to n that did not meet. */
  ghost predicate StaysNear<T>(lcs: seq<Diag>, a: seq<T>, b: seq<T>, n: int) {
    Dist(a, b, |a|, |b|) >= 2 * n ==> exists f, g :: FromParts(lcs, f, g, a, b, n)
  }

  ghost predicate AllNearStart<T>(lcs: seq<Diag>, a: seq<T>, b: seq<T>, n: int) {
    forall i :: 0 <= i < |lcs| ==> NearStart(lcs[i], a, b, n)
  }

  ghost predicate AllNearEnd<T>(lcs: seq<Diag>, a: seq<T>, b: seq<T>, n: int) {
    forall i :: 0 <= i < |lcs| ==> NearEnd(lcs[i], a, b, n)
  }

  lemma {:induction false} GatherNNear<T>(a: seq<T>, b: seq<T>, vec: seq<seq<int>>, s: Spot, n: nat)
    requires OnWay(a, b, vec, s)
    ensures BackN(vec, s, n).d <= s.d && AllNearStart(GatherN(vec, s, n), a, b, s.d)
    decreases n
  {
    if n > 0 {
      GatherNNear(a, b, vec, s, n - 1);
      BackNOnWay(a, b, vec, s, n - 1);
      BackStepNear(a, b, vec, BackN(vec, s, n - 1), GatherN(vec, s, n - 1), s.d);
    }
  }

  lemma BackStepNear<T>(a: seq<T>, b: seq<T>, vec: seq<seq<int>>, s: Spot, ans: seq<Diag>, n: int)
    requires OnWay(a, b, vec, s) && s.d <= n && AllNearStart(ans, a, b, n)
    ensures BackStep(vec, s).d <= n && AllNearStart(GatherStep(vec, s, ans), a, b, n)
  {
    if !AtOrigin(s) {
      BackOnWay(a, b, vec, s);
      var t := Back(vec, s);
      SpotNear(a, b, vec, t);
      if t.d == s.d {
        PrependNear(ans, t.x, t.Y(), a, b, n);
      }
    }
  }

  lemma PrependNear<T>(ans: seq<Diag>, x: int, y: int, a: seq<T>, b: seq<T>, n: int)
    requires 0 <= x && 0 <= y && Dist(a, b, x, y) <= n && AllNearStart(ans, a, b, n)
    ensures AllNearStart(Prepend(ans, x, y), a, b, n)
  {
  }

  lemma {:induction false} GatherOnNNear<T>(a: seq<T>, b: seq<T>, vec: seq<seq<int>>, s: Spot, i: nat)
    requires OnWayBack(a, b, vec, s)
    ensures OnN(vec, s, |a|, i).d <= s.d && AllNearEnd(GatherOnN(vec, s, |a|, |a| - |b|, i), a, b, s.d)
    decreases i
  {
    if i > 0 {
      GatherOnNNear(a, b, vec, s, i - 1);
      OnNOnWay(a, b, vec, s, i - 1);
      OnStepNear(a, b, vec, OnN(vec, s, |a|, i - 1), GatherOnN(vec, s, |a|, |a| - |b|, i - 1), s.d);
    }
  }

  lemma OnStepNear<T>(a: seq<T>, b: seq<T>, vec: seq<seq<int>>, s: Spot, ans: seq<Diag>, n: int)
    requires OnWayBack(a, b, vec, s) && s.d <= n && AllNearEnd(ans, a, b, n)
    ensures OnStep(vec, s, |a|).d <= n && AllNearEnd(GatherOnStep(vec, s, |a|, |a| - |b|, ans), a, b, n)
  {
    if !AtEnd(s, |a|) {
      OnwardOnWay(a, b, vec, s);
      var t := Onward(vec, s);
      SpotNearBack(a, b, vec, t);
      if t.d == s.d {
        AppendNear(ans, s.x, s.Y() - (|a| - |b|), a, b, n);
      }
    }
  }

  lemma AppendNear<T>(ans: seq<Diag>, x: int, y: int, a: seq<T>, b: seq<T>, n: int)
    requires 0 <= x < |a| && 0 <= y < |b| && AllNearEnd(ans, a, b, n)
    requires Dist(Reverse(a), Reverse(b), |a| - (x + 1), |b| - (y + 1)) <= n
    ensures AllNearEnd(AppendEdge(ans, x, y), a, b, n)
  {
  }

  /** Pieces of near diagonals are near. */
  lemma PieceNearStart<T>(p: Diag, e: Diag, a: seq<T>, b: seq<T>, n: int)
    requires Matches(e, a, b) && PieceOf(p, e) && p.len > 0 && NearStart(e, a, b, n)
    ensures NearStart(p, a, b, n)
  {
    DiagonalSnake(e, a, b);
    Diagonal(a, b, e.x, e.y, p.x, p.y);
  }

  lemma PieceNearEnd<T>(p: Diag, e: Diag, a: seq<T>, b: seq<T>, n: int)
    requires Matches(e, a, b) && PieceOf(p, e) && p.len > 0 && NearEnd(e, a, b, n)
    ensures NearEnd(p, a, b, n)
  {
    PieceSnake(p, e, a, b);
    BackDiagonal(a, b, p.x + p.len, p.y + p.len, e.x + e.len, e.y + e.len);
  }

  lemma PieceSnake<T>(p: Diag, e: Diag, a: seq<T>, b: seq<T>)
    requires Matches(e, a, b) && PieceOf(p, e) && p.len > 0
    ensures Snake(a, b, p.x + p.len - (p.y + p.len), p.x + p.len, e.x + e.len)
  {
    DiagonalSnake(e, a, b);
  }

  lemma PiecesNear<T>(lcs: seq<Diag>, f: seq<Diag>, g: seq<Diag>, a: seq<T>, b: seq<T>, n: int)
    requires Common(lcs, a, b) && FromParts(lcs, f, g, a, b, n)
    ensures NearEnds(lcs, a, b, n)
  {
    forall i | 0 <= i < |lcs| ensures NearStart(lcs[i], a, b, n) || NearEnd(lcs[i], a, b, n) {
      assert Matches(lcs[i], a, b) && FromOne(lcs[i], f + g);
      var e :| e in f + g && PieceOf(lcs[i], e);
      var j :| 0 <= j < |f + g| && (f + g)[j] == e;
      assert j < |f| ==> e == f[j];
      assert j >= |f| ==> e == g[j - |f|];
      if j < |f| {
        PieceNearStart(lcs[i], e, a, b, n);
      } else {
        PieceNearEnd(lcs[i], e, a, b, n);
      }
    }
  }

  // ----- a way of n steps that matches the most

  /** Further along from (p, q), at distance n, with no fewer matches. */
  lemma {:induction false} StretchTo<T>(a: seq<T>, b: seq<T>, p: nat, q: nat, n: int) returns (u: nat, v: nat)
    requires p <= |a| && q <= |b| && Dist(a, b, p, q) <= n <= Dist(a, b, |a|, |b|)
    ensures u <= |a| && v <= |b| && Dist(a, b, u, v) == n && Most(a, b, p, q) <= Most(a, b, u, v)
    decreases |a| - p + |b| - q
  {
    MostSteps(a, b, p, q);
    if Dist(a, b, p, q) == n {
      u, v := p, q;
    } else if p < |a| {
      u, v := StretchTo(a, b, p + 1, q, n);
    } else {
      u, v := StretchTo(a, b, p, q + 1, n);
    }
  }

  /** A label inside the rectangle that no other one leads has the most matches of its row. */
  lemma LeaderHasMost<T>(f: seq<Diag>, a: seq<T>, b: seq<T>, row: seq<int>, n: int)
    requires n == |row| - 1 && Furthest(a, b, row, |a|, |b|) && Grown(row, |a|, |b|) && AllAbove(row)
    requires Leads(row, |a|, |b|, 2 * Size(f) + n) && n <= Dist(a, b, |a|, |b|)
    ensures MostFromStart(f, a, b, n)
  {
    forall p: nat, q: nat | p <= |a| && q <= |b| && Dist(a, b, p, q) <= n ensures Most(a, b, p, q) <= Size(f) {
      var u, v := StretchTo(a, b, p, q, n);
      LedByLeader(a, b, row, u, v, 2 * Size(f) + n);
    }
  }

  ghost predicate AllAbove(row: seq<int>) {
    forall j :: 0 <= j < |row| ==> row[j] >= 0 && Y(row, j) >= 0
  }

  lemma LedByLeader<T>(a: seq<T>, b: seq<T>, row: seq<int>, u: nat, v: nat, most: int)
    requires row != [] && Furthest(a, b, row, |a|, |b|) && Grown(row, |a|, |b|) && AllAbove(row)
    requires u <= |a| && v <= |b| && Dist(a, b, u, v) == |row| - 1 && Leads(row, |a|, |b|, most)
    ensures u + v <= most
  {
    assert Covers(a, b, row, u, v);
    var j := (|row| - 1 + u - v) / 2;
    assert row[j] + Y(row, j) >= u + v;
    var i := InsideAsFar(row, |a|, |b|, j);
    assert Inside(row, i, |a|, |b|);
  }

  /** Entry j of a backward row lies inside the rectangle. */
  predicate Below0(row: seq<int>, j: int, delta: int)
    requires 0 <= j < |row|
  {
    row[j] >= 0 && Y(row, j) - delta >= 0
  }

  /** The label on diagonal k has come as near to the origin as any inside the rectangle that is nearer
      than infinity. */
  ghost predicate FurthestBelow(row: seq<int>, k: int, delta: int, infinity: int)
    requires On(row, k)
  {
    forall j :: 0 <= j < |row| && Below0(row, j, delta) && row[j] + Y(row, j) - delta < infinity ==>
      2 * At(row, k) - k - delta <= row[j] + Y(row, j) - delta
  }

  /** Seen from the far corner, that label leads its row. */
  lemma MirrorLeads(row: seq<int>, n: int, m: int, k: int, most: int)
    requires On(row, k) && FurthestBelow(row, k, n - m, INFINITY) && n + m < INFINITY
    requires 2 * n - (2 * At(row, k) - k) <= most
    ensures Leads(Mirror(row, n), n, m, most)
  {
    var r := Mirror(row, n);
    forall i | 0 <= i < |r| && Inside(r, i, n, m) ensures r[i] + Y(r, i) <= most {
      var j := |row| - 1 - i;
      assert r[i] == n - row[j] && Y(r, i) == m - (Y(row, j) - (n - m));
      assert Below0(row, j, n - m);
    }
  }

  /** The ends are no further apart than any point between them is from both. */
  lemma {:induction false} ByWayOf<T>(a: seq<T>, b: seq<T>, x: nat, y: nat)
    requires x <= |a| && y <= |b|
    ensures Dist(a, b, |a|, |b|) <= Dist(a, b, x, y) + BackDist(a, b, x, y)
    decreases |a| - x + |b| - y
  {
    if x < |a| || y < |b| {
      var p, q := |a| - x, |b| - y;
      MostSteps(a, b, x, y);
      if Match(a, b, x - y, x) {
        MostDiagonal(a, b, x, y);
        BackSteps(a, b, x + 1, y + 1);
        ByWayOf(a, b, x + 1, y + 1);
      } else {
        LastStep(Reverse(a), Reverse(b), p, q);
        if x < |a| && Dist(Reverse(a), Reverse(b), p - 1, q) == Dist(Reverse(a), Reverse(b), p, q) - 1 {
          ByWayOf(a, b, x + 1, y);
        } else {
          ByWayOf(a, b, x, y + 1);
        }
      }
    }
  }

  lemma LabelsAbove<T>(a: seq<T>, b: seq<T>, vec: seq<seq<int>>, d: nat)
    requires d < |vec| && Rows(a, b, vec, d + 1) && |vec[d]| == d + 1
    ensures AllAbove(vec[d])
  {
    forall j | 0 <= j < |vec[d]| ensures vec[d][j] >= 0 && Y(vec[d], j) >= 0 {
      LabelNear(a, b, vec, d, j);
    }
  }

  lemma LabelsBelow<T>(a: seq<T>, b: seq<T>, vec: seq<seq<int>>, d: nat)
    requires d < |vec| && RowsBack(a, b, vec, d + 1) && |vec[d]| == d + 1
    ensures AllAbove(Mirror(vec[d], |a|))
  {
    var r := Mirror(vec[d], |a|);
    forall i | 0 <= i < |r| ensures r[i] >= 0 && Y(r, i) >= 0 {
      LabelNearBack(a, b, vec, d, d - i);
    }
  }

  // ----- sequences just too far apart

  const SHORT := [1, 2, 3]

  /** The first two, nothing that matches, the third, and the first two again. */
  function Long(n: nat): (b: seq<int>)
    requires n >= 1
    ensures |b| == 2 * n + 3
    ensures b[0] == 1 && b[1] == 2 && b[2 * n] == 3 && b[2 * n + 1] == 1 && b[2 * n + 2] == 2
    ensures forall j :: 2 <= j < 2 * n ==> b[j] == 0
  {
    [1, 2] + seq(2 * n - 2, _ => 0) + [3, 1, 2]
  }

  lemma {:induction false} MostUpTo<T>(a: seq<T>, b: seq<T>, x: nat, y: nat)
    ensures Most(a, b, x, y) <= x && Most(a, b, x, y) <= y
    decreases x + y
  {
    if x > 0 && y > 0 {
      MostUpTo(a, b, x - 1, y - 1);
      MostUpTo(a, b, x - 1, y);
      MostUpTo(a, b, x, y - 1);
    }
  }

  /** What matches: the first two, twice, and the third. */
  lemma OnlyMatches(a: seq<int>, b: seq<int>, n: nat, k: int, i: int)
    requires n >= 3 && a == SHORT && b == Long(n) && Match(a, b, k, i)
    ensures (i < 2 && k == 0) || (i == 2 && k == 2 - 2 * n) || (i < 2 && k == 0 - (2 * n + 1))
  {
    assert i == 0 || i == 1 || i == 2;
  }

  /** A diagonal with the third element is just that. */
  lemma ThirdAlone(d: Diag, a: seq<int>, b: seq<int>, n: nat)
    requires n >= 3 && a == SHORT && b == Long(n) && Matches(d, a, b) && d.x + d.len > 2
    ensures d == Diag(2, 2 * n, 1)
  {
    DiagonalSnake(d, a, b);
    OnlyMatches(a, b, n, d.x - d.y, d.x + d.len - 1);
    OnlyMatches(a, b, n, d.x - d.y, d.x);
  }

  /** The third is too far from the start. */
  lemma StartAvoidsThird(d: Diag, a: seq<int>, b: seq<int>, n: nat)
    requires n >= 3 && a == SHORT && b == Long(n) && Matches(d, a, b) && NearStart(d, a, b, n)
    ensures d.x + d.len <= 2
  {
    if d.x + d.len > 2 {
      ThirdAlone(d, a, b, n);
      MostUpTo(a, b, 2, 2 * n);
    }
  }

  /** The first two, where they stand first, are too far from the end. */
  lemma EndAvoidsFirst(d: Diag, a: seq<int>, b: seq<int>, n: nat)
    requires n >= 3 && a == SHORT && b == Long(n) && Matches(d, a, b) && NearEnd(d, a, b, n)
    ensures d.y >= 2 * n
  {
    DiagonalSnake(d, a, b);
    OnlyMatches(a, b, n, d.x - d.y, d.x);
    if d.y < 2 * n {
      OnlyMatches(a, b, n, d.x - d.y, d.x + d.len - 1);
      MostUpTo(Reverse(a), Reverse(b), |a| - (d.x + d.len), |b| - (d.y + d.len));
    }
  }

  /** From the end the first two are near, where they stand last. */
  lemma TwoFromEnd(a: seq<int>, b: seq<int>, n: nat)
    requires n >= 3 && a == SHORT && b == Long(n)
    ensures Most(Reverse(a), Reverse(b), 3, 2) == 2
  {
    var p, q := Reverse(a), Reverse(b);
    assert Match(p, q, 1, 2) && Match(p, q, 1, 1);
    assert Most(p, q, 2, 1) == Most(p, q, 1, 0) + 1;
  }

  /** With two matches the way from the end has no room for the third. */
  lemma EndAvoidsThird(g: seq<Diag>, a: seq<int>, b: seq<int>, n: nat, i: nat)
    requires n >= 3 && a == SHORT && b == Long(n) && Common(g, a, b) && AllNearEnd(g, a, b, n) && Size(g) >= 2
    requires i < |g|
    ensures g[i].x + g[i].len <= 2
  {
    if g[i].x + g[i].len > 2 {
      ThirdAlone(g[i], a, b, n);
      OthersConflict(g, a, b, n, i);
    }
  }

  lemma OthersConflict(g: seq<Diag>, a: seq<int>, b: seq<int>, n: nat, i: nat)
    requires n >= 3 && a == SHORT && b == Long(n) && Common(g, a, b) && AllNearEnd(g, a, b, n)
    requires i < |g| && g[i] == Diag(2, 2 * n, 1)
    ensures Size(g) == 1
  {
    OnlyOne(g, a, b, n, i, 0);
    OnlyOne(g, a, b, n, i, |g| - 1);
    assert g == [g[i]];
    SizeOne(g[i]);
  }

  lemma OnlyOne(g: seq<Diag>, a: seq<int>, b: seq<int>, n: nat, i: nat, j: nat)
    requires n >= 3 && a == SHORT && b == Long(n) && Common(g, a, b) && AllNearEnd(g, a, b, n)
    requires i < |g| && g[i] == Diag(2, 2 * n, 1) && j < |g|
    ensures j == i
  {
    assert Matches(g[j], a, b);
    EndAvoidsFirst(g[j], a, b, n);
  }

  lemma PartsAvoidThird(lcs: seq<Diag>, f: seq<Diag>, g: seq<Diag>, a: seq<int>, b: seq<int>, n: nat)
    requires n >= 3 && a == SHORT && b == Long(n) && |a| + |b| < INFINITY && FromParts(lcs, f, g, a, b, n)
    ensures forall i :: 0 <= i < |lcs| ==> lcs[i].x + lcs[i].len <= 2
  {
    TwoFromEnd(a, b, n);
    assert Dist(Reverse(a), Reverse(b), 3, 2) <= n;
    forall i | 0 <= i < |lcs| ensures lcs[i].x + lcs[i].len <= 2 {
      var e :| e in f + g && PieceOf(lcs[i], e);
      if e in f {
        var j :| 0 <= j < |f| && f[j] == e;
        StartAvoidsThird(f[j], a, b, n);
      } else {
        var j :| 0 <= j < |g| && g[j] == e;
        EndAvoidsThird(g, a, b, n, j);
      }
    }
  }

  /** They are as far apart as the search goes from both ends together. */
  lemma JustTooFar(a: seq<int>, b: seq<int>, n: nat)
    requires n >= 3 && a == SHORT && b == Long(n)
    ensures Dist(a, b, |a|, |b|) == 2 * n
    ensures exists lcs :: Common(lcs, a, b) && Size(lcs) == 3
  {
    var p, q := Diag(0, 0, 2), Diag(2, 2 * n, 1);
    assert a[0..2] == b[0..2] && a[2..3] == b[2 * n..2 * n + 1];
    assert Common([p, q], a, b);
    SizeConcat([p], [q]);
    SizeOne(p);
    SizeOne(q);
    assert [p] + [q] == [p, q];
    CommonDist([p, q], a, b);
    MostUpTo(a, b, |a|, |b|);
  }

  /** The bound of the search is exact: at twice the limit it can miss a longest common subsequence. */
  lemma MissesThird(lcs: seq<Diag>, a: seq<int>, b: seq<int>, n: nat)
    requires n >= 3 && a == SHORT && b == Long(n) && |a| + |b| < INFINITY
    requires Common(lcs, a, b) && StaysNear(lcs, a, b, n)
    ensures Dist(a, b, |a|, |b|) == 2 * n && Size(lcs) <= 2 && !Longest(lcs, a, b)
  {
    JustTooFar(a, b, n);
    var f, g :| FromParts(lcs, f, g, a, b, n);
    PartsAvoidThird(lcs, f, g, a, b, n);
    assert EndsBy(lcs, 2, |b|) by {
      forall i | 0 <= i < |lcs| ensures Matches(lcs[i], a, b) {
      }
    }
    CommonWithin(lcs, a, b, 2, |b|);
    MostUpTo(a, b, 2, |b|);
  }
}
