/** What the labels of the diff search mean, and how tracing them back collects the diagonals of a
    common subsequence. */
module Traces {
  import opened Collections
  import opened Labels
  import opened Lcs

  // ----- what labels mean

  predicate Match<T(==)>(a: seq<T>, b: seq<T>, k: int, i: int) {
    0 <= i < |a| && 0 <= i - k < |b| && a[i] == b[i - k]
  }

  /** From s to x, the diagonal k is all matches. */
  ghost predicate Snake<T>(a: seq<T>, b: seq<T>, k: int, s: int, x: int) {
    s <= x && forall i :: s <= i < x ==> Match(a, b, k, i)
  }

  /** x may be entry j of the forward row after prev: it ends a snake that starts one step from a
      neighbour, or at (0, 0). */
  ghost predicate Reached<T>(a: seq<T>, b: seq<T>, prev: seq<int>, j: nat, x: int) {
    var k := 2 * j - |prev|;
    && j <= |prev| && x >= 0 && x - k >= 0
    && (if prev == [] then Snake(a, b, 0, 0, x)
        else || (j > 0 && Snake(a, b, k, prev[j - 1] + 1, x))
             || (j < |prev| && Snake(a, b, k, prev[j], x)))
  }

  /** The same for backward rows, whose snakes start at x and end next to a neighbour, or at
      (|a|, |b|). */
  ghost predicate ReachedBack<T>(a: seq<T>, b: seq<T>, prev: seq<int>, j: nat, x: int) {
    var k := 2 * j - |prev| + |a| - |b|;
    && j <= |prev| && x <= |a| && x - k <= |b|
    && (if prev == [] then Snake(a, b, |a| - |b|, x, |a|)
        else || (j > 0 && Snake(a, b, k, x, prev[j - 1]))
             || (j < |prev| && Snake(a, b, k, x, prev[j] - 1)))
  }

  function Prev(vec: seq<seq<int>>, d: nat): seq<int>
    requires d <= |vec|
  {
    if d == 0 then [] else vec[d - 1]
  }

  /** Row d is right, as the row after the one before it. */
  ghost predicate RowReached<T>(a: seq<T>, b: seq<T>, vec: seq<seq<int>>, d: int) {
    && 0 <= d < |vec| && |vec[d]| == d + 1 && |Prev(vec, d)| == d
    && forall j :: 0 <= j <= d ==> Reached(a, b, Prev(vec, d), j, vec[d][j])
  }

  ghost predicate RowReachedBack<T>(a: seq<T>, b: seq<T>, vec: seq<seq<int>>, d: int) {
    && 0 <= d < |vec| && |vec[d]| == d + 1 && |Prev(vec, d)| == d
    && forall j :: 0 <= j <= d ==> ReachedBack(a, b, Prev(vec, d), j, vec[d][j])
  }

  /** The first n rows are right. */
  ghost predicate Rows<T>(a: seq<T>, b: seq<T>, vec: seq<seq<int>>, n: nat) {
    forall d :: 0 <= d < n ==> RowReached(a, b, vec, d)
  }

  ghost predicate RowsBack<T>(a: seq<T>, b: seq<T>, vec: seq<seq<int>>, n: nat) {
    forall d :: 0 <= d < n ==> RowReachedBack(a, b, vec, d)
  }

  // ----- common prefixes and suffixes

  method CommonPrefixLen<T(==)>(a: seq<T>, b: seq<T>) returns (i: nat)
    ensures i <= |a| && i <= |b| && a[..i] == b[..i]
    ensures i < |a| && i < |b| ==> a[i] != b[i]
  {
    i := 0;
    while i < |a| && i < |b| && a[i] == b[i]
      invariant i <= |a| && i <= |b| && a[..i] == b[..i]
    {
      i := i + 1;
    }
  }

  method CommonSuffixLen<T(==)>(a: seq<T>, b: seq<T>) returns (i: nat)
    ensures i <= |a| && i <= |b|
    ensures a[|a| - i..] == b[|b| - i..]
    ensures i < |a| && i < |b| ==> a[|a| - 1 - i] != b[|b| - 1 - i]
  {
    i := 0;
    while i < |a| && i < |b| && a[|a| - 1 - i] == b[|b| - 1 - i]
      invariant i <= |a| && i <= |b|
      invariant a[|a| - i..] == b[|b| - i..]
    {
      assert a[|a| - i - 1..] == [a[|a| - 1 - i]] + a[|a| - i..];
      assert b[|b| - i - 1..] == [b[|b| - 1 - i]] + b[|b| - i..];
      i := i + 1;
    }
  }

  lemma PrefixSnake<T>(a: seq<T>, b: seq<T>, k: int, x: int, u: int, v: int, n: nat)
    requires 0 <= x <= u <= |a| && 0 <= x - k <= v <= |b| && n <= u - x && n <= v - (x - k)
    requires a[x..u][..n] == b[x - k..v][..n]
    ensures Snake(a, b, k, x, x + n)
  {
    var s, t := a[x..u][..n], b[x - k..v][..n];
    forall i | x <= i < x + n ensures Match(a, b, k, i) {
      assert s[i - x] == a[i] && t[i - x] == b[i - k];
    }
  }

  lemma SuffixSnake<T>(a: seq<T>, b: seq<T>, k: int, x: int, n: nat)
    requires n <= x <= |a| && n <= x - k <= |b| && a[..x][x - n..] == b[..x - k][x - k - n..]
    ensures Snake(a, b, k, x - n, x)
  {
    var s, t := a[..x][x - n..], b[..x - k][x - k - n..];
    forall i | x - n <= i < x ensures Match(a, b, k, i) {
      assert s[i - (x - n)] == a[i] && t[i - (x - n)] == b[i - k];
    }
  }

  // ----- collecting diagonals

  /** prepend. */
  function Prepend(lcs: seq<Diag>, x: int, y: int): seq<Diag> {
    if lcs != [] && lcs[0].x == x + 1 && lcs[0].y == y + 1
    then [Diag(x, y, lcs[0].len + 1)] + lcs[1..]
    else [Diag(x, y, 1)] + lcs
  }

  /** append. */
  function AppendEdge(lcs: seq<Diag>, x: int, y: int): seq<Diag> {
    var n := |lcs| - 1;
    if lcs != [] && lcs[n].x + lcs[n].len == x && lcs[n].y + lcs[n].len == y
    then lcs[..n] + [Diag(lcs[n].x, lcs[n].y, lcs[n].len + 1)]
    else lcs + [Diag(x, y, 1)]
  }

  ghost predicate StartsFrom(lcs: seq<Diag>, x: int, y: int) {
    forall i :: 0 <= i < |lcs| ==> x <= lcs[i].x && y <= lcs[i].y
  }

  ghost predicate EndsBy(lcs: seq<Diag>, x: int, y: int) {
    forall i :: 0 <= i < |lcs| ==> lcs[i].x + lcs[i].len <= x && lcs[i].y + lcs[i].len <= y
  }

  /** A common subsequence between (sx, sy) and (ex, ey). */
  ghost predicate Collected<T>(a: seq<T>, b: seq<T>, lcs: seq<Diag>, sx: int, sy: int, ex: int, ey: int) {
    Common(lcs, a, b) && StartsFrom(lcs, sx, sy) && EndsBy(lcs, ex, ey)
  }

  lemma OneMatches<T>(x: nat, y: nat, a: seq<T>, b: seq<T>)
    requires x < |a| && y < |b| && a[x] == b[y]
    ensures Matches(Diag(x, y, 1), a, b)
  {
    assert a[x..x + 1] == [a[x]] && b[y..y + 1] == [b[y]];
  }

  /** Two diagonals, one behind the other, are one. */
  lemma JoinMatches<T>(d: Diag, e: Diag, a: seq<T>, b: seq<T>)
    requires Matches(d, a, b) && Matches(e, a, b) && e.x == d.x + d.len && e.y == d.y + d.len
    ensures Matches(Diag(d.x, d.y, d.len + e.len), a, b)
  {
    Join(a, d.x, e.x, e.x + e.len);
    Join(b, d.y, e.y, e.y + e.len);
  }

  lemma Cons<T>(d: Diag, lcs: seq<Diag>, a: seq<T>, b: seq<T>, ex: int, ey: int)
    requires Matches(d, a, b) && Collected(a, b, lcs, d.x + d.len, d.y + d.len, ex, ey)
    requires d.x + d.len <= ex && d.y + d.len <= ey
    ensures Collected(a, b, [d] + lcs, d.x, d.y, ex, ey)
  {
    var r := [d] + lcs;
    forall i, j | 0 <= i < j < |r| ensures Before(r[i], r[j]) {
      assert r[j] == lcs[j - 1];
      assert i > 0 ==> r[i] == lcs[i - 1];
    }
  }

  lemma Snoc<T>(lcs: seq<Diag>, d: Diag, a: seq<T>, b: seq<T>, sx: int, sy: int)
    requires Matches(d, a, b) && Collected(a, b, lcs, sx, sy, d.x, d.y) && sx <= d.x && sy <= d.y
    ensures Collected(a, b, lcs + [d], sx, sy, d.x + d.len, d.y + d.len)
  {
    var r := lcs + [d];
    forall i, j | 0 <= i < j < |r| ensures Before(r[i], r[j]) {
      assert r[i] == lcs[i];
      assert j < |lcs| ==> r[j] == lcs[j];
    }
  }

  lemma Tail<T>(lcs: seq<Diag>, a: seq<T>, b: seq<T>, sx: int, sy: int, ex: int, ey: int)
    requires Collected(a, b, lcs, sx, sy, ex, ey) && lcs != []
    ensures Collected(a, b, lcs[1..], lcs[0].x + lcs[0].len, lcs[0].y + lcs[0].len, ex, ey)
  {
    forall i | 0 <= i < |lcs| - 1 ensures Before(lcs[0], lcs[1..][i]) {
      assert Before(lcs[0], lcs[i + 1]);
    }
  }

  lemma Init<T>(lcs: seq<Diag>, a: seq<T>, b: seq<T>, sx: int, sy: int, ex: int, ey: int)
    requires Collected(a, b, lcs, sx, sy, ex, ey) && lcs != []
    ensures Collected(a, b, lcs[..|lcs| - 1], sx, sy, lcs[|lcs| - 1].x, lcs[|lcs| - 1].y)
  {
    var n := |lcs| - 1;
    forall i | 0 <= i < n ensures Before(lcs[..n][i], lcs[n]) {
      assert Before(lcs[i], lcs[n]);
    }
  }

  lemma PrependCommon<T>(lcs: seq<Diag>, x: nat, y: nat, a: seq<T>, b: seq<T>, ex: int, ey: int)
    requires Collected(a, b, lcs, x, y, ex, ey)
    requires 0 < x <= |a| && 0 < y <= |b| && a[x - 1] == b[y - 1] && x <= ex && y <= ey
    ensures Collected(a, b, Prepend(lcs, x - 1, y - 1), x - 1, y - 1, ex, ey)
  {
    OneMatches(x - 1, y - 1, a, b);
    if lcs != [] && lcs[0].x == x && lcs[0].y == y {
      JoinMatches(Diag(x - 1, y - 1, 1), lcs[0], a, b);
      Tail(lcs, a, b, x, y, ex, ey);
      Cons(Diag(x - 1, y - 1, lcs[0].len + 1), lcs[1..], a, b, ex, ey);
    } else {
      Cons(Diag(x - 1, y - 1, 1), lcs, a, b, ex, ey);
    }
  }

  lemma AppendCommon<T>(lcs: seq<Diag>, x: nat, y: nat, a: seq<T>, b: seq<T>, sx: int, sy: int)
    requires Collected(a, b, lcs, sx, sy, x, y)
    requires x < |a| && y < |b| && a[x] == b[y] && sx <= x && sy <= y
    ensures Collected(a, b, AppendEdge(lcs, x, y), sx, sy, x + 1, y + 1)
  {
    OneMatches(x, y, a, b);
    var n := |lcs| - 1;
    if lcs != [] && lcs[n].x + lcs[n].len == x && lcs[n].y + lcs[n].len == y {
      JoinMatches(lcs[n], Diag(x, y, 1), a, b);
      Init(lcs, a, b, sx, sy, x, y);
      Snoc(lcs[..n], Diag(lcs[n].x, lcs[n].y, lcs[n].len + 1), a, b, sx, sy);
    } else {
      Snoc(lcs, Diag(x, y, 1), a, b, sx, sy);
    }
  }

  /** A part that ends before another starts goes together with it. */
  lemma PartsMatch<T>(f: seq<Diag>, g: seq<Diag>, x: int, y: int, u: int, v: int, a: seq<T>, b: seq<T>)
    requires Common(f, a, b) && EndsBy(f, x, y) && Common(g, a, b) && StartsFrom(g, u, v)
    requires x <= u && y <= v
    ensures AllMatch(f + g, a, b) && AllCompatible(f + g)
    ensures AllMatch(g + f, a, b) && AllCompatible(g + f)
  {
  }

  lemma PartsFix<T>(f: seq<Diag>, g: seq<Diag>, a: seq<T>, b: seq<T>)
    requires Common(f, a, b) && Common(g, a, b)
    ensures AllMatch(f + g, a, b)
  {
  }

  // ----- tracing back

  /** Where a trace is: at (x, x - k), on the way to entry j of row d, so that k == 2 * j - d. */
  datatype Spot = Spot(d: int, j: int, x: int) {
    function Y(): int {
      x - (2 * j - d)
    }
  }

  /** Entry j of row d and all rows before it are right. */
  ghost predicate Labelled<T>(a: seq<T>, b: seq<T>, vec: seq<seq<int>>, d: int, j: int) {
    0 <= j <= d < |vec| && |vec[d]| == d + 1 && OnWay(a, b, vec, Spot(d, j, vec[d][j]))
  }

  ghost predicate LabelledBack<T>(a: seq<T>, b: seq<T>, vec: seq<seq<int>>, d: int, j: int) {
    0 <= j <= d < |vec| && |vec[d]| == d + 1 && OnWayBack(a, b, vec, Spot(d, j, vec[d][j]))
  }

  /** The spot lies on the way to its entry. */
  ghost predicate OnWay<T>(a: seq<T>, b: seq<T>, vec: seq<seq<int>>, s: Spot) {
    0 <= s.j <= s.d < |vec| && Rows(a, b, vec, s.d) && Reached(a, b, Prev(vec, s.d), s.j, s.x)
  }

  ghost predicate OnWayBack<T>(a: seq<T>, b: seq<T>, vec: seq<seq<int>>, s: Spot) {
    0 <= s.j <= s.d < |vec| && RowsBack(a, b, vec, s.d) && ReachedBack(a, b, Prev(vec, s.d), s.j, s.x)
  }

  /** The row before is there. */
  predicate Sized(vec: seq<seq<int>>, s: Spot) {
    0 <= s.j <= s.d < |vec| && (s.d > 0 ==> |vec[s.d - 1]| == s.d)
  }

  /** One round of forwardlcs: a step to a neighbour in the row before, or along a match. */
  function Back(vec: seq<seq<int>>, s: Spot): Spot
    requires Sized(vec, s)
  {
    if s.d > 0 && s.j > 0 && s.x - 1 == vec[s.d - 1][s.j - 1] then Spot(s.d - 1, s.j - 1, s.x - 1)
    else if s.d > 0 && s.j < s.d && s.x == vec[s.d - 1][s.j] then Spot(s.d - 1, s.j, s.x)
    else Spot(s.d, s.j, s.x - 1)
  }

  /** One round of backwardlcs. */
  function Onward(vec: seq<seq<int>>, s: Spot): Spot
    requires Sized(vec, s)
  {
    if s.d > 0 && s.j > 0 && s.x == vec[s.d - 1][s.j - 1] then Spot(s.d - 1, s.j - 1, s.x)
    else if s.d > 0 && s.j < s.d && s.x + 1 == vec[s.d - 1][s.j] then Spot(s.d - 1, s.j, s.x + 1)
    else Spot(s.d, s.j, s.x + 1)
  }

  lemma WaySized<T>(a: seq<T>, b: seq<T>, vec: seq<seq<int>>, s: Spot)
    ensures OnWay(a, b, vec, s) ==> Sized(vec, s) && s.x >= 0 && s.Y() >= 0
    ensures OnWayBack(a, b, vec, s) ==> Sized(vec, s) && s.x <= |a| && s.Y() <= |a|
  {
    if OnWay(a, b, vec, s) && s.d > 0 {
      assert RowReached(a, b, vec, s.d - 1);
    }
    if OnWayBack(a, b, vec, s) && s.d > 0 {
      assert RowReachedBack(a, b, vec, s.d - 1);
    }
  }

  lemma EntryOnWay<T>(a: seq<T>, b: seq<T>, vec: seq<seq<int>>, d: int, j: int)
    requires 0 <= j <= d < |vec|
    ensures Rows(a, b, vec, d + 1) ==> |vec[d]| == d + 1 && OnWay(a, b, vec, Spot(d, j, vec[d][j]))
    ensures RowsBack(a, b, vec, d + 1) ==> |vec[d]| == d + 1 && OnWayBack(a, b, vec, Spot(d, j, vec[d][j]))
  {
    if Rows(a, b, vec, d + 1) {
      assert RowReached(a, b, vec, d) && Reached(a, b, Prev(vec, d), j, vec[d][j]);
    }
    if RowsBack(a, b, vec, d + 1) {
      assert RowReachedBack(a, b, vec, d) && ReachedBack(a, b, Prev(vec, d), j, vec[d][j]);
    }
  }

  lemma BackOnWay<T>(a: seq<T>, b: seq<T>, vec: seq<seq<int>>, s: Spot)
    requires OnWay(a, b, vec, s) && (s.x != 0 || s.Y() != 0)
    ensures Sized(vec, s)
    ensures var t := Back(vec, s);
            && OnWay(a, b, vec, t) && 0 <= t.x <= s.x && 0 <= t.Y() <= s.Y()
            && t.d + t.x < s.d + s.x && (t.d == s.d ==> t.j == s.j && Match(a, b, 2 * s.j - s.d, t.x))
  {
    WaySized(a, b, vec, s);
    var t := Back(vec, s);
    if t.d < s.d {
      EntryOnWay(a, b, vec, t.d, t.j);
    } else {
      Traced(a, b, Prev(vec, s.d), s.j, s.x);
    }
    WaySized(a, b, vec, t);
  }

  lemma OnwardOnWay<T>(a: seq<T>, b: seq<T>, vec: seq<seq<int>>, s: Spot)
    requires OnWayBack(a, b, vec, s) && (s.x != |a| || s.Y() != |a|)
    ensures Sized(vec, s)
    ensures var t := Onward(vec, s);
            && OnWayBack(a, b, vec, t) && s.x <= t.x <= |a| && s.Y() <= t.Y() <= |a|
            && t.d - t.x < s.d - s.x && (t.d == s.d ==> t.j == s.j && Match(a, b, 2 * s.j - s.d + |a| - |b|, s.x))
  {
    WaySized(a, b, vec, s);
    var t := Onward(vec, s);
    if t.d < s.d {
      EntryOnWay(a, b, vec, t.d, t.j);
    } else {
      TracedBack(a, b, Prev(vec, s.d), s.j, s.x);
    }
    WaySized(a, b, vec, t);
  }

  // ----- whole traces

  predicate AtOrigin(s: Spot) {
    s.x == 0 && s.Y() == 0
  }

  function BackStep(vec: seq<seq<int>>, s: Spot): Spot {
    if AtOrigin(s) || !Sized(vec, s) then s else Back(vec, s)
  }

  lemma BackStepOnWay<T>(a: seq<T>, b: seq<T>, vec: seq<seq<int>>, s: Spot)
    requires OnWay(a, b, vec, s)
    ensures var t := BackStep(vec, s);
            OnWay(a, b, vec, t) && 0 <= t.x <= s.x && 0 <= t.Y() <= s.Y()
  {
    WaySized(a, b, vec, s);
    if !AtOrigin(s) {
      BackOnWay(a, b, vec, s);
    }
  }

  /** Where forwardlcs is after n rounds, and what it has collected. */
  function BackN(vec: seq<seq<int>>, s: Spot, n: nat): Spot {
    if n == 0 then s
    else
      BackStep(vec, BackN(vec, s, n - 1))
  }

  function Gather(s: Spot, t: Spot, ans: seq<Diag>): seq<Diag> {
    if t.d < s.d then ans else Prepend(ans, t.x, t.Y())
  }

  function GatherN(vec: seq<seq<int>>, s: Spot, n: nat): seq<Diag> {
    if n == 0 then []
    else
      GatherStep(vec, BackN(vec, s, n - 1), GatherN(vec, s, n - 1))
  }

  function GatherStep(vec: seq<seq<int>>, s: Spot, ans: seq<Diag>): seq<Diag> {
    if AtOrigin(s) || !Sized(vec, s) then ans else Gather(s, Back(vec, s), ans)
  }

  lemma {:induction false} BackNOnWay<T>(a: seq<T>, b: seq<T>, vec: seq<seq<int>>, s: Spot, n: nat)
    requires OnWay(a, b, vec, s)
    ensures var t := BackN(vec, s, n);
            OnWay(a, b, vec, t) && 0 <= t.x <= s.x && 0 <= t.Y() <= s.Y()
    decreases n
  {
    WaySized(a, b, vec, s);
    if n > 0 {
      BackNOnWay(a, b, vec, s, n - 1);
      BackStepOnWay(a, b, vec, BackN(vec, s, n - 1));
    }
  }

  lemma BackProgress<T>(a: seq<T>, b: seq<T>, vec: seq<seq<int>>, s: Spot, n: nat)
    requires OnWay(a, b, vec, s) && !AtOrigin(BackN(vec, s, n))
    ensures var t := BackN(vec, s, n);
            && Sized(vec, t) && 0 <= Back(vec, t).d + Back(vec, t).x < t.d + t.x
            && BackN(vec, s, n + 1) == Back(vec, t)
            && GatherN(vec, s, n + 1) == Gather(t, Back(vec, t), GatherN(vec, s, n))
  {
    BackNOnWay(a, b, vec, s, n);
    BackOnWay(a, b, vec, BackN(vec, s, n));
  }

  lemma CollectedWider<T>(a: seq<T>, b: seq<T>, lcs: seq<Diag>, sx: int, sy: int, ex: int, ey: int,
                          sx': int, sy': int, ex': int, ey': int)
    requires Collected(a, b, lcs, sx, sy, ex, ey) && sx' <= sx && sy' <= sy && ex <= ex' && ey <= ey'
    ensures Collected(a, b, lcs, sx', sy', ex', ey')
  {
  }

  lemma GatherCollects<T>(a: seq<T>, b: seq<T>, s: Spot, t: Spot, ans: seq<Diag>, ex: int, ey: int)
    requires Collected(a, b, ans, s.x, s.Y(), ex, ey) && 0 <= t.x <= s.x <= ex && 0 <= t.Y() <= s.Y() <= ey
    requires t.d < s.d || (t.d == s.d && t.j == s.j && t.x == s.x - 1 && Match(a, b, 2 * s.j - s.d, t.x))
    ensures Collected(a, b, Gather(s, t, ans), t.x, t.Y(), ex, ey)
  {
    if t.d < s.d {
      CollectedWider(a, b, ans, s.x, s.Y(), ex, ey, t.x, t.Y(), ex, ey);
    } else {
      assert t.Y() == s.Y() - 1;
      PrependCommon(ans, s.x, s.Y(), a, b, ex, ey);
    }
  }

  lemma StepCollects<T>(a: seq<T>, b: seq<T>, vec: seq<seq<int>>, s: Spot, ans: seq<Diag>, ex: int, ey: int)
    requires OnWay(a, b, vec, s) && Collected(a, b, ans, s.x, s.Y(), ex, ey) && s.x <= ex && s.Y() <= ey
    ensures var t := BackStep(vec, s);
            Collected(a, b, GatherStep(vec, s, ans), t.x, t.Y(), ex, ey)
  {
    if !AtOrigin(s) {
      BackOnWay(a, b, vec, s);
      GatherCollects(a, b, s, Back(vec, s), ans, ex, ey);
    }
  }

  lemma {:induction false} GatherNCollected<T>(a: seq<T>, b: seq<T>, vec: seq<seq<int>>, s: Spot, n: nat)
    requires OnWay(a, b, vec, s)
    ensures Collected(a, b, GatherN(vec, s, n), BackN(vec, s, n).x, BackN(vec, s, n).Y(), s.x, s.Y())
    decreases n
  {
    if n > 0 {
      GatherNCollected(a, b, vec, s, n - 1);
      BackNOnWay(a, b, vec, s, n - 1);
      StepCollects(a, b, vec, BackN(vec, s, n - 1), GatherN(vec, s, n - 1), s.x, s.Y());
    }
  }

  lemma PrependSize(lcs: seq<Diag>, x: int, y: int)
    ensures Size(Prepend(lcs, x, y)) == Size(lcs) + 1
  {
    SizeOne(Diag(x, y, 1));
    SizeConcat([Diag(x, y, 1)], lcs);
    if lcs != [] {
      var head := lcs[0];
      assert lcs == [head] + lcs[1..];
      SizeOne(head);
      SizeConcat([head], lcs[1..]);
      SizeOne(Diag(x, y, head.len + 1));
      SizeConcat([Diag(x, y, head.len + 1)], lcs[1..]);
    }
  }

  /** A round goes one step, to a row less, or along one match. */
  lemma GatherStepSize(vec: seq<seq<int>>, s: Spot, ans: seq<Diag>)
    ensures var t := BackStep(vec, s);
            s.x + s.Y() - (t.x + t.Y()) == 2 * (Size(GatherStep(vec, s, ans)) - Size(ans)) + s.d - t.d
  {
    var t := BackStep(vec, s);
    PrependSize(ans, t.x, t.Y());
  }

  lemma {:induction false} GatherNSize(vec: seq<seq<int>>, s: Spot, n: nat)
    ensures var t := BackN(vec, s, n);
            s.x + s.Y() - (t.x + t.Y()) == 2 * Size(GatherN(vec, s, n)) + s.d - t.d
    decreases n
  {
    if n > 0 {
      GatherNSize(vec, s, n - 1);
      GatherStepSize(vec, BackN(vec, s, n - 1), GatherN(vec, s, n - 1));
    }
  }

  /** The same for backwardlcs; its way ends at (n, m), on the diagonal 0 counted from there. */
  predicate AtEnd(s: Spot, n: int) {
    s.x == n && s.Y() == n
  }

  function OnStep(vec: seq<seq<int>>, s: Spot, n: int): Spot {
    if AtEnd(s, n) || !Sized(vec, s) then s else Onward(vec, s)
  }

  lemma OnStepOnWay<T>(a: seq<T>, b: seq<T>, vec: seq<seq<int>>, s: Spot)
    requires OnWayBack(a, b, vec, s)
    ensures var t := OnStep(vec, s, |a|);
            OnWayBack(a, b, vec, t) && s.x <= t.x <= |a| && s.Y() <= t.Y() <= |a|
  {
    WaySized(a, b, vec, s);
    if !AtEnd(s, |a|) {
      OnwardOnWay(a, b, vec, s);
    }
  }

  function OnN(vec: seq<seq<int>>, s: Spot, n: int, i: nat): Spot {
    if i == 0 then s
    else
      OnStep(vec, OnN(vec, s, n, i - 1), n)
  }

  function GatherOn(s: Spot, t: Spot, ans: seq<Diag>, delta: int): seq<Diag> {
    if t.d < s.d then ans else AppendEdge(ans, s.x, s.Y() - delta)
  }

  function GatherOnN(vec: seq<seq<int>>, s: Spot, n: int, delta: int, i: nat): seq<Diag> {
    if i == 0 then []
    else
      GatherOnStep(vec, OnN(vec, s, n, i - 1), n, delta, GatherOnN(vec, s, n, delta, i - 1))
  }

  function GatherOnStep(vec: seq<seq<int>>, s: Spot, n: int, delta: int, ans: seq<Diag>): seq<Diag> {
    if AtEnd(s, n) || !Sized(vec, s) then ans else GatherOn(s, Onward(vec, s), ans, delta)
  }

  lemma {:induction false} OnNOnWay<T>(a: seq<T>, b: seq<T>, vec: seq<seq<int>>, s: Spot, i: nat)
    requires OnWayBack(a, b, vec, s)
    ensures var t := OnN(vec, s, |a|, i);
            OnWayBack(a, b, vec, t) && s.x <= t.x <= |a| && s.Y() <= t.Y() <= |a|
    decreases i
  {
    WaySized(a, b, vec, s);
    if i > 0 {
      OnNOnWay(a, b, vec, s, i - 1);
      OnStepOnWay(a, b, vec, OnN(vec, s, |a|, i - 1));
    }
  }

  lemma OnProgress<T>(a: seq<T>, b: seq<T>, vec: seq<seq<int>>, s: Spot, i: nat)
    requires OnWayBack(a, b, vec, s) && !AtEnd(OnN(vec, s, |a|, i), |a|)
    ensures var t, delta := OnN(vec, s, |a|, i), |a| - |b|;
            && Sized(vec, t) && -|a| <= Onward(vec, t).d - Onward(vec, t).x < t.d - t.x
            && OnN(vec, s, |a|, i + 1) == Onward(vec, t)
            && GatherOnN(vec, s, |a|, delta, i + 1) ==
               GatherOn(t, Onward(vec, t), GatherOnN(vec, s, |a|, delta, i), delta)
  {
    OnNOnWay(a, b, vec, s, i);
    OnwardOnWay(a, b, vec, OnN(vec, s, |a|, i));
  }

  lemma GatherOnCollects<T>(a: seq<T>, b: seq<T>, s: Spot, t: Spot, ans: seq<Diag>, delta: int, sx: int, sy: int)
    requires Collected(a, b, ans, sx, sy, s.x, s.Y() - delta)
    requires sx <= s.x <= t.x && sy <= s.Y() - delta <= t.Y() - delta
    requires t.d < s.d || (t.d == s.d && t.j == s.j && t.x == s.x + 1 && Match(a, b, 2 * s.j - s.d + delta, s.x))
    ensures Collected(a, b, GatherOn(s, t, ans, delta), sx, sy, t.x, t.Y() - delta)
  {
    if t.d < s.d {
      CollectedWider(a, b, ans, sx, sy, s.x, s.Y() - delta, sx, sy, t.x, t.Y() - delta);
    } else {
      assert t.Y() == s.Y() + 1;
      AppendCommon(ans, s.x, s.Y() - delta, a, b, sx, sy);
    }
  }

  lemma OnStepCollects<T>(a: seq<T>, b: seq<T>, vec: seq<seq<int>>, s: Spot, ans: seq<Diag>, delta: int, sx: int,
                          sy: int)
    requires OnWayBack(a, b, vec, s) && delta == |a| - |b|
    requires Collected(a, b, ans, sx, sy, s.x, s.Y() - delta) && sx <= s.x && sy <= s.Y() - delta
    ensures var t := OnStep(vec, s, |a|);
            Collected(a, b, GatherOnStep(vec, s, |a|, delta, ans), sx, sy, t.x, t.Y() - delta)
  {
    if !AtEnd(s, |a|) {
      OnwardOnWay(a, b, vec, s);
      GatherOnCollects(a, b, s, Onward(vec, s), ans, delta, sx, sy);
    }
  }

  lemma {:induction false} GatherOnNCollected<T>(a: seq<T>, b: seq<T>, vec: seq<seq<int>>, s: Spot, delta: int, i: nat)
    requires OnWayBack(a, b, vec, s) && delta == |a| - |b|
    ensures var t := OnN(vec, s, |a|, i);
            Collected(a, b, GatherOnN(vec, s, |a|, delta, i), s.x, s.Y() - delta, t.x, t.Y() - delta)
    decreases i
  {
    if i > 0 {
      GatherOnNCollected(a, b, vec, s, delta, i - 1);
      OnNOnWay(a, b, vec, s, i - 1);
      var spot, found := OnN(vec, s, |a|, i - 1), GatherOnN(vec, s, |a|, delta, i - 1);
      OnStepCollects(a, b, vec, spot, found, delta, s.x, s.Y() - delta);
    }
  }

  lemma AppendSize(lcs: seq<Diag>, x: int, y: int)
    ensures Size(AppendEdge(lcs, x, y)) == Size(lcs) + 1
  {
    var one := Diag(x, y, 1);
    SizeOne(one);
    SizeConcat(lcs, [one]);
    if lcs != [] {
      var n := |lcs| - 1;
      var longer := Diag(lcs[n].x, lcs[n].y, lcs[n].len + 1);
      SizeOne(longer);
      SizeConcat(lcs[..n], [longer]);
    }
  }

  lemma GatherOnStepSize(vec: seq<seq<int>>, s: Spot, n: int, delta: int, ans: seq<Diag>)
    ensures var t := OnStep(vec, s, n);
            t.x + t.Y() - (s.x + s.Y()) == 2 * (Size(GatherOnStep(vec, s, n, delta, ans)) - Size(ans)) + s.d - t.d
  {
    AppendSize(ans, s.x, s.Y() - delta);
  }

  lemma {:induction false} GatherOnNSize(vec: seq<seq<int>>, s: Spot, n: int, delta: int, i: nat)
    ensures var t := OnN(vec, s, n, i);
            t.x + t.Y() - (s.x + s.Y()) == 2 * Size(GatherOnN(vec, s, n, delta, i)) + s.d - t.d
    decreases i
  {
    if i > 0 {
      GatherOnNSize(vec, s, n, delta, i - 1);
      GatherOnStepSize(vec, OnN(vec, s, n, i - 1), n, delta, GatherOnN(vec, s, n, delta, i - 1));
    }
  }

  /** A point that no single step led to was reached along a match. */
  lemma Traced<T>(a: seq<T>, b: seq<T>, prev: seq<int>, j: nat, x: int)
    requires Reached(a, b, prev, j, x) && (prev == [] ==> x != 0)
    requires j > 0 ==> x - 1 != prev[j - 1]
    requires j < |prev| ==> x != prev[j]
    ensures Match(a, b, 2 * j - |prev|, x - 1) && Reached(a, b, prev, j, x - 1)
  {
    var k := 2 * j - |prev|;
    if prev == [] {
      SnakeEnd(a, b, 0, 0, x);
    } else if j > 0 && Snake(a, b, k, prev[j - 1] + 1, x) {
      SnakeEnd(a, b, k, prev[j - 1] + 1, x);
    } else {
      SnakeEnd(a, b, k, prev[j], x);
    }
  }

  lemma SnakeEnd<T>(a: seq<T>, b: seq<T>, k: int, s: int, x: int)
    requires Snake(a, b, k, s, x) && s < x
    ensures Match(a, b, k, x - 1) && Snake(a, b, k, s, x - 1)
    ensures Match(a, b, k, s) && Snake(a, b, k, s + 1, x)
  {
  }

  lemma TracedBack<T>(a: seq<T>, b: seq<T>, prev: seq<int>, j: nat, x: int)
    requires ReachedBack(a, b, prev, j, x) && (prev == [] ==> x != |a|)
    requires j > 0 ==> x != prev[j - 1]
    requires j < |prev| ==> x + 1 != prev[j]
    ensures Match(a, b, 2 * j - |prev| + |a| - |b|, x) && ReachedBack(a, b, prev, j, x + 1)
  {
    var k := 2 * j - |prev| + |a| - |b|;
    if prev == [] {
      SnakeEnd(a, b, |a| - |b|, x, |a|);
    } else if j > 0 && Snake(a, b, k, x, prev[j - 1]) {
      SnakeEnd(a, b, k, x, prev[j - 1]);
    } else {
      SnakeEnd(a, b, k, x, prev[j] - 1);
    }
  }

  // ----- filling rows

  /** At x the diagonal k does not go on matching inside the rectangle. */
  ghost predicate StopsAt<T>(a: seq<T>, b: seq<T>, k: int, x: int, u: int, v: int) {
    x < u && x - k < v ==> !Match(a, b, k, x)
  }

  ghost predicate StopsBack<T>(a: seq<T>, b: seq<T>, k: int, x: int) {
    !Match(a, b, k, x - 1)
  }

  ghost predicate Stopped<T>(a: seq<T>, b: seq<T>, row: seq<int>, u: int, v: int) {
    forall j :: 0 <= j < |row| ==> StopsAt(a, b, 2 * j - (|row| - 1), row[j], u, v)
  }

  ghost predicate StoppedBack<T>(a: seq<T>, b: seq<T>, row: seq<int>) {
    forall j :: 0 <= j < |row| ==> StopsBack(a, b, 2 * j - (|row| - 1) + |a| - |b|, row[j])
  }

  lemma SnakeJoin<T>(a: seq<T>, b: seq<T>, k: int, s: int, m: int, x: int)
    requires Snake(a, b, k, s, m) && Snake(a, b, k, m, x)
    ensures Snake(a, b, k, s, x)
  {
  }

  /** x is right as entry j of the row after prev, in the rectangle up to (u, v). */
  ghost predicate Entry<T>(a: seq<T>, b: seq<T>, prev: seq<int>, j: nat, x: int, u: int, v: int) {
    Reached(a, b, prev, j, x) && StepAt(prev, j, x, u, v) && StopsAt(a, b, 2 * j - |prev|, x, u, v)
  }

  ghost predicate EntryBack<T>(a: seq<T>, b: seq<T>, prev: seq<int>, j: nat, x: int) {
    ReachedBack(a, b, prev, j, x) && BackAt(prev, j, x, |a|, |b|) && StopsBack(a, b, 2 * j - |prev| + |a| - |b|, x)
  }

  /** lookForward found x from s: along matches, as far as they go inside the rectangle. */
  ghost predicate Looked<T>(a: seq<T>, b: seq<T>, k: int, s: int, x: int, u: int, v: int) {
    Snake(a, b, k, s, x) && (x == s || (x <= u && x - k <= v)) && StopsAt(a, b, k, x, u, v)
  }

  ghost predicate LookedBack<T>(a: seq<T>, b: seq<T>, k: int, s: int, x: int) {
    Snake(a, b, k, x, s) && (x == s || (x >= 0 && x - k >= 0)) && StopsBack(a, b, k, x)
  }

  lemma PrefixLooked<T>(a: seq<T>, b: seq<T>, k: int, x: int, u: int, v: int, n: nat)
    requires 0 <= x <= u <= |a| && 0 <= x - k <= v <= |b| && n <= u - x && n <= v - (x - k)
    requires a[x..u][..n] == b[x - k..v][..n]
    requires n < u - x && n < v - (x - k) ==> a[x..u][n] != b[x - k..v][n]
    ensures Looked(a, b, k, x, x + n, u, v)
  {
    PrefixSnake(a, b, k, x, u, v, n);
  }

  lemma SuffixLooked<T>(a: seq<T>, b: seq<T>, k: int, x: int, n: nat)
    requires n <= x <= |a| && n <= x - k <= |b| && a[..x][x - n..] == b[..x - k][x - k - n..]
    requires n < x && n < x - k ==> a[..x][x - 1 - n] != b[..x - k][x - k - 1 - n]
    ensures LookedBack(a, b, k, x, x - n)
  {
    SuffixSnake(a, b, k, x, n);
  }

  /** The two ends of a row. */
  lemma EdgeEntry<T>(a: seq<T>, b: seq<T>, prev: seq<int>, j: nat, x: int, u: int, v: int)
    requires prev != [] && (j == 0 || j == |prev|)
    requires var s, k := if j == 0 then prev[0] else prev[j - 1] + 1, 2 * j - |prev|;
             s >= 0 && s - k >= 0 && Looked(a, b, k, s, x, u, v)
    ensures Entry(a, b, prev, j, x, u, v)
  {
  }

  lemma EdgeEntryBack<T>(a: seq<T>, b: seq<T>, prev: seq<int>, j: nat, x: int)
    requires prev != [] && (j == 0 || j == |prev|)
    requires var s, k := if j == 0 then prev[0] - 1 else prev[j - 1], 2 * j - |prev| + |a| - |b|;
             s <= |a| && s - k <= |b| && LookedBack(a, b, k, s, x)
    ensures EntryBack(a, b, prev, j, x)
  {
  }

  /** Between the ends: the further of two looks, looked at again. */
  lemma InnerEntry<T>(a: seq<T>, b: seq<T>, prev: seq<int>, j: nat, lookv: int, lookh: int, x: int, u: int, v: int)
    requires 0 < j < |prev| && prev[j - 1] >= 0 && prev[j] - (2 * j - |prev|) >= 0
    requires prev[j] >= 0 && prev[j - 1] + 1 - (2 * j - |prev|) >= 0
    requires var k := 2 * j - |prev|;
             && Looked(a, b, k, prev[j - 1] + 1, lookv, u, v) && Looked(a, b, k, prev[j], lookh, u, v)
             && Looked(a, b, k, if lookv > lookh then lookv else lookh, x, u, v)
    ensures Entry(a, b, prev, j, x, u, v)
  {
    var k := 2 * j - |prev|;
    if lookv > lookh {
      SnakeJoin(a, b, k, prev[j - 1] + 1, lookv, x);
    } else {
      SnakeJoin(a, b, k, prev[j], lookh, x);
    }
  }

  lemma InnerEntryBack<T>(a: seq<T>, b: seq<T>, prev: seq<int>, j: nat, lookv: int, lookh: int, x: int)
    requires 0 < j < |prev| && prev[j - 1] <= |a| && prev[j] - 1 <= |a|
    requires var k := 2 * j - |prev| + |a| - |b|;
             && prev[j - 1] - k <= |b| && prev[j] - 1 - k <= |b|
             && LookedBack(a, b, k, prev[j - 1], lookv) && LookedBack(a, b, k, prev[j] - 1, lookh)
             && LookedBack(a, b, k, if lookv < lookh then lookv else lookh, x)
    ensures EntryBack(a, b, prev, j, x)
  {
    var k := 2 * j - |prev| + |a| - |b|;
    if lookv < lookh {
      SnakeJoin(a, b, k, x, lookv, prev[j - 1]);
    } else {
      SnakeJoin(a, b, k, x, lookh, prev[j] - 1);
    }
  }

  /** Rows up to d are right, and so are the entries done of row d + 1; none of these is the corner
      (u, v) if reaching it stops the search. */
  ghost predicate Filling<T>(a: seq<T>, b: seq<T>, vec: seq<seq<int>>, d: nat, done: set<int>, u: int, v: int,
                             stop: bool) {
    && d < |vec| && Rows(a, b, vec, d + 1) && |vec[d]| == d + 1
    && forall j :: j in done ==> FilledAt(a, b, vec, d, j, u, v, stop)
  }

  ghost predicate FilledAt<T>(a: seq<T>, b: seq<T>, vec: seq<seq<int>>, d: nat, j: int, u: int, v: int, stop: bool)
    requires d < |vec|
  {
    && 0 <= j <= d + 1 < |vec| && |vec[d + 1]| == d + 2
    && Entry(a, b, vec[d], j, vec[d + 1][j], u, v)
    && !(stop && vec[d + 1][j] == u && Y(vec[d + 1], j) == v)
  }

  ghost predicate FillingBack<T>(a: seq<T>, b: seq<T>, vec: seq<seq<int>>, d: nat, done: set<int>) {
    && d < |vec| && RowsBack(a, b, vec, d + 1) && |vec[d]| == d + 1
    && forall j :: j in done ==> FilledAtBack(a, b, vec, d, j)
  }

  ghost predicate FilledAtBack<T>(a: seq<T>, b: seq<T>, vec: seq<seq<int>>, d: nat, j: int)
    requires d < |vec|
  {
    && 0 <= j <= d + 1 < |vec| && |vec[d + 1]| == d + 2
    && EntryBack(a, b, vec[d], j, vec[d + 1][j])
  }

  lemma RowsKept<T>(a: seq<T>, b: seq<T>, vec: seq<seq<int>>, after: seq<seq<int>>, n: nat)
    requires n <= |vec| && n <= |after| && forall e :: 0 <= e < n ==> after[e] == vec[e]
    ensures Rows(a, b, vec, n) ==> Rows(a, b, after, n)
    ensures RowsBack(a, b, vec, n) ==> RowsBack(a, b, after, n)
  {
    if Rows(a, b, vec, n) {
      forall d | 0 <= d < n ensures RowReached(a, b, after, d) {
        assert RowReached(a, b, vec, d) && Prev(after, d) == Prev(vec, d);
      }
    }
    if RowsBack(a, b, vec, n) {
      forall d | 0 <= d < n ensures RowReachedBack(a, b, after, d) {
        assert RowReachedBack(a, b, vec, d) && Prev(after, d) == Prev(vec, d);
      }
    }
  }

  /** One entry more. */
  lemma SetFills<T>(a: seq<T>, b: seq<T>, l: Label, d: nat, done: set<int>, j: nat, x: int, u: int, v: int, stop: bool)
    requires l.Shaped() && Filling(a, b, l.vec, d, done, u, v, stop) && j <= d + 1
    requires Entry(a, b, l.vec[d], j, x, u, v) && !(stop && x == u && x - (2 * j - (d + 1)) == v)
    ensures var r := l.Set(d + 1, 2 * j - (d + 1), x);
            Filling(a, b, r.vec, d, done + {j}, u, v, stop)
  {
    var r := l.Set(d + 1, 2 * j - (d + 1), x);
    RowsKept(a, b, l.vec, r.vec, d + 1);
    assert (d + 1 + (2 * j - (d + 1))) / 2 == j;
    forall i | i in done + {j} ensures FilledAt(a, b, r.vec, d, i, u, v, stop) {
      if i != j {
        assert FilledAt(a, b, l.vec, d, i, u, v, stop);
      }
    }
  }

  lemma SetLabels<T>(a: seq<T>, b: seq<T>, l: Label, d: nat, j: nat, x: int, u: int, v: int)
    requires l.Shaped() && d < |l.vec| && Rows(a, b, l.vec, d + 1) && j <= d + 1
    requires Entry(a, b, l.vec[d], j, x, u, v)
    ensures Labelled(a, b, l.Set(d + 1, 2 * j - (d + 1), x).vec, d + 1, j)
  {
    var r := l.Set(d + 1, 2 * j - (d + 1), x);
    RowsKept(a, b, l.vec, r.vec, d + 1);
    assert (d + 1 + (2 * j - (d + 1))) / 2 == j;
  }

  lemma SetFillsBack<T>(a: seq<T>, b: seq<T>, l: Label, d: nat, done: set<int>, j: nat, x: int)
    requires l.Shaped() && FillingBack(a, b, l.vec, d, done) && j <= d + 1
    requires EntryBack(a, b, l.vec[d], j, x)
    ensures var r := l.Set(d + 1, 2 * j - (d + 1), x);
            FillingBack(a, b, r.vec, d, done + {j})
  {
    var r := l.Set(d + 1, 2 * j - (d + 1), x);
    RowsKept(a, b, l.vec, r.vec, d + 1);
    assert (d + 1 + (2 * j - (d + 1))) / 2 == j;
    forall i | i in done + {j} ensures FilledAtBack(a, b, r.vec, d, i) {
      if i != j {
        assert FilledAtBack(a, b, l.vec, d, i);
      }
    }
  }

  ghost predicate Full(done: set<int>, d: nat) {
    forall j :: 0 <= j <= d + 1 ==> j in done
  }

  /** Row d + 1 is complete. */
  ghost predicate RowDone<T>(a: seq<T>, b: seq<T>, vec: seq<seq<int>>, d: nat, u: int, v: int, stop: bool) {
    && d + 1 < |vec| && Rows(a, b, vec, d + 2) && RowStep(vec[d], vec[d + 1], u, v)
    && Stopped(a, b, vec[d + 1], u, v) && (stop ==> !AtCorner(vec[d + 1], u, v))
  }

  ghost predicate RowDoneBack<T>(a: seq<T>, b: seq<T>, vec: seq<seq<int>>, d: nat) {
    && d + 1 < |vec| && RowsBack(a, b, vec, d + 2) && RowBack(vec[d], vec[d + 1], |a|, |b|)
    && StoppedBack(a, b, vec[d + 1])
  }

  lemma FilledRow<T>(a: seq<T>, b: seq<T>, vec: seq<seq<int>>, d: nat, done: set<int>, u: int, v: int, stop: bool)
    requires Filling(a, b, vec, d, done, u, v, stop) && Full(done, d)
    ensures RowDone(a, b, vec, d, u, v, stop)
  {
    assert 0 in done && FilledAt(a, b, vec, d, 0, u, v, stop);
    var row := vec[d + 1];
    forall j | 0 <= j <= d + 1
      ensures Entry(a, b, vec[d], j, row[j], u, v) && !(stop && row[j] == u && Y(row, j) == v)
    {
      assert j in done && FilledAt(a, b, vec, d, j, u, v, stop);
    }
    assert RowReached(a, b, vec, d + 1);
  }

  lemma FilledRowBack<T>(a: seq<T>, b: seq<T>, vec: seq<seq<int>>, d: nat, done: set<int>)
    requires FillingBack(a, b, vec, d, done) && Full(done, d)
    ensures RowDoneBack(a, b, vec, d)
  {
    assert 0 in done && FilledAtBack(a, b, vec, d, 0);
    var row := vec[d + 1];
    forall j | 0 <= j <= d + 1 ensures EntryBack(a, b, vec[d], j, row[j]) {
      assert j in done && FilledAtBack(a, b, vec, d, j);
    }
    assert RowReachedBack(a, b, vec, d + 1);
  }

  lemma RowInside<T>(a: seq<T>, b: seq<T>, vec: seq<seq<int>>, d: nat, j: nat)
    requires d < |vec| && j <= d
    ensures Rows(a, b, vec, d + 1) ==> |vec[d]| == d + 1 && vec[d][j] >= 0 && vec[d][j] - (2 * j - d) >= 0
    ensures RowsBack(a, b, vec, d + 1) ==>
              |vec[d]| == d + 1 && vec[d][j] <= |a| && vec[d][j] - (2 * j - d + |a| - |b|) <= |b|
  {
    if Rows(a, b, vec, d + 1) {
      assert RowReached(a, b, vec, d) && Reached(a, b, Prev(vec, d), j, vec[d][j]);
    }
    if RowsBack(a, b, vec, d + 1) {
      assert RowReachedBack(a, b, vec, d) && ReachedBack(a, b, Prev(vec, d), j, vec[d][j]);
    }
  }

  /** Looking from s makes entry j of row d + 1. */
  ghost predicate Makes<T>(a: seq<T>, b: seq<T>, vec: seq<seq<int>>, d: nat, j: nat, s: int, u: int, v: int) {
    && d < |vec| && j <= d + 1 && s >= 0 && s - (2 * j - (d + 1)) >= 0
    && forall x :: Looked(a, b, 2 * j - (d + 1), s, x, u, v) ==> Entry(a, b, vec[d], j, x, u, v)
  }

  ghost predicate MakesBack<T>(a: seq<T>, b: seq<T>, vec: seq<seq<int>>, d: nat, j: nat, s: int) {
    && d < |vec| && j <= d + 1 && s <= |a| && s - (2 * j - (d + 1) + |a| - |b|) <= |b|
    && forall x :: LookedBack(a, b, 2 * j - (d + 1) + |a| - |b|, s, x) ==> EntryBack(a, b, vec[d], j, x)
  }

  lemma EdgesMake<T>(a: seq<T>, b: seq<T>, vec: seq<seq<int>>, d: nat, u: int, v: int)
    requires d < |vec| && Rows(a, b, vec, d + 1) && |vec[d]| == d + 1
    ensures Makes(a, b, vec, d, 0, vec[d][0], u, v) && Makes(a, b, vec, d, d + 1, vec[d][d] + 1, u, v)
  {
    RowInside(a, b, vec, d, 0);
    RowInside(a, b, vec, d, d);
    var k, s := -(d + 1), vec[d][0];
    forall x | Looked(a, b, k, s, x, u, v) ensures Entry(a, b, vec[d], 0, x, u, v) {
      EdgeEntry(a, b, vec[d], 0, x, u, v);
    }
    var n, t := d + 1, vec[d][d] + 1;
    forall x | Looked(a, b, n, t, x, u, v) ensures Entry(a, b, vec[d], n, x, u, v) {
      EdgeEntry(a, b, vec[d], n, x, u, v);
    }
  }

  lemma EdgesMakeBack<T>(a: seq<T>, b: seq<T>, vec: seq<seq<int>>, d: nat)
    requires d < |vec| && RowsBack(a, b, vec, d + 1) && |vec[d]| == d + 1
    ensures MakesBack(a, b, vec, d, 0, vec[d][0] - 1) && MakesBack(a, b, vec, d, d + 1, vec[d][d])
  {
    var delta := |a| - |b|;
    RowInside(a, b, vec, d, 0);
    RowInside(a, b, vec, d, d);
    var k, s := -(d + 1) + delta, vec[d][0] - 1;
    forall x | LookedBack(a, b, k, s, x) ensures EntryBack(a, b, vec[d], 0, x) {
      EdgeEntryBack(a, b, vec[d], 0, x);
    }
    var n, m, t := d + 1, d + 1 + delta, vec[d][d];
    forall x | LookedBack(a, b, m, t, x) ensures EntryBack(a, b, vec[d], n, x) {
      EdgeEntryBack(a, b, vec[d], n, x);
    }
  }

  lemma InnerMakes<T>(a: seq<T>, b: seq<T>, vec: seq<seq<int>>, d: nat, j: nat, lookv: int, lookh: int, u: int, v: int)
    requires d < |vec| && Rows(a, b, vec, d + 1) && |vec[d]| == d + 1 && 0 < j <= d
    requires var k := 2 * j - (d + 1);
             Looked(a, b, k, vec[d][j - 1] + 1, lookv, u, v) && Looked(a, b, k, vec[d][j], lookh, u, v)
    ensures Makes(a, b, vec, d, j, if lookv > lookh then lookv else lookh, u, v)
  {
    var k, s := 2 * j - (d + 1), if lookv > lookh then lookv else lookh;
    RowInside(a, b, vec, d, j - 1);
    RowInside(a, b, vec, d, j);
    forall x | Looked(a, b, k, s, x, u, v) ensures Entry(a, b, vec[d], j, x, u, v) {
      InnerEntry(a, b, vec[d], j, lookv, lookh, x, u, v);
    }
  }

  lemma InnerMakesBack<T>(a: seq<T>, b: seq<T>, vec: seq<seq<int>>, d: nat, j: nat, lookv: int, lookh: int)
    requires d < |vec| && RowsBack(a, b, vec, d + 1) && |vec[d]| == d + 1 && 0 < j <= d
    requires var k := 2 * j - (d + 1) + |a| - |b|;
             LookedBack(a, b, k, vec[d][j - 1], lookv) && LookedBack(a, b, k, vec[d][j] - 1, lookh)
    ensures MakesBack(a, b, vec, d, j, if lookv < lookh then lookv else lookh)
  {
    var k, s := 2 * j - (d + 1) + |a| - |b|, if lookv < lookh then lookv else lookh;
    RowInside(a, b, vec, d, j - 1);
    RowInside(a, b, vec, d, j);
    forall x | LookedBack(a, b, k, s, x) ensures EntryBack(a, b, vec[d], j, x) {
      InnerEntryBack(a, b, vec[d], j, lookv, lookh, x);
    }
  }

  lemma FirstRow<T>(a: seq<T>, b: seq<T>, l: Label, x: int, u: int, v: int)
    requires l.Shaped() && Looked(a, b, 0, 0, x, u, v)
    ensures var r := l.Set(0, 0, x);
            && |r.vec| > 0 && Rows(a, b, r.vec, 1) && RowStep([], r.vec[0], u, v)
            && Stopped(a, b, r.vec[0], u, v)
  {
    var r := l.Set(0, 0, x);
    assert r.vec[0] == [x];
    assert RowReached(a, b, r.vec, 0);
  }

  lemma FirstRowBack<T>(a: seq<T>, b: seq<T>, l: Label, x: int)
    requires l.Shaped() && LookedBack(a, b, |a| - |b|, |a|, x)
    ensures var r := l.Set(0, 0, x);
            && |r.vec| > 0 && RowsBack(a, b, r.vec, 1) && RowBack([], r.vec[0], |a|, |b|)
            && StoppedBack(a, b, r.vec[0])
  {
    var r := l.Set(0, 0, x);
    assert r.vec[0] == [x];
    assert RowReachedBack(a, b, r.vec, 0);
  }

  lemma RowLabel<T>(a: seq<T>, b: seq<T>, vec: seq<seq<int>>, d: nat, j: nat)
    requires j <= d < |vec|
    ensures Rows(a, b, vec, d + 1) ==> Labelled(a, b, vec, d, j)
    ensures RowsBack(a, b, vec, d + 1) ==> LabelledBack(a, b, vec, d, j)
  {
    EntryOnWay(a, b, vec, d, j);
  }

  /** A row that grew in the rectangle has a label inside it. */
  lemma GrownInside<T>(a: seq<T>, b: seq<T>, vec: seq<seq<int>>, d: nat, u: nat, v: nat) returns (j: nat)
    requires d < |vec| && Rows(a, b, vec, d + 1) && Grown(vec[d], u, v)
    ensures j <= d < |vec| && |vec[d]| == d + 1 && 0 <= vec[d][j] <= u && 0 <= Y(vec[d], j) <= v
  {
    RowInside(a, b, vec, d, 0);
    var row := vec[d];
    if AtCorner(row, u, v) {
      j :| 0 <= j < |row| && row[j] == u && Y(row, j) == v;
    } else {
      ShortOrAtCorner(row, u, v);
      j := SomeInside(row, u, v);
    }
    RowInside(a, b, vec, d, j);
  }

  lemma RowAbove<T>(a: seq<T>, b: seq<T>, vec: seq<seq<int>>, d: nat)
    requires d < |vec| && Rows(a, b, vec, d + 1) && |vec[d]| == d + 1
    ensures forall l :: On(vec[d], l) ==> At(vec[d], l) - l >= 0
  {
    forall l | On(vec[d], l) ensures At(vec[d], l) - l >= 0 {
      RowInside(a, b, vec, d, (d + l) / 2);
    }
  }
}
