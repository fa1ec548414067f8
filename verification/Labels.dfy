/** The labels of the diff search: triangles of points, and what the way a row grows out of the one
    before says about the rectangle it grows in. */
module Labels {

  /** Enforces the constraint on d and k. */
  predicate Ok(d: int, k: int) {
    d >= 0 && -d <= k <= d
  }

  predicate Even(n: int) {
    n % 2 == 0
  }

  /** Row d has d + 1 entries once it is written, and the label of (d, k) is entry (d + k) / 2. */
  datatype Label = Label(vec: seq<seq<int>>) {
    predicate Shaped() {
      forall d :: 0 <= d < |vec| ==> vec[d] == [] || |vec[d]| == d + 1
    }

    predicate Has(d: int, k: int) {
      Ok(d, k) && d < |vec| && |vec[d]| == d + 1
    }

    function Get(d: int, k: int): int
      requires Has(d, k)
    {
      vec[d][(d + k) / 2]
    }

    function Set(d: int, k: int, x: int): (r: Label)
      requires Ok(d, k) && Shaped()
      ensures r.Shaped() && r.Has(d, k) && r.Get(d, k) == x
      ensures forall e :: 0 <= e < |vec| && e != d ==> e < |r.vec| && r.vec[e] == vec[e]
      ensures d < |vec| && vec[d] != [] ==> r.vec[d] == vec[d][(d + k) / 2 := x]
    {
      var rows := if d < |vec| then vec else vec + seq(d + 1 - |vec|, _ => []);
      var row := if rows[d] == [] then seq(d + 1, _ => 0) else rows[d];
      Label(rows[d := row[(d + k) / 2 := x]])
    }
  }

  /** newtriang. */
  function NewTriang(limit: nat): (r: Label)
    ensures r.Shaped()
  {
    Label(if limit < 100 then seq(limit, _ => []) else [])
  }

  // ----- how a row grows

  /** Entry j of a row of n + 1 entries lies on the diagonal x - y == 2 * j - n. */
  function Y(row: seq<int>, j: nat): int
    requires j < |row|
  {
    row[j] - (2 * j - (|row| - 1))
  }

  /** Entry j of the row after prev comes from a neighbour in prev by one step, to the right or
      down, and is beyond both; only inside the rectangle from (0, 0) to (u, v) is it further. */
  predicate StepAt(prev: seq<int>, j: nat, x: int, u: int, v: int) {
    && j <= |prev|
    && (if prev == [] then x >= 0
        else (j > 0 ==> x >= prev[j - 1] + 1) && (j < |prev| ==> x >= prev[j]))
    && (|| (prev == [] && x == 0)
        || (j > 0 && x == prev[j - 1] + 1)
        || (j < |prev| && x == prev[j])
        || (x <= u && x - (2 * j - |prev|) <= v))
  }

  ghost predicate RowStep(prev: seq<int>, row: seq<int>, u: int, v: int) {
    |row| == |prev| + 1 && forall j :: 0 <= j < |row| ==> StepAt(prev, j, row[j], u, v)
  }

  /** An entry right of the rectangle has a neighbour that is as far but for one step, and so has
      one below it; the two ends of the row leave the rectangle only on their own side. */
  ghost predicate Tame(row: seq<int>, u: int, v: int) {
    && row != [] && row[0] <= u && Y(row, |row| - 1) <= v
    && (forall j :: 0 <= j < |row| && row[j] > u ==> j > 0 && row[j - 1] >= row[j] - 1)
    && (forall j :: 0 <= j < |row| && Y(row, j) > v ==> j + 1 < |row| && row[j + 1] >= row[j] + 1)
  }

  lemma RowIsTame(prev: seq<int>, row: seq<int>, u: nat, v: nat)
    requires RowStep(prev, row, u, v) && (prev == [] || Tame(prev, u, v))
    ensures Tame(row, u, v)
  {
    assert StepAt(prev, 0, row[0], u, v);
    assert StepAt(prev, |prev|, row[|prev|], u, v);
    forall j | 0 <= j < |row| && row[j] > u ensures j > 0 && row[j - 1] >= row[j] - 1 {
      assert StepAt(prev, j, row[j], u, v);
      if j > 0 {
        assert StepAt(prev, j - 1, row[j - 1], u, v);
      }
    }
    forall j | 0 <= j < |row| && Y(row, j) > v ensures j + 1 < |row| && row[j + 1] >= row[j] + 1 {
      assert StepAt(prev, j, row[j], u, v);
      assert j > 0 && row[j] == prev[j - 1] + 1 ==> Y(prev, j - 1) > v;
      if j + 1 < |row| {
        assert StepAt(prev, j + 1, row[j + 1], u, v);
      }
    }
  }

  /** No entry has x + y beyond the corner (u, v), or even on a line with it. */
  ghost predicate UpToCorner(row: seq<int>, u: int, v: int) {
    forall j :: 0 <= j < |row| ==> row[j] + Y(row, j) <= u + v
  }

  ghost predicate ShortOfCorner(row: seq<int>, u: int, v: int) {
    forall j :: 0 <= j < |row| ==> row[j] + Y(row, j) < u + v
  }

  ghost predicate AtCorner(row: seq<int>, u: int, v: int) {
    exists j :: 0 <= j < |row| && row[j] == u && Y(row, j) == v
  }

  lemma NextUpToCorner(prev: seq<int>, row: seq<int>, u: nat, v: nat)
    requires RowStep(prev, row, u, v) && (prev == [] || ShortOfCorner(prev, u, v))
    ensures UpToCorner(row, u, v)
  {
    forall j | 0 <= j < |row| ensures row[j] + Y(row, j) <= u + v {
      assert StepAt(prev, j, row[j], u, v);
      if j > 0 {
        assert prev[j - 1] + Y(prev, j - 1) < u + v;
      }
      if j < |prev| {
        assert prev[j] + Y(prev, j) < u + v;
      }
    }
  }

  /** A row that reaches the line of the corner reaches the corner. */
  lemma ShortOrAtCorner(row: seq<int>, u: int, v: int)
    requires Tame(row, u, v) && UpToCorner(row, u, v) && !AtCorner(row, u, v)
    ensures ShortOfCorner(row, u, v)
  {
    forall j | 0 <= j < |row| ensures row[j] + Y(row, j) < u + v {
      if row[j] > u {
        RightOfCorner(row, u, v, j);
      } else {
        BelowCorner(row, u, v, j);
      }
    }
  }

  lemma {:induction false} RightOfCorner(row: seq<int>, u: int, v: int, j: nat)
    requires Tame(row, u, v) && UpToCorner(row, u, v) && !AtCorner(row, u, v)
    requires j < |row| && row[j] >= u
    ensures row[j] + Y(row, j) < u + v
    decreases j
  {
    if row[j] > u && row[j] + Y(row, j) == u + v {
      assert row[j - 1] + Y(row, j - 1) <= u + v;
      RightOfCorner(row, u, v, j - 1);
    }
  }

  lemma {:induction false} BelowCorner(row: seq<int>, u: int, v: int, j: nat)
    requires Tame(row, u, v) && UpToCorner(row, u, v) && !AtCorner(row, u, v)
    requires j < |row| && row[j] <= u
    ensures row[j] + Y(row, j) < u + v
    decreases |row| - j
  {
    if row[j] + Y(row, j) == u + v && Y(row, j) > v {
      assert row[j + 1] + Y(row, j + 1) <= u + v;
      BelowCorner(row, u, v, j + 1);
    }
  }

  /** A row short of the corner has an entry inside the rectangle. */
  lemma SomeInside(row: seq<int>, u: nat, v: nat) returns (j: nat)
    requires Tame(row, u, v) && ShortOfCorner(row, u, v)
    ensures j < |row| && row[j] <= u && Y(row, j) <= v
  {
    var d, k := |row| - 1, u - v;
    j := if k > d then d else if k < -d then 0 else (d + k) / 2;
    assert row[j] + Y(row, j) < u + v;
  }

  predicate Inside(row: seq<int>, j: int, u: int, v: int)
    requires 0 <= j < |row|
  {
    0 <= row[j] <= u && 0 <= Y(row, j) <= v
  }

  /** No entry inside the rectangle has x + y above most. */
  ghost predicate Leads(row: seq<int>, u: int, v: int, most: int) {
    forall j :: 0 <= j < |row| && Inside(row, j, u, v) ==> row[j] + Y(row, j) <= most
  }

  /** Some entry inside the rectangle has gone as far as any. */
  lemma InsideAsFar(row: seq<int>, u: int, v: int, j: nat) returns (i: nat)
    requires Grown(row, u, v) && j < |row|
    ensures i < |row| && row[i] <= u && Y(row, i) <= v && row[i] + Y(row, i) >= row[j] + Y(row, j)
  {
    if row[j] > u {
      i := LeftInside(row, u, v, j);
    } else {
      i := RightInside(row, u, v, j);
    }
  }

  lemma {:induction false} LeftInside(row: seq<int>, u: int, v: int, j: nat) returns (i: nat)
    requires Grown(row, u, v) && j < |row| && row[j] >= u
    ensures i < |row| && row[i] <= u && Y(row, i) <= v && row[i] + Y(row, i) >= row[j] + Y(row, j)
    decreases j
  {
    assert row[j] + Y(row, j) <= u + v;
    if row[j] == u {
      i := j;
    } else {
      i := LeftInside(row, u, v, j - 1);
    }
  }

  lemma {:induction false} RightInside(row: seq<int>, u: int, v: int, j: nat) returns (i: nat)
    requires Grown(row, u, v) && j < |row| && row[j] <= u
    ensures i < |row| && row[i] <= u && Y(row, i) <= v && row[i] + Y(row, i) >= row[j] + Y(row, j)
    decreases |row| - j
  {
    if Y(row, j) <= v {
      i := j;
    } else {
      assert row[j + 1] + Y(row, j + 1) <= u + v;
      i := RightInside(row, u, v, j + 1);
    }
  }

  // ----- rows that grow backwards

  /** The same for labels that start at (n, m) and grow towards (0, 0). */
  predicate BackAt(prev: seq<int>, j: nat, x: int, n: int, m: int) {
    && j <= |prev|
    && (if prev == [] then x <= n
        else (j > 0 ==> x <= prev[j - 1]) && (j < |prev| ==> x <= prev[j] - 1))
    && (|| (prev == [] && x == n)
        || (j > 0 && x == prev[j - 1])
        || (j < |prev| && x == prev[j] - 1)
        || (x >= 0 && x - (2 * j - |prev| + n - m) >= 0))
  }

  ghost predicate RowBack(prev: seq<int>, row: seq<int>, n: int, m: int) {
    |row| == |prev| + 1 && forall j :: 0 <= j < |row| ==> BackAt(prev, j, row[j], n, m)
  }

  /** The row seen from (n, m). */
  function Mirror(row: seq<int>, n: int): (r: seq<int>)
    ensures |r| == |row|
  {
    seq(|row|, i requires 0 <= i < |row| => n - row[|row| - 1 - i])
  }

  lemma MirrorStep(prev: seq<int>, row: seq<int>, n: int, m: int)
    requires RowBack(prev, row, n, m)
    ensures RowStep(Mirror(prev, n), Mirror(row, n), n, m)
  {
    var p, r := Mirror(prev, n), Mirror(row, n);
    forall i | 0 <= i < |r| ensures StepAt(p, i, r[i], n, m) {
      var j := |prev| - i;
      assert BackAt(prev, j, row[j], n, m);
      assert j > 0 ==> p[i] == n - prev[j - 1];
      assert j < |prev| ==> p[i - 1] == n - prev[j];
    }
  }

  /** What tameness says about a row that grows backwards. */
  lemma BackNeighbours(row: seq<int>, n: int, m: int, j: nat)
    requires Tame(Mirror(row, n), n, m) && UpToCorner(Mirror(row, n), n, m) && j < |row|
    ensures row[j] < 0 ==> j + 1 < |row| && row[j + 1] <= row[j] + 1
    ensures Y(row, j) - (n - m) < 0 ==> j > 0 && row[j - 1] <= row[j] - 1
    ensures row[j] + Y(row, j) - (n - m) >= 0
  {
    var r, i := Mirror(row, n), |row| - 1 - j;
    assert r[i] == n - row[j] && Y(r, i) == m - (Y(row, j) - (n - m));
    assert r[i] + Y(r, i) <= n + m;
    if i > 0 {
      assert r[i - 1] == n - row[j + 1];
    }
    if i + 1 < |r| {
      assert r[i + 1] == n - row[j - 1];
    }
  }

  // ----- rows that meet

  /** The row has a label on the diagonal k. */
  predicate On(row: seq<int>, k: int) {
    Ok(|row| - 1, k) && Even(|row| - 1 + k)
  }

  function At(row: seq<int>, k: int): int
    requires On(row, k)
  {
    row[(|row| - 1 + k) / 2]
  }

  /** A forward and a backward row both have a label on the diagonal k; delta is where the backward
      rows start. */
  predicate Shared(f: seq<int>, g: seq<int>, delta: int, k: int) {
    On(f, k) && On(g, k - delta)
  }

  /** There the forward label is as far as the backward one, or further. */
  predicate Meet(f: seq<int>, g: seq<int>, delta: int, k: int) {
    Shared(f, g, delta, k) && At(g, k - delta) <= At(f, k)
  }

  ghost predicate Apart(f: seq<int>, g: seq<int>, delta: int) {
    forall k :: !Meet(f, g, delta, k)
  }

  /** What holds of a row that grew from rows short of the corner. */
  ghost predicate Grown(row: seq<int>, u: int, v: int) {
    Tame(row, u, v) && UpToCorner(row, u, v)
  }

  lemma GrowOn(prev: seq<int>, row: seq<int>, u: nat, v: nat)
    requires RowStep(prev, row, u, v) && (prev == [] || (Tame(prev, u, v) && ShortOfCorner(prev, u, v)))
    ensures Grown(row, u, v)
  {
    RowIsTame(prev, row, u, v);
    NextUpToCorner(prev, row, u, v);
  }

  predicate AtMost(row: seq<int>, n: int) {
    forall j :: 0 <= j < |row| ==> row[j] <= n
  }

  predicate AtLeast(row: seq<int>, n: int) {
    forall j :: 0 <= j < |row| ==> row[j] >= n
  }

  lemma CornerMeets(f: seq<int>, g: seq<int>, h: seq<int>, n: nat, m: nat)
    requires AtCorner(f, n, m) && |g| == |f| && (|f| > 1 ==> |h| == |f| - 1)
    requires AtMost(g, n)
    requires AtMost(h, n)
    ensures Meet(f, g, n - m, n - m) || (|f| > 1 && Meet(f, h, n - m, n - m))
  {
    var j :| 0 <= j < |f| && f[j] == n && Y(f, j) == m;
    assert 2 * j - (|f| - 1) == n - m;
  }

  /** A forward row at the corner would have met one of the two backward rows next to it. */
  lemma ForwardShort(f: seq<int>, g: seq<int>, h: seq<int>, n: nat, m: nat)
    requires Grown(f, n, m) && Apart(f, g, n - m) && |g| == |f|
    requires |f| > 1 ==> |h| == |f| - 1 && Apart(f, h, n - m)
    requires AtMost(g, n)
    requires AtMost(h, n)
    ensures ShortOfCorner(f, n, m)
  {
    if AtCorner(f, n, m) {
      CornerMeets(f, g, h, n, m);
    }
    ShortOrAtCorner(f, n, m);
  }

  lemma OriginMeets(g: seq<int>, f: seq<int>, h: seq<int>, n: nat, m: nat)
    requires AtCorner(Mirror(g, n), n, m) && |f| == |g| && |h| == |g| + 1
    requires AtLeast(f, 0)
    requires AtLeast(h, 0)
    ensures Meet(f, g, n - m, 0) || Meet(h, g, n - m, 0)
  {
    var r := Mirror(g, n);
    var i :| 0 <= i < |r| && r[i] == n && Y(r, i) == m;
    assert 2 * i - (|r| - 1) == n - m && g[|g| - 1 - i] == 0;
  }

  /** A backward row at (0, 0) would have met one of the two forward rows next to it. */
  lemma BackwardShort(g: seq<int>, f: seq<int>, h: seq<int>, n: nat, m: nat)
    requires Grown(Mirror(g, n), n, m) && Apart(f, g, n - m) && Apart(h, g, n - m)
    requires |f| == |g| && |h| == |g| + 1
    requires AtLeast(f, 0)
    requires AtLeast(h, 0)
    ensures ShortOfCorner(Mirror(g, n), n, m)
  {
    if AtCorner(Mirror(g, n), n, m) {
      OriginMeets(g, f, h, n, m);
    }
    ShortOrAtCorner(Mirror(g, n), n, m);
  }

  /** Where the labels first meet, if no label from there on lies on an axis, the backward label
      is inside the rectangle. */
  lemma MeetInside(f: seq<int>, g: seq<int>, n: nat, m: nat, delta: int, k: int)
    requires delta == n - m && Meet(f, g, delta, k) && Grown(Mirror(g, n), n, m)
    requires forall l :: l < k ==> !Meet(f, g, delta, l)
    requires forall l :: k <= l && Shared(f, g, delta, l) ==> !OnAxis(g, delta, l)
    requires forall l :: On(f, l) ==> At(f, l) - l >= 0
    ensures 0 < At(g, k - delta) && 0 <= At(g, k - delta) - k
  {
    RightOfAxis(f, g, n, m, delta, k, k);
    BelowAxisMeets(f, g, n, m, delta, k);
  }

  predicate OnAxis(g: seq<int>, delta: int, l: int)
    requires On(g, l - delta)
  {
    At(g, l - delta) == 0
  }

  lemma BelowAxisMeets(f: seq<int>, g: seq<int>, n: nat, m: nat, delta: int, k: int)
    requires delta == n - m && Shared(f, g, delta, k) && Grown(Mirror(g, n), n, m)
    requires forall l :: On(f, l) ==> At(f, l) - l >= 0
    ensures At(g, k - delta) - k < 0 ==> Meet(f, g, delta, k - 2)
  {
    var u, j := At(g, k - delta), (|g| - 1 + k - delta) / 2;
    BackNeighbours(g, n, m, j);
    assert Y(g, j) == u - (k - delta);
    if u - k < 0 {
      assert On(f, k - 2) && At(g, k - 2 - delta) == g[j - 1];
    }
  }

  lemma {:induction false} RightOfAxis(f: seq<int>, g: seq<int>, n: nat, m: nat, delta: int, k: int, l: int)
    requires delta == n - m && k <= l && Shared(f, g, delta, l) && Grown(Mirror(g, n), n, m)
    requires forall i :: k <= i && Shared(f, g, delta, i) ==> !OnAxis(g, delta, i)
    ensures At(g, l - delta) > 0
    decreases |f| - l
  {
    var u, j := At(g, l - delta), (|g| - 1 + l - delta) / 2;
    BackNeighbours(g, n, m, j);
    assert Y(g, j) == u - (l - delta) && !OnAxis(g, delta, l);
    if u < 0 {
      assert Shared(f, g, delta, l + 2) && At(g, l + 2 - delta) == g[j + 1];
      RightOfAxis(f, g, n, m, delta, k, l + 2);
    }
  }
}
