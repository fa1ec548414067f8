/** The two-sided search for a common subsequence: labels grow from both corners of the edit graph
    until they meet or a limit is reached. */
module Search {
  import opened Collections
  import opened Distance
  import opened Labels
  import opened Lcs
  import opened Limits
  import opened Splices
  import opened Traces

  /** The rectangle of the source starts at (0, 0) in every search. */
  class EditGraph<T(==)> {
    const a: seq<T>
    const b: seq<T>
    const limit: nat
    var vf: Label
    var vb: Label
    var ux: int
    var uy: int

    constructor (a: seq<T>, b: seq<T>, limit: nat)
      ensures this.a == a && this.b == b && this.limit == limit
      ensures ux == |a| && uy == |b| && vf.Shaped() && vb.Shaped()
    {
      this.a, this.b, this.limit := a, b, limit;
      vf, vb := NewTriang(limit), NewTriang(limit);
      ux, uy := |a|, |b|;
    }

    function Delta(): int {
      |a| - |b|
    }

    predicate InGraph()
      reads this
    {
      0 <= ux <= |a| && 0 <= uy <= |b| && vf.Shaped() && vb.Shaped()
    }

    // --- forward

    /** lookForward: as far as the diagonal matches inside the rectangle. */
    method LookForward(k: int, relx: int) returns (x: int)
      requires InGraph() && relx >= 0 && relx - k >= 0
      ensures Looked(a, b, k, relx, x, ux, uy)
    {
      x := relx;
      var y := relx - k;
      if x < ux && y < uy {
        var n := CommonPrefixLen(a[x..ux], b[y..uy]);
        PrefixLooked(a, b, k, x, ux, uy, n);
        x := x + n;
      }
    }

    /** setForward. */
    method SetForward(d: int, k: int, relx: int) returns (x: int)
      requires InGraph() && relx >= 0 && relx - k >= 0 && Ok(d, k)
      modifies this`vf
      ensures vf == old(vf).Set(d, k, x) && Looked(a, b, k, relx, x, ux, uy)
    {
      x := LookForward(k, relx);
      vf := vf.Set(d, k, x);
    }

    /** fdone: does label (d, k) reach the corner of the rectangle? */
    predicate FDone(d: int, k: int)
      requires vf.Has(d, k)
      reads this
    {
      vf.Get(d, k) == ux && vf.Get(d, k) - k == uy
    }

    /** Label (d, k) is there, and right like all rows before it. */
    ghost predicate Forwards(d: int, k: int)
      reads this
    {
      Even(d + k) && vf.Has(d, k) && Labelled(a, b, vf.vec, d, (d + k) / 2)
    }

    /** It is there, and at the corner. */
    ghost predicate Arrived(d: int, k: int)
      reads this
    {
      Forwards(d, k) && FDone(d, k)
    }

    /** forwardlcs: the diagonals on the way back from label (d, k). */
    method ForwardLcs(d: int, k: int) returns (ans: seq<Diag>)
      requires Forwards(d, k)
      ensures Collected(a, b, ans, 0, 0, vf.Get(d, k), vf.Get(d, k) - k)
      ensures 2 * vf.Get(d, k) - k <= 2 * Size(ans) + d && AllNearStart(ans, a, b, d)
    {
      ans := Follow(vf.vec, Spot(d, (d + k) / 2, vf.Get(d, k)), a, b);
    }

    /** Label (d + 1, k), from a look at relx; done when that stops the search at the corner. */
    method PutForward(d: nat, k: int, relx: int, ghost j: nat, ghost filled: set<int>, stop: bool) returns (done: bool)
      requires InGraph() && Filling(a, b, vf.vec, d, filled, ux, uy, stop)
      requires k == 2 * j - (d + 1) && Makes(a, b, vf.vec, d, j, relx, ux, uy)
      modifies this`vf
      ensures InGraph() && d < |vf.vec| && vf.vec[d] == old(vf.vec)[d]
      ensures done ==> stop && Arrived(d + 1, k)
      ensures !done ==> Filling(a, b, vf.vec, d, filled + {j}, ux, uy, stop)
    {
      ghost var v := vf;
      var x := SetForward(d + 1, k, relx);
      done := stop && FDone(d + 1, k);
      if done {
        SetLabels(a, b, v, d, j, x, ux, uy);
      } else {
        SetFills(a, b, v, d, filled, j, x, ux, uy, stop);
      }
    }

    /** The labels of row d + 1; a search that stops at the corner says where it reached it. */
    method ForwardRow(d: nat, stop: bool) returns (at: Option<int>)
      requires InGraph() && Filling(a, b, vf.vec, d, {}, ux, uy, stop)
      modifies this`vf
      ensures InGraph() && d < |vf.vec| && vf.vec[d] == old(vf.vec)[d]
      ensures at.Some? ==> stop && Arrived(d + 1, at.value)
      ensures at.None? ==> RowDone(a, b, vf.vec, d, ux, uy, stop)
    {
      at := ForwardEnds(d, stop);
      if at.None? {
        at := ForwardBetween(d, stop);
      }
    }

    method ForwardBetween(d: nat, stop: bool) returns (at: Option<int>)
      requires InGraph() && Filling(a, b, vf.vec, d, Ends(d, 1), ux, uy, stop)
      modifies this`vf
      ensures InGraph() && d < |vf.vec| && vf.vec[d] == old(vf.vec)[d]
      ensures at.Some? ==> stop && Arrived(d + 1, at.value)
      ensures at.None? ==> RowDone(a, b, vf.vec, d, ux, uy, stop)
    {
      ghost var prev := vf.vec[d];
      var k: int := 1 - d;
      ghost var j: nat := 1;
      while k < d
        invariant 1 <= j <= d + 1 && k == 2 * j - (d + 1)
        invariant InGraph() && ux == old(ux) && uy == old(uy) && vb == old(vb)
        invariant Filling(a, b, vf.vec, d, Ends(d, j), ux, uy, stop) && vf.vec[d] == prev
      {
        var done := InnerForward(d, k, j, stop);
        if done {
          return Some(k);
        }
        k, j := k + 2, j + 1;
      }
      EndsAll(d, j);
      FilledRow(a, b, vf.vec, d, Ends(d, j), ux, uy, stop);
      return None;
    }

    /** The two ends of the row. */
    method ForwardEnds(d: nat, stop: bool) returns (at: Option<int>)
      requires InGraph() && Filling(a, b, vf.vec, d, {}, ux, uy, stop)
      modifies this`vf
      ensures InGraph() && d < |vf.vec| && vf.vec[d] == old(vf.vec)[d]
      ensures at.Some? ==> stop && Arrived(d + 1, at.value)
      ensures at.None? ==> Filling(a, b, vf.vec, d, Ends(d, 1), ux, uy, stop)
    {
      EdgesMake(a, b, vf.vec, d, ux, uy);
      var done := PutForward(d, -(d + 1), vf.Get(d, 0 - d), 0, {}, stop);
      if done {
        return Some(-(d + 1));
      }
      assert {} + {0} == {0};
      at := ForwardTop(d, stop);
    }

    method ForwardTop(d: nat, stop: bool) returns (at: Option<int>)
      requires InGraph() && Filling(a, b, vf.vec, d, {0}, ux, uy, stop)
      modifies this`vf
      ensures InGraph() && d < |vf.vec| && vf.vec[d] == old(vf.vec)[d]
      ensures at.Some? ==> stop && Arrived(d + 1, at.value)
      ensures at.None? ==> Filling(a, b, vf.vec, d, Ends(d, 1), ux, uy, stop)
    {
      EdgesMake(a, b, vf.vec, d, ux, uy);
      var done := PutForward(d, d + 1, vf.Get(d, d) + 1, d + 1, {0}, stop);
      assert {0} + {d + 1} == Ends(d, 1);
      at := if done then Some(d + 1) else None;
    }

    /** Its inner loop. */
    method InnerForward(d: nat, k: int, ghost j: nat, stop: bool) returns (done: bool)
      requires InGraph() && Filling(a, b, vf.vec, d, Ends(d, j), ux, uy, stop)
      requires k == 2 * j - (d + 1) && 0 < j <= d
      modifies this`vf
      ensures InGraph() && d < |vf.vec| && vf.vec[d] == old(vf.vec)[d]
      ensures done ==> stop && Arrived(d + 1, k)
      ensures !done ==> Filling(a, b, vf.vec, d, Ends(d, j + 1), ux, uy, stop)
    {
      var x := FurtherForward(d, k, j);
      done := PutForward(d, k, x, j, Ends(d, j), stop);
      EndsNext(d, j);
    }

    /** The further of the looks from the two neighbours. */
    method FurtherForward(d: nat, k: int, ghost j: nat) returns (x: int)
      requires InGraph() && d < |vf.vec| && Rows(a, b, vf.vec, d + 1) && |vf.vec[d]| == d + 1
      requires k == 2 * j - (d + 1) && 0 < j <= d
      ensures Makes(a, b, vf.vec, d, j, x, ux, uy)
    {
      RowInside(a, b, vf.vec, d, j - 1);
      RowInside(a, b, vf.vec, d, j);
      var lookv := LookForward(k, vf.Get(d, k - 1) + 1);
      var lookh := LookForward(k, vf.Get(d, k + 1));
      InnerMakes(a, b, vf.vec, d, j, lookv, lookh, ux, uy);
      x := if lookv > lookh then lookv else lookh;
    }

    // --- backward

    /** lookBackward: as far down as the diagonal matches. */
    method LookBackward(k: int, relx: int) returns (x: int)
      requires relx <= |a| && relx - (k + Delta()) <= |b|
      ensures LookedBack(a, b, k + Delta(), relx, x)
    {
      x := relx;
      var y := relx - (k + Delta());
      if x > 0 && y > 0 {
        var n := CommonSuffixLen(a[..x], b[..y]);
        SuffixLooked(a, b, k + Delta(), x, n);
        x := x - n;
      }
    }

    /** setBackward. */
    method SetBackward(d: int, k: int, relx: int) returns (x: int)
      requires relx <= |a| && relx - (k + Delta()) <= |b| && Ok(d, k) && vb.Shaped()
      modifies this`vb
      ensures vb == old(vb).Set(d, k, x) && LookedBack(a, b, k + Delta(), relx, x)
    {
      x := LookBackward(k, relx);
      vb := vb.Set(d, k, x);
    }

    ghost predicate Backwards(d: int, k: int)
      reads this
    {
      Even(d + k) && vb.Has(d, k) && LabelledBack(a, b, vb.vec, d, (d + k) / 2)
    }

    /** backwardlcs. */
    method BackwardLcs(d: int, k: int) returns (ans: seq<Diag>)
      requires Backwards(d, k) && ux == |a| && uy == |b|
      ensures Collected(a, b, ans, vb.Get(d, k), vb.Get(d, k) - (k + Delta()), |a|, |b|)
      ensures 2 * |a| - (2 * vb.Get(d, k) - k) <= 2 * Size(ans) + d && AllNearEnd(ans, a, b, d)
    {
      ans := FollowOn(vb.vec, Spot(d, (d + k) / 2, vb.Get(d, k)), ux, Delta(), a, b);
    }

    method PutBackward(d: nat, k: int, relx: int, ghost j: nat, ghost filled: set<int>)
      requires InGraph() && FillingBack(a, b, vb.vec, d, filled)
      requires k == 2 * j - (d + 1) && MakesBack(a, b, vb.vec, d, j, relx)
      modifies this`vb
      ensures InGraph() && d < |vb.vec| && vb.vec[d] == old(vb.vec)[d]
      ensures FillingBack(a, b, vb.vec, d, filled + {j})
    {
      ghost var v := vb;
      var x := SetBackward(d + 1, k, relx);
      SetFillsBack(a, b, v, d, filled, j, x);
    }

    /** The backward labels of row d + 1. */
    method BackwardRow(d: nat)
      requires InGraph() && FillingBack(a, b, vb.vec, d, {})
      modifies this`vb
      ensures InGraph() && d < |vb.vec| && vb.vec[d] == old(vb.vec)[d]
      ensures RowDoneBack(a, b, vb.vec, d)
    {
      ghost var prev := vb.vec[d];
      EdgesMakeBack(a, b, vb.vec, d);
      PutBackward(d, -(d + 1), vb.Get(d, 0 - d) - 1, 0, {});
      EdgesMakeBack(a, b, vb.vec, d);
      PutBackward(d, d + 1, vb.Get(d, d), d + 1, {} + {0});
      var k: int := 1 - d;
      ghost var j: nat := 1;
      assert {} + {0} + {d + 1} == Ends(d, 1);
      while k < d
        invariant 1 <= j <= d + 1 && k == 2 * j - (d + 1)
        invariant InGraph() && ux == old(ux) && uy == old(uy) && vf == old(vf)
        invariant FillingBack(a, b, vb.vec, d, Ends(d, j)) && vb.vec[d] == prev
      {
        InnerBackward(d, k, j);
        k, j := k + 2, j + 1;
      }
      EndsAll(d, j);
      FilledRowBack(a, b, vb.vec, d, Ends(d, j));
    }

    method InnerBackward(d: nat, k: int, ghost j: nat)
      requires InGraph() && FillingBack(a, b, vb.vec, d, Ends(d, j))
      requires k == 2 * j - (d + 1) && 0 < j <= d
      modifies this`vb
      ensures InGraph() && d < |vb.vec| && vb.vec[d] == old(vb.vec)[d]
      ensures FillingBack(a, b, vb.vec, d, Ends(d, j + 1))
    {
      var x := FurtherBackward(d, k, j);
      PutBackward(d, k, x, j, Ends(d, j));
      EndsNext(d, j);
    }

    /** The further of the looks from the two neighbours. */
    method FurtherBackward(d: nat, k: int, ghost j: nat) returns (x: int)
      requires InGraph() && d < |vb.vec| && RowsBack(a, b, vb.vec, d + 1) && |vb.vec[d]| == d + 1
      requires k == 2 * j - (d + 1) && 0 < j <= d
      ensures MakesBack(a, b, vb.vec, d, j, x)
    {
      RowInside(a, b, vb.vec, d, j - 1);
      RowInside(a, b, vb.vec, d, j);
      var lookv := LookBackward(k, vb.Get(d, k - 1));
      var lookh := LookBackward(k, vb.Get(d, k + 1) - 1);
      InnerMakesBack(a, b, vb.vec, d, j, lookv, lookh);
      x := if lookv < lookh then lookv else lookh;
    }

    /** The backward label of row limit inside the graph that has come furthest; kmax, which is the
        forward choice, if none is below the bound. */
    method MinBackward(kf: int) returns (kmax: int)
      requires limit < |vb.vec| && |vb.vec[limit]| == limit + 1 && On(vb.vec[limit], kf)
      ensures On(vb.vec[limit], kmax)
      ensures FurthestBelow(vb.vec[limit], kmax, Delta(), INFINITY)
    {
      var row := vb.vec[limit];
      var diagmin := INFINITY;
      kmax := kf;
      var k: int := 0 - limit;
      ghost var i: nat := 0;
      while k <= limit
        invariant 0 <= i <= limit + 1 && k == 2 * i - limit && On(row, kmax) && diagmin <= INFINITY
        invariant diagmin < INFINITY ==> diagmin == 2 * At(row, kmax) - kmax - Delta()
        invariant forall j :: 0 <= j < i && Below0(row, j, Delta()) ==> diagmin <= row[j] + Y(row, j) - Delta()
      {
        var x := vb.Get(limit, k);
        var y := x - (k + Delta());
        assert x == row[i] && y == Y(row, i) - Delta();
        if x + y < diagmin && x >= 0 && y >= 0 {
          diagmin, kmax := x + y, k;
        }
        k, i := k + 2, i + 1;
      }
    }

    // --- the forward search

    /** Row 0. */
    method StartForward()
      requires InGraph()
      modifies this`vf
      ensures InGraph() && |vf.vec| > 0 && Rows(a, b, vf.vec, 1) && Grown(vf.vec[0], ux, uy)
      ensures |vf.vec[0]| == 1 && Furthest(a, b, vf.vec[0], ux, uy)
    {
      ghost var v := vf;
      var x := SetForward(0, 0, 0);
      FirstRow(a, b, v, x, ux, uy);
      NextFurthest(a, b, [], vf.vec[0], ux, uy);
      GrowOn([], vf.vec[0], ux, uy);
    }

    /** The label of row limit inside the rectangle that has gone furthest; below -limit if none is
        inside. */
    method MaxForward() returns (kmax: int)
      requires limit < |vf.vec| && |vf.vec[limit]| == limit + 1
      ensures kmax < 0 - limit ==> forall j :: 0 <= j <= limit ==> !Inside(vf.vec[limit], j, ux, uy)
      ensures kmax >= 0 - limit ==> On(vf.vec[limit], kmax) && FurthestInside(vf.vec[limit], kmax, ux, uy)
    {
      var row := vf.vec[limit];
      var diagmax := -1;
      kmax := 0 - limit - 1;
      var k: int := 0 - limit;
      ghost var i: nat := 0;
      while k <= limit
        invariant 0 <= i <= limit + 1 && k == 2 * i - limit
        invariant kmax < 0 - limit ==> diagmax == -1 && forall j :: 0 <= j < i ==> !Inside(row, j, ux, uy)
        invariant kmax >= 0 - limit ==> On(row, kmax) && At(row, kmax) <= ux && At(row, kmax) - kmax <= uy
        invariant kmax >= 0 - limit ==> diagmax == 2 * At(row, kmax) - kmax
        invariant forall j :: 0 <= j < i && Inside(row, j, ux, uy) ==> row[j] + Y(row, j) <= diagmax
      {
        var x := vf.Get(limit, k);
        var y := x - k;
        assert x == row[i] && y == Y(row, i);
        if x + y > diagmax && x <= ux && y <= uy {
          diagmax, kmax := x + y, k;
        }
        k, i := k + 2, i + 1;
      }
    }

    /** forward: a common subsequence inside the rectangle, on a shortest way to its corner if the
        limit allows one. */
    method Forward() returns (lcs: seq<Diag>)
      requires InGraph()
      modifies this`vf
      ensures InGraph() && Collected(a, b, lcs, 0, 0, ux, uy)
      ensures Dist(a, b, ux, uy) <= limit ==> ux + uy <= 2 * Size(lcs) + Dist(a, b, ux, uy)
    {
      StartForward();
      DistBounds(a, b, ux, uy);
      if FDone(0, 0) {
        RowLabel(a, b, vf.vec, 0, 0);
        lcs := ForwardLcs(0, 0);
        return;
      }
      ShortOrAtCorner(vf.vec[0], ux, uy);
      CornerFurther(a, b, vf.vec[0], ux, uy);
      for d := 0 to limit
        invariant Advancing(d) && ux == old(ux) && uy == old(uy) && vb == old(vb)
      {
        var r := Advance(d);
        if r.Some? {
          return r.value;
        }
      }
      var kmax;
      lcs, kmax := BestForward();
    }

    /** The rows up to d are right, short of the corner, and the corner is further than they are. */
    ghost predicate Advancing(d: nat)
      reads this
    {
      && InGraph() && d < |vf.vec| && Rows(a, b, vf.vec, d + 1)
      && Tame(vf.vec[d], ux, uy) && ShortOfCorner(vf.vec[d], ux, uy)
      && Furthest(a, b, vf.vec[d], ux, uy) && Dist(a, b, ux, uy) > d
    }

    /** From d to d + 1. */
    method Advance(d: nat) returns (r: Option<seq<Diag>>)
      requires Advancing(d)
      modifies this`vf
      ensures r.None? ==> Advancing(d + 1)
      ensures r.Some? ==>
                && InGraph() && Collected(a, b, r.value, 0, 0, ux, uy)
                && ux + uy <= 2 * Size(r.value) + Dist(a, b, ux, uy)
    {
      RowInside(a, b, vf.vec, d, 0);
      var at := ForwardRow(d, true);
      if at.Some? {
        var lcs := ForwardLcs(d + 1, at.value);
        return Some(lcs);
      }
      GrowOn(vf.vec[d], vf.vec[d + 1], ux, uy);
      ShortOrAtCorner(vf.vec[d + 1], ux, uy);
      StillFurther(d);
      return None;
    }

    /** The corner is further than a row that is short of it. */
    lemma StillFurther(d: nat)
      requires InGraph() && RowDone(a, b, vf.vec, d, ux, uy, true) && Furthest(a, b, vf.vec[d], ux, uy)
      requires ShortOfCorner(vf.vec[d + 1], ux, uy) && Dist(a, b, ux, uy) > d
      ensures Furthest(a, b, vf.vec[d + 1], ux, uy) && Dist(a, b, ux, uy) > d + 1
    {
      RowDoneFurthest(a, b, vf.vec, d, ux, uy, true);
      assert RowReached(a, b, vf.vec, d + 1);
      CornerFurther(a, b, vf.vec[d + 1], ux, uy);
    }

    /** D is too large: the part that was found. */
    method BestForward() returns (lcs: seq<Diag>, kmax: int)
      requires InGraph() && limit < |vf.vec| && Rows(a, b, vf.vec, limit + 1) && Grown(vf.vec[limit], ux, uy)
      ensures Collected(a, b, lcs, 0, 0, ux, uy) && On(vf.vec[limit], kmax) && AllNearStart(lcs, a, b, limit)
      ensures Leads(vf.vec[limit], ux, uy, 2 * Size(lcs) + limit)
    {
      RowInside(a, b, vf.vec, limit, 0);
      kmax := MaxForward();
      assert kmax >= 0 - limit by {
        var j := GrownInside(a, b, vf.vec, limit, ux, uy);
        assert Inside(vf.vec[limit], j, ux, uy);
      }
      RowLabel(a, b, vf.vec, limit, (limit + kmax) / 2);
      lcs := ForwardLcs(limit, kmax);
      CollectedWider(a, b, lcs, 0, 0, vf.Get(limit, kmax), vf.Get(limit, kmax) - kmax, 0, 0, ux, uy);
    }

    // --- two-sided

    /** Both searches have come to rows df and db without meeting before. */
    ghost predicate Both(df: nat, db: nat)
      reads this
    {
      && InGraph() && ux == |a| && uy == |b|
      && df < |vf.vec| && Rows(a, b, vf.vec, df + 1) && Grown(vf.vec[df], |a|, |b|)
      && db < |vb.vec| && RowsBack(a, b, vb.vec, db + 1) && Grown(Mirror(vb.vec[db], |a|), |a|, |b|)
      && |vf.vec[df]| == df + 1 && |vb.vec[db]| == db + 1
    }

    predicate HaveRows(df: nat, db: nat)
      reads this
    {
      df < |vf.vec| && |vf.vec[df]| == df + 1 && db < |vb.vec| && |vb.vec[db]| == db + 1
    }

    /** twoDone: a diagonal where the searches meet, at best one where a label lies on an edge of the
        rectangle or both labels are the same. */
    method TwoDone(df: nat, db: nat) returns (r: Option<int>)
      requires HaveRows(df, db)
      ensures r.None? <==> Apart(vf.vec[df], vb.vec[db], Delta())
      ensures r.Some? ==> Shared(vf.vec[df], vb.vec[db], Delta(), r.value) && Choice(df, db, r.value)
    {
      var f, g, delta := vf.vec[df], vb.vec[db], Delta();
      if (df + db + delta) % 2 != 0 {
        return None;
      }
      var kmin: int := if 0 - df > delta - db then 0 - df else delta - db;
      var kmax: int := if df < db + delta then df else db + delta;
      SpanOf(f, g, delta, kmin, kmax);
      r := FirstMeet(f, g, delta, kmin, kmax);
      if r.Some? {
        var l := FirstSpecial(f, g, delta, ux, uy, r.value, kmin, kmax);
        r := Some(l);
      }
    }

    /** Either diagonal k is special, or none is and the searches first meet there. */
    ghost predicate Choice(df: nat, db: nat, k: int)
      requires df < |vf.vec| && db < |vb.vec| && Shared(vf.vec[df], vb.vec[db], Delta(), k)
      reads this
    {
      var f, g, delta := vf.vec[df], vb.vec[db], Delta();
      || Special(f, g, delta, ux, uy, k)
      || (IsFirstMeet(f, g, delta, k) && NoneSpecial(f, g, delta, ux, uy, k))
    }

    /** Two parts, one behind the other, sorted into one. */
    method Combine(f: seq<Diag>, g: seq<Diag>, ghost x: int, ghost y: int, ghost u: int, ghost v: int)
      returns (lcs: seq<Diag>)
      requires Collected(a, b, f, 0, 0, x, y) && Collected(a, b, g, u, v, |a|, |b|) && x <= u && y <= v
      ensures Common(lcs, a, b) && Size(lcs) == Size(f) + Size(g)
    {
      PartsMatch(f, g, x, y, u, v, a, b);
      SizeConcat(f, g);
      lcs := SortDiags(f + g, a, b);
    }

    /** twolcs: the two ways put together. */
    method TwoLcs(df: nat, db: nat, kf: int) returns (lcs: seq<Diag>)
      requires Both(df, db) && Shared(vf.vec[df], vb.vec[db], Delta(), kf) && Choice(df, db, kf)
      requires df <= limit
      modifies this
      ensures Common(lcs, a, b) && |a| + |b| <= 2 * Size(lcs) + df + db
    {
      PlanReady(df, db, kf);
      lcs := CarryOut(PlanOf(df, db, kf), df, db, kf);
    }

    method CarryOut(plan: Plan, df: nat, db: nat, kf: int) returns (lcs: seq<Diag>)
      requires Both(df, db) && Ready(plan, df, db, kf) && df <= limit
      modifies this
      ensures Common(lcs, a, b) && |a| + |b| <= 2 * Size(lcs) + df + db
    {
      match plan
      case Parts(dx, kx, du, ku) =>
        lcs := BothParts(dx, kx, du, ku);
      case BackOnly =>
        lcs := BackwardLcs(db, kf - Delta());
      case FrontOnly =>
        lcs := ForwardLcs(df, kf);
      case Another(u, v) =>
        lcs := SearchAgain(df, db, kf - Delta(), u, v);
    }

    /** The plan can be carried out, in at most df + db steps. */
    ghost predicate Ready(p: Plan, df: nat, db: nat, kf: int)
      reads this
    {
      match p
      case Parts(dx, kx, du, ku) =>
        && Forwards(dx, kx) && Backwards(du, ku)
        && vf.Get(dx, kx) <= vb.Get(du, ku) && vf.Get(dx, kx) - kx <= vb.Get(du, ku) - (ku + Delta())
        && dx + du + Gap(dx, kx, du, ku) <= df + db
      case BackOnly => Backwards(db, kf - Delta()) && 2 * vb.Get(db, kf - Delta()) - kf <= df
      case FrontOnly => Forwards(df, kf) && |a| + |b| - (2 * vf.Get(df, kf) - kf) <= db
      case Another(u, v) =>
        && Backwards(db, kf - Delta()) && 0 <= u <= |a| && 0 <= v <= |b|
        && u == vb.Get(db, kf - Delta()) && v == u - kf && Dist(a, b, u, v) <= df
    }

    lemma PlanReady(df: nat, db: nat, kf: int)
      requires Both(df, db) && Shared(vf.vec[df], vb.vec[db], Delta(), kf) && Choice(df, db, kf)
      ensures PlanReads(df, db, kf) && Ready(PlanOf(df, db, kf), df, db, kf)
    {
      PlanWorks(df, db, kf);
      PlanPays(df, db, kf);
    }

    /** A forward and a backward way, one behind the other. */
    method BothParts(dx: int, kx: int, du: int, ku: int) returns (lcs: seq<Diag>)
      requires ux == |a| && uy == |b| && Forwards(dx, kx) && Backwards(du, ku)
      requires vf.Get(dx, kx) <= vb.Get(du, ku) && vf.Get(dx, kx) - kx <= vb.Get(du, ku) - (ku + Delta())
      ensures Common(lcs, a, b)
      ensures |a| + |b| <= 2 * Size(lcs) + dx + du + Gap(dx, kx, du, ku)
    {
      var f := ForwardLcs(dx, kx);
      var g := BackwardLcs(du, ku);
      lcs := Combine(f, g, vf.Get(dx, kx), vf.Get(dx, kx) - kx, vb.Get(du, ku), vb.Get(du, ku) - (ku + Delta()));
    }

    /** The steps between two labels. */
    function Gap(dx: int, kx: int, du: int, ku: int): int
      requires vf.Has(dx, kx) && vb.Has(du, ku)
      reads this
    {
      2 * vb.Get(du, ku) - (ku + Delta()) - (2 * vf.Get(dx, kx) - kx)
    }

    /** Its cases: the ways to use, or the corner of a new forward search. */
    function PlanOf(df: nat, db: nat, kf: int): Plan
      requires PlanReads(df, db, kf)
      reads this
    {
      var kb := kf - Delta();
      var x, u := vf.Get(df, kf), vb.Get(db, kb);
      var y, v := x - kf, u - kf;
      if x == u then Parts(df, kf, db, kb)
      else if u > 0 && Ok(df - 1, u - 1 - v) && vf.Get(df - 1, u - 1 - v) == u - 1 then Parts(df - 1, u - 1 - v, db, kb)
      else if v > 0 && Ok(df - 1, u - (v - 1)) && vf.Get(df - 1, u - (v - 1)) == u
      then Parts(df - 1, u - (v - 1), db, kb)
      else if u == 0 || v == 0 || x == ux || y == uy then if u == 0 || v == 0 then BackOnly else FrontOnly
      else if x < ux && Ok(db - 1, x + 1 - y - Delta()) && vb.Get(db - 1, x + 1 - y - Delta()) == x + 1
        then Parts(df, kf, db - 1, kb + 1)
      else if y < uy && Ok(db - 1, x - (y + 1) - Delta()) && vb.Get(db - 1, x - (y + 1) - Delta()) == x
        then Parts(df, kf, db - 1, kb - 1)
      else Another(u, v)
    }

    /** The labels it reads are there. */
    predicate PlanReads(df: nat, db: nat, kf: int)
      reads this
    {
      && vf.Has(df, kf) && vb.Has(db, kf - Delta())
      && (df > 0 ==> |vf.vec[df - 1]| == df) && (db > 0 ==> |vb.vec[db - 1]| == db)
    }

    /** The plan can be carried out. */
    ghost predicate Works(p: Plan, db: nat, kb: int)
      reads this
    {
      match p
      case Parts(dx, kx, du, ku) =>
        && Forwards(dx, kx) && Backwards(du, ku)
        && vf.Get(dx, kx) <= vb.Get(du, ku) && vf.Get(dx, kx) - kx <= vb.Get(du, ku) - (ku + Delta())
      case Another(u, v) =>
        0 <= u <= |a| && 0 <= v <= |b| && Backwards(db, kb) && u == vb.Get(db, kb) && v == u - (kb + Delta())
      case _ => true
    }

    /** Whatever the labels are, the parts of a plan lie one behind the other, and a new search is
        for labels that are not special. */
    lemma PlanFits(df: nat, db: nat, kf: int)
      requires PlanReads(df, db, kf)
      ensures var kb := kf - Delta();
              var x, u := vf.Get(df, kf), vb.Get(db, kb);
              match PlanOf(df, db, kf)
              case Parts(dx, kx, du, ku) =>
                && Beside(df, kf, dx, kx) && Beside(db, kb, du, ku)
                && vf.Get(dx, kx) <= vb.Get(du, ku) && vf.Get(dx, kx) - kx <= vb.Get(du, ku) - (ku + Delta())
                && dx + du + Gap(dx, kx, du, ku) <= df + db
              case BackOnly => u == 0 || u == kf
              case FrontOnly => x == ux || x - kf == uy
              case Another(w, z) => w == u && z == u - kf && x != u && u != 0 && u != kf && x != ux && x - kf != uy
    {
    }

    /** The plan's steps are at most df + db. */
    ghost predicate Pays(p: Plan, df: nat, db: nat, kf: int)
      requires PlanReads(df, db, kf)
      reads this
    {
      match p
      case Parts(dx, kx, du, ku) => vf.Has(dx, kx) && vb.Has(du, ku) && dx + du + Gap(dx, kx, du, ku) <= df + db
      case BackOnly => 2 * vb.Get(db, kf - Delta()) - kf <= df
      case FrontOnly => |a| + |b| - (2 * vf.Get(df, kf) - kf) <= db
      case Another(u, v) => 0 <= u && 0 <= v && Dist(a, b, u, v) <= df
    }

    lemma PlanPays(df: nat, db: nat, kf: int)
      requires PlanReads(df, db, kf) && ux == |a| && uy == |b|
      requires PlanOf(df, db, kf).Another? ==> NearHere(df, db, kf)
      ensures Pays(PlanOf(df, db, kf), df, db, kf)
    {
      PlanFits(df, db, kf);
    }

    ghost predicate NearHere(df: nat, db: nat, kf: int)
      requires PlanReads(df, db, kf)
      reads this
    {
      var u := vb.Get(db, kf - Delta());
      0 <= u && 0 <= u - kf && Dist(a, b, u, u - kf) <= df
    }

    lemma AnotherPays(df: nat, db: nat, kf: int)
      requires Both(df, db) && Shared(vf.vec[df], vb.vec[db], Delta(), kf) && Choice(df, db, kf)
      requires !Special(vf.vec[df], vb.vec[db], Delta(), ux, uy, kf)
      ensures PlanReads(df, db, kf) && NearHere(df, db, kf)
    {
      BothLabels(df, db, kf);
      InsideHere(df, db, kf);
      MeetIsNear(df, db, kf);
    }

    /** Where the searches meet, the backward label is no further from (0, 0) than the forward one. */
    lemma MeetIsNear(df: nat, db: nat, kf: int)
      requires Both(df, db) && Meet(vf.vec[df], vb.vec[db], Delta(), kf)
      requires At(vb.vec[db], kf - Delta()) >= 0 && At(vb.vec[db], kf - Delta()) - kf >= 0
      ensures var u := At(vb.vec[db], kf - Delta());
              Dist(a, b, u, u - kf) <= df
    {
      var x, u := At(vf.vec[df], kf), At(vb.vec[db], kf - Delta());
      AtNear(a, b, vf.vec, df, kf);
      Diagonal(a, b, u, u - kf, x, x - kf);
    }

    lemma PlanWorks(df: nat, db: nat, kf: int)
      requires Both(df, db) && Shared(vf.vec[df], vb.vec[db], Delta(), kf) && Choice(df, db, kf)
      ensures PlanReads(df, db, kf) && Forwards(df, kf) && Backwards(db, kf - Delta())
      ensures Works(PlanOf(df, db, kf), db, kf - Delta())
      ensures PlanOf(df, db, kf).Another? ==> NearHere(df, db, kf)
    {
      BothLabels(df, db, kf);
      PlanFits(df, db, kf);
      match PlanOf(df, db, kf)
      case Parts(dx, kx, du, ku) => PartsWork(df, db, kf, dx, kx, du, ku);
      case Another(u, v) => AnotherPays(df, db, kf);
      case _ =>
    }

    lemma PartsWork(df: nat, db: nat, kf: int, dx: int, kx: int, du: int, ku: int)
      requires Both(df, db) && Forwards(df, kf) && Backwards(db, kf - Delta())
      requires Beside(df, kf, dx, kx) && Beside(db, kf - Delta(), du, ku)
      ensures Forwards(dx, kx) && Backwards(du, ku)
    {
      ForwardsBeside(df, db, kf, dx, kx);
      BackwardsBeside(df, db, kf - Delta(), du, ku);
    }

    /** Its last case: a backward way, and a new forward search in the rectangle up to where it starts. */
    method SearchAgain(ghost df: nat, db: nat, kb: int, u: int, v: int) returns (lcs: seq<Diag>)
      requires InGraph() && ux == |a| && uy == |b| && 0 <= u <= |a| && 0 <= v <= |b|
      requires Backwards(db, kb) && u == vb.Get(db, kb) && v == u - (kb + Delta())
      requires Dist(a, b, u, v) <= df <= limit
      modifies this
      ensures Common(lcs, a, b) && |a| + |b| <= 2 * Size(lcs) + df + db
    {
      var g := BackwardLcs(db, kb);
      lcs := AnotherPath(g, u, v);
    }

    /** The new search. */
    method AnotherPath(g: seq<Diag>, u: int, v: int) returns (lcs: seq<Diag>)
      requires InGraph() && ux == |a| && uy == |b|
      requires 0 <= u <= |a| && 0 <= v <= |b| && Collected(a, b, g, u, v, |a|, |b|)
      modifies this
      ensures Common(lcs, a, b) && ux == old(ux) && uy == old(uy)
      ensures Dist(a, b, u, v) <= limit ==> u + v + 2 * Size(g) <= 2 * Size(lcs) + Dist(a, b, u, v)
    {
      var oldx, oldy := ux, uy;
      ux, uy := u, v;
      var f := Forward();
      ux, uy := oldx, oldy;
      lcs := Combine(f, g, u, v, u, v);
    }

    lemma BothLabels(df: nat, db: nat, kf: int)
      requires Both(df, db) && Shared(vf.vec[df], vb.vec[db], Delta(), kf)
      ensures PlanReads(df, db, kf) && Forwards(df, kf) && Backwards(db, kf - Delta())
      ensures vf.Get(df, kf) == At(vf.vec[df], kf) && vb.Get(db, kf - Delta()) == At(vb.vec[db], kf - Delta())
    {
      RowLabel(a, b, vf.vec, df, (df + kf) / 2);
      RowLabel(a, b, vb.vec, db, (db + kf - Delta()) / 2);
      assert RowReached(a, b, vf.vec, df) && RowReachedBack(a, b, vb.vec, db);
    }

    lemma ForwardsBeside(df: nat, db: nat, kf: int, d: int, k: int)
      requires Both(df, db) && Forwards(df, kf) && Beside(df, kf, d, k)
      ensures Forwards(d, k)
    {
      if d < df {
        RowLabel(a, b, vf.vec, d, (d + k) / 2);
      }
    }

    lemma BackwardsBeside(df: nat, db: nat, kb: int, d: int, k: int)
      requires Both(df, db) && Backwards(db, kb) && Beside(db, kb, d, k)
      ensures Backwards(d, k)
    {
      if d < db {
        RowLabel(a, b, vb.vec, d, (d + k) / 2);
      }
    }

    /** Where nothing is special, the backward label is inside the rectangle. */
    lemma InsideHere(df: nat, db: nat, kf: int)
      requires Both(df, db) && Shared(vf.vec[df], vb.vec[db], Delta(), kf) && Choice(df, db, kf)
      requires !Special(vf.vec[df], vb.vec[db], Delta(), ux, uy, kf)
      ensures var u := At(vb.vec[db], kf - Delta());
              0 <= u <= |a| && 0 <= u - kf <= |b|
    {
      var f, g, delta := vf.vec[df], vb.vec[db], Delta();
      RowAbove(a, b, vf.vec, df);
      OffAxis(f, g, delta, ux, uy, kf);
      MeetInside(f, g, |a|, |b|, delta, kf);
      RowInside(a, b, vb.vec, db, (db + kf - delta) / 2);
    }

    /** twosided: labels from both corners until they meet, or up to the limit. */
    method TwoSided() returns (lcs: seq<Diag>)
      requires InGraph() && ux == |a| && uy == |b|
      modifies this
      ensures Common(lcs, a, b)
      ensures Dist(a, b, |a|, |b|) < 2 * limit ==> |a| + |b| - 2 * Size(lcs) <= Dist(a, b, |a|, |b|)
      ensures StaysNear(lcs, a, b, limit)
    {
      StartForward();
      StartBackward();
      DistBounds(a, b, |a|, |b|);
      for d := 0 to limit
        invariant Both(d, d) && Far(d, d)
        invariant d > 0 ==> Apart(vf.vec[d], vb.vec[d - 1], Delta())
      {
        var got := Round(d);
        if got.Some? {
          lcs := got.value;
          CommonDist(lcs, a, b);
          return;
        }
      }
      ghost var f, g;
      lcs, f, g := AtLimit();
    }

    /** One turn of its loop: a result if the searches meet, or one row more on both sides. */
    method Round(d: nat) returns (got: Option<seq<Diag>>)
      requires Both(d, d) && Far(d, d) && d < limit && (d > 0 ==> Apart(vf.vec[d], vb.vec[d - 1], Delta()))
      modifies this
      ensures got.Some? ==> Common(got.value, a, b) && |a| + |b| <= 2 * Size(got.value) + 2 * d + 1
      ensures got.Some? ==> |a| + |b| - 2 * Size(got.value) <= Dist(a, b, |a|, |b|)
      ensures got.None? ==> Both(d + 1, d + 1) && Far(d + 1, d + 1) && Apart(vf.vec[d + 1], vb.vec[d], Delta())
    {
      var at := TwoDone(d, d);
      if at.Some? {
        var lcs := TwoLcs(d, d, at.value);
        return Some(lcs);
      }
      GrowForward(d);
      at := TwoDone(d + 1, d);
      if at.Some? {
        var lcs := TwoLcs(d + 1, d, at.value);
        return Some(lcs);
      }
      GrowBackward(d);
      return None;
    }

    /** The rows have every point as near as they are, and the ends are no nearer than both rows
        together. */
    ghost predicate Far(df: nat, db: nat)
      reads this
    {
      && df < |vf.vec| && Furthest(a, b, vf.vec[df], |a|, |b|)
      && db < |vb.vec| && FurthestBack(a, b, vb.vec[db])
      && Dist(a, b, |a|, |b|) >= df + db
    }

    method StartBackward()
      requires InGraph() && ux == |a| && uy == |b|
      modifies this`vb
      ensures InGraph() && |vb.vec| > 0 && |vb.vec[0]| == 1 && RowsBack(a, b, vb.vec, 1)
      ensures Grown(Mirror(vb.vec[0], |a|), |a|, |b|) && FurthestBack(a, b, vb.vec[0])
    {
      ghost var v := vb;
      var x := SetBackward(0, 0, ux);
      FirstRowBack(a, b, v, x);
      BackFurthest(a, b, [], vb.vec[0]);
      MirrorStep([], vb.vec[0], |a|, |b|);
      assert Mirror([], |a|) == [];
      GrowOn([], Mirror(vb.vec[0], |a|), |a|, |b|);
    }

    /** The forward pass from d to d + 1, when the searches have not met. */
    method GrowForward(d: nat)
      requires Both(d, d) && Far(d, d) && Apart(vf.vec[d], vb.vec[d], Delta())
      requires d > 0 ==> Apart(vf.vec[d], vb.vec[d - 1], Delta())
      modifies this`vf
      ensures Both(d + 1, d) && Far(d + 1, d) && vf.vec[d] == old(vf.vec)[d]
    {
      ApartIsFurther(a, b, vf.vec[d], vb.vec[d]);
      RowsWithin(d, d);
      ForwardShort(vf.vec[d], vb.vec[d], if d > 0 then vb.vec[d - 1] else [], |a|, |b|);
      var at := ForwardRow(d, false);
      GrowOn(vf.vec[d], vf.vec[d + 1], |a|, |b|);
      RowDoneFurthest(a, b, vf.vec, d, |a|, |b|, false);
    }

    /** The backward pass from d to d + 1. */
    method GrowBackward(d: nat)
      requires Both(d + 1, d) && Far(d + 1, d) && |vf.vec[d]| == d + 1
      requires Apart(vf.vec[d], vb.vec[d], Delta()) && Apart(vf.vec[d + 1], vb.vec[d], Delta())
      modifies this`vb
      ensures Both(d + 1, d + 1) && Far(d + 1, d + 1) && vb.vec[d] == old(vb.vec)[d]
    {
      ApartIsFurther(a, b, vf.vec[d + 1], vb.vec[d]);
      RowsWithin(d + 1, d);
      BackwardShort(vb.vec[d], vf.vec[d], vf.vec[d + 1], |a|, |b|);
      BackwardRow(d);
      MirrorStep(vb.vec[d], vb.vec[d + 1], |a|, |b|);
      GrowOn(Mirror(vb.vec[d], |a|), Mirror(vb.vec[d + 1], |a|), |a|, |b|);
      RowDoneFurthestBack(a, b, vb.vec, d);
    }

    lemma RowsWithin(df: nat, db: nat)
      requires Both(df, db)
      ensures AtLeast(vf.vec[df], 0) && AtMost(vb.vec[db], |a|)
      ensures df > 0 ==> |vf.vec[df - 1]| == df && AtLeast(vf.vec[df - 1], 0)
      ensures db > 0 ==> |vb.vec[db - 1]| == db && AtMost(vb.vec[db - 1], |a|)
    {
      assert RowReached(a, b, vf.vec, df) && RowReachedBack(a, b, vb.vec, db);
      if df > 0 {
        assert RowReached(a, b, vf.vec, df - 1);
      }
      if db > 0 {
        assert RowReachedBack(a, b, vb.vec, db - 1);
      }
    }

    /** D is too large: a forward and a backward part, which may overlap. */
    method AtLimit() returns (lcs: seq<Diag>, ghost f: seq<Diag>, ghost g: seq<Diag>)
      requires Both(limit, limit) && Far(limit, limit)
      ensures Common(lcs, a, b) && FromParts(lcs, f, g, a, b, limit)
    {
      var front, kmax := BestForward();
      var back := BestBackward(kmax);
      f, g := front, back;
      FrontHasMost(f);
      PartsFix(f, g, a, b);
      lcs := Fix(front + back, a, b);
    }

    method BestBackward(kf: int) returns (lcs: seq<Diag>)
      requires Both(limit, limit) && Far(limit, limit) && On(vb.vec[limit], kf)
      ensures Common(lcs, a, b) && AllNearEnd(lcs, a, b, limit)
      ensures |a| + |b| < INFINITY ==> MostFromEnd(lcs, a, b, limit)
    {
      var kmax := MinBackward(kf);
      lcs := BackwardFrom(kmax);
      if |a| + |b| < INFINITY {
        BackHasMost(lcs, kmax);
      }
    }

    method BackwardFrom(k: int) returns (lcs: seq<Diag>)
      requires Both(limit, limit) && On(vb.vec[limit], k)
      ensures Common(lcs, a, b) && AllNearEnd(lcs, a, b, limit)
      ensures 2 * |a| - (2 * At(vb.vec[limit], k) - k) <= 2 * Size(lcs) + limit
    {
      RowLabel(a, b, vb.vec, limit, (limit + k) / 2);
      lcs := BackwardLcs(limit, k);
    }

    lemma FrontHasMost(f: seq<Diag>)
      requires Both(limit, limit) && Far(limit, limit) && Leads(vf.vec[limit], |a|, |b|, 2 * Size(f) + limit)
      ensures MostFromStart(f, a, b, limit)
    {
      LabelsAbove(a, b, vf.vec, limit);
      LeaderHasMost(f, a, b, vf.vec[limit], limit);
    }

    lemma BackHasMost(g: seq<Diag>, kmax: int)
      requires Both(limit, limit) && Far(limit, limit) && On(vb.vec[limit], kmax) && |a| + |b| < INFINITY
      requires FurthestBelow(vb.vec[limit], kmax, Delta(), INFINITY)
      requires 2 * |a| - (2 * At(vb.vec[limit], kmax) - kmax) <= 2 * Size(g) + limit
      ensures MostFromEnd(g, a, b, limit)
    {
      var row := vb.vec[limit];
      LabelsBelow(a, b, vb.vec, limit);
      MirrorLeads(row, |a|, |b|, kmax, 2 * Size(g) + limit);
      ByWayOf(a, b, 0, 0);
      LeaderHasMost(g, Reverse(a), Reverse(b), Mirror(row, |a|), limit);
    }
  }

  /** The loop of forwardlcs. */
  method Follow<T>(vec: seq<seq<int>>, start: Spot, ghost a: seq<T>, ghost b: seq<T>) returns (ans: seq<Diag>)
    requires OnWay(a, b, vec, start)
    ensures Collected(a, b, ans, 0, 0, start.x, start.Y())
    ensures start.x + start.Y() <= 2 * Size(ans) + start.d && AllNearStart(ans, a, b, start.d)
  {
    var s := start;
    ghost var n: nat := 0;
    ans := [];
    while !AtOrigin(s)
      invariant s == BackN(vec, start, n) && ans == GatherN(vec, start, n)
      decreases s.d + s.x
    {
      BackProgress(a, b, vec, start, n);
      var t := Back(vec, s);
      ans := Gather(s, t, ans);
      s, n := t, n + 1;
    }
    Followed(a, b, vec, start, n);
    GatherNNear(a, b, vec, start, n);
  }

  lemma Followed<T>(a: seq<T>, b: seq<T>, vec: seq<seq<int>>, start: Spot, n: nat)
    requires OnWay(a, b, vec, start) && AtOrigin(BackN(vec, start, n))
    ensures var ans := GatherN(vec, start, n);
            Collected(a, b, ans, 0, 0, start.x, start.Y()) && start.x + start.Y() <= 2 * Size(ans) + start.d
  {
    GatherNCollected(a, b, vec, start, n);
    GatherNSize(vec, start, n);
    BackNOnWay(a, b, vec, start, n);
  }

  /** The loop of backwardlcs. */
  method FollowOn<T>(vec: seq<seq<int>>, start: Spot, ux: int, delta: int, ghost a: seq<T>, ghost b: seq<T>)
    returns (ans: seq<Diag>)
    requires OnWayBack(a, b, vec, start) && ux == |a| && delta == |a| - |b|
    ensures Collected(a, b, ans, start.x, start.Y() - delta, |a|, |b|)
    ensures 2 * |a| - (start.x + start.Y()) <= 2 * Size(ans) + start.d && AllNearEnd(ans, a, b, start.d)
  {
    var s := start;
    ghost var i: nat := 0;
    ans := [];
    while !AtEnd(s, ux)
      invariant s == OnN(vec, start, ux, i) && ans == GatherOnN(vec, start, ux, delta, i)
      decreases s.d - s.x + ux
    {
      OnProgress(a, b, vec, start, i);
      var t := Onward(vec, s);
      ans := GatherOn(s, t, ans, delta);
      s, i := t, i + 1;
    }
    FollowedOn(a, b, vec, start, delta, i);
    GatherOnNNear(a, b, vec, start, i);
  }

  lemma FollowedOn<T>(a: seq<T>, b: seq<T>, vec: seq<seq<int>>, start: Spot, delta: int, i: nat)
    requires OnWayBack(a, b, vec, start) && delta == |a| - |b| && AtEnd(OnN(vec, start, |a|, i), |a|)
    ensures var ans := GatherOnN(vec, start, |a|, delta, i);
            && Collected(a, b, ans, start.x, start.Y() - delta, |a|, |b|)
            && 2 * |a| - (start.x + start.Y()) <= 2 * Size(ans) + start.d
  {
    GatherOnNCollected(a, b, vec, start, delta, i);
    GatherOnNSize(vec, start, |a|, delta, i);
    OnNOnWay(a, b, vec, start, i);
  }

  /** How deep a search goes that asks for no limit. */
  function Depth(limit: int): int {
    if limit <= 0 then 0x200_0000 else limit
  }

  /** compute: the replacements that make b of a, from a search up to the limit. If some replacements
      delete and insert fewer elements than twice the limit, these delete and insert the fewest
      possible, and the common subsequence is a longest one. */
  method Compute<T(==, !new)>(a: seq<T>, b: seq<T>, limit: int) returns (diffs: seq<Splice<T>>, lcs: seq<Diag>)
    ensures Common(lcs, a, b)
    ensures Valid(diffs, |a|) && Apply(a, diffs) == b && Spares(diffs, lcs) && Cost(diffs) == |a| + |b| - 2 * Size(lcs)
    ensures diffs == [] <==> a == b
    ensures BestWithin(diffs, lcs, a, b, 2 * Depth(limit)) && AsFewWithin(diffs, a, b, 2 * Depth(limit))
    ensures Separated(diffs) && StaysNear(lcs, a, b, Depth(limit))
  {
    var g := new EditGraph(a, b, if limit <= 0 then 0x200_0000 else limit);
    lcs := g.TwoSided();
    diffs := ToDiffs(lcs, a, b);
    ApplyNone(a);
    Optimal(diffs, lcs, a, b, 2 * Depth(limit));
    NoneForEqual(diffs, a, b, 2 * Depth(limit));
  }

  const MAX_DIFFS := 100

  /** diff: the search the client prints with. */
  method Diff<T(==, !new)>(a: seq<T>, b: seq<T>) returns (diffs: seq<Splice<T>>, lcs: seq<Diag>)
    ensures Common(lcs, a, b)
    ensures Valid(diffs, |a|) && Apply(a, diffs) == b && Spares(diffs, lcs) && Cost(diffs) == |a| + |b| - 2 * Size(lcs)
    ensures diffs == [] <==> a == b
    ensures BestWithin(diffs, lcs, a, b, MAX_DIFFS) && AsFewWithin(diffs, a, b, MAX_DIFFS)
    ensures Separated(diffs) && StaysNear(lcs, a, b, MAX_DIFFS / 2)
  {
    diffs, lcs := Compute(a, b, MAX_DIFFS / 2);
  }

  /** The bound of compute is exact: for every limit from 3 on there are sequences that replacements at
      a cost of twice the limit make of each other, but for which it finds none as cheap. */
  method LimitMisses(limit: nat) returns (a: seq<int>, b: seq<int>, diffs: seq<Splice<int>>, lcs: seq<Diag>)
    requires 3 <= limit && 2 * limit + 6 < INFINITY
    ensures a == SHORT && b == Long(limit) && Common(lcs, a, b) && StaysNear(lcs, a, b, limit)
    ensures Valid(diffs, |a|) && Apply(a, diffs) == b && Spares(diffs, lcs)
    ensures !Longest(lcs, a, b) && Cost(diffs) > Dist(a, b, |a|, |b|) == 2 * limit
  {
    a, b := SHORT, Long(limit);
    diffs, lcs := Compute(a, b, limit);
    MissesThird(lcs, a, b, limit);
  }

  /** What twolcs does once the searches meet. */
  datatype Plan = Parts(df: int, kf: int, db: int, kb: int) | BackOnly | FrontOnly | Another(u: int, v: int)

  /** Label (e, l) is (d, k), or one row before on a diagonal beside it. */
  predicate Beside(d: int, k: int, e: int, l: int) {
    Ok(e, l) && ((e == d && l == k) || (e == d - 1 && (l == k - 1 || l == k + 1)))
  }

  // ----- where the searches meet

  /** The labels on diagonal l are the same, or one lies on an edge of the rectangle. */
  predicate Special(f: seq<int>, g: seq<int>, delta: int, ux: int, uy: int, l: int)
    requires Shared(f, g, delta, l)
  {
    var x, u := At(f, l), At(g, l - delta);
    x == u || u == 0 || u - l == 0 || x - l == uy || x == ux
  }

  ghost predicate IsFirstMeet(f: seq<int>, g: seq<int>, delta: int, k: int) {
    Meet(f, g, delta, k) && forall l :: l < k ==> !Meet(f, g, delta, l)
  }

  ghost predicate NoneSpecial(f: seq<int>, g: seq<int>, delta: int, ux: int, uy: int, k: int) {
    forall l :: k <= l && Shared(f, g, delta, l) ==> !Special(f, g, delta, ux, uy, l)
  }

  lemma OffAxis(f: seq<int>, g: seq<int>, delta: int, ux: int, uy: int, k: int)
    requires NoneSpecial(f, g, delta, ux, uy, k)
    ensures forall l :: k <= l && Shared(f, g, delta, l) ==> !OnAxis(g, delta, l)
  {
    forall l | k <= l && Shared(f, g, delta, l) ensures !OnAxis(g, delta, l) {
      assert !Special(f, g, delta, ux, uy, l);
    }
  }

  method FirstMeet(f: seq<int>, g: seq<int>, delta: int, kmin: int, kmax: int) returns (r: Option<int>)
    requires Span(f, g, delta, kmin, kmax)
    ensures r.None? ==> Apart(f, g, delta)
    ensures r.Some? ==> IsFirstMeet(f, g, delta, r.value)
  {
    var k := kmin;
    while k <= kmax
      invariant kmin <= k && Even(k - kmin)
      invariant forall l :: l < k ==> !Meet(f, g, delta, l)
    {
      assert Shared(f, g, delta, k);
      if At(g, k - delta) <= At(f, k) {
        return Some(k);
      }
      k := k + 2;
    }
    return None;
  }

  /** The first special diagonal from k on, or k if there is none. */
  method FirstSpecial(f: seq<int>, g: seq<int>, delta: int, ux: int, uy: int, k: int, ghost kmin: int, kmax: int)
    returns (l: int)
    requires Span(f, g, delta, kmin, kmax)
    requires Shared(f, g, delta, k)
    ensures Shared(f, g, delta, l)
    ensures Special(f, g, delta, ux, uy, l) || (l == k && NoneSpecial(f, g, delta, ux, uy, k))
  {
    l := k;
    while l <= kmax
      invariant k <= l && Even(l - k)
      invariant forall i :: k <= i < l && Shared(f, g, delta, i) ==> !Special(f, g, delta, ux, uy, i)
    {
      if Special(f, g, delta, ux, uy, l) {
        return;
      }
      l := l + 2;
    }
    l := k;
  }

  /** The diagonals both rows have: every second one from kmin to kmax. */
  ghost predicate Span(f: seq<int>, g: seq<int>, delta: int, kmin: int, kmax: int) {
    forall k :: Shared(f, g, delta, k) <==> kmin <= k <= kmax && Even(k - kmin)
  }

  lemma SpanOf(f: seq<int>, g: seq<int>, delta: int, kmin: int, kmax: int)
    requires f != [] && g != [] && Even(|f| + |g| + delta)
    requires kmin == (if 1 - |f| > delta - (|g| - 1) then 1 - |f| else delta - (|g| - 1))
    requires kmax == (if |f| - 1 < |g| - 1 + delta then |f| - 1 else |g| - 1 + delta)
    ensures Span(f, g, delta, kmin, kmax)
  {
  }

  /** The entries of row d + 1 that are filled before entry j. */
  ghost function Ends(d: nat, j: nat): set<int> {
    Below(j) + {d + 1}
  }

  lemma EndsAll(d: nat, j: nat)
    requires j >= d + 1
    ensures Full(Ends(d, j), d)
  {
  }

  lemma EndsNext(d: nat, j: nat)
    ensures Ends(d, j) + {j} == Ends(d, j + 1)
  {
    assert Below(j + 1) == Below(j) + {j};
  }

  /** The label on diagonal k is inside the rectangle, and none inside it leads that label. */
  ghost predicate FurthestInside(row: seq<int>, k: int, u: int, v: int)
    requires On(row, k)
  {
    At(row, k) <= u && At(row, k) - k <= v && Leads(row, u, v, 2 * At(row, k) - k)
  }
}
