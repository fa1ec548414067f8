/** From matching diagonals to a diff: how overlapping diagonals are repaired into a common
    subsequence, and how the gaps between its diagonals become replacements. */
module Lcs {
  import Collections
  import Orders
  import Pdqsort
  import opened Splices

  /** a[x..x+len] and b[y..y+len] are the same. */
  datatype Diag = Diag(x: int, y: int, len: int)

  predicate Matches<T(==)>(d: Diag, a: seq<T>, b: seq<T>) {
    && 0 <= d.x && 0 <= d.y && 0 < d.len && d.x + d.len <= |a| && d.y + d.len <= |b|
    && a[d.x..d.x + d.len] == b[d.y..d.y + d.len]
  }

  /** d ends, in both sequences, where e starts or earlier. */
  predicate Before(d: Diag, e: Diag) {
    d.x + d.len <= e.x && d.y + d.len <= e.y
  }

  predicate Compatible(d: Diag, e: Diag) {
    Before(d, e) || Before(e, d)
  }

  /** d is a piece of e. */
  predicate PieceOf(d: Diag, e: Diag) {
    d.x - e.x == d.y - e.y && e.x <= d.x && d.x + d.len <= e.x + e.len
  }

  /** A common subsequence: matching diagonals, one after the other. */
  ghost predicate Common<T>(lcs: seq<Diag>, a: seq<T>, b: seq<T>) {
    && (forall i :: 0 <= i < |lcs| ==> Matches(lcs[i], a, b))
    && (forall i, j :: 0 <= i < j < |lcs| ==> Before(lcs[i], lcs[j]))
  }

  /** The elements it matches. */
  function Size(lcs: seq<Diag>): int {
    if lcs == [] then 0 else Size(Front(lcs)) + Last(lcs).len
  }

  lemma {:induction false} SizeConcat(f: seq<Diag>, g: seq<Diag>)
    ensures Size(f + g) == Size(f) + Size(g)
  {
    if g == [] {
      assert f + g == f;
    } else {
      SizeConcat(f, Front(g));
      assert Front(f + g) == f + Front(g);
    }
  }

  lemma SizeNext(lcs: seq<Diag>, n: nat)
    requires n < |lcs|
    ensures lcs[..n + 1] == lcs[..n] + [lcs[n]] && Size(lcs[..n + 1]) == Size(lcs[..n]) + lcs[n].len
  {
    Collections.Next(lcs, n);
    FrontOfAppend(lcs[..n], lcs[n]);
  }

  lemma SizeOne(d: Diag)
    ensures Size([d]) == d.len
  {
    assert Front([d]) == [];
  }

  // ----- fix

  datatype Direction = Empty | LeftDown | RightUp | Bad

  /** Trims prop so that it does not overlap exist, and says where it then lies. */
  method Overlap(exist: Diag, prop: Diag) returns (dir: Direction, p: Diag)
    requires 0 < exist.len && 0 < prop.len
    ensures dir.Empty? ==> p.len <= 0
    ensures !dir.Empty? ==> 0 < p.len && PieceOf(p, prop)
    ensures dir.LeftDown? ==> Before(p, exist)
    ensures dir.RightUp? ==> Before(exist, p)
    ensures Compatible(exist, prop) ==> p == prop && (dir.LeftDown? || dir.RightUp?)
  {
    p := CutEnd(prop, prop.x, exist.x);
    if p.len <= 0 {
      return Empty, p;
    }
    p := CutStart(p, p.x, exist.x, exist.len);
    if p.len <= 0 {
      return Empty, p;
    }
    p := CutEnd(p, p.y, exist.y);
    if p.len <= 0 {
      return Empty, p;
    }
    p := CutStart(p, p.y, exist.y, exist.len);
    if p.len <= 0 {
      return Empty, p;
    }
    dir := if Before(p, exist) then LeftDown else if Before(exist, p) then RightUp else Bad;
  }

  /** Removes the end of p from where exist starts, in the coordinate at. */
  function CutEnd(p: Diag, at: int, exist: int): Diag {
    if at <= exist < at + p.len then p.(len := exist - at) else p
  }

  /** Removes the beginning of p up to where exist ends; an empty rest is left in place. */
  function CutStart(p: Diag, at: int, exist: int, len: int): Diag {
    if exist <= at < exist + len then
      var delta := exist + len - at;
      if p.len - delta <= 0 then p.(len := p.len - delta)
      else Diag(p.x + delta, p.y + delta, p.len - delta)
    else p
  }

  ghost predicate AllCompatible(l: seq<Diag>) {
    forall i, j :: 0 <= i < j < |l| ==> Compatible(l[i], l[j])
  }

  ghost predicate AllMatch<T>(l: seq<Diag>, a: seq<T>, b: seq<T>) {
    forall i :: 0 <= i < |l| ==> Matches(l[i], a, b)
  }

  lemma PieceMatches<T>(d: Diag, e: Diag, a: seq<T>, b: seq<T>)
    requires Matches(e, a, b) && PieceOf(d, e) && 0 < d.len
    ensures Matches(d, a, b)
  {
    Collections.SubSlice(a, e.x, e.x + e.len, d.x, d.x + d.len);
    Collections.SubSlice(b, e.y, e.y + e.len, d.y, d.y + d.len);
  }

  /** fix: whatever matching diagonals come in, a common subsequence made of pieces of them comes out,
      with one of the longest among them whole, and diagonals that do not conflict all stay as they
      are. */
  method Fix<T>(l: seq<Diag>, ghost a: seq<T>, ghost b: seq<T>) returns (lcs: seq<Diag>)
    requires AllMatch(l, a, b)
    ensures Common(lcs, a, b)
    ensures forall i :: 0 <= i < |lcs| ==> FromOne(lcs[i], l)
    ensures l != [] ==> exists d :: d in lcs && LongestOf(d, l)
    ensures AllCompatible(l) ==> multiset(lcs) == multiset(l)
  {
    if l == [] {
      return [];
    }
    var sorted := SortBy(l, Longer);
    SameDiags(sorted, l, a, b);
    var tmp := Greedy(sorted, a, b);
    lcs := SortDiags(tmp, a, b);
    SamePieces(lcs, tmp, l);
    FirstIsLongest(sorted, l);
    assert tmp[0] in multiset(lcs);
  }

  ghost predicate LongestOf(d: Diag, l: seq<Diag>) {
    d in l && forall i :: 0 <= i < |l| ==> l[i].len <= d.len
  }

  lemma FirstIsLongest(sorted: seq<Diag>, l: seq<Diag>)
    requires sorted != [] && Orders.Sorted(Longer, sorted, 0, |sorted|) && multiset(sorted) == multiset(l)
    ensures LongestOf(sorted[0], l)
  {
    assert sorted[0] in multiset(sorted);
    forall i | 0 <= i < |l| ensures l[i].len <= sorted[0].len {
      assert l[i] in multiset(sorted);
      var j :| 0 <= j < |sorted| && sorted[j] == l[i];
    }
  }

  /** A rearrangement has the same pieces, and is as compatible. */
  lemma SameDiags<T>(r: seq<Diag>, l: seq<Diag>, a: seq<T>, b: seq<T>)
    requires AllMatch(l, a, b) && multiset(r) == multiset(l)
    ensures AllMatch(r, a, b) && (AllCompatible(l) ==> AllCompatible(r))
    ensures forall d :: FromOne(d, r) ==> FromOne(d, l)
    ensures |r| == |l|
  {
    forall i | 0 <= i < |r| ensures r[i] in l {
      assert r[i] in multiset(r);
    }
    if AllCompatible(l) {
      AllDifferent(l, a, b);
      Collections.DistinctRearranged(l, r);
      forall i, j | 0 <= i < j < |r| ensures Compatible(r[i], r[j]) {
        var p :| 0 <= p < |l| && l[p] == r[i];
        var q :| 0 <= q < |l| && l[q] == r[j];
      }
    }
    assert |r| == |multiset(r)| == |multiset(l)| == |l|;
  }

  lemma AllDifferent<T>(l: seq<Diag>, a: seq<T>, b: seq<T>)
    requires AllMatch(l, a, b) && AllCompatible(l)
    ensures Collections.Distinct(l)
  {
    forall i, j | 0 <= i < j < |l| ensures l[i] != l[j] {
      assert Compatible(l[i], l[j]) && Matches(l[i], a, b);
    }
  }

  lemma SamePieces(lcs: seq<Diag>, tmp: seq<Diag>, l: seq<Diag>)
    requires multiset(lcs) == multiset(tmp) && forall i :: 0 <= i < |tmp| ==> FromOne(tmp[i], l)
    ensures forall i :: 0 <= i < |lcs| ==> FromOne(lcs[i], l)
  {
    forall i | 0 <= i < |lcs| ensures FromOne(lcs[i], l) {
      assert lcs[i] in multiset(tmp);
    }
  }

  /** Its loop: keeps what fits beside what is kept. */
  method Greedy<T>(l: seq<Diag>, ghost a: seq<T>, ghost b: seq<T>) returns (tmp: seq<Diag>)
    requires AllMatch(l, a, b) && l != []
    ensures tmp != [] && tmp[0] == l[0] && AllMatch(tmp, a, b) && AllCompatible(tmp)
    ensures forall i :: 0 <= i < |tmp| ==> FromOne(tmp[i], l)
    ensures AllCompatible(l) ==> tmp == l
  {
    tmp := [l[0]];
    Itself(l, 0);
    for n := 1 to |l|
      invariant tmp != [] && tmp[0] == l[0] && AllMatch(tmp, a, b) && AllCompatible(tmp)
      invariant forall i :: 0 <= i < |tmp| ==> FromOne(tmp[i], l)
      invariant AllCompatible(l) ==> tmp == l[..n]
    {
      var dir, nxt := Fit(tmp, l[n], a, b);
      AllFit(l, n);
      if nxt.len > 0 && dir != Bad {
        PieceFromOne(nxt, l, n);
        Kept(tmp, nxt, a, b);
        tmp := tmp + [nxt];
      }
    }
    assert l[..|l|] == l;
  }

  lemma AllFit(l: seq<Diag>, n: nat)
    requires n < |l|
    ensures l[..n + 1] == l[..n] + [l[n]]
    ensures AllCompatible(l) ==> forall i :: 0 <= i < n ==> Compatible(l[..n][i], l[n])
  {
  }

  lemma Kept<T>(tmp: seq<Diag>, d: Diag, a: seq<T>, b: seq<T>)
    requires AllMatch(tmp, a, b) && AllCompatible(tmp) && Matches(d, a, b)
    requires forall i :: 0 <= i < |tmp| ==> Compatible(tmp[i], d)
    ensures AllMatch(tmp + [d], a, b) && AllCompatible(tmp + [d])
  {
  }

  lemma Itself(l: seq<Diag>, n: nat)
    requires n < |l|
    ensures FromOne(l[n], l)
  {
    PieceFromOne(l[n], l, n);
  }

  lemma PieceFromOne(d: Diag, l: seq<Diag>, n: nat)
    requires n < |l| && PieceOf(d, l[n])
    ensures FromOne(d, l)
  {
    assert l[n] in l;
  }

  ghost predicate FromOne(d: Diag, l: seq<Diag>) {
    exists e :: e in l && PieceOf(d, e)
  }

  /** Its inner loop: trims item against everything kept so far. */
  method Fit<T>(tmp: seq<Diag>, item: Diag, ghost a: seq<T>, ghost b: seq<T>) returns (dir: Direction, nxt: Diag)
    requires tmp != [] && AllMatch(tmp, a, b) && Matches(item, a, b)
    ensures nxt.len > 0 && dir != Bad ==>
              Matches(nxt, a, b) && PieceOf(nxt, item) && forall i :: 0 <= i < |tmp| ==> Compatible(tmp[i], nxt)
    ensures (forall i :: 0 <= i < |tmp| ==> Compatible(tmp[i], item)) ==> nxt == item && dir != Bad
  {
    dir, nxt := Empty, item;
    for i := 0 to |tmp|
      invariant 0 < nxt.len && PieceOf(nxt, item) && dir != Bad
      invariant (forall j :: 0 <= j < |tmp| ==> Compatible(tmp[j], item)) ==> nxt == item
      invariant forall j :: 0 <= j < i ==> Compatible(tmp[j], nxt)
    {
      dir, nxt := Overlap(tmp[i], nxt);
      if dir == Empty || dir == Bad {
        return;
      }
    }
    PieceMatches(nxt, item, a, b);
  }

  // ----- the sorts

  /** By lowest x, and if tied, by greatest length. */
  predicate ByX(d: Diag, e: Diag) {
    if d.x != e.x then d.x < e.x else d.len > e.len
  }

  predicate Longer(d: Diag, e: Diag) {
    d.len > e.len
  }

  lemma BothOrders()
    ensures Orders.WeakOrder(ByX) && Orders.WeakOrder(Longer)
  {
  }

  method SortBy(l: seq<Diag>, less: (Diag, Diag) -> bool) returns (r: seq<Diag>)
    requires less == ByX || less == Longer
    ensures multiset(r) == multiset(l) && Orders.Sorted(less, r, 0, |r|)
  {
    BothOrders();
    var v := new Diag[|l|](i requires 0 <= i < |l| => l[i]);
    assert v[..] == l;
    Pdqsort.Slice(v, less);
    r := v[..];
  }

  /** sort: diagonals that fit beside each other become a common subsequence. */
  method SortDiags<T>(l: seq<Diag>, ghost a: seq<T>, ghost b: seq<T>) returns (r: seq<Diag>)
    requires AllMatch(l, a, b) && AllCompatible(l)
    ensures Common(r, a, b) && multiset(r) == multiset(l) && Size(r) == Size(l)
  {
    r := SortBy(l, ByX);
    SameDiags(r, l, a, b);
    InTurn(r, a, b);
    SameSize(r, l);
  }

  lemma InTurn<T>(r: seq<Diag>, a: seq<T>, b: seq<T>)
    requires AllMatch(r, a, b) && AllCompatible(r) && Orders.Sorted(ByX, r, 0, |r|)
    ensures Common(r, a, b)
  {
    forall i, j | 0 <= i < j < |r| ensures Before(r[i], r[j]) {
      assert Compatible(r[i], r[j]) && !ByX(r[j], r[i]) && Matches(r[j], a, b);
    }
  }

  lemma {:induction false} SameSize(r: seq<Diag>, l: seq<Diag>)
    requires multiset(r) == multiset(l)
    ensures Size(r) == Size(l)
    decreases |r|
  {
    if r == [] {
      assert |multiset(l)| == |l| == 0;
    } else {
      var f, g := TakeOut(r, l);
      SameSize(Front(r), f + g);
      InsertSize(f, Last(r), g);
    }
  }

  /** Where the last element of one is in the other. */
  lemma TakeOut(r: seq<Diag>, l: seq<Diag>) returns (f: seq<Diag>, g: seq<Diag>)
    requires r != [] && multiset(r) == multiset(l)
    ensures l == f + [Last(r)] + g && multiset(Front(r)) == multiset(f + g)
  {
    var last := Last(r);
    assert r == Front(r) + [last] && last in multiset(r);
    var p :| 0 <= p < |l| && l[p] == last;
    f, g := l[..p], l[p + 1..];
    assert l == f + [last] + g;
    Without(Front(r), r, last);
    OneLess(f, g, last);
  }

  lemma Without(front: seq<Diag>, r: seq<Diag>, last: Diag)
    requires r == front + [last]
    ensures multiset(front) == multiset(r) - multiset{last}
  {
  }

  lemma OneLess(f: seq<Diag>, g: seq<Diag>, d: Diag)
    ensures multiset(f + g) == multiset(f + [d] + g) - multiset{d}
  {
  }

  lemma InsertSize(f: seq<Diag>, d: Diag, g: seq<Diag>)
    ensures Size(f + [d] + g) == Size(f + g) + d.len
  {
    SizeConcat(f, g);
    SizeConcat(f + [d], g);
    SizeConcat(f, [d]);
    SizeOne(d);
  }

  // ----- to_diffs

  /** The replacements so far, and how far into a and b they and the diagonals reach. */
  datatype Progress<T> = Progress(diffs: seq<Splice<T>>, pa: int, pb: int)

  /** The gap up to (x, y), if there is one, is one replacement. */
  function CloseGap<T>(p: Progress<T>, x: nat, y: nat, b: seq<T>): seq<Splice<T>>
    requires 0 <= p.pa && 0 <= p.pb <= y <= |b|
  {
    if p.pa < x || p.pb < y then p.diffs + [Splice(p.pa, x, b[p.pb..y])] else p.diffs
  }

  /** to_diffs: each replacement is a[start..end] by b[replStart..replEnd], here with the elements
      of b filled in. */
  method ToDiffs<T>(lcs: seq<Diag>, a: seq<T>, b: seq<T>) returns (diffs: seq<Splice<T>>)
    requires Common(lcs, a, b)
    ensures Valid(diffs, |a|) && Apply(a, diffs) == b
    ensures Separated(diffs) && Spares(diffs, lcs) && Cost(diffs) == |a| + |b| - 2 * Size(lcs)
  {
    var p: Progress<T> := Progress([], 0, 0);
    for n := 0 to |lcs|
      invariant p == Gaps(lcs, n, a, b)
    {
      var l := lcs[n];
      GapAhead(lcs, n, a, b);
      p := Progress(CloseGap(p, l.x, l.y, b), l.x + l.len, l.y + l.len);
    }
    LastGap(lcs, a, b);
    diffs := CloseGap(p, |a|, |b|, b);
  }

  /** Its progress behind n diagonals. */
  ghost function Gaps<T>(lcs: seq<Diag>, n: nat, a: seq<T>, b: seq<T>): (p: Progress<T>)
    requires Common(lcs, a, b) && n <= |lcs|
    ensures 0 <= p.pa && 0 <= p.pb
    ensures p.pa == (if n == 0 then 0 else lcs[n - 1].x + lcs[n - 1].len)
    ensures p.pb == (if n == 0 then 0 else lcs[n - 1].y + lcs[n - 1].len)
  {
    if n == 0 then Progress([], 0, 0)
    else
      GapAhead(lcs, n - 1, a, b);
      var p, l := Gaps(lcs, n - 1, a, b), lcs[n - 1];
      Progress(CloseGap(p, l.x, l.y, b), l.x + l.len, l.y + l.len)
  }

  /** The next diagonal lies behind the one before it. */
  lemma GapAhead<T>(lcs: seq<Diag>, n: nat, a: seq<T>, b: seq<T>)
    requires Common(lcs, a, b) && n < |lcs|
    ensures Matches(lcs[n], a, b) && (n > 0 ==> Matches(lcs[n - 1], a, b) && Before(lcs[n - 1], lcs[n]))
  {
  }

  lemma {:induction false} GapsRebuild<T>(lcs: seq<Diag>, n: nat, a: seq<T>, b: seq<T>)
    requires Common(lcs, a, b) && n <= |lcs|
    ensures Rebuilt(Gaps(lcs, n, a, b), a, b)
    decreases n
  {
    if n > 0 {
      GapsRebuild(lcs, n - 1, a, b);
      GapAhead(lcs, n - 1, a, b);
      DiagonalDone(Gaps(lcs, n - 1, a, b), Gaps(lcs, n, a, b), lcs[n - 1], a, b);
    }
  }

  lemma {:induction false} GapsSpare<T>(lcs: seq<Diag>, n: nat, a: seq<T>, b: seq<T>)
    requires Common(lcs, a, b) && n <= |lcs|
    ensures SparesUpTo(Gaps(lcs, n, a, b), lcs, n)
    decreases n
  {
    if n > 0 {
      GapsSpare(lcs, n - 1, a, b);
      GapAhead(lcs, n - 1, a, b);
      DiagonalSpared(Gaps(lcs, n - 1, a, b), Gaps(lcs, n, a, b), lcs, n, a, b);
    }
  }

  lemma {:induction false} GapsAreThrifty<T>(lcs: seq<Diag>, n: nat, a: seq<T>, b: seq<T>)
    requires Common(lcs, a, b) && n <= |lcs|
    ensures Thrifty(Gaps(lcs, n, a, b), lcs, n)
    decreases n
  {
    if n > 0 {
      GapsAreThrifty(lcs, n - 1, a, b);
      GapAhead(lcs, n - 1, a, b);
      DiagonalThrifty(Gaps(lcs, n - 1, a, b), lcs, n - 1, b);
    }
  }

  lemma LastGap<T>(lcs: seq<Diag>, a: seq<T>, b: seq<T>)
    requires Common(lcs, a, b)
    ensures Gaps(lcs, |lcs|, a, b).pb <= |b|
    ensures var diffs := CloseGap(Gaps(lcs, |lcs|, a, b), |a|, |b|, b);
            && Valid(diffs, |a|) && Apply(a, diffs) == b && Separated(diffs) && Spares(diffs, lcs)
            && Cost(diffs) == |a| + |b| - 2 * Size(lcs)
  {
    var p := Gaps(lcs, |lcs|, a, b);
    GapsRebuild(lcs, |lcs|, a, b);
    AllRebuilt(p, a, b);
    GapsSpare(lcs, |lcs|, a, b);
    AllSpared(p, lcs, a, b);
    GapsAreThrifty(lcs, |lcs|, a, b);
    AllThrifty(p, lcs, |a|, b);
  }

  /** Behind n diagonals the replacements cost what these do not match, and are apart. */
  ghost predicate Thrifty<T>(p: Progress<T>, lcs: seq<Diag>, n: nat)
    requires n <= |lcs|
  {
    && Cost(p.diffs) == p.pa + p.pb - 2 * Size(lcs[..n])
    && Separated(p.diffs) && (p.diffs != [] ==> End(p.diffs) < p.pa)
  }

  lemma DiagonalThrifty<T>(p: Progress<T>, lcs: seq<Diag>, n: nat, b: seq<T>)
    requires n < |lcs| && Thrifty(p, lcs, n) && 0 <= p.pa <= lcs[n].x && 0 <= p.pb <= lcs[n].y <= |b| && lcs[n].len > 0
    ensures var l := lcs[n];
            Thrifty(Progress(CloseGap(p, l.x, l.y, b), l.x + l.len, l.y + l.len), lcs, n + 1)
  {
    var l := lcs[n];
    GapCost(p, l.x, l.y, b);
    GapSeparated(p, l.x, l.y, b);
    SizeNext(lcs, n);
  }

  lemma AllThrifty<T>(p: Progress<T>, lcs: seq<Diag>, x: nat, b: seq<T>)
    requires Thrifty(p, lcs, |lcs|) && 0 <= p.pa <= x && 0 <= p.pb <= |b|
    ensures var diffs := CloseGap(p, x, |b|, b);
            Separated(diffs) && Cost(diffs) == x + |b| - 2 * Size(lcs)
  {
    GapCost(p, x, |b|, b);
    GapSeparated(p, x, |b|, b);
    assert lcs[..|lcs|] == lcs;
  }

  lemma {:induction false} CostOfSome<T>(diffs: seq<Splice<T>>, n: nat)
    requires Valid(diffs, n)
    ensures Cost(diffs) >= 0 && (diffs != [] && Separated(diffs) ==> Cost(diffs) > 0)
  {
    if diffs != [] {
      CostOfSome(Front(diffs), n);
    }
  }

  lemma GapCost<T>(p: Progress<T>, x: nat, y: nat, b: seq<T>)
    requires 0 <= p.pa <= x && 0 <= p.pb <= y <= |b|
    ensures Cost(CloseGap(p, x, y, b)) == Cost(p.diffs) + x - p.pa + y - p.pb
  {
    FrontOfAppend(p.diffs, Splice(p.pa, x, b[p.pb..y]));
  }

  lemma GapSeparated<T>(p: Progress<T>, x: nat, y: nat, b: seq<T>)
    requires 0 <= p.pa <= x && 0 <= p.pb <= y <= |b|
    requires Separated(p.diffs) && (p.diffs != [] ==> End(p.diffs) < p.pa)
    ensures var diffs := CloseGap(p, x, y, b);
            Separated(diffs) && (diffs != [] ==> End(diffs) <= x)
  {
    FrontOfAppend(p.diffs, Splice(p.pa, x, b[p.pb..y]));
  }

  /** No replacement touches what a diagonal matches. */
  ghost predicate Spares<T>(diffs: seq<Splice<T>>, lcs: seq<Diag>) {
    forall i, j :: 0 <= i < |diffs| && 0 <= j < |lcs| ==> SparesOne(diffs[i], lcs[j])
  }

  predicate SparesOne<T>(d: Splice<T>, l: Diag) {
    d.end <= l.x || l.x + l.len <= d.start
  }

  ghost predicate SparesUpTo<T>(p: Progress<T>, lcs: seq<Diag>, n: nat)
    requires n <= |lcs|
  {
    && (forall i :: 0 <= i < |p.diffs| ==> p.diffs[i].end <= p.pa)
    && (forall j :: 0 <= j < n ==> lcs[j].x + lcs[j].len <= p.pa)
    && (forall i, j :: 0 <= i < |p.diffs| && 0 <= j < n ==> SparesOne(p.diffs[i], lcs[j]))
  }

  lemma DiagonalSpared<T>(p: Progress<T>, q: Progress<T>, lcs: seq<Diag>, n: nat, a: seq<T>, b: seq<T>)
    requires 0 < n <= |lcs| && SparesUpTo(p, lcs, n - 1) && Matches(lcs[n - 1], a, b)
    requires 0 <= p.pa <= lcs[n - 1].x && 0 <= p.pb <= lcs[n - 1].y
    requires var l := lcs[n - 1];
             q == Progress(CloseGap(p, l.x, l.y, b), l.x + l.len, l.y + l.len)
    ensures SparesUpTo(q, lcs, n)
  {
  }

  lemma AllSpared<T>(p: Progress<T>, lcs: seq<Diag>, a: seq<T>, b: seq<T>)
    requires SparesUpTo(p, lcs, |lcs|) && 0 <= p.pa <= |a| && 0 <= p.pb <= |b|
    ensures Spares(CloseGap(p, |a|, |b|, b), lcs)
  {
  }

  lemma AllRebuilt<T>(p: Progress<T>, a: seq<T>, b: seq<T>)
    requires Rebuilt(p, a, b)
    ensures var diffs := CloseGap(p, |a|, |b|, b);
            Valid(diffs, |a|) && Apply(a, diffs) == b
  {
    GapRebuilds(p, |a|, |b|, a, b);
    RebuiltToEnd(CloseGap(p, |a|, |b|, b), a, b);
  }

  lemma RebuiltToEnd<T>(diffs: seq<Splice<T>>, a: seq<T>, b: seq<T>)
    requires Rebuilt(Progress(diffs, |a|, |b|), a, b)
    ensures Apply(a, diffs) == b
  {
    assert a[End(diffs)..|a|] == a[End(diffs)..] && b[..|b|] == b;
  }

  /** What the replacements make of a, up to pa, is b up to pb. */
  ghost predicate Rebuilt<T>(p: Progress<T>, a: seq<T>, b: seq<T>) {
    && Valid(p.diffs, |a|) && End(p.diffs) <= p.pa <= |a| && 0 <= p.pb <= |b|
    && Out(a, p.diffs) + a[End(p.diffs)..p.pa] == b[..p.pb]
  }

  lemma GapRebuilds<T>(p: Progress<T>, x: nat, y: nat, a: seq<T>, b: seq<T>)
    requires Rebuilt(p, a, b) && p.pa <= x <= |a| && p.pb <= y <= |b|
    ensures Rebuilt(Progress(CloseGap(p, x, y, b), x, y), a, b)
  {
    if p.pa < x || p.pb < y {
      var e := Splice(p.pa, x, b[p.pb..y]);
      Append(a, p.diffs, e);
      assert b[..y] == b[..p.pb] + b[p.pb..y];
      assert b[..y] + a[x..x] == b[..y];
    }
  }

  lemma DiagonalDone<T>(p: Progress<T>, q: Progress<T>, l: Diag, a: seq<T>, b: seq<T>)
    requires Rebuilt(p, a, b) && Matches(l, a, b) && 0 <= p.pa <= l.x && p.pb <= l.y
    requires q == Progress(CloseGap(p, l.x, l.y, b), l.x + l.len, l.y + l.len)
    ensures Rebuilt(q, a, b)
  {
    GapRebuilds(p, l.x, l.y, a, b);
    DiagonalRebuilds(Progress(CloseGap(p, l.x, l.y, b), l.x, l.y), l, a, b);
  }

  lemma DiagonalRebuilds<T>(p: Progress<T>, l: Diag, a: seq<T>, b: seq<T>)
    requires Rebuilt(p, a, b) && Matches(l, a, b) && p.pa == l.x && p.pb == l.y
    ensures Rebuilt(p.(pa := l.x + l.len, pb := l.y + l.len), a, b)
  {
    var ea, eb := l.x + l.len, l.y + l.len;
    Collections.Join(a, End(p.diffs), l.x, ea);
    Collections.Join(b, 0, l.y, eb);
    Collections.Associative(Out(a, p.diffs), a[End(p.diffs)..l.x], a[l.x..ea]);
  }
}
