/** Ranking the owners of a key: by penalty, then direct before relayed, then round-trip class, and
    otherwise in the order they came. */
module Rank {
  import opened Collections
  import opened Nodes
  import Orders
  import StableSort

  const MILLISECOND := 1_000_000

  function RttClass(rtt: int): int {
    if rtt < 5 * MILLISECOND then 0
    else if rtt < 25 * MILLISECOND then 1
    else if rtt < 100 * MILLISECOND then 2
    else 3
  }

  /** What the client knows about the nodes when it ranks. */
  datatype Knowledge = Knowledge(penalty: NodeId -> int, path: NodeId -> Option<PathInfo>)

  datatype Standing = Standing(pen: int, relay: int, rttClass: int)

  function StandingOf(id: NodeId, know: Knowledge): Standing {
    match know.path(id)
    case None => Standing(know.penalty(id), 0, 0)
    case Some(p) => Standing(know.penalty(id), if p.direct then 0 else 1, RttClass(p.rtt))
  }

  datatype Scored = Scored(id: NodeId, rank: Standing, pos: int)

  predicate Better(a: Standing, b: Standing) {
    if a.pen != b.pen then a.pen < b.pen
    else if a.relay != b.relay then a.relay < b.relay
    else a.rttClass < b.rttClass
  }

  /** The comparison handed to the sort. */
  predicate Less(a: Scored, b: Scored) {
    if a.rank.pen != b.rank.pen then a.rank.pen < b.rank.pen
    else if a.rank.relay != b.rank.relay then a.rank.relay < b.rank.relay
    else if a.rank.rttClass != b.rank.rttClass then a.rank.rttClass < b.rank.rttClass
    else a.pos < b.pos
  }

  function Ids(s: seq<Scored>): seq<NodeId> {
    if s == [] then [] else [s[0].id] + Ids(s[1..])
  }

  function Scores(ids: seq<NodeId>, know: Knowledge): seq<Scored> {
    seq(|ids|, i requires 0 <= i < |ids| => Scored(ids[i], StandingOf(ids[i], know), i))
  }

  // ----- the meaning of a ranking

  /** The owners of one standing, in their order. */
  function WithStanding(ids: seq<NodeId>, know: Knowledge, s: Standing): seq<NodeId> {
    if ids == [] then []
    else if StandingOf(ids[0], know) == s then [ids[0]] + WithStanding(ids[1..], know, s)
    else WithStanding(ids[1..], know, s)
  }

  ghost predicate InOrder(out: seq<NodeId>, know: Knowledge) {
    forall i, j :: 0 <= i < j < |out| ==> !Better(StandingOf(out[j], know), StandingOf(out[i], know))
  }

  /** out lists the owners ids best standing first, equals in their given order. */
  ghost predicate Ranked(out: seq<NodeId>, ids: seq<NodeId>, know: Knowledge) {
    && InOrder(out, know)
    && forall s :: WithStanding(out, know, s) == WithStanding(ids, know, s)
  }

  method RankOwners(ids: seq<NodeId>, know: Knowledge) returns (ranked: seq<NodeId>)
    ensures Ranked(ranked, ids, know)
  {
    var out: seq<Scored> := [];
    for i := 0 to |ids|
      invariant |out| == i
      invariant forall j :: 0 <= j < i ==> out[j] == Scored(ids[j], StandingOf(ids[j], know), j)
    {
      var s := Scored(ids[i], Standing(know.penalty(ids[i]), 0, 0), i);
      var p := know.path(ids[i]);
      if p.Some? {
        var relay := if !p.value.direct then 1 else 0;
        s := s.(rank := Standing(s.rank.pen, relay, RttClass(p.value.rtt)));
      }
      out := out + [s];
    }
    assert out == Scores(ids, know);
    var sorted := SortScored(out);
    AnySortRanks(ids, know, sorted);
    ranked := [];
    for i := 0 to |sorted|
      invariant ranked + Ids(sorted[i..]) == Ids(sorted)
    {
      ranked := ranked + [sorted[i].id];
      assert sorted[i..][1..] == sorted[i + 1..];
    }
    assert ranked == Ids(sorted) by {
      assert sorted[|sorted|..] == [] && ranked + [] == ranked;
    }
  }

  // ----- the sort

  ghost predicate Sorted(s: seq<Scored>) {
    forall i, j :: 0 <= i < j < |s| ==> Less(s[i], s[j])
  }

  function Insert(s: seq<Scored>, x: Scored): (r: seq<Scored>)
    ensures multiset(r) == multiset(s) + multiset{x}
  {
    if s == [] then [x]
    else if Less(x, s[0]) then
      assert [x] + s == [x] + s;
      [x] + s
    else
      assert s == [s[0]] + s[1..];
      [s[0]] + Insert(s[1..], x)
  }

  function InsertionSort(s: seq<Scored>): (r: seq<Scored>)
    ensures multiset(r) == multiset(s)
  {
    if s == [] then []
    else
      assert s == s[..|s| - 1] + [s[|s| - 1]];
      Insert(InsertionSort(s[..|s| - 1]), s[|s| - 1])
  }

  /** The stable sort; by UniqueSort any correct sort returns the same. */
  method SortScored(s: seq<Scored>) returns (r: seq<Scored>)
    requires forall i, j :: 0 <= i < j < |s| ==> s[i].pos < s[j].pos
    ensures Sorted(r) && multiset(r) == multiset(s)
  {
    LessIsOrder();
    var v := new Scored[|s|](i requires 0 <= i < |s| => s[i]);
    assert v[..] == s;
    StableSort.SliceStable(v, Less);
    r := v[..];
    StrictlySorted(s, r);
  }

  lemma LessIsOrder()
    ensures Orders.WeakOrder(Less)
  {
  }

  /** Positions differ, so no two scores are equal. */
  lemma StrictlySorted(s: seq<Scored>, r: seq<Scored>)
    requires forall i, j :: 0 <= i < j < |s| ==> s[i].pos < s[j].pos
    requires multiset(r) == multiset(s) && Orders.Sorted(Less, r, 0, |r|)
    ensures Sorted(r)
  {
    DistinctRearranged(s, r);
    forall i, j | 0 <= i < j < |r| ensures Less(r[i], r[j]) {
      assert r[i] in s && r[j] in s && r[i] != r[j];
      assert !Less(r[j], r[i]);
    }
  }

  lemma {:induction false} InsertSorted(s: seq<Scored>, x: Scored)
    requires Sorted(s) && forall y :: y in s ==> y.pos < x.pos
    ensures Sorted(Insert(s, x))
    decreases s
  {
    if s != [] && !Less(x, s[0]) {
      InsertSorted(s[1..], x);
      var r := Insert(s[1..], x);
      forall y | y in r ensures Less(s[0], y) {
        assert y in multiset(r);
        assert y == x || y in s[1..];
      }
    }
  }

  lemma {:induction false} SortWorks(s: seq<Scored>)
    requires forall i, j :: 0 <= i < j < |s| ==> s[i].pos < s[j].pos
    ensures Sorted(InsertionSort(s))
  {
    if s != [] {
      var front, x := s[..|s| - 1], s[|s| - 1];
      SortWorks(front);
      forall y | y in InsertionSort(front) ensures y.pos < x.pos {
        assert y in multiset(InsertionSort(front)) && y in multiset(front);
      }
      InsertSorted(InsertionSort(front), x);
    }
  }

  /** The order (penalty, relay, class, position) has one sorted permutation. */
  lemma {:induction false} UniqueSort(a: seq<Scored>, b: seq<Scored>)
    requires Sorted(a) && Sorted(b) && multiset(a) == multiset(b)
    ensures a == b
    decreases |a|
  {
    assert |multiset(a)| == |a| && |multiset(b)| == |b|;
    if a != [] {
      SameFirst(a, b);
      SameRest(a, b);
      UniqueSort(a[1..], b[1..]);
      assert a == [a[0]] + a[1..] && b == [b[0]] + b[1..];
    }
  }

  lemma SameRest(a: seq<Scored>, b: seq<Scored>)
    requires a != [] && b != [] && a[0] == b[0] && multiset(a) == multiset(b)
    ensures multiset(a[1..]) == multiset(b[1..])
  {
    assert a == [a[0]] + a[1..] && b == [b[0]] + b[1..];
    assert multiset(a[1..]) == multiset(a) - multiset{a[0]} && multiset(b[1..]) == multiset(b) - multiset{b[0]};
  }

  lemma SameFirst(a: seq<Scored>, b: seq<Scored>)
    requires Sorted(a) && Sorted(b) && multiset(a) == multiset(b) && a != [] && b != []
    ensures a[0] == b[0]
  {
    assert a[0] in multiset(b) && b[0] in multiset(a);
    assert a[0] in b && b[0] in a;
  }

  // ----- any correct sort gives the ranking

  lemma {:induction false} InsertKeeps(s: seq<Scored>, x: Scored, know: Knowledge, k: Standing)
    requires Sorted(s)
    requires x.rank == StandingOf(x.id, know)
    requires forall y :: y in s ==> y.pos < x.pos && y.rank == StandingOf(y.id, know)
    ensures WithStanding(Ids(Insert(s, x)), know, k) ==
            WithStanding(Ids(s), know, k) + (if x.rank == k then [x.id] else [])
    decreases s
  {
    if s == [] {
    } else if Less(x, s[0]) {
      assert forall y :: y in s ==> Better(x.rank, y.rank);
      assert ([x] + s)[1..] == s;
      if x.rank == k {
        NoneWith(s, know, k);
      }
    } else {
      InsertKeeps(s[1..], x, know, k);
      assert s[0] in s;
    }
  }

  lemma {:induction false} NoneWith(s: seq<Scored>, know: Knowledge, k: Standing)
    requires forall y :: y in s ==> y.rank == StandingOf(y.id, know) && y.rank != k
    ensures WithStanding(Ids(s), know, k) == []
  {
    if s != [] {
      assert s[0] in s;
      NoneWith(s[1..], know, k);
    }
  }

  lemma {:induction false} StandingAppend(a: seq<NodeId>, b: seq<NodeId>, know: Knowledge, k: Standing)
    ensures WithStanding(a + b, know, k) == WithStanding(a, know, k) + WithStanding(b, know, k)
  {
    if a == [] {
      assert a + b == b;
    } else {
      StandingAppend(a[1..], b, know, k);
      assert (a + b)[1..] == a[1..] + b;
    }
  }

  lemma {:induction false} IdsInOrder(s: seq<Scored>, know: Knowledge)
    requires forall y :: y in s ==> y.rank == StandingOf(y.id, know)
    ensures |Ids(s)| == |s| && forall i :: 0 <= i < |s| ==> Ids(s)[i] == s[i].id
    ensures Sorted(s) ==> InOrder(Ids(s), know)
  {
    if s != [] {
      IdsInOrder(s[1..], know);
    }
  }

  lemma LastStanding(ids: seq<NodeId>, know: Knowledge, k: Standing)
    requires ids != []
    ensures var front, last := ids[..|ids| - 1], ids[|ids| - 1];
            WithStanding(ids, know, k) ==
            WithStanding(front, know, k) + (if StandingOf(last, know) == k then [last] else [])
  {
    var front, last := ids[..|ids| - 1], ids[|ids| - 1];
    assert ids == front + [last];
    StandingAppend(front, [last], know, k);
  }

  lemma SortedScores(ids: seq<NodeId>, know: Knowledge)
    ensures forall y :: y in InsertionSort(Scores(ids, know)) ==> y.pos < |ids| && y.rank == StandingOf(y.id, know)
  {
    var s := Scores(ids, know);
    forall y | y in InsertionSort(s) ensures y.pos < |ids| && y.rank == StandingOf(y.id, know) {
      assert y in multiset(InsertionSort(s)) && y in multiset(s);
    }
  }

  lemma {:induction false} SortRanks(ids: seq<NodeId>, know: Knowledge, k: Standing)
    ensures WithStanding(Ids(InsertionSort(Scores(ids, know))), know, k) == WithStanding(ids, know, k)
  {
    var s := Scores(ids, know);
    if ids != [] {
      var front, last := ids[..|ids| - 1], ids[|ids| - 1];
      LastStanding(ids, know, k);
      SortRanks(front, know, k);
      assert s[..|s| - 1] == Scores(front, know);
      SortWorks(Scores(front, know));
      SortedScores(front, know);
      InsertKeeps(InsertionSort(Scores(front, know)), s[|s| - 1], know, k);
    }
  }

  /** Whatever algorithm sorts the scores, the owners come out ranked. */
  lemma AnySortRanks(ids: seq<NodeId>, know: Knowledge, out: seq<Scored>)
    requires Sorted(out) && multiset(out) == multiset(Scores(ids, know))
    ensures Ranked(Ids(out), ids, know)
  {
    var s := Scores(ids, know);
    SortWorks(s);
    UniqueSort(out, InsertionSort(s));
    forall y | y in out ensures y.rank == StandingOf(y.id, know) {
      assert y in multiset(out) && y in multiset(s);
    }
    IdsInOrder(out, know);
    forall k ensures WithStanding(Ids(out), know, k) == WithStanding(ids, know, k) {
      SortRanks(ids, know, k);
    }
  }

  // ----- rankings are unique, stable under ranking again, and commute with dropping owners

  lemma {:induction false} StandingMember(ids: seq<NodeId>, know: Knowledge, s: Standing, id: NodeId)
    ensures id in WithStanding(ids, know, s) <==> id in ids && StandingOf(id, know) == s
  {
    if ids != [] {
      StandingMember(ids[1..], know, s, id);
    }
  }

  lemma {:induction false} RankingIsUnique(a: seq<NodeId>, b: seq<NodeId>, know: Knowledge)
    requires InOrder(a, know) && InOrder(b, know)
    requires forall s :: WithStanding(a, know, s) == WithStanding(b, know, s)
    ensures a == b
    decreases |a| + |b|
  {
    assert a == [] <==> b == [] by {
      assert a != [] ==> WithStanding(b, know, StandingOf(a[0], know)) == WithStanding(a, know, StandingOf(a[0], know));
      assert b != [] ==> WithStanding(a, know, StandingOf(b[0], know)) == WithStanding(b, know, StandingOf(b[0], know));
    }
    if a != [] {
      var sa, sb := StandingOf(a[0], know), StandingOf(b[0], know);
      FirstIsNoWorse(a, b, know);
      FirstIsNoWorse(b, a, know);
      assert sa == sb;
      assert WithStanding(a, know, sa)[0] == a[0] && WithStanding(b, know, sa)[0] == b[0];
      assert a[0] == b[0];
      forall s ensures WithStanding(a[1..], know, s) == WithStanding(b[1..], know, s) {
        assert WithStanding(a, know, s) == WithStanding(b, know, s);
        if s == sa {
          assert WithStanding(a, know, s)[1..] == WithStanding(a[1..], know, s);
          assert WithStanding(b, know, s)[1..] == WithStanding(b[1..], know, s);
        }
      }
      RankingIsUnique(a[1..], b[1..], know);
    }
  }

  lemma FirstIsNoWorse(a: seq<NodeId>, b: seq<NodeId>, know: Knowledge)
    requires a != [] && b != [] && InOrder(b, know)
    requires forall s :: WithStanding(a, know, s) == WithStanding(b, know, s)
    ensures !Better(StandingOf(a[0], know), StandingOf(b[0], know))
  {
    var s := StandingOf(a[0], know);
    StandingMember(a, know, s, a[0]);
    StandingMember(b, know, s, a[0]);
    assert WithStanding(a, know, s) == WithStanding(b, know, s);
    var j :| 0 <= j < |b| && b[j] == a[0];
  }

  /** Two rankings of the same owners are equal, and ranking a ranked list changes nothing. */
  lemma RankAgain(ids: seq<NodeId>, know: Knowledge, once: seq<NodeId>, twice: seq<NodeId>)
    requires Ranked(once, ids, know)
    requires Ranked(twice, once, know) || Ranked(twice, ids, know)
    ensures twice == once
  {
    RankingIsUnique(twice, once, know);
  }

  /** The owners a caller keeps. */
  function Keep(ids: seq<NodeId>, p: NodeId -> bool): seq<NodeId> {
    if ids == [] then []
    else if p(ids[0]) then [ids[0]] + Keep(ids[1..], p)
    else Keep(ids[1..], p)
  }

  lemma {:induction false} KeepCommutes(ids: seq<NodeId>, p: NodeId -> bool, know: Knowledge, s: Standing)
    ensures WithStanding(Keep(ids, p), know, s) == Keep(WithStanding(ids, know, s), p)
  {
    if ids != [] {
      KeepCommutes(ids[1..], p, know, s);
    }
  }

  lemma {:induction false} MemberKept(ids: seq<NodeId>, p: NodeId -> bool, id: NodeId)
    ensures id in Keep(ids, p) <==> id in ids && p(id)
  {
    if ids != [] {
      MemberKept(ids[1..], p, id);
    }
  }

  lemma {:induction false} KeepInOrder(ids: seq<NodeId>, p: NodeId -> bool, know: Knowledge)
    requires InOrder(ids, know)
    ensures InOrder(Keep(ids, p), know)
  {
    if ids != [] {
      KeepInOrder(ids[1..], p, know);
      forall j | 0 <= j < |Keep(ids[1..], p)|
        ensures !Better(StandingOf(Keep(ids[1..], p)[j], know), StandingOf(ids[0], know))
      {
        MemberKept(ids[1..], p, Keep(ids[1..], p)[j]);
      }
    }
  }

  /** Dropping owners after ranking is ranking what is left. */
  lemma RankThenDrop(ids: seq<NodeId>, know: Knowledge, keep: NodeId -> bool, ranked: seq<NodeId>, dropped: seq<NodeId>)
    requires Ranked(ranked, ids, know)
    requires Ranked(dropped, Keep(ids, keep), know)
    ensures Keep(ranked, keep) == dropped
  {
    KeepInOrder(ranked, keep, know);
    forall s ensures WithStanding(Keep(ranked, keep), know, s) == WithStanding(dropped, know, s) {
      KeepCommutes(ranked, keep, know, s);
      KeepCommutes(ids, keep, know, s);
      assert WithStanding(ranked, know, s) == WithStanding(ids, know, s);
    }
    RankingIsUnique(Keep(ranked, keep), dropped, know);
  }
}
