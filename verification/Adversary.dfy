/** McIlroy's antiquicksort adversary: it invents the values of the elements while a sort asks
    for comparisons. The values it ends with, sorted as a fixed input, repeat the whole run. */
module Adversary {
  import opened Words
  import opened Collections
  import opened Orders
  import opened Sorters

  datatype State = State(data: seq<int>, ids: seq<nat>, nsolid: nat, candidate: int, gas: int)

  /** One comparison: the elements asked about, by original index, and the answer. */
  datatype Answer = Answer(a: nat, b: nat, less: bool)

  function Start(n: nat): State {
    State(seq(n, _ => n - 1), seq(n, i => i), 0, 0, n - 1)
  }

  predicate InBounds(s: State, i: nat, j: nat) {
    i < |s.data| == |s.ids| && j < |s.data|
  }

  /** Less freezes one of two gas elements before it answers. */
  function Frozen(s: State, i: nat, j: nat): State
    requires InBounds(s, i, j)
  {
    if s.data[i] == s.gas && s.data[j] == s.gas then
      var k := if i == s.candidate then i else j;
      s.(data := s.data[k := s.nsolid], nsolid := s.nsolid + 1)
    else s
  }

  function AfterLess(s: State, i: nat, j: nat): State
    requires InBounds(s, i, j)
  {
    var f := Frozen(s, i, j);
    f.(candidate := if f.data[i] == f.gas then i else if f.data[j] == f.gas then j else f.candidate)
  }

  function AfterSwap(s: State, i: nat, j: nat): State
    requires InBounds(s, i, j)
  {
    s.(data := Exchanged(s.data, i, j), ids := Exchanged(s.ids, i, j))
  }

  /** The sort against the adversary: the final state and the answers given. */
  function Play(t: Sorter<()>, s: State): (State, seq<Answer>)
    requires |s.data| == |s.ids| && Fits(t, |s.data|)
    decreases t
  {
    match t
    case Done(_) => (s, [])
    case Swap(i, j, next) => Play(next, AfterSwap(s, i, j))
    case Less(i, j, yes, no) =>
      var f := AfterLess(s, i, j);
      var r := f.data[i] < f.data[j];
      var rest := Play(if r then yes else no, f);
      (rest.0, [Answer(s.ids[i], s.ids[j], r)] + rest.1)
  }

  /** The same sort over fixed elements and a comparator. */
  function Sort<E>(t: Sorter<()>, els: seq<E>, id: E -> nat, less: (E, E) -> bool): (seq<E>, seq<Answer>)
    requires Fits(t, |els|)
    decreases t
  {
    match t
    case Done(_) => (els, [])
    case Swap(i, j, next) => Sort(next, Exchanged(els, i, j), id, less)
    case Less(i, j, yes, no) =>
      var r := less(els[i], els[j]);
      var rest := Sort(if r then yes else no, els, id, less);
      (rest.0, [Answer(id(els[i]), id(els[j]), r)] + rest.1)
  }

  // ----- the adversary as the generator runs it

  class PdqAdversary {
    const data: array<int>
    const ids: array<nat>
    const gas: int
    var nsolid: nat
    var candidate: int

    ghost predicate Valid()
      reads this
    {
      data.Length == ids.Length && data as object != ids
    }

    ghost function View(): State
      reads this, data, ids
    {
      State(data[..], ids[..], nsolid, candidate, gas)
    }

    constructor (n: nat)
      ensures Valid() && fresh(data) && fresh(ids)
      ensures View() == Start(n)
    {
      data := new int[n](_ => n - 1);
      ids := new nat[n](i => i);
      gas := n - 1;
      nsolid, candidate := 0, 0;
      new;
      assert data[..] == Start(n).data;
      assert ids[..] == Start(n).ids;
    }

    method Less(i: nat, j: nat) returns (r: bool)
      requires Valid() && i < data.Length && j < data.Length
      modifies this, data
      ensures View() == AfterLess(old(View()), i, j)
      ensures r == (data[i] < data[j])
    {
      if data[i] == gas && data[j] == gas {
        if i == candidate {
          data[i] := nsolid;
          nsolid := nsolid + 1;
        } else {
          data[j] := nsolid;
          nsolid := nsolid + 1;
        }
      }
      assert data[..] == Frozen(old(View()), i, j).data;
      if data[i] == gas {
        candidate := i;
      } else if data[j] == gas {
        candidate := j;
      }
      return data[i] < data[j];
    }

    method Swap(i: nat, j: nat)
      requires Valid() && i < data.Length && j < data.Length
      modifies data, ids
      ensures View() == AfterSwap(old(View()), i, j)
    {
      data[i], data[j] := data[j], data[i];
      ids[i], ids[j] := ids[j], ids[i];
      assert data[..] == AfterSwap(old(View()), i, j).data;
      assert ids[..] == AfterSwap(old(View()), i, j).ids;
    }

    /** sort.Sort(d). */
    method Run(t: Sorter<()>)
      requires Valid() && Fits(t, data.Length)
      modifies this, data, ids
      ensures View() == Play(t, old(View())).0
    {
      var u := t;
      while !u.Done?
        invariant Fits(u, data.Length)
        invariant Play(u, View()).0 == Play(t, old(View())).0
        decreases u
      {
        match u
        case Swap(i, j, next) =>
          Swap(i, j);
          u := next;
        case Less(i, j, yes, no) =>
          var r := Less(i, j);
          u := if r then yes else no;
      }
    }
  }

  /** The values of the adversary's pattern; for len_desc larger values come first, so each
      value v becomes n - 1 - v. */
  method AdversaryValues(t: Sorter<()>, n: nat, lenDesc: bool) returns (values: array<int>)
    requires Fits(t, n)
    ensures PatternValues(values[..], Play(t, Start(n)).0, lenDesc)
  {
    var d := new PdqAdversary(n);
    d.Run(t);
    StartInv(n);
    PlayInv(t, Start(n));
    values := ReadValues(d, lenDesc);
  }

  method ReadValues(d: PdqAdversary, lenDesc: bool) returns (values: array<int>)
    requires d.Valid() && Inv(d.View())
    ensures PatternValues(values[..], d.View(), lenDesc)
  {
    var n := d.data.Length;
    ghost var s := d.View();
    values := new int[n](_ => 0);
    for pos := 0 to n
      invariant d.View() == s
      invariant forall p :: 0 <= p < pos ==> values[s.ids[p]] == Value(s, p, lenDesc)
    {
      var id := d.ids[pos];
      assert id == s.ids[pos] && d.data[pos] == s.data[pos];
      values[id] := d.data[pos];
      if lenDesc {
        values[id] := n - 1 - values[id];
      }
      assert d.View() == s;
    }
  }

  /** The value written for the element at position p. */
  function Value(s: State, p: nat, lenDesc: bool): int
    requires p < |s.data|
  {
    if lenDesc then |s.data| - 1 - s.data[p] else s.data[p]
  }

  ghost predicate PatternValues(values: seq<int>, s: State, lenDesc: bool) {
    && |values| == |s.data| == |s.ids|
    && (forall p :: 0 <= p < |s.ids| ==> s.ids[p] < |values|)
    && (forall p :: 0 <= p < |s.ids| ==>
          values[s.ids[p]] == Value(s, p, lenDesc))
  }

  // ----- the invariant of a play

  /** Every value but gas is in use once and was handed out; every freeze turned one gas element
      solid, until one was left; gas is above everything solid. */
  ghost predicate ValuesInv(m: multiset<int>, nsolid: nat, gas: int) {
    && (forall v :: v in m && v != gas ==> m[v] == 1 && 0 <= v < nsolid)
    && (m[gas] >= 2 ==> nsolid == gas + 1 - m[gas])
    && (m[gas] <= 1 ==> nsolid >= gas)
    && (gas in m ==> forall v :: v in m ==> v <= gas)
  }

  ghost predicate IdsInv(ids: seq<nat>) {
    Distinct(ids) && forall p :: 0 <= p < |ids| ==> ids[p] < |ids|
  }

  ghost predicate Inv(s: State) {
    && |s.data| == |s.ids| && s.gas == |s.data| - 1
    && IdsInv(s.ids)
    && ValuesInv(multiset(s.data), s.nsolid, s.gas)
  }

  lemma {:induction false} Constant(n: nat, v: int)
    ensures multiset(seq(n, _ => v))[v] == n
  {
    if n > 0 {
      Constant(n - 1, v);
      assert seq(n, _ => v) == seq(n - 1, _ => v) + [v];
    }
  }

  lemma StartInv(n: nat)
    ensures Inv(Start(n))
  {
    Constant(n, n - 1);
  }

  lemma TwoOccurrences(s: seq<int>, i: nat, j: nat)
    requires i < |s| && j < |s| && i != j && s[i] == s[j]
    ensures multiset(s)[s[i]] >= 2
  {
    var t := s[i := s[i] + 1];
    assert t[j] in multiset(t);
  }

  lemma FreezeInv(s: State, k: nat)
    requires Inv(s) && k < |s.data| && s.data[k] == s.gas
    ensures Inv(s.(data := s.data[k := s.nsolid], nsolid := s.nsolid + 1))
  {
    assert multiset(s.data[k := s.nsolid]) == multiset(s.data) - multiset{s.gas} + multiset{s.nsolid};
    assert s.data[k] in multiset(s.data);
  }

  lemma LessInv(s: State, i: nat, j: nat)
    requires Inv(s) && i < |s.data| && j < |s.data|
    ensures Inv(AfterLess(s, i, j))
  {
    if s.data[i] == s.gas && s.data[j] == s.gas {
      FreezeInv(s, if i == s.candidate then i else j);
    }
  }

  lemma SwapInv(s: State, i: nat, j: nat)
    requires Inv(s) && i < |s.data| && j < |s.data|
    ensures Inv(AfterSwap(s, i, j))
  {
    var f := AfterSwap(s, i, j);
    assert multiset(f.data) == multiset(s.data);
    SwapIds(s.ids, i, j);
  }

  lemma SwapIds(ids: seq<nat>, i: nat, j: nat)
    requires IdsInv(ids) && i < |ids| && j < |ids|
    ensures IdsInv(Exchanged(ids, i, j))
  {
    var e := Exchanged(ids, i, j);
    forall p, q | 0 <= p < q < |e| ensures e[p] != e[q] {
      var p' := if p == i then j else if p == j then i else p;
      var q' := if q == i then j else if q == j then i else q;
      assert e[p] == ids[p'] && e[q] == ids[q'];
    }
  }

  lemma {:induction false} PlayInv(t: Sorter<()>, s: State)
    requires Inv(s) && Fits(t, |s.data|)
    ensures Inv(Play(t, s).0)
    decreases t
  {
    match t
    case Done(_) =>
    case Swap(i, j, next) =>
      SwapInv(s, i, j);
      PlayInv(next, AfterSwap(s, i, j));
    case Less(i, j, yes, no) =>
      LessInv(s, i, j);
      var f := AfterLess(s, i, j);
      PlayInv(if f.data[i] < f.data[j] then yes else no, f);
  }

  // ----- the answers agree with the values the elements end with

  /** The value each element, by original index, is left with. */
  ghost predicate Holds(values: seq<int>, s: State) {
    && |values| == |s.data| == |s.ids|
    && forall p :: 0 <= p < |s.ids| ==> s.ids[p] < |values| && values[s.ids[p]] == s.data[p]
  }

  /** What a state already says about the final values. */
  ghost predicate Foresees(s: State, values: seq<int>) {
    && |values| == |s.data| == |s.ids|
    && forall p :: 0 <= p < |s.ids| ==>
         && s.ids[p] < |values|
         && var v := values[s.ids[p]];
         if s.data[p] != s.gas then v == s.data[p] else v == s.gas || v >= s.nsolid
  }

  lemma SwapForesees(s: State, i: nat, j: nat, values: seq<int>)
    requires |s.data| == |s.ids| && i < |s.data| && j < |s.data|
    requires Foresees(AfterSwap(s, i, j), values)
    ensures Foresees(s, values)
  {
    var f := AfterSwap(s, i, j);
    forall p | 0 <= p < |s.ids| ensures s.ids[p] < |values|
    {
      var q := if p == i then j else if p == j then i else p;
      assert f.ids[q] == s.ids[p] && f.data[q] == s.data[p];
    }
    forall p | 0 <= p < |s.ids|
      ensures var v := values[s.ids[p]];
              if s.data[p] != s.gas then v == s.data[p] else v == s.gas || v >= s.nsolid
    {
      var q := if p == i then j else if p == j then i else p;
      assert f.ids[q] == s.ids[p] && f.data[q] == s.data[p];
    }
  }

  lemma LessForesees(s: State, i: nat, j: nat, values: seq<int>)
    requires |s.data| == |s.ids| && i < |s.data| && j < |s.data|
    requires Foresees(AfterLess(s, i, j), values)
    ensures Foresees(s, values)
  {
    assert AfterLess(s, i, j).ids == s.ids;
  }

  lemma {:induction false} Settles(t: Sorter<()>, s: State, values: seq<int>)
    requires Inv(s) && Fits(t, |s.data|) && Holds(values, Play(t, s).0)
    ensures Foresees(s, values)
    decreases t
  {
    match t
    case Done(_) =>
    case Swap(i, j, next) =>
      SwapInv(s, i, j);
      Settles(next, AfterSwap(s, i, j), values);
      SwapForesees(s, i, j, values);
    case Less(i, j, yes, no) =>
      LessInv(s, i, j);
      var f := AfterLess(s, i, j);
      Settles(if f.data[i] < f.data[j] then yes else no, f, values);
      LessForesees(s, i, j, values);
  }

  /** An answer is the order of the two final values, which differ unless the elements are one. */
  predicate Agrees(r: Answer, values: seq<int>) {
    && r.a < |values| && r.b < |values|
    && r.less == (values[r.a] < values[r.b])
    && (r.a != r.b ==> values[r.a] != values[r.b])
  }

  lemma AnswerAgrees(s: State, i: nat, j: nat, values: seq<int>)
    requires Inv(s) && i < |s.data| && j < |s.data|
    requires Foresees(AfterLess(s, i, j), values)
    ensures var f := AfterLess(s, i, j);
            Agrees(Answer(s.ids[i], s.ids[j], f.data[i] < f.data[j]), values)
  {
    LessInv(s, i, j);
    var f := AfterLess(s, i, j);
    assert f.data[i] in multiset(f.data) && f.data[j] in multiset(f.data);
    if i != j {
      if s.data[i] == s.gas && s.data[j] == s.gas {
        TwoOccurrences(s.data, i, j);
      }
      if f.data[i] == f.data[j] {
        TwoOccurrences(f.data, i, j);
      }
    }
  }

  lemma {:induction false} AnswersAgree(t: Sorter<()>, s: State, values: seq<int>)
    requires Inv(s) && Fits(t, |s.data|) && Holds(values, Play(t, s).0)
    ensures forall r :: r in Play(t, s).1 ==> Agrees(r, values)
    decreases t
  {
    match t
    case Done(_) =>
    case Swap(i, j, next) =>
      SwapInv(s, i, j);
      AnswersAgree(next, AfterSwap(s, i, j), values);
    case Less(i, j, yes, no) =>
      LessInv(s, i, j);
      var f := AfterLess(s, i, j);
      var rest := if f.data[i] < f.data[j] then yes else no;
      Settles(rest, f, values);
      AnswerAgrees(s, i, j, values);
      AnswersAgree(rest, f, values);
  }

  // ----- replay

  /** A comparator that orders elements with different values by value, and is irreflexive. */
  ghost predicate OrdersBy<E>(els: seq<E>, id: E -> nat, less: (E, E) -> bool, values: seq<int>) {
    && |els| == |values|
    && (forall a :: 0 <= a < |els| ==> id(els[a]) == a && !less(els[a], els[a]))
    && (forall a, b :: 0 <= a < |els| && 0 <= b < |els| && values[a] != values[b] ==>
          less(els[a], els[b]) == (values[a] < values[b]))
  }

  ghost predicate Arranged<E>(now: seq<E>, els: seq<E>, ids: seq<nat>) {
    && |now| == |ids|
    && forall p :: 0 <= p < |ids| ==> ids[p] < |els| && now[p] == els[ids[p]]
  }

  lemma {:induction false} ReplayFrom<E>(t: Sorter<()>, s: State, now: seq<E>, els: seq<E>, id: E -> nat,
                                         less: (E, E) -> bool, values: seq<int>)
    requires Inv(s) && Fits(t, |s.data|) && |s.data| == |values|
    requires OrdersBy(els, id, less, values) && Arranged(now, els, s.ids)
    requires forall r :: r in Play(t, s).1 ==> Agrees(r, values)
    ensures Sort(t, now, id, less).1 == Play(t, s).1
    ensures Arranged(Sort(t, now, id, less).0, els, Play(t, s).0.ids)
    decreases t
  {
    match t
    case Done(_) =>
    case Swap(i, j, next) =>
      SwapInv(s, i, j);
      ReplayFrom(next, AfterSwap(s, i, j), Exchanged(now, i, j), els, id, less, values);
    case Less(i, j, yes, no) =>
      LessInv(s, i, j);
      var f := AfterLess(s, i, j);
      var r := Answer(s.ids[i], s.ids[j], f.data[i] < f.data[j]);
      assert Play(t, s).1[0] == r;
      assert Agrees(r, values);
      assert less(now[i], now[j]) == r.less;
      var rest := if r.less then yes else no;
      assert Play(t, s).1[1..] == Play(rest, f).1;
      ReplayFrom(rest, f, now, els, id, less, values);
  }

  /** Sorting the frozen values as a fixed input repeats every comparison and its answer, and ends
      with the same permutation; no two different elements with equal values are ever compared, so
      how the comparator breaks ties does not matter. */
  lemma Replay<E>(t: Sorter<()>, n: nat, values: seq<int>, els: seq<E>, id: E -> nat, less: (E, E) -> bool)
    requires Fits(t, n) && |values| == n && Holds(values, Play(t, Start(n)).0)
    requires OrdersBy(els, id, less, values)
    ensures Sort(t, els, id, less).1 == Play(t, Start(n)).1
    ensures Arranged(Sort(t, els, id, less).0, els, Play(t, Start(n)).0.ids)
    ensures forall r :: r in Play(t, Start(n)).1 && r.a != r.b ==>
              r.a < n && r.b < n && values[r.a] != values[r.b]
  {
    StartInv(n);
    PlayInv(t, Start(n));
    AnswersAgree(t, Start(n), values);
    ReplayFrom(t, Start(n), els, els, id, less, values);
  }

  // ----- the two comparators of the sort cases

  datatype Elem = Elem(x: Word, len: Word, id: nat)

  function Id(e: Elem): nat {
    e.id
  }

  /** len_desc, or x_asc_len_desc. */
  predicate CaseLess(lenDesc: bool, a: Elem, b: Elem) {
    if lenDesc then a.len > b.len
    else if a.x != b.x then a.x < b.x
    else a.len > b.len
  }

  function ByCase(lenDesc: bool): (Elem, Elem) -> bool {
    (a, b) => CaseLess(lenDesc, a, b)
  }

  /** The elements of an adversary case: the values go to len or to x, and with x the len fields
      are whatever the generator drew. */
  predicate CaseElements(els: seq<Elem>, values: seq<int>, lenDesc: bool) {
    && |els| == |values|
    && forall i :: 0 <= i < |els| ==>
         && els[i].id == i
         && (if lenDesc then els[i].len else els[i].x) == values[i] % TWO64
  }

  /** All values are at most gas, and those below nsolid, which is no more than gas, are all in use. */
  ghost predicate Dense(s: State) {
    && (forall p :: 0 <= p < |s.data| ==> 0 <= s.data[p] <= s.gas)
    && (s.nsolid == 0 || s.nsolid <= s.gas)
    && forall v :: 0 <= v < s.nsolid ==> v in s.data
  }

  lemma LessDense(s: State, i: nat, j: nat)
    requires Inv(s) && Dense(s) && InBounds(s, i, j) && i != j
    ensures var f := AfterLess(s, i, j);
            Dense(f) && f.gas == s.gas && |f.data| == |s.data|
  {
    if s.data[i] == s.gas && s.data[j] == s.gas {
      TwoOccurrences(s.data, i, j);
      var k := if i == s.candidate then i else j;
      var f := AfterLess(s, i, j);
      forall v | 0 <= v < f.nsolid ensures v in f.data {
        if v == s.nsolid {
          assert f.data[k] == v;
        } else {
          assert v in s.data;
          var p :| 0 <= p < |s.data| && s.data[p] == v;
          assert f.data[p] == v;
        }
      }
    }
  }

  lemma SwapDense(s: State, i: nat, j: nat)
    requires Dense(s) && InBounds(s, i, j)
    ensures Dense(AfterSwap(s, i, j))
  {
    var f := AfterSwap(s, i, j);
    forall v | v in s.data ensures v in f.data {
      var p :| 0 <= p < |s.data| && s.data[p] == v;
      assert f.data[if p == i then j else if p == j then i else p] == v;
    }
  }

  lemma {:induction false} ValuesInRange(t: Sorter<()>, s: State)
    requires Inv(s) && Fits(t, |s.data|) && NoSelfCompare(t) && Dense(s)
    ensures var f := Play(t, s).0;
            |f.data| == |s.data| && f.gas == s.gas && Dense(f)
    decreases t
  {
    match t
    case Done(_) =>
    case Swap(i, j, next) =>
      SwapInv(s, i, j);
      SwapDense(s, i, j);
      ValuesInRange(next, AfterSwap(s, i, j));
    case Less(i, j, yes, no) =>
      LessInv(s, i, j);
      LessDense(s, i, j);
      var f := AfterLess(s, i, j);
      ValuesInRange(if f.data[i] < f.data[j] then yes else no, f);
  }

  /** Sorting an adversary case makes the adversary's comparisons, gets its answers and ends with
      its permutation, under either comparator. */
  lemma CaseRepeatsAdversary(t: Sorter<()>, n: nat, values: seq<int>, els: seq<Elem>, lenDesc: bool)
    requires n < TWO64 && Fits(t, n) && NoSelfCompare(t)
    requires PatternValues(values, Play(t, Start(n)).0, lenDesc) && |values| == n
    requires CaseElements(els, values, lenDesc)
    ensures var sorted := Sort(t, els, Id, ByCase(lenDesc));
            var played := Play(t, Start(n));
            && sorted.1 == played.1
            && |sorted.0| == |played.0.ids|
            && forall p :: 0 <= p < |sorted.0| ==> sorted.0[p].id == played.0.ids[p]
  {
    var s := Play(t, Start(n)).0;
    StartInv(n);
    PlayInv(t, Start(n));
    ValuesInRange(t, Start(n));
    var frozen := Unflip(values, lenDesc);
    PatternHolds(values, s, lenDesc);
    CaseOrders(values, els, lenDesc);
    Replay(t, n, frozen, els, Id, ByCase(lenDesc));
  }

  ghost function Unflip(values: seq<int>, lenDesc: bool): seq<int> {
    if lenDesc then seq(|values|, i requires 0 <= i < |values| => |values| - 1 - values[i]) else values
  }

  lemma PatternHolds(values: seq<int>, s: State, lenDesc: bool)
    requires IdsInv(s.ids) && PatternValues(values, s, lenDesc)
    requires forall p :: 0 <= p < |s.data| ==> 0 <= s.data[p] < |s.data|
    ensures Holds(Unflip(values, lenDesc), s)
    ensures forall i :: 0 <= i < |values| ==> 0 <= values[i] < |values|
  {
    IdsCover(s.ids);
    forall i | 0 <= i < |values| ensures 0 <= values[i] < |values| {
      assert i in s.ids;
      var p :| 0 <= p < |s.ids| && s.ids[p] == i;
      assert values[s.ids[p]] == Value(s, p, lenDesc);
    }
  }

  lemma CaseOrders(values: seq<int>, els: seq<Elem>, lenDesc: bool)
    requires |values| <= TWO64 && forall i :: 0 <= i < |values| ==> 0 <= values[i] < |values|
    requires CaseElements(els, values, lenDesc)
    ensures OrdersBy(els, Id, ByCase(lenDesc), Unflip(values, lenDesc))
  {
    forall i | 0 <= i < |els|
      ensures (if lenDesc then els[i].len else els[i].x) == values[i]
    {
      assert values[i] % TWO64 == values[i];
    }
  }

  /** An injective list of positions below its length names every position. */
  lemma IdsCover(ids: seq<nat>)
    requires IdsInv(ids)
    ensures forall i :: 0 <= i < |ids| ==> i in ids
  {
    DistinctMembers(ids);
    SubsetOfSameSize(Members(ids), Below(|ids|));
    forall i | 0 <= i < |ids| ensures i in ids {
      assert i in Below(|ids|);
    }
  }
}
