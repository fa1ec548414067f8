/** The fetch scheduler: keys wait in one accumulator per node, and each call of PickBatch hands a
    batch of one accumulator to a worker. Go's int is written out: a key's length field above 2^63
    gives a negative estimate, and sums wrap. */
module Fetch {
  import opened Words
  import opened Collections
  import opened Nodes

  const GET_BATCH_KEYS := 2048
  const GET_BATCH_BYTES := 0x80_0000
  const GET_EST_MAX := 0x1_0000
  const REC_HEADER_SIZE := 46

  /** A key, opaque but for its length field. */
  datatype Key = Key(id: nat, length: Word)

  datatype FetchKey = FetchKey(key: Key, attempt: int)

  type Keys = seq<FetchKey>

  datatype Acc = Acc(keys: Keys, bytes: int)

  type Accs = map<NodeId, Acc>

  datatype Job = Job(node: NodeId, keys: Keys)

  datatype Picked = Picked(job: Job, left: Accs)

  function EstSize(k: Key): int {
    var length := WrapInt(k.length);
    REC_HEADER_SIZE + if length < GET_EST_MAX then length else GET_EST_MAX
  }

  predicate IsFull(a: Acc) {
    |a.keys| >= GET_BATCH_KEYS || a.bytes >= GET_BATCH_BYTES
  }

  /** The node the loop over the map settles on, in the given iteration order. */
  function Choose(acc: Accs, order: seq<NodeId>, best: Option<NodeId>): (c: Option<NodeId>)
    requires forall id :: id in order ==> id in acc
    requires best.Some? ==> best.value in acc
    ensures c.Some? ==> c.value in acc
  {
    if order == [] then best
    else
      var a := acc[order[0]];
      if IsFull(a) then Some(order[0])
      else if best.None? || |a.keys| > |acc[best.value].keys| then Choose(acc, order[1..], Some(order[0]))
      else Choose(acc, order[1..], best)
  }

  /** How many keys the batch takes once it has n keys of (wrapped) bytes bytes. */
  function TakeCount(keys: Keys, n: nat, bytes: int): (c: nat)
    requires n <= |keys|
    ensures n <= c <= |keys|
    decreases |keys| - n
  {
    if n < |keys| && n < GET_BATCH_KEYS && (n == 0 || WrapInt(bytes + EstSize(keys[n].key)) <= GET_BATCH_BYTES)
    then TakeCount(keys, n + 1, WrapInt(bytes + EstSize(keys[n].key)))
    else n
  }

  /** The exact sum of the estimates. */
  function Estimate(keys: Keys): int {
    if keys == [] then 0 else Estimate(keys[..|keys| - 1]) + EstSize(keys[|keys| - 1].key)
  }

  /** Removes the batch from the accumulator of node, which goes when it is empty. */
  function TakeFrom(acc: Accs, node: NodeId): Picked
    requires node in acc
  {
    var n := TakeCount(acc[node].keys, 0, 0);
    Picked(Job(node, acc[node].keys[..n]), Left(acc, node, Rest(acc[node], n)))
  }

  /** The accumulator without its first n keys. */
  function Rest(a: Acc, n: nat): Acc
    requires n <= |a.keys|
  {
    Acc(a.keys[n..], WrapInt(a.bytes - WrapInt(Estimate(a.keys[..n]))))
  }

  function Left(acc: Accs, node: NodeId, rest: Acc): Accs {
    if rest.keys == [] then acc - {node} else acc[node := rest]
  }

  function PickBatch(acc: Accs, order: seq<NodeId>): Option<Picked>
    requires forall id :: id in order ==> id in acc
  {
    match Choose(acc, order, None)
    case None => None
    case Some(node) => Some(TakeFrom(acc, node))
  }

  class Accumulators {
    var acc: Accs

    constructor (acc: Accs)
      ensures this.acc == acc
    {
      this.acc := acc;
    }

    /** pickBatch, with the iteration order of the map made explicit. */
    method Pick(order: seq<NodeId>) returns (job: Option<Job>)
      requires Enumerates(order, acc.Keys)
      modifies this
      ensures match PickBatch(old(acc), order)
              case None => job == None && acc == old(acc)
              case Some(p) => job == Some(p.job) && acc == p.left
    {
      var best := Best(order);
      if best == None {
        return None;
      }
      var a := acc[best.value];
      var n, bytes := Front(a.keys);
      job := Some(Job(best.value, a.keys[..n]));
      a := Acc(a.keys[n..], WrapInt(a.bytes - bytes));
      assert acc[best.value := a] - {best.value} == acc - {best.value};
      acc := acc[best.value := a];
      if |a.keys| == 0 {
        acc := acc - {best.value};
      }
    }

    /** Its loop over the map. */
    method Best(order: seq<NodeId>) returns (best: Option<NodeId>)
      requires Enumerates(order, acc.Keys)
      ensures best == Choose(acc, order, None)
    {
      best := None;
      for i := 0 to |order|
        invariant best.Some? ==> best.value in acc
        invariant Choose(acc, order, None) == Choose(acc, order[i..], best)
      {
        var id := order[i];
        var a := acc[id];
        assert order[i..][1..] == order[i + 1..];
        if |a.keys| >= GET_BATCH_KEYS || a.bytes >= GET_BATCH_BYTES {
          return Some(id);
        }
        if best == None || |a.keys| > |acc[best.value].keys| {
          best := Some(id);
        }
      }
    }

    /** Its loop over the keys. */
    static method Front(keys: Keys) returns (n: nat, bytes: int)
      ensures n == TakeCount(keys, 0, 0)
      ensures bytes == WrapInt(Estimate(keys[..n]))
    {
      n, bytes := 0, 0;
      while n < |keys| && n < GET_BATCH_KEYS && (n == 0 || WrapInt(bytes + EstSize(keys[n].key)) <= GET_BATCH_BYTES)
        invariant n <= |keys|
        invariant bytes == WrapInt(Estimate(keys[..n]))
        invariant TakeCount(keys, 0, 0) == TakeCount(keys, n, bytes)
      {
        EstimateNext(keys, n);
        WrapIntAdd(Estimate(keys[..n]), EstSize(keys[n].key));
        bytes := WrapInt(bytes + EstSize(keys[n].key));
        n := n + 1;
      }
    }
  }

  lemma EstimateNext(keys: Keys, n: nat)
    requires n < |keys|
    ensures Estimate(keys[..n + 1]) == Estimate(keys[..n]) + EstSize(keys[n].key)
  {
    assert keys[..n + 1][..n] == keys[..n];
  }

  // ----- which accumulator is picked

  /** The pick of every iteration order: a full accumulator if there is one, else a longest one. */
  ghost predicate GoodPick(acc: Accs, node: NodeId) {
    && node in acc
    && (IsFull(acc[node]) ||
        forall id :: id in acc ==> !IsFull(acc[id]) && |acc[id].keys| <= |acc[node].keys|)
  }

  lemma {:induction false} ChooseIsGood(acc: Accs, order: seq<NodeId>, best: Option<NodeId>, passed: set<NodeId>)
    requires forall id :: id in order ==> id in acc
    requires best.Some? ==> best.value in passed
    requires best.None? ==> passed == {}
    requires passed <= acc.Keys
    requires forall id :: id in passed ==> !IsFull(acc[id]) && |acc[id].keys| <= |acc[best.value].keys|
    requires forall id :: id in acc ==> id in order || id in passed
    ensures Choose(acc, order, best).None? <==> acc == map[]
    ensures Choose(acc, order, best).Some? ==> GoodPick(acc, Choose(acc, order, best).value)
    decreases order
  {
    if order == [] {
      if best.None? {
        assert acc.Keys == {};
      }
    } else {
      var id := order[0];
      assert id in acc;
      assert forall x :: x in acc && x !in passed + {id} ==> x in order[1..];
      if !IsFull(acc[id]) {
        if best.None? || |acc[id].keys| > |acc[best.value].keys| {
          ChooseIsGood(acc, order[1..], Some(id), passed + {id});
        } else {
          ChooseIsGood(acc, order[1..], best, passed + {id});
        }
      }
    }
  }

  /** pickBatch picks for every order, and only an empty map gives no job. */
  lemma PickIsGood(acc: Accs, order: seq<NodeId>)
    requires Enumerates(order, acc.Keys)
    ensures PickBatch(acc, order).None? <==> acc == map[]
    ensures PickBatch(acc, order).Some? ==> GoodPick(acc, PickBatch(acc, order).value.job.node)
  {
    ChooseIsGood(acc, order, None, {});
  }

  ghost predicate OnePossiblePick(acc: Accs) {
    forall a, b :: GoodPick(acc, a) && GoodPick(acc, b) ==> a == b
  }

  ghost function FullOnes(acc: Accs, ids: seq<NodeId>): set<NodeId> {
    set id | id in ids && id in acc && IsFull(acc[id])
  }

  ghost function Longest(acc: Accs, ids: seq<NodeId>, most: int): set<NodeId> {
    set id | id in ids && id in acc && |acc[id].keys| == most
  }

  /** The check of the pick scenarios: at most one full accumulator and, when none is full, one
      accumulator with the most keys. */
  method CheckOnePick(acc: Accs, order: seq<NodeId>) returns (ok: bool)
    requires Enumerates(order, acc.Keys)
    ensures ok <==> OnePossiblePick(acc)
  {
    var full, most, mostCount := 0, -1, 0;
    for i := 0 to |order|
      invariant Counted(acc, order[..i], full, most, mostCount)
    {
      NewKey(order, acc.Keys, i);
      full, most, mostCount := CountOne(acc, order[i], full, most, mostCount, order[..i]);
    }
    assert order[..|order|] == order;
    ok := !(full > 1 || (full == 0 && mostCount > 1));
    CountsDecide(acc, order, full, most, mostCount);
  }

  lemma CountsDecide(acc: Accs, order: seq<NodeId>, full: int, most: int, mostCount: int)
    requires Enumerates(order, acc.Keys) && Counted(acc, order, full, most, mostCount)
    ensures OnePossiblePick(acc) <==> !(full > 1 || (full == 0 && mostCount > 1))
  {
    PicksAreCounted(acc, order, most);
  }

  /** The body of its loop. */
  method CountOne(acc: Accs, id: NodeId, full: int, most: int, mostCount: int, ghost ids: seq<NodeId>)
    returns (full': int, most': int, mostCount': int)
    requires Counted(acc, ids, full, most, mostCount) && id in acc && id !in ids
    ensures Counted(acc, ids + [id], full', most', mostCount')
  {
    var a := acc[id];
    full', most', mostCount' := full, most, mostCount;
    CountNext(acc, ids, id, full, most, mostCount);
    if |a.keys| >= GET_BATCH_KEYS || a.bytes >= GET_BATCH_BYTES {
      full' := full + 1;
    }
    if |a.keys| > most {
      most', mostCount' := |a.keys|, 1;
    } else if |a.keys| == most {
      mostCount' := mostCount + 1;
    }
  }

  ghost predicate Counted(acc: Accs, ids: seq<NodeId>, full: int, most: int, mostCount: int) {
    && full == |FullOnes(acc, ids)|
    && mostCount == |Longest(acc, ids, most)|
    && (forall id :: id in ids ==> id in acc && |acc[id].keys| <= most)
    && (if ids == [] then most == -1 else Longest(acc, ids, most) != {})
  }

  lemma CountNext(acc: Accs, ids: seq<NodeId>, id: NodeId, full: int, most: int, mostCount: int)
    requires Counted(acc, ids, full, most, mostCount) && id in acc && id !in ids
    ensures var n := |acc[id].keys|;
            var full' := if IsFull(acc[id]) then full + 1 else full;
            if n > most then Counted(acc, ids + [id], full', n, 1)
            else if n == most then Counted(acc, ids + [id], full', most, mostCount + 1)
            else Counted(acc, ids + [id], full', most, mostCount)
  {
    var n := |acc[id].keys|;
    FullNext(acc, ids, id);
    if n > most {
      LongestAnew(acc, ids, id, n);
    } else {
      LongestNext(acc, ids, id, most);
    }
  }

  /** A key count above all before. */
  lemma LongestAnew(acc: Accs, ids: seq<NodeId>, id: NodeId, n: int)
    requires id in acc && id !in ids && n == |acc[id].keys|
    requires forall o :: o in ids ==> o in acc && |acc[o].keys| < n
    ensures Longest(acc, ids + [id], n) == {id}
  {
    LongestNext(acc, ids, id, n);
    assert Longest(acc, ids, n) == {};
  }

  lemma FullNext(acc: Accs, ids: seq<NodeId>, id: NodeId)
    requires id in acc && id !in ids
    ensures var fulls := FullOnes(acc, ids);
            FullOnes(acc, ids + [id]) == if IsFull(acc[id]) then fulls + {id} else fulls
  {
  }

  lemma LongestNext(acc: Accs, ids: seq<NodeId>, id: NodeId, most: int)
    requires id in acc && id !in ids
    ensures var longest := Longest(acc, ids, most);
            Longest(acc, ids + [id], most) == if |acc[id].keys| == most then longest + {id} else longest
  {
  }

  lemma PicksAreCounted(acc: Accs, order: seq<NodeId>, most: int)
    requires Enumerates(order, acc.Keys)
    requires forall id :: id in acc ==> |acc[id].keys| <= most
    requires acc != map[] ==> Longest(acc, order, most) != {}
    ensures var fulls := FullOnes(acc, order);
            OnePossiblePick(acc) <==> if fulls != {} then |fulls| <= 1 else |Longest(acc, order, most)| <= 1
  {
    var fulls, longest := FullOnes(acc, order), Longest(acc, order, most);
    assert forall id :: id in acc ==> id in order;
    if fulls != {} {
      assert forall id :: GoodPick(acc, id) <==> id in fulls by {
        var f :| f in fulls;
      }
      AtMostOne(fulls);
    } else {
      forall id ensures GoodPick(acc, id) <==> id in longest {
        if id in acc {
          assert id !in fulls;
          if GoodPick(acc, id) {
            var l :| l in longest;
          }
        }
        assert forall x :: x in acc ==> x !in fulls;
      }
      AtMostOne(longest);
    }
  }

  lemma AtMostOne(s: set<NodeId>)
    ensures |s| <= 1 <==> forall a, b :: a in s && b in s ==> a == b
  {
    if s != {} {
      var a :| a in s;
      assert s == {a} + (s - {a});
      if |s| > 1 {
        var b :| b in s - {a};
      }
    }
  }

  lemma {:induction false} ChooseKeeps(acc: Accs, order: seq<NodeId>, best: NodeId)
    requires forall id :: id in order ==> id in acc
    requires best in acc && forall id :: id in acc ==> !IsFull(acc[id]) && |acc[id].keys| <= |acc[best].keys|
    ensures Choose(acc, order, Some(best)) == Some(best)
  {
    if order != [] {
      ChooseKeeps(acc, order[1..], best);
    }
  }

  /** Any good pick is made by some order. */
  lemma EveryGoodPickHappens(acc: Accs, node: NodeId) returns (order: seq<NodeId>)
    requires GoodPick(acc, node)
    ensures Enumerates(order, acc.Keys) && Choose(acc, order, None) == Some(node)
  {
    order := OrderFrom(acc.Keys, node);
    if !IsFull(acc[node]) {
      ChooseKeeps(acc, order[1..], node);
    }
  }

  /** The job and the map left behind are the same for every iteration order exactly when the
      scenario check passes, that is, when there is one possible pick. */
  lemma OrderIndependence(acc: Accs)
    ensures OnePossiblePick(acc) <==>
            forall o, p :: Enumerates(o, acc.Keys) && Enumerates(p, acc.Keys) ==> PickBatch(acc, o) == PickBatch(acc, p)
  {
    if OnePossiblePick(acc) {
      forall o, p | Enumerates(o, acc.Keys) && Enumerates(p, acc.Keys)
        ensures PickBatch(acc, o) == PickBatch(acc, p)
      {
        PickIsGood(acc, o);
        PickIsGood(acc, p);
      }
    } else {
      var a, b :| GoodPick(acc, a) && GoodPick(acc, b) && a != b;
      var o := EveryGoodPickHappens(acc, a);
      var p := EveryGoodPickHappens(acc, b);
      assert PickBatch(acc, o).value.job.node == a && PickBatch(acc, p).value.job.node == b;
    }
  }

  // ----- what a batch holds

  /** The key limit, the byte limit, and no room for the next key. */
  ghost predicate GoodBatch(keys: Keys, n: nat) {
    && 1 <= n <= |keys| && n <= GET_BATCH_KEYS
    && WrapInt(Estimate(keys[..n])) <= GET_BATCH_BYTES
    && (n < |keys| ==> n == GET_BATCH_KEYS || WrapInt(Estimate(keys[..n + 1])) > GET_BATCH_BYTES)
  }

  lemma {:induction false} TakeIsGood(keys: Keys, n: nat, bytes: int)
    requires n <= |keys| && n <= GET_BATCH_KEYS && keys != []
    requires bytes == WrapInt(Estimate(keys[..n]))
    requires bytes <= GET_BATCH_BYTES
    ensures GoodBatch(keys, TakeCount(keys, n, bytes))
    decreases |keys| - n
  {
    if n < |keys| {
      var sum := WrapInt(bytes + EstSize(keys[n].key));
      TakeOne(keys, n, bytes, sum);
      if n < GET_BATCH_KEYS && (n == 0 || sum <= GET_BATCH_BYTES) {
        TakeIsGood(keys, n + 1, sum);
      }
    }
  }

  /** One key more; the first always fits. */
  lemma TakeOne(keys: Keys, n: nat, bytes: int, sum: int)
    requires n < |keys| && bytes == WrapInt(Estimate(keys[..n])) && sum == WrapInt(bytes + EstSize(keys[n].key))
    ensures sum == WrapInt(Estimate(keys[..n + 1])) && (n == 0 ==> sum <= GET_BATCH_BYTES)
  {
    EstimateNext(keys, n);
    WrapIntAdd(Estimate(keys[..n]), EstSize(keys[n].key));
    if n == 0 {
      EstBounds(keys[0].key);
    }
  }

  lemma EstBounds(k: Key)
    ensures -0x8000_0000_0000_0000 <= EstSize(k) <= REC_HEADER_SIZE + GET_EST_MAX
    ensures k.length < 0x8000_0000_0000_0000 ==> REC_HEADER_SIZE <= EstSize(k)
  {
    WrapIntShift(k.length);
  }

  /** Estimates are small, so a sum of few of them can leave the range of an int only at the bottom. */
  lemma {:induction false} EstimateAtMost(keys: Keys)
    ensures Estimate(keys) <= (REC_HEADER_SIZE + GET_EST_MAX) * |keys|
  {
    if keys != [] {
      EstimateAtMost(keys[..|keys| - 1]);
      EstBounds(keys[|keys| - 1].key);
    }
  }

  lemma EstimateWraps(keys: Keys)
    requires |keys| <= GET_BATCH_KEYS + 1
    ensures Estimate(keys) <= GET_BATCH_BYTES <==>
            WrapInt(Estimate(keys)) <= GET_BATCH_BYTES || Estimate(keys) < MIN_INT
    ensures Estimate(keys) >= MIN_INT ==> WrapInt(Estimate(keys)) == Estimate(keys)
  {
    EstimateAtMost(keys);
  }

  lemma {:induction false} SmallNotNegative(keys: Keys)
    requires Small(keys)
    ensures Estimate(keys) >= 0
  {
    if keys != [] {
      assert keys[|keys| - 1] in keys;
      SmallNotNegative(keys[..|keys| - 1]);
      EstBounds(keys[|keys| - 1].key);
    }
  }

  // ----- whole runs

  /** Keys wait, and bytes is their (wrapped) estimate. */
  ghost predicate Right(a: Acc) {
    a.keys != [] && a.bytes == WrapInt(Estimate(a.keys))
  }

  ghost predicate Valid(acc: Accs) {
    forall id :: id in acc ==> Right(acc[id])
  }

  function Waiting(acc: Accs, node: NodeId): Keys {
    if node in acc then acc[node].keys else []
  }

  lemma {:induction false} EstimateSplit(a: Keys, b: Keys)
    ensures Estimate(a + b) == Estimate(a) + Estimate(b)
  {
    if b == [] {
      assert a + b == a;
    } else {
      EstimateSplit(a, b[..|b| - 1]);
      assert (a + b)[..|a + b| - 1] == a + b[..|b| - 1];
    }
  }

  /** One job: the front of one node's keys, and everything else untouched. */
  lemma TakeStep(acc: Accs, node: NodeId)
    requires Valid(acc) && node in acc
    ensures var p := TakeFrom(acc, node);
            && Valid(p.left)
            && GoodBatch(acc[node].keys, |p.job.keys|)
            && acc[node].keys == p.job.keys + Waiting(p.left, node)
            && forall id :: id != node ==> Waiting(p.left, id) == Waiting(acc, id) && (id in p.left <==> id in acc)
  {
    var a := acc[node];
    var n := TakeCount(a.keys, 0, 0);
    FirstTake(a.keys);
    RestIsRight(a, n);
    LeftIsValid(acc, node, Rest(a, n));
  }

  lemma FirstTake(keys: Keys)
    requires keys != []
    ensures GoodBatch(keys, TakeCount(keys, 0, 0))
  {
    assert keys[..0] == [];
    TakeIsGood(keys, 0, 0);
  }

  lemma RestIsRight(a: Acc, n: nat)
    requires Right(a) && n <= |a.keys|
    ensures (Rest(a, n).keys != [] ==> Right(Rest(a, n))) && a.keys == a.keys[..n] + Rest(a, n).keys
  {
    assert a.keys == a.keys[..n] + a.keys[n..];
    EstimateSplit(a.keys[..n], a.keys[n..]);
    WrapIntSubtract(Estimate(a.keys), Estimate(a.keys[..n]));
  }

  lemma LeftIsValid(acc: Accs, node: NodeId, rest: Acc)
    requires Valid(acc) && node in acc && (rest.keys != [] ==> Right(rest))
    ensures Valid(Left(acc, node, rest)) && Waiting(Left(acc, node, rest), node) == rest.keys
    ensures forall id :: id != node ==>
              Waiting(Left(acc, node, rest), id) == Waiting(acc, id) && (id in Left(acc, node, rest) <==> id in acc)
  {
  }

  /** jobs is what a run of pickBatch hands out, each call with an iteration order of its own. */
  ghost predicate Run(acc: Accs, jobs: seq<Job>, final: Accs)
    decreases |jobs|
  {
    if jobs == [] then acc == final
    else exists order :: Enumerates(order, acc.Keys) && Hands(acc, order, jobs[0]) &&
                         Run(PickBatch(acc, order).value.left, jobs[1..], final)
  }

  ghost predicate Hands(acc: Accs, order: seq<NodeId>, job: Job)
    requires Enumerates(order, acc.Keys)
  {
    PickBatch(acc, order).Some? && PickBatch(acc, order).value.job == job
  }

  /** The keys a node was handed, in order. */
  function Handed(jobs: seq<Job>, node: NodeId): Keys {
    if jobs == [] then []
    else (if jobs[0].node == node then jobs[0].keys else []) + Handed(jobs[1..], node)
  }

  ghost function KeyCount(acc: Accs): int {
    Sum(Counts(acc))
  }

  lemma TakeCounts(acc: Accs, node: NodeId)
    requires Valid(acc) && node in acc
    ensures KeyCount(TakeFrom(acc, node).left) == KeyCount(acc) - |TakeFrom(acc, node).job.keys|
  {
    TakeStep(acc, node);
    var p := TakeFrom(acc, node);
    assert |acc[node].keys| == |p.job.keys| + |Waiting(p.left, node)|;
    CountsChange(acc, p.left, node);
  }

  ghost function Counts(acc: Accs): map<NodeId, int> {
    map id | id in acc :: |acc[id].keys|
  }

  lemma CountsChange(acc: Accs, left: Accs, node: NodeId)
    requires node in acc
    requires forall id :: id != node ==> Waiting(left, id) == Waiting(acc, id) && (id in left <==> id in acc)
    ensures KeyCount(left) == KeyCount(acc) - |acc[node].keys| + |Waiting(left, node)|
  {
    if node in left {
      SumUpdate(Counts(acc), node, |Waiting(left, node)|);
      assert Counts(left) == Counts(acc)[node := |Waiting(left, node)|];
    } else {
      SumRemove(Counts(acc), node);
      assert Counts(left) == Counts(acc) - {node};
    }
  }

  /** The first call of a run. */
  lemma RunStep(acc: Accs, jobs: seq<Job>, final: Accs) returns (next: Accs)
    requires Valid(acc) && Run(acc, jobs, final) && jobs != []
    ensures jobs[0].node in acc && TakeFrom(acc, jobs[0].node) == Picked(jobs[0], next)
    ensures Run(next, jobs[1..], final)
  {
    var order, p := RunHead(acc, jobs, final);
    next := p.left;
  }

  lemma RunHead(acc: Accs, jobs: seq<Job>, final: Accs) returns (order: seq<NodeId>, p: Picked)
    requires Run(acc, jobs, final) && jobs != []
    ensures Enumerates(order, acc.Keys) && PickBatch(acc, order) == Some(p) && p.job == jobs[0]
    ensures Run(p.left, jobs[1..], final)
  {
    order :| Enumerates(order, acc.Keys) && Hands(acc, order, jobs[0]) &&
             Run(PickBatch(acc, order).value.left, jobs[1..], final);
    p := PickBatch(acc, order).value;
  }

  lemma HandedFirst(acc: Accs, job: Job, next: Accs, node: NodeId)
    requires Valid(acc) && job.node in acc && TakeFrom(acc, job.node) == Picked(job, next)
    ensures Waiting(acc, node) == (if node == job.node then job.keys else []) + Waiting(next, node)
  {
    TakeStep(acc, job.node);
    assert [] + Waiting(next, node) == Waiting(next, node);
  }

  lemma RunStepAt(acc: Accs, jobs: seq<Job>, final: Accs, node: NodeId) returns (next: Accs)
    requires Valid(acc) && Run(acc, jobs, final) && jobs != []
    ensures Valid(next) && Run(next, jobs[1..], final)
    ensures Waiting(acc, node) == (if node == jobs[0].node then jobs[0].keys else []) + Waiting(next, node)
  {
    next := RunStep(acc, jobs, final);
    TakeStep(acc, jobs[0].node);
    HandedFirst(acc, jobs[0], next, node);
  }

  /** Along every run the byte counts stay right, and there are no more jobs than keys. */
  lemma {:induction false} RunIsShort(acc: Accs, jobs: seq<Job>, final: Accs)
    requires Valid(acc) && Run(acc, jobs, final)
    ensures Valid(final)
    ensures |jobs| + KeyCount(final) <= KeyCount(acc)
    decreases |jobs|
  {
    if jobs != [] {
      var next := RunStep(acc, jobs, final);
      assert Valid(next) && |jobs[0].keys| > 0 by { TakeStep(acc, jobs[0].node); }
      TakeCounts(acc, jobs[0].node);
      RunIsShort(next, jobs[1..], final);
    }
  }

  /** Along every run nothing is lost, repeated or reordered at any node. */
  lemma {:induction false} RunConserves(acc: Accs, jobs: seq<Job>, final: Accs, node: NodeId)
    requires Valid(acc) && Run(acc, jobs, final)
    ensures Waiting(acc, node) == Handed(jobs, node) + Waiting(final, node)
    decreases |jobs|
  {
    if jobs == [] {
      assert Handed(jobs, node) + Waiting(final, node) == Waiting(final, node);
    } else {
      var next := RunStepAt(acc, jobs, final, node);
      RunConserves(next, jobs[1..], final, node);
      var own := if node == jobs[0].node then jobs[0].keys else [];
      Associative(own, Handed(jobs[1..], node), Waiting(final, node));
    }
  }

  /** Every job of every run keeps both limits, its bytes by the true sum. It had no room for the key
      that is handed out next if and only if the true sum with that key does not fall below the
      range of an int; with length fields below 2^63 it never does. */
  lemma {:induction false} RunObeysLimits(acc: Accs, jobs: seq<Job>, final: Accs, i: nat)
    requires Valid(acc) && Run(acc, jobs, final) && i < |jobs|
    ensures 1 <= |jobs[i].keys| <= GET_BATCH_KEYS && Estimate(jobs[i].keys) <= GET_BATCH_BYTES
    ensures var rest := Handed(jobs[i + 1..], jobs[i].node) + Waiting(final, jobs[i].node);
            && (NoRoom(jobs[i].keys, rest) <==> Counted64(jobs[i].keys, rest))
            && (Small(jobs[i].keys + rest) ==> NoRoom(jobs[i].keys, rest))
    decreases |jobs|
  {
    var next := RunStepAt(acc, jobs, final, jobs[0].node);
    if i > 0 {
      RunObeysLimits(next, jobs[1..], final, i - 1);
      assert jobs[1..][i..] == jobs[i + 1..];
    } else {
      RunConserves(next, jobs[1..], final, jobs[0].node);
      FirstLimits(acc, jobs, final, next);
    }
  }

  lemma FirstLimits(acc: Accs, jobs: seq<Job>, final: Accs, next: Accs)
    requires Valid(acc) && Run(acc, jobs, final) && jobs != []
    requires Waiting(acc, jobs[0].node) == jobs[0].keys + Waiting(next, jobs[0].node)
    ensures 1 <= |jobs[0].keys| <= GET_BATCH_KEYS && Estimate(jobs[0].keys) <= GET_BATCH_BYTES
    ensures var rest := Waiting(next, jobs[0].node);
            && (NoRoom(jobs[0].keys, rest) <==> Counted64(jobs[0].keys, rest))
            && (Small(jobs[0].keys + rest) ==> NoRoom(jobs[0].keys, rest))
  {
    var node := jobs[0].node;
    var left := RunStep(acc, jobs, final);
    TakeStep(acc, node);
    BatchLimits(acc[node].keys, |jobs[0].keys|);
    assert acc[node].keys[..|jobs[0].keys|] == jobs[0].keys;
    assert acc[node].keys[|jobs[0].keys|..] == Waiting(next, node);
  }

  predicate Small(keys: Keys) {
    forall k :: k in keys ==> k.key.length < 0x8000_0000_0000_0000
  }

  /** The next key does not fit. */
  predicate NoRoom(keys: Keys, rest: Keys) {
    rest == [] || |keys| == GET_BATCH_KEYS || Estimate(keys + rest[..1]) > GET_BATCH_BYTES
  }

  /** If there is a next key that could be added, the sum with it is one an int can hold. */
  predicate Counted64(keys: Keys, rest: Keys) {
    rest == [] || |keys| == GET_BATCH_KEYS || Estimate(keys + rest[..1]) >= MIN_INT
  }

  lemma BatchLimits(all: Keys, n: nat)
    requires GoodBatch(all, n)
    ensures Estimate(all[..n]) <= GET_BATCH_BYTES
    ensures NoRoom(all[..n], all[n..]) <==> Counted64(all[..n], all[n..])
    ensures Small(all) ==> NoRoom(all[..n], all[n..])
  {
    EstimateWraps(all[..n]);
    if n < |all| {
      assert all[..n + 1] == all[..n] + all[n..][..1];
      EstimateWraps(all[..n + 1]);
      if Small(all) {
        SmallNotNegative(all[..n + 1]);
      }
    }
  }

  /** Two keys whose sum is far below the range: the wrapped sum is above the limit, so the second
      is left behind although the true sum has room for it. */
  lemma UnderflowLeavesRoom(id: nat)
    ensures var all := [FetchKey(Key(id, 0x8000_0000_0000_0000), 0), FetchKey(Key(id, 0x8000_0000_0100_0000), 0)];
            TakeCount(all, 0, 0) == 1 && !NoRoom(all[..1], all[1..])
  {
    var k, l := Key(id, 0x8000_0000_0000_0000), Key(id, 0x8000_0000_0100_0000);
    var all := [FetchKey(k, 0), FetchKey(l, 0)];
    assert EstSize(k) == 46 - 0x8000_0000_0000_0000 && EstSize(l) == 46 - 0x7fff_ffff_ff00_0000;
    assert all[..1] + all[1..][..1] == all;
    EstimateNext(all, 0);
    EstimateNext(all, 1);
    assert all[..2] == all && all[..0] == [];
    assert WrapInt(EstSize(k) + EstSize(l)) == 0x100_005C;
    assert TakeCount(all, 1, EstSize(k)) == 1;
  }

  /** Draining: pickBatch until it has no job, whatever order each call iterates in. */
  method Drain(f: Accumulators) returns (jobs: seq<Job>)
    requires Valid(f.acc)
    modifies f
    ensures f.acc == map[]
    ensures Run(old(f.acc), jobs, map[])
    ensures forall node :: Handed(jobs, node) == Waiting(old(f.acc), node)
  {
    jobs := [];
    while true
      invariant Valid(f.acc)
      invariant Run(old(f.acc), jobs, f.acc)
      decreases KeyCount(f.acc)
    {
      ghost var before := f.acc;
      var order := AnyOrder(f.acc.Keys);
      PickIsGood(f.acc, order);
      var job := f.Pick(order);
      if job == None {
        break;
      }
      TakeStep(before, job.value.node);
      TakeCounts(before, job.value.node);
      CountNonNegative(f.acc);
      RunExtend(old(f.acc), jobs, before, order);
      jobs := jobs + [job.value];
    }
    forall node ensures Handed(jobs, node) == Waiting(old(f.acc), node) {
      RunConserves(old(f.acc), jobs, map[], node);
    }
  }

  lemma CountNonNegative(acc: Accs)
    ensures KeyCount(acc) >= 0
  {
    SumNonNegative(Counts(acc));
  }

  lemma RunExtend(acc: Accs, jobs: seq<Job>, mid: Accs, order: seq<NodeId>)
    requires Run(acc, jobs, mid) && Enumerates(order, mid.Keys) && PickBatch(mid, order).Some?
    ensures Run(acc, jobs + [PickBatch(mid, order).value.job], PickBatch(mid, order).value.left)
  {
    var p := PickBatch(mid, order).value;
    RunOne(mid, order, p, [p.job], p.left);
    RunJoin(acc, jobs, mid, [p.job], p.left);
  }

  /** A call in front of a run. */
  lemma RunOne(acc: Accs, order: seq<NodeId>, p: Picked, jobs: seq<Job>, final: Accs)
    requires Enumerates(order, acc.Keys) && PickBatch(acc, order) == Some(p)
    requires jobs != [] && jobs[0] == p.job && Run(p.left, jobs[1..], final)
    ensures Run(acc, jobs, final)
  {
    assert Hands(acc, order, jobs[0]);
  }

  /** One run after another. */
  lemma {:induction false} RunJoin(acc: Accs, jobs: seq<Job>, mid: Accs, more: seq<Job>, final: Accs)
    requires Run(acc, jobs, mid) && Run(mid, more, final)
    ensures Run(acc, jobs + more, final)
    decreases |jobs|
  {
    if jobs == [] {
      assert jobs + more == more;
    } else {
      var order, p := RunHead(acc, jobs, mid);
      RunJoin(p.left, jobs[1..], mid, more, final);
      TailOfConcat(jobs, more);
      RunOne(acc, order, p, jobs + more, final);
    }
  }
}
