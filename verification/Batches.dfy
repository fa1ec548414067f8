/** Put batching: a key list is cut, in order, into batches under a byte and a key cap. The byte count
    is a Go int, whose additions wrap. */
module Batches {
  import opened Words

  /** A key with the size of its record. */
  datatype Record = Record(key: nat, size: int)

  type Batch = seq<Record>

  datatype Caps = Caps(maxBytes: int, maxKeys: int)

  function Sum(keys: Batch): int {
    if keys == [] then 0 else keys[0].size + Sum(keys[1..])
  }

  function Flatten(split: seq<Batch>): Batch {
    if split == [] then [] else split[0] + Flatten(split[1..])
  }

  /** A batch the caps allow: not empty, at most maxKeys keys (one is always allowed), and within
      maxBytes unless it is a single record. */
  predicate Allowed(b: Batch, caps: Caps) {
    && 1 <= |b|
    && (|b| == 1 || (|b| <= caps.maxKeys && Sum(b) <= caps.maxBytes))
  }

  /** Any way of cutting keys, in order, into allowed batches. */
  ghost predicate Split(split: seq<Batch>, keys: Batch, caps: Caps) {
    && Flatten(split) == keys
    && forall b :: b in split ==> Allowed(b, caps)
  }

  /** A batch of count keys has to be closed before a key that would bring it to sum bytes. */
  predicate Full(count: nat, sum: int, caps: Caps) {
    count > 0 && (sum > caps.maxBytes || count >= caps.maxKeys)
  }

  /** The greedy split of what follows when cur, of bytes bytes, is open. */
  function Greedy(cur: Batch, bytes: int, keys: Batch, caps: Caps): seq<Batch>
    decreases |keys|
  {
    if keys == [] then (if cur == [] then [] else [cur])
    else if Full(|cur|, bytes + keys[0].size, caps) then
      [cur] + Greedy([keys[0]], keys[0].size, keys[1..], caps)
    else Greedy(cur + [keys[0]], bytes + keys[0].size, keys[1..], caps)
  }

  /** The same with the additions of the client. */
  function Taken(cur: Batch, bytes: int, keys: Batch, caps: Caps): seq<Batch>
    decreases |keys|
  {
    if keys == [] then (if cur == [] then [] else [cur])
    else if Full(|cur|, WrapInt(bytes + keys[0].size), caps) then
      [cur] + Taken([keys[0]], WrapInt(keys[0].size), keys[1..], caps)
    else Taken(cur + [keys[0]], WrapInt(bytes + keys[0].size), keys[1..], caps)
  }

  /** The loop of the client: it closes the open batch when the next key does not fit. */
  method Batches(keys: Batch, caps: Caps) returns (out: seq<Batch>)
    ensures out == Taken([], 0, keys, caps)
  {
    out := [];
    var cur: Batch := [];
    var bytes := 0;
    for i := 0 to |keys|
      invariant cur == [] ==> bytes == 0
      invariant Taken([], 0, keys, caps) == out + Taken(cur, bytes, keys[i..], caps)
    {
      var k := keys[i];
      var n := k.size;
      assert keys[i..][0] == k && keys[i..][1..] == keys[i + 1..];
      assert [] + [k] == [k];
      if |cur| > 0 && (WrapInt(bytes + n) > caps.maxBytes || |cur| >= caps.maxKeys) {
        out := out + [cur];
        cur, bytes := [], 0;
      }
      cur := cur + [k];
      bytes := WrapInt(bytes + n);
    }
    if |cur| > 0 {
      out := out + [cur];
    }
  }

  // ----- the result is a valid split

  lemma {:induction false} SumAppend(b: Batch, k: Record)
    ensures Sum(b + [k]) == Sum(b) + k.size
  {
    if b != [] {
      SumAppend(b[1..], k);
      assert (b + [k])[1..] == b[1..] + [k];
    }
  }

  lemma {:induction false} GreedySplits(cur: Batch, bytes: int, keys: Batch, caps: Caps)
    requires bytes == Sum(cur) && (cur == [] || Allowed(cur, caps))
    ensures Split(Greedy(cur, bytes, keys, caps), cur + keys, caps)
    decreases |keys|
  {
    if keys != [] {
      var k := keys[0];
      SumAppend(cur, k);
      assert Sum([k]) == k.size;
      assert cur + [k] + keys[1..] == cur + keys;
      if Full(|cur|, bytes + k.size, caps) {
        GreedySplits([k], k.size, keys[1..], caps);
      } else {
        GreedySplits(cur + [k], bytes + k.size, keys[1..], caps);
      }
    } else {
      assert Flatten([cur]) == cur + Flatten([]) == cur;
    }
  }

  // ----- no split is shorter

  lemma {:induction false} SumSplit(a: Batch, b: Batch)
    ensures Sum(a + b) == Sum(a) + Sum(b)
  {
    if a == [] {
      assert a + b == b;
    } else {
      SumSplit(a[1..], b);
      assert (a + b)[1..] == a[1..] + b;
    }
  }

  lemma {:induction false} SumNonNegative(keys: Batch)
    requires forall k :: k in keys ==> k.size >= 0
    ensures Sum(keys) >= 0
  {
    if keys != [] {
      SumNonNegative(keys[1..]);
    }
  }

  /** The open batch swallows every extension that is allowed. */
  lemma {:induction false} GreedyExtends(cur: Batch, bytes: int, ext: Batch, rest: Batch, caps: Caps)
    requires bytes == Sum(cur)
    requires forall k :: k in ext ==> k.size >= 0
    requires ext == [] || Allowed(cur + ext, caps)
    ensures Greedy(cur, bytes, ext + rest, caps) == Greedy(cur + ext, Sum(cur + ext), rest, caps)
    decreases |ext|
  {
    if ext == [] {
      assert ext + rest == rest && cur + ext == cur;
    } else {
      var k := ext[0];
      assert (ext + rest)[1..] == ext[1..] + rest;
      assert cur + ext == cur + [k] + ext[1..];
      SumSplit(cur, ext);
      SumNonNegative(ext[1..]);
      SumAppend(cur, k);
      GreedyExtends(cur + [k], bytes + k.size, ext[1..], rest, caps);
    }
  }

  lemma {:induction false} SuffixAllowed(b: Batch, n: nat, caps: Caps)
    requires Allowed(b, caps) && n < |b|
    requires forall k :: k in b ==> k.size >= 0
    ensures Allowed(b[n..], caps)
  {
    SumSplit(b[..n], b[n..]);
    assert b[..n] + b[n..] == b;
    SumNonNegative(b[..n]);
  }

  /** A fresh batch that starts at or after the point where other starts: other covers skip + keys. */
  lemma {:induction false} FreshIsAhead(skip: Batch, keys: Batch, other: seq<Batch>, caps: Caps)
    requires forall k :: k in keys ==> k.size >= 0
    requires forall k :: k in skip ==> k.size >= 0
    requires Split(other, skip + keys, caps)
    ensures |Greedy([], 0, keys, caps)| <= |other|
    decreases |keys|, 0, |other|
  {
    if keys != [] {
      assert other != [];
      var b, rest := other[0], other[1..];
      assert Split(rest, Flatten(rest), caps);
      if |b| <= |skip| {
        assert Flatten(rest) == (skip + keys)[|b|..] == skip[|b|..] + keys;
        FreshIsAhead(skip[|b|..], keys, rest, caps);
      } else {
        var inner := b[|skip|..];
        assert keys == (skip + keys)[|skip|..] == inner + Flatten(rest);
        assert forall k :: k in b ==> k in skip + keys;
        SuffixAllowed(b, |skip|, caps);
        assert [] + inner == inner;
        GreedyExtends([], 0, inner, Flatten(rest), caps);
        assert [] + Flatten(rest) == Flatten(rest);
        OpenIsAhead(inner, Sum(inner), [], Flatten(rest), rest, caps);
      }
    }
  }

  /** An open batch counts once on top of what other needs. */
  lemma {:induction false} OpenIsAhead(cur: Batch, bytes: int, skip: Batch, keys: Batch, other: seq<Batch>, caps: Caps)
    requires cur != []
    requires forall k :: k in keys ==> k.size >= 0
    requires forall k :: k in skip ==> k.size >= 0
    requires Split(other, skip + keys, caps)
    ensures |Greedy(cur, bytes, keys, caps)| <= 1 + |other|
    decreases |keys|, 1, |other|
  {
    if keys != [] {
      var k := keys[0];
      if Full(|cur|, bytes + k.size, caps) {
        assert [] + [k] == [k];
        FreshIsAhead(skip, keys, other, caps);
      } else {
        assert skip + keys == skip + [k] + keys[1..];
        OpenIsAhead(cur + [k], bytes + k.size, skip + [k], keys[1..], other, caps);
      }
    }
  }

  /** For non-negative sizes the greedy batches are a valid split with the fewest possible batches. */
  lemma BatchesAreFewest(keys: Batch, caps: Caps)
    requires forall k :: k in keys ==> k.size >= 0
    ensures Split(Greedy([], 0, keys, caps), keys, caps)
    ensures forall other :: Split(other, keys, caps) ==> |Greedy([], 0, keys, caps)| <= |other|
  {
    assert [] + keys == keys;
    GreedySplits([], 0, keys, caps);
    forall other | Split(other, keys, caps) ensures |Greedy([], 0, keys, caps)| <= |other| {
      FreshIsAhead([], keys, other, caps);
    }
  }

  /** Without that promise a later negative size can make a longer batch fit again. */
  lemma NegativeSizeBreaksIt()
    ensures var keys := [Record(0, 5), Record(1, 6), Record(2, -3)];
            var caps := Caps(10, 10);
            |Greedy([], 0, keys, caps)| == 2 && Split([keys], keys, caps)
  {
    var a, b, c := Record(0, 5), Record(1, 6), Record(2, -3);
    var keys := [a, b, c];
    var caps := Caps(10, 10);
    assert keys[1..] == [b, c] && [b, c][1..] == [c] && [c][1..] == [];
    assert Sum([c]) == -3 + Sum([]);
    assert Sum([b, c]) == 6 + Sum([c]);
    assert Sum(keys) == 5 + Sum([b, c]);
    assert Greedy([b, c], 3, [], caps) == [[b, c]];
    assert Greedy([b], 6, [c], caps) == Greedy([b] + [c], 3, [], caps);
    assert [b] + [c] == [b, c];
    assert Greedy([a], 5, [b, c], caps) == [[a]] + [[b, c]];
    assert [] + [a] == [a];
    assert Flatten([keys]) == keys + Flatten([]) == keys;
  }

  // ----- when the additions of the client are the true ones

  /** Sizes as a sizer returns them: ints that are not negative. */
  predicate Sizes(keys: Batch) {
    forall k :: k in keys ==> 0 <= k.size <= MAX_INT
  }

  /** The sum does not fit, but wraps to one that does. */
  predicate Slips(count: nat, sum: int, caps: Caps) {
    Full(count, sum, caps) && !Full(count, WrapInt(sum), caps)
  }

  /** No sum of the greedy split slips. */
  predicate NeverSlips(cur: Batch, bytes: int, keys: Batch, caps: Caps)
    decreases |keys|
  {
    keys == [] ||
    (var sum := bytes + keys[0].size;
     && !Slips(|cur|, sum, caps)
     && if Full(|cur|, sum, caps) then NeverSlips([keys[0]], keys[0].size, keys[1..], caps)
        else NeverSlips(cur + [keys[0]], sum, keys[1..], caps))
  }

  /** The open batch and what is known of it. */
  ghost predicate Open(cur: Batch, bytes: int, keys: Batch, caps: Caps) {
    && IsInt(caps.maxBytes) && Sizes(cur) && Sizes(keys)
    && bytes == Sum(cur) && 0 <= bytes <= MAX_INT && (cur == [] || Allowed(cur, caps))
  }

  lemma OpenNext(cur: Batch, bytes: int, keys: Batch, caps: Caps)
    requires keys != [] && Open(cur, bytes, keys, caps)
    ensures Open([keys[0]], keys[0].size, keys[1..], caps) && WrapInt(keys[0].size) == keys[0].size
    ensures !Full(|cur|, bytes + keys[0].size, caps) ==>
              && Open(cur + [keys[0]], bytes + keys[0].size, keys[1..], caps)
              && WrapInt(bytes + keys[0].size) == bytes + keys[0].size
  {
    var k := keys[0];
    SumAppend(cur, k);
    assert Sum([k]) == k.size + Sum([]);
    assert [k][0] == k && k in keys;
  }

  lemma {:induction false} TakenIsGreedy(cur: Batch, bytes: int, keys: Batch, caps: Caps)
    requires Open(cur, bytes, keys, caps) && NeverSlips(cur, bytes, keys, caps)
    ensures Taken(cur, bytes, keys, caps) == Greedy(cur, bytes, keys, caps)
    decreases |keys|
  {
    if keys != [] {
      OpenNext(cur, bytes, keys, caps);
      if Full(|cur|, bytes + keys[0].size, caps) {
        TakenIsGreedy([keys[0]], keys[0].size, keys[1..], caps);
      } else {
        TakenIsGreedy(cur + [keys[0]], bytes + keys[0].size, keys[1..], caps);
      }
    }
  }

  /** The open batch becomes the first one, with some of the keys behind it. */
  lemma {:induction false} FirstBatch(cur: Batch, bytes: int, keys: Batch, caps: Caps) returns (n: nat)
    requires cur != []
    ensures n <= |keys| && Taken(cur, bytes, keys, caps) != [] && Taken(cur, bytes, keys, caps)[0] == cur + keys[..n]
    decreases |keys|
  {
    if keys == [] || Full(|cur|, WrapInt(bytes + keys[0].size), caps) {
      n := 0;
      assert cur + keys[..0] == cur;
    } else {
      n := FirstBatch(cur + [keys[0]], WrapInt(bytes + keys[0].size), keys[1..], caps);
      assert cur + [keys[0]] + keys[1..][..n] == cur + keys[..n + 1];
      n := n + 1;
    }
  }

  /** After a slip the batch is over the byte cap for good. */
  lemma {:induction false} SlipBreaks(cur: Batch, bytes: int, keys: Batch, caps: Caps) returns (b: Batch)
    requires Open(cur, bytes, keys, caps) && !NeverSlips(cur, bytes, keys, caps)
    ensures b in Taken(cur, bytes, keys, caps) && !Allowed(b, caps)
    decreases |keys|
  {
    var k, sum := keys[0], bytes + keys[0].size;
    OpenNext(cur, bytes, keys, caps);
    if Slips(|cur|, sum, caps) {
      var n := FirstBatch(cur + [k], WrapInt(sum), keys[1..], caps);
      b := cur + [k] + keys[1..][..n];
      SumAppend(cur, k);
      SumSplit(cur + [k], keys[1..][..n]);
      SumNonNegative(keys[1..][..n]);
    } else if Full(|cur|, sum, caps) {
      b := SlipBreaks([k], k.size, keys[1..], caps);
    } else {
      b := SlipBreaks(cur + [k], sum, keys[1..], caps);
    }
  }

  /** The batches of the client are a valid split exactly when no sum of the greedy split slips, and
      then they are the fewest possible. */
  lemma ClientBatches(keys: Batch, caps: Caps)
    requires IsInt(caps.maxBytes) && Sizes(keys)
    ensures Split(Taken([], 0, keys, caps), keys, caps) <==> NeverSlips([], 0, keys, caps)
    ensures NeverSlips([], 0, keys, caps) ==>
              forall other :: Split(other, keys, caps) ==> |Taken([], 0, keys, caps)| <= |other|
  {
    if NeverSlips([], 0, keys, caps) {
      TakenIsGreedy([], 0, keys, caps);
      BatchesAreFewest(keys, caps);
    } else {
      var b := SlipBreaks([], 0, keys, caps);
    }
  }

  /** Sizes and a byte cap up to half of an int's range never slip. */
  lemma {:induction false} SmallNeverSlips(cur: Batch, bytes: int, keys: Batch, caps: Caps)
    requires Open(cur, bytes, keys, caps) && caps.maxBytes <= MAX_INT / 2
    requires forall k :: k in cur + keys ==> k.size <= MAX_INT / 2
    ensures NeverSlips(cur, bytes, keys, caps)
    decreases |keys|
  {
    if keys != [] {
      var k := keys[0];
      OpenNext(cur, bytes, keys, caps);
      assert k in cur + keys && bytes <= MAX_INT / 2 by {
        if |cur| == 1 {
          assert Sum(cur) == cur[0].size + Sum([]) && cur[0] in cur + keys;
        }
      }
      assert forall r :: r in [k] + keys[1..] || r in cur + [k] + keys[1..] ==> r in cur + keys;
      if Full(|cur|, bytes + k.size, caps) {
        SmallNeverSlips([k], k.size, keys[1..], caps);
      } else {
        SmallNeverSlips(cur + [k], bytes + k.size, keys[1..], caps);
      }
    }
  }

  /** A record of the largest size takes any second one into its batch. */
  lemma SlipWitness(k: nat, l: nat)
    ensures var keys := [Record(k, MAX_INT), Record(l, 1)];
            var caps := Caps(10, 10);
            Taken([], 0, keys, caps) == [keys] && !Split([keys], keys, caps)
  {
    var a, b, caps := Record(k, MAX_INT), Record(l, 1), Caps(10, 10);
    var keys := [a, b];
    assert keys[1..] == [b] && [b][1..] == [] && [] + [a] == [a] && [a] + [b] == keys;
    assert WrapInt(MAX_INT + 1) == MIN_INT;
    assert Taken(keys, MIN_INT, [], caps) == [keys];
    assert Taken([a], MAX_INT, [b], caps) == Taken(keys, MIN_INT, [], caps);
    assert Sum([b]) == 1 + Sum([]) && Sum(keys) == MAX_INT + Sum([b]);
    assert keys in [keys];
  }
}
