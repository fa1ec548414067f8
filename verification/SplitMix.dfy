/** The splitmix64 generator all deterministic vectors come from. */
module SplitMix {
  import opened Words
  import Murmur

  const GAMMA: Word := 0x9E3779B97F4A7C15
  const M1: Word := 0xBF58476D1CE4E5B9
  const M2: Word := 0x94D049BB133111EB

  function Shift(x: Word, s: nat): Word {
    XorShiftIsWord(x, s);
    XorShift(x, s)
  }

  function Mix(z: Word): Word {
    Shift(Mul(Shift(Mul(Shift(z, 30), M1), 27), M2), 31)
  }

  /** The state after k calls. */
  function StateAfter(seed: Word, k: nat): Word {
    if k == 0 then seed else Step(StateAfter(seed, k - 1))
  }

  function Step(state: Word): Word {
    (state + GAMMA) % TWO64
  }

  /** The value of call number k, counting from 0. */
  function Output(seed: Word, k: nat): Word {
    Mix(StateAfter(seed, k + 1))
  }

  /** The generator state behind the pointer splitmixNext takes. */
  class Generator {
    var state: Word

    constructor (seed: Word)
      ensures state == seed
    {
      state := seed;
    }

    method Next() returns (out: Word)
      modifies this
      ensures state == Step(old(state)) && out == Mix(state)
    {
      state := (state + GAMMA) % TWO64;
      var z := state;
      z := Mul(Shift(z, 30), M1);
      z := Mul(Shift(z, 27), M2);
      return Shift(z, 31);
    }
  }

  /** u64s(seed, n). */
  method U64s(seed: Word, n: nat) returns (out: array<Word>)
    ensures out.Length == n
    ensures forall i :: 0 <= i < n ==> out[i] == Output(seed, i)
  {
    out := new Word[n](_ => 0);
    var g := new Generator(seed);
    for i := 0 to n
      invariant g.state == StateAfter(seed, i)
      invariant forall j :: 0 <= j < i ==> out[j] == Output(seed, j)
    {
      out[i] := NthOutput(g, seed, i);
    }
  }

  /** The next call, when the generator has answered i calls. */
  method NthOutput(g: Generator, ghost seed: Word, ghost i: nat) returns (v: Word)
    requires g.state == StateAfter(seed, i)
    modifies g
    ensures g.state == StateAfter(seed, i + 1) && v == Output(seed, i)
  {
    v := g.Next();
  }

  /** Byte i of data(seed, n), for every n > i. */
  function DataByte(seed: Word, i: nat): Byte {
    Block(seed, i / 8)[i % 8]
  }

  /** The eight bytes appended for call number k. */
  function Block(seed: Word, k: nat): (b: seq<Byte>)
    ensures |b| == 8
  {
    LittleEndian(Output(seed, k), 8)
  }

  lemma NextBlock(seed: Word, k: nat)
    ensures forall i :: 8 * k <= i < 8 * k + 8 ==> DataByte(seed, i) == Block(seed, k)[i - 8 * k]
  {
    forall i | 8 * k <= i < 8 * k + 8 ensures DataByte(seed, i) == Block(seed, k)[i - 8 * k] {
      assert i / 8 == k && i % 8 == i - 8 * k;
    }
  }

  /** A beginning of the byte stream of seed. */
  ghost predicate IsData(out: seq<Byte>, seed: Word) {
    forall i :: 0 <= i < |out| ==> out[i] == DataByte(seed, i)
  }

  lemma AppendBlock(out: seq<Byte>, block: seq<Byte>, seed: Word, k: nat)
    requires IsData(out, seed) && |out| == 8 * k && block == Block(seed, k)
    ensures IsData(out + block, seed)
  {
    NextBlock(seed, k);
  }

  /** data(seed, n). */
  method SmData(seed: Word, n: nat) returns (out: seq<Byte>)
    ensures |out| == n && IsData(out, seed)
  {
    out := [];
    var g := new Generator(seed);
    ghost var k := 0;
    while |out| < n
      invariant |out| == 8 * k && IsData(out, seed)
      invariant g.state == StateAfter(seed, k)
    {
      var v := g.Next();
      AppendBlock(out, LittleEndian(v, 8), seed, k);
      out := out + LittleEndian(v, 8);
      k := k + 1;
    }
    out := out[..n];
  }

  // ----- the mix is a permutation of the words

  function UnShift(y: Word, s: nat): Word
    requires s > 0
  {
    UnXorShiftIsWord(y, s);
    UnXorShift(y, s)
  }

  function UnMix(v: Word): Word {
    UnShift(Mul(UnShift(Mul(UnShift(v, 31), Murmur.Inverse(M2)), 27), Murmur.Inverse(M1)), 30)
  }

  lemma MixAfterUnMix(v: Word)
    ensures Mix(UnMix(v)) == v
  {
    var a := UnShift(v, 31);
    var i1, i2 := Murmur.Inverse(M1), Murmur.Inverse(M2);
    var b := UnShift(Mul(a, i2), 27);
    XorShiftUndone(v, 31);
    XorShiftUndone(Mul(a, i2), 27);
    XorShiftUndone(Mul(b, i1), 30);
    MulCommutes(M1, i1);
    MulCommutes(M2, i2);
    MulUndone(a, i2, M2);
    MulUndone(b, i1, M1);
  }

  lemma UnMixAfterMix(z: Word)
    ensures UnMix(Mix(z)) == z
  {
    var a := Shift(z, 30);
    var b := Shift(Mul(a, M1), 27);
    ShiftUndone(z, 30);
    ShiftUndone(Mul(a, M1), 27);
    ShiftUndone(Mul(b, M2), 31);
    MulUndone(a, M1, Murmur.Inverse(M1));
    MulUndone(b, M2, Murmur.Inverse(M2));
  }

  lemma ShiftUndone(x: Word, s: nat)
    requires s > 0
    ensures UnShift(Shift(x, s), s) == x
  {
    XorShiftUndone(Shift(x, s), s);
    XorShiftInjective(UnShift(Shift(x, s), s), x, s);
  }

  lemma MixInjective(x: Word, y: Word)
    ensures Mix(x) == Mix(y) <==> x == y
  {
    UnMixAfterMix(x);
    UnMixAfterMix(y);
  }

  // ----- the stream

  lemma {:induction false} StateClosed(seed: Word, k: nat)
    ensures StateAfter(seed, k) == Advance(seed, k, GAMMA)
  {
    if k > 0 {
      StateClosed(seed, k - 1);
      AdvanceAdd(seed, k - 1, 1, GAMMA);
    }
  }

  /** Outputs repeat exactly after 2^64 calls, so any 2^64 consecutive ones are pairwise distinct. */
  lemma StreamPeriod(seed: Word, i: nat, j: nat)
    ensures Output(seed, i) == Output(seed, j) <==> i % TWO64 == j % TWO64
  {
    StatePeriod(seed, i, j);
    MixInjective(StateAfter(seed, i + 1), StateAfter(seed, j + 1));
  }

  lemma StatePeriod(seed: Word, i: nat, j: nat)
    ensures StateAfter(seed, i + 1) == StateAfter(seed, j + 1) <==> i % TWO64 == j % TWO64
  {
    StateClosed(seed, i + 1);
    StateClosed(seed, j + 1);
    AdvancePeriod(seed, i + 1, j + 1, GAMMA, Murmur.Inverse(GAMMA));
    WrapEqual(i, j);
    WrapEqual(i + 1, j + 1);
  }

  /** One period holds every word. */
  lemma StreamCovers(seed: Word, v: Word) returns (k: nat)
    ensures k < TWO64 && Output(seed, k) == v
  {
    MixAfterUnMix(v);
    StateClosed(seed, 1);
    k := AdvanceCovers(StateAfter(seed, 1), UnMix(v), GAMMA, Murmur.Inverse(GAMMA));
    AdvanceAdd(seed, 1, k, GAMMA);
    StateClosed(seed, k + 1);
  }

  /** Eight bytes of data(seed, n) already tell the seed. */
  lemma DataDeterminesSeed(s: Word, t: Word)
    requires forall i :: 0 <= i < 8 ==> DataByte(s, i) == DataByte(t, i)
    ensures s == t
  {
    NextBlock(s, 0);
    NextBlock(t, 0);
    forall i | 0 <= i < 8 ensures Block(s, 0)[i] == Block(t, 0)[i] {
      assert DataByte(s, i) == DataByte(t, i);
    }
    assert Block(s, 0) == Block(t, 0);
    ByteWidths();
    LittleEndianRoundTrip(Output(s, 0), 8);
    LittleEndianRoundTrip(Output(t, 0), 8);
    MixInjective(StateAfter(s, 1), StateAfter(t, 1));
    SeedOfState(s);
    SeedOfState(t);
  }

  lemma SeedOfState(s: Word)
    ensures Advance(StateAfter(s, 1), -1, GAMMA) == s
  {
    StateClosed(s, 1);
    AdvanceAdd(s, 1, -1, GAMMA);
  }
}
