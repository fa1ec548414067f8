/** The inverse of the murmur3 finalizer and the Newton iteration it rests on. */
module Murmur {
  import opened Words

  const C1: Word := 0xff51afd7ed558ccd
  const C2: Word := 0xc4ceb9fe1a85ec53

  // ----- the inverse of an odd word modulo 2^64

  /** inv *= 2 - a*inv, in uint64 arithmetic. */
  function NewtonStep(a: Word, inv: Word): Word {
    Mul(inv, (2 - Mul(a, inv)) % TWO64)
  }

  function Newton(a: Word, steps: nat): Word {
    if steps == 0 then a else NewtonStep(a, Newton(a, steps - 1))
  }

  /** What i steps are correct to: 3 bits to begin with, twice as many after each step. */
  function Precision(i: nat): int
    requires i <= 6
  {
    if i == 0 then 0x8
    else if i == 1 then 0x40
    else if i == 2 then 0x1000
    else if i == 3 then 0x100_0000
    else if i == 4 then 0x1_0000_0000_0000
    else TWO64
  }

  /** The inverse exists exactly for odd words, and six steps reach it. */
  method ModInverse(a: Word) returns (inv: Word)
    ensures inv == Newton(a, 6)
    ensures a % 2 == 1 <==> Mul(a, inv) == 1
  {
    inv := a;
    for i := 0 to 6
      invariant inv == Newton(a, i)
    {
      inv := Mul(inv, (2 - Mul(a, inv)) % TWO64);
    }
    if a % 2 == 1 {
      NewtonCorrect(a, 6);
      InverseGivesOne(a, inv);
    } else {
      EvenHasNoInverse(a, inv);
    }
  }

  lemma ConsecutiveEven(b: int) returns (t: int)
    ensures b * (b + 1) == 2 * t
  {
    var c := b / 2;
    if b == 2 * c {
      t := c * (b + 1);
      MulShuffle(2, c, b + 1);
    } else {
      t := b * (c + 1);
      MulShuffle(2, b, c + 1);
      assert b + 1 == (c + 1) * 2;
      MulShuffle(b, c + 1, 2);
    }
  }

  lemma OddSquare(a: int)
    requires a % 2 == 1
    ensures (a * a - 1) % 8 == 0
  {
    var b := a / 2;
    var t := ConsecutiveEven(b);
    SquareOf(b);
    assert a == 2 * b + 1;
    EightTimes(a * a - 1, t);
  }

  lemma EightTimes(x: int, t: int)
    requires x == 8 * t
    ensures x % 8 == 0
  {
  }

  lemma SquareOf(b: int)
    ensures (2 * b + 1) * (2 * b + 1) == 4 * (b * (b + 1)) + 1
  {
  }

  /** One step squares the error, so any modulus dividing the square of the old one is reached. */
  lemma NewtonDoubles(a: Word, inv: Word, m: int, m': int, k: int, l: int)
    requires m > 0 && m' > 0
    requires m * m == k * m' && TWO64 == l * m'
    requires InverseMod(a, inv, m)
    ensures InverseMod(a, NewtonStep(a, inv), m')
  {
    var p := a * inv;
    var q := (p - 1) / m;
    assert p == 1 + q * m;
    var r := p / TWO64;
    var t := (2 - Mul(a, inv)) / TWO64;
    var factor := (2 - Mul(a, inv)) % TWO64;
    assert factor == 2 - p + (r - t) * TWO64;
    var u := (inv * factor) / TWO64;
    var inv' := NewtonStep(a, inv);
    assert inv' == inv * factor - u * TWO64;
    var w := p * (r - t) - a * u;
    calc {
      a * inv';
      a * (inv * factor - u * TWO64);
      a * (inv * factor) - a * (u * TWO64);
      { MulShuffle(a, inv, factor); }
      p * factor - a * u * TWO64;
      p * (2 - p + (r - t) * TWO64) - a * u * TWO64;
      { ErrorSquared(p, r - t, a * u); }
      1 - (p - 1) * (p - 1) + w * TWO64;
    }
    SquareOfMultiple(p - 1, q, m, k, m');
    assert a * inv' - 1 == (w * l - q * q * k) * m' by {
      assert w * TWO64 == w * l * m';
    }
    MultipleIsZero(w * l - q * q * k, m');
  }

  lemma MulShuffle(a: int, b: int, c: int)
    ensures a * (b * c) == (a * b) * c
  {
  }

  lemma ErrorSquared(p: int, d: int, e: int)
    ensures p * (2 - p + d * TWO64) - e * TWO64 == 1 - (p - 1) * (p - 1) + (p * d - e) * TWO64
  {
    assert p * (2 - p + d * TWO64) == p * (2 - p) + p * d * TWO64;
  }

  lemma SquareOfMultiple(e: int, q: int, m: int, k: int, m': int)
    requires e == q * m && m * m == k * m'
    ensures e * e == q * q * k * m'
  {
    calc {
      e * e;
      (q * m) * (q * m);
      (q * q) * (m * m);
      (q * q) * (k * m');
      q * q * k * m';
    }
  }

  lemma MultipleIsFar(q: int, m: int)
    requires m > 0
    ensures q * m <= -m || q == 0 || q * m >= m
  {
    if q >= 1 {
      assert (q - 1) * m >= 0;
    } else if q <= -1 {
      assert (-q - 1) * m >= 0;
    }
  }

  lemma MultipleIsZero(q: int, m: int)
    requires m > 0
    ensures (q * m) % m == 0
  {
    var r, d := (q * m) % m, (q * m) / m;
    assert r == (q - d) * m;
    MultipleIsFar(q - d, m);
  }

  lemma {:induction false} NewtonCorrect(a: Word, i: nat)
    requires a % 2 == 1 && i <= 6
    ensures InverseMod(a, Newton(a, i), Precision(i))
  {
    if i == 0 {
      OddSquare(a);
    } else {
      NewtonCorrect(a, i - 1);
      var m, m' := Precision(i - 1), Precision(i);
      NewtonDoubles(a, Newton(a, i - 1), m, m', m * m / m', TWO64 / m');
    }
  }

  lemma InverseGivesOne(a: Word, inv: Word)
    requires InverseMod(a, inv, TWO64)
    ensures Mul(a, inv) == 1
  {
    var q := (a * inv - 1) / TWO64;
    assert a * inv == 1 + q * TWO64;
  }

  lemma EvenHasNoInverse(a: Word, inv: Word)
    requires a % 2 == 0
    ensures Mul(a, inv) != 1
  {
    var b := a / 2;
    assert a * inv == 2 * (b * inv);
  }

  /** The inverse of an odd word. */
  function Inverse(a: Word): (inv: Word)
    requires a % 2 == 1
    ensures InverseMod(a, inv, TWO64)
  {
    NewtonCorrect(a, 6);
    Newton(a, 6)
  }

  // ----- the finalizer

  function Shift33(x: Word): Word {
    XorShiftIsWord(x, 33);
    XorShift(x, 33)
  }

  /** The murmur3 64-bit finalizer. */
  function Fmix64(x: Word): Word {
    Shift33(Mul(Shift33(Mul(Shift33(x), C1)), C2))
  }

  function InvFmix64(x: Word): Word {
    Shift33(Mul(Shift33(Mul(Shift33(x), Newton(C2, 6))), Newton(C1, 6)))
  }

  method ComputeInvFmix64(y: Word) returns (x: Word)
    ensures Fmix64(x) == y
    ensures forall z: Word :: Fmix64(z) == y ==> z == x
  {
    x := Shift33(y);
    var i2 := ModInverse(C2);
    x := Mul(x, i2);
    x := Shift33(x);
    var i1 := ModInverse(C1);
    x := Mul(x, i1);
    x := Shift33(x);
    FmixAfterInverse(y);
    forall z: Word | Fmix64(z) == y ensures z == x {
      InverseAfterFmix(z);
    }
  }

  lemma InverseAfterFmix(x: Word)
    ensures InvFmix64(Fmix64(x)) == x
  {
    var a := Shift33(x);
    var b := Shift33(Mul(a, C1));
    XorShiftInvolution(x, 33);
    XorShiftInvolution(Mul(a, C1), 33);
    XorShiftInvolution(Mul(b, C2), 33);
    MulUndone(a, C1, Inverse(C1));
    MulUndone(b, C2, Inverse(C2));
  }

  lemma FmixAfterInverse(y: Word)
    ensures Fmix64(InvFmix64(y)) == y
  {
    var a := Shift33(y);
    var i1, i2 := Inverse(C1), Inverse(C2);
    var b := Shift33(Mul(a, i2));
    XorShiftInvolution(y, 33);
    XorShiftInvolution(Mul(a, i2), 33);
    XorShiftInvolution(Mul(b, i1), 33);
    MulCommutes(C1, i1);
    MulCommutes(C2, i2);
    MulUndone(a, i2, C2);
    MulUndone(b, i1, C1);
  }
}
