/** Go's uint64 as an integer below 2^64: wrap-around is written out with %, and the bit
    operations the generators use (xor, shift right) are given by their binary digits. */
module Words {

  const TWO64: int := 0x1_0000_0000_0000_0000

  type Word = x: int | 0 <= x < 0x1_0000_0000_0000_0000

  type Byte = x: int | 0 <= x < 256

  /** uint64 multiplication. */
  function Mul(a: int, b: int): Word {
    (a * b) % TWO64
  }

  /** a ^ b, digit by digit. */
  function Xor(a: nat, b: nat): nat
    decreases a + b
  {
    if a == 0 && b == 0 then 0
    else 2 * Xor(a / 2, b / 2) + (if a % 2 != b % 2 then 1 else 0)
  }

  /** a >> s. */
  function Shr(a: nat, s: nat): nat
    decreases a, s
  {
    if s == 0 then a else Shr(a / 2, s - 1)
  }

  /** x ^ (x >> s), the mixing step of both splitmix64 and the murmur3 finalizer. */
  function XorShift(x: nat, s: nat): nat {
    Xor(x, Shr(x, s))
  }

  // ----- xor and shift

  function Pow2(k: nat): (r: nat)
    ensures r > 0
  {
    if k == 0 then 1 else 2 * Pow2(k - 1)
  }

  lemma Pow2Of64()
    ensures Pow2(64) == TWO64
  {
    Pow2Add(8, 8);
    Pow2Add(16, 16);
    Pow2Add(32, 32);
    Pow2Of8();
  }

  lemma Pow2Of8()
    ensures Pow2(8) == 0x100
  {
    assert Pow2(8) == 2 * Pow2(7) == 4 * Pow2(6) == 8 * Pow2(5) == 16 * Pow2(4);
    assert Pow2(4) == 2 * Pow2(3) == 4 * Pow2(2) == 8 * Pow2(1);
  }

  lemma {:induction false} Pow2Add(j: nat, k: nat)
    ensures Pow2(j + k) == Pow2(j) * Pow2(k)
  {
    if j > 0 {
      Pow2Add(j - 1, k);
      assert 2 * (Pow2(j - 1) * Pow2(k)) == 2 * Pow2(j - 1) * Pow2(k);
    }
  }

  lemma {:induction false} ShrZero(a: nat, s: nat)
    ensures Shr(a, s) == 0 <==> a < Pow2(s)
    decreases s
  {
    if s > 0 {
      ShrZero(a / 2, s - 1);
    }
  }

  lemma {:induction false} ShrHalf(a: nat, s: nat)
    ensures Shr(a, s) / 2 == Shr(a / 2, s)
    decreases s
  {
    if s > 0 {
      ShrHalf(a / 2, s - 1);
    }
  }

  lemma {:induction false} ShrShr(a: nat, s: nat, t: nat)
    ensures Shr(Shr(a, s), t) == Shr(a, s + t)
    decreases s
  {
    if s > 0 {
      ShrShr(a / 2, s - 1, t);
    }
  }

  lemma {:induction false} ShrXor(a: nat, b: nat, s: nat)
    ensures Shr(Xor(a, b), s) == Xor(Shr(a, s), Shr(b, s))
    decreases s
  {
    if s > 0 {
      assert Xor(a, b) / 2 == Xor(a / 2, b / 2);
      ShrXor(a / 2, b / 2, s - 1);
    }
  }

  lemma {:induction false} XorZero(a: nat)
    ensures Xor(a, 0) == a
  {
    if a > 0 {
      XorZero(a / 2);
    }
  }

  lemma {:induction false} XorCancel(a: nat, b: nat)
    ensures Xor(Xor(a, b), b) == a
    decreases a + b
  {
    if a > 0 || b > 0 {
      XorCancel(a / 2, b / 2);
      assert Xor(a, b) / 2 == Xor(a / 2, b / 2);
    }
  }

  /** The step stays inside the word. */
  lemma XorShiftIsWord(x: Word, s: nat)
    ensures XorShift(x, s) < TWO64
  {
    Pow2Of64();
    ShrShr(x, s, 64);
    ShrShr(x, 64, s);
    ShrZero(x, 64);
    ShrXor(x, Shr(x, s), 64);
    ShrOfZero(s);
    ShrZero(XorShift(x, s), 64);
  }

  lemma {:induction false} ShrOfZero(s: nat)
    ensures Shr(0, s) == 0
  {
    if s > 0 {
      ShrOfZero(s - 1);
    }
  }

  /** A right shift by at least half the word is its own inverse under x ^= x >> s. */
  lemma XorShiftInvolution(x: Word, s: nat)
    requires 32 <= s
    ensures XorShift(XorShift(x, s), s) == x
  {
    var h := Shr(x, s);
    Pow2Of64();
    ShrXor(x, h, s);
    ShrShr(x, s, s);
    ShrShr(x, 64, 2 * s - 64);
    ShrZero(x, 64);
    ShrOfZero(2 * s - 64);
    XorZero(h);
    XorCancel(x, h);
  }

  /** Undoes x ^= x >> s for every positive shift, from the top digit down. */
  function UnXorShift(y: nat, s: nat): nat
    requires s > 0
    decreases y
  {
    if y == 0 then 0
    else
      var h := UnXorShift(y / 2, s);
      2 * h + (if y % 2 != Shr(h, s - 1) % 2 then 1 else 0)
  }

  lemma {:induction false} XorShiftUndone(y: nat, s: nat)
    requires s > 0
    ensures XorShift(UnXorShift(y, s), s) == y
    decreases y
  {
    if y == 0 {
      ShrOfZero(s);
    } else {
      var x := UnXorShift(y, s);
      XorShiftUndone(y / 2, s);
      ShrHalf(x, s);
      assert Xor(x, Shr(x, s)) == 2 * Xor(x / 2, Shr(x, s) / 2) + (if x % 2 != Shr(x, s) % 2 then 1 else 0);
    }
  }

  lemma {:induction false} XorShiftInjective(x: nat, y: nat, s: nat)
    requires s > 0
    requires XorShift(x, s) == XorShift(y, s)
    ensures x == y
    decreases x + y
  {
    if x > 0 || y > 0 {
      XorStep(x, s);
      XorStep(y, s);
      XorShiftInjective(x / 2, y / 2, s);
    }
  }

  lemma XorStep(x: nat, s: nat)
    requires s > 0
    ensures XorShift(x, s) == 2 * XorShift(x / 2, s) + (if x % 2 != Shr(x / 2, s - 1) % 2 then 1 else 0)
  {
    ShrHalf(x, s);
    ShrOfZero(s);
    ShrOfZero(s - 1);
  }

  lemma UnXorShiftIsWord(y: Word, s: nat)
    requires s > 0
    ensures UnXorShift(y, s) < TWO64
  {
    Pow2Of64();
    UnXorShiftFits(y, s, 64);
  }

  lemma {:induction false} UnXorShiftFits(y: nat, s: nat, k: nat)
    requires s > 0 && y < Pow2(k)
    ensures UnXorShift(y, s) < Pow2(k)
    decreases y
  {
    if y > 0 {
      UnXorShiftFits(y / 2, s, k - 1);
    }
  }

  // ----- multiplication modulo 2^64

  /** a * inv is 1 modulo m. */
  ghost predicate InverseMod(a: int, inv: int, m: int)
    requires m > 0
  {
    (a * inv - 1) % m == 0
  }

  /** Multiplying by an inverse undoes multiplying by a. */
  lemma MulUndone(x: Word, a: int, inv: int)
    requires InverseMod(a, inv, TWO64)
    ensures Mul(Mul(x, a), inv) == x
  {
    var q := (a * inv - 1) / TWO64;
    var r := (x * a) / TWO64;
    Distribute(x, a, r, inv);
    Expand(x, a * inv, q);
    WrapMultiple(x, x * q - r * inv);
  }

  lemma Distribute(x: int, a: int, r: int, inv: int)
    ensures (x * a - r * TWO64) * inv == x * (a * inv) - r * inv * TWO64
  {
  }

  lemma Expand(x: int, p: int, q: int)
    requires p == 1 + q * TWO64
    ensures x * p == x + x * q * TWO64
  {
  }

  lemma MulCommutes(a: int, b: int)
    ensures Mul(a, b) == Mul(b, a)
    ensures InverseMod(a, b, TWO64) <==> InverseMod(b, a, TWO64)
  {
    assert a * b == b * a;
  }

  // ----- counting in steps of g modulo 2^64

  function Advance(x: Word, k: int, g: Word): Word {
    (x + k * g) % TWO64
  }

  lemma AdvanceAdd(x: Word, j: int, k: int, g: Word)
    ensures Advance(Advance(x, j, g), k, g) == Advance(x, j + k, g)
  {
    var q := (x + j * g) / TWO64;
    assert Advance(x, j, g) == x + j * g - q * TWO64;
    assert (j + k) * g == j * g + k * g;
    WrapMultiple(Advance(x, j, g) + k * g, q);
  }

  lemma WrapMultiple(x: int, q: int)
    ensures (x + q * TWO64) % TWO64 == x % TWO64
  {
  }

  lemma WrapEqual(x: int, y: int)
    ensures x % TWO64 == y % TWO64 <==> (x - y) % TWO64 == 0
  {
  }

  /** Stepping by a unit visits a state again exactly after a multiple of 2^64 steps. */
  lemma AdvancePeriod(x: Word, i: int, j: int, g: Word, inv: int)
    requires InverseMod(g, inv, TWO64)
    ensures Advance(x, i, g) == Advance(x, j, g) <==> i % TWO64 == j % TWO64
  {
    var d := i - j;
    assert (x + i * g) - (x + j * g) == d * g;
    WrapEqual(x + i * g, x + j * g);
    WrapEqual(i, j);
    UnitMultiple(d, g, inv);
  }

  lemma UnitMultiple(d: int, g: int, inv: int)
    requires InverseMod(g, inv, TWO64)
    ensures (d * g) % TWO64 == 0 <==> d % TWO64 == 0
  {
    var q := (g * inv - 1) / TWO64;
    assert g * inv == 1 + q * TWO64;
    if (d * g) % TWO64 == 0 {
      var r := (d * g) / TWO64;
      calc {
        d;
        d * (1 + q * TWO64) - d * q * TWO64;
        d * (g * inv) - d * q * TWO64;
        (d * g) * inv - d * q * TWO64;
        (r * TWO64) * inv - d * q * TWO64;
        0 + (r * inv - d * q) * TWO64;
      }
      WrapMultiple(0, r * inv - d * q);
    }
    if d % TWO64 == 0 {
      var r := d / TWO64;
      assert d * g == 0 + (r * g) * TWO64;
      WrapMultiple(0, r * g);
    }
  }

  /** ... and reaches every state. */
  lemma AdvanceCovers(x: Word, target: Word, g: Word, inv: int) returns (k: nat)
    requires InverseMod(g, inv, TWO64)
    ensures k < TWO64 && Advance(x, k, g) == target
  {
    var q := (g * inv - 1) / TWO64;
    var e := (target - x) * inv;
    k := e % TWO64;
    var r := e / TWO64;
    CoverSum(x, target, g, inv, q, r, k);
    Arrives(x, target, g, k, (target - x) * q - r * g);
  }

  lemma Arrives(x: Word, target: Word, g: Word, k: int, z: int)
    requires x + k * g == target + z * TWO64
    ensures Advance(x, k, g) == target
  {
    WrapMultiple(target, z);
  }

  lemma CoverSum(x: int, target: int, g: int, inv: int, q: int, r: int, k: int)
    requires g * inv == 1 + q * TWO64 && (target - x) * inv == k + r * TWO64
    ensures x + k * g == target + ((target - x) * q - r * g) * TWO64
  {
    var d := target - x;
    calc {
      k * g;
      (d * inv - r * TWO64) * g;
      d * inv * g - r * TWO64 * g;
      d * (g * inv) - r * g * TWO64;
      d * (1 + q * TWO64) - r * g * TWO64;
      d + (d * q - r * g) * TWO64;
    }
  }

  // ----- Go's int

  const MAX_INT := 0x7fff_ffff_ffff_ffff
  const MIN_INT := -0x8000_0000_0000_0000

  predicate IsInt(n: int) {
    MIN_INT <= n <= MAX_INT
  }

  /** The value a 64-bit int holds after an addition that may overflow. */
  function WrapInt(x: int): int {
    if IsInt(x) then x
    else (x + 0x8000_0000_0000_0000) % TWO64 - 0x8000_0000_0000_0000
  }

  lemma WrapIntAdd(x: int, y: int)
    ensures WrapInt(WrapInt(x) + y) == WrapInt(x + y)
  {
    WrapIntShift(x);
    var q := (x - WrapInt(x)) / TWO64;
    WrapIntPeriod(WrapInt(x) + y, q);
  }

  lemma WrapIntShift(x: int)
    ensures IsInt(WrapInt(x))
    ensures (x - WrapInt(x)) % TWO64 == 0
  {
    var y := x + 0x8000_0000_0000_0000;
    assert y == (y / TWO64) * TWO64 + y % TWO64;
  }

  lemma WrapIntPeriod(x: int, q: int)
    ensures WrapInt(x + q * TWO64) == WrapInt(x)
  {
    WrapMultiple(x + 0x8000_0000_0000_0000, q);
  }

  lemma WrapIntSubtract(x: int, y: int)
    ensures WrapInt(WrapInt(x) - WrapInt(y)) == WrapInt(x - y)
  {
    WrapIntShift(x);
    WrapIntShift(y);
    var p, q := (x - WrapInt(x)) / TWO64, (y - WrapInt(y)) / TWO64;
    assert x - y == WrapInt(x) - WrapInt(y) + (p - q) * TWO64;
    WrapIntPeriod(WrapInt(x) - WrapInt(y), p - q);
  }

  // ----- little-endian and big-endian bytes

  /** The low count bytes of n, least significant first. */
  function LittleEndian(n: nat, count: nat): (b: seq<Byte>)
    ensures |b| == count
  {
    if count == 0 then [] else [n % 256] + LittleEndian(n / 256, count - 1)
  }

  function FromLittleEndian(b: seq<Byte>): nat {
    if b == [] then 0 else b[0] + 256 * FromLittleEndian(b[1..])
  }

  function Pow256(count: nat): (r: nat)
    ensures r > 0
  {
    if count == 0 then 1 else 256 * Pow256(count - 1)
  }

  lemma {:induction false} LittleEndianRoundTrip(n: nat, count: nat)
    requires n < Pow256(count)
    ensures FromLittleEndian(LittleEndian(n, count)) == n
    decreases count
  {
    if count > 0 {
      LittleEndianRoundTrip(n / 256, count - 1);
      assert LittleEndian(n, count)[1..] == LittleEndian(n / 256, count - 1);
    }
  }

  /** The low count bytes of n, most significant first. */
  function BigEndian(n: nat, count: nat): (b: seq<Byte>)
    ensures |b| == count
  {
    if count == 0 then [] else BigEndian(n / 256, count - 1) + [n % 256]
  }

  function FromBigEndian(b: seq<Byte>): nat {
    if b == [] then 0 else 256 * FromBigEndian(b[..|b| - 1]) + b[|b| - 1]
  }

  lemma {:induction false} BigEndianRoundTrip(n: nat, count: nat)
    requires n < Pow256(count)
    ensures FromBigEndian(BigEndian(n, count)) == n
    decreases count
  {
    if count > 0 {
      BigEndianRoundTrip(n / 256, count - 1);
      assert BigEndian(n, count)[..count - 1] == BigEndian(n / 256, count - 1);
    }
  }

  lemma {:induction false} BigEndianFits(b: seq<Byte>)
    ensures FromBigEndian(b) < Pow256(|b|)
  {
    if b != [] {
      BigEndianFits(b[..|b| - 1]);
    }
  }

  lemma ByteWidths()
    ensures Pow256(1) == 0x100 && Pow256(2) == 0x1_0000
    ensures Pow256(4) == 0x1_0000_0000 && Pow256(8) == TWO64
  {
    assert Pow256(4) == 256 * Pow256(3) == 0x1_0000 * Pow256(2) == 0x100_0000 * Pow256(1) == 0x1_0000_0000;
    assert Pow256(8) == 256 * Pow256(7) == 0x1_0000 * Pow256(6) == 0x100_0000 * Pow256(5) == 0x1_0000_0000 * Pow256(4);
  }
}
