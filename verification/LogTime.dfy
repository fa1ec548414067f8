/** The date and time prefix of Go's log package, written through a 20-byte decimal buffer. */
module LogTime {
  import Collections
  import Words

  /** The conversion to a byte. */
  function ByteOf(n: int): char {
    (n % 256) as char
  }

  /** Division by ten as Go has it, towards zero. */
  function Quot(i: int): int {
    if i >= 0 then i / 10 else -(-i / 10)
  }

  /** What that division leaves, with the sign of i. */
  function Rem(i: int): (r: int)
    ensures -10 < r < 10 && (i >= 0 ==> r >= 0)
  {
    i - Quot(i) * 10
  }

  /** The w bytes itoa makes of i: one per digit from the end, and what is left in the first. */
  function Padded(i: int, w: nat): (s: string)
    requires w > 0
    ensures |s| == w
    decreases w
  {
    if w == 1 then [ByteOf('0' as int + i)] else Padded(Quot(i), w - 1) + [ByteOf('0' as int + Rem(i))]
  }

  function DigitCount(i: int): (n: nat)
    ensures n > 0
  {
    if i < 10 then 1 else 1 + DigitCount(i / 10)
  }

  /** As many bytes as asked for, and as many as the number needs. */
  function Width(i: int, wid: int): (n: nat)
    ensures n > 0
  {
    if wid > DigitCount(i) then wid else DigitCount(i)
  }

  function Pow10(k: nat): (r: nat)
    ensures r > 0
  {
    if k == 0 then 1 else 10 * Pow10(k - 1)
  }

  lemma {:induction false} DigitsFit(i: nat, k: nat)
    requires k > 0
    ensures DigitCount(i) <= k <==> i < Pow10(k)
    decreases k
  {
    if k > 1 && i >= 10 {
      DigitsFit(i / 10, k - 1);
    } else if k > 1 {
      assert Pow10(k) == 100 * Pow10(k - 2);
    }
  }

  lemma IntFits(i: int)
    requires Words.IsInt(i)
    ensures DigitCount(i) <= 19
  {
    assert Pow10(4) == 10 * Pow10(3) == 100 * Pow10(2) == 1000 * Pow10(1) == 10_000;
    assert Pow10(8) == 10 * Pow10(7) == 100 * Pow10(6) == 1000 * Pow10(5) == 10_000 * Pow10(4);
    assert Pow10(12) == 10 * Pow10(11) == 100 * Pow10(10) == 1000 * Pow10(9) == 10_000 * Pow10(8);
    assert Pow10(16) == 10 * Pow10(15) == 100 * Pow10(14) == 1000 * Pow10(13) == 10_000 * Pow10(12);
    assert Pow10(19) == 10 * Pow10(18) == 100 * Pow10(17) == 1000 * Pow10(16);
    if i >= 0 {
      DigitsFit(i, 19);
    }
  }

  datatype Stamp = Stamp(year: int, month: nat, day: nat, hour: nat, minute: nat, second: nat)

  class LogBuffer {
    var b: string

    constructor ()
      ensures b == ""
    {
      b := "";
    }

    static method Put(a: array<char>, bp: int, ghost from: int, digit: char)
      requires 0 <= bp < a.Length && from == bp + 1
      modifies a
      ensures a[bp..] == [digit] + old(a[from..])
    {
      a[bp] := digit;
    }

    /** The digits of i, written from the end of the array. */
    static method Digits(a: array<char>, i: int, wid: int) returns (bp: int)
      requires Width(i, wid) <= a.Length
      modifies a
      ensures 0 <= bp < a.Length && a[bp..] == Padded(i, Width(i, wid))
    {
      ghost var from, all := a.Length, Padded(i, Width(i, wid));
      var n, w := i, wid;
      bp := a.Length - 1;
      while n >= 10 || w > 1
        invariant Width(n, w) - 1 <= bp == from - 1 < a.Length
        invariant all == Padded(n, Width(n, w)) + a[from..]
        decreases Width(n, w)
      {
        var q := Quot(n);
        var digit := ByteOf('0' as int + n - q * 10);
        SplitLast(n, w, q, w - 1, digit, a[from..]);
        w := w - 1;
        Put(a, bp, from, digit);
        from := bp;
        bp := bp - 1;
        n := q;
      }
      Put(a, bp, from, ByteOf('0' as int + n));
    }

    /** itoa: appends exactly Width(i, wid) bytes, and never leaves its array. */
    method Itoa(i: int, wid: int)
      requires Words.IsInt(i) && wid <= 20
      modifies this
      ensures b == old(b) + Padded(i, Width(i, wid))
    {
      var a := new char[20](_ => '\0');
      IntFits(i);
      var bp := Digits(a, i, wid);
      b := b + a[bp..];
    }

    /** The Ldate and Ltime header. */
    method Std(t: Stamp)
      requires InRange(t)
      modifies this
      ensures b == old(b) + LogStd(t)
    {
      Itoa(t.year, 4);
      After("/", t.month);
      After("/", t.day);
      After(" ", t.hour);
      After(":", t.minute);
      After(":", t.second);
    }

    method After(separator: string, i: nat)
      requires i < 100
      modifies this
      ensures b == old(b) + (separator + Padded(i, 2))
    {
      b := b + separator;
      Itoa(i, 2);
      TwoDigits(i);
    }
  }

  /** One turn of the loop: the last digit moves to the buffer. */
  lemma SplitLast(n: int, w: int, q: int, v: int, digit: char, tail: string)
    requires (n >= 10 || w > 1) && q == Quot(n) && v == w - 1 && digit == ByteOf('0' as int + Rem(n))
    ensures Width(q, v) == Width(n, w) - 1
    ensures Padded(n, Width(n, w)) + tail == Padded(q, Width(q, v)) + ([digit] + tail)
  {
    DropDigit(n, w);
    Collections.Associative(Padded(q, Width(q, v)), [digit], tail);
  }

  lemma DropDigit(n: int, w: int)
    requires n >= 10 || w > 1
    ensures Width(Quot(n), w - 1) == Width(n, w) - 1
  {
    assert n < 10 ==> DigitCount(Quot(n)) == 1;
  }

  /** A time as it is split into a date and a clock. */
  predicate InRange(t: Stamp) {
    && Words.IsInt(t.year)
    && t.month < 100 && t.day < 100 && t.hour < 100 && t.minute < 100 && t.second < 100
  }

  function LogStd(t: Stamp): string {
    Padded(t.year, Width(t.year, 4)) + "/" + Padded(t.month, 2) + "/" + Padded(t.day, 2) + " " +
    Padded(t.hour, 2) + ":" + Padded(t.minute, 2) + ":" + Padded(t.second, 2)
  }

  lemma TwoDigits(i: nat)
    requires i < 100
    ensures Width(i, 2) == 2
  {
    assert i >= 10 ==> DigitCount(i / 10) == 1;
  }

  // ----- what the bytes mean

  predicate IsDigit(c: char) {
    '0' <= c <= '9'
  }

  /** The number that decimal digits stand for. */
  function Value(s: string): int {
    if s == "" then 0 else 10 * Value(s[..|s| - 1]) + (s[|s| - 1] as int - '0' as int)
  }

  lemma DigitByte(r: int)
    requires 0 <= r < 10
    ensures IsDigit(ByteOf('0' as int + r)) && ByteOf('0' as int + r) as int - '0' as int == r
  {
  }

  lemma {:induction false} PaddedDigits(i: nat, w: nat)
    requires w > 0 && i < Pow10(w)
    ensures AreDigits(Padded(i, w))
    decreases w
  {
    if w == 1 {
      DigitByte(i);
    } else {
      PaddedDigits(i / 10, w - 1);
      DigitByte(Rem(i));
    }
  }

  lemma {:induction false} PaddedValue(i: nat, w: nat)
    requires w > 0 && i < Pow10(w)
    ensures Value(Padded(i, w)) == i
    decreases w
  {
    if w == 1 {
      DigitByte(i);
      ValueNext("", ByteOf('0' as int + i));
      assert "" + [ByteOf('0' as int + i)] == Padded(i, 1);
    } else {
      PaddedValue(i / 10, w - 1);
      DigitByte(Rem(i));
      ValueNext(Padded(i / 10, w - 1), ByteOf('0' as int + Rem(i)));
    }
  }

  predicate AreDigits(s: string) {
    forall k :: 0 <= k < |s| ==> IsDigit(s[k])
  }

  lemma ValueNext(s: string, c: char)
    ensures Value(s + [c]) == 10 * Value(s) + (c as int - '0' as int)
  {
    assert (s + [c])[..|s|] == s;
  }

  /** Numbers that are not negative: decimal digits that read back as the number. */
  lemma WideEnough(i: nat, wid: int)
    ensures var s := Padded(i, Width(i, wid));
            AreDigits(s) && Value(s) == i
  {
    DigitsFit(i, Width(i, wid));
    PaddedDigits(i, Width(i, wid));
    PaddedValue(i, Width(i, wid));
  }

  /** Numbers that get the same bytes when the last of them show the digits below m, a power of ten:
      these digits are the same, sign included, and what is left for the first byte differs by a
      multiple of 256. */
  predicate Collide(i: int, j: int, m: int)
    requires m > 0
  {
    (i - j) % (256 * m) == 0 && (i % m == 0 || (i < 0) == (j < 0))
  }

  /** The w bytes of two numbers are equal exactly when the numbers collide. */
  lemma {:induction false} PaddedEqual(i: int, j: int, w: nat)
    requires w > 0
    ensures Padded(i, w) == Padded(j, w) <==> Collide(i, j, Pow10(w - 1))
    decreases w
  {
    if w == 1 {
      FirstEqual(i, j);
    } else {
      PaddedEqual(Quot(i), Quot(j), w - 1);
      LastEqual(i, j, w);
      CollideNext(i, j, Pow10(w - 2));
    }
  }

  lemma FirstEqual(i: int, j: int)
    ensures Padded(i, 1) == Padded(j, 1) <==> Collide(i, j, 1)
  {
    assert Padded(i, 1) == Padded(j, 1) <==> Padded(i, 1)[0] == Padded(j, 1)[0];
    assert (48 + i) % 256 == (48 + j) % 256 <==> (i - j) % 256 == 0;
  }

  lemma LastEqual(i: int, j: int, w: nat)
    requires w > 1
    ensures Padded(i, w) == Padded(j, w) <==> Rem(i) == Rem(j) && Padded(Quot(i), w - 1) == Padded(Quot(j), w - 1)
  {
    var s, t := Padded(i, w), Padded(j, w);
    assert s[..w - 1] == Padded(Quot(i), w - 1) && t[..w - 1] == Padded(Quot(j), w - 1);
    assert s[w - 1] == ByteOf('0' as int + Rem(i)) && t[w - 1] == ByteOf('0' as int + Rem(j));
    assert (48 + Rem(i)) % 256 == (48 + Rem(j)) % 256 <==> Rem(i) == Rem(j);
  }

  /** One digit more. */
  lemma CollideNext(i: int, j: int, m: int)
    requires m > 0
    ensures Collide(i, j, 10 * m) <==> Rem(i) == Rem(j) && Collide(Quot(i), Quot(j), m)
  {
    var p, q, n := Quot(i), Quot(j), 256 * m;
    SameAbove(i, j, n);
    RoundNumber(i, m);
    MoreDivides(p, m);
    var far, round := (i - j) % (10 * n) == 0, i % (10 * m) == 0;
    var near, roundAbove := (p - q) % n == 0, p % m == 0;
    assert Collide(i, j, 10 * m) == (far && (round || (i < 0) == (j < 0)));
    assert Collide(p, q, m) == (near && (roundAbove || (p < 0) == (q < 0)));
    if Rem(i) == Rem(j) {
      Signs(i, j);
    }
    assert near && q == 0 ==> roundAbove;
    Division(0, m, 0, 0);
  }

  lemma Signs(i: int, j: int)
    requires Rem(i) == Rem(j)
    ensures (i < 0) == (j < 0) ==> (Quot(i) < 0) == (Quot(j) < 0) || Quot(i) == 0 || Quot(j) == 0
    ensures (i < 0) != (j < 0) ==> Rem(i) == 0
    ensures Rem(i) == 0 ==> (Quot(i) < 0) == (i < 0) && (Quot(j) < 0) == (j < 0)
  {
  }

  lemma MoreDivides(p: int, m: int)
    requires m > 0
    ensures p % (256 * m) == 0 ==> p % m == 0
  {
    if p % (256 * m) == 0 {
      var q := p / (256 * m);
      assert p == 256 * m * q == m * (256 * q);
      Division(p, m, 256 * q, 0);
    }
  }

  lemma SameAbove(i: int, j: int, n: int)
    requires n > 0
    ensures Rem(i) == Rem(j) ==> ((i - j) % (10 * n) == 0 <==> (Quot(i) - Quot(j)) % n == 0)
    ensures (i - j) % (10 * n) == 0 && (Rem(i) == 0 || (i < 0) == (j < 0)) ==> Rem(i) == Rem(j)
  {
    TenTimes(i - j, n);
    if Rem(i) == Rem(j) {
      SameRem(i, j);
    } else if (i - j) % 10 == 0 && (Rem(i) == 0 || (i < 0) == (j < 0)) {
      SameSide(i, j);
    }
  }

  lemma SameRem(i: int, j: int)
    requires Rem(i) == Rem(j)
    ensures (i - j) % 10 == 0 && (i - j) / 10 == Quot(i) - Quot(j)
  {
  }

  lemma SameSide(i: int, j: int)
    requires (i - j) % 10 == 0 && (Rem(i) == 0 || (i < 0) == (j < 0))
    ensures Rem(i) == Rem(j)
  {
  }

  lemma RoundNumber(i: int, m: int)
    requires m > 0
    ensures i % (10 * m) == 0 <==> Rem(i) == 0 && Quot(i) % m == 0
  {
    TenTimes(i, m);
  }

  /** Divisible by ten n: divisible by ten, and then by n. */
  lemma TenTimes(x: int, n: int)
    requires n > 0
    ensures x % (10 * n) == 0 <==> x % 10 == 0 && (x / 10) % n == 0
  {
    var q, r := (x / 10) / n, (x / 10) % n;
    assert x / 10 == n * q + r;
    Division(x, 10 * n, q, 10 * r + x % 10) by {
      assert (10 * n) * q == 10 * (n * q);
    }
  }

  /** Quotient and remainder are unique. */
  lemma Division(x: int, n: int, q: int, r: int)
    requires x == n * q + r && 0 <= r < n
    ensures x / n == q && x % n == r
  {
    var p := x / n - q;
    assert n * p == n * (x / n) - n * q;
    assert p >= 1 ==> n * p >= n;
    assert p <= -1 ==> n * p <= -n;
  }

  /** The header is 19 bytes exactly for years up to 9999. */
  lemma HeaderLength(t: Stamp)
    ensures |LogStd(t)| == 15 + Width(t.year, 4)
    ensures |LogStd(t)| == 19 <==> t.year <= 9999
  {
    assert |LogStd(t)| == 15 + Width(t.year, 4);
    if t.year >= 0 {
      TenThousand();
      DigitsFit(t.year, 4);
    }
  }

  lemma TenThousand()
    ensures Pow10(4) == 10_000
  {
    assert Pow10(4) == 10 * Pow10(3) == 100 * Pow10(2) == 1000 * Pow10(1);
  }

  /** Years up to 9999 that have the same four bytes. */
  predicate SameYear(y: int, z: int) {
    y == z || (y <= 9999 && z <= 9999 && Collide(y, z, 1000))
  }

  lemma YearsEqual(y: int, z: int)
    ensures Padded(y, Width(y, 4)) == Padded(z, Width(z, 4)) <==> SameYear(y, z)
  {
    YearWidth(y);
    YearWidth(z);
    if Width(y, 4) == Width(z, 4) {
      PaddedEqual(y, z, Width(y, 4));
      if y > 9999 {
        NoneCollide(y, z, Pow10(Width(y, 4) - 1));
      }
    }
  }

  lemma YearWidth(y: int)
    ensures Width(y, 4) == 4 <==> y <= 9999
    ensures Pow10(3) == 1000 && (y >= 0 ==> y < 10 * Pow10(Width(y, 4) - 1))
  {
    assert Pow10(4) == 10 * Pow10(3) == 100 * Pow10(2) == 1000 * Pow10(1);
    if y >= 0 {
      DigitsFit(y, 4);
      DigitsFit(y, Width(y, 4));
    }
  }

  /** Numbers with as many digits as there are bytes do not collide. */
  lemma NoneCollide(y: nat, z: nat, m: int)
    requires m > 0 && y < 10 * m && z < 10 * m
    ensures Collide(y, z, m) <==> y == z
  {
    if y >= z {
      Division(y - z, 256 * m, 0, y - z);
    } else {
      Division(y - z, 256 * m, -1, y - z + 256 * m);
    }
  }

  /** Two headers are equal exactly when the times differ at most in the year, and the years are one
      or collide. */
  lemma HeadersEqual(t: Stamp, u: Stamp)
    requires InRange(t) && InRange(u)
    ensures LogStd(t) == LogStd(u) <==> u == t.(year := u.year) && SameYear(t.year, u.year)
  {
    YearsEqual(t.year, u.year);
    if LogStd(t) == LogStd(u) {
      HeaderLength(t);
      HeaderLength(u);
      Fields(t);
      Fields(u);
      SameField(t.month, u.month);
      SameField(t.day, u.day);
      SameField(t.hour, u.hour);
      SameField(t.minute, u.minute);
      SameField(t.second, u.second);
    }
  }

  /** Different times have different headers, down to the year -246999 and beyond the year 9999. */
  lemma HeaderInjective(t: Stamp, u: Stamp)
    requires InRange(t) && InRange(u) && t.year > -247_000 && u.year > -247_000 && LogStd(t) == LogStd(u)
    ensures t == u
  {
    HeadersEqual(t, u);
    if t.year > u.year {
      NoneInWindow(t.year, u.year);
    } else if u.year > t.year {
      NoneInWindow(u.year, t.year);
    }
  }

  lemma NoneInWindow(y: int, z: int)
    requires -247_000 < z < y
    ensures !SameYear(y, z) && !SameYear(z, y)
  {
    if y <= 9999 && (y - z) % 256_000 == 0 {
      assert y - z == 256_000;
      assert 9000 < y;
    }
  }

  lemma SameField(i: nat, j: nat)
    requires i < 100 && j < 100 && Padded(i, 2) == Padded(j, 2)
    ensures i == j
  {
    assert Pow10(1) == 10;
    PaddedEqual(i, j, 2);
    NoneCollide(i, j, 10);
  }

  lemma Fields(t: Stamp)
    ensures var w, s := Width(t.year, 4), LogStd(t);
            && |s| == w + 15
            && s[..w] == Padded(t.year, w)
            && s[w + 1..w + 3] == Padded(t.month, 2)
            && s[w + 4..w + 6] == Padded(t.day, 2)
            && s[w + 7..w + 9] == Padded(t.hour, 2)
            && s[w + 10..w + 12] == Padded(t.minute, 2)
            && s[w + 13..] == Padded(t.second, 2)
  {
  }

  /** The year before that has the header of the year 9000. */
  lemma HeaderCollides(t: Stamp, u: Stamp)
    requires InRange(t) && t.year == -247_000 && u == t.(year := 9000)
    ensures LogStd(t) == LogStd(u)
  {
    HeadersEqual(t, u);
    assert Collide(t.year, u.year, 1000) by {
      Division(t.year - u.year, 256_000, -1, 0);
    }
  }
}
