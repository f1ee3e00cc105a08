/** Machine words as integers, powers of two, and the two bit-counting intrinsics. */
module Words {
  newtype byte = x: int | 0 <= x < 256
  type uint64 = x: int | 0 <= x < TWO64
  type int64 = x: int | -TWO63 <= x < TWO63

  const TWO31 := 0x8000_0000
  const TWO32 := 0x1_0000_0000
  const TWO52 := 0x10_0000_0000_0000
  const TWO63 := 0x8000_0000_0000_0000
  const TWO64 := 0x1_0000_0000_0000_0000
  const INT_MAX := 0x7FFF_FFFF
  const INT_MIN := -0x8000_0000

  /** Conversion of an out-of-range integer to a 32-bit signed int, and to a 64-bit one. */
  function ToInt32(x: int): int { (x + TWO31) % TWO32 - TWO31 }
  function ToInt64(x: int): int64 { (x + TWO63) % TWO64 - TWO63 }

  function Max(a: nat, b: nat): nat { if a < b then b else a }

  // ----- powers of two

  function Pow2(n: nat): (p: nat)
    ensures p >= 1
  {
    if n == 0 then 1 else 2 * Pow2(n - 1)
  }

  lemma {:induction false} Pow2Add(a: nat, b: nat)
    ensures Pow2(a + b) == Pow2(a) * Pow2(b)
  {
    if b > 0 {
      Pow2Add(a, b - 1);
      calc {
        Pow2(a + b);
        2 * Pow2(a + (b - 1));
        2 * (Pow2(a) * Pow2(b - 1));
        Pow2(a) * (2 * Pow2(b - 1));
      }
    }
  }

  lemma {:induction false} Pow2Less(a: nat, b: nat)
    requires a < b
    ensures 2 * Pow2(a) <= Pow2(b)
  {
    if a + 1 < b {
      Pow2Less(a, b - 1);
    }
  }

  lemma Pow2Values()
    ensures Pow2(4) == 16 && Pow2(8) == 256 && Pow2(10) == 1024 && Pow2(11) == 2048 && Pow2(12) == 4096
    ensures Pow2(31) == TWO31 && Pow2(32) == TWO32 && Pow2(52) == TWO52 && Pow2(53) == 2 * TWO52
    ensures Pow2(63) == TWO63 && Pow2(64) == TWO64
  {
    assert Pow2(12) == 4096;
    assert Pow2(24) == 0x100_0000 by { Pow2Add(12, 12); }
    assert Pow2(31) == TWO31 by { Pow2Add(24, 7); }
    assert Pow2(52) == TWO52 by { Pow2Add(24, 24); Pow2Add(48, 4); }
    assert Pow2(63) == TWO63 by { Pow2Add(52, 11); }
    assert Pow2(31 + 1) == 2 * Pow2(31) && Pow2(52 + 1) == 2 * Pow2(52) && Pow2(63 + 1) == 2 * Pow2(63);
  }

  lemma MulMono(a: int, b: int, c: int)
    requires a <= b && 0 <= c
    ensures a * c <= b * c
  {
    assert (b - a) * c >= 0;
  }

  // ----- division by powers of two

  lemma SmallMultiple(k: int, d: int)
    requires -d < k * d < d
    ensures k == 0
  {
    assert k >= 1 ==> (k - 1) * d >= 0;
    assert k <= -1 ==> (-1 - k) * d >= 0;
  }

  /** The quotient is determined by the interval the dividend lies in. */
  lemma DivUnique(x: int, d: int, q: int)
    requires d > 0 && 0 <= x - q * d < d
    ensures x / d == q
  {
    assert (x / d - q) * d == (x / d) * d - q * d == x - x % d - q * d;
    SmallMultiple(x / d - q, d);
  }

  lemma DivDiv(x: nat, a: nat, b: nat)
    requires a > 0 && b > 0
    ensures a * b > 0 && x / (a * b) == (x / a) / b
  {
    var q, r := x / a, (x / a) / b;
    var i, j := x % a, q % b;
    assert q == b * r + j;
    assert x == a * q + i == a * (b * r) + a * j + i;
    assert a * (b * r) == r * (a * b);
    MulMono(j + 1, b, a);
    assert (j + 1) * a == a * j + a;
    DivUnique(x, a * b, r);
  }

  // ----- bit length and leading zeros

  function BitLen(v: nat): nat {
    if v == 0 then 0 else 1 + BitLen(v / 2)
  }

  lemma {:induction false} BitLenBounds(v: nat)
    requires v > 0
    ensures BitLen(v) > 0 && Pow2(BitLen(v) - 1) <= v < Pow2(BitLen(v))
  {
    if v > 1 {
      BitLenBounds(v / 2);
    }
  }

  lemma BitLenUnique(v: nat, n: nat)
    requires Pow2(n) <= v < Pow2(n + 1)
    ensures BitLen(v) == n + 1
  {
    BitLenBounds(v);
    var m := BitLen(v) - 1;
    if m < n {
      Pow2Less(m, n);
    } else if n < m {
      Pow2Less(n, m);
    }
  }

  lemma BitLenScale(v: nat, k: nat)
    requires v > 0
    ensures v * Pow2(k) > 0 && BitLen(v * Pow2(k)) == BitLen(v) + k
  {
    BitLenBounds(v);
    var n := BitLen(v) - 1;
    Pow2Add(n, k);
    Pow2Add(n + 1, k);
    MulMono(Pow2(n), v, Pow2(k));
    MulMono(v + 1, Pow2(n + 1), Pow2(k));
    assert (v + 1) * Pow2(k) == v * Pow2(k) + Pow2(k);
    assert n + 1 + k == (n + k) + 1;
    BitLenUnique(v * Pow2(k), n + k);
  }

  lemma BitLenFits(v: nat, n: nat)
    ensures v < Pow2(n) <==> BitLen(v) <= n
  {
    if v > 0 {
      BitLenBounds(v);
      var m := BitLen(v);
      if m < n { Pow2Less(m, n); }
      if n < m && n < m - 1 { Pow2Less(n, m - 1); }
    }
  }

  /** The count of zero bits above the highest one bit of a 64-bit word (64 for the word 0). */
  function LeadingZeros(v: uint64): (n: nat)
    ensures n == 64 <==> v == 0
    ensures n <= 64
  {
    assert BitLen(v) <= 64 by { Pow2Values(); BitLenFits(v, 64); }
    64 - BitLen(v)
  }

  /** The word shifted left, bits leaving at the top. */
  function ShiftLeft(v: uint64, k: nat): uint64 { (v * Pow2(k)) % TWO64 }

  lemma ShiftFour(v: uint64)
    ensures ShiftLeft(v, 4) == (16 * v) % TWO64
  {
    assert Pow2(4) == 16;
  }

  lemma ShiftLeftFits(v: uint64, k: nat)
    requires v * Pow2(k) < TWO64
    ensures ShiftLeft(v, k) == v * Pow2(k)
  {
  }

  /** A shift left by `k` keeps every bit of `v` exactly when `k` is at most the leading-zero count. */
  lemma ShiftFits(v: uint64, k: nat)
    requires v > 0
    ensures v * Pow2(k) < TWO64 <==> k <= LeadingZeros(v)
  {
    BitLenScale(v, k);
    BitLenFits(v * Pow2(k), 64);
    Pow2Values();
  }

  // ----- trailing zeros and the odd part

  function TrailingZeros(v: nat): nat
    requires v > 0
  {
    if v % 2 == 1 then 0 else 1 + TrailingZeros(v / 2)
  }

  function OddPart(v: nat): (o: nat)
    requires v > 0
    ensures o % 2 == 1
  {
    if v % 2 == 1 then v else OddPart(v / 2)
  }

  lemma {:induction false} OddPartScale(v: nat)
    requires v > 0
    ensures v == OddPart(v) * Pow2(TrailingZeros(v))
    ensures v / Pow2(TrailingZeros(v)) == OddPart(v)
  {
    if v % 2 == 0 {
      OddPartScale(v / 2);
      Double(OddPart(v / 2), TrailingZeros(v / 2));
    }
    DivExact(OddPart(v), Pow2(TrailingZeros(v)));
  }

  lemma Double(o: int, k: nat)
    ensures o * Pow2(k + 1) == 2 * (o * Pow2(k))
  {
    assert o * (2 * Pow2(k)) == 2 * (o * Pow2(k));
  }

  lemma DivExact(q: int, d: int)
    requires d > 0
    ensures (q * d) / d == q && (q * d) % d == 0
  {
    assert (q + 1) * d == q * d + d;
    DivUnique(q * d, d, q);
  }

  lemma OddPartBound(v: nat, n: nat)
    requires 0 < v < Pow2(n)
    ensures OddPart(v) <= v && TrailingZeros(v) < n
  {
    hide Pow2, OddPart, TrailingZeros;
    var o, t := OddPart(v), TrailingZeros(v);
    OddPartScale(v);
    MulMono(1, Pow2(t), o);
    MulMono(1, o, Pow2(t));
    if t > n { Pow2Less(n, t); }
  }

  lemma TimesOne(o: int)
    ensures o * Pow2(0) == o
  {
  }

  lemma {:induction false} OddPartOfScaled(o: nat, k: nat)
    requires o % 2 == 1
    ensures o * Pow2(k) > 0
    ensures OddPart(o * Pow2(k)) == o && TrailingZeros(o * Pow2(k)) == k
  {
    if k == 0 {
      TimesOne(o);
    } else {
      hide Pow2, OddPart, TrailingZeros;
      OddPartOfScaled(o, k - 1);
      Double(o, k - 1);
      OddPartOfDouble(o * Pow2(k), o * Pow2(k - 1));
    }
  }

  lemma OddPartOfDouble(v: nat, w: nat)
    requires w > 0 && v == 2 * w
    ensures OddPart(v) == OddPart(w) && TrailingZeros(v) == TrailingZeros(w) + 1
  {
    assert v % 2 == 0 && v / 2 == w;
  }

  /** A scaled odd number determines both the odd number and the scale. */
  lemma OddScaleUnique(a: nat, i: nat, b: nat, j: nat)
    requires a % 2 == 1 && b % 2 == 1
    requires a * Pow2(i) == b * Pow2(j)
    ensures a == b && i == j
  {
    OddPartOfScaled(a, i);
    OddPartOfScaled(b, j);
  }

  /** The low `k` bits of `v` are clear exactly when `v` has at least `k` trailing zeros. */
  lemma {:induction false} LowBitsClear(v: nat, k: nat)
    requires v > 0
    ensures v % Pow2(k) == 0 <==> k <= TrailingZeros(v)
  {
    if k > 0 {
      ModDouble(v / 2, Pow2(k - 1));
      if v % (2 * Pow2(k - 1)) == 0 { MultipleOfEven(v, Pow2(k - 1)); }
      if v % 2 == 0 {
        LowBitsClear(v / 2, k - 1);
      }
    } else {
      assert v % 1 == 0;
    }
  }

  lemma MultipleOfEven(v: nat, m: nat)
    requires m > 0 && v % (2 * m) == 0
    ensures v % 2 == 0
  {
    var q := v / (2 * m);
    assert v == (2 * m) * q == 2 * (m * q);
  }

  lemma ModDouble(w: nat, m: nat)
    requires m > 0
    ensures (2 * w) % (2 * m) == 2 * (w % m)
  {
    var q := w / m;
    assert q * (2 * m) == 2 * (q * m) && (q + 1) * (2 * m) == 2 * (q * m) + 2 * m;
    DivUnique(2 * w, 2 * m, q);
  }

  lemma ScaleSplit(o: int, i: nat, j: nat)
    ensures o * Pow2(i + j) == (o * Pow2(i)) * Pow2(j)
  {
    Pow2Add(i, j);
    assert o * (Pow2(i) * Pow2(j)) == (o * Pow2(i)) * Pow2(j);
  }
}
