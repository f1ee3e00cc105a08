/** Reassembling a binary64 word from a significand and an exponent: `build_double` and `buildFloat64`. */
module Floats {
  import opened Words
  import opened Numbers

  lemma TopBitSet(sig: uint64)
    requires sig > 0
    ensures TWO63 <= sig * Pow2(LeadingZeros(sig)) < TWO64
  {
    hide Pow2, BitLen;
    var k := LeadingZeros(sig);
    BitLenScale(sig, k);
    BitLenBounds(sig * Pow2(k));
    Pow2Values();
  }

  /** `sig` moved up so that its leading one is the top bit of the word. */
  function Normalised(sig: uint64): (s: uint64)
    requires sig > 0
    ensures TWO63 <= s
  {
    TopBitSet(sig);
    sig * Pow2(LeadingZeros(sig))
  }

  /** The exponent of the leading one bit of `sig * 2^exp`. */
  function LeadingExponent(sig: uint64, exp: int): int { exp + 63 - LeadingZeros(sig) }

  /** The rounding step on the fraction moved to the top of the word: bit 11 decides whether a carry is added, wrapping. */
  function Carry(f: uint64): uint64 {
    if (f / 2048) % 2 == 1 then (f + 2048) % TWO64 else f
  }

  /** The fifty-two fraction bits, the leading one having been shifted out of the word. */
  function RoundedFraction(sig: uint64): (f: nat)
    requires sig > 0
    ensures f < TWO52
  {
    Carry(ShiftLeft(sig, LeadingZeros(sig) + 1)) / 4096
  }

  /** The word for a significand whose leading exponent has been computed as `e`. */
  function Encode(neg: bool, sig: uint64, e: int): uint64
    requires sig > 0
  {
    if e < -1022 then Assemble(neg, 0, 0)
    else if e > 1023 then Assemble(neg, 2047, 0)
    else Assemble(neg, 1023 + e, RoundedFraction(sig))
  }

  /** The Go version, whose exponent is wide enough not to wrap. */
  function BuildFloat64(neg: bool, sig: uint64, exp: int): uint64 {
    if sig == 0 then 0 else Encode(neg, sig, LeadingExponent(sig, exp))
  }

  /** The C version, whose exponent is stored back into a 32-bit int. */
  function BuildDouble(neg: bool, sig: uint64, exp: int): uint64 {
    if sig == 0 then 0 else Encode(neg, sig, ToInt32(LeadingExponent(sig, exp)))
  }

  /** The fifty-three bits below the leading one are all ones, so the rounding carry leaves the word. */
  predicate RoundWraps(sig: uint64)
    requires sig > 0
  {
    Normalised(sig) >= TWO64 - 1024
  }

  lemma CarryBit(q: nat, r: nat)
    requires q < TWO52 && r < 4096
    ensures ((4096 * q + r) / 2048) % 2 == 1 <==> r >= 2048
  {
    DivUnique(4096 * q + r, 2048, if r >= 2048 then 2 * q + 1 else 2 * q);
  }

  /** The carry on a word split at bit 12. */
  lemma CarrySplit(q: nat, r: nat)
    requires q < TWO52 && r < 4096
    ensures Carry(4096 * q + r) / 4096 == if r < 2048 then q else if q == TWO52 - 1 then 0 else q + 1
  {
    CarryBit(q, r);
    if r < 2048 {
      DivUnique(4096 * q + r, 4096, q);
    } else if q < TWO52 - 1 {
      DivUnique(4096 * q + r + 2048, 4096, q + 1);
    } else {
      DivUnique(4096 * q + r + 2048, TWO64, 1);
    }
  }

  lemma CarryRounds(s: uint64)
    requires TWO63 <= s
    ensures var m := (TWO52 + Carry(2 * s - TWO64) / 4096) * 2048;
            && (if s >= TWO64 - 1024 then m == TWO63 else s - 1024 < m <= s + 1024)
            && (m == s <==> s % 2048 == 0)
  {
    hide Carry;
    var h := s - TWO63;
    var q, x := h / 2048, h % 2048;
    assert 2 * s - TWO64 == 4096 * q + 2 * x;
    assert s % 2048 == x by { DivUnique(s, 2048, TWO52 + q); }
    CarrySplit(q, 2 * x);
  }

  /** The rounded significand, at the scale of the normalised one. */
  function Rounded(sig: uint64): nat
    requires sig > 0
  {
    (TWO52 + RoundedFraction(sig)) * 2048
  }

  lemma FractionRounds(sig: uint64)
    requires sig > 0
    ensures var s, m := Normalised(sig), Rounded(sig);
            && (if RoundWraps(sig) then m == TWO63 else s - 1024 < m <= s + 1024)
            && (m == s <==> s % 2048 == 0)
  {
    hide Carry, LeadingZeros, Pow2;
    var s := Normalised(sig);
    Double(sig, LeadingZeros(sig));
    assert (2 * s) % TWO64 == 2 * s - TWO64;
    CarryRounds(s);
  }

  lemma SignificandScaled(sig: uint64, exp: int)
    requires sig > 0
    ensures Scale(sig, exp) == Scale(Normalised(sig), LeadingExponent(sig, exp) - 63)
  {
    ScaleShift(sig, LeadingZeros(sig), exp - LeadingZeros(sig));
  }

  lemma SizeScaled(u: uint64)
    requires IsNormal(u)
    ensures Size(u) == Scale((TWO52 + Fraction(u)) * 2048, ExponentBits(u) - 1023 - 63)
  {
    Pow2Values();
    ScaleShift(TWO52 + Fraction(u), 11, ExponentBits(u) - 1023 - 63);
  }

  lemma ScaleMinus(a: int, b: int, e: int)
    ensures Scale(a, e) - Scale(b, e) == Scale(a - b, e)
  {
  }

  function Gap(a: real, b: real): real { if a < b then b - a else a - b }

  function GapInt(a: int, b: int): nat { if a < b then b - a else a - b }

  lemma GapScaled(a: int, b: int, e: int)
    ensures Gap(Scale(a, e), Scale(b, e)) == Scale(GapInt(a, b), e)
  {
    ScaleOrder(a, b, e);
    ScaleMinus(a, b, e);
    ScaleMinus(b, a, e);
  }

  /** In the normal range the word built has the rounded significand. */
  lemma BuiltInRange(neg: bool, sig: uint64, exp: int)
    requires sig > 0 && -1022 <= LeadingExponent(sig, exp) <= 1023
    ensures var u, e := BuildFloat64(neg, sig, exp), LeadingExponent(sig, exp);
            && IsNormal(u) && SignBit(u) == neg && ExponentBits(u) == 1023 + e
            && Size(u) == Scale(Rounded(sig), e - 63) && Scale(sig, exp) == Scale(Normalised(sig), e - 63)
  {
    hide LeadingZeros, RoundedFraction, Normalised, Scale;
    SignificandScaled(sig, exp);
    SizeScaled(BuildFloat64(neg, sig, exp));
  }

  /** In range, the error is at most half a unit in the last place exactly when the carry stays in the word; ties go away from zero. */
  lemma RoundingError(neg: bool, sig: uint64, exp: int)
    requires sig > 0 && -1022 <= LeadingExponent(sig, exp) <= 1023
    ensures var u, e := BuildFloat64(neg, sig, exp), LeadingExponent(sig, exp);
            && IsNormal(u) && SignBit(u) == neg && ExponentBits(u) == 1023 + e
            && (Gap(Size(u), Scale(sig, exp)) <= Scale(1, e - 53) <==> !RoundWraps(sig))
            && (Gap(Size(u), Scale(sig, exp)) == Scale(1, e - 53) ==> Size(u) > Scale(sig, exp))
  {
    hide LeadingZeros, RoundedFraction, Normalised, Scale, Size, BuildFloat64, Rounded, Gap, Pow2;
    var s, m, e := Normalised(sig), Rounded(sig), LeadingExponent(sig, exp);
    BuiltInRange(neg, sig, exp);
    FractionRounds(sig);
    Pow2Values();
    ScaleShift(1, 10, e - 63);
    GapScaled(m, s, e - 63);
    ScaleOrder(GapInt(m, s), 1024, e - 63);
    ScaleOrder(m, s, e - 63);
  }

  /** No normal word is closer to the number read, exactly when the rounding carry stays in the word. */
  lemma RoundsToNearest(neg: bool, sig: uint64, exp: int)
    requires sig > 0 && -1022 <= LeadingExponent(sig, exp) <= 1023
    ensures !RoundWraps(sig) <==>
            forall w: uint64 :: IsNormal(w) ==>
              Gap(Size(BuildFloat64(neg, sig, exp)), Scale(sig, exp)) <= Gap(Size(w), Scale(sig, exp))
  {
    hide LeadingZeros, RoundedFraction, Normalised, Scale, Size, BuildFloat64, Rounded, Gap, Pow2;
    var s, m, e := Normalised(sig), Rounded(sig), LeadingExponent(sig, exp);
    BuiltInRange(neg, sig, exp);
    FractionRounds(sig);
    GapScaled(m, s, e - 63);
    if RoundWraps(sig) {
      CloserNeighbour(neg, e);
      var w := Assemble(neg, 1023 + e, TWO52 - 1);
      GapScaled(TWO64 - 2048, s, e - 63);
      ScaleOrder(GapInt(m, s), GapInt(TWO64 - 2048, s), e - 63);
      assert IsNormal(w) && Gap(Size(w), Scale(sig, exp)) < Gap(Size(BuildFloat64(neg, sig, exp)), Scale(sig, exp));
    } else {
      RoundedMultiple(sig);
      forall w: uint64 | IsNormal(w)
        ensures Gap(Size(BuildFloat64(neg, sig, exp)), Scale(sig, exp)) <= Gap(Size(w), Scale(sig, exp))
      {
        if ExponentBits(w) - 1023 >= e {
          NoCloserAbove(s, TWO52 + RoundedFraction(sig), e - 63, w);
        } else {
          NoCloserBelow(s, TWO52 + RoundedFraction(sig), e - 63, w);
        }
      }
    }
  }

  lemma RoundedMultiple(sig: uint64)
    requires sig > 0
    ensures Rounded(sig) == 2048 * (TWO52 + RoundedFraction(sig))
  {
  }

  /** The largest word of a binade. */
  lemma CloserNeighbour(neg: bool, e: int)
    requires -1022 <= e <= 1023
    ensures var w := Assemble(neg, 1023 + e, TWO52 - 1); IsNormal(w) && Size(w) == Scale(TWO64 - 2048, e - 63)
  {
    hide Scale;
    SizeScaled(Assemble(neg, 1023 + e, TWO52 - 1));
  }

  lemma GridGap(s: nat, q: nat, p: nat)
    requires s - 1024 < 2048 * q <= s + 1024
    ensures GapInt(2048 * q, s) <= GapInt(2048 * p, s)
  {
    assert GapInt(2048 * q, s) <= 1024;
    if p > q {
      assert 2048 * p - s >= 2048 + (2048 * q - s) > 1024;
    } else if p < q {
      assert s - 2048 * p >= 2048 + (s - 2048 * q) >= 1024;
    }
  }

  /** A rounded significand beats every normal word of the same binade or a higher one. */
  lemma NoCloserAbove(s: uint64, q: nat, e: int, w: uint64)
    requires s - 1024 < 2048 * q <= s + 1024 && IsNormal(w) && ExponentBits(w) - 1023 - 63 >= e
    ensures Gap(Scale(2048 * q, e), Scale(s, e)) <= Gap(Size(w), Scale(s, e))
  {
    var p, k := TWO52 + Fraction(w), ExponentBits(w) - 1023 - 63 - e;
    SizeScaled(w);
    ScaleShift(p * 2048, k, e);
    assert p * 2048 * Pow2(k) == 2048 * (p * Pow2(k));
    GapScaled(2048 * q, s, e);
    GapScaled(2048 * (p * Pow2(k)), s, e);
    GridGap(s, q, p * Pow2(k));
    ScaleOrder(GapInt(2048 * q, s), GapInt(2048 * (p * Pow2(k)), s), e);
  }

  /** It beats every word of a lower binade too, since the bottom of its own binade already does. */
  lemma NoCloserBelow(s: uint64, q: nat, e: int, w: uint64)
    requires TWO63 <= s && s - 1024 < 2048 * q <= s + 1024 && IsNormal(w) && ExponentBits(w) - 1023 - 63 < e
    ensures Gap(Scale(2048 * q, e), Scale(s, e)) <= Gap(Size(w), Scale(s, e))
  {
    var n, f := (TWO52 + Fraction(w)) * 2048, ExponentBits(w) - 1023 - 63;
    SizeScaled(w);
    assert Size(w) <= Scale(TWO63, e) by {
      ScaleShift(TWO63, e - f, f);
      Pow2Less(0, e - f);
      MulMono(2, Pow2(e - f), TWO63);
      ScaleOrder(n, TWO63 * Pow2(e - f), f);
    }
    GapScaled(2048 * q, s, e);
    GapScaled(TWO63, s, e);
    ScaleOrder(TWO63, s, e);
    GridGap(s, q, 2 * TWO52);
    ScaleOrder(GapInt(2048 * q, s), GapInt(TWO63, s), e);
  }

  /** In range, the word is exactly the number read when and only when its bits span at most 53 places. */
  lemma ExactIffNarrow(neg: bool, sig: uint64, exp: int)
    requires sig > 0 && -1022 <= LeadingExponent(sig, exp) <= 1023
    ensures Size(BuildFloat64(neg, sig, exp)) == Scale(sig, exp) <==> BitLen(OddPart(sig)) <= 53
  {
    hide LeadingZeros, RoundedFraction, Normalised, Scale, Size, BuildFloat64, Rounded, Pow2, BitLen, OddPart, TrailingZeros;
    var s, m, e := Normalised(sig), Rounded(sig), LeadingExponent(sig, exp);
    BuiltInRange(neg, sig, exp);
    FractionRounds(sig);
    ScaleOrder(m, s, e - 63);
    NormalisedTrailing(sig);
    LowBitsClear(s, 11);
    Pow2Values();
  }

  lemma NormalisedTrailing(sig: uint64)
    requires sig > 0
    ensures TrailingZeros(Normalised(sig)) == 64 - BitLen(OddPart(sig))
    ensures Normalised(sig) == OddPart(sig) * Pow2(TrailingZeros(Normalised(sig)))
  {
    var o, t, k := OddPart(sig), TrailingZeros(sig), LeadingZeros(sig);
    OddPartScale(sig);
    BitLenScale(o, t);
    ScaleSplit(o, t, k);
    OddPartOfScaled(o, t + k);
  }

  /** Fields that denote a normal word's number have its odd significand, at its power. */
  lemma SameOddPart(u: uint64, sig: uint64, exp: int)
    requires IsNormal(u) && sig > 0 && Scale(sig, exp) == Size(u)
    ensures var m := TWO52 + Fraction(u);
            OddPart(sig) == OddPart(m) && exp + TrailingZeros(sig) == ExponentBits(u) - 1023 - 52 + TrailingZeros(m)
  {
    hide Pow2, OddPart, TrailingZeros, Scale;
    var m, x := TWO52 + Fraction(u), ExponentBits(u) - 1023 - 52;
    OddPartScale(sig);
    OddPartScale(m);
    ScaleShift(OddPart(sig), TrailingZeros(sig), exp);
    ScaleShift(OddPart(m), TrailingZeros(m), x);
    OddRealUnique(OddPart(sig), exp + TrailingZeros(sig), OddPart(m), x + TrailingZeros(m));
  }

  /** So their leading bits agree, and the normalised significand is the word's, eleven places up. */
  lemma SameNormalised(sig: uint64, m: uint64)
    requires sig > 0 && TWO52 <= m < 2 * TWO52 && OddPart(sig) == OddPart(m)
    ensures TrailingZeros(sig) + 64 - BitLen(sig) == TrailingZeros(m) + 11 && BitLen(sig) <= 64
    ensures Normalised(sig) == m * 2048
  {
    hide Pow2, OddPart, TrailingZeros, BitLen;
    var o := OddPart(sig);
    OddPartScale(sig);
    OddPartScale(m);
    BitLenScale(o, TrailingZeros(sig));
    BitLenScale(o, TrailingZeros(m));
    Pow2Values();
    BitLenUnique(m, 52);
    BitLenFits(sig, 64);
    NormalisedTrailing(sig);
    ScaleSplit(o, TrailingZeros(m), 11);
  }

  /** A significand and exponent that denote a normal word's number rebuild that word. */
  lemma RebuildsNormal(u: uint64, sig: uint64, exp: int)
    requires IsNormal(u) && sig > 0 && Scale(sig, exp) == Size(u)
    ensures LeadingExponent(sig, exp) == ExponentBits(u) - 1023
    ensures BuildFloat64(SignBit(u), sig, exp) == u
  {
    hide Pow2, OddPart, TrailingZeros, BitLen, Scale, Size, RoundedFraction, Normalised;
    var m := TWO52 + Fraction(u);
    SameOddPart(u, sig, exp);
    SameNormalised(sig, m);
    FractionRounds(sig);
    AssembleParts(u);
  }

  /** Outside the normal range the result is a signed zero or a signed infinity. */
  lemma OutOfRange(neg: bool, sig: uint64, exp: int)
    requires sig > 0 && !(-1022 <= LeadingExponent(sig, exp) <= 1023)
    ensures var u := BuildFloat64(neg, sig, exp);
            SignBit(u) == neg && if LeadingExponent(sig, exp) < 0 then IsZero(u) else IsInfinite(u)
  {
  }

  lemma IntWraps(x: int)
    requires INT_MIN <= x <= INT_MAX + 63
    ensures ToInt32(x) == if x <= INT_MAX then x else x - TWO32
  {
  }

  /** The two versions agree exactly while the leading exponent fits an int; beyond it, C reads a huge number as zero. */
  lemma VersionsAgree(neg: bool, sig: uint64, exp: int)
    requires INT_MIN <= exp <= INT_MAX && sig > 0
    ensures BuildDouble(neg, sig, exp) == BuildFloat64(neg, sig, exp) <==> LeadingExponent(sig, exp) <= INT_MAX
    ensures LeadingExponent(sig, exp) > INT_MAX ==>
              IsZero(BuildDouble(neg, sig, exp)) && IsInfinite(BuildFloat64(neg, sig, exp))
  {
    IntWraps(LeadingExponent(sig, exp));
    if LeadingExponent(sig, exp) > INT_MAX {
      assert ExponentBits(Assemble(neg, 0, 0)) != ExponentBits(Assemble(neg, 2047, 0));
    }
  }

  lemma FiftyFourOnes()
    ensures var sig := 4 * TWO52 - 1; LeadingZeros(sig) == 10 && Normalised(sig) == sig * 1024
  {
    Pow2Values();
    BitLenUnique(4 * TWO52 - 1, 53);
  }

  /** The 54-bit number 2^54 - 1 is read as 2^53, half of the nearest double. */
  lemma CarryLost()
    ensures var sig := 4 * TWO52 - 1; RoundWraps(sig) && Size(BuildDouble(false, sig, 0)) == Scale(1, 53)
  {
    hide Pow2, Scale, Size, RoundedFraction, Normalised, LeadingZeros, BuildFloat64, BuildDouble, Rounded;
    var sig := 4 * TWO52 - 1;
    FiftyFourOnes();
    FractionRounds(sig);
    VersionsAgree(false, sig, 0);
    BuiltInRange(false, sig, 0);
    Pow2Values();
    ScaleShift(1, 63, -10);
  }
}
