/** What the C number readers guarantee: exact integers, round trips, normal forms and rounding. */
module Readers {
  import opened Words
  import opened Hex
  import opened Numbers
  import opened Floats
  import opened RealTexts

  // ----- the text of a number

  predicate Fits(n: Number) {
    n.Canonical() && !n.NaN? && (n.Finite? ==> n.Shown() < TWO64 && -TWO63 < n.exp < TWO63)
  }

  function TextOf(n: Number): RealText
    requires Fits(n)
  {
    match n
    case Inf(neg) => InfText(neg)
    case Zero => Plain(false, 0)
    case Finite(neg, sig, exp) =>
      if n.Whole() then Plain(neg, n.Shown()) else Scaled(neg, sig, exp < 0, if exp < 0 then -exp else exp)
  }

  lemma WholeIsLegal(sig: nat, exp: nat)
    requires sig % 2 == 1 && exp < 8
    ensures sig * Pow2(exp) > 0 && (sig * Pow2(exp)) % 256 != 0
    ensures Scale(sig * Pow2(exp), 0) == Scale(sig, exp)
  {
    OddPartOfScaled(sig, exp);
    LowBitsClear(sig * Pow2(exp), 8);
    assert Pow2(8) == 256;
    ScaleShift(sig, exp, 0);
  }

  /** The spelling of a number is a legal text that denotes it. */
  lemma SpellingIsLegal(n: Number)
    requires Fits(n)
    ensures TextOf(n).Written() == Spell(n) && TextOf(n).Legal()
    ensures n.IsReal() ==> !TextOf(n).InfText? && TextOf(n).Denotes() == n.Value()
  {
    hide HexDigits, Pow2;
    if n.Finite? && n.Whole() {
      WholeIsLegal(n.sig, n.exp);
      assert Sign(n.neg) + HexDigits(n.Shown()) + [] == Sign(n.neg) + HexDigits(n.Shown());
    } else if n.Zero? {
      assert Sign(false) + HexDigits(0) == HexDigits(0);
      assert Scale(0, 0) == 0.0;
    }
  }

  lemma MagnitudeFits(neg: bool, v: uint64)
    ensures Fits(OfMagnitude(neg, v))
    ensures v > 0 ==> OfMagnitude(neg, v).Shown() <= v && TrailingZeros(v) < 64
  {
    if v > 0 {
      Pow2Values();
      OddPartBound(v, 64);
      OddPartScale(v);
    }
  }

  lemma DoubleFits(u: uint64)
    requires !IsNaN(u)
    ensures Fits(OfDouble(u))
    ensures IsNormal(u) ==> OfDouble(u).sig < 2 * TWO52 && -1074 <= OfDouble(u).exp <= 1023
  {
    if IsNormal(u) {
      var n := OfDouble(u);
      Pow2Values();
      OddPartBound(TWO52 + Fraction(u), 53);
      if n.Whole() {
        ShownBound(n.sig, n.exp);
      }
    }
  }

  lemma ShownBound(o: nat, x: nat)
    requires o < 2 * TWO52 && x < 8
    ensures o * Pow2(x) < 256 * TWO52
  {
    Pow2Values();
    Pow2Less(x, 8);
    MulMono(Pow2(x), 128, o);
    assert o * Pow2(x) == Pow2(x) * o;
  }

  // ----- integers

  /** A legal text names the integer `v`. */
  predicate Names(t: RealText, v: int) { !t.InfText? && t.Denotes() == v as real }

  /** The significand moved up by its power; a negative power is disregarded. */
  function Moved(t: RealText): nat
    requires !t.InfText?
  {
    t.a * Pow2(if t.Power() < 0 then 0 else t.Power())
  }

  /** A legal text names its moved significand and nothing else, unless its power is negative. */
  lemma NamesExactly(t: RealText, v: int)
    requires t.Legal() && !t.InfText?
    ensures Names(t, v) <==> t.Power() >= 0 && v == Signed(t.neg, Moved(t))
  {
    var p := t.Power();
    if p >= 0 {
      ScaleShift(t.a, p, 0);
      assert t.Denotes() == Signed(t.neg, Moved(t)) as real;
    } else {
      ScaleOrder(0, t.a, p);
      if Names(t, v) {
        NegativePower(if v < 0 then -v else v, t.a, p);
      }
    }
  }

  lemma NegativePower(w: nat, a: nat, p: int)
    requires a % 2 == 1 && p < 0 && w > 0
    ensures Scale(a, p) != w as real
  {
    OddPartScale(w);
    ScaleShift(OddPart(w), TrailingZeros(w), 0);
    if Scale(a, p) == w as real {
      OddRealUnique(OddPart(w), TrailingZeros(w), a, p);
    }
  }

  lemma ClampBelow(p: int, n: nat)
    requires n <= 64
    ensures 0 <= Clamp(p) <= n <==> 0 <= p <= n
    ensures Clamp(0) == 0
  {
  }

  /** The leading-zero test passes exactly when the moved significand fits a word. */
  lemma ShiftTest(t: RealText)
    requires t.Legal() && !t.InfText?
    ensures t.a > 0 ==> (0 <= Clamp(t.Power()) <= LeadingZeros(t.a) <==> t.Power() >= 0 && Moved(t) < TWO64)
    ensures t.Power() >= 0 && Moved(t) < TWO64 ==> ShiftLeft(t.a, t.Power()) == Moved(t)
    ensures t.a == 0 ==> t.Power() == 0 && Moved(t) == 0
    ensures t.a > 0 ==> Moved(t) > 0
  {
    hide Pow2, LeadingZeros, ShiftLeft, Clamp;
    ClampBelow(t.Power(), LeadingZeros(t.a));
    if t.a > 0 && t.Power() >= 0 {
      ShiftFits(t.a, t.Power());
      BitLenScale(t.a, t.Power());
    }
    if t.Power() >= 0 && Moved(t) < TWO64 {
      ShiftLeftFits(t.a, t.Power());
    }
  }

  lemma OneLeads()
    ensures LeadingZeros(1) == 63
  {
    assert BitLen(1) == 1;
  }

  /** `sipc_uint64` succeeds exactly on the texts that name an integer of the unsigned range, and returns it. */
  lemma Uint64Exact(t: RealText, rest: Text, stale: uint64)
    requires t.EndsAt(rest)
    ensures var r := ReadUint64([SP] + t.Written() + rest, stale);
            && (r.Got? <==> t.Legal() && !t.neg && exists v: uint64 :: Names(t, v))
            && (r.Got? ==> Names(t, r.v) && r.rest == rest)
  {
    hide ReadReal, RealText.Written, ShiftLeft, Moved, LeadingZeros, RealText.Denotes;
    OneLeads();
    ReadsReal(t, rest, false, stale);
    if t.Legal() && !t.neg && !t.InfText? {
      ShiftTest(t);
      var m := Moved(t);
      NamesExactly(t, m);
      forall v: uint64 ensures Names(t, v) ==> v == m && t.Power() >= 0 { NamesExactly(t, v); }
    }
  }

  /** The sign test on the wrapped difference is the range test, and negating the word negates the number. */
  lemma SignedRange(neg: bool, w: uint64)
    requires w > 0
    ensures (w - if neg then 1 else 0) % TWO64 < TWO63 <==> -TWO63 <= Signed(neg, w) < TWO63
    ensures -TWO63 <= Signed(neg, w) < TWO63 ==> ToInt64(Signed(neg, w)) == Signed(neg, w)
  {
    assert (w - if neg then 1 else 0) % TWO64 == w - if neg then 1 else 0;
  }

  /** `sipc_int64` succeeds exactly on the texts that name an integer of the signed range, and returns it. */
  lemma Int64Exact(t: RealText, rest: Text, stale: uint64)
    requires t.EndsAt(rest)
    ensures var r := ReadInt64([SP] + t.Written() + rest, stale);
            && (r.Got? <==> t.Legal() && exists v: int64 :: Names(t, v))
            && (r.Got? ==> Names(t, r.v) && r.rest == rest)
  {
    hide ReadReal, RealText.Written, ShiftLeft, Moved, LeadingZeros, RealText.Denotes;
    OneLeads();
    ReadsReal(t, rest, true, stale);
    if t.Legal() && !t.InfText? {
      ShiftTest(t);
      var v := Signed(t.neg, Moved(t));
      NamesExactly(t, v);
      forall w: int64 ensures Names(t, w) ==> w == v && t.Power() >= 0 { NamesExactly(t, w); }
      if 0 < Moved(t) < TWO64 { SignedRange(t.neg, Moved(t)); }
    }
  }

  /** Printed unsigned and signed words are read back, over their whole ranges. */
  lemma IntegerRoundTrip(v: int, rest: Text, stale: uint64)
    requires InfText(false).EndsAt(rest)
    ensures 0 <= v < TWO64 ==> ReadUint64([SP] + Spell(OfInt(v)) + rest, stale) == Got(v, rest)
    ensures -TWO63 <= v < TWO63 ==> ReadInt64([SP] + Spell(OfInt(v)) + rest, stale) == Got(v, rest)
  {
    hide ReadReal, ReadUint64, ReadInt64, Spell;
    if -TWO63 <= v < TWO64 {
      MagnitudeFits(v < 0, if v < 0 then -v else v);
      var t := TextOf(OfInt(v));
      SpellingIsLegal(OfInt(v));
      OfIntValue(v);
      assert Names(t, v);
      if 0 <= v { Uint64Exact(t, rest, stale); }
      if v < TWO63 { Int64Exact(t, rest, stale); }
    }
  }

  /** Reformatting what `sipc_uint64` accepted gives a text for the same value, and the same text exactly when
      the one read had no exponent or an exponent of at least eight. */
  lemma Normalisation(s: Text, stale: uint64) returns (t: RealText)
    requires ReadUint64(s, stale).Got? && ShortFields(s)
    ensures var r := ReadUint64(s, stale);
            && s == [SP] + t.Written() + r.rest && t.Legal() && Names(t, r.v)
            && (forall rest :: t.EndsAt(rest) ==> ReadUint64([SP] + Spell(OfInt(r.v)) + rest, stale) == Got(r.v, rest))
            && (Spell(OfInt(r.v)) == t.Written() <==> t.Plain? || t.Power() >= 8)
  {
    t := ReadRealSound(s, false, stale);
    var r := ReadUint64(s, stale);
    NamesRead(t, s, stale);
    hide ReadReal, ReadUint64, Spell, RealText.Written;
    forall rest | t.EndsAt(rest)
      ensures ReadUint64([SP] + Spell(OfInt(r.v)) + rest, stale) == Got(r.v, rest)
    {
      IntegerRoundTrip(r.v, rest, stale);
    }
    NormalForm(t, r.v);
  }

  lemma NamesRead(t: RealText, s: Text, stale: uint64)
    requires ReadUint64(s, stale).Got? && t.Legal() && !t.neg
    requires ReadReal(s, false, stale) == Parsed(t, ReadReal(s, false, stale).rest)
    ensures Names(t, ReadUint64(s, stale).v)
  {
    hide ReadReal, RealText.Written, ShiftLeft, Moved, LeadingZeros, RealText.Denotes;
    OneLeads();
    ShiftTest(t);
    NamesExactly(t, Moved(t));
  }

  /** The number a legal text denotes. */
  function Denoted(t: RealText): Number
    requires !t.InfText?
  {
    if t.a == 0 then Zero else Finite(t.neg, OddPart(t.a), TrailingZeros(t.a) + t.Power())
  }

  lemma DenotedValue(t: RealText)
    requires t.Legal() && !t.InfText?
    ensures Denoted(t).Canonical() && Denoted(t).IsReal() && Denoted(t).Value() == t.Denotes()
  {
    if t.a > 0 {
      OddPartScale(t.a);
      ScaleShift(OddPart(t.a), TrailingZeros(t.a), t.Power());
    } else {
      assert Scale(0, 0) == 0.0;
    }
  }

  lemma PlainSpelled(t: RealText)
    requires t.Legal() && t.Plain?
    ensures Spell(Denoted(t)) == t.Written()
  {
    hide HexDigits, Pow2;
    if t.a > 0 {
      OddPartScale(t.a);
      LowBitsClear(t.a, 8);
      Pow2Values();
      assert Sign(t.neg) + HexDigits(t.a) + [] == Sign(t.neg) + HexDigits(t.a);
    } else {
      assert Sign(false) + HexDigits(0) == HexDigits(0);
    }
  }

  lemma ScaledSpelled(t: RealText)
    requires t.Legal() && t.Scaled?
    ensures Spell(Denoted(t)) == t.Written() <==> !t.Unfolded()
  {
    var n := Denoted(t);
    assert n == Finite(t.neg, t.a, t.Power());
    hide HexDigits, Pow2;
    if t.Unfolded() {
      var d, k := HexDigits(n.Shown()), |Sign(t.neg)| + |HexDigits(t.a)|;
      assert t.Written()[k] == CH_P;
      assert Spell(n) == Sign(t.neg) + d + [] == Sign(t.neg) + d;
      assert k < |Spell(n)| ==> Spell(n)[k] == d[k - |Sign(t.neg)|];
    }
  }

  /** A legal text is the one spelling of the number it denotes exactly when it has no exponent field between 0 and 7. */
  lemma SpelledExactly(t: RealText)
    requires t.Legal() && !t.InfText?
    ensures Spell(Denoted(t)) == t.Written() <==> !t.Unfolded()
  {
    hide Spell, RealText.Written, Denoted;
    if t.Plain? { PlainSpelled(t); } else { ScaledSpelled(t); }
  }

  /** The texts the parser accepts for one number beside its spelling are those with an exponent field between 0 and 7. */
  lemma SecondSpellings(t: RealText, u: RealText)
    requires t.Legal() && u.Legal() && !t.InfText? && !u.InfText? && t.Denotes() == u.Denotes()
    ensures !t.Unfolded() && !u.Unfolded() ==> t.Written() == u.Written()
    ensures t.Unfolded() != u.Unfolded() ==> t.Written() != u.Written()
  {
    hide Spell, RealText.Written, Denoted, Number.Value, RealText.Denotes;
    DenotedValue(t);
    DenotedValue(u);
    SpelledExactly(t);
    SpelledExactly(u);
    CanonicalValueInjective(Denoted(t), Denoted(u));
  }

  lemma NormalForm(t: RealText, v: uint64)
    requires t.Legal() && !t.neg && Names(t, v)
    ensures Spell(OfInt(v)) == t.Written() <==> t.Plain? || t.Power() >= 8
  {
    NamesExactly(t, v);
    hide Spell, RealText.Written, Denoted, OfInt, Number.Value, RealText.Denotes;
    DenotedValue(t);
    OfIntValue(v);
    CanonicalValueInjective(Denoted(t), OfInt(v));
    SpelledExactly(t);
  }

  // ----- doubles

  /** `format_double` text is read back by `sipc_double`: normal and infinite words bit for bit, NaN as NaN, the rest as zero. */
  lemma DoubleRoundTrip(u: uint64, rest: Text, stale: uint64)
    requires InfText(false).EndsAt(rest)
    ensures var r := ReadDouble([SP] + Spell(OfDouble(u)) + rest, stale);
            && r.Got? && r.rest == rest
            && (IsNormal(u) || IsInfinite(u) ==> r.v == u)
            && (IsNaN(u) ==> IsNaN(r.v))
            && (IsSmall(u) ==> r.v == 0)
  {
    var s := [SP] + Spell(OfDouble(u)) + rest;
    if IsNaN(u) {
      assert s == ([SP] + NAN_TEXT) + rest;
      assert s[4..] == rest;
    } else {
      var n := OfDouble(u);
      DoubleFits(u);
      SpellingIsLegal(n);
      ReadsReal(TextOf(n), rest, true, stale);
      SpelledNoNaN(n);
      assert s[1] == Spell(n)[0];
      RebuildsDouble(u);
    }
  }

  lemma SpelledNoNaN(n: Number)
    requires !n.NaN?
    ensures Spell(n)[0] != 0x6E
  {
    if n.Finite? {
      assert Spell(n)[0] == if n.neg then MINUS else HexDigits(n.Shown())[0];
    }
  }

  /** The fields of a printed double rebuild it. */
  lemma RebuildsDouble(u: uint64)
    requires !IsNaN(u) && Fits(OfDouble(u))
    ensures var r := Parsed(TextOf(OfDouble(u)), []);
            BuildDouble(r.neg, r.sig, r.exp) == (if IsSmall(u) then 0 else u)
            && BuildFloat64(r.neg, r.sig, r.exp) == (if IsSmall(u) then 0 else u)
  {
    AssembleParts(u);
    var n := OfDouble(u);
    if IsNormal(u) {
      DoubleFits(u);
      OfDoubleValue(u);
      var t := TextOf(n);
      SpellingIsLegal(n);
      ScaleOrder(0, n.sig, n.exp);
      RebuildsNormal(u, t.a, t.Power());
      VersionsAgree(t.neg, t.a, t.Power());
    } else if IsInfinite(u) {
      OneLeads();
      IntWraps(INT_MAX);
    }
  }

  lemma NotNaN(t: RealText, rest: Text)
    ensures !([SP] + NAN_TEXT <= [SP] + t.Written() + rest)
  {
    var s := [SP] + t.Written() + rest;
    assert s[1] == t.Written()[0];
    assert s[1] == MINUS || s[1] == 0x69 || IsHexDigit(s[1] as int);
  }

  /** What `sipc_double` makes of a legal text. */
  predicate Approximates(u: uint64, t: RealText) {
    if t.InfText? then IsInfinite(u) && SignBit(u) == t.neg
    else if t.a == 0 then u == 0
    else
      var e := LeadingExponent(t.a, t.Power());
      && SignBit(u) == t.neg
      && (-1022 <= e <= 1023 ==> u == BuildFloat64(t.neg, t.a, t.Power()))
      && (e < -1022 ==> IsZero(u))
      && (e > 1023 ==> if LeadingExponent(t.a, Clamp(t.Power())) <= INT_MAX then IsInfinite(u) else IsZero(u))
  }

  lemma BuildApproximates(t: RealText)
    requires t.Legal()
    ensures var r := Parsed(t, []); Approximates(BuildDouble(r.neg, r.sig, r.exp), t)
  {
    if t.InfText? {
      OneLeads();
      IntWraps(INT_MAX);
    } else if t.a > 0 {
      hide LeadingZeros;
      VersionsAgree(t.neg, t.a, Clamp(t.Power()));
      if !(-1022 <= LeadingExponent(t.a, Clamp(t.Power())) <= 1023) {
        OutOfRange(t.neg, t.a, Clamp(t.Power()));
      }
      assert SignBit(Assemble(t.neg, 0, 0)) == t.neg;
    }
  }

  /** `sipc_double` accepts a text exactly when it is legal: an infinity as itself, zero as zero, and any other number as the
      rounded word in the normal range, zero below it, and infinity above it exactly when the leading exponent, computed
      from the clamped power, still fits an int. */
  lemma DoubleReadsText(t: RealText, rest: Text, stale: uint64)
    requires t.EndsAt(rest)
    ensures var r := ReadDouble([SP] + t.Written() + rest, stale);
            (r.Got? <==> t.Legal()) && (r.Got? ==> r.rest == rest && Approximates(r.v, t))
  {
    hide ReadReal, RealText.Written, BuildDouble, Approximates;
    NotNaN(t, rest);
    ReadsReal(t, rest, true, stale);
    if t.Legal() { BuildApproximates(t); }
  }

  /** Three times 2^(2^31 - 1), whose leading exponent no longer fits an int, is read as zero. */
  lemma ExponentWraps(rest: Text, stale: uint64)
    requires InfText(false).EndsAt(rest)
    ensures ReadDouble([SP] + Scaled(false, 3, false, INT_MAX).Written() + rest, stale) == Got(0, rest)
  {
    hide ReadDouble, RealText.Written;
    var t := Scaled(false, 3, false, INT_MAX);
    assert LeadingExponent(3, INT_MAX) == INT_MAX + 1 by { assert BitLen(3) == 2; }
    DoubleReadsText(t, rest, stale);
    AssembleParts(ReadDouble([SP] + t.Written() + rest, stale).v);
  }
}
