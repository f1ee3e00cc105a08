/** The Go formatters: byte slices extended at the end, with hex fields of at most eight digits. */
module GoFormat {
  import opened Words
  import opened Hex
  import opened Numbers
  import opened Readers
  import opened SipcFormat

  // ----- hex fields

  /** What `appendHex` appends: the last eight digits. */
  function GoHex(v: nat): (t: Text)
    ensures |t| <= 8
  {
    var d := HexDigits(v);
    if |d| <= 8 then d else d[|d| - 8..]
  }

  /** The field is the whole number exactly below 2^32. */
  lemma GoHexExact(v: nat)
    ensures GoHex(v) == HexDigits(v) <==> v < TWO32
    ensures |GoHex(v)| == |HexDigits(v)| <==> v < TWO32
  {
    Pow2Values();
    DigitsLength(v, 8);
  }

  /** Whatever the word, the field is its number modulo 2^32, in eight digits from 2^32 on. */
  lemma GoHexLow(v: nat)
    ensures AllHex(GoHex(v)) && HexFrom(0, GoHex(v)) == v % TWO32
    ensures v >= TWO32 ==> |GoHex(v)| == 8
  {
    hide HexFrom, HexDigits;
    var d := HexDigits(v);
    GoHexExact(v);
    DigitsValue(v);
    if v >= TWO32 {
      assert d == d[..|d| - 8] + GoHex(v);
      LastEight(d[..|d| - 8], GoHex(v), v);
    }
  }

  lemma LastEight(a: Text, g: Text, v: nat)
    requires AllHex(a) && AllHex(g) && |g| == 8 && AllHex(a + g) && HexFrom(0, a + g) == v
    ensures HexFrom(0, g) == v % TWO32
  {
    hide HexFrom, Pow2;
    HexJoin(0, a, g);
    HexShift(HexFrom(0, a), g);
    Pow2Values();
    DivUnique(v, TWO32, HexFrom(0, a));
  }

  method AppendHex(b: Text, u: uint64) returns (r: Text)
    ensures r == b + GoHex(u)
  {
    hide HexDigits, Pow2, GoHex;
    var buf := new byte[8];
    var i, v := 7, u;
    ghost var n := |HexDigits(u)|;
    DivOne(u);
    while true
      invariant 0 <= i <= 7 && 7 - i < n && v == u / Pow2(4 * (7 - i))
      invariant forall j :: i < j < 8 ==> buf[j] == HexDigits(u)[n - 8 + j]
      decreases i
    {
      DigitAt(u, 7 - i);
      buf[i] := DigitChar(v % 16);
      NextDigit(u, 7 - i);
      v := v / 16;
      if i == 0 || v == 0 {
        break;
      }
      i := i - 1;
    }
    assert n <= 8 ==> 8 - i == n;
    LastDigits(buf[i..], u);
    r := b + buf[i..];
  }

  lemma DivOne(u: uint64)
    ensures u / Pow2(4 * 0) == u
  {
  }

  lemma LastDigits(t: Text, u: uint64)
    requires var d := HexDigits(u);
             |t| == (if |d| <= 8 then |d| else 8) && forall k :: 0 <= k < |t| ==> t[k] == d[|d| - |t| + k]
    ensures t == GoHex(u)
  {
  }

  /** Dropping one more digit leaves nothing exactly when all digits have been dropped. */
  lemma NextDigit(u: uint64, k: nat)
    requires k < |HexDigits(u)|
    ensures (u / Pow2(4 * k)) / 16 == u / Pow2(4 * (k + 1))
    ensures u / Pow2(4 * (k + 1)) == 0 <==> |HexDigits(u)| == k + 1
  {
    Pow2Add(4 * k, 4);
    assert Pow2(4) == 16;
    DivDiv(u, Pow2(4 * k), 16);
    DigitsLength(u, k + 1);
    var p := Pow2(4 * (k + 1));
    if u < p {
      DivUnique(u, p, 0);
    } else {
      assert u / p >= 1 by { QuotientPositive(u, p); }
    }
  }

  lemma QuotientPositive(u: nat, p: nat)
    requires 0 < p <= u
    ensures u / p >= 1
  {
    assert u == p * (u / p) + u % p;
  }

  // ----- numbers

  /** `appendUint` */
  function GoUintText(neg: bool, u: uint64): Text {
    [SP] + if u == 0 then [ZERO]
           else Sign(neg) + if TrailingZeros(u) < 8 then GoHex(u)
                            else GoHex(u / Pow2(TrailingZeros(u))) + ([CH_P] + GoHex(TrailingZeros(u)))
  }

  function GoIntText(i: int64): Text { if i < 0 then GoUintText(true, -(i as int)) else GoUintText(false, i) }

  /** The tail shared by the float formatters: a folded significand, or significand, `p` and exponent. */
  function GoScaledText(sig: nat, exp: int): Text {
    if 0 <= exp < 8 then GoHex(sig * Pow2(exp))
    else GoHex(sig) + ([CH_P] + Sign(exp < 0) + GoHex(if exp < 0 then -exp else exp))
  }

  /** `AppendFloat` */
  function GoFloatText(u: uint64): Text {
    var negate, uexp, frac := u / TWO63 != 0, (u / TWO52) % 2048, u % TWO52;
    [SP] + if uexp == 0 then [ZERO]
           else if uexp == 0x7FF then (if frac != 0 then NAN_TEXT else Sign(negate) + INF_TEXT)
           else
             var m := frac + TWO52;
             var ctz := TrailingZeros(m);
             Sign(negate) + GoScaledText(m / Pow2(ctz), uexp - 1023 - (52 - ctz))
  }

  /** The significand field a number prints fits the eight digits; its exponent field always does. */
  predicate Short(n: Number) { n.Finite? ==> n.Shown() < TWO32 && -TWO32 < n.exp < TWO32 }

  lemma ScaledTextExact(n: Number)
    requires n.Finite? && -TWO32 < n.exp < TWO32
    ensures Sign(n.neg) + GoScaledText(n.sig, n.exp) == Spell(n) <==> Short(n)
  {
    hide HexDigits, GoHex, Pow2;
    GoHexExact(n.Shown());
    var e := if n.exp < 0 then -n.exp else n.exp;
    GoHexExact(e);
    var d, g := HexDigits(n.Shown()), GoHex(n.Shown());
    if n.Whole() {
      assert Sign(n.neg) + d + [] == Sign(n.neg) + d;
      assert |Spell(n)| == |Sign(n.neg)| + |d|;
    } else {
      Assoc(Sign(n.neg), d, ExponentText(n.exp));
      assert |Spell(n)| == |Sign(n.neg)| + |d| + |ExponentText(n.exp)|;
    }
  }

  /** Integers print as the format demands exactly when their printed significand has at most eight digits. */
  lemma UintTextExact(neg: bool, u: uint64)
    ensures GoUintText(neg, u) == [SP] + Spell(OfMagnitude(neg, u)) <==> Short(OfMagnitude(neg, u))
  {
    var n := OfMagnitude(neg, u);
    if u == 0 {
      assert Spell(n) == HexDigits(0) == [ZERO];
    } else {
      OddPartScale(u);
      MagnitudeFits(neg, u);
      ScaledTextExact(n);
      UintScaled(neg, u);
      assert (GoUintText(neg, u))[1..] == Sign(neg) + GoScaledText(n.sig, n.exp);
      assert ([SP] + Spell(n))[1..] == Spell(n);
    }
  }

  lemma UintScaled(neg: bool, u: uint64)
    requires u > 0
    ensures GoUintText(neg, u) == [SP] + (Sign(neg) + GoScaledText(OddPart(u), TrailingZeros(u)))
  {
    hide GoHex, Pow2;
    OddPartScale(u);
    var t := TrailingZeros(u);
    assert [CH_P] + Sign(false) + GoHex(t) == [CH_P] + GoHex(t);
  }

  /** Doubles print as the format demands exactly when their printed significand has at most eight digits. */
  lemma FloatTextExact(u: uint64)
    ensures GoFloatText(u) == [SP] + Spell(OfDouble(u)) <==> Short(OfDouble(u))
  {
    hide GoScaledText;
    DoubleCases(u);
    var n := OfDouble(u);
    if IsNormal(u) {
      OddPartScale(TWO52 + Fraction(u));
      DoubleFits(u);
      ScaledTextExact(n);
      assert GoFloatText(u) == [SP] + (Sign(n.neg) + GoScaledText(n.sig, n.exp));
      assert GoFloatText(u)[1..] == Sign(n.neg) + GoScaledText(n.sig, n.exp);
      assert ([SP] + Spell(n))[1..] == Spell(n);
    }
  }

  // ----- arbitrary precision

  /** A finite big float: sign, integer mantissa (zero for zero) and power of two, of any precision. */
  datatype BigFloat = BigInf(neg: bool) | Big(neg: bool, m: nat, e: int)
  {
    function Value(): real
      requires Big?
    {
      if neg then -Scale(m, e) else Scale(m, e)
    }

    /** `MantExp`: the exponent that brings the mantissa into [1/2, 1); zero for zero. */
    function MantExp(): int
      requires Big?
    {
      if m == 0 then 0 else e + BitLen(m)
    }

    /** `MinPrec`: the number of bits that hold the mantissa. */
    function MinPrec(): nat
      requires Big?
    {
      if m == 0 then 0 else BitLen(OddPart(m))
    }

    /** `Int` after scaling by `2^k`, where the result is whole. */
    function Whole(k: int): nat
      requires Big?
    {
      if m == 0 then 0
      else if e + k >= 0 then m * Pow2(e + k) else m / Pow2(-(e + k))
    }

    function Number(): Numbers.Number {
      match this
      case BigInf(neg) => Inf(neg)
      case Big(neg, m, e) => if m == 0 then Zero else Finite(neg, OddPart(m), e + TrailingZeros(m))
    }
  }

  /** `AppendBigFloat`: significands in full, exponents through `appendHex`. */
  function BigText(f: BigFloat): Text {
    [SP] + match f
           case BigInf(neg) => Sign(neg) + INF_TEXT
           case Big(neg, m, _) =>
             var exp := f.MantExp() - f.MinPrec();
             if 0 <= exp < 8 then Sign(neg && f.Whole(0) > 0) + HexDigits(f.Whole(0))
             else Sign(neg && f.Whole(-exp) > 0) + HexDigits(f.Whole(-exp)) + ([CH_P] + Sign(exp < 0) + GoHex(if exp < 0 then -exp else exp))
  }

  lemma BigExponent(f: BigFloat)
    requires f.Big? && f.m > 0
    ensures f.MantExp() - f.MinPrec() == f.e + TrailingZeros(f.m)
    ensures f.Whole(-(f.e + TrailingZeros(f.m))) == OddPart(f.m)
    ensures 0 <= f.e + TrailingZeros(f.m) ==> f.Whole(0) == OddPart(f.m) * Pow2(f.e + TrailingZeros(f.m))
  {
    var o, t := OddPart(f.m), TrailingZeros(f.m);
    OddPartScale(f.m);
    BitLenScale(o, t);
    if f.e >= 0 {
      ScaleSplit(o, t, f.e);
    } else if f.e + t >= 0 {
      ScaleSplit(o, f.e + t, -f.e);
      DivExact(o * Pow2(f.e + t), Pow2(-f.e));
    }
  }

  predicate ExponentShort(f: BigFloat) { f.Big? ==> -TWO32 < f.MantExp() - f.MinPrec() < TWO32 }

  /** The exponent field a number prints, through `appendHex`. */
  function BigField(n: Numbers.Number): Text
    requires n.Finite?
  {
    [CH_P] + Sign(n.exp < 0) + GoHex(if n.exp < 0 then -n.exp else n.exp)
  }

  function BigBody(n: Numbers.Number): Text {
    match n
    case Finite(neg, _, _) => Sign(neg) + HexDigits(n.Shown()) + (if n.Whole() then [] else BigField(n))
    case _ => Spell(n)
  }

  lemma BigTextBody(f: BigFloat)
    ensures f.Number().Canonical() && BigText(f) == [SP] + BigBody(f.Number())
  {
    hide Pow2, HexDigits, GoHex, OddPart, TrailingZeros, BitLen, BigFloat.MantExp, BigFloat.MinPrec, BigFloat.Whole;
    if f.Big? && f.m == 0 {
      BigZero(f);
      assert Sign(false) + HexDigits(0) == HexDigits(0);
    } else if f.Big? {
      BigExponent(f);
      BigFinite(f);
    }
  }

  lemma BigFinite(f: BigFloat)
    requires f.Big? && f.m > 0
    requires f.MantExp() - f.MinPrec() == f.e + TrailingZeros(f.m)
    requires f.Whole(-(f.e + TrailingZeros(f.m))) == OddPart(f.m)
    requires 0 <= f.e + TrailingZeros(f.m) ==> f.Whole(0) == OddPart(f.m) * Pow2(f.e + TrailingZeros(f.m))
    ensures f.Number().Canonical() && BigText(f) == [SP] + BigBody(f.Number())
  {
    hide Pow2, HexDigits, GoHex, OddPart, TrailingZeros, BitLen, BigFloat.MantExp, BigFloat.MinPrec, BigFloat.Whole;
    var n := f.Number();
    if n.Whole() {
      assert n.Shown() > 0 by { OddPartOfScaled(n.sig, n.exp); }
      assert Sign(n.neg) + HexDigits(n.Shown()) + [] == Sign(n.neg) + HexDigits(n.Shown());
    }
  }

  lemma BigZero(f: BigFloat)
    requires f.Big? && f.m == 0
    ensures f.MantExp() == 0 && f.MinPrec() == 0 && f.Whole(0) == 0
  {
  }

  lemma BodySpells(n: Numbers.Number)
    ensures BigBody(n) == Spell(n) <==> (n.Finite? && !n.Whole() ==> -TWO32 < n.exp < TWO32)
  {
    hide HexDigits, GoHex, Pow2;
    if n.Finite? && !n.Whole() {
      var e := if n.exp < 0 then -n.exp else n.exp;
      GoHexExact(e);
      assert |ExponentText(n.exp)| == 1 + |Sign(n.exp < 0)| + |HexDigits(e)|;
      assert |BigField(n)| == 1 + |Sign(n.exp < 0)| + |GoHex(e)|;
    }
  }

  /** A big float of any precision prints as the one spelling of its number exactly when its exponent field, if it has one,
      is below 2^32. */
  lemma BigTextSpells(f: BigFloat)
    ensures f.Number().Canonical() && (BigText(f) == [SP] + Spell(f.Number()) <==> ExponentShort(f))
  {
    hide BigText, Spell, BigBody, Pow2, OddPart, TrailingZeros, BitLen;
    BigTextBody(f);
    BodySpells(f.Number());
    ShortExponent(f);
    assert ([SP] + Spell(f.Number()))[1..] == Spell(f.Number());
    assert ([SP] + BigBody(f.Number()))[1..] == BigBody(f.Number());
  }

  lemma ShortExponent(f: BigFloat)
    ensures ExponentShort(f) <==> (f.Number().Finite? && !f.Number().Whole() ==> -TWO32 < f.Number().exp < TWO32)
  {
    hide Pow2, OddPart, TrailingZeros, BitLen;
    if f.Big? && f.m > 0 { BigExponent(f); }
  }

  lemma BigNumberValue(f: BigFloat)
    requires f.Big?
    ensures f.Number().IsReal() && f.Number().Value() == f.Value()
  {
    if f.m > 0 {
      OddPartScale(f.m);
      ScaleShift(OddPart(f.m), TrailingZeros(f.m), f.e);
    } else {
      assert Scale(0, f.e) == 0.0 by { ScaleMinus0(f.e); }
    }
  }

  lemma ScaleMinus0(e: int)
    ensures Scale(0, e) == 0.0
  {
  }

  /** Numbers whose exponent fields are cut to the same eight digits. */
  predicate CutAlike(m: Numbers.Number, n: Numbers.Number) {
    && m.Finite? && n.Finite? && !m.Whole() && !n.Whole()
    && m.neg == n.neg && m.sig == n.sig && (m.exp < 0 <==> n.exp < 0)
    && GoHex(if m.exp < 0 then -m.exp else m.exp) == GoHex(if n.exp < 0 then -n.exp else n.exp)
  }

  lemma FieldStart(v: nat)
    ensures GoHex(v) != [] && GoHex(v)[0] != MINUS
  {
    hide HexDigits;
    assert IsHexDigit(GoHex(v)[0] as int);
  }

  lemma FieldParts(n: Numbers.Number)
    requires n.Finite?
    ensures var g := GoHex(if n.exp < 0 then -n.exp else n.exp);
            && g != [] && |BigField(n)| > 1 && BigField(n)[0] == CH_P
            && (BigField(n)[1] == MINUS <==> n.exp < 0)
            && BigField(n)[1 + |Sign(n.exp < 0)|..] == g
  {
    hide GoHex;
    var g := GoHex(if n.exp < 0 then -n.exp else n.exp);
    FieldStart(if n.exp < 0 then -n.exp else n.exp);
    if n.exp < 0 {
      assert BigField(n) == [CH_P, MINUS] + g;
    } else {
      assert BigField(n) == [CH_P] + g;
    }
  }

  lemma SameField(m: Numbers.Number, n: Numbers.Number)
    requires m.Finite? && n.Finite? && BigField(m) == BigField(n)
    ensures m.exp < 0 <==> n.exp < 0
    ensures GoHex(if m.exp < 0 then -m.exp else m.exp) == GoHex(if n.exp < 0 then -n.exp else n.exp)
  {
    hide GoHex, BigField;
    FieldParts(m);
    FieldParts(n);
  }

  function FiniteTail(n: Numbers.Number): Text
    requires n.Finite?
  {
    if n.Whole() then [] else BigField(n)
  }

  lemma FiniteBody(n: Numbers.Number)
    requires n.Finite? && n.Canonical()
    ensures n.Shown() > 0 && BigBody(n) == Sign(n.neg) + (HexDigits(n.Shown()) + FiniteTail(n))
    ensures BigBody(n) != [] && (BigBody(n)[0] == MINUS <==> n.neg)
    ensures BigBody(n)[|Sign(n.neg)|..] == HexDigits(n.Shown()) + FiniteTail(n)
    ensures IsHexDigit(BigBody(n)[|Sign(n.neg)|] as int) && BigBody(n)[|Sign(n.neg)|] != ZERO
    ensures !IsHexDigit(Peek(FiniteTail(n), 0))
  {
    hide HexDigits, Pow2, GoHex, BigField, OddPart, TrailingZeros;
    if n.Whole() { OddPartOfScaled(n.sig, n.exp); }
    hide Numbers.Number.Shown;
    FieldStarts(n);
    SignedDigits(n.neg, n.Shown(), FiniteTail(n), BigBody(n));
  }

  /** A sign, digits and a tail. */
  lemma SignedDigits(neg: bool, v: nat, tail: Text, t: Text)
    requires v > 0 && t == Sign(neg) + HexDigits(v) + tail
    ensures t == Sign(neg) + (HexDigits(v) + tail) && t != [] && (t[0] == MINUS <==> neg)
    ensures t[|Sign(neg)|..] == HexDigits(v) + tail
    ensures IsHexDigit(t[|Sign(neg)|] as int) && t[|Sign(neg)|] != ZERO
  {
    hide HexDigits;
    var d := HexDigits(v);
    DigitsValue(v);
    assert IsHexDigit(d[0] as int);
    Assoc(Sign(neg), d, tail);
    assert t[|Sign(neg)|] == d[0];
  }

  lemma SameParts(m: Numbers.Number, n: Numbers.Number)
    requires m.Finite? && n.Finite? && m.Canonical() && n.Canonical() && BigBody(m) == BigBody(n)
    ensures m.neg == n.neg && m.Shown() == n.Shown() && FiniteTail(m) == FiniteTail(n)
  {
    hide HexDigits, BigBody, FiniteTail, Numbers.Number.Shown;
    FiniteBody(m);
    FiniteBody(n);
    SplitAtNonHex(HexDigits(m.Shown()), FiniteTail(m), HexDigits(n.Shown()), FiniteTail(n));
    DigitsInjective(m.Shown(), n.Shown());
  }

  lemma SameFinite(m: Numbers.Number, n: Numbers.Number)
    requires m.Finite? && n.Finite? && m.Canonical() && n.Canonical() && BigBody(m) == BigBody(n)
    ensures m == n || CutAlike(m, n)
  {
    hide GoHex, BigBody, BigField, Pow2;
    SameParts(m, n);
    FieldStarts(m);
    FieldStarts(n);
    if m.Whole() {
      OddScaleUnique(m.sig, m.exp, n.sig, n.exp);
    } else {
      SameField(m, n);
    }
  }

  lemma FiniteBodies(m: Numbers.Number, n: Numbers.Number)
    requires m.Finite? && n.Finite? && m.Canonical() && n.Canonical()
    ensures BigBody(m) == BigBody(n) <==> m == n || CutAlike(m, n)
  {
    hide BigBody, CutAlike;
    if BigBody(m) == BigBody(n) {
      SameFinite(m, n);
    } else if CutAlike(m, n) {
      AlikeBody(m, n);
    }
  }

  lemma FieldStarts(n: Numbers.Number)
    requires n.Finite?
    ensures BigField(n) != [] && BigField(n)[0] == CH_P
  {
    hide GoHex;
  }

  lemma AlikeField(m: Numbers.Number, n: Numbers.Number)
    requires CutAlike(m, n)
    ensures BigField(m) == BigField(n)
  {
    hide GoHex;
  }

  lemma AlikeBody(m: Numbers.Number, n: Numbers.Number)
    requires CutAlike(m, n)
    ensures BigBody(m) == BigBody(n)
  {
    AlikeField(m, n);
    hide HexDigits, Spell, BigField, GoHex, Numbers.Number.Shown;
    ShownSig(m);
    ShownSig(n);
  }

  lemma ShownSig(n: Numbers.Number)
    requires n.Finite? && !n.Whole()
    ensures n.Shown() == n.sig
  {
  }

  lemma ZeroBody(n: Numbers.Number)
    requires n.Finite? && n.Canonical()
    ensures BigBody(n) != BigBody(Zero)
  {
    hide BigBody;
    FiniteBody(n);
    assert BigBody(Zero) == [ZERO] by { ZeroSpelled(); }
  }

  lemma ZeroSpelled()
    ensures BigBody(Zero) == [ZERO]
  {
  }

  /** Two finite big floats print alike exactly when they are equal or their exponent fields are cut to the same digits. */
  lemma BigTextEqual(f: BigFloat, g: BigFloat)
    requires f.Big? && g.Big?
    ensures BigText(f) == BigText(g) <==> f.Value() == g.Value() || CutAlike(f.Number(), g.Number())
  {
    hide BigText, BigBody, GoHex, Pow2, OddPart, TrailingZeros, BitLen, Numbers.Number.Value, BigFloat.Value, CutAlike;
    var m, n := f.Number(), g.Number();
    BigTextBody(f);
    BigTextBody(g);
    assert ([SP] + BigBody(m))[1..] == BigBody(m) && ([SP] + BigBody(n))[1..] == BigBody(n);
    BigNumberValue(f);
    BigNumberValue(g);
    CanonicalValueInjective(m, n);
    if m.Finite? && n.Finite? {
      FiniteBodies(m, n);
    } else {
      NotCutAlike(m, n);
      if m.Finite? { ZeroBody(m); }
      if n.Finite? { ZeroBody(n); }
    }
  }

  lemma NotCutAlike(m: Numbers.Number, n: Numbers.Number)
    requires !m.Finite? || !n.Finite?
    ensures !CutAlike(m, n)
  {
  }

  /** For one, 2^(2^32) and 2^(2^33) both print as 1p00000000. */
  lemma CutExample()
    ensures BigText(Big(false, 1, TWO32)) == BigText(Big(false, 1, 2 * TWO32))
  {
    hide BigText, GoHex, BigFloat.Value;
    CutPowers();
    BigTextEqual(Big(false, 1, TWO32), Big(false, 1, 2 * TWO32));
  }

  lemma CutPowers()
    ensures GoHex(TWO32) == GoHex(2 * TWO32)
  {
    var z := [ZERO, ZERO, ZERO, ZERO, ZERO, ZERO, ZERO, ZERO];
    EightZeros(1);
    EightZeros(2);
    assert HexDigits(1) == [DigitChar(1)] && HexDigits(2) == [DigitChar(2)];
    assert (HexDigits(1) + z)[1..] == z && (HexDigits(2) + z)[1..] == z;
  }

  lemma EightZeros(v: nat)
    requires 0 < v < 16
    ensures HexDigits(v * TWO32) == HexDigits(v) + [ZERO, ZERO, ZERO, ZERO, ZERO, ZERO, ZERO, ZERO]
  {
    var a, b := v * 0x10000, v * TWO32;
    FourZeros(v);
    FourZeros(a);
    hide HexDigits;
    assert HexDigits(v) + [ZERO, ZERO, ZERO, ZERO] + [ZERO, ZERO, ZERO, ZERO]
        == HexDigits(v) + [ZERO, ZERO, ZERO, ZERO, ZERO, ZERO, ZERO, ZERO];
  }

  lemma OneZero(v: nat)
    requires v > 0
    ensures HexDigits(16 * v) == HexDigits(v) + [ZERO]
  {
    assert (16 * v) / 16 == v && (16 * v) % 16 == 0;
    assert DigitChar(0) == ZERO;
  }

  lemma FourZeros(v: nat)
    requires v > 0
    ensures HexDigits(v * 0x10000) == HexDigits(v) + [ZERO, ZERO, ZERO, ZERO]
  {
    hide HexDigits;
    var h := HexDigits(v);
    OneZero(v);
    OneZero(16 * v);
    OneZero(16 * (16 * v));
    OneZero(16 * (16 * (16 * v)));
    assert h + [ZERO] + [ZERO] + [ZERO] + [ZERO] == h + [ZERO, ZERO, ZERO, ZERO];
  }

  /** One text per real number, at any precision, while the exponent fields are below 2^32; and at any exponent the text the C
      formatter gives a double exactly if the double has that value. */
  lemma BigTextCanonical(f: BigFloat, g: BigFloat, u: uint64)
    requires f.Big? && g.Big? && IsCarried(u)
    ensures ExponentShort(f) && ExponentShort(g) ==> (BigText(f) == BigText(g) <==> f.Value() == g.Value())
    ensures BigText(f) == [SP] + Spell(OfDouble(u)) <==> f.Value() == DoubleValue(u)
  {
    hide Spell, BigText, BigBody, GoHex, Pow2, OddPart, TrailingZeros, BitLen, Numbers.Number.Value, BigFloat.Value, DoubleValue, OfDouble;
    BigTextSpells(f);
    BigTextSpells(g);
    BigNumberValue(f);
    BigNumberValue(g);
    OfDoubleValue(u);
    OneSpellingPerReal(f.Number(), g.Number());
    OneSpellingPerReal(f.Number(), OfDouble(u));
    assert ([SP] + Spell(f.Number()))[1..] == Spell(f.Number());
    assert ([SP] + Spell(g.Number()))[1..] == Spell(g.Number());
    assert ([SP] + Spell(OfDouble(u)))[1..] == Spell(OfDouble(u));
    if !ExponentShort(f) {
      LongApart(f, u);
      SpellInjective(f.Number(), OfDouble(u));
    }
  }

  /** A cut exponent field has eight digits, more than a double's. */
  lemma LongApart(f: BigFloat, u: uint64)
    requires f.Big? && !ExponentShort(f) && IsCarried(u)
    ensures BigText(f) != [SP] + Spell(OfDouble(u)) && f.Number() != OfDouble(u)
  {
    hide Spell, BigText, BigBody, GoHex, Pow2, OddPart, TrailingZeros, BitLen, OfDouble;
    var m, n := f.Number(), OfDouble(u);
    BigTextBody(f);
    ShortExponent(f);
    BodySpells(n);
    assert ([SP] + BigBody(m))[1..] == BigBody(m) && ([SP] + BigBody(n))[1..] == BigBody(n);
    if n.Finite? {
      DoubleFits(u);
      FiniteBodies(m, n);
      if BigBody(m) == BigBody(n) { SmallField(if n.exp < 0 then -n.exp else n.exp, if m.exp < 0 then -m.exp else m.exp); }
    } else {
      CarriedZero(u);
      ZeroBody(m);
    }
  }

  lemma CarriedZero(u: uint64)
    requires IsCarried(u) && !OfDouble(u).Finite?
    ensures OfDouble(u) == Zero
  {
  }

  lemma SmallField(a: nat, b: nat)
    requires a < 0x1000 && b >= TWO32
    ensures GoHex(a) != GoHex(b)
  {
    GoHexExact(a);
    GoHexExact(b);
    Pow2Values();
    DigitsLength(a, 3);
    DigitsLength(b, 8);
  }
}
