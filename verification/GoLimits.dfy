/** Where the Go half stops agreeing, exactly: significands of more than eight digits, and negative words of C beyond int64. */
module GoLimits {
  import opened Words
  import opened Hex
  import opened Numbers
  import opened Floats
  import opened Readers
  import opened Messages
  import opened GoFormat
  import opened GoValues
  import opened GoNumbers
  import opened GoTrees

  // ----- fields cut to eight digits

  /** A field cut to eight digits starts with a zero, which ends it at once, or spells a smaller number. */
  lemma CutField(v: nat, tail: Text)
    requires v >= TWO32
    ensures var g := GoHex(v);
            |g| == 8 && AllHex(g)
            && if g[0] == ZERO then ScanHex(g + tail) == Hex(0, 0, g[1..] + tail)
               else exists w: nat :: 0 < w < TWO32 && g == HexDigits(w)
  {
    var d := HexDigits(v);
    var g := GoHex(v);
    GoHexExact(v);
    assert AllHex(g);
    if g[0] == ZERO {
      assert (g + tail)[1..] == g[1..] + tail;
    } else {
      ValueDigits(g);
      var w := HexFrom(0, g);
      Pow2Values();
      DigitsLength(w, 8);
    }
  }

  /** The digit after a zero is left over: an error after a minus sign, the wrong rest otherwise. */
  lemma CutToZero(neg: bool, g: Text, tail: Text, rest: Text)
    requires |g| == 8 && AllHex(g) && |rest| <= |tail| && tail != []
    requires ScanHex(g + tail) == Hex(0, 0, g[1..] + tail)
    ensures GoMagnitude(neg, g + tail).Ok? ==> GoMagnitude(neg, g + tail).rest != rest
  {
    hide ScanHex, GoExponent, BuildFloat64, ShiftLeft, LeadingZeros;
    var left := g[1..] + tail;
    assert left[0] == g[1];
    assert IsHexDigit(g[1] as int);
    assert (g + tail)[0] == g[0] && IsHexDigit(g[0] as int);
  }

  lemma PlainField(neg: bool, w: uint64, rest: Text)
    requires w > 0 && Delimited(rest)
    ensures var r := GoMagnitude(neg, HexDigits(w) + rest); r.Ok? ==> r.v == PlainValue(neg, w)
  {
    hide HexDigits, GoScan;
    DigitsFirst(w, rest);
  }

  lemma ScaledField(neg: bool, w: uint64, e: int, rest: Text)
    requires Delimited(rest) && -INT_MAX <= e <= INT_MAX
    ensures var s := HexDigits(w) + ([CH_P] + (Sign(e < 0) + HexDigits(if e < 0 then -e else e) + rest));
            GoMagnitude(neg, s).Ok? ==> w % 2 == 1 && GoMagnitude(neg, s).v == ScaledValue(neg, w, e)
  {
    hide HexDigits, GoMagnitude, GoExponent, ScaledValue;
    var a := if e < 0 then -e else e;
    var x := Sign(e < 0) + HexDigits(a) + rest;
    if w % 2 == 0 {
      EvenRefused(neg, w, x);
    } else {
      assert (a + 0) % TWO64 == a;
      GoReadsExponent(e < 0, a, 0, rest);
      GoField(neg, w, x);
    }
  }

  // ----- a smaller significand is another number

  lemma PlainOther(neg: bool, w: uint64, n: Number)
    requires 0 < w < TWO32 && n.Canonical() && n.Finite? && n.Whole() && n.Shown() != w
    ensures !Says(PlainValue(neg, w), n)
  {
    hide Pow2, OddPart, TrailingZeros;
    assert ToInt64(-(w as int)) == -(w as int);
    OddPartScale(w);
  }

  lemma ScaledOther(neg: bool, w: uint64, e: int, n: Number)
    requires w % 2 == 1 && w < TWO32 && n.Canonical() && n.Finite? && n.sig != w
    ensures !Says(ScaledValue(neg, w, e), n)
  {
    hide Pow2, BuildFloat64, LeadingZeros, ShiftLeft, OddPart, TrailingZeros, OfDouble, PlainValue, NumberOf;
    if 0 <= e <= LeadingZeros(w) && !(neg && e == LeadingZeros(w)) {
      ShiftFits(w, e);
      ShiftLeftFits(w, e);
      OddPartOfScaled(w, e);
      MovedInteger(neg, w, e);
    } else {
      BuiltOther(neg, w, e, n);
      FloatSays(BuildFloat64(neg, w, e), n);
    }
  }

  lemma FloatSays(u: uint64, n: Number)
    ensures Says(VFloat(u), n) <==> OfDouble(u) == n
  {
    hide OfDouble;
  }

  lemma HalfWord(w: uint64, e: nat)
    requires w > 0 && e < LeadingZeros(w)
    ensures w * Pow2(e) < TWO63
  {
    hide LeadingZeros;
    ShiftFits(w, e + 1);
    Words.Double(w, e);
  }

  lemma MagnitudeNumber(neg: bool, m: uint64)
    requires m > 0 && (neg ==> m <= TWO63)
    ensures NumberOf(PlainValue(neg, m)) == OfMagnitude(neg, m)
  {
    hide OfMagnitude;
    SignedSays(m);
    if neg { assert ToInt64(-(m as int)) == -(m as int); }
  }

  lemma MovedInteger(neg: bool, w: uint64, e: nat)
    requires w % 2 == 1 && w * Pow2(e) < TWO64 && (neg ==> e < LeadingZeros(w))
    requires OddPart(w * Pow2(e)) == w && TrailingZeros(w * Pow2(e)) == e && w * Pow2(e) > 0
    ensures NumberOf(PlainValue(neg, w * Pow2(e))) == Finite(neg, w, e)
  {
    hide Pow2, OddPart, TrailingZeros, LeadingZeros, PlainValue, NumberOf;
    if neg { HalfWord(w, e); }
    MagnitudeNumber(neg, w * Pow2(e));
  }

  /** A narrow odd significand is rebuilt exactly, or leaves the normal range. */
  lemma BuiltOther(neg: bool, w: uint64, e: int, n: Number)
    requires w % 2 == 1 && w < TWO32 && n.Canonical() && n.Finite? && n.sig != w
    ensures OfDouble(BuildFloat64(neg, w, e)) != n
  {
    hide Pow2, BuildFloat64, LeadingZeros, OddPart, TrailingZeros, OfDouble, Size, Scale;
    var u := BuildFloat64(neg, w, e);
    if -1022 <= LeadingExponent(w, e) <= 1023 {
      NarrowWord(w);
      RoundingError(neg, w, e);
      ExactIffNarrow(neg, w, e);
      OfDoubleValue(u);
      if OfDouble(u) == n { OneSize(n, w, e); }
    } else {
      Floats.OutOfRange(neg, w, e);
    }
  }

  lemma NarrowWord(w: uint64)
    requires w % 2 == 1 && w < TWO32
    ensures BitLen(OddPart(w)) <= 53
  {
    Pow2Values();
    BitLenFits(w, 53);
  }

  lemma OneSize(n: Number, w: nat, e: int)
    requires n.Canonical() && n.Finite? && w % 2 == 1 && (n.Value() == Scale(w, e) || n.Value() == -Scale(w, e))
    ensures n.sig == w
  {
    hide Scale;
    SizesPositive(n.sig, n.exp);
    SizesPositive(w, e);
    OddRealUnique(n.sig, n.exp, w, e);
  }

  lemma SizesPositive(w: nat, e: int)
    requires w > 0
    ensures Scale(w, e) > 0.0
  {
    ScaleOrder(0, w, e);
    assert Scale(0, e) == 0.0;
  }

  // ----- numbers through the Go printer and reader

  /** A printed number is read back as itself. */
  predicate Returns(v: Value, rest: Text, depth: nat)
    requires IsNumeric(v)
  {
    var r := ReadValue(ValueText(v) + rest, depth);
    r.Ok? && r.rest == rest && Says(r.v, NumberOf(v))
  }

  /** What follows the significand field. */
  function FieldTail(n: Number): Text
    requires n.Finite?
  {
    if n.Whole() then [] else [CH_P] + Sign(n.exp < 0) + GoHex(if n.exp < 0 then -n.exp else n.exp)
  }

  lemma ScaledTextParts(n: Number)
    requires n.Finite?
    ensures GoScaledText(n.sig, n.exp) == GoHex(n.Shown()) + FieldTail(n)
  {
    hide GoHex, Pow2;
    assert GoHex(n.Shown()) + [] == GoHex(n.Shown());
    Assoc([CH_P], Sign(n.exp < 0), GoHex(if n.exp < 0 then -n.exp else n.exp));
  }

  lemma FloatText(u: uint64)
    requires IsNormal(u)
    ensures var n := OfDouble(u);
            -1100 <= n.exp <= 1100 && GoFloatText(u) == [SP] + (Sign(n.neg) + (GoHex(n.Shown()) + FieldTail(n)))
  {
    hide GoHex, Pow2, GoScaledText;
    var n := OfDouble(u);
    OddPartScale(TWO52 + Fraction(u));
    DoubleFits(u);
    ScaledTextParts(n);
  }

  lemma IntText(neg: bool, a: uint64)
    requires a > 0
    ensures var n := OfMagnitude(neg, a);
            0 <= n.exp < 64 && GoUintText(neg, a) == [SP] + (Sign(n.neg) + (GoHex(n.Shown()) + FieldTail(n)))
  {
    hide GoHex, Pow2, GoScaledText;
    MagnitudeFits(neg, a);
    ScaledTextParts(OfMagnitude(neg, a));
    UintScaled(neg, a);
  }

  lemma FiniteText(v: Value)
    requires IsNumeric(v) && NumberOf(v).Finite?
    ensures var n := NumberOf(v);
            && n.Canonical() && -1100 <= n.exp <= 1100
            && ValueText(v) == [SP] + (Sign(n.neg) + (GoHex(n.Shown()) + FieldTail(n)))
  {
    hide GoHex, Pow2, GoUintText, GoFloatText, FieldTail, Number.Shown;
    match v
    case VUint(u) => IntText(false, u);
    case VInt(i) => IntText(i < 0, if i < 0 then -(i as int) else i);
    case VFloat(u) => FloatText(u);
  }

  /** An integer or a double survives Go's printer and reader exactly when its printed significand has at most eight digits. */
  lemma NumberTripExact(v: Value, rest: Text, depth: nat)
    requires IsNumeric(v) && Delimited(rest) && depth <= MAX_DEPTH
    ensures Returns(v, rest, depth) <==> Short(NumberOf(v))
  {
    hide ReadValue, Says, ValueText, Short, NumberOf;
    if Short(NumberOf(v)) {
      ShortPrintable(v);
      NumberText(v);
      Machine(v);
      GoReadsC(NumberOf(v), rest, depth);
    } else {
      LongFinite(v);
      NumberCut(v, rest, depth);
    }
  }

  lemma ShortPrintable(v: Value)
    requires IsNumeric(v) && Short(NumberOf(v))
    ensures Printable(v)
  {
    hide Short;
  }

  lemma Machine(v: Value)
    requires IsNumeric(v)
    ensures FromMachine(NumberOf(v))
  {
    hide OfInt, OfDouble;
  }

  lemma LongFinite(v: Value)
    requires IsNumeric(v) && !Short(NumberOf(v))
    ensures NumberOf(v).Finite? && NumberOf(v).Shown() >= TWO32
  {
    assert NumberOf(v).Finite?;
    FiniteText(v);
  }

  lemma NumberCut(v: Value, rest: Text, depth: nat)
    requires IsNumeric(v) && NumberOf(v).Finite? && NumberOf(v).Shown() >= TWO32 && Delimited(rest) && depth <= MAX_DEPTH
    ensures !Returns(v, rest, depth)
  {
    hide GoMagnitude, GoNegative, GoUnsigned, GoHex, ReadValue, HexDigits, ValueText, ScanHex, NumberOf, Says, Number.Shown, FieldTail;
    var n := NumberOf(v);
    var g, tail := GoHex(n.Shown()), FieldTail(n) + rest;
    FiniteText(v);
    CutField(n.Shown(), tail);
    CutRead(ValueText(v) + rest, n.neg, g, FieldTail(n), rest, depth);
    if g[0] == ZERO {
      CutToZero(n.neg, g, tail, rest);
    } else {
      var w: nat :| 0 < w < TWO32 && g == HexDigits(w);
      CutOther(n, w, rest);
    }
  }

  /** Past the space and the sign. */
  lemma CutRead(s: Text, neg: bool, g: Text, x: Text, rest: Text, depth: nat)
    requires s == [SP] + (Sign(neg) + (g + x)) + rest && g != [] && AllHex(g) && depth <= MAX_DEPTH
    ensures ReadValue(s, depth) == GoMagnitude(neg, g + (x + rest))
  {
    hide ReadValue, GoNegative, GoUnsigned;
    var u := g + (x + rest);
    assert s[1..] == Sign(neg) + u;
    assert neg ==> s[2..] == u;
    assert !neg ==> s[1..] == u && s[1] == g[0];
    assert IsHexDigit(g[0] as int);
    GoDispatch(s, depth);
  }

  lemma CutOther(n: Number, w: nat, rest: Text)
    requires n.Canonical() && n.Finite? && -1100 <= n.exp <= 1100 && n.Shown() >= TWO32 && 0 < w < TWO32 && Delimited(rest)
    ensures var r := GoMagnitude(n.neg, HexDigits(w) + (FieldTail(n) + rest)); r.Ok? ==> !Says(r.v, n)
  {
    hide GoMagnitude, GoHex, HexDigits, Says, PlainValue, ScaledValue;
    if n.Whole() {
      assert FieldTail(n) + rest == rest;
      PlainField(n.neg, w, rest);
      PlainOther(n.neg, w, n);
    } else {
      var a := if n.exp < 0 then -n.exp else n.exp;
      GoHexExact(a);
      Assoc([CH_P], Sign(n.exp < 0), HexDigits(a));
      Assoc([CH_P], Sign(n.exp < 0) + HexDigits(a), rest);
      ScaledField(n.neg, w, n.exp, rest);
      if w % 2 == 1 { ScaledOther(n.neg, w, n.exp, n); }
    }
  }

  /** An unsigned word that is cut is read as another number, or the text after the value read is neither a space nor a newline. */
  lemma UintCut(u: uint64, rest: Text)
    requires !Short(OfInt(u)) && Delimited(rest)
    ensures var r := ReadValue(GoUintText(false, u) + rest, 1);
            !r.Eof? && (r.Ok? && r.v == VUint(u) ==> r.rest != rest && r.rest != [] && r.rest[0] !in {SP, NL})
  {
    hide GoMagnitude, GoUnsigned, GoHex, ReadValue, HexDigits, GoUintText, ScanHex, Says, Number.Shown, FieldTail, Short;
    var v, n := VUint(u), OfInt(u);
    LongFinite(v);
    FiniteText(v);
    var g, tail := GoHex(n.Shown()), FieldTail(n) + rest;
    CutField(n.Shown(), tail);
    CutRead(ValueText(v) + rest, false, g, FieldTail(n), rest, 1);
    assert Sign(n.neg) == Sign(false) by { assert !n.neg; }
    if g[0] == ZERO {
      ZeroLeft(g, tail);
    } else {
      var w: nat :| 0 < w < TWO32 && g == HexDigits(w);
      CutOther(n, w, rest);
      SaysItself(u);
    }
    UnsignedNeverEnds(g + tail);
  }

  lemma SaysItself(u: uint64)
    ensures Says(VUint(u), OfInt(u))
  {
  }

  lemma UnsignedNeverEnds(s: Text)
    ensures GoMagnitude(false, s) == GoUnsigned(s) && !GoUnsigned(s).Eof?
  {
  }

  lemma ZeroLeft(g: Text, tail: Text)
    requires |g| == 8 && AllHex(g) && tail != [] && ScanHex(g + tail) == Hex(0, 0, g[1..] + tail)
    ensures GoMagnitude(false, g + tail) == Ok(VUint(0), g[1..] + tail) && (g[1..] + tail)[0] !in {SP, NL}
  {
    hide ScanHex, GoExponent, BuildFloat64, ShiftLeft, LeadingZeros;
    assert (g[1..] + tail)[0] == g[1];
    assert IsHexDigit(g[1] as int);
  }

  // ----- strings and bytes through the Go printer and reader

  function SizedValue(delim: byte, body: Text): Value { if delim == BAR then VBytes(body) else VString(body) }

  /** A length cut to eight digits starts with a zero, which is read as a number, or is a smaller length. */
  lemma CutLength(delim: byte, body: Text, g: Text, rest: Text)
    requires (delim == COLON || delim == BAR) && |g| == 8 && AllHex(g) && |body| >= TWO32
    requires if g[0] == ZERO then ScanHex(g + ([delim] + (body + rest))) == Hex(0, 0, g[1..] + ([delim] + (body + rest)))
             else exists w: nat :: 0 < w < TWO32 && g == HexDigits(w)
    ensures var r := GoUnsigned(g + ([delim] + (body + rest))); r.Ok? ==> r.v != SizedValue(delim, body)
  {
    hide ScanHex, HexDigits, GoScan, GoExponent, BuildFloat64, ShiftLeft, LeadingZeros;
    var tail := [delim] + (body + rest);
    if g[0] == ZERO {
      ZeroLeft(g, tail);
    } else {
      var w: nat :| 0 < w < TWO32 && g == HexDigits(w);
      DigitsFirst(w, tail);
    }
  }

  /** A string, or bytes, survives Go's printer and reader exactly when its length is below 2^32. */
  lemma SizedTripExact(delim: byte, body: Text, rest: Text, depth: nat)
    requires (delim == COLON || delim == BAR) && rest != [] && depth <= MAX_DEPTH
    ensures ReadValue(GoSizedText(delim, body) + rest, depth) == Ok(SizedValue(delim, body), rest) <==> |body| < TWO32
  {
    hide ReadValue, GoSizedText, GoUnsigned, GoHex, ScanHex, HexDigits;
    if |body| < TWO32 {
      SizedTrip(delim, body, rest, depth);
    } else {
      var tail := [delim] + (body + rest);
      CutField(|body|, tail);
      SizedRead(delim, body, rest, depth);
      CutLength(delim, body, GoHex(|body|), rest);
    }
  }

  /** Past the space. */
  lemma SizedRead(delim: byte, body: Text, rest: Text, depth: nat)
    requires depth <= MAX_DEPTH && GoHex(|body|) != [] && AllHex(GoHex(|body|))
    ensures ReadValue(GoSizedText(delim, body) + rest, depth) == GoUnsigned(GoHex(|body|) + ([delim] + (body + rest)))
  {
    hide ReadValue, GoUnsigned, GoHex;
    var s, g := GoSizedText(delim, body) + rest, GoHex(|body|);
    assert s[1..] == g + ([delim] + (body + rest));
    assert s[1] == g[0] && IsHexDigit(g[0] as int);
    GoDispatch(s, depth);
  }

  // ----- negative words

  /** C reads a minus sign and any 64-bit magnitude as one integer token; Go reads the same text as the same number exactly
      when the magnitude is at most 2^63, or is printed with an exponent and fits the 53 bits of a double. */
  lemma NegativeWordInGo(n: uint64, rest: Text, depth: nat)
    requires n > 0 && Delimited(rest) && depth <= MAX_DEPTH
    ensures var r := ReadValue([SP] + Spell(OfMagnitude(true, n)) + rest, depth);
            && r.Ok? && r.rest == rest
            && (Says(r.v, OfMagnitude(true, n)) <==> n <= TWO63 || (TrailingZeros(n) >= 8 && BitLen(OddPart(n)) <= 53))
  {
    hide ReadValue, Spell, PlainValue, ScaledValue, Says;
    var m := OfMagnitude(true, n);
    MagnitudeFits(true, n);
    SpellingIsLegal(m);
    GoReadsText(TextOf(m), rest, depth);
    if n <= TWO63 {
      assert m == OfInt(-(n as int));
      IntegerReadsBack(-(n as int), rest, depth);
    } else {
      LargeNegative(n);
    }
  }

  lemma LargeNegative(n: uint64)
    requires n > TWO63 && Fits(OfMagnitude(true, n))
    ensures Says(ValueOfText(TextOf(OfMagnitude(true, n))), OfMagnitude(true, n))
            <==> TrailingZeros(n) >= 8 && BitLen(OddPart(n)) <= 53
  {
    hide Pow2, OddPart, TrailingZeros, LeadingZeros, BuildFloat64, ValueOfText, OfDouble, Says, PlainValue, ShiftLeft;
    var o, t := OddPart(n), TrailingZeros(n);
    OddPartScale(n);
    Pow2Values();
    OddPartBound(n, 64);
    ValueOfFinite(OfMagnitude(true, n));
    if t < 8 {
      Negated(n);
    } else {
      TopFields(n);
      TopFloat(o, t);
      FloatSays(BuildFloat64(true, o, t), OfMagnitude(true, n));
    }
  }

  /** Negating it gives a positive number. */
  lemma Negated(n: uint64)
    requires n > TWO63
    ensures !Says(PlainValue(true, n), OfMagnitude(true, n))
  {
    hide Pow2, OddPart, TrailingZeros;
    assert ToInt64(-(n as int)) == TWO64 - n;
  }

  lemma TopFloat(o: uint64, t: nat)
    requires o % 2 == 1 && LeadingExponent(o, t) == 63
    ensures OfDouble(BuildFloat64(true, o, t)) == Finite(true, o, t) <==> BitLen(OddPart(o)) <= 53
    ensures OddPart(o) == o
  {
    hide Pow2, TrailingZeros, LeadingZeros, BuildFloat64, OfDouble, Size, Scale;
    var u := BuildFloat64(true, o, t);
    RoundingError(true, o, t);
    ExactIffNarrow(true, o, t);
    OfDoubleValue(u);
    CanonicalValueInjective(OfDouble(u), Finite(true, o, t));
  }

  /** A word with its top bit set has no leading zeros to spare. */
  lemma TopFields(n: uint64)
    requires n > TWO63 && OddPart(n) < TWO64
    ensures LeadingZeros(OddPart(n)) == TrailingZeros(n) && LeadingExponent(OddPart(n), TrailingZeros(n)) == 63
  {
    OddPartScale(n);
    BitLenScale(OddPart(n), TrailingZeros(n));
    Pow2Values();
    BitLenUnique(n, 63);
  }
}
