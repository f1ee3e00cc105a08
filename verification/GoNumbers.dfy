/** Numbers read by the Go parser: what it makes of any spelling either formatter emits. */
module GoNumbers {
  import opened Words
  import opened Hex
  import opened Numbers
  import opened Floats
  import opened RealTexts
  import opened Readers
  import opened Tokens
  import opened Messages
  import opened GoValues

  predicate IsNumeric(v: Value) { v.VUint? || v.VInt? || v.VFloat? }

  function NumberOf(v: Value): Number
    requires IsNumeric(v)
  {
    match v case VUint(n) => OfInt(n) case VInt(i) => OfInt(i) case VFloat(u) => OfDouble(u)
  }

  predicate Says(v: Value, n: Number) { IsNumeric(v) && NumberOf(v) == n }

  /** Numbers the formatters print from a 64-bit integer or a double. */
  predicate FromMachine(n: Number) {
    (exists v: int :: -TWO63 <= v < TWO64 && n == OfInt(v)) || (exists u: uint64 :: n == OfDouble(u))
  }

  // ----- fields

  /** An exponent beyond 32 bits comes back as the limit on the wrong side. */
  function GoClamp(down: bool, b: uint64): int {
    if b <= INT_MAX then Signed(down, b) else if down then INT_MAX else INT_MIN
  }

  /** An exponent field on top of any number of significand bits that fell off: their sum as a word, signed and clamped so. */
  lemma GoReadsExponent(down: bool, b: uint64, overflow: nat, rest: Text)
    requires Delimited(rest)
    ensures GoExponent(Sign(down) + HexDigits(b) + rest, overflow) == Ok(GoClamp(down, (b + overflow) % TWO64), rest)
  {
    hide ScanHex, HexDigits;
    var s := Sign(down) + HexDigits(b) + rest;
    var x := HexDigits(b) + rest;
    Assoc(Sign(down), HexDigits(b), rest);
    assert x == if down then s[1..] else s;
    ScanReads(b, rest);
  }

  /** The value of a number text without exponent, and of one with. */
  function PlainValue(neg: bool, a: uint64): Value { if neg then VInt(ToInt64(-(a as int))) else VUint(a) }

  function ScaledValue(neg: bool, a: uint64, e: int): Value {
    if e < 0 || e > LeadingZeros(a) || (neg && e == LeadingZeros(a)) then VFloat(BuildFloat64(neg, a, e))
    else PlainValue(neg, ShiftLeft(a, e))
  }

  function GoMagnitude(neg: bool, s: Text): Outcome<Value> { if neg then GoNegative(s) else GoUnsigned(s) }

  lemma DigitsFirst(a: uint64, tail: Text)
    requires tail != [] && !IsHexDigit(tail[0] as int)
    ensures var s := HexDigits(a) + tail;
            Matches(s, INF_TEXT) == No && GoScan(s) == Ok((a, 0), tail) && IsHexDigit(s[0] as int)
  {
    ScanReads(a, tail);
    assert (HexDigits(a) + tail)[0] == HexDigits(a)[0];
  }

  lemma GoReadsPlain(neg: bool, a: uint64, rest: Text)
    requires Delimited(rest)
    ensures GoMagnitude(neg, HexDigits(a) + rest) == if Plain(neg, a).Legal() then Ok(PlainValue(neg, a), rest) else Err(Invalid)
  {
    hide HexDigits, GoScan;
    DigitsFirst(a, rest);
  }

  /** A significand and an exponent field make a scaled value. */
  lemma GoField(neg: bool, a: uint64, x: Text)
    requires a % 2 == 1
    ensures IsHexDigit(Peek(HexDigits(a) + ([CH_P] + x), 0))
    ensures GoExponent(x, 0).Ok? ==>
              GoMagnitude(neg, HexDigits(a) + ([CH_P] + x)) == Ok(ScaledValue(neg, a, GoExponent(x, 0).v), GoExponent(x, 0).rest)
  {
    hide HexDigits, GoScan, GoExponent, LeadingZeros, BuildFloat64, ShiftLeft;
    var tail := [CH_P] + x;
    assert tail[1..] == x;
    DigitsFirst(a, tail);
  }

  /** The exponent part of a text, regrouped. */
  lemma ScaledShape(a: uint64, down: bool, b: uint64, rest: Text)
    ensures HexDigits(a) + ([CH_P] + Sign(down) + HexDigits(b)) + rest
            == HexDigits(a) + ([CH_P] + (Sign(down) + HexDigits(b) + rest))
  {
    hide HexDigits;
    var d, g, h := HexDigits(a), Sign(down), HexDigits(b);
    Assoc([CH_P], g, h);
    Assoc([CH_P], g + h, rest);
    Assoc(d, [CH_P] + (g + h), rest);
  }

  lemma EvenRefused(neg: bool, a: uint64, x: Text)
    requires a % 2 == 0
    ensures GoMagnitude(neg, HexDigits(a) + ([CH_P] + x)) == Err(Invalid)
  {
    hide HexDigits, GoScan, GoExponent;
    DigitsFirst(a, [CH_P] + x);
  }

  lemma GoReadsScaled(neg: bool, a: uint64, down: bool, b: uint64, rest: Text)
    requires Delimited(rest)
    ensures GoMagnitude(neg, HexDigits(a) + ([CH_P] + Sign(down) + HexDigits(b)) + rest)
            == if a % 2 == 1 then Ok(ScaledValue(neg, a, GoClamp(down, b)), rest) else Err(Invalid)
    ensures IsHexDigit(Peek(HexDigits(a) + ([CH_P] + Sign(down) + HexDigits(b)) + rest, 0))
  {
    hide HexDigits, GoMagnitude, GoExponent, ScaledValue, GoClamp;
    ScaledShape(a, down, b, rest);
    if a % 2 == 1 {
      assert (b + 0) % TWO64 == b;
      GoReadsExponent(down, b, 0, rest);
      GoField(neg, a, Sign(down) + HexDigits(b) + rest);
    } else {
      EvenRefused(neg, a, Sign(down) + HexDigits(b) + rest);
      DigitsFirst(a, [CH_P] + (Sign(down) + HexDigits(b) + rest));
    }
  }

  /** Which branch takes a number text. */
  lemma GoDispatch(s: Text, depth: nat)
    requires |s| > 1 && s[0] == SP && depth <= MAX_DEPTH
    ensures s[1] == MINUS ==> ReadValue(s, depth) == GoNegative(s[2..])
    ensures IsHexDigit(s[1] as int) ==> ReadValue(s, depth) == GoUnsigned(s[1..])
  {
    hide GoNegative, GoUnsigned, ReadItems, ReadEntries, Special;
  }

  /** The value Go makes of a legal text. */
  function ValueOfText(t: RealText): Value {
    match t
    case InfText(neg) => VFloat(if neg then NEGATIVE_INFINITY else POSITIVE_INFINITY)
    case Plain(neg, a) => PlainValue(neg, a)
    case Scaled(neg, a, down, b) => ScaledValue(neg, a, GoClamp(down, b))
  }

  /** A text is read exactly when it is legal, to the value its fields make, and refused as invalid otherwise. */
  lemma GoReadsText(t: RealText, rest: Text, depth: nat)
    requires Delimited(rest) && depth <= MAX_DEPTH
    ensures ReadValue([SP] + t.Written() + rest, depth) == if t.Legal() then Ok(ValueOfText(t), rest) else Err(Invalid)
  {
    if t.InfText? {
      GoReadsInfinity(t.neg, rest, depth);
    } else {
      GoReadsNumber(t, rest, depth);
    }
  }

  lemma SpecialFound(name: Text, u: uint64, rest: Text)
    ensures Special(name + rest, name, u) == Ok(VFloat(u), rest)
  {
    hide Matches;
    MatchesPrefix(name, rest);
    assert (name + rest)[|name|..] == rest;
  }

  lemma GoReadsName(s: Text, depth: nat)
    requires |s| > 1 && s[0] == SP && depth <= MAX_DEPTH
    ensures s[1] == CH_N ==> ReadValue(s, depth) == Special(s[2..], NAN_TEXT[1..], GO_NAN)
    ensures s[1] == CH_I ==> ReadValue(s, depth) == Special(s[2..], INF_TEXT[1..], POSITIVE_INFINITY)
  {
    hide GoNegative, GoUnsigned, ReadItems, ReadEntries, Special;
  }

  lemma NegativeInfinity(rest: Text)
    ensures GoNegative(INF_TEXT + rest) == Ok(VFloat(NEGATIVE_INFINITY), rest)
  {
    hide Matches, GoScan, GoExponent, BuildFloat64, ShiftLeft, LeadingZeros;
    MatchesPrefix(INF_TEXT, rest);
    assert (INF_TEXT + rest)[3..] == rest;
  }

  lemma GoReadsMinusInf(rest: Text, depth: nat)
    requires depth <= MAX_DEPTH
    ensures ReadValue([SP, MINUS] + (INF_TEXT + rest), depth) == Ok(VFloat(NEGATIVE_INFINITY), rest)
  {
    hide ReadValue, GoNegative;
    var s := [SP, MINUS] + (INF_TEXT + rest);
    assert s[2..] == INF_TEXT + rest;
    GoDispatch(s, depth);
    NegativeInfinity(rest);
  }

  lemma GoReadsPlusInf(rest: Text, depth: nat)
    requires depth <= MAX_DEPTH
    ensures ReadValue([SP, CH_I] + (INF_TEXT[1..] + rest), depth) == Ok(VFloat(POSITIVE_INFINITY), rest)
  {
    hide ReadValue, Special;
    var s := [SP, CH_I] + (INF_TEXT[1..] + rest);
    assert s[2..] == INF_TEXT[1..] + rest;
    GoReadsName(s, depth);
    SpecialFound(INF_TEXT[1..], POSITIVE_INFINITY, rest);
  }

  lemma GoReadsInfinity(neg: bool, rest: Text, depth: nat)
    requires depth <= MAX_DEPTH
    ensures ReadValue([SP] + InfText(neg).Written() + rest, depth) == Ok(ValueOfText(InfText(neg)), rest)
  {
    hide ReadValue;
    if neg {
      GoReadsMinusInf(rest, depth);
      assert [SP] + InfText(true).Written() + rest == [SP, MINUS] + (INF_TEXT + rest);
    } else {
      GoReadsPlusInf(rest, depth);
      assert [SP] + InfText(false).Written() + rest == [SP, CH_I] + (INF_TEXT[1..] + rest);
    }
  }

  lemma GoReadsNaN(rest: Text, depth: nat)
    requires depth <= MAX_DEPTH
    ensures ReadValue([SP] + NAN_TEXT + rest, depth) == Ok(VFloat(GO_NAN), rest)
  {
    hide ReadValue, Special;
    var s := [SP] + NAN_TEXT + rest;
    assert s[2..] == NAN_TEXT[1..] + rest;
    GoReadsName(s, depth);
    SpecialFound(NAN_TEXT[1..], GO_NAN, rest);
  }

  /** The digits of a text and its exponent field, without the sign. */
  function Body(t: RealText): Text
    requires !t.InfText?
  {
    if t.Plain? then HexDigits(t.a) else HexDigits(t.a) + ([CH_P] + Sign(t.down) + HexDigits(t.b))
  }

  lemma SignedBody(t: RealText)
    requires !t.InfText?
    ensures t.Written() == Sign(t.neg) + Body(t)
  {
    hide HexDigits;
    if t.Scaled? { Assoc(Sign(t.neg), HexDigits(t.a), [CH_P] + Sign(t.down) + HexDigits(t.b)); }
  }

  lemma BehindSign(neg: bool, body: Text, rest: Text)
    requires body != []
    ensures var s := [SP] + (Sign(neg) + body) + rest;
            && |s| >= 2 && s[0] == SP
            && if neg then s[1] == MINUS && s[2..] == body + rest else s[1] == body[0] && s[1..] == body + rest
  {
    var s := [SP] + (Sign(neg) + body) + rest;
    assert s[1..] == Sign(neg) + body + rest;
  }

  lemma GoReadsNumber(t: RealText, rest: Text, depth: nat)
    requires !t.InfText? && Delimited(rest) && depth <= MAX_DEPTH
    ensures ReadValue([SP] + t.Written() + rest, depth) == if t.Legal() then Ok(ValueOfText(t), rest) else Err(Invalid)
  {
    assert Body(t)[0] == HexDigits(t.a)[0] && IsHexDigit(Body(t)[0] as int);
    hide ReadValue, GoNegative, GoUnsigned, HexDigits, ScaledValue, PlainValue, GoClamp, RealText.Written;
    SignedBody(t);
    BehindSign(t.neg, Body(t), rest);
    GoDispatch([SP] + t.Written() + rest, depth);
    if t.Plain? {
      GoReadsPlain(t.neg, t.a, rest);
    } else {
      GoReadsScaled(t.neg, t.a, t.down, t.b, rest);
    }
  }

  // ----- which texts Go reads right

  /** The integer the text denotes, or the double nearest to it as `buildFloat64` rounds, zero below the normal range and
      infinity above it. */
  predicate Right(v: Value, t: RealText)
    requires !t.InfText?
  {
    if v.VUint? then v.n as real == t.Denotes()
    else if v.VInt? then v.i as real == t.Denotes()
    else v == VFloat(BuildFloat64(t.neg, t.a, t.Power()))
  }

  /** Go reads a legal number text right exactly when, without an exponent field, it is not below -2^63 and, with one, the
      exponent is not beyond 2^31 - 1 on either side. */
  lemma GoReadsRight(t: RealText, rest: Text, depth: nat)
    requires t.Legal() && !t.InfText? && Delimited(rest) && depth <= MAX_DEPTH
    ensures var r := ReadValue([SP] + t.Written() + rest, depth);
            && r.Ok? && r.rest == rest
            && (Right(r.v, t) <==> if t.Plain? then !t.neg || t.a <= TWO63 else -INT_MAX <= t.Power() <= INT_MAX)
  {
    hide ReadValue, RealText.Written, Right, ValueOfText;
    GoReadsText(t, rest, depth);
    if t.Plain? {
      PlainRight(t);
    } else if t.b <= INT_MAX {
      ScaledRight(t);
    } else {
      BeyondLimits(t.neg, t.a, t.down, t.b);
      BeyondWrong(t);
    }
  }

  lemma PlainRight(t: RealText)
    requires t.Legal() && t.Plain?
    ensures Right(ValueOfText(t), t) <==> !t.neg || t.a <= TWO63
  {
    ScaleShift(t.a, 0, 0);
    assert Scale(t.a, 0) == t.a as real;
  }

  lemma ScaledRight(t: RealText)
    requires t.Legal() && t.Scaled? && t.b <= INT_MAX
    ensures Right(ValueOfText(t), t)
  {
    hide Pow2, LeadingZeros, ShiftLeft, BuildFloat64, RealText.Denotes;
    if 0 <= t.Power() <= LeadingZeros(t.a) { IntegerRight(t); }
  }

  lemma IntegerRight(t: RealText)
    requires t.Legal() && t.Scaled? && 0 <= t.Power() <= LeadingZeros(t.a)
    ensures var w := ShiftLeft(t.a, t.Power());
            && t.Denotes() == Signed(t.neg, w) as real
            && (t.Power() < LeadingZeros(t.a) ==> w < TWO63)
  {
    hide Pow2, LeadingZeros, Scale;
    var e := t.Power();
    ShiftFits(t.a, e);
    ShiftLeftFits(t.a, e);
    ScaleShift(t.a, e, 0);
    ScaleInt(t.a * Pow2(e));
    if e < LeadingZeros(t.a) {
      ShiftFits(t.a, e + 1);
      Words.Double(t.a, e);
    }
  }

  lemma ScaleInt(v: nat)
    ensures Scale(v, 0) == v as real
  {
  }

  /** Every exponent beyond the limits has the opposite effect: a huge number is read as zero, a tiny one as infinity. */
  lemma BeyondLimits(neg: bool, a: uint64, down: bool, b: uint64)
    requires a % 2 == 1 && b > INT_MAX
    ensures ValueOfText(Scaled(neg, a, down, b)) == VFloat(Assemble(neg, if down then 2047 else 0, 0))
  {
  }

  lemma BeyondWrong(t: RealText)
    requires t.Scaled? && t.Legal() && t.b > INT_MAX
    ensures !Right(VFloat(Assemble(t.neg, if t.down then 2047 else 0, 0)), t)
  {
    assert BuildFloat64(t.neg, t.a, t.Power()) == Assemble(t.neg, if t.down then 0 else 2047, 0);
  }

  /** Every legal text with an exponent beyond the limits, at any depth. */
  lemma HugeExponentSwapped(neg: bool, a: uint64, down: bool, b: uint64, rest: Text, depth: nat)
    requires a % 2 == 1 && b > INT_MAX && Delimited(rest) && depth <= MAX_DEPTH
    ensures ReadValue([SP] + Scaled(neg, a, down, b).Written() + rest, depth)
            == Ok(VFloat(Assemble(neg, if down then 2047 else 0, 0)), rest)
  {
    hide ReadValue, RealText.Written, ValueOfText;
    GoReadsText(Scaled(neg, a, down, b), rest, depth);
    BeyondLimits(neg, a, down, b);
  }

  /** For one: 2^(2^31) is read as zero, and its inverse as infinity. */
  lemma SwappedExample(rest: Text)
    requires Delimited(rest)
    ensures ReadValue([SP] + Scaled(false, 1, false, TWO31).Written() + rest, 1) == Ok(VFloat(0), rest)
    ensures ReadValue([SP] + Scaled(false, 1, true, TWO31).Written() + rest, 1) == Ok(VFloat(POSITIVE_INFINITY), rest)
  {
    hide ReadValue, RealText.Written;
    HugeExponentSwapped(false, 1, false, TWO31, rest, 1);
    HugeExponentSwapped(false, 1, true, TWO31, rest, 1);
  }

  // ----- the value read is the number printed

  lemma PlainSays(neg: bool, v: uint64)
    requires neg ==> v <= TWO63
    ensures Says(PlainValue(neg, v), OfMagnitude(neg && v > 0, v))
  {
    hide OfMagnitude, Pow2, OddPart, TrailingZeros;
    if neg { assert ToInt64(-(v as int)) == -(v as int); }
    SignedSays(v);
  }

  lemma SignedSays(v: uint64)
    ensures OfInt(v) == OfMagnitude(false, v) && OfInt(-(v as int)) == OfMagnitude(v > 0, v)
  {
    hide OddPart, TrailingZeros;
  }

  lemma IntegerReadsBack(v: int, rest: Text, depth: nat)
    requires -TWO63 <= v < TWO64 && Delimited(rest) && depth <= MAX_DEPTH
    ensures var r := ReadValue([SP] + Spell(OfInt(v)) + rest, depth); r.Ok? && r.rest == rest && Says(r.v, OfInt(v))
  {
    hide ReadValue, Spell, PlainValue, ScaledValue, Says;
    var n := OfInt(v);
    MagnitudeFits(v < 0, if v < 0 then -v else v);
    SpellingIsLegal(n);
    GoReadsText(TextOf(n), rest, depth);
    IntegerSays(v);
  }

  lemma ValueOfFinite(n: Number)
    requires Fits(n) && n.Finite? && -INT_MAX <= n.exp <= INT_MAX
    ensures ValueOfText(TextOf(n)) ==
            if n.Whole() then PlainValue(n.neg, n.Shown()) else ScaledValue(n.neg, n.sig, n.exp)
  {
    hide PlainValue, ScaledValue, Pow2;
  }

  lemma IntegerSays(v: int)
    requires -TWO63 <= v < TWO64 && Fits(OfInt(v))
    ensures Says(ValueOfText(TextOf(OfInt(v))), OfInt(v))
  {
    hide PlainValue, ScaledValue, Says, Pow2, OddPart, TrailingZeros, ValueOfText;
    var n := OfInt(v);
    var a := if v < 0 then -v else v;
    if a == 0 {
      PlainSays(false, 0);
      assert ValueOfText(Plain(false, 0)) == PlainValue(false, 0) by { ZeroText(); }
    } else {
      OddPartScale(a);
      MagnitudeFits(v < 0, a);
      PlainSays(v < 0, a);
      ValueOfFinite(n);
      if !n.Whole() { ScaledInteger(v < 0, n.sig, n.exp); }
    }
  }

  lemma ZeroText()
    ensures ValueOfText(Plain(false, 0)) == PlainValue(false, 0)
  {
  }

  lemma ScaledInteger(neg: bool, o: uint64, k: nat)
    requires o % 2 == 1 && o * Pow2(k) < TWO64 && (neg ==> o * Pow2(k) <= TWO63) && k > 0
    ensures Says(ScaledValue(neg, o, k), OfMagnitude(neg, o * Pow2(k)))
  {
    hide PlainValue, Says, BuildFloat64, Pow2, LeadingZeros, OddPart, TrailingZeros, ShiftLeft;
    OddPartOfScaled(o, k);
    PlainSays(neg, o * Pow2(k));
    ShiftFits(o, k);
    ShiftLeftFits(o, k);
    if neg && k == LeadingZeros(o) {
      TopBit(o, k);
      MinimumFields();
    }
  }

  lemma TopBit(o: uint64, k: nat)
    requires o % 2 == 1 && k == LeadingZeros(o) && o * Pow2(k) <= TWO63
    ensures o == 1 && k == 63 && o * Pow2(k) == TWO63
  {
    hide Pow2, OddPart, TrailingZeros, BitLen;
    var m := o * Pow2(k);
    BitLenScale(o, k);
    BitLenBounds(m);
    Pow2Values();
    OddPartOfScaled(o, k);
    OddPartOfScaled(1, 63);
  }

  /** -2^63 goes through the float branch, exactly. */
  lemma MinimumFields()
    ensures OddPart(TWO63) == 1 && TrailingZeros(TWO63) == 63
    ensures Says(VFloat(BuildFloat64(true, 1, 63)), OfInt(-TWO63))
  {
    Pow2Values();
    OddPartOfScaled(1, 63);
    OneLeads();
    var u := Assemble(true, 1023 + 63, 0);
    OddPartOfScaled(1, 52);
    assert OfDouble(u) == Finite(true, 1, 63);
    OfDoubleValue(u);
    ScaleOrder(0, 1, 63);
    RebuildsNormal(u, 1, 63);
  }

  lemma DoubleReadsBackInGo(u: uint64, rest: Text, depth: nat)
    requires Delimited(rest) && depth <= MAX_DEPTH
    ensures var r := ReadValue([SP] + Spell(OfDouble(u)) + rest, depth); r.Ok? && r.rest == rest && Says(r.v, OfDouble(u))
  {
    var n := OfDouble(u);
    if n.Finite? {
      NormalReadsBack(u, rest, depth);
    } else if n.Zero? {
      hide ReadValue, Spell;
      IntegerReadsBack(0, rest, depth);
    } else {
      SpecialReadsBackInGo(u, rest, depth);
    }
  }

  lemma SpecialReadsBackInGo(u: uint64, rest: Text, depth: nat)
    requires (IsNaN(u) || IsInfinite(u)) && depth <= MAX_DEPTH
    ensures var r := ReadValue([SP] + Spell(OfDouble(u)) + rest, depth); r.Ok? && r.rest == rest && Says(r.v, OfDouble(u))
  {
    hide ReadValue;
    if IsNaN(u) {
      GoReadsNaN(rest, depth);
    } else {
      GoReadsInfinity(SignBit(u), rest, depth);
    }
  }

  lemma {:induction false} MatchesPrefix(t: Text, rest: Text)
    ensures Matches(t + rest, t) == Yes
    decreases |t|
  {
    if t != [] {
      assert (t + rest)[1..] == t[1..] + rest;
      MatchesPrefix(t[1..], rest);
    }
  }

  lemma NormalReadsBack(u: uint64, rest: Text, depth: nat)
    requires IsNormal(u) && Delimited(rest) && depth <= MAX_DEPTH
    ensures var r := ReadValue([SP] + Spell(OfDouble(u)) + rest, depth); r.Ok? && r.rest == rest && Says(r.v, OfDouble(u))
  {
    hide ReadValue, Spell;
    var n := OfDouble(u);
    DoubleFits(u);
    SpellingIsLegal(n);
    GoReadsText(TextOf(n), rest, depth);
    NormalSays(u);
  }

  lemma NormalSays(u: uint64)
    requires IsNormal(u) && Fits(OfDouble(u)) && OfDouble(u).sig < 2 * TWO52 && -1074 <= OfDouble(u).exp <= 1023
    ensures Says(ValueOfText(TextOf(OfDouble(u))), OfDouble(u))
  {
    hide Pow2, OddPart, TrailingZeros, Says, PlainValue, ScaledValue, ValueOfText, OfDouble;
    var n := OfDouble(u);
    ValueOfFinite(n);
    if n.Whole() {
      ShownBound(n.sig, n.exp);
      OddPartOfScaled(n.sig, n.exp);
      PlainSays(n.neg, n.Shown());
    } else {
      ScaledSays(u);
    }
  }

  lemma ScaledSays(u: uint64)
    requires IsNormal(u) && Fits(OfDouble(u)) && !OfDouble(u).Whole()
    requires OfDouble(u).sig < 2 * TWO52 && -1074 <= OfDouble(u).exp <= 1023
    ensures var n := OfDouble(u); Says(ScaledValue(n.neg, n.sig, n.exp), n)
  {
    hide Pow2, OddPart, TrailingZeros, PlainValue, OfDouble, LeadingZeros, BuildFloat64, ShiftLeft, Says;
    var n := OfDouble(u);
    if 0 <= n.exp <= LeadingZeros(n.sig) && !(n.neg && n.exp == LeadingZeros(n.sig)) {
      ShiftFits(n.sig, n.exp);
      ShiftLeftFits(n.sig, n.exp);
      OddPartOfScaled(n.sig, n.exp);
      if n.exp < LeadingZeros(n.sig) {
        ShiftFits(n.sig, n.exp + 1);
        Words.Double(n.sig, n.exp);
      }
      PlainSays(n.neg, n.sig * Pow2(n.exp));
    } else {
      RebuiltFields(u);
      FloatMeans(u);
    }
  }

  lemma FloatMeans(u: uint64)
    ensures Says(VFloat(u), OfDouble(u))
  {
    hide OfDouble;
  }

  lemma RebuiltFields(u: uint64)
    requires IsNormal(u) && Fits(OfDouble(u)) && !OfDouble(u).Whole() && -1074 <= OfDouble(u).exp <= 1023
    ensures var n := OfDouble(u); BuildFloat64(n.neg, n.sig, n.exp) == u
  {
    hide Pow2, OfDouble, BuildFloat64, BuildDouble;
    RebuildsDouble(u);
  }

  /** Cross-language agreement: the text the C formatters emit for any 64-bit integer or any double is read by Go as the
      same number: NaN as NaN, zeros and subnormals as zero. */
  lemma GoReadsC(n: Number, rest: Text, depth: nat)
    requires FromMachine(n) && Delimited(rest) && depth <= MAX_DEPTH
    ensures var r := ReadValue([SP] + Spell(n) + rest, depth); r.Ok? && r.rest == rest && Says(r.v, n)
  {
    hide ReadValue, Spell;
    if v: int :| -TWO63 <= v < TWO64 && n == OfInt(v) {
      IntegerReadsBack(v, rest, depth);
    } else {
      var u: uint64 :| n == OfDouble(u);
      DoubleReadsBackInGo(u, rest, depth);
    }
  }

  /** A number C reads and Go misreads: a negative magnitude above 2^63, here -ffffffffffffffff, comes back as 1. */
  lemma LargeNegativeMisread(rest: Text)
    requires Delimited(rest)
    ensures ReadValue([SP] + Plain(true, TWO64 - 1).Written() + rest, 1) == Ok(VInt(1), rest)
  {
    hide ReadValue, RealText.Written;
    GoReadsText(Plain(true, TWO64 - 1), rest, 1);
  }
}
