/** Numbers as the format sees them: an odd significand and a power of two, spelled in exactly one way. */
module Numbers {
  import opened Words
  import opened Hex

  // ----- real powers of two

  function Pow2R(e: int): (p: real)
    ensures p > 0.0
    decreases if e < 0 then -e else e
  {
    if e == 0 then 1.0 else if e > 0 then 2.0 * Pow2R(e - 1) else Pow2R(e + 1) / 2.0
  }

  lemma Pow2RStep(e: int)
    ensures Pow2R(e + 1) == 2.0 * Pow2R(e)
  {
  }

  /** Multiplication by name, so that products are compared by their factors. */
  function Times(a: real, b: real): real { a * b }

  lemma TimesDouble(x: real, q: real)
    ensures Times(x, 2.0 * q) == 2.0 * Times(x, q)
  {
  }

  lemma TimesAssoc(m: real, p: real, q: real)
    ensures Times(Times(m, p), q) == Times(m, Times(q, p))
  {
  }

  lemma TimesInt(a: int, b: int)
    ensures (a * b) as real == Times(a as real, b as real)
  {
  }

  lemma {:induction false} Pow2RAdd(e: int, k: nat)
    ensures Pow2R(e + k) == Times(Pow2R(e), Pow2(k) as real)
  {
    if k == 0 {
      assert Times(Pow2R(e), 1.0) == Pow2R(e);
    } else {
      Pow2RAdd(e, k - 1);
      Pow2RStep(e + (k - 1));
      TimesDouble(Pow2R(e), Pow2(k - 1) as real);
      assert Pow2(k) as real == 2.0 * Pow2(k - 1) as real;
    }
  }

  /** The real number `m * 2^e`. */
  function Scale(m: int, e: int): real { Times(m as real, Pow2R(e)) }

  lemma ScaleShift(m: int, k: nat, e: int)
    ensures Scale(m * Pow2(k), e) == Scale(m, e + k)
  {
    Pow2RAdd(e, k);
    TimesInt(m, Pow2(k));
    TimesAssoc(m as real, Pow2(k) as real, Pow2R(e));
  }

  /** Scaling by the same power preserves equality and order. */
  lemma ScaleOrder(a: int, b: int, e: int)
    ensures Scale(a, e) == Scale(b, e) <==> a == b
    ensures Scale(a, e) <= Scale(b, e) <==> a <= b
  {
    var p := Pow2R(e);
    assert (b as real - a as real) * p == Scale(b, e) - Scale(a, e);
    if a < b {
      assert (b as real - a as real) * p > 0.0;
    } else if b < a {
      assert (a as real - b as real) * p > 0.0;
    }
  }

  /** A nonzero number is an odd integer times a power of two in only one way. */
  lemma OddRealUnique(a: nat, i: int, b: nat, j: int)
    requires a % 2 == 1 && b % 2 == 1 && Scale(a, i) == Scale(b, j)
    ensures a == b && i == j
  {
    if i <= j {
      OddRealOrdered(a, i, b, j - i);
    } else {
      OddRealOrdered(b, j, a, i - j);
    }
  }

  lemma OddRealOrdered(a: nat, i: int, b: nat, k: nat)
    requires a % 2 == 1 && b % 2 == 1 && Scale(a, i) == Scale(b, i + k)
    ensures a == b && k == 0
  {
    ScaleShift(b, k, i);
    ScaleOrder(a, b * Pow2(k), i);
    assert a * Pow2(0) == a;
    OddScaleUnique(a, 0, b, k);
  }

  // ----- numbers

  datatype Number =
    | NaN
    | Inf(neg: bool)
    | Zero
    | Finite(neg: bool, sig: nat, exp: int)
  {
    predicate Canonical() { Finite? ==> sig % 2 == 1 }
    predicate IsReal() { Zero? || Finite? }

    function Value(): real
      requires IsReal()
    {
      if Zero? then 0.0 else if neg then -Scale(sig, exp) else Scale(sig, exp)
    }

    /** The significand printed when the exponent is folded in or shown separately. */
    predicate Whole() { Finite? && 0 <= exp < 8 }
    function Shown(): nat
      requires Finite?
    {
      if Whole() then sig * Pow2(exp) else sig
    }
  }

  function Sign(neg: bool): Text { if neg then [MINUS] else [] }

  function Signed(neg: bool, v: int): int { if neg then -v else v }

  function ExponentText(e: int): Text { [CH_P] + Sign(e < 0) + HexDigits(if e < 0 then -e else e) }

  const NAN_TEXT: Text := [0x6E, 0x61, 0x6E]
  const INF_TEXT: Text := [0x69, 0x6E, 0x66]

  /** The one spelling of a number. */
  function Spell(n: Number): Text {
    match n
    case NaN => NAN_TEXT
    case Inf(neg) => Sign(neg) + INF_TEXT
    case Zero => HexDigits(0)
    case Finite(neg, _, exp) => Sign(neg) + HexDigits(n.Shown()) + (if n.Whole() then [] else ExponentText(exp))
  }

  lemma CanonicalValueInjective(m: Number, n: Number)
    requires m.Canonical() && n.Canonical() && m.IsReal() && n.IsReal()
    ensures m.Value() == n.Value() <==> m == n
  {
    if m.Finite? { ScaleOrder(0, m.sig, m.exp); }
    if n.Finite? { ScaleOrder(0, n.sig, n.exp); }
    if m.Finite? && n.Finite? && m.Value() == n.Value() {
      OddRealUnique(m.sig, m.exp, n.sig, n.exp);
    }
  }

  // ----- the spelling is injective

  /** Splitting a text at its first byte that is no hex digit. */
  lemma SplitAtNonHex(a: Text, b: Text, c: Text, d: Text)
    requires AllHex(a) && AllHex(c) && a + b == c + d
    requires !IsHexDigit(Peek(b, 0)) && !IsHexDigit(Peek(d, 0))
    ensures a == c && b == d
  {
    assert Peek(b, 0) == Peek(a + b, |a|) && Peek(d, 0) == Peek(c + d, |c|);
    assert forall i :: 0 <= i < |a| ==> Peek(a + b, i) == a[i] as int;
    assert forall i :: 0 <= i < |c| ==> Peek(c + d, i) == c[i] as int;
    assert |a| == |c|;
    assert a == (a + b)[..|a|] && c == (c + d)[..|c|];
    assert b == (a + b)[|a|..] && d == (c + d)[|c|..];
  }

  function Unsigned(n: Number): Number {
    match n
    case Inf(_) => Inf(false)
    case Finite(_, sig, exp) => Finite(false, sig, exp)
    case _ => n
  }

  predicate Negative(n: Number) { (n.Inf? || n.Finite?) && n.neg }

  lemma SpellSign(n: Number)
    ensures Spell(n) == Sign(Negative(n)) + Spell(Unsigned(n))
    ensures |Spell(Unsigned(n))| > 0 && Spell(Unsigned(n))[0] != MINUS
  {
    hide HexDigits;
    if n.Finite? {
      var d, x := HexDigits(n.Shown()), if n.Whole() then [] else ExponentText(n.exp);
      FiniteSpell(n);
      Assoc(Sign(n.neg), d, x);
      assert (d + x)[0] == d[0] && IsHexDigit(d[0] as int);
    } else if n.Zero? {
      assert IsHexDigit(HexDigits(0)[0] as int);
    }
  }

  lemma ExponentParts(e: int)
    ensures var d := HexDigits(if e < 0 then -e else e);
            && ExponentText(e)[1..] == Sign(e < 0) + d
            && (ExponentText(e)[1] == MINUS <==> e < 0)
            && ExponentText(e)[1..][|Sign(e < 0)|..] == d
  {
    hide HexDigits;
    var d := HexDigits(if e < 0 then -e else e);
    assert ExponentText(e)[1..] == Sign(e < 0) + d;
    assert (Sign(e < 0) + d)[0] == if e < 0 then MINUS else d[0];
    assert IsHexDigit(d[0] as int);
    assert (Sign(e < 0) + d)[|Sign(e < 0)|..] == d;
  }

  lemma ExponentInjective(e: int, f: int)
    requires ExponentText(e) == ExponentText(f)
    ensures e == f
  {
    hide HexDigits, ExponentText;
    assert |ExponentText(e)| > 1 && |ExponentText(f)| > 1 by { ExponentLong(e); ExponentLong(f); }
    ExponentParts(e);
    ExponentParts(f);
    DigitsInjective(if e < 0 then -e else e, if f < 0 then -f else f);
  }

  lemma ExponentLong(e: int)
    ensures |ExponentText(e)| > 1
  {
  }

  lemma FiniteSpell(n: Number)
    requires n.Finite?
    ensures Spell(Unsigned(n)) == HexDigits(n.Shown()) + (if n.Whole() then [] else ExponentText(n.exp))
  {
    var u := Unsigned(n);
    assert u.Shown() == n.Shown() && u.Whole() == n.Whole();
    assert Sign(false) + HexDigits(n.Shown()) == HexDigits(n.Shown());
  }

  lemma FiniteSpellInjective(m: Number, n: Number)
    requires m.Canonical() && n.Canonical() && m.Finite? && n.Finite? && Spell(Unsigned(m)) == Spell(Unsigned(n))
    ensures Unsigned(m) == Unsigned(n)
  {
    var a, b := HexDigits(m.Shown()), if m.Whole() then [] else ExponentText(m.exp);
    var c, d := HexDigits(n.Shown()), if n.Whole() then [] else ExponentText(n.exp);
    FiniteSpell(m);
    FiniteSpell(n);
    SplitAtNonHex(a, b, c, d);
    DigitsInjective(m.Shown(), n.Shown());
    if m.Whole() {
      OddScaleUnique(m.sig, m.exp, n.sig, n.exp);
    } else {
      ExponentInjective(m.exp, n.exp);
    }
  }

  lemma UnsignedSpellInjective(m: Number, n: Number)
    requires m.Canonical() && n.Canonical() && Spell(Unsigned(m)) == Spell(Unsigned(n))
    ensures Unsigned(m) == Unsigned(n)
  {
    if m.Finite? && n.Finite? {
      FiniteSpellInjective(m, n);
    } else if m.Finite? {
      FiniteApart(m, n);
    } else if n.Finite? {
      FiniteApart(n, m);
    } else {
      assert Spell(Unsigned(m))[0] == Spell(Unsigned(n))[0];
    }
  }

  /** Zero, infinities and NaN are spelled apart from every nonzero real. */
  lemma FiniteApart(m: Number, n: Number)
    requires m.Canonical() && m.Finite? && !n.Finite?
    ensures Spell(Unsigned(m)) != Spell(Unsigned(n))
  {
    var d := HexDigits(m.Shown());
    if m.Whole() { OddPartOfScaled(m.sig, m.exp); }
    DigitsValue(m.Shown());
    assert Spell(Unsigned(m))[0] == d[0];
  }

  lemma SpellInjective(m: Number, n: Number)
    requires m.Canonical() && n.Canonical()
    ensures Spell(m) == Spell(n) <==> m == n
  {
    if Spell(m) == Spell(n) {
      SpellSign(m);
      SpellSign(n);
      var a, c := Spell(Unsigned(m)), Spell(Unsigned(n));
      assert a == Spell(m)[|Sign(Negative(m))|..];
      assert c == Spell(n)[|Sign(Negative(n))|..];
      assert Spell(m)[0] == if Negative(m) then MINUS else a[0];
      assert Spell(n)[0] == if Negative(n) then MINUS else c[0];
      UnsignedSpellInjective(m, n);
    }
  }

  /** One encoding per number: two real numbers share a spelling exactly when they are equal as reals. */
  lemma OneSpellingPerReal(m: Number, n: Number)
    requires m.Canonical() && n.Canonical() && m.IsReal() && n.IsReal()
    ensures Spell(m) == Spell(n) <==> m.Value() == n.Value()
  {
    SpellInjective(m, n);
    CanonicalValueInjective(m, n);
  }

  // ----- numbers held by machine types

  function OfMagnitude(neg: bool, v: nat): (n: Number)
    ensures n.Canonical() && n.IsReal()
  {
    if v == 0 then Zero else Finite(neg, OddPart(v), TrailingZeros(v))
  }

  function OfInt(v: int): (n: Number)
    ensures n.Canonical() && n.IsReal()
  {
    if v < 0 then OfMagnitude(true, -v) else OfMagnitude(false, v)
  }

  lemma OfIntValue(v: int)
    ensures OfInt(v).Value() == v as real
  {
    if v != 0 {
      var a := if v < 0 then -v else v;
      OddPartScale(a);
      ScaleShift(OddPart(a), TrailingZeros(a), 0);
    }
  }

  // binary64 words: sign bit, eleven exponent bits, fifty-two fraction bits

  function SignBit(u: uint64): bool { u / TWO63 == 1 }
  function ExponentBits(u: uint64): nat { (u / TWO52) % 2048 }
  function Fraction(u: uint64): nat { u % TWO52 }

  function Assemble(neg: bool, uexp: nat, frac: nat): (u: uint64)
    requires uexp < 2048 && frac < TWO52
    ensures SignBit(u) == neg && ExponentBits(u) == uexp && Fraction(u) == frac
  {
    (if neg then TWO63 else 0) + uexp * TWO52 + frac
  }

  lemma AssembleParts(u: uint64)
    ensures Assemble(SignBit(u), ExponentBits(u), Fraction(u)) == u
  {
  }

  predicate IsNormal(u: uint64) { 0 < ExponentBits(u) < 2047 }
  predicate IsInfinite(u: uint64) { ExponentBits(u) == 2047 && Fraction(u) == 0 }
  predicate IsNaN(u: uint64) { ExponentBits(u) == 2047 && Fraction(u) != 0 }
  predicate IsSmall(u: uint64) { ExponentBits(u) == 0 }
  predicate IsZero(u: uint64) { ExponentBits(u) == 0 && Fraction(u) == 0 }

  /** Words whose number the format can carry: zeros and normal numbers. */
  predicate IsCarried(u: uint64) { IsNormal(u) || IsZero(u) }

  /** The size of a carried word as a real number, by the definition of the interchange format. */
  function Size(u: uint64): real
    requires IsCarried(u)
  {
    if IsZero(u) then 0.0 else Scale(TWO52 + Fraction(u), ExponentBits(u) - 1023 - 52)
  }

  function DoubleValue(u: uint64): real
    requires IsCarried(u)
  {
    if SignBit(u) then -Size(u) else Size(u)
  }

  /** The number a double is printed as; zeros and subnormals are printed as zero. */
  function OfDouble(u: uint64): (n: Number)
    ensures n.Canonical()
    ensures n.Finite? <==> IsNormal(u)
    ensures n.Zero? <==> IsSmall(u)
  {
    if IsSmall(u) then Zero
    else if IsNaN(u) then NaN
    else if IsInfinite(u) then Inf(SignBit(u))
    else
      var m := TWO52 + Fraction(u);
      Finite(SignBit(u), OddPart(m), ExponentBits(u) - 1023 - 52 + TrailingZeros(m))
  }

  lemma OfDoubleValue(u: uint64)
    requires IsCarried(u)
    ensures OfDouble(u).Value() == DoubleValue(u)
  {
    var m := TWO52 + Fraction(u);
    if IsNormal(u) {
      OddPartScale(m);
      ScaleShift(OddPart(m), TrailingZeros(m), ExponentBits(u) - 1023 - 52);
    }
  }

  /** Integers and doubles print identically exactly when they are the same real number. */
  lemma OneSpellingAcrossTypes(i: int, j: int, u: uint64, w: uint64)
    requires IsCarried(u) && IsCarried(w)
    ensures Spell(OfInt(i)) == Spell(OfInt(j)) <==> i == j
    ensures Spell(OfInt(i)) == Spell(OfDouble(u)) <==> i as real == DoubleValue(u)
    ensures Spell(OfDouble(u)) == Spell(OfDouble(w)) <==> DoubleValue(u) == DoubleValue(w)
  {
    OfIntValue(i);
    OfIntValue(j);
    OfDoubleValue(u);
    OfDoubleValue(w);
    OneSpellingPerReal(OfInt(i), OfInt(j));
    OneSpellingPerReal(OfInt(i), OfDouble(u));
    OneSpellingPerReal(OfDouble(u), OfDouble(w));
  }
}
