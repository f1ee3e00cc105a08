/** The C formatters, writing through a buffer, and the two-phase bounded formatter. */
module SipcFormat {
  import opened Words
  import opened Hex
  import opened Numbers
  import opened Readers
  import opened Tokens

  const MAX_ATOM_SIZE := 20

  // ----- what is printed

  /** A piece of a format string with the argument it takes. */
  datatype Item =
    | Raw(c: byte)
    | Flag(b: bool)
    | Signed64(i: int64)
    | Unsigned64(n: uint64)
    | Float(u: uint64)
    | Sized(delim: byte, s: Text)
    | Copy(s: Text)
    | AnyItem(v: Any)
    | Unknown
  {
    /** Pieces that `format_arg` answers with -1. */
    predicate Bad() { Unknown? || (AnyItem? && v.Atom? && !IsScalar(v.t)) }

    predicate Proper() {
      && (Sized? || Copy? ==> |s| <= INT_MAX)
      && (AnyItem? && v.Atom? ==> ProperToken(v.t))
    }
  }

  predicate IsScalar(t: Token) { !t.End? && !t.Open? && !t.Close? }

  /** String lengths are C ints. */
  predicate ProperToken(t: Token) { (t.Str? ==> |t.s| <= INT_MAX) && (t.Bytes? ==> |t.s| <= INT_MAX) }

  function FlagText(b: bool): Text { [if b then CH_T else CH_F] }

  function SizedText(delim: byte, s: Text): Text { HexDigits(|s|) + [delim] + s }

  function SpanText(list: bool, span: Text): Text {
    [if list then L_BRACKET else L_BRACE, SP] + span + [if list then R_BRACKET else R_BRACE]
  }

  /** The bytes that count as printed. A negative integer's digits are written over its minus sign, yet one byte more is
      counted: the byte `left` that was in the buffer behind the digits. */
  function TokenText(t: Token, left: byte): Text
    requires IsScalar(t)
  {
    match t
    case Bool(b) => FlagText(b)
    case PositiveInt(n) => Spell(OfMagnitude(false, n))
    case NegativeInt(n) => Spell(OfMagnitude(false, n)) + [left]
    case Double(u) => Spell(OfDouble(u))
    case Str(s) => SizedText(COLON, s)
    case Bytes(s) => SizedText(BAR, s)
  }

  function ItemText(x: Item, left: byte): Text
    requires !x.Bad()
  {
    match x
    case Raw(c) => [c]
    case Flag(b) => FlagText(b)
    case Signed64(i) => Spell(OfInt(i))
    case Unsigned64(n) => Spell(OfInt(n))
    case Float(u) => Spell(OfDouble(u))
    case Sized(delim, s) => SizedText(delim, s)
    case Copy(s) => s
    case AnyItem(v) => match v { case Atom(t) => TokenText(t, left) case Container(list, span) => SpanText(list, span) }
  }

  predicate AllGood(items: seq<Item>) { forall x :: x in items ==> !x.Bad() }

  function Was(before: Text, k: int): byte { if 0 <= k < |before| then before[k] else 0 }

  /** What a piece printed at `at` makes of a buffer that held `before`. */
  function Printed(x: Item, at: nat, before: Text): Text
    requires !x.Bad()
  {
    ItemText(x, Was(before, at + |ItemText(x, 0)| - 1))
  }

  /** The ideal output of pieces printed one after the other from `at` on. */
  function Output(items: seq<Item>, at: nat, before: Text): Text
    requires AllGood(items)
  {
    if items == [] then []
    else
      var o := Output(items[..|items| - 1], at, before);
      o + Printed(items[|items| - 1], at + |o|, before)
  }

  lemma PrintedSize(x: Item, left: byte)
    requires !x.Bad()
    ensures |ItemText(x, left)| == |ItemText(x, 0)|
    ensures |ItemText(x, 0)| > 0 || ItemText(x, left) == ItemText(x, 0)
  {
    hide Spell, SizedText, OfMagnitude, OfDouble;
  }

  lemma SpelledSize(n: Number)
    ensures |Spell(n)| > 0
  {
    SpellSign(n);
  }

  /** Only what was behind `at` matters. */
  lemma PrintedBehind(x: Item, at: nat, a: Text, b: Text)
    requires !x.Bad() && at <= |a| == |b| && a[at..] == b[at..]
    ensures Printed(x, at, a) == Printed(x, at, b) && |Printed(x, at, a)| == |ItemText(x, 0)|
  {
    hide ItemText;
    var k := at + |ItemText(x, 0)| - 1;
    PrintedSize(x, Was(a, k));
    PrintedSize(x, Was(b, k));
    if k >= at { SameBehind(a, b, at, k); }
  }

  lemma SameBehind(a: Text, b: Text, at: nat, k: nat)
    requires at <= |a| == |b| && a[at..] == b[at..] && at <= k
    ensures Was(a, k) == Was(b, k)
  {
    assert k < |a| ==> a[at..][k - at] == a[k] && b[at..][k - at] == b[k];
  }

  /** The length of the output does not depend on the buffer. */
  lemma {:induction false} OutputSize(items: seq<Item>, at: nat, a: Text, b: Text)
    requires AllGood(items)
    ensures |Output(items, at, a)| == |Output(items, at, b)|
  {
    hide Printed;
    if items != [] {
      var x, o := items[|items| - 1], items[..|items| - 1];
      OutputSize(o, at, a, b);
      PrintedLength(x, at + |Output(o, at, a)|, a);
      PrintedLength(x, at + |Output(o, at, a)|, b);
    }
  }

  lemma PrintedLength(x: Item, at: nat, before: Text)
    requires !x.Bad()
    ensures |Printed(x, at, before)| == |ItemText(x, 0)|
  {
    hide ItemText;
    PrintedSize(x, Was(before, at + |ItemText(x, 0)| - 1));
  }

  // ----- writing in place

  /** `after` is `before` with `t` written at `at`. */
  predicate Wrote(before: Text, after: Text, at: nat, t: Text) {
    && at + |t| <= |before| == |after|
    && after[at..at + |t|] == t
    && forall i :: 0 <= i < |before| && !(at <= i < at + |t|) ==> after[i] == before[i]
  }

  lemma WroteTwice(a: Text, b: Text, c: Text, at: nat, t: Text, u: Text)
    requires Wrote(a, b, at, t) && Wrote(b, c, at + |t|, u)
    ensures Wrote(a, c, at, t + u)
  {
    forall i | 0 <= i < |t|
      ensures c[at + i] == t[i]
    {
      assert b[at..at + |t|][i] == b[at + i];
    }
    forall i | 0 <= i < |u|
      ensures c[at + |t| + i] == u[i]
    {
      assert c[at + |t|..at + |t| + |u|][i] == c[at + |t| + i];
    }
    assert c[at..at + |t + u|] == t + u;
  }

  /** Writing over a single byte. */
  lemma WroteOver(a: Text, b: Text, c: Text, at: nat, x: byte, t: Text)
    requires Wrote(a, b, at, [x]) && Wrote(b, c, at, t) && |t| > 0
    ensures Wrote(a, c, at, t)
  {
  }

  /** The byte behind what was written is what it was. */
  lemma WroteBehind(a: Text, b: Text, at: nat, t: Text)
    requires Wrote(a, b, at, t) && at + |t| < |a|
    ensures Wrote(a, b, at, t + [a[at + |t|]])
  {
    assert b[at..at + |t| + 1] == t + [b[at + |t|]];
  }

  method Put(p: array<byte>, at: nat, c: byte)
    requires at < p.Length
    modifies p
    ensures Wrote(old(p[..]), p[..], at, [c])
  {
    p[at] := c;
    assert p[..][at..at + 1] == [c];
  }

  method FormatHex(p: array<byte>, at: nat, v: uint64) returns (count: nat)
    requires at + |HexDigits(v)| <= p.Length
    modifies p
    ensures count == |HexDigits(v)| && Wrote(old(p[..]), p[..], at, HexDigits(v))
  {
    hide HexDigits, Pow2, LeadingZeros, DigitChar, Wrote;
    count := if v != 0 then 16 - LeadingZeros(v) / 4 else 1;
    DigitCount(v);
    ghost var before, d, k: int := p[..], HexDigits(v), count - 1;
    var n: int := (count - 1) * 4;
    var q := at;
    while n >= 0
      invariant n == 4 * k && k >= -1 && q == at + (count - 1 - k)
      invariant forall i :: 0 <= i < q - at ==> p[at + i] == d[i]
      invariant forall i :: 0 <= i < p.Length && !(at <= i < q) ==> p[i] == before[i]
      decreases n
    {
      DigitAt(v, k);
      p[q] := DigitChar((v / Pow2(n)) % 16);
      q := q + 1;
      n := n - 4;
      k := k - 1;
    }
    WroteBytes(before, p[..], at, d);
  }

  lemma WroteBytes(before: Text, after: Text, at: nat, t: Text)
    requires at + |t| <= |before| == |after|
    requires forall i :: 0 <= i < |t| ==> after[at + i] == t[i]
    requires forall i :: 0 <= i < |before| && !(at <= i < at + |t|) ==> after[i] == before[i]
    ensures Wrote(before, after, at, t)
  {
    assert after[at..at + |t|] == t;
  }

  lemma DigitCount(v: uint64)
    ensures |HexDigits(v)| == if v != 0 then 16 - LeadingZeros(v) / 4 else 1
  {
    if v != 0 {
      var n := |HexDigits(v)|;
      BitLenFits(v, 4 * n);
      DigitsLength(v, n);
      if n > 1 {
        DigitsLength(v, n - 1);
        BitLenFits(v, 4 * (n - 1));
      }
    }
  }

  method FormatUint64(p: array<byte>, at: nat, v: uint64) returns (n: nat)
    requires at + |Spell(OfInt(v))| <= p.Length
    modifies p
    ensures n == |Spell(OfInt(v))| && Wrote(old(p[..]), p[..], at, Spell(OfInt(v)))
  {
    hide Wrote, Spell, HexDigits, Pow2, TrailingZeros, OddPart, OfInt;
    var ctz := if v != 0 then TrailingZeros(v) else 0;
    UnsignedText(v);
    if ctz < 8 {
      n := FormatHex(p, at, v);
      return;
    }
    ghost var a := p[..];
    var i := FormatHex(p, at, v / Pow2(ctz));
    ghost var b := p[..];
    Put(p, at + i, CH_P);
    ghost var c := p[..];
    n := FormatHex(p, at + i + 1, ctz);
    WroteTwice(b, c, p[..], at + i, [CH_P], HexDigits(ctz));
    WroteTwice(a, b, p[..], at, HexDigits(OddPart(v)), [CH_P] + HexDigits(ctz));
    n := i + 1 + n;
  }

  /** The spelling of a word, in the terms the integer formatter computes. */
  lemma MagnitudeText(neg: bool, v: uint64)
    ensures v == 0 || TrailingZeros(v) < 8 ==> Spell(OfMagnitude(neg, v)) == Sign(neg && v > 0) + HexDigits(v)
    ensures v > 0 && TrailingZeros(v) >= 8 ==>
              TrailingZeros(v) < 64 && OddPart(v) < 0x100_0000_0000_0000
              && Spell(OfMagnitude(neg, v)) ==
                 Sign(neg) + (HexDigits(OddPart(v)) + ([CH_P] + HexDigits(TrailingZeros(v))))
  {
    var n := OfMagnitude(neg, v);
    if v > 0 {
      var t := TrailingZeros(v);
      OddPartScale(v);
      MagnitudeFits(neg, v);
      if t >= 8 {
        var o := OddPart(v);
        Pow2Less(7, t);
        MulMono(256, Pow2(t), o);
        Assoc(Sign(neg), HexDigits(o), ExponentText(t));
        assert ExponentText(t) == [CH_P] + HexDigits(t) by { assert Sign(false) + HexDigits(t) == HexDigits(t); Assoc([CH_P], Sign(false), HexDigits(t)); }
      } else {
        assert Sign(neg) + HexDigits(v) + [] == Sign(neg) + HexDigits(v);
      }
    } else {
      assert Sign(false) + HexDigits(0) == HexDigits(0);
    }
  }

  lemma UnsignedText(v: uint64)
    ensures v == 0 || TrailingZeros(v) < 8 ==> Spell(OfInt(v)) == HexDigits(v)
    ensures v > 0 && TrailingZeros(v) >= 8 ==>
              TrailingZeros(v) < 64 && v / Pow2(TrailingZeros(v)) == OddPart(v) < TWO64
              && Spell(OfInt(v)) == HexDigits(OddPart(v)) + ([CH_P] + HexDigits(TrailingZeros(v)))
  {
    hide Spell, HexDigits, Pow2, TrailingZeros, OddPart;
    if v > 0 { OddPartScale(v); }
    MagnitudeText(false, v);
    assert Sign(false) + HexDigits(v) == HexDigits(v);
  }

  method FormatInt64(p: array<byte>, at: nat, v: int64) returns (n: nat)
    requires at + |Spell(OfInt(v))| <= p.Length
    modifies p
    ensures n == |Spell(OfInt(v))| && Wrote(old(p[..]), p[..], at, Spell(OfInt(v)))
  {
    hide Wrote, Spell, OfInt;
    if v < 0 {
      ghost var a := p[..];
      var m: int := -(v as int);
      NegativeText(m);
      Put(p, at, MINUS);
      ghost var b := p[..];
      n := FormatUint64(p, at + 1, m);
      WroteTwice(a, b, p[..], at, [MINUS], Spell(OfInt(m)));
      n := 1 + n;
    } else {
      n := FormatUint64(p, at, v);
    }
  }

  lemma NegativeText(v: int)
    requires v > 0
    ensures Spell(OfInt(-v)) == [MINUS] + Spell(OfInt(v))
  {
    SpellSign(OfInt(-v));
    SpellSign(OfInt(v));
    assert Unsigned(OfInt(-v)) == OfInt(v) == Unsigned(OfInt(v));
    assert Sign(false) + Spell(OfInt(v)) == Spell(OfInt(v));
  }

  method FormatDouble(p: array<byte>, at: nat, u: uint64) returns (n: nat)
    requires at + |Spell(OfDouble(u))| <= p.Length
    modifies p
    ensures n == |Spell(OfDouble(u))| && Wrote(old(p[..]), p[..], at, Spell(OfDouble(u)))
  {
    hide Wrote, Spell, OfDouble, NormalText;
    DoubleCases(u);
    var negate := u / TWO63 == 1;
    var uexp := (u / TWO52) % 2048;
    var sig := u % TWO52;
    if uexp == 0 {
      Put(p, at, ZERO);
      return 1;
    }
    if uexp == 0x7FF && sig != 0 {
      PutThree(p, at, NAN_TEXT);
      return 3;
    }
    ghost var a := p[..];
    var i := PutSign(p, at, negate);
    ghost var b := p[..];
    if uexp == 0x7FF {
      PutThree(p, at + i, INF_TEXT);
      WroteTwice(a, b, p[..], at, Sign(negate), INF_TEXT);
      return i + 3;
    }
    n := FormatNormal(p, at + i, u);
    WroteTwice(a, b, p[..], at, Sign(negate), NormalText(u));
    n := i + n;
  }

  lemma DoubleCases(u: uint64)
    ensures IsSmall(u) ==> Spell(OfDouble(u)) == [ZERO]
    ensures IsNaN(u) ==> Spell(OfDouble(u)) == NAN_TEXT
    ensures IsInfinite(u) ==> Spell(OfDouble(u)) == Sign(SignBit(u)) + INF_TEXT
    ensures IsNormal(u) ==> Spell(OfDouble(u)) == Sign(SignBit(u)) + NormalText(u)
  {
  }

  method PutSign(p: array<byte>, at: nat, negate: bool) returns (i: nat)
    requires at + |Sign(negate)| <= p.Length
    modifies p
    ensures i == |Sign(negate)| && Wrote(old(p[..]), p[..], at, Sign(negate))
  {
    i := 0;
    if negate {
      Put(p, at, MINUS);
      i := 1;
    }
  }

  /** What follows the sign of a normal double. */
  ghost function NormalText(u: uint64): (t: Text)
    requires IsNormal(u)
    ensures Spell(OfDouble(u)) == Sign(SignBit(u)) + t
  {
    SpellSign(OfDouble(u));
    Spell(Unsigned(OfDouble(u)))
  }

  /** The branch of `format_double` for normal numbers, after the sign. */
  method FormatNormal(p: array<byte>, at: nat, u: uint64) returns (n: nat)
    requires IsNormal(u) && at + |NormalText(u)| <= p.Length
    modifies p
    ensures n == |NormalText(u)| && Wrote(old(p[..]), p[..], at, NormalText(u))
  {
    hide Wrote, Spell, HexDigits, Pow2, TrailingZeros, OddPart;
    var exp: int := ExponentBits(u) - 1023;
    var m := TWO52 + Fraction(u);
    var ctz := TrailingZeros(m);
    OddPartScale(m);
    var sig := m / Pow2(ctz);
    exp := exp - 52 + ctz;
    DoubleText(u, sig, exp);
    if 0 <= exp < 8 {
      n := FormatHex(p, at, sig * Pow2(exp));
    } else {
      n := FormatScaled(p, at, sig, exp);
    }
  }

  method PutThree(p: array<byte>, at: nat, t: Text)
    requires |t| == 3 && at + 3 <= p.Length
    modifies p
    ensures Wrote(old(p[..]), p[..], at, t)
  {
    p[at], p[at + 1], p[at + 2] := t[0], t[1], t[2];
    assert p[..][at..at + 3] == t;
  }

  /** The last branch of `format_double`: significand, `p`, exponent. */
  method FormatScaled(p: array<byte>, at: nat, sig: uint64, exp: int) returns (n: nat)
    requires -TWO63 < exp < TWO63 && at + |HexDigits(sig) + ExponentText(exp)| <= p.Length
    modifies p
    ensures n == |HexDigits(sig) + ExponentText(exp)| && Wrote(old(p[..]), p[..], at, HexDigits(sig) + ExponentText(exp))
  {
    hide Wrote, HexDigits, ExponentText;
    ghost var a := p[..];
    var i := FormatHex(p, at, sig);
    ghost var b := p[..];
    var k := FormatExponent(p, at + i, exp);
    WroteTwice(a, b, p[..], at, HexDigits(sig), ExponentText(exp));
    n := i + k;
  }

  method FormatExponent(p: array<byte>, at: nat, exp: int) returns (n: nat)
    requires -TWO63 < exp < TWO63 && at + |ExponentText(exp)| <= p.Length
    modifies p
    ensures n == |ExponentText(exp)| && Wrote(old(p[..]), p[..], at, ExponentText(exp))
  {
    hide Wrote, HexDigits;
    ghost var a := p[..];
    Put(p, at, CH_P);
    ghost var b := p[..];
    var j := PutSign(p, at + 1, exp < 0);
    ghost var c := p[..];
    var e := if exp < 0 then -exp else exp;
    WroteTwice(a, b, c, at, [CH_P], Sign(exp < 0));
    var k := FormatHex(p, at + 1 + j, e);
    WroteTwice(a, c, p[..], at, [CH_P] + Sign(exp < 0), HexDigits(e));
    n := 1 + j + k;
  }

  /** The spelling of a normal double, in the terms the formatter computes. */
  lemma DoubleText(u: uint64, sig: nat, exp: int)
    requires IsNormal(u) && var m := TWO52 + Fraction(u);
             sig == OddPart(m) && exp == ExponentBits(u) - 1023 - (52 - TrailingZeros(m))
    ensures sig < 2 * TWO52 && -1074 <= exp <= 1023
    ensures 0 <= exp < 8 ==> 0 <= sig * Pow2(exp) < 256 * TWO52 && NormalText(u) == HexDigits(sig * Pow2(exp))
    ensures !(0 <= exp < 8) ==> NormalText(u) == HexDigits(sig) + ExponentText(exp)
  {
    hide Pow2, HexDigits, OddPart, TrailingZeros;
    DoubleFits(u);
    assert OfDouble(u) == Finite(SignBit(u), sig, exp);
    FiniteSpell(OfDouble(u));
    if 0 <= exp < 8 {
      ShownBound(sig, exp);
      assert HexDigits(sig * Pow2(exp)) + [] == HexDigits(sig * Pow2(exp));
    }
  }
}
