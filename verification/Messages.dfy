/** Messages written with the C formatter and read back with the C parser. */
module Messages {
  import opened Words
  import opened Hex
  import opened Numbers
  import opened Floats
  import opened RealTexts
  import opened Readers
  import opened Tokens
  import opened SipcFormat
  import SipcParser

  /** What ends a value: the space before the next one, or the newline. */
  predicate Delimited(rest: Text) { Peek(rest, 0) == SP as int || Peek(rest, 0) == NL as int }

  /** The number a numeric token stands for. */
  function TokenNumber(t: Token): Number
    requires t.PositiveInt? || t.NegativeInt? || t.Double?
  {
    match t
    case PositiveInt(n) => OfMagnitude(false, n)
    case NegativeInt(n) => OfMagnitude(true, n)
    case Double(u) => OfDouble(u)
  }

  predicate IsNumber(t: Token) { t.PositiveInt? || t.NegativeInt? || t.Double? }

  /** The same boolean, string or bytes, or the same number whichever way it is held. */
  predicate SameValue(t: Token, u: Token) {
    if IsNumber(t) then IsNumber(u) && TokenNumber(t) == TokenNumber(u) else t == u
  }

  // ----- a number token from its fields

  predicate IntegerFields(sig: uint64, exp: int) { 0 <= exp <= LeadingZeros(sig) }

  function NumberToken(neg: bool, sig: uint64, exp: int): Token {
    if exp == 0 || IntegerFields(sig, exp) then
      var n := ShiftLeft(sig, if exp < 0 then 0 else exp);
      if neg then NegativeInt(n) else PositiveInt(n)
    else Double(BuildDouble(neg, sig, exp))
  }

  /** The unsigned branch of the token reader reads numbers as `parse_real` does. */
  lemma UnsignedReadsReal(s: Text, stale: uint64)
    requires !(INF_TEXT <= s)
    requires ScanHex(s).Hex? ==> Peek(ScanHex(s).rest, 0) != BAR as int && Peek(ScanHex(s).rest, 0) != COLON as int
    ensures match ReadMagnitude(s, false, stale)
            case NoReal => UnsignedToken(s, stale) == Fail
            case Real(_, sig, exp, rest) => UnsignedToken(s, stale) == Got(NumberToken(false, sig, exp), rest)
  {
    hide ScanHex, ReadExponent, BuildDouble, LeadingZeros;
    forall v: uint64 ensures ShiftLeft(v, 0) == v { ShiftZero(v); }
  }

  lemma ShiftZero(v: uint64)
    ensures ShiftLeft(v, 0) == v
  {
    assert Pow2(0) == 1;
  }

  /** Which branch of the token reader takes a text. */
  lemma Dispatch(s: Text, f: Stale)
    requires Peek(s, 0) == SP as int
    ensures Peek(s, 1) == MINUS as int || Peek(s, 1) == CH_I as int ==> NextToken(s, f) == SignedToken(s, f(|s|))
    ensures IsHexDigit(Peek(s, 1)) ==> NextToken(s, f) == UnsignedToken(s[1..], f(|s|)) && !(INF_TEXT <= s[1..])
  {
    hide SignedToken, UnsignedToken;
    assert Peek(s, 1) == Peek(s[1..], 0);
  }

  /** A negative or unsigned legal text, delimited, is read as the token its fields make. */
  lemma NextReadsNumber(t: RealText, rest: Text, f: Stale)
    requires t.Legal() && !t.InfText? && Delimited(rest)
    ensures NextToken([SP] + t.Written() + rest, f) == Got(NumberToken(t.neg, t.a, Clamp(t.Power())), rest)
  {
    hide NextToken, ReadReal, ReadMagnitude, BuildDouble, LeadingZeros, RealText.Written, UnsignedToken;
    var s := [SP] + t.Written() + rest;
    var u := t.Written() + rest;
    assert s[1..] == u && Peek(s, 1) == Peek(u, 0);
    ReadsReal(t, rest, true, f(|s|));
    ReadsMagnitude(t, rest, f(|s|));
    ShiftZero(t.a);
    Dispatch(s, f);
    if !t.neg {
      FieldThenDelimiter(t, rest);
      UnsignedReadsReal(u, f(|s|));
    }
  }

  lemma FieldThenDelimiter(t: RealText, rest: Text)
    requires !t.InfText? && !t.neg && Delimited(rest)
    ensures var u := t.Written() + rest;
            IsHexDigit(Peek(u, 0)) && ScanHex(u).Hex?
            && Peek(ScanHex(u).rest, 0) != BAR as int && Peek(ScanHex(u).rest, 0) != COLON as int
  {
    hide ScanHex;
    var u := t.Written() + rest;
    var tail := if t.Plain? then rest else ([CH_P] + Sign(t.down) + HexDigits(t.b)) + rest;
    assert u == HexDigits(t.a) + tail by {
      assert Sign(false) + HexDigits(t.a) == HexDigits(t.a);
      if t.Scaled? { Assoc(HexDigits(t.a), [CH_P] + Sign(t.down) + HexDigits(t.b), rest); }
    }
    assert u[0] == HexDigits(t.a)[0];
    assert t.Scaled? ==> tail[0] == CH_P;
    ScanReads(t.a, tail);
  }

  // ----- the token read back holds the same number

  /** Numbers that C values print: words with a sign, and doubles. */
  lemma NumberTokenSame(n: Number)
    requires n.Finite? && Fits(n)
    requires (n.exp >= 0 && n.sig * Pow2(n.exp) < TWO64) || exists u: uint64 :: IsNormal(u) && n == OfDouble(u)
    ensures var t := TextOf(n); TokenSays(NumberToken(t.neg, t.a, Clamp(t.Power())), n)
  {
    var t := TextOf(n);
    SpellingIsLegal(n);
    if n.Whole() {
      WholeToken(n);
    } else if IntegerFields(n.sig, Clamp(n.exp)) {
      ClampBelow(n.exp, LeadingZeros(n.sig));
      ShiftFits(n.sig, n.exp);
      ShiftLeftFits(n.sig, n.exp);
      OddPartOfScaled(n.sig, n.exp);
    } else {
      if n.exp >= 0 { ShiftFits(n.sig, n.exp); ClampBelow(n.exp, LeadingZeros(n.sig)); }
      var u: uint64 :| IsNormal(u) && n == OfDouble(u);
      RebuildsDouble(u);
    }
  }

  predicate TokenSays(t: Token, n: Number) { IsNumber(t) && TokenNumber(t) == n }

  lemma WholeToken(n: Number)
    requires n.Finite? && Fits(n) && n.Whole()
    ensures TokenSays(NumberToken(n.neg, n.Shown(), 0), n)
  {
    ShiftZero(n.Shown());
    OddPartOfScaled(n.sig, n.exp);
  }

  /** A printed number, delimited, is read back as a token for the same number. */
  lemma NumberReadsBack(n: Number, rest: Text, f: Stale)
    requires Fits(n) && n.IsReal() && Delimited(rest)
    requires n.Finite? ==> (n.exp >= 0 && n.sig * Pow2(n.exp) < TWO64) || exists u: uint64 :: IsNormal(u) && n == OfDouble(u)
    ensures var r := NextToken([SP] + Spell(n) + rest, f); r.Got? && r.rest == rest && TokenSays(r.v, n)
  {
    hide NextToken, Spell, NumberToken;
    SpellingIsLegal(n);
    NextReadsNumber(TextOf(n), rest, f);
    if n.Finite? {
      NumberTokenSame(n);
    } else {
      ZeroToken();
    }
  }

  lemma ZeroToken()
    ensures TokenSays(NumberToken(false, 0, Clamp(0)), Zero)
  {
    ShiftZero(0);
  }

  lemma WordReadsBack(neg: bool, v: uint64, rest: Text, f: Stale)
    requires Delimited(rest)
    ensures var r := NextToken([SP] + Spell(OfMagnitude(neg, v)) + rest, f);
            r.Got? && r.rest == rest && TokenSays(r.v, OfMagnitude(neg, v))
  {
    hide NextToken, Spell;
    MagnitudeFits(neg, v);
    if v > 0 { OddPartScale(v); }
    NumberReadsBack(OfMagnitude(neg, v), rest, f);
  }

  // ----- every scalar

  predicate IsPositiveInfinity(t: Token) { t.Double? && IsInfinite(t.u) && !SignBit(t.u) }

  /** The token read back from a printed scalar holds the same value, unless it is positive infinity, which comes
      back negative. */
  lemma TokenReadsBack(t: Token, left: byte, rest: Text, f: Stale)
    requires IsScalar(t) && ProperToken(t) && !t.NegativeInt? && Delimited(rest)
    ensures var r := NextToken([SP] + TokenText(t, left) + rest, f);
            r.Got? && r.rest == rest && IsScalar(r.v) && (SameValue(t, r.v) <==> !IsPositiveInfinity(t))
  {
    hide Spell, NextToken, SizedText, OfMagnitude, OfDouble;
    match t
    case Bool(b) =>
      FlagReadsBack(b, rest, f);
    case PositiveInt(n) =>
      WordReadsBack(false, n, rest, f);
    case Double(u) =>
      DoubleReadsBack(u, rest, f);
    case Str(s) =>
      SizedReadsBack(COLON, s, rest, f);
    case Bytes(s) =>
      SizedReadsBack(BAR, s, rest, f);
  }

  lemma FlagReadsBack(b: bool, rest: Text, f: Stale)
    ensures NextToken([SP] + FlagText(b) + rest, f) == Got(Bool(b), rest)
  {
    hide SignedToken, UnsignedToken;
    var s := [SP] + FlagText(b) + rest;
    assert s[2..] == rest;
  }

  lemma DoubleReadsBack(u: uint64, rest: Text, f: Stale)
    requires Delimited(rest)
    ensures var r := NextToken([SP] + Spell(OfDouble(u)) + rest, f);
            r.Got? && r.rest == rest && IsScalar(r.v) && (SameValue(Double(u), r.v) <==> !IsPositiveInfinity(Double(u)))
  {
    if IsNaN(u) || IsInfinite(u) {
      SpecialReadsBack(u, rest, f);
    } else {
      hide NextToken, Spell;
      DoubleFits(u);
      NumberReadsBack(OfDouble(u), rest, f);
    }
  }

  lemma SpecialReadsBack(u: uint64, rest: Text, f: Stale)
    requires IsNaN(u) || IsInfinite(u)
    ensures var r := NextToken([SP] + Spell(OfDouble(u)) + rest, f);
            r.Got? && r.rest == rest && r.v.Double?
            && if IsNaN(u) then IsNaN(r.v.u) else IsInfinite(r.v.u) && SignBit(r.v.u)
  {
    var s := [SP] + Spell(OfDouble(u)) + rest;
    if IsNaN(u) {
      assert s == ([SP] + NAN_TEXT) + rest;
      assert s[4..] == rest;
    } else {
      ReadsInfinity(SignBit(u), rest, f(|s|));
      assert s[1..] == Sign(SignBit(u)) + INF_TEXT + rest;
      assert Peek(s, 1) == Peek(s[1..], 0);
      OneLeads();
      IntWraps(INT_MAX);
    }
  }

  lemma SizedReadsBack(delim: byte, body: Text, rest: Text, f: Stale)
    requires (delim == COLON || delim == BAR) && |body| <= INT_MAX && Delimited(rest)
    ensures NextToken([SP] + SizedText(delim, body) + rest, f) == Got(if delim == BAR then Bytes(body) else Str(body), rest)
  {
    var s := [SP] + SizedText(delim, body) + rest;
    var d := HexDigits(|body|);
    var tail := [delim] + (body + rest);
    assert s[1..] == d + tail by {
      assert SizedText(delim, body) + rest == d + tail;
    }
    assert Peek(s, 1) == Peek(d + tail, 0) == d[0] as int;
    SizedToken(delim, body, rest, f(|s|));
    Dispatch(s, f);
  }

  /** The string branch of the token reader. */
  lemma SizedBranch(s: Text, n: uint64, tail: Text, stale: uint64)
    requires ScanHex(s) == Hex(n, 0, tail) && tail != [] && (tail[0] == COLON || tail[0] == BAR) && n < |tail| - 1
    ensures var body := tail[1..][..n];
            UnsignedToken(s, stale) == Got(if tail[0] == BAR then Bytes(body) else Str(body), tail[1..][n..])
  {
    hide ScanHex, ReadExponent, BuildDouble, LeadingZeros, ShiftLeft;
  }

  lemma SizedToken(delim: byte, body: Text, rest: Text, stale: uint64)
    requires (delim == COLON || delim == BAR) && |body| <= INT_MAX && |rest| > 0
    ensures UnsignedToken(HexDigits(|body|) + ([delim] + (body + rest)), stale)
            == Got(if delim == BAR then Bytes(body) else Str(body), rest)
  {
    hide ScanHex, HexDigits, UnsignedToken;
    var tail := [delim] + (body + rest);
    ScanReads(|body|, tail);
    SizedBranch(HexDigits(|body|) + tail, |body|, tail, stale);
    assert tail[1..] == body + rest;
    assert (body + rest)[..|body|] == body && (body + rest)[|body|..] == rest;
  }

  // ----- the printed negative token

  /** What starts with a digit is never a negative number. */
  lemma UnsignedIsPositive(s: Text, stale: uint64)
    requires UnsignedToken(s, stale).Got? && IsNumber(UnsignedToken(s, stale).v)
    ensures !Negative(TokenNumber(UnsignedToken(s, stale).v))
  {
    hide ScanHex, ReadExponent, LeadingZeros, RoundedFraction, ShiftLeft;
  }

  /** A negative token's digits without their sign do not read as its value; after a zero the left-over byte stays. */
  lemma NegativeLost(n: uint64, left: byte, rest: Text, f: Stale)
    ensures var t := NegativeInt(n);
            var r := NextToken([SP] + TokenText(t, left) + rest, f);
            r.Got? ==> IsScalar(r.v) && (SameValue(t, r.v) ==> r.rest == [left] + rest)
  {
    hide UnsignedToken, Spell, HexDigits;
    var t := NegativeInt(n);
    var s := [SP] + TokenText(t, left) + rest;
    var m := Spell(OfMagnitude(false, n));
    var u := m + ([left] + rest);
    assert s[1..] == u;
    SpellsDigit(n);
    assert Peek(s, 1) == m[0] as int;
    Dispatch(s, f);
    var r := UnsignedToken(u, f(|s|));
    if r.Got? {
      UnsignedKinds(u, f(|s|));
      if IsNumber(r.v) { UnsignedIsPositive(u, f(|s|)); }
      if n == 0 { ZeroThen(left, rest, f(|s|)); }
    }
  }

  lemma SpellsDigit(n: uint64)
    ensures var m := Spell(OfMagnitude(false, n)); |m| > 0 && IsHexDigit(m[0] as int)
    ensures n == 0 ==> Spell(OfMagnitude(false, n)) == [ZERO]
  {
    hide HexDigits, Pow2, TrailingZeros, OddPart;
    MagnitudeText(false, n);
    if n == 0 { ZeroDigits(); }
  }

  lemma ZeroDigits()
    ensures HexDigits(0) == [ZERO]
  {
  }

  lemma ZeroThen(left: byte, rest: Text, stale: uint64)
    ensures var r := UnsignedToken([ZERO] + ([left] + rest), stale); r.Got? && IsNumber(r.v) ==> r.rest == [left] + rest
  {
    assert ([ZERO] + ([left] + rest))[1..] == [left] + rest;
  }

  // ----- whole entries

  /** A token that holds a value, a string's length being a C int. */
  predicate IsValueToken(t: Token) {
    match t
    case Bool(_) => true
    case PositiveInt(_) => true
    case NegativeInt(_) => true
    case Double(_) => true
    case Str(s) => |s| <= INT_MAX
    case Bytes(s) => |s| <= INT_MAX
    case _ => false
  }

  /** A piece of a format that prints one scalar value. */
  predicate IsScalarArgument(x: Item) {
    match x
    case Flag(_) => true
    case Signed64(_) => true
    case Unsigned64(_) => true
    case Float(_) => true
    case Sized(delim, s) => (delim == COLON || delim == BAR) && |s| <= INT_MAX
    case AnyItem(v) => v.Atom? && IsValueToken(v.t)
    case _ => false
  }

  /** A piece of a format that prints one value, a scalar or the span of a container. */
  predicate IsArgument(x: Item) { IsScalarArgument(x) || (x.AnyItem? && x.v.Container?) }

  /** The scalar a piece is given. */
  function Given(x: Item): (t: Token)
    requires IsScalarArgument(x)
    ensures IsScalar(t) && ProperToken(t)
  {
    match x
    case Flag(b) => Bool(b)
    case Signed64(i) => if i < 0 then NegativeInt(-(i as int)) else PositiveInt(i)
    case Unsigned64(n) => PositiveInt(n)
    case Float(u) => Double(u)
    case Sized(delim, s) => if delim == COLON then Str(s) else Bytes(s)
    case AnyItem(v) => v.t
  }

  /** The value a piece is given. */
  function Meant(x: Item): Any
    requires IsArgument(x)
  {
    if IsScalarArgument(x) then Atom(Given(x)) else x.v
  }

  /** The same scalar, or the same container with the same bytes inside. */
  predicate SameAny(v: Any, w: Any) { if v.Atom? then w.Atom? && SameValue(v.t, w.t) else v == w }

  /** What comes back: everything but positive infinity, a negative integer printed as `%p`, and a container printed as `%p`
      that is not empty. */
  predicate ComesBack(x: Item)
    requires IsArgument(x)
  {
    if IsScalarArgument(x) then !(x.AnyItem? && x.v.t.NegativeInt?) && !IsPositiveInfinity(Given(x)) else x.v.span == []
  }

  /** A value that is not a negative integer printed as `%p`, delimited, is read back with exactly the tail left, as the same
      value if it is not positive infinity and as another if it is. */
  lemma ScalarReadsBack(x: Item, left: byte, rest: Text, f: Stale)
    requires IsScalarArgument(x) && !(x.AnyItem? && x.v.t.NegativeInt?) && Delimited(rest)
    ensures var r := NextToken([SP] + ItemText(x, left) + rest, f);
            r.Got? && r.rest == rest && IsScalar(r.v) && (SameValue(Given(x), r.v) <==> ComesBack(x))
  {
    hide NextToken, Spell, SizedText, SameValue;
    if x.Signed64? && x.i < 0 {
      WordReadsBack(true, -(x.i as int), rest, f);
      NegativeSame(-(x.i as int), NextToken([SP] + ItemText(x, left) + rest, f).v);
    } else {
      TokenReadsBack(Given(x), left, rest, f);
    }
  }

  /** A container printed as `%p` is read as the same container exactly when it is empty: between the bracket and the bytes
      inside, which start with a space, the formatter puts one more space, and none before the closing bracket. */
  lemma ContainerReadsBack(list: bool, span: Text, rest: Text, f: Stale)
    ensures var r := NextAny([SP] + SpanText(list, span) + rest, f);
            if span == [] then r == Got(Container(list, span), rest) else r.Got? ==> r.v.Container? && r.v != Container(list, span)
  {
    hide UnsignedToken, SignedToken;
    var s := [SP] + SpanText(list, span) + rest;
    var close := if list then R_BRACKET else R_BRACE;
    var body := [SP] + span + [close] + rest;
    assert s[2..] == body;
    assert NextToken(s, f) == Got(Open(list), body);
    if span == [] {
      assert body == [SP, close] + rest && body[2..] == rest;
      assert [list][..0] == [];
      assert CloseAll(rest, [], f) == Past(rest);
    } else if NextAny(s, f).Got? && NextAny(s, f).v.span == span {
      assert body[0] == SP && body[1] == span[0] == body[..|span|][0];
      NothingAtSpace(body[1..], f(|body|));
    }
  }

  lemma NothingAtSpace(s: Text, stale: uint64)
    requires Peek(s, 0) == SP as int
    ensures UnsignedToken(s, stale) == Fail
  {
  }

  /** A token that is not an opening bracket is a value by itself. */
  lemma AtomRead(s: Text, f: Stale)
    ensures NextToken(s, f) == Fail ==> NextAny(s, f) == Fail
    ensures NextToken(s, f).Got? && !NextToken(s, f).v.Open? ==> NextAny(s, f) == Got(Atom(NextToken(s, f).v), NextToken(s, f).rest)
  {
    hide NextToken;
  }

  /** Every argument, as the formatter prints it, is read back as the same value with exactly the tail left when and only when
      it is one of those that come back. */
  lemma ArgumentReadsBack(x: Item, left: byte, rest: Text, f: Stale)
    requires IsArgument(x) && Delimited(rest)
    ensures var r := NextAny([SP] + ItemText(x, left) + rest, f);
            r.Got? && r.rest == rest && SameAny(Meant(x), r.v) <==> ComesBack(x)
  {
    hide NextToken, NextAny, ItemText, SameValue, Given;
    var s := [SP] + ItemText(x, left) + rest;
    AtomRead(s, f);
    if !IsScalarArgument(x) {
      SpanPrinted(x, left);
      ContainerReadsBack(x.v.list, x.v.span, rest, f);
    } else if x.AnyItem? && x.v.t.NegativeInt? {
      NegativeItem(x, left, rest, f);
    } else {
      ScalarReadsBack(x, left, rest, f);
    }
  }

  lemma SpanPrinted(x: Item, left: byte)
    requires x.AnyItem? && x.v.Container?
    ensures ItemText(x, left) == SpanText(x.v.list, x.v.span)
  {
  }

  lemma NegativeSame(n: uint64, t: Token)
    requires TokenSays(t, OfMagnitude(true, n))
    ensures SameValue(NegativeInt(n), t) && IsScalar(t)
  {
  }

  predicate AllArguments(xs: seq<Item>) { forall i :: 0 <= i < |xs| ==> IsArgument(xs[i]) }

  lemma ArgumentGood(x: Item)
    requires IsArgument(x)
    ensures !x.Bad()
  {
  }

  lemma FirstArgument(xs: seq<Item>)
    requires AllArguments(xs) && xs != []
    ensures IsArgument(xs[0]) && !xs[0].Bad() && AllArguments(xs[1..])
  {
    hide IsArgument;
    forall i | 0 <= i < |xs[1..]| ensures IsArgument(xs[1..][i]) {
      assert xs[1..][i] == xs[i + 1];
    }
    ArgumentGood(xs[0]);
  }

  predicate AllComeBack(xs: seq<Item>)
    requires AllArguments(xs)
  {
    forall i :: 0 <= i < |xs| ==> ComesBack(xs[i])
  }

  /** Values printed from `at` on, a space before each. */
  function ValuesText(xs: seq<Item>, at: nat, before: Text): Text
    requires AllArguments(xs)
  {
    if xs == [] then []
    else
      var t := Printed(xs[0], at + 1, before);
      [SP] + t + ValuesText(xs[1..], at + 1 + |t|, before)
  }

  /** Reading values with `sipc_any` until the end of the entry. */
  function ReadEntry(s: Text, f: Stale): Read<seq<Any>>
    decreases |s|
  {
    match NextAny(s, f)
    case Fail => Fail
    case Got(v, rest) =>
      if v == Atom(End) then Got([], rest)
      else match ReadEntry(rest, f) case Fail => Fail case Got(vs, rest') => Got([v] + vs, rest')
  }

  /** Values in front of those still to be read. */
  function Before(vs: seq<Any>, r: Read<seq<Any>>): Read<seq<Any>> {
    match r case Fail => Fail case Got(ws, rest) => Got(vs + ws, rest)
  }

  /** The client's loop over the parser object: values with `sipc_any` up to the end of the entry. */
  method TakeEntry(p: SipcParser.Parser) returns (ret: int, vs: seq<Any>)
    requires p.Valid() && p.next < p.end
    modifies p`next
    ensures p.Moved()
    ensures match ReadEntry(old(p.Rest()), p.stale)
            case Fail => ret != 0
            case Got(ws, rest) => ret == 0 && vs == ws && p.Rest() == rest
  {
    hide NextAny;
    vs := [];
    ghost var all := ReadEntry(p.Rest(), p.stale);
    NoneBefore(all);
    while true
      invariant p.Moved() && p.next < p.end
      invariant all == Before(vs, ReadEntry(p.Rest(), p.stale))
      decreases p.end - p.next
    {
      ghost var s, was := p.Rest(), vs;
      var v;
      ret, v := p.AnyValue();
      if ret != 0 {
        return -1, [];
      } else if v == Atom(End) {
        assert was + [] == was;
        return 0, vs;
      }
      vs := vs + [v];
      OneMoreBefore(was, v, ReadEntry(p.Rest(), p.stale));
    }
  }

  lemma NoneBefore(r: Read<seq<Any>>)
    ensures Before([], r) == r
  {
    if r.Got? { assert [] + r.v == r.v; }
  }

  lemma OneMoreBefore(vs: seq<Any>, v: Any, r: Read<seq<Any>>)
    ensures Before(vs + [v], r) == Before(vs, Before([v], r))
  {
    if r.Got? { assert (vs + [v]) + r.v == vs + ([v] + r.v); }
  }

  predicate SameValues(xs: seq<Item>, ws: seq<Any>)
    requires AllArguments(xs)
  {
    |xs| == |ws| && forall i :: 0 <= i < |xs| ==> SameAny(Meant(xs[i]), ws[i])
  }

  /** Reading gave back the values, and stopped just after the end of the entry. */
  predicate Returned(xs: seq<Item>, r: Read<seq<Any>>, rest: Text)
    requires AllArguments(xs)
  {
    r.Got? && r.rest == rest && SameValues(xs, r.v)
  }

  /** A list of values, printed between the type byte and the newline, is read back as the same list and the end, exactly
      when every one of them comes back. */
  lemma {:induction false} EntryReadsBack(xs: seq<Item>, at: nat, before: Text, rest: Text, f: Stale)
    requires AllArguments(xs)
    ensures Returned(xs, ReadEntry(ValuesText(xs, at, before) + [NL] + rest, f), rest) <==> AllComeBack(xs)
  {
    hide NextToken, Printed, ReadEntry, Returned, ComesBack, AllArguments, IsArgument, AllComeBack, ValuesText, Delimited, Item.Bad;
    FirstPrinted(xs, at, before, rest);
    FirstComesBack(xs);
    if xs == [] {
      EndOfEntry(rest, f);
    } else {
      var t := Printed(xs[0], at + 1, before);
      var tail := ValuesText(xs[1..], at + 1 + |t|, before) + [NL] + rest;
      EntryReadsBack(xs[1..], at + 1 + |t|, before, rest, f);
      FirstValue(xs, at, before, tail, rest, f);
    }
  }

  /** The text of an entry, the first value taken off. */
  lemma FirstPrinted(xs: seq<Item>, at: nat, before: Text, rest: Text)
    requires AllArguments(xs)
    ensures xs == [] ==> ValuesText(xs, at, before) + [NL] + rest == [NL] + rest
    ensures xs != [] ==>
              && IsArgument(xs[0]) && !xs[0].Bad() && AllArguments(xs[1..])
              && var t := Printed(xs[0], at + 1, before);
                 var tail := ValuesText(xs[1..], at + 1 + |t|, before) + [NL] + rest;
                 ValuesText(xs, at, before) + [NL] + rest == [SP] + t + tail && Delimited(tail) && |tail| > |rest|
  {
    hide Printed, AllArguments, IsArgument, Item.Bad, ValuesText, Delimited;
    FirstSpaced(xs, at, before);
    if xs == [] {
      assert [] + [NL] == [NL];
    } else {
      var t := Printed(xs[0], at + 1, before);
      var v := ValuesText(xs[1..], at + 1 + |t|, before);
      DelimitedValues(xs[1..], at + 1 + |t|, before, rest);
      Assoc([SP] + t, v, [NL]);
      Assoc([SP] + t, v + [NL], rest);
    }
  }

  lemma FirstComesBack(xs: seq<Item>)
    requires AllArguments(xs)
    ensures xs == [] ==> AllComeBack(xs)
    ensures xs != [] ==>
              && AllArguments(xs[1..]) && IsArgument(xs[0])
              && (AllComeBack(xs) <==> ComesBack(xs[0]) && AllComeBack(xs[1..]))
  {
    hide ComesBack, IsArgument;
    if xs != [] {
      FirstArgument(xs);
      if ComesBack(xs[0]) && AllComeBack(xs[1..]) {
        forall i | 0 <= i < |xs| ensures ComesBack(xs[i]) {
          if i > 0 { assert xs[1..][i - 1] == xs[i]; }
        }
      }
    }
  }

  /** The values are given back exactly when the first comes back and the others are given back. */
  lemma FirstValue(xs: seq<Item>, at: nat, before: Text, tail: Text, rest: Text, f: Stale)
    requires xs != [] && AllArguments(xs) && AllArguments(xs[1..]) && IsArgument(xs[0]) && Delimited(tail) && |tail| > |rest|
    ensures Returned(xs, ReadEntry([SP] + Printed(xs[0], at + 1, before) + tail, f), rest) <==>
            ComesBack(xs[0]) && Returned(xs[1..], ReadEntry(tail, f), rest)
  {
    hide NextToken, NextAny, ItemText, SameValue, Given, ReadEntry, SameValues, Delimited;
    var x := xs[0];
    var left := Was(before, at + 1 + |ItemText(x, 0)| - 1);
    var s := [SP] + ItemText(x, left) + tail;
    Consed(s, f);
    AtomRead(s, f);
    if !IsScalarArgument(x) {
      SpanPrinted(x, left);
      ContainerReadsBack(x.v.list, x.v.span, tail, f);
    } else if x.AnyItem? && x.v.t.NegativeInt? {
      NegativeItem(x, left, tail, f);
      GapStops(left, tail, f);
    } else {
      ScalarReadsBack(x, left, tail, f);
    }
    if NextAny(s, f).Got? && ReadEntry(NextAny(s, f).rest, f).Got? {
      SameFirst(xs, NextAny(s, f).v, ReadEntry(NextAny(s, f).rest, f).v);
    }
  }

  lemma NegativeItem(x: Item, left: byte, rest: Text, f: Stale)
    requires IsScalarArgument(x) && x.AnyItem? && x.v.t.NegativeInt?
    ensures var r := NextToken([SP] + ItemText(x, left) + rest, f);
            r.Got? ==> IsScalar(r.v) && (SameValue(Given(x), r.v) ==> r.rest == [left] + rest)
  {
    NegativeLost(x.v.t.n, left, rest, f);
  }

  lemma Consed(s: Text, f: Stale)
    ensures NextAny(s, f) == Fail ==> ReadEntry(s, f) == Fail
    ensures NextAny(s, f).Got? && NextAny(s, f).v != Atom(End) ==>
              ReadEntry(s, f) == match ReadEntry(NextAny(s, f).rest, f)
                                 case Fail => Fail
                                 case Got(vs, rest) => Got([NextAny(s, f).v] + vs, rest)
  {
    hide NextAny;
  }

  lemma SameFirst(xs: seq<Item>, v: Any, ws: seq<Any>)
    requires xs != [] && AllArguments(xs) && AllArguments(xs[1..]) && IsArgument(xs[0])
    ensures SameValues(xs, [v] + ws) <==> SameAny(Meant(xs[0]), v) && SameValues(xs[1..], ws)
  {
    hide SameAny, Meant, AllArguments, IsArgument;
    var us := [v] + ws;
    assert us[0] == v && us[1..] == ws;
    Shifted(xs, us);
  }

  lemma Shifted(xs: seq<Item>, us: seq<Any>)
    requires xs != [] && us != [] && AllArguments(xs) && AllArguments(xs[1..]) && IsArgument(xs[0])
    ensures SameValues(xs, us) <==> SameAny(Meant(xs[0]), us[0]) && SameValues(xs[1..], us[1..])
  {
    hide SameAny, Meant, IsArgument;
    if SameValues(xs[1..], us[1..]) && SameAny(Meant(xs[0]), us[0]) {
      forall i | 0 <= i < |xs| ensures SameAny(Meant(xs[i]), us[i]) {
        if i > 0 { assert us[1..][i - 1] == us[i] && xs[1..][i - 1] == xs[i]; }
      }
    }
  }

  /** A left-over byte stops the reading of the entry, or ends it early. */
  lemma GapStops(left: byte, tail: Text, f: Stale)
    requires Delimited(tail)
    ensures var r := ReadEntry([left] + tail, f); r.Got? ==> r.rest == tail
  {
    assert ([left] + tail)[1..] == tail;
  }

  lemma EndOfEntry(rest: Text, f: Stale)
    ensures ReadEntry([NL] + rest, f) == Got([], rest)
    ensures Returned([], Got([], rest), rest)
  {
    EndToken(rest, f);
  }

  lemma EndToken(rest: Text, f: Stale)
    ensures NextToken([NL] + rest, f) == Got(End, rest)
  {
    assert ([NL] + rest)[1..] == rest;
  }

  lemma DelimitedValues(xs: seq<Item>, at: nat, before: Text, rest: Text)
    requires AllArguments(xs)
    ensures Delimited(ValuesText(xs, at, before) + [NL] + rest)
  {
    hide Printed;
    if xs != [] {
      assert ValuesText(xs, at, before)[0] == SP;
    }
  }

  /** The format string `<type> %p %d %f ...\n`, a space before each value. */
  function MessageItems(typ: byte, xs: seq<Item>): seq<Item> { [Raw(typ)] + Spaced(xs) + [Raw(NL)] }

  function Spaced(xs: seq<Item>): seq<Item> {
    if xs == [] then [] else [Raw(SP), xs[0]] + Spaced(xs[1..])
  }

  lemma {:induction false} OutputAppend(a: seq<Item>, b: seq<Item>, at: nat, before: Text)
    requires AllGood(a) && AllGood(b)
    ensures AllGood(a + b)
    ensures var o := Output(a, at, before); Output(a + b, at, before) == o + Output(b, at + |o|, before)
  {
    hide Printed;
    var o := Output(a, at, before);
    if b == [] {
      assert a + b == a;
    } else {
      var c, x := b[..|b| - 1], b[|b| - 1];
      assert b == c + [x];
      assert (a + b)[..|a + b| - 1] == a + c && (a + b)[|a + b| - 1] == x;
      OutputAppend(a, c, at, before);
      var q := Output(c, at + |o|, before);
      Assoc(o, q, Printed(x, at + |o| + |q|, before));
    }
  }

  lemma {:induction false} SpacedGood(xs: seq<Item>)
    requires AllArguments(xs)
    ensures AllGood(Spaced(xs))
  {
    hide AllArguments;
    if xs != [] {
      FirstArgument(xs);
      SpacedGood(xs[1..]);
    }
  }

  /** A space and one value in front. */
  lemma SpacedStep(x: Item, more: seq<Item>, at: nat, before: Text)
    requires !x.Bad() && AllGood(more)
    ensures AllGood([Raw(SP), x] + more)
    ensures var t := Printed(x, at + 1, before);
            Output([Raw(SP), x] + more, at, before) == [SP] + t + Output(more, at + 1 + |t|, before)
  {
    hide Printed, Output;
    OutputPair(SP, x, at, before);
    OutputAppend([Raw(SP), x], more, at, before);
  }

  lemma {:induction false} SpacedOutput(xs: seq<Item>, at: nat, before: Text)
    requires AllArguments(xs)
    ensures AllGood(Spaced(xs)) && Output(Spaced(xs), at, before) == ValuesText(xs, at, before)
  {
    hide Printed, Output, AllGood, IsArgument, AllArguments, ValuesText, Spaced;
    SpacedGood(xs);
    FirstSpaced(xs, at, before);
    if xs == [] {
      OutputNone(at, before);
    } else {
      FirstArgument(xs);
      SpacedGood(xs[1..]);
      SpacedOutput(xs[1..], at + 1 + |Printed(xs[0], at + 1, before)|, before);
      SpacedStep(xs[0], Spaced(xs[1..]), at, before);
    }
  }

  /** The pieces and the text, one value taken off. */
  lemma FirstSpaced(xs: seq<Item>, at: nat, before: Text)
    requires AllArguments(xs)
    ensures xs == [] ==> Spaced(xs) == [] && ValuesText(xs, at, before) == []
    ensures xs != [] ==>
              && IsArgument(xs[0]) && !xs[0].Bad() && AllArguments(xs[1..]) && Spaced(xs) == [Raw(SP), xs[0]] + Spaced(xs[1..])
              && var t := Printed(xs[0], at + 1, before);
                 ValuesText(xs, at, before) == [SP] + t + ValuesText(xs[1..], at + 1 + |t|, before)
  {
    hide Printed, AllArguments, IsArgument;
    if xs != [] { FirstArgument(xs); }
  }

  lemma OutputNone(at: nat, before: Text)
    ensures Output([], at, before) == []
  {
  }

  lemma OutputOne(x: Item, at: nat, before: Text)
    requires !x.Bad()
    ensures AllGood([x]) && Output([x], at, before) == Printed(x, at, before)
    ensures x.Raw? ==> Printed(x, at, before) == [x.c]
  {
    hide ItemText;
    assert [x][..0] == [];
    assert [] + Printed(x, at, before) == Printed(x, at, before);
    if x.Raw? { RawText(x.c, Was(before, at + |ItemText(x, 0)| - 1)); }
  }

  lemma RawText(c: byte, left: byte)
    ensures ItemText(Raw(c), left) == [c]
  {
  }

  lemma OutputPair(c: byte, x: Item, at: nat, before: Text)
    requires !x.Bad()
    ensures AllGood([Raw(c), x]) && Output([Raw(c), x], at, before) == [c] + Printed(x, at + 1, before)
  {
    hide Printed, Output;
    OutputOne(Raw(c), at, before);
    OutputOne(x, at + 1, before);
    OutputAppend([Raw(c)], [x], at, before);
    assert [Raw(c)] + [x] == [Raw(c), x];
  }

  lemma MessageText(typ: byte, xs: seq<Item>, before: Text)
    requires AllArguments(xs)
    ensures AllGood(MessageItems(typ, xs)) && Output(MessageItems(typ, xs), 0, before) == [typ] + ValuesText(xs, 1, before) + [NL]
  {
    hide Output, Printed, Spaced, ValuesText;
    OutputOne(Raw(typ), 0, before);
    SpacedOutput(xs, 1, before);
    OutputAppend([Raw(typ)], Spaced(xs), 0, before);
    OutputOne(Raw(NL), 1 + |ValuesText(xs, 1, before)|, before);
    OutputAppend([Raw(typ)] + Spaced(xs), [Raw(NL)], 0, before);
  }

  /** What the formatter makes of a message of values, whatever the buffer held, is read back, value for value and up to
      the end of the buffer, exactly when every value is one of those that come back. */
  lemma MessageReadsBack(typ: byte, xs: seq<Item>, before: Text, f: Stale)
    requires AllArguments(xs)
    ensures AllGood(MessageItems(typ, xs))
    ensures var out := Output(MessageItems(typ, xs), 0, before);
            |out| > 0 && out[0] == typ && (Returned(xs, ReadEntry(out[1..], f), []) <==> AllComeBack(xs))
  {
    hide ReadEntry, Output, ValuesText, Returned, AllComeBack, MessageItems;
    MessageText(typ, xs, before);
    var v := ValuesText(xs, 1, before);
    assert ([typ] + v + [NL])[1..] == v + [NL] + [];
    EntryReadsBack(xs, 1, before, [], f);
  }
}
