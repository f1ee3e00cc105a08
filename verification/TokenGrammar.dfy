/** Strings and tokens in C against their spellings: what `sipc_string`, `sipc_bytes` and `sipc_next` accept, and nothing else. */
module TokenGrammar {
  import opened Words
  import opened Hex
  import opened Numbers
  import opened Floats
  import opened RealTexts
  import opened Readers
  import opened Tokens
  import opened SipcFormat
  import opened Messages
  import opened SipcParser

  // ----- strings

  predicate IsDelimiter(d: byte) { d == COLON || d == BAR }

  /** A length field, a delimiter and what follows: the string is what the length says, if that leaves at least one byte; the
      wrong delimiter is refused. */
  lemma StringField(n: uint64, d: byte, tail: Text, delim: byte)
    requires IsDelimiter(d) && IsDelimiter(delim)
    ensures ReadString([SP] + HexDigits(n) + [d] + tail, delim) ==
            if d == delim && n < |tail| then Got(tail[..n], tail[n..]) else Fail
  {
    hide ScanHex, HexDigits;
    var s := [SP] + HexDigits(n) + [d] + tail;
    var rest := [d] + tail;
    assert s[1..] == HexDigits(n) + rest;
    ScanReads(n, rest);
    assert rest[1..] == tail;
  }

  /** Every string is read back from its text, whatever follows, and refused by the reader for the other delimiter. */
  lemma StringReadsBack(body: Text, rest: Text, d: byte, delim: byte)
    requires IsDelimiter(d) && IsDelimiter(delim) && |body| < TWO64 && rest != []
    ensures ReadString([SP] + SizedText(d, body) + rest, delim) == if d == delim then Got(body, rest) else Fail
  {
    hide ReadString, HexDigits;
    var tail := body + rest;
    StringField(|body|, d, tail, delim);
    assert tail[..|body|] == body && tail[|body|..] == rest;
    assert [SP] + SizedText(d, body) + rest == [SP] + HexDigits(|body|) + [d] + tail;
  }

  lemma StringBranch(s: Text, delim: byte, w: Text, rest: Text)
    requires IsDelimiter(delim) && ReadString(s, delim) == Got(w, rest)
    ensures Peek(s, 0) == SP as int
    ensures var f := ScanHex(s[1..]);
            && f.Hex? && f.excess == 0 && f.v == |w| && rest != []
            && f.rest != [] && f.rest[0] == delim && f.rest[1..] == w + rest
  {
    hide ScanHex;
    var tail := ScanHex(s[1..]).rest[1..];
    assert |w| < |tail| ==> tail == tail[..|w|] + tail[|w|..];
  }

  lemma StringSound(s: Text, delim: byte, w: Text, rest: Text)
    requires IsDelimiter(delim) && |s| <= INT_MAX && ReadString(s, delim) == Got(w, rest)
    ensures s == [SP] + SizedText(delim, w) + rest && rest != []
  {
    hide HexDigits, ScanHex, ReadString;
    StringBranch(s, delim, w, rest);
    var f := ScanHex(s[1..]);
    SmallField(s[1..]);
    assert f.rest == [delim] + f.rest[1..];
    Assoc(HexDigits(|w|) + [delim], w, rest);
    Assoc(HexDigits(|w|), [delim], w + rest);
    assert s == [SP] + s[1..];
    Assoc([SP], SizedText(delim, w), rest);
  }

  lemma SizedLonger(delim: byte, w: Text)
    ensures |SizedText(delim, w)| >= |w|
  {
    hide HexDigits;
  }

  /** In a buffer whose size fits an int a string is read exactly from the text that spells it, with something left. */
  lemma StringExactly(s: Text, delim: byte, w: Text, rest: Text)
    requires IsDelimiter(delim) && |s| <= INT_MAX
    ensures ReadString(s, delim) == Got(w, rest) <==> s == [SP] + SizedText(delim, w) + rest && rest != []
  {
    hide ReadString, SizedText;
    SizedLonger(delim, w);
    if ReadString(s, delim) == Got(w, rest) { StringSound(s, delim, w, rest); }
    if s == [SP] + SizedText(delim, w) + rest && rest != [] { StringReadsBack(w, rest, delim, delim); }
  }

  /** `sipc_next` returns a string, or bytes, exactly when `sipc_string`, or `sipc_bytes`, does. */
  lemma StringsAgree(s: Text, w: Text, rest: Text, f: Stale)
    ensures NextToken(s, f) == Got(Str(w), rest) <==> ReadString(s, COLON) == Got(w, rest)
    ensures NextToken(s, f) == Got(Bytes(w), rest) <==> ReadString(s, BAR) == Got(w, rest)
  {
    hide ReadExponent, ReadReal, ScanHex, BuildDouble, LeadingZeros, ShiftLeft;
    if s != [] { ScanStarts(s[1..]); assert Peek(s, 1) == Peek(s[1..], 0); }
  }

  lemma ScanStarts(s: Text)
    ensures ScanHex(s).Hex? <==> IsHexDigit(Peek(s, 0))
  {
    hide HexLoop;
  }

  // ----- tokens

  /** The text of a token that is not a number. */
  function Spelling(t: Token): Text
    requires !IsNumber(t)
  {
    match t
    case End => [NL]
    case Bool(b) => [SP, if b then CH_T else CH_F]
    case Str(s) => [SP] + SizedText(COLON, s)
    case Bytes(s) => [SP] + SizedText(BAR, s)
    case Open(list) => [SP, if list then L_BRACKET else L_BRACE]
    case Close(list) => [SP, if list then R_BRACKET else R_BRACE]
  }

  lemma TwoByteToken(s: Text, t: Token, rest: Text, f: Stale)
    requires t.End? || t.Bool? || t.Open? || t.Close?
    ensures NextToken(s, f) == Got(t, rest) <==> s == Spelling(t) + rest
  {
    hide UnsignedToken, ReadReal, BuildDouble, LeadingZeros, ShiftLeft;
    if s != [] { UnsignedIsNone(s[1..], f(|s|)); assert s == [s[0]] + s[1..]; }
    if |s| >= 2 { assert s == [s[0], s[1]] + s[2..]; }
  }

  lemma UnsignedIsNone(s: Text, stale: uint64)
    ensures var r := UnsignedToken(s, stale); r.Got? ==> IsNumber(r.v) || r.v.Str? || r.v.Bytes?
  {
    hide ScanHex, ReadExponent, BuildDouble, LeadingZeros, ShiftLeft;
  }

  /** Any token but a number is read exactly from the text that spells it, a string with something left. */
  lemma TokenExactly(s: Text, t: Token, rest: Text, f: Stale)
    requires !IsNumber(t) && |s| <= INT_MAX
    ensures NextToken(s, f) == Got(t, rest) <==> s == Spelling(t) + rest && (t.Str? || t.Bytes? ==> rest != [])
  {
    hide NextToken, SizedText;
    match t
    case Str(w) =>
      StringsAgree(s, w, rest, f);
      StringExactly(s, COLON, w, rest);
    case Bytes(w) =>
      StringsAgree(s, w, rest, f);
      StringExactly(s, BAR, w, rest);
    case _ =>
      TwoByteToken(s, t, rest, f);
  }

  /** The token that the fields of a legal number text make. */
  function TextToken(t: RealText): Token {
    if t.InfText? then Double(BuildDouble(true, 1, INT_MAX)) else NumberToken(t.neg, t.a, Clamp(t.Power()))
  }

  lemma NumberBranch(s: Text, f: Stale)
    requires NextToken(s, f).Got? && IsNumber(NextToken(s, f).v)
    ensures Peek(s, 0) == SP as int
    ensures if Peek(s, 1) == CH_N as int then [SP] + NAN_TEXT <= s && NextToken(s, f) == Got(Double(NAN_WORD), s[4..])
            else if Peek(s, 1) == MINUS as int || Peek(s, 1) == CH_I as int then NextToken(s, f) == SignedToken(s, f(|s|))
            else NextToken(s, f) == UnsignedToken(s[1..], f(|s|))
  {
    hide SignedToken, UnsignedToken;
  }

  lemma SignedSound(s: Text, stale: uint64) returns (t: RealText)
    requires SignedToken(s, stale).Got? && ShortFields(s) && (Peek(s, 1) == MINUS as int || Peek(s, 1) == CH_I as int)
    ensures t.Legal() && SignedToken(s, stale).v == TextToken(t) && s == [SP] + t.Written() + SignedToken(s, stale).rest
  {
    t := ReadRealSound(s, true, stale);
    OnlyInfinityIsUnsigned(s, stale);
    hide ReadReal, BuildDouble, RealText.Written, RealText.Legal, ShiftLeft, ShortFields;
    InfinityFields();
    ClampSmall(if t.InfText? then 0 else t.Power());
    if !t.InfText? { ShiftZero(t.a); NegativeText(s, t); }
  }

  lemma InfinityFields()
    ensures LeadingZeros(1) < INT_MAX
  {
    OneLeads();
  }

  lemma ClampSmall(e: int)
    ensures Clamp(e) == 0 <==> e == 0
  {
  }

  lemma NegativeText(s: Text, t: RealText)
    requires !t.InfText? && (Peek(s, 1) == MINUS as int || Peek(s, 1) == CH_I as int)
    requires exists rest: Text :: s == [SP] + t.Written() + rest
    ensures t.neg
  {
    var rest: Text :| s == [SP] + t.Written() + rest;
    var d := HexDigits(t.a)[0];
    assert IsHexDigit(d as int);
    assert s[1] == t.Written()[0] == if t.neg then MINUS else d;
  }

  lemma UnsignedSound(s: Text, stale: uint64) returns (t: RealText)
    requires UnsignedToken(s, stale).Got? && IsNumber(UnsignedToken(s, stale).v) && ShortField(s)
    ensures t.Legal() && UnsignedToken(s, stale).v == TextToken(t) && s == t.Written() + UnsignedToken(s, stale).rest
  {
    hide ReadMagnitude, BuildDouble, RealText.Written, UnsignedToken;
    UnsignedNumber(s, stale);
    UnsignedReadsReal(s, stale);
    t := MagnitudeSound(s, false, stale);
    hide RealText.Legal, ShortField;
    FiniteRead(s, t, ReadMagnitude(s, false, stale).rest);
  }

  /** A number that starts with a digit is no infinity, and no string follows its digits. */
  lemma UnsignedNumber(s: Text, stale: uint64)
    requires UnsignedToken(s, stale).Got? && IsNumber(UnsignedToken(s, stale).v)
    ensures !(INF_TEXT <= s) && ScanHex(s).Hex?
    ensures Peek(ScanHex(s).rest, 0) != BAR as int && Peek(ScanHex(s).rest, 0) != COLON as int
  {
    hide ReadExponent, BuildDouble, LeadingZeros, ShiftLeft, HexLoop;
  }

  lemma FiniteRead(s: Text, t: RealText, rest: Text)
    requires !(INF_TEXT <= s) && s == t.Written() + rest && !t.neg
    ensures !t.InfText?
  {
    assert Sign(false) + INF_TEXT == INF_TEXT;
  }

  /** A number token, with hex fields of at most sixteen digits, is read only from `nan` or a legal number text, and is the token
      that its fields make. */
  lemma NumberSound(s: Text, f: Stale) returns (t: RealText)
    requires NextToken(s, f).Got? && IsNumber(NextToken(s, f).v) && ShortFields(s)
    ensures var r := NextToken(s, f);
            if [SP] + NAN_TEXT <= s then r.v == Double(NAN_WORD) && s == [SP] + NAN_TEXT + r.rest
            else t.Legal() && r.v == TextToken(t) && s == [SP] + t.Written() + r.rest
  {
    NumberBranch(s, f);
    hide NextToken, SignedToken, UnsignedToken, RealText.Written, RealText.Legal, TextToken;
    var r := NextToken(s, f);
    if Peek(s, 1) == CH_N as int {
      assert s == [SP] + NAN_TEXT + s[4..];
      t := Plain(false, 0);
    } else if Peek(s, 1) == MINUS as int || Peek(s, 1) == CH_I as int {
      t := SignedSound(s, f(|s|));
    } else {
      t := UnsignedSound(s[1..], f(|s|));
      assert s == [SP] + s[1..];
      Assoc([SP], t.Written(), r.rest);
    }
  }

  // ----- overflows

  /** When an overflow is noticed in an integer without exponent, what the caller reads is what its variable held before. */
  lemma OverflowReadsStale(s: Text, stale: uint64)
    requires Peek(s, 0) == SP as int && ScanHex(s[1..]).Hex? && ScanHex(s[1..]).excess > 0
    requires Peek(ScanHex(s[1..]).rest, 0) != CH_P as int
    ensures ReadUint64(s, stale) == if stale > 0 && stale % 256 == 0 then Fail else Got(stale, ScanHex(s[1..]).rest)
  {
    hide ScanHex, LeadingZeros;
    ScanStarts(s[1..]);
    ShiftZero(stale);
  }
}
