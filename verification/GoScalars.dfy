/** Scalars in Go against their spellings: what the reader takes as a boolean, a string, bytes or a number, and nothing else. */
module GoScalars {
  import opened Words
  import opened Hex
  import opened Numbers
  import opened Floats
  import opened RealTexts
  import opened SipcFormat
  import opened GoValues
  import opened GoNumbers
  import opened Tokens
  import GoForest
  import GoLimits

  // ----- booleans, strings and bytes

  /** The text of a boolean, a string or bytes. */
  function Spelling(v: Value): Text
    requires v.VBool? || v.VString? || v.VBytes?
  {
    match v
    case VBool(b) => [SP, if b then CH_T else CH_F]
    case VString(s) => [SP] + SizedText(COLON, s)
    case VBytes(s) => [SP] + SizedText(BAR, s)
  }

  /** A length field, a delimiter and what follows: the string is what the length says, if that leaves at least one byte, and the
      reader answers that data is missing if not. */
  lemma StringField(n: uint64, d: byte, tail: Text, depth: nat)
    requires (d == COLON || d == BAR) && depth <= MAX_DEPTH
    ensures ReadValue([SP] + HexDigits(n) + [d] + tail, depth) ==
            if n < |tail| then Ok(GoLimits.SizedValue(d, tail[..n]), tail[n..]) else Err(InsufficientData)
  {
    hide ReadValue, GoUnsigned, HexDigits;
    var s := [SP] + HexDigits(n) + [d] + tail;
    var rest := [d] + tail;
    assert s[1..] == HexDigits(n) + rest;
    DigitsFirst(n, rest);
    assert s[1] == s[1..][0] && rest[1..] == tail;
    GoDispatch(s, depth);
    SizedBranch(HexDigits(n) + rest, n, rest);
  }

  lemma SizedBranch(s: Text, n: uint64, rest: Text)
    requires GoScan(s) == Ok((n, 0), rest) && rest != [] && (rest[0] == COLON || rest[0] == BAR)
    ensures GoUnsigned(s) ==
            if n < |rest| - 1 then Ok(GoLimits.SizedValue(rest[0], rest[1..][..n]), rest[1..][n..]) else Err(InsufficientData)
  {
    hide GoScan, GoExponent, BuildFloat64, LeadingZeros, ShiftLeft;
  }

  lemma NegativeKind(s: Text)
    ensures GoNegative(s).Ok? ==> GoNegative(s).v.VInt? || GoNegative(s).v.VFloat?
  {
    hide GoScan, GoExponent, BuildFloat64, LeadingZeros, ShiftLeft, Matches;
  }

  lemma UnsignedKind(s: Text)
    ensures GoUnsigned(s).Ok? ==> !GoUnsigned(s).v.VBool?
  {
    hide GoScan, GoExponent, BuildFloat64, LeadingZeros, ShiftLeft;
  }

  lemma SpecialKind(t: Text, name: Text, u: uint64)
    ensures Special(t, name, u).Ok? ==> Special(t, name, u).v.VFloat?
  {
    hide Matches;
  }

  /** Which branch reads such a value. */
  lemma PlainBranch(s: Text, v: Value, rest: Text)
    requires !GoForest.Opens(s, L_BRACKET) && !GoForest.Opens(s, L_BRACE)
    requires ReadValue(s, 1) == Ok(v, rest) && (v.VBool? || v.VString? || v.VBytes?)
    ensures |s| >= 2 && s[0] == SP
    ensures if v.VBool? then s[1] == (if v.b then CH_T else CH_F) && rest == s[2..] else GoUnsigned(s[1..]) == Ok(v, rest)
  {
    hide GoUnsigned, GoNegative, Special, ReadItems, ReadEntries;
    if |s| >= 2 {
      NegativeKind(s[2..]);
      UnsignedKind(s[1..]);
      SpecialKind(s[2..], NAN_TEXT[1..], GO_NAN);
      SpecialKind(s[2..], INF_TEXT[1..], POSITIVE_INFINITY);
    }
  }

  lemma StringBranch(s: Text, v: Value, rest: Text)
    requires GoUnsigned(s) == Ok(v, rest) && (v.VString? || v.VBytes?)
    ensures var f := ScanHex(s);
            && f.Hex? && f.excess == 0 && f.v == |v.s| && rest != []
            && f.rest != [] && f.rest[0] == (if v.VString? then COLON else BAR) && f.rest[1..] == v.s + rest
  {
    hide ScanHex, GoExponent, BuildFloat64, LeadingZeros, ShiftLeft;
    var tail := ScanHex(s).rest[1..];
    assert |v.s| < |tail| ==> tail == tail[..|v.s|] + tail[|v.s|..];
  }

  lemma StringSound(s: Text, v: Value, rest: Text)
    requires GoUnsigned(s) == Ok(v, rest) && (v.VString? || v.VBytes?) && |s| < FULL
    ensures s == SizedText(if v.VString? then COLON else BAR, v.s) + rest && rest != []
  {
    hide ScanHex, GoUnsigned, HexDigits;
    StringBranch(s, v, rest);
    var f, d := ScanHex(s), if v.VString? then COLON else BAR;
    SmallField(s);
    assert f.rest == [d] + f.rest[1..];
    Assoc(HexDigits(|v.s|) + [d], v.s, rest);
    Assoc(HexDigits(|v.s|), [d], v.s + rest);
  }

  lemma ContainerKind(s: Text)
    requires GoForest.Opens(s, L_BRACKET) || GoForest.Opens(s, L_BRACE)
    ensures ReadValue(s, 1).Ok? ==> ReadValue(s, 1).v.VArray? || ReadValue(s, 1).v.VMap?
  {
    hide ReadValue, ReadItems, ReadEntries;
    if GoForest.Opens(s, L_BRACKET) {
      GoForest.OpenArray(s, 1);
      GoForest.ItemsAreArray(s[2..], 1, []);
    } else {
      GoForest.OpenMap(s, 1);
      GoForest.EntriesAreMap(s[2..], 1, []);
    }
  }

  /** Behind a space. */
  lemma AfterSpace(s: Text, a: Text, rest: Text)
    requires s != [] && s[0] == SP && s[1..] == a + rest
    ensures s == [SP] + a + rest
  {
    assert s == [SP] + s[1..];
    Assoc([SP], a, rest);
  }

  lemma TwoBytes(s: Text, c: byte, rest: Text)
    requires |s| >= 2 && s[0] == SP && s[1] == c && rest == s[2..]
    ensures s == [SP, c] + rest
  {
    assert s == [s[0], s[1]] + s[2..];
  }

  lemma ScalarSound(s: Text, v: Value, rest: Text)
    requires ReadValue(s, 1) == Ok(v, rest) && (v.VBool? || v.VString? || v.VBytes?) && |s| < FULL
    ensures s == Spelling(v) + rest && (!v.VBool? ==> rest != [])
  {
    hide ReadValue, SizedText, GoUnsigned, ReadItems, ReadEntries;
    if GoForest.Opens(s, L_BRACKET) || GoForest.Opens(s, L_BRACE) { ContainerKind(s); }
    PlainBranch(s, v, rest);
    if v.VBool? {
      TwoBytes(s, if v.b then CH_T else CH_F, rest);
    } else {
      StringSound(s[1..], v, rest);
      AfterSpace(s, SizedText(if v.VString? then COLON else BAR, v.s), rest);
    }
  }

  /** A boolean, a string or bytes are read exactly from the text that spells them, a string with something left. */
  lemma ScalarExactly(s: Text, v: Value, rest: Text)
    requires (v.VBool? || v.VString? || v.VBytes?) && |s| < FULL
    ensures ReadValue(s, 1) == Ok(v, rest) <==> s == Spelling(v) + rest && (!v.VBool? ==> rest != [])
  {
    SpellingLonger(v);
    hide ReadValue, Spelling;
    if ReadValue(s, 1) == Ok(v, rest) { ScalarSound(s, v, rest); }
    if s == Spelling(v) + rest && (!v.VBool? ==> rest != []) { SpellingRead(v, rest); }
  }

  lemma SpellingLonger(v: Value)
    requires v.VBool? || v.VString? || v.VBytes?
    ensures !v.VBool? ==> |Spelling(v)| >= |v.s|
  {
    hide HexDigits;
  }

  lemma SpellingRead(v: Value, rest: Text)
    requires (v.VBool? || v.VString? || v.VBytes?) && (!v.VBool? ==> rest != [] && |v.s| < TWO64)
    ensures ReadValue(Spelling(v) + rest, 1) == Ok(v, rest)
  {
    hide HexDigits, ReadValue;
    if v.VBool? {
      BoolRead(v.b, rest);
    } else {
      var d, tail := if v.VString? then COLON else BAR, v.s + rest;
      StringField(|v.s|, d, tail, 1);
      assert tail[..|v.s|] == v.s && tail[|v.s|..] == rest;
      assert [SP] + SizedText(d, v.s) + rest == [SP] + HexDigits(|v.s|) + [d] + tail;
    }
  }

  lemma BoolRead(b: bool, rest: Text)
    ensures ReadValue([SP, if b then CH_T else CH_F] + rest, 1) == Ok(VBool(b), rest)
  {
    hide GoUnsigned, GoNegative, ReadItems, ReadEntries, Special;
    assert ([SP, if b then CH_T else CH_F] + rest)[2..] == rest;
  }

  // ----- numbers

  lemma ExponentParts(w: Text)
    requires GoExponent(w, 0).Ok?
    ensures var down := Peek(w, 0) == MINUS as int;
            var f := ScanHex(if down then w[1..] else w);
            f.Hex? && (f.excess == 0 ==> GoExponent(w, 0) == Ok(GoClamp(down, f.v), f.rest))
  {
    hide ScanHex;
    var f := ScanHex(if Peek(w, 0) == MINUS as int then w[1..] else w);
    if f.Hex? { assert (f.v + 0) % TWO64 == f.v; }
  }

  lemma ExponentSound(w: Text) returns (down: bool, b: uint64)
    requires GoExponent(w, 0).Ok? && HexRun(if Peek(w, 0) == MINUS as int then w[1..] else w) <= 16
    ensures w == Sign(down) + HexDigits(b) + GoExponent(w, 0).rest && GoExponent(w, 0).v == GoClamp(down, b)
  {
    hide ScanHex, HexRun, HexDigits, GoExponent, GoClamp;
    ExponentParts(w);
    down := Peek(w, 0) == MINUS as int;
    var x := if down then w[1..] else w;
    ScanSound(x);
    b := ScanHex(x).v;
    assert w == Sign(down) + x;
    Assoc(Sign(down), HexDigits(b), ScanHex(x).rest);
  }

  lemma NumberBranch(neg: bool, u: Text)
    requires GoMagnitude(neg, u).Ok? && IsNumeric(GoMagnitude(neg, u).v) && !(neg && INF_TEXT <= u)
    ensures var o, r := GoScan(u), GoMagnitude(neg, u);
            && o.Ok? && o.v.1 == ScanHex(u).excess
            && if o.rest[0] == CH_P then
                 && o.v.0 % 2 == 1 && GoExponent(o.rest[1..], o.v.1).Ok?
                 && r == Ok(ScaledValue(neg, o.v.0, GoExponent(o.rest[1..], o.v.1).v), GoExponent(o.rest[1..], o.v.1).rest)
               else Plain(neg, o.v.0).Legal() && r == Ok(PlainValue(neg, o.v.0), o.rest)
  {
    hide ScanHex, GoExponent, BuildFloat64, LeadingZeros, ShiftLeft;
  }

  lemma ScanParts(u: Text)
    requires GoScan(u).Ok?
    ensures ScanHex(u) == Hex(GoScan(u).v.0, GoScan(u).v.1, GoScan(u).rest)
  {
    hide ScanHex;
  }

  lemma MagnitudeSound(neg: bool, u: Text) returns (t: RealText)
    requires GoMagnitude(neg, u).Ok? && IsNumeric(GoMagnitude(neg, u).v) && ShortField(u)
    ensures t.Legal() && t.neg == neg
    ensures GoMagnitude(neg, u).v == ValueOfText(t) && Sign(neg) + u == t.Written() + GoMagnitude(neg, u).rest
  {
    hide ScanHex, HexRun, HexDigits, GoExponent, GoMagnitude, ScaledValue, PlainValue, GoScan, GoClamp;
    if neg && INF_TEXT <= u {
      MinusInfinity(u);
      t := InfText(true);
      assert u == INF_TEXT + u[3..];
      Assoc(Sign(true), INF_TEXT, u[3..]);
    } else {
      NumberBranch(neg, u);
      ScanParts(u);
      ScanSound(u);
      var o := GoScan(u);
      if o.rest[0] == CH_P {
        var w := o.rest[1..];
        var down, b := ExponentSound(w);
        var rest := GoExponent(w, 0).rest;
        t := Scaled(neg, o.v.0, down, b);
        assert o.rest == [CH_P] + w;
        ScaledWritten(t, rest);
        Assoc(Sign(neg), HexDigits(t.a), [CH_P] + (Sign(down) + HexDigits(b) + rest));
      } else {
        t := Plain(neg, o.v.0);
        Assoc(Sign(neg), HexDigits(t.a), o.rest);
      }
    }
  }

  lemma MinusInfinity(u: Text)
    requires INF_TEXT <= u
    ensures GoMagnitude(true, u) == Ok(VFloat(NEGATIVE_INFINITY), u[3..])
  {
    assert u == INF_TEXT + u[3..];
    NegativeInfinity(u[3..]);
  }

  /** Which branch reads a number. */
  lemma NumericBranch(s: Text)
    requires ReadValue(s, 1).Ok? && IsNumeric(ReadValue(s, 1).v)
    requires !GoForest.Opens(s, L_BRACKET) && !GoForest.Opens(s, L_BRACE)
    ensures |s| >= 2 && s[0] == SP
    ensures ReadValue(s, 1) ==
            if s[1] == CH_N then Special(s[2..], NAN_TEXT[1..], GO_NAN)
            else if s[1] == CH_I then Special(s[2..], INF_TEXT[1..], POSITIVE_INFINITY)
            else if s[1] == MINUS then GoMagnitude(true, s[2..])
            else GoMagnitude(false, s[1..])
  {
    hide Special, GoNegative, GoUnsigned, ReadItems, ReadEntries;
  }

  lemma NameSound(t: Text, name: Text, u: uint64)
    requires Special(t, name, u).Ok?
    ensures Special(t, name, u).v == VFloat(u) && t == name + Special(t, name, u).rest
  {
    hide Matches;
  }

  /** A number, with hex fields of at most sixteen digits, is read only from `nan` or a legal number text, as the value that its
      fields make. */
  lemma NumberSound(s: Text) returns (t: RealText)
    requires ReadValue(s, 1).Ok? && IsNumeric(ReadValue(s, 1).v) && ShortFields(s)
    ensures var r := ReadValue(s, 1);
            if Peek(s, 1) == CH_N as int then r.v == VFloat(GO_NAN) && s == [SP] + NAN_TEXT + r.rest
            else t.Legal() && r.v == ValueOfText(t) && s == [SP] + t.Written() + r.rest
  {
    hide ReadValue, Special, GoMagnitude, ShortField, RealText.Legal;
    if GoForest.Opens(s, L_BRACKET) || GoForest.Opens(s, L_BRACE) { ContainerKind(s); }
    NumericBranch(s);
    var r := ReadValue(s, 1);
    if s[1] == CH_N {
      NameSound(s[2..], NAN_TEXT[1..], GO_NAN);
      t := Plain(false, 0);
      SpecialText(s, CH_N, NAN_TEXT, r.rest);
    } else if s[1] == CH_I {
      NameSound(s[2..], INF_TEXT[1..], POSITIVE_INFINITY);
      t := InfText(false);
      assert t.Legal() && t.Written() == INF_TEXT by { PlusInfinity(); }
      SpecialText(s, CH_I, INF_TEXT, r.rest);
    } else if s[1] == MINUS {
      t := MagnitudeSound(true, s[2..]);
      assert s[1..] == Sign(true) + s[2..];
      AfterSpace(s, t.Written(), r.rest);
    } else {
      t := MagnitudeSound(false, s[1..]);
      assert Sign(false) + s[1..] == s[1..];
      AfterSpace(s, t.Written(), r.rest);
    }
  }

  lemma PlusInfinity()
    ensures InfText(false).Legal() && InfText(false).Written() == INF_TEXT
  {
    assert Sign(false) + INF_TEXT == INF_TEXT;
  }

  lemma SpecialText(s: Text, c: byte, name: Text, rest: Text)
    requires |s| >= 2 && s[0] == SP && s[1] == c && name != [] && name[0] == c && s[2..] == name[1..] + rest
    ensures s == [SP] + name + rest
  {
    assert name == [c] + name[1..];
    assert s[1..] == [c] + s[2..];
    Assoc([c], name[1..], rest);
    AfterSpace(s, name, rest);
  }
}
