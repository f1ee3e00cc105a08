/** Reading numbers in C: `parse_exponent`, `parse_real` and the typed readers, as functions of the text left to read. */
module RealTexts {
  import opened Words
  import opened Hex
  import opened Numbers
  import opened Floats

  // ----- what the readers do

  datatype ExponentRead = NoExponent | Exponent(e: int, rest: Text)

  /** `s` starts after the `p`; `excess` counts the significand bits that fell off. */
  function ReadExponent(s: Text, excess: nat): (r: ExponentRead)
    ensures r.Exponent? ==> |r.rest| < |s| && INT_MIN <= r.e <= INT_MAX
  {
    var neg := Peek(s, 0) == MINUS as int;
    match ScanHex(if neg then s[1..] else s)
    case NoHex => NoExponent
    case Hex(v, x, rest) =>
      var u := (v + excess) % TWO64;
      if x > 0 || u > INT_MAX then Exponent(if neg then INT_MIN else INT_MAX, rest)
      else Exponent(if neg then -u else u, rest)
  }

  datatype RealRead = NoReal | Real(neg: bool, sig: uint64, exp: int, rest: Text)

  /** The significand of a scan: a reported overflow leaves the caller's variable as it was. */
  function Significand(v: uint64, excess: nat, stale: uint64): uint64 { if excess > 0 then stale else v }

  function ReadReal(s: Text, signed: bool, stale: uint64): (r: RealRead)
    ensures r.Real? ==> |r.rest| < |s| && INT_MIN <= r.exp <= INT_MAX
  {
    if Peek(s, 0) != SP as int then NoReal
    else ReadMagnitude(s[1..], signed && Peek(s, 1) == MINUS as int, stale)
  }

  /** `s` starts after the space, at the sign if the number was found to be negative. */
  function ReadMagnitude(s: Text, neg: bool, stale: uint64): (r: RealRead)
    requires neg ==> Peek(s, 0) == MINUS as int
    ensures r.Real? ==> |r.rest| < |s| && INT_MIN <= r.exp <= INT_MAX
  {
    var t := if neg then s[1..] else s;
    if INF_TEXT <= t then Real(neg, 1, INT_MAX, t[3..])
    else match ScanHex(t)
      case NoHex => NoReal
      case Hex(v, x, rest) =>
        var sig := Significand(v, x, stale);
        if Peek(rest, 0) == CH_P as int then
          if sig % 2 == 0 then NoReal
          else match ReadExponent(rest[1..], x)
            case NoExponent => NoReal
            case Exponent(e, rest') => Real(neg, sig, e, rest')
        else if (if sig > 0 then sig % 256 == 0 else neg) then NoReal
        else Real(neg, sig, 0, rest)
  }

  datatype Read<T> = Fail | Got(v: T, rest: Text)

  function ReadUint64(s: Text, stale: uint64): Read<uint64> {
    match ReadReal(s, false, stale)
    case NoReal => Fail
    case Real(_, sig, exp, rest) =>
      if exp < 0 || (sig > 0 && LeadingZeros(sig) < exp) then Fail
      else Got(ShiftLeft(sig, exp), rest)
  }

  function ReadInt64(s: Text, stale: uint64): Read<int64> {
    match ReadReal(s, true, stale)
    case NoReal => Fail
    case Real(neg, sig, exp, rest) =>
      if sig == 0 then Got(0, rest)
      else if exp < 0 || LeadingZeros(sig) < exp then Fail
      else
        var w: int := ShiftLeft(sig, exp);
        if (w - if neg then 1 else 0) % TWO64 >= TWO63 then Fail
        else Got(if neg then ToInt64(-w) else ToInt64(w), rest)
  }

  /** The quiet NaN that the C library's NAN stands for. */
  const NAN_WORD: uint64 := 0x7FF8_0000_0000_0000

  function ReadDouble(s: Text, stale: uint64): Read<uint64> {
    if [SP] + NAN_TEXT <= s then Got(NAN_WORD, s[4..])
    else match ReadReal(s, true, stale)
      case NoReal => Fail
      case Real(neg, sig, exp, rest) => Got(BuildDouble(neg, sig, exp), rest)
  }

  // ----- what a text says

  /** A number text whose fields fit a word: an infinity, a plain significand, or one with an exponent field. */
  datatype RealText =
    | InfText(neg: bool)
    | Plain(neg: bool, a: uint64)
    | Scaled(neg: bool, a: uint64, down: bool, b: uint64)
  {
    function Written(): Text {
      match this
      case InfText(_) => Sign(neg) + INF_TEXT
      case Plain(_, a) => Sign(neg) + HexDigits(a)
      case Scaled(_, a, down, b) => Sign(neg) + HexDigits(a) + ([CH_P] + Sign(down) + HexDigits(b))
    }

    /** The parser's rule: no negative zero, a whole number not ending in two zero digits, an odd scaled significand. */
    predicate Legal() {
      match this
      case InfText(_) => true
      case Plain(_, a) => if a == 0 then !neg else a % 256 != 0
      case Scaled(_, a, _, _) => a % 2 == 1
    }

    /** An exponent field where the format demands that it be folded into the significand. */
    predicate Unfolded() { Scaled? && 0 <= Power() < 8 }

    function Power(): int
      requires !InfText?
    {
      if Plain? then 0 else Signed(down, b)
    }

    function Denotes(): real
      requires !InfText?
    {
      if neg then -Scale(a, Power()) else Scale(a, Power())
    }

    /** What may follow: anything that cannot be taken for more of the number. */
    predicate EndsAt(rest: Text) { !IsHexDigit(Peek(rest, 0)) && Peek(rest, 0) != CH_P as int }
  }

  function Clamp(e: int): int { if e > INT_MAX then INT_MAX else if e < -INT_MAX then INT_MIN else e }

  /** What `parse_real` hands back for a legal text. */
  function Parsed(t: RealText, rest: Text): RealRead {
    match t
    case InfText(neg) => Real(neg, 1, INT_MAX, rest)
    case _ => Real(t.neg, t.a, Clamp(t.Power()), rest)
  }

  /** An exponent field on top of `excess` significand bits that fell off: their sum as a word, signed and clamped. */
  lemma ReadsExponent(down: bool, b: uint64, excess: nat, rest: Text)
    requires !IsHexDigit(Peek(rest, 0))
    ensures ReadExponent(Sign(down) + HexDigits(b) + rest, excess) == Exponent(Clamp(Signed(down, (b + excess) % TWO64)), rest)
  {
    hide ScanHex, HexDigits;
    var s := Sign(down) + HexDigits(b) + rest;
    var x := HexDigits(b) + rest;
    Assoc(Sign(down), HexDigits(b), rest);
    assert x == if down then s[1..] else s;
    ScanReads(b, rest);
  }

  /** After the sign, a field of digits is scanned as such. */
  lemma ReadsField(t: RealText, tail: Text, stale: uint64)
    requires !t.InfText? && !IsHexDigit(Peek(tail, 0))
    ensures var s := Sign(t.neg) + HexDigits(t.a) + tail;
            && (Peek(s, 0) == MINUS as int <==> t.neg)
            && ReadMagnitude(s, t.neg, stale) ==
               (if Peek(tail, 0) == CH_P as int then
                 if t.a % 2 == 0 then NoReal
                 else match ReadExponent(tail[1..], 0)
                   case NoExponent => NoReal
                   case Exponent(e, rest') => Real(t.neg, t.a, e, rest')
               else if (if t.a > 0 then t.a % 256 == 0 else t.neg) then NoReal
               else Real(t.neg, t.a, 0, tail))
  {
    var s := Sign(t.neg) + HexDigits(t.a) + tail;
    var u := HexDigits(t.a) + tail;
    assert s == Sign(t.neg) + u;
    assert u == if t.neg then s[1..] else s;
    assert Peek(u, 0) == HexDigits(t.a)[0] as int;
    ScanReads(t.a, tail);
  }

  lemma ScaledWritten(t: RealText, rest: Text)
    requires t.Scaled?
    ensures t.Written() + rest == Sign(t.neg) + HexDigits(t.a) + ([CH_P] + (Sign(t.down) + HexDigits(t.b) + rest))
  {
    hide HexDigits;
    var x := Sign(t.down) + HexDigits(t.b);
    Assoc([CH_P], Sign(t.down), HexDigits(t.b));
    Assoc([CH_P], x, rest);
    Assoc(Sign(t.neg) + HexDigits(t.a), [CH_P] + x, rest);
  }

  lemma ReadsScaled(t: RealText, rest: Text, stale: uint64)
    requires t.Scaled? && t.EndsAt(rest)
    ensures Peek(t.Written() + rest, 0) == MINUS as int <==> t.neg
    ensures ReadMagnitude(t.Written() + rest, t.neg, stale) == if t.Legal() then Parsed(t, rest) else NoReal
  {
    hide HexDigits, ReadExponent, ReadMagnitude, Clamp, RealText.Written;
    var x := Sign(t.down) + HexDigits(t.b) + rest;
    var tail := [CH_P] + x;
    assert tail[1..] == x;
    ScaledWritten(t, rest);
    ReadsField(t, tail, stale);
    ReadsExponent(t.down, t.b, 0, rest);
    assert (t.b + 0) % TWO64 == t.b;
  }

  lemma ReadsInfinity(neg: bool, rest: Text, stale: uint64)
    ensures var s := Sign(neg) + INF_TEXT + rest;
            (Peek(s, 0) == MINUS as int <==> neg) && ReadMagnitude(s, neg, stale) == Real(neg, 1, INT_MAX, rest)
  {
    var s := Sign(neg) + INF_TEXT + rest;
    var u := INF_TEXT + rest;
    assert s == Sign(neg) + u;
    assert u == if neg then s[1..] else s;
    assert u[3..] == rest;
  }

  /** Completeness: a text is accepted exactly when it is legal, and its fields are returned. */
  lemma ReadsMagnitude(t: RealText, rest: Text, stale: uint64)
    requires t.EndsAt(rest)
    ensures Peek(t.Written() + rest, 0) == MINUS as int <==> t.neg
    ensures ReadMagnitude(t.Written() + rest, t.neg, stale) == if t.Legal() then Parsed(t, rest) else NoReal
  {
    match t
    case InfText(neg) => ReadsInfinity(neg, rest, stale);
    case Plain(_, a) => ReadsField(t, rest, stale);
    case Scaled(_, a, down, b) => ReadsScaled(t, rest, stale);
  }

  lemma ReadsReal(t: RealText, rest: Text, signed: bool, stale: uint64)
    requires t.EndsAt(rest)
    ensures ReadReal([SP] + t.Written() + rest, signed, stale) ==
            if t.Legal() && (t.neg ==> signed) then Parsed(t, rest) else NoReal
  {
    hide ReadMagnitude, RealText.Written, Parsed;
    var s := [SP] + t.Written() + rest;
    assert s[1..] == t.Written() + rest;
    assert Peek(s, 1) == Peek(s[1..], 0);
    ReadsMagnitude(t, rest, stale);
    if t.neg && !signed { NoDigitAtSign(s[1..], stale); }
  }

  lemma NoDigitAtSign(s: Text, stale: uint64)
    requires Peek(s, 0) == MINUS as int
    ensures ReadMagnitude(s, false, stale) == NoReal
  {
  }

  // ----- soundness: whatever is accepted is one of those texts

  /** No hex field of the number at the front of `s` is longer than sixteen digits. */
  predicate ShortFields(s: Text) {
    |s| > 0 && ShortField(if Peek(s, 1) == MINUS as int then s[2..] else s[1..])
  }

  predicate ShortField(t: Text) {
    && HexRun(t) <= 16
    && (ScanHex(t).Hex? && Peek(ScanHex(t).rest, 0) == CH_P as int ==>
          var u := ScanHex(t).rest[1..];
          HexRun(if Peek(u, 0) == MINUS as int then u[1..] else u) <= 16)
  }

  lemma ExponentSound(w: Text) returns (down: bool, b: uint64)
    requires ReadExponent(w, 0).Exponent? && HexRun(if Peek(w, 0) == MINUS as int then w[1..] else w) <= 16
    ensures var r := ReadExponent(w, 0);
            w == Sign(down) + HexDigits(b) + r.rest && r.e == Clamp(Signed(down, b))
  {
    hide ScanHex, HexRun, HexDigits;
    down := Peek(w, 0) == MINUS as int;
    var x := if down then w[1..] else w;
    ScanSound(x);
    var f := ScanHex(x);
    b := f.v;
    assert b % TWO64 == b;
    assert ReadExponent(w, 0).rest == f.rest;
    assert ReadExponent(w, 0).e == Clamp(Signed(down, b));
    assert w == Sign(down) + x;
    Assoc(Sign(down), HexDigits(b), f.rest);
  }

  lemma FieldSound(v: Text, neg: bool) returns (t: RealText, rest: Text)
    requires ShortField(v) && ScanHex(v).Hex?
    requires Peek(ScanHex(v).rest, 0) == CH_P as int ==> ReadExponent(ScanHex(v).rest[1..], 0).Exponent?
    ensures !t.InfText? && t.neg == neg && t.a == ScanHex(v).v && ScanHex(v).excess == 0
    ensures Sign(neg) + v == t.Written() + rest
    ensures var f := ScanHex(v);
            if Peek(f.rest, 0) != CH_P as int then t.Plain? && rest == f.rest
            else t.Scaled? && ReadExponent(f.rest[1..], 0) == Exponent(Clamp(t.Power()), rest)
  {
    hide ScanHex, HexRun, HexDigits, ReadExponent;
    ScanSound(v);
    var f := ScanHex(v);
    if Peek(f.rest, 0) == CH_P as int {
      var w := f.rest[1..];
      var down, b := ExponentSound(w);
      t, rest := Scaled(neg, f.v, down, b), ReadExponent(w, 0).rest;
      var e := Sign(down) + HexDigits(b);
      assert f.rest == [CH_P] + w;
      assert [CH_P] + Sign(down) + HexDigits(b) == [CH_P] + e by { Assoc([CH_P], Sign(down), HexDigits(b)); }
      Assoc([CH_P], e, rest);
      Assoc(HexDigits(f.v), [CH_P] + e, rest);
      Assoc(Sign(neg), HexDigits(f.v), [CH_P] + e);
      Assoc(Sign(neg), HexDigits(f.v) + ([CH_P] + e), rest);
    } else {
      t, rest := Plain(neg, f.v), f.rest;
      Assoc(Sign(neg), HexDigits(f.v), rest);
    }
  }

  lemma MagnitudeSound(u: Text, neg: bool, stale: uint64) returns (t: RealText)
    requires (neg ==> Peek(u, 0) == MINUS as int) && ReadMagnitude(u, neg, stale).Real?
    requires ShortField(if neg then u[1..] else u)
    ensures t.Legal() && t.neg == neg
    ensures var rest := ReadMagnitude(u, neg, stale).rest;
            u == t.Written() + rest && ReadMagnitude(u, neg, stale) == Parsed(t, rest)
  {
    hide ScanHex, HexRun, HexDigits, ReadExponent, ShortField;
    var v := if neg then u[1..] else u;
    assert u == Sign(neg) + v;
    if INF_TEXT <= v {
      t := InfText(neg);
      assert v == INF_TEXT + v[3..];
      Assoc(Sign(neg), INF_TEXT, v[3..]);
    } else {
      ShortExcess(v);
      var rest;
      t, rest := FieldSound(v, neg);
    }
  }

  lemma ShortExcess(v: Text)
    requires ShortField(v) && ScanHex(v).Hex?
    ensures ScanHex(v).excess == 0
  {
    ScanSound(v);
  }

  lemma ShortAtSign(s: Text, neg: bool)
    requires ShortFields(s) && (neg ==> Peek(s, 1) == MINUS as int)
    ensures ShortField(if neg then s[1..][1..] else s[1..])
  {
    assert |s| > 1 ==> s[1..][1..] == s[2..];
    assert Peek(s, 1) == Peek(s[1..], 0);
  }

  /** Whatever is accepted, with short fields, is a legal text, and the reader returns that text's fields. */
  lemma ReadRealSound(s: Text, signed: bool, stale: uint64) returns (t: RealText)
    requires ReadReal(s, signed, stale).Real? && ShortFields(s)
    ensures t.Legal() && (t.neg ==> signed)
    ensures var rest := ReadReal(s, signed, stale).rest;
            s == [SP] + t.Written() + rest && ReadReal(s, signed, stale) == Parsed(t, rest)
  {
    hide ShortField, ReadMagnitude, Parsed;
    var neg := signed && Peek(s, 1) == MINUS as int;
    ShortAtSign(s, neg);
    assert s == [SP] + s[1..] && s[2..] == s[1..][1..];
    assert Peek(s, 1) == Peek(s[1..], 0);
    t := MagnitudeSound(s[1..], neg, stale);
    Assoc([SP], t.Written(), ReadReal(s, signed, stale).rest);
  }
}
