/** The token reader `sipc_next` and the value reader `sipc_any`, as functions of the text left to read. */
module Tokens {
  import opened Words
  import opened Hex
  import opened Numbers
  import opened Floats
  import opened RealTexts

  /** What an uninitialised local holds, by the number of bytes left when the read begins. */
  type Stale = nat -> uint64

  datatype Token =
    | End
    | Bool(b: bool)
    | PositiveInt(n: uint64)
    | NegativeInt(n: uint64)
    | Double(u: uint64)
    | Str(s: Text)
    | Bytes(s: Text)
    | Open(list: bool)
    | Close(list: bool)

  const CH_T: byte := 0x54
  const CH_F: byte := 0x46
  const CH_I: byte := 0x69
  const CH_N: byte := 0x6E
  const L_BRACE: byte := 0x7B
  const R_BRACE: byte := 0x7D
  const L_BRACKET: byte := 0x5B
  const R_BRACKET: byte := 0x5D

  function NextToken(s: Text, f: Stale): (r: Read<Token>)
    ensures r.Got? ==> |r.rest| < |s|
  {
    if Peek(s, 0) == NL as int then Got(End, s[1..])
    else if Peek(s, 0) != SP as int then Fail
    else
      var c := Peek(s, 1);
      if c == MINUS as int || c == CH_I as int then SignedToken(s, f(|s|))
      else if c == CH_T as int then Got(Bool(true), s[2..])
      else if c == CH_F as int then Got(Bool(false), s[2..])
      else if c == L_BRACE as int then Got(Open(false), s[2..])
      else if c == R_BRACE as int then Got(Close(false), s[2..])
      else if c == L_BRACKET as int then Got(Open(true), s[2..])
      else if c == R_BRACKET as int then Got(Close(true), s[2..])
      else if c == CH_N as int then if [SP] + NAN_TEXT <= s then Got(Double(NAN_WORD), s[4..]) else Fail
      else UnsignedToken(s[1..], f(|s|))
  }

  /** A token that starts with a minus sign or an `i`. */
  function SignedToken(s: Text, stale: uint64): (r: Read<Token>)
    ensures r.Got? ==> |r.rest| < |s|
  {
    match ReadReal(s, true, stale)
    case NoReal => Fail
    case Real(_, sig, exp, rest) =>
      if exp != 0 && (exp < 0 || exp > LeadingZeros(sig)) then Got(Double(BuildDouble(true, sig, exp)), rest)
      else Got(NegativeInt(ShiftLeft(sig, exp)), rest)
  }

  /** A token that starts with a hex field; `s` starts after the space. */
  function UnsignedToken(s: Text, stale: uint64): (r: Read<Token>)
    ensures r.Got? ==> |r.rest| < |s|
  {
    match ScanHex(s)
    case NoHex => Fail
    case Hex(v, x, rest) =>
      var sig := Significand(v, x, stale);
      var d := Peek(rest, 0);
      if d == CH_P as int then
        if sig % 2 == 0 then Fail
        else match ReadExponent(rest[1..], x)
          case NoExponent => Fail
          case Exponent(e, rest') =>
            if e < 0 || e > LeadingZeros(sig) then Got(Double(BuildDouble(false, sig, e)), rest')
            else Got(PositiveInt(ShiftLeft(sig, e)), rest')
      else if d == BAR as int || d == COLON as int then
        if x > 0 || sig >= |rest| - 1 then Fail
        else
          var body := rest[1..][..sig];
          Got(if d == BAR as int then Bytes(body) else Str(body), rest[1..][sig..])
      else if sig > 0 && sig % 256 == 0 then Fail
      else Got(PositiveInt(sig), rest)
  }

  datatype Skipped = Stuck | Past(rest: Text)

  /** Close the open containers of `stack`, innermost last; true stands for an array, false for a map. */
  function CloseAll(s: Text, stack: seq<bool>, f: Stale): (r: Skipped)
    ensures r.Past? ==> |r.rest| <= |s| && (stack != [] ==> |r.rest| + 2 <= |s|)
    decreases |s|
  {
    if stack == [] then Past(s)
    else match NextToken(s, f)
      case Fail => Stuck
      case Got(t, rest) =>
        TokenTail(s, f);
        match t
        case Open(list) => if |stack| == 16 then Stuck else CloseAll(rest, stack + [list], f)
        case Close(list) => if stack[|stack| - 1] != list then Stuck else CloseAll(rest, stack[..|stack| - 1], f)
        case End => Stuck
        case _ => CloseAll(rest, stack, f)
  }

  datatype Any = Atom(t: Token) | Container(list: bool, span: Text)

  function NextAny(s: Text, f: Stale): (r: Read<Any>)
    ensures r.Got? ==> |r.rest| < |s|
  {
    match NextToken(s, f)
    case Fail => Fail
    case Got(t, rest) =>
      if !t.Open? then Got(Atom(t), rest)
      else match CloseAll(rest, [t.list], f)
        case Stuck => Fail
        case Past(rest') => Got(Container(t.list, rest[..|rest| - |rest'| - 2]), rest')
  }

  /** Skip values up to and including the end of the entry. */
  function SkipEntry(s: Text, f: Stale): Skipped
    decreases |s|
  {
    match NextAny(s, f)
    case Fail => Stuck
    case Got(v, rest) => if v == Atom(End) then Past(rest) else SkipEntry(rest, f)
  }

  // ----- what is left is a tail of what was there

  predicate Tail(t: Text, s: Text) { |t| <= |s| && t == s[|s| - |t|..] }

  lemma TailTrans(a: Text, b: Text, c: Text)
    requires Tail(a, b) && Tail(b, c)
    ensures Tail(a, c)
  {
  }

  lemma {:induction false} LoopTail(v: uint64, s: Text)
    ensures Tail(HexLoop(v, s).rest, s)
    decreases |s|
  {
    if IsHexDigit(Peek(s, 0)) {
      hide HexLoop;
      if (16 * v) % TWO64 < v {
        LoopStops(v, s);
      } else {
        LoopGoesOn(v, s);
        LoopTail((16 * v) % TWO64 + DigitValue(s[0]), s[1..]);
      }
    }
  }

  lemma ScanTail(s: Text)
    requires ScanHex(s).Hex?
    ensures Tail(ScanHex(s).rest, s)
  {
    if s[0] != ZERO { LoopTail(DigitValue(s[0]), s[1..]); }
  }

  lemma ExponentTail(s: Text, x: nat)
    requires ReadExponent(s, x).Exponent?
    ensures Tail(ReadExponent(s, x).rest, s)
  {
    hide ScanHex;
    ScanTail(if Peek(s, 0) == MINUS as int then s[1..] else s);
  }

  lemma RealTail(s: Text, signed: bool, stale: uint64)
    requires ReadReal(s, signed, stale).Real?
    ensures Tail(ReadReal(s, signed, stale).rest, s)
  {
    hide ScanHex, ReadExponent;
    var t := if signed && Peek(s, 1) == MINUS as int then s[1..][1..] else s[1..];
    assert Tail(t, s);
    if !(INF_TEXT <= t) {
      ScanTail(t);
      var rest := ScanHex(t).rest;
      TailTrans(rest, t, s);
      if Peek(rest, 0) == CH_P as int {
        ExponentTail(rest[1..], ScanHex(t).excess);
        TailTrans(ReadExponent(rest[1..], ScanHex(t).excess).rest, rest[1..], rest);
        TailTrans(ReadExponent(rest[1..], ScanHex(t).excess).rest, rest, s);
      }
    }
  }

  lemma UnsignedTail(s: Text, stale: uint64)
    requires UnsignedToken(s, stale).Got?
    ensures Tail(UnsignedToken(s, stale).rest, s)
  {
    hide ScanHex, ReadExponent;
    ScanTail(s);
    var rest, x := ScanHex(s).rest, ScanHex(s).excess;
    if Peek(rest, 0) == CH_P as int {
      ExponentTail(rest[1..], x);
      TailTrans(ReadExponent(rest[1..], x).rest, rest[1..], rest);
      TailTrans(ReadExponent(rest[1..], x).rest, rest, s);
    } else {
      TailTrans(UnsignedToken(s, stale).rest, rest, s);
    }
  }

  lemma TokenTail(s: Text, f: Stale)
    requires NextToken(s, f).Got?
    ensures Tail(NextToken(s, f).rest, s)
    ensures NextToken(s, f).v.Open? || NextToken(s, f).v.Close? ==> |NextToken(s, f).rest| + 2 == |s|
  {
    hide ReadReal, UnsignedToken;
    if Peek(s, 0) == SP as int {
      var c := Peek(s, 1);
      if c == MINUS as int || c == CH_I as int {
        RealTail(s, true, f(|s|));
      } else if NextToken(s, f) == UnsignedToken(s[1..], f(|s|)) {
        UnsignedTail(s[1..], f(|s|));
        TailTrans(NextToken(s, f).rest, s[1..], s);
        assert !NextToken(s, f).v.Open? && !NextToken(s, f).v.Close? by { UnsignedKinds(s[1..], f(|s|)); }
      }
    }
  }

  lemma UnsignedKinds(s: Text, stale: uint64)
    requires UnsignedToken(s, stale).Got?
    ensures var t := UnsignedToken(s, stale).v; !t.Open? && !t.Close? && !t.End? && !t.Bool?
  {
  }
}
