/** Sending on in C a container that was received: the bytes between its brackets, copied raw between new ones, are the same
    container again, because reading a token depends on no byte behind the space that follows it. */
module Echo {
  import opened Words
  import opened Hex
  import opened Numbers
  import opened Floats
  import opened RealTexts
  import opened Tokens
  import opened SipcFormat
  import opened Messages
  import opened Brackets
  import opened Entries
  import TokenGrammar

  predicate Spaced(q: Text) { Peek(q, 0) == SP as int }

  lemma PeekSame(p: Text, q: Text, r: Text)
    requires Spaced(q) && Spaced(r)
    ensures Peek(p + q, 0) == Peek(p + r, 0) == if p == [] then SP as int else p[0] as int
    ensures p != [] ==> (p + q)[1..] == p[1..] + q && (p + r)[1..] == p[1..] + r
  {
  }

  lemma {:induction false} RunSame(p: Text, q: Text, r: Text)
    requires Spaced(q) && Spaced(r)
    ensures HexRun(p + q) == HexRun(p + r) <= |p|
    decreases |p|
  {
    PeekSame(p, q, r);
    if p != [] { RunSame(p[1..], q, r); }
  }

  /** What two scans share, and what each leaves. */
  predicate SameScan(a: Scan, b: Scan, t: Text, q: Text, r: Text) {
    a.Hex? && b.Hex? && a.v == b.v && a.excess == b.excess && a.rest == t + q && b.rest == t + r
  }

  lemma {:induction false} LoopSame(v: uint64, p: Text, q: Text, r: Text) returns (t: Text)
    requires Spaced(q) && Spaced(r)
    ensures SameScan(HexLoop(v, p + q), HexLoop(v, p + r), t, q, r) && |t| <= |p|
    decreases |p|
  {
    hide HexLoop, HexRun, Spaced;
    PeekSame(p, q, r);
    RunSame(p, q, r);
    if p != [] && IsHexDigit(p[0] as int) {
      if (16 * v) % TWO64 < v {
        LoopStops(v, p + q);
        LoopStops(v, p + r);
        var n := HexRun(p + q);
        t := p[n..];
        assert (p + q)[n..] == t + q && (p + r)[n..] == t + r;
      } else {
        LoopGoesOn(v, p + q);
        LoopGoesOn(v, p + r);
        t := LoopSame((16 * v) % TWO64 + DigitValue(p[0]), p[1..], q, r);
      }
    } else {
      LoopEnds(v, p + q);
      LoopEnds(v, p + r);
      t := p;
    }
  }

  lemma LoopEnds(v: uint64, s: Text)
    requires !IsHexDigit(Peek(s, 0))
    ensures HexLoop(v, s) == Hex(v, 0, s)
  {
  }

  lemma ScanSame(p: Text, q: Text, r: Text) returns (t: Text)
    requires Spaced(q) && Spaced(r)
    ensures ScanHex(p + q) == NoHex <==> ScanHex(p + r) == NoHex
    ensures ScanHex(p + q).Hex? ==> SameScan(ScanHex(p + q), ScanHex(p + r), t, q, r) && |t| < |p|
    ensures |t| <= |p|
  {
    hide HexLoop;
    PeekSame(p, q, r);
    t := [];
    if p != [] && IsHexDigit(p[0] as int) {
      if p[0] == ZERO { t := p[1..]; } else { t := LoopSame(DigitValue(p[0]), p[1..], q, r); }
    }
  }

  lemma ExponentSame(p: Text, q: Text, r: Text, x: nat) returns (t: Text)
    requires Spaced(q) && Spaced(r)
    ensures ReadExponent(p + q, x) == NoExponent <==> ReadExponent(p + r, x) == NoExponent
    ensures var a, b := ReadExponent(p + q, x), ReadExponent(p + r, x);
            a.Exponent? ==> a.e == b.e && a.rest == t + q && b.rest == t + r
    ensures |t| <= |p|
  {
    hide ScanHex;
    PeekSame(p, q, r);
    t := ScanSame(if p != [] && p[0] == MINUS then p[1..] else p, q, r);
  }

  /** A name without a space in it ends before the space. */
  lemma NameSame(p: Text, q: Text, r: Text, name: Text)
    requires Spaced(q) && Spaced(r) && SP !in name
    ensures name <= p + q <==> name <= p
    ensures name <= p + r <==> name <= p
    ensures name <= p ==> (p + q)[|name|..] == p[|name|..] + q && (p + r)[|name|..] == p[|name|..] + r
  {
    assert (p + q)[|p|] == SP && (p + r)[|p|] == SP;
    assert |p| < |name| ==> name[|p|] != SP;
  }

  /** What two number readings share. */
  predicate SameReal(a: RealRead, b: RealRead, t: Text, q: Text, r: Text) {
    && (a.NoReal? <==> b.NoReal?)
    && (a.Real? ==> a.neg == b.neg && a.sig == b.sig && a.exp == b.exp && a.rest == t + q && b.rest == t + r)
  }

  /** What is read behind the sign, which is the bytes of `a` and `b` that `neg` says are left. */
  function Behind(a: Text, neg: bool): Text
    requires neg ==> a != []
  {
    if neg then a[1..] else a
  }

  lemma InfinitySame(a: Text, b: Text, u: Text, q: Text, r: Text, neg: bool, stale: uint64)
    requires neg ==> Peek(a, 0) == MINUS as int && Peek(b, 0) == MINUS as int
    requires Behind(a, neg) == u + q && Behind(b, neg) == u + r && INF_TEXT <= u
    ensures SameReal(ReadMagnitude(a, neg, stale), ReadMagnitude(b, neg, stale), u[3..], q, r)
  {
    hide ScanHex, ReadExponent, Significand;
    assert INF_TEXT <= u + q && INF_TEXT <= u + r;
    assert (u + q)[3..] == u[3..] + q && (u + r)[3..] == u[3..] + r;
  }

  /** The branches behind a significand field. */
  lemma FieldBranches(a: Text, neg: bool, stale: uint64)
    requires (neg ==> Peek(a, 0) == MINUS as int) && !(INF_TEXT <= Behind(a, neg))
    ensures var f := ScanHex(Behind(a, neg));
            && (f.NoHex? ==> ReadMagnitude(a, neg, stale) == NoReal)
            && (f.Hex? ==>
                  var sig := Significand(f.v, f.excess, stale);
                  ReadMagnitude(a, neg, stale) ==
                  if Peek(f.rest, 0) == CH_P as int then
                    if sig % 2 == 0 then NoReal
                    else match ReadExponent(f.rest[1..], f.excess)
                      case NoExponent => NoReal
                      case Exponent(e, rest') => Real(neg, sig, e, rest')
                  else if (if sig > 0 then sig % 256 == 0 else neg) then NoReal
                  else Real(neg, sig, 0, f.rest))
  {
    hide ScanHex, ReadExponent, Significand;
  }

  lemma FiniteSame(a: Text, b: Text, u: Text, q: Text, r: Text, neg: bool, stale: uint64) returns (t: Text)
    requires Spaced(q) && Spaced(r) && (neg ==> Peek(a, 0) == MINUS as int && Peek(b, 0) == MINUS as int)
    requires Behind(a, neg) == u + q && Behind(b, neg) == u + r && !(INF_TEXT <= u + q) && !(INF_TEXT <= u + r)
    ensures SameReal(ReadMagnitude(a, neg, stale), ReadMagnitude(b, neg, stale), t, q, r) && |t| <= |u|
  {
    hide ScanHex, ReadExponent, ReadMagnitude, Significand, Behind, Spaced;
    t := ScanSame(u, q, r);
    FieldBranches(a, neg, stale);
    FieldBranches(b, neg, stale);
    if ScanHex(u + q).Hex? {
      PeekSame(t, q, r);
      if t != [] && t[0] == CH_P { t := ExponentSame(t[1..], q, r, ScanHex(u + q).excess); }
    } else {
      t := [];
    }
  }

  lemma RealSame(p: Text, q: Text, r: Text, neg: bool, stale: uint64) returns (t: Text)
    requires Spaced(q) && Spaced(r) && (neg ==> Peek(p, 0) == MINUS as int)
    ensures Peek(p + q, 0) == Peek(p + r, 0) && (neg ==> Peek(p + q, 0) == MINUS as int)
    ensures SameReal(ReadMagnitude(p + q, neg, stale), ReadMagnitude(p + r, neg, stale), t, q, r) && |t| <= |p|
  {
    hide ReadMagnitude, SameReal;
    PeekSame(p, q, r);
    var u := if neg then p[1..] else p;
    NameSame(u, q, r, INF_TEXT);
    if INF_TEXT <= u {
      InfinitySame(p + q, p + r, u, q, r, neg, stale);
      t := u[3..];
    } else {
      t := FiniteSame(p + q, p + r, u, q, r, neg, stale);
    }
  }

  /** What two readings of a token share: the token, and that each leaves `t` and what was behind. */
  predicate SameToken(a: Read<Token>, b: Read<Token>, t: Text, q: Text, r: Text) {
    a.Got? && b == Got(a.v, t + r) && a.rest == t + q
  }

  lemma SignedSame(p: Text, q: Text, r: Text, stale: uint64) returns (t: Text)
    requires Spaced(q) && Spaced(r) && p != [] && SignedToken(p + q, stale).Got?
    ensures SameToken(SignedToken(p + q, stale), SignedToken(p + r, stale), t, q, r) && |t| < |p|
  {
    hide ReadMagnitude, BuildDouble, ShiftLeft, LeadingZeros;
    PeekSame(p, q, r);
    PeekSame(p[1..], q, r);
    assert Peek(p + q, 1) == Peek((p + q)[1..], 0) && Peek(p + r, 1) == Peek((p + r)[1..], 0);
    t := RealSame(p[1..], q, r, Peek(p[1..], 0) == MINUS as int, stale);
  }

  /** A string that ends before the space: its length leaves it room whatever follows. */
  lemma StringSame(t: Text, q: Text, r: Text, n: nat)
    requires t != [] && r != [] && n < |t + q| - 1 && |(t + q)[1..][n..]| >= |q|
    ensures n < |t + r| - 1 && (t + q)[1..][..n] == (t + r)[1..][..n]
    ensures (t + q)[1..][n..] == t[1..][n..] + q && (t + r)[1..][n..] == t[1..][n..] + r
  {
    assert (t + q)[1..] == t[1..] + q && (t + r)[1..] == t[1..] + r;
  }

  lemma UnsignedSame(p: Text, q: Text, r: Text, stale: uint64) returns (t: Text)
    requires Spaced(q) && Spaced(r) && UnsignedToken(p + q, stale).Got? && |UnsignedToken(p + q, stale).rest| >= |q|
    ensures SameToken(UnsignedToken(p + q, stale), UnsignedToken(p + r, stale), t, q, r) && |t| <= |p|
  {
    hide ScanHex, ReadExponent, BuildDouble, ShiftLeft, LeadingZeros;
    t := ScanSame(p, q, r);
    PeekSame(t, q, r);
    var f := ScanHex(p + q);
    if t != [] && t[0] == CH_P {
      t := ExponentSame(t[1..], q, r, f.excess);
    } else if t != [] && (t[0] == BAR || t[0] == COLON) {
      StringSame(t, q, r, f.v);
      t := t[1..][f.v..];
    }
  }

  predicate IsPunctuation(c: int) {
    c == CH_T as int || c == CH_F as int || c == L_BRACE as int || c == R_BRACE as int || c == L_BRACKET as int || c == R_BRACKET as int
  }

  /** Which branch reads what is neither a bracket nor a letter. */
  lemma Branches(s: Text, f: Stale)
    requires Peek(s, 0) == SP as int
    ensures var c := Peek(s, 1);
            && (c == MINUS as int || c == CH_I as int ==> NextToken(s, f) == SignedToken(s, f(|s|)))
            && (c == CH_N as int ==> NextToken(s, f) == if [SP] + NAN_TEXT <= s then Got(Double(NAN_WORD), s[4..]) else Fail)
            && (c != MINUS as int && c != CH_I as int && c != CH_N as int && !IsPunctuation(c) ==>
                  NextToken(s, f) == UnsignedToken(s[1..], f(|s|)))
  {
    hide SignedToken, UnsignedToken;
  }

  lemma TwoBytesSame(p: Text, q: Text, r: Text, f: Stale, g: Stale)
    requires |p| >= 2 && p[0] == SP && IsPunctuation(p[1] as int)
    ensures SameToken(NextToken(p + q, f), NextToken(p + r, g), p[2..], q, r)
  {
    hide SignedToken, UnsignedToken;
    assert (p + q)[2..] == p[2..] + q && (p + r)[2..] == p[2..] + r;
  }

  lemma EndSame(p: Text, q: Text, r: Text, f: Stale, g: Stale)
    requires p != [] && p[0] == NL
    ensures SameToken(NextToken(p + q, f), NextToken(p + r, g), p[1..], q, r)
  {
    hide SignedToken, UnsignedToken;
    assert (p + q)[1..] == p[1..] + q && (p + r)[1..] == p[1..] + r;
  }

  lemma NanTokenSame(p: Text, q: Text, r: Text, f: Stale, g: Stale)
    requires Spaced(q) && Spaced(r) && p != [] && p[0] == SP && Peek(p + q, 1) == CH_N as int && NextToken(p + q, f).Got?
    ensures |p| >= 4 && SameToken(NextToken(p + q, f), NextToken(p + r, g), p[4..], q, r)
  {
    hide NextToken;
    Branches(p + q, f);
    Branches(p + r, g);
    NanSame(p, q, r);
    assert Peek(p + r, 1) == CH_N as int;
  }

  lemma StartsToken(s: Text, f: Stale)
    requires NextToken(s, f).Got?
    ensures s != [] && (s[0] == NL || s[0] == SP)
  {
    hide SignedToken, UnsignedToken;
  }

  /** The second byte. */
  lemma SecondSame(p: Text, q: Text, r: Text)
    requires Spaced(q) && Spaced(r) && p != []
    ensures Peek(p + q, 1) == Peek(p + r, 1) == if |p| == 1 then SP as int else p[1] as int
  {
    PeekSame(p, q, r);
    PeekSame(p[1..], q, r);
    assert Peek(p + q, 1) == Peek((p + q)[1..], 0) && Peek(p + r, 1) == Peek((p + r)[1..], 0);
  }

  /** A token that starts with a sign or a digit. */
  lemma NumberSame(p: Text, q: Text, r: Text, f: Stale, g: Stale) returns (t: Text)
    requires Spaced(q) && Spaced(r) && p != [] && p[0] == SP && NextToken(p + q, f).Got? && |NextToken(p + q, f).rest| >= |q|
    requires g(|p + r|) == f(|p + q|)
    requires !IsPunctuation(Peek(p + q, 1)) && Peek(p + q, 1) != CH_N as int
    ensures SameToken(NextToken(p + q, f), NextToken(p + r, g), t, q, r) && |t| < |p|
  {
    hide NextToken, SignedToken, UnsignedToken, SameToken;
    SecondSame(p, q, r);
    Branches(p + q, f);
    Branches(p + r, g);
    if Peek(p + q, 1) == MINUS as int || Peek(p + q, 1) == CH_I as int {
      t := SignedSame(p, q, r, f(|p + q|));
    } else {
      PeekSame(p, q, r);
      t := UnsignedSame(p[1..], q, r, f(|p + q|));
    }
  }

  /** A token that ends before a space is the same token whatever follows that space, if the uninitialised local is. */
  lemma TokenSame(p: Text, q: Text, r: Text, f: Stale, g: Stale) returns (t: Text)
    requires Spaced(q) && Spaced(r) && NextToken(p + q, f).Got? && |NextToken(p + q, f).rest| >= |q|
    requires g(|p + r|) == f(|p + q|)
    ensures SameToken(NextToken(p + q, f), NextToken(p + r, g), t, q, r) && |t| < |p|
  {
    hide NextToken, SameToken;
    assert p != [] by { assert [] + q == q; }
    StartsToken(p + q, f);
    PeekSame(p, q, r);
    SecondSame(p, q, r);
    if p[0] == NL {
      EndSame(p, q, r, f, g);
      t := p[1..];
    } else if IsPunctuation(Peek(p + q, 1)) {
      TwoBytesSame(p, q, r, f, g);
      t := p[2..];
    } else if Peek(p + q, 1) == CH_N as int {
      NanTokenSame(p, q, r, f, g);
      t := p[4..];
    } else {
      t := NumberSame(p, q, r, f, g);
    }
  }

  lemma NanSame(p: Text, q: Text, r: Text)
    requires Spaced(q) && Spaced(r) && p != [] && [SP] + NAN_TEXT <= p + q
    ensures |p| >= 4 && [SP] + NAN_TEXT <= p + r && (p + q)[4..] == p[4..] + q && (p + r)[4..] == p[4..] + r
  {
    assert (p + q)[1..] == p[1..] + q && NAN_TEXT == ([SP] + NAN_TEXT)[1..] == (p + q)[..4][1..] == (p + q)[1..][..3];
    NameSame(p[1..], q, r, NAN_TEXT);
    assert p[0] == (p + q)[0];
    assert (p + r)[..4] == [SP] + NAN_TEXT;
  }

  /** With `a` bytes to the end or up to `n` more, the uninitialised local holds what it held with `b` and as many more. */
  ghost predicate SameStale(f: Stale, a: nat, g: Stale, b: nat, n: nat) {
    forall i: nat, j: nat :: a <= i <= a + n && i - a == j - b ==> f(i) == g(j)
  }

  /** The same for any number of tokens, each of which sees as many bytes less to the end. */
  lemma {:induction false} LexesSame(p: Text, q: Text, r: Text, ts: seq<Token>, f: Stale, g: Stale)
    requires Spaced(q) && Spaced(r) && Lexes(p + q, ts, q, f)
    requires SameStale(f, |q|, g, |r|, |p|)
    ensures Lexes(p + r, ts, r, g)
    decreases |ts|
  {
    hide NextToken;
    if ts == [] {
      assert p == [];
      assert p + r == r;
    } else {
      var a := NextToken(p + q, f);
      LexesTail(a.rest, ts[1..], q, f);
      assert g(|p + r|) == f(|p + q|);
      var t := TokenSame(p, q, r, f, g);
      LexesSame(t, q, r, ts[1..], f, g);
    }
  }

  /** A container read by `sipc_any`, written as a bracket, the bytes of its span and the closing bracket, is read as the same
      container, whatever comes behind, if the uninitialised local holds the same as before. */
  lemma EchoReadsBack(s: Text, f: Stale, list: bool, span: Text, rest: Text, more: Text, g: Stale)
    requires NextAny(s, f) == Got(Container(list, span), rest)
    requires SameStale(f, 2 + |rest|, g, 2 + |more|, |span|)
    ensures NextAny(OpenText(list) + span + CloseText(list) + more, g) == Got(Container(list, span), more)
  {
    hide NextToken, NextAny, Lexes, Flatten, Brackets.Proper;
    var n := AnyNode(s, f);
    var inner := n.items;
    var body, within := ContainerStands(s, list, inner, rest, f);
    OneSpan(list, within, span, rest);
    var mid := LexesPrefix(body, Flatten(inner), [Close(list)], rest, f);
    LexesOne(mid, Close(list), rest, f);
    CloseIsTwoBytes(mid, list, rest, f);
    OpenIsTwoBytes(s, list, body, f);
    BodySplit(OpenText(list), body, span, CloseText(list), rest);
    var q, r := CloseText(list) + rest, CloseText(list) + more;
    LexesSame(span, q, r, Flatten(inner), f, g);
    NewBrackets(list, inner, span, more, g);
  }

  lemma BodySplit(open: Text, body: Text, span: Text, c: Text, rest: Text)
    requires open + body == open + span + c + rest
    ensures body == span + (c + rest)
  {
    assert body == (open + body)[|open|..];
    assert span + (c + rest) == (open + span + c + rest)[|open|..];
  }

  lemma NewBrackets(list: bool, inner: seq<Node>, span: Text, more: Text, g: Stale)
    requires Brackets.Proper(inner) && NodeDepth(Nest(list, inner)) <= 16
    requires Lexes(span + (CloseText(list) + more), Flatten(inner), CloseText(list) + more, g)
    ensures NextAny(OpenText(list) + span + CloseText(list) + more, g) == Got(Container(list, span), more)
  {
    hide NextToken, NextAny, Lexes, Flatten, Brackets.Proper;
    var s, body := OpenText(list) + span + CloseText(list) + more, span + (CloseText(list) + more);
    Assoc(OpenText(list), span, CloseText(list));
    Assoc(OpenText(list), span + CloseText(list), more);
    Assoc(span, CloseText(list), more);
    TokenGrammar.TwoByteToken(s, Open(list), body, g);
    TokenGrammar.TwoByteToken(CloseText(list) + more, Close(list), more, g);
    LexesOne(s, Open(list), body, g);
    LexesOne(CloseText(list) + more, Close(list), more, g);
    LexesAppend(body, Flatten(inner), CloseText(list) + more, [Close(list)], more, g);
    LexesAppend(s, [Open(list)], body, Flatten(inner) + [Close(list)], more, g);
    assert [Open(list)] + (Flatten(inner) + [Close(list)]) == FlattenNode(Nest(list, inner));
    NodeRead(s, Nest(list, inner), Container(list, span), more, g);
  }

  /** The pieces of ` [%.*s ]`, or of ` {%.*s }`. */
  function EchoItems(list: bool, span: Text): seq<Item> {
    [Raw(SP), Raw(if list then L_BRACKET else L_BRACE), Copy(span), Raw(SP), Raw(if list then R_BRACKET else R_BRACE)]
  }

  lemma CopyPrinted(span: Text, at: nat, before: Text)
    ensures !Copy(span).Bad() && Printed(Copy(span), at, before) == span
  {
  }

  /** They print that bracket, the span and the closing bracket. */
  lemma EchoPrinted(list: bool, span: Text, at: nat, before: Text)
    ensures AllGood(EchoItems(list, span))
    ensures Output(EchoItems(list, span), at, before) == OpenText(list) + span + CloseText(list)
  {
    hide Printed, Output, AllGood;
    var open, close := if list then L_BRACKET else L_BRACE, if list then R_BRACKET else R_BRACE;
    var n := |span|;
    CopyPrinted(span, at + 2, before);
    OutputOne(Raw(open), at + 1, before);
    OutputPair(SP, Raw(open), at, before);
    OutputOne(Copy(span), at + 2, before);
    OutputOne(Raw(close), at + 2 + n + 1, before);
    OutputPair(SP, Raw(close), at + 2 + n, before);
    OutputAppend([Raw(SP), Raw(open)], [Copy(span)], at, before);
    OutputAppend([Raw(SP), Raw(open)] + [Copy(span)], [Raw(SP), Raw(close)], at, before);
    assert EchoItems(list, span) == [Raw(SP), Raw(open)] + [Copy(span)] + [Raw(SP), Raw(close)];
    assert [SP] + [open] == OpenText(list) && [SP] + [close] == CloseText(list);
  }
}
