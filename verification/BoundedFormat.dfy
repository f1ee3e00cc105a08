/** `format_arg` and the two-phase bounded formatter `sipc_vformat`. */
module BoundedFormat {
  import opened Words
  import opened Hex
  import opened Numbers
  import opened Tokens
  import opened SipcFormat

  // ----- no atom is longer than twenty bytes

  lemma WordDigits(v: uint64)
    ensures |HexDigits(v)| <= 16
    ensures v < 0x100_0000_0000_0000 ==> |HexDigits(v)| <= 14
    ensures v < 0x1_0000_0000 ==> |HexDigits(v)| <= 8
    ensures v < 0x1000 ==> |HexDigits(v)| <= 3
    ensures v < 0x100 ==> |HexDigits(v)| <= 2
  {
    Pow2Values();
    assert Pow2(56) == 0x100_0000_0000_0000 by { Pow2Add(52, 4); }
    DigitsLength(v, 16);
    DigitsLength(v, 14);
    DigitsLength(v, 8);
    DigitsLength(v, 3);
    DigitsLength(v, 2);
  }

  lemma MagnitudeBound(neg: bool, v: uint64)
    ensures |Spell(OfMagnitude(neg, v))| <= (if neg then 1 else 0) + 17
  {
    hide Spell, HexDigits, Pow2, TrailingZeros, OddPart;
    MagnitudeText(neg, v);
    WordDigits(v);
    if v > 0 && TrailingZeros(v) >= 8 {
      WordDigits(OddPart(v));
      WordDigits(TrailingZeros(v));
    }
  }

  lemma DoubleBound(u: uint64)
    ensures |Spell(OfDouble(u))| <= MAX_ATOM_SIZE
  {
    hide Spell, HexDigits, Pow2, TrailingZeros, NormalText;
    DoubleCases(u);
    if IsNormal(u) {
      var m := TWO52 + Fraction(u);
      var sig, exp := OddPart(m), ExponentBits(u) - 1023 - 52 + TrailingZeros(m);
      DoubleText(u, sig, exp);
      if 0 <= exp < 8 {
        WordDigits(sig * Pow2(exp));
      } else {
        WordDigits(sig);
        WordDigits(if exp < 0 then -exp else exp);
      }
    }
  }

  lemma FourteenDigits()
    ensures |HexDigits(TWO52 + 1)| == 14 && |HexDigits(1074)| == 3
  {
    Pow2Values();
    Pow2Less(52, 56);
    DigitsLength(TWO52 + 1, 14);
    DigitsLength(TWO52 + 1, 13);
    DigitsLength(1074, 3);
    DigitsLength(1074, 2);
  }

  /** The bound is met: minus 10000000000001p-432 takes all twenty bytes. */
  lemma BoundIsTight()
    ensures exists u: uint64 :: |Spell(OfDouble(u))| == MAX_ATOM_SIZE
  {
    hide Spell, HexDigits, Pow2, NormalText, OfDouble;
    var u := Assemble(true, 1, 1);
    DoubleCases(u);
    var m := TWO52 + 1;
    assert OddPart(m) == m && TrailingZeros(m) == 0;
    DoubleText(u, m, -1074);
    FourteenDigits();
    assert |Spell(OfDouble(u))| == MAX_ATOM_SIZE;
  }

  /** A numeric or single-character piece. */
  predicate IsShort(x: Item) {
    match x
    case Raw(_) => true
    case Flag(_) => true
    case Signed64(_) => true
    case Unsigned64(_) => true
    case Float(_) => true
    case AnyItem(v) => v.Atom? && (v.t.Bool? || v.t.PositiveInt? || v.t.NegativeInt? || v.t.Double?)
    case _ => false
  }

  /** Every numeric or single-character piece is known, and twenty bytes hold it. */
  lemma AtomBound(x: Item)
    requires IsShort(x)
    ensures !x.Bad() && |ItemText(x, 0)| <= MAX_ATOM_SIZE
  {
    hide Spell, OfMagnitude, OfDouble;
    match x
    case Signed64(i) => IntBound(i);
    case Unsigned64(n) => IntBound(n);
    case Float(u) => DoubleBound(u);
    case AnyItem(v) =>
      if v.t.PositiveInt? || v.t.NegativeInt? {
        MagnitudeBound(false, v.t.n);
      } else if v.t.Double? {
        DoubleBound(v.t.u);
      }
    case _ =>
  }

  lemma IntBound(v: int)
    requires -TWO63 <= v < TWO64
    ensures |Spell(OfInt(v))| <= MAX_ATOM_SIZE
  {
    hide Spell, OfMagnitude;
    MagnitudeBound(v < 0, if v < 0 then -v else v);
  }

  // ----- one argument

  /** If `t` fits in `room` bytes from `at`, it is written there; if not, nothing outside them changes. */
  predicate WroteIfRoom(before: Text, after: Text, at: nat, room: nat, t: Text) {
    && at + room <= |before| == |after|
    && if |t| <= room then Wrote(before, after, at, t)
       else forall i :: 0 <= i < |before| && !(at <= i < at + room) ==> after[i] == before[i]
  }

  lemma FitsRoom(before: Text, after: Text, at: nat, room: nat, t: Text)
    requires Wrote(before, after, at, t) && |t| <= room && at + room <= |before|
    ensures WroteIfRoom(before, after, at, room, t)
  {
  }

  /** Copy a string's bytes into the buffer. */
  method CopyBytes(p: array<byte>, at: nat, s: Text)
    requires at + |s| <= p.Length
    modifies p
    ensures Wrote(old(p[..]), p[..], at, s)
  {
    forall i | 0 <= i < |s| { p[at + i] := s[i]; }
    assert p[..][at..at + |s|] == s;
  }

  method FormatString(p: array<byte>, at: nat, room: nat, delim: byte, s: Text) returns (n: nat)
    requires MAX_ATOM_SIZE <= room && at + room <= p.Length && |s| <= INT_MAX
    modifies p
    ensures n == |SizedText(delim, s)| && WroteIfRoom(old(p[..]), p[..], at, room, SizedText(delim, s))
  {
    hide HexDigits;
    WordDigits(|s|);
    ghost var a := p[..];
    var i := FormatHex(p, at, |s|);
    ghost var b := p[..];
    Put(p, at + i, delim);
    ghost var c := p[..];
    WroteTwice(a, b, c, at, HexDigits(|s|), [delim]);
    i := i + 1;
    if i + |s| <= room {
      CopyBytes(p, at + i, s);
      WroteTwice(a, c, p[..], at, HexDigits(|s|) + [delim], s);
    }
    n := i + |s|;
  }

  method FormatArray(p: array<byte>, at: nat, room: nat, list: bool, span: Text) returns (n: nat)
    requires at + room <= p.Length
    modifies p
    ensures n == |SpanText(list, span)| && WroteIfRoom(old(p[..]), p[..], at, room, SpanText(list, span))
  {
    n := 2 + |span| + 1;
    if n <= room {
      hide Wrote;
      ghost var a := p[..];
      Put(p, at, if list then L_BRACKET else L_BRACE);
      ghost var b := p[..];
      Put(p, at + 1, SP);
      ghost var c := p[..];
      CopyBytes(p, at + 2, span);
      ghost var d := p[..];
      Put(p, at + 2 + |span|, if list then R_BRACKET else R_BRACE);
      ghost var e := p[..];
      BracketsWritten(a, b, c, d, e, at, list, span);
      FitsRoom(a, e, at, room, SpanText(list, span));
    }
  }

  lemma BracketsWritten(a: Text, b: Text, c: Text, d: Text, e: Text, at: nat, list: bool, span: Text)
    requires Wrote(a, b, at, [if list then L_BRACKET else L_BRACE]) && Wrote(b, c, at + 1, [SP]) && Wrote(c, d, at + 2, span)
    requires Wrote(d, e, at + 2 + |span|, [if list then R_BRACKET else R_BRACE])
    ensures Wrote(a, e, at, SpanText(list, span))
  {
    hide Wrote;
    var open, close := [if list then L_BRACKET else L_BRACE], [if list then R_BRACKET else R_BRACE];
    WroteTwice(a, b, c, at, open, [SP]);
    WroteTwice(a, c, d, at, open + [SP], span);
    WroteTwice(a, d, e, at, open + [SP] + span, close);
    assert open + [SP] + span + close == SpanText(list, span);
  }

  /** The raw copy `%.*s`. */
  method FormatCopy(p: array<byte>, at: nat, room: nat, s: Text) returns (n: nat)
    requires at + room <= p.Length
    modifies p
    ensures n == |s| && WroteIfRoom(old(p[..]), p[..], at, room, s)
  {
    if |s| <= room {
      CopyBytes(p, at, s);
    }
    n := |s|;
  }

  /** One formatting argument: -1 for a piece it does not know, else the length of its text, written if it fits. */
  method FormatArg(p: array<byte>, at: nat, room: nat, x: Item) returns (n: int)
    requires MAX_ATOM_SIZE <= room && at + room <= p.Length && x.Proper()
    modifies p
    ensures x.Bad() ==> n == -1 && p[..] == old(p[..])
    ensures !x.Bad() ==> n == |ItemText(x, 0)| && WroteIfRoom(old(p[..]), p[..], at, room, Printed(x, at, old(p[..])))
  {
    hide Spell, Wrote, WroteIfRoom, OfMagnitude, OfDouble;
    ghost var a := p[..];
    if IsShort(x) { AtomBound(x); }
    match x
    case Unknown =>
      return -1;
    case Raw(c) =>
      Put(p, at, c);
      n := 1;
      FitsRoom(a, p[..], at, room, [c]);
    case Flag(b) =>
      Put(p, at, if b then CH_T else CH_F);
      n := 1;
      FitsRoom(a, p[..], at, room, FlagText(b));
    case Signed64(i) =>
      n := FormatInt64(p, at, i);
      FitsRoom(a, p[..], at, room, ItemText(x, 0));
    case Unsigned64(v) =>
      n := FormatUint64(p, at, v);
      FitsRoom(a, p[..], at, room, ItemText(x, 0));
    case Float(u) =>
      n := FormatDouble(p, at, u);
      FitsRoom(a, p[..], at, room, ItemText(x, 0));
    case Sized(delim, s) =>
      n := FormatString(p, at, room, delim, s);
    case Copy(s) =>
      n := FormatCopy(p, at, room, s);
    case AnyItem(v) =>
      n := FormatAny(p, at, room, v);
  }

  /** A negative integer's digits over its sign, one byte short of what is counted. */
  method FormatNegative(p: array<byte>, at: nat, room: nat, m: uint64) returns (n: int)
    requires MAX_ATOM_SIZE <= room && at + room <= p.Length
    modifies p
    ensures var x := AnyItem(Atom(NegativeInt(m)));
            n == |ItemText(x, 0)| && WroteIfRoom(old(p[..]), p[..], at, room, Printed(x, at, old(p[..])))
  {
    hide Spell, Wrote, WroteIfRoom, OfMagnitude;
    ghost var a := p[..];
    AtomBound(AnyItem(Atom(NegativeInt(m))));
    Put(p, at, MINUS);
    ghost var b := p[..];
    n := FormatUint64(p, at, m);
    SpelledSize(OfInt(m));
    WroteOver(a, b, p[..], at, MINUS, Spell(OfInt(m)));
    WroteBehind(a, p[..], at, Spell(OfInt(m)));
    n := 1 + n;
    FitsRoom(a, p[..], at, room, TokenText(NegativeInt(m), a[at + n - 1]));
  }

  /** The `%p` argument. */
  method FormatAny(p: array<byte>, at: nat, room: nat, v: Any) returns (n: int)
    requires MAX_ATOM_SIZE <= room && at + room <= p.Length && AnyItem(v).Proper()
    modifies p
    ensures AnyItem(v).Bad() ==> n == -1 && p[..] == old(p[..])
    ensures !AnyItem(v).Bad() ==>
              n == |ItemText(AnyItem(v), 0)| && WroteIfRoom(old(p[..]), p[..], at, room, Printed(AnyItem(v), at, old(p[..])))
  {
    hide Spell, Wrote, WroteIfRoom, OfMagnitude, OfDouble;
    ghost var a := p[..];
    if IsShort(AnyItem(v)) { AtomBound(AnyItem(v)); }
    match v
    case Container(list, span) =>
      n := FormatArray(p, at, room, list, span);
    case Atom(t) =>
      match t {
        case Bool(b) =>
          Put(p, at, if b then CH_T else CH_F);
          n := 1;
          FitsRoom(a, p[..], at, room, FlagText(b));
        case PositiveInt(m) =>
          n := FormatUint64(p, at, m);
          FitsRoom(a, p[..], at, room, TokenText(t, 0));
        case NegativeInt(m) =>
          n := FormatNegative(p, at, room, m);
        case Double(u) =>
          n := FormatDouble(p, at, u);
          FitsRoom(a, p[..], at, room, TokenText(t, 0));
        case Str(s) =>
          n := FormatString(p, at, room, COLON, s);
        case Bytes(s) =>
          n := FormatString(p, at, room, BAR, s);
        case _ =>
          n := -1;
      }
  }

  // ----- the whole format

  lemma OutputPrefix(items: seq<Item>, k: nat, before: Text)
    requires k < |items| && AllGood(items[..k + 1])
    ensures AllGood(items[..k]) && !items[k].Bad()
    ensures var o := Output(items[..k], 0, before);
            Output(items[..k + 1], 0, before) == o + Printed(items[k], |o|, before)
  {
    hide Printed;
    assert items[..k + 1][..k] == items[..k];
    assert items[k] in items[..k + 1];
    forall x | x in items[..k] ensures x in items[..k + 1] {
      assert items[..k + 1] == items[..k] + [items[k]];
    }
  }

  lemma GoodPrefix(items: seq<Item>, k: nat)
    requires k < |items| && AllGood(items[..k]) && !items[k].Bad()
    ensures AllGood(items[..k + 1])
  {
    assert items[..k + 1] == items[..k] + [items[k]];
  }

  /** What `sipc_vformat` answers for an ideal output of length `len`. */
  function Answer(len: nat, bufsz: int): int {
    if len + MAX_ATOM_SIZE < bufsz then len else if len + 1 > bufsz then len + 1 else bufsz + 1
  }

  predicate TakesArgument(x: Item) { !x.Raw? && !x.Unknown? }

  /** A raw copy that is not written leaves its string among the arguments, so none may be asked for after it. It is written
      if it is short, or if it fits while the output still goes to the buffer. */
  predicate Consumed(items: seq<Item>, k: nat, bufsz: int)
    requires k < |items| && AllGood(items[..k])
  {
    var x, len := items[k], |Output(items[..k], 0, [])|;
    || !x.Copy? || |x.s| <= MAX_ATOM_SIZE
    || (len + MAX_ATOM_SIZE < bufsz && len + |x.s| <= bufsz)
    || forall j :: k < j < |items| ==> !TakesArgument(items[j])
  }

  /** Never writes outside the buffer; answers -1 exactly if a piece is unknown; with twenty bytes to spare the buffer
      holds exactly the ideal output and a terminating zero, and otherwise the answer is larger than the buffer. */
  method VFormat(p: array<byte>, bufsz: int, items: seq<Item>) returns (ret: int)
    requires bufsz <= p.Length && forall x :: x in items ==> x.Proper()
    requires forall k :: 0 <= k < |items| && AllGood(items[..k]) ==> Consumed(items, k, bufsz)
    modifies p
    ensures forall i :: 0 <= i < p.Length && bufsz <= i ==> p[i] == old(p[i])
    ensures !AllGood(items) ==> ret == -1
    ensures AllGood(items) ==>
              var out := Output(items, 0, old(p[..]));
              && ret == Answer(|out|, bufsz)
              && (|out| + MAX_ATOM_SIZE < bufsz ==> p[..|out|] == out && p[|out|] == 0 && p[|out| + 1..] == old(p[|out| + 1..]))
  {
    hide ItemText, Printed, Output, WroteIfRoom, Consumed;
    ghost var before := p[..];
    var sz := 0;
    var k := 0;
    OutputOfNone(before);
    assert items[..0] == [];
    while sz + MAX_ATOM_SIZE < bufsz
      invariant k <= |items| && AllGood(items[..k]) && sz == |Output(items[..k], 0, before)|
      invariant forall i :: 0 <= i < p.Length && bufsz <= i ==> p[i] == before[i]
      invariant sz <= bufsz ==> p[..sz] == Output(items[..k], 0, before) && p[sz..] == before[sz..]
      decreases |items| - k
    {
      if k == |items| {
        p[sz] := 0;
        assert items[..k] == items;
        return sz;
      }
      ghost var now := p[..];
      var n := FormatArg(p, sz, bufsz - sz, items[k]);
      if n < 0 {
        assert items[k] in items;
        return -1;
      }
      GoodPrefix(items, k);
      OutputPrefix(items, k, before);
      PrintedBehind(items[k], sz, now, before);
      KeepsPrefix(now, p[..], sz, bufsz - sz, Printed(items[k], sz, now));
      sz := sz + n;
      k := k + 1;
    }
    ghost var kept := p[..];
    while k < |items|
      invariant k <= |items| && AllGood(items[..k]) && sz == |Output(items[..k], 0, before)| && sz + MAX_ATOM_SIZE >= bufsz
      invariant p[..] == kept
    {
      var dummy := new byte[MAX_ATOM_SIZE + 1](_ => 0);
      var n := FormatArg(dummy, 0, MAX_ATOM_SIZE, items[k]);
      if n < 0 {
        assert items[k] in items;
        return -1;
      }
      GoodPrefix(items, k);
      OutputPrefix(items, k, before);
      PrintedLength(items[k], sz, before);
      sz := sz + n;
      k := k + 1;
    }
    assert items[..k] == items;
    sz := sz + 1;
    return if sz > bufsz then sz else bufsz + 1;
  }

  lemma OutputOfNone(before: Text)
    ensures Output([], 0, before) == []
  {
  }

  /** A piece written behind the output so far extends it and leaves alone what is behind it. */
  lemma KeepsPrefix(before: Text, after: Text, at: nat, room: nat, t: Text)
    requires WroteIfRoom(before, after, at, room, t)
    ensures |t| <= room ==> after[..at + |t|] == before[..at] + t && after[at + |t|..] == before[at + |t|..]
    ensures forall i :: at + room <= i < |before| ==> after[i] == before[i]
  {
    if |t| <= room {
      assert after[..at] == before[..at];
      assert after[..at + |t|] == after[..at] + after[at..at + |t|];
    }
  }

  /** What a caller can tell from the answer: the output was written exactly if the answer is below the buffer's size, and is
      then the output's length; if not, the answer is the least number above both the buffer's size and that length. */
  lemma AnswerTells(len: nat, bufsz: int, m: int)
    ensures var n := Answer(len, bufsz);
            if len + MAX_ATOM_SIZE < bufsz then n == len < bufsz
            else n > bufsz && n > len && (m > bufsz && m > len ==> m >= n)
  {
  }

  /** The answer to a buffer that is too small is not enough: a second call with that size succeeds exactly when
      the first buffer fell short by nothing but the twenty spare bytes. */
  lemma RetryWithAnswer(len: nat, bufsz: int)
    requires len + MAX_ATOM_SIZE >= bufsz
    ensures Answer(len, Answer(len, bufsz)) == len <==> bufsz == len + MAX_ATOM_SIZE
  {
  }

  /** How often a caller calls that starts with `bufsz` bytes and takes each answer for the next size. */
  function Calls(len: nat, bufsz: int): nat
    decreases len + MAX_ATOM_SIZE + 1 - bufsz
  {
    if len + MAX_ATOM_SIZE < bufsz then 1 else 1 + Calls(len, Answer(len, bufsz))
  }

  /** One call if there is room; else as many more as it takes to grow by single bytes from one above the larger of the size and
      the length to twenty-one above the length, so that a caller that starts with nothing calls twenty-two times. */
  lemma {:induction false} CallsNeeded(len: nat, bufsz: int)
    ensures Calls(len, bufsz) == if len + MAX_ATOM_SIZE < bufsz then 1
                                 else if bufsz <= len then MAX_ATOM_SIZE + 2
                                 else len + MAX_ATOM_SIZE + 2 - bufsz
    decreases len + MAX_ATOM_SIZE + 1 - bufsz
  {
    if len + MAX_ATOM_SIZE >= bufsz { CallsNeeded(len, Answer(len, bufsz)); }
  }
}
