/** The C parser object. Every byte is read through `At`, which refuses the bytes from `end` on, so verification of
    these methods is the proof that no reader looks past the final newline. */
module SipcParser {
  import opened Words
  import opened Hex
  import opened Numbers
  import opened Floats
  import opened RealTexts
  import opened Readers
  import opened Tokens

  class Parser {
    var buf: Text
    var next: nat
    var end: nat
    const stale: Stale

    /** `next` is in the buffer, the buffer's last byte is a newline, and its size fits an int. */
    ghost predicate Valid()
      reads this
    {
      next <= end <= |buf| && end <= INT_MAX && 0 < end && buf[end - 1] == NL
    }

    /** The bytes left to read. */
    ghost function Rest(): (s: Text)
      reads this
      requires Valid()
      ensures |s| == end - next
      ensures s != [] ==> s[|s| - 1] == NL
    {
      buf[next..end]
    }

    /** Reading never changes the buffer, and only moves forward. */
    twostate predicate Moved()
      reads this
    {
      Valid() && buf == old(buf) && end == old(end) && old(next) <= next
    }

    function At(k: nat): (c: byte)
      reads this
      requires Valid() && next + k < end
      ensures c as int == Peek(Rest(), k)
      ensures c != NL ==> next + k + 1 < end
    {
      buf[next + k]
    }

    /** The next `n` bytes: the pointer and length handed to the caller. */
    function Slice(n: nat): (s: Text)
      reads this
      requires Valid() && next + n <= end
      ensures s == Rest()[..n]
    {
      buf[next..next + n]
    }

    method Advance(k: nat)
      requires Valid() && next + k <= end
      modifies this`next
      ensures Moved() && next == old(next) + k && Rest() == old(Rest())[k..]
    {
      next := next + k;
    }

    constructor (stale: Stale)
      ensures this.stale == stale
    {
      this.stale := stale;
    }

    /** `sipc_init`: accepts exactly the buffers that end in a newline. */
    method Init(b: Text)
      returns (ret: int)
      requires |b| <= INT_MAX
      modifies this
      ensures ret == 0 <==> |b| >= 1 && b[|b| - 1] == NL
      ensures ret == 0 ==> Valid() && Rest() == b
    {
      if |b| < 1 || b[|b| - 1] != NL {
        return -1;
      }
      buf, next, end := b, 0, |b|;
      return 0;
    }

    // ----- numbers

    /** The two table lookups on the next byte. */
    predicate HexAt()
      reads this
      requires Valid() && next < end
      ensures HexAt() <==> IsHexDigit(Peek(Rest(), 0))
    {
      TablesMatch(At(0));
      TableValid(At(0))
    }

    function HexValueAt(): (v: nat)
      reads this
      requires Valid() && next < end
      ensures HexAt() ==> v == DigitValue(Rest()[0])
    {
      TablesMatch(At(0));
      TableValue(At(0)) as int
    }

    /** On overflow `v` keeps what the caller's variable held. */
    method ParseHex(unset: uint64) returns (ret: int, v: uint64)
      requires Valid() && next < end
      modifies this`next
      ensures Moved()
      ensures match ScanHex(old(Rest()))
              case NoHex => ret == -1
              case Hex(w, x, rest) => ret == x && v == Significand(w, x, unset) && Rest() == rest && next < end
    {
      hide HexAt, HexValueAt, HexRun, ShiftLeft, Rest;
      ghost var s := Rest();
      var ch, valid, value := At(0), HexAt(), HexValueAt();
      Advance(1);
      if ch == ZERO {
        return 0, 0;
      } else if !valid {
        return -1, unset;
      }
      v := value;
      while HexAt()
        invariant Moved() && next < end && next > old(next)
        invariant HexLoop(v, Rest()) == ScanHex(s)
        decreases end - next
      {
        var n := ShiftLeft(v, 4);
        ShiftFour(v);
        if n < v {
          ret := CountExcess();
          return ret, unset;
        }
        v := n + HexValueAt();
        Advance(1);
      }
      return 0, v;
    }

    /** Skip the digits that no longer fit, counting their bits. */
    method CountExcess() returns (ret: int)
      requires Valid() && next < end && HexAt()
      modifies this`next
      ensures Moved() && next < end && ret >= 4
      ensures ret == 4 * HexRun(old(Rest())) && Rest() == old(Rest())[HexRun(old(Rest()))..]
    {
      hide HexAt, HexRun, Rest;
      ghost var s := Rest();
      ret := 0;
      ghost var k := 0;
      RunStep(s);
      while true
        invariant Moved() && next < end && HexAt()
        invariant k <= |s| && Rest() == s[k..] && ret == 4 * k && HexRun(s) == k + HexRun(Rest())
        decreases end - next
      {
        RunStep(Rest());
        assert s[k..][1..] == s[k + 1..];
        ret := ret + 4;
        Advance(1);
        k := k + 1;
        RunStep(Rest());
        if !HexAt() { break; }
      }
    }

    method ParseExponent(overflow: nat) returns (ret: int, exp: int)
      requires Valid() && next < end && At(0) == CH_P
      modifies this`next
      ensures Moved()
      ensures match ReadExponent(old(Rest())[1..], overflow)
              case NoExponent => ret == -1
              case Exponent(e, rest) => ret == 0 && exp == e && Rest() == rest && next < end
    {
      hide ScanHex, Rest;
      Advance(1);
      var expneg := At(0) == MINUS;
      if expneg { Advance(1); }
      var excess, u := ParseHex(0);
      if excess < 0 {
        return -1, 0;
      }
      if excess > 0 || (u + overflow) % TWO64 > INT_MAX {
        return 0, if expneg then INT_MIN else INT_MAX;
      }
      return 0, if expneg then -((u + overflow) % TWO64) else (u + overflow) % TWO64;
    }

    method HaveNan() returns (b: bool)
      requires Valid() && next < end
      modifies this`next
      ensures Moved() && (b ==> next < end)
      ensures b <==> [SP] + NAN_TEXT <= old(Rest())
      ensures Rest() == if b then old(Rest())[4..] else old(Rest())
    {
      if At(0) == SP && At(1) == CH_N && At(2) == 0x61 && At(3) == CH_N {
        assert Rest()[..4] == [SP] + NAN_TEXT;
        Advance(4);
        return true;
      }
      return false;
    }

    method HaveInf() returns (b: bool)
      requires Valid() && next < end
      modifies this`next
      ensures Moved() && next < end
      ensures b <==> INF_TEXT <= old(Rest())
      ensures Rest() == if b then old(Rest())[3..] else old(Rest())
    {
      if At(0) == CH_I && At(1) == CH_N && At(2) == 0x66 {
        assert Rest()[..3] == INF_TEXT;
        Advance(3);
        return true;
      }
      return false;
    }

    method ParseReal(signed: bool, unset: uint64) returns (ret: int, neg: bool, sig: uint64, exp: int)
      requires Valid() && next < end
      modifies this`next
      ensures Moved()
      ensures match ReadReal(old(Rest()), signed, unset)
              case NoReal => ret != 0
              case Real(n, g, e, rest) => ret == 0 && neg == n && sig == g && exp == e && Rest() == rest && next < end
    {
      hide ScanHex, ReadExponent, Rest, ReadMagnitude;
      neg, sig, exp := false, unset, 0;
      if At(0) != SP {
        return -1, neg, sig, exp;
      }
      assert Peek(Rest(), 1) == Peek(Rest()[1..], 0);
      Advance(1);
      if signed {
        neg := At(0) == MINUS;
      }
      ret, sig, exp := ParseMagnitude(neg, unset);
    }

    /** The rest of `parse_real`, from the sign. */
    method ParseMagnitude(neg: bool, unset: uint64) returns (ret: int, sig: uint64, exp: int)
      requires Valid() && next < end && (neg ==> At(0) == MINUS)
      modifies this`next
      ensures Moved()
      ensures match ReadMagnitude(old(Rest()), neg, unset)
              case NoReal => ret != 0
              case Real(n, g, e, rest) => ret == 0 && neg == n && sig == g && exp == e && Rest() == rest && next < end
    {
      hide ScanHex, ReadExponent, Rest;
      sig, exp := unset, 0;
      if neg { Advance(1); }
      var inf := HaveInf();
      if inf {
        return 0, 1, INT_MAX;
      }
      var overflow;
      overflow, sig := ParseHex(unset);
      if overflow < 0 {
        return -1, sig, exp;
      }
      if At(0) == CH_P {
        if sig % 2 == 0 {
          return -1, sig, exp;
        }
        ret, exp := ParseExponent(overflow);
      } else {
        ret := if (if sig != 0 then sig % 256 == 0 else neg) then 1 else 0;
      }
    }

    method Int64(unset: uint64) returns (ret: int, v: int64)
      requires Valid() && next < end
      modifies this`next
      ensures Moved()
      ensures match ReadInt64(old(Rest()), unset)
              case Fail => ret == -1
              case Got(w, rest) => ret == 0 && v == w && Rest() == rest && next < end
    {
      hide ReadReal, ShiftLeft, LeadingZeros, Rest;
      var neg, sig, exp;
      ret, neg, sig, exp := ParseReal(true, unset);
      if ret != 0 {
        return -1, 0;
      }
      if sig != 0 {
        if exp < 0 || LeadingZeros(sig) < exp {
          return -1, 0;
        }
        var w: int := ShiftLeft(sig, exp);
        if (w - if neg then 1 else 0) % TWO64 >= TWO63 {
          return -1, 0;
        }
        return 0, if neg then ToInt64(-w) else ToInt64(w);
      }
      return 0, 0;
    }

    method Uint64(unset: uint64) returns (ret: int, v: uint64)
      requires Valid() && next < end
      modifies this`next
      ensures Moved()
      ensures match ReadUint64(old(Rest()), unset)
              case Fail => ret == -1
              case Got(w, rest) => ret == 0 && v == w && Rest() == rest && next < end
    {
      var neg, sig, exp;
      ret, neg, sig, exp := ParseReal(false, unset);
      if ret != 0 || exp < 0 || (sig != 0 && LeadingZeros(sig) < exp) {
        return -1, 0;
      }
      return 0, ShiftLeft(sig, exp);
    }

    method DoubleValue(unset: uint64) returns (ret: int, u: uint64)
      requires Valid() && next < end
      modifies this`next
      ensures Moved()
      ensures match ReadDouble(old(Rest()), unset)
              case Fail => ret == -1
              case Got(w, rest) => ret == 0 && u == w && Rest() == rest && next < end
    {
      var nan := HaveNan();
      if nan {
        return 0, NAN_WORD;
      }
      var neg, sig, exp;
      ret, neg, sig, exp := ParseReal(true, unset);
      if ret != 0 {
        return -1, 0;
      }
      return 0, BuildDouble(neg, sig, exp);
    }

    // ----- strings and booleans

    /** `sipc_string` with a colon, `sipc_bytes` with a bar. */
    method SzString(delim: byte) returns (ret: int, v: Text)
      requires Valid() && next < end && (delim == COLON || delim == BAR)
      modifies this`next
      ensures Moved()
      ensures match ReadString(old(Rest()), delim)
              case Fail => ret == -1
              case Got(w, rest) => ret == 0 && v == w && Rest() == rest && next < end
    {
      hide ScanHex, Rest;
      if At(0) != SP {
        return -1, [];
      }
      Advance(1);
      var overflow, sz := ParseHex(0);
      if overflow != 0 {
        return -1, [];
      }
      var ch := At(0);
      Advance(1);
      if ch != delim || sz >= end - next {
        return -1, [];
      }
      v := Slice(sz);
      Advance(sz);
      return 0, v;
    }

    method BoolValue() returns (ret: int, v: bool)
      requires Valid() && next < end
      modifies this`next
      ensures Moved()
      ensures ret == 0 <==> NextToken(old(Rest()), stale).Got? && NextToken(old(Rest()), stale).v.Bool?
      ensures ret == 0 ==> NextToken(old(Rest()), stale) == Got(Bool(v), Rest()) && next < end
    {
      ghost var s := Rest();
      if At(0) != SP {
        return -1, false;
      }
      Advance(1);
      assert Peek(s, 1) == Peek(Rest(), 0);
      if At(0) == CH_T {
        v := true;
      } else if At(0) == CH_F {
        v := false;
      } else {
        BoolTokens(s, stale);
        return -1, false;
      }
      Advance(1);
      return 0, v;
    }

    // ----- tokens and values

    /** `sipc_next`: a token read leaves something to read, unless it was the end of the entry. */
    method Next() returns (ret: int, v: Token)
      requires Valid() && next < end
      modifies this`next
      ensures Moved()
      ensures match NextToken(old(Rest()), stale)
              case Fail => ret != 0
              case Got(t, rest) => ret == 0 && v == t && Rest() == rest && next > old(next) && (t != End ==> next < end)
    {
      v := End;
      if At(0) == NL {
        Advance(1);
        return 0, End;
      } else if At(0) != SP {
        return -1, End;
      }
      var c := At(1);
      if c == MINUS || c == CH_I {
        ret, v := NextSigned();
      } else if c == CH_T || c == CH_F {
        v := Bool(c == CH_T);
        Advance(2);
        return 0, v;
      } else if c == L_BRACE || c == L_BRACKET {
        v := Open(c == L_BRACKET);
        Advance(2);
        return 0, v;
      } else if c == R_BRACE || c == R_BRACKET {
        v := Close(c == R_BRACKET);
        Advance(2);
        return 0, v;
      } else if c == CH_N {
        var nan := HaveNan();
        return if nan then 0 else 1, Double(NAN_WORD);
      } else {
        ret, v := NextUnsigned();
      }
    }

    method NextSigned() returns (ret: int, v: Token)
      requires Valid() && next < end && At(0) == SP && (At(1) == MINUS || At(1) == CH_I)
      modifies this`next
      ensures Moved()
      ensures match SignedToken(old(Rest()), stale(|old(Rest())|))
              case Fail => ret != 0
              case Got(t, rest) => ret == 0 && v == t && Rest() == rest && next < end
    {
      hide ReadReal, BuildDouble, ShiftLeft, LeadingZeros;
      ghost var s := Rest();
      var neg, sig, exp;
      ret, neg, sig, exp := ParseReal(true, stale(end - next));
      if ret != 0 {
        return -1, End;
      } else if exp != 0 && (exp < 0 || exp > LeadingZeros(sig)) {
        return 0, Double(BuildDouble(true, sig, exp));
      } else {
        OnlyInfinityIsUnsigned(s, stale(|s|));
        OneLeads();
        assert neg;
        return 0, NegativeInt(ShiftLeft(sig, exp));
      }
    }

    method NextUnsigned() returns (ret: int, v: Token)
      requires Valid() && next < end && At(0) == SP
      modifies this`next
      ensures Moved()
      ensures match UnsignedToken(old(Rest())[1..], stale(|old(Rest())|))
              case Fail => ret != 0
              case Got(t, rest) => ret == 0 && v == t && Rest() == rest && next < end
    {
      hide ScanHex, ReadExponent, BuildDouble, ShiftLeft, LeadingZeros, Significand, Rest;
      var unset := stale(end - next);
      Advance(1);
      var overflow, sig := ParseHex(unset);
      if overflow < 0 {
        return -1, End;
      }
      var d := At(0);
      if d == CH_P {
        if sig % 2 == 0 {
          return -1, End;
        }
        var exp;
        ret, exp := ParseExponent(overflow);
        if ret != 0 {
          return -1, End;
        } else if exp < 0 || exp > LeadingZeros(sig) {
          return 0, Double(BuildDouble(false, sig, exp));
        }
        return 0, PositiveInt(ShiftLeft(sig, exp));
      } else if d == BAR || d == COLON {
        Advance(1);
        if overflow > 0 || sig >= end - next {
          return -1, End;
        }
        var body := Slice(sig);
        Advance(sig);
        return 0, if d == BAR then Bytes(body) else Str(body);
      }
      return if sig > 0 && sig % 256 == 0 then 1 else 0, PositiveInt(sig);
    }

    /** The loop of `sipc_any`: the bracket kinds of the open containers are kept in the low bits of one word. */
    method MatchClose(list: bool) returns (ret: int)
      requires Valid() && next < end
      modifies this`next
      ensures Moved()
      ensures match CloseAll(old(Rest()), [list], stale)
              case Stuck => ret != 0
              case Past(rest) => ret == 0 && Rest() == rest && old(next) + 2 <= next < end
    {
      hide NextToken, Bits, Rest, CloseAll;
      var isArray := if list then 1 else 0;
      var depth := 1;
      ghost var stack := [list];
      OneBit(list);
      while depth != 0
        invariant Moved() && next < end
        invariant depth == |stack| <= 16 && isArray == Bits(stack)
        invariant CloseAll(Rest(), stack, stale) == CloseAll(old(Rest()), [list], stale)
        decreases end - next
      {
        BitsTop(stack);
        CloseStep(Rest(), stack, stale);
        var dummy;
        ret, dummy := Next();
        if ret != 0 {
          return -1;
        }
        if dummy.Open? {
          depth := depth + 1;
          if depth == 17 {
            return -1;
          }
          BitsPush(stack, dummy.list);
          stack := stack + [dummy.list];
          isArray := (2 * isArray) % TWO32 + if dummy.list then 1 else 0;
        } else if dummy.Close? {
          if isArray % 2 != if dummy.list then 1 else 0 {
            return -1;
          }
          stack := stack[..|stack| - 1];
          isArray := isArray / 2;
          depth := depth - 1;
        } else if dummy.End? {
          return -1;
        }
      }
      CloseDone(Rest(), stale);
      assert stack == [];
      return 0;
    }

    /** `sipc_any` */
    method AnyValue() returns (ret: int, v: Any)
      requires Valid() && next < end
      modifies this`next
      ensures Moved()
      ensures match NextAny(old(Rest()), stale)
              case Fail => ret != 0
              case Got(a, rest) => ret == 0 && v == a && Rest() == rest && next > old(next) && (a != Atom(End) ==> next < end)
    {
      hide NextToken;
      var t;
      ret, t := Next();
      if ret != 0 {
        return -1, Atom(End);
      }
      v := Atom(t);
      if t.Open? {
        var start := next;
        ghost var s := Rest();
        ret := MatchClose(t.list);
        if ret != 0 {
          return -1, v;
        }
        assert buf[start..next - 2] == s[..|s| - |Rest()| - 2];
        v := Container(t.list, buf[start..next - 2]);
      }
      return 0, v;
    }

    method Start() returns (typ: byte)
      requires Valid()
      modifies this`next
      ensures Moved()
      ensures typ == if old(Rest()) == [] || !(SP < old(Rest())[0] < 0x80) then 0 else old(Rest())[0]
      ensures Rest() == if typ == 0 then old(Rest()) else old(Rest())[1..]
      ensures typ != 0 ==> next < end
    {
      if next == end || At(0) <= SP || At(0) >= 0x80 {
        return 0;
      }
      typ := At(0);
      Advance(1);
    }

    method Finish() returns (ret: int)
      requires Valid() && next < end
      modifies this`next
      ensures Moved()
      ensures match SkipEntry(old(Rest()), stale)
              case Stuck => ret == -1
              case Past(rest) => ret == 0 && Rest() == rest
    {
      while true
        invariant Moved() && next < end
        invariant SkipEntry(Rest(), stale) == SkipEntry(old(Rest()), stale)
        decreases end - next
      {
        var v;
        ret, v := AnyValue();
        if ret != 0 {
          return -1;
        } else if v == Atom(End) {
          return 0;
        }
      }
    }
  }

  lemma RunStep(s: Text)
    ensures HexRun(s) == if IsHexDigit(Peek(s, 0)) then 1 + HexRun(s[1..]) else 0
  {
  }

  function ReadString(s: Text, delim: byte): Read<Text> {
    if Peek(s, 0) != SP as int then Fail
    else match ScanHex(s[1..])
      case NoHex => Fail
      case Hex(v, x, rest) =>
        if x > 0 || Peek(rest, 0) != delim as int || v >= |rest| - 1 then Fail
        else Got(rest[1..][..v], rest[1..][v..])
  }

  /** The word whose low bits are the stack, the innermost container lowest. */
  function Bits(stack: seq<bool>): nat {
    if stack == [] then 0
    else 2 * Bits(stack[..|stack| - 1]) + if stack[|stack| - 1] then 1 else 0
  }

  lemma PowSixteen(n: nat)
    requires n <= 16
    ensures Pow2(n) <= 0x1_0000
  {
    assert Pow2(16) == 0x1_0000 by { Pow2Add(8, 8); Pow2Values(); }
    if n < 16 { Pow2Less(n, 16); }
  }

  lemma {:induction false} BitsBound(stack: seq<bool>)
    ensures Bits(stack) < Pow2(|stack|)
    ensures |stack| <= 16 ==> Bits(stack) < 0x1_0000
  {
    if stack != [] {
      BitsBound(stack[..|stack| - 1]);
    }
    if |stack| <= 16 { PowSixteen(|stack|); }
  }

  /** Shifting a bit in is pushing; testing and shifting out the low bit is looking at and popping the innermost container. */
  lemma BitsPush(stack: seq<bool>, b: bool)
    ensures Bits(stack + [b]) == 2 * Bits(stack) + if b then 1 else 0
    ensures Bits(stack + [b]) / 2 == Bits(stack) && (Bits(stack + [b]) % 2 == 1 <==> b)
  {
    assert (stack + [b])[..|stack|] == stack;
  }

  /** The low bit and the rest of the word. */
  lemma BitsTop(stack: seq<bool>)
    requires 0 < |stack| <= 16
    ensures Bits(stack) < 0x1_0000 && (Bits(stack) % 2 == 1 <==> stack[|stack| - 1])
    ensures Bits(stack) / 2 == Bits(stack[..|stack| - 1])
  {
    hide Bits;
    BitsBound(stack);
    assert stack == stack[..|stack| - 1] + [stack[|stack| - 1]];
    BitsPush(stack[..|stack| - 1], stack[|stack| - 1]);
  }

  /** One turn of the closer. */
  lemma CloseStep(s: Text, stack: seq<bool>, f: Stale)
    requires 0 < |stack| <= 16
    ensures var r, top := NextToken(s, f), |stack| - 1;
            CloseAll(s, stack, f) ==
            if r.Fail? || r.v.End? then Stuck
            else if r.v.Open? then (if |stack| == 16 then Stuck else CloseAll(r.rest, stack + [r.v.list], f))
            else if r.v.Close? then (if stack[top] != r.v.list then Stuck else CloseAll(r.rest, stack[..top], f))
            else CloseAll(r.rest, stack, f)
  {
    hide NextToken;
  }

  lemma CloseDone(s: Text, f: Stale)
    ensures CloseAll(s, [], f) == Past(s)
  {
  }

  lemma OneBit(b: bool)
    ensures Bits([b]) == if b then 1 else 0
  {
    assert [b][..0] == [];
  }

  /** A number that starts with neither a minus sign nor a digit is an infinity. */
  lemma OnlyInfinityIsUnsigned(s: Text, stale: uint64)
    requires Peek(s, 1) == MINUS as int || Peek(s, 1) == CH_I as int
    requires ReadReal(s, true, stale).Real?
    ensures ReadReal(s, true, stale).neg || (ReadReal(s, true, stale).exp == INT_MAX && ReadReal(s, true, stale).sig == 1)
  {
    assert Peek(s, 1) == Peek(s[1..], 0);
  }

  lemma BoolTokens(s: Text, f: Stale)
    requires Peek(s, 1) != CH_T as int && Peek(s, 1) != CH_F as int
    ensures NextToken(s, f).Got? ==> !NextToken(s, f).v.Bool?
  {
  }
}
