/** The hexadecimal layer shared by the C and Go halves: digit tables, digit strings and the overflow-testing scanner. */
module Hex {
  import opened Words

  type Text = seq<byte>

  const NL: byte := 0x0A
  const SP: byte := 0x20
  const MINUS: byte := 0x2D
  const ZERO: byte := 0x30
  const COLON: byte := 0x3A
  const CH_P: byte := 0x70
  const BAR: byte := 0x7C

  /** The byte `k` places into `s`, or -1 past its end. */
  function Peek(s: Text, k: nat): int { if k < |s| then s[k] as int else -1 }

  lemma Assoc(a: Text, b: Text, c: Text)
    ensures (a + b) + c == a + (b + c)
  {
  }

  // ----- the digit tables

  const HEX_VALID: seq<byte> := [
    0x00, 0x00, 0x00, 0x00, 0x00, 0x00, 0xFF, 0x03, 0x00, 0x00, 0x00, 0x00, 0x7E, 0x00, 0x00, 0x00,
    0x00, 0x00, 0x00, 0x00, 0x00, 0x00, 0x00, 0x00, 0x00, 0x00, 0x00, 0x00, 0x00, 0x00, 0x00, 0x00]

  const HEX_LOOKUP: seq<byte> := [
    0x00, 0x0a, 0x0b, 0x0c, 0x0d, 0x0e, 0x0f, 0x00, 0x00, 0x00, 0x00, 0x00, 0x00, 0x00, 0x00, 0x00,
    0x00, 0x01, 0x02, 0x03, 0x04, 0x05, 0x06, 0x07, 0x08, 0x09, 0x00, 0x00, 0x00, 0x00, 0x00, 0x00]

  predicate Bit(m: byte, j: nat) { if j == 0 then m % 2 == 1 else Bit(m / 2, j - 1) }

  /** The table lookups: the top five bits pick a byte of the bit map, the bottom three a bit in it. */
  predicate TableValid(c: byte) { Bit(HEX_VALID[c / 8], (c % 8) as int) }
  function TableValue(c: byte): byte { HEX_LOOKUP[c % 32] }

  predicate IsHexDigit(c: int) { 0x30 <= c <= 0x39 || 0x61 <= c <= 0x66 }

  function DigitValue(c: byte): (d: nat)
    requires IsHexDigit(c as int)
    ensures d < 16
  {
    if c <= 0x39 then c as int - 0x30 else c as int - 0x57
  }

  function DigitChar(d: nat): (c: byte)
    requires d < 16
    ensures IsHexDigit(c as int) && DigitValue(c) == d
  {
    if d < 10 then (0x30 + d) as byte else (0x57 + d) as byte
  }

  /** The packed tables accept exactly `0-9` and `a-f`, each with its value. */
  lemma TablesMatch(c: byte)
    ensures TableValid(c) <==> IsHexDigit(c as int)
    ensures IsHexDigit(c as int) ==> TableValue(c) as int == DigitValue(c)
  {
    hide Bit;
    var i, j := c as int / 8, c as int % 8;
    assert (c / 8) as int == i && (c % 8) as int == j;
    MapByte(i);
    MapBit(j);
    if IsHexDigit(c as int) {
      var k := if c <= 0x39 then c as int - 0x20 else c as int - 0x60;
      assert (c % 32) as int == k;
      Lookup(k);
    }
  }

  lemma MapByte(i: nat)
    requires i < 32
    ensures HEX_VALID[i] == if i == 6 then 0xFF else if i == 7 then 0x03 else if i == 12 then 0x7E else 0
  {
  }

  lemma MapBit(j: nat)
    requires j < 8
    ensures Bit(0xFF, j) && !Bit(0, j)
    ensures Bit(0x03, j) <==> j < 2
    ensures Bit(0x7E, j) <==> 1 <= j < 7
  {
    assert Bit(0, 1) == Bit(0, 0) && Bit(0, 2) == Bit(0, 1) && Bit(0, 3) == Bit(0, 2) && Bit(0, 4) == Bit(0, 3);
    assert j == 0 || j == 1 || j == 2 || j == 3 || j == 4 || j == 5 || j == 6 || j == 7;
  }

  lemma Lookup(i: nat)
    requires 1 <= i <= 6 || 16 <= i <= 25
    ensures HEX_LOOKUP[i] as int == if i <= 6 then i + 9 else i - 16
  {
  }

  // ----- digit strings

  predicate AllHex(d: Text) { forall i :: 0 <= i < |d| ==> IsHexDigit(d[i] as int) }

  /** The number read off a digit string, most significant digit first, on top of `acc`. */
  function HexFrom(acc: nat, d: Text): (v: nat)
    requires AllHex(d)
    ensures v >= acc
    decreases |d|
  {
    if d == [] then acc else HexFrom(16 * acc + DigitValue(d[0]), d[1..])
  }

  /** The shortest lower-case digits of `v`. */
  function HexDigits(v: nat): (d: Text)
    ensures |d| > 0 && AllHex(d)
  {
    if v < 16 then [DigitChar(v)] else HexDigits(v / 16) + [DigitChar(v % 16)]
  }

  lemma {:induction false} HexFromAppend(acc: nat, d: Text, c: byte)
    requires AllHex(d) && IsHexDigit(c as int)
    ensures HexFrom(acc, d + [c]) == 16 * HexFrom(acc, d) + DigitValue(c)
    decreases |d|
  {
    if d == [] {
      assert d + [c] == [c];
      assert [c][1..] == [];
    } else {
      assert (d + [c])[1..] == d[1..] + [c];
      HexFromAppend(16 * acc + DigitValue(d[0]), d[1..], c);
    }
  }

  lemma {:induction false} DigitsValue(v: nat)
    ensures HexFrom(0, HexDigits(v)) == v
    ensures HexDigits(v)[0] == ZERO <==> v == 0
  {
    if v < 16 {
      assert HexDigits(v)[1..] == [];
    } else {
      DigitsValue(v / 16);
      HexFromAppend(0, HexDigits(v / 16), DigitChar(v % 16));
    }
  }

  /** Every digit string without a leading zero is the shortest spelling of its number. */
  lemma {:induction false} ValueDigits(d: Text)
    requires |d| > 0 && AllHex(d) && d[0] != ZERO
    ensures HexFrom(0, d) > 0 && HexDigits(HexFrom(0, d)) == d
  {
    var e, c := d[..|d| - 1], d[|d| - 1];
    assert d == e + [c];
    HexFromAppend(0, e, c);
    if e == [] {
      assert d == [c];
    } else {
      ValueDigits(e);
      assert HexFrom(0, d) / 16 == HexFrom(0, e);
    }
  }

  lemma {:induction false} DigitsLength(v: nat, n: nat)
    requires n > 0
    ensures |HexDigits(v)| <= n <==> v < Pow2(4 * n)
  {
    assert Pow2(4) == 16;
    if n == 1 {
      if v >= 16 { assert |HexDigits(v / 16)| > 0; }
    } else {
      Pow2Add(4 * (n - 1), 4);
      if v >= 16 {
        DigitsLength(v / 16, n - 1);
      } else {
        Pow2Less(0, 4 * (n - 1));
      }
    }
  }

  /** The digit `k` places from the right is bits 4k to 4k+3. */
  lemma {:induction false} DigitAt(v: nat, k: nat)
    requires k < |HexDigits(v)|
    ensures HexDigits(v)[|HexDigits(v)| - 1 - k] == DigitChar((v / Pow2(4 * k)) % 16)
  {
    if k > 0 {
      DigitAt(v / 16, k - 1);
      assert 4 * k == 4 + 4 * (k - 1);
      Pow2Add(4, 4 * (k - 1));
      DivDiv(v, 16, Pow2(4 * (k - 1)));
    } else {
      assert v / Pow2(0) == v;
    }
  }

  lemma DigitsInjective(v: nat, w: nat)
    ensures HexDigits(v) == HexDigits(w) <==> v == w
  {
    DigitsValue(v);
    DigitsValue(w);
  }

  // ----- the scanner

  /** A field read from the front of a text. A positive `excess` means that bits were seen to fall off the top. */
  datatype Scan = NoHex | Hex(v: uint64, excess: nat, rest: Text)

  function HexRun(s: Text): (n: nat)
    ensures n <= |s| && AllHex(s[..n]) && !IsHexDigit(Peek(s, n))
  {
    if IsHexDigit(Peek(s, 0)) then
      var n := 1 + HexRun(s[1..]);
      assert forall i :: 0 < i < n ==> s[i] == s[1..][i - 1];
      n
    else 0
  }

  function ScanHex(s: Text): (r: Scan)
    ensures r.Hex? ==> |r.rest| < |s|
  {
    if !IsHexDigit(Peek(s, 0)) then NoHex
    else if s[0] == ZERO then Hex(0, 0, s[1..])
    else HexLoop(DigitValue(s[0]), s[1..])
  }

  function HexLoop(v: uint64, s: Text): (r: Scan)
    ensures r.Hex? && |r.rest| <= |s|
    decreases |s|
  {
    if !IsHexDigit(Peek(s, 0)) then Hex(v, 0, s)
    else
      var n := (16 * v) % TWO64;
      if n < v then Hex(v, 4 * HexRun(s), s[HexRun(s)..])
      else HexLoop(n + DigitValue(s[0]), s[1..])
  }

  lemma LoopStep(v: uint64, s: Text)
    requires IsHexDigit(Peek(s, 0)) && 16 * v + DigitValue(s[0]) < TWO64
    ensures HexLoop(v, s) == HexLoop(16 * v + DigitValue(s[0]), s[1..])
  {
    assert (16 * v) % TWO64 == 16 * v;
  }

  lemma HexFromStep(v: nat, d: Text)
    requires AllHex(d)
    ensures HexFrom(v, []) == v
    ensures d != [] ==> HexFrom(v, d) == HexFrom(16 * v + DigitValue(d[0]), d[1..]) >= 16 * v + DigitValue(d[0])
  {
  }

  lemma {:induction false} LoopSplit(v: uint64, d: Text, rest: Text)
    requires AllHex(d) && HexFrom(v, d) < TWO64
    ensures HexLoop(v, d + rest) == HexLoop(HexFrom(v, d), rest)
    decreases |d|
  {
    hide HexLoop, HexFrom, DigitValue;
    HexFromStep(v, d);
    if d == [] {
      assert d + rest == rest;
    } else {
      assert (d + rest)[0] == d[0] && (d + rest)[1..] == d[1..] + rest;
      LoopStep(v, d + rest);
      LoopSplit(16 * v + DigitValue(d[0]), d[1..], rest);
    }
  }

  lemma ScanSplit(v: uint64, rest: Text)
    requires v > 0
    ensures ScanHex(HexDigits(v) + rest) == HexLoop(v, rest)
  {
    var d := HexDigits(v);
    DigitsValue(v);
    assert (d + rest)[1..] == d[1..] + rest;
    LoopSplit(DigitValue(d[0]), d[1..], rest);
  }

  /** A printed word is scanned back, whatever non-digit follows it. */
  lemma ScanReads(v: uint64, rest: Text)
    requires !IsHexDigit(Peek(rest, 0))
    ensures ScanHex(HexDigits(v) + rest) == Hex(v, 0, rest)
  {
    if v == 0 {
      assert HexDigits(v) == [ZERO];
      assert ([ZERO] + rest)[1..] == rest;
    } else {
      ScanSplit(v, rest);
    }
  }

  lemma RunStarts(s: Text)
    requires IsHexDigit(Peek(s, 0))
    ensures HexRun(s) > 0 && s[..HexRun(s)][0] == s[0]
  {
  }

  lemma RunSound(s: Text)
    requires IsHexDigit(Peek(s, 0)) && s[0] != ZERO && HexRun(s) <= 16
    ensures HexRun(s) > 0
    ensures var d := s[..HexRun(s)];
            && 0 < HexFrom(0, d) < TWO64 && HexDigits(HexFrom(0, d)) == d
            && ScanHex(s) == Hex(HexFrom(0, d), 0, s[HexRun(s)..])
  {
    hide HexDigits, HexFrom, HexLoop, HexRun, ScanHex, Pow2;
    var n := HexRun(s);
    var d, rest := s[..n], s[n..];
    RunStarts(s);
    ValueDigits(d);
    DigitsLength(HexFrom(0, d), 16);
    Pow2Values();
    assert s == d + rest;
    assert Peek(rest, 0) == Peek(s, n);
    ScanReads(HexFrom(0, d), rest);
  }

  /** A field of at most sixteen digits is a printed word, and the scanner returns that word. */
  lemma ScanSound(s: Text)
    requires ScanHex(s).Hex? && HexRun(s) <= 16
    ensures var r := ScanHex(s); r.excess == 0 && s == HexDigits(r.v) + r.rest
    ensures var r := ScanHex(s); r.v > 0 ==> !IsHexDigit(Peek(r.rest, 0))
  {
    hide HexFrom, HexLoop;
    if s[0] == ZERO {
      assert s == HexDigits(0) + s[1..];
    } else {
      RunSound(s);
      assert Peek(s[HexRun(s)..], 0) == Peek(s, HexRun(s));
    }
  }

  // ----- fields of any length

  /** Sixteen copies of the digit `t`. */
  function Repdigit(t: nat): nat { t * 0x1111_1111_1111_1111 }

  /** On a full word the test notices one more digit exactly when the word does not exceed its repeated leading digit. */
  lemma OverflowTestExact(v: uint64)
    requires v >= 0x1000_0000_0000_0000
    ensures (16 * v) % TWO64 < v <==> v <= Repdigit(v / 0x1000_0000_0000_0000)
  {
    var t, r := v / 0x1000_0000_0000_0000, v % 0x1000_0000_0000_0000;
    assert v == t * 0x1000_0000_0000_0000 + r;
    assert 16 * v == t * TWO64 + 16 * r;
    DivUnique(16 * v, TWO64, t);
  }

  /** The digit `d[k]` is noticed as one too many: the sixteen digits before it start with a nonzero digit and do not
      exceed that digit repeated. */
  predicate Noticed(d: Text, k: nat)
    requires AllHex(d)
  {
    16 <= k < |d| && d[k - 16] != ZERO && HexFrom(0, d[k - 16..k]) <= Repdigit(DigitValue(d[k - 16]))
  }

  lemma {:induction false} HexJoin(acc: nat, a: Text, b: Text)
    requires AllHex(a) && AllHex(b)
    ensures HexFrom(acc, a + b) == HexFrom(HexFrom(acc, a), b)
    decreases |a|
  {
    if a == [] {
      assert a + b == b;
    } else {
      assert (a + b)[1..] == a[1..] + b;
      HexJoin(16 * acc + DigitValue(a[0]), a[1..], b);
    }
  }

  lemma PowDigits(n: nat)
    ensures Pow2(0) == 1 && Pow2(4 * (n + 1)) == 16 * Pow2(4 * n)
  {
    Pow2Add(4 * n, 4);
    assert Pow2(4) == 16;
  }

  lemma ShiftStep(acc: nat, p: nat, h: nat, x: nat)
    ensures acc * (16 * p) + (16 * h + x) == 16 * (acc * p + h) + x
  {
    assert acc * (16 * p) == 16 * (acc * p);
  }

  /** Digits behind a number shift it up and add their own. */
  lemma {:induction false} HexShift(acc: nat, d: Text)
    requires AllHex(d)
    ensures HexFrom(acc, d) == acc * Pow2(4 * |d|) + HexFrom(0, d)
    ensures HexFrom(0, d) < Pow2(4 * |d|)
    decreases |d|
  {
    if d == [] {
      PowDigits(0);
    } else {
      hide HexFrom, Pow2, DigitValue;
      var n := |d| - 1;
      var e, x := d[..n], DigitValue(d[n]);
      assert d == e + [d[n]];
      HexShift(acc, e);
      HexFromAppend(acc, e, d[n]);
      HexFromAppend(0, e, d[n]);
      PowDigits(n);
      ShiftStep(acc, Pow2(4 * n), HexFrom(0, e), x);
    }
  }

  lemma Low(h: nat, q: nat, r: nat)
    requires h == q * TWO64 + r && r < TWO64
    ensures h % TWO64 == r
  {
    DivUnique(h, TWO64, q);
  }

  /** The word after `k` digits is the number of the last sixteen of them. */
  lemma Window(d: Text, k: nat)
    requires AllHex(d) && 16 <= k <= |d|
    ensures HexFrom(0, d[..k]) % TWO64 == HexFrom(0, d[k - 16..k]) < TWO64
  {
    hide HexFrom, Pow2;
    var a, w := d[..k - 16], d[k - 16..k];
    assert d[..k] == a + w;
    HexJoin(0, a, w);
    HexShift(HexFrom(0, a), w);
    Pow2Values();
    Low(HexFrom(0, d[..k]), HexFrom(0, a), HexFrom(0, w));
  }

  /** The leading digit of sixteen is the word's top four bits. */
  lemma TopDigit(w: Text)
    requires AllHex(w) && |w| == 16
    ensures HexFrom(0, w) / 0x1000_0000_0000_0000 == DigitValue(w[0])
  {
    assert w == [w[0]] + w[1..];
    HexJoin(0, [w[0]], w[1..]);
    assert HexFrom(0, [w[0]]) == DigitValue(w[0]);
    HexShift(DigitValue(w[0]), w[1..]);
    PowSixty();
    DivUnique(HexFrom(0, w), 0x1000_0000_0000_0000, DigitValue(w[0]));
  }

  function WordOf(d: Text): uint64
    requires AllHex(d)
  {
    HexFrom(0, d) % TWO64
  }

  /** The overflow test on the word after `k` digits. */
  lemma TestFires(d: Text, k: nat)
    requires AllHex(d) && k < |d|
    ensures (16 * WordOf(d[..k])) % TWO64 < WordOf(d[..k]) <==> Noticed(d, k)
  {
    if k < 16 {
      EarlyDigits(d, k);
    } else {
      FullWord(d, k);
    }
  }

  lemma EarlyDigits(d: Text, k: nat)
    requires AllHex(d) && k < |d| && k < 16
    ensures (16 * WordOf(d[..k])) % TWO64 >= WordOf(d[..k])
  {
    hide HexFrom, Pow2;
    HexShift(0, d[..k]);
    PowSixty();
    if k < 15 { Pow2Less(4 * k, 60); }
  }

  lemma PowSixty()
    ensures Pow2(60) == 0x1000_0000_0000_0000
  {
    Pow2Values();
    Pow2Add(52, 8);
  }

  lemma FullWord(d: Text, k: nat)
    requires AllHex(d) && 16 <= k < |d|
    ensures (16 * WordOf(d[..k])) % TWO64 < WordOf(d[..k]) <==> Noticed(d, k)
  {
    hide HexFrom, DigitValue;
    var v := WordOf(d[..k]);
    Window(d, k);
    TopDigit(d[k - 16..k]);
    ZeroDigit(d[k - 16]);
    if v >= 0x1000_0000_0000_0000 { OverflowTestExact(v); } else { TopZero(v); }
  }

  lemma TopZero(v: uint64)
    requires v < 0x1000_0000_0000_0000
    ensures v / 0x1000_0000_0000_0000 == 0 && (16 * v) % TWO64 >= v
  {
  }

  lemma ZeroDigit(c: byte)
    requires IsHexDigit(c as int)
    ensures DigitValue(c) == 0 <==> c == ZERO
  {
  }

  lemma WordStep(h: nat, x: nat)
    requires x < 16
    ensures (16 * (h % TWO64)) % TWO64 + x == (16 * h + x) % TWO64
  {
    var q, r := h / TWO64, h % TWO64;
    var p, m := (16 * r) / TWO64, (16 * r) % TWO64;
    assert 16 * h + x == (16 * q + p) * TWO64 + (m + x);
    assert m % 16 == 0;
    DivUnique(16 * h + x, TWO64, 16 * q + p);
  }

  lemma WordAppend(d: Text, k: nat)
    requires AllHex(d) && k < |d|
    ensures WordOf(d[..k + 1]) == (16 * WordOf(d[..k])) % TWO64 + DigitValue(d[k])
  {
    assert d[..k + 1] == d[..k] + [d[k]];
    HexFromAppend(0, d[..k], d[k]);
    WordStep(HexFrom(0, d[..k]), DigitValue(d[k]));
  }

  /** While nothing is noticed the loop keeps the low sixteen digits. */
  lemma {:induction false} LoopKeeps(d: Text, k: nat, rest: Text)
    requires AllHex(d) && 1 <= k <= |d| && d[0] != ZERO
    requires forall j: nat :: j < k ==> !Noticed(d, j)
    ensures ScanHex(d + rest) == HexLoop(WordOf(d[..k]), d[k..] + rest)
  {
    hide HexFrom, Noticed;
    if k == 1 {
      FirstDigit(d, rest);
    } else {
      LoopKeeps(d, k - 1, rest);
      TestFires(d, k - 1);
      WordAppend(d, k - 1);
      var s := d[k - 1..] + rest;
      assert s[0] == d[k - 1] && s[1..] == d[k..] + rest;
      LoopGoesOn(WordOf(d[..k - 1]), s);
    }
  }

  lemma FirstDigit(d: Text, rest: Text)
    requires AllHex(d) && d != [] && d[0] != ZERO
    ensures ScanHex(d + rest) == HexLoop(WordOf(d[..1]), d[1..] + rest)
  {
    hide HexLoop;
    assert (d + rest)[1..] == d[1..] + rest;
    assert d[..1] == [d[0]] && [d[0]][1..] == [];
    assert HexFrom(0, [d[0]]) == DigitValue(d[0]);
    assert (d + rest)[0] == d[0];
  }

  lemma LoopGoesOn(v: uint64, s: Text)
    requires IsHexDigit(Peek(s, 0)) && (16 * v) % TWO64 >= v
    ensures (16 * v) % TWO64 + DigitValue(s[0]) < TWO64
    ensures HexLoop(v, s) == HexLoop((16 * v) % TWO64 + DigitValue(s[0]), s[1..])
  {
  }

  lemma LoopStops(v: uint64, s: Text)
    requires IsHexDigit(Peek(s, 0)) && (16 * v) % TWO64 < v
    ensures HexLoop(v, s) == Hex(v, 4 * HexRun(s), s[HexRun(s)..])
  {
  }

  lemma {:induction false} RunOf(d: Text, rest: Text)
    requires AllHex(d) && !IsHexDigit(Peek(rest, 0))
    ensures HexRun(d + rest) == |d| && (d + rest)[|d|..] == rest
    decreases |d|
  {
    if d == [] {
      assert d + rest == rest;
    } else {
      assert (d + rest)[1..] == d[1..] + rest;
      RunOf(d[1..], rest);
    }
  }

  /** The first digit noticed, or the end of the field. */
  lemma FirstNoticed(d: Text) returns (k: nat)
    requires AllHex(d) && d != []
    ensures 1 <= k <= |d| && (forall j: nat :: j < k ==> !Noticed(d, j)) && (k < |d| ==> Noticed(d, k))
  {
    k := 1;
    while k < |d| && !Noticed(d, k)
      invariant 1 <= k <= |d| && forall j: nat :: j < k ==> !Noticed(d, j)
    {
      k := k + 1;
    }
  }

  /** A field of any length: the scan stops counting at the first digit noticed, with the low sixteen digits so far. */
  lemma ScanStops(d: Text, k: nat, rest: Text)
    requires AllHex(d) && 1 <= k <= |d| && d[0] != ZERO && !IsHexDigit(Peek(rest, 0))
    requires (forall j: nat :: j < k ==> !Noticed(d, j)) && (k < |d| ==> Noticed(d, k))
    ensures ScanHex(d + rest) == Hex(WordOf(d[..k]), 4 * (|d| - k), rest)
  {
    hide HexFrom, Noticed, WordOf, HexRun;
    LoopKeeps(d, k, rest);
    if k < |d| {
      TestFires(d, k);
      RunOf(d[k..], rest);
      assert Peek(d[k..] + rest, 0) == d[k] as int;
      LoopStops(WordOf(d[..k]), d[k..] + rest);
    } else {
      assert d[k..] + rest == rest;
    }
  }

  /** What the scanner makes of any field without a leading zero. An overflow is reported exactly when some digit is
      noticed; unreported, the word is the number modulo 2^64. Word and count are the number's leading bits and the rest
      of its length exactly when the field fits a word or its seventeenth digit is noticed. */
  lemma ScanExact(d: Text, rest: Text)
    requires AllHex(d) && d != [] && d[0] != ZERO && !IsHexDigit(Peek(rest, 0))
    ensures var r := ScanHex(d + rest);
            && r.Hex? && r.rest == rest
            && (r.excess > 0 <==> exists k: nat :: Noticed(d, k))
            && (r.excess == 0 ==> r.v == HexFrom(0, d) % TWO64)
            && (r.v == HexFrom(0, d) / Pow2(r.excess) <==> |d| <= 16 || Noticed(d, 16))
            && (|d| > 16 ==> (r.excess == 4 * (|d| - 16) <==> Noticed(d, 16)))
  {
    var k := FirstNoticed(d);
    ScanStops(d, k, rest);
    assert k == |d| ==> d[..k] == d;
    Leading(d, k);
    BeyondWord(d, k);
    hide HexFrom;
    assert k < |d| ==> Noticed(d, k);
    assert |d| > 16 && k == 16 ==> Noticed(d, 16);
    assert forall j: nat :: Noticed(d, j) ==> 16 <= j < |d|;
  }

  lemma Leading(d: Text, k: nat)
    requires AllHex(d) && k <= |d|
    ensures HexFrom(0, d) / Pow2(4 * (|d| - k)) == HexFrom(0, d[..k])
  {
    assert d == d[..k] + d[k..];
    HexJoin(0, d[..k], d[k..]);
    HexShift(HexFrom(0, d[..k]), d[k..]);
    DivUnique(HexFrom(0, d), Pow2(4 * (|d| - k)), HexFrom(0, d[..k]));
  }

  lemma BeyondWord(d: Text, k: nat)
    requires AllHex(d) && 1 <= k <= |d| && d[0] != ZERO
    ensures WordOf(d[..k]) == HexFrom(0, d[..k]) <==> k <= 16
  {
    ValueDigits(d[..k]);
    DigitsLength(HexFrom(0, d[..k]), 16);
    Pow2Values();
  }

  lemma SixteenDigits()
    ensures |HexDigits(0x1800_0000_0000_0000)| == 16
  {
    PowSixty();
    Pow2Values();
    DigitsLength(0x1800_0000_0000_0000, 15);
    DigitsLength(0x1800_0000_0000_0000, 16);
  }

  /** The seventeen digits 18000000000000000 scan without a reported overflow, as the word 2^63. */
  lemma MissedOverflow()
    ensures var d := HexDigits(0x1_8000_0000_0000_0000);
            |d| == 17 && ScanHex(d + [NL]) == Hex(TWO63, 0, [NL])
  {
    var h := HexDigits(0x1800_0000_0000_0000);
    SixteenDigits();
    assert HexDigits(0x1_8000_0000_0000_0000) == h + [ZERO];
    assert h + [ZERO] + [NL] == h + [ZERO, NL];
    ScanSplit(0x1800_0000_0000_0000, [ZERO, NL]);
    assert [ZERO, NL][1..] == [NL];
  }

  /** With one more zero the overflow is reported, but four bits short: eight have fallen off. */
  lemma MiscountedOverflow()
    ensures var d := HexDigits(0x18_0000_0000_0000_0000);
            |d| == 18 && ScanHex(d + [NL]) == Hex(TWO63, 4, [NL])
  {
    hide HexLoop, HexDigits;
    var h := HexDigits(0x1800_0000_0000_0000);
    SixteenDigits();
    TwoMoreZeros();
    var s := [ZERO, ZERO, NL];
    assert h + [ZERO, ZERO] + [NL] == h + s;
    ScanSplit(0x1800_0000_0000_0000, s);
    LoopGoesOn(0x1800_0000_0000_0000, s);
    assert s[1..] == [ZERO, NL] && [ZERO, NL][1..] == [NL];
    LoopStops(TWO63, [ZERO, NL]);
    assert HexRun([ZERO, NL]) == 1;
  }

  lemma TwoMoreZeros()
    ensures HexDigits(0x18_0000_0000_0000_0000) == HexDigits(0x1800_0000_0000_0000) + [ZERO, ZERO]
  {
    var h := HexDigits(0x1800_0000_0000_0000);
    assert HexDigits(0x1_8000_0000_0000_0000) == h + [ZERO];
    assert h + [ZERO] + [ZERO] == h + [ZERO, ZERO];
  }

  // ----- lengths

  const FULL := 0x1000_0000_0000_0000

  /** A full word stays full while nothing is noticed. */
  lemma {:induction false} StaysFull(v: uint64, s: Text)
    requires v >= FULL
    ensures HexLoop(v, s).excess == 0 ==> HexLoop(v, s).v >= FULL
    decreases |s|
  {
    if IsHexDigit(Peek(s, 0)) && (16 * v) % TWO64 >= v {
      LoopGoesOn(v, s);
      StaysFull((16 * v) % TWO64 + DigitValue(s[0]), s[1..]);
    }
  }

  lemma LongField(s: Text)
    requires ScanHex(s).Hex? && s[0] != ZERO && HexRun(s) > 16 && ScanHex(s).excess == 0
    ensures ScanHex(s).v >= FULL
  {
    hide HexDigits, HexFrom, HexLoop, Pow2;
    var d, rest := s[..16], s[16..];
    assert s == d + rest;
    assert forall i :: 0 <= i < 16 ==> d[i] == s[..HexRun(s)][i];
    ValueDigits(d);
    var v := HexFrom(0, d);
    DigitsLength(v, 15);
    DigitsLength(v, 16);
    PowSixty();
    Pow2Values();
    ScanSplit(v, rest);
    StaysFull(v, rest);
  }

  /** A field of any length that is scanned without a noticed overflow to a number below 2^60 is that number's spelling. */
  lemma SmallField(s: Text)
    requires ScanHex(s).Hex? && ScanHex(s).excess == 0 && ScanHex(s).v < FULL
    ensures s == HexDigits(ScanHex(s).v) + ScanHex(s).rest
  {
    if s[0] == ZERO {
      assert s == HexDigits(0) + s[1..];
    } else {
      hide HexLoop, HexDigits;
      if HexRun(s) > 16 { LongField(s); } else { ScanSound(s); }
    }
  }
}
