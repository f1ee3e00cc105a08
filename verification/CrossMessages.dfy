/** Messages printed by the C formatter and read by the Go parser. */
module CrossMessages {
  import opened Words
  import opened Hex
  import opened Numbers
  import opened Tokens
  import opened SipcFormat
  import opened Messages
  import opened GoValues
  import opened GoNumbers
  import opened CrossTrees

  // ----- one argument

  /** What comes back in Go: everything but a negative integer printed as `%p`. */
  predicate GoComesBack(x: Item)
    requires IsScalarArgument(x)
  {
    !(x.AnyItem? && x.v.t.NegativeInt?)
  }

  function GivenMeaning(x: Item): GoTrees.Meaning
    requires IsScalarArgument(x)
  {
    TokenMeaning(Given(x))
  }

  lemma GoReadsNumber(n: Number, rest: Text)
    requires FromMachine(n) && Delimited(rest)
    ensures var r := ReadValue([SP] + Spell(n) + rest, 1); r.Ok? && r.rest == rest && GoTrees.MeaningOf(r.v) == GoTrees.MNumber(n)
  {
    hide ReadValue, Spell, FromMachine;
    GoReadsC(n, rest, 1);
  }

  lemma GoReadsFlag(b: bool, rest: Text)
    ensures ReadValue([SP] + FlagText(b) + rest, 1) == Ok(VBool(b), rest)
  {
    hide ReadItems, ReadEntries, GoNegative, GoUnsigned, Special;
    var s := [SP] + FlagText(b) + rest;
    assert s[2..] == rest;
  }

  lemma GoReadsSized(delim: byte, s: Text, rest: Text)
    requires (delim == COLON || delim == BAR) && |s| <= INT_MAX && Delimited(rest)
    ensures ReadValue([SP] + SizedText(delim, s) + rest, 1) == Ok(if delim == BAR then VBytes(s) else VString(s), rest)
  {
    hide ReadValue, GoSizedText, SizedText;
    GoSized(delim, s);
    GoTrees.SizedTrip(delim, s, rest, 1);
  }

  lemma WordFromMachine(neg: bool, v: uint64)
    requires neg ==> v <= TWO63
    ensures FromMachine(OfMagnitude(neg && v > 0, v))
  {
    hide OfMagnitude;
    var i: int := if neg then -(v as int) else v;
    SignedSays(v);
    assert OfInt(i) == OfMagnitude(neg && v > 0, v);
  }

  lemma DoubleFromMachine(u: uint64)
    ensures FromMachine(OfDouble(u))
  {
    hide OfDouble;
  }

  lemma GoReadsToken(t: Token, left: byte, rest: Text)
    requires IsScalar(t) && ProperToken(t) && !t.NegativeInt? && Delimited(rest)
    ensures var r := ReadValue([SP] + TokenText(t, left) + rest, 1);
            r.Ok? && r.rest == rest && GoTrees.MeaningOf(r.v) == TokenMeaning(t)
  {
    hide ReadValue, Spell, SizedText, FlagText, FromMachine, OfMagnitude, OfDouble;
    match t
    case Bool(b) => GoReadsFlag(b, rest);
    case PositiveInt(n) =>
      WordFromMachine(false, n);
      GoReadsNumber(OfMagnitude(false, n), rest);
    case Double(u) =>
      DoubleFromMachine(u);
      GoReadsNumber(OfDouble(u), rest);
    case Str(s) => GoReadsSized(COLON, s, rest);
    case Bytes(s) => GoReadsSized(BAR, s, rest);
  }

  lemma GoReadsArgument(x: Item, left: byte, rest: Text)
    requires IsScalarArgument(x) && GoComesBack(x) && Delimited(rest)
    ensures var r := ReadValue([SP] + ItemText(x, left) + rest, 1);
            r.Ok? && r.rest == rest && GoTrees.MeaningOf(r.v) == GivenMeaning(x)
  {
    hide ReadValue, Spell, SizedText, GoTrees.MeaningOf, TokenMeaning, FromMachine;
    if x.Signed64? && x.i < 0 {
      var n: uint64 := -(x.i as int);
      WordFromMachine(true, n);
      GoReadsNumber(OfMagnitude(true, n), rest);
      NegativeMeaning(n);
    } else {
      GoReadsToken(Given(x), left, rest);
    }
  }

  lemma NegativeMeaning(n: uint64)
    ensures TokenMeaning(NegativeInt(n)) == GoTrees.MNumber(OfMagnitude(true, n))
  {
    hide OfMagnitude;
  }

  // ----- the printed negative token

  lemma UnsignedMeaning(s: Text)
    requires GoUnsigned(s).Ok?
    ensures var v := GoUnsigned(s).v; (v.VUint? || v.VFloat? || v.VString? || v.VBytes?) && (v.VFloat? ==> !SignBit(v.u))
  {
    hide GoScan, GoExponent, ShiftLeft, LeadingZeros, Floats.RoundedFraction;
  }

  lemma NotNegative(v: Value)
    requires v.VUint? || (v.VFloat? && !SignBit(v.u))
    ensures NumberOf(v).Finite? ==> !NumberOf(v).neg
  {
    hide OddPart, TrailingZeros;
  }

  /** A negative token's digits without their sign do not read as its value; after a zero the left-over byte stays. */
  lemma GoNegativeLost(n: uint64, left: byte, rest: Text)
    ensures var t := NegativeInt(n);
            var r := ReadValue([SP] + TokenText(t, left) + rest, 1);
            && !r.Eof?
            && (r.Ok? && GoTrees.MeaningOf(r.v) == TokenMeaning(t) ==> r.rest == [left] + rest)
  {
    hide ReadValue, GoUnsigned, Spell, HexDigits, NumberOf, OfMagnitude;
    var s := [SP] + TokenText(NegativeInt(n), left) + rest;
    var m := Spell(OfMagnitude(false, n));
    var u := m + ([left] + rest);
    assert s[1..] == u;
    SpellsDigit(n);
    assert s[1] == m[0];
    GoDispatch(s, 1);
    var r := GoUnsigned(u);
    NegativeMeaning(n);
    if r.Ok? {
      UnsignedMeaning(u);
      if IsNumeric(r.v) { NotNegative(r.v); NumberMeaning(r.v); }
      if n == 0 { GoZeroThen(left, rest); } else { WordNegative(n); }
    }
  }

  lemma WordNegative(n: uint64)
    requires n > 0
    ensures OfMagnitude(true, n).Finite? && OfMagnitude(true, n).neg
  {
  }

  lemma NumberMeaning(v: Value)
    requires IsNumeric(v)
    ensures GoTrees.MeaningOf(v) == GoTrees.MNumber(NumberOf(v))
  {
    hide OfInt, OfDouble;
  }

  lemma GoZeroThen(left: byte, rest: Text)
    ensures var r := GoUnsigned([ZERO] + ([left] + rest)); r.Ok? && IsNumeric(r.v) ==> r.rest == [left] + rest
  {
    assert ([ZERO] + ([left] + rest))[1..] == [left] + rest;
  }

  // ----- whole messages

  predicate AllScalars(xs: seq<Item>) { forall i :: 0 <= i < |xs| ==> IsScalarArgument(xs[i]) }

  lemma ScalarsPrint(xs: seq<Item>)
    requires AllScalars(xs)
    ensures AllArguments(xs)
    ensures xs != [] ==> IsScalarArgument(xs[0]) && AllScalars(xs[1..])
  {
    hide IsScalarArgument;
  }

  predicate AllComeBackInGo(xs: seq<Item>)
    requires AllScalars(xs)
  {
    forall i :: 0 <= i < |xs| ==> GoComesBack(xs[i])
  }

  predicate SameMeanings(xs: seq<Item>, vs: seq<Value>)
    requires AllScalars(xs)
  {
    |xs| == |vs| && forall i :: 0 <= i < |xs| ==> GoTrees.MeaningOf(vs[i]) == GivenMeaning(xs[i])
  }

  /** Reading gave back the values, and stopped just after the end of the entry. */
  predicate ReturnedInGo(xs: seq<Item>, r: Outcome<seq<Value>>, rest: Text)
    requires AllScalars(xs)
  {
    r.Ok? && r.rest == rest && SameMeanings(xs, r.v)
  }

  /** What is read is put behind what has been read. */
  lemma {:induction false} ValsBehind(s: Text, acc: seq<Value>)
    ensures ReadVals(s, acc) == match ReadVals(s, []) case Ok(vs, rest) => Ok(acc + vs, rest) case Err(e) => Err(e) case Panic(w) => Panic(w)
    decreases |s|
  {
    hide ReadValue;
    var r := ReadValue(s, 1);
    if r.Ok? {
      ValsBehind(r.rest, acc + [r.v]);
      ValsBehind(r.rest, [r.v]);
      assert [] + [r.v] == [r.v];
      var o := ReadVals(r.rest, []);
      if o.Ok? { assert (acc + [r.v]) + o.v == acc + ([r.v] + o.v); }
    } else if r.Eof? {
      assert acc + [] == acc;
    }
  }

  lemma FirstOfVals(s: Text)
    requires ReadValue(s, 1).Ok?
    ensures var r := ReadValue(s, 1);
            ReadVals(s, []) == match ReadVals(r.rest, []) case Ok(vs, rest) => Ok([r.v] + vs, rest) case Err(e) => Err(e) case Panic(w) => Panic(w)
  {
    hide ReadValue;
    var r := ReadValue(s, 1);
    ValsBehind(r.rest, [r.v]);
    assert [] + [r.v] == [r.v];
  }

  lemma SameFirstMeaning(xs: seq<Item>, v: Value, vs: seq<Value>)
    requires xs != [] && AllScalars(xs) && AllScalars(xs[1..]) && IsScalarArgument(xs[0])
    ensures SameMeanings(xs, [v] + vs) <==> GoTrees.MeaningOf(v) == GivenMeaning(xs[0]) && SameMeanings(xs[1..], vs)
  {
    hide GivenMeaning, GoTrees.MeaningOf, IsScalarArgument, AllScalars;
    var us := [v] + vs;
    assert us[0] == v && us[1..] == vs;
    Shifted(xs, us);
  }

  lemma Shifted(xs: seq<Item>, us: seq<Value>)
    requires xs != [] && us != [] && AllScalars(xs) && AllScalars(xs[1..]) && IsScalarArgument(xs[0])
    ensures SameMeanings(xs, us) <==> GoTrees.MeaningOf(us[0]) == GivenMeaning(xs[0]) && SameMeanings(xs[1..], us[1..])
  {
    hide GivenMeaning, GoTrees.MeaningOf, IsScalarArgument;
    if SameMeanings(xs[1..], us[1..]) && GoTrees.MeaningOf(us[0]) == GivenMeaning(xs[0]) {
      forall i | 0 <= i < |xs| ensures GoTrees.MeaningOf(us[i]) == GivenMeaning(xs[i]) {
        if i > 0 { assert us[1..][i - 1] == us[i] && xs[1..][i - 1] == xs[i]; }
      }
    }
  }

  /** A left-over byte stops the reading of the entry, or ends it early. */
  lemma GoGapStops(left: byte, tail: Text)
    requires Delimited(tail)
    ensures var r := ReadVals([left] + tail, []); r.Ok? ==> r.rest == tail
  {
    hide GoNegative, ReadItems, ReadEntries, Special;
    var s := [left] + tail;
    assert s[1..] == tail;
    assert !IsHexDigit(Peek(tail, 0)) && tail != [];
  }

  /** The values are given back exactly when the first comes back and the others are given back. */
  lemma FirstInGo(xs: seq<Item>, left: byte, tail: Text, rest: Text)
    requires xs != [] && AllScalars(xs) && AllScalars(xs[1..]) && IsScalarArgument(xs[0]) && Delimited(tail) && |tail| > |rest|
    ensures ReturnedInGo(xs, ReadVals([SP] + ItemText(xs[0], left) + tail, []), rest) <==>
            GoComesBack(xs[0]) && ReturnedInGo(xs[1..], ReadVals(tail, []), rest)
  {
    hide ReadValue, ReadVals, ItemText, GivenMeaning, SameMeanings, Delimited, GoTrees.MeaningOf;
    var x := xs[0];
    var s := [SP] + ItemText(x, left) + tail;
    if !GoComesBack(x) {
      NegativeItemInGo(x, left, tail);
      GoGapStops(left, tail);
    } else {
      GoReadsArgument(x, left, tail);
    }
    var r := ReadValue(s, 1);
    if r.Ok? {
      FirstOfVals(s);
      if ReadVals(r.rest, []).Ok? { SameFirstMeaning(xs, r.v, ReadVals(r.rest, []).v); }
    } else {
      NoVals(s);
    }
  }

  lemma NoVals(s: Text)
    requires !ReadValue(s, 1).Ok? && !ReadValue(s, 1).Eof?
    ensures !ReadVals(s, []).Ok?
  {
    hide ReadValue;
  }

  lemma NegativeItemInGo(x: Item, left: byte, rest: Text)
    requires IsScalarArgument(x) && !GoComesBack(x)
    ensures var r := ReadValue([SP] + ItemText(x, left) + rest, 1);
            !r.Eof? && (r.Ok? && GoTrees.MeaningOf(r.v) == GivenMeaning(x) ==> r.rest == [left] + rest)
  {
    hide ReadValue, GoTrees.MeaningOf, TokenMeaning;
    GoNegativeLost(x.v.t.n, left, rest);
  }

  lemma {:induction false} EntryInGo(xs: seq<Item>, at: nat, before: Text, rest: Text)
    requires AllScalars(xs)
    ensures ReturnedInGo(xs, ReadVals(ValuesText(xs, at, before) + [NL] + rest, []), rest) <==> AllComeBackInGo(xs)
  {
    hide ReadVals, Printed, ReturnedInGo, GoComesBack, AllScalars, IsScalarArgument, AllComeBackInGo, ValuesText, Delimited;
    ScalarsPrint(xs);
    FirstPrinted(xs, at, before, rest);
    FirstComesBackInGo(xs);
    if xs == [] {
      NothingInGo(rest);
    } else {
      var t := Printed(xs[0], at + 1, before);
      var tail := ValuesText(xs[1..], at + 1 + |t|, before) + [NL] + rest;
      EntryInGo(xs[1..], at + 1 + |t|, before, rest);
      FirstInGoPrinted(xs, at, before, tail, rest);
    }
  }

  lemma FirstComesBackInGo(xs: seq<Item>)
    requires AllScalars(xs)
    ensures xs == [] ==> AllComeBackInGo(xs)
    ensures xs != [] ==>
              && AllScalars(xs[1..]) && IsScalarArgument(xs[0])
              && (AllComeBackInGo(xs) <==> GoComesBack(xs[0]) && AllComeBackInGo(xs[1..]))
  {
    hide GoComesBack, IsScalarArgument;
    if xs != [] {
      ScalarsPrint(xs);
      if GoComesBack(xs[0]) && AllComeBackInGo(xs[1..]) {
        forall i | 0 <= i < |xs| ensures GoComesBack(xs[i]) {
          if i > 0 { assert xs[1..][i - 1] == xs[i]; }
        }
      }
    }
  }

  lemma FirstInGoPrinted(xs: seq<Item>, at: nat, before: Text, tail: Text, rest: Text)
    requires xs != [] && AllScalars(xs) && AllScalars(xs[1..]) && IsScalarArgument(xs[0]) && Delimited(tail) && |tail| > |rest|
    ensures ReturnedInGo(xs, ReadVals([SP] + Printed(xs[0], at + 1, before) + tail, []), rest) <==>
            GoComesBack(xs[0]) && ReturnedInGo(xs[1..], ReadVals(tail, []), rest)
  {
    hide ReadVals, ItemText, ReturnedInGo, Delimited;
    FirstInGo(xs, Was(before, at + 1 + |ItemText(xs[0], 0)| - 1), tail, rest);
  }

  lemma NothingInGo(rest: Text)
    ensures ReadVals([NL] + rest, []) == Ok([], rest) && ReturnedInGo([], Ok([], rest), rest)
  {
    GoTrees.EndOfEntry(rest);
    GoTrees.EndOfVals(rest, []);
  }

  /** What the C formatter makes of a message of scalars, whatever the buffer held, is read by Go, value for value and up to
      the end of the buffer, exactly when no negative integer was printed as `%p`. */
  lemma GoReadsMessage(typ: byte, xs: seq<Item>, before: Text)
    requires AllScalars(xs)
    ensures AllGood(MessageItems(typ, xs))
    ensures ReturnedInGo(xs, EntryVals(Output(MessageItems(typ, xs), 0, before)), []) <==> AllComeBackInGo(xs)
  {
    hide ReadVals, ReturnedInGo, AllComeBackInGo, Output, ValuesText, MessageItems;
    ScalarsPrint(xs);
    MessageText(typ, xs, before);
    var v := ValuesText(xs, 1, before);
    var out := [typ] + v + [NL];
    assert out[1..] == v + [NL] + [];
    EntryInGo(xs, 1, before, []);
  }
}
