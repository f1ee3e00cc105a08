/** Indexes out of range in the Go parser, on slices that end in a newline: there is one way to them, an entry that is a
    newline and nothing else. */
module GoSafety {
  import opened Words
  import opened Hex
  import opened Numbers
  import opened Floats
  import opened Tokens
  import opened GoValues

  predicate EndsInNewline(s: Text) { s != [] && s[|s| - 1] == NL }

  /** What reading such a slice may come to: no index out of range, and a rest of the same kind, or none after a newline. */
  predicate Safe<T>(o: Outcome<T>) {
    && o != Panic(OutOfRange)
    && (o.Ok? ==> EndsInNewline(o.rest))
    && (o.Eof? ==> o.rest == [] || EndsInNewline(o.rest))
  }

  /** A comparison with a text without newlines never runs off the end, nor up to it. */
  lemma {:induction false} SafeMatches(s: Text, t: Text)
    requires EndsInNewline(s) && NL !in t
    ensures !Matches(s, t).OffEnd?
    ensures Matches(s, t).Yes? ==> |t| < |s| && EndsInNewline(s[|t|..])
    decreases |t|
  {
    if t != [] && s[0] == t[0] {
      SafeMatches(s[1..], t[1..]);
      assert Matches(s, t).Yes? ==> s[|t|..] == s[1..][|t[1..]|..];
    }
  }

  /** Nor does a scan: the newline is left over. */
  lemma SafeScan(s: Text)
    requires EndsInNewline(s)
    ensures ScanHex(s).Hex? ==> EndsInNewline(ScanHex(s).rest)
  {
    if IsHexDigit(s[0] as int) && s[0] != ZERO {
      SafeLoop(DigitValue(s[0]), s[1..]);
    }
  }

  lemma {:induction false} SafeLoop(v: uint64, s: Text)
    requires EndsInNewline(s)
    ensures EndsInNewline(HexLoop(v, s).rest)
    decreases |s|
  {
    if IsHexDigit(Peek(s, 0)) && (16 * v) % TWO64 >= v {
      SafeLoop((16 * v) % TWO64 + DigitValue(s[0]), s[1..]);
    }
  }

  lemma SafeExponent(s: Text, overflow: nat)
    requires EndsInNewline(s)
    ensures Safe(GoExponent(s, overflow))
  {
    hide ScanHex;
    SafeScan(s);
    if s[0] == MINUS { SafeScan(s[1..]); }
  }

  lemma SafeNegative(s: Text)
    requires EndsInNewline(s)
    ensures Safe(GoNegative(s))
  {
    hide ScanHex, GoExponent, BuildFloat64, ShiftLeft, LeadingZeros;
    SafeMatches(s, INF_TEXT);
    SafeScan(s);
    if ScanHex(s).Hex? && ScanHex(s).rest[0] == CH_P { SafeExponent(ScanHex(s).rest[1..], ScanHex(s).excess); }
  }

  lemma SafeUnsigned(s: Text)
    requires EndsInNewline(s)
    ensures Safe(GoUnsigned(s))
  {
    hide ScanHex, GoExponent, BuildFloat64, ShiftLeft, LeadingZeros;
    SafeScan(s);
    if ScanHex(s).Hex? && ScanHex(s).rest[0] == CH_P { SafeExponent(ScanHex(s).rest[1..], ScanHex(s).excess); }
  }

  /** Reading a value from a slice that ends in a newline never indexes out of range. */
  lemma {:induction false} SafeValue(s: Text, depth: nat)
    requires EndsInNewline(s)
    ensures Safe(ReadValue(s, depth))
    decreases |s|, 0
  {
    hide GoNegative, GoUnsigned, Matches, ReadItems, ReadEntries;
    if depth <= MAX_DEPTH && s[0] == SP {
      var c, t := s[1], s[2..];
      if c == CH_N {
        SafeMatches(t, NAN_TEXT[1..]);
      } else if c == CH_I {
        SafeMatches(t, INF_TEXT[1..]);
      } else if c == L_BRACE {
        SafeEntries(t, depth, []);
      } else if c == L_BRACKET {
        SafeItems(t, depth, []);
      } else if c == MINUS {
        SafeNegative(t);
      } else if c != CH_T && c != CH_F {
        SafeUnsigned(s[1..]);
      }
    }
  }

  lemma {:induction false} SafeItems(s: Text, depth: nat, acc: seq<Value>)
    requires EndsInNewline(s)
    ensures Safe(ReadItems(s, depth, acc))
    decreases |s|, 1
  {
    hide ReadValue, Matches;
    SafeMatches(s, [SP, R_BRACKET]);
    SafeValue(s, depth + 1);
    var r := ReadValue(s, depth + 1);
    if r.Ok? { SafeItems(r.rest, depth, acc + [r.v]); }
  }

  lemma {:induction false} SafeEntries(s: Text, depth: nat, acc: seq<Entry>)
    requires EndsInNewline(s)
    ensures Safe(ReadEntries(s, depth, acc))
    decreases |s|, 1
  {
    hide ReadValue, Matches, Hashable, HasKey;
    SafeMatches(s, [SP, R_BRACE]);
    SafeValue(s, depth + 1);
    var k := ReadValue(s, depth + 1);
    if k.Ok? {
      SafeValue(k.rest, depth + 1);
      var v := ReadValue(k.rest, depth + 1);
      if v.Ok? { SafeEntries(v.rest, depth, acc + [Entry(k.v, v.v)]); }
    }
  }

  /** Nor does reading the values of an entry, after its type byte: it ends at the end of the slice or before another entry. */
  lemma {:induction false} SafeVals(s: Text, acc: seq<Value>)
    requires EndsInNewline(s)
    ensures var o := ReadVals(s, acc); o != Panic(OutOfRange) && (o.Ok? ==> o.rest == [] || EndsInNewline(o.rest))
    decreases |s|
  {
    hide ReadValue;
    SafeValue(s, 1);
    var r := ReadValue(s, 1);
    if r.Ok? { SafeVals(r.rest, acc + [r.v]); }
  }

  /** Reading an entry from such a slice indexes out of range exactly when the slice is a newline and nothing else, the byte
      skipped as the type being the newline that was to end the entry. */
  lemma EntryOutOfRange(s: Text)
    requires EndsInNewline(s)
    ensures EntryVals(s) == Panic(OutOfRange) <==> s == [NL]
    ensures EntryVals(s).Ok? ==> EntryVals(s).rest == [] || EndsInNewline(EntryVals(s).rest)
  {
    hide ReadVals;
    if |s| == 1 {
      assert s == [NL] && s[1..] == [];
      NothingToRead();
    } else {
      SafeVals(s[1..], []);
    }
  }

  lemma NothingToRead()
    ensures ReadVals([], []) == Panic(OutOfRange)
  {
  }

  /** After the entries that can be read, a lone newline is left. */
  predicate Strands(s: Text)
    decreases |s|
  {
    s != [] && (s == [NL] || (EntryVals(s).Ok? && Strands(EntryVals(s).rest)))
  }

  /** Reading a message indexes out of range exactly when it strands on a lone newline. */
  lemma {:induction false} MessageOutOfRange(s: Text)
    requires s == [] || EndsInNewline(s)
    ensures ReadMessages(s) == Panic(OutOfRange) <==> Strands(s)
    decreases |s|
  {
    hide EntryVals;
    if s != [] {
      EntryOutOfRange(s);
      if EntryVals(s).Ok? { MessageOutOfRange(EntryVals(s).rest); }
    }
  }

  /** The texts on which a parser fails so: a newline alone, and an entry with an empty one behind it. */
  lemma StrandedInputs()
    ensures EntryVals([NL]) == Panic(OutOfRange) && ReadMessages([NL]) == Panic(OutOfRange)
    ensures ReadMessages([0x52, NL, NL]) == Panic(OutOfRange)
  {
    hide ReadVals;
    EntryOutOfRange([NL]);
    assert [0x52, NL, NL][1..] == [NL] + [NL] && [NL] + [NL] == [NL, NL] && [NL, NL][1..] == [NL];
    assert ReadVals([NL, NL], []) == Ok([], [NL]) by { EmptyEntry([NL]); }
    assert EntryVals([0x52, NL, NL]) == Ok([], [NL]);
  }

  lemma EmptyEntry(rest: Text)
    ensures ReadVals([NL] + rest, []) == Ok([], rest)
  {
    assert ([NL] + rest)[1..] == rest;
    assert ReadValue([NL] + rest, 1) == Eof(rest);
  }

  // ----- a message that strands ends in two newlines

  predicate Tail(t: Text, s: Text) { |t| < |s| && t == s[|s| - |t|..] }

  /** What is left is the end of what was there, and after the end of an entry it follows a newline. */
  predicate Leaves<T>(s: Text, o: Outcome<T>) {
    && (o.Ok? ==> Tail(o.rest, s))
    && (o.Eof? ==> Tail(o.rest, s) && s[|s| - |o.rest| - 1] == NL)
  }

  lemma LeavesLater(t: Text, s: Text, o: Outcome<Value>)
    requires Leaves(t, o) && (t == s || Tail(t, s))
    ensures Leaves(s, o)
  {
  }

  lemma LeavesField(s: Text)
    requires ScanHex(s).Hex?
    ensures Tokens.Tail(ScanHex(s).rest, s) && |ScanHex(s).rest| < |s|
  {
    ScanTail(s);
  }

  lemma LeavesExponent(s: Text, overflow: nat)
    ensures Leaves(s, GoExponent(s, overflow))
  {
    hide ScanHex;
    var t := if Peek(s, 0) == MINUS as int then s[1..] else s;
    if t != [] && ScanHex(t).Hex? { LeavesField(t); }
  }

  lemma LeavesNegative(s: Text)
    ensures Leaves(s, GoNegative(s))
  {
    hide ScanHex, GoExponent, BuildFloat64, ShiftLeft, LeadingZeros, Matches;
    if s != [] && ScanHex(s).Hex? {
      LeavesField(s);
      var f := ScanHex(s);
      if f.rest != [] { LeavesExponent(f.rest[1..], f.excess); }
    }
  }

  lemma LeavesUnsigned(s: Text)
    ensures Leaves(s, GoUnsigned(s))
  {
    hide ScanHex, GoExponent, BuildFloat64, ShiftLeft, LeadingZeros;
    if s != [] && ScanHex(s).Hex? {
      LeavesField(s);
      var f := ScanHex(s);
      if f.rest != [] { LeavesExponent(f.rest[1..], f.excess); }
    }
  }

  lemma {:induction false} LeavesValue(s: Text, depth: nat)
    ensures Leaves(s, ReadValue(s, depth))
    decreases |s|, 0
  {
    hide GoNegative, GoUnsigned, Special, ReadItems, ReadEntries, Tail, Leaves;
    LeavesStart(s);
    if depth <= MAX_DEPTH && |s| > 1 && s[0] == SP {
      var c, t := s[1], s[2..];
      if c == L_BRACE {
        LeavesEntries(t, depth, []);
        LeavesLater(t, s, ReadEntries(t, depth, []));
      } else if c == L_BRACKET {
        LeavesItems(t, depth, []);
        LeavesLater(t, s, ReadItems(t, depth, []));
      } else if c == CH_N {
        LeavesSpecial(t, NAN_TEXT[1..], GO_NAN);
        LeavesLater(t, s, Special(t, NAN_TEXT[1..], GO_NAN));
      } else if c == CH_I {
        LeavesSpecial(t, INF_TEXT[1..], POSITIVE_INFINITY);
        LeavesLater(t, s, Special(t, INF_TEXT[1..], POSITIVE_INFINITY));
      } else if c == MINUS {
        LeavesNegative(t);
        LeavesLater(t, s, GoNegative(t));
      } else if c != CH_T && c != CH_F {
        LeavesUnsigned(s[1..]);
        LeavesLater(s[1..], s, GoUnsigned(s[1..]));
      }
    }
  }

  /** The first one or two bytes taken off. */
  lemma LeavesStart(s: Text)
    ensures s != [] ==> Tail(s[1..], s)
    ensures |s| > 1 ==> Tail(s[2..], s) && forall v: Value :: Leaves(s, Ok(v, s[2..]))
    ensures s != [] && s[0] == NL ==> forall v: Outcome<Value> :: v == Eof(s[1..]) ==> Leaves(s, v)
    ensures forall v: Outcome<Value> :: v.Err? || v.Panic? ==> Leaves(s, v)
  {
  }

  lemma LeavesSpecial(t: Text, name: Text, u: uint64)
    requires name != []
    ensures Leaves(t, Special(t, name, u))
  {
    hide Matches;
  }

  lemma {:induction false} LeavesItems(s: Text, depth: nat, acc: seq<Value>)
    ensures Leaves(s, ReadItems(s, depth, acc))
    decreases |s|, 1
  {
    hide ReadValue, Matches;
    LeavesValue(s, depth + 1);
    var r := ReadValue(s, depth + 1);
    if r.Ok? {
      LeavesItems(r.rest, depth, acc + [r.v]);
      LeavesLater(r.rest, s, ReadItems(r.rest, depth, acc + [r.v]));
    }
  }

  lemma {:induction false} LeavesEntries(s: Text, depth: nat, acc: seq<Entry>)
    ensures Leaves(s, ReadEntries(s, depth, acc))
    decreases |s|, 1
  {
    hide ReadValue, Matches, Hashable, HasKey;
    LeavesValue(s, depth + 1);
    var k := ReadValue(s, depth + 1);
    if k.Ok? {
      LeavesValue(k.rest, depth + 1);
      var v := ReadValue(k.rest, depth + 1);
      LeavesLater(k.rest, s, v);
      if v.Ok? {
        var more := ReadEntries(v.rest, depth, acc + [Entry(k.v, v.v)]);
        LeavesEntries(v.rest, depth, acc + [Entry(k.v, v.v)]);
        LeavesLater(v.rest, s, more);
      }
    }
  }

  /** The values of an entry are read up to a newline, and what follows it is left. */
  lemma {:induction false} LeavesVals(s: Text, acc: seq<Value>)
    ensures var o := ReadVals(s, acc); o.Ok? ==> Tail(o.rest, s) && s[|s| - |o.rest| - 1] == NL
    decreases |s|
  {
    hide ReadValue;
    LeavesValue(s, 1);
    var r := ReadValue(s, 1);
    if r.Ok? { LeavesVals(r.rest, acc + [r.v]); }
  }

  /** So a caller that refuses a lone newline and slices that end in two of them cannot meet an index out of range. */
  lemma {:induction false} StrandedEnd(s: Text)
    requires Strands(s)
    ensures s == [NL] || (|s| >= 2 && s[|s| - 2] == NL && s[|s| - 1] == NL)
    decreases |s|
  {
    hide ReadVals;
    if s != [NL] {
      var o := EntryVals(s);
      LeavesVals(s[1..], []);
      StrandedEnd(o.rest);
    }
  }
}
