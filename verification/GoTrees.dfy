/** Whole values, entries and messages printed and read back in Go. */
module GoTrees {
  import opened Words
  import opened Hex
  import opened Numbers
  import opened Tokens
  import opened Messages
  import opened GoFormat
  import opened GoValues
  import opened GoNumbers

  // ----- what a value means

  /** A value up to the machine type that holds its numbers. */
  datatype Meaning =
    | MBool(b: bool)
    | MNumber(n: Number)
    | MString(s: Text)
    | MBytes(s: Text)
    | MArray(items: seq<Meaning>)
    | MMap(entries: seq<MeaningPair>)
    | MOther

  datatype MeaningPair = MeaningPair(key: Meaning, val: Meaning)

  function MeaningOf(v: Value): Meaning {
    match v
    case VBool(b) => MBool(b)
    case VUint(n) => MNumber(OfInt(n))
    case VInt(i) => MNumber(OfInt(i))
    case VFloat(u) => MNumber(OfDouble(u))
    case VString(s) => MString(s)
    case VBytes(s) => MBytes(s)
    case VArray(items) => MArray(ItemsMeaning(items))
    case VMap(entries) => MMap(EntriesMeaning(entries))
    case VOther => MOther
  }

  function ItemsMeaning(items: seq<Value>): seq<Meaning> {
    if items == [] then [] else [MeaningOf(items[0])] + ItemsMeaning(items[1..])
  }

  function EntriesMeaning(entries: seq<Entry>): seq<MeaningPair> {
    if entries == [] then [] else [PairMeaning(entries[0])] + EntriesMeaning(entries[1..])
  }

  function PairMeaning(e: Entry): MeaningPair { MeaningPair(MeaningOf(e.key), MeaningOf(e.val)) }

  lemma {:induction false} ItemsMeaningAppend(a: seq<Value>, v: Value)
    ensures ItemsMeaning(a + [v]) == ItemsMeaning(a) + [MeaningOf(v)]
  {
    hide MeaningOf;
    if a == [] {
      assert a + [v] == [v];
    } else {
      assert (a + [v])[1..] == a[1..] + [v];
      ItemsMeaningAppend(a[1..], v);
    }
  }

  lemma {:induction false} EntriesMeaningAppend(a: seq<Entry>, e: Entry)
    ensures EntriesMeaning(a + [e]) == EntriesMeaning(a) + [PairMeaning(e)]
  {
    hide PairMeaning;
    if a == [] {
      assert a + [e] == [e];
    } else {
      assert (a + [e])[1..] == a[1..] + [e];
      EntriesMeaningAppend(a[1..], e);
    }
  }

  /** Meanings read so far, extended by the first of those to come, or by none. */
  lemma ItemsMeaningNext(x: seq<Meaning>, items: seq<Value>)
    ensures items == [] ==> x + ItemsMeaning(items) == x
    ensures items != [] ==> x + [MeaningOf(items[0])] + ItemsMeaning(items[1..]) == x + ItemsMeaning(items)
  {
    hide MeaningOf;
  }

  lemma EntriesMeaningNext(x: seq<MeaningPair>, entries: seq<Entry>)
    ensures entries == [] ==> x + EntriesMeaning(entries) == x
    ensures entries != [] ==> x + [PairMeaning(entries[0])] + EntriesMeaning(entries[1..]) == x + EntriesMeaning(entries)
  {
    hide PairMeaning;
  }

  // ----- which values the formatter knows

  /** Something of an unknown kind is inside. */
  predicate HasOther(m: Meaning) {
    match m
    case MArray(items) => AnyOther(items)
    case MMap(entries) => AnyPairOther(entries)
    case _ => m.MOther?
  }

  predicate AnyOther(items: seq<Meaning>) { items != [] && (HasOther(items[0]) || AnyOther(items[1..])) }

  predicate AnyPairOther(entries: seq<MeaningPair>) { entries != [] && (PairOther(entries[0]) || AnyPairOther(entries[1..])) }

  predicate PairOther(e: MeaningPair) { HasOther(e.key) || HasOther(e.val) }

  /** `AppendValue` succeeds exactly on values that hold nothing but booleans, numbers, strings, bytes, arrays and maps. */
  lemma {:induction false} KnownExactly(v: Value)
    ensures Known(v) <==> !HasOther(MeaningOf(v))
    decreases v, 0
  {
    match v
    case VArray(items) => ItemsKnown(items);
    case VMap(entries) => PairsKnown(entries);
    case _ =>
  }

  lemma {:induction false} ItemsKnown(items: seq<Value>)
    ensures AllKnown(items) <==> !AnyOther(ItemsMeaning(items))
    decreases items, 1
  {
    hide Known, HasOther, MeaningOf;
    if items != [] {
      KnownExactly(items[0]);
      ItemsKnown(items[1..]);
      FrontKnown(items);
      assert ItemsMeaning(items)[1..] == ItemsMeaning(items[1..]);
    }
  }

  lemma FrontKnown(items: seq<Value>)
    requires items != []
    ensures AllKnown(items) <==> Known(items[0]) && AllKnown(items[1..])
  {
    hide Known;
    if Known(items[0]) && AllKnown(items[1..]) {
      forall i | 0 <= i < |items| ensures Known(items[i]) {
        if i > 0 { assert items[1..][i - 1] == items[i]; }
      }
    }
  }

  lemma {:induction false} PairsKnown(entries: seq<Entry>)
    ensures EntriesKnown(entries) <==> !AnyPairOther(EntriesMeaning(entries))
    decreases entries, 1
  {
    hide Known, HasOther, MeaningOf, PairKnown;
    if entries != [] {
      OnePairKnown(entries[0]);
      PairsKnown(entries[1..]);
      FrontPairKnown(entries);
      assert EntriesMeaning(entries)[1..] == EntriesMeaning(entries[1..]);
    }
  }

  lemma {:induction false} OnePairKnown(e: Entry)
    ensures PairKnown(e) <==> !PairOther(PairMeaning(e))
    decreases e, 1
  {
    hide Known, HasOther, MeaningOf;
    KnownExactly(e.key);
    KnownExactly(e.val);
  }

  lemma FrontPairKnown(entries: seq<Entry>)
    requires entries != []
    ensures EntriesKnown(entries) <==> PairKnown(entries[0]) && EntriesKnown(entries[1..])
  {
    hide PairKnown;
    if PairKnown(entries[0]) && EntriesKnown(entries[1..]) {
      forall i | 0 <= i < |entries| ensures PairKnown(entries[i]) {
        if i > 0 { assert entries[1..][i - 1] == entries[i]; }
      }
    }
  }

  // ----- what can be printed

  /** A scalar counts one, a container one more than its highest member. */
  function Height(v: Value): nat {
    match v
    case VArray(items) => 1 + ItemsHeight(items)
    case VMap(entries) => 1 + EntriesHeight(entries)
    case _ => 1
  }

  function ItemsHeight(items: seq<Value>): nat {
    if items == [] then 0 else Max(Height(items[0]), ItemsHeight(items[1..]))
  }

  function EntriesHeight(entries: seq<Entry>): nat {
    if entries == [] then 0 else Max(PairHeight(entries[0]), EntriesHeight(entries[1..]))
  }

  function PairHeight(e: Entry): nat { Max(Height(e.key), Height(e.val)) }

  /** Hex fields of at most eight digits, and keys that are booleans, numbers or strings and stay apart. */
  predicate Printable(v: Value) {
    match v
    case VBool(_) => true
    case VString(s) => |s| < TWO32
    case VBytes(s) => |s| < TWO32
    case VArray(items) => AllPrintable(items)
    case VMap(entries) => EntriesPrintable(entries)
    case VOther => false
    case _ => Short(NumberOf(v))
  }

  predicate AllPrintable(items: seq<Value>) { items == [] || (Printable(items[0]) && AllPrintable(items[1..])) }

  predicate EntriesPrintable(entries: seq<Entry>) {
    entries == [] ||
    (PairPrintable(entries[0]) && EntriesPrintable(entries[1..]) && Apart(MeaningOf(entries[0].key), entries[1..]))
  }

  /** The kinds of value that Go can compare as keys. */
  predicate KeyKind(v: Value) { v.VBool? || IsNumeric(v) || v.VString? }

  predicate PairPrintable(e: Entry) { KeyKind(e.key) && Printable(e.key) && Printable(e.val) }

  /** No entry has the key `m`; a NaN key is never the same as another. */
  predicate Apart(m: Meaning, entries: seq<Entry>) {
    m == MNumber(NaN) || forall i :: 0 <= i < |entries| ==> MeaningOf(entries[i].key) != m
  }

  lemma EqualKeysMean(v: Value, w: Value)
    requires GoEqual(v, w)
    ensures MeaningOf(v) == MeaningOf(w) && MeaningOf(v) != MNumber(NaN)
  {
    if v.VFloat? {
      hide Pow2;
    } else if IsNumeric(v) {
      assert !OfInt(if v.VUint? then v.n else v.i).NaN?;
    }
  }

  lemma KindByMeaning(v: Value, w: Value)
    requires MeaningOf(v) == MeaningOf(w)
    ensures KeyKind(v) <==> KeyKind(w)
    ensures v == VOther <==> w == VOther
    ensures KeyKind(w) ==> v != VOther
  {
  }

  /** The reader can use a value as a key exactly if it is of one of these kinds. */
  lemma KeyHashable(v: Value)
    requires v != VOther
    ensures Hashable(v) <==> KeyKind(v)
  {
  }

  // ----- scalars

  /** The text of a printable scalar number is its one spelling. */
  lemma NumberText(v: Value)
    requires IsNumeric(v) && Printable(v)
    ensures ValueText(v) == [SP] + Spell(NumberOf(v))
  {
    hide Spell, GoUintText, GoFloatText, OfMagnitude;
    match v
    case VUint(n) => UintTextExact(false, n);
    case VInt(i) => UintTextExact(i < 0, if i < 0 then -(i as int) else i);
    case VFloat(u) => FloatTextExact(u);
  }

  lemma SpellStart(n: Number)
    ensures Spell(n) != [] && Spell(n)[0] !in {NL, R_BRACKET, R_BRACE}
  {
    if n.Finite? {
      var d := HexDigits(n.Shown());
      assert IsHexDigit(d[0] as int);
      assert Spell(n)[0] == if n.neg then MINUS else d[0];
    }
  }

  /** A value's text starts with a space and never looks like a closing bracket. */
  lemma ValueStart(v: Value)
    requires Printable(v)
    ensures |ValueText(v)| >= 2 && ValueText(v)[0] == SP && ValueText(v)[1] !in {NL, R_BRACKET, R_BRACE}
  {
    hide Spell, GoHex, Short;
    if IsNumeric(v) {
      NumberText(v);
      SpellStart(NumberOf(v));
    } else if v.VString? || v.VBytes? {
      GoHexExact(|v.s|);
      var d := HexDigits(|v.s|);
      assert IsHexDigit(d[0] as int);
      assert ValueText(v)[1] == d[0];
    }
  }

  lemma NotClosing(v: Value, rest: Text, close: byte)
    requires Printable(v) && close in {R_BRACKET, R_BRACE}
    ensures Matches(ValueText(v) + rest, [SP, close]) == No
  {
    hide ValueText, Printable;
    ValueStart(v);
    var s := ValueText(v) + rest;
    assert s[1..][0] == s[1] == ValueText(v)[1];
    assert [SP, close][1..] == [close];
  }

  lemma SizedTrip(delim: byte, body: Text, rest: Text, depth: nat)
    requires (delim == COLON || delim == BAR) && |body| < TWO32 && rest != [] && depth <= MAX_DEPTH
    ensures ReadValue(GoSizedText(delim, body) + rest, depth) == Ok(if delim == BAR then VBytes(body) else VString(body), rest)
  {
    hide HexDigits, GoHex, GoScan, GoUnsigned, ReadValue;
    var s := GoSizedText(delim, body) + rest;
    var d := HexDigits(|body|);
    var tail := [delim] + (body + rest);
    GoHexExact(|body|);
    assert s[1..] == d + tail;
    DigitsFirst(|body|, tail);
    GoDispatch(s, depth);
    SizedField(delim, body, rest);
  }

  lemma SizedField(delim: byte, body: Text, rest: Text)
    requires (delim == COLON || delim == BAR) && |body| < TWO32 && rest != []
    ensures GoUnsigned(HexDigits(|body|) + ([delim] + (body + rest))) == Ok(if delim == BAR then VBytes(body) else VString(body), rest)
  {
    hide HexDigits, GoScan;
    var tail := [delim] + (body + rest);
    DigitsFirst(|body|, tail);
    assert tail[1..] == body + rest;
    assert (body + rest)[..|body|] == body && (body + rest)[|body|..] == rest;
  }

  lemma ScalarTrip(v: Value, rest: Text, depth: nat)
    requires !v.VArray? && !v.VMap? && Printable(v) && Delimited(rest) && depth <= MAX_DEPTH
    ensures var r := ReadValue(ValueText(v) + rest, depth); r.Ok? && r.rest == rest && MeaningOf(r.v) == MeaningOf(v)
  {
    if v.VBool? {
      hide ReadItems, ReadEntries, GoNegative, GoUnsigned;
      var s := ValueText(v) + rest;
      assert s[0] == SP && s[1] == ValueText(v)[1] && s[2..] == rest;
    } else if v.VString? {
      SizedTrip(COLON, v.s, rest, depth);
    } else if v.VBytes? {
      SizedTrip(BAR, v.s, rest, depth);
    } else {
      NumberTrip(v, rest, depth);
    }
  }

  lemma NumberTrip(v: Value, rest: Text, depth: nat)
    requires IsNumeric(v) && Printable(v) && Delimited(rest) && depth <= MAX_DEPTH
    ensures var r := ReadValue(ValueText(v) + rest, depth); r.Ok? && r.rest == rest && MeaningOf(r.v) == MeaningOf(v)
  {
    hide ReadValue, Spell, Short, ValueText, OfInt, OfDouble;
    NumberText(v);
    match v
    case VUint(n) => IntegerReadsBack(n, rest, depth);
    case VInt(i) => IntegerReadsBack(i, rest, depth);
    case VFloat(u) => DoubleReadsBackInGo(u, rest, depth);
  }

  // ----- trees

  /** The bracket after which a container's members are read. */
  lemma Opening(open: byte, body: Text, depth: nat)
    requires (open == L_BRACKET || open == L_BRACE) && depth <= MAX_DEPTH
    ensures ReadValue([SP, open] + body, depth) == if open == L_BRACKET then ReadItems(body, depth, []) else ReadEntries(body, depth, [])
  {
    hide ReadItems, ReadEntries, GoNegative, GoUnsigned, Special;
    var s := [SP, open] + body;
    assert s[2..] == body;
  }

  /** The tree round trip: a printed tree is read back with the same meaning, leaving exactly the tail, when and only when
      it is not too high; otherwise the reader answers that it is too deep. */
  lemma {:induction false} ValueTrip(v: Value, rest: Text, depth: nat)
    requires Printable(v) && Delimited(rest)
    ensures var r := ReadValue(ValueText(v) + rest, depth);
            if depth + Height(v) <= MAX_DEPTH + 1 then r.Ok? && r.rest == rest && MeaningOf(r.v) == MeaningOf(v)
            else r == Err(TooDeep)
    decreases v, 0
  {
    if depth > MAX_DEPTH {
      TooDeepAtOnce(ValueText(v) + rest, depth);
    } else if v.VArray? {
      hide ReadValue, ReadItems, ItemsText;
      var body := ItemsText(v.items) + [SP, R_BRACKET] + rest;
      assert ValueText(v) + rest == [SP, L_BRACKET] + body;
      Opening(L_BRACKET, body, depth);
      ItemsTrip(v.items, rest, depth, []);
      assert [] + ItemsMeaning(v.items) == ItemsMeaning(v.items);
    } else if v.VMap? {
      hide ReadValue, ReadEntries, EntriesText;
      var body := EntriesText(v.entries) + [SP, R_BRACE] + rest;
      assert ValueText(v) + rest == [SP, L_BRACE] + body;
      Opening(L_BRACE, body, depth);
      EntriesTrip(v.entries, rest, depth, []);
      assert [] + EntriesMeaning(v.entries) == EntriesMeaning(v.entries);
    } else {
      hide ReadValue, ValueText, MeaningOf, Printable;
      ScalarTrip(v, rest, depth);
    }
  }

  lemma TooDeepAtOnce(s: Text, depth: nat)
    requires depth > MAX_DEPTH
    ensures ReadValue(s, depth) == Err(TooDeep)
  {
  }

  lemma DelimitedItems(items: seq<Value>, close: Text)
    requires AllPrintable(items) && Delimited(close)
    ensures Delimited(ItemsText(items) + close)
  {
    if items == [] {
      assert ItemsText(items) + close == close;
    } else {
      ValueStart(items[0]);
      assert (ItemsText(items) + close)[0] == ValueText(items[0])[0];
    }
  }

  lemma ItemsSplit(items: seq<Value>, close: Text, rest: Text)
    requires items != []
    ensures ItemsText(items) + close + rest == ValueText(items[0]) + (ItemsText(items[1..]) + close + rest)
  {
    hide ValueText;
    Assoc(ValueText(items[0]), ItemsText(items[1..]), close);
    Assoc(ValueText(items[0]), ItemsText(items[1..]) + close, rest);
  }

  lemma NoItems(close: Text, rest: Text)
    ensures ItemsText([]) + close + rest == close + rest
  {
    assert [] + close == close;
  }

  lemma NoEntries(close: Text, rest: Text)
    ensures EntriesText([]) + close + rest == close + rest
  {
    assert [] + close == close;
  }

  lemma ItemsEnd(rest: Text, depth: nat, acc: seq<Value>)
    ensures ReadItems([SP, R_BRACKET] + rest, depth, acc) == Ok(VArray(acc), rest)
  {
    hide ReadValue;
    MatchesPrefix([SP, R_BRACKET], rest);
    assert ([SP, R_BRACKET] + rest)[2..] == rest;
  }

  /** One member of an array. */
  lemma {:induction false} ItemStep(v: Value, tail: Text, depth: nat, acc: seq<Value>)
    requires Printable(v) && Delimited(tail) && depth <= MAX_DEPTH
    ensures var s := ValueText(v) + tail;
            var r := ReadValue(s, depth + 1);
            if depth + Height(v) <= MAX_DEPTH then
              r.Ok? && MeaningOf(r.v) == MeaningOf(v) && ReadItems(s, depth, acc) == ReadItems(tail, depth, acc + [r.v])
            else ReadItems(s, depth, acc) == Err(TooDeep)
    decreases v, 1
  {
    hide ReadValue, ValueText, MeaningOf, Printable, Height;
    NotClosing(v, tail, R_BRACKET);
    ValueTrip(v, tail, depth + 1);
  }

  lemma {:induction false} ItemsTrip(items: seq<Value>, rest: Text, depth: nat, acc: seq<Value>)
    requires AllPrintable(items) && depth <= MAX_DEPTH
    ensures var r := ReadItems(ItemsText(items) + [SP, R_BRACKET] + rest, depth, acc);
            if depth + ItemsHeight(items) <= MAX_DEPTH then
              r.Ok? && r.rest == rest && r.v.VArray? && ItemsMeaning(r.v.items) == ItemsMeaning(acc) + ItemsMeaning(items)
            else r == Err(TooDeep)
    decreases items, 1
  {
    hide ReadItems, ReadValue, ValueText, ItemsText, MeaningOf, ItemsMeaning, Printable, Height;
    ItemsMeaningNext(ItemsMeaning(acc), items);
    if items == [] {
      NoItems([SP, R_BRACKET], rest);
      ItemsEnd(rest, depth, acc);
    } else {
      var v, tail := items[0], ItemsText(items[1..]) + [SP, R_BRACKET] + rest;
      ItemsSplit(items, [SP, R_BRACKET], rest);
      Assoc(ItemsText(items[1..]), [SP, R_BRACKET], rest);
      DelimitedItems(items[1..], [SP, R_BRACKET] + rest);
      ItemStep(v, tail, depth, acc);
      if depth + Height(v) <= MAX_DEPTH {
        var w := ReadValue(ValueText(v) + tail, depth + 1).v;
        ItemsTrip(items[1..], rest, depth, acc + [w]);
        ItemsMeaningAppend(acc, w);
      }
    }
  }

  /** No key already read equals a key still to come. */
  predicate AllApart(acc: seq<Entry>, entries: seq<Entry>) {
    forall i :: 0 <= i < |acc| ==> Apart(MeaningOf(acc[i].key), entries)
  }

  lemma NoDuplicate(acc: seq<Entry>, entries: seq<Entry>, k: Value)
    requires entries != [] && AllApart(acc, entries) && MeaningOf(k) == MeaningOf(entries[0].key)
    ensures !HasKey(acc, k)
  {
    forall e | e in acc
      ensures !GoEqual(e.key, k)
    {
      var i :| 0 <= i < |acc| && acc[i] == e;
      assert Apart(MeaningOf(acc[i].key), entries);
      if GoEqual(e.key, k) {
        EqualKeysMean(e.key, k);
      }
    }
  }

  lemma ApartNext(acc: seq<Entry>, entries: seq<Entry>, e: Entry)
    requires entries != [] && AllApart(acc, entries) && EntriesPrintable(entries)
    requires MeaningOf(e.key) == MeaningOf(entries[0].key)
    ensures AllApart(acc + [e], entries[1..])
  {
    hide MeaningOf, PairPrintable;
    forall i | 0 <= i < |acc + [e]|
      ensures Apart(MeaningOf((acc + [e])[i].key), entries[1..])
    {
      if i < |acc| { assert Apart(MeaningOf(acc[i].key), entries); }
    }
  }

  lemma DelimitedEntries(entries: seq<Entry>, close: Text)
    requires EntriesPrintable(entries) && Delimited(close)
    ensures Delimited(EntriesText(entries) + close)
  {
    if entries == [] {
      assert EntriesText(entries) + close == close;
    } else {
      ValueStart(entries[0].key);
      assert (EntriesText(entries) + close)[0] == ValueText(entries[0].key)[0];
    }
  }

  lemma EntriesSplit(entries: seq<Entry>, close: Text, rest: Text)
    requires entries != []
    ensures EntriesText(entries) + close + rest
            == ValueText(entries[0].key) + (ValueText(entries[0].val) + (EntriesText(entries[1..]) + close + rest))
  {
    hide ValueText;
    var a, b, c := ValueText(entries[0].key), ValueText(entries[0].val), EntriesText(entries[1..]);
    Assoc(a + b, c, close);
    Assoc(a + b, c + close, rest);
    Assoc(a, b, c + close + rest);
  }

  lemma EntriesEnd(rest: Text, depth: nat, acc: seq<Entry>)
    ensures ReadEntries([SP, R_BRACE] + rest, depth, acc) == Ok(VMap(acc), rest)
  {
    hide ReadValue;
    MatchesPrefix([SP, R_BRACE], rest);
    assert ([SP, R_BRACE] + rest)[2..] == rest;
  }

  /** One key and value of a map. */
  lemma {:induction false} EntryStep(e: Entry, tail: Text, depth: nat, acc: seq<Entry>, entries: seq<Entry>)
    requires entries != [] && entries[0] == e && PairPrintable(e) && AllApart(acc, entries)
    requires Delimited(tail) && depth <= MAX_DEPTH
    ensures var mid := ValueText(e.val) + tail;
            var s := ValueText(e.key) + mid;
            var k, v := ReadValue(s, depth + 1), ReadValue(mid, depth + 1);
            if depth + PairHeight(e) <= MAX_DEPTH then
              k.Ok? && v.Ok? && MeaningOf(k.v) == MeaningOf(e.key) && PairMeaning(Entry(k.v, v.v)) == PairMeaning(e)
              && ReadEntries(s, depth, acc) == ReadEntries(tail, depth, acc + [Entry(k.v, v.v)])
            else ReadEntries(s, depth, acc) == Err(TooDeep)
    decreases e, 2
  {
    hide ReadValue, ValueText, MeaningOf, Printable, Hashable, KeyKind, HasKey, AllApart, Height;
    var mid := ValueText(e.val) + tail;
    var s := ValueText(e.key) + mid;
    NotClosing(e.key, mid, R_BRACE);
    PairTrip(e, tail, depth + 1);
    var k := ReadValue(s, depth + 1);
    if k.Ok? {
      KindByMeaning(k.v, e.key);
      KeyHashable(k.v);
      NoDuplicate(acc, entries, k.v);
    }
  }

  lemma {:induction false} EntriesTrip(entries: seq<Entry>, rest: Text, depth: nat, acc: seq<Entry>)
    requires EntriesPrintable(entries) && AllApart(acc, entries) && depth <= MAX_DEPTH
    ensures var r := ReadEntries(EntriesText(entries) + [SP, R_BRACE] + rest, depth, acc);
            if depth + EntriesHeight(entries) <= MAX_DEPTH then
              r.Ok? && r.rest == rest && r.v.VMap? && EntriesMeaning(r.v.entries) == EntriesMeaning(acc) + EntriesMeaning(entries)
            else r == Err(TooDeep)
    decreases entries, 1
  {
    hide ReadEntries, ReadValue, ValueText, EntriesText, MeaningOf, PairMeaning, EntriesMeaning, PairPrintable, AllApart, Apart, PairHeight;
    EntriesMeaningNext(EntriesMeaning(acc), entries);
    if entries == [] {
      NoEntries([SP, R_BRACE], rest);
      EntriesEnd(rest, depth, acc);
    } else {
      var e, tail := entries[0], EntriesText(entries[1..]) + [SP, R_BRACE] + rest;
      var mid := ValueText(e.val) + tail;
      EntriesSplit(entries, [SP, R_BRACE], rest);
      Assoc(EntriesText(entries[1..]), [SP, R_BRACE], rest);
      DelimitedEntries(entries[1..], [SP, R_BRACE] + rest);
      EntryStep(e, tail, depth, acc, entries);
      if depth + PairHeight(e) <= MAX_DEPTH {
        var f := Entry(ReadValue(ValueText(e.key) + mid, depth + 1).v, ReadValue(mid, depth + 1).v);
        ApartNext(acc, entries, f);
        EntriesTrip(entries[1..], rest, depth, acc + [f]);
        EntriesMeaningAppend(acc, f);
      }
    }
  }

  /** A key and its value, one after the other. */
  lemma {:induction false} PairTrip(e: Entry, tail: Text, depth: nat)
    requires PairPrintable(e) && Delimited(tail)
    ensures var s, mid := ValueText(e.key) + (ValueText(e.val) + tail), ValueText(e.val) + tail;
            var k, v := ReadValue(s, depth), ReadValue(mid, depth);
            && (if depth + Height(e.key) <= MAX_DEPTH + 1 then k.Ok? && k.rest == mid && MeaningOf(k.v) == MeaningOf(e.key) else k == Err(TooDeep))
            && (if depth + Height(e.val) <= MAX_DEPTH + 1 then v.Ok? && v.rest == tail && MeaningOf(v.v) == MeaningOf(e.val) else v == Err(TooDeep))
    decreases e, 1
  {
    ValueStart(e.val);
    hide ReadValue, ValueText, MeaningOf, Printable;
    ValueTrip(e.val, tail, depth);
    ValueTrip(e.key, ValueText(e.val) + tail, depth);
  }

  // ----- entries and messages

  /** One value of an entry. */
  lemma ValStep(v: Value, tail: Text, acc: seq<Value>)
    requires Printable(v) && Delimited(tail)
    ensures var s := ValueText(v) + tail;
            var r := ReadValue(s, 1);
            if Height(v) <= MAX_DEPTH then
              r.Ok? && MeaningOf(r.v) == MeaningOf(v) && ReadVals(s, acc) == ReadVals(tail, acc + [r.v])
            else ReadVals(s, acc) == Err(TooDeep)
  {
    hide ReadValue, ValueText, MeaningOf, Printable, Height;
    ValueTrip(v, tail, 1);
  }

  /** An entry's values are read back, or it is refused as too deep. */
  lemma {:induction false} EntryTrip(vals: seq<Value>, rest: Text, acc: seq<Value>)
    requires AllPrintable(vals)
    ensures var r := ReadVals(ItemsText(vals) + [NL] + rest, acc);
            if ItemsHeight(vals) <= MAX_DEPTH then
              r.Ok? && r.rest == rest && ItemsMeaning(r.v) == ItemsMeaning(acc) + ItemsMeaning(vals)
            else r == Err(TooDeep)
    decreases vals
  {
    hide ReadVals, ReadValue, ValueText, ItemsText, MeaningOf, ItemsMeaning, Printable, Height;
    ItemsMeaningNext(ItemsMeaning(acc), vals);
    if vals == [] {
      NoItems([NL], rest);
      EndOfEntry(rest);
      EndOfVals(rest, acc);
    } else {
      var v, tail := vals[0], ItemsText(vals[1..]) + [NL] + rest;
      ItemsSplit(vals, [NL], rest);
      Assoc(ItemsText(vals[1..]), [NL], rest);
      DelimitedItems(vals[1..], [NL] + rest);
      ValStep(v, tail, acc);
      if Height(v) <= MAX_DEPTH {
        var w := ReadValue(ValueText(v) + tail, 1).v;
        EntryTrip(vals[1..], rest, acc + [w]);
        ItemsMeaningAppend(acc, w);
      }
    }
  }

  lemma EndOfVals(rest: Text, acc: seq<Value>)
    requires ReadValue([NL] + rest, 1) == Eof(rest)
    ensures ReadVals([NL] + rest, acc) == Ok(acc, rest)
  {
    hide ReadValue;
  }

  lemma EndOfEntry(rest: Text)
    ensures ReadValue([NL] + rest, 1) == Eof(rest)
  {
    assert ([NL] + rest)[1..] == rest;
  }

  function MessagesText(ms: seq<Message>): Text {
    if ms == [] then [] else EntryText(ms[0].typ, ms[0].vals) + MessagesText(ms[1..])
  }

  predicate SameMessages(ms: seq<Message>, ns: seq<Message>) {
    |ms| == |ns| && forall i :: 0 <= i < |ms| ==> ms[i].typ == ns[i].typ && ItemsMeaning(ms[i].vals) == ItemsMeaning(ns[i].vals)
  }

  predicate Sendable(ms: seq<Message>) {
    forall i :: 0 <= i < |ms| ==> AllPrintable(ms[i].vals) && ItemsHeight(ms[i].vals) <= MAX_DEPTH
  }

  /** A message of any number of entries is read back entry by entry, to its end. */
  lemma {:induction false} MessagesTrip(ms: seq<Message>)
    requires Sendable(ms)
    ensures var r := ReadMessages(MessagesText(ms)); r.Ok? && SameMessages(ms, r.v)
    decreases |ms|
  {
    hide ReadVals, ItemsText, AllPrintable, ItemsMeaning, ItemsHeight;
    if ms != [] {
      var m, tail := ms[0], MessagesText(ms[1..]);
      var s := MessagesText(ms);
      assert s[1..] == ItemsText(m.vals) + [NL] + tail;
      EntryTrip(m.vals, tail, []);
      NoMeaning(m.vals);
      MessagesTrip(ms[1..]);
    }
  }

  lemma NoMeaning(vals: seq<Value>)
    ensures ItemsMeaning([]) + ItemsMeaning(vals) == ItemsMeaning(vals)
  {
  }
}
