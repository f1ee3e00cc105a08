/** Maps printed and read back in Go, whether or not their keys are apart. */
module GoMaps {
  import opened Words
  import opened Hex
  import opened Numbers
  import opened Readers
  import opened RealTexts
  import opened Tokens
  import opened Messages
  import opened GoFormat
  import opened GoValues
  import opened GoNumbers
  import opened GoTrees

  // ----- the value a key is read back as

  /** The value Go reads for the spelling of a number. */
  function NumberRead(n: Number): Value
    requires n.NaN? || Fits(n)
  {
    if n.NaN? then VFloat(GO_NAN) else ValueOfText(TextOf(n))
  }

  lemma SpellingRead(n: Number, rest: Text, depth: nat)
    requires (n.NaN? || Fits(n)) && Delimited(rest) && depth <= MAX_DEPTH
    ensures ReadValue([SP] + Spell(n) + rest, depth) == Ok(NumberRead(n), rest)
  {
    hide ReadValue, Spell, RealText.Written, ValueOfText;
    if n.NaN? {
      assert Spell(NaN) == NAN_TEXT by { NaNSpelled(); }
      GoReadsNaN(rest, depth);
    } else {
      SpellingIsLegal(n);
      GoReadsText(TextOf(n), rest, depth);
    }
  }

  lemma NaNSpelled()
    ensures Spell(NaN) == NAN_TEXT
  {
  }

  lemma MachineFits(v: Value)
    requires IsNumeric(v)
    ensures NumberOf(v).NaN? || Fits(NumberOf(v))
  {
    hide Fits;
    match v
    case VUint(n) => MagnitudeFits(false, n);
    case VInt(i) => MagnitudeFits(i < 0, if i < 0 then -(i as int) else i);
    case VFloat(u) => if !IsNaN(u) { DoubleFits(u); }
  }

  /** A key as the reader returns it: numbers in the type the reader chooses, anything else unchanged. */
  function KeyRead(v: Value): Value {
    if IsNumeric(v) then
      MachineFits(v);
      NumberRead(NumberOf(v))
    else v
  }

  lemma KeyTrip(v: Value, rest: Text, depth: nat)
    requires KeyKind(v) && Printable(v) && Delimited(rest) && depth <= MAX_DEPTH
    ensures ReadValue(ValueText(v) + rest, depth) == Ok(KeyRead(v), rest)
  {
    hide NumberRead, Short;
    if IsNumeric(v) {
      hide ReadValue, ValueText, Spell;
      NumberText(v);
      MachineFits(v);
      SpellingRead(NumberOf(v), rest, depth);
    } else if v.VBool? {
      hide ReadItems, ReadEntries, GoNegative, GoUnsigned;
      var s := ValueText(v) + rest;
      assert s[0] == SP && s[1] == ValueText(v)[1] && s[2..] == rest;
    } else {
      SizedTrip(COLON, v.s, rest, depth);
    }
  }

  /** It means what was printed. */
  lemma KeyMeans(v: Value)
    requires KeyKind(v) && Printable(v)
    ensures MeaningOf(KeyRead(v)) == MeaningOf(v) && Hashable(KeyRead(v))
  {
    hide ReadValue, ValueText, Printable, MeaningOf, Hashable, KeyKind, KeyRead;
    KeyTrip(v, [NL], 1);
    ScalarKey(v);
    ScalarTrip(v, [NL], 1);
    KindByMeaning(KeyRead(v), v);
    KeyHashable(KeyRead(v));
  }

  lemma ScalarKey(v: Value)
    requires KeyKind(v)
    ensures !v.VArray? && !v.VMap? && v != VOther
  {
  }

  /** Two keys collide as read exactly when they mean the same and are not NaN. */
  lemma Collide(v: Value, w: Value)
    requires KeyKind(v) && Printable(v) && KeyKind(w) && Printable(w)
    ensures GoEqual(KeyRead(v), KeyRead(w)) <==> MeaningOf(v) == MeaningOf(w) && MeaningOf(v) != MNumber(NaN)
  {
    hide KeyRead, GoEqual, MeaningOf, Printable, KeyKind;
    KeyMeans(v);
    KeyMeans(w);
    if GoEqual(KeyRead(v), KeyRead(w)) {
      EqualKeysMean(KeyRead(v), KeyRead(w));
    }
    if MeaningOf(v) == MeaningOf(w) && MeaningOf(v) != MNumber(NaN) {
      SameMeaningSameKey(v, w);
      EqualToItself(KeyRead(v));
    }
  }

  lemma SameMeaningSameKey(v: Value, w: Value)
    requires MeaningOf(v) == MeaningOf(w) && KeyKind(v) && KeyKind(w)
    ensures KeyRead(v) == KeyRead(w)
  {
    hide NumberRead, OfInt, OfDouble;
  }

  lemma EqualToItself(v: Value)
    requires MeaningOf(v) != MNumber(NaN)
    ensures GoEqual(v, v)
  {
    hide Pow2;
  }

  // ----- maps

  /** A key of any kind and its value, both of which can be printed. */
  predicate Member(e: Entry) { Printable(e.key) && Printable(e.val) }

  predicate MembersPrintable(entries: seq<Entry>) {
    entries == [] || (Member(entries[0]) && MembersPrintable(entries[1..]))
  }

  /** How many entries come before the first key that Go cannot compare. */
  function Comparable(entries: seq<Entry>): (n: nat)
    ensures n <= |entries|
  {
    if entries == [] || !KeyKind(entries[0].key) then 0 else 1 + Comparable(entries[1..])
  }

  predicate KeysApart(entries: seq<Entry>) {
    entries == [] || (Apart(MeaningOf(entries[0].key), entries[1..]) && KeysApart(entries[1..]))
  }

  /** The entries read so far are those printed so far, keys as read. */
  predicate ReadFrom(acc: seq<Entry>, seen: seq<Entry>) {
    |acc| == |seen| && forall i :: 0 <= i < |acc| ==> Keyed(acc[i], seen[i])
  }

  predicate Keyed(e: Entry, was: Entry) { PairPrintable(was) && e.key == KeyRead(was.key) }

  lemma Seen(acc: seq<Entry>, seen: seq<Entry>, e: Entry)
    requires ReadFrom(acc, seen) && PairPrintable(e)
    ensures HasKey(acc, KeyRead(e.key)) <==> exists i :: 0 <= i < |seen| && Clash(seen[i].key, e.key)
  {
    hide GoEqual, KeyRead, MeaningOf, Printable, KeyKind;
    forall i | 0 <= i < |seen|
      ensures GoEqual(acc[i].key, KeyRead(e.key)) <==> Clash(seen[i].key, e.key)
    {
      assert Keyed(acc[i], seen[i]);
      Collide(seen[i].key, e.key);
    }
    if HasKey(acc, KeyRead(e.key)) {
      var f :| f in acc && GoEqual(f.key, KeyRead(e.key));
      var i :| 0 <= i < |acc| && acc[i] == f;
      assert Clash(seen[i].key, e.key);
    }
    if i :| 0 <= i < |seen| && Clash(seen[i].key, e.key) {
      assert acc[i] in acc;
    }
  }

  predicate Clash(v: Value, w: Value) { MeaningOf(v) == MeaningOf(w) && MeaningOf(v) != MNumber(NaN) }

  /** No key seen and no two keys to come are the same. */
  predicate Distinct(seen: seq<Entry>, entries: seq<Entry>) { AllApart(seen, entries) && KeysApart(entries) }

  lemma DistinctNext(seen: seq<Entry>, entries: seq<Entry>)
    requires entries != []
    ensures Distinct(seen, entries) <==>
            Distinct(seen + [entries[0]], entries[1..]) && !exists i :: 0 <= i < |seen| && Clash(seen[i].key, entries[0].key)
  {
    hide MeaningOf;
    var e := entries[0];
    forall i | 0 <= i < |seen|
      ensures Apart(MeaningOf(seen[i].key), entries) <==> Apart(MeaningOf(seen[i].key), entries[1..]) && !Clash(seen[i].key, e.key)
    {
      ApartSplit(MeaningOf(seen[i].key), entries);
    }
    hide Apart, Clash, KeysApart;
    assert KeysApart(entries) <==> Apart(MeaningOf(e.key), entries[1..]) && KeysApart(entries[1..]) by { KeysApartNext(entries); }
    AllApartAppend(seen, e, entries[1..]);
  }

  lemma ApartSplit(m: Meaning, entries: seq<Entry>)
    requires entries != []
    ensures Apart(m, entries) <==> Apart(m, entries[1..]) && !(m == MeaningOf(entries[0].key) && m != MNumber(NaN))
  {
    hide MeaningOf;
    if Apart(m, entries[1..]) && m != MNumber(NaN) && m != MeaningOf(entries[0].key) {
      forall i | 0 <= i < |entries| ensures MeaningOf(entries[i].key) != m {
        if i > 0 { assert entries[1..][i - 1] == entries[i]; }
      }
    }
  }

  lemma KeysApartNext(entries: seq<Entry>)
    requires entries != []
    ensures KeysApart(entries) <==> Apart(MeaningOf(entries[0].key), entries[1..]) && KeysApart(entries[1..])
  {
  }

  lemma AllApartAppend(seen: seq<Entry>, e: Entry, entries: seq<Entry>)
    ensures AllApart(seen + [e], entries) <==> AllApart(seen, entries) && Apart(MeaningOf(e.key), entries)
  {
    hide MeaningOf, Apart;
    if AllApart(seen + [e], entries) {
      assert (seen + [e])[|seen|] == e;
      forall i | 0 <= i < |seen| ensures Apart(MeaningOf(seen[i].key), entries) {
        assert (seen + [e])[i] == seen[i];
      }
    }
  }

  lemma DelimitedMembers(entries: seq<Entry>, close: Text)
    requires MembersPrintable(entries) && Delimited(close)
    ensures Delimited(EntriesText(entries) + close)
  {
    if entries == [] {
      assert EntriesText(entries) + close == close;
    } else {
      ValueStart(entries[0].key);
      assert (EntriesText(entries) + close)[0] == ValueText(entries[0].key)[0];
    }
  }

  lemma OneEntry(s: Text, k: Value, mid: Text, v: Value, tail: Text, depth: nat, acc: seq<Entry>)
    requires Matches(s, [SP, R_BRACE]) == No && Hashable(k)
    requires ReadValue(s, depth + 1) == Ok(k, mid) && ReadValue(mid, depth + 1) == Ok(v, tail)
    ensures ReadEntries(s, depth, acc) ==
            if HasKey(acc, k) then Err(DuplicateKey) else ReadEntries(tail, depth, acc + [Entry(k, v)])
  {
    hide ReadValue, Matches, HasKey, Hashable;
  }

  lemma HeightPositive(v: Value)
    ensures Height(v) >= 1
  {
  }

  /** What a key and its value are read back as. */
  lemma MemberRead(e: Entry, tail: Text, depth: nat) returns (v: Value)
    requires PairPrintable(e) && Delimited(tail) && depth + PairHeight(e) <= MAX_DEPTH
    ensures var mid := ValueText(e.val) + tail;
            && ReadValue(ValueText(e.key) + mid, depth + 1) == Ok(KeyRead(e.key), mid)
            && ReadValue(mid, depth + 1) == Ok(v, tail) && MeaningOf(v) == MeaningOf(e.val)
  {
    hide ReadValue, ValueText, MeaningOf, Printable, KeyKind, Height, KeyRead, Delimited;
    HeightPositive(e.key);
    var mid := ValueText(e.val) + tail;
    ValueTrip(e.val, tail, depth + 1);
    v := ReadValue(mid, depth + 1).v;
    ValueDelimited(e.val, tail);
    KeyTrip(e.key, mid, depth + 1);
  }

  /** One key and value of a map. */
  lemma MemberStep(e: Entry, tail: Text, depth: nat, acc: seq<Entry>) returns (v: Value)
    requires PairPrintable(e) && Delimited(tail) && depth + PairHeight(e) <= MAX_DEPTH
    ensures PairMeaning(Entry(KeyRead(e.key), v)) == PairMeaning(e)
    ensures ReadEntries(ValueText(e.key) + (ValueText(e.val) + tail), depth, acc) ==
            if HasKey(acc, KeyRead(e.key)) then Err(DuplicateKey)
            else ReadEntries(tail, depth, acc + [Entry(KeyRead(e.key), v)])
  {
    hide ReadValue, ReadEntries, ValueText, MeaningOf, Printable, Hashable, KeyKind, HasKey, Height, KeyRead, Matches, Delimited;
    var mid := ValueText(e.val) + tail;
    v := MemberRead(e, tail, depth);
    NotClosing(e.key, mid, R_BRACE);
    KeyMeans(e.key);
    OneEntry(ValueText(e.key) + mid, KeyRead(e.key), mid, v, tail, depth, acc);
  }

  lemma ValueDelimited(v: Value, rest: Text)
    requires Printable(v)
    ensures Delimited(ValueText(v) + rest)
  {
    ValueStart(v);
  }

  /** A key of another kind crashes the reader once its value has been read. */
  lemma BadMember(e: Entry, tail: Text, depth: nat, acc: seq<Entry>)
    requires Member(e) && !KeyKind(e.key) && Delimited(tail) && depth + PairHeight(e) <= MAX_DEPTH
    ensures ReadEntries(ValueText(e.key) + (ValueText(e.val) + tail), depth, acc) == Panic(Unhashable)
  {
    hide ReadValue, ReadEntries, ValueText, MeaningOf, Printable, Hashable, KeyKind, HasKey, Height, Matches, Delimited;
    var mid := ValueText(e.val) + tail;
    ValueDelimited(e.val, tail);
    ValueTrip(e.val, tail, depth + 1);
    ValueTrip(e.key, mid, depth + 1);
    NotClosing(e.key, mid, R_BRACE);
    var k := ReadValue(ValueText(e.key) + mid, depth + 1).v;
    KnownKind(e.key);
    KindByMeaning(k, e.key);
    KeyHashable(k);
    BadEntry(ValueText(e.key) + mid, k, mid, depth, acc);
  }

  lemma KnownKind(v: Value)
    requires Printable(v)
    ensures v != VOther
  {
  }

  lemma BadEntry(s: Text, k: Value, mid: Text, depth: nat, acc: seq<Entry>)
    requires Matches(s, [SP, R_BRACE]) == No && !Hashable(k)
    requires ReadValue(s, depth + 1) == Ok(k, mid) && ReadValue(mid, depth + 1).Ok?
    ensures ReadEntries(s, depth, acc) == Panic(Unhashable)
  {
    hide ReadValue, Matches, HasKey, Hashable;
  }

  /** Entries of printable members, not too high, are read back exactly when every key is of a kind that can be compared and
      no two keys are the same. Of two failures the first met is answered: a duplicate, or a key that cannot be compared. */
  lemma {:induction false} MembersTrip(entries: seq<Entry>, rest: Text, depth: nat, seen: seq<Entry>, acc: seq<Entry>)
    requires MembersPrintable(entries) && ReadFrom(acc, seen) && depth + EntriesHeight(entries) <= MAX_DEPTH
    ensures var r := ReadEntries(EntriesText(entries) + [SP, R_BRACE] + rest, depth, acc);
            var n := Comparable(entries);
            if !Distinct(seen, entries[..n]) then r == Err(DuplicateKey)
            else if n < |entries| then r == Panic(Unhashable)
            else r.Ok? && r.rest == rest && r.v.VMap? && EntriesMeaning(r.v.entries) == EntriesMeaning(acc) + EntriesMeaning(entries)
    decreases |entries|
  {
    hide ReadEntries, ReadValue, ValueText, EntriesText, MeaningOf, PairMeaning, EntriesMeaning, KeyRead, Clash, HasKey, PairHeight, Printable, KeyKind;
    EntriesMeaningNext(EntriesMeaning(acc), entries);
    if entries == [] {
      NoEntries([SP, R_BRACE], rest);
      EntriesEnd(rest, depth, acc);
      assert entries[..0] == [];
    } else {
      hide Distinct;
      var e, tail := entries[0], EntriesText(entries[1..]) + [SP, R_BRACE] + rest;
      EntriesSplit(entries, [SP, R_BRACE], rest);
      Assoc(EntriesText(entries[1..]), [SP, R_BRACE], rest);
      DelimitedMembers(entries[1..], [SP, R_BRACE] + rest);
      if KeyKind(e.key) {
        var good, more := entries[..Comparable(entries)], entries[1..][..Comparable(entries[1..])];
        assert good[0] == e && good[1..] == more;
        var v := MemberStep(e, tail, depth, acc);
        Seen(acc, seen, e);
        DistinctNext(seen, good);
        var f := Entry(KeyRead(e.key), v);
        ReadFromNext(acc, seen, f, e);
        MembersTrip(entries[1..], rest, depth, seen + [e], acc + [f]);
        EntriesMeaningAppend(acc, f);
      } else {
        BadMember(e, tail, depth, acc);
        NoneDistinct(seen);
        assert entries[..0] == [];
      }
    }
  }

  lemma NoneDistinct(seen: seq<Entry>)
    ensures Distinct(seen, [])
  {
    hide MeaningOf;
  }

  lemma ReadFromNext(acc: seq<Entry>, seen: seq<Entry>, f: Entry, e: Entry)
    requires ReadFrom(acc, seen) && Keyed(f, e)
    ensures ReadFrom(acc + [f], seen + [e])
  {
    hide Keyed;
  }

  /** A map of printable members, not too high, with keys of any kind: it is read back exactly when every key is a boolean, a
      number or a string and the keys are apart. If two of the keys before the first of another kind are the same, it is
      refused as holding a duplicate; if none are, that first one, bytes, an array or a map, crashes the reader. */
  lemma MapTrip(entries: seq<Entry>, rest: Text, depth: nat)
    requires MembersPrintable(entries) && depth + EntriesHeight(entries) <= MAX_DEPTH
    ensures var r := ReadValue(ValueText(VMap(entries)) + rest, depth);
            var n := Comparable(entries);
            if !KeysApart(entries[..n]) then r == Err(DuplicateKey)
            else if n < |entries| then r == Panic(Unhashable)
            else r.Ok? && r.rest == rest && MeaningOf(r.v) == MeaningOf(VMap(entries))
  {
    hide ReadValue, ReadEntries, EntriesText, KeysApart, EntriesMeaning, KeyKind;
    var body := EntriesText(entries) + [SP, R_BRACE] + rest;
    assert ValueText(VMap(entries)) + rest == [SP, L_BRACE] + body;
    Opening(L_BRACE, body, depth);
    MembersTrip(entries, rest, depth, [], []);
    EntriesMeaningNext([], entries);
    assert EntriesMeaning([]) + EntriesMeaning(entries) == EntriesMeaning(entries) by { NoneMeaning(entries); }
  }

  lemma NoneMeaning(entries: seq<Entry>)
    ensures EntriesMeaning([]) + EntriesMeaning(entries) == EntriesMeaning(entries)
  {
  }
}
