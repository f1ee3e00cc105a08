/** What the Go reader makes of any text, against a grammar: the values it takes, the entries it ends early inside an open
    container, and the keys it crashes on. */
module GoForest {
  import opened Words
  import opened Hex
  import opened Tokens
  import opened GoValues
  import opened GoTrees

  // ----- the grammar

  predicate Opens(s: Text, c: byte) { |s| >= 2 && s[0] == SP && s[1] == c }

  predicate IsContainer(v: Value) { v.VArray? || v.VMap? }

  /** The text starts with a scalar, read by itself. */
  predicate IsScalarAt(s: Text, v: Value, rest: Text) {
    !Opens(s, L_BRACKET) && !Opens(s, L_BRACE) && ReadValue(s, 1) == Ok(v, rest)
  }

  /** `s` is a spelling of `v` and then `rest`. */
  ghost predicate Spells(s: Text, v: Value, rest: Text)
    decreases v
  {
    match v
    case VArray(items) => Opens(s, L_BRACKET) && SpellsItems(s[2..], items, [SP, R_BRACKET] + rest)
    case VMap(entries) => Opens(s, L_BRACE) && SpellsEntries(s[2..], entries, [SP, R_BRACE] + rest)
    case _ => IsScalarAt(s, v, rest)
  }

  /** `s` is the spellings of the items, one after the other, and then `rest`. */
  ghost predicate SpellsItems(s: Text, items: seq<Value>, rest: Text)
    decreases items
  {
    if items == [] then s == rest
    else exists mid: Text :: Spells(s, items[0], mid) && SpellsItems(mid, items[1..], rest)
  }

  ghost predicate SpellsEntries(s: Text, entries: seq<Entry>, rest: Text)
    decreases entries
  {
    if entries == [] then s == rest
    else exists mid: Text :: SpellsPair(s, entries[0], mid) && SpellsEntries(mid, entries[1..], rest)
  }

  ghost predicate SpellsPair(s: Text, e: Entry, rest: Text)
    decreases e
  {
    exists mid: Text :: Spells(s, e.key, mid) && Spells(mid, e.val, rest)
  }

  /** Keys that are booleans, numbers or strings, and new. */
  predicate NewKeys(acc: seq<Entry>, entries: seq<Entry>)
    decreases |entries|
  {
    entries == [] ||
    (KeyKind(entries[0].key) && !HasKey(acc, entries[0].key) && NewKeys(acc + [entries[0]], entries[1..]))
  }

  /** Every map inside has such keys. */
  predicate Sound(v: Value) {
    match v
    case VArray(items) => AllSound(items)
    case VMap(entries) => NewKeys([], entries) && PairsSound(entries)
    case _ => true
  }

  predicate AllSound(items: seq<Value>) { items == [] || (Sound(items[0]) && AllSound(items[1..])) }

  predicate PairsSound(entries: seq<Entry>) { entries == [] || (PairSound(entries[0]) && PairsSound(entries[1..])) }

  predicate PairSound(e: Entry) { Sound(e.key) && Sound(e.val) }

  // ----- one turn of the reader

  lemma OpenArray(s: Text, depth: nat)
    requires Opens(s, L_BRACKET) && depth <= MAX_DEPTH
    ensures ReadValue(s, depth) == ReadItems(s[2..], depth, [])
  {
    hide ReadItems;
  }

  lemma OpenMap(s: Text, depth: nat)
    requires Opens(s, L_BRACE) && depth <= MAX_DEPTH
    ensures ReadValue(s, depth) == ReadEntries(s[2..], depth, [])
  {
    hide ReadEntries;
  }

  /** Scalars are read the same at any depth the reader allows. */
  lemma ScalarDepth(s: Text, depth: nat)
    requires !Opens(s, L_BRACKET) && !Opens(s, L_BRACE) && depth <= MAX_DEPTH
    ensures ReadValue(s, depth) == ReadValue(s, 1)
    ensures ReadValue(s, 1).Ok? ==> !IsContainer(ReadValue(s, 1).v) && ReadValue(s, 1).v != VOther
  {
    hide ReadItems, ReadEntries, GoExponent, Floats.BuildFloat64, Matches;
  }

  lemma ReadDepth(s: Text, depth: nat)
    requires ReadValue(s, depth).Ok? || ReadValue(s, depth).Eof? || ReadValue(s, depth).Panic?
    ensures depth <= MAX_DEPTH
  {
  }

  lemma ContainersOpen(s: Text, v: Value, rest: Text)
    requires Spells(s, v, rest)
    ensures !Opens(s, R_BRACKET) && !Opens(s, R_BRACE) && |s| >= 2 && s[0] == SP
  {
    if !IsContainer(v) { ScalarStart(s); }
  }

  lemma ScalarStart(s: Text)
    requires ReadValue(s, 1).Ok?
    ensures |s| >= 2 && s[0] == SP && s[1] != R_BRACKET && s[1] != R_BRACE
  {
    hide ReadItems, ReadEntries;
  }

  lemma NotClosing(s: Text, close: byte)
    requires |s| >= 2 && s[0] == SP && s[1] != close
    ensures Matches(s, [SP, close]) == No
  {
    assert s[1..][0] == s[1] && [SP, close][1..] == [close];
  }

  lemma Closing(s: Text, close: byte)
    requires Matches(s, [SP, close]) == Yes
    ensures |s| >= 2 && s == [SP, close] + s[2..]
  {
    assert [SP, close] <= s;
    assert s == s[..2] + s[2..];
  }

  // ----- what is taken is a spelling

  lemma {:induction false} Taken(s: Text, depth: nat)
    requires ReadValue(s, depth).Ok?
    ensures var r := ReadValue(s, depth); Spells(s, r.v, r.rest) && Sound(r.v) && depth + Height(r.v) <= MAX_DEPTH + 1
    decreases |s|, 0
  {
    hide ReadValue, ReadItems, ReadEntries;
    ReadDepth(s, depth);
    if Opens(s, L_BRACKET) {
      OpenArray(s, depth);
      var items := TakenItems(s[2..], depth, []);
      assert [] + items == items;
    } else if Opens(s, L_BRACE) {
      OpenMap(s, depth);
      var entries := TakenEntries(s[2..], depth, []);
      assert [] + entries == entries;
    } else {
      ScalarDepth(s, depth);
    }
  }

  lemma ItemsTurn(s: Text, depth: nat, acc: seq<Value>)
    ensures Matches(s, [SP, R_BRACKET]) == Yes ==> ReadItems(s, depth, acc) == Ok(VArray(acc), s[2..])
    ensures Matches(s, [SP, R_BRACKET]) == OffEnd ==> ReadItems(s, depth, acc) == Panic(OutOfRange)
    ensures var r := ReadValue(s, depth + 1);
            Matches(s, [SP, R_BRACKET]) == No ==>
              ReadItems(s, depth, acc) == if r.Ok? then ReadItems(r.rest, depth, acc + [r.v]) else r
  {
    hide ReadValue, Matches;
  }

  lemma {:induction false} TakenItems(s: Text, depth: nat, acc: seq<Value>) returns (items: seq<Value>)
    requires ReadItems(s, depth, acc).Ok? && depth <= MAX_DEPTH
    ensures var r := ReadItems(s, depth, acc);
            && r.v == VArray(acc + items) && SpellsItems(s, items, [SP, R_BRACKET] + r.rest)
            && AllSound(items) && depth + ItemsHeight(items) <= MAX_DEPTH
    decreases |s|, 1
  {
    hide ReadValue, ReadItems, Spells, Sound, Height, Matches;
    ItemsTurn(s, depth, acc);
    if Matches(s, [SP, R_BRACKET]) == Yes {
      Closing(s, R_BRACKET);
      items := [];
      assert acc + [] == acc;
    } else {
      Taken(s, depth + 1);
      var v := ReadValue(s, depth + 1);
      var more := TakenItems(v.rest, depth, acc + [v.v]);
      items := [v.v] + more;
      assert (acc + [v.v]) + more == acc + items;
      assert items[1..] == more;
    }
  }

  lemma EntriesTurn(s: Text, depth: nat, acc: seq<Entry>)
    ensures Matches(s, [SP, R_BRACE]) == Yes ==> ReadEntries(s, depth, acc) == Ok(VMap(acc), s[2..])
    ensures Matches(s, [SP, R_BRACE]) == OffEnd ==> ReadEntries(s, depth, acc) == Panic(OutOfRange)
    ensures var k := ReadValue(s, depth + 1);
            Matches(s, [SP, R_BRACE]) == No && !k.Ok? ==> ReadEntries(s, depth, acc) == k
    ensures var k := ReadValue(s, depth + 1);
            Matches(s, [SP, R_BRACE]) == No && k.Ok? ==>
              var v := ReadValue(k.rest, depth + 1);
              ReadEntries(s, depth, acc) ==
              if !v.Ok? then v
              else if !KeyKind(k.v) then Panic(Unhashable)
              else if HasKey(acc, k.v) then Err(DuplicateKey)
              else ReadEntries(v.rest, depth, acc + [Entry(k.v, v.v)])
  {
    hide ReadValue, Matches, Hashable, KeyKind, HasKey;
    var k := ReadValue(s, depth + 1);
    if k.Ok? {
      ReadsKnown(s, depth + 1);
      KeyHashable(k.v);
    }
  }

  /** The reader returns no value of an unknown kind. */
  lemma ReadsKnown(s: Text, depth: nat)
    requires ReadValue(s, depth).Ok?
    ensures ReadValue(s, depth).v != VOther
  {
    hide ReadValue;
    ReadDepth(s, depth);
    if Opens(s, L_BRACKET) {
      OpenArray(s, depth);
      ItemsAreArray(s[2..], depth, []);
    } else if Opens(s, L_BRACE) {
      OpenMap(s, depth);
      EntriesAreMap(s[2..], depth, []);
    } else {
      ScalarDepth(s, depth);
    }
  }

  lemma {:induction false} ItemsAreArray(s: Text, depth: nat, acc: seq<Value>)
    ensures ReadItems(s, depth, acc).Ok? ==> ReadItems(s, depth, acc).v.VArray?
    decreases |s|
  {
    hide ReadValue, ReadItems, Matches;
    ItemsTurn(s, depth, acc);
    var r := ReadValue(s, depth + 1);
    if r.Ok? { ItemsAreArray(r.rest, depth, acc + [r.v]); }
  }

  lemma {:induction false} EntriesAreMap(s: Text, depth: nat, acc: seq<Entry>)
    ensures ReadEntries(s, depth, acc).Ok? ==> ReadEntries(s, depth, acc).v.VMap?
    decreases |s|
  {
    hide ReadValue, Matches, Hashable, HasKey;
    var k := ReadValue(s, depth + 1);
    if k.Ok? {
      var v := ReadValue(k.rest, depth + 1);
      if v.Ok? { EntriesAreMap(v.rest, depth, acc + [Entry(k.v, v.v)]); }
    }
  }

  lemma {:induction false} TakenEntries(s: Text, depth: nat, acc: seq<Entry>) returns (entries: seq<Entry>)
    requires ReadEntries(s, depth, acc).Ok? && depth <= MAX_DEPTH
    ensures var r := ReadEntries(s, depth, acc);
            && r.v == VMap(acc + entries) && SpellsEntries(s, entries, [SP, R_BRACE] + r.rest)
            && NewKeys(acc, entries) && PairsSound(entries) && depth + EntriesHeight(entries) <= MAX_DEPTH
    decreases |s|, 1
  {
    hide ReadValue, ReadEntries, Spells, Sound, Height, Matches, KeyKind, HasKey;
    EntriesTurn(s, depth, acc);
    if Matches(s, [SP, R_BRACE]) == Yes {
      Closing(s, R_BRACE);
      entries := [];
      assert acc + [] == acc;
    } else {
      Taken(s, depth + 1);
      var k := ReadValue(s, depth + 1);
      Taken(k.rest, depth + 1);
      var v := ReadValue(k.rest, depth + 1);
      var e := Entry(k.v, v.v);
      var more := TakenEntries(v.rest, depth, acc + [e]);
      entries := [e] + more;
      assert (acc + [e]) + more == acc + entries;
      assert SpellsPair(s, e, v.rest);
      assert entries[1..] == more;
    }
  }

  // ----- every spelling is taken

  lemma {:induction false} Takes(s: Text, v: Value, rest: Text, depth: nat)
    requires Spells(s, v, rest) && Sound(v) && depth + Height(v) <= MAX_DEPTH + 1
    ensures ReadValue(s, depth) == Ok(v, rest)
    decreases v, 0
  {
    hide ReadValue, ReadItems, ReadEntries, SpellsItems, SpellsEntries, NewKeys;
    if v.VArray? {
      OpenArray(s, depth);
      TakesItems(s[2..], v.items, [SP, R_BRACKET] + rest, depth, []);
      EndOfItems(rest, depth, [] + v.items);
      assert [] + v.items == v.items;
    } else if v.VMap? {
      OpenMap(s, depth);
      TakesEntries(s[2..], v.entries, [SP, R_BRACE] + rest, depth, []);
      EndOfEntries(rest, depth, [] + v.entries);
      assert [] + v.entries == v.entries;
    } else {
      ScalarDepth(s, depth);
    }
  }

  lemma EndOfItems(rest: Text, depth: nat, acc: seq<Value>)
    ensures ReadItems([SP, R_BRACKET] + rest, depth, acc) == Ok(VArray(acc), rest)
  {
    ItemsEnd(rest, depth, acc);
  }

  lemma EndOfEntries(rest: Text, depth: nat, acc: seq<Entry>)
    ensures ReadEntries([SP, R_BRACE] + rest, depth, acc) == Ok(VMap(acc), rest)
  {
    EntriesEnd(rest, depth, acc);
  }

  /** Items spelled in front are read into the slice. */
  lemma {:induction false} TakesItems(s: Text, items: seq<Value>, rest: Text, depth: nat, acc: seq<Value>)
    requires SpellsItems(s, items, rest) && AllSound(items) && depth + ItemsHeight(items) <= MAX_DEPTH
    ensures ReadItems(s, depth, acc) == ReadItems(rest, depth, acc + items)
    decreases items, 1
  {
    hide ReadValue, ReadItems, Spells, Sound, Height, Matches;
    if items == [] {
      assert acc + [] == acc;
    } else {
      var mid: Text :| Spells(s, items[0], mid) && SpellsItems(mid, items[1..], rest);
      ContainersOpen(s, items[0], mid);
      NotClosing(s, R_BRACKET);
      ItemsTurn(s, depth, acc);
      Takes(s, items[0], mid, depth + 1);
      TakesItems(mid, items[1..], rest, depth, acc + [items[0]]);
      assert (acc + [items[0]]) + items[1..] == acc + items;
    }
  }

  lemma {:induction false} TakesEntries(s: Text, entries: seq<Entry>, rest: Text, depth: nat, acc: seq<Entry>)
    requires SpellsEntries(s, entries, rest) && NewKeys(acc, entries) && PairsSound(entries) && depth + EntriesHeight(entries) <= MAX_DEPTH
    ensures ReadEntries(s, depth, acc) == ReadEntries(rest, depth, acc + entries)
    decreases entries, 1
  {
    hide ReadValue, ReadEntries, PairSound, PairHeight, Matches, KeyKind, HasKey, SpellsPair;
    if entries == [] {
      assert acc + [] == acc;
    } else {
      var e := entries[0];
      var mid: Text :| SpellsPair(s, e, mid) && SpellsEntries(mid, entries[1..], rest);
      TakesPair(s, e, mid, depth, acc);
      TakesEntries(mid, entries[1..], rest, depth, acc + [e]);
      assert (acc + [e]) + entries[1..] == acc + entries;
    }
  }

  lemma {:induction false} TakesPair(s: Text, e: Entry, rest: Text, depth: nat, acc: seq<Entry>)
    requires SpellsPair(s, e, rest) && PairSound(e) && depth + PairHeight(e) <= MAX_DEPTH
    ensures ReadEntries(s, depth, acc) ==
            if !KeyKind(e.key) then Panic(Unhashable)
            else if HasKey(acc, e.key) then Err(DuplicateKey)
            else ReadEntries(rest, depth, acc + [e])
    decreases e, 1
  {
    hide ReadValue, ReadEntries, Spells, Sound, Height, Matches, KeyKind, HasKey;
    var mid: Text :| Spells(s, e.key, mid) && Spells(mid, e.val, rest);
    ContainersOpen(s, e.key, mid);
    NotClosing(s, R_BRACE);
    EntriesTurn(s, depth, acc);
    Takes(s, e.key, mid, depth + 1);
    Takes(mid, e.val, rest, depth + 1);
  }

  /** Go takes a value exactly from the spellings of it, if the depth it is read at and its height stay within the limit and
      the keys of every map inside are booleans, numbers or strings, and new. */
  lemma TakesExactly(s: Text, v: Value, rest: Text, depth: nat)
    ensures ReadValue(s, depth) == Ok(v, rest) <==> Spells(s, v, rest) && Sound(v) && depth + Height(v) <= MAX_DEPTH + 1
  {
    hide ReadValue, Spells, Sound, Height;
    if ReadValue(s, depth) == Ok(v, rest) { Taken(s, depth); }
    if Spells(s, v, rest) && Sound(v) && depth + Height(v) <= MAX_DEPTH + 1 { Takes(s, v, rest, depth); }
  }

  // ----- inside open containers

  /** A container of which only some members have been read: for a map, entries, and perhaps one more key. */
  datatype Partial = InArray(items: seq<Value>) | InMap(entries: seq<Entry>) | AtValue(entries: seq<Entry>, key: Value)

  ghost predicate SpellsPartial(s: Text, p: Partial, rest: Text) {
    match p
    case InArray(items) => Opens(s, L_BRACKET) && SpellsItems(s[2..], items, rest)
    case InMap(entries) => Opens(s, L_BRACE) && SpellsEntries(s[2..], entries, rest)
    case AtValue(entries, key) =>
      Opens(s, L_BRACE) && exists mid: Text :: SpellsEntries(s[2..], entries, mid) && Spells(mid, key, rest)
  }

  predicate PartialSound(p: Partial) {
    match p
    case InArray(items) => AllSound(items)
    case InMap(entries) => NewKeys([], entries) && PairsSound(entries)
    case AtValue(entries, key) => NewKeys([], entries) && PairsSound(entries) && Sound(key)
  }

  function PartialHeight(p: Partial): nat {
    match p
    case InArray(items) => ItemsHeight(items)
    case InMap(entries) => EntriesHeight(entries)
    case AtValue(entries, key) => Max(EntriesHeight(entries), Height(key))
  }

  /** The text opens the containers of the path, one in the other, and then goes on with `at`. */
  ghost predicate Reaches(s: Text, path: seq<Partial>, at: Text, depth: nat)
    decreases |path|
  {
    if path == [] then s == at
    else
      && PartialSound(path[0]) && depth + PartialHeight(path[0]) <= MAX_DEPTH
      && exists mid: Text :: SpellsPartial(s, path[0], mid) && Reaches(mid, path[1..], at, depth + 1)
  }

  predicate ClosesAt(s: Text) { Matches(s, [SP, R_BRACKET]) != No || Matches(s, [SP, R_BRACE]) != No }

  /** Where a partial container stops, its reader reads the next value; a failure there is its own. */
  lemma PartialFails(s: Text, p: Partial, mid: Text, depth: nat)
    requires SpellsPartial(s, p, mid) && PartialSound(p) && depth + PartialHeight(p) <= MAX_DEPTH
    requires depth <= MAX_DEPTH && !ClosesAt(mid) && !ReadValue(mid, depth + 1).Ok?
    ensures ReadValue(s, depth) == ReadValue(mid, depth + 1)
  {
    hide ReadValue, ReadItems, ReadEntries, Spells, SpellsItems, SpellsEntries, Sound, Height, Matches, KeyKind, HasKey, NewKeys;
    match p
    case InArray(items) =>
      OpenArray(s, depth);
      TakesItems(s[2..], items, mid, depth, []);
      ItemsTurn(mid, depth, [] + items);
    case InMap(entries) =>
      OpenMap(s, depth);
      TakesEntries(s[2..], entries, mid, depth, []);
      EntriesTurn(mid, depth, [] + entries);
    case AtValue(entries, key) =>
      var before: Text :| SpellsEntries(s[2..], entries, before) && Spells(before, key, mid);
      OpenMap(s, depth);
      TakesEntries(s[2..], entries, before, depth, []);
      ContainersOpen(before, key, mid);
      NotClosing(before, R_BRACE);
      EntriesTurn(before, depth, [] + entries);
      Takes(before, key, mid, depth + 1);
  }

  lemma OpeningGoesOn(s: Text, p: Partial, mid: Text)
    requires SpellsPartial(s, p, mid)
    ensures !ClosesAt(s)
  {
    assert Opens(s, L_BRACKET) || Opens(s, L_BRACE);
    NotClosing(s, R_BRACKET);
    NotClosing(s, R_BRACE);
  }

  /** A failure inside open containers is the failure of the whole. */
  lemma {:induction false} FailureCarries(s: Text, path: seq<Partial>, at: Text, depth: nat)
    requires Reaches(s, path, at, depth) && depth + |path| <= MAX_DEPTH && !ClosesAt(at) && !ReadValue(at, depth + |path|).Ok?
    ensures ReadValue(s, depth) == ReadValue(at, depth + |path|) && !ClosesAt(s)
    decreases |path|
  {
    hide ReadValue, SpellsPartial, PartialSound, PartialHeight, ClosesAt;
    if path != [] {
      var mid: Text :| SpellsPartial(s, path[0], mid) && Reaches(mid, path[1..], at, depth + 1);
      FailureCarries(mid, path[1..], at, depth + 1);
      PartialFails(s, path[0], mid, depth);
      OpeningGoesOn(s, path[0], mid);
    }
  }

  // ----- where a read ends or crashes

  /** The innermost container crashes here: a map whose next key is bytes, an array or a map. */
  ghost predicate BadKeyAt(s: Text, depth: nat) {
    exists entries: seq<Entry>, e: Entry, mid: Text, rest: Text ::
      BadKey(s, entries, e, mid, rest, depth)
  }

  ghost predicate BadKey(s: Text, entries: seq<Entry>, e: Entry, mid: Text, rest: Text, depth: nat) {
    && SpellsPartial(s, InMap(entries), mid) && PartialSound(InMap(entries)) && depth + EntriesHeight(entries) <= MAX_DEPTH
    && SpellsPair(mid, e, rest) && PairSound(e) && depth + PairHeight(e) <= MAX_DEPTH && !KeyKind(e.key)
  }

  lemma BadKeyCrashes(s: Text, depth: nat)
    requires BadKeyAt(s, depth) && depth <= MAX_DEPTH
    ensures ReadValue(s, depth) == Panic(Unhashable) && !ClosesAt(s)
  {
    hide ReadValue, ReadEntries, SpellsEntries, SpellsPair, PairSound, PairHeight, KeyKind, HasKey, NewKeys, ClosesAt;
    var entries, e, mid, rest :| BadKey(s, entries, e, mid, rest, depth);
    OpenMap(s, depth);
    TakesEntries(s[2..], entries, mid, depth, []);
    TakesPair(mid, e, rest, depth, [] + entries);
    OpeningGoesOn(s, InMap(entries), mid);
  }

  /** Where a read stops short: before a newline, or at a bad key. */
  ghost predicate StopsAt(o: Outcome<Value>, at: Text, depth: nat) {
    if o.Eof? then at == [NL] + o.rest else o == Panic(Unhashable) && BadKeyAt(at, depth)
  }

  lemma {:induction false} Stopped(s: Text, depth: nat) returns (path: seq<Partial>, at: Text)
    requires ReadValue(s, depth).Eof? || ReadValue(s, depth) == Panic(Unhashable)
    ensures Reaches(s, path, at, depth) && depth + |path| <= MAX_DEPTH && StopsAt(ReadValue(s, depth), at, depth + |path|)
    decreases |s|, 0
  {
    hide ReadValue, ReadItems, ReadEntries, SpellsPartial, PartialSound, PartialHeight, BadKeyAt;
    ReadDepth(s, depth);
    if Opens(s, L_BRACKET) {
      OpenArray(s, depth);
      var items, mid;
      items, mid, path, at := StoppedItems(s[2..], depth, []);
      assert [] + items == items;
      ArrayPartial(s, items, mid);
      path := [InArray(items)] + path;
      assert path[1..] == path[1..];
    } else if Opens(s, L_BRACE) {
      OpenMap(s, depth);
      path, at := StoppedEntries(s, s[2..], depth, []);
    } else {
      ScalarStops(s, depth);
      path, at := [], s;
    }
  }

  lemma ArrayPartial(s: Text, items: seq<Value>, mid: Text)
    requires Opens(s, L_BRACKET) && SpellsItems(s[2..], items, mid)
    ensures SpellsPartial(s, InArray(items), mid)
    ensures PartialSound(InArray(items)) <==> AllSound(items)
    ensures PartialHeight(InArray(items)) == ItemsHeight(items)
  {
  }

  /** A scalar stops only before a newline. */
  lemma ScalarStops(s: Text, depth: nat)
    requires !Opens(s, L_BRACKET) && !Opens(s, L_BRACE)
    requires ReadValue(s, depth).Eof? || ReadValue(s, depth) == Panic(Unhashable)
    ensures ReadValue(s, depth).Eof? && s == [NL] + ReadValue(s, depth).rest
  {
    hide ReadItems, ReadEntries, GoUnsigned, GoNegative, Matches;
    if s != [] { UnsignedHash(s[1..]); }
    if |s| >= 2 { NegativeHash(s[2..]); }
    if s != [] { assert s == [s[0]] + s[1..]; }
  }

  lemma NegativeHash(s: Text)
    ensures GoNegative(s) != Panic(Unhashable) && !GoNegative(s).Eof?
  {
    hide ScanHex, Matches;
  }

  lemma UnsignedHash(s: Text)
    ensures GoUnsigned(s) != Panic(Unhashable) && !GoUnsigned(s).Eof?
  {
    hide ScanHex;
  }

  lemma {:induction false} StoppedItems(s: Text, depth: nat, acc: seq<Value>)
    returns (items: seq<Value>, mid: Text, path: seq<Partial>, at: Text)
    requires ReadItems(s, depth, acc).Eof? || ReadItems(s, depth, acc) == Panic(Unhashable)
    requires depth <= MAX_DEPTH
    ensures SpellsItems(s, items, mid) && AllSound(items) && depth + ItemsHeight(items) <= MAX_DEPTH
    ensures Reaches(mid, path, at, depth + 1) && depth + 1 + |path| <= MAX_DEPTH
    ensures StopsAt(ReadItems(s, depth, acc), at, depth + 1 + |path|)
    decreases |s|, 1
  {
    hide ReadValue, ReadItems, Spells, Sound, Height, Matches, Reaches, StopsAt;
    ItemsTurn(s, depth, acc);
    var v := ReadValue(s, depth + 1);
    if v.Ok? {
      Taken(s, depth + 1);
      var more;
      more, mid, path, at := StoppedItems(v.rest, depth, acc + [v.v]);
      items := [v.v] + more;
      assert items[1..] == more;
    } else {
      path, at := Stopped(s, depth + 1);
      items, mid := [], s;
    }
  }

  /** `whole` opens the map, and `s` is what is left of it after the entries read. */
  lemma {:induction false} StoppedEntries(whole: Text, s: Text, depth: nat, acc: seq<Entry>) returns (path: seq<Partial>, at: Text)
    requires ReadEntries(s, depth, acc).Eof? || ReadEntries(s, depth, acc) == Panic(Unhashable)
    requires depth <= MAX_DEPTH && Opens(whole, L_BRACE) && SpellsEntries(whole[2..], acc, s)
    requires NewKeys([], acc) && PairsSound(acc) && depth + EntriesHeight(acc) <= MAX_DEPTH
    ensures Reaches(whole, path, at, depth) && depth + |path| <= MAX_DEPTH && StopsAt(ReadEntries(s, depth, acc), at, depth + |path|)
    decreases |s|, 1
  {
    hide ReadValue, ReadEntries, Spells, SpellsEntries, Sound, PairSound, PairsSound, Height, EntriesHeight, PairHeight, Matches, KeyKind, HasKey, NewKeys, StopsAt, Reaches;
    EntriesTurn(s, depth, acc);
    var k := ReadValue(s, depth + 1);
    if !k.Ok? {
      path, at := Stopped(s, depth + 1);
      path := IntoMap(whole, InMap(acc), s, path, at, depth);
    } else {
      Taken(s, depth + 1);
      var v := ReadValue(k.rest, depth + 1);
      if !v.Ok? {
        path, at := Stopped(k.rest, depth + 1);
        path := IntoMap(whole, AtValue(acc, k.v), k.rest, path, at, depth);
      } else {
        Taken(k.rest, depth + 1);
        var e := Entry(k.v, v.v);
        PairTaken(s, e, k.rest, v.rest, depth);
        if !KeyKind(k.v) {
          path, at := [], whole;
          assert BadKey(whole, acc, e, s, v.rest, depth) by { MapPartial(whole, acc, s); }
          BadKeyStops(whole, depth, acc, s);
        } else {
          OneMoreEntry(whole[2..], acc, e, s, v.rest, depth);
          assert [] + acc == acc;
          OneMoreKey([], acc, e);
          path, at := StoppedEntries(whole, v.rest, depth, acc + [e]);
        }
      }
    }
  }

  lemma BadKeyStops(whole: Text, depth: nat, acc: seq<Entry>, s: Text)
    requires BadKeyAt(whole, depth) && ReadEntries(s, depth, acc) == Panic(Unhashable)
    ensures Reaches(whole, [], whole, depth) && StopsAt(ReadEntries(s, depth, acc), whole, depth + 0)
  {
    hide ReadEntries, BadKeyAt;
  }

  lemma PairTaken(s: Text, e: Entry, mid: Text, rest: Text, depth: nat)
    requires Spells(s, e.key, mid) && Spells(mid, e.val, rest) && Sound(e.key) && Sound(e.val)
    requires depth + 1 + Height(e.key) <= MAX_DEPTH + 1 && depth + 1 + Height(e.val) <= MAX_DEPTH + 1
    ensures SpellsPair(s, e, rest) && PairSound(e) && depth + PairHeight(e) <= MAX_DEPTH
  {
    hide Spells, Sound, Height;
  }

  lemma MapPartial(s: Text, entries: seq<Entry>, mid: Text)
    requires Opens(s, L_BRACE) && SpellsEntries(s[2..], entries, mid) && NewKeys([], entries) && PairsSound(entries)
    ensures SpellsPartial(s, InMap(entries), mid) && PartialSound(InMap(entries))
  {
  }

  /** The open map in front of the path. */
  lemma IntoMap(whole: Text, p: Partial, mid: Text, inner: seq<Partial>, at: Text, depth: nat) returns (path: seq<Partial>)
    requires Opens(whole, L_BRACE) && !p.InArray?
    requires if p.InMap? then SpellsEntries(whole[2..], p.entries, mid)
             else exists s: Text :: SpellsEntries(whole[2..], p.entries, s) && Spells(s, p.key, mid)
    requires NewKeys([], p.entries) && PairsSound(p.entries) && depth + EntriesHeight(p.entries) <= MAX_DEPTH
    requires p.AtValue? ==> Sound(p.key) && depth + Height(p.key) <= MAX_DEPTH
    requires Reaches(mid, inner, at, depth + 1)
    ensures |path| == |inner| + 1 && Reaches(whole, path, at, depth)
  {
    hide Spells, SpellsEntries, Sound, Height, NewKeys, PairsSound, EntriesHeight;
    path := [p] + inner;
    assert path[1..] == inner && path[0] == p;
    assert SpellsPartial(whole, p, mid);
  }

  lemma {:induction false} OneMoreEntry(s: Text, acc: seq<Entry>, e: Entry, mid: Text, rest: Text, depth: nat)
    requires SpellsEntries(s, acc, mid) && SpellsPair(mid, e, rest)
    requires PairsSound(acc) && PairSound(e)
    requires depth + EntriesHeight(acc) <= MAX_DEPTH && depth + PairHeight(e) <= MAX_DEPTH
    ensures SpellsEntries(s, acc + [e], rest) && PairsSound(acc + [e]) && depth + EntriesHeight(acc + [e]) <= MAX_DEPTH
    decreases |acc|
  {
    hide SpellsPair, PairSound, PairHeight;
    if acc == [] {
      assert [e][1..] == [];
      assert acc + [e] == [e];
      assert SpellsEntries(rest, [], rest);
    } else {
      assert (acc + [e])[0] == acc[0] && (acc + [e])[1..] == acc[1..] + [e];
      var m: Text :| SpellsPair(s, acc[0], m) && SpellsEntries(m, acc[1..], mid);
      OneMoreEntry(m, acc[1..], e, mid, rest, depth);
    }
  }

  lemma {:induction false} OneMoreKey(before: seq<Entry>, acc: seq<Entry>, e: Entry)
    requires NewKeys(before, acc) && KeyKind(e.key) && !HasKey(before + acc, e.key)
    ensures NewKeys(before, acc + [e])
    decreases |acc|
  {
    hide KeyKind, HasKey;
    if acc == [] {
      assert acc + [e] == [e] && [e][1..] == [];
      assert before + [] == before;
    } else {
      assert (acc + [e])[0] == acc[0] && (acc + [e])[1..] == acc[1..] + [e];
      assert before + acc == (before + [acc[0]]) + acc[1..];
      OneMoreKey(before + [acc[0]], acc[1..], e);
    }
  }

  /** A read ends at the end of the entry exactly when the text opens any number of containers, within the depth limit, and
      then comes to a newline where the next value of the innermost one should be. */
  lemma EndsExactly(s: Text, rest: Text, depth: nat)
    ensures ReadValue(s, depth) == Eof(rest) <==>
            exists path: seq<Partial> :: Reaches(s, path, [NL] + rest, depth) && depth + |path| <= MAX_DEPTH
  {
    hide ReadValue, Reaches, BadKeyAt;
    if ReadValue(s, depth) == Eof(rest) {
      var path, at := Stopped(s, depth);
    }
    if path: seq<Partial> :| Reaches(s, path, [NL] + rest, depth) && depth + |path| <= MAX_DEPTH {
      NewlineHere(rest, depth + |path|);
      FailureCarries(s, path, [NL] + rest, depth);
    }
  }

  lemma NewlineHere(rest: Text, depth: nat)
    requires depth <= MAX_DEPTH
    ensures ReadValue([NL] + rest, depth) == Eof(rest) && !ClosesAt([NL] + rest)
  {
    assert ([NL] + rest)[1..] == rest;
  }

  /** A read crashes on a key exactly when the text opens any number of containers, within the depth limit, and then a map whose
      next key, read with its value, is bytes, an array or a map. */
  lemma CrashesExactly(s: Text, depth: nat)
    ensures ReadValue(s, depth) == Panic(Unhashable) <==>
            exists path: seq<Partial>, at: Text ::
              Reaches(s, path, at, depth) && depth + |path| <= MAX_DEPTH && BadKeyAt(at, depth + |path|)
  {
    hide ReadValue, Reaches, BadKeyAt;
    if ReadValue(s, depth) == Panic(Unhashable) {
      var path, at := Stopped(s, depth);
    }
    if path: seq<Partial>, at: Text :| Reaches(s, path, at, depth) && depth + |path| <= MAX_DEPTH && BadKeyAt(at, depth + |path|) {
      BadKeyCrashes(at, depth + |path|);
      FailureCarries(s, path, at, depth);
    }
  }

  // ----- entries

  lemma ValsTurn(s: Text, acc: seq<Value>)
    ensures var r := ReadValue(s, 1);
            && (r.Ok? ==> ReadVals(s, acc) == ReadVals(r.rest, acc + [r.v]))
            && (r.Eof? ==> ReadVals(s, acc) == Ok(acc, r.rest))
            && (r.Err? || r.Panic? ==> !ReadVals(s, acc).Ok?)
  {
    hide ReadValue;
  }

  lemma {:induction false} TakesVals(s: Text, vals: seq<Value>, rest: Text, acc: seq<Value>)
    requires SpellsItems(s, vals, rest) && AllSound(vals) && ItemsHeight(vals) <= MAX_DEPTH
    ensures ReadVals(s, acc) == ReadVals(rest, acc + vals)
    decreases |vals|
  {
    hide ReadValue, ReadVals, Spells, Sound, Height;
    if vals == [] {
      assert acc + [] == acc;
    } else {
      var mid: Text :| Spells(s, vals[0], mid) && SpellsItems(mid, vals[1..], rest);
      ValsTurn(s, acc);
      Takes(s, vals[0], mid, 1);
      TakesVals(mid, vals[1..], rest, acc + [vals[0]]);
      assert (acc + [vals[0]]) + vals[1..] == acc + vals;
    }
  }

  lemma {:induction false} TakenVals(s: Text, acc: seq<Value>) returns (vals: seq<Value>, mid: Text, path: seq<Partial>)
    requires ReadVals(s, acc).Ok?
    ensures var r := ReadVals(s, acc);
            && r.v == acc + vals && SpellsItems(s, vals, mid) && AllSound(vals) && ItemsHeight(vals) <= MAX_DEPTH
            && Reaches(mid, path, [NL] + r.rest, 1) && 1 + |path| <= MAX_DEPTH
    decreases |s|
  {
    hide ReadValue, ReadVals, Spells, Sound, Height, Reaches, BadKeyAt;
    ValsTurn(s, acc);
    var r := ReadValue(s, 1);
    if r.Ok? {
      Taken(s, 1);
      var more;
      more, mid, path := TakenVals(r.rest, acc + [r.v]);
      vals := [r.v] + more;
      assert (acc + [r.v]) + more == acc + vals;
      assert vals[1..] == more;
    } else {
      var at;
      path, at := Stopped(s, 1);
      vals, mid := [], s;
      assert acc + [] == acc;
    }
  }

  /** An entry's values spelled in front, and then its end inside the containers of the path; none are open if it is whole. */
  ghost predicate EntryEnds(s: Text, vals: seq<Value>, path: seq<Partial>, rest: Text) {
    && AllSound(vals) && ItemsHeight(vals) <= MAX_DEPTH && 1 + |path| <= MAX_DEPTH
    && exists mid: Text :: SpellsItems(s, vals, mid) && Reaches(mid, path, [NL] + rest, 1)
  }

  /** Go takes an entry exactly when its text spells the values returned, within the depth limit and with sound maps, and then
      opens any number of containers before the newline: what is inside those is dropped. */
  lemma EntryExactly(typ: byte, s: Text, vals: seq<Value>, rest: Text)
    ensures EntryVals([typ] + s) == Ok(vals, rest) <==> exists path: seq<Partial> :: EntryEnds(s, vals, path, rest)
  {
    hide ReadVals, SpellsItems, AllSound, Reaches;
    assert ([typ] + s)[1..] == s;
    if EntryVals([typ] + s) == Ok(vals, rest) {
      var ws, mid, path := TakenVals(s, []);
      assert [] + ws == ws;
      assert EntryEnds(s, vals, path, rest);
    }
    if path: seq<Partial> :| EntryEnds(s, vals, path, rest) {
      var mid: Text :| SpellsItems(s, vals, mid) && Reaches(mid, path, [NL] + rest, 1);
      TakesVals(s, vals, mid, []);
      assert [] + vals == vals;
      NewlineHere(rest, 1 + |path|);
      FailureCarries(mid, path, [NL] + rest, 1);
      ValsTurn(mid, vals);
    }
  }

  /** For one, an entry with an array that is never closed is read as an entry without values. */
  lemma DroppedArray()
    ensures EntryVals([0x52, SP, L_BRACKET, SP, CH_T, NL]) == Ok([], [])
  {
    hide ReadVals, Spells, Reaches, SpellsItems;
    var s := [SP, L_BRACKET, SP, CH_T, NL];
    OpenTrue();
    assert SpellsItems(s, [], s) by { NoItemsSpelled(s); }
    assert EntryEnds(s, [], [InArray([VBool(true)])], []);
    EntryExactly(0x52, s, [], []);
    assert [0x52] + s == [0x52, SP, L_BRACKET, SP, CH_T, NL];
  }

  /** A closing bracket by itself is refused, whatever comes behind it. */
  lemma StrayCloseRefused(close: byte, rest: Text, acc: seq<Value>)
    requires close == R_BRACKET || close == R_BRACE
    ensures ReadVals([SP, close] + rest, acc) == Err(Invalid)
  {
    hide GoNegative, ReadItems, ReadEntries, Special;
    var s := [SP, close] + rest;
    assert s[1..] == [close] + rest;
    assert ScanHex(s[1..]) == NoHex;
    assert ReadValue(s, 1) == Err(Invalid);
  }

  lemma NoItemsSpelled(s: Text)
    ensures SpellsItems(s, [], s)
  {
  }

  lemma OpenTrue()
    ensures Reaches([SP, L_BRACKET, SP, CH_T, NL], [InArray([VBool(true)])], [NL] + [], 1)
  {
    var s, t, n := [SP, L_BRACKET, SP, CH_T, NL], [SP, CH_T, NL], [NL] + [];
    var items := [VBool(true)];
    assert s[2..] == t && t[2..] == n && items[1..] == [];
    assert IsScalarAt(t, VBool(true), n) by { ReadTrue(t); }
    assert Spells(t, VBool(true), n) && SpellsItems(n, [], n);
    assert SpellsItems(t, items, n);
    var path := [InArray(items)];
    assert path[1..] == [];
    assert SpellsPartial(s, path[0], n) && Reaches(n, [], n, 2);
    assert AllSound(items) && ItemsHeight(items) == 1;
  }

  lemma ReadTrue(s: Text)
    requires |s| >= 2 && s[0] == SP && s[1] == CH_T
    ensures ReadValue(s, 1) == Ok(VBool(true), s[2..])
  {
    hide ReadItems, ReadEntries, GoNegative, GoUnsigned, Special;
  }
}
