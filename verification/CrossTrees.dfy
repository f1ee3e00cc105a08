/** Trees printed in Go and read in C: the same values, under a different depth rule. */
module CrossTrees {
  import opened Words
  import opened Hex
  import opened Numbers
  import opened RealTexts
  import opened Tokens
  import opened SipcFormat
  import opened Messages
  import opened Brackets
  import opened GoFormat
  import opened GoValues
  import GoTrees

  // ----- what C makes of a value

  function TokenMeaning(t: Token): GoTrees.Meaning
    requires IsScalar(t)
  {
    match t
    case Bool(b) => GoTrees.MBool(b)
    case Str(s) => GoTrees.MString(s)
    case Bytes(s) => GoTrees.MBytes(s)
    case PositiveInt(_) => GoTrees.MNumber(TokenNumber(t))
    case NegativeInt(_) => GoTrees.MNumber(TokenNumber(t))
    case Double(_) => GoTrees.MNumber(TokenNumber(t))
  }

  /** The tree of tokens shows the value: equal scalars, arrays and maps with their members in order. */
  predicate Shows(n: Node, v: Value)
    decreases v
  {
    match v
    case VArray(items) => n.Nest? && n.list && ShowsItems(n.items, items)
    case VMap(entries) => n.Nest? && !n.list && ShowsEntries(n.items, entries)
    case _ => n.Leaf? && IsScalar(n.t) && TokenMeaning(n.t) == GoTrees.MeaningOf(v)
  }

  predicate ShowsItems(nodes: seq<Node>, items: seq<Value>)
    decreases items
  {
    if items == [] then nodes == [] else nodes != [] && Shows(nodes[0], items[0]) && ShowsItems(nodes[1..], items[1..])
  }

  predicate ShowsEntries(nodes: seq<Node>, entries: seq<Entry>)
    decreases entries
  {
    if entries == [] then nodes == []
    else |nodes| >= 2 && ShowsPair(nodes[0], nodes[1], entries[0]) && ShowsEntries(nodes[2..], entries[1..])
  }

  predicate ShowsPair(k: Node, v: Node, e: Entry)
    decreases e
  {
    Shows(k, e.key) && Shows(v, e.val)
  }

  /** How many containers are open at once; scalars do not count. */
  function Nesting(v: Value): nat {
    match v
    case VArray(items) => 1 + ItemsNesting(items)
    case VMap(entries) => 1 + EntriesNesting(entries)
    case _ => 0
  }

  function ItemsNesting(items: seq<Value>): nat {
    if items == [] then 0 else Max(Nesting(items[0]), ItemsNesting(items[1..]))
  }

  function EntriesNesting(entries: seq<Entry>): nat {
    if entries == [] then 0 else Max(PairNesting(entries[0]), EntriesNesting(entries[1..]))
  }

  function PairNesting(e: Entry): nat { Max(Nesting(e.key), Nesting(e.val)) }

  /** Printed in Go with hex fields of at most eight digits, with strings a C length can hold. */
  predicate Readable(v: Value) {
    match v
    case VBool(_) => true
    case VString(s) => |s| <= INT_MAX
    case VBytes(s) => |s| <= INT_MAX
    case VFloat(u) => Short(OfDouble(u))
    case VUint(n) => Short(OfInt(n))
    case VInt(i) => Short(OfInt(i))
    case VArray(items) => AllReadable(items)
    case VMap(entries) => AllPairsReadable(entries)
    case VOther => false
  }

  predicate AllReadable(items: seq<Value>) { items == [] || (Readable(items[0]) && AllReadable(items[1..])) }

  predicate AllPairsReadable(entries: seq<Entry>) {
    entries == [] || (PairReadable(entries[0]) && AllPairsReadable(entries[1..]))
  }

  predicate PairReadable(e: Entry) { Readable(e.key) && Readable(e.val) }

  /** No positive infinity inside. */
  predicate Bounded(v: Value) {
    match v
    case VFloat(u) => !IsPositiveInfinity(Double(u))
    case VArray(items) => AllBounded(items)
    case VMap(entries) => AllPairsBounded(entries)
    case _ => true
  }

  predicate AllBounded(items: seq<Value>) { items == [] || (Bounded(items[0]) && AllBounded(items[1..])) }

  predicate AllPairsBounded(entries: seq<Entry>) { entries == [] || (PairBounded(entries[0]) && AllPairsBounded(entries[1..])) }

  predicate PairBounded(e: Entry) { Bounded(e.key) && Bounded(e.val) }

  // ----- scalars

  /** A scalar printed in Go is one C token, for the same value unless it is positive infinity. */
  lemma ScalarToken(v: Value, rest: Text, f: Stale)
    requires !v.VArray? && !v.VMap? && Readable(v) && Delimited(rest)
    ensures var r := NextToken(ValueText(v) + rest, f);
            r.Got? && r.rest == rest && IsScalar(r.v) && (TokenMeaning(r.v) == GoTrees.MeaningOf(v) <==> Bounded(v))
  {
    hide NextToken, Spell, GoUintText, GoFloatText, OfMagnitude, OfDouble, Short, IsPositiveInfinity;
    match v
    case VBool(b) =>
      BoolToken(b, rest, f);
    case VUint(n) =>
      UintTextExact(false, n);
      WordReadsBack(false, n, rest, f);
    case VInt(i) =>
      UintTextExact(i < 0, if i < 0 then -(i as int) else i);
      WordReadsBack(i < 0, if i < 0 then -(i as int) else i, rest, f);
    case VFloat(u) =>
      FloatTextExact(u);
      DoubleReadsBack(u, rest, f);
    case VString(s) =>
      GoSized(COLON, s);
      SizedReadsBack(COLON, s, rest, f);
    case VBytes(s) =>
      GoSized(BAR, s);
      SizedReadsBack(BAR, s, rest, f);
  }

  lemma BoolToken(b: bool, rest: Text, f: Stale)
    ensures NextToken([SP, if b then CH_T else CH_F] + rest, f) == Got(Bool(b), rest)
  {
    assert ([SP, if b then CH_T else CH_F] + rest)[2..] == rest;
  }

  lemma GoSized(delim: byte, s: Text)
    requires |s| <= INT_MAX
    ensures GoSizedText(delim, s) == [SP] + SizedText(delim, s)
  {
    GoHexExact(|s|);
    Assoc([SP], HexDigits(|s|), [delim]);
    Assoc([SP], HexDigits(|s|) + [delim], s);
  }

  // ----- trees

  lemma StartsDelimited(v: Value, rest: Text)
    requires Readable(v)
    ensures Delimited(ValueText(v) + rest)
  {
    hide ValueText;
    FirstByte(v);
    assert (ValueText(v) + rest)[0] == ValueText(v)[0];
  }

  lemma FirstByte(v: Value)
    requires v != VOther
    ensures ValueText(v) != [] && ValueText(v)[0] == SP
  {
    hide GoScaledText, GoHex, ItemsText, EntriesText;
  }

  lemma ItemsDelimited(items: seq<Value>, rest: Text)
    requires AllReadable(items) && Delimited(rest)
    ensures Delimited(ItemsText(items) + rest)
  {
    if items == [] {
      assert ItemsText(items) + rest == rest;
    } else {
      Assoc(ValueText(items[0]), ItemsText(items[1..]), rest);
      StartsDelimited(items[0], ItemsText(items[1..]) + rest);
    }
  }

  lemma EntriesDelimited(entries: seq<Entry>, rest: Text)
    requires AllPairsReadable(entries) && Delimited(rest)
    ensures Delimited(EntriesText(entries) + rest)
  {
    if entries == [] {
      assert EntriesText(entries) + rest == rest;
    } else {
      var e, tail := entries[0], EntriesText(entries[1..]) + rest;
      Assoc(PairText(e), EntriesText(entries[1..]), rest);
      Assoc(ValueText(e.key), ValueText(e.val), tail);
      StartsDelimited(e.key, ValueText(e.val) + tail);
    }
  }

  lemma BracketTokens(rest: Text, f: Stale, list: bool)
    ensures NextToken([SP, if list then L_BRACKET else L_BRACE] + rest, f) == Got(Open(list), rest)
    ensures NextToken([SP, if list then R_BRACKET else R_BRACE] + rest, f) == Got(Close(list), rest)
  {
    assert ([SP, if list then L_BRACKET else L_BRACE] + rest)[2..] == rest;
    assert ([SP, if list then R_BRACKET else R_BRACE] + rest)[2..] == rest;
  }

  /** Brackets around the tokens of a forest make the tokens of a container. */
  lemma NestLexes(list: bool, body: Text, nodes: seq<Node>, rest: Text, f: Stale)
    requires Lexes(body + (CloseText(list) + rest), Flatten(nodes), CloseText(list) + rest, f)
    ensures Lexes([SP, if list then L_BRACKET else L_BRACE] + (body + (CloseText(list) + rest)), FlattenNode(Nest(list, nodes)), rest, f)
  {
    hide NextToken, Lexes, Flatten;
    var open := [SP, if list then L_BRACKET else L_BRACE];
    var inner := body + (CloseText(list) + rest);
    BracketTokens(inner, f, list);
    BracketTokens(rest, f, list);
    LexesOne(CloseText(list) + rest, Close(list), rest, f);
    LexesOne(open + inner, Open(list), inner, f);
    LexesAppend(inner, Flatten(nodes), CloseText(list) + rest, [Close(list)], rest, f);
    LexesAppend(open + inner, [Open(list)], inner, Flatten(nodes) + [Close(list)], rest, f);
    assert [Open(list)] + (Flatten(nodes) + [Close(list)]) == [Open(list)] + Flatten(nodes) + [Close(list)];
  }

  /** Any such value is, to the C token reader, the tokens of a tree of its shape, which shows the value exactly when there is
      no positive infinity inside. */
  lemma {:induction false} ValueLexes(v: Value, rest: Text, f: Stale) returns (n: Node)
    requires Readable(v) && Delimited(rest)
    ensures Brackets.Proper([n]) && NodeDepth(n) == Nesting(v) && (Shows(n, v) <==> Bounded(v))
    ensures v.VArray? || v.VMap? ==> n.Nest? && n.list == v.VArray?
    ensures Lexes(ValueText(v) + rest, FlattenNode(n), rest, f)
    decreases v, 0
  {
    hide NextToken, Lexes, ValueText, Flatten;
    if v.VArray? {
      var nodes := ItemsLex(v.items, CloseText(true) + rest, f);
      n := Nest(true, nodes);
      ContainerText(v, rest);
      NestLexes(true, ItemsText(v.items), nodes, rest, f);
    } else if v.VMap? {
      var nodes := EntriesLex(v.entries, CloseText(false) + rest, f);
      n := Nest(false, nodes);
      ContainerText(v, rest);
      NestLexes(false, EntriesText(v.entries), nodes, rest, f);
    } else {
      ScalarToken(v, rest, f);
      var r := NextToken(ValueText(v) + rest, f);
      n := Leaf(r.v);
      LexesOne(ValueText(v) + rest, r.v, rest, f);
    }
  }

  /** A container's text, regrouped around its members. */
  lemma ContainerText(v: Value, rest: Text)
    requires v.VArray? || v.VMap?
    ensures var body := if v.VArray? then ItemsText(v.items) else EntriesText(v.entries);
            ValueText(v) + rest == [SP, if v.VArray? then L_BRACKET else L_BRACE] + (body + (CloseText(v.VArray?) + rest))
  {
    hide ItemsText, EntriesText;
    var body := if v.VArray? then ItemsText(v.items) else EntriesText(v.entries);
    var open := [SP, if v.VArray? then L_BRACKET else L_BRACE];
    Assoc(open + body, CloseText(v.VArray?), rest);
    Assoc(open, body, CloseText(v.VArray?) + rest);
  }

  /** Putting one more node in front. */
  lemma LexesMore(s: Text, n: Node, mid: Text, nodes: seq<Node>, rest: Text, f: Stale)
    requires Lexes(s, FlattenNode(n), mid, f) && Lexes(mid, Flatten(nodes), rest, f) && Brackets.Proper([n]) && Brackets.Proper(nodes)
    ensures Lexes(s, Flatten([n] + nodes), rest, f) && Brackets.Proper([n] + nodes)
    ensures Depth([n] + nodes) == Max(NodeDepth(n), Depth(nodes))
  {
    hide NextToken, Lexes;
    assert ([n] + nodes)[1..] == nodes;
    LexesAppend(s, FlattenNode(n), mid, Flatten(nodes), rest, f);
  }

  lemma {:induction false} ItemsLex(items: seq<Value>, rest: Text, f: Stale) returns (nodes: seq<Node>)
    requires AllReadable(items) && Delimited(rest)
    ensures Brackets.Proper(nodes) && Depth(nodes) == ItemsNesting(items) && (ShowsItems(nodes, items) <==> AllBounded(items))
    ensures Lexes(ItemsText(items) + rest, Flatten(nodes), rest, f)
    decreases items, 1
  {
    hide NextToken, ValueText, Readable, Shows, Nesting, Bounded;
    if items == [] {
      nodes := [];
      assert ItemsText(items) + rest == rest;
    } else {
      hide Lexes, Flatten, ItemsText;
      var tail := ItemsText(items[1..]) + rest;
      ItemsDelimited(items[1..], rest);
      var n := ValueLexes(items[0], tail, f);
      var more := ItemsLex(items[1..], rest, f);
      nodes := [n] + more;
      FirstItem(items, rest);
      LexesMore(ItemsText(items) + rest, n, tail, more, rest, f);
      assert nodes[1..] == more;
    }
  }

  lemma FirstItem(items: seq<Value>, rest: Text)
    requires items != []
    ensures ItemsText(items) + rest == ValueText(items[0]) + (ItemsText(items[1..]) + rest)
  {
    hide ValueText;
    Assoc(ValueText(items[0]), ItemsText(items[1..]), rest);
  }

  lemma FirstEntry(entries: seq<Entry>, rest: Text)
    requires entries != []
    ensures EntriesText(entries) + rest
            == ValueText(entries[0].key) + (ValueText(entries[0].val) + (EntriesText(entries[1..]) + rest))
  {
    hide ValueText;
    var e := entries[0];
    Assoc(PairText(e), EntriesText(entries[1..]), rest);
    Assoc(ValueText(e.key), ValueText(e.val), EntriesText(entries[1..]) + rest);
  }

  lemma {:induction false} EntriesLex(entries: seq<Entry>, rest: Text, f: Stale) returns (nodes: seq<Node>)
    requires AllPairsReadable(entries) && Delimited(rest)
    ensures Brackets.Proper(nodes) && Depth(nodes) == EntriesNesting(entries) && (ShowsEntries(nodes, entries) <==> AllPairsBounded(entries))
    ensures Lexes(EntriesText(entries) + rest, Flatten(nodes), rest, f)
    decreases entries, 1
  {
    hide NextToken, ValueText, Readable, Shows, Nesting, Bounded;
    if entries == [] {
      nodes := [];
      assert EntriesText(entries) + rest == rest;
    } else {
      hide Lexes, Flatten, EntriesText;
      var e, tail := entries[0], EntriesText(entries[1..]) + rest;
      EntriesDelimited(entries[1..], rest);
      var k, v := PairLex(e, tail, f);
      var more := EntriesLex(entries[1..], rest, f);
      FirstEntry(entries, rest);
      var mid := ValueText(e.val) + tail;
      LexesMore(mid, v, tail, more, rest, f);
      LexesMore(EntriesText(entries) + rest, k, mid, [v] + more, rest, f);
      nodes := [k] + ([v] + more);
      assert nodes[2..] == more && nodes[0] == k && nodes[1] == v;
    }
  }

  lemma {:induction false} PairLex(e: Entry, tail: Text, f: Stale) returns (k: Node, v: Node)
    requires PairReadable(e) && Delimited(tail)
    ensures Brackets.Proper([k]) && Brackets.Proper([v]) && Max(NodeDepth(k), NodeDepth(v)) == PairNesting(e) && (ShowsPair(k, v, e) <==> PairBounded(e))
    ensures Lexes(ValueText(e.key) + (ValueText(e.val) + tail), FlattenNode(k), ValueText(e.val) + tail, f)
    ensures Lexes(ValueText(e.val) + tail, FlattenNode(v), tail, f)
    decreases e, 1
  {
    hide NextToken, ValueText, Lexes, Nesting, Flatten;
    v := ValueLexes(e.val, tail, f);
    StartsDelimited(e.val, tail);
    k := ValueLexes(e.key, ValueText(e.val) + tail, f);
  }

  /** A container printed in Go is accepted by `sipc_any` exactly when at most sixteen containers are open at once, with
      exactly the tail left; the tokens read show the value exactly when there is no positive infinity inside. */
  lemma CReadsGoTree(v: Value, rest: Text, f: Stale) returns (n: Node)
    requires (v.VArray? || v.VMap?) && Readable(v) && Delimited(rest)
    ensures (Shows(n, v) <==> Bounded(v)) && Lexes(ValueText(v) + rest, FlattenNode(n), rest, f)
    ensures var r := NextAny(ValueText(v) + rest, f);
            if Nesting(v) <= 16 then r.Got? && r.rest == rest && r.v.Container? && r.v.list == v.VArray? else r == Fail
  {
    hide NextToken, ValueText, Lexes, Flatten;
    n := ValueLexes(v, rest, f);
    var s := ValueText(v) + rest;
    assert n.Nest? && n.list == v.VArray?;
    var tail := Flatten(n.items) + [Close(n.list)];
    assert FlattenNode(n) == [Open(n.list)] + tail;
    var body := LexesPrefix(s, [Open(n.list)], tail, rest, f);
    LexesOne(s, Open(n.list), body, f);
    assert Encloses(body, n.list, n.items, rest, f);
    EnclosedClose(body, n.list, n.items, rest, f);
  }

  /** Arrays around a boolean. */
  function Nested(k: nat): Value { if k == 0 then VBool(true) else VArray([Nested(k - 1)]) }

  lemma {:induction false} NestedFacts(k: nat)
    ensures Nesting(Nested(k)) == k && GoTrees.Height(Nested(k)) == k + 1 && Readable(Nested(k)) && GoTrees.Printable(Nested(k))
  {
    if k > 0 {
      NestedFacts(k - 1);
      assert [Nested(k - 1)][1..] == [];
      assert GoTrees.ItemsHeight([Nested(k - 1)]) == Max(GoTrees.Height(Nested(k - 1)), 0);
      assert ItemsNesting([Nested(k - 1)]) == Max(Nesting(Nested(k - 1)), 0);
    }
  }

  lemma NestedArray(k: nat)
    ensures if k > 0 then Nested(k).VArray? else Nested(k).VBool?
  {
  }

  /** The two depth rules differ: `k` arrays around a scalar are read by C exactly if there are at most sixteen, and by Go
      exactly if there are at most fifteen, the scalar counting as one more. */
  lemma DepthRulesDiffer(k: nat, rest: Text, f: Stale)
    requires Delimited(rest)
    ensures var s := ValueText(Nested(k)) + rest;
            && (NextAny(s, f).Got? <==> k <= 16)
            && (k <= 15 ==> ReadValue(s, 1).Ok? && ReadValue(s, 1).rest == rest && GoTrees.MeaningOf(ReadValue(s, 1).v) == GoTrees.MeaningOf(Nested(k)))
            && (k > 15 ==> ReadValue(s, 1) == Err(TooDeep))
  {
    hide ValueText, NextAny, NextToken, ReadValue, Nesting, GoTrees.Height, GoTrees.MeaningOf, Nested, Readable, GoTrees.Printable, Lexes, Flatten;
    NestedFacts(k);
    GoTrees.ValueTrip(Nested(k), rest, 1);
    NestedArray(k);
    if k > 0 {
      var n := CReadsGoTree(Nested(k), rest, f);
    } else {
      ScalarToken(Nested(0), rest, f);
      AtomRead(ValueText(Nested(0)) + rest, f);
    }
  }
}
