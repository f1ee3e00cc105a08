/** Whole entries in C against a grammar: what a loop of `sipc_any` returns, and where `sipc_end` stops, on any text. */
module Entries {
  import opened Words
  import opened Hex
  import opened RealTexts
  import opened Tokens
  import opened SipcFormat
  import opened Messages
  import opened Brackets

  // ----- one value

  /** What `sipc_any` takes at the top of an entry: a scalar, a properly nested container, or a closing bracket by itself. */
  predicate TopNode(n: Node) {
    match n
    case Leaf(t) => !t.Open? && !t.End?
    case Nest(_, inner) => Brackets.Proper(inner)
  }

  predicate TopLevel(items: seq<Node>) { items == [] || (TopNode(items[0]) && TopLevel(items[1..])) }

  function OpenText(list: bool): Text { [SP, if list then L_BRACKET else L_BRACE] }

  /** The tokens of `n` come first in `s`, and `v` is what they stand for: a token, or the bytes between two brackets. */
  predicate Stands(s: Text, n: Node, v: Any, rest: Text, f: Stale) {
    && Lexes(s, FlattenNode(n), rest, f)
    && match n
       case Leaf(t) => v == Atom(t)
       case Nest(list, _) => v.Container? && v.list == list && s == OpenText(list) + v.span + CloseText(list) + rest
  }

  lemma OpenIsTwoBytes(s: Text, list: bool, rest: Text, f: Stale)
    requires NextToken(s, f) == Got(Open(list), rest)
    ensures s == OpenText(list) + rest
  {
    hide UnsignedToken, ReadReal;
    if NextToken(s, f) == UnsignedToken(s[1..], f(|s|)) { UnsignedKinds(s[1..], f(|s|)); }
    assert s == s[..2] + s[2..];
    assert s[..2] == [s[0], s[1]];
  }

  /** A container's tokens, and the bytes between its brackets. */
  lemma ContainerStands(s: Text, list: bool, inner: seq<Node>, rest: Text, f: Stale) returns (body: Text, span: Text)
    requires Brackets.Proper(inner) && Lexes(s, FlattenNode(Nest(list, inner)), rest, f)
    ensures NextToken(s, f) == Got(Open(list), body) && Encloses(body, list, inner, rest, f)
    ensures |rest| + 2 <= |body| && span == body[..|body| - |rest| - 2]
    ensures s == OpenText(list) + span + CloseText(list) + rest
  {
    hide NextToken, Lexes, Flatten, Brackets.Proper;
    var tail := Flatten(inner) + [Close(list)];
    assert FlattenNode(Nest(list, inner)) == [Open(list)] + tail;
    body := LexesPrefix(s, [Open(list)], tail, rest, f);
    LexesOne(s, Open(list), body, f);
    OpenIsTwoBytes(s, list, body, f);
    SpanOf(body, Flatten(inner), list, rest, f);
    span := body[..|body| - |rest| - 2];
    Assoc(OpenText(list), span, CloseText(list));
    Assoc(OpenText(list), span + CloseText(list), rest);
  }

  /** Only one span fits between the brackets. */
  lemma OneSpan(list: bool, a: Text, b: Text, rest: Text)
    requires OpenText(list) + a + CloseText(list) + rest == OpenText(list) + b + CloseText(list) + rest
    ensures a == b
  {
    var s, t := OpenText(list) + a + CloseText(list) + rest, OpenText(list) + b + CloseText(list) + rest;
    assert |s| == |a| + 4 + |rest| && |t| == |b| + 4 + |rest|;
    assert a == s[2..2 + |a|] && b == t[2..2 + |b|];
  }

  lemma NodeRead(s: Text, n: Node, v: Any, rest: Text, f: Stale)
    requires (TopNode(n) || n == Leaf(End)) && Stands(s, n, v, rest, f) && NodeDepth(n) <= 16
    ensures NextAny(s, f) == Got(v, rest)
  {
    hide NextToken, Flatten;
    match n
    case Leaf(t) =>
      LexesOne(s, t, rest, f);
    case Nest(list, inner) =>
      var body, span := ContainerStands(s, list, inner, rest, f);
      OneSpan(list, span, v.span, rest);
      EnclosedClose(body, list, inner, rest, f);
  }

  lemma AnyNode(s: Text, f: Stale) returns (n: Node)
    requires NextAny(s, f).Got?
    ensures TopNode(n) || n == Leaf(End)
    ensures Stands(s, n, NextAny(s, f).v, NextAny(s, f).rest, f) && NodeDepth(n) <= 16
  {
    hide NextToken, Flatten, Lexes;
    var r := NextToken(s, f);
    if r.v.Open? {
      var inner, rest := ClosedIsForest(r.rest, [r.v.list], f);
      var list := r.v.list;
      assert [list][..0] == [];
      assert CloseAll(rest, [], f) == Past(rest) by { NothingOpen(rest, f); }
      n := Nest(list, inner);
      LexesOne(s, Open(list), r.rest, f);
      LexesAppend(s, [Open(list)], r.rest, Flatten(inner) + [Close(list)], rest, f);
      assert [Open(list)] + (Flatten(inner) + [Close(list)]) == FlattenNode(n);
      var body, span := ContainerStands(s, list, inner, rest, f);
    } else {
      n := Leaf(r.v);
      LexesOne(s, r.v, r.rest, f);
    }
  }

  lemma NothingOpen(s: Text, f: Stale)
    ensures CloseAll(s, [], f) == Past(s)
  {
  }

  // ----- the values of an entry

  /** One after the other the nodes stand for the values, and then comes the end of the entry. */
  ghost predicate Lists(s: Text, items: seq<Node>, vs: seq<Any>, rest: Text, f: Stale)
    decreases |items|
  {
    if items == [] then vs == [] && NextToken(s, f) == Got(End, rest)
    else vs != [] && exists mid: Text :: Stands(s, items[0], vs[0], mid, f) && Lists(mid, items[1..], vs[1..], rest, f)
  }

  lemma {:induction false} ListedRead(s: Text, items: seq<Node>, vs: seq<Any>, rest: Text, f: Stale)
    requires TopLevel(items) && Depth(items) <= 16 && Lists(s, items, vs, rest, f)
    ensures ReadEntry(s, f) == Got(vs, rest)
    decreases |items|
  {
    hide NextToken, NextAny, Stands, TopNode;
    Consed(s, f);
    if items == [] {
      AtomRead(s, f);
      AtEnd(s, f);
    } else {
      var mid: Text :| Stands(s, items[0], vs[0], mid, f) && Lists(mid, items[1..], vs[1..], rest, f);
      NodeRead(s, items[0], vs[0], mid, f);
      NoEnd(s, items[0], vs[0], mid, f);
      ListedRead(mid, items[1..], vs[1..], rest, f);
      assert [vs[0]] + vs[1..] == vs;
    }
  }

  lemma NoEnd(s: Text, n: Node, v: Any, rest: Text, f: Stale)
    requires TopNode(n) && Stands(s, n, v, rest, f)
    ensures v != Atom(End)
  {
    hide Lexes;
  }

  lemma AtEnd(s: Text, f: Stale)
    requires NextAny(s, f).Got? && NextAny(s, f).v == Atom(End)
    ensures ReadEntry(s, f) == Got([], NextAny(s, f).rest) && SkipEntry(s, f) == Past(NextAny(s, f).rest)
  {
    hide NextAny;
  }

  lemma {:induction false} EntryListed(s: Text, f: Stale) returns (items: seq<Node>)
    requires ReadEntry(s, f).Got?
    ensures TopLevel(items) && Depth(items) <= 16 && Lists(s, items, ReadEntry(s, f).v, ReadEntry(s, f).rest, f)
    decreases |s|
  {
    hide NextToken, NextAny, Stands, TopNode;
    Consed(s, f);
    var r := NextAny(s, f);
    var n := AnyNode(s, f);
    if r.v == Atom(End) {
      AtEnd(s, f);
      EndNode(s, n, r.rest, f);
      items := [];
    } else {
      NotEndNode(s, n, r.v, r.rest, f);
      var more := EntryListed(r.rest, f);
      items := [n] + more;
      assert items[1..] == more;
      var vs := ReadEntry(s, f).v;
      assert vs[0] == r.v && vs[1..] == ReadEntry(r.rest, f).v;
    }
  }

  lemma EndNode(s: Text, n: Node, rest: Text, f: Stale)
    requires Stands(s, n, Atom(End), rest, f)
    ensures NextToken(s, f) == Got(End, rest)
  {
    hide NextToken;
    LexesOne(s, End, rest, f);
  }

  lemma NotEndNode(s: Text, n: Node, v: Any, rest: Text, f: Stale)
    requires (TopNode(n) || n == Leaf(End)) && Stands(s, n, v, rest, f) && v != Atom(End)
    ensures TopNode(n)
  {
    hide Lexes;
  }

  /** A loop of `sipc_any` returns these values and stops there exactly if the text up to there is scalars, properly nested
      containers at most sixteen deep, and closing brackets by themselves, standing for these values, and then the end. */
  lemma EntryExactly(s: Text, vs: seq<Any>, rest: Text, f: Stale)
    ensures ReadEntry(s, f) == Got(vs, rest) <==>
            exists items: seq<Node> :: TopLevel(items) && Depth(items) <= 16 && Lists(s, items, vs, rest, f)
  {
    hide ReadEntry, Lists, TopLevel, Depth;
    if ReadEntry(s, f) == Got(vs, rest) {
      var items := EntryListed(s, f);
    }
    if items: seq<Node> :| TopLevel(items) && Depth(items) <= 16 && Lists(s, items, vs, rest, f) {
      ListedRead(s, items, vs, rest, f);
    }
  }

  // ----- skipping to the end

  lemma {:induction false} SkipReads(s: Text, f: Stale)
    ensures SkipEntry(s, f) == match ReadEntry(s, f) case Fail => Stuck case Got(_, rest) => Past(rest)
    decreases |s|
  {
    hide NextAny;
    var r := NextAny(s, f);
    if r.Got? && r.v != Atom(End) { SkipReads(r.rest, f); }
  }

  lemma {:induction false} ListedLexes(s: Text, items: seq<Node>, vs: seq<Any>, rest: Text, f: Stale)
    requires Lists(s, items, vs, rest, f)
    ensures Lexes(s, Flatten(items) + [End], rest, f)
    decreases |items|
  {
    hide NextToken, Lexes;
    if items == [] {
      LexesOne(s, End, rest, f);
      assert Flatten(items) + [End] == [End];
    } else {
      var mid: Text :| Stands(s, items[0], vs[0], mid, f) && Lists(mid, items[1..], vs[1..], rest, f);
      hide Flatten, Stands, Lists;
      StandsLex(s, items[0], vs[0], mid, f);
      ListedLexes(mid, items[1..], vs[1..], rest, f);
      LexesAppend(s, FlattenNode(items[0]), mid, Flatten(items[1..]) + [End], rest, f);
      FrontNode(items, [End]);
    }
  }

  lemma StandsLex(s: Text, n: Node, v: Any, rest: Text, f: Stale)
    requires Stands(s, n, v, rest, f)
    ensures Lexes(s, FlattenNode(n), rest, f)
  {
  }

  lemma FrontNode(items: seq<Node>, ts: seq<Token>)
    requires items != []
    ensures FlattenNode(items[0]) + (Flatten(items[1..]) + ts) == Flatten(items) + ts
  {
    hide FlattenNode;
  }

  lemma {:induction false} LexesListed(s: Text, items: seq<Node>, rest: Text, f: Stale) returns (vs: seq<Any>)
    requires TopLevel(items) && Lexes(s, Flatten(items) + [End], rest, f)
    ensures Lists(s, items, vs, rest, f)
    decreases |items|
  {
    hide NextToken, Lexes;
    if items == [] {
      assert Flatten(items) + [End] == [End];
      LexesOne(s, End, rest, f);
      vs := [];
    } else {
      hide Flatten;
      FrontNode(items, [End]);
      var mid := LexesPrefix(s, FlattenNode(items[0]), Flatten(items[1..]) + [End], rest, f);
      var v := NodeStands(s, items[0], mid, f);
      var more := LexesListed(mid, items[1..], rest, f);
      vs := [v] + more;
      assert vs[1..] == more;
    }
  }

  lemma NodeStands(s: Text, n: Node, rest: Text, f: Stale) returns (v: Any)
    requires TopNode(n) && Lexes(s, FlattenNode(n), rest, f)
    ensures Stands(s, n, v, rest, f)
  {
    hide NextToken, Flatten, Lexes;
    match n
    case Leaf(t) =>
      v := Atom(t);
    case Nest(list, inner) =>
      var body, span := ContainerStands(s, list, inner, rest, f);
      v := Container(list, span);
  }

  /** `sipc_end` stops just behind the end of the entry exactly if what comes before is the tokens of such members. */
  lemma SkipExactly(s: Text, rest: Text, f: Stale)
    ensures SkipEntry(s, f) == Past(rest) <==>
            exists items: seq<Node> :: TopLevel(items) && Depth(items) <= 16 && Lexes(s, Flatten(items) + [End], rest, f)
  {
    hide ReadEntry, SkipEntry, Lists, TopLevel, Depth, Lexes, Flatten;
    SkipReads(s, f);
    if SkipEntry(s, f) == Past(rest) {
      var items := EntryListed(s, f);
      ListedLexes(s, items, ReadEntry(s, f).v, rest, f);
    }
    if items: seq<Node> :| TopLevel(items) && Depth(items) <= 16 && Lexes(s, Flatten(items) + [End], rest, f) {
      var vs := LexesListed(s, items, rest, f);
      ListedRead(s, items, vs, rest, f);
    }
  }

  /** A closing bracket that closes nothing does not stop it: ` ]` and a newline are skipped as an entry. */
  lemma StrayClose(f: Stale)
    ensures SkipEntry([SP, R_BRACKET, NL], f) == Past([])
    ensures ReadEntry([SP, R_BRACKET, NL], f) == Got([Atom(Close(true))], [])
  {
    hide SkipEntry, ReadEntry;
    var s := [SP, R_BRACKET, NL];
    assert s[2..] == [NL] && [NL][1..] == [];
    assert NextToken(s, f) == Got(Close(true), [NL]);
    assert NextToken([NL], f) == Got(End, []);
    var n := Leaf(Close(true));
    LexesOne(s, Close(true), [NL], f);
    assert Stands(s, n, Atom(Close(true)), [NL], f);
    var items, vs := [n], [Atom(Close(true))];
    assert items[1..] == [] && vs[1..] == [];
    assert Lists([NL], items[1..], vs[1..], [], f);
    assert Lists(s, items, vs, [], f);
    ListedRead(s, items, vs, [], f);
    SkipReads(s, f);
  }

  /** The values hold no closing bracket. */
  predicate NoClose(vs: seq<Any>) { forall i :: 0 <= i < |vs| ==> !(vs[i].Atom? && vs[i].t.Close?) }

  lemma {:induction false} ProperNoClose(s: Text, items: seq<Node>, vs: seq<Any>, rest: Text, f: Stale)
    requires TopLevel(items) && Lists(s, items, vs, rest, f)
    ensures Brackets.Proper(items) <==> NoClose(vs)
    decreases |items|
  {
    hide NextToken, Lexes;
    if items != [] {
      var mid: Text :| Stands(s, items[0], vs[0], mid, f) && Lists(mid, items[1..], vs[1..], rest, f);
      ProperNoClose(mid, items[1..], vs[1..], rest, f);
      if NoClose(vs[1..]) && !(vs[0].Atom? && vs[0].t.Close?) {
        forall i | 0 <= i < |vs| ensures !(vs[i].Atom? && vs[i].t.Close?) {
          if i > 0 { assert vs[1..][i - 1] == vs[i]; }
        }
      }
    }
  }

  lemma {:induction false} ProperIsTop(items: seq<Node>)
    requires Brackets.Proper(items)
    ensures TopLevel(items)
  {
    if items != [] { ProperIsTop(items[1..]); }
  }

  /** So an entry that is read is that of a properly nested forest exactly if no value read is a closing bracket. */
  lemma ProperEntry(s: Text, f: Stale)
    requires ReadEntry(s, f).Got?
    ensures NoClose(ReadEntry(s, f).v) <==>
            exists items: seq<Node> ::
              Brackets.Proper(items) && Depth(items) <= 16 && Lexes(s, Flatten(items) + [End], ReadEntry(s, f).rest, f)
  {
    hide ReadEntry, Lists, TopLevel, Depth, Lexes, Flatten, Brackets.Proper, NoClose;
    var rest := ReadEntry(s, f).rest;
    var tops := EntryListed(s, f);
    ProperNoClose(s, tops, ReadEntry(s, f).v, rest, f);
    ListedLexes(s, tops, ReadEntry(s, f).v, rest, f);
    if items: seq<Node> :| Brackets.Proper(items) && Depth(items) <= 16 && Lexes(s, Flatten(items) + [End], rest, f) {
      ProperIsTop(items);
      var vs := LexesListed(s, items, rest, f);
      ListedRead(s, items, vs, rest, f);
      ProperNoClose(s, items, vs, rest, f);
    }
  }

  // ----- printed entries

  /** What is printed by this piece is read up to its end, whatever the value read. */
  predicate IsWhole(x: Item)
    requires IsArgument(x)
  {
    if IsScalarArgument(x) then !(x.AnyItem? && x.v.t.NegativeInt?) else x.v.span == []
  }

  predicate AllWhole(xs: seq<Item>)
    requires AllArguments(xs)
  {
    forall i :: 0 <= i < |xs| ==> IsWhole(xs[i])
  }

  lemma WholeRead(x: Item, left: byte, rest: Text, f: Stale)
    requires IsArgument(x) && IsWhole(x) && Delimited(rest)
    ensures var r := NextAny([SP] + ItemText(x, left) + rest, f); r.Got? && r.rest == rest && r.v != Atom(End)
  {
    hide NextToken, NextAny, ItemText;
    var s := [SP] + ItemText(x, left) + rest;
    if IsScalarArgument(x) {
      ScalarReadsBack(x, left, rest, f);
      AtomRead(s, f);
    } else {
      SpanPrinted(x, left);
      ContainerReadsBack(x.v.list, x.v.span, rest, f);
    }
  }

  lemma SkipsOne(s: Text, f: Stale)
    requires NextAny(s, f).Got? && NextAny(s, f).v != Atom(End)
    ensures SkipEntry(s, f) == SkipEntry(NextAny(s, f).rest, f)
  {
    hide NextAny;
  }

  /** `sipc_end` skips any list of printed values, infinities included, if none is a negative integer, or a container that is
      not empty, printed as `%p`. */
  lemma {:induction false} SkipsPrinted(xs: seq<Item>, at: nat, before: Text, rest: Text, f: Stale)
    requires AllArguments(xs) && AllWhole(xs)
    ensures SkipEntry(ValuesText(xs, at, before) + [NL] + rest, f) == Past(rest)
    decreases |xs|
  {
    hide NextToken, Printed, SkipEntry, AllArguments, AllWhole, IsArgument, IsWhole, ValuesText, Delimited, Item.Bad;
    FirstWhole(xs);
    FirstPrinted(xs, at, before, rest);
    if xs == [] {
      NothingSkipped(rest, f);
    } else {
      var t := Printed(xs[0], at + 1, before);
      var tail := ValuesText(xs[1..], at + 1 + |t|, before) + [NL] + rest;
      FirstSkipped(xs[0], at + 1, before, tail, f);
      SkipsPrinted(xs[1..], at + 1 + |t|, before, rest, f);
    }
  }

  lemma NothingSkipped(rest: Text, f: Stale)
    ensures SkipEntry([NL] + rest, f) == Past(rest)
  {
    hide NextToken, NextAny, SkipEntry;
    EndToken(rest, f);
    AtomRead([NL] + rest, f);
    AtEnd([NL] + rest, f);
  }

  lemma FirstSkipped(x: Item, at: nat, before: Text, tail: Text, f: Stale)
    requires IsArgument(x) && IsWhole(x) && Delimited(tail)
    ensures SkipEntry([SP] + Printed(x, at, before) + tail, f) == SkipEntry(tail, f)
  {
    ArgumentGood(x);
    hide NextAny, ItemText, SkipEntry, IsArgument, IsWhole, Delimited;
    WholeRead(x, Was(before, at + |ItemText(x, 0)| - 1), tail, f);
    SkipsOne([SP] + Printed(x, at, before) + tail, f);
  }

  lemma FirstWhole(xs: seq<Item>)
    requires AllArguments(xs) && AllWhole(xs)
    ensures xs != [] ==> AllArguments(xs[1..]) && IsArgument(xs[0]) && AllWhole(xs[1..]) && IsWhole(xs[0])
  {
    hide IsWhole, IsArgument;
    if xs != [] { FirstArgument(xs); }
  }
}
