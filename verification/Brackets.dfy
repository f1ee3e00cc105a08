/** `sipc_any` against a grammar: the containers it accepts are exactly the token streams of trees of bounded depth. */
module Brackets {
  import opened Words
  import opened Hex
  import opened RealTexts
  import opened Tokens

  /** A value as a tree of tokens. */
  datatype Node = Leaf(t: Token) | Nest(list: bool, items: seq<Node>)

  predicate IsAtom(t: Token) { !t.Open? && !t.Close? && !t.End? }

  predicate Proper(items: seq<Node>) {
    items == [] || (Proper(items[1..]) &&
                    match items[0] case Leaf(t) => IsAtom(t) case Nest(_, inner) => Proper(inner))
  }

  function Flatten(items: seq<Node>): seq<Token> {
    if items == [] then [] else FlattenNode(items[0]) + Flatten(items[1..])
  }

  function FlattenNode(n: Node): seq<Token> {
    match n
    case Leaf(t) => [t]
    case Nest(list, inner) => [Open(list)] + Flatten(inner) + [Close(list)]
  }

  /** How many containers are open at once inside the items. */
  function Depth(items: seq<Node>): nat {
    if items == [] then 0 else Max(NodeDepth(items[0]), Depth(items[1..]))
  }

  function NodeDepth(n: Node): nat { match n case Leaf(_) => 0 case Nest(_, inner) => 1 + Depth(inner) }

  /** Reading tokens from `s` one after the other gives `ts` and leaves `rest`. */
  predicate Lexes(s: Text, ts: seq<Token>, rest: Text, f: Stale)
    decreases |ts|
  {
    if ts == [] then s == rest
    else var r := NextToken(s, f); r.Got? && r.v == ts[0] && Lexes(r.rest, ts[1..], rest, f)
  }

  lemma {:induction false} LexesAppend(s: Text, a: seq<Token>, mid: Text, b: seq<Token>, rest: Text, f: Stale)
    requires Lexes(s, a, mid, f)
    ensures Lexes(s, a + b, rest, f) <==> Lexes(mid, b, rest, f)
    decreases |a|
  {
    hide NextToken;
    if a == [] {
      assert a + b == b;
    } else {
      assert (a + b)[1..] == a[1..] + b;
      LexesAppend(NextToken(s, f).rest, a[1..], mid, b, rest, f);
    }
  }

  /** Reading a prefix of the tokens stops somewhere. */
  lemma {:induction false} LexesPrefix(s: Text, a: seq<Token>, b: seq<Token>, rest: Text, f: Stale) returns (mid: Text)
    requires Lexes(s, a + b, rest, f)
    ensures Lexes(s, a, mid, f) && Lexes(mid, b, rest, f)
    decreases |a|
  {
    hide NextToken;
    if a == [] {
      assert a + b == b;
      mid := s;
    } else {
      assert (a + b)[1..] == a[1..] + b;
      mid := LexesPrefix(NextToken(s, f).rest, a[1..], b, rest, f);
    }
  }

  lemma LexesOne(s: Text, t: Token, rest: Text, f: Stale)
    ensures Lexes(s, [t], rest, f) <==> NextToken(s, f) == Got(t, rest)
  {
    hide NextToken;
    assert [t][1..] == [];
  }

  /** Over the tokens of a forest the closer goes through, or sticks if the containers nest too deeply. */
  lemma {:induction false} PassesForest(s: Text, items: seq<Node>, mid: Text, stack: seq<bool>, f: Stale)
    requires Proper(items) && Lexes(s, Flatten(items), mid, f) && 1 <= |stack| <= 16
    ensures CloseAll(s, stack, f) == if |stack| + Depth(items) <= 16 then CloseAll(mid, stack, f) else Stuck
    decreases items, 0
  {
    hide NextToken;
    if items != [] {
      var n, tail := items[0], items[1..];
      match n
      case Leaf(t) =>
        var rest := LexesPrefix(s, [t], Flatten(tail), mid, f);
        LexesOne(s, t, rest, f);
        PassesForest(rest, tail, mid, stack, f);
      case Nest(list, inner) =>
        var rest := LexesPrefix(s, FlattenNode(n), Flatten(tail), mid, f);
        PassesNest(s, list, inner, rest, stack, f);
        PassesForest(rest, tail, mid, stack, f);
    }
  }

  lemma {:induction false} PassesNest(s: Text, list: bool, inner: seq<Node>, rest: Text, stack: seq<bool>, f: Stale)
    requires Proper(inner) && Lexes(s, FlattenNode(Nest(list, inner)), rest, f) && 1 <= |stack| <= 16
    ensures CloseAll(s, stack, f) == if |stack| + 1 + Depth(inner) <= 16 then CloseAll(rest, stack, f) else Stuck
    decreases inner, 1
  {
    hide NextToken;
    var open, close := [Open(list)], [Close(list)];
    var body := Flatten(inner);
    assert FlattenNode(Nest(list, inner)) == open + (body + close);
    var a := LexesPrefix(s, open, body + close, rest, f);
    var b := LexesPrefix(a, body, close, rest, f);
    LexesOne(s, Open(list), a, f);
    LexesOne(b, Close(list), rest, f);
    if |stack| < 16 {
      PassesForest(a, inner, b, stack + [list], f);
      assert (stack + [list])[..|stack|] == stack;
    }
  }

  lemma FlattenNest(list: bool, inner: seq<Node>, tail: seq<Node>, close: seq<Token>)
    ensures Flatten([Nest(list, inner)] + tail) + close ==
            ([Open(list)] + (Flatten(inner) + [Close(list)])) + (Flatten(tail) + close)
  {
    var items := [Nest(list, inner)] + tail;
    assert items[0] == Nest(list, inner) && items[1..] == tail;
    assert FlattenNode(Nest(list, inner)) == [Open(list)] + (Flatten(inner) + [Close(list)]);
  }

  lemma OpenForest(s: Text, list: bool, a: Text, inner: seq<Node>, mid: Text, tail: seq<Node>, close: seq<Token>, rest: Text, f: Stale)
    requires NextToken(s, f) == Got(Open(list), a)
    requires Lexes(a, Flatten(inner) + [Close(list)], mid, f) && Lexes(mid, Flatten(tail) + close, rest, f)
    ensures Lexes(s, Flatten([Nest(list, inner)] + tail) + close, rest, f)
  {
    hide NextToken, Lexes, Flatten;
    var body := Flatten(inner) + [Close(list)];
    LexesOne(s, Open(list), a, f);
    LexesAppend(s, [Open(list)], a, body, mid, f);
    LexesAppend(s, [Open(list)] + body, mid, Flatten(tail) + close, rest, f);
    FlattenNest(list, inner, tail, close);
  }

  lemma LeafForest(s: Text, t: Token, a: Text, tail: seq<Node>, close: seq<Token>, rest: Text, f: Stale)
    requires NextToken(s, f) == Got(t, a) && Lexes(a, Flatten(tail) + close, rest, f)
    ensures Lexes(s, Flatten([Leaf(t)] + tail) + close, rest, f)
  {
    hide NextToken;
    var items := [Leaf(t)] + tail;
    assert items[0] == Leaf(t) && items[1..] == tail;
    assert Flatten(items) + close == [t] + (Flatten(tail) + close);
  }

  /** Whatever the closer goes through is the tokens of a forest and a matching close, of bounded depth. */
  lemma {:induction false} ClosedIsForest(s: Text, stack: seq<bool>, f: Stale) returns (items: seq<Node>, rest: Text)
    requires CloseAll(s, stack, f).Past? && 1 <= |stack| <= 16
    ensures Proper(items) && |stack| + Depth(items) <= 16 && |rest| < |s|
    ensures Lexes(s, Flatten(items) + [Close(stack[|stack| - 1])], rest, f)
    ensures CloseAll(s, stack, f) == CloseAll(rest, stack[..|stack| - 1], f)
    decreases |s|
  {
    var r := NextToken(s, f);
    hide NextToken, Lexes, Flatten;
    var close := [Close(stack[|stack| - 1])];
    if r.v.Close? {
      items, rest := [], r.rest;
      OneClose(s, r.v.list, rest, f);
    } else if r.v.Open? {
      var inner, mid := ClosedIsForest(r.rest, stack + [r.v.list], f);
      assert (stack + [r.v.list])[..|stack|] == stack;
      var tail;
      tail, rest := ClosedIsForest(mid, stack, f);
      items := [Nest(r.v.list, inner)] + tail;
      assert items[1..] == tail;
      OpenForest(s, r.v.list, r.rest, inner, mid, tail, close, rest, f);
    } else {
      var tail;
      tail, rest := ClosedIsForest(r.rest, stack, f);
      items := [Leaf(r.v)] + tail;
      assert items[1..] == tail;
      LeafForest(s, r.v, r.rest, tail, close, rest, f);
    }
  }

  lemma OneClose(s: Text, list: bool, rest: Text, f: Stale)
    requires NextToken(s, f) == Got(Close(list), rest)
    ensures Lexes(s, Flatten([]) + [Close(list)], rest, f)
  {
    hide NextToken;
    assert Flatten([]) + [Close(list)] == [Close(list)];
  }

  function CloseText(list: bool): Text { [SP, if list then R_BRACKET else R_BRACE] }

  lemma {:induction false} LexesTail(s: Text, ts: seq<Token>, rest: Text, f: Stale)
    requires Lexes(s, ts, rest, f)
    ensures Tail(rest, s)
    decreases |ts|
  {
    hide NextToken;
    if ts != [] {
      var r := NextToken(s, f).rest;
      TokenTail(s, f);
      LexesTail(r, ts[1..], rest, f);
      TailTrans(rest, r, s);
    }
  }

  lemma CloseIsTwoBytes(s: Text, list: bool, rest: Text, f: Stale)
    requires NextToken(s, f) == Got(Close(list), rest)
    ensures s == CloseText(list) + rest
  {
    hide UnsignedToken, SignedToken;
    if NextToken(s, f) == UnsignedToken(s[1..], f(|s|)) { UnsignedKinds(s[1..], f(|s|)); }
    if NextToken(s, f) == SignedToken(s, f(|s|)) { SignedKinds(s, f(|s|)); }
    assert s == s[..2] + s[2..];
    assert s[..2] == [s[0], s[1]];
  }

  lemma SignedKinds(s: Text, stale: uint64)
    requires SignedToken(s, stale).Got?
    ensures !SignedToken(s, stale).v.Close?
  {
    hide ReadReal;
  }

  /** The tokens of a forest and a close lie in front of what they leave, the close's two bytes last. */
  lemma SpanOf(s: Text, ts: seq<Token>, list: bool, rest: Text, f: Stale)
    requires Lexes(s, ts + [Close(list)], rest, f)
    ensures |rest| + 2 <= |s| && s == s[..|s| - |rest| - 2] + CloseText(list) + rest
  {
    hide NextToken, Lexes, Tail, CloseText;
    var mid := LexesPrefix(s, ts, [Close(list)], rest, f);
    LexesTail(s, ts, mid, f);
    LexesOne(mid, Close(list), rest, f);
    CloseIsTwoBytes(mid, list, rest, f);
    assert |CloseText(list)| == 2 by { TwoBytes(list); }
    SplitTail(s, mid, CloseText(list), rest);
  }

  lemma TwoBytes(list: bool) ensures |CloseText(list)| == 2 {
  }

  lemma SplitTail(s: Text, mid: Text, c: Text, rest: Text)
    requires Tail(mid, s) && mid == c + rest
    ensures |rest| + |c| <= |s| && s == s[..|s| - |rest| - |c|] + c + rest
  {
    var a := s[..|s| - |mid|];
    assert s == a + mid;
    Assoc(a, c, rest);
  }

  /** The tokens after an opening bracket are those of `items` and the matching close, leaving `rest`. */
  predicate Encloses(s: Text, list: bool, items: seq<Node>, rest: Text, f: Stale) {
    Proper(items) && Lexes(s, Flatten(items) + [Close(list)], rest, f)
  }

  lemma EnclosedClose(body: Text, list: bool, items: seq<Node>, rest: Text, f: Stale)
    requires Encloses(body, list, items, rest, f)
    ensures CloseAll(body, [list], f) == if 1 + Depth(items) <= 16 then Past(rest) else Stuck
  {
    hide NextToken;
    var mid := LexesPrefix(body, Flatten(items), [Close(list)], rest, f);
    PassesForest(body, items, mid, [list], f);
    LexesOne(mid, Close(list), rest, f);
    assert [list][..0] == [];
  }

  /** `sipc_any` accepts a container exactly when what follows is the tokens of a forest and the matching close, with at
      most sixteen containers open at once; it then stops just after that close, and its span is everything in between. */
  lemma AnyIsTree(s: Text, f: Stale, list: bool, body: Text)
    requires NextToken(s, f) == Got(Open(list), body)
    ensures NextAny(s, f).Got? <==>
            exists items: seq<Node>, rest: Text :: Encloses(body, list, items, rest, f) && 1 + Depth(items) <= 16
    ensures forall items: seq<Node>, rest: Text :: Encloses(body, list, items, rest, f) && 1 + Depth(items) <= 16 ==>
              NextAny(s, f).Got? && NextAny(s, f).rest == rest && NextAny(s, f).v.Container? && NextAny(s, f).v.list == list
              && body == NextAny(s, f).v.span + CloseText(list) + rest
  {
    hide NextToken, Lexes, Flatten, Proper;
    forall items: seq<Node>, rest: Text | Encloses(body, list, items, rest, f) && 1 + Depth(items) <= 16
      ensures CloseAll(body, [list], f) == Past(rest)
      ensures |rest| + 2 <= |body| && body == body[..|body| - |rest| - 2] + CloseText(list) + rest
    {
      EnclosedClose(body, list, items, rest, f);
      SpanOf(body, Flatten(items), list, rest, f);
    }
    if CloseAll(body, [list], f).Past? {
      var items, rest := ClosedIsForest(body, [list], f);
      assert Encloses(body, list, items, rest, f);
    }
  }
}
