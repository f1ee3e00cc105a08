/** The Go parser object, whose field is the slice left to read. Every index is checked: one past the end is the crash that
    Go's run time makes of it. */
module GoParser {
  import opened Words
  import opened Hex
  import opened Numbers
  import opened Floats
  import opened Tokens
  import opened GoValues

  /** The returns of a Go method. */
  datatype Reply<T> = Done(v: T) | EndOfFile | Failed(e: Error) | Crashed(why: Cause)

  function ReplyOf<T>(o: Outcome<T>): Reply<T> {
    match o case Ok(v, _) => Done(v) case Eof(_) => EndOfFile case Err(e) => Failed(e) case Panic(w) => Crashed(w)
  }

  /** The same failure, of a method that returns something else. */
  function Again<T, U>(r: Reply<T>): Reply<U>
    requires !r.Done?
  {
    match r case EndOfFile => EndOfFile case Failed(e) => Failed(e) case Crashed(w) => Crashed(w)
  }

  class Parser {
    var b: Text
    /** The slice the parser was made for. */
    ghost const whole: Text

    /** What is left is the end of that slice. */
    ghost predicate Synced()
      reads this
    {
      |b| <= |whole| && b == whole[|whole| - |b|..]
    }

    /** The parser stands where the reading stopped. */
    ghost predicate Left<T>(o: Outcome<T>)
      reads this
    {
      (o.Ok? || o.Eof?) ==> Synced() && b == o.rest
    }

    constructor (buf: Text)
      ensures b == buf == whole && Synced()
    {
      b := buf;
      whole := buf;
    }

    method Skip(i: nat)
      requires i <= |b| && Synced()
      modifies this
      ensures b == old(b)[i..] && Synced()
    {
      b := b[i..];
    }

    method Read() returns (ch: byte)
      requires b != [] && Synced()
      modifies this
      ensures Synced() && ch == old(b)[0] && b == old(b)[1..] && old(b) == [ch] + b
    {
      ch := b[0];
      b := b[1..];
    }

    method ReadHex(start: byte) returns (r: Reply<(uint64, nat)>)
      requires Synced()
      modifies this
      ensures r == ReplyOf(HexField([start] + old(b))) && Left(HexField([start] + old(b)))
    {
      hide Synced, HexRun, ShiftLeft, TableValid, TableValue;
      ghost var s := [start] + b;
      assert s[1..] == b;
      TablesMatch(start);
      if !TableValid(start) {
        return Failed(Invalid);
      }
      if start == ZERO {
        return Done((0, 0));
      }
      ZeroDigit(start);
      var v: uint64 := TableValue(start) as int;
      while b != [] && IsDigit(b[0])
        invariant Synced() && v > 0
        invariant HexLoop(v, b) == ScanHex(s)
        decreases |b|
      {
        var n := ShiftLeft(v, 4);
        ShiftFour(v);
        if n < v {
          var overflow := SkipDigits();
          return if b == [] then Crashed(OutOfRange) else Done((v, overflow));
        }
        TablesMatch(b[0]);
        var ch := Read();
        v := n + TableValue(ch) as int;
      }
      return if b == [] then Crashed(OutOfRange) else Done((v, 0));
    }

    /** The digits that no longer fit are dropped, their bits counted. */
    method SkipDigits() returns (overflow: nat)
      requires Synced()
      modifies this
      ensures overflow == 4 * HexRun(old(b)) && b == old(b)[HexRun(old(b))..] && Synced()
    {
      hide Synced;
      overflow := 0;
      ghost var s, k := b, 0;
      while b != [] && IsDigit(b[0])
        invariant Synced()
        invariant k <= |s| && b == s[k..] && overflow == 4 * k && HexRun(s) == k + HexRun(b)
        decreases |b|
      {
        var _ := Read();
        overflow := overflow + 4;
        k := k + 1;
      }
    }

    method ReadExponent(overflow: nat) returns (r: Reply<int>)
      requires Synced() && b != [] && b[0] == CH_P
      modifies this
      ensures r == ReplyOf(GoExponent(old(b)[1..], overflow)) && Left(GoExponent(old(b)[1..], overflow))
    {
      hide Synced, ScanHex, HexField;
      Skip(1);
      ghost var s := b;
      if b == [] {
        return Crashed(OutOfRange);
      }
      var ch := Read();
      var negate := ch == MINUS;
      if negate {
        if b == [] {
          return Crashed(OutOfRange);
        }
        ch := Read();
      }
      assert [ch] + b == if negate then s[1..] else s;
      var f := ReadHex(ch);
      if !f.Done? {
        return Again(f);
      }
      var u := (f.v.0 + overflow) % TWO64;
      if f.v.1 > 0 || u > INT_MAX {
        return Done(if negate then INT_MAX else INT_MIN);
      }
      return Done(if negate then -u else u);
    }

    method ReadNegative() returns (r: Reply<Value>)
      requires Synced()
      modifies this
      ensures r == ReplyOf(GoNegative(old(b))) && Left(GoNegative(old(b)))
    {
      hide Synced, ScanHex, GoExponent, BuildFloat64, LeadingZeros, ShiftLeft;
      var inf := Follows(INF_TEXT);
      if inf.OffEnd? {
        return Crashed(OutOfRange);
      } else if inf.Yes? {
        Skip(3);
        return Done(VFloat(NEGATIVE_INFINITY));
      }
      MatchesNothing(b, INF_TEXT);
      var ch := Read();
      var f := ReadHex(ch);
      if !f.Done? {
        return Again(f);
      }
      var (sig, overflow) := f.v;
      if b == [] {
        return Crashed(OutOfRange);
      }
      if b[0] == CH_P {
        if sig % 2 == 0 {
          return Failed(Invalid);
        }
        var e := ReadExponent(overflow);
        if !e.Done? {
          return Again(e);
        }
        var exp := e.v;
        if exp < 0 || exp >= LeadingZeros(sig) {
          return Done(VFloat(BuildFloat64(true, sig, exp)));
        }
        return Done(VInt(ToInt64(-(ShiftLeft(sig, exp) as int))));
      }
      if sig % 256 == 0 {
        return Failed(Invalid);
      }
      return Done(VInt(ToInt64(-(sig as int))));
    }

    /** The comparison of the next bytes, one by one, with a name. */
    method Follows(name: Text) returns (m: Match)
      ensures m == Matches(b, name)
    {
      var i := 0;
      while i < |name|
        invariant i <= |name| && i <= |b| && Matches(b, name) == Matches(b[i..], name[i..])
      {
        if i == |b| {
          return OffEnd;
        } else if b[i] != name[i] {
          return No;
        }
        i := i + 1;
      }
      return Yes;
    }

    method ReadUnsigned(ch: byte) returns (r: Reply<Value>)
      requires Synced()
      modifies this
      ensures r == ReplyOf(GoUnsigned([ch] + old(b))) && Left(GoUnsigned([ch] + old(b)))
    {
      hide Synced, ScanHex, GoExponent, BuildFloat64, LeadingZeros, ShiftLeft;
      var f := ReadHex(ch);
      if !f.Done? {
        return Again(f);
      }
      var (sig, overflow) := f.v;
      if b == [] {
        return Crashed(OutOfRange);
      }
      if b[0] == CH_P {
        if sig % 2 == 0 {
          return Failed(Invalid);
        }
        var e := ReadExponent(overflow);
        if !e.Done? {
          return Again(e);
        }
        var exp := e.v;
        if exp < 0 || exp > LeadingZeros(sig) {
          return Done(VFloat(BuildFloat64(false, sig, exp)));
        }
        return Done(VUint(ShiftLeft(sig, exp)));
      } else if b[0] == BAR {
        var bytes := ReadBytes(overflow, sig);
        return if bytes.Done? then Done(VBytes(bytes.v)) else Failed(InsufficientData);
      } else if b[0] == COLON {
        var bytes := ReadBytes(overflow, sig);
        return if bytes.Done? then Done(VString(bytes.v)) else Failed(InsufficientData);
      }
      if sig != 0 && sig % 256 == 0 {
        return Failed(Invalid);
      }
      return Done(VUint(sig));
    }

    method ReadBytes(overflow: nat, sz: uint64) returns (r: Reply<Text>)
      requires Synced() && b != []
      modifies this
      ensures r.Done? || r == Failed(InsufficientData)
      ensures r.Done? <==> overflow == 0 && sz < |old(b)| - 1
      ensures r.Done? ==> Synced() && b != [] && r.v == old(b)[1..][..sz] && b == old(b)[1..][sz..]
    {
      Skip(1);
      if overflow > 0 || sz >= |b| {
        return Failed(InsufficientData);
      }
      var ret := b[..sz];
      Skip(sz);
      return Done(ret);
    }

    method ReadNext(depth: nat) returns (r: Reply<Value>)
      requires Synced()
      modifies this
      ensures r == ReplyOf(ReadValue(old(b), depth)) && Left(ReadValue(old(b), depth))
      decreases |b|, 0
    {
      hide Synced, GoNegative, GoUnsigned, ReadItems, ReadEntries, Special;
      if depth > MAX_DEPTH {
        return Failed(TooDeep);
      }
      ghost var s := b;
      if b == [] {
        return Crashed(OutOfRange);
      }
      var first := Read();
      if first == NL {
        return EndOfFile;
      } else if first != SP {
        return Failed(Invalid);
      }
      if b == [] {
        return Crashed(OutOfRange);
      }
      var ch := Read();
      assert b == s[2..] && s[1..] == [ch] + b;
      if ch == CH_T || ch == CH_F {
        return Done(VBool(ch == CH_T));
      } else if ch == L_BRACE {
        r := ReadMap(depth);
      } else if ch == L_BRACKET {
        r := ReadArray(depth);
      } else if ch == CH_N {
        r := ReadSpecial(NAN_TEXT[1..], GO_NAN);
      } else if ch == CH_I {
        r := ReadSpecial(INF_TEXT[1..], POSITIVE_INFINITY);
      } else if ch == MINUS {
        r := ReadNegative();
      } else {
        r := ReadUnsigned(ch);
      }
    }

    method ReadSpecial(name: Text, u: uint64) returns (r: Reply<Value>)
      requires Synced()
      modifies this
      ensures r == ReplyOf(Special(old(b), name, u)) && Left(Special(old(b), name, u))
    {
      var m := Follows(name);
      if m.OffEnd? {
        return Crashed(OutOfRange);
      } else if m.No? {
        return Failed(Invalid);
      }
      Skip(|name|);
      return Done(VFloat(u));
    }

    /** The slice branch of `readNext`, after the opening bracket. */
    method ReadArray(depth: nat) returns (r: Reply<Value>)
      requires Synced()
      modifies this
      ensures r == ReplyOf(ReadItems(old(b), depth, [])) && Left(ReadItems(old(b), depth, []))
      decreases |b|, 1
    {
      hide Synced, ReadValue, Matches;
      var ret := [];
      var close := Follows([SP, R_BRACKET]);
      while close.No?
        invariant Synced() && |b| <= |old(b)|
        invariant ReadItems(b, depth, ret) == ReadItems(old(b), depth, [])
        invariant close == Matches(b, [SP, R_BRACKET])
        decreases |b|
      {
        var v := ReadNext(depth + 1);
        if !v.Done? {
          return v;
        }
        ret := ret + [v.v];
        close := Follows([SP, R_BRACKET]);
      }
      if close.OffEnd? {
        return Crashed(OutOfRange);
      }
      Skip(2);
      return Done(VArray(ret));
    }

    /** The map branch of `readNext`, after the opening brace. */
    method ReadMap(depth: nat) returns (r: Reply<Value>)
      requires Synced()
      modifies this
      ensures r == ReplyOf(ReadEntries(old(b), depth, [])) && Left(ReadEntries(old(b), depth, []))
      decreases |b|, 1
    {
      hide Synced, ReadValue, Matches;
      var ret := [];
      var close := Follows([SP, R_BRACE]);
      while close.No?
        invariant Synced() && |b| <= |old(b)|
        invariant ReadEntries(b, depth, ret) == ReadEntries(old(b), depth, [])
        invariant close == Matches(b, [SP, R_BRACE])
        decreases |b|
      {
        var k := ReadNext(depth + 1);
        if !k.Done? {
          return k;
        }
        var v := ReadNext(depth + 1);
        if !v.Done? {
          return v;
        }
        if !Hashable(k.v) {
          return Crashed(Unhashable);
        }
        var known := KeyKnown(ret, k.v);
        if known {
          return Failed(DuplicateKey);
        }
        ret := ret + [Entry(k.v, v.v)];
        close := Follows([SP, R_BRACE]);
      }
      if close.OffEnd? {
        return Crashed(OutOfRange);
      }
      Skip(2);
      return Done(VMap(ret));
    }

    /** The type byte of the next entry, or -1 at the end of the message. */
    method NextEntry() returns (typ: int)
      ensures typ == if b == [] then -1 else b[0] as int
    {
      return if b == [] then -1 else b[0] as int;
    }

    method ParseEntry() returns (r: Reply<seq<Value>>)
      requires Synced()
      modifies this
      ensures r == ReplyOf(EntryVals(old(b))) && Left(EntryVals(old(b)))
    {
      hide Synced, ReadValue;
      if b == [] {
        return Crashed(OutOfRange);
      }
      Skip(1);
      var ret := [];
      while true
        invariant Synced() && ReadVals(b, ret) == EntryVals(old(b))
        decreases |b|
      {
        var v := ReadNext(1);
        if v.EndOfFile? {
          return Done(ret);
        } else if !v.Done? {
          return Again(v);
        }
        ret := ret + [v.v];
      }
    }
  }

  /** `NewParser` */
  method NewParser(buf: Text) returns (p: Parser?)
    ensures p == null <==> buf != [] && buf[|buf| - 1] != SP && buf[|buf| - 1] != NL
    ensures p != null ==> fresh(p) && p.b == buf == p.whole && p.Synced()
  {
    if |buf| > 0 && buf[|buf| - 1] != SP && buf[|buf| - 1] != NL {
      return null;
    }
    p := new Parser(buf);
  }

  /** Messages in front of those still to be read. */
  function Before(ms: seq<Message>, o: Outcome<seq<Message>>): Outcome<seq<Message>> {
    match o case Ok(ns, rest) => Ok(ms + ns, rest) case _ => o
  }

  /** The server's loop over the parser object: entries up to the end of the message. */
  method TakeMessage(p: Parser) returns (r: Reply<seq<Message>>)
    requires p.Synced()
    modifies p
    ensures r == ReplyOf(ReadMessages(old(p.b)))
  {
    hide EntryVals;
    var ms := [];
    ghost var all := ReadMessages(p.b);
    NoneBefore(all);
    var typ := p.NextEntry();
    while typ != -1
      invariant p.Synced() && typ == if p.b == [] then -1 else p.b[0] as int
      invariant all == Before(ms, ReadMessages(p.b))
      decreases |p.b|
    {
      ghost var was := ms;
      var vals := p.ParseEntry();
      if !vals.Done? {
        return Again(vals);
      }
      ms := ms + [Message(typ as byte, vals.v)];
      OneMoreBefore(was, Message(typ as byte, vals.v), ReadMessages(p.b));
      typ := p.NextEntry();
    }
    assert ms + [] == ms;
    return Done(ms);
  }

  lemma NoneBefore(o: Outcome<seq<Message>>)
    ensures Before([], o) == o
  {
    if o.Ok? { assert [] + o.v == o.v; }
  }

  lemma OneMoreBefore(ms: seq<Message>, m: Message, o: Outcome<seq<Message>>)
    ensures Before(ms + [m], o) == Before(ms, Before([m], o))
  {
    if o.Ok? { assert (ms + [m]) + o.v == ms + ([m] + o.v); }
  }

  /** The table lookup on one byte. */
  predicate IsDigit(c: byte)
    ensures IsDigit(c) <==> IsHexDigit(c as int)
  {
    TablesMatch(c);
    TableValid(c)
  }

  /** Looking a key up in the map read so far. */
  method KeyKnown(entries: seq<Entry>, key: Value) returns (known: bool)
    ensures known <==> HasKey(entries, key)
  {
    known := false;
    for i := 0 to |entries|
      invariant known <==> HasKey(entries[..i], key)
    {
      assert entries[..i + 1] == entries[..i] + [entries[i]];
      if GoEqual(entries[i].key, key) { known := true; }
    }
    assert entries[..|entries|] == entries;
  }

  lemma MatchesNothing(s: Text, t: Text)
    requires t != [] && !Matches(s, t).OffEnd?
    ensures s != []
  {
  }
}
