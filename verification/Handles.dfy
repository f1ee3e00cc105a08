/** Handles sent in front of a message over a Windows pipe: `WriteFiles` and `ReadFiles`, the system calls abstracted. */
module Handles {
  import opened Words
  import opened Hex
  import opened Numbers
  import opened Readers
  import opened Messages
  import opened GoFormat
  import opened GoValues
  import opened GoNumbers
  import GoLimits
  import GoParser
  import GoSafety
  import GoTrees

  const CH_W: byte := 0x57

  datatype Duplicate = Failed | Duplicated(h: uint64)

  /** The handles whose duplication succeeded, in order. */
  function Sent(files: seq<Duplicate>): seq<uint64> {
    if files == [] then []
    else Sent(files[..|files| - 1]) + match files[|files| - 1] case Failed => [] case Duplicated(h) => [h]
  }

  function HandleText(h: uint64): Text { [CH_W] + GoUintText(false, h) + [NL] }

  function HandlesText(hs: seq<uint64>): Text {
    if hs == [] then [] else HandlesText(hs[..|hs| - 1]) + HandleText(hs[|hs| - 1])
  }

  /** What the system's write answered. */
  datatype Written = Written(n: nat, failed: bool)

  /** What is handed to the pipe for a payload, given whether the other process could be opened and the outcomes of
      duplicating the files, and what the caller is told, given the answer of the write. A file that could not be
      duplicated is counted as sent. */
  method WriteFiles(b: Text, files: seq<Duplicate>, reached: bool, w: Written) returns (out: Text, n: nat, fn: nat, ok: bool)
    ensures out == if files != [] && !reached then [] else HandlesText(Sent(files)) + b
    ensures ok <==> !w.failed && (files == [] || reached)
    ensures fn == if ok then |files| else 0
    ensures n == if files == [] then w.n else if ok then |b| else 0
  {
    if files == [] {
      assert HandlesText([]) + b == b;
      return b, w.n, 0, !w.failed;
    }
    if !reached {
      return [], 0, 0, false;
    }
    out := HandleEntries(files);
    out := out + b;
    if w.failed {
      return out, 0, 0, false;
    }
    return out, |b|, |files|, true;
  }

  /** The entries for the files that could be duplicated. */
  method HandleEntries(files: seq<Duplicate>) returns (out: Text)
    ensures out == HandlesText(Sent(files))
  {
    out := [];
    for i := 0 to |files|
      invariant out == HandlesText(Sent(files[..i]))
    {
      hide GoUintText;
      assert files[..i + 1][..i] == files[..i];
      var hs := Sent(files[..i]);
      match files[i] {
        case Failed =>
          assert hs + [] == hs;
        case Duplicated(h) =>
          assert (hs + [h])[..|hs|] == hs;
          Assoc(out, [CH_W] + GoUintText(false, h), [NL]);
          Assoc(out, [CH_W], GoUintText(false, h));
          out := out + [CH_W];
          out := out + GoUintText(false, h);
          out := out + [NL];
      }
    }
    assert files[..|files|] == files;
  }

  /** The handle entries at the front of a buffer, and what follows them. */
  function ReadHandles(s: Text): (r: Outcome<seq<uint64>>)
    ensures r.Ok? ==> |r.rest| <= |s|
    ensures !r.Eof?
    decreases |s|
  {
    if s == [] || s[0] != CH_W then Ok([], s)
    else match EntryVals(s)
      case Err(e) => Err(e)
      case Panic(w) => Panic(w)
      case Ok(vals, rest) =>
        if vals == [] then ReadHandles(rest)
        else if !vals[0].VUint? then Err(Invalid)
        else match ReadHandles(rest)
          case Err(e) => Err(e)
          case Panic(w) => Panic(w)
          case Ok(hs, r) => Ok([vals[0].n] + hs, r)
  }

  /** What remains to be read continues what has been read. */
  predicate Continues(whole: Outcome<seq<uint64>>, done: seq<uint64>, left: Outcome<seq<uint64>>) {
    if left.Ok? then whole == Ok(done + left.v, left.rest) else !whole.Ok?
  }

  lemma StartsOver(o: Outcome<seq<uint64>>, none: seq<uint64>)
    requires none == []
    ensures Continues(o, none, o)
  {
    if o.Ok? { assert none + o.v == o.v; }
  }

  lemma LastHandle(s: Text)
    requires s == [] || s[0] != CH_W
    ensures ReadHandles(s) == Ok([], s)
  {
  }

  /** One handle entry read: what the whole buffer holds is still what was read, and then the rest. */
  lemma NextHandle(s: Text, whole: Outcome<seq<uint64>>, done: seq<uint64>)
    requires s != [] && s[0] == CH_W && Continues(whole, done, ReadHandles(s)) && EntryVals(s).Ok?
    ensures var o := EntryVals(s);
            if o.v == [] then Continues(whole, done, ReadHandles(o.rest))
            else if !o.v[0].VUint? then !whole.Ok?
            else Continues(whole, done + [o.v[0].n], ReadHandles(o.rest))
  {
    hide EntryVals;
    var o := EntryVals(s);
    if o.v != [] && o.v[0].VUint? && ReadHandles(o.rest).Ok? {
      assert done + ([o.v[0].n] + ReadHandles(o.rest).v) == (done + [o.v[0].n]) + ReadHandles(o.rest).v;
    }
  }

  lemma FailedEntry(s: Text, whole: Outcome<seq<uint64>>, done: seq<uint64>)
    requires s != [] && s[0] == CH_W && Continues(whole, done, ReadHandles(s)) && !EntryVals(s).Ok?
    ensures !whole.Ok?
  {
    hide EntryVals;
  }

  lemma AtLeast(whole: Outcome<seq<uint64>>, done: seq<uint64>, left: Outcome<seq<uint64>>)
    requires Continues(whole, done, left)
    ensures whole.Ok? ==> |whole.v| >= |done|
    ensures left.Ok? && left.v == [] ==> whole == Ok(done, left.rest)
  {
    if left.Ok? && left.v == [] { assert done + left.v == done; }
  }

  /** The loop of `ReadFiles`. A handle more than `files` holds is an index out of range. */
  method TakeHandles(p: GoParser.Parser, files: array<uint64>) returns (fn: nat, r: GoParser.Reply<()>)
    requires p.Synced()
    modifies p, files
    ensures fn <= files.Length
    ensures r.Done? <==> ReadHandles(old(p.b)).Ok? && |ReadHandles(old(p.b)).v| <= files.Length
    ensures r.Done? ==> p.Synced() && HasHandles(old(p.b), files[..fn], p.b)
  {
    hide EntryVals, ReadHandles, Continues;
    fn, r := 0, GoParser.Done(());
    ghost var s := p.b;
    ghost var whole := ReadHandles(s);
    var typ := p.NextEntry();
    StartsOver(whole, files[..0]);
    while typ == CH_W as int
      invariant p.Synced()
      invariant typ == if p.b == [] then -1 else p.b[0] as int
      invariant fn <= files.Length && Continues(whole, files[..fn], ReadHandles(p.b))
      decreases |p.b|
    {
      ghost var before, done := p.b, files[..fn];
      var vals := p.ParseEntry();
      if !vals.Done? {
        FailedEntry(before, whole, done);
        return fn, GoParser.Again(vals);
      }
      NextHandle(before, whole, done);
      if vals.v != [] {
        if !vals.v[0].VUint? {
          return fn, GoParser.Failed(Invalid);
        }
        AtLeast(whole, done + [vals.v[0].n], ReadHandles(p.b));
        if fn == files.Length {
          return fn, GoParser.Crashed(OutOfRange);
        }
        files[fn] := vals.v[0].n;
        fn := fn + 1;
        assert files[..fn] == done + [vals.v[0].n];
      }
      typ := p.NextEntry();
    }
    LastHandle(p.b);
    AtLeast(whole, files[..fn], ReadHandles(p.b));
  }

  /** `copy(b, b[received-m:received])`: the regions may overlap. */
  method MoveToFront(b: array<byte>, received: nat, m: nat)
    requires m <= received <= b.Length
    modifies b
    ensures b[..m] == old(b[received - m..received]) && b[m..] == old(b[m..])
  {
    forall i | 0 <= i < m { b[i] := b[received - m + i]; }
  }

  predicate HasHandles(s: Text, hs: seq<uint64>, rest: Text) { ReadHandles(s) == Ok(hs, rest) }

  /** The first `received` bytes of a buffer taken apart: `hs` are its handles, and the buffer now starts with the other
      `n` bytes, the rest of it unchanged. */
  predicate Unpacked(before: Text, received: nat, hs: seq<uint64>, after: Text, n: nat) {
    && n <= received <= |before| == |after|
    && HasHandles(before[..received], hs, after[..n]) && after[n..] == before[n..]
  }

  /** `NewParser` takes the slice, and its handles fit. */
  predicate Receivable(s: Text, room: nat) {
    && (s == [] || s[|s| - 1] == SP || s[|s| - 1] == NL)
    && ReadHandles(s).Ok? && |ReadHandles(s).v| <= room
  }

  /** The first `received` bytes of `b` came from the pipe; the handles in front go to `files`, and the rest of the message
      is moved to the front of `b`. */
  method ReadFiles(b: array<byte>, received: nat, files: array<uint64>) returns (n: nat, fn: nat, r: GoParser.Reply<()>)
    requires received <= b.Length
    modifies b, files
    ensures fn <= files.Length && n <= b.Length
    ensures files.Length == 0 ==> r.Done? && n == received && b[..] == old(b[..])
    ensures files.Length > 0 ==> (r.Done? <==> Receivable(old(b[..received]), files.Length))
    ensures files.Length > 0 && r.Done? ==> Unpacked(old(b[..]), received, files[..fn], b[..], n)
    ensures !r.Done? ==> b[..] == old(b[..])
  {
    hide ReadHandles, Unpacked;
    if files.Length == 0 {
      return received, 0, GoParser.Done(());
    }
    var p := GoParser.NewParser(b[..received]);
    if p == null {
      return received, 0, GoParser.Failed(Invalid);
    }
    fn, r := TakeHandles(p, files);
    if !r.Done? {
      return received, 0, r;
    }
    n := Compact(b, received, p.b, files[..fn]);
  }

  /** Moving the part of the message that is left to the front. */
  method Compact(b: array<byte>, received: nat, left: Text, ghost hs: seq<uint64>) returns (n: nat)
    requires |left| <= received <= b.Length && left == b[..received][received - |left|..] && HasHandles(b[..received], hs, left)
    modifies b
    ensures n == |left| && Unpacked(old(b[..]), received, hs, b[..], n)
  {
    hide HasHandles;
    ghost var before := b[..];
    n := |left|;
    assert before[..received] == b[..received];
    assert b[..received][received - n..] == b[received - n..received];
    MoveToFront(b, received, n);
    assert b[..][..n] == left && b[..][n..] == b[n..] && before[n..] == old(b[n..]);
  }

  // ----- the round trip

  /** An unsigned word with a short significand is read back as that word. */
  lemma UintReadsBack(h: uint64, rest: Text)
    requires Short(OfInt(h)) && Delimited(rest)
    ensures ReadValue(GoUintText(false, h) + rest, 1) == Ok(VUint(h), rest)
  {
    hide ReadValue, Spell, Short, GoUintText, PlainValue, ScaledValue;
    var n := OfInt(h);
    UintTextExact(false, h);
    MagnitudeFits(false, h);
    SpellingIsLegal(n);
    GoReadsText(TextOf(n), rest, 1);
    UintValue(h);
  }

  lemma UintValue(h: uint64)
    requires Fits(OfInt(h)) && !TextOf(OfInt(h)).InfText?
    ensures ValueOfText(TextOf(OfInt(h))) == VUint(h)
  {
    if h > 0 {
      var n := OfInt(h);
      OddPartScale(h);
      if !n.Whole() {
        ShiftFits(n.sig, n.exp);
        ShiftLeftFits(n.sig, n.exp);
      }
    }
  }

  lemma HandleReads(h: uint64, rest: Text)
    requires Short(OfInt(h))
    ensures ReadHandles(HandleText(h) + rest) ==
            match ReadHandles(rest) { case Err(e) => Err(e) case Panic(w) => Panic(w) case Ok(hs, r) => Ok([h] + hs, r) }
  {
    hide ReadValue, GoUintText, Short;
    var s := HandleText(h) + rest;
    assert s[1..] == GoUintText(false, h) + ([NL] + rest);
    UintReadsBack(h, [NL] + rest);
    assert ReadValue([NL] + rest, 1) == Eof(rest) by { GoTrees.EndOfEntry(rest); }
    assert ReadVals([NL] + rest, [] + [VUint(h)]) == Ok([] + [VUint(h)], rest);
  }

  predicate AllShort(hs: seq<uint64>) { forall i :: 0 <= i < |hs| ==> Short(OfInt(hs[i])) }

  /** A handle whose significand is cut is read as another number, or its entry is refused. */
  lemma CutHandle(h: uint64, rest: Text)
    requires !Short(OfInt(h))
    ensures var o := EntryVals(HandleText(h) + rest); o.Ok? ==> o.v != [] && o.v[0] != VUint(h)
  {
    hide ReadValue, ReadVals, GoUintText, Short;
    var s := HandleText(h) + rest;
    var t := GoUintText(false, h) + ([NL] + rest);
    assert s[1..] == t;
    CutValue(h, [NL] + rest);
    FirstVals(t, h);
  }

  lemma CutValue(h: uint64, rest: Text)
    requires !Short(OfInt(h)) && Delimited(rest)
    ensures var r := ReadValue(GoUintText(false, h) + rest, 1);
            !r.Eof? && (r.Ok? && r.v == VUint(h) ==> r.rest != rest && r.rest != [] && r.rest[0] !in {SP, NL})
  {
    hide ReadValue, Short;
    GoLimits.UintCut(h, rest);
  }

  /** A value, when it is read at all, is the first of the entry, and no value starts but after a space. */
  lemma FirstVals(t: Text, h: uint64)
    requires var r := ReadValue(t, 1); !r.Eof? && (r.Ok? && r.v == VUint(h) ==> r.rest != [] && r.rest[0] !in {SP, NL})
    ensures var o := ReadVals(t, []); o.Ok? ==> o.v != [] && o.v[0] != VUint(h)
  {
    var r := ReadValue(t, 1);
    if r.Ok? {
      if r.v == VUint(h) { NoValueHere(r.rest, [r.v]); }
      hide ReadValue;
      assert [] + [r.v] == [r.v];
      KeepsFirst(r.rest, [r.v]);
    }
  }

  lemma NoValueHere(s: Text, acc: seq<Value>)
    requires s != [] && s[0] !in {SP, NL}
    ensures !ReadVals(s, acc).Ok?
  {
  }

  lemma {:induction false} KeepsFirst(s: Text, acc: seq<Value>)
    requires acc != []
    ensures var o := ReadVals(s, acc); o.Ok? ==> o.v != [] && o.v[0] == acc[0]
    decreases |s|
  {
    hide ReadValue;
    var r := ReadValue(s, 1);
    if r.Ok? { KeepsFirst(r.rest, acc + [r.v]); }
  }

  lemma {:induction false} FrontHandle(h: uint64, hs: seq<uint64>)
    ensures HandlesText([h] + hs) == HandleText(h) + HandlesText(hs)
    decreases |hs|
  {
    hide HandleText;
    if hs == [] {
      assert ([h] + hs)[..0] == [];
    } else {
      var k := |hs| - 1;
      assert ([h] + hs)[..k + 1] == [h] + hs[..k] && ([h] + hs)[k + 1] == hs[k];
      FrontHandle(h, hs[..k]);
      Assoc(HandleText(h), HandlesText(hs[..k]), HandleText(hs[k]));
    }
  }

  lemma OtherFirst(h: uint64, rest: Text, hs: seq<uint64>, r: Text)
    requires !Short(OfInt(h))
    ensures ReadHandles(HandleText(h) + rest) != Ok([h] + hs, r)
  {
    hide Short, EntryVals, GoUintText;
    var s := HandleText(h) + rest;
    CutHandle(h, rest);
    assert ([h] + hs)[0] == h;
  }

  lemma ShorterRest(s: Text)
    requires s != [] && s[0] == CH_W
    ensures ReadHandles(s) != Ok([], s)
  {
    hide EntryVals;
  }

  lemma FirstShort(h: uint64, rest: Text, hs: seq<uint64>, r: Text)
    requires Short(OfInt(h))
    ensures ReadHandles(HandleText(h) + rest) == Ok([h] + hs, r) <==> ReadHandles(rest) == Ok(hs, r)
  {
    hide ReadHandles, HandleText, Short;
    HandleReads(h, rest);
    if ReadHandles(rest).Ok? && [h] + ReadHandles(rest).v == [h] + hs {
      assert ([h] + hs)[1..] == hs && ([h] + ReadHandles(rest).v)[1..] == ReadHandles(rest).v;
    }
  }

  lemma {:induction false} HandlesRead(hs: seq<uint64>, payload: Text)
    ensures ReadHandles(HandlesText(hs) + payload) == Ok(hs, payload) <==> AllShort(hs) && (payload == [] || payload[0] != CH_W)
    decreases |hs|
  {
    hide ReadHandles, HandleText, Short, HandlesText;
    if hs == [] {
      assert HandlesText([]) + payload == payload by { NoHandles(); }
      if payload != [] && payload[0] == CH_W { ShorterRest(payload); } else { LastHandle(payload); }
    } else {
      var h, more := hs[0], hs[1..];
      assert hs == [h] + more;
      FrontHandle(h, more);
      Assoc(HandleText(h), HandlesText(more), payload);
      var rest := HandlesText(more) + payload;
      ShortNext(hs);
      if Short(OfInt(h)) {
        FirstShort(h, rest, more, payload);
        HandlesRead(more, payload);
      } else {
        OtherFirst(h, rest, more, payload);
      }
    }
  }

  lemma NoHandles()
    ensures HandlesText([]) == []
  {
  }

  lemma ShortNext(hs: seq<uint64>)
    requires hs != []
    ensures AllShort(hs) <==> Short(OfInt(hs[0])) && AllShort(hs[1..])
  {
    hide Short;
    if Short(OfInt(hs[0])) && AllShort(hs[1..]) {
      forall i | 0 <= i < |hs| ensures Short(OfInt(hs[i])) {
        if i > 0 { assert hs[1..][i - 1] == hs[i]; }
      }
    }
  }

  /** What `WriteFiles` sends is taken apart into exactly the duplicated handles, in order, and the payload, when and only when
      every handle has a printed significand below 2^32 and the payload does not start like a handle entry. */
  lemma HandlesTrip(files: seq<Duplicate>, payload: Text)
    ensures ReadHandles(HandlesText(Sent(files)) + payload) == Ok(Sent(files), payload) <==>
            AllShort(Sent(files)) && (payload == [] || payload[0] != CH_W)
  {
    HandlesRead(Sent(files), payload);
  }

  /** Entries in front of `s`, one after the other, each starting with `W`, and what each of them holds; then `rest`. */
  ghost predicate HandleEntriesAt(s: Text, entries: seq<seq<Value>>, rest: Text)
    decreases |entries|
  {
    if entries == [] then s == rest
    else
      && s != [] && s[0] == CH_W
      && exists mid: Text :: EntryVals(s) == Ok(entries[0], mid) && HandleEntriesAt(mid, entries[1..], rest)
  }

  /** The handles of such entries: the first value of each that has any, an unsigned integer. */
  predicate Holds(entries: seq<seq<Value>>, hs: seq<uint64>) {
    if entries == [] then hs == []
    else if entries[0] == [] then Holds(entries[1..], hs)
    else hs != [] && entries[0][0] == VUint(hs[0]) && Holds(entries[1..], hs[1..])
  }

  lemma {:induction false} EntriesTaken(s: Text) returns (entries: seq<seq<Value>>)
    requires ReadHandles(s).Ok?
    ensures var r := ReadHandles(s);
            HandleEntriesAt(s, entries, r.rest) && Holds(entries, r.v) && (r.rest == [] || r.rest[0] != CH_W)
    decreases |s|
  {
    hide EntryVals;
    if s == [] || s[0] != CH_W {
      entries := [];
    } else {
      var o := EntryVals(s);
      var more := EntriesTaken(o.rest);
      entries := [o.v] + more;
      assert entries[1..] == more;
      if o.v != [] { assert ReadHandles(s).v[1..] == ReadHandles(o.rest).v; }
    }
  }

  lemma {:induction false} TakesEntries(s: Text, entries: seq<seq<Value>>, hs: seq<uint64>, rest: Text)
    requires HandleEntriesAt(s, entries, rest) && Holds(entries, hs) && (rest == [] || rest[0] != CH_W)
    ensures ReadHandles(s) == Ok(hs, rest)
    decreases |entries|
  {
    hide EntryVals;
    if entries != [] {
      var mid: Text :| EntryVals(s) == Ok(entries[0], mid) && HandleEntriesAt(mid, entries[1..], rest);
      TakesEntries(mid, entries[1..], if entries[0] == [] then hs else hs[1..], rest);
      if entries[0] != [] { assert [hs[0]] + hs[1..] == hs; }
    }
  }

  /** On any data, handles are taken exactly from entries that start with `W`, as many as there are: none from an empty one, and
      from any other its first value, which has to be an unsigned integer; what stands behind it is ignored. */
  lemma HandlesExactly(s: Text, hs: seq<uint64>, rest: Text)
    ensures ReadHandles(s) == Ok(hs, rest) <==>
            (rest == [] || rest[0] != CH_W) &&
            exists entries: seq<seq<Value>> :: HandleEntriesAt(s, entries, rest) && Holds(entries, hs)
  {
    hide ReadHandles, HandleEntriesAt, Holds;
    if ReadHandles(s) == Ok(hs, rest) {
      var entries := EntriesTaken(s);
    }
    if entries: seq<seq<Value>> :| HandleEntriesAt(s, entries, rest) && Holds(entries, hs) {
      if rest == [] || rest[0] != CH_W { TakesEntries(s, entries, hs, rest); }
    }
  }

  /** On data that ends in a newline, or none, the handle entries never index out of range: each starts with its type byte. */
  lemma {:induction false} HandlesInRange(s: Text)
    requires s == [] || GoSafety.EndsInNewline(s)
    ensures ReadHandles(s) != Panic(OutOfRange)
    decreases |s|
  {
    hide EntryVals;
    if s != [] && s[0] == CH_W {
      GoSafety.EntryOutOfRange(s);
      if EntryVals(s).Ok? { HandlesInRange(EntryVals(s).rest); }
    }
  }
}
