/** Go values, their printed form (`AppendValue`, `BuildEntry`) and the reader `readNext` as a function of the bytes left. */
module GoValues {
  import opened Words
  import opened Hex
  import opened Numbers
  import opened Floats
  import opened Tokens
  import opened GoFormat

  /** A map is given by its entries in iteration order; `VOther` is a value of a kind the formatter does not know, such as an
      element of interface type. */
  datatype Value =
    | VBool(b: bool)
    | VUint(n: uint64)
    | VInt(i: int64)
    | VFloat(u: uint64)
    | VString(s: Text)
    | VBytes(s: Text)
    | VArray(items: seq<Value>)
    | VMap(entries: seq<Entry>)
    | VOther

  datatype Entry = Entry(key: Value, val: Value)

  // ----- printing

  function GoSizedText(delim: byte, s: Text): Text { [SP] + GoHex(|s|) + [delim] + s }

  function ValueText(v: Value): Text {
    match v
    case VBool(b) => [SP, if b then CH_T else CH_F]
    case VUint(n) => GoUintText(false, n)
    case VInt(i) => GoIntText(i)
    case VFloat(u) => GoFloatText(u)
    case VString(s) => GoSizedText(COLON, s)
    case VBytes(s) => GoSizedText(BAR, s)
    case VArray(items) => [SP, L_BRACKET] + ItemsText(items) + [SP, R_BRACKET]
    case VMap(entries) => [SP, L_BRACE] + EntriesText(entries) + [SP, R_BRACE]
    case VOther => []
  }

  /** Every kind inside is one the formatter knows. */
  predicate Known(v: Value) {
    match v
    case VArray(items) => AllKnown(items)
    case VMap(entries) => EntriesKnown(entries)
    case _ => !v.VOther?
  }

  predicate AllKnown(items: seq<Value>) { forall i :: 0 <= i < |items| ==> Known(items[i]) }

  predicate EntriesKnown(entries: seq<Entry>) { forall i :: 0 <= i < |entries| ==> PairKnown(entries[i]) }

  predicate PairKnown(e: Entry) { Known(e.key) && Known(e.val) }

  function ItemsText(items: seq<Value>): Text {
    if items == [] then [] else ValueText(items[0]) + ItemsText(items[1..])
  }

  function EntriesText(entries: seq<Entry>): Text {
    if entries == [] then [] else PairText(entries[0]) + EntriesText(entries[1..])
  }

  function PairText(e: Entry): Text { ValueText(e.key) + ValueText(e.val) }

  lemma {:induction false} ItemsTextAppend(a: seq<Value>, v: Value)
    ensures ItemsText(a + [v]) == ItemsText(a) + ValueText(v)
  {
    hide ValueText;
    if a == [] {
      assert a + [v] == [v] && [v][1..] == [];
    } else {
      assert (a + [v])[1..] == a[1..] + [v];
      ItemsTextAppend(a[1..], v);
      Assoc(ValueText(a[0]), ItemsText(a[1..]), ValueText(v));
    }
  }

  lemma {:induction false} EntriesTextAppend(a: seq<Entry>, e: Entry)
    ensures EntriesText(a + [e]) == EntriesText(a) + PairText(e)
  {
    hide PairText;
    if a == [] {
      assert a + [e] == [e] && [e][1..] == [];
    } else {
      assert (a + [e])[1..] == a[1..] + [e];
      EntriesTextAppend(a[1..], e);
      Assoc(PairText(a[0]), EntriesText(a[1..]), PairText(e));
    }
  }

  /** Succeeds exactly when every kind inside is known. */
  method AppendValue(b: Text, v: Value) returns (r: Text, ok: bool)
    ensures ok <==> Known(v)
    ensures ok ==> r == b + ValueText(v)
    decreases v, 0
  {
    match v
    case VArray(items) => r, ok := AppendArray(b, items);
    case VMap(entries) => r, ok := AppendMap(b, entries);
    case VOther => r, ok := b, false;
    case _ => r, ok := b + ValueText(v), true;
  }

  /** The slice branch of `AppendValue`. */
  method AppendArray(b: Text, items: seq<Value>) returns (r: Text, ok: bool)
    ensures ok <==> AllKnown(items)
    ensures ok ==> r == b + ValueText(VArray(items))
    decreases items, 1
  {
    var start := b + [SP, L_BRACKET];
    r := start;
    for i := 0 to |items|
      invariant r == start + ItemsText(items[..i]) && AllKnown(items[..i])
    {
      hide ValueText, ItemsText, Known;
      ItemsTextAppend(items[..i], items[i]);
      assert items[..i + 1] == items[..i] + [items[i]];
      Assoc(start, ItemsText(items[..i]), ValueText(items[i]));
      r, ok := AppendValue(r, items[i]);
      if !ok { return; }
    }
    assert items[..|items|] == items;
    Bracketed(b, [SP, L_BRACKET], ItemsText(items), [SP, R_BRACKET]);
    r, ok := r + [SP, R_BRACKET], true;
  }

  /** The map branch of `AppendValue`. */
  method AppendMap(b: Text, entries: seq<Entry>) returns (r: Text, ok: bool)
    ensures ok <==> EntriesKnown(entries)
    ensures ok ==> r == b + ValueText(VMap(entries))
    decreases entries, 1
  {
    var start := b + [SP, L_BRACE];
    r := start;
    for i := 0 to |entries|
      invariant r == start + EntriesText(entries[..i]) && EntriesKnown(entries[..i])
    {
      hide ValueText, EntriesText, PairText, PairKnown;
      var e := entries[i];
      EntriesTextAppend(entries[..i], e);
      assert entries[..i + 1] == entries[..i] + [e];
      Assoc(start, EntriesText(entries[..i]), PairText(e));
      r, ok := AppendPair(r, e);
      if !ok { return; }
    }
    assert entries[..|entries|] == entries;
    Bracketed(b, [SP, L_BRACE], EntriesText(entries), [SP, R_BRACE]);
    r, ok := r + [SP, R_BRACE], true;
  }

  /** A key and its value. */
  method AppendPair(b: Text, e: Entry) returns (r: Text, ok: bool)
    ensures ok <==> PairKnown(e)
    ensures ok ==> r == b + PairText(e)
    decreases e, 0
  {
    hide ValueText, Known;
    Assoc(b, ValueText(e.key), ValueText(e.val));
    r, ok := AppendValue(b, e.key);
    if ok { r, ok := AppendValue(r, e.val); }
  }

  lemma Bracketed(b: Text, open: Text, body: Text, close: Text)
    ensures (b + open) + body + close == b + (open + body + close)
  {
    Assoc(b, open, body);
    Assoc(b, open + body, close);
  }

  function EntryText(typ: byte, vals: seq<Value>): Text { [typ] + ItemsText(vals) + [NL] }

  method BuildEntry(typ: byte, vals: seq<Value>) returns (b: Text, ok: bool)
    ensures ok <==> AllKnown(vals)
    ensures ok ==> b == EntryText(typ, vals)
  {
    b := [typ];
    for i := 0 to |vals|
      invariant b == [typ] + ItemsText(vals[..i]) && AllKnown(vals[..i])
    {
      hide ValueText, ItemsText, Known;
      ItemsTextAppend(vals[..i], vals[i]);
      assert vals[..i + 1] == vals[..i] + [vals[i]];
      Assoc([typ], ItemsText(vals[..i]), ValueText(vals[i]));
      b, ok := AppendValue(b, vals[i]);
      if !ok { return; }
    }
    assert vals[..|vals|] == vals;
    b, ok := b + [NL], true;
  }

  // ----- reading

  datatype Error = Invalid | TooDeep | DuplicateKey | InsufficientData

  /** An index past the end of the slice, or a map key that cannot be compared. */
  datatype Cause = OutOfRange | Unhashable

  datatype Outcome<T> = Ok(v: T, rest: Text) | Eof(rest: Text) | Err(e: Error) | Panic(why: Cause)

  datatype Match = Yes | No | OffEnd

  /** Comparing the bytes of `t` one by one with the front of `s`. */
  function Matches(s: Text, t: Text): (m: Match)
    ensures m.Yes? ==> t <= s
    ensures m.No? ==> !(t <= s)
  {
    if t == [] then Yes else if s == [] then OffEnd else if s[0] != t[0] then No else Matches(s[1..], t[1..])
  }

  /** `readHex`, with the byte it starts from. Only a lone zero is read without a look at the byte after it. */
  function HexField(s: Text): (r: Outcome<(uint64, nat)>)
    requires s != []
    ensures r.Ok? ==> |r.rest| < |s|
    ensures !r.Eof?
  {
    match ScanHex(s)
    case NoHex => Err(Invalid)
    case Hex(v, x, rest) => if rest == [] && v > 0 then Panic(OutOfRange) else Ok((v, x), rest)
  }

  /** A field whose caller looks at the byte after it. */
  function GoScan(s: Text): (r: Outcome<(uint64, nat)>)
    ensures r.Ok? ==> r.rest != [] && |r.rest| < |s|
    ensures !r.Eof?
  {
    if s == [] then Panic(OutOfRange)
    else match ScanHex(s)
      case NoHex => Err(Invalid)
      case Hex(v, x, rest) => if rest == [] then Panic(OutOfRange) else Ok((v, x), rest)
  }

  const POSITIVE_INFINITY: uint64 := 0x7FF0_0000_0000_0000
  const NEGATIVE_INFINITY: uint64 := 0xFFF0_0000_0000_0000
  /** What `math.NaN` returns. */
  const GO_NAN: uint64 := 0x7FF8_0000_0000_0001

  /** `readExponent`; an exponent too large for 32 bits comes back with the wrong sign. */
  function GoExponent(s: Text, overflow: nat): (r: Outcome<int>)
    ensures r.Ok? ==> |r.rest| < |s|
    ensures !r.Eof?
  {
    var neg := Peek(s, 0) == MINUS as int;
    var t := if neg then s[1..] else s;
    if t == [] then Panic(OutOfRange)
    else match HexField(t)
      case Err(e) => Err(e)
      case Panic(w) => Panic(w)
      case Ok((v, x), rest) =>
        var u := (v + overflow) % TWO64;
        if x > 0 || u > INT_MAX then Ok(if neg then INT_MAX else INT_MIN, rest)
        else Ok(if neg then -u else u, rest)
  }

  /** After the minus sign. */
  function GoNegative(s: Text): (r: Outcome<Value>)
    ensures r.Ok? ==> |r.rest| < |s|
    ensures !r.Eof?
  {
    match Matches(s, INF_TEXT)
    case OffEnd => Panic(OutOfRange)
    case Yes => Ok(VFloat(NEGATIVE_INFINITY), s[3..])
    case No =>
      match GoScan(s)
      case Err(e) => Err(e)
      case Panic(w) => Panic(w)
      case Ok((sig, overflow), rest) =>
        if rest[0] == CH_P then
          if sig % 2 == 0 then Err(Invalid)
          else match GoExponent(rest[1..], overflow)
            case Err(e) => Err(e)
            case Panic(w) => Panic(w)
            case Ok(exp, rest') =>
              if exp < 0 || exp >= LeadingZeros(sig) then Ok(VFloat(BuildFloat64(true, sig, exp)), rest')
              else Ok(VInt(ToInt64(-(ShiftLeft(sig, exp) as int))), rest')
        else if sig % 256 == 0 then Err(Invalid)
        else Ok(VInt(ToInt64(-(sig as int))), rest)
  }

  /** From the first digit. */
  function GoUnsigned(s: Text): (r: Outcome<Value>)
    ensures r.Ok? ==> |r.rest| < |s|
    ensures !r.Eof?
  {
    match GoScan(s)
    case Err(e) => Err(e)
    case Panic(w) => Panic(w)
    case Ok((sig, overflow), rest) =>
      if rest[0] == CH_P then
        if sig % 2 == 0 then Err(Invalid)
        else match GoExponent(rest[1..], overflow)
          case Err(e) => Err(e)
          case Panic(w) => Panic(w)
          case Ok(exp, rest') =>
            if exp < 0 || exp > LeadingZeros(sig) then Ok(VFloat(BuildFloat64(false, sig, exp)), rest')
            else Ok(VUint(ShiftLeft(sig, exp)), rest')
      else if rest[0] == BAR || rest[0] == COLON then
        if overflow > 0 || sig >= |rest| - 1 then Err(InsufficientData)
        else
          var body := rest[1..][..sig];
          Ok(if rest[0] == BAR then VBytes(body) else VString(body), rest[1..][sig..])
      else if sig > 0 && sig % 256 == 0 then Err(Invalid)
      else Ok(VUint(sig), rest)
  }

  /** Map keys must be comparable. */
  predicate Hashable(v: Value) { !v.VBytes? && !v.VArray? && !v.VMap? }

  /** Interface equality: same dynamic type and equal values, floats by number. */
  predicate GoEqual(v: Value, w: Value) {
    if v.VFloat? && w.VFloat? then !IsNaN(v.u) && !IsNaN(w.u) && (v.u == w.u || (IsZero(v.u) && IsZero(w.u))) else v == w
  }

  predicate HasKey(entries: seq<Entry>, key: Value) { exists e :: e in entries && GoEqual(e.key, key) }

  const MAX_DEPTH := 16

  function ReadValue(s: Text, depth: nat): (r: Outcome<Value>)
    ensures r.Ok? || r.Eof? ==> |r.rest| < |s|
    decreases |s|, 0
  {
    if depth > MAX_DEPTH then Err(TooDeep)
    else if s == [] then Panic(OutOfRange)
    else if s[0] == NL then Eof(s[1..])
    else if s[0] != SP then Err(Invalid)
    else if |s| == 1 then Panic(OutOfRange)
    else
      var c, t := s[1], s[2..];
      if c == CH_T then Ok(VBool(true), t)
      else if c == CH_F then Ok(VBool(false), t)
      else if c == L_BRACE then ReadEntries(t, depth, [])
      else if c == L_BRACKET then ReadItems(t, depth, [])
      else if c == CH_N then Special(t, NAN_TEXT[1..], GO_NAN)
      else if c == CH_I then Special(t, INF_TEXT[1..], POSITIVE_INFINITY)
      else if c == MINUS then GoNegative(t)
      else GoUnsigned(s[1..])
  }

  function Special(t: Text, name: Text, u: uint64): (r: Outcome<Value>)
    ensures r.Ok? ==> |r.rest| <= |t|
    ensures !r.Eof?
  {
    match Matches(t, name) case OffEnd => Panic(OutOfRange) case No => Err(Invalid) case Yes => Ok(VFloat(u), t[|name|..])
  }

  function ReadItems(s: Text, depth: nat, acc: seq<Value>): (r: Outcome<Value>)
    ensures r.Ok? || r.Eof? ==> |r.rest| < |s|
    decreases |s|, 1
  {
    match Matches(s, [SP, R_BRACKET])
    case OffEnd => Panic(OutOfRange)
    case Yes => Ok(VArray(acc), s[2..])
    case No => match ReadValue(s, depth + 1)
      case Ok(v, rest) => ReadItems(rest, depth, acc + [v])
      case Eof(rest) => Eof(rest)
      case Err(e) => Err(e)
      case Panic(w) => Panic(w)
  }

  function ReadEntries(s: Text, depth: nat, acc: seq<Entry>): (r: Outcome<Value>)
    ensures r.Ok? || r.Eof? ==> |r.rest| < |s|
    decreases |s|, 1
  {
    match Matches(s, [SP, R_BRACE])
    case OffEnd => Panic(OutOfRange)
    case Yes => Ok(VMap(acc), s[2..])
    case No => match ReadValue(s, depth + 1)
      case Eof(rest) => Eof(rest)
      case Err(e) => Err(e)
      case Panic(w) => Panic(w)
      case Ok(k, rest) => match ReadValue(rest, depth + 1)
        case Eof(rest') => Eof(rest')
        case Err(e) => Err(e)
        case Panic(w) => Panic(w)
        case Ok(v, rest') =>
          if !Hashable(k) then Panic(Unhashable)
          else if HasKey(acc, k) then Err(DuplicateKey)
          else ReadEntries(rest', depth, acc + [Entry(k, v)])
  }

  /** `ParseEntry`, after the type byte: values until `readNext` answers end of file. */
  function ReadVals(s: Text, acc: seq<Value>): (r: Outcome<seq<Value>>)
    ensures !r.Eof?
    ensures r.Ok? ==> |r.rest| < |s|
    decreases |s|
  {
    match ReadValue(s, 1)
    case Ok(v, rest) => ReadVals(rest, acc + [v])
    case Eof(rest) => Ok(acc, rest)
    case Err(e) => Err(e)
    case Panic(w) => Panic(w)
  }

  /** An entry, type byte included. */
  function EntryVals(s: Text): (r: Outcome<seq<Value>>)
    ensures !r.Eof?
    ensures r.Ok? ==> |r.rest| < |s|
  {
    if s == [] then Panic(OutOfRange) else ReadVals(s[1..], [])
  }

  datatype Message = Message(typ: byte, vals: seq<Value>)

  /** `NextEntry` and `ParseEntry` until the end of the message. */
  function ReadMessages(s: Text): (r: Outcome<seq<Message>>)
    ensures !r.Eof?
    decreases |s|
  {
    if s == [] then Ok([], [])
    else match EntryVals(s)
      case Err(e) => Err(e)
      case Panic(w) => Panic(w)
      case Ok(vals, rest) => match ReadMessages(rest)
        case Err(e) => Err(e)
        case Panic(w) => Panic(w)
        case Ok(ms, r) => Ok([Message(s[0], vals)] + ms, r)
  }
}
