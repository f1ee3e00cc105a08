# Verified model of the simple-ipc codec

simple-ipc sends messages as text: each entry is a type byte, atoms with a space in front, and a newline. A number is
`<hex>p<hex>`, that is a × 2^b, and has one spelling only. The repository holds two implementations of the format, one in C
(`libsipc/ipc.c`) and one in Go (`go-ipc/`), and a C thread library whose Windows half builds `call_once` and mutexes out of
critical sections. This project models

- the C parser, as a class whose methods advance `next` through a buffer that ends in a newline;
- the C formatters, as methods that write into an array, and the bounded formatter `sipc_vformat`;
- the Go parser, as a class that reassigns the slice it still has to read, and the Go formatters;
- the handle prefix of the Windows pipe (`go-ipc/windows.go`);
- `call_once` and the non-timed `mtx_*` functions, as atomic steps of any number of threads.

Methods follow the code's own control flow and are proved against functions of the text left to read (or to write). The
theorems about meaning are lemmas about those functions.

## Files

| file | holds |
|---|---|
| `Words.dfy`, `Hex.dfy` | 64-bit words, bit counting, digit tables, the overflow-testing hex scanner |
| `Numbers.dfy`, `Floats.dfy` | real numbers and their one spelling, binary64, reassembly with rounding |
| `RealTexts.dfy`, `Readers.dfy` | `parse_real` and the typed readers, and what they accept and return |
| `Tokens.dfy`, `SipcParser.dfy`, `Brackets.dfy` | `sipc_next`, `sipc_any`, the C parser object, bracket matching against trees |
| `TokenGrammar.dfy`, `Entries.dfy` | what the C token, string and entry readers accept on any text |
| `SipcFormat.dfy`, `BoundedFormat.dfy`, `Messages.dfy` | C formatters, the bounded formatter, C round trips |
| `Echo.dfy` | sending on a container that was received |
| `GoFormat.dfy`, `GoValues.dfy`, `GoParser.dfy` | Go formatters, values and the Go parser object |
| `GoSafety.dfy` | on which slices the Go parser indexes out of range |
| `GoNumbers.dfy`, `GoTrees.dfy`, `GoMaps.dfy`, `GoLimits.dfy` | numbers read in Go, Go round trips, duplicate keys, and where the round trips end |
| `GoScalars.dfy`, `GoForest.dfy` | what the Go reader makes of any text, against a grammar |
| `CrossTrees.dfy`, `CrossMessages.dfy` | Go trees read in C, C messages read in Go |
| `Handles.dfy` | the handle prefix on Windows pipes |
| `CallOnce.dfy`, `Mutex.dfy` | the thread primitives |

## Reading the model

- A 64-bit word is an integer in [0, 2^64). Shifts, sums and conversions that can wrap are written with an explicit
  remainder, among them the 32-bit exponent at `libsipc/ipc.c:291`. An or of disjoint bit fields is written as a sum.
- A shift by 64 gives 0, as in Go (`go-ipc/parse.go:171`; C leaves `libsipc/ipc.c:290` undefined for the significand 1), and
  the leading-zero count of 0 is 64. Negating the least 64-bit integer gives its magnitude, as two's complement does.
- A double is its 64-bit pattern. The number it denotes is a `real`, written as an integer scaled by a power of two.
- When `parse_hex` sees an overflow it leaves the caller's variable unset (`libsipc/ipc.c:112-120`). What the variable then
  holds is the parameter `stale`, and every theorem holds for all its values.
- `sipc_start` compares a signed `char`, so bytes from 80 (hex) on are refused.
- A Go map is given by its entries in iteration order, and a Go value's meaning forgets which machine type holds a number.
- In the thread models one shared read or write is one step. A schedule is any sequence of thread numbers; the thread library
  states no fairness, so liveness is stated as a bound on the steps that can still be taken.

## Where the code falls short of its promise

The code is modelled as it is. For each of these a theorem says exactly when the promise holds, or gives a failing input.

- `%p` of a negative integer writes its digits over the minus sign and counts one byte that it never writes
  (`libsipc/ipc.c:730-732`). `%d`, `%i` and the longer integer formats are right. `Messages.MessageReadsBack` and
  `CrossMessages.GoReadsMessage` have the condition.
- `%p` of a container puts one space too many behind the opening bracket and none before the closing one
  (`libsipc/ipc.c:703-715`), so that only an empty one is read back: `Messages.ContainerReadsBack`. Writing the brackets and
  copying the bytes with `%.*s` is right: `Echo.EchoReadsBack`.
- `sipc_any` hands out a closing bracket that closes nothing as a value, and `sipc_end` skips it (`libsipc/ipc.c:516-593`), where
  Go refuses the entry (`GoForest.StrayCloseRefused`): `Entries.StrayClose`, `Entries.ProperEntry`.
- An integer whose overflow is noticed is read as the value of an uninitialised variable (`libsipc/ipc.c:112-120`, `211-220`):
  `TokenGrammar.OverflowReadsStale`.
- Positive infinity read with `sipc_next` comes back negative (`libsipc/ipc.c:425-432`); `sipc_double` reads it right.
- The size returned for a buffer that is too small does not suffice for a second call (`libsipc/ipc.c:841`, `873`):
  `BoundedFormat.RetryWithAnswer`, `BoundedFormat.CallsNeeded`.
- A rounding carry out of the word is lost: 2^54 - 1 is read as 2^53 (`libsipc/ipc.c:295-297`). `Floats.RoundsToNearest` has
  the condition.
- The overflow test misses fields of seventeen digits and more, and can count too few bits (`libsipc/ipc.c:112`):
  `Hex.ScanExact`.
- The parser accepts exponent fields between 0 and 7, which the format forbids (`ipc.md:91`), so 8 can also be written 1p3, and
  1 also 1p-0: `Readers.SpelledExactly`.
- An exponent near 2^31 wraps in C (`libsipc/ipc.c:291`): `Floats.VersionsAgree`. In Go one beyond 2^31 - 1 has the opposite
  effect (`go-ipc/parse.go:138-141`), and magnitudes above 2^63 are negated into other numbers (`go-ipc/parse.go:303`):
  `GoNumbers.GoReadsRight`.
- Go prints at most eight hex digits of a significand, a length or an exponent (`go-ipc/format.go:24`):
  `GoLimits.NumberTripExact`, `GoLimits.SizedTripExact`, `GoFormat.BigTextEqual`, `Handles.HandlesTrip`.
- Go crashes on an entry that is a newline and nothing else, which `NewParser` accepts: `ParseEntry` skips the newline as the
  type byte and reads on (`go-ipc/parse.go:358`): `GoSafety.EntryOutOfRange`, `GoSafety.MessageOutOfRange`.
- Go takes a newline inside an open container for the end of the entry and drops the container (`go-ipc/parse.go:213-214`,
  `362-363`), where C refuses the entry: `GoForest.EntryExactly`.
- Go crashes on a map key that is bytes, an array or a map (`go-ipc/parse.go:238`): `GoMaps.MapTrip`,
  `GoForest.CrashesExactly`.
- Go cannot print elements of interface type (`go-ipc/format.go:247`), so not the slices and maps that its own reader returns.
- The documentation and C limit open containers to sixteen; Go counts the scalar inside as one more level
  (`go-ipc/parse.go:208`): `CrossTrees.DepthRulesDiffer`.
- `WriteFiles` reports files that it could not duplicate as sent (`go-ipc/windows.go:214`).

## Model

| member | source | states |
|---|---|---|
| Hex.TablesMatch | libsipc/ipc.c:77-90 | the packed bit map and lookup table accept exactly `0-9a-f`, each with its value, for all 256 bytes |
| Hex.ScanReads | libsipc/ipc.c:96-128 | every 64-bit word's shortest digits, before any non-digit, are scanned back as that word with nothing lost |
| Hex.ScanSound | libsipc/ipc.c:96-128 | whatever field of at most 16 digits is scanned is the shortest spelling of the word returned, with no overflow reported |
| Hex.ScanExact | libsipc/ipc.c:96-128 | for every field without a leading zero, of any length: an overflow is reported if and only if some digit comes after sixteen that start with a nonzero digit and do not exceed that digit repeated; unreported, the word is the number modulo 2^64; word and bit count are right if and only if the field has at most 16 digits or its seventeenth is noticed |
| Hex.ScanStops | go-ipc/parse.go:86-116 | the scan keeps the low sixteen digits up to the first digit noticed and counts four bits for each digit from there on |
| Hex.MissedOverflow | go-ipc/parse.go:101-102 | 18000000000000000, seventeen digits, passes the test and is read as 2^63 |
| Hex.MiscountedOverflow | libsipc/ipc.c:111-120 | 180000000000000000, eighteen digits, comes back as 2^63 with four bits reported lost, although eight fell off |
| Hex.ValueDigits | libsipc/ipc.c:98-108 | every digit string without a leading zero is the shortest spelling of its number, so a spelling is determined by its number |
| Numbers.CanonicalValueInjective | ipc.md:91-97 | two odd-significand forms denote the same real exactly when they are the same form |
| Numbers.SpellInjective | ipc.md:91-97 | two numbers, infinities and NaN included, are spelled alike exactly when they are the same |
| Numbers.OneSpellingPerReal | ipc.md:64-97 | two real numbers have the same text if and only if they are equal |
| Numbers.OfDoubleValue | libsipc/ipc.c:659-672 | the sign, odd significand and exponent taken out of a normal word denote the real number of the binary64 interchange format |
| Numbers.OfIntValue | libsipc/ipc.c:606-625 | the odd significand and trailing-zero count taken out of an integer denote that integer |
| Numbers.OneSpellingAcrossTypes | libsipc/ipc.c:606-688 | unsigned, signed and double texts are identical if and only if the numbers are equal as reals (subnormals excluded) |
| Floats.RoundingError | libsipc/ipc.c:281-322 | in range the error is at most half a unit in the last place if and only if the rounding add does not leave the word; a tie goes away from zero; sign and exponent are right |
| Floats.RoundsToNearest | libsipc/ipc.c:289-311 | no normal double is nearer to the number read, if and only if the rounding add does not leave the word |
| Floats.ExactIffNarrow | go-ipc/parse.go:163-203 | the double equals the number read if and only if its bits span at most 53 places |
| Floats.RebuildsNormal | libsipc/ipc.c:281-322 | any significand and exponent that denote a normal double's number rebuild that double bit for bit |
| Floats.VersionsAgree | libsipc/ipc.c:287-291 | the C and Go versions agree if and only if the leading exponent fits an int; past it C gives zero and Go infinity |
| Floats.CarryLost | libsipc/ipc.c:295-297 | 2^54 - 1 is read as 2^53 |
| RealTexts.ReadsReal | libsipc/ipc.c:178-221 | a number text with any 64-bit fields is accepted if and only if it obeys the parser's rule (no negative zero, no whole number ending in two zero digits, odd scaled significand, sign only where allowed), and its fields come back with the exponent clamped |
| RealTexts.ReadRealSound | libsipc/ipc.c:178-221 | whatever is accepted, with fields of at most 16 digits, is such a text and these are its fields |
| RealTexts.ReadsExponent | libsipc/ipc.c:130-152 | an exponent field, on top of any number of significand bits that fell off, reads as their sum modulo 2^64, signed and clamped to the int range |
| Readers.Uint64Exact | libsipc/ipc.c:247-259 | `sipc_uint64` succeeds if and only if the text is legal, unsigned and denotes an integer below 2^64, and returns that integer |
| Readers.Int64Exact | libsipc/ipc.c:223-245 | `sipc_int64` succeeds if and only if the text is legal and denotes an integer in [-2^63, 2^63), and returns that integer |
| Readers.IntegerRoundTrip | libsipc/ipc.c:606-625 | every unsigned and every signed 64-bit integer, the least included, is read back from its text |
| Readers.Normalisation | libsipc/ipc.c:247-259 | reformatting what `sipc_uint64` accepted reads as the same value, and is the text consumed if and only if that text had no exponent or one of at least 8 |
| Readers.NamesExactly | libsipc/ipc.c:234-239 | a legal text denotes an integer if and only if its power is not negative and the integer is the significand moved up by it |
| Readers.SpellingIsLegal | libsipc/ipc.c:659-687 | every spelling is a legal text that denotes the number spelled |
| Readers.SpelledExactly | ipc.md:91-97 | a text the parser accepts is the one spelling of its number if and only if it has no exponent field between 0 and 7 |
| Readers.SecondSpellings | ipc.md:64-97 | two accepted texts for the same real are the same text if neither has such a field, and differ if exactly one has |
| Readers.DoubleRoundTrip | libsipc/ipc.c:627-688 | every bit pattern comes back through `sipc_double`: normals and infinities exactly, NaN as NaN, zeros and subnormals as +0 |
| Readers.DoubleReadsText | libsipc/ipc.c:324-339 | `sipc_double` accepts a number text with any 64-bit fields if and only if it is legal: infinities and zero as themselves, any other as the rounded double in the normal range, a zero below it, an infinity above it unless the exponent wraps, sign kept |
| Readers.ExponentWraps | libsipc/ipc.c:291 | 3p7fffffff, whose leading exponent leaves the int range, is read as zero |
| Tokens.TokenTail | libsipc/ipc.c:406-514 | a token leaves a tail of the text; a bracket takes exactly two bytes |
| SipcParser.Parser.Init | libsipc/ipc.c:937-945 | accepts exactly the buffers that end in a newline |
| SipcParser.Parser.At | libsipc/ipc.c:96-128 | a byte of the text left to read, never at or past `end`; a byte that is not a newline has another one behind it |
| SipcParser.Parser.HexAt | libsipc/ipc.c:77-83 | the table test on the next byte is true exactly for a digit |
| SipcParser.Parser.ParseHex | libsipc/ipc.c:96-128 | consumes and returns what the scanner says, stays before `end`, and on overflow leaves the caller's value |
| SipcParser.Parser.CountExcess | libsipc/ipc.c:113-120 | skips all further digits, four bits each |
| SipcParser.Parser.ParseExponent | libsipc/ipc.c:130-152 | the exponent, clamped to the int limits on overflow |
| SipcParser.Parser.HaveNan | libsipc/ipc.c:154-162 | consumes ` nan` if and only if it is next |
| SipcParser.Parser.HaveInf | libsipc/ipc.c:164-171 | consumes `inf` if and only if it is next |
| SipcParser.Parser.ParseReal | libsipc/ipc.c:178-221 | sign, significand and exponent of the number next, or an error |
| SipcParser.Parser.ParseMagnitude | libsipc/ipc.c:189-220 | the same from the sign on, with the checks on the last digits and the exponent |
| SipcParser.Parser.Int64 | libsipc/ipc.c:223-245 | the integer, or -1; the object's half of Int64Exact |
| SipcParser.Parser.Uint64 | libsipc/ipc.c:247-259 | the integer, or -1; the object's half of Uint64Exact |
| SipcParser.Parser.DoubleValue | libsipc/ipc.c:324-339 | the double, or -1; the object's half of DoubleReadsText |
| SipcParser.Parser.SzString | libsipc/ipc.c:351-382 | the string or bytes, or -1; the object's half of TokenGrammar.StringExactly |
| SipcParser.Parser.BoolValue | libsipc/ipc.c:384-404 | succeeds if and only if the next token is a boolean, and returns it |
| SipcParser.Parser.Next | libsipc/ipc.c:406-514 | the next token; unless it ends the entry, something is left to read and less than before |
| SipcParser.Parser.NextSigned | libsipc/ipc.c:424-438 | the token of a text that starts with a minus sign or `i`; its assertion on the sign holds |
| SipcParser.Parser.NextUnsigned | libsipc/ipc.c:468-513 | the number, string or bytes that starts with a hex field |
| SipcParser.Parser.MatchClose | libsipc/ipc.c:522-556 | the bits of one word do what a stack of bracket kinds does, over the whole loop, which ends |
| SipcParser.BitsPush | libsipc/ipc.c:538-549 | shifting in, testing and shifting out the low bit push, look at and pop the innermost bracket kind |
| SipcParser.BitsBound | libsipc/ipc.c:525-539 | sixteen kinds fit the word, so no bracket is shifted out |
| SipcParser.Parser.AnyValue | libsipc/ipc.c:516-561 | the next value; for a container the span between its brackets |
| SipcParser.Parser.Start | libsipc/ipc.c:572-581 | returns and consumes a printable ASCII byte, and leaves anything else |
| SipcParser.Parser.Finish | libsipc/ipc.c:583-593 | the loop, on every buffer it terminates; the object's half of Entries.SkipExactly |
| Brackets.AnyIsTree | libsipc/ipc.c:516-561 | a container is accepted if and only if the tokens that follow are those of some properly nested forest and the matching close, with at most 16 containers open; it then stops just after that close and the span is everything in between |
| Brackets.ClosedIsForest | libsipc/ipc.c:527-556 | whatever the loop runs through is a properly nested forest of bounded depth and the close of the innermost container |
| Brackets.PassesForest | libsipc/ipc.c:527-556 | the loop runs through the tokens of any forest and leaves the stack as it was, or stops if the forest is too deep |
| TokenGrammar.StringReadsBack | libsipc/ipc.c:351-382 | every string and bytes, whatever follows, is read back from its text with exactly the tail left, and refused by the reader for the other delimiter |
| TokenGrammar.StringField | libsipc/ipc.c:361-371 | any length field, delimiter and tail: the stated bytes and the rest if the length leaves at least one byte, and a failure otherwise |
| TokenGrammar.StringExactly | libsipc/ipc.c:351-382 | in a buffer whose size fits an int, with length fields of any number of digits, a string is returned if and only if the text is a space, its length in shortest digits, the delimiter, its bytes and something more |
| TokenGrammar.StringsAgree | libsipc/ipc.c:489-506 | `sipc_next` returns a string, or bytes, if and only if `sipc_string`, or `sipc_bytes`, returns the same |
| TokenGrammar.TokenExactly | libsipc/ipc.c:406-514 | the end, a boolean, a bracket, a string or bytes are returned if and only if the text starts with the one spelling of that token, a string with something left |
| TokenGrammar.NumberSound | libsipc/ipc.c:406-514 | a number token, from hex fields of at most 16 digits, is read only from `nan` or a legal number text, as the token its fields make |
| TokenGrammar.OverflowReadsStale | libsipc/ipc.c:112-120 | for an integer with a noticed overflow `sipc_uint64` returns whatever its uninitialised local held, if that passes the test on the last two digits |
| Entries.EntryExactly | libsipc/ipc.c:516-561 | on any text, a loop of `sipc_any` returns given values and stops at a given place if and only if the text up to there is scalars, properly nested containers at most 16 deep and closing brackets by themselves, standing for these values in order, and then a newline |
| Entries.SkipExactly | libsipc/ipc.c:583-593 | `sipc_end` stops at a given place if and only if what comes before is the tokens of such members and then a newline |
| Entries.ProperEntry | libsipc/ipc.c:516-561 | an entry that is read is that of a properly nested forest if and only if no value read is a closing bracket |
| Entries.StrayClose | libsipc/ipc.c:583-593 | a closing bracket alone and a newline are read, and skipped, as an entry |
| Entries.SkipsPrinted | libsipc/ipc.c:583-593 | any list of printed values is skipped up to its newline, if none is a negative integer, or a container that is not empty, printed as `%p` |
| SipcFormat.FormatHex | libsipc/ipc.c:597-604 | writes the shortest digits of the word and nothing else |
| SipcFormat.FormatUint64 | libsipc/ipc.c:606-615 | writes the one spelling of the word and nothing else |
| SipcFormat.FormatInt64 | libsipc/ipc.c:617-625 | writes the one spelling of the integer and nothing else |
| SipcFormat.FormatDouble | libsipc/ipc.c:627-688 | writes the one spelling of the double's number and nothing else |
| SipcFormat.FormatNormal | libsipc/ipc.c:661-686 | the branch for normal numbers writes significand and exponent, folded for exponents 0 to 7 |
| SipcFormat.FormatExponent | libsipc/ipc.c:681-686 | writes `p`, the sign and the exponent |
| SipcFormat.OutputSize | libsipc/ipc.c:874-880 | the length of an output does not depend on what the buffer held, so measuring in a dummy buffer is sound |
| BoundedFormat.AtomBound | libsipc/ipc.c:832-835 | raw bytes, booleans, integers, doubles and scalar `%p` arguments other than strings are all known, and take at most twenty bytes, over all integers and doubles |
| BoundedFormat.BoundIsTight | libsipc/ipc.c:832-835 | some double takes all twenty |
| BoundedFormat.FormatString | libsipc/ipc.c:690-701 | returns the full length, and writes length, delimiter and bytes if they fit |
| BoundedFormat.FormatArray | libsipc/ipc.c:703-715 | returns the full length, and writes the span in brackets if it fits |
| BoundedFormat.FormatCopy | libsipc/ipc.c:817-826 | returns the full length, and copies the bytes if they fit |
| BoundedFormat.FormatArg | libsipc/ipc.c:717-830 | -1 for an unknown piece; otherwise the piece's length, with the piece written and nothing else if it fits, and nothing touched outside the room if not |
| BoundedFormat.FormatAny | libsipc/ipc.c:724-751 | the same for `%p`, where a negative integer's digits replace its sign and the byte behind them stays what it was |
| BoundedFormat.FormatNegative | libsipc/ipc.c:730-732 | a negative integer's magnitude, one byte more counted than written |
| BoundedFormat.VFormat | libsipc/ipc.c:837-887 | never writes at or past `bufsz`; -1 exactly for unknown pieces; for an ideal output of length L returns L with exactly that output, a zero byte and the rest untouched if L + 20 < bufsz, and max(L + 1, bufsz + 1) otherwise; called so that no argument follows a raw copy that is not written |
| BoundedFormat.AnswerTells | libsipc/ipc.c:837-887 | the output was written if and only if the answer is below the buffer's size, and then the answer is its length; if not, the answer is the least number above both the size and the length |
| BoundedFormat.CallsNeeded | libsipc/ipc.c:864-873 | a caller that takes each answer for the next size gets through after exactly the number of calls stated, twenty-two from an empty buffer |
| BoundedFormat.RetryWithAnswer | libsipc/ipc.c:864-873 | a second call with the size answered succeeds if and only if the first buffer was short of nothing but the spare bytes |
| Messages.NextReadsNumber | libsipc/ipc.c:406-513 | every legal delimited number text becomes the integer or double token its fields make |
| Messages.ArgumentReadsBack | libsipc/ipc.c:717-816 | every argument that prints one value, a scalar or a container, is read back by `sipc_any` as the same value with exactly the tail left, if and only if it is none of positive infinity, a negative integer printed as `%p`, and a container printed as `%p` that is not empty |
| Messages.ContainerReadsBack | libsipc/ipc.c:703-715 | a container printed as `%p`, with any bytes inside, is read as the same container if and only if it is empty |
| Echo.EchoReadsBack | libsipc/ipc.c:516-561 | a container read by `sipc_any`, its bytes put between new brackets with a space before each, is read as the same container whatever comes behind, if the uninitialised local holds what it held |
| Echo.EchoPrinted | libsipc/ipc.c:817-826 | the format ` [%.*s ]`, or the one with braces, prints exactly that |
| Messages.WordReadsBack | libsipc/ipc.c:606-625 | a signed 64-bit magnitude's spelling is read back as a token for that number |
| Messages.NegativeLost | libsipc/ipc.c:730-732 | what `%p` makes of a negative integer never reads back as that value with the right rest, whatever the buffer held |
| Messages.EntryReadsBack | libsipc/ipc.c:572-593 | a list of printed values, scalars and containers, is read back as the same list, stopping just after its newline, if and only if each of them comes back by itself |
| Messages.TakeEntry | cmd/c-client/common.c:13-21 | the client's loop over the parser object returns exactly the values of the entry and stops just after its newline, or fails |
| Messages.MessageReadsBack | libsipc/ipc.c:837-863 | no format of such arguments is refused, and the same holds for the output of the whole format string, type byte and newline included |
| GoFormat.AppendHex | go-ipc/format.go:23-35 | appends the last eight digits of the word |
| GoFormat.GoHexExact | go-ipc/format.go:23-35 | those digits are the word's spelling, or as long as it, if and only if the word is below 2^32 |
| GoFormat.GoHexLow | go-ipc/format.go:23-35 | whatever the word, the digits are its number modulo 2^32, eight of them from 2^32 on |
| GoFormat.UintTextExact | go-ipc/format.go:125-152 | Go prints an integer in its one spelling if and only if the printed significand is below 2^32 |
| GoFormat.FloatTextExact | go-ipc/format.go:76-123 | Go prints a double in its one spelling if and only if the printed significand is below 2^32 |
| GoFormat.BigExponent | go-ipc/format.go:54-64 | `MantExp` less `MinPrec` is the exponent of the odd significand, and the scaled integer is that significand |
| GoFormat.BigTextSpells | go-ipc/format.go:45-74 | a big float of any precision prints as the one spelling of its number if and only if its exponent field, if it has one, is below 2^32 |
| GoFormat.BigTextEqual | go-ipc/format.go:45-74 | two finite big floats of any precision and exponent print alike if and only if they are equal, or differ only in exponent fields that are cut to the same eight digits |
| GoFormat.CutExample | go-ipc/format.go:67-71 | 2^(2^32) and 2^(2^33) both print as 1p00000000 |
| GoFormat.BigTextCanonical | go-ipc/format.go:45-74 | with exponent fields below 2^32 two finite big floats print alike if and only if they are equal; at any exponent one prints like the C text of a double if and only if it equals it |
| GoValues.AppendValue | go-ipc/format.go:206-250 | appends the text of any value tree, and fails if and only if some part of it is of a kind it does not know |
| GoValues.AppendArray | go-ipc/format.go:216-229 | brackets around the members in order, or the failure of one of them |
| GoValues.AppendMap | go-ipc/format.go:230-244 | braces around keys and values in iteration order, or the failure of one of them |
| GoValues.BuildEntry | go-ipc/format.go:192-202 | type byte, values in order, newline; fails if and only if some value is of an unknown kind |
| GoTrees.KnownExactly | go-ipc/format.go:206-250 | the kinds `AppendValue` knows are exactly booleans, numbers, strings, bytes, arrays and maps of these, at any depth |
| GoParser.NewParser | go-ipc/parse.go:341-346 | a parser of the whole slice, refused if and only if the slice ends in neither a space nor a newline |
| GoParser.Parser.ReadHex | go-ipc/parse.go:86-116 | the same scan as in C, with an index out of range if and only if the digits run to the end of the slice |
| GoParser.Parser.SkipDigits | go-ipc/parse.go:105-109 | drops all further digits, four bits each |
| GoParser.Parser.ReadExponent | go-ipc/parse.go:118-149 | the exponent, with the limits as the code has them |
| GoParser.Parser.ReadNegative | go-ipc/parse.go:272-304 | the value after a minus sign |
| GoParser.Parser.ReadUnsigned | go-ipc/parse.go:306-338 | the number, string or bytes that starts with a hex field |
| GoParser.Parser.ReadBytes | go-ipc/parse.go:151-161 | succeeds if and only if the length leaves at least the newline; then exactly these bytes |
| GoParser.Parser.ReadNext | go-ipc/parse.go:207-339 | on every slice and at every depth the value, the end of the entry, the error or the crash that the reading function says, with exactly the tail left |
| GoParser.Parser.ReadArray | go-ipc/parse.go:246-256 | the members up to the closing bracket |
| GoParser.Parser.ReadMap | go-ipc/parse.go:227-244 | the entries up to the closing brace, a duplicate, or a key that cannot be compared, as GoMaps.MapTrip and GoForest.CrashesExactly say of the reading function |
| GoParser.KeyKnown | go-ipc/parse.go:238 | a key is known if and only if an equal one was read, where NaN equals nothing |
| GoParser.Parser.ParseEntry | go-ipc/parse.go:357-370 | all values up to the end of the entry, on every slice, the empty one included |
| GoSafety.SafeValue | go-ipc/parse.go:207-339 | on a slice that ends in a newline no read indexes out of range, and what is left after a value ends in a newline again |
| GoSafety.SafeVals | go-ipc/parse.go:357-370 | nor does reading the values of an entry after its type byte, which leaves nothing or another such slice |
| GoSafety.EntryOutOfRange | go-ipc/parse.go:357-370 | reading an entry, type byte included, from a slice that ends in a newline indexes out of range if and only if the slice is a newline and nothing else |
| GoSafety.MessageOutOfRange | cmd/go-server/server.go:30-36 | reading a message that is empty or ends in a newline indexes out of range if and only if the entries before can be read and a lone newline is left |
| GoSafety.StrandedInputs | go-ipc/parse.go:357-370 | a newline alone, and `R` with two newlines behind it, crash the reader |
| GoSafety.StrandedEnd | cmd/go-server/server.go:26-36 | every message that crashes it so is a lone newline or ends in two newlines, which a caller can refuse |
| GoParser.TakeMessage | cmd/go-server/server.go:30-36 | the server's loop over the parser object returns exactly the entries of the message, or the first failure |
| GoNumbers.GoReadsText | go-ipc/parse.go:265-331 | every delimited number text, infinities and fields of any 64-bit size included, is read if and only if it obeys the format's rule, to the value its fields make with exactly the tail left, and answered as invalid otherwise |
| GoNumbers.GoReadsExponent | go-ipc/parse.go:118-149 | an exponent field, on top of any number of significand bits that fell off, reads as their sum modulo 2^64, signed, and as the wrong limit beyond 2^31 - 1 |
| GoScalars.StringField | go-ipc/parse.go:151-161 | any length field, delimiter and tail: the stated bytes and the rest if the length leaves at least one byte, and the error for missing data otherwise |
| GoScalars.ScalarExactly | go-ipc/parse.go:207-338 | a boolean, a string or bytes are read if and only if the text starts with the one spelling of that value, a string with something left |
| GoScalars.NumberSound | go-ipc/parse.go:258-331 | a number, from hex fields of at most 16 digits, is read only from `nan` or a legal number text, as the value its fields make |
| GoNumbers.GoReadsRight | go-ipc/parse.go:118-203 | Go reads a legal number text right (the integer, or the rounded, zero or infinite double) if and only if, without an exponent, it is not below -2^63 and, with one, the exponent is at most 2^31 - 1 in size |
| GoNumbers.GoReadsC | go-ipc/parse.go:258-331 | the text of every 64-bit integer and every double, as C prints it, is read by Go as the same number (NaN as NaN, subnormals as zero) with exactly the tail left |
| GoNumbers.LargeNegativeMisread | go-ipc/parse.go:303 | -ffffffffffffffff comes back as 1 |
| GoNumbers.HugeExponentSwapped | go-ipc/parse.go:135-143 | every legal text with an exponent above 2^31 - 1 is read as a signed zero, and with one below -(2^31 - 1) as a signed infinity |
| GoNumbers.SwappedExample | go-ipc/parse.go:135-143 | 1p80000000 is read as zero, 1p-80000000 as infinity |
| GoTrees.ValueTrip | go-ipc/parse.go:207-339 | a printable tree is read back as a tree of the same meaning with exactly the tail left, if the depth it is read at and its height stay within the limit, and is refused as too deep otherwise |
| GoTrees.ItemsTrip | go-ipc/parse.go:246-256 | the same for the members of an array after those already read |
| GoTrees.EntriesTrip | go-ipc/parse.go:227-244 | the same for the entries of a map whose keys stay apart |
| GoTrees.EqualKeysMean | go-ipc/parse.go:238 | keys that Go calls equal denote the same value, and never NaN |
| GoMaps.MapTrip | go-ipc/parse.go:227-244 | a map of printable members with keys of any kind, within the depth limit, is read back with the same meaning if and only if every key is a boolean, a number or a string and no two keys denote the same value other than NaN; if not, the first failure met is answered: a duplicate, or the crash on a key that is bytes, an array or a map |
| GoMaps.MembersTrip | go-ipc/parse.go:229-242 | the same for entries after those already read |
| GoMaps.Collide | go-ipc/parse.go:238 | two printed keys, booleans, numbers or strings, are equal as read if and only if they denote the same value other than NaN |
| GoForest.TakesExactly | go-ipc/parse.go:207-339 | on any text, the reader takes a value if and only if the text spells it by the grammar of arrays, maps and scalars, its height stays within the limit, and the keys of every map inside are booleans, numbers or strings, and new; exactly the tail is left |
| GoForest.EndsExactly | go-ipc/parse.go:212-214 | a read ends at the end of the entry if and only if the text opens any number of containers within the limit and then has a newline where a value of the innermost should be |
| GoForest.CrashesExactly | go-ipc/parse.go:238 | a read crashes on a key if and only if the text opens any number of containers within the limit and then a map whose next key, read with its value, is bytes, an array or a map |
| GoForest.EntryExactly | go-ipc/parse.go:357-370 | an entry is taken with given values if and only if its text spells them and then opens any number of containers, none if it is whole, before its newline; what is inside those is dropped |
| GoForest.DroppedArray | go-ipc/parse.go:357-370 | `R [ T` and a newline, the array never closed, is read as an entry without values |
| GoForest.StrayCloseRefused | go-ipc/parse.go:306-310 | a closing bracket that closes nothing is answered as invalid, whatever comes behind it |
| GoTrees.EntryTrip | go-ipc/format.go:192-202 | the values of an entry are read back in order, if none is higher than 16, and refused as too deep otherwise |
| GoTrees.MessagesTrip | go-ipc/parse.go:350-370 | a message of any number of entries is read back entry by entry to its end |
| GoLimits.NumberTripExact | go-ipc/format.go:76-152 | an unsigned or signed integer or a double survives Go's printer and reader if and only if its printed significand is below 2^32 |
| GoLimits.SizedTripExact | go-ipc/format.go:154-166 | a string, or bytes, of any length survives Go's printer and reader if and only if its length is below 2^32 |
| GoLimits.NegativeWordInGo | go-ipc/parse.go:272-304 | a negative 64-bit magnitude is read by Go as the same number if and only if it is at most 2^63, or is printed with an exponent and fits 53 bits |
| CrossTrees.CReadsGoTree | libsipc/ipc.c:516-561 | a container printed in Go with hex fields of at most eight digits is accepted by `sipc_any` if and only if at most 16 containers are open at once, with exactly the tail left; its tokens show the same tree if and only if there is no positive infinity inside |
| CrossTrees.ValueLexes | libsipc/ipc.c:406-514 | any value so printed is, to the C token reader, the tokens of a tree of its shape and depth, which shows the same value if and only if there is no positive infinity inside |
| CrossTrees.DepthRulesDiffer | go-ipc/parse.go:205-210 | k arrays around a scalar are read by C if and only if k is at most 16, and read back by Go, at the depth of an entry, if and only if k is at most 15 |
| CrossMessages.GoReadsMessage | go-ipc/parse.go:357-370 | the output of a C format string of scalars is read by Go's entry reader as the same list up to the end of the buffer, if and only if no negative integer was printed as `%p` |
| CrossMessages.EntryInGo | go-ipc/parse.go:357-370 | the same for the values printed from any place in a buffer |
| Handles.WriteFiles | go-ipc/windows.go:182-215 | sends an entry for each handle whose duplication succeeded, in order, then the payload, or nothing if the process cannot be opened; on success it reports the payload's length and all files, on failure of a step nothing |
| Handles.TakeHandles | go-ipc/windows.go:162-176 | succeeds if and only if the handle entries in front are well formed and fit `files`; then `files` holds exactly these handles and the parser stands at the payload |
| Handles.MoveToFront | go-ipc/windows.go:178 | the overlapping copy moves the last bytes to the front and changes nothing behind them |
| Handles.ReadFiles | go-ipc/windows.go:147-180 | succeeds if and only if the parser takes what was received, the handle entries are well formed and they fit; then the handles are in `files` in order and the rest of the message is at the front of the buffer; on failure the buffer is as received |
| Handles.HandlesTrip | go-ipc/windows.go:147-215 | what `WriteFiles` sends is taken apart into exactly the duplicated handles, in order, and exactly the payload, if and only if every handle has a printed significand below 2^32 and the payload does not start with `W` |
| Handles.HandlesExactly | go-ipc/windows.go:162-176 | on any data, handles are taken if and only if it starts with entries of type `W`, and nothing of that type behind them, each empty or with an unsigned integer first; the handles are those integers in order |
| Handles.HandlesInRange | go-ipc/windows.go:162-176 | on data that is empty or ends in a newline, parsing the handle entries never indexes out of range |
| CallOnce.CallOnceSafe | ext/tinycthread/source/tinycthread.c:896-926 | in every interleaving of any number of threads the callback starts at most once, nobody returns before it has finished, nobody reaches the lock before it exists, at most one thread is inside, the winner holds it while the status is 2, and the status never falls |
| CallOnce.RunInv | ext/tinycthread/source/tinycthread.c:904-925 | the invariant behind it, kept by every step of every run |
| CallOnce.NoDeadlock | ext/tinycthread/source/tinycthread.c:904-925 | the winner is never kept waiting, and some thread can step until all have returned |
| CallOnce.CallbackRuns | ext/tinycthread/source/tinycthread.c:904-919 | from the start, after more than two steps for every thread one has won the exchange, and once that one has been picked seven times more, whatever the others do, the callback has been called once and has finished, and its caller has returned |
| CallOnce.WaitsForCallback | ext/tinycthread/source/tinycthread.c:920-925 | a thread that comes while the status is 2 takes at most three steps and then waits for the lock until it changes |
| CallOnce.AllReturn | ext/tinycthread/source/tinycthread.c:904-925 | once the callback is done the number of steps left is bounded whatever the schedule, and a run has taken them all if and only if every thread has returned |
| Mutex.MutualExclusion | ext/tinycthread/source/tinycthread.c:105-133 | in every interleaving at most one thread holds the mutex, a plain mutex is held at most once, and the flag is set only while the section is owned by the holder |
| Mutex.RunInv | ext/tinycthread/source/tinycthread.c:230-281 | the invariant behind it, kept by every lock, trylock and unlock step of every run |
| Mutex.TryLockRun | ext/tinycthread/source/tinycthread.c:230-260 | trylock on a plain mutex by a thread that gets into the section, with any steps of others in between, answers busy if the caller held the mutex and success if not, and leaves it held once, marked and one deep |
| Mutex.OwnerTryLock | ext/tinycthread/source/tinycthread.c:230-260 | for the holder it answers busy and leaves everything else, the recursion depth included, as it was |
| Mutex.LockRun | ext/tinycthread/source/tinycthread.c:105-133 | mtx_lock on a plain mutex by a thread that does not hold it and finds the section free never waits on the flag, and the thread holds the mutex three steps later, whatever others do |
| Mutex.RecursiveLockRun | ext/tinycthread/source/tinycthread.c:105-133 | mtx_lock on a recursive mutex, with any steps of others in between: a thread that finds the section free or its own holds one lock more, and owns the section as deep as the locks it holds; one that does not goes on waiting |
| Mutex.RecursiveTryLockRun | ext/tinycthread/source/tinycthread.c:230-260 | trylock on a recursive mutex answers success if and only if the section is free or the caller's, with that effect, and busy otherwise, changing nothing else |
| Mutex.UnlockRun | ext/tinycthread/source/tinycthread.c:262-281 | unlock by a holder of a plain or recursive mutex, with any steps of others in between, lowers the depth by one, clears the flag and frees the section exactly when it was the last lock |
| Mutex.SelfDeadlock | ext/tinycthread/source/tinycthread.c:105-133 | mtx_lock on a plain mutex by the thread that holds it enters the section again and then never gets out, whatever the schedule |

## Left out

- CrossMessages.GoReadsMessage: scalar arguments only, as is CrossMessages.EntryInGo; what Go makes of a container that C printed as `%p` is not stated.
- CrossMessages.EntryInGo: scalar arguments only.
- BoundedFormat.VFormat: the format string is a sequence of pieces with their arguments; `va_list` and the spelling of directives are not modelled. Arguments after a raw copy that is not written would be misread (libsipc/ipc.c:822-825) and are excluded. The sum of lengths does not wrap an int.
- BoundedFormat.FormatString: string lengths are taken not to be negative; the C function hands a negative one to `memcpy`.
- Handles.WriteFiles: opening the process, duplicating a handle and writing to the pipe are outcomes given as parameters, and errors are one flag.
- CallOnce.CallOnceSafe: memory reordering below the level of whole reads and writes is not modelled.
- Mutex.MutualExclusion: unlocking by a thread that does not hold the mutex is not modelled; the C standard leaves it undefined.
- GoValues.AppendValue: values of unknown kinds are one value that is refused; reflection is not modelled further, and `reflect.ValueOf(nil)` crashes.
- CrossTrees.CReadsGoTree: values whose hex fields Go cuts to eight digits are excluded, as in CrossTrees.ValueLexes.
- CrossTrees.ValueLexes: values whose hex fields Go cuts to eight digits are excluded.
- `sipc_int`, `sipc_uint`, `sipc_float`, `sipc_peek`: range checks and conversions on top of the readers modelled.
- `sipc_frame` and `sipc_unframe`: the shift inside `hex_value` (libsipc/ipc.c:926) and the reversed size test (libsipc/ipc.c:928) leave nothing to prove but their failure.
- `ipc_parse_handles`, sockets, descriptor passing, pipes, the command programs and the prompt.
- tinycthread's timed mutexes, condition variables, thread-specific storage, thread creation and POSIX wrappers.
- UTF-8 validity of strings, which neither parser checks.
