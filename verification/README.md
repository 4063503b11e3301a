# NumberForm: 128-bit OID arcs, in Dafny

A model of the numeric core of go-objectid. A `NumberForm` is the value of one
arc of an OBJECT IDENTIFIER. It is an unsigned 128-bit number, wide enough for
UUID-based arcs. It is stored as two 64-bit halves `lo` and `hi`, plus a
`parsed` flag that separates a constructed value from Go's zero value. The
model covers these parts:

- construction from a string, an `int` or a `uint64`, with its error cases;
- the comparisons `Equal`, `Gt` and `Lt`, which accept the same kinds of operand;
- the bit length (`leadingZeros`, `len`);
- division by a 64-bit divisor (`quoRem64` over `bits.Div64`);
- decimal rendering (`String`), which writes 19-digit chunks into a
  40-byte buffer;
- the helpers in `misc.go`: `isNumber`, the two slice-equality loops,
  `strInSlice`, `condenseWHSP`, and `sscan`, the range gate behind
  string construction.

Modules, one concept each:

- `Wrappers`: `Option` and `Result`.
- `Arith`: the `u64`/`i64` ranges, the powers of 2 and 10, and `BitLen`.
  It also holds the small arithmetic lemmas the proofs rest on.
- `Decimal`: digit strings, their value `DecValue`, and the canonical
  rendering `Render`, which has no leading zeros and is "0" for zero.
- `Misc`: `misc.go`.
- `NumberForms`: `nf.go`.
- `CondenseFinding`: `condenseWHSP` as written, on non-ASCII bytes.

Go's `any` operand is the closed datatype `Operand`, with the cases `NF`,
`Str`, `U64`, `Int` and `Unsupported`. Go's `(value, error)` result is the
datatype `Made`. Strings are Go byte strings, one `char` per byte. A Go `int`
is the 64-bit range `i64`. Integers are unbounded in Dafny, so every 64-bit
quantity carries its range explicitly.

`String` ends in a `for` loop with no condition, whose body returns once the
quotient reaches zero. The model writes this as a first chunk, then a
`while` loop that runs while the quotient is non-zero. Each turn of either
loop divides by 10^19 and writes the remainder's digits with `WriteChunk`.
This does the same divisions and the same writes in the same order.

A string operand is read as big.Int reads it, with an optional sign. So
`"+5"` constructs 5, and `"-0"` constructs a valid zero, because big.Int
gives zero a non-negative sign (`NumberForms.MinusZeroIsAccepted`). A
negative value is refused, as the documentation says (nf.go:193-194,
misc.go:149-150).

Where the documentation of the system and the code disagree, the model
follows the code:

- `condenseWHSP` is documented to condense runs of white space
  (misc.go:112-115). The loop condenses only runs of the space character;
  tabs and newlines inside the string are kept as they are
  (`Misc.Condense`).
- The tests call `Ge` and `Le` (nf_test.go:92-135), but `nf.go` defines
  only `Equal`, `Gt` and `Lt`. The model has no "or equal" variants.

`isNumber` applies `unicode.IsDigit` to one byte at a time. No code point below
U+0100 other than 0-9 is a decimal digit, so the ASCII digit test of the model
is exact there.

## Model

| member | source | states |
|---|---|---|
| NumberForms.ValueBelow | nf.go:18-27 | every NumberForm stands for a number below 2^128 |
| NumberForms.HalvesCompareAsValues | nf.go:73-77 | comparing the high halves first, then the low halves, is comparing the 128-bit values, for both greater-than and equality |
| NumberForms.IsZero | nf.go:29-38 | true exactly when the value is 0, whether or not the value was constructed |
| NumberForms.NewNumberForm | nf.go:189-212 | a uint64 is taken as it is; a negative int fails and a non-negative one is taken as it is; a string succeeds exactly when it scans to an integer in [0, 2^128), with that value; on every error the result is the unconstructed zero; other operand types give the zero value and no error; the value is valid exactly when construction succeeded on a string, int or uint64 |
| NumberForms.Valid | nf.go:115-120 | true exactly when the value carries the constructed flag; Go's zero value is never valid |
| NumberForms.ZeroValueAndParsedZero | nf.go:115-120 | the zero value and a constructed zero (from 0 or "0") are both zero, and only the constructed one is valid |
| NumberForms.MinusZeroIsAccepted | nf.go:196-200 | a leading sign is read: "-0" constructs a valid zero with no error, "+5" constructs 5, while "-1" fails with the negative-value error |
| NumberForms.Equal | nf.go:40-63 | a NumberForm operand must match the whole record, flag included; a string must scan and then needs a valid receiver with the scanned value; a uint64 or non-negative int must equal the value; a negative int or an unsupported operand is never equal |
| NumberForms.Gt | nf.go:65-87 | as written: the numeric order for a NumberForm or string operand; for a uint64 or int operand, the numeric order only when the receiver's high half is zero; false for a negative int, an unscannable string or an unsupported operand |
| NumberForms.Lt | nf.go:89-113 | the numeric order for every supported operand; false for a negative int, an unscannable string or an unsupported operand |
| NumberForms.CompareNumberForms | nf.go:71-113 | between NumberForms, Gt and Lt are converses of each other and irreflexive, never both hold, and one of Gt, Lt or equal value always holds |
| NumberForms.UnorderedOperandsCompareFalse | nf.go:40-113 | a negative int, a string that does not construct, or an unsupported operand makes Equal, Gt and Lt all false |
| NumberForms.GtIntended | nf.go:79-84 | corrected Gt: the numeric order for a uint64 or int operand as well; it agrees with Gt on every other operand kind |
| NumberForms.GtMissesWideReceivers | nf.go:79-84 | every receiver with a non-zero high half exceeds any uint64 or non-negative int operand, yet Gt as written says it does not; the corrected Gt says it does |
| NumberForms.LeadingZeros64 | nf.go:126-131 | the leading-zero count n of a 64-bit word is pinned by powers of two: x < 2^(64-n), and 2^(63-n) <= x when n < 64 |
| NumberForms.LeadingZeros | nf.go:122-131 | counting the high half first, then 64 plus the low half's count, gives 128 minus the bit length of the 128-bit value; it is 128 exactly when the value is 0 |
| NumberForms.Len | nf.go:133-139 | the bit length of the value, at most 128, and 0 exactly for a zero value |
| NumberForms.Div64 | nf.go:173-182 | with a divisor above the high word, quotient times divisor plus remainder is the 128-bit dividend, and the remainder is below the divisor |
| NumberForms.QuoRem64 | nf.go:173-182 | quotient value times v plus remainder is the value, the remainder is below v, and the quotient is not marked constructed |
| NumberForms.WriteChunk | nf.go:152-156 | the inner loop writes the digits of r into the zeros just below position i; they read back as r, with no leading zero when r > 0; nothing at or above i changes, and at most 19 places are used |
| NumberForms.ChunkNext | nf.go:153-156 | one digit step keeps the inner loop's accounting: digits written plus the rest still to write, weighted by 10^n, equal r |
| NumberForms.NextWindow | nf.go:150-160 | moving the write position down by 19 keeps the value accounted for, and the remaining quotient still fits below the new position |
| NumberForms.String | nf.go:141-162 | "0" for a zero or unconstructed value; otherwise exactly the canonical decimal of the value (no leading zeros) |
| NumberForms.StringRoundTrip | nf.go:141-162 | constructing from the rendered text of a valid value gives back the same value, valid, with no error |
| NumberForms.ScanRenderRoundTrip | nf.go:196-200 | a canonical decimal below 2^128 constructs without error, and rendering the result gives the text back |
| Misc.IsNumber | misc.go:60-74 | true exactly for a non-empty string of decimal digits |
| Misc.SliceEqual | misc.go:76-110 | true exactly when the two slices are non-empty and equal element by element; two empty slices are not equal |
| Misc.StrInSlice | misc.go:46-58 | true exactly when the string and the slice are non-empty and some element equals the string up to case |
| Misc.TrimSpace | misc.go:117-119 | the result neither starts nor ends with white space |
| Misc.TrimSpaceRemovesOnlySpace | misc.go:117-119 | the result is a contiguous part of the input, and everything cut off on either side is white space |
| Misc.Condense | misc.go:121-136 | reference condensing: never longer than the input, and it keeps the first and last character |
| Misc.CondenseNoDoubleSpace | misc.go:112-136 | condensed text never holds two spaces in a row |
| Misc.CondenseKeepsNonSpaces | misc.go:121-136 | condensing keeps every character other than space, in order |
| Misc.CondenseOfCondensed | misc.go:121-136 | text without two spaces in a row is left unchanged |
| Misc.CondenseIdempotent | misc.go:121-136 | condensing twice is condensing once |
| Misc.CondenseWhsp | misc.go:112-139 | the loop computes the reference condensing of the trimmed input; the result has no double space and no white space at either end, keeps every non-space character in order, and is no longer than the input |
| Misc.CondenseWhspIdempotent | misc.go:112-139 | trimming and condensing an already condensed result changes nothing |
| Misc.Sscan | misc.go:141-157 | text that does not scan is an error; a negative integer is the negative-value error; one of 2^128 or more is the overflow error; otherwise the (lo, hi) halves recombine to exactly the scanned value |
| CondenseFinding.CondenseAsWritten | misc.go:121-136 | the loop as written, appending string(rune(byte)), agrees with the reference condensing on ASCII input |
| CondenseFinding.CondenseAsWrittenGrows | misc.go:121-136 | on the two bytes of UTF-8 "é" the loop as written returns four bytes, more than its input and more than the reference condensing |

## Left out

- Scan (nf.go:164-171): this is only the `fmt.Scanner` hook. Its logic, `sscan`, is modelled as `Misc.Sscan`.
- Misc.ScanInteger: the lexing of fmt.Sscan and big.Int.Scan is modelled as an optional sign followed by decimal digits. Base-0 scanning (a leading 0 read as octal; the 0x, 0b and 0o prefixes; underscores), skipping leading white space, and ignoring trailing text are not modelled. Within decimal digit strings that have no leading zero, the two agree.
- Misc.EqualFold: ASCII case folding only. Go's strings.EqualFold also folds non-ASCII letters.
- Misc.TrimSpace: the ASCII white-space set only. Go's strings.TrimSpace also trims U+0085, U+00A0 and the other Unicode spaces.
- Misc.Condense: the reference condensing keeps bytes as they are. The byte-to-rune re-encoding of the code as written is modelled separately, as CondenseFinding.CondenseAsWritten (see Findings).
- CondenseFinding.CondenseAsWrittenGrows: it applies only the condensing loop, not the trimming before it. The input has no white space, so trimming keeps it unchanged.
- Lt: the `printf` of the scan error in the string case is output only, so it is dropped.
- errorf, printf, sprintf and the table of standard-library aliases (misc.go:12-44) are not modelled. Errors are the three `ScanError` values rather than message strings.
- NumberForms.QuoRem64: a zero divisor makes Go's bits.Div64 panic (nf.go:178). The requires excludes it, because the only caller, String, always divides by 10^19 (nf.go:151).
- IsZero: the `&a == nil` test cannot succeed for a value receiver, so it is dropped.
- Dot notation, name-and-number forms and whole OIDs are not part of this model.

## Findings

| source | as written | input that shows it | evidently intended | confidence | as-written member | corrected member |
|---|---|---|---|---|---|---|
| nf.go:79-84 | Gt with a uint64 or int operand returns `a.lo > tv && a.hi == 0` | receiver 2^64 (hi 1, lo 0) against uint64 0: Gt says false | `a.hi > 0 \|\| a.lo > tv`, the numeric order, as in the NumberForm and string cases | high, not executed | NumberForms.GtMissesWideReceivers | NumberForms.GtIntended |
| misc.go:121-136 | each kept byte is appended as `string(rune(b[i]))` | the UTF-8 bytes of "é" (C3 A9) come out as four bytes C3 83 C2 A9 | append the byte itself, so non-ASCII text passes through unchanged | high, not executed | CondenseFinding.CondenseAsWrittenGrows | Misc.CondenseWhsp |
