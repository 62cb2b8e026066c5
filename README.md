# Slice-expression parser

This project models the slice-expression parser of a `cut`-like field selector. The parser turns
Python-style slice strings such as `1:10:2`, `::-1`, `-3:`, `5` or the empty string into `Range`
values. A `Range` holds two relative bounds (`Index`: `Head(n)` counts from the start, `Tail(n)`
counts back from the end, `Empty` is a bound left out), a step magnitude and a `reversed` flag.
A whole list of slice strings is parsed in order into the list of ranges.

The modules follow the source:

- `Wrappers`: `Option` and `Result`.
- `Text`: Rust's `str::split` with a `char` pattern and `str::trim`, which the parser applies first.
- `IntText`: Rust's `str::parse::<isize>` on a 64-bit target. It accepts an optional `+` or `-`
  followed by one or more ASCII digits whose value fits in an `isize`. It also holds the decimal
  rendering used to state round trips.
- `Ranges`: `Index`, `Range`, `Range::new`, `Range::is_reversed`, `PartialEq for Range`,
  `Index::new` and `FromStr for Index`.
- `SliceParser`: `_parse` as the pure function `ParseSlice`, and `parse` as the imperative method
  `ParseAll`. `ParseAll` pushes ranges onto a list in a `for` loop and is proved against the
  specification functions `Outcomes` and `Kept`.

The model follows the code, including these behaviours:

- A step written as `0` is not an error. `Range::new` returns `None`, `_parse` returns `Ok(None)`,
  and `parse` silently skips that slice.
- A third or later `:` is not rejected. Everything after the third part is never read.
- `Index` has an explicit `Empty` variant for a bound that was left out. Empty bounds are not folded
  into `Head(0)` or `Tail(0)`.
- Ranges whose bounds provably select nothing are not dropped at parse time. The code has no such
  check.
- There is a single error, `ParseRangeError`, for every malformed part. There is no separate
  integer-parse error.
- A rejected slice makes `parse` panic. It is not returned as a typed error.

## Model

| member | source | states |
|---|---|---|
| `Ranges.NewRange` | src/range.rs:13-29 | `None` exactly when the step is 0; otherwise the bounds are kept, the stored step is at least 1 and, signed by the `reversed` flag, reads back as the given step |
| `Ranges.Range.IsReversed` | src/range.rs:31-33 | `is_reversed` returns the `reversed` flag; `Ranges.NewRangeIsReversed` states that it holds exactly for a negative step |
| `Ranges.NewRangeIsReversed` | src/range.rs:16-33 | a range built by `Range::new` is reversed (`is_reversed`) exactly when its step was negative |
| `Ranges.NewRangeSignedStep` | src/range.rs:13-29 | every range with step at least 1 and a signed step that fits in `isize` is what `Range::new` builds from its fields |
| `Ranges.Range.Equals` | src/range.rs:36-44 | `PartialEq::eq`: both steps 0, or all four fields equal; `Ranges.EqualsReflexive`, `Ranges.EqualsSymmetric`, `Ranges.EqualsTransitive`, `Ranges.EqualsZeroStep` and `Ranges.EqualsStructural` state its properties |
| `Ranges.EqualsReflexive` | src/range.rs:36-44 | range equality is reflexive |
| `Ranges.EqualsSymmetric` | src/range.rs:36-44 | range equality is symmetric |
| `Ranges.EqualsTransitive` | src/range.rs:36-44 | range equality is transitive, so it is the equivalence that the derived `Eq` claims |
| `Ranges.EqualsZeroStep` | src/range.rs:38 | any two step-0 ranges are equal, whatever their bounds and direction |
| `Ranges.EqualsStructural` | src/range.rs:36-44 | once either range has a non-zero step (as every range from `Range::new` has), equality is field-wise equality |
| `Ranges.NewIndex` | src/range.rs:54-59 | never `Empty` nor `Tail(0)`; a non-negative index counts from the head, a negative one from the tail, and the bound reads back as the given index |
| `Ranges.NewIndexSignedOffset` | src/range.rs:54-59 | `Index::new` is the inverse of reading a bound back as a signed integer, on every bound it can produce |
| `Ranges.IndexFromStr` | src/range.rs:65-70 | `Empty` exactly for the empty string; failure exactly for non-empty text that `str::parse::<isize>` rejects; otherwise `Index::new` of the parsed value; never `Tail(0)` |
| `Ranges.IndexFromShowInt` | src/range.rs:65-70 | the decimal text of a non-negative `i` reads as `Head(i)`, that of a negative `i` as `Tail(-i)`, for every `i` within `isize` |
| `Ranges.IndexFromMinusZero` | src/range.rs:56-68 | `-0` is zero and counts from the head: it reads as `Head(0)` |
| `IntText.ParseIsize` | src/range.rs:68 | an accepted text is integer syntax, and a negative value comes only after a leading `-` |
| `IntText.ParseIsizeDigits` | src/range.rs:68 | on any integer text (optional `+` or `-`, then digits, leading zeros allowed) the parser returns the digits' value, negated after `-`, when it fits in `isize`, and rejects it otherwise |
| `IntText.ParseShowInt` | src/range.rs:68 | round trip: the integer parser reads the decimal rendering of `i` back as `i` exactly when `i` fits in `isize`, and rejects it otherwise |
| `IntText.ShowNatValue` | src/range.rs:68 | the decimal rendering of a natural number is all digits and evaluates back to that number |
| `IntText.IntTextPlain` | src/range.rs:74 | integer text has no `:` and no white space at its ends, so splitting and trimming leave it alone |
| `IntText.ShowIntIsIntText` | src/range.rs:68 | the rendering of any integer is integer syntax |
| `Text.Split` | src/range.rs:74 | splitting always yields at least one piece, even for the empty string |
| `Text.SplitPieces` | src/range.rs:74 | one piece more than there are separators; no piece contains the separator; joining the pieces with the separator gives back the input |
| `Text.SplitJoin` | src/range.rs:74 | splitting undoes joining whenever no piece contains the separator |
| `Text.SplitNoSeparator` | src/range.rs:74 | a string without the separator splits into itself alone |
| `Text.SplitPrefix` | src/range.rs:74 | a separator-free prefix followed by a separator splits off as the first piece |
| `Text.Trim` | src/range.rs:74 | `str::trim`: leading and trailing white space cut off; `Text.TrimCutsPadding` states what is kept |
| `Text.TrimStartCuts` | src/range.rs:74 | the leading cut keeps a suffix that does not start with white space and drops only white space |
| `Text.TrimEndCuts` | src/range.rs:74 | the trailing cut keeps a prefix that does not end with white space and drops only white space |
| `Text.TrimCutsPadding` | src/range.rs:74 | a trimmed part has no white space at its ends and is a piece of the input surrounded by white space only |
| `Text.TrimUnpadded` | src/range.rs:74 | trimming leaves a string with no white space at its ends unchanged |
| `Text.TrimAllWhitespace` | src/range.rs:74 | a part of white space only trims to the empty string |
| `Text.TrimIdempotent` | src/range.rs:74 | trimming twice is trimming once |
| `SliceParser.Parts` | src/range.rs:74 | there is one trimmed part per split piece, so always at least one |
| `SliceParser.PartsOfJoin` | src/range.rs:74 | a slice made of separator-free pieces has those pieces, trimmed, as its parts |
| `SliceParser.ParsedFrom` | src/range.rs:76-92 | what `_parse` promises about the three texts it reads: failure exactly when a bound text is malformed or a present, non-empty step text is; `Ok(None)` exactly when the step text parses to 0; otherwise the bounds the texts denote and the signed step the step text spells (1 when it is absent or empty), with a magnitude of at least 1 |
| `SliceParser.ParseTextsSpec` | src/range.rs:76-92 | the body of `_parse` after splitting (`SliceParser.ParseTexts`) meets `SliceParser.ParsedFrom` for whatever three texts it is given |
| `SliceParser.ParseSlice` | src/range.rs:73-93 | `_parse`: the three trimmed texts read as start, end and step, then `Range::new`; `SliceParser.ParseSliceSpec` states when it fails, when it returns `Ok(None)` and which range, bounds and signed step, it returns |
| `SliceParser.ParseSliceSpec` | src/range.rs:73-93 | `_parse` meets `SliceParser.ParsedFrom` on the start, end and step parts of the slice: it fails exactly when one of them is malformed, returns `Ok(None)` exactly when the step parses to 0, and otherwise returns the range with the bounds the first two parts denote and the signed step the third spells (1 when absent or empty) |
| `SliceParser.TextsOfOne` | src/range.rs:74-86 | with no `:`, the start is the trimmed slice, the end text is empty and there is no step part |
| `SliceParser.TextsOfTwo` | src/range.rs:74-86 | with one `:`, the two trimmed pieces are start and end and there is no step part |
| `SliceParser.TextsOfThree` | src/range.rs:74-86 | with two `:`, the three trimmed pieces are start, end and step |
| `SliceParser.ParseSliceOnePart` | src/range.rs:76-92 | a slice with no `:` is a start bound alone: the end is `Empty` and the step is 1, forward; a malformed start is an error |
| `SliceParser.ParseSliceTwoParts` | src/range.rs:76-92 | a slice with one `:` has a start and an end and step 1, forward; a malformed bound is an error |
| `SliceParser.ParseSliceEmptyStep` | src/range.rs:86-88 | a step part of white space only counts as absent: `a:b:` parses exactly as `a:b` |
| `SliceParser.ParseSliceIgnoresExtraParts` | src/range.rs:86-90 | everything after a third `:` is never read: the slice parses exactly as its first three parts do |
| `SliceParser.FormatIndexParses` | src/range.rs:65-70 | every bound that `FromStr for Index` can produce is read back from its canonical text, which has no `:` and no padding |
| `SliceParser.ParseTextsValid` | src/range.rs:76-92 | three well-formed texts give the range with the bounds they denote and the step they spell, through `Range::new` |
| `SliceParser.ParseSliceFormat` | src/range.rs:73-93 | round trip: every `Parseable` range (bounds within `isize`, a `Tail` bound non-zero, a non-zero step within `isize`) is parsed back from its canonical `start:end:step` text |
| `SliceParser.ParseSliceParseable` | src/range.rs:73-93 | every range `_parse` returns is `Parseable` |
| `SliceParser.ParseSliceReparse` | src/range.rs:73-93 | round trip from the text side: the canonical text of whatever range `_parse` makes of a slice parses to that same range |
| `SliceParser.ExampleStepTwo` | src/range.rs:73-93 | `1:10:2` is `Head(1)` to `Head(10)`, step 2, forward |
| `SliceParser.ExampleReversed` | src/range.rs:73-93 | `::-1` is `Empty` to `Empty`, step 1, reversed |
| `SliceParser.ParseSliceFromTail` | src/range.rs:73-93 | `-n:` (for instance `-3:`) is `Tail(n)` to `Empty`, step 1, forward, for every `n` within `isize` |
| `SliceParser.ExampleStartOnly` | src/range.rs:73-93 | `5` is `Head(5)` to `Empty`, step 1, forward |
| `SliceParser.ExampleEmpty` | src/range.rs:73-93 | the empty slice is `Empty` to `Empty`, step 1, forward |
| `SliceParser.ExampleZeroStep` | src/range.rs:86-92 | `1:2:0` gives `Ok(None)`: a zero step is dropped, not reported |
| `SliceParser.ExampleMalformed` | src/range.rs:76-80 | `a:1` is an error |
| `SliceParser.Outcomes` | src/range.rs:98-99 | one `_parse` outcome per slice |
| `SliceParser.OutcomesAt` | src/range.rs:98-99 | the `i`-th outcome is `_parse` of the `i`-th slice |
| `SliceParser.OutcomesAppend` | src/range.rs:98 | the outcomes of a concatenation are those of its two halves, in order |
| `SliceParser.OutcomesStep` | src/range.rs:98-105 | one more slice appends its outcome, and its range if it has one, at the end |
| `SliceParser.ParseAll` | src/range.rs:95-109 | succeeds exactly when every slice is accepted, and then returns the kept ranges in input order; otherwise it fails naming a slice that `_parse` rejects and before which every slice was accepted, that is, the first rejected one |
| `SliceParser.KeptAppend` | src/range.rs:100-101 | the kept ranges of a concatenation are those of its halves, in order |
| `SliceParser.KeptLength` | src/range.rs:95-109 | when every slice is accepted, exactly the zero-step slices are dropped, so there are never more ranges than slices |
| `SliceParser.KeptFrom` | src/range.rs:99-100 | every kept range is the range of some outcome |
| `SliceParser.KeptSteps` | src/range.rs:95-109 | every range `parse` returns has step at least 1 |
| `SliceParser.KeptPointwise` | src/range.rs:95-109 | with no zero step among them, the `k`-th range returned is the range of the `k`-th slice |

## Left out

- src/main.rs, src/args.rs and src/logger.rs: file and stdin I/O, command-line argument handling and a global logger. None of them calls the parser.
- The `Display` text of `ParseRangeError` (src/error.rs): it is a fixed message; the error is the unit value `ParseRangeError`.
- The `panic!` in `parse` is modelled as the failure value `CouldNotParse(slice)`, carrying the slice its message names, instead of process termination.
- Resolving `Head`, `Tail` and `Empty` against a field count and iterating the selected offsets: no code for it is part of this model.
- `ParseSlice`: the lazy split iterator advanced by three `next()` calls is modelled as indexing into the full sequence of trimmed parts; parts after the third are computed but never read, which gives the same result.
- `ParseAll`: Rust's ownership of the `Vec` and its `String`s is not modelled; the list is a sequence that the loop reassigns.
- `IntText.ParseIsize`: models the standard library's `str::parse::<isize>` on a 64-bit target by its documented syntax; its contract states only the syntax and sign facts, and `IntText.ParseIsizeDigits` states what it returns on every integer text.
- `Text.Split` and `Text.Trim`: model the standard library's `str::split` with a `char` pattern and `str::trim` on sequences of characters; UTF-8 byte offsets are not modelled.
