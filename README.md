# cuts — a Dafny model

`cuts` is a clone of Unix `cut` with a richer selection syntax. It reads
standard input and splits it into records. A record is a line split into
fields by a regular-expression delimiter, a line split into its Unicode
scalar values, or the whole input taken byte by byte. It then prints the
elements picked by a comma-separated list of zero-based indices and
half-open ranges. An index or range bound may be negative, which counts
from the end; a bound left out stands for the matching extreme.

This project models the core of `cuts`:

- the selection parser of the command-line program: `parse_selections`,
  `parse_selection`, `parse_int`, `parse_range_bound` and the `CutsError`
  variants;
- the library crate;
  - how a selection term resolves against a record's length
    (`to_concrete_index`, `to_concrete_range`);
  - the three tokenizers (fields with the only-delimited filter, characters
    as their UTF-8 forms, bytes);
  - the per-record projection;
  - the output loop of `cuts`.

Modules, one per file:

| file | module | what it holds |
|---|---|---|
| `common.dfy` | `Common` | `Option`, `Result`, `byte` |
| `seqs.dfy` | `Seqs` | concatenation, joining, counting and Rust's left-to-right, non-overlapping `str::split` |
| `selections.dfy` | `Selections` | `Selection`, `Span`, index and range resolution |
| `parser.dfy` | `SelectionParser` | `CutsError`, the parser, and a printer that is its inverse |
| `utf8.dfy` | `Utf8` | the UTF-8 encoder (section 3 of RFC 3629) and a strict decoder used as its partner |
| `tokenizers.dfy` | `Tokenizers` | the line, field, character and byte tokenizers |
| `projection.dfy` | `Projection` | slicing a record by a selection; rendering and writing one record |
| `pipeline.dfy` | `Pipeline` | the configuration, tokenizer dispatch, the run over all records, and the `Cuts` method |

Behaviour the model makes explicit:

- **Inverted ranges panic.** A range term can resolve to a span whose start
  lies after its end, for example `3..1` on four fields. Slicing
  `elements[start..end]` then panics and the process ends. The model returns
  `Err(SliceIndexOrderFail(start, end))` for the first such term. `Cuts`
  stops there and reports the panic; everything written up to that record
  stays written (`Projection.Project`, `Selections.InvertedIff`,
  `Selections.DescendingRangeInverts`). Resolution does not guarantee
  `start <= end`.
- **Every element is followed by the output delimiter,** the last one
  included, and then a newline (`src/lib.rs:45-49`). The line ends with the
  delimiter, then the newline; it is not a join.
  `Projection.RenderIsJoinWithTrailing` states how it relates to a join.
- **Integers are 64-bit `isize`.** Values outside
  `-2^63 .. 2^63 - 1` are `NonIntegerSelection` errors, as Rust's `parse`
  reports overflow.
- **Splitting is leftmost-first and without overlap** (`Seqs.SplitLeftmost`).
  `1...2` splits into `1` and `.2`, and `.2` is a `NonIntegerSelection`
  (`SelectionParser.ThreeDots`). Likewise `1...` fails on `.` and `...` fails
  on `.`, and `1.5..2` fails on `1.5`.

## Model

| member | source | states |
|---|---|---|
| `Selections.ToConcreteIndex` | src/lib.rs:122-131 | an index resolves exactly when `-n <= i < n`, always to a position below `n`: non-negative indices to themselves, negative ones to `n + i` |
| `Selections.ResolvesTo` | src/lib.rs:122-131 | each position `p < n` is named by exactly the two indices `p` and `p - n` |
| `Selections.ResolveBound` | src/lib.rs:111-116 | a resolved range bound never exceeds the record length |
| `Selections.ToConcreteRange` | src/lib.rs:104-120 | both ends of a span lie within the record; a single index gives at most one element, exactly when it resolves, at the resolved position |
| `Selections.RangeEnds` | src/lib.rs:110-118 | a missing or unresolvable start becomes 0 and a missing or unresolvable end becomes the length; a bound that resolves gives its position |
| `Selections.WholeRange` | src/lib.rs:110-117 | `..` and `..n` on `n` elements both cover the whole record |
| `Selections.InvertedIff` | src/lib.rs:104-120 | a span is inverted iff the term is a range whose two bounds are present, both resolve, and the start resolves past the end |
| `Selections.FromEnd` | src/lib.rs:110-117 | `-k..` starts `k` elements before the end, or at the front when there are fewer, and ends at the end |
| `Selections.DescendingRangeInverts` | src/lib.rs:110-117 | `3..1` on four elements gives the inverted span `3..1` |
| `Seqs.SplitOn` | src/main.rs:119 | splitting always yields at least one part; what the parts are is stated by `JoinSplit` and `SplitLeftmost` together |
| `Seqs.SplitLeftmost` | src/main.rs:119 | cuts are leftmost and do not overlap: no part contains the separator, and no occurrence of the separator begins inside a part that is followed by a cut |
| `Seqs.FlattenSingletons` | src/lib.rs:101 | a sequence of one-element sequences, one per element of `s`, concatenates back to `s` |
| `Seqs.JoinSplit` | src/main.rs:123 | joining the parts of a split with the separator gives back the input |
| `Seqs.SplitJoin` | src/main.rs:119 | splitting a join of parts that do not contain the separator's first element gives back the parts |
| `Seqs.SplitSingleIff` | src/main.rs:123-126 | a split has one part iff the separator does not occur, and that part is the input |
| `Seqs.SplitCount` | src/main.rs:119 | splitting on one character yields one more part than the character's occurrences |
| `Seqs.SplitTrailing` | src/main.rs:119 | a trailing separator adds one empty last part |
| `SelectionParser.ParseInt` | src/main.rs:135-139 | text parses iff it is one optional `+` or `-` followed by at least one ASCII digit and nothing else, and its signed decimal value fits `isize`; a success is exactly that value; any failure is `NonIntegerSelection` of the text |
| `SelectionParser.LeadingZerosValue` | src/main.rs:137 | leading zero digits do not change the value of a digit string |
| `SelectionParser.ParseDigits` | src/main.rs:135-139 | digit text whose value fits parses to that value, with a `+` to the same value and with a `-` to its negation |
| `SelectionParser.ParseLeadingZeros` | src/main.rs:135-139 | leading zeros are accepted and ignored, signed or not (`007`, `+007`, `-007`) |
| `SelectionParser.NegativeZero` | src/main.rs:135-139 | `-0` parses to 0 |
| `SelectionParser.SignWithoutDigits` | src/main.rs:135-139 | the empty text, a lone `+` and a lone `-` are each `NonIntegerSelection` of that text |
| `SelectionParser.ParseRangeBound` | src/main.rs:141-147 | empty text is the omitted bound; any other text is present exactly when it parses as an integer, with that integer |
| `SelectionParser.ParseSelection` | src/main.rs:122-133 | a component fails only with a `NonIntegerSelection` or with the `MalformedSelection` of its whole text |
| `SelectionParser.ParseSelectionCases` | src/main.rs:122-133 | with no `..` the term is the single index `ParseInt` gives; with one `..` the text is `start..end` and the term is the range of both bounds, the start's error first; with more, exactly `MalformedSelection` of the whole text |
| `SelectionParser.Collect` | src/main.rs:119 | collecting results succeeds iff every result is `Ok`, with one value per result in order; otherwise it is the first error |
| `SelectionParser.CollectAll` | src/main.rs:119 | results that are each `Ok` of the matching value collect to exactly those values |
| `SelectionParser.ParseSelections` | src/main.rs:118-120 | a selection parses iff every comma-separated component does; it then has one term per component (one more than its commas), term `i` parsed from component `i`; otherwise it fails with the error of the first failing component |
| `SelectionParser.FormatNat` | src/main.rs:135-139 | printing a natural number gives non-empty decimal digits whose value is that number |
| `SelectionParser.ParseFormatInt` | src/main.rs:135-139 | every `isize` printed in decimal parses back to itself |
| `SelectionParser.ParsePlus` | src/main.rs:135-139 | a leading `+` is accepted |
| `SelectionParser.ParseOverflow` | src/main.rs:135-139 | a magnitude above the largest `isize` is a `NonIntegerSelection` |
| `SelectionParser.ParseNegativeOverflow` | src/main.rs:135-139 | a value below the smallest `isize` is a `NonIntegerSelection` |
| `SelectionParser.ParseFormatBound` | src/main.rs:141-147 | every printed range bound, the omitted one included, parses back to itself |
| `SelectionParser.ParseFormatSelection` | src/main.rs:122-133 | every printed term with `isize` values parses back to itself |
| `SelectionParser.ParseFormatSelections` | src/main.rs:118-120 | every non-empty list of terms with `isize` values, printed comma-separated, parses back to itself |
| `SelectionParser.EmptySelection` | src/main.rs:118-126 | an empty selection is `NonIntegerSelection("")` |
| `SelectionParser.TrailingComma` | src/main.rs:118-120 | a trailing comma after any valid selection is `NonIntegerSelection("")` |
| `SelectionParser.OpenRange` | src/main.rs:127-130 | `..` parses as the range with both bounds omitted |
| `SelectionParser.ThreeDots` | src/main.rs:123-130 | `1...2` splits into `1` and `.2` and fails on `.2` |
| `SelectionParser.SplitFractional` | src/main.rs:123 | a single `.` never starts a cut: `1.5..2` splits into `1.5` and `2` |
| `SelectionParser.FractionalBound` | src/main.rs:123-130 | `1.5..2` fails on its start bound, `NonIntegerSelection("1.5")` |
| `SelectionParser.DotsOnly` | src/main.rs:123-130 | `...` is an omitted start and the end bound `.`, and fails with `NonIntegerSelection(".")` |
| `SelectionParser.TrailingDot` | src/main.rs:123-130 | `1...` splits into `1` and `.`, and fails with `NonIntegerSelection(".")` |
| `SelectionParser.TwoRanges` | src/main.rs:131 | `1..2..3` is `MalformedSelection` of the whole text |
| `Utf8.EncodeScalar` | src/lib.rs:89-92 | a scalar takes 1 to 4 bytes by its range; the lead byte is in the range for that length; every later byte is a continuation byte |
| `Utf8.EncodeString` | src/lib.rs:71-72 | a string's UTF-8 form takes between one and four bytes per scalar; `EncodeDecodeString` is its round trip |
| `Utf8.DecodeFirst` | src/lib.rs:89-92 | a decoded scalar takes between 1 and 4 bytes of input |
| `Utf8.EncodeDecodeScalar` | src/lib.rs:89-92 | the strict decoder reads back exactly the encoded scalar and its length, whatever follows it |
| `Utf8.EncodeDecodeOne` | src/lib.rs:89-92 | one encoded scalar decodes to the one-character string |
| `Utf8.EncodeDecodeString` | src/lib.rs:71-72 | the UTF-8 bytes of a string decode back to the string |
| `Utf8.EncodeStringAppend` | src/lib.rs:71-72 | encoding distributes over string concatenation |
| `Tokenizers.Lines` | src/lib.rs:53-61 | one line per input line at the same position; with trimming off, the input lines unchanged |
| `Tokenizers.FieldRecord` | src/lib.rs:68-79 | a line gives no record iff only-delimited is on and it split into one field; otherwise one element per field, in order, each decoding to its field |
| `Tokenizers.Delimited` | src/lib.rs:75 | the lines kept with only-delimited on: a line is kept iff it is an input line that did not split into exactly one field |
| `Tokenizers.FieldKept` | src/lib.rs:75-79 | a line split into one field contributes nothing with only-delimited on; in every other case exactly one record holding its fields in order |
| `Tokenizers.FieldItems` | src/lib.rs:63-81 | never more records than lines; without only-delimited, record `i` holds the fields of line `i`, for every line; with it, no record has a single field |
| `Tokenizers.FieldItemsKept` | src/lib.rs:67-80 | with only-delimited on, there is one record per line `Delimited` keeps, and record `i` holds the fields of the `i`-th kept line |
| `Tokenizers.FieldItemsOnlyDelimited` | src/lib.rs:67-80 | with only-delimited on, field mode gives exactly the records plain field mode gives for the lines `Delimited` keeps |
| `Tokenizers.FieldItemsAppend` | src/lib.rs:67-80 | field mode keeps line order: the records of two blocks of lines are those of each block, concatenated |
| `Tokenizers.Chars` | src/lib.rs:87-94 | one element per scalar value, each 1 to 4 bytes that decode to exactly that scalar |
| `Tokenizers.CharsConcatenate` | src/lib.rs:87-94 | a line's character elements concatenate to its UTF-8 bytes, which decode back to the line |
| `Tokenizers.CharItems` | src/lib.rs:83-95 | one record per line, whose elements concatenate to bytes that decode to that line |
| `Tokenizers.ByteItems` | src/lib.rs:97-102 | the whole input is one record of single-byte elements that concatenate back to the input |
| `Projection.Project` | src/lib.rs:36-41 | projection succeeds iff no term's span is inverted; otherwise it panics with the ends of the first inverted span |
| `Projection.SpanPositions` | src/lib.rs:40 | a position is picked iff the span is not inverted and the position lies in it; the positions strictly increase |
| `Projection.Positions` | src/lib.rs:36-41 | every position a selection picks lies inside the record |
| `Projection.ProjectAtPositions` | src/lib.rs:36-41 | a successful projection is the record read at the picked positions, term after term |
| `Projection.ProjectAppend` | src/lib.rs:36-41 | projection follows term order: two lists of terms select what each selects, concatenated, and the first panic wins |
| `Projection.SelectTwice` | src/lib.rs:36-41 | a selection listed twice yields its elements twice |
| `Projection.ProjectWhole` | src/lib.rs:36-41 | `..` yields the record unchanged |
| `Projection.ProjectOutOfRange` | src/lib.rs:107-108 | a single index outside the record yields nothing, without a panic |
| `Projection.ProjectOne` | src/lib.rs:40 | a single term whose span `start..end` is not inverted yields exactly that slice of the record |
| `Projection.FirstElements` | src/main.rs:35 | `..n` yields the first `n` elements, or all of them when there are fewer |
| `Projection.AllButLast` | src/main.rs:36 | `..-k` yields all but the last `k` elements, or everything when `k` exceeds the length |
| `Projection.LastElements` | src/main.rs:37 | `-k..` yields the last `k` elements, or all of them when there are fewer |
| `Projection.SinglesInOrder` | src/main.rs:33 | `1,2,-2` on five elements yields the second, third and second-from-last element, in that order |
| `Projection.RenderElements` | src/lib.rs:45-48 | the written elements of a non-empty record end with the output delimiter; `RenderElementsIsJoin` and `RenderElementsSnoc` give the rest |
| `Projection.Render` | src/lib.rs:45-49 | a rendered record is never empty and its last byte is the newline; `RenderIsJoinWithTrailing` and `RenderLength` give the rest |
| `Projection.RenderElementsSnoc` | src/lib.rs:45-48 | writing one more element appends that element and then the delimiter |
| `Projection.RenderIsJoinWithTrailing` | src/lib.rs:45-49 | a rendered record is the delimiter-joined elements, then one more delimiter, then a newline; nothing selected renders as a bare newline |
| `Projection.RenderElementsIsJoin` | src/lib.rs:45-48 | the elements written with their delimiters are their join followed by one delimiter |
| `Projection.RenderElementsLength` | src/lib.rs:45-48 | the written elements take the element bytes plus one delimiter per element |
| `Projection.RenderLength` | src/lib.rs:45-49 | a rendered record's length is the element bytes, plus one delimiter per element, plus one |
| `Projection.RenderOneNewline` | src/lib.rs:45-49 | when no element and not the delimiter holds a newline, a rendered record holds exactly one newline, as its last byte |
| `Projection.WriteRecord` | src/lib.rs:43-49 | the output loop writes exactly the rendered record |
| `Pipeline.Items` | src/lib.rs:30-34 | the selected tokenizer's records: byte mode gives one record of the input's bytes, one per element, in order; character mode gives one record per line whose bytes decode to that (trimmed) line; field mode gives one record per kept line, holding that line's fields, all lines kept without only-delimited |
| `Pipeline.Run` | src/lib.rs:35-50 | a run without a panic writes at least one byte per record; `RunStep`, `RunPanicIff`, `RunAppend` and `OneLinePerRecord` state the rest |
| `Pipeline.RunPanicIff` | src/lib.rs:35-50 | a run over all records ends without a panic iff every record projects |
| `Pipeline.RunStep` | src/lib.rs:35-50 | a record that panics writes nothing and ends the run; a record that projects is rendered before the rest of the run |
| `Pipeline.OneLinePerRecord` | src/lib.rs:35-50 | a run without a panic, over records and a delimiter free of newlines, writes exactly one line per record |
| `Pipeline.RunAppend` | src/lib.rs:35-50 | records are processed in order: two blocks run as the first and then, unless it panicked, the second |
| `Pipeline.WriteRecords` | src/lib.rs:35-50 | the output loop writes the rendering of every record in order and stops at the first panic, exactly as `Run` describes |
| `Pipeline.Cuts` | src/lib.rs:28-51 | `cuts` tokenizes with the configured tokenizer, then writes and stops exactly as `Run` describes for those records |

## Left out

- Command-line parsing with clap (`src/main.rs:16-116`): the options become the fields of `Pipeline.Config`.
- Building the delimiter regex: escaping a string delimiter, the default `\s+`, and compiling the pattern. Regex splitting itself is also left out; `Config.delimiter` is an arbitrary function from a line to its fields. So `InvalidDelimiter` is declared in `SelectionParser.CutsError` but nothing in the model produces it.
- `str::trim`: trimming is the function parameter `trim`. Which whitespace it removes is not modelled.
- Reading standard input. `Stdin` gives the lines already read, with line ends removed, and the raw bytes. Lines or bytes that fail to read are dropped by `filter_map(Result::ok)`; `Stdin` already excludes them, so the model does not show what is lost.
- Locking stdout and the `unwrap` on each write: writing is appending to a byte sequence, and write errors are not modelled.
- The width of `isize` and `usize`: 64 bits is assumed. The `num_fields as isize` conversion is taken to be exact, which holds for any record that fits in memory.
- `out_delimiter` appears in the library's `Config` but the command-line program never sets it. The model takes it as a parameter.
