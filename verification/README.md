# ratatui-ts binding logic in Dafny

This project models the parts of the `ratatui-ts` Node binding that run in
JavaScript rather than in the native `ratatui_ffi` library:

- **The binding layer** in `src/index.ts`. It covers:
  - the argument encoders it applies before a foreign call: little-endian
    u64 packing, tab-joined cells, interleaved point arrays, style defaults,
    constraint kind codes, and the `-1` selection sentinel;
  - the decoders it applies after one: the flat event record and the cell
    array of a headless frame;
  - the live/freed life cycle of native handles;
  - the empty-batch shortcuts of the frame helpers.
- **The binding-coverage checker** `scripts/check-introspection.js`. It covers:
  - the command line and the allowlist file;
  - the feature-bit mask table and the features map;
  - the hand-written parser of `ffi.Library` entries in `native.ts`;
  - the required, missing, extra and invalid sets and the exit status.

Every native call is outside the model. Whatever the native side returns
(success flags, pointers, filled records, written cells) is a parameter. The
calls the binding makes, and their arguments, are returned as values: a call
record or an effect log. That lets the contracts say which call was made,
with what arguments, and how often. JavaScript semantics the code depends on
are written out:

- `indexOf` returns -1 when nothing is found;
- `slice` clamps its bounds;
- `trim` and `\s` use the ECMAScript white-space set;
- `v | 0` cuts a number toward zero, sends NaN and the infinities to 0, and wraps to 32 bits;
- `1 << x` with a NaN shift shifts by 0;
- `Number(true)` is 1;
- `Array.prototype.sort()` uses its default order.

Modules, one per file:

| module | file | models |
|---|---|---|
| `Wrappers` | wrappers.dfy | `Option` (null) and `Result` (a thrown error) |
| `Text` | text.dfy | `join`, `split`, `indexOf`, `slice`, `trim` on strings |
| `U64Codec` | u64_codec.dfy | the u64 buffers of `setValues` and their decoding |
| `Styles` | styles.dfy | `toFfiStyle` and the selection sentinel |
| `Points` | points.dfy | point flattening in the chart and canvas calls |
| `WidgetSetters` | widget_setters.dfy | tab-joined cell setters, `setValues`, `setSelected` |
| `LayoutArgs` | layout_args.dfy | `toConstraintKind`, `layoutSplitEx2`, `layoutSplitPercentages`, `setWidths` |
| `Events` | events.dfy | `Terminal.nextEvent` |
| `Handles` | handles.dfy | constructors and `free()` |
| `Frames` | frames.dfy | `headlessRenderFrame*` and `drawFrame` |
| `StringOrder` | string_order.dfy | the default order of `Array.prototype.sort()` |
| `FeatureGate` | feature_gate.dfy | `bitMaskForName`, `isBitSet`, `featureForExport` |
| `DeclaredParse` | declared_parse.dfy | `parseDeclaredFromNativeTs` |
| `IntrospectCli` | introspect_cli.dfy | `parseArgs`, `loadAllowlist`, the input path and feature-word defaults |
| `Coverage` | coverage.dfy | the report and exit status of the checker's `main` |

Where the model records a defect of the source (see "## Findings"), both
the code as written and the corrected code are modelled. The checker's
`main` takes a `Coverage.Reading` for this. `AsWritten` is the script
exactly as it stands, with the inherited-key mask lookup and the comma-free
entry parse. `Corrected` is the script with those two lookups fixed. Each
report and exit-status lemma holds under both readings.
`Coverage.ReadingsAgree` proves the two readings give the same run on every
input that avoids the two defects.

The native renderer's headless text is `height` rows joined by newlines:
ts/test/paragraph.spec.ts:11 expects `headlessRender(10, 3, p)` to split
into 3 lines. The empty-batch shortcut of `headlessRenderFrame` does not
follow that shape. It returns `width * height` spaces with no newline at all
(src/index.ts:639). The model follows the code, and
`Frames.EmptyFrameLacksRowBreaks` states how the two shapes differ.

## Model

| member | source | states |
|---|---|---|
| Text.IndexOf | scripts/check-introspection.js:100-101 | `indexOf` is -1 exactly when the character does not occur at or after the start offset; otherwise it is the first such occurrence |
| Text.Split | src/index.ts:440 | splitting yields one more piece than there are separators, no piece holds the separator, and joining the pieces gives the text back |
| Text.JoinSeparatorCount | src/index.ts:442 | joining n cells adds exactly n-1 separators to those already in the cells |
| Text.SplitJoin | src/index.ts:487 | for one or more cells, none holding the separator, splitting the joined text recovers the cells |
| Text.JoinEmptyAmbiguous | src/index.ts:517 | an empty list and a list of one empty cell are sent as the same text |
| Text.Trim | scripts/check-introspection.js:32 | `trim` removes exactly the white space at both ends: the result is a middle slice with white space on each side and none at its own ends |
| Text.TrimEmptyIffAllSpace | scripts/check-introspection.js:118 | a token is counted (its trim is truthy) exactly when it holds a character other than white space |
| U64Codec.FromLEofLE | src/index.ts:512 | reading back the 8 little-endian bytes written for a value below 2^64 gives the value |
| U64Codec.LEofFromLE | src/index.ts:512 | every byte string is the little-endian encoding of the number it denotes |
| U64Codec.PackSeries | src/index.ts:509-513 | the buffer has 8·n bytes and value i sits little-endian at bytes [8i, 8i+8) |
| U64Codec.UnpackPack | src/index.ts:507-516 | decoding the packed buffer recovers the series |
| U64Codec.PackUnpack | src/index.ts:534-542 | every buffer whose length is a multiple of 8 is the packing of its decoding |
| U64Codec.EncodeSeries | src/index.ts:507-516 | the loop succeeds exactly when every value is an integer in [0, 2^64); it then builds the 8·n-byte little-endian buffer, and otherwise fails at the first value out of range |
| U64Codec.EncodeRoundTrip | src/index.ts:534-542 | whenever the encoder succeeds, the native side decodes exactly the caller's values |
| Styles.ToFfiStyle | src/index.ts:115-122 | each present field of a style passes through unchanged; a missing style or missing field becomes 0 |
| Styles.ToFfiStyleInjectiveUpToDefault | src/index.ts:115-122 | two styles reach the native side as the same record exactly when they agree once an explicit 0 is identified with an absent field |
| Styles.FromToFfiStyle | src/index.ts:115-122 | a style with no explicit 0 field is recovered from its native record |
| Styles.EncodeSelection | src/index.ts:416 | `null` is sent as -1 and an index is sent unchanged |
| Styles.SelectionRoundTrip | src/index.ts:452 | the native side reads back the caller's selection exactly when it is not an explicit -1 |
| Points.FlattenPoints | src/index.ts:559-560 | the loop yields 2·n coordinates with x_i at 2i and y_i at 2i+1 |
| Points.Flatten | src/index.ts:566-567 | the flat layout: length 2·n, x_i at 2i, y_i at 2i+1 |
| Points.UnflattenFlatten | src/index.ts:559-563 | regrouping the flat array by the pair count that is sent recovers the points |
| Points.FlattenUnflatten | src/index.ts:576-578 | every flat array of 2·n coordinates is the flattening of its regrouping |
| Points.AddLine | src/index.ts:558-564 | `addLine` sends the name, the converted style, and a flat array with a pair count that regroups to the points |
| Points.AddDatasetWithType | src/index.ts:565-571 | `addDatasetWithType` sends the name or NULL, the kind, the converted style, and a flat array with a pair count that regroups to the points |
| Points.ToSpec | src/index.ts:576-582 | one dataset record carries the name, kind, converted style, and a flat array with a pair count that regroups to its points |
| Points.AddDatasets | src/index.ts:572-591 | `addDatasets` sends one record per dataset, in order, and the dataset count |
| Points.AddPoints | src/index.ts:901 | `Canvas.addPoints` sends the marker, the converted style, and a flat array with a pair count that regroups to the points |
| WidgetSetters.SetCells | src/index.ts:440-442 | the cells are sent tab-joined: n cells give n-1 separators beyond those in the cells, and the native side recovers the cells by splitting when none holds a tab |
| WidgetSetters.SetValues | src/index.ts:507-516 | `setValues` sends the packed u64 buffer and the value count, or throws at the first value that is not a u64 |
| WidgetSetters.SetSelected | src/index.ts:415-417 | `setSelected` sends -1 exactly for `null` (or an explicit -1), and otherwise an index the native side decodes back |
| LayoutArgs.KindCode | src/index.ts:700-706 | Length is 0, Percentage is 1, Min is 2 |
| LayoutArgs.KindCodeRoundTrip | src/index.ts:700-706 | the kind code is a bijection between the three kinds and 0..2 |
| LayoutArgs.SplitEx2Call | src/index.ts:719-733 | one kind code and one value per constraint, in input order; a second value array of zeros; a length and an output capacity equal to the constraint count; the other arguments unchanged |
| LayoutArgs.ReadRects | src/index.ts:727-737 | the output holds `outCap` rectangles: those the native side wrote, then zero placeholders |
| LayoutArgs.LayoutSplitEx2 | src/index.ts:708-739 | `layoutSplitEx2` makes the encoded call and returns exactly one rectangle per constraint, the written ones in order |
| LayoutArgs.PercentageConstraints | src/index.ts:753 | each percentage becomes a Percentage constraint with that value, keeping order and length |
| LayoutArgs.LayoutSplitPercentages | src/index.ts:742-755 | every kind code sent is 1, the values are the percentages, and one rectangle comes back per percentage |
| LayoutArgs.ToInt32 | src/index.ts:462 | the wrap step of `v \| 0` on an integer: the signed 32-bit value congruent to v modulo 2^32, and v itself when it is already in range |
| LayoutArgs.NumberToInt32 | src/index.ts:462 | `v \| 0` on a JS number: NaN and the infinities give 0; a finite value is cut toward zero and wrapped to the congruent signed 32-bit value, which is the cut value itself when it is in range |
| LayoutArgs.SetWidths | src/index.ts:462 | `setWidths` sends one kind code per constraint, and each value after `\| 0`: 0 for NaN and the infinities, otherwise a signed 32-bit value congruent to the value cut toward zero, equal to it when in range |
| LayoutArgs.SetWidthsTruncates | src/index.ts:462 | 2.5 is sent as 2, -2.5 as -2, and NaN and Infinity as 0 |
| Events.NextEvent | src/index.ts:263-277 | null exactly when the native call reports false; Key copies code, ch and mods; Resize copies width and height; Mouse copies the five mouse fields; any other kind decodes to the `None`-kind event |
| Events.DecodeEncode | src/index.ts:266-276 | every event survives being written into the flat record and decoded |
| Events.DecodeReadsOwnFields | src/index.ts:267-274 | decoding reads only the fields of the record's own kind |
| Events.DecodedKind | src/index.ts:275-276 | the decoded event has the record's kind when that kind is known, and None otherwise |
| Handles.Create | src/index.ts:470 | a constructor throws exactly when the native constructor returns NULL; otherwise it registers the new pointer with its token and returns a live handle (constructor arguments such as the text of `Paragraph.fromText` or the bounds of `new Canvas` are passed through unchanged and are not recorded) |
| Handles.ScrollbarNewAsWritten | src/index.ts:784-790 | the scrollbar constructor as written throws only when `sc_new` or `sc_cfg` is missing, and registers and configures whatever `sc_new` returned |
| Handles.ScrollbarNullAccepted | src/index.ts:786-789 | as written, a NULL from `sc_new` yields a handle that is not live, and NULL is registered and configured |
| Handles.ScrollbarNew | src/index.ts:784-790 | the corrected constructor succeeds exactly when both symbols exist and the pointer is not NULL, and registers only a real pointer |
| Handles.Free | src/index.ts:814 | on a live handle whose destructor exists, `free()` calls it once, unregisters the token and nulls the pointer; otherwise it changes nothing |
| Handles.FreeTimesNoop | src/index.ts:207-215 | freeing a handle that is not live changes nothing, however often it is repeated |
| Handles.FreeTimesFreesOnce | src/index.ts:279-286 | freeing a live handle n ≥ 1 times leaves it freed with exactly one destructor call and one unregistration in the log |
| Handles.FreeTimesCount | src/index.ts:428 | repeated `free()` adds exactly one destructor call on the pointer to the log |
| Frames.PadEnd | src/index.ts:639 | `padEnd` keeps the text and fills up to the target length with the fill character |
| Frames.ReadNativeString | src/index.ts:644-649 | a failed native render throws without freeing anything; a successful one returns its text and frees the native string once |
| Frames.HeadlessRenderFrame | src/index.ts:638-650 | an empty batch gives width·height spaces and makes no native call; otherwise one native call that forwards the whole batch, then the native text with the string freed once, or a throw |
| Frames.EmptyFrameLacksRowBreaks | src/index.ts:639 | from two rows on, the empty-batch result has no newline, while a grid of rows has height-1 of them |
| Frames.HeadlessRenderFrameStylesEx | src/index.ts:652-663 | an empty batch gives `''` and makes no native call; otherwise one native call that forwards the whole batch, then the native text or a throw |
| Frames.DrawFrameCall | src/index.ts:679-684 | an empty batch gives true and makes no native call; otherwise one draw call on the terminal with the whole batch, and its result |
| Frames.NativeCalledIffBatch | src/index.ts:638-684 | the three helpers with a shortcut call the native side exactly when the batch is not empty, and then forward it whole; `headlessRenderFrameCells` always makes its one call |
| Frames.ReadCells | src/index.ts:667-668 | the output array holds `cap` slots: the written cells, then zero cells |
| Frames.HeadlessRenderFrameCellsAsWritten | src/index.ts:665-677 | as written, the native result is a boolean: false throws, and success returns min(width·height, 1) cells |
| Frames.FrameCellsAsWrittenDropsCells | src/index.ts:672-674 | as written, on a frame of two cells or more, success returns exactly one cell |
| Frames.HeadlessRenderFrameCells | src/index.ts:665-677 | a count of 0 or less throws; otherwise exactly min(width·height, count) cells are returned, in slot order |
| Frames.FrameCellsWholeFrame | src/index.ts:673-675 | when the native side fills and reports the whole frame, every cell comes back |
| StringOrder.LeReflexive | scripts/check-introspection.js:151 | the sort order ranks every string no later than itself |
| StringOrder.LeTotal | scripts/check-introspection.js:151 | any two strings are comparable |
| StringOrder.LeAntisymmetric | scripts/check-introspection.js:152 | strings that rank no later than each other are equal |
| StringOrder.LeTransitive | scripts/check-introspection.js:153 | the sort order is transitive |
| StringOrder.Insert | scripts/check-introspection.js:151 | inserting into a sorted list keeps it sorted and adds exactly the one element |
| StringOrder.Sort | scripts/check-introspection.js:151-153 | `sort()` returns an ordered permutation of its input |
| StringOrder.SortedUnique | scripts/check-introspection.js:151-153 | two sorted lists with the same elements are equal, so the sorted lists depend only on their elements |
| FeatureGate.IndexIn | scripts/check-introspection.js:63-71 | the lookup finds a name's first position in the table, and nothing for a name that is not in it |
| FeatureGate.FeatureNamesDistinct | scripts/check-introspection.js:63-71 | the seven feature names are pairwise distinct |
| FeatureGate.BitMaskForName | scripts/check-introspection.js:62-73 | corrected lookup (see Findings): the mask is 0 exactly for names outside the table; the k-th feature has bit k and no other |
| FeatureGate.SingleBit | scripts/check-introspection.js:72 | `1 << k` for k < 7 is non-zero and has bit k alone |
| FeatureGate.IsBitSetMeaning | scripts/check-introspection.js:75-78 | with the corrected lookup, `isBitSet` is always true for a name outside the table, and for the k-th feature it holds exactly when bit k is set |
| FeatureGate.BitAndSingle | scripts/check-introspection.js:77 | `(bits & m) === m` with a single-bit mask tests exactly that bit |
| FeatureGate.PrototypeKeysAreNotFeatures | scripts/check-introspection.js:63-71 | no inherited object key is a feature name |
| FeatureGate.BitMaskForNameAsWritten | scripts/check-introspection.js:62-73 | as written, a feature name gets its bit, an inherited key such as `toString` gets mask 1, and any other name gets 0 |
| FeatureGate.IsBitSetAsWrittenMeaning | scripts/check-introspection.js:62-78 | `isBitSet` as written agrees with the corrected test on every name but the inherited object keys, and for those it tests bit 0 |
| FeatureGate.PrototypeKeyGatedOnScrollbar | scripts/check-introspection.js:75-78 | as written, a features-map key `toString` is gated on the SCROLLBAR bit, whereas the corrected test always passes it |
| FeatureGate.FirstMatch | scripts/check-introspection.js:45-47 | the position of the first map entry with a matching pattern, or none exactly when no entry matches |
| FeatureGate.FeatureForExport | scripts/check-introspection.js:44-49 | null exactly when no pattern of any entry matches; otherwise the key of the first matching entry in map order |
| DeclaredParse.MatchEnd | scripts/check-introspection.js:93-97 | the matching loop stops within the text |
| DeclaredParse.MatchEndDepths | scripts/check-introspection.js:93-97 | the loop stops one past the character that brings the depth to 0, every earlier prefix keeping it positive, or at the end of the text |
| DeclaredParse.MatchBracket | scripts/check-introspection.js:104-108 | a matcher started on `[` ends after it and no later than the end of the text |
| DeclaredParse.MatchBracketStops | scripts/check-introspection.js:104-108 | the matcher ends one past the `]` that closes the starting `[`, or at the end of the text when none does |
| DeclaredParse.MatchEndBracketsOnly | scripts/check-introspection.js:95-96 | only `[` and `]` change the depth: texts with brackets at the same places stop at the same offset |
| DeclaredParse.MatchBracketBracketsOnly | scripts/check-introspection.js:106-107 | the same for a matcher started on a `[`: parentheses, braces and other characters do not matter |
| DeclaredParse.JoinPieces | scripts/check-introspection.js:114-119 | the top-level pieces joined by commas give back the argument text |
| DeclaredParse.ArgCountOfJoin | scripts/check-introspection.js:112-120 | n non-blank arguments without commas or brackets, joined by commas, count as n |
| DeclaredParse.ArgCountTrailingComma | scripts/check-introspection.js:118-120 | a trailing comma adds no argument |
| DeclaredParse.ArgCountNested | scripts/check-introspection.js:114-118 | a nested array counts as one argument, whatever commas it holds |
| DeclaredParse.CountArgs | scripts/check-introspection.js:112-120 | the counting loop returns the number of non-blank pieces between commas at depth 0 |
| DeclaredParse.SkipSpaces | scripts/check-introspection.js:89 | skipping white space moves forward and stays within the text |
| DeclaredParse.SkipSpacesSkips | scripts/check-introspection.js:89 | skipping passes only over white space and stops at the first other character or at the end |
| DeclaredParse.OuterArray | scripts/check-introspection.js:92-98 | the value text starts with its `[` |
| DeclaredParse.ArgsOf | scripts/check-introspection.js:101-121 | an entry is valid exactly when the search finds a `[`, and it then carries the number of arguments listed between that bracket and the character before its match |
| DeclaredParse.ParseEntryAsWritten | scripts/check-introspection.js:86-121 | as written, a valid entry has a value starting with `[`; a value array with no comma is valid and counts what that array itself lists; every other entry parses exactly as the corrected parse does |
| DeclaredParse.ShapedByIndexOf | scripts/check-introspection.js:100-101 | the two `indexOf` searches succeed exactly when the value holds a comma with a `[` after the first one |
| DeclaredParse.ParseEntry | scripts/check-introspection.js:86-121 | the corrected entry keeps the key's name and has an argument count exactly when it is valid |
| DeclaredParse.ParseEntryValid | scripts/check-introspection.js:90-102 | the corrected entry is valid exactly when the value starts with `[` and holds a comma followed by a `[` |
| DeclaredParse.NoCommaValueDisagrees | scripts/check-introspection.js:100-102 | any value with no comma is valid as written and invalid after the correction |
| DeclaredParse.NoCommaEntryAcceptedAsWritten | scripts/check-introspection.js:100-102 | `['void']` is valid as written, with one argument, and invalid after the correction |
| DeclaredParse.ParseDeclared | scripts/check-introspection.js:80-125 | corrected parse (see Findings): one entry per key found, in order, each parsed at its key |
| DeclaredParse.ParseDeclaredAsWritten | scripts/check-introspection.js:80-125 | as written: one entry per key found, in order, each parsed at its key by the parse as written |
| DeclaredParse.ParseDeclaredReadings | scripts/check-introspection.js:100-102 | the two parses agree at every key whose value is not a comma-free array; at those keys the parse as written accepts and the corrected one rejects |
| DeclaredParse.WellFormedEntryParses | scripts/check-introspection.js:86-121 | after white space, a value `[ret, [a1, …, an]]` parses as valid with n arguments |
| IntrospectCli.ParseArgs | scripts/check-introspection.js:13-24 | the loop equals reading the arguments item by item: each flag consumes the next argument, and everything else is appended to the positionals |
| IntrospectCli.PositionalNeverFlag | scripts/check-introspection.js:17-21 | no positional argument is one of the four flags, and each one is a user argument |
| IntrospectCli.NoFlagsAllPositional | scripts/check-introspection.js:21 | without flags, the positionals are exactly the user arguments, in order |
| IntrospectCli.LastFlagWins | scripts/check-introspection.js:17 | a trailing `--lib v` sets the library path to v, and a bare trailing `--lib` leaves it unset |
| IntrospectCli.JsonPath | scripts/check-introspection.js:129 | the input path is the first positional unless it is absent or empty, in which case it is `/tmp/ffi.json` |
| IntrospectCli.FeatureBits | scripts/check-introspection.js:136 | a feature word exists exactly when `--lib` is given a non-empty value and the probe succeeds |
| IntrospectCli.LoadAllowlist | scripts/check-introspection.js:30-34 | no path gives the empty set; otherwise a name is allowed exactly when it is non-empty and is the trim of some line |
| IntrospectCli.AllowlistEntriesTrimmed | scripts/check-introspection.js:32 | every allowlist entry is non-empty, with no white space at either end |
| IntrospectCli.AllowlistOfLines | scripts/check-introspection.js:32 | a file of lines loads as exactly the trimmed non-blank lines |
| Coverage.Dedup | scripts/check-introspection.js:131 | a `Set` keeps each element once and loses none |
| Coverage.InvalidNames | scripts/check-introspection.js:153 | the invalid names are exactly those of entries that are not valid |
| Coverage.RequiredGating | scripts/check-introspection.js:138-144 | under either reading, unclaimed exports or a missing feature word keep an export required, and an export claimed first by the k-th feature is required exactly when bit k is set; one claimed first by another key stays required, except that as written an inherited key such as `toString` gates it on bit 0 |
| Coverage.Required | scripts/check-introspection.js:137-144 | under either reading, the required list holds exactly the exports that pass the gate, so it is a subset of the exports, with no repeats |
| Coverage.SortedFilter | scripts/check-introspection.js:151-152 | filtering then sorting gives a sorted list of exactly the kept elements, with no repeats |
| Coverage.MakeReport | scripts/check-introspection.js:127-164 | under either reading, missing is the required exports neither declared nor allowlisted; extra is the declared names that are not exported; invalid is the malformed names with repeats; all three are sorted; the counts are of distinct names |
| Coverage.MissingEmptyIff | scripts/check-introspection.js:151 | nothing is missing exactly when every required export is declared or allowlisted |
| Coverage.InvalidEmptyIff | scripts/check-introspection.js:153 | nothing is invalid exactly when every declaration is well formed |
| Coverage.ExitCodeMeaning | scripts/check-introspection.js:178 | the exit status is 0 or 1, and 0 exactly when every required export is covered and every declaration is well formed |
| Coverage.ExitCodeOfParsed | scripts/check-introspection.js:146-178 | under either reading, over the entries parsed at the keys, the exit status is 0 exactly when every required export has a key or is allowlisted and every key's entry parses |
| Coverage.RunChecker | scripts/check-introspection.js:127-178 | under either reading, the exit status is 0 or 1; the run reports the probed feature word only under a non-empty `--lib`, and exits 0 exactly when every export the gate keeps has a declaration key or an allowlist line and every key's entry parses |
| Coverage.IsRequiredReadings | scripts/check-introspection.js:138-144 | the two readings gate every export alike when no features-map key is an inherited object key |
| Coverage.ReadingsAgree | scripts/check-introspection.js:127-178 | the script as written and the corrected one give the same report and exit status whenever every value array holds a comma and no features-map key is an inherited object key |
| Coverage.NoCommaEntryPassesAsWritten | scripts/check-introspection.js:100-121 | with its one export declared as `['void']`, the script as written exits 0 and the corrected one exits 1 |
| Coverage.ToStringKeyDropsExportAsWritten | scripts/check-introspection.js:62-78 | with a features-map key `toString` claiming the only, undeclared export and a feature word of 0, the script as written exits 0 and the corrected one exits 1 |
| Coverage.ReportIgnoresOrder | scripts/check-introspection.js:151-157 | the report depends only on the set of exports, the set of declared names and the multiset of malformed names, not on their order or repeats |

## Left out

- Rendering, layout solving and widget painting. They happen inside the native `ratatui_ffi` library. Its answers are parameters of the model.
- Struct and array marshalling by `ref-struct`/`ref-array`, and the span builders (`buildSpans` and its relatives). They copy values into native layouts and hold no logic of their own.
- `LayoutArgs.SetWidths`: values are sent after `| 0` only. The `uint16` buffer they are written into is not modelled, so for a value outside [0, 65536) the model does not say what reaches the native side. The marshalling layer decides that: it either wraps or throws.
- `LayoutArgs.SplitEx2Call`: values are sent as given. The 16-bit wrap that the typed `uint16` buffers apply is done by the marshalling layer and is not modelled. The same holds for the `uint16` width and height of the frame helpers.
- Floating-point values: chart and canvas coordinates, bounds and the gauge ratio. Point coordinates are a type parameter. The constraint values of `setWidths` are read as a `LayoutArgs.JsNumber`: a finite double is the real it denotes, or NaN, or an infinity.
- `FinalizationRegistry` callbacks and garbage-collection timing. Only an explicit `free()` is modelled.
- `U64Codec.EncodeSeries`: `BigInt(v)` on a non-integral number is modelled as the error it throws. BigInt coercion of strings and other objects is not modelled.
- The pass-through methods of each widget: `setBlockTitle`, `setStyle`, the single-widget `headlessRender*` functions and the like. They forward their arguments unchanged.
- The regular-expression key scan of `parseDeclaredFromNativeTs`. The matched keys and their end offsets are an input.
- `declaredMap`, which `main` does not use.
- Reading JSON and text files, `fs.existsSync` for the features map, and writing the `--out` report. Their contents are inputs, and the report is a value.
- Console output.
- `compileFeaturePatterns` and `RegExp.prototype.test`. Pattern matching is a parameter.
- The features map's key order is given as a sequence in `Object.entries` order.
- `readFeatureBitsFromLib`, which loads the library through `ffi-napi`. Its result is a parameter, with `None` when loading fails.
- `StringOrder.Le`: strings are compared by character. JavaScript compares UTF-16 code units, and the two orders differ only between characters outside the Basic Multilingual Plane.
- `src/native.ts` (library discovery, ABI tables, optional symbols) is not part of this model. Its one relevant fact is the boolean return type of `ratatui_headless_render_frame_cells`, which appears as a finding below.
- The timeout of `nextEvent` is passed straight to the native call, which does the waiting.
- `ts/src/native.ts`, `scripts/ci-monitor.js`, `scripts/gen-snapshots.js`, `ts/scripts/postinstall.js`, `src/bin/demo.ts`, `examples/*`, `ts/tsup.config.ts` and `ts/test/paragraph.spec.ts`. They are file-system, network, build or live-terminal code outside the binding logic.

## Findings

| source | as written | input that shows it | evidently intended | confidence | as-written member | corrected member |
|---|---|---|---|---|---|---|
| src/index.ts:665-676 | `count` comes from a native function declared with a boolean result (src/native.ts:153), so `Number(count)` is 1 on success | a 2×2 frame whose four cells the native side writes and reports | return min(width·height, cells written) cells | medium, not executed | Frames.HeadlessRenderFrameCellsAsWritten (Frames.FrameCellsAsWrittenDropsCells) | Frames.HeadlessRenderFrameCells (Frames.FrameCellsWholeFrame) |
| scripts/check-introspection.js:62-73 | the mask table is an object literal, so inherited keys such as `toString` find a function, and `1 << NaN` gives mask 1 | a features-map key `toString`, with feature word 0 | only the seven listed names have a bit, and any other name has mask 0 | low, not executed | FeatureGate.BitMaskForNameAsWritten (FeatureGate.PrototypeKeyGatedOnScrollbar, Coverage.ToStringKeyDropsExportAsWritten) | FeatureGate.BitMaskForName (FeatureGate.IsBitSetMeaning) |
| scripts/check-introspection.js:100-102 | with no comma in the value, `indexOf` returns -1 and the `[` search starts at 0, finding the value's own `[` | `ratatui_x: ['void']` | a value without the `[ret, [args]]` shape is invalid | high, not executed | DeclaredParse.ParseEntryAsWritten (DeclaredParse.NoCommaEntryAcceptedAsWritten, Coverage.NoCommaEntryPassesAsWritten) | DeclaredParse.ParseEntry (DeclaredParse.ParseEntryValid) |
| src/index.ts:784-790 | the scrollbar constructor does not check `sc_new()` for NULL, unlike every other constructor | `sc_new` present and returning NULL | throw, as the other constructors do, and register nothing | medium, not executed | Handles.ScrollbarNewAsWritten (Handles.ScrollbarNullAccepted) | Handles.ScrollbarNew |
