# delinhere-rs argument parser, modelled in Dafny

delinhere-rs is a Neovim plugin. It finds the bracket pair nearest to the cursor and works on the argument list inside that pair. This project models the plugin's pure text engine and proves properties of it.

- **Indentation finder** (`Args::find_pos`, `first_not_whitespace`). For each line, it finds the column of the first grapheme that is not an ASCII space.
- **Region slicer** (`Args::parse_args`). It cuts out the graphemes strictly between the opening and the closing bracket, over one or more lines.
- **Bracket-depth tokenizer** (`Args::reprocessed_args`). It resolves nesting with a stack of `(kind, text)` buffers. It splits only at top-level commas and trims each argument.
- **Supporting values.** `Pos` and its ordering. The `BPairs` glyph tables. The rule that picks the closest bracket kind from the three backward searches. `Messages::from`. The normal-mode command builder.

A line is a `seq<string>`, one opaque string per grapheme. An accumulated argument is the `string` its graphemes concatenate to.

Files:

- `utils.dfy` (module `Utils`): `Option`, `Ordering`, `Pos`.
- `main.dfy` (module `App`): `BPair`, `Array`, `FindClosestBPair`, `Message`/`FromEvent`, `VerbAdverbHere`.
- `text.dfy` (module `Text`): `Flatten`, and `Trim` with Rust's whitespace set.
- `args.dfy` (module `Args`): the indentation finder, the tokenizer and the slicer.

How the tokenizer is modelled:

- `ReprocessedArgs` is a method with the source's loop. Its state is a `seq<Buf>` stack, the current argument and the finished arguments.
- `Step` and `Run` are the specification. `Step` is one loop iteration; `Run` folds it over a prefix of the input.
- The method is proved equal to `Tokenize`, which is `Run` followed by the final push and the trim.
- `Kinds`, `TopCommas`, `DropTopCommas` and `Segments` are an independent reference. `Kinds` is the stack of open kinds; the others cut or filter the input at its top-level commas. None of them looks at the buffers.
- `RunAgrees` and `RunSegments` tie the stack machine to that reference. The other tokenizer lemmas are built on them.

Facts about the code that the model keeps:

- Text still in unclosed buffers at the end is dropped, not drained into the last argument (`UnclosedBracketDropped`).
- An all-space or empty line gets column 2, not 1. The fallback index is 1, and 1 is then added (`FindPos`).
- The tokenizer inserts no line-boundary marker between the lines of the region; their graphemes are read as one sequence (`ParseArgs`).
- No per-line argument counts are kept, and no reconstructed text is built.

## Model

| member | source | states |
|---|---|---|
| `Utils.CompareNat` | src/utils.rs:6-9 | The `u64` comparison the derive applies to each field: `Less`, `Equal`, `Greater` exactly when the first number is smaller, equal, larger. |
| `Utils.PartialCompareNat` | src/utils.rs:6-9 | The field-level `partial_cmp` is always defined and equals `Some` of the total comparison. |
| `Utils.Pos.Lt` | src/main.rs:124 | `dual.1 < candidate` holds exactly when the line is smaller, or the line is equal and the column is smaller. |
| `Utils.New` | src/utils.rs:13-27 | `Pos::new(l, c)` read back through `line()`, `col()` and `get()` gives `l`, `c` and `(l, c)`. |
| `Utils.Pos.Eq` | src/utils.rs:31-41 | Two positions are equal (also through `&Pos`) exactly when both line and column are equal. |
| `Utils.Pos.Cmp` | src/utils.rs:6-10 | The derived `Ord` is lexicographic: a smaller line comes first; on the same line a smaller column does; `Equal` means the two are equal. |
| `Utils.Pos.PartialCmp` | src/utils.rs:6 | The derived `partial_cmp` is always defined. |
| `Utils.Pos.PartialCmpRef` | src/utils.rs:46-50 | Comparing with a `&Pos` is always defined. |
| `Utils.PartialCmpAgrees` | src/utils.rs:6-10 | The derived `PartialOrd` gives `Some(cmp)`. The `&Pos` comparison gives the same result as the value comparison. `<` means `cmp` is `Less`. |
| `Utils.CmpIsTotalOrder` | src/utils.rs:6-10 | `cmp` is antisymmetric, transitive, total and reflexive, and its `Equal` coincides with `==`, as `Ord` with `Eq` requires. |
| `Utils.LtIsStrictTotal` | src/utils.rs:6-10 | `<` is irreflexive, transitive and asymmetric, and relates any two distinct positions. |
| `App.BPair.ToStringPair` | src/main.rs:24-30 | The search patterns are the plain glyphs, except that square brackets are escaped with a backslash (`\[`, `\]`). |
| `App.BPair.ToSimpleStringOpen` | src/main.rs:32-38 | Each opening glyph is one character and never a comma. |
| `App.BPair.ToSimpleStringClose` | src/main.rs:32-46 | Each closing glyph is one character, never a comma, and differs from the same kind's opening glyph. |
| `App.GlyphsDistinct` | src/main.rs:32-46 | The six glyphs are pairwise distinct. Two kinds share an opening or a closing glyph only if they are the same kind, and no opening glyph is a closing glyph. |
| `App.Array` | src/main.rs:49-51 | `BPairs::array()` has three entries, holds every kind, and is ordered Brack, Paren, Curly. |
| `App.Candidate` | src/main.rs:113-118 | A failed search counts as `Pos(0, 0)`; a successful one is the reported (line, col). |
| `App.FindClosestBPair` | src/main.rs:107-132 | No candidate is beyond the chosen position. The chosen kind is the first kind in array order whose match is that position, because ties keep the earlier kind. If nothing exceeds (0, 0), the result is `(Brack, Pos(0, 0))`. |
| `App.FromEvent` | src/main.rs:261-276 | The nine known names map to their messages. Every other string becomes `Unknown` carrying that same string. |
| `App.FromEventName` | src/main.rs:261-276 | Each known message maps back to itself from its event name. |
| `App.VerbAdverbHere` | src/main.rs:173-175 | The command is the verb, then the adverb, then the glyph, with no separator. |
| `Text.Trim` | src/args.rs:233 | `str::trim` never lengthens its input, and its result neither starts nor ends with whitespace (Unicode White_Space). |
| `Text.TrimKeepsMiddle` | src/args.rs:233 | The result of `str::trim` is a contiguous part of the input with only whitespace (Unicode White_Space) before and after it. |
| `Text.TrimEmptyIff` | src/args.rs:233 | Trimming gives the empty string exactly when the input is all whitespace. |
| `Text.TrimIdempotent` | src/args.rs:233 | Trimming twice equals trimming once. |
| `Args.FirstNotWhitespace` | src/args.rs:90-95 | The result is the index of the first grapheme that is not `" "`, with only spaces before it. It is `None` exactly when every grapheme is `" "`. |
| `Args.FindPos` | src/args.rs:106-118 | One position per line. Line `i` is at `beg_pos.line + i`. Its column is one past the first non-space index, and a line of spaces (or an empty line) gets column 2. |
| `Args.ChIsOpenBPair` | src/args.rs:127-134 | The result is `Some(k)` exactly when the grapheme is `k`'s opening glyph, and `None` for every other grapheme. |
| `Args.ChIsCloseBPair` | src/args.rs:136-138 | Holds exactly for `]` with square brackets, `)` with parentheses and `}` with braces. A grapheme that passes is no opening glyph and closes no other kind. |
| `Args.NewBuf` | src/args.rs:159-161 | Pushes a buffer of the given kind seeded with the glyph. Kinds gain that kind on top; pending text gains the glyph. |
| `Args.AddCharToLastBuf` | src/args.rs:140-144 | On a non-empty stack, appends to the top buffer's text. Kinds and lower buffers are unchanged. |
| `Args.CloseBuf` | src/args.rs:163-180 | On a non-empty stack, pops the top buffer and appends the glyph to its text. With one buffer, that text joins the current argument and the stack becomes empty. With more, the argument is unchanged, the lower buffers are unchanged, and the text joins the new top buffer, which keeps its kind. |
| `Args.Step` | src/args.rs:188-225 | One loop iteration never revises a finished argument. It finishes exactly one argument on a comma read with no bracket open, and none otherwise. |
| `Args.Run` | src/args.rs:186-226 | Over a prefix of the input, each further grapheme only extends the finished arguments. There are never more finished arguments than graphemes read. |
| `Args.RawArgs` | src/args.rs:228-231 | The finished arguments, then the current argument exactly when it is not empty. |
| `Args.Tokenize` | src/args.rs:186-233 | The result has one argument per top-level comma, plus at most one. |
| `Args.RunAgrees` | src/args.rs:186-226 | After any input, the stack's kinds are the reference nesting. There is one finished argument per top-level comma. Finished arguments, current argument and open buffers together hold the input minus its top-level commas. |
| `Args.StackFollowsKinds` | src/args.rs:194-222 | The stack is exactly the reference nesting, so pops happen only on a non-empty stack. |
| `Args.Segments` | src/args.rs:194-203 | The reference cut of the input at its top-level commas has one more segment than there are top-level commas. |
| `Args.RunSegments` | src/args.rs:186-226 | After any input, the finished arguments are the input's segments but the last. The current argument followed by the open buffers' text is the last segment. |
| `Args.BalancedArguments` | src/args.rs:186-233 | For input that closes every bracket, the untrimmed arguments are the segments between top-level commas, with an empty trailing segment dropped; the result is their trims. |
| `Args.Conservation` | src/args.rs:186-231 | The untrimmed arguments followed by the unclosed buffers' text equal the input without its top-level commas. |
| `Args.BalancedConservation` | src/args.rs:186-231 | For input that closes every bracket, the untrimmed arguments concatenate to exactly the input without its top-level commas. |
| `Args.ArgumentCount` | src/args.rs:228-231 | The result length is the number of top-level commas, plus one if the current argument is non-empty at the end. For input that closes every bracket, that is when the segment after the last top-level comma is non-empty. Empty input gives `[]`. |
| `Args.ArgumentsTrimmed` | src/args.rs:233 | Each returned argument is the trim of its accumulated text, so none starts or ends with whitespace. |
| `Args.StepComma` | src/args.rs:194-203 | A top-level comma pushes the current argument, even an empty one, and starts a fresh one. A comma at depth 1 or more goes to the top buffer and splits nothing. |
| `Args.StepOpen` | src/args.rs:189-191 | Any opening glyph pushes a buffer of its kind seeded with it, at any depth and inside any kind. |
| `Args.StepClose` | src/args.rs:210-222 | Only the top buffer's closing glyph closes, and closing lowers the depth by one. Any other closer is appended to the top buffer. A closer on an empty stack is argument text. |
| `Args.StepInside` | src/args.rs:210-222 | With a buffer open, a step never splits. It changes the current argument only by closing the last open buffer. |
| `Args.OpenKeepsArgs` | src/args.rs:186-226 | While some bracket stays open, every step goes to the stack: the finished arguments and the current argument do not change. |
| `Args.InsideBracketKeepsArgs` | src/args.rs:186-226 | While a bracket opened at top level stays open, the finished arguments and the current argument do not change. |
| `Args.UnclosedBracketDropped` | src/args.rs:228-233 | A bracket opened at top level and never closed adds nothing to the result, neither its text nor its commas. |
| `Args.PendingInsideBracket` | src/args.rs:186-226 | Inside a bracket opened at top level, the stack's text is the glyph followed by everything read since. |
| `Args.BracketGroupVerbatim` | src/args.rs:163-180 | A bracket group opened and closed at top level joins the current argument verbatim, glyphs and inner commas included, and splits nothing. |
| `Args.ReprocessedArgs` | src/args.rs:120-238 | The loop with its stack computes exactly `Tokenize`: `Run`, then the final push if non-empty, then trim. |
| `Args.PiecesMakeRegion` | src/args.rs:259-281 | The per-line slices concatenate to the region: the first line from index `bc`, interior lines whole, the last line up to index `ec - 1`, or `bc .. ec - 1` of a single line. |
| `Args.ParseArgs` | src/args.rs:240-288 | Under the slice bounds that do not panic (`1 <= ec`, `bc <= len(first)`, `ec - 1 <= len(last)`, and `bc <= ec - 1` on one line), the result is the tokenization of the region strictly between the brackets. |

## Left out

- Neovim RPC and editor glue are not modelled: `EventHandler`, `Session`, the event loop, `process`, the `searchpairpos`/`getline`/`feedkeys` calls, and the delete/change/select/yank wrappers. They are I/O over a foreign library. `FindClosestBPair` takes the three search results as input instead.
- `find_args`, `test` and `_test` are editor glue and are not modelled. `find_args` calls `parse_args` with three arguments where it takes four; `test` only calls `find_args`; `_test` copies a map and returns a constant.
- The conversions from `neovim_lib::Value` (`_unwrap_array_result_into_tuple`, `unwrap_raw_lines`) are not modelled; they wrap a library type. `Candidate` captures their effect: a failed search counts as (0, 0).
- The `searchpairpos` argument builders only pack Vim-script strings and are not modelled. The patterns they use come from `ToStringPair`.
- Logging is not modelled: `Log`, `Logger`, every `ext_logger` call, `debug_1`, `print_str`, and the log file opened in `Args::new`. It is file I/O with no effect on results.
- `Args::new` is not modelled; it composes `find_pos` and `parse_args` with logging.
- Grapheme segmentation (`parse_lines`) goes through the `unicode_segmentation` crate. Its output, the segmented lines, is the model's input.
- The unused helpers `slice_beg` and `slice_end` are not modelled.
- `Pos` fields are `u64` in the source and `nat` here. The sums `i + beg_pos.line()` and `n + 1` cannot overflow for real buffer sizes, so `u64` wrap-around is not modelled.
- `PartialEq<&Pos>` and `PartialEq` share one predicate, `Pos.Eq`, because Dafny values have no references. Likewise `Pos` is used as a plain value, although the source does not derive `Copy`.
- The tokenizer helpers mutate a local `Vec` through `&mut`. They are modelled as functions from the old stack to the new one; no other code can observe the stack.
- `add_buf_2_last_buf`, `add_buf_2_arg` and `add_char_2_arg` are one-line forwarders. They appear as `AddCharToLastBuf` and as appending to the current argument.
