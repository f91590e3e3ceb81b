# The raw assembler of scry_asm, in Dafny

This project models `Raw::assemble`, the two-pass assembler of scry_asm (`src/raw.rs`), and proves properties of it.
The assembler turns Scry assembly text into machine code in four steps:

1. **Tokenizer.** Strips `;` comments up to the next line end, splits on whitespace and splits after every `:`.
2. **First pass.** Records the byte address of every label declaration. Each instruction mnemonic counts two bytes and each `.bytes` directive counts its width. A label declared twice is an error.
3. **Groups.** Splits the token stream into groups at label declarations.
4. **Second pass.** Assembles each group in turn. At each position it tries a `.bytes` directive first, then an instruction. Symbols are resolved against the first pass's label addresses.

The instruction-set library is a parameter of the model: the `Isa.Syntax` datatype. It supplies:
- the directive grammars: the type header, the symbolic value and the two integer literals;
- the set of instruction mnemonics;
- the instruction parser.

The model is built from these modules:

| module | models |
|---|---|
| `Wrappers` | `Option` and `Result` |
| `Seqs` | concatenation and `flat_map` |
| `Tokenizer` | the token stream |
| `Grouping` | `GroupIter` and `Group` |
| `Cursor` | `CanConsume` and how a consumption re-presents the rest of a token |
| `LittleEndian` | `to_le_bytes` truncated to the low bytes |
| `Directive` | `parse_bytes_direcive` |
| `Isa` | the instruction-set parameter |
| `FirstPass` | the label table |
| `SecondPass` | the resolver, the group loop and the whole assembler |

Three details of the code shape the model:
- A distance between two labels checks that the second label is known before it checks the first (src/raw.rs:333-339). When both are unknown, the error names the second.
- The unsigned bound is compared with `>=`, so `2^(8·size)` itself is accepted (src/raw.rs:178-180).
- An instruction that fails to parse ends the group without an error, unless the failure is an unknown symbol or an out-of-bound value (src/raw.rs:394-395).

## Model

| member | source | states |
|---|---|---|
| Tokenizer.StripComments | src/raw.rs:209-222 | a chunk yields at least one piece |
| Tokenizer.StripCommentsCommentFree | src/raw.rs:209-222 | no piece of a chunk holds a `;`: every comment is cut out |
| Tokenizer.StripCommentsStep | src/raw.rs:211-221 | at the first `;`, the pieces are the text before it followed by the pieces of the text after the next line end, and the text before it holds no `;` |
| Tokenizer.StripCommentsMatchesDecomment | src/raw.rs:207-225 | the words of one chunk equal the words of an independent character-by-character reference (`Decomment`). That reference replaces each comment, from `;` through the first `\r` or `\n` (or the end of the chunk), by a space |
| Tokenizer.NonEmpty | src/raw.rs:225 | no empty piece survives |
| Tokenizer.NonEmptyMember | src/raw.rs:225 | a string survives exactly when it is non-empty and was among the pieces |
| Tokenizer.FindFirstSpec | src/raw.rs:211 | the search position is the first match: nothing before it matches, and it matches unless it is the end |
| Tokenizer.SplitOn | src/raw.rs:224 | splitting yields at least one part, and no part holds a separator |
| Tokenizer.SplitOnSeparator | src/raw.rs:224 | a separator character splits the text exactly as a chunk boundary does |
| Tokenizer.SplitOnConcat | src/raw.rs:224 | joining the parts gives the text with every separator removed |
| Tokenizer.SplitAfterColonsConcat | src/raw.rs:227 | splitting after colons loses and invents no character |
| Tokenizer.SplitAfterColonsParts | src/raw.rs:227 | every part is non-empty and holds a `:` only as its last character, and every part but the last ends in `:` |
| Tokenizer.TokenizeAppend | src/raw.rs:207-228 | tokenizing works chunk by chunk: the tokens of `a + b` are those of `a` followed by those of `b` |
| Tokenizer.IgnoredWhitespace | tests/raw/properties.rs:144-187 | inserting a whitespace character outside a comment gives the same tokens as splitting the chunk at that point |
| Tokenizer.IgnoredComment | tests/raw/properties.rs:144-187 | inserting `; comment` plus a line end gives the same tokens as splitting the chunk at that point |
| Tokenizer.TokensWellFormed | src/raw.rs:224-227 | every token is non-empty, holds no whitespace, and holds a `:` only as its last character |
| Tokenizer.TokensConcat | src/raw.rs:207-228 | the tokens, joined, are the comment-stripped text with all whitespace removed |
| Grouping.GroupNext | src/raw.rs:65-87 | a finished group yields nothing. A token holding `:` finishes the group and yields its label name exactly when labels are emitted and the name is non-empty. Any other token is yielded as is |
| Grouping.LabelName | src/raw.rs:263 | the label is the prefix before the first `:` and holds no `:`. A token without `:` is its own label, as for `next :` |
| Grouping.LabelIndex | src/raw.rs:65-87 | the index of the first token holding `:`, with none before it |
| Grouping.SkipGroup | src/raw.rs:36-43 | skipping a group drops at least one token and leaves a suffix of the stream |
| Grouping.GroupIterNext | src/raw.rs:27-51 | the iterator yields nothing exactly when no tokens remain. Otherwise it yields a fresh group over the remaining tokens, and the remaining stream shrinks |
| Grouping.FinishedStaysFinished | src/raw.rs:65-87 | a finished group stays finished and yields nothing however often it is asked |
| Grouping.GroupItems | src/raw.rs:65-87 | a fresh group yields exactly the tokens before the first label token, in order, then the label's name when labels are emitted and the name is non-empty |
| Grouping.GroupsPartitionTokens | src/raw.rs:17-88 | with labels not emitted, the groups' contents concatenated are exactly the stream's non-label tokens, in order |
| Grouping.TokenStreamGroups | src/raw.rs:207-228 | the partition holds for every token stream the tokenizer produces |
| Cursor.DropChars | src/raw.rs:113 | dropping `n` characters leaves a suffix of the token, exactly `n` characters shorter when the token has that many |
| Cursor.AdvanceExact | src/raw.rs:355-357 | a consumption within the view removes exactly the whole tokens it names and then its characters of the next token. The text left, joined, is the joined text before it with that prefix cut off |
| Cursor.AdvanceShrinks | src/raw.rs:355-357 | a consumption never grows the view; consuming a whole token, or some characters of a non-empty head token, shrinks it |
| Cursor.AdvanceThen | src/raw.rs:154 | consuming `c1.then(c2)` equals consuming `c1` and then `c2` |
| Cursor.AdvanceKeepsSuffix | src/raw.rs:355-357 | the text left after a consumption is a suffix of the text before it |
| Cursor.DropCharsTwice | src/raw.rs:113 | dropping `a` characters and then `b` equals dropping `a + b` |
| LittleEndian.Encode | src/raw.rs:153 | a value is written as exactly `n` bytes; what they hold is stated by `DecodeEncode` |
| LittleEndian.DecodeEncode | src/raw.rs:153 | the `n` bytes written, read back, give the value modulo `2^(8n)`: two's complement for negative values |
| LittleEndian.EncodeDecode | src/raw.rs:183 | writing the value that `n` bytes read back as gives those bytes again |
| LittleEndian.SameBytes | src/raw.rs:153 | two values give the same `n` bytes exactly when they agree modulo `2^(8n)` |
| Directive.Width | src/raw.rs:108-112 | a directive type is 1 to 16 bytes wide |
| Directive.ResolvedSymbol | src/raw.rs:115-132 | a symbolic value is what the resolver answers for the request the symbol forms, and consumes what the symbol grammar consumed |
| Directive.ParseBytesDirective | src/raw.rs:96-197 | a directive is refused as not a directive exactly when its header does not parse. A success emits exactly the type's width in bytes |
| Directive.DirectiveOutcome | src/raw.rs:146-193 | once the value is read, the directive succeeds exactly when the value is in bounds. The bytes are then the value modulo `2^(8·size)`. Otherwise the error carries the value and the signed or unsigned minimum and maximum |
| Directive.DirectiveConsumption | src/raw.rs:113-154 | a directive consumes its header and then its value, in that order |
| Directive.DirectiveWithoutValue | src/raw.rs:139-145 | a header followed by neither a resolvable symbol nor a literal is a bad value |
| Directive.LengthIndependentOfResolver | src/raw.rs:278-285 | two successful parses of the same directive emit the same number of bytes, whatever the resolvers |
| Directive.SymbolBeforeLiteral | src/raw.rs:115-169 | a symbol the resolver knows is taken before any literal, cast to `u128` for an unsigned type |
| Directive.LiteralFallback | src/raw.rs:139-175 | without a resolvable symbol, the value is the literal's |
| Directive.PlaceholderInBounds | src/raw.rs:280 | the placeholder value 2 of the first pass, read as the directive's type reads a resolved value, is within the bounds of every type |
| Directive.PlaceholderSymbolEmits | src/raw.rs:278-285 | with the first pass's placeholder resolver, a header followed by any symbol succeeds |
| Directive.SignedBoundsAlias | src/raw.rs:147-153 | the signed bounds accept `2^(8·size−1)` and `−2^(8·size−1)−1`, whose bytes alias those of `−2^(8·size−1)` and `2^(8·size−1)−1` |
| Directive.UnsignedBoundAliasesZero | src/raw.rs:178-183 | the unsigned bound accepts `2^(8·size)`, whose bytes are those of 0, and refuses one more |
| Directive.SignedByteRefuses200 | src/raw.rs:147-150 | for `i0` the bounds are −129 and 128, so 200 is refused |
| Directive.CheckedPow2 | src/raw.rs:147-178 | `2.pow(e)` in an integer with `bits` value bits exists exactly when `2^e` is representable there, below `2^bits`, and is then `2^e` |
| Directive.WideBoundsOverflowAsWritten | src/raw.rs:147-178 | the bounds as written overflow for 16-byte types and agree with the intended bounds below that |
| Directive.WideBoundsCorrected | src/raw.rs:147-178 | with exact bounds, every `u128` is accepted as `u4` and every `i128` as `i4` |
| FirstPass.Pass1SkipAdvance | src/raw.rs:285-290 | after a directive, the first pass goes on at the view advanced past the whole tokens consumed and past the token a partial consumption stopped in. The remainder of that token is discarded, where the second pass would re-present it |
| FirstPass.Pass1 | src/raw.rs:246-306 | the first pass keeps every label name already recorded, never lowers the count, and fails only on a duplicate label or a failing directive |
| FirstPass.Pass1KeepsAddresses | src/raw.rs:259-271 | a label, once recorded, keeps its address to the end of the first pass |
| FirstPass.Pass1DuplicateMeansRepeat | src/raw.rs:259-270 | whatever directives the stream holds, a duplicate-label error means some label name is declared twice |
| FirstPass.LoneColonIsLabel | src/raw.rs:259-269 | the lone `:` of a spaced declaration is itself read as a label named `""`, so `a : b :` is refused as `""` declared twice |
| FirstPass.LabelMapKeys | src/raw.rs:259-264 | the reference table holds exactly the names of the labels declared so far |
| FirstPass.LabelMapValue | src/raw.rs:259-264 | with distinct names, every label maps to the bytes counted before it |
| FirstPass.Pass1Suffix | src/raw.rs:246-306 | on a stream without `.bytes` directives, from any point reached with no repeated label, the first pass ends in the reference table and count, or fails with a duplicate label exactly when a label repeats |
| FirstPass.LabelAddresses | src/raw.rs:246-306 | on a stream without directives, the first pass succeeds exactly when no label repeats, otherwise reporting a duplicate. Each label's address is two bytes per mnemonic before it, the table holds exactly the declared labels, and the count is two bytes per mnemonic |
| FirstPass.DuplicateLabelRefused | src/raw.rs:263-270 | `foo: foo:` fails with the duplicate label `foo` |
| FirstPass.SpacedColonLabel | src/raw.rs:259 | `next :` declares `next` like `next:` does, at the current count |
| SecondPass.Resolve | src/raw.rs:320-347 | a request succeeds exactly when every label it names is known. Otherwise it reports an unknown label it names, and for a distance the target is reported first |
| SecondPass.ResolveAgrees | src/raw.rs:320-347 | a distance is the difference of the two addresses and changes sign when its labels swap. The distance from here is the address less the current count |
| SecondPass.DistanceCurrentIsDistanceFromHere | src/raw.rs:324-345 | the distance from here equals the distance from a fresh label placed at the current count |
| SecondPass.Attempt | src/raw.rs:349-399 | as written, an iteration fails only with an unknown label or an out-of-bound value |
| SecondPass.AttemptOrder | src/raw.rs:349-399 | a directive that parses is emitted before any instruction. An instruction is emitted as two little-endian bytes that read back as its word. A non-matching instruction ends the group, and an unknown symbol or out-of-bound value is an error |
| SecondPass.InstructionBytes | src/raw.rs:366 | an instruction word is written as two bytes that read back as the word |
| SecondPass.Step | src/raw.rs:349-359 | the corrected iteration differs from the one as written only by reporting a failing recognised directive |
| SecondPass.RunLoop | src/raw.rs:316-399 | the loop over one group, written with one output and one byte count as the source keeps them, gives the same result as `Loop`. Each iteration runs at the count reached so far and appends its bytes in order, and on success the count has grown by exactly the bytes emitted |
| SecondPass.RunGroups | src/raw.rs:314-400 | the loop over the groups, with one output and one byte count for all of them, gives the same result as `Groupwise`. Each group starts at the count the groups before it reached, and on success the count has grown by exactly the bytes emitted |
| SecondPass.RunPass2 | src/raw.rs:308-401 | the whole second pass in that form gives the same result as `Pass2`, and on success the final count is the number of bytes emitted |
| SecondPass.LoopErrors | src/raw.rs:318-399 | a group's loop raises only errors its iterations raise |
| SecondPass.GroupwiseErrors | src/raw.rs:314-400 | the loop over the groups raises only errors a group raises |
| SecondPass.Pass2Errors | src/raw.rs:308-401 | the second pass fails only on an unknown label or an out-of-bound value, or, corrected, on a failing directive. It never reports a duplicate label |
| SecondPass.AssembleTokens | src/raw.rs:246-401 | unless it reports a directive failure, the corrected assembler gives the same bytes or the same error as the one as written. A duplicate-label error means some label name is declared twice |
| SecondPass.AssembleTokensAsWritten | src/raw.rs:246-401 | as written, a directive failure can only come from the first pass. A duplicate-label error means some label name is declared twice |
| SecondPass.Assemble | src/raw.rs:203-401 | on source chunks, the corrected assembler agrees with the one as written unless it reports a directive failure, and reports a duplicate label only when a name repeats among the tokens |
| SecondPass.AssembleAsWritten | src/raw.rs:203-401 | as written, on source chunks, a directive failure is the first pass's error |
| SecondPass.LoopsAgree | src/raw.rs:318-399 | two group loops whose iterations agree except where the first reports a directive failure give the same result, unless the first loop reports one |
| SecondPass.GroupwiseAgree | src/raw.rs:314-400 | the same, over all groups |
| SecondPass.StrictStepAgrees | src/raw.rs:349-359 | the corrected iteration and the one as written agree except on reported directive failures |
| SecondPass.StrictRunAgrees | src/raw.rs:318-399 | the corrected group loop and the one as written agree except on reported directive failures |
| SecondPass.DirectiveErrorReported | src/raw.rs:349-359 | in the corrected loop, a recognised directive whose value fails fails the group with that error |
| SecondPass.AssembleIgnoresWhitespace | tests/raw/properties.rs:144-187 | whitespace outside comments assembles exactly as a chunk boundary |
| SecondPass.AssembleIgnoresComment | tests/raw/properties.rs:144-187 | a comment through its line end assembles exactly as a chunk boundary |
| SecondPass.DirectiveErrorSwallowed | src/raw.rs:349-359 | `.bytes u0, missing` counts one byte in the first pass, and as written the second pass emits nothing and reports nothing |
| SecondPass.DirectiveErrorNowReported | src/raw.rs:349-359 | the corrected assembler reports the unreadable value of `.bytes u0, missing` |
| SecondPass.DistanceOfEightAsU1 | src/raw.rs:115-185 | `.bytes u1, a=>b`, with `b` placed 8 bytes after `a`, emits the two bytes 8 and 0 under the second pass's resolver, consuming the header and then the symbols |
| SecondPass.DistanceBackwardsRefused | src/raw.rs:115-192 | `.bytes u1, b=>a` resolves to −8, which the `u128` cast turns into `2^128 − 8`, and is refused as out of bounds with bounds 0 and 65536 |
| SecondPass.LabelsResolveAcrossPasses | src/raw.rs:324-330 | on the small instruction set, whose instruction word is the raw distance, `inc =>next  next: inc =>next` has the first pass place `next` at byte 2 (src/raw.rs:259-264), and the second pass resolves each `=>next` as that address minus the instruction's own address, giving 2 and then 0. The stream is modelled on the `inc =>next` case of tests/raw/cases.rs:46-58, which expects the real encoding instead |

Functions that only compute have no row of their own; the rows about them are:
- `Tokenizer.Tokenize`: `TokensWellFormed`, `TokensConcat`, `TokenizeAppend` and `Grouping.TokenStreamGroups`.
- `Tokenizer.SplitAfterColons`: `SplitAfterColonsParts` and `SplitAfterColonsConcat`.
- `Cursor.Advance`: `AdvanceExact`, `AdvanceShrinks` and `AdvanceKeepsSuffix`.
- `Cursor.Then`: `AdvanceThen`.
- `Directive.Value`: `SymbolBeforeLiteral` and `LiteralFallback`.
- `Directive.InBounds`: `DirectiveOutcome`, `SignedBoundsAlias`, `UnsignedBoundAliasesZero`, `SignedByteRefuses200` and `WideBoundsCorrected`.
- `Directive.Placeholder`: `PlaceholderInBounds` and `PlaceholderSymbolEmits`.
- `FirstPass.Pass1Skip`: `Pass1SkipAdvance`.
- `SecondPass.Loop`: `RunLoop`, `LoopErrors` and `LoopsAgree`.
- `SecondPass.Groupwise`: `RunGroups`, `GroupwiseErrors` and `GroupwiseAgree`.
- `SecondPass.Pass2`: `RunPass2`, `Pass2Errors` and `StrictRunAgrees`.

## Left out

- Input and output: the assembler reads an iterator of `&str` chunks, modelled as a sequence of strings. Error messages are an error datatype carrying only the label, value and bound payloads, not the formatted strings.
- The instruction-set library: the directive type header, the symbol and `=>` grammars, the `i128`/`u128` literal parsers, `Instruction::parse` and `encode`. These are fields of `Isa.Syntax`, so every property holds for any instruction set. The small instruction set in `SecondPass` exists only for the concrete cases.
- The regular expressions recognising mnemonics and the `.bytes` keyword (src/raw.rs:234-244): modelled as exact membership in a set of strings and equality with `.bytes`.
- `CanConsume::advance_iter_in_place` is outside the repository. It is modelled as dropping whole tokens and then characters of the next token, whose remainder becomes the head of the view. A consumption past the end empties the view.
- The `assert!(pow2 <= 4)` panic (src/raw.rs:112): the type size exponent is a subset type of 0 to 4, so that panic cannot happen in the model.
- Byte counts and label addresses are unbounded integers. The source keeps them in `i32` and casts `bytes.len()` with `as i32`, which would wrap only past 2^31 bytes.
- SecondPass.Loop: an iteration that succeeds but leaves the view the same size ends the group after emitting once. The source would repeat such an iteration forever.
- The first pass treats a lone `:` after a name as a label declaration (src/raw.rs:259), while grouping ends a group only at a token ending in `:`. The model keeps both rules as written and does not prove them consistent. `FirstPass.LoneColonIsLabel` shows one consequence.
- SecondPass.Assemble: runs the corrected second pass, which reports a failing `.bytes` directive that src/raw.rs:351 passes over. `SecondPass.AssembleAsWritten` keeps the second pass as written.
- Directive.ParseBytesDirective: uses the exact bounds for 16-byte types, where src/raw.rs:147-148 and 178 overflow. Both assemblers, `SecondPass.AssembleAsWritten` included, use these exact bounds.
- Cursor.Then: the consumption that `advance_iter_in_place` returns at src/raw.rs:113, which replaces `consumed` and is what src/raw.rs:154 and 184 pass to `then`, is modelled as the header's own consumption unchanged. The arithmetic of `CanConsume::then` comes from scry_isa, which is not part of this model. It is modelled so that whole tokens add up, and characters carry over only when the second consumption skips no whole token. `Cursor.AdvanceThen` rests on the arithmetic; `Directive.DirectiveConsumption`, `SecondPass.DistanceOfEightAsU1` and `FirstPass.Pass1SkipAdvance` rest on the reading of src/raw.rs:113.
- Directive.Grammar: the header, symbol and literal grammars are modelled as not consulting the resolver, although src/raw.rs:105, 115, 140 and 171 pass it to each of them. `Directive.LengthIndependentOfResolver` and `Directive.DirectiveWithoutValue` rest on this.
- FirstPass.Pass1Suffix: holds only on streams without `.bytes` directives, because its reference count `CountedBytes` counts two bytes per mnemonic and nothing for a directive. With directives neither direction of its equivalence holds: the value read by a directive can swallow a repeated label token (`a: .bytes a:` succeeds), and a directive that fails makes the pass fail on distinct labels (`.bytes` alone). `FirstPass.Pass1DuplicateMeansRepeat` is the part that holds on every stream.
- FirstPass.LabelAddresses covers streams without `.bytes` directives. With directives, the width counted comes from `Directive.PlaceholderSymbolEmits` and `Directive.LengthIndependentOfResolver`.
- The second pass's byte count at each instruction is not proved equal to the first pass's count at the same token in general. `SecondPass.LabelsResolveAcrossPasses` shows it on one stream.
- `Disassemble` (src/assemble.rs) has no implementation, and src/lib.rs only re-exports.

## Findings

| source | as written | input that shows it | evidently intended | confidence | as-written member | corrected member |
|---|---|---|---|---|---|---|
| src/raw.rs:147-178 | the bounds of a 16-byte type are computed as `2u128.pow(128)` and `2i128.pow(127)`, which overflow their types | `.bytes u4, 5` or `.bytes i4, 5` | every `u128` fits a `u4` and every `i128` an `i4` | not executed | Directive.WideBoundsOverflowAsWritten | Directive.WideBoundsCorrected |
| src/raw.rs:351-359 | when a `.bytes` directive fails in the second pass, the error is dropped. The instruction parser then fails on `.bytes`, which ends the group without an error | `.bytes u0, missing` where `missing` is not a label | an unknown label or out-of-bound value in a directive is reported, as the first pass reports directive errors | not executed | SecondPass.DirectiveErrorSwallowed | SecondPass.DirectiveErrorNowReported |

The rest of the model uses the corrected definitions: `Directive.InBounds` uses exact powers of two, and `SecondPass.AssembleTokens` and `SecondPass.Assemble` run the second pass with `strict` set. `SecondPass.AssembleTokensAsWritten` and `SecondPass.AssembleAsWritten` keep the second pass as written.
