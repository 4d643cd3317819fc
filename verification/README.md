# The llama.cpp oracle, verified

These Dafny modules model the oracle side of the engine: the programs that
produce, exchange and check llama.cpp reference answers. They prove what those
programs are relied on for, for every input, every run or every file.

* **Reference forward pass** (`Vectors`, `Softmax`, `Rope`, `GemmaForward`,
  `GemmaTextbook`, `GemmaTheorems`, `GemmaGroups`, `GemmaResiduals`,
  `GemmaRun`). A whole decoder over the reals, with any number of layers,
  heads, dimensions and tokens: RMS norm, NEOX rotary embedding,
  grouped-query causal attention with a max-stabilised softmax, gated
  feed-forward, residuals, a tied output head. `exp`, `cos`, `sin` and `sqrt`
  are parameters known by their algebraic laws; the activation and all weights
  are arbitrary. `GemmaForward` is the vectorised specification and
  `GemmaTextbook` the plain sums it is proved equal to, entry by entry. `GemmaRun` and
  `Rope.RopeNeox` run it the way the script does (rebinding `x`, filling the
  attention block head by head, overwriting the two halves of each head band by
  band) and are proved equal to it.
* **MLA split** (`MlaSplit`). The combined decompression matrix of a latent
  attention layer, split per head, and attention computed both ways.
* **FXTK protocol and dumpers** (`Fxtk`, `FxtkLayout`, `LlamaRuntime`, `LlamaTokenize`,
  `Greedy`, `LlamaContext`, `LlamaDecode`, `LlamaEmbed`). The byte formats with
  both their ends, and the dumper's three commands over a runtime that records
  every acquisition and refuses a second or a wrong release. llama.cpp is an
  abstract deterministic function from the context's setting (cache element type,
  flash attention) and a token history to logits; a context is
  an object with one buffer of rows that every decode call overwrites.
  `Greedy` says what a greedy run is, independently of both drivers.
* **C++ declaration scanner** (`CppScanner`, `CppTrees`, `CppBlockComments`,
  `CppSpellings`, `CppDeclarations`, `FlagRows`). The parenthesis matcher, a printer for nested
  trees of text, literals, comments and groups, the spelling lists, a whole
  declaration, and the merge of the declarations into flag rows.
* **WordPiece** (`WordPiece`, `PunctuationSplit`, `WordPieceTheorems`). Word splitting, greedy
  longest match, detokenization and pair framing.
* **Goldens** (`RustGoldens`, `GoldenCheck`, `GoldenArrays`, `DecodeGoldens`,
  `GoldenRuns`). Finding, reading and rewriting a Rust array constant, the check and its convergence, and the
  decode golden format between the C++ printer and the Python parser.

`Texts`, `Sequences` and `Options` hold what several of these share.

The main results, one a line:

* the pass computes the textbook's sums (`GemmaTextbook.RowsAre`,
  `GemmaTextbook.LogitsAreTextbook`); its hidden rows are causal through every
  layer (`GemmaTheorems.HiddenIsCausal`)
  and see relative positions only (`GemmaTheorems.HiddenIsShiftInvariant`);
* absorbed attention is naive attention (`MlaSplit.Shape.AbsorbedEqualsNaive`);
* the FXTK formats are exact at both ends (`Fxtk.ParseInvertsEncode`,
  `Fxtk.AcceptedIsEncoding`, `Fxtk.AcceptedIsResult`), and a zero exit is
  complete under an exact condition
  (`LlamaTokenize.TokenizeWorld.ZeroExitIsComplete`);
* every command releases what it acquired on every path
  (`LlamaTokenize.CmdTokenize`, `LlamaDecode.CmdLogits`, `LlamaEmbed.CmdEmbed`);
* the two greedy drivers agree exactly when their settings answer alike along
  the run (`LlamaDecode.CompareDrivers`), and the goldens read back
  (`GoldenRuns.DumpToGolden`);
* the scanner finds exactly the printed groups (`CppTrees.FoundExactlyGroups`),
  is right about block comments under an exact guard
  (`CppBlockComments.NeutralExactly`), and declarations read back
  (`CppDeclarations.DeclarationRead`);
* the merge is an ordered, idempotent union that fails exactly on a conflict
  (`FlagRows.MergeIsUnion`, `FlagRows.MergeFailsOnConflict`);
* tokenizing is lossless and framing decodable
  (`WordPieceTheorems.WordpieceIsLossless`, `WordPieceTheorems.FrameIsDecodable`);
* the check of a golden is characterised value by value
  (`GoldenArrays.CheckSays`, `DecodeGoldens.CheckDecodeSays`), and rewriting
  converges under an exact condition
  (`GoldenCheck.RewriteConverges`, `DecodeGoldens.DecodeRewriteConverges`).

## Where the code and its documentation part

The model follows the code. For each promise that fails, a lemma gives an
input, and another says exactly when the promise holds.

* `merge` promises one row per spelling *set* but keys its dictionary by the
  ordered list. Input: `FlagRows.ReorderedSpellingsStayApart`. Condition:
  `FlagRows.OneRowPerSpellingSet`.
* `matching_paren` promises to skip comments but only knows line comments.
  `CppBlockComments.FullMatch` is the promised scan, skipping block comments
  too. Inputs: `CppBlockComments.CommentMisleads`, `CppBlockComments.SlashInput`.
  Call a first block comment neutral if, read as code, it comes back to its own
  end at the depth it started with.
  * For every continuation that holds no block comment and does not start with
    a slash, the answer is right if and only if the comment is neutral
    (`CppBlockComments.NeutralExactly`).
  * If the continuation starts with a slash, the end mark and the slash are
    read as a line comment: a neutral comment's scan resumes at the next
    newline, or raises (`CppBlockComments.SlashBehind`). It is then right if and
    only if the rest of the line leaves the depth as it was
    (`CppBlockComments.SlashBehindExactly`, for a continuation without block
    comments whose line is read as code to its newline, when the full scan
    finds a parenthesis), and no comment is safe before every such continuation
    (`CppBlockComments.SlashMisleads`).
  * In one text whose only block comment starts no literal or line comment, and
    in which the full scan finds a closing parenthesis, the answer is right if
    and only if the comment's parentheses balance without closing
    (`CppBlockComments.OneCommentExactly`). Where the full scan finds none, an
    unbalanced comment can leave both scans with the same error.
  * An answer with no block comment opening before it is always right
    (`CppBlockComments.NoBlocksAgree`). Comments that are not neutral can cancel
    each other out (`CppBlockComments.CommentsCancel`), which is why the first
    condition is about every continuation and not about one text.
* `wordpiece` promises to split on punctuation but keeps `_` inside words.
  Input: `PunctuationSplit.UnderscoreJoins`. Condition: no `_` stands next to an
  alphanumeric character or another `_`
  (`PunctuationSplit.SplitsOnPunctuation`).
* A zero exit from `--tokenize` does not mean a complete file: the results of
  `fwrite` and `fclose` are ignored. Input: `LlamaTokenize.ZeroExitCutFile`.
  Condition: there was room, and no id is negative
  (`LlamaTokenize.TokenizeWorld.ZeroExitIsComplete`).
* A result file the reader accepts need not be the encoding of what it returns:
  of the flag word it keeps two bits. Input: `Fxtk.FlagsDropped`. Condition: the
  flag word is below 4 (`Fxtk.AcceptedIsResult`).
* The two decode drivers make their contexts differently: the C++ one always
  with an f32 cache and flash attention off, the C one with an f16 cache and
  flash attention left alone unless told otherwise, and the setting changes the
  answers. Input: `LlamaDecode.DefaultsDisagree`. Condition, for one engine and
  run: the two settings answer alike on its histories
  (`LlamaDecode.CompareDrivers`); for all of them: `FRINK_CTK=f32` and
  `LLAMA_LOGITS_FLASH_ATTN=0` (`LlamaDecode.SettingsAgreeExactly`).
* A rewritten golden need not check as SAME: values are printed through an f32
  literal. Input: `GoldenArrays.NeverSettles`. Condition: every value is within
  the tolerance of what its literal reads back as
  (`GoldenCheck.RewriteConverges`). For decode goldens, an output without a logit
  is written and then stops the next check (input:
  `DecodeGoldens.EmptyOutputStops`, condition:
  `DecodeGoldens.DecodeRewriteConverges`).
* `cmd_embed` takes only a negative decode status for a failure; `cmd_logits`
  takes any non-zero one. Both are modelled as they are.

## Model

| member | source | states |
|---|---|---|
| Softmax.StabilisationIsExact | scripts/gemma_fixture_numpy_ref.py:81-83 | Subtracting the row maximum before exponentiating gives exactly the weights of the plain softmax |
| Softmax.SoftmaxIsDistribution | scripts/gemma_fixture_numpy_ref.py:79-83 | The weights sum to one, masked columns weigh zero and all others are positive |
| Softmax.MaskedTail | scripts/gemma_fixture_numpy_ref.py:79-83 | Appending masked columns changes no weight and adds zeros |
| Softmax.SoftmaxIsConvex | scripts/gemma_fixture_numpy_ref.py:83 | A softmax-weighted sum lies between any bounds on the unmasked entries |
| Rope.Rotary.ScoreIsRelative | scripts/gemma_fixture_numpy_ref.py:48-58 | The dot product of a query rotated to `a` and a key rotated to `b` is a function of `a - b` alone |
| Rope.Rotary.RotationIsIsometry | scripts/gemma_fixture_numpy_ref.py:48-58 | Rotating two heads to the same position keeps their dot product |
| Rope.TurnBand | scripts/gemma_fixture_numpy_ref.py:52-57 | One band's assignment writes both of its columns from the original heads and no other column |
| Rope.RopeNeox | scripts/gemma_fixture_numpy_ref.py:48-58 | The in-place band loop yields a new array whose rows are the rotated heads |
| GemmaForward.Dims.KvHeadInRange | scripts/gemma_fixture_numpy_ref.py:75-77 | Every query head is mapped to a key/value head that exists |
| GemmaTextbook.TurnedIs | scripts/gemma_fixture_numpy_ref.py:48-58 | The rotated head is, entry by entry, each pair `(i, i + half)` turned by `pos * freq(i)` |
| GemmaTextbook.CausalSoftmax | scripts/gemma_fixture_numpy_ref.py:79-83 | The masked, max-stabilised row is the plain softmax over the positions up to `t`, and zero behind |
| GemmaTextbook.GatheredIs | scripts/gemma_fixture_numpy_ref.py:74-84 | Entry `k` of the flattened attention block is component `k % hd` gathered by head `k // hd` from key/value head `k // hd // rep` |
| GemmaTextbook.BehindIs | scripts/gemma_fixture_numpy_ref.py:65-88 | A layer's row is the textbook's: attention added, then the feed-forward branch of that sum added |
| GemmaTextbook.RowsAre | scripts/gemma_fixture_numpy_ref.py:61-88 | Every hidden row after any number of layers is the textbook's causal sums, with the embedding's scale and every constant spelled out |
| GemmaTextbook.LogitsAreTextbook | scripts/gemma_fixture_numpy_ref.py:61-90 | Every logit is the textbook's |
| GemmaTheorems.HeadOutPrefix | scripts/gemma_fixture_numpy_ref.py:74-83 | Extending the sequence leaves every head's output at an old position unchanged |
| GemmaTheorems.HiddenIsCausal | scripts/gemma_fixture_numpy_ref.py:61-90 | After any number of layers, the run on any extension of a prompt has the prompt's own hidden rows |
| GemmaTheorems.RowDependsOnPrefixOnly | scripts/gemma_fixture_numpy_ref.py:61-90 | Prompts that agree on tokens `0..t` have the same hidden row and the same logits at `t` |
| GemmaTheorems.LastLogitsAreCausal | scripts/gemma_fixture_numpy_ref.py:61-90 | The returned logits are the corresponding row of any longer run |
| GemmaTheorems.ScoreShift | scripts/gemma_fixture_numpy_ref.py:71-80 | A scaled attention score does not see where positions start |
| GemmaTheorems.HiddenIsShiftInvariant | scripts/gemma_fixture_numpy_ref.py:48-90 | Starting the positions at any offset leaves every hidden row of every layer unchanged |
| GemmaTheorems.LogitsAreShiftInvariant | scripts/gemma_fixture_numpy_ref.py:48-90 | ... and all logits |
| GemmaTheorems.AttentionIsConvex | scripts/gemma_fixture_numpy_ref.py:74-83 | Every attention output component lies between any bounds on the visible value rows of the mapped key/value head |
| GemmaGroups.GroupedIsRepeated | scripts/gemma_fixture_numpy_ref.py:75-83 | Grouped attention equals full attention over key/value heads that are each repeated once per query head of their group |
| GemmaResiduals.RmsNormalises | scripts/gemma_fixture_numpy_ref.py:34-35 | With unit gain, the mean square of a normalised row is `ms / (ms + EPS)` of the row's own mean square |
| GemmaResiduals.SilentLayerKeepsRows | scripts/gemma_fixture_numpy_ref.py:84-88 | A layer whose output and down projections are zero returns every row as it was: both branches are residual |
| GemmaResiduals.LayerIsTwoHalves | scripts/gemma_fixture_numpy_ref.py:84-88 | A layer is its attention-only half followed by its feed-forward-only half: the second branch reads the rows the first has left |
| GemmaResiduals.FeedForwardIsLinearInUp | scripts/gemma_fixture_numpy_ref.py:85-88 | The feed-forward branch is linear in the up projection, sums and multiples, for every activation of the gate |
| GemmaRun.Project | scripts/gemma_fixture_numpy_ref.py:67-73 | The projection loop gives the specified queries, keys and values of every position |
| GemmaRun.FillHead | scripts/gemma_fixture_numpy_ref.py:75-83 | One head of the attention block is filled with its softmax outputs, the other heads are untouched |
| GemmaRun.Attention | scripts/gemma_fixture_numpy_ref.py:74-83 | The filled block holds the specified attention of every position |
| GemmaRun.RunLayer | scripts/gemma_fixture_numpy_ref.py:65-88 | One iteration of the layer loop is one specified layer step |
| GemmaRun.Run | scripts/gemma_fixture_numpy_ref.py:61-90 | The whole run returns the specified logits of the last position, which are the textbook's sums |
| MlaSplit.Shape.SplitEntries | scripts/make_deepseek2_fixture.py:229-231 | Every entry of the combined matrix lands, in range, at its head-major place in one of the halves |
| MlaSplit.Shape.JoinInvertsSplit | scripts/make_deepseek2_fixture.py:229-231 | The split loses nothing: joining the halves gives the matrix back |
| MlaSplit.Shape.SplitInvertsJoin | scripts/make_deepseek2_fixture.py:229-231 | The split is onto: splitting a joined matrix gives back both halves |
| MlaSplit.Shape.ScoresAgree | scripts/make_deepseek2_fixture.py:48-51 | A query absorbed through `k_b` scores a latent as it scores the expanded key |
| MlaSplit.Shape.ValuesAgree | scripts/make_deepseek2_fixture.py:48-51 | Weighing latents and applying `v_b` equals weighing the expanded values |
| MlaSplit.Shape.AbsorbedEqualsNaive | scripts/make_deepseek2_fixture.py:48-51 | The absorbed and the naive attention of a head agree for every query, latents and weighing of the scores |
| Fxtk.WrU32 | tools/llama_logits.c:160-168 | The four bytes written are the one word that reads back as the value |
| FxtkLayout.WordsAreLittleEndian | tools/llama_logits.c:156-168 | Words are written and read least significant byte first |
| Fxtk.ReadWritten | tools/llama_logits.c:156-168 | A written word reads back anywhere in a byte sequence |
| Fxtk.SignedAt | tools/llama_logits.c:170-172 | A signed id written through the unsigned writer is recovered |
| Fxtk.ScanEncoded | tools/llama_logits.c:240-263 | Scanning encoded texts in place slices out exactly those texts, within the blob |
| Fxtk.ParseInvertsEncode | tools/llama_logits.c:227-268 | An encoded case file followed by any bytes parses to exactly its texts |
| Fxtk.AcceptedIsEncoding | tools/llama_logits.c:227-268 | Whatever is accepted re-encodes to its own consumed prefix |
| FxtkLayout.AcceptedLayout | tools/llama_logits.c:227-268 | An accepted case file starts with FXTK and its number of texts; each text is right behind its four-byte length, each length right behind the text before it |
| Fxtk.ProperPrefixRejected | tools/llama_logits.c:227-268 | Every proper prefix of an encoded case file is rejected |
| Fxtk.ReaderInvertsWriter | crates/frink-cli/src/parity/tokenize.rs:438-507 | The reader recovers every result without negative ids from its encoding: all of it if and only if the flag word has only the two bits it keeps |
| Fxtk.AcceptedIsResult | crates/frink-cli/src/parity/tokenize.rs:438-507 | Every accepted file is the encoding of what the reader returns with some flag word of those two bits; what it returns encodes to the file again if and only if the flag word is below 4 |
| Fxtk.FlagsDropped | crates/frink-cli/src/parity/tokenize.rs:438-507 | A file with flag word 4 is accepted and encodes to another file from what is returned |
| Fxtk.TruncatedResultRefused | crates/frink-cli/src/parity/tokenize.rs:438-507 | No proper prefix of a result file is accepted |
| Fxtk.ResultPrefixFree | tools/llama_logits.c:77-83 | No result file is a proper prefix of another |
| Fxtk.AcceptedIdsNonNegative | crates/frink-cli/src/parity/tokenize.rs:481-489 | An encoded result is accepted if and only if it holds no negative id |
| LlamaRuntime.Runtime.Acquire | tools/llama_logits.c:206-216 | An acquisition that may fail makes exactly one new live resource, or none |
| LlamaRuntime.AllReleasedExactlyOnce | tools/llama_logits.c:220-604 | With nothing live, every resource ever acquired was released exactly once and nothing else was |
| LlamaTokenize.ReadAll | tools/llama_logits.c:174-204 | The file is closed on every path and the buffer is the only thing left live, exactly when reading succeeded |
| LlamaTokenize.ValidateCases | tools/llama_logits.c:246-268 | The validating loop accepts what the format accepts and fills both arrays with its offsets and lengths |
| LlamaTokenize.WriteRun | tools/llama_logits.c:321-324 | A run appends its count and ids, as far as the device has room |
| LlamaTokenize.WriteCase | tools/llama_logits.c:299-328 | A case appends its runs, stops at the first that does not fit, and frees its buffer either way |
| FxtkLayout.CaseBytesSpelled | tools/llama_logits.c:302-327 | What a case appends, byte by byte: the parse_special false answer before the true one, the first alone if only it fits one id a byte and four, nothing without its buffer |
| LlamaTokenize.CmdTokenize | tools/llama_logits.c:220-341 | Every exit has the specified code, nothing stays live, and the file holds the specified bytes as far as there was room |
| LlamaTokenize.TokenizeWorld.ExitExactly | tools/llama_logits.c:220-340 | The exit codes spelled out: 2 for a foreign or cut file, 3 for a checkpoint that cannot be loaded, 0 if and only if everything works and both answers for every text fit |
| LlamaTokenize.TokenizeWorld.ZeroExitOutput | tools/llama_logits.c:288-340 | On a zero exit the bytes written encode the header and exactly two runs per case, in case order |
| LlamaTokenize.TokenizeWorld.ZeroExitIsComplete | tools/llama_logits.c:160-172 | After a zero exit the reader recovers both flags, the vocabulary's size and, for every text in order, the tokenizer's answers with parse_special false and true, if and only if the device had room and no id is negative |
| FxtkLayout.ZeroExitBytes | tools/llama_logits.c:286-328 | After a zero exit the bytes are FXTK, version 2, the flags, the vocabulary's size, the number of texts, and for each text its false run and its true run, ids in two's complement |
| LlamaTokenize.ZeroExitCutFile | tools/llama_logits.c:160-168 | A run with a zero exit on a device one byte short, whose file the reader refuses |
| Greedy.ArgmaxIsFirstMaximum | tools/llama_logits.c:459-464 | The argmax loop's result is the one first maximum of the row |
| Greedy.RowsAreGreedy | scripts/gptoss_reference_logits.cpp:160-187 | The specified rows and picks form a greedy run: each row answers the history, each token fed is its row's first maximum |
| Greedy.GreedyRunIsUnique | scripts/gptoss_reference_logits.cpp:160-187 | A model and a prompt have only one greedy run of each length |
| Greedy.RunsAgreeExactly | tools/llama_logits.c:389-403 | Two models run greedily to the same rows if and only if they answer alike on the histories of one run |
| Greedy.PicksPrefix | scripts/gptoss_reference_logits.cpp:160-187 | A longer run begins with the picks of a shorter one |
| LlamaContext.Context.Decode | scripts/gptoss_reference_logits.cpp:143-187 | A decode call appends the batch to the history and overwrites the buffer rows of the wanted entries with their answers, in order |
| LlamaContext.FirstMaximum | scripts/gptoss_reference_logits.cpp:164-170 | The argmax over the live buffer row |
| LlamaDecode.DecodePrompt | tools/llama_logits.c:412-446 | With the last entry wanted, the row read holds the answer to the whole prompt, whichever other rows were asked for |
| LlamaDecode.DecodeLoop | tools/llama_logits.c:457-487 | The rows written are the greedy rows up to the first call that fails; each was written before the next call overwrote it |
| LlamaDecode.CmdLogits | tools/llama_logits.c:345-497 | Every exit has the specified code, nothing stays live, and the file holds the greedy rows of its own cache and flash-attention setting as far as there was room |
| LlamaDecode.ExitExactly | tools/llama_logits.c:345-497 | The exit codes spelled out: 3 for a checkpoint that cannot be loaded, 0 if and only if everything works and no step fails |
| LlamaDecode.CacheReaches | tools/llama_logits.c:395-403 | The cache switch reaches the context: an engine that only an f32 cache turns starts with the other token exactly then |
| LlamaDecode.FlashReaches | tools/llama_logits.c:384-387 | The flash-attention switch reaches the context: an engine that only it turns starts with the other token exactly then |
| LlamaDecode.CaptureLoop | scripts/gptoss_reference_logits.cpp:160-187 | The captured rows and picked tokens are the greedy ones, with the last pick not fed |
| LlamaDecode.DumpGreedy | scripts/gptoss_reference_logits.cpp:134-187 | A prompt longer than the context or a failed first call fails; otherwise the decode mode succeeds exactly when the step count fits and no call fails, and then dumps the greedy run of an f32 cache without flash attention |
| LlamaDecode.CompareDrivers | tools/llama_logits.c:378-487 | Whenever both drivers come through: the C++ rows are a greedy run; the C file holds the same rows, and both fed the same tokens, if the C setting answers alike on that run's histories, with room enough only if it does; f32 without flash attention always does |
| LlamaDecode.DefaultsDisagree | scripts/gptoss_reference_logits.cpp:111-120 | With any setting but f32 and flash attention off, the two drivers differ for some engine from the first row and token on |
| LlamaDecode.SettingsAgreeExactly | scripts/gptoss_reference_logits.cpp:111-120 | The two drivers agree on every engine, prompt and step count if and only if the C driver is told f32 and no flash attention |
| LlamaDecode.ChunkIsRow | tools/llama_logits.c:457-485 | Row `i` is the `i`th chunk of the concatenated file |
| LlamaEmbed.Realloc | tools/llama_logits.c:521-531 | A failed `realloc` keeps the old block live, a successful one replaces it |
| LlamaEmbed.CmdEmbed | tools/llama_logits.c:504-598 | Every exit has the specified code and leaves nothing live; the pooled vector is printed exactly on success |
| LlamaEmbed.ExitExactly | tools/llama_logits.c:504-598 | The exit codes spelled out: 3 for a checkpoint that cannot be loaded, 0 if and only if everything works, the decode status is not negative and there is a vector |
| CppScanner.SkipLiteral | scripts/llama_cpp_flags.py:49-55 | The loop ends just past the literal's closing quote, or runs off the text |
| CppScanner.MatchingParen | scripts/llama_cpp_flags.py:58-77 | The scanning loop computes the specified match or error |
| CppScanner.MatchCharacterised | scripts/llama_cpp_flags.py:58-77 | An index is returned if and only if it ends a scan of code positions that first closes the depth there |
| CppScanner.DepthStaysPositive | scripts/llama_cpp_flags.py:58-77 | From an opening parenthesis, every code position before the one returned has depth at least one |
| CppScanner.MatchLocal | scripts/llama_cpp_flags.py:58-77 | A found match does not depend on any text behind it |
| CppScanner.FailureHasReason | scripts/llama_cpp_flags.py:49-77 | Every failure has its reason: IndexError an unfinished literal, no newline a line comment without one, unbalanced the end of the text |
| CppTrees.ScannerInvertsPrinter | scripts/llama_cpp_flags.py:49-77 | Between any prefix and suffix, the scanner returns a printed group's own closing parenthesis |
| CppTrees.LiteralInParentheses | scripts/llama_cpp_flags.py:49-66 | A string or char literal of bare characters and escapes in parentheses is passed over whole, for either quote character |
| CppTrees.FoundExactlyGroups | scripts/llama_cpp_flags.py:49-77 | From an opening parenthesis, an index is returned if and only if the text through it prints a well-formed group |
| CppBlockComments.NeutralCommentsAgree | scripts/llama_cpp_flags.py:58-77 | If every block comment read as code comes back to its own end at its depth, the answer, errors included, is that of the scan skipping all comments |
| CppBlockComments.NoBlocksAgree | scripts/llama_cpp_flags.py:58-77 | An answer with no block comment opening before it is that of the scan skipping all comments |
| CppBlockComments.OneCommentExactly | scripts/llama_cpp_flags.py:58-77 | With one block comment that starts no literal or line comment, and a closing parenthesis that the scan skipping all comments finds, the answer is right if and only if the comment's parentheses balance without closing |
| CppBlockComments.NeutralExactly | scripts/llama_cpp_flags.py:58-77 | After any first block comment, the answer is right for every continuation that holds no block comment and does not start with a slash if and only if the comment is neutral |
| CppBlockComments.SlashBehind | scripts/llama_cpp_flags.py:67-69 | After a neutral first block comment, a continuation that starts with a slash is skipped to its newline, or raises, where the scan skipping all comments reads on |
| CppBlockComments.SlashBehindExactly | scripts/llama_cpp_flags.py:67-69 | For such a continuation without block comments, whose first line reads as code to its newline, and with a parenthesis to be found, the answer is right if and only if that line leaves the depth as it was |
| CppBlockComments.SlashMisleads | scripts/llama_cpp_flags.py:67-69 | After every neutral first block comment, a slash and the closing parentheses raise where the scan skipping all comments finds the last of them |
| CppBlockComments.SlashInput | scripts/llama_cpp_flags.py:67-69 | An empty block comment with a slash behind it raises where the scan skipping all comments finds the parenthesis |
| CppBlockComments.CommentMisleads | scripts/llama_cpp_flags.py:58-77 | A parenthesis inside a block comment is taken for the closing one, which is three characters on |
| CppBlockComments.CommentsCancel | scripts/llama_cpp_flags.py:58-77 | Two block comments that are not neutral can leave the answer right |
| CppSpellings.ReadStringList | scripts/llama_cpp_flags.py:83-94 | The comment-skipping loop computes the specified list |
| CppSpellings.ListRead | scripts/llama_cpp_flags.py:80-94 | Every layout of a spelling list (comment lines, whitespace, commas or none) reads back its strings and its end |
| CppSpellings.SpellingsRead | scripts/llama_cpp_flags.py:106-116 | A list reads back as the spellings; a second list directly behind a comma as the negations, and without one, before the end or another argument that does not open a braced string, comment lines or not, there are none |
| CppDeclarations.DeclarationRead | scripts/llama_cpp_flags.py:97-116 | Anywhere in a source, the scanner cuts out a well-formed declaration, and its spellings and negations are read from it, with one list or two and, behind one, another argument that does not open a braced string |
| FlagRows.CommonRows | scripts/llama_cpp_flags.py:117-142 | One fresh row per admitted declaration, in order, merged as specified |
| FlagRows.ToolsSpelled | scripts/llama_cpp_flags.py:124-131 | A declaration lands in cli or server exactly if it is not excluded from it and names it, or common, or nothing |
| FlagRows.RowsComeFrom | scripts/llama_cpp_flags.py:117-141 | The rows are, in order, those of the declarations that are not preset-only and land in some tool, each with its own spellings, negations and variable |
| FlagRows.RowsListDeclared | scripts/llama_cpp_flags.py:117-141 | The rows list a tool under a spelling list exactly when some declaration admits it |
| FlagRows.MergedToolsAreDeclared | scripts/llama_cpp_flags.py:117-158 | A merged flag's tools are exactly those some declaration with its spellings admits |
| FlagRows.MergeIsUnion | scripts/llama_cpp_flags.py:145-158 | The merge has one row per distinct spelling list in first-occurrence order, each with the union of the tools |
| FlagRows.MergeFailsOnConflict | scripts/llama_cpp_flags.py:154-155 | It fails if and only if two rows with equal spellings disagree on env or negations |
| FlagRows.MergeIsIdempotent | scripts/llama_cpp_flags.py:145-158 | Merging again changes nothing |
| FlagRows.OneRowPerSpellingSet | scripts/llama_cpp_flags.py:145-150 | One row per spelling set results if and only if no two rows list one set in different ways |
| FlagRows.ReorderedSpellingsStayApart | scripts/llama_cpp_flags.py:145-150 | Two orders of one spelling set stay two rows |
| FlagRows.MergeInPlace | scripts/llama_cpp_flags.py:148-158 | The dictionary loop keeps row objects that were passed in, grows their tool sets in place, and computes the specified merge |
| WordPiece.Load | scripts/rerank_reference_ms_marco.py:115-116 | The vocabulary maps each line to the last index that holds it |
| WordPiece.Chars.SplitWords | scripts/rerank_reference_ms_marco.py:130-144 | The splitting loop computes the specified words |
| WordPiece.Chars.SplitGivesWords | scripts/rerank_reference_ms_marco.py:130-144 | Everything split off is a run of word characters or one punctuation character |
| WordPiece.Chars.SplitKeepsText | scripts/rerank_reference_ms_marco.py:130-144 | Splitting loses nothing but whitespace |
| WordPiece.Chars.SplitInvertsSpaced | scripts/rerank_reference_ms_marco.py:130-144 | Words printed with spaces between them are split back into the same words |
| PunctuationSplit.SplitsOnPunctuation | scripts/rerank_reference_ms_marco.py:126-144 | Every character that is neither whitespace nor alphanumeric is a word of its own, as the plain rule has it, if and only if no `_` stands next to an alphanumeric character or another `_` |
| PunctuationSplit.UnderscoreJoins | scripts/rerank_reference_ms_marco.py:126-144 | `a_b` is one word, where the plain rule gives three |
| WordPiece.MatchWord | scripts/rerank_reference_ms_marco.py:147-164 | The matching loop gives the ids of the longest-match pieces, one [UNK], or the KeyError |
| WordPiece.RunWordpiece | scripts/rerank_reference_ms_marco.py:130-165 | The whole tokenizer computes the specified ids or the first KeyError |
| WordPieceTheorems.MatchCharacterised | scripts/rerank_reference_ms_marco.py:147-164 | A word matches if and only if it has a greedy longest-match division, whose pieces are then its tokens; otherwise it is one [UNK] |
| WordPieceTheorems.GreedyIsUnique | scripts/rerank_reference_ms_marco.py:147-164 | A word has at most one greedy division |
| WordPieceTheorems.CharactersSuffice | scripts/rerank_reference_ms_marco.py:147-164 | A vocabulary with every character, bare and as a continuation, never yields [UNK] |
| WordPieceTheorems.FailsWithoutUnk | scripts/rerank_reference_ms_marco.py:159-164 | Tokenizing fails, naming [UNK], if and only if some word does not match and the vocabulary has no [UNK] |
| WordPieceTheorems.WordpieceIsLossless | scripts/rerank_reference_ms_marco.py:130-165 | The ids alone determine the number of words and every word that was matched |
| WordPieceTheorems.TextIdsArePlain | scripts/rerank_reference_ms_marco.py:130-165 | No text produces the id of [CLS] or [SEP] |
| WordPieceTheorems.FrameIsDecodable | scripts/rerank_reference_ms_marco.py:207-210 | A framed pair has one [CLS], two [SEP], segments that flip right after the first [SEP], and both id lists are recovered |
| GoldenArrays.CellsRead | tools/oracle/goldens.py:105 | Whatever separates them, a body's numbers (a sign or none, a digit, then digits, dot, exponent, signs) are read whole and in order |
| GoldenArrays.SignIsRead | tools/oracle/goldens.py:105 | A negative literal keeps its sign |
| RustGoldens.LinesRead | tools/oracle/goldens.py:105-114 | The literals written one a line are read back in order |
| RustGoldens.OneLineRead | tools/oracle/goldens.py:105-114 | The literals written on one line are read back in order |
| RustGoldens.EarlierEndsBefore | tools/oracle/goldens.py:96-105 | A match that starts earlier ends before a later match's array |
| RustGoldens.RewriteIsFound | tools/oracle/goldens.py:96-116 | After a rewrite the search finds the array at the same start with the same declared length, and no character outside the body changed |
| GoldenArrays.InnerIs | tools/oracle/goldens.py:109-114 | A rewritten body has each literal behind four blanks and before a comma on its own line if the old one had a newline, else all joined by comma and blank |
| GoldenArrays.ArrayFound | tools/oracle/goldens.py:96-104 | An array constant spelled out is found, with its body, whatever follows |
| GoldenArrays.CheckSays | tools/oracle/goldens.py:149-162 | The whole check spelled out: FAIL on another length (cut first if the name ends in _HEAD), SAME exactly if no pair is further apart than the tolerance, else the file with the compared values in the layout it had |
| GoldenCheck.ComputeMaxDelta | tools/oracle/goldens.py:158 | The loop computes the specified largest difference |
| GoldenCheck.DeltaWithin | tools/oracle/goldens.py:158-159 | The delta is within the tolerance exactly when every pair of values is |
| GoldenCheck.RewriteReadsBack | tools/oracle/goldens.py:109-116 | A rewritten golden reads back the fresh values, as their literals round them, in the layout it had |
| GoldenCheck.RewriteConverges | tools/oracle/goldens.py:149-162 | A second check with the same answer leaves the file alone, and says SAME if and only if each value is within the tolerance of what its literal reads back as |
| GoldenArrays.NeverSettles | tools/oracle/goldens.py:83-94 | An answer whose literal is further off than the default tolerance: the second check rewrites the file again |
| GoldenCheck.GoldenFile.Check | tools/oracle/goldens.py:149-162 | The check returns the specified verdict and overwrites the file exactly when it rewrites |
| DecodeGoldens.RunParseDecode | tools/oracle/goldens.py:119-126 | The line loop computes the specified tokens and logits |
| DecodeGoldens.ArgumentsOfLine | tools/oracle/goldens.py:123-125 | The arguments read off a printed line are the tokens behind its keyword |
| DecodeGoldens.RowsParse | scripts/gptoss_reference_logits.cpp:195-199 | Printed rows parse to their concatenation, appended to what was there |
| DecodeGoldens.PrintedLines | scripts/gptoss_reference_logits.cpp:188-199 | The lines printed are two comments, the prompt's tokens, the picked tokens, and each row, in order |
| DecodeGoldens.PrintedText | scripts/gptoss_reference_logits.cpp:188-199 | The text printed, in the dumper's own pieces |
| DecodeGoldens.SpreadSnoc | scripts/gptoss_reference_logits.cpp:191-197 | Each further number is printed behind one blank |
| DecodeGoldens.DecodeRoundTrips | scripts/gptoss_reference_logits.cpp:188-199 | Parsing what the dumper prints gives exactly the picked tokens and the rows in order, whatever prompt and comments say |
| DecodeGoldens.IntTextsInjective | scripts/gptoss_reference_logits.cpp:192-194 | Token texts determine the tokens |
| DecodeGoldens.DecodeFile.Check | tools/oracle/goldens.py:137-148 | The check of a decode golden returns the specified verdict and overwrites the file exactly when it rewrites |
| DecodeGoldens.CheckDecodeSays | tools/oracle/goldens.py:137-148 | The check of a decode golden spelled out, every error and verdict |
| DecodeGoldens.CheckComparesRuns | tools/oracle/goldens.py:137-148 | Checking one printed run against another says SAME if and only if the picks are equal and the logits are as many and within the tolerance |
| DecodeGoldens.DecodeRewriteConverges | tools/oracle/goldens.py:137-148 | A second check with the same output says SAME if and only if the output holds a logit and the tolerance is not negative |
| DecodeGoldens.EmptyOutputStops | tools/oracle/goldens.py:137-148 | The one-float-a-line output of a dumper without a step count replaces a decode golden, and the next check has no values to take the maximum of |
| GoldenRuns.DumpToGolden | scripts/gptoss_reference_logits.cpp:160-199 | A successful run of the dumper prints a file that parses to the picked tokens and the greedy rows of its setting |
| GoldenRuns.GoldenComparesModels | tools/oracle/goldens.py:137-148 | A model's golden checks as SAME against another model's run if and only if both pick the same tokens and all logits are within the tolerance |

## Left out

- Float rounding, NaN and infinities: all arithmetic is over the reals, so the tolerance and argmax claims are about exact values.
- The values of `exp`, `cos`, `sin` and `sqrt`: only their algebraic laws are used, and they are stated as preconditions.
- Sizes at the limits of C integers: case files are shorter than 2^31 - 4 bytes, and allocation sizes do not wrap.
- Fxtk.WrU32: shifts and masks are modelled by division and remainder.
- GGUF writing, random draws, subprocesses, environment variables, tokenizer and model files, libllama itself: parameters of the model.
- The other `scripts/make_*_fixture.py` writers: straight-line code whose rules live in comments.
- The encoder arithmetic of the reranker, its pooling and its sigmoid: it is not causal and repeats the forward pass's parts.
- Lower-casing, NFD and stripping of combining marks: the text reaches the splitter already normalised.
- WordPiece.Load: vocabulary lines arrive split; trailing newlines are already removed.
- CppDeclarations.DeclarationRead: one declaration at a time. The scan over the whole source for `add_opt(common_arg(`, the skipping of commented-out declarations, and the patterns for `set_examples`, `set_excludes`, `set_env` and `set_preset_only`: a declaration's answers to them are a record.
- Raw strings and digit separators: the scanner treats them as code and so does the model.
- FlagRows.MergeInPlace: a row's tool set is a value field of the row object, so two rows sharing one set object are not modelled.
- The error exits of the C++ dumper: it leaves without releasing anything, so nothing is claimed about its resources, nor about a NULL logits pointer, which it does not check.
- LoRA options and the identity lines; and whatever else of a context's setting (its sizes, its batch sizes) could change llama.cpp's answers: cache type and flash attention are modelled.
- CppSpellings.SpellingsRead: an argument behind the comma that opens a braced string without being a list of strings is not covered.
- RustGoldens.LinesRead: `\d` is the ten ASCII digits, and the literal of each value written is assumed to be a number the pattern sees whole, which excludes values beyond the f32 range, printed as `inf`.
- DecodeGoldens.DecodeRoundTrips: each logit printed is assumed to read back exactly, as `%.9g` of a finite float does, and files are assumed not to hold carriage returns that text mode would translate.
- Manifest reading, `run`, `expand` and the summary of `tools/oracle/goldens.py`: dispatch around the check.
- `scripts/llama_cpp_file_map.py`, `tools/oracle/parity.py` and `bench_rows`: counting and classification.
- The inference engine, its API crates and the UI are not part of this model.
