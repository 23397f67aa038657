# Verified model of the decoding, compilation and format core

This project models the parts of the repository that carry its hardest promises, and proves those promises
in Dafny. `dafny verify dfyconfig.toml` checks everything.

* **The ambiguity decoder.** A second-order Viterbi search over candidate lists (`Sentences`, `Lattices`, `Viterbi`),
  as a hash-table decoder (`ActiveTable`, `HashDecoder`), a dense-table decoder (`DenseDecoder`), a left-to-right
  decoder (`CausalDecoder`) and exact per-token score deltas (`ConditionalScores`), over a persistent score cache of
  pair rows, inline entries and an overflow table (`TransitionCache`, `CachedScoring`), and the perceptron's hashed
  features (`FeatureScratch`, `TrigramFeatures`, `TrigramWeights`, `FeatureKeys`), scored from banks of prepared words (`PreparedScoring`)
  and run on whole sentences (`PerceptronDecoder`).
* **The generic backend's decode step** (`KvDecode`): positions, the causal sliding-window mask, and per-layer K/V caches.
* **The morphology bundle compiler**: conditions, their compilation to bytecode and its validator (`ConditionLanguage`,
  `Conditions`, `Bytecode`, `ProgramValidator`); the machine that evaluates the bytecode on a path of the suffix graph
  (`ConditionVm`), what a condition says of a path in terms of names (`ConditionMeaning`), and the proof that the machine
  computes it (`PathWalks`, `CompiledMeaning`); suffix templates and their records (`Templates`), and edges laid out in per-state ranges
  with the checks on the compiled tables (`EdgeLayout`, `BundleCompiler`).
* **NedoFormer batches**: workers claiming chunks from a shared counter (`BatchWorkers`), and analyses collapsed into
  output classes (`ClassCollapse`).
* **The byte layer**: the lexical scanner (`Utf8`, `LexicalText`, `Scanner`), the lossless document format
  (`DocumentCodec`) and the compiled surface table (`SurfaceCodec`, `SurfaceLayout`, `SurfaceTable`, `SurfaceFile`).

`Common`, `MachineWords`, `Bits`, `Probing`, `ByteStrings`, `Lexicographic` and `Sorting` hold shared vocabulary: options and
results, word arithmetic, slot arithmetic of open-addressing tables, little-endian integers, list order and stable sorting.

## How to read the results

* **Optimality is a domination argument.** The active table grows by re-slotting entries with the old modulus
  (`ActiveHypotheses.Expand` does the same), so one state can be stored twice afterwards. The proofs therefore never treat
  the table as a map: a layer is correct when every path is dominated by some stored hypothesis with the same two last
  identities. The one assumption on sentences is that equal identities carry equal features.
* **Scores are exact.** Weights and scores are real numbers, and the decoders hold for every scoring function of three
  words. `TrigramFeatures` shows for the perceptron's own scorer that the direct and the prepared form compute one
  function, `FeatureKeys` that features are looked up by the same text either way, and `PreparedScoring` that scores from
  prepared words are the trigram scores whatever the banks hold. The decoders score through a `Workspace` of cache and banks, and
  `PerceptronDecoder` runs them on a whole sentence: the choice has the highest sum of feature weights.
* **The cache is transparent for every history.** `TrigramScoreCache.Valid` is kept by every operation, so scores
  agree with the uncached ones whatever was scored before, including after capacity is exhausted. A cache belongs to one
  meaning of signatures (`Meaning`); `Sentences.InternedIsCompatible` derives what is needed from how codes are made.
* **Attention is a function of what the mask lets through.** `KvDecode` fixes nothing about the per-layer mathematics;
  the reference run is defined without caches or batches, and the state of a context is a function of its history.
* **Compiled conditions mean what they say.** `ConditionMeaning.Holds` defines truth on the root-to-node history of a path,
  by names and without opcodes; `ConditionVm` is the runtime's machine, with its walks back through the arena and its
  stack. `ConditionCompiler.Compile` promises that the bytes it appends evaluate to that truth on every path.
* **Specifications are fixed from outside.** The functions that the main operations are proved against are themselves
  characterised by statements that do not use them: offsets and digits for the formats, characters for the scanner, levels
  and fingerprints for the model, named weights for the score, visible positions for the mask.
* **Schedules are arbitrary.** `BatchWorkers.RunWorkers` picks any active worker at every step, and
  `ScheduleIndependence` speaks of every sequence of choices.
* **Round trips are equivalences.** Decoders are specified by "read where, and only where, the encoding stands", which
  gives both directions of a bijection.
* **Two promises fail.** A validated bundle does not always survive its own compilation: the record of a template token
  stores no letter as zero, so the letter U+0000 is lost and the compiled edge is refused (`Templates.NulLetterIsRefused`).
  `BundleCompiler.CompileAndCheck` states the exact condition: no template letter is NUL. And a document that validation
  accepts does not always come back from its encoding: no check refuses a unit without cuts that ends before it starts,
  but the decoder does (`DocumentCodec.ReversedUnitIsLost`). `DocumentCodec.RoundTrip` states the exact condition for every
  accepted document: each unit starts no later than it ends, which is what `ByteSpan::new` checks.
* **Weights of classes** are images under an exponential function known only by its laws, so `log_add_exp` is proved to be
  addition rather than taken to be.

Methods of the source that loop or update state are methods here, specified by functions; objects that are updated in
place (`BoolStack`, `ConditionVm`, `ActiveHypotheses`, `OverflowScoreCache`, `TrigramScoreCache`, `FeatureScratch`, `HashSink`, `SharedPreparedWords`,
`PreparedWords`, `PreparedSentence`, `GenericContext`, `ConditionCompiler`, `ConditionProgramValidator`, `Compiler`,
`BinaryReader`) are classes. Sentinel values such as `u32::MAX` for "no row" are `None`. Threads, which the language lacks, are a state machine.

## Model

| member | source | states |
|---|---|---|
| `Sentences.Flatten` | runtime/NedoTokenizer/crates/nedo-morph-bundle/src/disambiguation.rs:766-832 | A sentence is refused exactly when it is empty, a token has no candidates, or the scoring codes have another shape; otherwise the flattened analyses, codes and token starts are those of the sentence |
| `Sentences.ScoresAgree` | runtime/NedoTokenizer/crates/nedo-morph-bundle/src/disambiguation.rs:766-864 | The score of a selection in the flattened sentence is the total trigram score of the chosen candidates, defined on the candidate lists alone, boundary words included |
| `Sentences.InternedIsCompatible` | runtime/NedoTokenizer/crates/nedo-morph-bundle/src/disambiguation.rs:44-80 | Interned codes, whose signatures below the reserved range name one content, satisfy everything the score cache relies on, boundary codes included; a candidate numbered into the reserved range or beyond is not cacheable |
| `Sentences.Disambiguate` | runtime/NedoTokenizer/crates/nedo-morph-bundle/src/disambiguation.rs:1030-1078 | Any acceptable sentence in which words of equal identity have equal features gets a choice of candidates whose total score no other choice exceeds, with or without codes, with a cache whose meaning its codes are interned for or without one, and also when the hash decoder is forced |
| `PreparedScoring.PrepareFeature` | runtime/NedoTokenizer/crates/nedo-morph-bundle/src/disambiguation.rs:1358-1374 | A feature is prepared from streamed hashes alone, with the weight and the hash of its text |
| `PreparedScoring.SharedPreparedWords.Ensure` | runtime/NedoTokenizer/crates/nedo-morph-bundle/src/disambiguation.rs:86-122 | An entry of the shared bank holds what its signature's word prepares to, and is filled at most once; other entries stay |
| `PreparedScoring.PreparedWords.EnsurePreparedWord` | runtime/NedoTokenizer/crates/nedo-morph-bundle/src/disambiguation.rs:191-240 | Every signature up to the limit gets a place that holds its prepared word, in the shared bank or behind it, and no earlier place changes its content |
| `PerceptronDecoder.InternedSignaturesName` | runtime/NedoTokenizer/crates/nedo-morph-bundle/src/disambiguation.rs:44-80 | Interned codes, boundary codes included, only ever key a bank with the content of their word |
| `PreparedScoring.PreparedSentence.EnsurePair` | runtime/NedoTokenizer/crates/nedo-morph-bundle/src/disambiguation.rs:1880-1953 | A pair of neighbouring words gets a slot of its layer that holds its prepared pair, and filling it touches no other pair |
| `PreparedScoring.ScoreUncached` | runtime/NedoTokenizer/crates/nedo-morph-bundle/src/disambiguation.rs:1955-2020 | Whatever banks and sentence tables hold from earlier, the score from prepared parts is the lattice score, and no expected entry is missing |
| `Lattices.TransitionsAreInLayers` | runtime/NedoTokenizer/crates/nedo-morph-bundle/src/disambiguation.rs:1897-1926 | Every transition along a path, the one into the end word included, is between words that stand next to each other at its position, where it has a slot in the pair layer |
| `PerceptronDecoder.Disambiguate` | runtime/NedoTokenizer/crates/nedo-morph-bundle/src/disambiguation.rs:1030-1078 | Run with the perceptron of a compressed model over a cache and banks carried from earlier sentences, the decoder returns a choice whose sum of feature weights, looked up by feature text, no other choice exceeds, and leaves cache and banks valid |
| `HashDecoder.DecodeHash` | runtime/NedoTokenizer/crates/nedo-morph-bundle/src/disambiguation.rs:1080-1153 | The hash decoder returns a selection with the maximum total score (end transition included) over all selections, although growth may leave two hypotheses for one state |
| `HashDecoder.ExtendLayer` | runtime/NedoTokenizer/crates/nedo-morph-bundle/src/disambiguation.rs:1095-1130 | Extending every active hypothesis by every candidate of a token gives a layer that again dominates all paths, and leaves the cache exact |
| `HashDecoder.Conclude` | runtime/NedoTokenizer/crates/nedo-morph-bundle/src/disambiguation.rs:1132-1152 | Adding the end scores in place and taking the first best hypothesis yields an optimal selection |
| `HashDecoder.OfferKeepsDomination` | runtime/NedoTokenizer/crates/nedo-morph-bundle/src/disambiguation.rs:2387-2440 | Offering a candidate keeps everything that was dominated dominated, also when a hypothesis is overwritten in place |
| `HashDecoder.OfferDominatesCandidate` | runtime/NedoTokenizer/crates/nedo-morph-bundle/src/disambiguation.rs:2387-2440 | An offered candidate is dominated by a stored hypothesis of its identities, whether it was appended, replaced another or was dropped |
| `Viterbi.LayerAdvances` | runtime/NedoTokenizer/crates/nedo-morph-bundle/src/disambiguation.rs:1095-1130 | If all paths of a length are dominated by active hypotheses with their last two identities, then so are all paths one token longer, given that equal identities carry equal features |
| `Viterbi.BestOfLastLayer` | runtime/NedoTokenizer/crates/nedo-morph-bundle/src/disambiguation.rs:1132-1152 | The best hypothesis of the last layer, with the end transition, scores at least as high as every complete path |
| `Viterbi.Reconstruct` | runtime/NedoTokenizer/crates/nedo-morph-bundle/src/disambiguation.rs:1313-1338 | Following backpointers from a hypothesis yields exactly the selection its path represents |
| `DenseDecoder.DecodeDense` | runtime/NedoTokenizer/crates/nedo-morph-bundle/src/disambiguation.rs:1155-1311 | Whenever the dense decoder selects, its selection is the unique optimum; it falls back for size, duplicate identities or a tie only when there are too many states, a repeated identity, or two different paths that really tie, and never selects in the presence of the first two |
| `DenseDecoder.DecodeBoth` | runtime/NedoTokenizer/crates/nedo-morph-bundle/src/disambiguation.rs:1080-1311 | Run on one lattice and one cache, the hash decoder returns the selection of the dense decoder whenever that one selects |
| `DenseDecoder.DenseLayerAdvances` | runtime/NedoTokenizer/crates/nedo-morph-bundle/src/disambiguation.rs:1199-1273 | A tie-free dense layer holds, per pair of identities, the strictly best path, and the next layer built by direct slots does so again |
| `DenseDecoder.SlotIsInjective` | runtime/NedoTokenizer/crates/nedo-morph-bundle/src/disambiguation.rs:1200-1227 | Distinct pairs of candidates get distinct dense slots within range |
| `DenseDecoder.Decode` | runtime/NedoTokenizer/crates/nedo-morph-bundle/src/disambiguation.rs:1030-1078 | Dense first, hash on fallback or when forced: the result is optimal in every case |
| `CausalDecoder.ChooseBest` | runtime/NedoTokenizer/crates/nedo-morph-bundle/src/disambiguation.rs:942-970 | The candidate chosen after two words is the first one with the highest score, whatever the cache holds |
| `CausalDecoder.DecodeCausal` | runtime/NedoTokenizer/crates/nedo-morph-bundle/src/disambiguation.rs:922-973 | Every choice is the only candidate or the first argmax given the two previous choices |
| `CausalDecoder.PrefixStability` | runtime/NedoTokenizer/crates/nedo-morph-bundle/src/disambiguation.rs:922-973 | Two sentences that agree on their first tokens get the same first choices whatever follows, with or without a warm cache |
| `ConditionalScores.ExactDelta` | runtime/NedoTokenizer/crates/nedo-morph-bundle/src/disambiguation.rs:660-743 | The difference of two entries of a row is the change of the total path score when only that token is replaced, one- and two-token sentences included |
| `ConditionalScores.ConditionalCandidateScores` | runtime/NedoTokenizer/crates/nedo-morph-bundle/src/disambiguation.rs:660-743 | Rows are produced exactly for valid selections, one entry per candidate, and entry minus selected entry is the change of the total score for every token and candidate |
| `ActiveTable.ActiveHypotheses.EnsureCapacity` | runtime/NedoTokenizer/crates/nedo-morph-bundle/src/disambiguation.rs:2323-2329 | The slot table has a power of two of slots, at least eight and at least the reserve, with scratch space to match; it grows to less than twice that, or stays when it was larger, and keeps its entries |
| `ActiveTable.ActiveHypotheses.Reset` | runtime/NedoTokenizer/crates/nedo-morph-bundle/src/disambiguation.rs:2338-2345 | The table is empty over its first eight slots, and size stays below the limit and the limit below the slot count |
| `ActiveTable.ActiveHypotheses.Locate` | runtime/NedoTokenizer/crates/nedo-morph-bundle/src/disambiguation.rs:2458-2485 | Probing ends, at a vacant slot or at a hypothesis of the same state |
| `ActiveTable.ActiveHypotheses.Expand` | runtime/NedoTokenizer/crates/nedo-morph-bundle/src/disambiguation.rs:2487-2518 | Growth with the old modulus keeps exactly the same hypotheses, each as often as before, and restores the size invariant |
| `ActiveTable.ActiveHypotheses.AddCandidate` | runtime/NedoTokenizer/crates/nedo-morph-bundle/src/disambiguation.rs:2387-2440 | A candidate replaces a worse hypothesis of its state in place, is dropped for one at least as good, or is appended and stored once |
| `ActiveTable.ActiveHypotheses.Snapshot` | runtime/NedoTokenizer/crates/nedo-morph-bundle/src/disambiguation.rs:2347-2358 | The snapshot lists every stored hypothesis as often as it is stored |
| `ActiveTable.ActiveHypotheses.Best` | runtime/NedoTokenizer/crates/nedo-morph-bundle/src/disambiguation.rs:2528-2536 | The best hypothesis is the first in slot order with the highest score; none exactly for an empty table |
| `TransitionCache.PackedFields` | runtime/NedoTokenizer/crates/nedo-morph-bundle/src/disambiguation.rs:1705-1758 | The three 21-bit fields of a packed key determine the three signatures, so equal keys mean equal signatures |
| `TransitionCache.TransitionRow.InsertInline` | runtime/NedoTokenizer/crates/nedo-morph-bundle/src/disambiguation.rs:1440-1458 | An inline row keeps at most one entry per third signature, updates it in place, and refuses only when all eight entries are taken by others |
| `TransitionCache.Probe` | runtime/NedoTokenizer/crates/nedo-morph-bundle/src/disambiguation.rs:1619-1641 | Probing a table with a vacant slot ends at the key or at the vacant slot that proves it absent |
| `TransitionCache.OverflowScoreCache.Get` | runtime/NedoTokenizer/crates/nedo-morph-bundle/src/disambiguation.rs:1508-1525 | A key is found exactly when it was inserted and not cleared since, with the last value inserted |
| `TransitionCache.OverflowScoreCache.Insert` | runtime/NedoTokenizer/crates/nedo-morph-bundle/src/disambiguation.rs:1527-1552 | An insertion updates the key or adds it, or is dropped when the table is at its limit, and changes no other key |
| `TransitionCache.TrigramScoreCache.EnsureRow` | runtime/NedoTokenizer/crates/nedo-morph-bundle/src/disambiguation.rs:1619-1641 | A pair gets one row, the same on every later call, or none when the rows are exhausted; old rows keep their pairs |
| `TransitionCache.TrigramScoreCache.Get` | runtime/NedoTokenizer/crates/nedo-morph-bundle/src/disambiguation.rs:1643-1659 | A lookup by row number returns what is retained for the row's pair and the third signature |
| `TransitionCache.TrigramScoreCache.LookupExact` | runtime/NedoTokenizer/crates/nedo-morph-bundle/src/disambiguation.rs:1643-1659 | In every reachable state a retained score is the exact score of the three contents and its next row is absent or the row of the last pair |
| `TransitionCache.TrigramScoreCache.Insert` | runtime/NedoTokenizer/crates/nedo-morph-bundle/src/disambiguation.rs:1661-1679 | Inserting an exact score keeps everything retained exact, inline, overflowing, or dropped at capacity |
| `TransitionCache.TrigramScoreCache.Clear` | runtime/NedoTokenizer/crates/nedo-morph-bundle/src/disambiguation.rs:1609-1617 | Clearing forgets all rows and overflow entries and keeps the capacity policy |
| `CachedScoring.ScoreTransition` | runtime/NedoTokenizer/crates/nedo-morph-bundle/src/disambiguation.rs:2081-2160 | Whatever the history of the cache, of the banks of prepared words and of the row carried along, the score is the uncached trigram score and the next row is absent or exactly the row of the last pair |
| `CachedScoring.InitialRow` | runtime/NedoTokenizer/crates/nedo-morph-bundle/src/disambiguation.rs:866-882 | The row handed to the root hypothesis is absent or the row of the begin pair |
| `FeatureScratchTable.OrderIrrelevant` | runtime/NedoTokenizer/crates/nedo-morph-bundle/src/disambiguation.rs:3187-3311 | The feature sum, and every saturating count, depends on the multiset of the features only |
| `FeatureScratchTable.FeatureScratch.Add` | runtime/NedoTokenizer/crates/nedo-morph-bundle/src/disambiguation.rs:3212-3278 | Adding a feature extends the log that the table represents, through collisions, reuse and growth |
| `FeatureScratchTable.FeatureScratch.Expand` | runtime/NedoTokenizer/crates/nedo-morph-bundle/src/disambiguation.rs:3280-3299 | Growth re-slots every entry and keeps what the table represents |
| `FeatureScratchTable.FeatureScratch.Score` | runtime/NedoTokenizer/crates/nedo-morph-bundle/src/disambiguation.rs:3301-3310 | The score is the sum over distinct features of weight times saturating count |
| `TrigramFeatures.Representative` | runtime/NedoTokenizer/crates/nedo-morph-bundle/src/disambiguation.rs:2956-2961 | Equal inflectional groups share the position of their first occurrence, which is what counts them together |
| `TrigramFeatures.PreparedIdentified` | runtime/NedoTokenizer/crates/nedo-morph-bundle/src/disambiguation.rs:1760-2072 | Every prepared feature is the one its identity stands for, so equal identities mean equal features |
| `TrigramFeatures.PreparedRefinesDirect` | runtime/NedoTokenizer/crates/nedo-morph-bundle/src/disambiguation.rs:2022-2072 | The prepared features of a trigram sum to the score of the direct ones although they are inserted in another order |
| `TrigramFeatures.ScoreDirect` | runtime/NedoTokenizer/crates/nedo-morph-bundle/src/disambiguation.rs:2918-2983 | The direct scorer computes the trigram score, for every word with fewer than 2^24 groups |
| `TrigramFeatures.ScorePrepared` | runtime/NedoTokenizer/crates/nedo-morph-bundle/src/disambiguation.rs:2022-2072 | The scorer over prepared words and pairs computes the same trigram score |
| `TrigramWeights.ScoreIsWeights` | runtime/NedoTokenizer/crates/nedo-morph-bundle/src/disambiguation.rs:2918-2983 | The score of a trigram is the weight of each named feature of its words, pairs and triple, plus for every group of the last word the weights of its two group features while it occurred fewer than 32767 times before, plus the weight of every group with its position |
| `FeatureKeys.Utf8IsWellFormed` | runtime/NedoTokenizer/crates/nedo-morph-bundle/src/disambiguation.rs:3340-3369 | The UTF-8 form of every string of scalar values is well-formed |
| `FeatureKeys.WellFormedIsUtf8` | runtime/NedoTokenizer/crates/nedo-morph-bundle/src/disambiguation.rs:3340-3369 | Every well-formed byte string is the UTF-8 form of a string of scalar values |
| `FeatureKeys.ForEachUtf16` | runtime/NedoTokenizer/crates/nedo-morph-bundle/src/disambiguation.rs:3340-3369 | Decoding UTF-8 bytes hands the consumer exactly the UTF-16 code units of the text (section 2.1 of RFC 2781) |
| `FeatureKeys.EmitDecimal` | runtime/NedoTokenizer/crates/nedo-morph-bundle/src/disambiguation.rs:3161-3176 | A number is streamed as its decimal numeral |
| `FeatureKeys.NumeralDenotes` | runtime/NedoTokenizer/crates/nedo-morph-bundle/src/disambiguation.rs:3161-3176 | The numeral consists of digits, denotes its number, and has no leading zero |
| `FeatureKeys.EmitView` | runtime/NedoTokenizer/crates/nedo-morph-bundle/src/disambiguation.rs:3036-3114 | Streaming a feature spells exactly the key text of that feature, for all eleven kinds |
| `FeatureKeys.UnitsDenote` | runtime/NedoTokenizer/crates/nedo-morph-bundle/src/disambiguation.rs:3340-3369 | A scalar value is one UTF-16 unit, or a surrogate pair from which it is read back |
| `FeatureKeys.JavaHashIsPolynomial` | runtime/NedoTokenizer/crates/nedo-morph-bundle/src/disambiguation.rs:3372-3380 | The Java hash of a text is the polynomial in 31 with the units as coefficients, modulo 2^32 |
| `FeatureKeys.MphfStreams` | runtime/NedoTokenizer/crates/nedo-morph-bundle/src/disambiguation.rs:3383-3389 | The model's hash can be resumed after any prefix, and takes one unit by exclusive or and multiplication by 16777619 modulo 2^32 |
| `FeatureKeys.KeysTellKindsApart` | runtime/NedoTokenizer/crates/nedo-morph-bundle/src/disambiguation.rs:3036-3114 | Features of different kinds never have the same key text, whatever words they carry |
| `FeatureKeys.LossyModel.Get` | runtime/NedoTokenizer/crates/nedo-morph-bundle/src/disambiguation.rs:406-422 | A key gets the weight of the entry its levels lead to (the first level whose bucket has a seed; level zero by the seeded hash, level k through the failed indexes of level k-1) when the entry carries the key's Java hash modulo 2^27, and zero otherwise |
| `FeatureKeys.LossyModel.GetVirtual` | runtime/NedoTokenizer/crates/nedo-morph-bundle/src/disambiguation.rs:424-459 | A feature gets, without its text, the weight of the entry the levels lead its text to when that entry carries the text's Java hash modulo 2^27, and zero otherwise |
| `FeatureKeys.LookUpBoth` | runtime/NedoTokenizer/crates/nedo-morph-bundle/src/disambiguation.rs:406-479 | For every feature and model both lookups give one weight |
| `KvDecode.HiddenIsCausal` | core/generic_backend.cpp:552-562 | The reference hidden state of a position depends on the tokens up to it only |
| `KvDecode.HiddenStep` | core/generic_backend.cpp:253-338 | In the reference run every layer attends, at each position, to the last `window` positions, or to all of them when the window is not positive or reaches back to the beginning |
| `KvDecode.MaskRow` | core/generic_backend.cpp:554-562 | Key k is open for a query position exactly when k is no later and, with a positive window, fewer than `window` positions before it |
| `KvDecode.OpenKeys` | core/generic_backend.cpp:554-562 | A mask row lets through min(window, position + 1) keys, the last ones up to the position and in order; all of them when the window is not positive |
| `KvDecode.AllowedSlice` | core/generic_backend.cpp:316-319 | What a mask row lets through is the window's slice of keys and values, in order |
| `KvDecode.RunLayer` | core/generic_backend.cpp:253-338 | A layer run on cached plus current K/V computes the reference hidden states and K/V of the batch |
| `KvDecode.ApplyUpdates` | core/generic_backend.cpp:595-609 | Writing the batch's K/V at n_past makes every layer's slots below the new n_past those of the reference run |
| `KvDecode.GenericContext.Decode` | core/generic_backend.cpp:513-620 | A call fails exactly for an empty batch or one beyond the context, then changing nothing; otherwise position, caches and logits are those of the reference run over the longer history |
| `KvDecode.StateDetermined` | core/generic_backend.cpp:513-620 | Position, logits and caches of a valid context are determined by its token history alone, however it was split into calls |
| `KvDecode.DecodeSplit` | core/generic_backend.cpp:513-620 | Any split into non-empty batches within the context succeeds and leaves the context of the concatenated tokens |
| `Conditions.ValidateNullableDictionarySet` | runtime/NedoTokenizer/crates/nedo-morph-bundle/src/lib.rs:1021-1051 | A dictionary set is accepted exactly when it is strictly sorted, known, and has at most one null, at its end |
| `Conditions.Validate` | runtime/NedoTokenizer/crates/nedo-morph-bundle/src/lib.rs:735-825 | The walk accepts exactly the conditions whose names are known, whose sets are sorted and whose combinations have two children or more |
| `ConditionLanguage.BitSetMembers` | runtime/NedoTokenizer/crates/nedo-morph-bundle/src/binary.rs:1850-1863 | The bits of an attribute set are exactly the indices of its attributes |
| `Conditions.ConditionCompiler.Compile` | runtime/NedoTokenizer/crates/nedo-morph-bundle/src/binary.rs:1184-1238 | Compilation fails exactly for a condition that cannot be resolved; otherwise it appends a program that evaluates, on every path of the search, to the truth of the condition (or fails there, exactly when some AND or OR has fewer than two children), and counts the null sentinels |
| `Conditions.ConditionCompiler.CompileFeature` | runtime/NedoTokenizer/crates/nedo-morph-bundle/src/binary.rs:1240-1309 | The root, dictionary and surface conditions get their opcodes and operands |
| `Conditions.ConditionCompiler.CompileMorphemeOrSurface` | runtime/NedoTokenizer/crates/nedo-morph-bundle/src/binary.rs:1311-1381 | The morpheme and surface conditions get their opcodes and operands |
| `Conditions.ConditionCompiler.CompileState` | runtime/NedoTokenizer/crates/nedo-morph-bundle/src/binary.rs:1383-1416 | The state conditions get their opcodes and operands |
| `Conditions.ConditionCompiler.CompileNullableSet` | runtime/NedoTokenizer/crates/nedo-morph-bundle/src/binary.rs:1442-1466 | A dictionary set is emitted with its count, nulls as the reserved index, and every null is counted |
| `Conditions.ValidatedResolves` | runtime/NedoTokenizer/crates/nedo-morph-bundle/src/lib.rs:735-881 | A validated condition resolves to a well-formed tree with the same Zemberek count and null-sentinel count |
| `Conditions.CompiledIsAccepted` | runtime/NedoTokenizer/crates/nedo-morph-bundle/src/binary.rs:1183-1479 | The program of a validated condition is accepted, parses back to the very tree it came from, and carries the condition's two counts |
| `Conditions.CompileAndValidate` | runtime/NedoTokenizer/crates/nedo-morph-bundle/src/binary.rs:1183-1767 | Compiling a validated condition and validating the program always succeeds and reports the source's Zemberek and null-sentinel counts, and on every path of the search the program evaluates to the truth of the condition |
| `CompiledMeaning.ProgramComputes` | runtime/NedoTokenizer/crates/nedo-morph-bundle/src/binary.rs:1183-1479 | For every condition that resolves, whatever its nesting, running the emitted bytes leaves exactly the truth of the condition on every path; the machine refuses the program exactly when some AND or OR has fewer than two children |
| `CompiledMeaning.FeatureMeans` | runtime/NedoTokenizer/crates/nedo-morph-bundle/src/binary/runtime.rs:1985-2021 | The machine's answers to the root, dictionary and surface opcodes, on indices and bits, are the truth of the named conditions they were compiled from |
| `CompiledMeaning.MorphemeOrSurfaceMeans` | runtime/NedoTokenizer/crates/nedo-morph-bundle/src/binary/runtime.rs:2023-2069 | The same for the morpheme and surface opcodes, sequences and previous groups included |
| `CompiledMeaning.StateMeans` | runtime/NedoTokenizer/crates/nedo-morph-bundle/src/binary/runtime.rs:2071-2108 | The same for the state opcodes, derivations and groups included |
| `CompiledMeaning.AcceptedEvaluates` | runtime/NedoTokenizer/crates/nedo-morph-bundle/src/binary/runtime.rs:1942-1955 | A program the validator accepts with one tree never fails in the machine, and evaluates to the truth of that tree |
| `ConditionVm.BoolStack.Push` | runtime/NedoTokenizer/crates/nedo-morph-bundle/src/binary/runtime.rs:1819-1833 | A value is put on top, inline or on the heap behind the 32nd |
| `ConditionVm.BoolStack.NegateLast` | runtime/NedoTokenizer/crates/nedo-morph-bundle/src/binary/runtime.rs:1835-1844 | The top value is negated; fails exactly for an empty stack |
| `ConditionVm.BoolStack.ReduceLast` | runtime/NedoTokenizer/crates/nedo-morph-bundle/src/binary/runtime.rs:1846-1878 | The topmost values are replaced by their conjunction or disjunction, and a heap stack that fits returns inline; fails exactly when there are too few |
| `ConditionVm.ConditionVm.Evaluate` | runtime/NedoTokenizer/crates/nedo-morph-bundle/src/binary/runtime.rs:1942-1955 | A program yields the value it leaves, and fails exactly when an instruction fails or not exactly one value is left |
| `ConditionVm.ConditionVm.EvaluateStructural` | runtime/NedoTokenizer/crates/nedo-morph-bundle/src/binary/runtime.rs:1957-1972 | AND and OR take a 16-bit count of at least two and fail for a shallower stack; NOT negates |
| `ConditionVm.ConditionVm.HasTailSequence` | runtime/NedoTokenizer/crates/nedo-morph-bundle/src/binary/runtime.rs:2130-2145 | Walking back, the listed morphemes are the last ones of the path |
| `ConditionVm.ConditionVm.ContainsMorphemeSequence` | runtime/NedoTokenizer/crates/nedo-morph-bundle/src/binary/runtime.rs:2147-2166 | Some window of the history, root included, is the listed morphemes, and an empty list is contained nowhere |
| `PathWalks.GroupMembers` | runtime/NedoTokenizer/crates/nedo-morph-bundle/src/binary/runtime.rs:2179-2192 | The walk back through the current group meets exactly the steps behind the root after which no derivation begins |
| `PathWalks.PreviousGroupMembers` | runtime/NedoTokenizer/crates/nedo-morph-bundle/src/binary/runtime.rs:2194-2237 | The walk back through the previous group meets exactly the steps between the last derivation and the one before it, that one included |
| `PathWalks.LastDerivedIs` | runtime/NedoTokenizer/crates/nedo-morph-bundle/src/binary/runtime.rs:2168-2177 | The derivation found by walking back is the last one of the history, and none is found exactly when there is none behind the root |
| `PathWalks.SurfaceFreeIs` | runtime/NedoTokenizer/crates/nedo-morph-bundle/src/binary/runtime.rs:2239-2252 | The walk finds no surface since the last derivation exactly when every step with a surface begins a derivation or is followed by one |
| `ConditionMeaning.ExtendIsValid` | runtime/NedoTokenizer/crates/nedo-morph-bundle/src/binary/runtime.rs:1119-1166 | Following an edge appends one step to the path, whatever other paths were added to the arena meanwhile, and the derivation and surface flags still say what the steps are |
| `ConditionVm.MayFollow` | runtime/NedoTokenizer/crates/nedo-morph-bundle/src/binary/runtime.rs:1134-1141 | An edge without a program may be followed, and any other exactly when its program evaluates to true |
| `BundleCompiler.CompiledEdgeMeans` | runtime/NedoTokenizer/crates/nedo-morph-bundle/src/binary.rs:739-780 | A compiled edge carries no program exactly when its record has no condition, and otherwise the program it points at evaluates to the truth of that condition |
| `Bytecode.ArgsRoundTrip` | runtime/NedoTokenizer/crates/nedo-morph-bundle/src/binary.rs:1590-1708 | An operand of any layout is read back where, and only where, it was written |
| `Bytecode.AcceptsEncoding` | runtime/NedoTokenizer/crates/nedo-morph-bundle/src/binary.rs:1498-1767 | The program of every well-formed tree is accepted and leaves exactly that tree |
| `Bytecode.AcceptedIsUnique` | runtime/NedoTokenizer/crates/nedo-morph-bundle/src/binary.rs:1498-1767 | Every accepted program that leaves one tree is the program of that tree and of no other |
| `ProgramValidator.ConditionProgramValidator.ValidateStructural` | runtime/NedoTokenizer/crates/nedo-morph-bundle/src/binary.rs:1559-1588 | AND, OR and NOT fail exactly when operands are missing or too few, then changing nothing; otherwise position and recognised trees are those of the step, and the stack holds their counts |
| `ProgramValidator.ConditionProgramValidator.Validate` | runtime/NedoTokenizer/crates/nedo-morph-bundle/src/binary.rs:1518-1557 | A non-empty program is accepted exactly when it leaves one tree, and then that tree's counts are reported; the empty program has none |
| `ProgramValidator.ValidateNullableList` | runtime/NedoTokenizer/crates/nedo-morph-bundle/src/binary.rs:1727-1754 | An encoded dictionary set is accepted exactly when it is strictly increasing, within the dictionary, and null only at its end |
| `ProgramValidator.ValidateIndexList` | runtime/NedoTokenizer/crates/nedo-morph-bundle/src/binary.rs:1756-1767 | An index list is accepted exactly when it is complete and within its table |
| `Templates.ReconstructTemplate` | runtime/NedoTokenizer/crates/nedo-morph-bundle/src/lib.rs:883-922 | A template has a text exactly when vowels carry no letter and all other tokens one letter and no flag, and then this text |
| `Templates.RecordsAreListed` | runtime/NedoTokenizer/crates/nedo-morph-bundle/src/binary.rs:1083-1172 | For each of the seven kinds of tokens: the opcode and flag bytes of its record, the scalar value of its letter behind them, and the text it stands for |
| `Templates.TokenRoundTrip` | runtime/NedoTokenizer/crates/nedo-morph-bundle/src/binary.rs:1083-1172 | A token that has a text is read where, and only where, its record stands, unless its letter is NUL; then its record is refused |
| `Templates.TemplateRoundTrip` | runtime/NedoTokenizer/crates/nedo-morph-bundle/src/binary.rs:1083-1172 | The tokens of a text are read back from a section exactly when their records stand there and no letter is NUL |
| `Templates.ReadIsCompiled` | runtime/NedoTokenizer/crates/nedo-morph-bundle/src/binary.rs:1112-1172 | Whatever records are accepted are the compiled form of tokens with that text |
| `Templates.NulLetterIsRefused` | runtime/NedoTokenizer/crates/nedo-morph-bundle/src/binary.rs:1093-1163 | A literal token with the letter U+0000 has a text and compiles, and its record is refused |
| `Templates.ReconstructBinaryTemplate` | runtime/NedoTokenizer/crates/nedo-morph-bundle/src/binary.rs:1112-1172 | Spelling out records fails exactly when one of them is no record, and otherwise yields the text of their tokens |
| `EdgeLayout.SortIsStable` | runtime/NedoTokenizer/crates/nedo-morph-bundle/src/binary.rs:723 | Sorting by source order is a sorted permutation that keeps edges of equal order in place |
| `EdgeLayout.LayoutIsPermutation` | runtime/NedoTokenizer/crates/nedo-morph-bundle/src/binary.rs:710-737 | The compiled edge table is a permutation of the bundle's edges exactly when every owner is a state |
| `EdgeLayout.RangeContents` | runtime/NedoTokenizer/crates/nedo-morph-bundle/src/binary.rs:718-730 | Each state's range holds exactly the edges it owns in stable source order, and ranges follow each other |
| `BundleCompiler.GroupByOwner` | runtime/NedoTokenizer/crates/nedo-morph-bundle/src/binary.rs:711-717 | Edges are grouped by owner in bundle order |
| `BundleCompiler.Compiler.CompileEdge` | runtime/NedoTokenizer/crates/nedo-morph-bundle/src/binary.rs:739-780 | An edge compiles exactly when its names are known, its tokens have at most one letter, its condition resolves and its counts fit; it then names its states and morpheme and points at its template records and its condition program in the shared sections; sentinels accumulate |
| `BundleCompiler.Compiler.CompileEdgesAndStateRanges` | runtime/NedoTokenizer/crates/nedo-morph-bundle/src/binary.rs:710-737 | Compilation succeeds exactly when every owner is a state and every edge compiles, and then produces the layout and its ranges |
| `BundleCompiler.Compiler.CompileStates` | runtime/NedoTokenizer/crates/nedo-morph-bundle/src/binary.rs:679-708 | Compilation fails exactly for an unknown morpheme or string; otherwise state records carry their string ids, morpheme, flags, edge range and consecutive alias ranges that hold the ids of their declared fields |
| `BundleCompiler.ValidateStates` | runtime/NedoTokenizer/crates/nedo-morph-bundle/src/binary.rs:324-387 | Accepts exactly records with known strings, morphemes and flags, consecutive and covering edge and alias ranges with known, ascending aliases headed by the key, and ascending keys |
| `BundleCompiler.ValidateEdges` | runtime/NedoTokenizer/crates/nedo-morph-bundle/src/binary.rs:389-455 | Accepts exactly when states, morphemes, strings and flags are known, every template is in bounds and spelled by its records, every condition range is in bounds and its program accepted with the recorded count, and the sentinels add up to the header's total |
| `BundleCompiler.TextsOfIds` | runtime/NedoTokenizer/crates/nedo-morph-bundle/src/binary.rs:934-940 | Looking up the ids of interned texts gives the texts back |
| `BundleCompiler.CompiledStatesAccepted` | runtime/NedoTokenizer/crates/nedo-morph-bundle/src/binary.rs:324-387 | The state records compiled from a validated bundle always pass the state checks |
| `BundleCompiler.CompiledEdgesAccepted` | runtime/NedoTokenizer/crates/nedo-morph-bundle/src/binary.rs:389-455 | The edges compiled from a validated bundle pass the edge checks exactly when no template letter is NUL, always with the sentinel total of the source |
| `BundleCompiler.CompileAndCheck` | runtime/NedoTokenizer/crates/nedo-morph-bundle/src/binary.rs:324-455 | The state and edge checks of the loader accept what a validated bundle compiles to exactly when no template letter is NUL |
| `BatchWorkers.BuildBatchRanges` | runtime/NedoTokenizer/crates/nedo-tokenizer/src/lib.rs:3125-3156 | The chunk ranges are non-empty and tile the inputs in order; each ends with the document that brings it to the target size, a mebibyte at least and otherwise the least size of which sixteen chunks per thread hold the batch, and the last one takes the rest |
| `BatchWorkers.ChunksAreFew` | runtime/NedoTokenizer/crates/nedo-tokenizer/src/lib.rs:3134-3152 | There are at most sixteen chunks per thread and one more |
| `BatchWorkers.AdvanceInvariant` | runtime/NedoTokenizer/crates/nedo-tokenizer/src/nedoformer.rs:497-512 | Every step of every worker keeps: each ticket has one owner, and every worker holds exactly the finished chunks of its tickets |
| `BatchWorkers.AdvanceDecreases` | runtime/NedoTokenizer/crates/nedo-tokenizer/src/nedoformer.rs:498-511 | Every step brings the run closer to its end, so every schedule terminates |
| `BatchWorkers.NoChunkTwice` | runtime/NedoTokenizer/crates/nedo-tokenizer/src/nedoformer.rs:499-510 | Under every schedule and at every moment, a chunk in hand or finished is held by one worker only, and by that worker once |
| `BatchWorkers.NoDocumentTwice` | runtime/NedoTokenizer/crates/nedo-tokenizer/src/nedoformer.rs:498-512 | Under every schedule no document of any chunk is processed in two different steps, whoever takes them, workers that fail later included |
| `BatchWorkers.DoneIsInOrder` | runtime/NedoTokenizer/crates/nedo-tokenizer/src/nedoformer.rs:516-532 | When all workers are done, joined, sorted and flattened chunks are the in-order results of all documents |
| `BatchWorkers.ScheduleIndependence` | runtime/NedoTokenizer/crates/nedo-tokenizer/src/nedoformer.rs:463-533 | Every finished schedule is Ok exactly when every document succeeds, and then yields the in-order results |
| `BatchWorkers.Join` | runtime/NedoTokenizer/crates/nedo-tokenizer/src/nedoformer.rs:516-520 | Joining in handle order succeeds exactly when no worker failed; the first failed worker decides the error |
| `BatchWorkers.RunBatch` | runtime/NedoTokenizer/crates/nedo-tokenizer/src/nedoformer.rs:463-533 | For any scheduler the batch is Ok exactly when every document succeeds, its output is the in-order list, an error is some document's error, and the cardinality check never decides |
| `ClassCollapse.Exponential.LogAddExpAdds` | runtime/NedoTokenizer/crates/nedo-tokenizer/src/nedoformer.rs:1579-1588 | Log-space addition adds weights, whichever operand is larger, minus infinity included |
| `ClassCollapse.SortCuts` | runtime/NedoTokenizer/crates/nedo-tokenizer/src/nedoformer.rs:1426-1430 | Merged cuts are strictly ascending and exactly the cuts of both lists |
| `ClassCollapse.BuildClasses` | runtime/NedoTokenizer/crates/nedo-tokenizer/src/nedoformer.rs:1395-1453 | Every candidate is stood for by exactly one class and every class stands for a candidate: it has the candidate's flag, and its cuts are the unit's start plus the candidate's relative cuts, in their order, or merged with the numeric cuts in ascending order; classes carry their weights and the selection, and a non-finite score is refused |
| `ClassCollapse.KeyStandsFor` | runtime/NedoTokenizer/crates/nedo-tokenizer/src/nedoformer.rs:1416-1443 | The class a candidate joins is the one whose flag is the candidate's and whose cuts are the candidate's cuts shifted to the unit and merged with the numeric ones |
| `ClassCollapse.MassConserved` | runtime/NedoTokenizer/crates/nedo-tokenizer/src/nedoformer.rs:1437-1450 | The total weight of the classes is the total weight of the candidates |
| `ClassCollapse.OneClassEach` | runtime/NedoTokenizer/crates/nedo-tokenizer/src/nedoformer.rs:1436-1450 | Each candidate is in exactly one class, and exactly one class is selected |
| `ClassCollapse.CollapseUnit` | runtime/NedoTokenizer/crates/nedo-tokenizer/src/nedoformer.rs:1161-1178 | After sorting, the check for one selected class never fails; the first class stands for the selected candidate, the others follow by cuts (at the first difference the smaller cut first, a prefix first) and known before unknown, and every candidate is stood for by exactly one class with its shifted cuts |
| `Utf8.DecodesTheGrammar` | runtime/NedoTokenizer/crates/nedo-core/src/scanner.rs:1348-1380 | The decoder succeeds exactly where section 4 of RFC 3629 has a character of two bytes or more, and reports its length |
| `Utf8.DecodedIsEncoded` | runtime/NedoTokenizer/crates/nedo-core/src/scanner.rs:1348-1380 | The decoded value is a scalar value whose encoding stands at that position |
| `Scanner.Piece` | runtime/NedoTokenizer/crates/nedo-core/src/scanner.rs:1173-1204 | Every classified piece lies in the input; it is opaque exactly where no character starts, and well-formed text otherwise |
| `Scanner.KindIs` | runtime/NedoTokenizer/crates/nedo-core/src/scanner.rs:1173-1315 | What stands at a position is classified by explicit byte ranges and operator pairs when it is ASCII, and by the order of properties and code-point ranges otherwise; a byte that starts no character is opaque |
| `Scanner.OperatorIsListed` | runtime/NedoTokenizer/crates/nedo-core/src/scanner.rs:1206-1266 | The operators are the 27 listed pairs, and seven of them are lengthened by a following equals sign |
| `Scanner.WordsAreStretched` | runtime/NedoTokenizer/crates/nedo-core/src/scanner.rs:1039-1075 | A word reaches over letters, digits and marks, and over an apostrophe or hyphen exactly when a word or number stands behind it |
| `Scanner.NumbersAreStretched` | runtime/NedoTokenizer/crates/nedo-core/src/scanner.rs:1077-1126 | A number reaches over numbers and over one of seven separators exactly when a number stands behind it, and then over a word exactly when an apostrophe links it |
| `Scanner.SymbolsAreStretched` | runtime/NedoTokenizer/crates/nedo-core/src/scanner.rs:987-1037 | A symbol run reaches over symbols and operators, and over U+200D exactly when a symbol stands behind it |
| `Scanner.EndStops` | runtime/NedoTokenizer/crates/nedo-core/src/scanner.rs:860-1126 | Behind the end of a span stands a piece of another kind |
| `Scanner.ConsumeSameKind` | runtime/NedoTokenizer/crates/nedo-core/src/scanner.rs:860-871 | For every target kind the run, with its ASCII shortcuts, ends where the plain run over the classifier ends |
| `Scanner.ConsumeSymbolRun` | runtime/NedoTokenizer/crates/nedo-core/src/scanner.rs:987-1037 | A symbol run takes operators whole and continues over a joiner exactly when a symbol follows it |
| `Scanner.ConsumeWord` | runtime/NedoTokenizer/crates/nedo-core/src/scanner.rs:1039-1075 | A word takes letters, digits and marks, and a connector exactly when a word or number follows it |
| `Scanner.ConsumeNumber` | runtime/NedoTokenizer/crates/nedo-core/src/scanner.rs:1077-1126 | A number takes digits, a separator exactly when a number follows it, and a word suffix behind an apostrophe |
| `Scanner.ScanCompact` | runtime/NedoTokenizer/crates/nedo-core/src/scanner.rs:406-444 | For every byte string the spans are non-empty and tile the input, neighbours differ in kind, and the input is well-formed UTF-8 exactly when no span is opaque; each span begins with a character of its kind (by byte ranges, operator pairs and Unicode properties), holds only characters of that kind and the connectors, separators and joiners between them, and ends where its kind cannot go on |
| `Scanner.OpaqueIffMalformed` | runtime/NedoTokenizer/crates/nedo-core/src/scanner.rs:406-444 | Contiguous spans of which the opaque ones start no character and the others are well-formed text decide whether the whole input is well-formed |
| `DocumentCodec.SurfaceUnit.Validate` | runtime/NedoTokenizer/crates/nedo-format/src/lib.rs:77-101 | A unit is accepted exactly when it is non-empty with strictly increasing cuts inside it, or ends before it starts and has no cuts; it is reported empty exactly when it ends where it starts |
| `DocumentCodec.SurfaceUnit.PiecesTile` | runtime/NedoTokenizer/crates/nedo-format/src/lib.rs:104-112 | The pieces of an accepted unit are contiguous from its start to its end, and non-empty exactly when the unit is valid |
| `DocumentCodec.LosslessDocument.Validate` | runtime/NedoTokenizer/crates/nedo-format/src/lib.rs:185-206 | A document is accepted exactly when its units are accepted, end inside the bytes, and none starts before its predecessor ends |
| `DocumentCodec.EncodeBinary` | runtime/NedoTokenizer/crates/nedo-format/src/lib.rs:217-249 | Encoding succeeds exactly for accepted documents whose counts fit, and then the bytes are: the magic, version 1, both lengths, the text, and per unit start, end, number of cuts and cuts, each integer with digit k of base 256 at offset k |
| `ByteStrings.DigitsStand` | runtime/NedoTokenizer/crates/nedo-format/src/lib.rs:217-249 | The encoding of an integer stands at a position exactly when byte k there is n / 256^k modulo 256 |
| `DocumentCodec.UnitRoundTrip` | runtime/NedoTokenizer/crates/nedo-format/src/lib.rs:289-304 | A valid unit is read where, and only where, its encoding stands |
| `DocumentCodec.DocumentRoundTrip` | runtime/NedoTokenizer/crates/nedo-format/src/lib.rs:217-312 | A byte string is the encoding of a valid document exactly when that document is read from it |
| `DocumentCodec.DecodeBinary` | runtime/NedoTokenizer/crates/nedo-format/src/lib.rs:257-312 | A byte string is accepted exactly when it is the encoding of a valid document, and then that document is returned and encodes to it; no count guard rejects a real encoding; a reversed span is reported exactly when one stands behind valid units |
| `DocumentCodec.AcceptedIsValid` | runtime/NedoTokenizer/crates/nedo-format/src/lib.rs:77-206 | Of the accepted documents, the valid ones are those whose units all start no later than they end |
| `DocumentCodec.EncodingIsReversed` | runtime/NedoTokenizer/crates/nedo-format/src/lib.rs:217-291 | The encoding of an accepted document with a reversed unit shows the reader that span before anything else that is wrong |
| `DocumentCodec.ReversedUnitIsLost` | runtime/NedoTokenizer/crates/nedo-format/src/lib.rs:77-291 | A document of three bytes with one unit from 2 to 1 is accepted and encoded, and no document is read from its encoding |
| `DocumentCodec.RoundTrip` | runtime/NedoTokenizer/crates/nedo-format/src/lib.rs:217-312 | Decoding the encoding of an accepted document returns it exactly when every unit starts no later than it ends; otherwise the reversed span is reported |
| `SurfaceCodec.EntryRoundTrip` | runtime/NedoTokenizer/crates/nedo-tokenizer/src/compiled_analysis_table.rs:110-180 | A valid entry is read where, and only where, its encoding stands |
| `SurfaceCodec.PayloadRoundTrip` | runtime/NedoTokenizer/crates/nedo-tokenizer/src/compiled_analysis_table.rs:104-192 | A payload decodes to the entries it encodes and to no others |
| `SurfaceLayout.EntriesAreLaid` | runtime/NedoTokenizer/crates/nedo-tokenizer/src/compiled_analysis_table.rs:104-192 | In the encoding of entries every length, count, flag, hash, cut and text stands at the offset the sizes before it give |
| `SurfaceTable.StoreEntry` | runtime/NedoTokenizer/crates/nedo-tokenizer/src/compiled_analysis_table.rs:205-219 | An entry is stored at the first vacant slot from its home; a surface already stored is reported |
| `SurfaceTable.BuildIndex` | runtime/NedoTokenizer/crates/nedo-tokenizer/src/compiled_analysis_table.rs:193-220 | The index is built exactly when surfaces are distinct, has vacant slots, and reaches every surface from its home slot |
| `SurfaceTable.Table.Get` | runtime/NedoTokenizer/crates/nedo-tokenizer/src/compiled_analysis_table.rs:243-262 | A lookup ends and returns the candidates of the entry with that surface, and nothing for any other surface |
| `SurfaceFile.EncodeTable` | runtime/NedoTokenizer/crates/nedo-tokenizer/src/compiled_analysis_table.rs:288-367 | Encoding succeeds exactly for valid, distinct, countable entries; the file reads back as the entries sorted by surface, and holds magic, version, both identities, count and digest at their offsets and the entries one after the other behind them |
| `SurfaceFile.FromBytes` | runtime/NedoTokenizer/crates/nedo-tokenizer/src/compiled_analysis_table.rs:74-229 | A file is accepted exactly when it is a table with distinct surfaces, and the table then holds its entries |
| `SurfaceFile.AcceptedIsCanonical` | runtime/NedoTokenizer/crates/nedo-tokenizer/src/compiled_analysis_table.rs:74-229 | Every accepted file is byte for byte the one the format prescribes for its entries, with every field at its offset |
| `SurfaceFile.WriteReadGet` | runtime/NedoTokenizer/crates/nedo-tokenizer/src/compiled_analysis_table.rs:74-367 | For encodable entries, writing, parsing and looking up returns exactly the candidates of a surface's entry in their order, and nothing for other surfaces |

## Left out

- f32 rounding, NaN and summation order: scores are exact reals, so ties and maxima are exact.
- Index and length overflow errors (`u32` hypothesis indices, string, alias, section and condition offsets, batch byte totals): counts are unbounded except where a format or an operand stores them in 16, 32 or 64 bits.
- Allocation failures, capacity reservations, hit and miss counters, byte estimates and layout statistics.
- Races on the shared bank of prepared words: an entry is filled in one step, as `OnceLock` promises, and each worker has its own calls.
- PerceptronDecoder.Disambiguate: presumes that no word has more inflectional groups than the 24 bits identities reserve for positions, because beyond them different features share an identity; `Sentences.Disambiguate` holds for any scoring function without this.
- The older decoder over full analyses (`Decoder`, `ActiveHypotheses` of `disambiguation.rs`), which repeats the compact one without codes or cache.
- Parsing of the perceptron model file: `LossyModel.Valid` states the one fact about it that lookups need.
- The weights of the model: `fromBits` is any function from stored bits to a weight.
- ggml tensors, devices and graph building: per-layer mathematics is uninterpreted, the layout is one head of 2-D Q/K/V with one attention call per layer in layer order; grouped heads, shape errors and foreign failures are not modelled.
- Sections, header, the bytes of the string table, morpheme, dictionary and stem records of the compiled bundle; that the interner collects every string of the bundle is part of what `StatesValidated` and `EdgeValidated` say.
- BundleCompiler.CompileAndCheck: runs the state and edge checks of the loader, not its checks of header, sections, strings and the other tables.
- The search over the suffix graph itself: which paths it explores, their limits, generated surfaces and phonetic bits; conditions are evaluated on any path that starting and following edges can build, with any phonetic bits.
- ConditionVm.ConditionVm.EvaluateFeature: treats a shift by 32 or more as a failure, as checked arithmetic does; compiled and accepted programs never ask for it.
- The per-kind condition counts of the bundle manifest.
- Worker panics, and per-document processing itself: a document's result is a given value, which presumes that it does not depend on the worker's cache.
- `nedoformer_sidecar_batch` and `nedoformer_best_sidecar_batch_with_runtime` share the worker loop modelled once in `BatchWorkers`.
- The numeric micro-cuts of a unit are an input of class building; the class building over full analyses repeats the compact one with one more payload.
- Unicode property tables: `is_whitespace`, `is_control`, `is_numeric` and `is_alphabetic` are arbitrary predicates, and the scanner's results hold for all of them.
- Code hints of the scanner, and the streaming and rich scans, which use the same classifier and runs.
- SHA-256 is any function with 32-byte results; the identities of the assets are any 64-byte strings.
- Interning of scoring codes while a surface table is parsed, and which error a malformed table reports: parsing succeeds or fails.
- Error texts and error payloads everywhere; `DocumentCodec` keeps the error kinds.
- The command-line tool, the plugin loader and ABI headers, the converter, scripts, FFI wrapper, code line heuristics, sharded and flat surface tables and the alignment of analyses.
