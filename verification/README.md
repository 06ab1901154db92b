# Batchalign worker: a verified model of its structural core

Batchalign's inference worker wraps speech and language models. Most of it calls libraries, but
between those calls it keeps promises of its own: a dependency graph stays a forest after a row is
deleted, an utterance split never cuts a phrase, a timing that was in order stays in order through
four hand-overs, a memory ledger counts what is alive. This project models those parts in Dafny and
proves the promises for every input and every run.

| module | what it models |
|---|---|
| `HeadChains`, `DependencyGraph` | admission of CoNLL-U rows, deletion of the final cue, tag overrides |
| `PhraseRanges`, `ClausePaths`, `UtteranceGroups`, `AssignmentUniqueness` | constituency tree to clause ranges to utterance numbering |
| `CtcPaths`, `CtcTargets` | label sequences, frame capacity, spans back to words |
| `WindowTiming`, `WordFold` | model reports to bounded spans to CHAT words |
| `Punctuation`, `PunctuationPlaces`, `RecordingAssembly` | clause marks, placement in a recording, the append chain |
| `AudioChunking` | cutting a recording at quiet samples, and when its windows are in order |
| `TokenRealign` | recovering a token grouping greedily |
| `FingerprintFraming` | length-prefixed stream behind a build fingerprint |
| `StorageLedger`, `AudioCache`, `DownloadLiveness` | reference counts, the chunk cache, two threads on one progress channel |
| `ConvolutionGeometry` | shortest inputs, attention windows, plan against execution |
| `Outcomes`, `Numbers`, `Sets`, `Sequences` | shared types, bounds, rounding, finite sets, lists of positions |

Conventions. A raised exception is `Err` or `None`. Seconds and milliseconds are reals; samples,
frames and bytes are integers. Calls into code outside the repository's Python are function
parameters: `align_tokens` (`align`), the aligner's `split_words` (`split`), `str.lower` (`lower`),
`str.strip` (`strip`), "strips to nothing" (`blank`), the alphanumeric-category test of a character
(`lexical`), and the hash (`hash`). A failing read or a poll result is an argument of the step that
meets it. Classes are used where the source mutates an object (`Digest`, `VirtualAllocations`,
`AudioFile`, `GrowthMeter`); loops are kept where the source has loops.

## Main results

* **Cue deletion needs no second audit.** The source claims it in a docstring;
  `DependencyGraph.ProjectionPreservesGraph` proves it: the rows issued are again admissible, the
  ancestor relation among the remaining words is unchanged in both directions, and the roots are the
  old ones or exactly the promoted child. `DependencyGraph.ProjectionIssues` says column by column
  and position by position which rows and repairs are issued.
* **Admission is exact.** `DependencyGraph.Admit` accepts precisely the row lists that are well
  formed, closed and rooted, and puts each word on a cycle-check chain at most once.
* **Frame capacity is exact.** A one-line count is equivalent to the existence of a frame path that
  collapses to the labels (`CtcPaths.FitsIffEnoughFrames`), also within a bounded class set
  (`CtcTargets.AdmitShape`).
* **Utterances respect the tree.** The ranges are exactly the coordinated clauses, given by paths in
  the tree and the leaves below them (`ClausePaths.RangesAreClauses`). They are laminar, carving
  keeps whole maximal ranges, and the final numbering starts at 0, rises by 0 or 1, gives every
  utterance three words unless there is only one, and never cuts inside an extracted phrase
  (`UtteranceGroups.ComputeAssignments`). It is a function of the ranges alone
  (`AssignmentUniqueness.AssignmentUnique`).
* **Order survives the timing chain.** From reports to a published recording, every observed span
  lies in its own chunk's window and starts and ends never go backwards
  (`RecordingAssembly.AssembleRecording`). Text and words have one reading, so punctuation and each
  chunk are determined by the reports (`Punctuation.ReadingUnique`, `RecordingAssembly.ChunkUnique`);
  milliseconds, marks and placements are also stated directly on the reports and the text
  (`WordFold.AlignWords`, `PunctuationPlaces.PunctuationStands`, `RecordingAssembly.ChunkIsOf`).
  From the waveform on, a transcription is published exactly when every chunk with speech aligns and
  no chunk with speech is padded into a later one (`AudioChunking.TranscribeRecording`).
* **The ledger counts what is alive.** Over every run, the events alone say which tensors are tracked
  (`StorageLedger.TrackedAreLive`); each reference count is their number and each size is the one
  that opened the storage (`StorageLedger.ReferencesAreLive`, `StorageLedger.SizeIsOpening`).
* **The progress trace is well ordered in every interleaving**, and no rise of the threshold is lost
  (`DownloadLiveness.ReportsInOrder`, `DownloadLiveness.LastRiseIsWritten`).
* **The stream identifies the inventory**, and **lazy reading answers like eager reading**.

Where the code does not meet the property one would expect:

* Blank aligner units skip the order check, so `fold` can raise on an admitted alignment
  (`WordFold.BlankUnitsCanRaise`). `WordFold.Fold` and `WordFold.AlignWords` give the exact
  condition; with nonblank unit texts it cannot happen (`WordFold.FoldNeverRaises`).
* A last flattened token with empty text is never consumed, although a grouping that covers all
  tokens may exist (`TokenRealign.LastEmptyTokenIsOmitted`). Empty tokens before the last do no harm:
  re-binding completes exactly when the merged texts are concatenations of consecutive groups covering
  all tokens and the last token's text is not empty and does not end in a space
  (`TokenRealign.CoversIff`, `TokenRealign.RealignSentence`).
* The chunker pads every chunk below half a second, not only the final one, and a padded chunk
  reaches into the next window, which the append chain refuses. The windows are in order exactly when
  no chunk before the last is short (`AudioChunking.OrderedIffOnlyLastShort`), and for every audio
  exactly when chunks may last at least 5.5 seconds (`AudioChunking.OrderedForEveryAudio`); a
  configured window of 1 to 5 whole seconds is admitted and does not meet that.
* The loader clamps a negative start to 0 while a slice counts from the end, so lazy and eager
  answers differ for such a chunk (`AudioCache.NegativeStartDisagrees`); `AudioCache.AgreementIsExact`
  says for which requests they agree.
* Whisper's executor counts encoder frames at stride two whatever the geometry says;
  `ConvolutionGeometry.PlanImpliesExecution` says for which geometries a planned input always runs.

Where code and documentation disagree, the code is followed: the chunker's documentation says only
the final chunk is padded; the audio cache is documented as least
recently used, but a hit does not move its key, so eviction is by age of insertion. The final test
for an unfinished multiword token in the admission loop cannot fire, because a range row is refused
when fewer rows follow it than it names. An empty node whose position is a whole number compares
equal to an integer id, as in the source: it is rewired like the promoted word with that id, and a
tagger may name one for the other.

## Model

| member | source | states |
|---|---|---|
| `HeadChains.AcyclicIffRooted` | batchalign/inference/_morphosyntax_graph.py:118-130 | in a closed graph, "no word is its own ancestor" and "every head chain ends at 0" are the same condition |
| `HeadChains.ContractPreserves` | batchalign/inference/_morphosyntax_graph.py:150-153 | contracting one word keeps closure, rootedness and acyclicity, and keeps ancestry among the others in both directions |
| `DependencyGraph.ScanRows` | batchalign/inference/_morphosyntax_graph.py:56-111 | accepts exactly the well-formed row lists (positive unique ids, nonnegative heads, each range followed at once by its words in id order); lists exactly the token-opening rows; a refusal names the first refused row's fault |
| `DependencyGraph.CheckHeads` | batchalign/inference/_morphosyntax_graph.py:112-117 | passes exactly when every head is 0 or a word |
| `DependencyGraph.CheckAcyclic` | batchalign/inference/_morphosyntax_graph.py:118-130 | passes exactly when every chain reaches 0; puts at most one chain entry per word, and exactly one when it passes |
| `DependencyGraph.Admit` | batchalign/inference/_morphosyntax_graph.py:52-132 | admits exactly the admissible rows; a cycle is reported exactly for well-formed, closed, cyclic rows; linear total visits |
| `DependencyGraph.RefusalUnique` | batchalign/inference/_morphosyntax_graph.py:60-111 | the rows alone determine which error the row loop raises |
| `DependencyGraph.IndexFacts` | batchalign/inference/_morphosyntax_graph.py:98-103 | the head index holds exactly the word rows, each with its own head when ids are unique |
| `DependencyGraph.PreserveBoundaries` | batchalign/inference/_morphosyntax_graph.py:134-145 | each row comes back as it is and each repair by its own record, position by position; refused exactly when the token count differs |
| `DependencyGraph.WithHead` | batchalign/inference/_morphosyntax_graph.py:163-172 | exactly the listed words with that head, less the exception |
| `DependencyGraph.ChooseTarget` | batchalign/inference/_morphosyntax_graph.py:163-183 | a replacement exists exactly for an attached cue, or a root cue with one dependent and no other root; it is the parent or that dependent |
| `DependencyGraph.RewireRows` | batchalign/inference/_morphosyntax_graph.py:184-213 | every row but the cue is kept in order, rewired to the target; a promotion is recorded exactly when its relation was not root |
| `DependencyGraph.ProjectCue` | batchalign/inference/_morphosyntax_graph.py:147-214 | success, ambiguity and boundary refusal each characterised; a success issues exactly the rows and repairs below and is admissible |
| `DependencyGraph.ProjectionIssues` | batchalign/inference/_morphosyntax_graph.py:184-214 | every row but the cue is issued in order with its id, text, tag and other columns, its relation "root" and head 0 exactly when its id compares equal to the promoted word, its head handed over exactly when it was the cue; repairs are those away from the cue in order, then one with the promoted row's own text and old relation exactly where that was not root |
| `DependencyGraph.ProjectionPreservesGraph` | batchalign/inference/_morphosyntax_graph.py:147-214 | after any successful projection: admissible and acyclic, words and tokens lose exactly the cue, ancestry unchanged, roots unchanged or exactly the promoted child, no row points at the cue |
| `DependencyGraph.WithPos` | batchalign/inference/_morphosyntax_graph.py:242-265 | accepts exactly row lists whose ids compare equal and carry tags; only tags change, so index and admissibility stay |
| `PhraseRanges.CountLeaves` | batchalign/inference/utseg.py:458-471 | the loop counts the leaves of the tree |
| `PhraseRanges.ParseTreeIndices` | batchalign/inference/utseg.py:473-507 | fails exactly when a walked subtree has no children; otherwise the ranges of the tree in walk order |
| `PhraseRanges.RangesLaminar` | batchalign/inference/utseg.py:473-507 | for every tree the ranges lie within its leaves and are pairwise nested or disjoint |
| `ClausePaths.RangesAreClauses` | batchalign/inference/utseg.py:473-507 | a span is extracted exactly for a non-leaf node labelled "S", reached through non-leaf nodes, with a sibling whose lower-cased label is "cc" or "conj"; it starts after the leaves before the node and is as long as the leaves under it |
| `PhraseRanges.SortFacts` | batchalign/inference/utseg.py:524 | sorting by length orders the ranges and keeps them all |
| `PhraseRanges.CarveKeeps` | batchalign/inference/utseg.py:526-532 | a nonempty remainder of a range is the whole range, and keeping it keeps the maximal-phrase invariant |
| `PhraseRanges.KeepRemainder` | batchalign/inference/utseg.py:527-532 | a set is kept exactly when its remainder is nonempty: the subset test never rejects one |
| `PhraseRanges.KeptAreMaximal` | batchalign/inference/utseg.py:525-532 | no extracted range strictly contains a kept phrase |
| `PhraseRanges.Carve` | batchalign/inference/utseg.py:524-532 | kept: disjoint nonempty whole ranges holding every nonempty range, then the uncovered rest of 0..n-1 if any |
| `UtteranceGroups.LabelWords` | batchalign/inference/utseg.py:540-544 | a word carries a phrase's number exactly when the phrase holds it |
| `UtteranceGroups.FillGaps` | batchalign/inference/utseg.py:546-557 | in place, a word keeps its label, else takes the next labelled word's of the input, else the previous one's, else stays unlabelled |
| `UtteranceGroups.FilledTakes` | batchalign/inference/utseg.py:546-557 | the filled label, by the nearest labelled position on either side |
| `UtteranceGroups.FillIsAllOrNothing` | batchalign/inference/utseg.py:546-560 | one labelled word suffices to label all |
| `UtteranceGroups.GroupRuns` | batchalign/inference/utseg.py:562-565 | groups are the maximal runs of equal labels and cover 0..n-1 |
| `UtteranceGroups.MergeSmall` | batchalign/inference/utseg.py:567-580 | merged groups cover the same words in order; all have three words or there is one; a cut survives exactly when a large group ends there and another follows |
| `UtteranceGroups.BoundarySeparates` | batchalign/inference/utseg.py:567-580 | surviving cuts described on the labels alone, in both directions |
| `UtteranceGroups.ShapeOfNumbering` | batchalign/inference/utseg.py:582-587 | numbering starts at 0, rises by 0 or 1, and each utterance has three words unless it is the only one |
| `UtteranceGroups.NumberRuns` | batchalign/inference/utseg.py:562-587 | the number rises exactly at the label boundaries that separate two large runs |
| `UtteranceGroups.AssignmentKeepsPhrases` | batchalign/inference/utseg.py:525-587 | no utterance boundary falls inside an extracted phrase range |
| `UtteranceGroups.ComputeAssignments` | batchalign/inference/utseg.py:510-587 | n ids of that shape for every word count and tree; they are the assignment of exactly the tree's coordinated clauses, and cut none of them |
| `AssignmentUniqueness.CarvedByBoth` | batchalign/inference/utseg.py:524-533 | any two carvings of the same ranges keep the same sets |
| `AssignmentUniqueness.SameFill` | batchalign/inference/utseg.py:546-557 | filling commutes with renumbering the phrases |
| `AssignmentUniqueness.AssignmentUnique` | batchalign/inference/utseg.py:524-587 | the same ranges and word count have one utterance numbering, whatever the order of equally long ranges and the phrase numbers |
| `AssignmentUniqueness.TwoClauses` | batchalign/inference/utseg.py:473-587 | two coordinated four-word clauses around a conjunction get 0,0,0,0,1,1,1,1,1 and nothing else |
| `CtcPaths.PathLongEnough` | batchalign/inference/fa_ctc_resources.py:128-132 | every path has at least the minimum frames of what it collapses to |
| `CtcPaths.ShortestPathSpells` | batchalign/inference/fa_ctc_resources.py:128-132 | some path of exactly the minimum frames collapses to the labels |
| `CtcPaths.FitsIffEnoughFrames` | batchalign/inference/fa_ctc_resources.py:128-132 | a path of T frames spelling the labels exists if and only if T reaches the minimum |
| `CtcTargets.AdmitAlphabet` | batchalign/inference/fa_ctc_resources.py:42-52 | accepts exactly nonnegative dictionaries with a positive wildcard |
| `CtcTargets.FromWords` | batchalign/inference/fa_ctc_resources.py:79-114 | refused exactly for no words or an empty word; a word's labels are, at strictly increasing positions of its lower-cased symbols, the dictionary's entries or the wildcard, the skipped positions being exactly those with entry 0, or the wildcard alone if all are; wildcard records and blank-only words by exactly their positions |
| `CtcTargets.IdsInOrder` | batchalign/inference/fa_ctc_resources.py:116-121 | the label sequence is the words' labels one after the other |
| `CtcTargets.BindSpans` | batchalign/inference/fa_ctc_resources.py:149-169 | succeeds exactly on equal counts; each word owns as many spans as labels, all spans once, in order |
| `CtcTargets.PartitionUnique` | batchalign/inference/fa_ctc_resources.py:149-169 | that partition is the only one |
| `CtcTargets.AdmitShape` | batchalign/inference/fa_ctc_resources.py:185-205 | admitted exactly when a path within the classes exists; each refusal characterised, the capacity one by the absence of any path |
| `WindowTiming.PairReports` | batchalign/inference/qwen_forced_alignment.py:320-328 | refuses exactly unequal populations |
| `WindowTiming.AdmitWindow` | batchalign/inference/qwen_timing.py:114-147 | accepted exactly when every report is inside the window and all order-bearing pairs are in order; an error names the first offending report and what is wrong with it |
| `WindowTiming.AdmittedInWindow` | batchalign/inference/qwen_timing.py:51-147 | admitted spans are positive, inside the window, nonblank ones in order |
| `WindowTiming.SpokenInWindow` | batchalign/inference/qwen_timing.py:157-161 | dropping blank units leaves all observed spans in order |
| `WindowTiming.NonblankPicks` | batchalign/inference/qwen_timing.py:157-161 | the nonblank view holds the words at exactly the nonblank positions, in order |
| `WordFold.OfWords` | batchalign/inference/qwen_forced_alignment.py:540-583 | accepted exactly when splitting the transcript equals splitting the words; units then partition over the words |
| `WordFold.Fold` | batchalign/inference/qwen_forced_alignment.py:585-648 | one outcome per word in order from its own units; drift exactly on unequal units; raises exactly when a word's units round backwards, at the first such word |
| `WordFold.FoldNeverRaises` | batchalign/inference/qwen_forced_alignment.py:490-500 | units in order never round backwards |
| `WordFold.FoldInOrder` | batchalign/inference/qwen_forced_alignment.py:607-648 | timed words have positive intervals in the rounded window, starts and ends non-decreasing |
| `WordFold.AlignWords` | batchalign/inference/qwen_forced_alignment.py:840-861 | exact success condition of admission then fold, on the reports; a timed word starts at the nearest millisecond, halves to even, to 1000 times its first report's start and ends likewise at its last report's end; untimed for no unit, an instant unit, or equal rounded bounds exactly then; with nonblank texts the fold adds no failure and words are in order |
| `WordFold.FoldFromReports` | batchalign/inference/qwen_forced_alignment.py:607-648 | no word rounds backwards, read off each word's own reports, if and only if none does in the admitted units |
| `WordFold.FoldedIsFrom` | batchalign/inference/qwen_forced_alignment.py:607-648 | a folded result is what each word's own reports say, rounding included |
| `WordFold.BlankUnitsCanRaise` | batchalign/inference/qwen_timing.py:126-138 | a segmentation `of_words` issues and an admitted report with a blank text on which the fold raises |
| `Numbers.RoundMonotone` | batchalign/inference/qwen_forced_alignment.py:640-641 | rounding to milliseconds is monotone |
| `Numbers.RoundIsNearestEven` | batchalign/inference/qwen_forced_alignment.py:640-641 | the nearest integer with halves to even is unique and is what rounding returns |
| `Punctuation.PunctuateTexts` | batchalign/inference/qwen_punctuation.py:31-54 | succeeds exactly when words spell the text's lexical characters and each word has one; the text then splits into bodies and gaps, and each word gets the marks of its own gap |
| `Punctuation.OutputSpellsText` | batchalign/inference/qwen_punctuation.py:31-54 | output, words and text have the same lexical characters |
| `Punctuation.ReadingUnique` | batchalign/inference/qwen_punctuation.py:39-54 | a text and its words split into bodies and gaps in one way only |
| `Punctuation.PunctuatedCount` | batchalign/inference/qwen_punctuation.py:39-54 | one output per word |
| `Punctuation.Punctuate` | batchalign/inference/qwen_punctuation.py:31-54 | the same with timings, which do not change |
| `Punctuation.PunctuationUnique` | batchalign/inference/qwen_punctuation.py:31-54 | the punctuated alignment is a function of text and words |
| `Punctuation.PunctuationSpells` | batchalign/inference/qwen_punctuation.py:31-54 | every punctuated alignment spells the recognised text |
| `Punctuation.PunctuationInWindow` | batchalign/inference/qwen_punctuation.py:20-54 | punctuation keeps the window and order guarantees |
| `PunctuationPlaces.PunctuationStands` | batchalign/inference/qwen_punctuation.py:20-54 | the words stand one after the other in the text with nothing lexical between them, and each output is its word followed by exactly those characters before the next word that are among the twelve marks, by position |
| `RecordingAssembly.PlaceChunk` | batchalign/inference/qwen_timing.py:221-241 | refused exactly for a negative offset; words keep text and order, spans move by the offset |
| `RecordingAssembly.PlacementIsSound` | batchalign/inference/qwen_timing.py:187-204 | placed spans are positive, in the chunk's window and in order |
| `RecordingAssembly.AlignChunk` | batchalign/inference/languages/cantonese/_qwen_common.py:379-413 | exact success condition of admission, filtering, punctuation and placement; a success is sound |
| `RecordingAssembly.ChunkUnique` | batchalign/inference/languages/cantonese/_qwen_common.py:379-413 | one report gives one chunk |
| `RecordingAssembly.ChunkIsOf` | batchalign/inference/languages/cantonese/_qwen_common.py:379-413 | a chunk straight from its reports: one word for each nonblank report in order, its interval moved by the offset, its text the report's own or with the marks of the recognised text |
| `RecordingAssembly.AppendKeepsOrder` | batchalign/inference/qwen_timing.py:258-284 | comparing with the last chunk alone accepts exactly the chunks that keep all windows ordered |
| `RecordingAssembly.Complete` | batchalign/inference/qwen_timing.py:292-303 | the backward walk lists the chunks in append order |
| `RecordingAssembly.OrderedWindowsOrderSpans` | batchalign/inference/qwen_timing.py:287-303 | ordered windows of sound chunks give spans in order over the whole recording |
| `RecordingAssembly.AssembleRecording` | batchalign/inference/languages/cantonese/_qwen_common.py:449-479 | succeeds exactly when every chunk aligns and no window rewinds; one chunk per input in order, spans in their windows and in order throughout |
| `AudioChunking.FirstLeast` | batchalign/inference/languages/cantonese/_qwen_chunking.py:412-413 | the first position of the least value, as the quiet search needs it |
| `AudioChunking.NextCut` | batchalign/inference/languages/cantonese/_qwen_chunking.py:397-416 | a cut takes at least one sample, stays in the audio, and is within the search radius of the aim on either side |
| `AudioChunking.CutIsQuietest` | batchalign/inference/languages/cantonese/_qwen_chunking.py:397-416 | no window of the search band has a smaller sum of absolute values than the one cut in, no sample of that window is smaller in absolute value than the cut, and both are the first such; without room to search the cut is the aim |
| `AudioChunking.SplitAudio` | batchalign/inference/languages/cantonese/_qwen_chunking.py:369-436 | short audio is one chunk as it is; otherwise pieces cut one after the other, each with its offset and padding |
| `AudioChunking.PaddingIsSilence` | batchalign/inference/languages/cantonese/_qwen_chunking.py:418-436 | a chunk has the length of its piece or 8000 samples if that is more, zeros after the piece, and its offset in seconds |
| `AudioChunking.ChunksReproduceAudio` | batchalign/inference/languages/cantonese/_qwen_chunking.py:376-381 | the chunks without padding concatenate to the audio: nothing lost, nothing twice |
| `AudioChunking.SplitUnique` | batchalign/inference/languages/cantonese/_qwen_chunking.py:369-436 | one recording and chunk length have one split |
| `AudioChunking.ChunksBounded` | batchalign/inference/languages/cantonese/_qwen_chunking.py:84-88 | the effective ceiling: no piece exceeds the configured length plus the search radius, so no chunk exceeds it by more than five seconds |
| `AudioChunking.OrderedIffOnlyLastShort` | batchalign/inference/languages/cantonese/_qwen_chunking.py:423-436 | windows are in order if and only if every piece before the last has the minimum length |
| `AudioChunking.OrderedForEveryAudio` | batchalign/inference/languages/cantonese/_qwen_chunking.py:369-436 | windows are in order for every audio if and only if chunks may last at least 5.5 seconds |
| `AudioChunking.CollectReports` | batchalign/inference/languages/cantonese/_qwen_common.py:451-479 | exactly the chunks with speech are aligned, in order |
| `AudioChunking.TranscribeRecording` | batchalign/inference/languages/cantonese/_qwen_common.py:415-480 | published exactly when every chunk with speech aligns and none runs into a later one; sound, one entry per chunk with speech; from 5.5 seconds on order never stops it |
| `TokenRealign.Flatten` | batchalign/inference/_tokenizer_realign.py:183-188 | tokens with spaces become plain tokens without spaces that join to their text, others keep their hint, all in order |
| `TokenRealign.FlattenedHasNoSpaces` | batchalign/inference/_tokenizer_realign.py:183-188 | no flattened token holds a space |
| `TokenRealign.SplitJoins` | batchalign/inference/_tokenizer_realign.py:184-188 | the parts of a text joined by spaces are the text |
| `TokenRealign.FlattenedIsFlat` | batchalign/inference/_tokenizer_realign.py:183-188 | the flattened list is each token's own pieces, one token after the other |
| `TokenRealign.Consume` | batchalign/inference/_tokenizer_realign.py:203-213 | finds the group spelling the target if one starts here; fails exactly when none does |
| `TokenRealign.GroupsUnique` | batchalign/inference/_tokenizer_realign.py:201-213 | the grouping is unique |
| `TokenRealign.Rebind` | batchalign/inference/_tokenizer_realign.py:200-231 | completes exactly when a covering grouping exists; lost binding exactly when no grouping of the merged texts exists at all |
| `TokenRealign.RestoringKeepsTexts` | batchalign/inference/_tokenizer_realign.py:215-226 | texts never change; a token is replaced exactly where a plain one is a single native hint, and then by that hint |
| `TokenRealign.NonemptyTokensGroup` | batchalign/inference/_tokenizer_realign.py:200-231 | with nonempty tokens, any consecutive covering grouping is the one the loop recovers |
| `TokenRealign.LooseHasGroups` | batchalign/inference/_tokenizer_realign.py:200-213 | every grouping into concatenations can be shifted over empty tokens into one the loop follows |
| `TokenRealign.CoversIff` | batchalign/inference/_tokenizer_realign.py:200-231 | re-binding is possible if and only if a covering grouping into concatenations exists and the last token is not empty |
| `TokenRealign.FlattenedEnd` | batchalign/inference/_tokenizer_realign.py:183-188 | the last flattened token is not empty exactly when the last token's text is not empty and does not end in a space |
| `TokenRealign.LastEmptyTokenIsOmitted` | batchalign/inference/_tokenizer_realign.py:205-231 | an empty last token has a covering grouping the loop does not complete; an empty first token does no harm |
| `TokenRealign.RealignSentence` | batchalign/inference/_tokenizer_realign.py:152-231 | for any aligner: completes exactly when the merged texts group the flattened tokens and the last token ends in text; restores hints by that grouping; if only the ending fails, tokens are reported omitted |
| `FingerprintFraming.UnframeFrames` | scripts/check_extension_freshness.py:228-230 | length-prefixed frames decode to their payloads |
| `FingerprintFraming.StreamDecodes` | scripts/check_extension_freshness.py:225-273 | the stream decodes to the inventory it came from |
| `FingerprintFraming.StreamIdentifiesInventory` | scripts/check_extension_freshness.py:225-273 | equal streams mean equal paths, presence, contents and settings |
| `FingerprintFraming.SmallStream` | scripts/check_extension_freshness.py:225-273 | the stream of a present file, a missing file and empty settings, byte by byte after the version |
| `FingerprintFraming.PrefixLimit` | scripts/check_extension_freshness.py:229 | eight bytes frame every payload below 2^64 bytes |
| `FingerprintFraming.Digest.Include` | scripts/check_extension_freshness.py:228-230 | feeds one frame; refused exactly when the length does not fit eight bytes |
| `FingerprintFraming.Digest.IncludeEntry` | scripts/check_extension_freshness.py:234-238 | feeds path, presence and contents of one input |
| `FingerprintFraming.FeedEntries` | scripts/check_extension_freshness.py:233-238 | the loop feeds the frames of all entries in order |
| `FingerprintFraming.Fingerprint` | scripts/check_extension_freshness.py:225-273 | the result is the hash of exactly the inventory's stream |
| `StorageLedger.TrackExact` | batchalign/inference/fa_virtual_resources.py:155-170 | tracking keeps counts, sizes and total exact; persistent storage is never charged |
| `StorageLedger.RetireExact` | batchalign/inference/fa_virtual_resources.py:147-153 | retiring keeps them exact and frees a storage with its last tensor |
| `StorageLedger.RunExact` | batchalign/inference/fa_virtual_resources.py:147-195 | in every reachable state the total is the sum of live sizes and each count is the number of live tensors |
| `StorageLedger.TrackedAreLive` | batchalign/inference/fa_virtual_resources.py:147-170 | at every point of a run a tensor is tracked with a storage exactly when an earlier event tracked it there, outside the persistent storages and while it was untracked, and no event retired it since |
| `StorageLedger.ReferencesAreLive` | batchalign/inference/fa_virtual_resources.py:147-170 | a storage is live exactly when some such tensor uses it, and its count is their number |
| `StorageLedger.SizeIsOpening` | batchalign/inference/fa_virtual_resources.py:160-168 | the size of a live storage is the one named by the event that opened it |
| `StorageLedger.PeakIsGreatestLevel` | batchalign/inference/fa_virtual_resources.py:168-194 | peak bounds every level of the run, scratch included, and is attained |
| `StorageLedger.VirtualAllocations.constructor` | batchalign/inference/fa_virtual_resources.py:147-170 | starts empty |
| `StorageLedger.VirtualAllocations.Track` | batchalign/inference/fa_virtual_resources.py:155-170 | the object takes the track step and stays exact |
| `StorageLedger.VirtualAllocations.Retire` | batchalign/inference/fa_virtual_resources.py:147-153 | the object takes the retire step and stays exact |
| `StorageLedger.VirtualAllocations.ObserveNative` | batchalign/inference/fa_virtual_resources.py:192-194 | scratch moves only the peak |
| `AudioCache.AgreementIsExact` | batchalign/inference/audio.py:78-108 | on exactly which frame ranges loading agrees with slicing on every waveform of a length |
| `AudioCache.NegativeStartDisagrees` | batchalign/inference/audio.py:91 | a negative start on which they differ |
| `AudioCache.ChunkSamples` | batchalign/inference/audio.py:78-108 | a chunk holds exactly the samples between the frames nearest to its bounds, as far as the audio goes |
| `AudioCache.AudioFile.constructor` | batchalign/inference/audio.py:196-203 | a lazy handle with an empty cache |
| `AudioCache.AudioFile.Chunk` | batchalign/inference/audio.py:219-248 | the eager answer wherever readings agree, else one of the two readings; exactly when it fails, when it stops being lazy, and how the cache order moves |
| `AudioCache.AudioFile.Remember` | batchalign/inference/audio.py:243-247 | keys equal the order list, without repeats, within the limit; the oldest key leaves |
| `AudioCache.AudioFile.All` | batchalign/inference/audio.py:289-301 | the waveform, or nothing exactly when a needed load fails |
| `AudioCache.Serve` | batchalign/inference/audio.py:219-301 | every sequence of calls gets the eager answers, whichever chunk reads fail |
| `ConvolutionGeometry.MinimumInputExact` | batchalign/inference/fa_resources.py:79-99 | n >= 1 samples give a frame at every stage if and only if n reaches the minimum |
| `ConvolutionGeometry.MinimumSamples` | batchalign/inference/fa_resources.py:79-99 | the reversed loop computes that minimum |
| `ConvolutionGeometry.AfterConvolutions` | batchalign/inference/fa_qwen_resources.py:180-185 | the loop composes the stages, with zero frames kept zero; each stage counts the kernel positions that fit |
| `ConvolutionGeometry.OutputConvolves` | batchalign/inference/fa_qwen_resources.py:126-129 | a stage's output, in terms of the kernel steps that fit the padded input |
| `ConvolutionGeometry.ThroughMonotone` | batchalign/inference/fa_qwen_resources.py:126-129 | a chain of stages is monotone |
| `ConvolutionGeometry.WindowsPartition` | batchalign/inference/fa_qwen_resources.py:350-359 | windows are positive, all but the last full and that one at most full, and sum to the tokens exactly when those are not negative |
| `ConvolutionGeometry.PlanWindows` | batchalign/inference/fa_qwen_resources.py:325-359 | refuses exactly short inputs and processor counts that disagree, and zero windows; otherwise the plan of the frame count |
| `ConvolutionGeometry.PaddedIsLeast` | batchalign/inference/fa_qwen_resources.py:336-340 | the padded length is the least chunk multiple covering the frames |
| `ConvolutionGeometry.TokensByChunk` | batchalign/inference/fa_qwen_resources.py:325-349 | the tokens are the sum over chunks, all full but the last, of what each chunk convolves to |
| `ConvolutionGeometry.PlanIsConsistent` | batchalign/inference/fa_qwen_resources.py:336-359 | for every plan tokens fit chunks times steps; with a positive window the windows are positive, bounded, and sum to the tokens exactly when those are not negative; positive when one frame convolves to a positive length |
| `ConvolutionGeometry.PlanImpliesExecution` | batchalign/inference/fa_whisper_resources.py:94-98 | for every geometry, exactly when each planned sample count passes the executor |
| `ConvolutionGeometry.StrideTwoExecutes` | batchalign/inference/fa_whisper_resources.py:233-263 | at stride two every sample count not refused passes the executor |
| `ConvolutionGeometry.TimeTokens` | batchalign/inference/fa.py:198-223 | succeeds exactly when the rows are every label once in order and the indices are bounded and non-decreasing; after the zero prefix each time multiplied by the rate is its index times two hops |
| `ConvolutionGeometry.TimesAreExact` | batchalign/inference/fa.py:193-217 | the times, by multiplication: zero on the prefix, then time times rate is index times two hops |
| `ConvolutionGeometry.TimesInsideAudio` | batchalign/inference/fa.py:198-223 | times are zero on the prefix, non-decreasing, and strictly before the end of the audio |
| `DownloadLiveness.GrowthMeter.Poll` | batchalign/worker/_download_liveness.py:257-269 | reports exactly a rise of the threshold, capped, and the mark never falls |
| `DownloadLiveness.ReportsRise` | batchalign/worker/_download_liveness.py:257-269 | successive counts rise by 1024 KiB unless capped |
| `DownloadLiveness.RunKeepsInvariant` | batchalign/worker/_download_liveness.py:287-337 | the two-thread invariant holds in every reachable state |
| `DownloadLiveness.ReportsInOrder` | batchalign/worker/_download_liveness.py:287-337 | in every interleaving, with testing and setting the announced flag as separate steps, BEGIN comes once and first, COMPLETE last and only on a normal return, counts rise |
| `DownloadLiveness.ReporterWrites` | batchalign/worker/_download_liveness.py:287-322 | a rise the reporter polls is written before it polls again or stops |
| `DownloadLiveness.LastRiseIsWritten` | batchalign/worker/_download_liveness.py:324-337 | a run that returned after a last measurement that rose by the threshold ends with that count and COMPLETE |
| `DownloadLiveness.CatalogAnnounced` | batchalign/worker/_download_liveness.py:302-304 | a catalog source has BEGIN written before its body runs |
| `DownloadLiveness.EndingMakesProgress` | batchalign/worker/_download_liveness.py:324-337 | once stop is set every step shortens the rest of the run |
| `DownloadLiveness.EndingNeverStuck` | batchalign/worker/_download_liveness.py:324-337 | once stop is set some thread can step until the body's caller resumes |

## Left out

- Model loading, the tensor and speech libraries, virtual tensor dispatch, convolution backend selection and the Rust core: only the arithmetic and bookkeeping around them is modelled.
- `RepairedSentence` and relation repair: rows arrive with integer ids and heads; a head or tag of another type is a negative head or an absent tag, and columns no step reads are one opaque field.
- `DependencyGraph.preserve`, `wire_rows` and copying of rows: values have no aliasing here.
- Parsing itself: the constituency tree is an input, and a response without a sentence is not modelled.
- PhraseRanges.Carve: kept phrases are sets of indices rather than sorted lists.
- UtteranceGroups.LabellingPhrases: phrase numbers are fixed up to renumbering, on which the utterance numbers do not depend (`AssignmentUniqueness.AssignmentUnique`).
- RecordingAssembly.PlaceChunk: coordinates are finite reals, so the refusals of infinite coordinates and of a positive span lost to floating-point rounding cannot arise.
- AudioChunking.TranscribeRecording: which chunks hold speech is an input; decode budgets, runaway detection and blank output only decide that.
- AudioChunking.SplitAudio: mono audio at 16 kHz and a positive chunk length, which the request types guarantee; averaging several channels is not modelled.
- WordFold.OfWords: the language label passed to the splitter is fixed.
- FingerprintFraming.Fingerprint: nothing is said about hash collisions; reading the files and settings is an input, and the two existence tests of one path are one observation.
- AudioCache.AudioFile.Chunk: one channel at the file's own rate; resampling and mixing are not modelled, nor is the difference between an absent and an empty cache.
- AudioCache.AudioFile.constructor: the process-wide switch that refuses lazy handles is not modelled.
- DownloadLiveness.ReportsInOrder: a failing write to the progress channel and the measuring of directory trees are not modelled; polls see arbitrary sizes.
- ConvolutionGeometry.PlanWindows: the identity checks of the request binding, the positional-table bound checked at load time and the text side of the prompt are not modelled.
- Workspace byte formulas, the Italian multiword policy, wire types, error texts, caches keyed by engine identity, network and configuration code: per-branch claims that would only add easy members.
