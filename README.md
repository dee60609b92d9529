# lit: a verified model of the Korean word-status engine

`lit` is a reading tool for learners of Korean. It splits texts and subtitles
into segments, analyses each Korean word into a root and its derivation
rules, and looks every word up in a personal dictionary. The dictionary
stores a learning status for each word (Unknown, New, Level2 to Level5,
Ignored, WellKnown). A word without a status of its own inherits one from
its parents. Small command-line tools build on these statuses:

- `find_sentences` finds example sentences for a word;
- `anki_export` exports flash cards;
- `add_book` imports books and videos;
- `word_stats` counts root words;
- `readability_stats` rates how readable a book is.

This project models in Dafny the parts of `lit` that decide something, and
proves what they promise:

- **The Korean pipeline** (`src/morph.rs`).
  - Module `Pattern`: elements and patterns, parsed and printed, with jamo normalisation; the rule trie; the override file.
  - Module `KoreanSegment`: the token queue with its gap tokens, and the pull-based segmenter.
  - Module `KoreanRoot`: root proposals and their preference order.
  - Module `KoreanReduce`: rule reduction, and the word built from it.
- **The dispatch and merge layer** (`src/morph/mod.rs`, module `Morph`) and the alphabetic segmenter (`src/morph/alpha.rs`, module `Alpha`).
- **The dictionary** (`src/dict.rs`).
  - Module `DictCache`: the cache class and its consistency invariant.
  - Module `Dict`: the status order, the two range folds, status resolution through parents, and the breadth-first closure over parents.
- **Subtitles.**
  - Module `Vtt` (`src/vtt.rs`): cleaning, which truncates repetitions, canonicalises cues and merges them.
  - Module `DocVtt` (`src/doc/vtt.rs`): the document builder, which stitches overlapping cues into one text.
- **Server helpers** (`src/main.rs`, module `Server`): word validation, the segment status range, the cue window, the duration split, YouTube ids, and the dependency walk.
- **One module per tool**: `FindSentences`, `AnkiExport`, `AddBook`, `WordStats`, `ReadabilityStats`.

Shared pieces:

- Module `Common` holds the result type of `src/lib.rs` and the few standard-library string and list routines the code relies on: `split`, `join`, `trim`, `split_once`, and pushes guarded by `contains`.
- Module `Utf8` gives Rust's byte offsets meaning over `seq<char>`: encoded length, char boundaries and slicing.

Inputs the model takes as parameters:

- the word store, as a map from a text to its words;
- the lexer's token list;
- the `word_exists` query;
- SHA-256 digests;
- parsed URLs and metadata;
- the current time, as text.

Walks that the source runs without a bound take a `fuel` argument. They fail with `Exhausted` when it runs out. This covers status resolution through parents, the reduction loop, and the two stack walks. For status resolution and the reduction loop, lemmas show that an answer reached with some fuel is reached with more. The two stack walks have no such lemma.

The two files `src/morph.rs` and `src/morph/mod.rs` come from different revisions. The model follows `src/morph.rs` for the Korean pipeline and `src/morph/mod.rs` for dispatch and the word merge. In particular, it keeps segments without words, as `src/morph/mod.rs` does.

## Model

| member | source | states |
|---|---|---|
| Common.Check | src/lib.rs:63-68 | `check` succeeds exactly when the condition holds, else a 400 error with the message |
| Common.AppendAbsentSpec | src/bin/add_book.rs:206-213 | pushing only absent items keeps the old list as a prefix, adds exactly the new items, never one already there, and keeps a duplicate-free list so |
| Common.SplitJoin | src/morph.rs:173-193 | splitting a join on a separator no piece contains gives the pieces back |
| Common.SplitOnce | src/bin/anki_export.rs:134-136 | `split_once` is None iff the separator is absent; otherwise the text before the first separator, the separator and the rest make up the input |
| Common.Trim | src/morph.rs:243-248 | `trim` is empty iff the text is all whitespace, otherwise it starts and ends with non-whitespace and is the text between the leading and trailing whitespace |
| Common.NatToStringInjective | src/bin/add_book.rs:179-193 | different numbers print differently, so the numbered title candidates are distinct |
| Common.PadZero | src/doc/vtt.rs:137-151 | zero padding keeps the digits at the end, fills with '0' and reaches the width |
| Pattern.NormalizeJamo | src/morph.rs:56-133 | a conjoining jamo maps into the compatibility block U+3131..U+3163; every other char is unchanged |
| Pattern.NormalizeText | src/morph.rs:131-133 | every char of the text is normalised in place, and the length is kept |
| Pattern.NormalizePreservesAbsence | src/morph.rs:131-133 | normalising never introduces a char that is neither jamo nor compatibility jamo, so separators such as '/' and '+' survive unchanged |
| Pattern.NormalizeIdempotent | src/morph.rs:56-133 | normalised text has nothing left to normalise, so normalising twice equals once, and normalised text is a fixed point |
| Pattern.ParseElement | src/morph.rs:135-150 | an element parses iff the text has exactly three '/'-separated fields; its text is the normalised first field and its pos the second |
| Pattern.ElementRoundTrip | src/morph.rs:135-159 | parsing the display "text/pos/*" of a printable element gives it back |
| Pattern.ParsedElementPrintable | src/morph.rs:135-159 | every parsed element is printable and parse(display(e)) == e |
| Pattern.ParsePattern | src/morph.rs:171-180 | a parsed pattern has at least one element |
| Pattern.ParseElements | src/morph.rs:171-180 | a pattern parses iff every '+'-separated piece parses, with the elements in order |
| Pattern.PatternRoundTrip | src/morph.rs:171-193 | parsing the '+'-joined display of a printable pattern gives it back |
| Pattern.ParsedPatternRoundTrip | src/morph.rs:171-193 | every parsed pattern prints and parses back to itself |
| Pattern.FromLexerToken | src/morph.rs:203-222 | a lexer token converts only with an 8-field feature; it keeps the token's range; a "*" expression gives the single element surface/pos; otherwise each '+' part is parsed; the pattern is never empty |
| Pattern.MaybeStringToList | src/morph.rs:243-248 | None and "" give []; otherwise the ','-split items, trimmed |
| Pattern.ParseWordParsing | src/morph.rs:358-376 | an override line is its ';'-separated items, each converted to a token, and every token's pattern is non-empty |
| Pattern.ParsedItem | src/morph.rs:360-372 | an item splits as text "(" pattern ")" with no '(' in the text, and fails iff it has no '(' or does not end in ')' |
| Pattern.ItemToken | src/morph.rs:360-372 | an item gives a token iff it has the text(pattern) shape and the pattern parses; the token has no range and the item's text |
| Pattern.ParseTokensSpec | src/morph.rs:358-376 | a line of items parses iff every item does, giving one token per item in order |
| Pattern.ParseTokensOk | src/morph.rs:358-376 | a line of items parses iff every item parses |
| Pattern.ParseTokensValues | src/morph.rs:358-376 | a parsed line holds one token per item, in order, each the item's own token |
| Pattern.InsertRuleAt | src/morph.rs:393-401 | inserting a rule stores it at its own path and changes no other path |
| Pattern.EmptyTrieHasNoRules | src/morph.rs:269-276 | the new trie holds no rule |
| Pattern.InsertWellFormed | src/morph.rs:393-401 | insertion keeps every stored rule at its own pattern |
| Pattern.LastRuleFor | src/morph.rs:386-404 | a rule for a path exists iff some row has that pattern, and it is the rule of a row with that pattern that no later row shares |
| Pattern.LoadRuleAt | src/morph.rs:386-404 | after loading, each path holds the rule of the last row with that pattern, so a later duplicate replaces an earlier one |
| Pattern.LoadWellFormed | src/morph.rs:386-404 | the loaded trie stores each rule at its own pattern |
| Pattern.LoadRules | src/morph.rs:386-404 | the loading loop builds exactly the trie of the rows folded in order |
| KoreanSegment.Gap | src/morph.rs:426-435 | the gap between two offsets is empty iff they are equal, otherwise one UNK token holding exactly the text slice at that range |
| KoreanSegment.GapTiles | src/morph.rs:426-435 | a gap token tiles exactly the range between two char boundaries, with a non-empty pattern |
| KoreanSegment.QueueCons | src/morph.rs:419-437 | one step of the queue is the gap before a lexer token, then the token; the rest stays in order |
| KoreanSegment.QueueTiles | src/morph.rs:415-449 | the queue's ranges tile [last end, text length) contiguously and every token has a non-empty pattern; dropped "*" tokens fall into the next gap |
| KoreanSegment.BuildQueue | src/morph.rs:415-449 | the token-queue loop builds exactly the specified queue |
| KoreanSegment.WordRunLen | src/morph.rs:301-319 | the run taken by `next` is the longest prefix of ranged word tokens |
| KoreanSegment.NextRun | src/morph.rs:312-335 | a run segment spans from the first token's start to the last token's end, its text is the tokens' texts concatenated, and it holds one word per override then one automatic word |
| KoreanSegment.NextShape | src/morph.rs:292-335 | `next` returns a buffered segment first; otherwise it returns a run, or a word-less segment for a non-word token; it fails on a token without a range |
| KoreanSegment.NextBuffered | src/morph.rs:292-323 | a buffered segment is returned first and leaves the queue as it was; an empty queue yields nothing |
| KoreanSegment.NextRunShape | src/morph.rs:300-335 | a run of word tokens becomes one segment: the tokens' texts joined, from the first token's start to the last one's end, its last word built from the run itself; the token that stopped the run is buffered |
| KoreanSegment.NextNonWord | src/morph.rs:300-323 | with no word token at the front, the non-word token there is returned alone as a segment without words |
| KoreanSegment.NextConsumes | src/morph.rs:300-319 | a call on a non-empty queue pops a non-empty prefix of it and leaves the rest |
| KoreanSegment.NextProgress | src/morph.rs:292-335 | while tokens or a buffered segment remain, `next` yields a segment or an error and consumes input |
| KoreanSegment.DrainTiles | src/morph.rs:451-455 | the segments drained from a tiling queue tile the same byte range |
| KoreanSegment.ParseTiles | src/morph.rs:415-456 | the segments of a parse tile the whole text, [0, byte length) |
| KoreanSegment.ParseOutput.constructor | src/morph.rs:450 | the segmenter starts with the queue and nothing buffered |
| KoreanSegment.ParseOutput.Next | src/morph.rs:292-336 | the segment returned and the new queue and buffer are those `next` specifies |
| KoreanSegment.ParseOutput.PopRun | src/morph.rs:301-319 | the pop loop removes the run of word tokens and buffers the non-word token that stops it |
| KoreanSegment.ParseOutput.SegmentWordsOf | src/morph.rs:325-334 | the words of a run are the override words in order, then the automatic word |
| KoreanSegment.LoadOverrides | src/morph.rs:404-410 | the loading loop builds exactly the specified override table, stopping at the first row that does not parse |
| KoreanSegment.LoadedOverridesFailed | src/morph.rs:407-408 | once a row fails to parse, the rows after it are not read and the load fails with that error |
| KoreanSegment.LoadedOverridesOk | src/morph.rs:404-410 | loading succeeds iff every row's parsing parses |
| KoreanSegment.LoadedOverridesWords | src/morph.rs:404-410 | the loaded table has an entry for exactly the words of the rows |
| KoreanSegment.LoadedOverridesNonEmpty | src/morph.rs:404-410 | when the row reader only yields non-empty patterns, every loaded parsing has non-empty patterns |
| KoreanSegment.LoadedParserValid | src/morph.rs:379-413 | a parser built from the loaded rule trie and override table (read with `WordParsing::from_str`) is well formed and its overrides have non-empty patterns, which the segmenter needs |
| KoreanSegment.OverrideWordsCons | src/morph.rs:325-334 | the override words of a run are the word of the first override followed by those of the rest |
| KoreanRoot.LongerThanIsLength | src/morph.rs:473-479 | between proposals of different lengths, `longer_than` compares lengths |
| KoreanRoot.PreferredOverAsymmetric | src/morph.rs:481-493 | of two proposals of different lengths, exactly one is preferred over the other |
| KoreanRoot.PreferredOverTransitive | src/morph.rs:481-493 | the preference is transitive on proposals of distinct lengths |
| KoreanRoot.Build | src/morph.rs:495-531 | a proposal consumes the prefix; its pos is noun- or verb-class; it is None without an extra element when the last token has one element; with an extra element it exists iff that pos is noun- or verb-class |
| KoreanRoot.NormalizePos | src/morph.rs:533-543 | VX and XSV become VV, XSA becomes VA, XSN and ETN become NN, and every other pos is unchanged |
| KoreanRoot.SetOrCompare | src/morph.rs:554-565 | an empty slot takes the candidate; otherwise the candidate replaces the holder only when preferred over it, so the earlier one stays on ties |
| KoreanRoot.CandidatesIncreasing | src/morph.rs:568-583 | candidates come in strictly increasing length, so no two tie |
| KoreanRoot.Select | src/morph.rs:568-583 | the fold picks the held root or one of the candidates, and something whenever either exists |
| KoreanRoot.SelectBest | src/morph.rs:568-583 | the fold's choice is preferred over every other candidate |
| KoreanRoot.NormalizeResult | src/morph.rs:584-599 | the rewritten pattern starts with "*"; with a root, the word is the root's and the pos is normalised |
| KoreanRoot.NormalizeChoosesBest | src/morph.rs:568-599 | a root is chosen iff there is a candidate, and it is the best; with none, the root is the first element's text (plus "다" for a V pos) |
| KoreanRoot.Normalize | src/morph.rs:568-600 | `normalize` returns the specified root and pattern |
| KoreanReduce.LongestRuleLen | src/morph.rs:664-680 | the walk keeps the deepest rule seen on the trie path, and no longer prefix has a rule |
| KoreanReduce.MatchFits | src/morph.rs:664-680 | a match found at position i is a rule stored for a prefix of the pattern from i that fits inside it |
| KoreanReduce.LongestUnique | src/morph.rs:664-680 | only one length meets that contract |
| KoreanReduce.DeepestIsLongest | src/morph.rs:664-680 | the trie walk finds the longest prefix with a rule |
| KoreanReduce.Scan | src/morph.rs:660-705 | the scan stops at the first usable position, and none before it is usable |
| KoreanReduce.ReduceOnceNone | src/morph.rs:653-707 | nothing happens exactly when no position is usable (including an empty pattern), and then nothing changes |
| KoreanReduce.ReduceOnceTerminal | src/morph.rs:681-692 | a terminal rule applies only when stored for the whole pattern from offset 0; the pattern stays, and absent parents and tags are appended in order |
| KoreanReduce.ReduceOnceStep | src/morph.rs:693-705 | a rewrite replaces [i, i+len) at the first usable position with the rule's output and appends the absent parents and tags |
| KoreanReduce.ReduceOnceKeepsParents | src/morph.rs:653-707 | a reduction keeps the parents and tags it was given as a prefix and adds no parent twice |
| KoreanReduce.FindRule | src/morph.rs:664-680 | the trie walk from a position finds the specified match |
| KoreanReduce.ReducePatternOnce | src/morph.rs:653-707 | the in-place reduction leaves the pattern, parents and tags as specified |
| KoreanReduce.ReduceAll | src/morph.rs:626-646 | the reduction loop fails only by running out of fuel |
| KoreanReduce.ReduceAllFuel | src/morph.rs:626-646 | an outcome reached with some fuel is reached with more |
| KoreanReduce.ReduceAllOutcome | src/morph.rs:626-646 | the loop stops at a translation or an irreducible pattern; parents stay a prefix-extension without duplicates |
| KoreanReduce.TokensToWordShape | src/morph.rs:602-651 | the word has the segment's text and no id; it inherits its status exactly when a rule translated it, otherwise its status is Unknown; its first parent is the root; its tags start with the pos tags; the only errors are no tokens and an endless reduction |
| KoreanReduce.TokensToWord | src/morph.rs:602-651 | `tokens_to_word` builds the specified word |
| KoreanReduce.RunReductions | src/morph.rs:626-646 | the reduction loop computes the specified outcome |
| Morph.WithOffsetAdd | src/morph/mod.rs:20-23 | shifting twice shifts by the sum; shifting by zero changes nothing |
| Morph.ShiftIntoSpan | src/morph/mod.rs:75-77 | a segment that slices the span's text, shifted by the span start, slices the document text at the same text |
| Morph.TilesWithin | src/morph/mod.rs:75-76 | segments that tile a range lie inside it |
| Morph.Parse | src/morph/mod.rs:56-61 | Alphabetic dispatches to the alphabetic segmenter, with its maximal, ordered, covering runs; Korean dispatches to the Korean parse |
| Morph.KeptMembers | src/morph/mod.rs:83-87 | a proposed word is kept iff it is not its own parent and the store list is empty or its translation is non-empty |
| Morph.KeptAll | src/morph/mod.rs:83-87 | when every proposal passes, all are kept in order |
| Morph.MergeWords | src/morph/mod.rs:81-87 | the merged list is the store's words in order, followed by the kept proposals |
| Morph.MergedWords | src/morph/mod.rs:81-88 | a segment given the merged list has exactly the store's words followed by the kept proposals |
| Morph.KeyByStartLast | src/morph/mod.rs:94-95 | a key holds the last segment with that start |
| Morph.KeyByStartValues | src/morph/mod.rs:94-95 | every key holds a segment of the list that starts at that key |
| Morph.AnalysedTable | src/morph/mod.rs:94-95 | every entry of the keyed table is an analysed segment starting at its key |
| Morph.AnalyzeSegment | src/morph/mod.rs:76-90 | the result is the parsed segment's merged form: range moved by the span start, same text, the store's words then the kept proposals; it lies in its span, and for the alphabetic segmenter it slices the document text |
| Morph.AnalyzeSpan | src/morph/mod.rs:70-91 | on success the result is the merged form of exactly what the configured segmenter returns for the span text (maximal covering alphabetic runs, or the Korean parse); only the Korean segmenter fails, with its own error |
| Morph.AnalyzeParsed | src/morph/mod.rs:75-90 | the output is the merged form of each parsed segment, in order, and each one is analysed |
| Morph.MergedSegmentsPush | src/morph/mod.rs:75-90 | merging one more parsed segment appends its merged form |
| Morph.DocSegmentsPush | src/morph/mod.rs:70-92 | visiting one more span appends that span's merged segments |
| Morph.AnalyzeDocument | src/morph/mod.rs:64-98 | a document with segments is returned unchanged; otherwise the table keys by start the in-order concatenation of every span's merged segments, a whitespace-only span contributing none and every other span its segmenter's result; an error is the Korean segmenter's error on the first failing non-blank span, all earlier spans having parsed |
| Alpha.RunSegment | src/morph/alpha.rs:17-24 | a run's segment covers exactly the bytes of its chars, and the range is non-empty |
| Alpha.ClosedRun | src/morph/alpha.rs:14-24 | the segment closing a run is maximal: alphabetic inside, and not followed by an alphabetic char |
| Alpha.CloseStep | src/morph/alpha.rs:18-24 | a non-alphabetic char or the end closes the open run, and the segments pushed so far stay ordered, maximal and covering |
| Alpha.Parse | src/morph/alpha.rs:10-28 | every segment is a maximal alphabetic run whose text is the slice at its range; segments are increasing and disjoint; every alphabetic char is covered; segments carry no words |
| DictCache.LookupAll | src/dict.rs:122 | the cached words of the ids, in order, skipping uncached ones |
| DictCache.Without | src/dict.rs:173 | `retain` drops exactly the id and keeps a duplicate-free list so |
| DictCache.Cache.constructor | src/dict.rs:82-88 | a new cache is empty, has no all-words flag, and is consistent |
| DictCache.Cache.ExistsByText | src/dict.rs:90-105 | Some(true) if surely_exists or an id is indexed; Some(false) only for a complete empty entry or an absent one under the all-words flag; else None |
| DictCache.Cache.FindWordById | src/dict.rs:107-109 | the cached word of the id, if any |
| DictCache.Cache.FindAllWordsByText | src/dict.rs:111-123 | None unless the entry is complete (or absent under the all-words flag, giving []); otherwise the cached words in index order |
| DictCache.Cache.FindAllSound | src/dict.rs:111-123 | under the invariant, every word returned for a text has that text |
| DictCache.Cache.QueriesAgree | src/dict.rs:90-123 | a text known absent lists no words, and a text with words is known to exist |
| DictCache.Cache.SetTextIndexComplete | src/dict.rs:144-146 | only the entry's complete flag is set, and the invariant holds |
| DictCache.Cache.SetTextIndexHasAllWords | src/dict.rs:148-150 | after setting the flag, every unindexed text is known absent |
| DictCache.Cache.SetWordExists | src/dict.rs:152-164 | true only sets surely_exists; false removes every word indexed under the text, empties its list and marks it complete and not surely existing; the invariant holds |
| DictCache.Cache.InvalidateById | src/dict.rs:166-175 | an unknown id changes nothing; otherwise the word is removed, its id leaves its text's list and both flags clear |
| DictCache.Cache.InsertWord | src/dict.rs:125-142 | an id of None changes nothing; a cached id with the same text replaces the word and keeps the index; a new text first invalidates the old entry; the invariant holds |
| DictCache.Cache.AddNew | src/dict.rs:136-141 | a new id is cached and listed once under its text, which becomes surely existing |
| DictCache.Cache.InvalidateTextIndexComplete | src/dict.rs:177-181 | only the complete flag of an existing entry clears |
| DictCache.Cache.InvalidateTextIndexFlags | src/dict.rs:183-188 | both flags of an existing entry clear and nothing else changes |
| Dict.RankInjective | src/dict.rs:17-26 | the discriminants identify the statuses, so the order is total |
| Dict.Min | src/dict.rs:625 | `min` is a lower bound equal to one argument |
| Dict.Max | src/dict.rs:625 | `max` is an upper bound equal to one argument |
| Dict.FoldPossibilitiesCases | src/dict.rs:616-627 | (Unknown, Unknown) is an identity on either side; (Ignored, Ignored) is skipped; a half-Ignored range is an error; otherwise (min of lows, max of highs) |
| Dict.FoldPossibilitiesCommutes | src/dict.rs:616-627 | the sense fold does not depend on the order of its arguments |
| Dict.FoldParentsLowers | src/dict.rs:629-640 | folding a parent never raises either bound, and (Ignored, Ignored) absorbs |
| Dict.FoldParentsCommutes | src/dict.rs:629-640 | the parent fold does not depend on the order of its arguments |
| Dict.FoldsKeepWellFormed | src/dict.rs:616-640 | both folds keep a range's low at or below its high |
| Dict.ResolveStatusFuel | src/dict.rs:642-653 | a resolution reached with some fuel is reached with more |
| Dict.FoldParentsOverFuel | src/dict.rs:646-651 | the same for the fold over parents |
| Dict.FoldSensesFuel | src/dict.rs:659-666 | the same for the fold over senses |
| Dict.FoldParentsOverLowers | src/dict.rs:646-651 | resolving from (WellKnown, WellKnown) never yields a bound above it |
| Dict.ResolveThroughParents | src/dict.rs:642-653 | a word without parents or a status of its own is WellKnown |
| Dict.IgnoredThenNew | src/dict.rs:616-627 | a text with an Ignored sense and then a New sense resolves to (New, New) |
| Dict.FoldSensesStaysKnown | src/dict.rs:616-627 | once the running range is not (Unknown, Unknown), the sense fold never returns to (Unknown, Unknown) |
| Dict.FoldSensesFromIgnored | src/dict.rs:616-627 | folding from (Ignored, Ignored) gives what folding from (Unknown, Unknown) gives, except that an all-Unknown result stays (Ignored, Ignored) |
| Dict.IgnoredSenseSkipped | src/dict.rs:616-627 | an Ignored sense inserted anywhere among the senses leaves the fold's result unchanged, except that a result of (Unknown, Unknown) becomes (Ignored, Ignored), because the (Unknown, Unknown) arm comes before the Ignored arm |
| Dict.IgnoredSenseResolved | src/dict.rs:659-666 | the same for `resolve_stati_with_eval`: adding an Ignored sense to a text changes its range only from (Unknown, Unknown) to (Ignored, Ignored) |
| Dict.ResolveStatusWithEval | src/dict.rs:642-653 | the loop over parents computes the resolution, and `eval` short-circuits at the top word only |
| Dict.ResolveStatiWithEval | src/dict.rs:659-666 | the loop over senses computes the fold of their resolutions |
| Dict.ParentTexts | src/dict.rs:377-383 | the texts named as parents by any of the words |
| Dict.EnqueueParents | src/dict.rs:377-383 | only parents not yet found are queued, after the queue so far, and every parent is found or queued |
| Dict.WalkStart | src/dict.rs:367-372 | the walk starts with the queried texts queued and nothing found, satisfying its invariant |
| Dict.FindWordTrees | src/dict.rs:367-390 | the result holds exactly the texts reachable through parents, each with its store words; each text is looked up once; the loop ends on cycles |
| Dict.WalkStep | src/dict.rs:374-387 | one step keeps the invariant and shrinks a measure |
| Dict.WalkDone | src/dict.rs:374-389 | with the queue empty, the found texts are exactly the reachable ones |
| Vtt.CopiesSpec | src/vtt.rs:36-45 | the copies counted open the text, and one more would not |
| Vtt.RunShape | src/vtt.rs:36-45 | a run of a chunk is `count` copies of it |
| Vtt.RunGrows | src/vtt.rs:38-43 | one more matching window makes the counted run one copy longer |
| Vtt.RunStops | src/vtt.rs:38-43 | when the scan stops, the run holds exactly the counted copies |
| Vtt.Sweep | src/vtt.rs:34-55 | one outer step consumes at least one char when it truncates, and nothing otherwise |
| Vtt.Cut | src/vtt.rs:46-52 | a firing chunk size consumes at least one char |
| Vtt.TruncateStep | src/vtt.rs:34-57 | one pass of the outer loop keeps the processed prefix and leaves a shorter rest |
| Vtt.QuietUnchanged | src/vtt.rs:53-59 | when no truncation fires, every char is copied in order |
| Vtt.ShortUnchanged | src/vtt.rs:31-61 | a text no longer than max_repetitions is unchanged |
| Vtt.FirstFiring | src/vtt.rs:36-52 | a run of more than max_repetitions copies becomes truncated_repetitions copies followed by the suffix |
| Vtt.CountRepeats | src/vtt.rs:38-43 | the counting loop counts the copies |
| Vtt.AppendCopies | src/vtt.rs:47-49 | the loop appends k copies |
| Vtt.SweepSizes | src/vtt.rs:34-55 | the loop over chunk sizes computes one outer step |
| Vtt.TruncateRepetitions | src/vtt.rs:31-61 | `truncate_repetitions` computes the specified truncation, and terminates |
| Vtt.Earlier | src/vtt.rs:68 | the earlier of two times |
| Vtt.Later | src/vtt.rs:69 | the later of two times |
| Vtt.CanonicalizeCue | src/vtt.rs:63-74 | start ≤ end with the same two times; identifier and settings unchanged; every payload line truncated |
| Vtt.CanonicalIsFixed | src/vtt.rs:63-74 | a cue already in order with nothing to truncate is unchanged |
| Vtt.MergeCues | src/vtt.rs:83-114 | None on a different identifier or settings, a gap above the maximum, or payloads where neither text extends the other; otherwise the earlier start, the later end, and the longer payload |
| Vtt.MergeSymmetric | src/vtt.rs:83-90 | with different starts, the order of two cues does not matter |
| Vtt.MergeOrdered | src/vtt.rs:100-111 | merging ordered cues gives an ordered cue covering both |
| Vtt.CanonicalizeBlock | src/vtt.rs:76-81 | a cue block comes out ordered over the same two times, with its identifier and settings kept; other blocks pass through |
| Vtt.MergeBlocks | src/vtt.rs:116-121 | only two cue blocks merge, exactly when their cues do; two ordered cues merge into an ordered cue covering both |
| Vtt.Clean | src/vtt.rs:123-139 | `clean` returns the file with its blocks canonicalised and merged |
| Vtt.CleanLength | src/vtt.rs:123-139 | `clean` never adds blocks and keeps at least one of a non-empty list |
| Vtt.PushShape | src/vtt.rs:126-137 | one push keeps the non-cue blocks and every cue ordered |
| Vtt.PushOthers | src/vtt.rs:126-137 | a push appends the pushed block's non-cue part and changes no earlier non-cue block |
| Vtt.PushOrdered | src/vtt.rs:126-137 | a push adds at most one block, leaves the list non-empty and keeps every cue's timings ordered |
| Vtt.CleanShape | src/vtt.rs:123-139 | non-cue blocks pass through in order and every cue comes out ordered |
| DocVtt.IsWordStart | src/doc/vtt.rs:26-52 | i is a word start iff it is a char boundary before a non-whitespace char, and i is 0 or follows whitespace |
| DocVtt.WordStartPrefix | src/doc/vtt.rs:26-52 | a word start in a prefix stays a word start once text is appended |
| DocVtt.StripTags | src/doc/vtt.rs:77-89 | the output has no '<' or '>' and is no longer than the input |
| DocVtt.RemoveTags | src/doc/vtt.rs:77-89 | the loop computes the stripped text |
| DocVtt.StripPlain | src/doc/vtt.rs:77-89 | text without angle brackets is unchanged |
| DocVtt.StripConcat | src/doc/vtt.rs:77-89 | stripping two pieces in turn, carrying the open-tag flag, is stripping their concatenation |
| DocVtt.InsideTag | src/doc/vtt.rs:80-85 | inside a tag nothing is kept until the next '>' |
| DocVtt.SkipTag | src/doc/vtt.rs:80-85 | a whole tag at the front is dropped and the flag closes after it |
| DocVtt.TagDropped | src/doc/vtt.rs:77-89 | everything from '<' to the next '>' is dropped, whatever surrounds it |
| DocVtt.StartCut | src/doc/vtt.rs:57-63 | the first word start at or after i, or the end |
| DocVtt.EndCut | src/doc/vtt.rs:64-67 | the last word start at or before i, or 0 |
| DocVtt.CutStart | src/doc/vtt.rs:57-63 | the forward loop finds that word start |
| DocVtt.CutEnd | src/doc/vtt.rs:64-67 | the backward loop finds that word start |
| DocVtt.FirstCandidate | src/doc/vtt.rs:68-74 | the search returns the longest overlap candidate |
| DocVtt.CandOverlap | src/doc/vtt.rs:68-74 | a candidate found in the cut texts is an overlap of the whole texts at a word start of b |
| DocVtt.LongestOverlap | src/doc/vtt.rs:54-75 | r ≤ both lengths; if r > 0 then r is a word start of b and a ends with the first r bytes of b; r is the longest such candidate |
| DocVtt.CutsOf | src/doc/vtt.rs:55-65 | the positions where the two stepping loops stop cut the texts to their searched parts |
| DocVtt.CueTimeOf | src/doc/vtt.rs:101-110 | the seconds are h·3600 + m·60 + s and the milliseconds carry over |
| DocVtt.StitchFresh | src/doc/vtt.rs:116-121 | with no overlap, a newline is added only after non-empty text not ending in "\n", and the cue's range slices out its text |
| DocVtt.StitchOverlap | src/doc/vtt.rs:113-115 | with an overlap, only the rest is appended and the cue's range still slices out its whole text |
| DocVtt.StitchedStep | src/doc/vtt.rs:101-126 | appending one cue's text keeps every earlier cue's range slicing out its text |
| DocVtt.AppendCue | src/doc/vtt.rs:103-124 | one cue's times are converted and its stripped text is stitched on, starting `r` bytes before the end of the text when `longest_overlap` finds an overlap `r`, and at or after the end when it finds none |
| DocVtt.LongestUnique | src/doc/vtt.rs:54-75 | at most one overlap length is the longest, so the overlap a cue is stitched on with is determined |
| DocVtt.ParseDocument | src/doc/vtt.rs:92-128 | every cue's range slices the document text to exactly its stripped text, each cue is stitched on the text before it with the longest overlap, times are converted, and a single span covers the whole text |
| DocVtt.DecimalPad | src/doc/vtt.rs:137-151 | a zero-padded field reads back as its number and holds no separator |
| DocVtt.ClockIsJoin | src/doc/vtt.rs:137-151 | the clock is its fields joined by ':' |
| DocVtt.ReadClock | src/doc/vtt.rs:137-151 | reading a printed clock gives back its seconds and milliseconds |
| DocVtt.CueTimeRoundTrip | src/doc/vtt.rs:137-151 | reading a formatted time gives it back |
| DocVtt.CueTimeFields | src/doc/vtt.rs:137-151 | the written time has an hours field exactly when there is a whole hour, then two characters of minutes and at least six of seconds and milliseconds |
| DocVtt.CueTimeFieldValues | src/doc/vtt.rs:137-151 | the fields read back: the hours are the whole hours, minutes and seconds are two ASCII digits each holding the minute and second of the hour (both below 60), and the digits after '.' are the milliseconds |
| DocVtt.ClockFieldValues | src/doc/vtt.rs:145-150 | for minutes and seconds below 60 the ':'-fields of the clock text are the zero-padded values, each reading back to its value, the hours field only when hours > 0 |
| DocVtt.TwoDigits | src/doc/vtt.rs:137-151 | a number below 100 pads to exactly two digits |
| Server.DistinctCountNoDup | src/main.rs:641-648 | the length after sort and dedup equals the length iff there are no duplicates |
| Server.ValidateWordSpec | src/main.rs:639-650 | a word is accepted iff it is not its own parent and has no duplicate parents or tags, with the source's message for each failure, checked in order |
| Server.ResolveStatusAsWritten | src/main.rs:781-795 | the loop computes the fold as written |
| Server.ResolveStatus | src/main.rs:781-795 | (corrected) the lowest low and the highest high of the resolved words, or (Unknown, Unknown) when none is resolved |
| Server.ExtremesSpec | src/main.rs:781-795 | the extremes are None iff no word is resolved; otherwise they are attained by some word and bound every resolved word |
| Server.AsWrittenHigh | src/main.rs:789-792 | the high bound as written is the highest high |
| Server.AsWrittenWithoutUnknownLows | src/main.rs:785-788 | when no resolved low is Unknown, the fold as written gives the range |
| Server.AsWrittenOrderDependent | src/main.rs:785-788 | (finding) the low as written depends on the order of the words |
| Server.EmptyCueWindow | src/main.rs:890-896 | (finding) with no cues the window as written is [0, 0], outside the empty list |
| Server.CueWindow | src/main.rs:880-896 | (corrected) no window iff there are no cues; otherwise min ≤ max ≤ len−1, at most three cues, around the match or the insertion point |
| Server.CueWindowAgrees | src/main.rs:890-894 | with at least one cue, the window as written is that window |
| Server.TruncRem | src/main.rs:1163-1167 | Rust's `%`: the remainder of division toward zero, with the sign of the dividend |
| Server.SplitDuration | src/main.rs:1162-1169 | hh·3600000 + mm·60000 + ss·1000 + ms is the input; for a non-negative input ms < 1000 and mm, ss < 60 |
| Server.EndTimeRoundTrip | src/main.rs:1170-1180 | the end time written into the generated captions reads back as the split duration |
| Server.QueryValue | src/main.rs:383-385 | the value of the first query pair named `v`, or None when there is none |
| Server.ShortUrlId | src/main.rs:372-394 | a youtu.be id is returned iff the path is "/" plus an id of base-64 digits (letters, digits, '_', '-') |
| Server.WatchUrlId | src/main.rs:379-396 | a watch URL gives its `v` parameter; any other domain gives None |
| Server.WalkStart | src/main.rs:173-175 | the walk starts with the segment's text as its only dep |
| Server.VisitParents | src/main.rs:177-184 | visiting a word's parents appends only absent ones and pushes their words, keeping the walk invariant |
| Server.VisitStep | src/main.rs:177-184 | one parent is listed once if new and its words pushed; every listed dep stays reachable |
| Server.WalkEnd | src/main.rs:176-186 | when the stack is empty, the deps are exactly the texts reachable from the segment |
| Server.Deps | src/main.rs:173-186 | the deps list starts with the segment text, has no duplicates, and holds exactly the reachable texts |
| FindSentences.MinStatusSpec | src/bin/find_sentences.rs:178-188 | None iff every word is a target or Ignored; otherwise the status of such a word, at or below every other one |
| FindSentences.MinNonTargetStatus | src/bin/find_sentences.rs:178-188 | the loop computes that minimum |
| FindSentences.CompareIsLex | src/bin/find_sentences.rs:190-210 | the comparison is the lexicographic order of a key: a defined minimum first, then the minimum, then fewer words at each level, then the length |
| FindSentences.Key | src/bin/find_sentences.rs:190-210 | the comparison key has one entry per status level plus three |
| FindSentences.CompareAntisymmetric | src/bin/find_sentences.rs:190-210 | swapping the arguments reverses the result |
| FindSentences.CompareReflexive | src/bin/find_sentences.rs:190-210 | a sentence compares Equal with itself |
| FindSentences.CompareTransitive | src/bin/find_sentences.rs:190-210 | the order is transitive |
| FindSentences.CompareByMinimum | src/bin/find_sentences.rs:191-197 | a sentence with a defined minimum beats one without, and a higher minimum is Greater |
| FindSentences.Insert | src/bin/find_sentences.rs:101 | inserting keeps the list descending and adds exactly the one sentence |
| FindSentences.SortByReadability | src/bin/find_sentences.rs:101 | the results are a descending permutation of the sentences |
| FindSentences.CompareEqualTransitive | src/bin/find_sentences.rs:190-210 | two sentences that compare Equal with a third compare Equal with each other |
| FindSentences.InsertEqualTo | src/bin/find_sentences.rs:101 | an inserted sentence goes ahead of every sentence already there that compares Equal with it |
| FindSentences.SortStable | src/bin/find_sentences.rs:101 | the sort is stable: the sentences comparing Equal with any given sentence come out in their input order |
| FindSentences.Best | src/bin/find_sentences.rs:101-104 | `count` of them (or all), still descending, drawn from the input, and none of them less readable than a sentence left out |
| FindSentences.TakeWord | src/bin/find_sentences.rs:232-250 | after each word the window holds at most max words, the last ones taken in |
| FindSentences.CollectSentences | src/bin/find_sentences.rs:237-265 | the loop emits the specified windows |
| FindSentences.WindowsEmitted | src/bin/find_sentences.rs:237-265 | every emitted sentence is a window of consecutive words that holds a target, with at most max words, and at least min when it never filled |
| FindSentences.WindowSlides | src/bin/find_sentences.rs:237-243 | once the window is full, taking in a word drops the oldest one and emits the window iff its word at index max / 2 is a target |
| FindSentences.WindowFills | src/bin/find_sentences.rs:244-249 | before the window is full it grows, and it is emitted when it becomes full iff a target lies among its first words |
| FindSentences.StepEmitEmitted | src/bin/find_sentences.rs:237-250 | the sentence emitted while taking in a word is a window of consecutive words holding a target, with at most max words |
| FindSentences.EndEmitEmitted | src/bin/find_sentences.rs:253-265 | the sentence the final check emits is a window holding a target, and a short one is the whole text sentence of at least min words |
| FindSentences.MissedTarget | src/bin/find_sentences.rs:244-249 | (finding) with max 3, the target at index 1 of a 4-word sentence is in no emitted sentence |
| FindSentences.WindowsCover | src/bin/find_sentences.rs:237-265 | (corrected) every target lies in an emitted sentence, whenever the text sentence is long enough to emit |
| FindSentences.StepCovers | src/bin/find_sentences.rs:237-250 | (corrected) a target word that a step settles lies in a sentence emitted so far |
| FindSentences.EndCovers | src/bin/find_sentences.rs:253-265 | (corrected) a target word the window loop left unsettled lies in the sentence the final check emits |
| AnkiExport.SanitizeTag | src/bin/anki_export.rs:176-178 | every space becomes '_' and nothing else changes |
| AnkiExport.IsStatusClose | src/bin/anki_export.rs:195-203 | a close status is strictly below the minimum |
| AnkiExport.IsStatusCloseLadder | src/bin/anki_export.rs:195-203 | close holds exactly when the status is one rung below the minimum (New/Level2 … Level5/WellKnown) |
| AnkiExport.LoweredMinSpec | src/bin/anki_export.rs:229-236 | the effective minimum is the configured one lowered, never raised, by the overrides of the word's tags |
| AnkiExport.Classify | src/bin/anki_export.rs:226-243 | Ignored is Excluded; below the minimum, StatusClose if close, else StatusTooLow; otherwise Included |
| AnkiExport.IncludedSpec | src/bin/anki_export.rs:205-244 | a word is Included iff it has an id, a translation, no noanki tag, passes the include/exclude and root-parent rules, and its status is not Ignored and at or above the effective minimum |
| AnkiExport.IncludeWord | src/bin/anki_export.rs:205-244 | the early returns and the loop lowering the minimum compute the verdict |
| AnkiExport.Base91RoundTrip | src/bin/anki_export.rs:254-277 | reading the digits back in base 91 gives the integer; a positive integer has no leading zero digit, and 0 gives "" |
| AnkiExport.Base91 | src/bin/anki_export.rs:269-276 | every digit is a char of the 91-char table |
| AnkiExport.Value91Digit | src/bin/anki_export.rs:255-268 | each table char stands for its position |
| AnkiExport.GuidFor | src/bin/anki_export.rs:254-277 | the GUID is the base-91 digits of the first 8 digest bytes read big-endian, a 64-bit value |
| AnkiExport.SortWords | src/bin/anki_export.rs:311-321 | the words are sorted into included, too-low-or-close and close lists, in order; any failed verdict fails |
| AnkiExport.Picked | src/bin/anki_export.rs:311-321 | every picked word is one of the input words |
| AnkiExport.PickedExactly | src/bin/anki_export.rs:311-321 | the picked words are exactly the input words whose verdict is one of the given ones, and there are no more of them than input words |
| AnkiExport.SharedText | src/bin/anki_export.rs:331-335 | the note's text is the shared text, and differing texts are an error |
| AnkiExport.SharedPronunciation | src/bin/anki_export.rs:336-341 | the pronunciation all words share when they share one; empty when the words disagree or none has a pronunciation |
| AnkiExport.CommonTagsSpec | src/bin/anki_export.rs:348-351 | a tag is common iff every word has it |
| AnkiExport.InsertSorted | src/bin/anki_export.rs:406-407 | inserting into a strictly sorted list keeps it strictly sorted and adds exactly the element |
| AnkiExport.SortDedup | src/bin/anki_export.rs:406-407 | `sort` then `dedup` gives the distinct tags in strictly increasing order |
| AnkiExport.StrictlySortedUnique | src/bin/anki_export.rs:406-407 | a strictly sorted list is determined by its elements |
| AnkiExport.NoteTags | src/bin/anki_export.rs:402-409 | the note's tags are the sanitised common tags not hidden, sorted without duplicates |
| AnkiExport.WordsToNote | src/bin/anki_export.rs:307-412 | no note iff nothing is Included, and then the close words are reported; included words come first; the note carries the shared text, pronunciation, GUID and tags |
| AnkiExport.ParseUsizeOfNat | src/bin/anki_export.rs:139 | a printed column number parses back |
| AnkiExport.ParseUsize | src/bin/anki_export.rs:139 | a parsed usize is below 2^64 |
| AnkiExport.ReadHeader | src/bin/anki_export.rs:130-148 | the header is read from the leading comment lines; column numbers are 1-based, 0 is an error, and the guid column is among the columns |
| AnkiExport.CommentLines | src/bin/anki_export.rs:130-133 | the header is the longest run of leading '#' lines |
| AnkiExport.HeaderErrorSticks | src/bin/anki_export.rs:138-142 | an error in one header line is the error of the whole header |
| AnkiExport.FrontColumn | src/bin/anki_export.rs:153 | the front column is the smallest index not named by a column header |
| AnkiExport.CollectGuids | src/bin/anki_export.rs:161-171 | records with both columns map their front to their GUID, the later one winning |
| AnkiExport.ReadGuids | src/bin/anki_export.rs:124-174 | a header error is the error; no guid column gives no GUIDs; otherwise the table of the records |
| AddBook.ShouldUpdateField | src/bin/add_book.rs:116-124 | a non-empty include list decides membership; else a non-empty exclude list decides non-membership; else every field is updated |
| AddBook.UpdatedFieldsWritten | src/bin/add_book.rs:269-350 | an update writes exactly the selected fields: the SET list assigns the selected columns other than tags (last_read only with a date), and the tags are deleted and re-inserted exactly when tags is selected |
| AddBook.IncludeExcludeDual | src/bin/add_book.rs:116-124 | including a list selects what excluding its complement selects; no lists select all |
| AddBook.CheckFieldLists | src/bin/add_book.rs:150-152 | both lists at once is an error, with the source's message |
| AddBook.TitleFromMetadata | src/bin/add_book.rs:138-145 | "[channel]: " + title with a channel, else the title; it always ends with the title |
| AddBook.TitleRoundTrip | src/bin/add_book.rs:138-145 | the channel and title can be read back from the composed title |
| AddBook.ChooseTitle | src/bin/add_book.rs:163-170 | an explicit title wins; else the metadata title; neither is an error with the source's message |
| AddBook.ContentTypeSpec | src/bin/add_book.rs:196-204 | an explicit type wins; else ".vtt" gives text/vtt, ".md" gives text/markdown, and anything else text/plain |
| AddBook.BookContentType | src/bin/add_book.rs:196-204 | an explicit `--type` is used as given |
| AddBook.MergeTags | src/bin/add_book.rs:206-213 | the CLI tags, then the metadata tags not already present, in order, without adding duplicates |
| AddBook.CandidateInjective | src/bin/add_book.rs:179-193 | different suffix numbers give different candidate titles |
| AddBook.DisambiguateTitle | src/bin/add_book.rs:179-193 | the first of base, "base [2]", "base [3]", … not already used |
| AddBook.IdBy | src/bin/add_book.rs:235-253 | the id of a row holding the value in the given column (slug or URL), present iff some row holds it |
| AddBook.PlanSpec | src/bin/add_book.rs:233-266 | a book is skipped iff overwrite is off, unique-url is on and its URL is stored; only overwrite updates, and only a row with the slug or (unique-url) the URL; an insert under unique-url has no stored URL twin, and under overwrite no stored slug twin |
| AddBook.QueryBuilder.Push | src/bin/add_book.rs:277-318 | a push appends to the SQL text |
| AddBook.QueryBuilder.constructor | src/bin/add_book.rs:277 | the builder starts with the given SQL text |
| AddBook.QueryBuilder.PushBind | src/bin/add_book.rs:277-318 | a bind appends a '?' placeholder |
| AddBook.UpdatedColumnsSpec | src/bin/add_book.rs:277-318 | the SET clause names exactly the selected columns (last_read when given), once each |
| AddBook.SetClause | src/bin/add_book.rs:126-136 | the assignments are empty iff no column is assigned |
| AddBook.UpdateField | src/bin/add_book.rs:126-136 | a selected field appends its assignment and reports true; an unselected one changes nothing |
| AddBook.SetColumn | src/bin/add_book.rs:278-312 | one column step appends its assignment exactly when the column is selected |
| AddBook.SetLastRead | src/bin/add_book.rs:293-303 | the last_read step appends the COALESCE(MAX(…)) assignment exactly when selected |
| AddBook.SetLeadingColumns | src/bin/add_book.rs:277-292 | the title, slug, url, added and published steps append the assignments of exactly the selected columns, in that order |
| AddBook.SetTrailingColumns | src/bin/add_book.rs:304-315 | the archived, audio_file, content_type and content steps append the assignments of exactly the selected columns, in that order |
| AddBook.BuildUpdate | src/bin/add_book.rs:277-318 | the statement built is "UPDATE book SET" + the assignments of the selected columns + " WHERE id = ?" |
| AddBook.EmptySetClause | src/bin/add_book.rs:277-318 | (finding) with no column selected, the statement is "UPDATE book SET WHERE id = ?" |
| AddBook.UpdateStatementNone | src/bin/add_book.rs:277-318 | (corrected) no statement is built iff no column is selected |
| AddBook.UpdateStatementAssigns | src/bin/add_book.rs:277-318 | (corrected) a built statement assigns at least one column |
| WordStats.MaxStatusSpec | src/bin/word_stats.rs:44-53 | 0..5 map to Unknown..Level5 and absence to WellKnown; anything else is an error |
| WordStats.MergeRoots | src/bin/word_stats.rs:115-119 | each key of the new map gains its count; other keys are unchanged |
| WordStats.MergeOrderFree | src/bin/word_stats.rs:115-119 | merging does not depend on the order in which books finish, and the empty map changes nothing |
| WordStats.LeafSpec | src/bin/word_stats.rs:161-170 | a parentless word is counted iff its optimistic status is not Ignored and at most the maximum, and at most once |
| WordStats.InsertByCount | src/bin/word_stats.rs:83-84 | inserting keeps the list descending by count and adds exactly the entry |
| WordStats.SortByCount | src/bin/word_stats.rs:83-84 | the entries sorted by descending count, a permutation of the input |
| WordStats.PushParents | src/bin/word_stats.rs:171-175 | each parent's words are pushed, one level deeper, in order |
| WordStats.PopWord | src/bin/word_stats.rs:159-176 | one pop moves a word's count from the stack to the accumulator, or fails the segment |
| WordStats.WalkSegment | src/bin/word_stats.rs:157-177 | the stack walk of a segment adds exactly the counts of its word tree, or fails iff the tree does |
| WordStats.CountRoots | src/bin/word_stats.rs:153-180 | the root counts of a document are the sum over its segments, and a failure anywhere fails it |
| WordStats.SegmentsErrorSticks | src/bin/word_stats.rs:153-180 | a failure in some segment fails the whole document |
| WordStats.RankingSpec | src/bin/word_stats.rs:83-87 | the output is sorted by descending count, drawn from the counts, and truncated to `count` when given |
| WordStats.RankingKeepsLargest | src/bin/word_stats.rs:83-87 | no entry left out has a larger count than one kept |
| ReadabilityStats.FirstTagMin | src/bin/readability_stats.rs:168-196 | the minimum of the first tag listed in the table, None iff no tag is listed |
| ReadabilityStats.EvalStatusSpec | src/bin/readability_stats.rs:189-199 | Ignored stays Ignored; with a listed tag, the larger of the stored status and the tag minimum (the minimum when none is stored); otherwise the stored status |
| ReadabilityStats.EvalNeverLowers | src/bin/readability_stats.rs:189-199 | the override never lowers a stored status, and gives None only to an untagged word without one |
| ReadabilityStats.TaggedWordResolves | src/bin/readability_stats.rs:193-196 | a tagged word without a stored status is rated at its tag minimum, without its parents being consulted |
| ReadabilityStats.SegmentRating | src/bin/readability_stats.rs:202-204 | a failed resolution is rated (Unknown, Unknown); otherwise the resolved range |
| ReadabilityStats.RatingDistributions | src/bin/readability_stats.rs:202-206 | each distribution counts every segment once, under its pessimistic or optimistic rating |

## Left out

- I/O: SQL queries and the SQLite store, reading files and standard input, the HTTP handlers, templates, images, and the Python and JavaScript helpers. The store is a map from a text to its words.
- Async tasks, the `RwLock` around the cache, and the concurrent book loops of the tools. Each loop is modelled sequentially.
- Foreign parsers and hashing are inputs to the model. This covers the `notmecab` lexer and lexicon loading, `WebVtt::parse`/`render`, URL parsing, CSV and TOML reading, and SHA-256. The CSV records are given as lists of fields.
- Floating point: `score` and `weight` of `readability_stats`, `cue_seconds`, and the `dur * 1000.0` cast. The duration split starts from the integer milliseconds.
- Markdown rendering of the Anki translation and the word images in notes.
- Error re-wrapping (`anyhow!` messages around propagated errors). Errors of `src/lib.rs` keep their code and message.
- Command-line parsing. Options arrive as values.
- The current time. `add_book` takes the `last_read` text as a parameter.
- Dict.ResolveStatus, KoreanReduce.ReduceAll, WordStats.WalkSegment, Server.Deps: the source walks parents and reductions without a bound. The model takes fuel, or a depth bound on the word-stats stack, and returns `Exhausted` when it runs out. Only for Dict.ResolveStatus and KoreanReduce.ReduceAll is it proved that a result reached with some fuel is reached with more.
- DictCache.Cache: the `HashMap` iteration order is not modelled. The index lists are sequences in push order.
- AnkiExport.GuidFor: the digest is an input, and the model proves the conversion of its first 8 bytes only.
- FindSentences.CollectSentences: `max_sentence_words` is required to be at least 1, because the source reads index `max / 2` after the pop.
- Vtt.TruncateRepetitions, Vtt.Clean: both require a repetition limit above zero. The source divides the remaining length by that limit (src/vtt.rs:34), so a zero limit panics there; the model does not cover that panic.
- AddBook.BuildUpdate: the `last_read` value is pushed into the SQL text unquoted, as the source does. The model keeps the text literally.
- ReadabilityStats.RatingDistributions: the counters of undefined words and the roots loop of `compute_document_stats` are not modelled.
- The `time!` macro, debug strings and the `anymap` document store.

## Findings

| source | as written | input that shows it | evidently intended | confidence | as-written member | corrected member |
|---|---|---|---|---|---|---|
| src/main.rs:785-788 | `Unknown` marks the low bound as unset, so a real `Unknown` low seen first is overwritten by the next word | resolved ranges (Unknown, Unknown), (New, New), (Level3, Level3) give low New; in the order (New, New), (Unknown, Unknown), (Level3, Level3) they give Level3; the lowest low is Unknown | the lowest low of the resolved words, whatever their order | not executed | Server.AsWrittenOrderDependent | Server.ResolveStatus |
| src/main.rs:890-896 | `cues.len() - 1` with no cues makes the window [0, 0] over an empty list | a book whose document has an empty cue list | an empty window when there are no cues | not executed | Server.EmptyCueWindow | Server.CueWindow |
| src/bin/find_sentences.rs:244-249 | the first full window checks only its first `max / 2` words, while later windows check index `max / 2` after the pop, so the word at index `max / 2` of the first window is never checked | max 3, min 1, text sentence `a T b c` with target T: no sentence is emitted | the first full window also checks its word at index `max / 2` | not executed | FindSentences.MissedTarget | FindSentences.WindowsCover |
| src/bin/add_book.rs:277-318 | with no column selected the statement is "UPDATE book SET WHERE id = ?", which is invalid SQL; the old tags were already deleted in the same transaction, and the failing statement returns its error through `?`, so the transaction is dropped uncommitted and the tags are not re-inserted | `--overwrite --include-fields-on-update tags` for an existing book | skip the UPDATE when no column is selected | not executed | AddBook.EmptySetClause | AddBook.UpdateStatementNone |
