# kana-game, modelled in Dafny

kana-game is a Japanese typing game. It shows an English sentence and the
skeleton of its Japanese answer; the player types kana, and every answer token
whose reading the input covers is marked, until the answer is complete. A
backend schedules the questions with FSRS spaced repetition. This project
models the sequential core of the game and proves properties of the model.

The model has three parts.

- **The per-user spaced-repetition store.** `SrsEngine` models the SQLite-backed
  `FsrsSQLiteScheduler` of backend/srs_engine.py as a class whose fields are the
  tables: a map of card rows by question key, an append-only sequence of review
  logs with their AUTOINCREMENT counter, and the single scheduler row. The FSRS
  library (`review_card`, the optimiser, the default `Scheduler()`) and the
  clock are parameters. `SrsAdapter` models the srsdb adapter of
  backend/srs_adapter.py, with srsdb's `next` and `answer` and Python's
  `datetime.fromisoformat` as parameters.
- **Answer matching and progress.** `KanaControlLogic` models the kana
  control's logic (frontend/temp_kana_control/src/kana-control-logic.ts and
  its published build, frontend/node_modules/kana-control/kana-control-logic.js,
  where they differ): the backtracking `findMatch`, `markTokens` flipping
  `marked` in place (a group is an `array<Token>`), the choice of the best
  group, completion, the English/furigana scanner and `makeQuestion`.
  `KanaGameApp` models the copy of that logic inside kana-game.bundled.js, which
  ranks groups differently and adds `formatTokenGroup`, and proves that the two
  copies agree. `KanaVendor` and `Utf8Codec` model three helpers that the
  bundle vendors: WanaKana's `hiraganaToKatakana`, the tokenizer's
  `splitByPunctuation`, and the tokenizer's UTF-16 to UTF-8 encoder and
  decoder (UTF-8 as in section 3 of RFC 3629, surrogate pairs as in section
  2.2 of RFC 2781), both written as loops over an index.
- **Answer augmentation.** Each accepted answer is widened to its variants by a
  closure. A list of augmenters (guard plus rewrite: です↔だ, では↔じゃ,
  ません↔ない, pronoun swaps, reading variants, and so on) runs on every token
  group found, until no new lexical key appears. `AugmentWorklist` holds the
  closure generically: a worklist loop over an entry list and a queue index,
  and the final sort. `AugmentKanaControl`, `AugmentPublished` and
  `AugmentGame` hold the augmenters and the `augmentTokenGroups` of the three
  copies, frontend/temp_kana_control/augment.js,
  frontend/node_modules/kana-control/augment.js and src/augment.ts. The kuromoji
  tokenizer is a parameter `string -> Group`. `Morphemes` holds the IPADIC
  token, the whitespace filter and the two lexical keys. `JsText` holds the
  JavaScript and Python string operations that the code relies on (`join`,
  `split`, `trim`, global `replace`, `includes`, UTF-16 `length`).

An augmenter either hands a text to the tokenizer or builds a group itself.
Its contract states when it fires, in both directions. The text or group it
produces is given in one of two places. Most augmenters state it in their own
ensures. For the rest, the lemma named in the augmenter's row states it, under
that lemma's conditions. `AugmentGame.TextReplace` has
`AugmentGame.TextReplaceIsWholeTokenReplace`, which needs `search` never to sit
inside a longer surface. `AugmentGame.DesuDa` has `AugmentGame.DesuDaWords`,
which holds whenever the augmenter fires. `AugmentKanaControl.DropWatashiHa` has
`AugmentKanaControl.DropWatashiHaWords`, which needs no blank token and no
space inside a surface. `AugmentGame.DropWatashiHa` has
`AugmentGame.DropWatashiHaWords`, which needs every non-blank surface to have
no white space at either end. For the texts, one word per token is joined
with single spaces, and `JsText.JoinSplit` shows that such a text splits back
into the same words.

## Model

| member | source | states |
|---|---|---|
| SrsEngine.RatingFor | backend/srs_engine.py:15-20 | `RATING_MAP`: a rating exactly for the scores 0 to 3, with FSRS value score + 1 |
| SrsEngine.RatingForOrder | backend/srs_engine.py:15-20 | a higher score maps to a higher, different rating |
| SrsEngine.NewCard | backend/srs_engine.py:196 | `Card()` is a learning card never reviewed and due at once |
| SrsEngine.Reviews | backend/srs_engine.py:278-284 | the `review_json` column, one log per row, in row order |
| SrsEngine.FsrsSQLiteScheduler.constructor | backend/srs_engine.py:63-68 | opening a file keeps its cards, logs and id counter, takes the stored scheduler row or a fresh one holding the FSRS defaults with no optimisation time, and, on a file this class wrote (the `requires`), keeps the invariants its writes maintain |
| SrsEngine.FsrsSQLiteScheduler.LoadOrInitScheduler | backend/srs_engine.py:130-144 | the stored row when there is one, else the defaults with no optimisation time |
| SrsEngine.FsrsSQLiteScheduler.SaveScheduler | backend/srs_engine.py:146-153 | the scheduler row becomes the cached scheduler stamped with the time |
| SrsEngine.FsrsSQLiteScheduler.LoadCard | backend/srs_engine.py:157-165 | a card exactly when the key has an active row, and then that row's card |
| SrsEngine.FsrsSQLiteScheduler.InsertCard | backend/srs_engine.py:167-177 | a key already present is an integrity error with no change; otherwise an active row with the card's due time and created = updated = now is added |
| SrsEngine.FsrsSQLiteScheduler.UpdateCard | backend/srs_engine.py:179-190 | only the key's row changes: card, due time and updated time; an absent key changes nothing |
| SrsEngine.FsrsSQLiteScheduler.EnsureCard | backend/srs_engine.py:192-198 | an active card is returned unchanged; an absent key gets a new card due now; an inactive row makes the insert fail on the primary key |
| SrsEngine.FsrsSQLiteScheduler.GetNextQuestion | backend/srs_engine.py:202-224 | nothing iff no active card is due; else an active due card whose due time is the earliest among the due ones |
| SrsEngine.FsrsSQLiteScheduler.RecordAnswer | backend/srs_engine.py:226-261 | a score outside 0..3 raises and changes nothing; otherwise the ensured card is reviewed and written back, one log with the next row id, the key and the rating is appended, and nothing else changes; the table invariants are kept |
| SrsEngine.FsrsSQLiteScheduler.OptimizeScheduler | backend/srs_engine.py:268-298 | no logs: no change; else only the parameters are refitted from all logs in row order, the other settings are kept and the row is saved with the time |
| SrsEngine.FsrsSQLiteScheduler.Stored | backend/srs_engine.py:95-123 | what the file holds is the scheduler row, the cards and the logs |
| SrsEngine.Reopen | backend/srs_engine.py:63-68 | closing and reopening a file gives back the same scheduler, cards, logs and counter |
| SrsAdapter.TextLessTotal | backend/srs_adapter.py:145 | text comparison in SQLite's BINARY order is a strict total order: any two texts are equal or ordered one way, never both |
| SrsAdapter.TextLessTransitive | backend/srs_adapter.py:145 | that order is transitive |
| SrsAdapter.LatestReviewTime | backend/srs_adapter.py:143-151 | `MAX(review_time)` over the key's rows: nothing iff the key has no review row; else one of its review times, and no review time of that key is greater |
| SrsAdapter.BusyVerdict | backend/srs_adapter.py:154-167 | not busy without a review row or when the text does not parse; otherwise busy iff the review instant (UTC when naive) is strictly after `now` minus the window |
| SrsAdapter.NormaliseWithoutZulu | backend/srs_adapter.py:160 | `replace('Z', '+00:00')` leaves a text without Z unchanged |
| SrsAdapter.SrsDatabase.constructor | backend/srs_adapter.py:50 | `FsrsDatabase(path)` is opened on the adapter's path |
| SrsAdapter.CorrectnessFor | backend/srs_adapter.py:183-194 | a correctness exactly for the scores 0 to 3: 0, 40, 70 and 100 |
| SrsAdapter.CorrectnessOrder | backend/srs_adapter.py:187-192 | a higher score sends a higher correctness, and the bury value 50 lies between Hard and Good |
| SrsAdapter.FsrsSQLiteScheduler.constructor | backend/srs_adapter.py:36-45 | the database is not opened at construction |
| SrsAdapter.FsrsSQLiteScheduler.GetDb | backend/srs_adapter.py:47-51 | `_get_db` opens the database once, on the adapter's path, and returns the same one afterwards |
| SrsAdapter.FsrsSQLiteScheduler.HasCard | backend/srs_adapter.py:76-96 | true iff `fsrs_cards` has a row for the key |
| SrsAdapter.FsrsSQLiteScheduler.GetNextQuestion | backend/srs_adapter.py:98-109 | the first key srsdb reports due, or nothing when it reports none; the database is opened on the way |
| SrsAdapter.FsrsSQLiteScheduler.BuryCard | backend/srs_adapter.py:111-125 | a bury is one srsdb answer with correctness 50, whatever the minutes |
| SrsAdapter.FsrsSQLiteScheduler.IsBusy | backend/srs_adapter.py:127-167 | the verdict on the latest review time of the key; never busy for a key without reviews |
| SrsAdapter.FsrsSQLiteScheduler.RecordAnswer | backend/srs_adapter.py:169-196 | a score outside 0..3 raises and changes nothing; otherwise exactly one srsdb answer with the mapped correctness |
| KanaControlLogic.FindMatch | frontend/temp_kana_control/src/kana-control-logic.ts:46-61 | `findMatch` with a missing reading read as the text "undefined": at the end of the string the match is the empty list; any list it returns picks tokens at strictly increasing indices from `startIdx` whose readings, concatenated, are exactly the rest of the string |
| KanaControlLogic.TryFrom | frontend/temp_kana_control/src/kana-control-logic.ts:53-60 | the `for` loop of `findMatch` from token `i`: any list it returns is such a cover starting at `i` |
| KanaControlLogic.FindMatchComplete | frontend/temp_kana_control/src/kana-control-logic.ts:46-61 | the backtracking is complete: if any cover from `startIdx` exists, `findMatch` does not return null |
| KanaControlLogic.TryFromComplete | frontend/temp_kana_control/src/kana-control-logic.ts:53-60 | the loop finds a cover whenever one starts at or after `i` |
| KanaControlLogic.CoverHead | frontend/temp_kana_control/src/kana-control-logic.ts:54-57 | a cover of a non-empty rest starts with a token whose reading is a prefix there, and its tail covers what follows that reading |
| KanaControlLogic.FindMatchNullIffNoCover | frontend/temp_kana_control/src/kana-control-logic.ts:46-61 | `findMatch` returns null exactly when no increasing selection of readings covers the string |
| KanaControlLogic.FindMatchJs | frontend/temp_kana_control/src/kana-control-logic.ts:46-61 | `findMatch` with its throw: it throws only when some token from `startIdx` on has no reading, and when it does not throw its answer is `FindMatch`'s |
| KanaControlLogic.TryFromJs | frontend/temp_kana_control/src/kana-control-logic.ts:53-60 | the loop with its throw: reading the `length` of a missing reading that `startsWith` accepted throws, and only a missing reading can; otherwise the answer is `TryFrom`'s |
| KanaControlLogic.FindMatchJsWithReadings | frontend/temp_kana_control/src/kana-control-logic.ts:46-61 | when every token has a reading, `findMatch` never throws and answers as `FindMatch` does |
| KanaControlLogic.UndefinedReadingThrows | frontend/temp_kana_control/src/kana-control-logic.ts:54-56 | one token without a reading against the text "undefined": the source throws, while `FindMatch` finds the cover [0] |
| KanaControlLogic.MarkAt | frontend/temp_kana_control/src/kana-control-logic.ts:107-112 | marking keeps the length; a token is marked afterwards iff it was or its index was matched, and nothing else about any token changes |
| KanaControlLogic.Unmarked | frontend/temp_kana_control/src/kana-control-logic.ts:106-112 | the reported indices are exactly the matched indices whose tokens were not marked before |
| KanaControlLogic.MarkTokens | frontend/temp_kana_control/src/kana-control-logic.ts:99-114 | the flat `markTokens` on an array: no match reports null and leaves the array alone; a match marks exactly the matched tokens in place and reports the previously unmarked ones in match order |
| KanaControlLogic.MarkAtCount | frontend/temp_kana_control/src/kana-control-logic.ts:106-112 | marking raises the marked count by exactly the number of indices reported |
| KanaControlLogic.MarkTokensCount | frontend/temp_kana_control/src/kana-control-logic.ts:99-114 | after a successful `markTokens` the group has exactly as many more marked tokens as `matched` lists |
| KanaControlLogic.MarkTokensKeepsTokens | frontend/temp_kana_control/src/kana-control-logic.ts:99-114 | `markTokens` changes no surface, reading or pos, keeps the length and never unmarks a token |
| KanaControlLogic.MarkEmptyString | frontend/temp_kana_control/src/kana-control-logic.ts:52 | the empty string matches with nothing newly marked and no token changed |
| KanaControlLogic.PartialCoverIsNoMatch | frontend/temp_kana_control/src/kana-control-logic.ts:101-104 | "abc" against readings "ab", "cd" is no match: `matched` is null |
| KanaControlLogic.MarkedCount | frontend/temp_kana_control/src/kana-control-logic.ts:125-127 | the marked count of a group is at most its length |
| KanaControlLogic.MaxMarked | frontend/temp_kana_control/src/kana-control-logic.ts:128 | the maximum marked count bounds every group and, for a non-empty list, is attained by one |
| KanaControlLogic.WithMarkedCount | frontend/temp_kana_control/src/kana-control-logic.ts:130 | the filter is an order-preserving sublist holding exactly the groups with the given marked count |
| KanaControlLogic.WithMarkedCountIndices | frontend/temp_kana_control/src/kana-control-logic.ts:124-130 | the filter is exact, duplicates included: an increasing index map sends each output position to an input position holding the same group, and its indices are exactly those whose group has the count |
| KanaControlLogic.FilterIndexSnoc | frontend/temp_kana_control/src/kana-control-logic.ts:130 | one more group extends the index map by its index exactly when it has the count |
| KanaControlLogic.GroupsWithMaxMarked | frontend/temp_kana_control/src/kana-control-logic.ts:120-131 | `getGroupsWithMaxMarkedTokens` is empty iff its input is, is an order-preserving sublist of it, and holds exactly the groups of maximum marked count |
| KanaControlLogic.FirstShortestIsFirstMinimum | frontend/temp_kana_control/src/kana-control-logic.ts:155-166 | the loop's tie-break picks the group at the first index of minimum length: no group is shorter and every earlier one is longer |
| KanaControlLogic.SelectBestGroup | frontend/temp_kana_control/src/kana-control-logic.ts:140-167 | `selectBestGroup` fails with "No groups provided" on no groups; otherwise its loop returns the first shortest of the max-marked groups, which is the input group at an index that has the most marked tokens, is no longer than any group with as many, and is strictly shorter than every earlier one with as many |
| KanaControlLogic.FirstShortestSnoc | frontend/temp_kana_control/src/kana-control-logic.ts:158-164 | one loop step: the next group replaces the best only when strictly shorter |
| KanaControlLogic.SelectedGroupIsBest | frontend/temp_kana_control/src/kana-control-logic.ts:140-167 | the selected group sits at an input index with the most marked tokens; no group with as many is shorter, and every earlier group with as many is longer, so ties go to the first in `groups` |
| KanaControlLogic.AnyMarked | frontend/temp_kana_control/src/kana-control-logic.ts:136-138 | `anyMarked` holds iff some result has a non-null, non-empty `matched` |
| KanaControlLogic.Contents | frontend/temp_kana_control/src/kana-control-logic.ts:87 | the groups' current tokens, one sequence per array |
| KanaControlLogic.MarkTokensNested | frontend/temp_kana_control/src/kana-control-logic.ts:81-97 | the nested `markTokens`: every group of maximal marked count (all of them on a tie) is marked as the flat case does; every other group gets null and is untouched; an empty list goes the flat way |
| KanaControlLogic.CandidatesByInclusion | frontend/temp_kana_control/src/kana-control-logic.ts:88-91 | `candidateGroups.includes(g)` holds exactly for the groups of maximal marked count |
| KanaControlLogic.MarkSelected | frontend/temp_kana_control/src/kana-control-logic.ts:90-96 | the `groups.map`: selected groups are marked as the flat case does, the others report null and stay unchanged |
| KanaControlLogic.IsCompleted | frontend/temp_kana_control/src/kana-control-logic.ts:172-174 | `isCompleted` holds iff every token has pos 記号 or is marked |
| KanaControlLogic.MarkingKeepsCompleted | frontend/temp_kana_control/src/kana-control-logic.ts:99-114 | marking never turns a completed answer into an incomplete one |
| KanaControlLogic.StartsWithAny | frontend/node_modules/kana-control/kana-control-logic.js:109 | true iff the text starts with one of the prefixes |
| KanaControlLogic.IsCompletedPublished | frontend/node_modules/kana-control/kana-control-logic.js:107-110 | the published `isCompleted` holds iff every token's pos starts with 記号, aux-symbol, aux-symbol:period or aux-symbol:comma, or the token is marked |
| KanaControlLogic.CompletedImpliesCompletedPublished | frontend/node_modules/kana-control/kana-control-logic.js:107-110 | the published test accepts every answer the source test accepts |
| KanaControlLogic.PublishedUndefinedPosMustBeMarked | frontend/node_modules/kana-control/kana-control-logic.js:109 | a token with undefined pos counts as done in the published build iff it is marked |
| KanaControlLogic.NextWordStart | frontend/temp_kana_control/src/kana-control-logic.ts:216 | where the next match of `\w+` begins: the first word character at or after the position, or the end |
| KanaControlLogic.WordEnd | frontend/temp_kana_control/src/kana-control-logic.ts:216 | `\w+` is greedy: the run ends at the first non-word character |
| KanaControlLogic.SpaceEnd | frontend/temp_kana_control/src/kana-control-logic.ts:216 | `\s*` is greedy: the run ends at the first non-blank character |
| KanaControlLogic.CloseBracket | frontend/temp_kana_control/src/kana-control-logic.ts:216 | `[^\]]+` stops at the first ']' |
| KanaControlLogic.ExecFrom | frontend/temp_kana_control/src/kana-control-logic.ts:216-219 | `regex.exec` finds no match iff no word character is left; a match is a non-empty run of word characters that advances the position, with furigana free of ']'; which word and which furigana is stated by `ExecWithoutBracket` and `ExecWithBracket` |
| KanaControlLogic.ExecWithBracket | frontend/temp_kana_control/src/kana-control-logic.ts:216-223 | when the word and its white space are followed by '[' and a non-empty group closed by the first ']', the match is the next word run, the furigana is the text between the brackets, and the match ends after the ']' |
| KanaControlLogic.ParseFromStep | frontend/temp_kana_control/src/kana-control-logic.ts:219-224 | one pass of the `while` loop: pushing the match's word and furigana onto the parts so far, then scanning on from the match's end, yields what scanning from the old position would |
| KanaControlLogic.ParseEnglishString | frontend/temp_kana_control/src/kana-control-logic.ts:215-226 | the `while (regex.exec)` loop yields exactly the scanner's parts from the start of the text (the source's `\w` class or, with the other word class, the published one of frontend/node_modules/kana-control/kana-control-logic.js:179-190); on a prompt written from readable parts by `Render`, it gives back those parts, furigana included |
| KanaControlLogic.ParseRender | frontend/temp_kana_control/src/kana-control-logic.ts:215-226 | from any index where the rest of the text is a rendered prompt, the scanner yields exactly the rendered parts |
| KanaControlLogic.ParseEnglishRoundTrip | frontend/temp_kana_control/src/kana-control-logic.ts:215-226 | reading a prompt written as word, then `[furigana]` when there is any, then a space, gives back every part: words that are non-empty runs of word characters, and furigana that are empty or free of ']' |
| KanaControlLogic.ParseHelloWorld | frontend/temp_kana_control/src/test/kana-control-logic_test.ts:179-185 | the source's test: `Hello[konnichiwa] world` gives `Hello` with furigana `konnichiwa`, then `world` with none |
| KanaControlLogic.WordRunsSkip | frontend/temp_kana_control/src/kana-control-logic.ts:216 | characters without a word character among them contribute no word run |
| KanaControlLogic.WordEndUnique | frontend/temp_kana_control/src/kana-control-logic.ts:216 | the greedy end of a word run is the only index closing the run |
| KanaControlLogic.NextWordStartUnique | frontend/temp_kana_control/src/kana-control-logic.ts:216 | the next word start is the only index with no word character before it |
| KanaControlLogic.WordRunsAt | frontend/temp_kana_control/src/kana-control-logic.ts:216 | the maximal runs from a word character: the run ending at its greedy end, then the runs after it |
| KanaControlLogic.ExecWithoutBracket | frontend/temp_kana_control/src/kana-control-logic.ts:216-222 | with no '[' ahead a match is the next maximal word run, furigana '' and the position after the blanks following it |
| KanaControlLogic.ParseWithoutBrackets | frontend/temp_kana_control/src/kana-control-logic.ts:215-226 | on text without '[' the scanner yields one part per maximal run of word characters, in order |
| KanaControlLogic.NoFuriganaWithoutBrackets | frontend/temp_kana_control/src/kana-control-logic.ts:222 | on text without '[' every part's furigana is '' |
| KanaControlLogic.ExecAgreeWithoutApostrophe | frontend/node_modules/kana-control/kana-control-logic.js:180 | on text without an apostrophe the source's `\w` and the published `[a-zA-Z0-9_']` find the same match |
| KanaControlLogic.ScannersAgreeWithoutApostrophe | frontend/node_modules/kana-control/kana-control-logic.js:179-190 | on text without an apostrophe the two `parseEnglishString`s yield the same parts |
| KanaControlLogic.FromGroup | frontend/temp_kana_control/src/kana-control-logic.ts:200-206 | one token per morpheme, in order |
| KanaControlLogic.FromGroups | frontend/temp_kana_control/src/kana-control-logic.ts:200-207 | one token group per augmented group, in order |
| KanaControlLogic.TokenizeAll | frontend/temp_kana_control/src/kana-control-logic.ts:196-198 | one tokenizer result per answer, in order |
| KanaControlLogic.MakeQuestion | frontend/temp_kana_control/src/kana-control-logic.ts:192-213 | `makeQuestion` keeps the English and the answers, and has one group per augmented group whose tokens copy surface, reading and pos, all unmarked |
| KanaControlLogic.NoneMarkedCount | frontend/temp_kana_control/src/kana-control-logic.ts:205 | a group with no marked token has marked count 0 |
| KanaControlLogic.FreshQuestionAllCandidates | frontend/temp_kana_control/src/kana-control-logic.ts:200-206 | in a fresh question every answer group has the maximal marked count, so each is a candidate for the first `markTokens` |
| KanaControlLogic.ParseKotogram | frontend/node_modules/kana-control/kana-control-logic.js:115-131 | one unmarked token per kotogram piece, in order, its reading the hiragana of the reading or of the surface |
| KanaControlLogic.ParseAnswers | frontend/node_modules/kana-control/kana-control-logic.js:165-171 | success iff every answer has kotogram data; otherwise the error names the first answer without it; on success one parsed group per answer, in order |
| KanaControlLogic.MakeQuestionPublished | frontend/node_modules/kana-control/kana-control-logic.js:164-178 | the published `makeQuestion` throws iff some answer lacks kotogram data, naming one; otherwise it keeps English, answers and grammar, and yields one unmarked parsed group per answer, in order |
| KanaGameApp.CandidatesByCount | kana-game.bundled.js:3312-3316 | the bundle's nested `markTokens` test gives one verdict per group |
| KanaGameApp.CandidateTestsAgree | kana-game.bundled.js:3309-3325 | the bundle's count test and the control's `includes` test select exactly the same groups, so the bundle's nested `markTokens` is `KanaControlLogic.MarkSelected` with the same selection |
| KanaGameApp.Better | kana-game.bundled.js:3366-3367 | the loop's comparison: a better group never has fewer marked tokens, and between groups with as many marked tokens it is exactly the shorter one |
| KanaGameApp.FirstBest | kana-game.bundled.js:3359-3373 | the group the loop keeps is one of the groups, and no group ranks above it |
| KanaGameApp.BetterOrder | kana-game.bundled.js:3366-3367 | the ranking of the bundle's `selectBestGroup` is irreflexive and transitive across a non-better step |
| KanaGameApp.FirstBestIsFirstBest | kana-game.bundled.js:3359-3373 | the group the loop keeps is ranked below no group and strictly above every earlier one |
| KanaGameApp.SelectBestGroup | kana-game.bundled.js:3356-3374 | the bundle's `selectBestGroup`: null for no groups; otherwise its loop keeps the first group ranked below no other |
| KanaGameApp.FirstBestSnoc | kana-game.bundled.js:3362-3372 | one loop step: the next group replaces the best only when it ranks strictly above it |
| KanaGameApp.FirstBestHasMaxMarked | kana-game.bundled.js:3356-3374 | the selected group has the largest marked count |
| KanaGameApp.NoneAboveMax | kana-game.bundled.js:3312-3313 | no group has a marked count above the maximum |
| KanaGameApp.MaxMarkedSnoc | kana-game.bundled.js:3313 | the maximum marked count after one more group |
| KanaGameApp.WithMarkedCountSnoc | frontend/temp_kana_control/src/kana-control-logic.ts:130 | the groups with a given count after one more group |
| KanaGameApp.SelectionsAgree | kana-game.bundled.js:3356-3374 | the bundle's `selectBestGroup` and the control's (frontend/temp_kana_control/src/kana-control-logic.ts:146-167) pick the same group on every non-empty input |
| KanaGameApp.FormatToken | kana-game.bundled.js:3387-3396 | one token of the skeleton: the surface, or only '_' characters; it differs from the surface only for an unmarked token without `includePunctuation`; such a token that is not 記号 becomes '_' only, one per UTF-16 unit of its surface, and such a 記号 token becomes empty; no token grows |
| KanaGameApp.FormatTokenGroup | kana-game.bundled.js:3384-3399 | the skeleton is never longer, in UTF-16 units, than the joined surfaces; `FormatTokenGroupAppend` and `FormatTokenGroupSingle` make it the concatenation of the per-token pieces of `FormatToken` |
| KanaGameApp.FormatTokenGroupAppend | kana-game.bundled.js:3385-3398 | `map` then `join('')`: the skeleton of a concatenation is the concatenation of the skeletons |
| KanaGameApp.FormatTokenGroupSingle | kana-game.bundled.js:3385-3398 | the skeleton of one token is that token's piece |
| KanaGameApp.FormatWithPunctuation | kana-game.bundled.js:3384-3399 | with `includePunctuation` the skeleton is the answer's surfaces joined |
| KanaGameApp.FormatAllMarked | kana-game.bundled.js:3387-3388 | a group whose tokens are all marked shows its full surfaces |
| KanaGameApp.FormatKeepsWidth | kana-game.bundled.js:3384-3399 | the skeleton has as many UTF-16 units as the surfaces of the tokens it does not drop: each unmarked non-punctuation surface becomes as many '_' as its `length` |
| KanaGameApp.FormatCompleted | kana-game.bundled.js:3384-3408 | a completed group shows exactly the surfaces of its tokens except the unmarked punctuation |
| KanaVendor.ToKatakana | kana-game.bundled.js:805-824 | one character of `hiraganaToKatakana`: a hiragana (0x3041-0x3096) moves up by 0x60 into the katakana block; ー, ・ and every other character pass through |
| KanaVendor.HiraganaToKatakana | kana-game.bundled.js:805-824 | the output has the input's length and is the input converted character by character |
| KanaVendor.ToKatakanaInverse | kana-game.bundled.js:812-817 | the shift loses nothing: shifting back restores every character that was not already in the converted katakana range |
| KanaVendor.ToKatakanaIdempotent | kana-game.bundled.js:805-824 | the output contains no hiragana, so converting twice is converting once |
| KanaVendor.FirstPunctuation | kana-game.bundled.js:2026 | `tail.search` with the punctuation pattern `、` or `。` (line 1933): an index within the string, holding 、 or 。 unless it is the length (no match) |
| KanaVendor.FirstPunctuationIsFirst | kana-game.bundled.js:2026 | no punctuation comes before the index the search returns |
| KanaVendor.SplitByPunctuation | kana-game.bundled.js:2019-2035 | the `while` loop over `tail` produces exactly the pieces of the input |
| KanaVendor.PiecesConcat | kana-game.bundled.js:2019-2035 | the pieces, concatenated, are the input, and no piece is empty |
| KanaVendor.PiecesUnfold | kana-game.bundled.js:2031-2032 | the first piece runs up to and including the first punctuation, and the rest are the pieces of what follows |
| KanaVendor.FirstPieceShape | kana-game.bundled.js:2026-2031 | the first piece ends in its only 、 or 。 |
| KanaVendor.PiecesPunctuationAtEnd | kana-game.bundled.js:2019-2035 | 、 and 。 occur in a piece only as its last character |
| KanaVendor.PiecesEndWithPunctuation | kana-game.bundled.js:2019-2035 | every piece but the last ends with 、 or 。 |
| KanaVendor.PiecesLast | kana-game.bundled.js:2023-2032 | the last piece is non-empty and ends in punctuation exactly when the input does |
| Utf8Codec.PairCodePoint | kana-game.bundled.js:2450-2454 | a surrogate pair denotes a code point from 0x10000 to 0x10FFFF |
| Utf8Codec.CodePointBytes | kana-game.bundled.js:2461-2474 | a code point below 0x110000 takes one to four bytes |
| Utf8Codec.PutCodePoint | kana-game.bundled.js:2461-2474 | the `bytes[j++]` writes put exactly the code point's bytes at `j`, leaving the bytes before it, and move `j` past them |
| Utf8Codec.ReadCodeUnits | kana-game.bundled.js:2449-2460 | reading one or two code units fails exactly at a high surrogate without a low one after it (and then the whole encoding is null); otherwise it yields the code point and the index after it |
| Utf8Codec.StringToUtf8Bytes | kana-game.bundled.js:2444-2478 | `stringToUtf8Bytes` returns the encoding of the string, or null exactly when the encoding is undefined |
| Utf8Codec.Code2 | kana-game.bundled.js:2489 | a two-byte sequence decodes below 0x800 |
| Utf8Codec.Code3 | kana-game.bundled.js:2493 | a three-byte sequence decodes below 0x10000 |
| Utf8Codec.Code4 | kana-game.bundled.js:2498 | a four-byte sequence decodes below 0x200000 |
| Utf8Codec.SequenceLength | kana-game.bundled.js:2485-2499 | the lead byte selects one to four bytes |
| Utf8Codec.LowHalf | kana-game.bundled.js:2505 | the low half of a supplementary code point is a low surrogate |
| Utf8Codec.ReadCodePoint | kana-game.bundled.js:2484-2499 | one step of `utf8BytesToString` reads the code point whose lead byte is at `i`, treating bytes past the end as 0, and moves past the bytes the lead byte announces |
| Utf8Codec.Utf8BytesToString | kana-game.bundled.js:2479-2510 | `utf8BytesToString` returns the decoding of all the bytes |
| Utf8Codec.DecodeCodePoint | kana-game.bundled.js:2461-2499 | the decoder reads back every code point the encoder writes, consuming exactly its bytes |
| Utf8Codec.PairHalves | kana-game.bundled.js:2503-2506 | splitting a pair's code point gives back the same two surrogates |
| Utf8Codec.DecodeCons | kana-game.bundled.js:2479-2510 | decoding one code point's bytes followed by more bytes gives its code units followed by the decoding of the rest |
| Utf8Codec.EncodeDefinedFrom | kana-game.bundled.js:2447-2457 | encoding from `i` succeeds iff every high surrogate from `i` on is followed by a low one |
| Utf8Codec.DecodeEncodeFrom | kana-game.bundled.js:2444-2510 | decoding the encoding of the units from `i` gives them back |
| Utf8Codec.RoundTrip | kana-game.bundled.js:2444-2510 | a string's encoding exists iff its surrogates are paired, and decoding it then gives back the string |
| Morphemes.Surfaces | frontend/temp_kana_control/augment.js:18 | one surface per token, in order |
| Morphemes.Raw | frontend/temp_kana_control/augment.js:18 | the surfaces joined with single spaces; for a non-empty group whose surfaces hold no space, splitting the text at spaces gives the surfaces back |
| Morphemes.IsBlankToken | frontend/temp_kana_control/augment.js:425 | a token whose surface is all white space; `BlankTokenIsTrimmedEmpty` makes it the source's test that trimming leaves nothing |
| Morphemes.BlankTokenIsTrimmedEmpty | src/augment.ts:27 | the blank test holds exactly when `surface_form.trim()` is empty |
| Morphemes.DropBlank | frontend/temp_kana_control/augment.js:425 | the blank-token filter never lengthens a group |
| Morphemes.DropBlankKeeps | frontend/temp_kana_control/augment.js:425 | the filter keeps exactly the tokens whose surface is not white space only |
| Morphemes.DropBlankIdempotent | frontend/temp_kana_control/augment.js:425 | a filtered group has no blank token, and filtering it again changes nothing |
| Morphemes.DropBlankAppend | frontend/temp_kana_control/augment.js:425 | filtering distributes over concatenation |
| Morphemes.KeyParts | frontend/temp_kana_control/augment.js:417 | one `surface(reading)` part per token, in order |
| Morphemes.JsonStringArray | frontend/temp_kana_control/augment.js:417 | `JSON.stringify` of a string array is bracketed, and parsing it back gives the same list |
| Morphemes.HexValue | frontend/temp_kana_control/augment.js:417 | reading a hexadecimal digit of a `\u` escape inverts writing it |
| Morphemes.CharsRoundTrip | frontend/temp_kana_control/augment.js:417 | an escaped string followed by its closing quote is read back exactly, with the text after the quote |
| Morphemes.ItemsRoundTrip | frontend/temp_kana_control/augment.js:417 | the comma-joined string literals of a non-empty list, closed by ']', are read back as that list |
| Morphemes.JsonKey | frontend/temp_kana_control/augment.js:416-418 | `toLexicalKey` of the kana control: the JSON text from which the list of `surface(reading)` parts is read back |
| Morphemes.JsonKeyInjective | frontend/temp_kana_control/augment.js:416-418 | groups with different `surface(reading)` lists never share a key |
| Morphemes.PipeKey | src/augment.ts:127-131 | `toLexicalKey` of the game: for a non-empty group whose parts hold no '\|', splitting the key at '\|' gives back the parts |
| JsText.Join | frontend/temp_kana_control/augment.js:18 | `join` of no parts is empty and of one part is that part |
| JsText.JoinEmptySeparator | frontend/temp_kana_control/augment.js:87 | joining with the empty separator concatenates |
| JsText.Split | frontend/temp_kana_control/augment.js:97 | `split(' ')` yields at least one piece and no piece holds the separator |
| JsText.SplitJoin | frontend/temp_kana_control/augment.js:97 | joining the pieces of `split(sep)` with `sep` gives back the text |
| JsText.JoinSplit | frontend/temp_kana_control/augment.js:97 | splitting a join of separator-free words gives back the words |
| JsText.NonEmptyKeepsAll | frontend/temp_kana_control/augment.js:97 | dropping the empty parts keeps a list without empty words intact |
| JsText.TrimStart | src/augment.ts:91 | what `trim` drops at the front is white space, and what it keeps starts with none |
| JsText.TrimEnd | src/augment.ts:92 | what `trim` drops at the end is white space, and what it keeps ends with none |
| JsText.BlankIffAllWhitespace | src/augment.ts:28 | trimming leaves nothing exactly when every character is white space |
| JsText.Trim | src/augment.ts:91-92 | `trim` never lengthens a text, leaves no white space at either end, and keeps a contiguous piece of it |
| JsText.JsLength | src/augment.ts:75 | a text's length in UTF-16 code units lies between its length in characters and twice that |
| JsText.JsLengthAppend | src/augment.ts:75 | UTF-16 length adds over concatenation |
| JsText.JsLengthBmp | src/augment.ts:75 | a text of characters below 0x10000 has one code unit per character |
| JsText.ReplaceAll | src/augment.ts:42 | the global replace `raw.replace(/私/g, …)`: replacing a pattern by itself changes nothing, and a replacement as long as the pattern keeps the length |
| JsText.ReplaceAllAbsent | src/augment.ts:42 | a global replace of a pattern that does not occur changes nothing |
| JsText.ReplaceAllJoin | src/augment.ts:42 | a global replace on a space-joined text, for a pattern without spaces, is the join of the per-word replaces |
| JsText.ReplaceAllWhole | src/augment.ts:42 | a global replace of a text that is exactly the pattern is the replacement |
| AugmentWorklist.Add | frontend/temp_kana_control/augment.js:424-431 | `addToQueue`: the normalised group's key is known afterwards; a known key leaves the entries alone, a new one appends the normalised group |
| AugmentWorklist.AddEach | frontend/temp_kana_control/augment.js:433-435 | the `for` loops calling `addToQueue` on each group add them in order, as `AddAll` does |
| AugmentWorklist.AddAllPrefix | frontend/temp_kana_control/augment.js:427-430 | adding groups never removes or reorders an entry: the old entries stay a prefix |
| AugmentWorklist.AddAllDistinct | frontend/temp_kana_control/augment.js:427 | adding groups keeps the entries' keys pairwise distinct |
| AugmentWorklist.AddAllKeys | frontend/temp_kana_control/augment.js:424-431 | after adding, the key of every added group is known |
| AugmentWorklist.AddAllOrigin | frontend/temp_kana_control/augment.js:425-429 | every new entry is the normalised form of one of the added groups |
| AugmentWorklist.AddAllFirstKept | frontend/temp_kana_control/augment.js:427-430 | the first group with a new key is the one stored under it |
| AugmentWorklist.AddAllFacts | frontend/temp_kana_control/augment.js:424-431 | the four facts above together |
| AugmentWorklist.KeysPrefix | frontend/temp_kana_control/augment.js:427-430 | a key known before adding is known after |
| AugmentWorklist.Closure | frontend/temp_kana_control/augment.js:419-445 | the worklist (`map` as the entry list, `queue` as the entries not yet processed): keys are distinct, every seed's key is present and the first seed with each key is stored, every entry comes from a seed through augmenters, and a drained queue means every augmentation of every entry has its key present |
| AugmentWorklist.ClosureStep | frontend/temp_kana_control/augment.js:437-444 | one pass of the `while` loop keeps all of the loop's invariants and extends the processed prefix by one |
| AugmentWorklist.Insert | frontend/temp_kana_control/augment.js:447 | inserting into a sorted list adds exactly that element |
| AugmentWorklist.SortBy | frontend/temp_kana_control/augment.js:447 | the sort is a permutation of its input |
| AugmentWorklist.InsertSorted | frontend/temp_kana_control/augment.js:447 | for a total preorder, inserting keeps the list sorted by key |
| AugmentWorklist.SortBySorted | frontend/temp_kana_control/augment.js:447 | for a total preorder, the result is sorted by key |
| AugmentWorklist.SortByDistinct | frontend/temp_kana_control/augment.js:446-447 | sorting keeps the keys pairwise distinct |
| AugmentWorklist.PermutationKeys | frontend/temp_kana_control/augment.js:446-447 | a permutation has the same keys |
| AugmentWorklist.SortedFromEntries | frontend/temp_kana_control/augment.js:446-448 | what the worklist guarantees of `map.values()` holds of the sorted result |
| AugmentWorklist.Augment | frontend/temp_kana_control/augment.js:419-449 | `augmentTokenGroups` generically: distinct keys, every seed's key present, the first seed with each key present as normalised, every result normalised, some ordering of the result a derivation in which each group is a normalised seed or a normalised augmentation of an earlier one, sorted for a total preorder, and closed under the augmenters when the worklist drained |
| AugmentKanaControl.RealiseAll | frontend/temp_kana_control/augment.js:21-24 | one group per variant, in order: texts go through the tokenizer, built groups as they are |
| AugmentKanaControl.FirstSurface | frontend/temp_kana_control/augment.js:29 | `findIndex` on the surface: -1 or an index with that surface, and no earlier index has it |
| AugmentKanaControl.NonSymbolBelow | frontend/temp_kana_control/augment.js:171-174 | scanning down from `n - 1` over 記号 tokens stops at a non-記号 token or -1, with only 記号 above it |
| AugmentKanaControl.LastNonSymbol | frontend/temp_kana_control/augment.js:171-174 | the last token that is not 記号, or -1 when all are |
| AugmentKanaControl.FindLastNonSymbol | frontend/temp_kana_control/augment.js:295-298 | the decrementing `while` loop ends at the last non-記号 token |
| AugmentKanaControl.FirstPairFrom | frontend/temp_kana_control/augment.js:211-224 | the first neighbour pair from `from` satisfying the test, or -1 when none does |
| AugmentKanaControl.FirstPair | frontend/temp_kana_control/augment.js:252-269 | the first neighbour pair satisfying the test, or -1 |
| AugmentKanaControl.FindFirstPair | frontend/temp_kana_control/augment.js:272-288 | the loop over neighbouring tokens stops at the first matching pair |
| AugmentKanaControl.SurfacesWith | frontend/temp_kana_control/augment.js:42-48 | the surfaces with the one at the index replaced, or none replaced when the index is -1 |
| AugmentKanaControl.SurfacesReplacing | frontend/temp_kana_control/augment.js:55-62 | every surface equal to `search` becomes the replacement and the rest are kept |
| AugmentKanaControl.ReplaceWhole | frontend/temp_kana_control/augment.js:52-66 | `makeReplaceWholeToken` always yields exactly one text for the tokenizer: the surfaces, each `search` replaced, joined with spaces; the group's own text when `search` is absent |
| AugmentKanaControl.ReplaceWholeWords | frontend/temp_kana_control/augment.js:52-66 | when neither the surfaces nor the replacement hold a space, the text splits back into one word per token: the replacement where the token was `search`, its surface elsewhere |
| AugmentKanaControl.DesuDa | frontend/temp_kana_control/augment.js:28-51 | です→だ (corrected): a variant exactly when です occurs and is last or last but one before 記号/名詞, and is first or after a 名詞; it replaces only that token, space-joined |
| AugmentKanaControl.DesuDaAsWritten | frontend/temp_kana_control/augment.js:28-51 | です→だ as written: a variant exactly when です occurs under the position guard, or when です is absent and the group is empty or one 記号/名詞 token; with です only that token becomes だ, without it the text is the group's own |
| AugmentKanaControl.DesuDaAgrees | frontend/temp_kana_control/augment.js:28-51 | the corrected and the as-written augmenter agree whenever です occurs or the group has two tokens or more |
| AugmentKanaControl.DesuDaWithoutDesu | frontend/temp_kana_control/augment.js:29-48 | without any です the code as written still emits a variant for the empty group and for one 名詞 token |
| AugmentKanaControl.DropWatashiHaText | frontend/temp_kana_control/augment.js:94-101 | the replacer: when the non-empty space-separated words start 私 は, the words of the result are exactly the words after them |
| AugmentKanaControl.DropWatashiHa | frontend/temp_kana_control/augment.js:91-102 | `augmentDropWatashiHa` fires iff there are more than two tokens starting 私, は, with one text for the tokenizer; its text is stated by `AugmentKanaControl.DropWatashiHaWords`, for surfaces without blanks or inner spaces |
| AugmentKanaControl.DropWatashiHaWords | frontend/temp_kana_control/augment.js:95-101 | on a group without blank tokens or spaces inside surfaces, the text is the words after 私 は, space-joined |
| AugmentKanaControl.ReadingModifier | frontend/temp_kana_control/augment.js:103-113 | nothing when no surface matches; else one copy in which only the first matching token's reading changes |
| AugmentKanaControl.DaDesu | frontend/temp_kana_control/augment.js:126-145 | だ→です under the same position guard as です→だ, replacing only the first だ |
| AugmentKanaControl.DewaJa | frontend/temp_kana_control/augment.js:147-160 | では→じゃ on the first では, except when あり then ない follow it |
| AugmentKanaControl.JaDewa | frontend/temp_kana_control/augment.js:161-167 | じゃ→では on the first じゃ |
| AugmentKanaControl.Progressive | frontend/temp_kana_control/augment.js:169-200 | only a last non-記号 動詞 changes: a split て/で + いる becomes る, else ている→てる and でいる→でる inside it; nothing otherwise |
| AugmentKanaControl.WholeOrPair | frontend/temp_kana_control/augment.js:202-249 | the quotation augmenters prefer a whole token (という / っていう); otherwise they rewrite the first token of the first matching pair; nothing when neither exists |
| AugmentKanaControl.Quotation | frontend/temp_kana_control/augment.js:201-226 | という→っていう: a variant iff という occurs or some と+言う pair does; the first という becomes っていう, else the と of the first pair becomes って |
| AugmentKanaControl.ReverseQuotation | frontend/temp_kana_control/augment.js:227-249 | っていう→という: a variant iff っていう occurs or some って+言う pair does; the first っていう becomes という, else the って of the first pair becomes と |
| AugmentKanaControl.ToOmouTte | frontend/temp_kana_control/augment.js:250-270 | a variant iff some と+思う pair occurs, in which the と of the first such pair becomes って |
| AugmentKanaControl.TteOmouTo | frontend/temp_kana_control/augment.js:271-289 | a variant iff some って+思う pair occurs, in which the って of the first such pair becomes と |
| AugmentKanaControl.PairOnly | frontend/temp_kana_control/augment.js:251-289 | と+思う ↔ って+思う: the first token of the first matching pair is rewritten; nothing without one |
| AugmentKanaControl.ReplaceCompound | frontend/temp_kana_control/augment.js:71-90 | `makeReplaceCompoundToken` yields nothing when no token is `search`, else one text: the replaced surfaces joined with no separator |
| AugmentKanaControl.CompoundParts | frontend/temp_kana_control/augment.js:73-83 | the `found`-flag loop: `found` iff some surface is `search`, with every such surface replaced |
| AugmentKanaControl.TeruTeiru | frontend/temp_kana_control/augment.js:293-309 | てる→ている, でる→でいる inside the last non-記号 token, only when it is a 動詞 containing one |
| AugmentKanaControl.MasuStem | frontend/temp_kana_control/augment.js:316-333 | the ます-stem applies only when the last non-記号 token is a 動詞 ending in ます, which it drops |
| AugmentKanaControl.PoliteForm | frontend/temp_kana_control/augment.js:346-354 | a final る becomes ます, else a final う becomes います; nothing for other endings |
| AugmentKanaControl.Polite | frontend/temp_kana_control/augment.js:334-361 | the dictionary-to-polite rewrite of the last non-記号 動詞, when it has a polite form |
| AugmentKanaControl.MasenNai | frontend/temp_kana_control/augment.js:363-391 | ませ+ん as the last two non-記号 tokens become ない, keeping trailing symbols, unless あり precedes them |
| AugmentKanaControl.NaiMasen | frontend/temp_kana_control/augment.js:392-414 | a last non-記号 ない after a 動詞 becomes ませ ん, keeping trailing symbols |
| AugmentKanaControl.Swaps | frontend/temp_kana_control/augment.js:115-119 | the five whole-token swaps give exactly five texts |
| AugmentKanaControl.JapanReadings | frontend/temp_kana_control/augment.js:122-123 | the two 日本 reading modifiers give at most two copies of the group, with only readings changed |
| AugmentKanaControl.Copulas | frontend/temp_kana_control/augment.js:124-200 | the copula augmenters give only texts |
| AugmentKanaControl.Quotations | frontend/temp_kana_control/augment.js:201-289 | the quotation augmenters give only texts |
| AugmentKanaControl.Compounds | frontend/temp_kana_control/augment.js:290-292 | the だった/でした replacements give only texts |
| AugmentKanaControl.VerbForms | frontend/temp_kana_control/augment.js:293-413 | the verb-form augmenters give only texts |
| AugmentKanaControl.Expand | frontend/temp_kana_control/augment.js:114-414 | `tokenAugmenters` as written: at least the five swap texts, and every answer is a text for the tokenizer or a copy of the group with only readings changed |
| AugmentKanaControl.ExpandCorrected | frontend/temp_kana_control/augment.js:114-414 | the same list with the corrected です→だ augmenter, with the same guarantees |
| AugmentKanaControl.ExpandCorrectedAgrees | frontend/temp_kana_control/augment.js:28-51 | the corrected list equals the list as written whenever です occurs or the group has two tokens or more |
| AugmentKanaControl.Augmentations | frontend/temp_kana_control/augment.js:439-442 | one group per answer of the list; an answer handed back as tokens keeps the words of the group |
| AugmentKanaControl.AugmentTokenGroups | frontend/temp_kana_control/augment.js:419-449 | every seed's key (blank tokens filtered out) is in the result, and the filtered first seed of each key is itself a result; no result holds a blank token; keys are distinct; the result, in some order, is a derivation from the seeds through `tokenAugmenters` as written; it is sorted by `toLexicalKey` for a total order; a drained worklist means closure under all of `tokenAugmenters` |
| AugmentPublished.Expand | frontend/node_modules/kana-control/augment.js:90-191 | the published `tokenAugmenters`: at least the five swap texts, and every answer is a text for the tokenizer or a copy of the group with only readings changed |
| AugmentPublished.Augmentations | frontend/node_modules/kana-control/augment.js:215-218 | one group per answer; an answer handed back as tokens keeps the words of the group |
| AugmentPublished.AugmentTokenGroups | frontend/node_modules/kana-control/augment.js:192-225 | the published `augmentTokenGroups`: the same guarantees as the temp copy, derivability included, over the shorter augmenter list |
| AugmentGame.FilteringTokenizer | src/augment.ts:31-34 | each group the tokenizer returns comes back with no blank token and never longer |
| AugmentGame.FilteredRaw | src/augment.ts:26-28 | the `raw` text of the non-blank surfaces; on a group without blank tokens it is the plain space-join |
| AugmentGame.RealiseFiltered | src/augment.ts:32-35 | one group per variant, in order: a tokenized text comes back without blank tokens, and a group an augmenter built is kept as built |
| AugmentGame.TextReplace | src/augment.ts:40-58 | a pronoun augmenter fires iff some token is exactly `search`, with one text for the tokenizer; its text is stated by `AugmentGame.TextReplaceIsWholeTokenReplace`, when `search` never occurs inside a longer surface |
| AugmentGame.TextReplaceIsWholeTokenReplace | src/augment.ts:40-43 | when `search` never occurs inside a longer surface, the global text replace equals the kana control's whole-token replace on the non-blank tokens |
| AugmentGame.ReplaceAllRemoves | src/augment.ts:42 | a global replace of a character by a text without it leaves no such character |
| AugmentGame.WatashiGone | src/augment.ts:40-43 | the 私→僕 text holds no 私 |
| AugmentGame.DesuDaText | src/augment.ts:75-76 | the text with its last four characters replaced by だ。: it ends in だ。 after a prefix of the text two characters shorter than it, or is だ。 alone for a text shorter than four |
| AugmentGame.DesuDaGuard | src/augment.ts:61-72 | the です→だ guard; when it holds, the last two tokens are not blank, so the filter keeps them |
| AugmentGame.DesuDa | src/augment.ts:60-78 | the です→だ augmenter fires iff the last two tokens are the plain 助動詞 です and the 記号 。, with one text for the tokenizer; its text is stated by `AugmentGame.DesuDaWords` whenever it fires |
| AugmentGame.DesuDaFiltered | src/augment.ts:27-29 | under that guard the filter keeps the final です and 。 and drops only blank tokens before them |
| AugmentGame.DesuNotBlank | src/augment.ts:28 | neither token the guard looks at is blank |
| AugmentGame.DesuCut | src/augment.ts:75-76 | cutting the four characters `です 。` off a joined text and appending だ。 replaces the last two words by だ。 |
| AugmentGame.DesuDaWords | src/augment.ts:60-78 | the variant is the earlier non-blank words followed by だ。, space-joined |
| AugmentGame.DesuSuffixUnits | src/augment.ts:75 | the cut suffix is four UTF-16 code units, so the character cut agrees with `slice(0, -4)` |
| AugmentGame.DesuDaCutsFourUnits | src/augment.ts:60-78 | under the guard, the text's last four characters are four UTF-16 code units |
| AugmentGame.DropWatashiHaGuard | src/augment.ts:82-87 | the guard; when it holds, there are more than two tokens and neither leading token is blank |
| AugmentGame.DropWatashiHa | src/augment.ts:80-94 | the augmenter fires iff there are more than two tokens starting 私, は and the third is not a 助詞, with one text for the tokenizer; its text is stated by `AugmentGame.DropWatashiHaWords`, for surfaces without white space at either end |
| AugmentGame.DropWatashiHaText | src/augment.ts:89-93 | trimming, cutting three characters and trimming again leaves no white space at either end, at least three characters fewer than the trimmed text, and nothing when that is shorter than three |
| AugmentGame.WatashiHaCut | src/augment.ts:90-93 | trimming, cutting `私 は` and trimming again leaves exactly the words after them when every word is free of edge white space |
| AugmentGame.JoinTight | src/augment.ts:91-92 | a join of words without edge white space has none either, so the second trim changes nothing |
| AugmentGame.FilteredTight | src/augment.ts:27-29 | the filtered surfaces are free of edge white space when every non-blank token is |
| AugmentGame.DropWatashiHaWords | src/augment.ts:80-94 | the variant is the non-blank words after 私 は, space-joined |
| AugmentGame.FirstWithReading | src/augment.ts:102-104 | `findIndex` on surface and reading: -1 or the first index with both |
| AugmentGame.ReadingModifier | src/augment.ts:96-114 | nothing when no token has that surface and reading; else one copy in which only the first such token's reading becomes the new one |
| AugmentGame.ReadingRoundTrip | src/augment.ts:123-124 | ニッポン→ニホン followed by ニホン→ニッポン gives back the original group when no earlier 日本 is already read ニホン |
| AugmentGame.Expand | src/augment.ts:116-125 | `tokenAugmenters` of the game: at most eight answers, each a text for the tokenizer or a copy of the group with only readings changed |
| AugmentGame.Augmentations | src/augment.ts:32-35 | one group per answer: a tokenized text comes back without blank tokens, and a copy handed back as tokens keeps the words of the group |
| AugmentGame.DropAll | src/augment.ts:165 | the final `map` filters every group's blank tokens, one for one |
| AugmentGame.DropAllUnchanged | src/augment.ts:165 | groups without blank tokens pass the final `map` unchanged |
| AugmentGame.AugmentTokenGroupsAsWritten | src/augment.ts:133-169 | as written: keys taken as groups arrive, so the map's keys are distinct and every first seed is stored; every entry is derived from the seeds through the game's augmenters (`Expander(tokenize)`), and when the queue drains within `fuel` the entries are closed under them; the result is the sorted filtered map values |
| AugmentGame.AsWrittenKeepsDuplicates | src/augment.ts:141-147 | a group stored both with and without a blank token in between appears twice in the as-written result |
| AugmentGame.BlankChangesKey | src/augment.ts:127-131 | 私, a blank token, は has a different key from 私, は |
| AugmentGame.AsWrittenDuplicateSeeds | src/augment.ts:133-169 | seeding [私, " ", は] and [私, は] makes the as-written result hold 私は twice |
| AugmentGame.AugmentTokenGroups | src/augment.ts:133-169 | corrected: filter before keying; every seed's filtered key is present, results hold no blank token, keys are distinct, the result is derivable from the seeds through the augmenters, sorted for a total preorder, and closed under the augmenters when the worklist drained |

## Left out

- SQLite, SQL text and JSON serialisation: tables are maps and sequences, and `to_json`/`from_json` are left out. A connection's `commit` and `close` have no counterpart, and neither does the schema script beyond the invariants the model keeps: one card per key, log ids increasing, every log referring to a card, and one scheduler row. The last but one is kept by the class's own writes (it never deletes a card, and `record_answer` logs only after `_ensure_card`), not by SQLite, which checks the declared foreign key only after `PRAGMA foreign_keys = ON` and the backend never issues that pragma; so the constructor's `requires` on it is an assumption about files this class wrote.
- Timestamps are integer seconds. `get_next_question` compares ISO texts, which agree with time order under uniform UTC formatting. The current time is a parameter `now`, for both the clock and `utc_now()`.
- FSRS internals (`Scheduler.review_card`, `Optimizer.compute_optimal_parameters`, the defaults of `Scheduler()`) use floating point and are not part of this model. They are function parameters, and card and scheduler fields other than the ones read here are carried unchanged.
- SrsEngine.FsrsSQLiteScheduler.GetNextQuestion: `ORDER BY due_utc LIMIT 1` leaves the choice among cards due at the same instant to SQLite. The model's scan of the key set promises only some earliest due card.
- srsdb (`FsrsDatabase`, its tables and scheduling) is unseen. `next` and `answer` are parameters acting on an abstract store that holds the two tables the adapter queries directly.
- SrsAdapter.FsrsSQLiteScheduler.IsBusy: the parsing of `fromisoformat` is a parameter (None stands for ValueError). An AttributeError is not modelled, since the column is read as text. `MAX(review_time)` is modelled as the greatest text in BINARY order.
- SrsAdapter.FsrsSQLiteScheduler.HasCard: the fresh `sqlite3` connection it opens is not modelled; it reads the same abstract store.
- `for_user` (directory creation and path building) and `close` are file-system and connection plumbing, and are not part of this model.
- Strings are sequences of Unicode scalar values, while JavaScript counts UTF-16 code units. The difference matters only where the code counts or indexes. `formatTokenGroup` repeats '_' `length` times, and `KanaGameApp.FormatKeepsWidth` states the width in code units. The `slice(0, -4)` of src/augment.ts is modelled as a cut of four characters, and `AugmentGame.DesuDaCutsFourUnits` proves that under its guard these are four code units. `hiraganaToKatakana`'s `split('')` splits surrogate pairs, which pass through unchanged either way.
- The kuromoji tokenizer, its dictionaries and all other vendored kuromoji internals are not part of this model. The tokenizer is a parameter, and `async`/`await` calls are sequential calls.
- The kotogram library (`splitKotogram`, `extractTokenFeatures`) and `wanakana.toHiragana` are parameters (`KanaControlLogic.KotogramLib`).
- AugmentWorklist.Closure: termination of the augmentation worklist depends on the tokenizer and cannot be proved from the code. The loop runs for at most `fuel` groups, and the closure property is promised only when it reports that its queue drained.
- AugmentWorklist.Augment: `localeCompare` is a parameter `le`, and the result is promised sorted only when `le` is a total preorder. The sort modelled is an insertion sort, which is stable; the engine's sort algorithm itself is not modelled.
- Lexical keys are compared as texts. `JSON.stringify`'s escaping is modelled for quote, backslash and control characters. The prototype keys of a JavaScript `Map` play no role.
- `structuredClone` in the reading modifiers is a value copy, so the fact that the input is left intact holds by construction.
- KanaControlLogic.MarkTokensNested requires the groups to be distinct arrays. Aliasing between the groups of one question is not modelled.
- KanaControlLogic.MakeQuestion: `tokenize` and `augmentTokenGroups` are function parameters. The closure is modelled on its own, by methods that a function cannot call, so the contract does not tie `augment` to them.
- The UI (the Lit elements, DOM events, IME binding, CSS), the Flask endpoint, logging, configuration and test files are not part of this model.
- The `bury_card` and JSON-RPC methods that the backend tests call on the engine and the app are not defined in the code, and are not modelled.
- KanaVendor.PiecesLast: when the input ends in 、 or 。 the last piece of `splitByPunctuation` ends in it too; the lemma states exactly when that happens.
- The published augmenters are, one for one, those of the kana control's copy (frontend/node_modules/kana-control/augment.js:28-191 against frontend/temp_kana_control/augment.js:52-292), without its です/だ, では/じゃ, progressive, polite and negative ones, so `AugmentPublished` reuses them.
- KanaControlLogic.FindMatch: a token without a reading is read as the text "undefined", which is what `startsWith` compares; the TypeError the source then raises on the reading's `length` is modelled by `KanaControlLogic.FindMatchJs` only, and every caller of `findMatch` (`KanaControlLogic.MarkTokens`, `KanaControlLogic.MarkTokensNested`) follows `FindMatch`, so no model of marking throws.
- AugmentKanaControl.AugmentTokenGroups runs the augmenters as written, including the です→だ augmenter without its guard for a missing です; the corrected list `AugmentKanaControl.ExpandCorrected` is not run through a worklist of its own, since it agrees with the list as written on every group of two tokens or more.

## Findings

| source | as written | input that shows it | evidently intended | confidence | as-written member | corrected member |
|---|---|---|---|---|---|---|
| frontend/temp_kana_control/augment.js:28-51 | `augmentDesuDaTokens` does not test for a missing です (its だ→です twin at line 128 does), so the index -1 passes the position test when the group has at most one token | the empty group, or one 名詞 token without です: each yields a variant (the empty text, or the token's own surface) | no variant unless です occurs | high; not executed | AugmentKanaControl.DesuDaWithoutDesu (on AugmentKanaControl.DesuDaAsWritten, which `AugmentKanaControl.Expand` runs) | AugmentKanaControl.DesuDa (in `AugmentKanaControl.ExpandCorrected`, `AugmentKanaControl.DesuDaAgrees`) |
| src/augment.ts:133-169 | groups are keyed before the blank tokens are filtered out, and filtered only at the end, so two groups differing by a blank token both survive and become equal | seeds [私, " ", は] and [私, は] | one result per lexical key, as in the kana control's copies, which filter before keying | high; not executed | AugmentGame.AsWrittenDuplicateSeeds (on AugmentGame.AugmentTokenGroupsAsWritten) | AugmentGame.AugmentTokenGroups |
