# PrepPulse session engine in Dafny

This project models the core of PrepPulse, a practice-exam application. It covers three areas.

**Session assembly.** A session is assembled from a blueprint.
- The question types are walked in a fixed canonical order.
- Each type's pool is sampled with replacement by the `mulberry32` generator.
- The drawn items are numbered 0, 1, 2, ...

**Scoring and aggregation.**
- A submitted answer is scored by one rule per answer modality.
- The scores of a finished session are folded into overall, section and weighted-category totals on a 10–90 scale.

**Client-side answer helpers.**
- The prompt placeholder parser.
- Blank edits, selection toggles and paragraph moves.
- The word counter.
- The session page's choice of the active item, its progress figure, and its submit-then-finish rule.

Modules, one file each:

- `Wrappers`: `Option`/`Result`.
- `Text`: `normalizeText`, `tokenize`, `split`/`join`, `includes`.
- `Questions`: questions, answers and scores as datatypes.
- `Scoring`: the scorer of `convex/scoring.ts`.
  - The loops are methods proved against specification functions.
  - Each specification function has lemmas for the promised properties.
- `Sampler`: the canonical type order, `mulberry32` and `sampleWithReplacement`.
  - `mulberry32` is a class `Rng` whose 32-bit state is a `bv32` updated by `Next`.
- `Aggregate`: `toScaledScore` and the `finishTestSession` fold.
  - Its keyed records are kept as entry lists in the order their keys were first inserted.
- `Store`: the document store.
  - It is a class holding the sessions, items and responses tables.
  - Its methods cover `createTestSession`, `submitResponse` and `finishTestSession`.
  - Each method is specified by a pure transition function (`AfterCreate`, `AfterSubmit`, `AfterFinish`) whose properties are lemmas.
  - It also models `getTestSessionDetail` and `getBlueprintSummary`.
- `QuestionView`: `parseBlanks`, `handleBlankChange`, the toggles, `handleReorderMove` (in place on an array), the arrow targets and `wordCount`.
- `SessionClient`: `getDefaultAnswer`, `activeIndex`, `isLast`, `progress` and `handleSubmit`.

Where the written description of the system and the code disagree, the model follows the code:

- **Rubric word count.** The rubric's word count is the number of normalized tokens (`tokenize(text).length`), not a whitespace split of the trimmed text.
  - So a text such as `"!!!"` has no words.
  - Its presence check therefore scores 0.
- **Repeated finish.** Finishing an already completed session recomputes the summary and overwrites it together with `completedAt`.
  - The summary is not frozen.
  - See `Store.FinishSpec`.
- **Blank answers that are numbers.** A fill-blanks answer that is an array of numbers would make `normalizeText` throw.
  - The scorer does not "never raise" there.
  - The model reads such an answer as `[]`. See "Left out".

## Model

| member | source | states |
|---|---|---|
| Text.NormalizeIsNormal | convex/scoring.ts:3-8 | normalized text holds only `a-z`, `0-9`, `'` and single spaces, with no space at either end |
| Text.NormalIsFixpoint | convex/scoring.ts:3-8 | a text of that shape is left unchanged by normalization |
| Text.NormalizeIdempotent | convex/scoring.ts:3-8 | normalizing twice equals normalizing once |
| Text.CollapseShape | convex/scoring.ts:6-7 | collapsing white-space runs leaves word characters and single spaces only |
| Text.DropSpacesShape | convex/scoring.ts:8 | trimming the start keeps a suffix that does not start with white space |
| Text.DropTrailingSpacesShape | convex/scoring.ts:8 | trimming the end keeps a prefix that does not end with white space |
| Text.JoinSplit | convex/scoring.ts:12 | joining the pieces of `split(" ")` with spaces gives the text back |
| Text.SplitPiecesFromText | convex/scoring.ts:12 | every piece of the split is space-free and made of the text's characters |
| Text.SplitPiecesNonEmpty | convex/scoring.ts:12 | with no double, leading or trailing space, no piece is empty |
| Text.TokenizeSpec | convex/scoring.ts:10-13 | `tokenize` is `[]` exactly when the normalized text is empty; otherwise non-empty tokens of word characters whose space-join is the normalized text |
| Text.IncludesIsSubstring | convex/scoring.ts:20 | `includes` holds exactly when the phrase occurs at some position of the text |
| Scoring.ScoreSelection | convex/scoring.ts:87-102 | the multi-choice loop computes +1 per correct pick, −1 per wrong pick, floored at 0, out of the number of correct options |
| Scoring.SelectionBounds | convex/scoring.ts:126-139 | the selection score (shared by highlights) is never negative, its maximum is the number of correct entries, and raw ≤ max when the picks are distinct |
| Scoring.DistinctHitsBound | convex/scoring.ts:92-98 | distinct picks hit at most as many entries as the correct list has |
| Scoring.HitsSameMembership | convex/scoring.ts:88 | only membership in the correct set matters, not its order or repeats |
| Scoring.SelectionFullMarks | convex/scoring.ts:87-101 | submitting exactly the correct entries, in any order, earns full marks |
| Scoring.SelectionExample | convex/scoring.ts:87-101 | correct `{x, y}` against answer `{x, z}` scores 0 out of 2 |
| Scoring.SelectionDuplicatesExceedMax | convex/scoring.ts:92-101 | a repeated correct pick counts twice, so raw can exceed max |
| Scoring.BlankHits | convex/scoring.ts:106-112 | the blanks answered correctly never outnumber the blanks whose answer normalizes to something |
| Scoring.ScoreBlanks | convex/scoring.ts:104-114 | the blanks loop counts the blanks whose non-empty normalized answer equals the normalized entry (`""` past the end), out of the number of blanks |
| Scoring.BlanksFullMarks | convex/scoring.ts:106-112 | every gradable blank scores exactly when each gradable blank is answered correctly |
| Scoring.BlanksIgnoreExtraEntries | convex/scoring.ts:106-108 | entries past the number of blanks do not change the score |
| Scoring.BlanksExample | convex/scoring.ts:107-109 | `"Run "` answers a blank expecting `"run"` |
| Scoring.OrderHits | convex/scoring.ts:116-124 | positional matches never exceed the length of the correct order |
| Scoring.ScoreOrder | convex/scoring.ts:116-124 | the reorder loop counts the positions where the submission repeats the correct order, out of its length |
| Scoring.OrderFullMarks | convex/scoring.ts:118-122 | full marks exactly when the submission starts with the whole correct order |
| Scoring.CountTokens | convex/scoring.ts:30-34 | the count map gives every token its number of occurrences in the answer |
| Scoring.MatchTokens | convex/scoring.ts:36-43 | the decrementing loop finds exactly the size of the multiset intersection of reference and answer tokens |
| Scoring.WordOverlapScore | convex/scoring.ts:27-46 | `matches` is that intersection size over the tokenized texts; `max` is the number of reference tokens |
| Scoring.OverlapBound | convex/scoring.ts:36-45 | matches never exceed the number of reference tokens |
| Scoring.OverlapExample | convex/scoring.ts:27-46 | reference `the cat sat` and answer `a cat that sat down` give 2 matches |
| Scoring.KeywordMatches | convex/scoring.ts:15-25 | the keyword count never exceeds the number of phrases |
| Scoring.CountKeywordMatches | convex/scoring.ts:15-25 | the loop counts the phrases that normalize to something non-empty occurring as a substring of the normalized text |
| Scoring.KeywordMatchesAll | convex/scoring.ts:18-23 | all phrases count exactly when every phrase is found |
| Scoring.KeywordMatchesEmptyText | convex/scoring.ts:16-23 | nothing is found in an empty normalized text |
| Scoring.RubricScore | convex/scoring.ts:48-85 | the rubric maximum is at least 1 and the raw score lies between 0 and it |
| Scoring.ScoreRubricText | convex/scoring.ts:48-85 | the accumulating method computes that rubric score, trait record included |
| Scoring.RubricTraits | convex/scoring.ts:60-82 | `form` is present exactly when a word bound is truthy and is 1 exactly when the length check passes; `content` is present exactly with key phrases (their found share) or without any signal (1 exactly for a text with a token); every trait lies in [0, 1] |
| Scoring.RubricMaxScore | convex/scoring.ts:60-82 | max is one per key phrase plus one for a truthy word bound, else 1; without a signal, raw is 1 exactly when the text has a token |
| Scoring.RubricZeroBoundIsOff | convex/scoring.ts:69 | word bounds of 0 are falsy and score exactly as absent bounds |
| Scoring.RubricFullMarks | convex/scoring.ts:60-76 | with a signal, full marks exactly when every key phrase is found and the length check, if on, passes |
| Scoring.Acceptable | convex/scoring.ts:216-218 | the accepted variants never include the empty text |
| Scoring.AcceptableSpec | convex/scoring.ts:214-221 | a normalized answer is accepted exactly when some variant normalizes to it and not to nothing |
| Scoring.ScoreFreeText | convex/scoring.ts:204-230 | free text is scored by token overlap for a non-empty string key, else by accepted variants for an array key, else by the rubric |
| Scoring.ScoreResponse | convex/scoring.ts:141-231 | the dispatcher decides by input mode first, then by the shape of the key, on the answer text or else the transcript |
| Scoring.ScoredBounds | convex/scoring.ts:141-231 | every score is non-negative, and within its maximum unless a multi-choice or highlight answer repeats an entry |
| Scoring.ScoredFreeText | convex/scoring.ts:152-227 | free-text maxima are positive; an array key never accepts an empty answer; single choice is 1/1 exactly on strict string equality, else 0/1 |
| Sampler.TypeOrderDistinct | convex/tests.ts:5-25 | the canonical order lists 19 distinct types |
| Sampler.Rng.constructor | convex/tests.ts:27 | the generator state is the seed modulo 2^32 |
| Sampler.Rng.Next | convex/tests.ts:28-33 | one call adds 0x6d2b79f5 to the state modulo 2^32 and returns the scrambled state |
| Sampler.Index | convex/tests.ts:46 | the drawn index lies in `[0, m)` |
| Sampler.IndexMonotone | convex/tests.ts:46 | the index grows with the generator output and output 0 draws index 0 |
| Sampler.Picks | convex/tests.ts:46-47 | every pick is a member of the pool |
| Sampler.DrawsPrefix | convex/tests.ts:44-49 | `n` draws are `n` members of the pool, and fewer draws are a prefix of more |
| Sampler.DrawsSingleton | convex/tests.ts:45-47 | a one-question pool yields `n` copies of it |
| Sampler.Sample | convex/tests.ts:36-50 | an empty pool gives `[]` and consumes no draw; otherwise exactly `count` (0 if not positive) draws are consumed and returned |
| Aggregate.ScaledScoreBounds | convex/tests.ts:52-57 | a raw score between 0 and the maximum scales into `[10, 90]` |
| Aggregate.ScaledScoreMonotone | convex/tests.ts:52-57 | for a fixed positive maximum the scaled score is monotone in the raw score |
| Aggregate.ScaledScoreIntegerForm | convex/tests.ts:56 | on whole numbers the rounding equals `(21·max + 160·raw) div (2·max)` |
| Aggregate.ScaledScoreRoundsHalfUp | convex/tests.ts:52-57 | 1 of 32 rounds 12.5 up to 13, and a zero maximum gives 10 |
| Aggregate.BumpLookup | convex/tests.ts:304-308 | bumping a key adds to that key's entry only |
| Aggregate.BumpKeys | convex/tests.ts:304-306 | bumping keeps existing keys in place and appends a new key at the end |
| Aggregate.BumpSum | convex/tests.ts:307-308 | bumping adds exactly its amounts to the record's sums |
| Aggregate.ReportSpec | convex/tests.ts:327-344 | one entry per tally with its key and totals, so distinct keys stay distinct; a tally with 0 ≤ raw ≤ max reports a scaled score in [10, 90] |
| Aggregate.Aggregate | convex/tests.ts:289-345 | the fold over the responses computes the summary of overall, section and category totals |
| Aggregate.SectionTotalsSpec | convex/tests.ts:303-308 | the section keys are exactly the sections seen, distinct, each with the sums of its responses |
| Aggregate.OverallIsSumOfSections | convex/tests.ts:300-308 | overall raw and max are the sums of the section totals |
| Aggregate.AddWeightsSpec | convex/tests.ts:310-318 | one response adds `raw·weight` and `max·weight` to each category its question lists |
| Aggregate.CategoryTotalsSpec | convex/tests.ts:310-318 | the category keys are exactly the categories listed, each with Σ raw·weight and Σ max·weight |
| Aggregate.MissingQuestionsSkipped | convex/tests.ts:295-298 | responses whose question is missing change no total |
| Aggregate.CategoryFanOutExample | convex/tests.ts:310-318 | 2/2 on a question weighted half `content`, half `grammar` gives each 1/1 |
| Store.TypeNamed | convex/tests.ts:78-80 | the type looked up has the slug, and none is found only when no type has it |
| Store.TypeNamedIsLast | convex/tests.ts:78-80 | of several types sharing the slug, the last one is found, as a `Map` built from entries keeps the last |
| Store.PoolUpTo | convex/tests.ts:107-110 | the pool holds exactly the questions of the type |
| Store.RankOfListed | convex/tests.ts:101 | a listed type's rank is its position in the canonical order |
| Store.TypeStepSpec | convex/tests.ts:101-123 | one round keeps the earlier items and appends items of its type numbered on, with a non-zero count and the type's time limit |
| Store.PlanNumbered | convex/tests.ts:93-123 | the planned items are numbered 0, 1, 2, ... and belong to the new session |
| Store.PlanFollowsTypeOrder | convex/tests.ts:101-124 | the planned items follow the canonical type order, each of a listed type with a non-zero count and its type's time limit |
| Store.DrawRound | convex/tests.ts:101-123 | the loop body for one type computes that round and advances the generator accordingly |
| Store.PlanItems | convex/tests.ts:93-124 | the walk over the canonical order collects exactly the plan |
| Store.AppendSessionKeepsWellFormed | convex/tests.ts:126-128 | inserting a session's numbered items keeps every other session's items unchanged |
| Store.CreateKeepsWellFormed | convex/tests.ts:84-128 | after creation the new session's items are exactly its plan and the tables stay well formed |
| Store.Store.CreateSession | convex/tests.ts:64-131 | an unknown blueprint fails with the source's message and writes nothing; otherwise the session and its items are appended |
| Store.FindResponse | convex/tests.ts:228-235 | the lookup finds a response of the session and question, or shows that none exists |
| Store.SubmitSpec | convex/tests.ts:237-260 | the first submission inserts one response and raises `currentIndex` by one; a resubmission patches in place; the pair's response then holds the answer and its score |
| Store.ResubmitAdvancesOnce | convex/tests.ts:237-260 | two submissions for one pair advance `currentIndex` at most once and keep one response, holding the second answer |
| Store.Store.SubmitResponse | convex/tests.ts:216-263 | a missing session or question fails with no write; otherwise the upsert happens and the scorer's result is returned |
| Store.ResponsesOf | convex/tests.ts:274-277 | the session's responses all belong to it |
| Store.GradedOf | convex/tests.ts:279-287 | the fold reads one entry per response of the session |
| Store.FinishSpec | convex/tests.ts:347-351 | finishing marks the session completed with its summary and changes nothing else; a second finish overwrites it |
| Store.Store.FinishSession | convex/tests.ts:268-354 | a missing session fails with no write; otherwise the summary of its responses is stored and returned |
| Store.LastResponse | convex/tests.ts:192-194 | the response shown for a question is one of the session's responses to it, or there is none |
| Store.DetailSpec | convex/tests.ts:170-206 | the detail exists exactly for a known session, lists its items in order 0, 1, 2, ..., and repeated questions share one response |
| Store.SectionCountsSpec | convex/tests.ts:148-162 | the three sections are always present; each section holds the sum of its types' counts, and unknown types are dropped |
| Store.GetBlueprintSummary | convex/tests.ts:136-165 | an unknown slug gives nothing; otherwise the blueprint comes with its section counts |
| QuestionView.DigitRunSpec | components/tests/question-view.tsx:15 | the digit run is all digits and stops at a non-digit |
| QuestionView.PlaceholderAt | components/tests/question-view.tsx:15 | a match is at least five characters long and lies inside the text |
| QuestionView.PlaceholderShape | components/tests/question-view.tsx:23-24 | a match is `__`, a run of digits, `__`, and the id is those digits |
| QuestionView.ParseBlanks | components/tests/question-view.tsx:11-34 | the loop over matches pushes exactly the parts of the left-to-right scan |
| QuestionView.ParseRenders | components/tests/question-view.tsx:11-34 | rendering the parts, with `__id__` for each blank, gives the input back exactly |
| QuestionView.ParseWellShaped | components/tests/question-view.tsx:18-31 | no text part is empty, no two text parts are adjacent, and every id is a non-empty digit string |
| QuestionView.ParseWithoutPlaceholder | components/tests/question-view.tsx:29-31 | input without a placeholder gives one text part, or none for `""` |
| QuestionView.ParseExample | components/tests/question-view.tsx:15-27 | in `___1__` the match starts one place in, after a text part `_` |
| QuestionView.BlankIndex | components/tests/question-view.tsx:161-164 | the id maps to its last position, or it is unknown |
| QuestionView.HolesEmpty | components/tests/question-view.tsx:172 | positions skipped by an assignment past the end read as `""` |
| QuestionView.BlankChangeSpec | components/tests/question-view.tsx:166-174 | an unknown id changes nothing; otherwise that position holds the new value and every other position is unchanged |
| QuestionView.DedupSpec | components/tests/question-view.tsx:177 | building the set gives a duplicate-free list with the same members |
| QuestionView.ToggleSpec | components/tests/question-view.tsx:176-184 | a toggle gives a duplicate-free list in which only the toggled entry changes membership and the rest keep their order |
| QuestionView.ToggleTwice | components/tests/question-view.tsx:176-194 | toggling twice restores the set of entries |
| QuestionView.ToggleTwiceReorders | components/tests/question-view.tsx:178-183 | but not the sequence: a re-added entry goes to the end |
| QuestionView.MovedSpec | components/tests/question-view.tsx:203-204 | the splice pair is a permutation that puts the moved entry at `to`, and a no-op when `from == to` |
| QuestionView.MovedShifts | components/tests/question-view.tsx:203-204 | the entries between the two places shift by one towards `from`, and the others stay |
| QuestionView.MoveInPlace | components/tests/question-view.tsx:203-204 | the in-place splices leave the array holding the moved list |
| QuestionView.HandleReorderMove | components/tests/question-view.tsx:196-206 | `from == to` changes nothing; otherwise the answer array, or the option ids, moved |
| QuestionView.ArrowMoves | components/tests/question-view.tsx:390-414 | an arrow click swaps the entry with its neighbour, or does nothing at the ends |
| QuestionView.ChunksJoin | components/tests/question-view.tsx:497 | the chunks of `split(/\s+/)` joined with single spaces give the text with every white-space run collapsed to one space |
| QuestionView.WordCountSpec | components/tests/question-view.tsx:495-498 | the count is 0 exactly for a non-string or blank value; otherwise it counts non-empty, space-free chunks that join back to the collapsed trimmed text, i.e. its maximal non-space runs |
| QuestionView.WordCountDiffersFromTokens | components/tests/question-view.tsx:495-498 | `a-b` is one word here but two scorer tokens |
| SessionClient.DefaultAnswerFitsEditors | components/tests/test-session-client.tsx:12-25 | the starting answer is what the editors would build from nothing: a toggle selects just its entry, a reorder edits the option ids in order, a blank edit keeps one entry per blank |
| SessionClient.DefaultAnswerScoresNothing | components/tests/test-session-client.tsx:12-25 | the starting answer of a selection or fill-blanks question scores 0 |
| SessionClient.FirstIncomplete | components/tests/test-session-client.tsx:42 | the first item without a response, with all earlier ones answered, or none when all are answered |
| SessionClient.ActiveIndexSpec | components/tests/test-session-client.tsx:41-46 | the active index lies inside a non-empty list, 0 for an empty one; earlier items are answered; it is unanswered unless all are |
| SessionClient.RepeatedPickCountsAnswered | components/tests/test-session-client.tsx:42-46 | a repeat of a question answered earlier is never active unless every item is answered |
| SessionClient.IsLastSpec | components/tests/test-session-client.tsx:65 | the last item is active exactly when every earlier item is answered |
| SessionClient.ProgressSpec | components/tests/test-session-client.tsx:61-63 | progress lies in `[0, 100]` and is 100 on the last item |
| SessionClient.PercentMonotone | components/tests/test-session-client.tsx:62 | a later active item never shows a smaller percentage |
| SessionClient.SubmitRequestsSpec | components/tests/test-session-client.tsx:67-84 | with an active question, its answer is submitted first; a finish follows, second, exactly when the submission resolved and the item is the last; a rejected submission sends no finish |

## Left out

- Floating point.
  - `toScaledScore`, the rubric's content ratio, category weights and the progress percentage use exact `real` arithmetic.
  - The generator output is the integer `r` of `r / 2^32`.
  - The drawn index is `⌊r·m / 2^32⌋`, which the float product computes exactly for pools below 2^21 questions.
  - SessionClient.Progress, ProgressSpec and PercentMonotone are about the exact-real figure. In IEEE doubles `23 / 40 * 100` is `57.49999999999999`, so the page shows 57 where `Progress` gives 58 (likewise 29 of 200); the rounding error of the float quotient is not modelled.
- Clock and seed readings. `Date.now()` (the seed, `startedAt`, `createdAt`, `completedAt`) is a parameter of the store methods.
- The Convex runtime is not part of this model.
  - Queries, indexes, `Promise.all` and document ids are left out.
  - Tables are sequences and ids are positions in them.
  - Each handler runs atomically.
- Blueprint lookup.
  - `.unique()` on the `by_slug` index is modelled as a map from slug to blueprint.
  - So a duplicate slug, which would make `.unique()` throw, cannot arise.
- `countsByType` is an entry list in key order. JavaScript's ordering of integer-like keys is not modelled.
- Aggregate.Report, Aggregate.SectionTotals, Aggregate.CategoryTotals and Store.SectionCounts: keys are listed in the order of their first insertion. `Object.entries` lists integer-like keys (a section or category slug such as `"2"`) first, in ascending numeric order; that reordering is not modelled.
- Malformed payloads.
  - A blanks answer that is an array of numbers is read as `[]`; the source would throw in `normalizeText`.
  - Other shapes are ruled out by the `Answer` datatype.
- QuestionView.BlankChange: an answer that is an array of numbers is read as `[]` before the edit; the source's `[...value]` keeps the numbers and yields a mixed list, which the `Answer` datatype cannot hold.
- Scoring.SingleCorrect: `===` is modelled only between strings. With no answer key and an `undefined` answer, or with equal non-string values, the source's strict equality holds and scores 1/1; the model scores 0/1.
- Fractional numbers in the schema. The rubric's `minWords`/`maxWords` and the `countsByType` counts are integers here; the schema's `v.number()`/`v.any()` also admits fractions (a count of 2.5 draws three questions, as `i < count` runs three times), which are not modelled.
- Unicode. Case mapping and `\s` are ASCII-only; no other character is lower-cased or treated as white space.
- QuestionView.ReorderMove: requires `from` and `to` inside the list. The source's `splice` with out-of-range indices is not modelled.
- React. Rendering, hooks, the `useState`/`useEffect` answer state and `SpeechInput` are not modelled.
- Other files. The layout pages, `convex/pteCore.ts` seeding and the results page are not part of this model.
- Scoring.ScoreFreeText, Store.DrawRound and Store.PlanItems are named parts of the source's inline code (the free-text tail of `scoreResponse` and the loop body and loop of `createTestSession`), not separate functions there.
