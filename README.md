# QuizOaky core, modelled in Dafny

QuizOaky is a single-page quiz application. A teacher builds a question bank by hand or by
CSV import, exports it, and shares it as a link whose `#quiz=` fragment carries the quiz as
base64-encoded JSON. A student joins through that link (or a QR code, or a bare quiz code),
answers one question per minute under a countdown, optionally in shuffled order, while
screenshot shortcuts and leaving the page count as violations that blur and finally lock the
quiz. At the end the score is computed and sent back as a `#result=` link. The teacher pastes
those links back; each is extracted, decoded and upserted into the collected results, keyed
by student name and quiz id.

This project models that core, all from `QuizOaky_Final.js`:

- `text.dfy`, `numbers.dfy`: the JavaScript string and number built-ins the core relies on
  (`trim`, `split`, `join`, `indexOf`, `toString`, `padStart(2, '0')`, `parseInt(...) || 0`).
- `quiz.dfy`: questions, quiz payloads and student results.
- `format.dfy`: `escapeHtml` and `formatTime`.
- `extract.dfy`: `extractResultPayloadFromText` and its three regular expressions.
- `codec.dfy`: `fixUrlSafeBase64`, `tryDecodeBase64ToJson`, `decodeResultFromUrl`, the share
  and result link layout, and `joinQuiz`.
- `teacher.dfy`: the question bank (`importCSV`, the delete handler, `editQuestion`) and the
  rows `exportQuestions` writes.
- `collect.dfy`: `collectResults`, with its link cleaning, splitting and upsert loop.
- `scoring.dfy`: `calculateResults` and the score loop of `generateResultUrl`.
- `shuffle.dfy`: the Fisher-Yates shuffle of `startQuiz`.
- `session.dfy`: the student's quiz session, one method per handler (`startQuiz`, option
  click, timer tick, `nextQuestion`, pause, resume, end early, `finishQuiz`, the violation
  handlers).

The browser built-ins `atob`, `btoa`, `JSON.parse`, `JSON.stringify`, `encodeURIComponent` and
`decodeURIComponent` are parameters (`Decoders`, `Encoders`, `ResultEncoders`): total functions returning
`None` where the built-in throws. `Date.now()` is a clock parameter and `Math.random()` a
sequence of picks.

## Model

| member | source | states |
|---|---|---|
| LinkCodec.FixUrlSafeBase64 | QuizOaky_Final.js:786-793 | the result has a length that is a multiple of four and holds no `-` or `_`; each input character is kept, with `-`/`_` mapped to `+`/`/`; only `=` characters are appended, `(4 - len % 4) % 4` of them |
| LinkCodec.FixUrlSafeBase64Idempotent | QuizOaky_Final.js:786-793 | repairing a repaired string changes nothing |
| LinkCodec.FixRepairsCorruption | QuizOaky_Final.js:786-793 | canonical base64 is restored exactly from itself, from its unpadded form, from its URL-safe form, and from both together |
| LinkCodec.RepairRestores | QuizOaky_Final.js:786-793 | any string that differs from canonical base64 only in URL-safe letters and missing padding repairs to that base64 |
| LinkCodec.FirstSuccessFrom | QuizOaky_Final.js:804-810 | the index found is the first decoding attempt from `from` on that yields a value; none is found only when every later attempt fails |
| LinkCodec.TryDecode | QuizOaky_Final.js:795-811 | an empty payload gives nothing; the result is nothing exactly when the payload is empty or all five attempts fail |
| LinkCodec.TryDecodeIsFirstSuccess | QuizOaky_Final.js:797-810 | when attempt `k` is the first that succeeds, its value is the result |
| LinkCodec.UrlSafeFixedRecovers | QuizOaky_Final.js:801 | the fourth attempt decodes a token sent unpadded in the URL-safe alphabet to the original value |
| LinkCodec.DecodesAfterUrlSafeCorruption | QuizOaky_Final.js:795-811 | such a token always decodes to some value, and to the original one when the first three attempts fail |
| LinkCodec.QuizTokenOf | QuizOaky_Final.js:1026-1028 | a token is recovered exactly when the input contains `#quiz=` |
| LinkCodec.FirstMarkerIsAppended | QuizOaky_Final.js:730-731 | in a link built from an address without `#`, the first marker is the appended one |
| LinkCodec.QuizLinkRoundTrip | QuizOaky_Final.js:726-731 | the token recovered from a built share link is the token put in |
| LinkCodec.ResultLinkRoundTrip | QuizOaky_Final.js:1424-1426 | extracting the payload of a built result link gives back its token |
| LinkCodec.ResultLinkDecodes | QuizOaky_Final.js:813-822 | decoding a built result link is decoding its token |
| LinkCodec.ResultLinkRecoversResult | QuizOaky_Final.js:1423-1426 | when the decoders undo the encoders on a result, the link `generateResultUrl` builds for it exists and decodes back to exactly that result |
| LinkCodec.TwiceEncodedResultLinkFails | QuizOaky_Final.js:813-822 | a result link whose token was URL-encoded twice, and still holds `%` after one decoding, decodes to nothing when `atob` refuses `%` |
| LinkCodec.TwiceEncodedTokenFails | QuizOaky_Final.js:795-811 | such a token fails all five attempts |
| LinkCodec.AttemptRefusesPercent | QuizOaky_Final.js:797-810 | no attempt removes a `%` escape that one URL decoding leaves |
| LinkCodec.JoinQuiz | QuizOaky_Final.js:1000-1058 | a join succeeds only with a non-empty name and at least one question; the name is reported missing exactly when it trims to empty |
| LinkCodec.JoinQuizFromShareLink | QuizOaky_Final.js:1000-1058 | pasting the link `updateShareLink` built joins that very quiz, with the trimmed name |
| PayloadExtraction.Search | QuizOaky_Final.js:774-782 | `match` gives nothing exactly when the pattern matches nowhere, and otherwise the non-empty group captured at the leftmost match |
| PayloadExtraction.ExtractResultPayload | QuizOaky_Final.js:770-784 | empty text gives nothing; a payload is non-empty and holds no white space and no `"` |
| PayloadExtraction.ExtractPrefersResultMarker | QuizOaky_Final.js:774-775 | a `#result=` run in the unwrapped text is returned first |
| PayloadExtraction.ExtractFallsBackToHref | QuizOaky_Final.js:776-780 | without it, the `#result=` run inside the first `href` value is returned |
| PayloadExtraction.ExtractFallsBackToToken | QuizOaky_Final.js:781-782 | without either, the leftmost run of eight or more token characters is returned |
| PayloadExtraction.HrefPayloadNone | QuizOaky_Final.js:776-780 | without a marked `href` value the second level yields nothing |
| PayloadExtraction.ExtractNoneIff | QuizOaky_Final.js:770-784 | nothing is extracted exactly when the text is empty or none of the three patterns applies |
| Format.EscapeHtmlIsPerCharacter | QuizOaky_Final.js:1537-1542 | the three replace passes equal escaping each character on its own |
| Format.EscapedHasNoAngleBrackets | QuizOaky_Final.js:1537-1542 | escaped text holds no `<` and no `>` |
| Format.EscapeHtmlRoundTrip | QuizOaky_Final.js:1537-1542 | unescaping the three entities gives back the original text |
| Format.FormatTime | QuizOaky_Final.js:1300-1304 | below 100 minutes the text is five characters with `:` in the middle |
| Format.FormatTimeRoundTrip | QuizOaky_Final.js:1300-1304 | the text splits at `:` into two parts whose minutes and seconds give back the input |
| Teacher.ParseRow | QuizOaky_Final.js:276-285 | a line yields a row exactly when it is not blank, has at least six fields and a non-empty question and four non-empty options, and the row has those |
| Teacher.CsvRowRoundTrip | QuizOaky_Final.js:276-285 | a row written as comma-separated fields is read back unchanged |
| Teacher.AppendedIds | QuizOaky_Final.js:286-287 | one question per accepted line, the j-th stamped with the clock at its line plus j |
| Teacher.AppendedShape | QuizOaky_Final.js:285-296 | appended questions are multiple choice, with a question, four non-empty options and no images |
| Teacher.AppendedCount | QuizOaky_Final.js:275-297 | the number appended is the number of accepted lines |
| Teacher.AppendedIdsIncrease | QuizOaky_Final.js:287 | with a clock that never goes back, the new ids strictly increase |
| Teacher.ImportedShape | QuizOaky_Final.js:272-298 | every imported question has the import shape |
| Teacher.ImportedCount | QuizOaky_Final.js:272-298 | the import adds one question per accepted line after the header |
| Teacher.ImportedIdsIncrease | QuizOaky_Final.js:272-298 | imported ids strictly increase |
| Teacher.QuestionBank.AppendRows | QuizOaky_Final.js:274-298 | the loop appends exactly the imported questions and counts them |
| Teacher.QuestionBank.ImportCsv | QuizOaky_Final.js:272-298 | the bank grows by the questions of the file body, and the count is their number |
| Teacher.WithoutId | QuizOaky_Final.js:167 | the filter never grows the list and keeps no question with that id |
| Teacher.WithoutIdMembers | QuizOaky_Final.js:167 | a question survives exactly when it was in the list and has another id |
| Teacher.WithoutIdAppend | QuizOaky_Final.js:167 | filtering distributes over concatenation, so order is kept |
| Teacher.WithoutIdIdempotent | QuizOaky_Final.js:167 | filtering twice is filtering once |
| Teacher.FindById | QuizOaky_Final.js:179 | nothing is found exactly when no question has the id, otherwise the first one that has it |
| Teacher.QuestionBank.DeleteQuestion | QuizOaky_Final.js:165-167 | the bank becomes the filtered list |
| Teacher.QuestionBank.EditQuestion | QuizOaky_Final.js:178-196 | the first question with the id is loaded; if the edit form can show it, every question with the id is removed from the bank, otherwise (the radio button lookup throws) the bank is unchanged; an unknown id changes nothing |
| Teacher.ExportRows | QuizOaky_Final.js:742-758 | nothing for an empty bank; otherwise the quiz id row, the header row, and one row per question with its text first, its options, and its correct answer's text last; a true/false question's row is its text, `True`, `False`, two empty cells and its answer's text |
| Collect.RemoveZeroWidth | QuizOaky_Final.js:838 | no zero-width character remains and the text never grows |
| Collect.RemoveZeroWidthOfClean | QuizOaky_Final.js:838 | text without zero-width characters is left unchanged |
| Collect.Cleaned | QuizOaky_Final.js:828-838 | the pasted text, once cleaned, is trimmed |
| Collect.SepAt | QuizOaky_Final.js:843 | a separator (`\r\n`, `\n`, `,` or `;`) starts at a position exactly when one of those is there |
| Collect.SplitLinks | QuizOaky_Final.js:843 | splitting gives at least one part, and no part holds a separator character |
| Collect.TrimmedNonEmpty | QuizOaky_Final.js:843 | the kept parts are non-empty and trimmed |
| Collect.LinksOfPasted | QuizOaky_Final.js:838-843 | links pasted one per line come back exactly, in order |
| Collect.FindIndex | QuizOaky_Final.js:850-852 | the first result with the same student and quiz, nothing exactly when there is none |
| Collect.Upsert | QuizOaky_Final.js:853-857 | a result with a known key replaces it in place, a new one is appended at the end, other results are kept, and the result is present |
| Collect.UpsertUnique | QuizOaky_Final.js:850-857 | upserting keeps student and quiz pairs unique |
| Collect.UpsertIdempotent | QuizOaky_Final.js:850-857 | pasting the same result twice stores it once |
| Collect.Accepted | QuizOaky_Final.js:848-849 | an accepted result has a non-empty student name and quiz id |
| Collect.FoldedKeepsOthers | QuizOaky_Final.js:846-865 | results no pasted link refers to keep their place and value |
| Collect.FoldedGrowth | QuizOaky_Final.js:846-865 | the list grows by at most the number of successes |
| Collect.FoldedUnique | QuizOaky_Final.js:846-865 | collecting keeps student and quiz pairs unique |
| Collect.FoldedLastWins | QuizOaky_Final.js:846-865 | the last pasted result for a student and quiz is the one stored |
| Collect.ResultCollection.UpsertAll | QuizOaky_Final.js:844-865 | the loop's list is the fold of all links, its success count that of the fold, and successes plus errors equals the number of links |
| Collect.ResultCollection.CollectResults | QuizOaky_Final.js:825-865 | nothing pasted leaves the list as it was; otherwise the list and the counts are those of the links split from the cleaned text |
| Scoring.CalculateResults | QuizOaky_Final.js:1352-1360 | the loop's score is the number of positions whose answer equals the correct answer of the question shown there, at most the number of questions |
| Scoring.CountIsCardinality | QuizOaky_Final.js:1352-1360 | the score is the size of the set of correctly answered positions |
| Scoring.ScoreAtMostAnswered | QuizOaky_Final.js:1352-1360 | the score never exceeds the number of answered positions |
| Scoring.FullScoreIff | QuizOaky_Final.js:1352-1360 | full marks exactly when every position is answered correctly |
| Scoring.LinkScoreAsWritten | QuizOaky_Final.js:1411-1414 | the result link's loop counts answers that match the question at the same index, ignoring the shuffle |
| Scoring.LinkScoreAgreesWhenNotShuffled | QuizOaky_Final.js:1411-1414 | without shuffling both scores agree |
| Scoring.LinkScoreDiffersWhenShuffled | QuizOaky_Final.js:1411-1414 | with shuffling they can differ (see Findings) |
| Shuffle.RangeIsPermutation | QuizOaky_Final.js:1197 | `[...Array(n).keys()]` is a permutation of `0..n-1` |
| Shuffle.SwapKeepsPermutation | QuizOaky_Final.js:1200 | one swap keeps a permutation |
| Shuffle.ShuffleKeepsPermutation | QuizOaky_Final.js:1198-1201 | the whole shuffle keeps a permutation |
| Shuffle.ShufflePermutes | QuizOaky_Final.js:1198-1201 | the shuffle keeps the multiset of elements |
| Shuffle.FisherYates | QuizOaky_Final.js:1198-1201 | the array after the in-place loop is the shuffle of the array before, with the same elements |
| Shuffle.ShuffledOrder | QuizOaky_Final.js:1197-1201 | the shuffled order is a permutation of all question indices |
| Session.ShownQuestionExists | QuizOaky_Final.js:1310-1311 | with a shuffled order that is a permutation, the question at any display position exists |
| Session.QuizSession.constructor | QuizOaky_Final.js:5-21 | joining sets the questions, the quiz id and the student's name (as `joinQuiz` does at QuizOaky_Final.js:1041-1043); the session keeps the violation count, lock, pause flag and paused time left by an earlier session in the page (0, false, false and null after a page load), and has no timer, no listeners and no result |
| Session.QuizSession.Submitted | QuizOaky_Final.js:1415-1422 | the corrected result: it names the student and quiz, counts all questions, keeps the answers and the completion time, and its score, the shuffle-aware one, is at most the question count |
| Session.QuizSession.SubmittedAsWritten | QuizOaky_Final.js:1411-1422 | the result as written: the same fields, with the score counted by display position, at most the question count |
| Session.AsWrittenAgreesWhenNotShuffled | QuizOaky_Final.js:1411-1422 | without shuffling, the result as written is the corrected result |
| Session.QuizSession.Reorder | QuizOaky_Final.js:1194-1202 | the order is reshuffled only when shuffling is on, and is then a permutation |
| Session.QuizSession.Start | QuizOaky_Final.js:1188-1213 | back to the first position with no answers, listeners on, the timer at full time when there are questions; violations, lock and pause are kept |
| Session.QuizSession.ShowCurrentQuestion | QuizOaky_Final.js:1215-1251 | an empty quiz changes nothing, otherwise the timer restarts at full time |
| Session.QuizSession.StartQuestionTimer | QuizOaky_Final.js:1171-1185 | the countdown runs from the full question time |
| Session.QuizSession.SelectOption | QuizOaky_Final.js:1244-1249 | a click records the answer at the current position unless the quiz is locked |
| Session.QuizSession.Tick | QuizOaky_Final.js:1176-1184 | nothing while paused; otherwise the countdown drops by one and at zero stops and schedules the next question |
| Session.QuizSession.NextQuestion | QuizOaky_Final.js:1307-1332 | the timer stops; the move on is scheduled unless the question lookup throws |
| Session.QuizSession.HoldElapsed | QuizOaky_Final.js:1324-1331 | the next position with a fresh timer and nothing else changed, or `finishQuiz` (with its result) after the last one |
| Session.QuizSession.Pause | QuizOaky_Final.js:1270-1280 | paused, timer stopped, remaining time kept |
| Session.QuizSession.Resume | QuizOaky_Final.js:1282-1291 | unpaused with the countdown restarted at full time |
| Session.QuizSession.EndEarly | QuizOaky_Final.js:1293-1298 | a confirmed end finishes with the shuffle-aware score and the result for the link; otherwise nothing changes |
| Session.QuizSession.Finish | QuizOaky_Final.js:1335-1350 | timer and listeners off, blur lifted, the score is the shuffle-aware score, and the result for the link is built from it |
| Session.QuizSession.Escalate | QuizOaky_Final.js:1146-1168 | three or more violations lock and finish the quiz with its result, scheduling no un-blur; exactly two blur it and schedule an un-blur and change nothing else; fewer change nothing |
| Session.QuizSession.ScreenshotAttempt | QuizOaky_Final.js:1120-1127 | an unlocked quiz counts a shortcut as one more violation: the first changes nothing else, the second blurs and schedules an un-blur, the third or later locks and finishes with the result; anything else changes nothing |
| Session.QuizSession.VisibilityChange | QuizOaky_Final.js:1134-1144 | leaving the page is one more violation: the first blurs only, the second also schedules an un-blur, the third or later locks and finishes with the result and lifts the blur; coming back lifts the blur and changes nothing else |
| Session.QuizSession.BlurExpired | QuizOaky_Final.js:1153 | a pending un-blur lifts the blur |

## Left out

- The DOM, alerts, `localStorage`, the QR generator and camera scanner, passphrase
  encryption, the XLSX file writing of `exportQuestions`, the clipboard fallback of
  `collectResults`, and the floating-point analytics and percentages are not modelled. They are
  display or I/O, or floating point.
- `atob`, `btoa`, `JSON.parse`, `JSON.stringify`, `encodeURIComponent` and
  `decodeURIComponent` are parameters. The model proves what holds for any of them, and
  what holds when they invert each other. A `JSON.parse` result that is falsy counts as a
  failure, as the source's `if (res)` does.
- `Date.now()` is a clock indexed by CSV line (`clock: nat -> int`) in the import. In
  `joinQuiz` it is a fallback id string. `updateShareLink`'s generation of a missing quiz id
  is not modelled: `ShareLink` takes the id as given.
- `Math.random()` is a sequence of picks with `picks[i] <= i`.
- Strings are sequences of characters. UTF-16 code units and surrogate pairs are not modelled,
  and `parseInt` precision limits are not modelled.
- JSON fields are taken as already typed. Payloads whose fields have other types are not
  modelled.
- The question form's submit handler, `clearAll`, `clearCollectedResults`, the results table
  rendering and the category filter are not modelled. They edit the DOM or storage only.
- Session.QuizSession.Tick: one question timer is modelled. `resumeQuiz` called without an
  earlier pause would start a second interval in the source, and that is not modelled.
- Session.QuizSession.StartQuestionTimer: the `questionTimer` element is assumed present. The
  source returns early without starting the interval when it is missing.
- Session.QuizSession.Pause: `pausedTimeLeft` is the displayed countdown. The pause screen's
  `formatTime(pausedTimeLeft || QUESTION_TIME)` text is not modelled.
- Session.QuizSession.NextQuestion: the `TypeError` thrown when no question is at the display
  position is modelled as "nothing scheduled". `ShowCurrentQuestion` is only reached where the
  question exists (`Session.ShownQuestionExists`).
- LinkCodec.ShareLink has no contract of its own. Its link is specified through
  `LinkCodec.QuizLinkRoundTrip` and `LinkCodec.JoinQuizFromShareLink`.
- LinkCodec.ResultLink has no contract of its own. Its link is specified through
  `LinkCodec.ResultLinkRecoversResult`.
- Session.QuizSession.Finish: the session keeps the corrected result
  (`Session.QuizSession.Submitted`, with the shuffle-aware score), not the link text; the
  link is `LinkCodec.ResultLink` of that result, with the encoders and the page address as
  parameters. As written, `generateResultUrl` encodes `Session.QuizSession.SubmittedAsWritten`,
  whose score is `Scoring.LinkScoreAsWritten`'s; the two agree without shuffling
  (`Session.AsWrittenAgreesWhenNotShuffled`) and can differ with it (see Findings).
- Teacher.AnswerText: for a multiple-choice question whose correct answer is not the index
  of one of its options, the source writes `q.options[q.correctAnswer]`, which is
  `undefined`, and the spreadsheet cell is left empty; the model writes the empty string.
- Session.QuizSession.constructor: index, answers, order and score carried over from an
  earlier session are started afresh; `startQuiz` and `finishQuiz` overwrite them before
  they are read. Timers, listeners and blur callbacks still pending from an earlier session
  that was left without finishing are not carried over.
- Teacher.FitsEditForm: the page's HTML is not part of this model. The edit form is taken
  to have four option text fields with radio buttons valued 0 to 3 and two true/false radio
  buttons valued 0 and 1, as the form reading code at QuizOaky_Final.js:1567-1580 implies.
- Three behaviours of the code a user may not expect, which the model follows. First, `resumeQuiz` restarts the countdown at the full question time, not at the
  paused time. Second, neither `joinQuiz` nor `startQuiz` resets the violation count, the
  lock or the pause flag, so a student locked out stays locked after rejoining in the same
  page. Third, the decoder undoes one level of URL encoding only: a result token
  URL-encoded again decodes only when its base64 text has no `+`, `/` or `=`
  (`LinkCodec.TwiceEncodedResultLinkFails`).

## Findings

| source | as written | input that shows it | evidently intended | confidence | as-written member | corrected member |
|---|---|---|---|---|---|---|
| QuizOaky_Final.js:1411-1414 | `generateResultUrl` scores `studentAnswers[i]` against `questions[i].correctAnswer`. That ignores `originalQuestionOrder`, although answers are stored by display position. | Two questions with correct answers 0 and 1, shuffled order `[1, 0]`, answers `{0: 1, 1: 0}`. The screen shows 2; the result link says 0. | The link carries the shuffle-aware score that `calculateResults` computes. | not executed | Scoring.LinkScoreAsWritten, Scoring.LinkScoreDiffersWhenShuffled, Session.QuizSession.SubmittedAsWritten | Scoring.CalculateResults (used by Session.QuizSession.Finish and Session.QuizSession.Submitted) |
