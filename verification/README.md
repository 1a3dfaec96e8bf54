# QuizGen AI, modelled in Dafny

QuizGen AI is a single-page quiz application. The user uploads a PDF, a Word
document or a plain-text file. A language model turns the document into
multiple-choice questions. The user chooses shuffling and an optional timer,
answers the questions one at a time, and then sees a marked result with a
review of every question.

This project models the application's own logic as pure Dafny functions and
proves properties of it:

- `QuizApp` (`app.dfy`): the screen machine of `App.tsx`.
  - The screens are upload, settings, quiz and result, with the busy flag of
    an upload.
  - Missing question ids are filled in.
  - Questions and options are shuffled.
  - The timer limit is handed to the quiz screen.
- `QuizPlayer` (`player.dfy`): the quiz screen.
  - Navigation and answer recording.
  - The "answered" counter.
  - The once-a-second tick, including the stale closure that submits at
    time-out.
- `Review` (`review.dfy`): the result screen.
  - The correct count, the mark out of 10 and the colour of its ring.
  - The accordion of reviewed questions, and option colouring.
  - The component also computes a percentage and defines a grade colouring
    (`getGradeColor`), but displays neither. Both are modelled, and related
    to what is displayed.
- `Clock` (`clock.dfy`): the two `formatTime` helpers, with JavaScript's `%`.
- `ConfigForm` (`config_form.dfy`): the settings draft, its switches and the
  `parseInt(...) || 1` coercion of the minutes field.
- `FileUpload` (`file_upload.dfy`): the acceptance gate, the drag highlight
  and the click guard of the upload box.
- `FileParser` (`file_parser.dfy`): the MIME dispatch of `readFileContent`,
  the `data:` URL split, and the text payload.
  - The text payload is `btoa(unescape(encodeURIComponent(text)))`.
  - It is modelled as base64 (`base64.dfy`, section 4 of RFC 4648) of UTF-8
    (`utf8.dfy`, RFC 3629).
- `Model` (`model.dfy`): the records of `types.ts`.
- Supporting modules:
  - `Decimal`: number printing and JavaScript's `parseInt` on decimal text.
  - `Strings`: `endsWith`, `split` and join.
  - `Permutations`: a shuffle as a sequence of exchanges, and counting.
  - `Arith` and `Outcomes`.
- `Walkthrough` (`walkthrough.dfy`): one complete session with concrete
  values, from upload to retry.

The model stands in for the outside world as follows:

- The question generator is a parameter, a function from payload to
  `Result<seq<Question>>`.
- What the browser's file readers deliver is an input: a `Result` for each
  reader.
- `Date.now()` is a parameter `now: nat -> int`, read once per question
  position.
- Each `sort(() => Math.random() - 0.5)` is an arbitrary sequence of
  exchanges. The model proves that every such sequence is a rearrangement
  and that every rearrangement can arise.
- A missing string (`undefined`) is written as `Option` or as the empty
  string. The empty string stands for a missing id, because `q.id ||
  default` treats both the same way.

The minutes input carries `min="1"` and `max="180"`
(components/QuizConfig.tsx:88-89), but these only guide the browser's
spinner. The value stored is `parseInt(value) || 1`, which keeps every
non-zero integer: negative ones, and ones above 180
(`ConfigForm.CoerceMinutes`, `ConfigForm.MinutesExamples`).

## Model

| member | source | states |
|---|---|---|
| `Model.FileTypeOf` | types.ts:25-29 | a MIME string maps to a file kind only when it is that kind's exact MIME string |
| `Model.FileTypeOfMimeOf` | types.ts:25-29 | the three MIME strings are distinct, so each kind is recovered from its own string |
| `Model.FileTypeOfComplete` | types.ts:25-29 | a string is a known type exactly when it equals one of the three constants |
| `Decimal.ParseInt` | components/QuizConfig.tsx:91 | `parseInt` yields no number exactly when no digits follow an optional sign; a non-zero result is negative exactly when the text starts with `-` |
| `Decimal.ParseIntOfIntToString` | components/QuizConfig.tsx:91 | `parseInt` reads back the decimal spelling of any integer, whatever non-digit text follows it |
| `Decimal.IntToStringInjective` | App.tsx:32 | different numbers print differently, so positions in default ids are told apart |
| `Strings.JoinSplit` | utils/fileParser.ts:11 | `split` cuts a string into pieces that join back to the string |
| `Strings.SplitJoin` | utils/fileParser.ts:11 | splitting the join of separator-free pieces recovers the pieces |
| `Strings.SplitAfterFirst` | utils/fileParser.ts:11 | for a text with one comma, the second piece is everything after the comma |
| `Base64.DecodeEncode` | utils/fileParser.ts:46 | `btoa` output decodes back to the exact bytes encoded |
| `Base64.EncodeDecode` | utils/fileParser.ts:46 | the decoder accepts only canonical encodings: what it accepts is the encoding of what it decodes to |
| `Base64.EncodeLength` | utils/fileParser.ts:46 | `btoa` output is four characters for every started group of three bytes |
| `Base64.EncodeHasNoComma` | utils/fileParser.ts:11 | base64 text never contains the comma that `split(',')` cuts at |
| `Utf8.DecodeEncode` | utils/fileParser.ts:46 | the UTF-8 bytes of `encodeURIComponent` decode back to the text |
| `Utf8.EncodeDecode` | utils/fileParser.ts:46 | the strict decoder accepts only encodings: what it accepts re-encodes to the same bytes |
| `Permutations.SwapAtKeepsElements` | App.tsx:56 | one exchange during the shuffle keeps the same elements |
| `Permutations.PermutationReachable` | App.tsx:56 | every rearrangement of the questions can come out of some shuffle |
| `Permutations.CountPermutation` | components/QuizResult.tsx:14-19 | counting questions that meet a test gives the same number for any order of them |
| `Clock.JsRem60` | components/QuizPlayer.tsx:52 | JavaScript's `% 60`: a remainder within -59..59 with the dividend's sign that differs from it by a multiple of 60 |
| `Clock.PadStart2` | components/QuizPlayer.tsx:53 | `padStart(2, '0')` gives at least two characters, with the original at the end and zeros before it |
| `Clock.ReadFormatClock` | components/QuizPlayer.tsx:50-54 | the countdown text `m:ss` of a non-negative count reads back as exactly that count |
| `Clock.ClockSecondsField` | components/QuizPlayer.tsx:53 | for a non-negative count the seconds after the colon are exactly two digits |
| `Clock.FormatWholeMinutes` | components/QuizPlayer.tsx:50-54 | a whole number of minutes, the only kind of count a limit gives, shows as the minutes (with their sign) and `:00` |
| `Clock.ReadFormatDuration` | components/QuizResult.tsx:24-28 | the result text `m phút s giây` shows seconds below 60 and reads back as the count |
| `FileParser.DataUrlPayload` | utils/fileParser.ts:11 | the payload exists exactly when the `data:` URL has a comma, and it contains no comma |
| `FileParser.DataUrlPayloadOfEncoding` | utils/fileParser.ts:5-17 | for a base64 `data:` URL the payload is exactly the encoded file content |
| `FileParser.ReadFileContent` | utils/fileParser.ts:39-69 | unknown types fail as unsupported; a known type succeeds exactly when its reader does; the payload type is text or PDF |
| `FileParser.OnlyMatchingReaderMatters` | utils/fileParser.ts:39-69 | only the reader of the file's own type matters, and its failure is passed on unchanged |
| `FileParser.TextDataDecodes` | utils/fileParser.ts:46 | the text payload decodes, by base64 and then UTF-8, back to the text |
| `FileParser.TextPayloadDecodes` | utils/fileParser.ts:41-57 | text and Word files are both sent as `text/plain` data that decodes back to the text read |
| `FileParser.PdfPayloadIsFileEncoding` | utils/fileParser.ts:60-66 | a PDF is sent as its own base64, which decodes to the file's bytes |
| `FileParser.DocxNameAloneIsUnsupported` | utils/fileParser.ts:51-68 | a file let through for its `.docx` name but with another type fails in the parser as unsupported |
| `FileUpload.AcceptsKnownTypes` | components/FileUpload.tsx:19-21 | the gate accepts exactly the three known types plus any file named `*.docx` |
| `FileUpload.DragHighlight` | components/FileUpload.tsx:30-47 | enter and over light the box up; leave and drop turn it off; clicks leave it alone |
| `FileUpload.ClickGuard` | components/FileUpload.tsx:62-70 | while busy a click and the picker do nothing; otherwise a click opens the picker |
| `FileUpload.DropWhileLoading` | components/FileUpload.tsx:40-47 | a drop is not guarded by the busy flag and hands on an acceptable file |
| `FileUpload.OnlyAcceptedFilesProcessed` | components/FileUpload.tsx:15-47 | only a file that passed the gate and is first in its list is ever handed on |
| `ConfigForm.CoerceMinutes` | components/QuizConfig.tsx:91 | the minutes are the parsed integer, or 1 when there is none or it is 0; never 0 |
| `ConfigForm.Apply` | components/QuizConfig.tsx:83-91 | the minutes field can be edited only while the timer is on; the switches always can |
| `ConfigForm.TogglesAreIndependent` | components/QuizConfig.tsx:41-53 | each shuffle switch flips its own field only, and a second press undoes the first |
| `ConfigForm.TimerSwitch` | components/QuizConfig.tsx:78 | the timer checkbox sets the timer flag to its checked state and changes nothing else |
| `ConfigForm.MinutesNeverZero` | components/QuizConfig.tsx:91 | no edit makes non-zero minutes zero |
| `ConfigForm.DefaultMinutesNonZero` | components/QuizConfig.tsx:12-17 | the draft starts with both shuffles on, no timer and non-zero minutes |
| `ConfigForm.MinutesFromTypedNumber` | components/QuizConfig.tsx:91 | typing a non-zero integer stores it, sign kept and any trailing fraction dropped |
| `ConfigForm.MinutesExamples` | components/QuizConfig.tsx:86-91 | `-5` and `500` are kept; `12.7` becomes 12; empty and `0` become 1 |
| `QuizPlayer.Select` | components/QuizPlayer.tsx:39-44 | choosing records the option for the current question's id and keeps every other answer and field |
| `QuizPlayer.StartValid` | components/QuizPlayer.tsx:12-17 | a non-empty quiz opens on a real question with answers only for its questions |
| `QuizPlayer.EmptyQuizHasNoQuestion` | components/QuizPlayer.tsx:17 | an empty quiz has no current question, so its screen offers nothing |
| `QuizPlayer.StepKeepsValid` | components/QuizPlayer.tsx:124-166 | every control keeps the index on a question and answers keyed by question ids |
| `QuizPlayer.PrevThenNext` | components/QuizPlayer.tsx:124-140 | back then forward returns to the same question |
| `QuizPlayer.NextThenPrev` | components/QuizPlayer.tsx:124-140 | forward then back returns to the same question |
| `QuizPlayer.ChooseOverwrites` | components/QuizPlayer.tsx:39-44 | choosing twice for a question keeps only the last choice |
| `QuizPlayer.AnsweredAtMostQuestions` | components/QuizPlayer.tsx:156 | the "answered" figure never exceeds the number of questions |
| `QuizPlayer.ChooseCounts` | components/QuizPlayer.tsx:156 | a first answer raises the "answered" figure by one, and changing an answer leaves it alone |
| `QuizPlayer.TickWithoutCountdown` | components/QuizPlayer.tsx:21-37 | without a limit a tick only counts a second and never submits |
| `QuizPlayer.TickWithCountdown` | components/QuizPlayer.tsx:21-37 | above one second a tick moves both clocks by one; at one or less it submits what the interval captured |
| `QuizPlayer.QuietTicks` | components/QuizPlayer.tsx:21-37 | after k quiet ticks below the limit the countdown shows limit minus k |
| `QuizPlayer.TimeoutReportsOneSecondLess` | components/QuizPlayer.tsx:21-37 | a quiz left alone with any positive limit is submitted at time-out with no answers and one second less than the limit |
| `QuizPlayer.LastSecondChoiceLost` | components/QuizPlayer.tsx:21-48 | a first answer chosen in the last second is missing from the time-out submission |
| `Review.CountCorrect` | components/QuizResult.tsx:14-19 | the tally loop finds the number of questions whose recorded answer equals the correct one |
| `Review.WrongTileCountsIncorrect` | components/QuizResult.tsx:72 | the "wrong" tile equals the number of questions not answered correctly, blanks included |
| `Review.AllCorrectIff` | components/QuizResult.tsx:14-19 | the count is full exactly when every question is answered correctly |
| `Review.NoAnswersNoneCorrect` | components/QuizResult.tsx:16 | with no answers nothing is counted correct |
| `Review.MissingCorrectAnswerNeverScores` | components/QuizResult.tsx:16 | a question whose correct answer is not an option cannot be answered correctly by picking options |
| `Review.RoundedShare` | components/QuizResult.tsx:21-22 | the mark is the nearest integer to the share, halves up; none for an empty quiz |
| `Review.RoundedShareBounds` | components/QuizResult.tsx:21-22 | a mark lies between 0 and its scale |
| `Review.RoundedShareMonotone` | components/QuizResult.tsx:21-22 | more correct answers never lower a mark |
| `Review.MarksInRange` | components/QuizResult.tsx:21-22 | the mark and the (undisplayed) percentage exist exactly for a non-empty quiz and lie within 0..10 and 0..100 |
| `Review.PassMeansAtLeast45Percent` | components/QuizResult.tsx:58 | a mark of 5 or more means at least 45% correct, and back |
| `Review.GreenMeansAtLeast75Percent` | components/QuizResult.tsx:31 | the green band of the uncalled grade colouring, a mark of 8 or more, means at least 75% correct, and back |
| `Review.GradeMonotone` | components/QuizResult.tsx:30-34 | in the grade colouring, defined but never called, a higher mark never gets a worse colour |
| `Review.PassRingAgreesWithGrade` | components/QuizResult.tsx:58 | the displayed ring is green exactly when the uncalled grade colouring would not be red |
| `Review.ToggleTwice` | components/QuizResult.tsx:39-41 | two clicks on a question restore the list when it or nothing was open, and close the list when another question was open |
| `Review.AtMostOneExpanded` | components/QuizResult.tsx:106 | with distinct ids at most one question is open at a time |
| `Review.SharedIdExpandsTogether` | components/QuizResult.tsx:106 | two questions sharing an id open together |
| `Review.GreenRowsMatchCount` | components/QuizResult.tsx:105-109 | the rows drawn green are as many as the correct count on the score card |
| `Review.HighlightCases` | components/QuizResult.tsx:140-148 | an option is green exactly when it is the correct answer, and red exactly when it is a wrong pick |
| `Review.OptionMarksAgree` | components/QuizResult.tsx:140-148 | a correct answer shows no red; some option is green exactly when the answer is an option; some is red exactly for a wrong pick among the options |
| `QuizApp.DefaultIdParts` | App.tsx:32 | a default id splits at underscores into `q`, the time stamp and the position |
| `QuizApp.DefaultIdsDistinct` | App.tsx:32 | default ids at different positions differ, whatever the clock reads |
| `QuizApp.WithIdsKeepsQuestions` | App.tsx:30-33 | every question ends with an id; a given id is kept, a missing one is defaulted, and nothing else changes |
| `QuizApp.DefaultedIdsDistinct` | App.tsx:30-33 | two questions that both lacked an id get different ids |
| `QuizApp.FinishUpload` | App.tsx:23-47 | processing always ends with the busy flag cleared and the configuration untouched |
| `QuizApp.UploadSuccess` | App.tsx:35-40 | a successful upload moves to settings with the generated questions, ids filled in, and the file name |
| `QuizApp.UploadFailure` | App.tsx:41-46 | a failed read or generation changes nothing but the busy flag |
| `QuizApp.CountdownFromConfig` | App.tsx:154 | the quiz screen counts down exactly when the timer is on with non-zero minutes |
| `QuizApp.InitialValid` | App.tsx:12-21 | the application starts on the upload screen with nothing loaded |
| `QuizApp.StepKeepsValid` | App.tsx:23-101 | every handler keeps the screen invariants: no answers before the result, a file name after upload, a configuration while playing |
| `QuizApp.ScreenTransitions` | App.tsx:128-167 | every offered event moves upload to settings, settings to quiz, quiz to result or result to settings, or lands on upload; no other screen is left in place or re-entered |
| `QuizApp.NewUploadResets` | App.tsx:93-101 | a new upload restores the initial quiz state and keeps the busy flag and configuration |
| `QuizApp.StartQuizShuffles` | App.tsx:49-74 | starting plays a rearrangement of the questions, each with rearranged options, and no answers; an off switch keeps its order |
| `QuizApp.StartQuizKeepsCorrectOption` | App.tsx:60-66 | shuffling options never changes whether the correct answer is among them |
| `QuizApp.StartQuizKeepsCorrectCount` | App.tsx:49-74 | shuffling does not change the correct count any set of answers earns |
| `QuizApp.StartQuizCanPlayAnyOrder` | App.tsx:55-57 | with question shuffling on, any order of the questions can be the one played, whether or not options are shuffled |
| `QuizApp.SubmitStores` | App.tsx:76-83 | submitting shows the result with exactly the given answers and time used |
| `QuizApp.RetryKeepsQuestions` | App.tsx:85-91 | retrying returns to settings with no answers and the questions as last played |
| `QuizApp.FailedUploadRestores` | App.tsx:23-47 | starting an upload that then fails returns exactly to the state before it |
| `QuizApp.EmptyQuizIsStuck` | components/QuizPlayer.tsx:85 | a quiz with no questions cannot be drawn, so nothing can be done from it |
| `QuizApp.ResultHasMark` | components/QuizResult.tsx:21 | the result screen is reached only with questions, so its mark exists and lies in 0..10 |
| `QuizApp.NegativeMinutesEndAtFirstTick` | App.tsx:154 | negative minutes show as `-m:00` and the first tick submits with no answers and no time used |
| `Walkthrough.UploadStage` | App.tsx:23-47 | a concrete upload reaches settings with the missing id defaulted to `q_7_2` |
| `Walkthrough.StartStage` | App.tsx:49-74 | without shuffling or timer, the quiz starts on the loaded questions with no countdown |
| `Walkthrough.PlayStage` | components/QuizPlayer.tsx:39-140 | two choices and a finish submit exactly those two answers |
| `Walkthrough.ResultStage` | components/QuizResult.tsx:14-58 | one right answer out of three shows mark 3 in a red ring; the undisplayed percentage and grade colour compute to 33 and red; retry clears the answers |

## Left out

- The question generator (`services/geminiService.ts`) is not part of this model. It is the parameter `generate`, and its failure is an `Err`.
- Browser file reading is not modelled: `file.text()`, `FileReader` and the Word text extraction library. What each reader delivers is an input (`FileParser.Reads`).
- A `FileReader` error during Word extraction is not handled by the source, so its promise never settles. The model treats every reader failure as an error result.
- `Math.random` shuffles are modelled as arbitrary exchange sequences. The model does not describe the distribution, or how a random comparator biases `sort`.
- `Date.now()` is a parameter.
- Floating point is not modelled: `Math.round(c / n * 10)` is computed in exact rationals.
- `Review.RoundedShare`: rounds the exact quotient, halves up. It does not model a float product that lands just below a half.
- Concurrency is not modelled: overlapping uploads and interleaved React state updates.
  - `QuizApp.Step` treats each handler as atomic.
  - A drop while busy is shown to hand a file on (`FileUpload.DropWhileLoading`). What two overlapping uploads then do is not modelled.
- The `setInterval` timer is a `Tick` event. Effect cleanup and re-arming are folded into the captured snapshot.
- The progress bar, the navigation grid's toggle, the alert text and all rendering are left out.
- `Decimal.ParseInt`: reads only an optional sign followed by decimal digits. It does not model leading white space, `0x` prefixes, `Infinity` or digits beyond double precision.
- `Utf8.Encode`: characters are Unicode scalar values. The lone-surrogate `URIError` of `encodeURIComponent` cannot arise, so it is not modelled.
- `FileParser.ReadFileContent`: the reads are inputs. It does not model how the browser produces them from the file.
- `QuizApp.FinishUpload`: ids supplied by the generator are not checked for uniqueness. The contract promises distinct ids only for defaulted ones (`QuizApp.DefaultedIdsDistinct`).
- The `score` field of the quiz state is never written by the source and stays 0. The mark is computed on the result screen (`Review.RoundedShare`).

## Edge cases the code leaves open

These follow from the code as written. Each is proved about the model:

- Negative minutes. The minutes field keeps negative numbers (`ConfigForm.MinutesExamples`), so the limit can be a negative whole number of minutes. The countdown shows `-m:00`, and the first tick submits with no answers (`QuizApp.NegativeMinutesEndAtFirstTick`, `Clock.FormatWholeMinutes`).
- Time-out loses time. At time-out the submitted time is one second below the limit (`QuizPlayer.TimeoutReportsOneSecondLess`). The interval's submit sees the values captured one tick earlier.
- Time-out loses a late answer. An answer chosen during the last second is missing from the time-out submission (`QuizPlayer.LastSecondChoiceLost`).
- A Word name is not enough. The upload box accepts any file named `*.docx`, but the parser dispatches on the MIME type alone. A `.docx` file with another type fails as unsupported (`FileParser.DocxNameAloneIsUnsupported`).
- Shared ids. Questions that share an id open and close together in the review list (`Review.SharedIdExpandsTogether`). They also share one recorded answer.
- Empty quizzes. Nothing stops the generator from returning no questions, and the settings screen still offers to start. The quiz screen then has no current question (`QuizPlayer.EmptyQuizHasNoQuestion`). Reading its text throws during drawing (components/QuizPlayer.tsx:85), and no error handler catches it, so the page is left blank. The model offers no event from there (`QuizApp.EmptyQuizIsStuck`). The result screen is never reached without questions (`QuizApp.ResultHasMark`). If it were, the mark would be missing (`Review.MarksInRange`).
