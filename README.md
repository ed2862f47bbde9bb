# Quiz session model

A Dafny model of the timed multiple-choice quiz in `src/App.tsx` and of the
answer-commit guard in `src/components/question-card.tsx`, with proofs of
what the two promise.

- `wrappers.dfy`: `Option`, used for the `number | null` state.
- `quiz_session.dfy` (module `QuizSession`): the question record, the five
  pieces of session state (`gameState`, `selectedAnswer`,
  `currentQuestion`, `score`, `timeLeft`) as a value, and one function per
  callback of `App`:
  - `Started`: the start timeout;
  - `Answered`: the answer handler;
  - `Advanced`: the advance timeout the answer schedules;
  - `Ticked`: one firing of the one-second interval;
  - `Restarted`: the restart handler.

  A deferred callback sees values it captured when it was scheduled: the
  start timeout sees the game state at the click, the advance sees the
  question index at the answer. These values are explicit arguments. `Run`
  applies any sequence of callbacks, in an order the caller chooses. The
  lemmas prove:
  - the invariant `Consistent` (score never above the questions answered,
    timer within its initial value, the playing screen always has time left);
  - the scoring rule and the ignored second answer;
  - the idempotent start;
  - timer expiry at any question;
  - which advance each answer schedules (`Scheduled`: one, for the question
    on screen, unless the handler returns early);
  - the index bound.
- `question_card.dfy` (module `QuestionCard`): class `CommitGuard` with the
  card's refs (`localSelectedRef`, `pendingIndexRef`, `submittedRef`,
  `committedIndexRef`) and its `localSelected` state. It has one method per
  event handler and the reset effect. Its invariant `Valid` says the
  answer callback is called at most once per question. `Classify`,
  `ClassName` and `ButtonClass` are `getButtonClass`; `Feedback` is
  the feedback line.
- `app.dfy` (module `App`): class `Controller`, whose fields are the five
  state variables. Its methods `HandleStart`, `HandleAnswer`, `Advance`,
  `Tick` and `HandleRestart` set them as the callbacks do, and each
  promises the state the matching `QuizSession` function gives. The
  module also holds the client scenarios of the end-to-end tests: scoring
  runs, rapid clicks through the card, and restart.

In these points the code does something a reader or the repository's own
tests may not expect; the model follows the code:

- Restart returns to the start screen (`gameState` "start"). It does not
  go straight back into play. The end-to-end test TC008
  (`tests/game-state.spec.ts:35-37`) expects the first question right after
  restart; `RestartAfterFullQuiz` follows its steps and reaches the start
  screen.
- Neither restart nor timer expiry cancels a scheduled advance. The
  advance does not check the game state either. A stale advance can
  therefore move the index in a new session (`StaleAdvanceSkipsQuestion`)
  or push it past the list (`StaleAdvanceLeavesList`). The index stays in
  range if every advance carries the index on screen when it fires
  (`CurrentAdvancesStayInRange`). It also stays in range if only scheduled
  advances fire and no reset comes while one is pending
  (`ScheduledAdvancesStayInRange`). The stale run fires only a scheduled
  advance, but it restarts while that advance is pending
  (`StaleRunIsScheduled`, `StaleRunResetsWhilePending`).
- The answer handler has no phase check.
- The container's click-capture handler commits whichever option was
  clicked, even when another option was pressed first. Only the button
  handlers keep the first-pressed rule (`PressOneClickAnother`).
- Because the focus-capture handler preselects first, `handleFocus` never
  submits when focus arrives as the browser dispatches it
  (`DispatchFocus`).

## Model

| member | source | states |
|---|---|---|
| QuizSession.Initial | src/App.tsx:14-21 | the mounted state: start screen, no answer, index 0, score 0, full time |
| QuizSession.Started | src/App.tsx:46-56 | a start whose click saw the start screen gives playing, index 0, score 0, no answer, full time; any other captured state leaves everything as it was |
| QuizSession.Restarted | src/App.tsx:59-67 | restart from any state gives exactly the mounted state |
| QuizSession.Answered | src/App.tsx:69-77 | ignored when an answer is selected; otherwise selects the index, leaves phase, index and time alone, and adds one point exactly when the index is the current question's correct one |
| QuizSession.Scheduled | src/App.tsx:69-87 | an answer schedules one advance, capturing the index on screen, exactly when no answer is selected yet; no other callback schedules one |
| QuizSession.Advanced | src/App.tsx:79-86 | captured index before the last: next question, selection cleared; otherwise the game ends with the index kept; score and time unchanged |
| QuizSession.Ticked | src/App.tsx:25-39 | no effect unless playing with time left; otherwise one second less, or, at one second, time zero and the game ends; answer, index and score untouched |
| QuizSession.StartIsIdempotent | src/App.tsx:46-55 | a start fired twice gives the state of a single start |
| QuizSession.RestartThenStart | src/App.tsx:59-66 | restart then start from any state gives the fresh first question |
| QuizSession.SecondAnswerIsIgnored | src/App.tsx:70 | a second answer, with any index, leaves selection and score as the first left them |
| QuizSession.AdvanceKeepsIndexInRange | src/App.tsx:79-86 | an advance keeps the index in the list iff it is not at the last question or its captured index is the last; the advance for the question on screen always does, and on the last question ends the game |
| QuizSession.TicksExpire | src/App.tsx:28-35 | from playing with n seconds, n ticks end the game with time zero at whatever question it is on |
| QuizSession.TicksAfterEndChangeNothing | src/App.tsx:27 | outside the playing screen any number of ticks changes nothing |
| QuizSession.ExpiryPreemptsProgress | src/App.tsx:25-39 | thirty ticks after a thirty-second start with no answer end the game on the first question with score zero |
| QuizSession.StepKeepsConsistent | src/App.tsx:25-87 | every callback keeps score at most the questions answered, time within the initial value, and time left while playing |
| QuizSession.SelectionIsNeverReplaced | src/App.tsx:69-86 | a selected answer is only ever kept or cleared, never replaced by another |
| QuizSession.OnlyResetsGoBack | src/App.tsx:69-86 | apart from restart and start, no callback lowers score or index |
| QuizSession.RunKeepsConsistent | src/App.tsx:25-87 | every state reachable by any sequence of callbacks is consistent |
| QuizSession.CurrentAdvancesStayInRange | src/App.tsx:79-86 | when each advance carries the index on screen as it fires, no answer meets a missing question and the index stays below the question count |
| QuizSession.StaleAdvanceSkipsQuestion | src/App.tsx:59-86 | an advance scheduled before a restart moves the next session to its second question with nothing answered |
| QuizSession.RunAppend | src/App.tsx:25-87 | running two callback sequences in turn is running their concatenation |
| QuizSession.StaleAdvanceLeavesList | src/App.tsx:69-86 | with two questions, a stale advance and a fresh one push the index to 2 while still playing |
| QuizSession.StaleAdvanceBreaksAnswer | src/App.tsx:93-102 | after that run the playing screen has no question at the index; the model marks that point by stopping the run with None at the next answer |
| QuizSession.StepKeepsPendingMatched | src/App.tsx:69-87 | without a reset while an advance is pending, the pending advance is always the one for the question on screen, whose answer is in, and a firing advance carries that index |
| QuizSession.ScheduledAdvancesStayInRange | src/App.tsx:59-87 | when only scheduled advances fire and no reset comes while one is pending, no answer meets a missing question and the index stays below the question count |
| QuizSession.UnscheduledAdvanceIsExcluded | src/App.tsx:79-86 | a run with advances no answer scheduled is not a scheduled run |
| QuizSession.StaleRunIsScheduled | src/App.tsx:59-86 | the stale-advance run fires only the advance its first answer scheduled |
| QuizSession.StaleRunResetsWhilePending | src/App.tsx:59-86 | the stale-advance run restarts while that advance is pending |
| QuestionCard.CommitGuard.constructor | src/components/question-card.tsx:19-24 | a new card has nothing pressed and nothing submitted |
| QuestionCard.CommitGuard.ResetForQuestion | src/components/question-card.tsx:26-36 | a question change clears the local selection, the pressed flag, the pending and committed indices and the submitted flag |
| QuestionCard.CommitGuard.PointerDown | src/components/question-card.tsx:55-64 | preselects the option only when nothing is pressed and no answer is in; a later press changes nothing; never submits |
| QuestionCard.CommitGuard.Click | src/components/question-card.tsx:66-86 | nothing once an answer is in or submitted; otherwise submits the option only if nothing was pressed or it is the first-pressed one, recording it as committed |
| QuestionCard.CommitGuard.Focus | src/components/question-card.tsx:89-101 | submits the focused option only when nothing was pressed, submitted or answered |
| QuestionCard.CommitGuard.ButtonClickCapture | src/components/question-card.tsx:182-202 | same decision as the click handler: only the first-pressed option, or any option when nothing was pressed |
| QuestionCard.CommitGuard.ContainerClickCapture | src/components/question-card.tsx:136-156 | a click inside an option button submits that option unless already submitted or answered, keeping an earlier pending index |
| QuestionCard.CommitGuard.DispatchClick | src/components/question-card.tsx:136-203 | a click as the browser delivers it submits the clicked option unless already submitted or answered; at most one callback call in all |
| QuestionCard.CommitGuard.DispatchFocus | src/components/question-card.tsx:175-204 | focus as the browser delivers it never calls the answer callback; it presses the option when nothing was pressed and no answer is in, and otherwise changes nothing |
| QuestionCard.Classify | src/components/question-card.tsx:103-122 | before an answer: pressed iff the local, pending or committed index names the option, otherwise idle; after: chosen-correct, chosen-wrong, missed-correct or dimmed, each iff its condition |
| QuestionCard.ButtonClass | src/components/question-card.tsx:103-122 | before an answer the pressed class iff the local, pending or committed index names the option, the hover class otherwise; after one each of the four class strings iff its condition |
| QuestionCard.ClassNamesAreDistinct | src/components/question-card.tsx:109-121 | the six class strings are pairwise different |
| QuestionCard.AnsweredCardMarksCorrectOption | src/components/question-card.tsx:114-121 | after an answer exactly the correct option is green, and an option is red iff it is the chosen wrong one |
| QuestionCard.Feedback | src/components/question-card.tsx:228-240 | no feedback before an answer; "Correct!" iff the answer is the correct index; "Incorrect!" otherwise |
| QuestionCard.FeedbackAgreesWithScore | src/components/question-card.tsx:228-240 | after an answer the feedback reads "Correct!" iff the answer earned a point |
| QuestionCard.RapidClicks | tests/edge-cases.spec.ts:10-32 | clicks on the first option and then on the other three call the callback once, with 0, and only option 0 looks pressed |
| QuestionCard.PressOneClickAnother | src/components/question-card.tsx:136-156 | press on option 1 then click on option 2 submits 2, and both look pressed until the answer arrives |
| App.Controller.constructor | src/App.tsx:14-21 | the controller starts in the mounted state with the given questions and initial time |
| App.Controller.HandleStart | src/App.tsx:41-57 | the new state is the start timeout's result for the captured game state |
| App.Controller.HandleRestart | src/App.tsx:59-67 | the new state is the mounted state |
| App.Controller.HandleAnswer | src/App.tsx:69-87 | the new state is the answer handler's result; it schedules no advance after the early return, and otherwise one advance with the current index |
| App.Controller.Advance | src/App.tsx:79-86 | the new state is the advance's result for the captured index |
| App.Controller.Tick | src/App.tsx:25-39 | the new state is one interval firing's result |
| App.AnswerThenAdvance | src/App.tsx:69-87 | an answer followed by the advance it scheduled, with the index captured at the answer |
| App.ClickOption | src/App.tsx:96-102 | a click through the card answers with the clicked option exactly when neither parent nor card has an answer yet; it then marks the card submitted with that index and schedules the advance for the question on screen; otherwise nothing changes |
| App.PlayQuiz | tests/data-validation.spec.ts:58-105 | answering every question in turn, each advance in between, ends the game on the last question with one point per correct answer |
| App.AllCorrect | tests/data-validation.spec.ts:66-104 | answers 0,1,1,0,0 against correct 0,1,1,0,0 end the game with score 5 |
| App.MixedAnswers | tests/data-validation.spec.ts:116-144 | answers 0,0,1,1,0 end the game with score 3 |
| App.AllWrong | src/App.tsx:73-77 | answers 1,0,0,1,1 end the game with score 0 |
| App.RapidAnswerClicks | tests/edge-cases.spec.ts:10-42 | a click on option 0 and then on the other three give one answer (0) and one point, and the advance shows the second question |
| App.RestartAfterFullQuiz | tests/game-state.spec.ts:10-43 | five first-option answers end the game with three points; restart then shows the start screen, not the first question TC008 expects |
| App.RestartAfterGame | src/App.tsx:28-67 | time running out mid-feedback ends the game; restart gives the start screen with everything reset; start gives a fresh first question |

## Left out

- Rendering and layout of both components, the answer icons, and `src/components/timer.tsx` (a colour threshold): presentation only.
- Real time: the 100 ms start delay, the 1500 ms advance delay and the one-second interval are method calls whose order the caller picks.
- The `isStarting` flag: it is set but never read as a guard.
- `TEST_MODE` and the environment read: the initial time is a constructor parameter. It must be positive, as both source values (5 and 30) are.
- Direct DOM class changes, `btnRefs`, the `closest`/`findIndex` lookup (replaced by the clicked option's index, negative when none), `stopPropagation` and logging: browser side effects.
- React's asynchronous state: `localSelected` is updated at once, like the refs.
- What happens once the index is past the end of the list while playing. The component passes an undefined question to the card, whose render fails before any answer can arrive. The model does not render: `Run` still accepts ticks, advances and starts in that state, and stops with `None` only at the next answer, whose lookup is a precondition.
- Unscheduled advances: `Run` itself accepts any advance. `FiresScheduled` picks out the runs whose advances were all scheduled by an earlier answer, and the index bound `ScheduledAdvancesStayInRange` is stated for those.
- Start clicks: `Run` lets a start timeout carry any captured game state, although the start button is shown only on the start screen.
- The question texts of `src/data/questions.ts`, which is not part of this model. The sample quiz has only the correct indices 0, 1, 1, 0, 0 that the tests name.
- QuizSession.AdvanceKeepsIndexInRange: the bound `currentQuestion <= len-1` is proved only for advances that fire for the question on screen, because a stale advance breaks it.
