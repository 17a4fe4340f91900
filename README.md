# Mobile-Quiz: verified model of the quiz screen's logic

The app is a trivia quiz with three screens: welcome, quiz and score. Nearly
all of it is presentation. The quiz screen holds the only logic, and this
project models it in two parts.

- **Quiz progression** (`QuizProgress`, in `quiz_progress.dfy`). The screen
  keeps a current question index and a score, both starting at 0. Its
  answer handler compares the selected option text with the current
  question's `answer`, using exact string equality. On a match it adds one
  to the score. It then moves to the next question, or, on the last
  question, finishes and hands `(score, totalQuestions)` to the score
  screen. The class `QuizScreen` carries the two fields, and its method
  `HandleAnswer` updates them. The pure function `Next` gives the same step
  on values, and `Play` drives `Next` from the starting state over a
  sequence of answers. The lemmas about the step and the run are stated
  over these two functions.
- **Option rows** (`OptionRows`, in `option_rows.dfy`). The screen lays the
  current question's options out in rows of at most two, using a loop with a
  `row` accumulator. `GroupRows` is that loop, and it is proved equal to the
  reference function `Chunks`. The lemmas about `Chunks` give the layout's
  laws: joining the rows yields the options back, the shape of each row,
  the number of rows, and the position of each option.
  `QuizScreen.RenderOptions` applies the loop to the options of the current
  question.

The question bank is a parameter with at least one question. Each question
is a record `(question, options, answer)`.

Where a natural reading of the quiz and the code differ, the model follows
the code:

- **Stale final score.** When the quiz finishes, the reported score is the
  score from before the last answer was judged. The handler only schedules
  the score update, then builds the result from the value it rendered with
  (App.js:31 vs App.js:39). The score field is still updated.
  - `PlayToEnd` proves that the reported score ignores the last answer.
  - `FinalAnswerNotReported` proves that a correct answer to a one-question
    quiz reports 0 out of 1.
  - `TwoQuestionRuns` proves that "wrong, then right" on two questions
    reports 0 out of 2, although one question was answered correctly.
- **No terminal state or guard.** The index never moves past the last
  question. Nothing rejects an answer submitted after the quiz has
  finished, and the model raises no error for it. Such an answer re-judges
  the last question and finishes again (`PlayPastEnd`).
- **No bank validation.** The code never checks that `answer` is one of the
  `options`. A selection that matches no answer is simply wrong.

## Model

| member | source | states |
|---|---|---|
| QuizProgress.Next | App.js:28-41 | one answer step keeps the question index inside the bank |
| QuizProgress.NextLaws | App.js:29-39 | an exact match raises the score by exactly 1 and anything else leaves it unchanged; with a next question the index advances by 1 whatever the answer and the step continues; on the last question the index stays and the step finishes with the pre-step score and the bank size as total |
| QuizProgress.InitialConsistent | App.js:24-25 | the starting state (0, 0) satisfies index < bank size and score <= index |
| QuizProgress.ContinuePreservesConsistent | App.js:29-36 | every step that does not finish preserves index < bank size and score <= index |
| QuizProgress.Play | App.js:24-41 | any run of answers from the starting state ends with the index inside the bank and yields one outcome per answer |
| QuizProgress.PlayBeforeEnd | App.js:24-36 | after k answers that do not finish the quiz, the index is k, the score is the number of answers that matched their question, every step continued, and score <= index |
| QuizProgress.PlayToEnd | App.js:29-39 | answering every question in order: all answers but the last continue; the last finishes with total = bank size and a reported score counting only the first n-1 answers (so at most n-1); the index stays on the last question; the state's score counts all n answers |
| QuizProgress.PlayPastEnd | App.js:28-41 | for at least as many answers as questions: the index stays on the last question; the score counts the matches among the first n-1 answers plus every later answer equal to the last question's answer; the latest answer finishes with total = bank size and the score as it stood before that answer |
| QuizProgress.RepeatedFinalAnswer | App.js:28-41 | a one-question quiz answered correctly twice reports 0 of 1, then 1 of 1, and leaves the state's score at 2 |
| QuizProgress.FinalAnswerNotReported | App.js:31-39 | a one-question quiz answered correctly reports 0 out of 1, while the state's score becomes 1 |
| QuizProgress.TwoQuestionRuns | App.js:28-41 | two questions: right then wrong reports 1 of 2, and wrong then right reports 0 of 2 |
| QuizProgress.QuizScreen.constructor | App.js:24-25 | the screen starts on question 0 with score 0 |
| QuizProgress.QuizScreen.HandleAnswer | App.js:28-41 | the new score is the old score plus 1 exactly on an exact match; the index advances by 1 and the method returns Continue while a next question exists; otherwise the index is unchanged and the method returns Finished(old score, bank size); returned outcome and new fields equal Next of the old fields |
| QuizProgress.QuizScreen.RenderOptions | App.js:43-65 | the rows for the current question are its options in rows of two, and joining them gives the options back |
| OptionRows.Chunks | App.js:54-63 | the layout always has at least one row |
| OptionRows.FlattenChunks | App.js:56-63 | joining the rows in order gives the options exactly: nothing dropped, duplicated or reordered |
| OptionRows.ChunksShape | App.js:56-63 | every row but the last has exactly 2 elements; no options give exactly one empty row; for n > 0 options the last row has 1 or 2 elements and there are ceil(n/2) rows |
| OptionRows.ChunksAt | App.js:56-62 | option i sits in row i/2 at column i mod 2 |
| OptionRows.ChunksSnoc | App.js:57-61 | one more option starts a new row after an even, non-zero count and otherwise joins the last row |
| OptionRows.GroupRows | App.js:54-63 | the accumulator loop (flush at even indices after the first, one final push) builds exactly the reference layout Chunks |

## Left out

- Rendering is not modelled: JSX elements, `StyleSheet` styles and the touchable, text and view components (App.js:10-20, 43-52, 76-90, 96-115, 130-243). The option rows are modelled over generic elements instead of rendered buttons.
- Navigation is not modelled: the navigation container, the stack navigator, `navigation.navigate` and `route.params`. The navigator belongs to a library. The model keeps only the `Finished(score, total)` payload that the handler passes on.
- Restarting from the welcome screen is not modelled. Whether the quiz state resets depends on whether the navigator unmounts the quiz screen, which is library behaviour.
- The "Phone a Friend" modal and its `showPopup` flag (App.js:26, 68-74, 83-88) are not modelled. They touch no quiz state.
- The contents of `quizData.json` are not shown in the source. The bank is a parameter with at least one question.
- React's asynchronous state batching is not modelled, and neither are races between rapid repeated taps. Each handler call is one atomic step that sees the state left by the previous call. Within a call, the finish branch reads the pre-update score, as the closure in the code does.
