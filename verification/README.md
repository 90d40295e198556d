# AI learning companion — state machines in Dafny

This project models the three small state machines at the heart of a
browser app. In the app, a student describes how they feel about a topic,
an AI service turns that into a multiple-choice quiz, and the student works
through it. A separate focus timer alternates 25-minute work intervals with
5-minute breaks and keeps a log of finished intervals.

Each machine is taken out of its React component. It becomes an immutable
record with pure transition functions. Anything external is passed in as a
parameter:

- the AI service's settled outcome,
- the wall-clock label of a finished interval,
- the stored history text and its parser.

Modules:

- `Types` (types.ts): the quiz payload (`QuizQuestion`, `QuizData`) and an
  `Option` type for `T | null`.
- `ClockFormat` (`formatTimeFromSeconds` in components/PomodoroClock.tsx):
  the `MM:SS` rendering and an inverse parser. Together they show the
  rendering is a bijection on [0, 6000).
- `Pomodoro` (components/PomodoroClock.tsx): the timer record (mode,
  seconds left, running flag, newest-first log), the countdown effect as a
  discrete `Step`, and toggle, reset, clear and history loading.
- `QuizSession` (components/Quiz.tsx): answer selection, advancing, the
  button classification and the feedback line. It also has a reference
  count of correct answers that a whole play-through's score is proved
  equal to.
- `AppController` (App.tsx, with the validation step of
  services/geminiService.ts): the view switch, input validation through a
  model of JavaScript's `trim`, `handleGenerateQuiz` split into a begin and
  a finish transition, reset, go-home, and the priority order of the
  panels.
- `QuizScreen` (App.tsx with components/Quiz.tsx inside it): the controller
  and the session of the mounted `Quiz` together, with React's rule that a
  component keeps its state while it stays mounted.

Behaviour worth knowing, as the code does it:

- `if (error)` is JavaScript truthiness, so an empty error message shows the
  input form rather than the error panel. `Shows` models this.
- A stored history of `""` is falsy and is never parsed.
- The pending AI request is never cancelled. Going home while it runs clears
  the screen, but a late success still lands in `quizData` (`NoCancellation`).
- `Quiz` is rendered without a `key`. A payload that replaces another while
  the quiz is on screen reaches the old session, index and score included
  (see "## Findings").
- `handleNext` does not check that the question was answered. Only the page
  keeps it out of reach, by rendering the button after an answer. So
  `HandleNext` is total, and the guard lives in `QuizSession.Enabled`.

## Model

| member | source | states |
|---|---|---|
| `ClockFormat.Decimal` | components/PomodoroClock.tsx:16 | `String(n)` of a non-negative integer: at least one digit, all digits, no leading zero, at most two digits exactly below 100 |
| `ClockFormat.PadStart2` | components/PomodoroClock.tsx:16 | `padStart(2, '0')`: length is max(len, 2), the input is the suffix, and everything before it is `'0'` |
| `ClockFormat.FormatTime` | components/PomodoroClock.tsx:13-17 | the rendering is digits, a colon three from the end, then two digits; it is exactly five characters iff the seconds are below 6000 |
| `ClockFormat.FormatTimeRoundTrip` | components/PomodoroClock.tsx:13-17 | parsing the rendering (minutes * 60 + seconds) gives back the original number of seconds, for every non-negative input |
| `ClockFormat.FormatTimeShape` | components/PomodoroClock.tsx:13-17 | below 6000 seconds the rendering is `MM:SS`: five characters, `':'` at index 2, SS below 60, and MM*60+SS is the input |
| `ClockFormat.ParseClockThenFormat` | components/PomodoroClock.tsx:13-17 | every five-character string the parser accepts is the rendering of its parsed value, so rendering is a bijection from [0, 6000) to those strings |
| `Pomodoro.WorkLabel` | components/PomodoroClock.tsx:3 | the focus length (1500 s) renders as "25:00" |
| `Pomodoro.BreakLabel` | components/PomodoroClock.tsx:4 | the break length (300 s) renders as "05:00" |
| `Pomodoro.LoadHistory` | components/PomodoroClock.tsx:27-35 | an absent or empty stored value, or one that fails to parse, gives an empty log. A non-empty stored value that parses gives exactly the parsed log, and a non-empty log can only come that way |
| `Pomodoro.LoadAfterSave` | components/PomodoroClock.tsx:27-45 | when the saved text is non-empty and parses back to the log, the log saved is the log loaded |
| `Pomodoro.Initial` | components/PomodoroClock.tsx:20-35 | the mounted timer is a stopped focus interval at 1500 s, within bounds, and its log is the one loaded from storage (empty when nothing was stored) |
| `Pomodoro.Tick` | components/PomodoroClock.tsx:50-53 | one second of a running countdown lowers the counter by exactly one; mode, running flag and log are unchanged |
| `Pomodoro.Complete` | components/PomodoroClock.tsx:54-75 | finishing an interval prepends exactly one entry (Focus iff the mode was work, duration = the old mode's length as `MM:SS`, the given time). It also flips the mode, refills the counter to the new mode's length and stops the timer |
| `Pomodoro.Step` | components/PomodoroClock.tsx:47-82 | one run of the effect: a tick while running with time left, completion while running at zero, otherwise no change |
| `Pomodoro.Toggle` | components/PomodoroClock.tsx:84-86 | Start/Pause flips only the running flag |
| `Pomodoro.ToggleTwice` | components/PomodoroClock.tsx:84-86 | pressing Start/Pause twice restores the timer |
| `Pomodoro.Reset` | components/PomodoroClock.tsx:88-92 | from any state: work mode, stopped, 1500 s left, log untouched |
| `Pomodoro.ClearHistory` | components/PomodoroClock.tsx:94-96 | the log becomes empty and nothing else changes |
| `Pomodoro.ResetAndClearIdempotent` | components/PomodoroClock.tsx:88-96 | resetting or clearing a second time changes nothing |
| `Pomodoro.Elapsed` | components/PomodoroClock.tsx:100-103 | the progress numerator (length − remaining) lies in [0, length] and is 0 exactly at a full counter |
| `Pomodoro.ApplyPreservesValid` | components/PomodoroClock.tsx:47-96 | every transition keeps 0 ≤ remaining ≤ length of the current mode |
| `Pomodoro.RunPreservesValid` | components/PomodoroClock.tsx:47-96 | any sequence of seconds and button presses keeps that bound |
| `Pomodoro.ReachableValid` | components/PomodoroClock.tsx:20-23 | every state reachable from mount satisfies the bound |
| `Pomodoro.ApplyKeepsHistorySuffix` | components/PomodoroClock.tsx:63 | the log is newest-first: after any event the old log is a suffix of the new one, or the log was cleared; it grows by at most one entry |
| `Pomodoro.SecondsCountDown` | components/PomodoroClock.tsx:50-53 | n seconds of a running timer with at least n left only lower the counter by n |
| `Pomodoro.StoppedIgnoresSeconds` | components/PomodoroClock.tsx:50-54 | a stopped timer ignores any number of seconds |
| `Pomodoro.FullFocusInterval` | components/PomodoroClock.tsx:50-74 | from a running 1500 s focus interval, 1501 or more steps log exactly one Focus "25:00" entry and leave a stopped 300 s break |
| `QuizSession.Start` | components/Quiz.tsx:11-15 | a session starts on question 0, with no answer, unanswered, score 0 and no results |
| `QuizSession.SelectAnswer` | components/Quiz.tsx:19-27 | answered: no change at all. Unanswered: records the option and locks the question. Score rises by one iff the option equals the correct answer exactly, and is unchanged otherwise |
| `QuizSession.SelectIdempotent` | components/Quiz.tsx:20 | a second selection before advancing changes nothing |
| `QuizSession.HandleNext` | components/Quiz.tsx:29-37 | before the last question: next index, answer cleared, unlocked. On the last question: results only. Score kept |
| `QuizSession.StartInv` | components/Quiz.tsx:11-17 | with a non-empty question list the fresh session satisfies the invariant (index in range, answer recorded iff locked, score ≤ index + answered) |
| `QuizSession.SelectAnswerInv` | components/Quiz.tsx:19-27 | selection keeps the invariant and never lowers the score |
| `QuizSession.HandleNextInv` | components/Quiz.tsx:29-37 | advancing keeps the invariant |
| `QuizSession.ResultsScoreBound` | components/Quiz.tsx:56 | the reported score never exceeds the number of questions |
| `QuizSession.Perform` | components/Quiz.tsx:85-109 | a click on the page keeps the index inside the question list |
| `QuizSession.PerformUiInv` | components/Quiz.tsx:85-109 | an enabled click (an option of the current question while unanswered, or next once answered) keeps the recorded answer among the current options, keeps the invariant, and never lowers the score |
| `QuizSession.PlayUiInv` | components/Quiz.tsx:85-109 | any sequence of enabled clicks keeps that invariant and never lowers the score |
| `QuizSession.CountCorrect` | components/Quiz.tsx:24-25 | reference count of answers equal to their question's correct answer: at most the number of answers, and equal to it iff all are correct |
| `QuizSession.TakeQuizScores` | components/Quiz.tsx:19-37 | answering every remaining question in turn ends on the results page at the last question, with one point added per correct answer |
| `QuizSession.CompleteQuiz` | components/Quiz.tsx:19-37 | N answers and N advances on an N-question quiz show results with score = number of correct answers ≤ N |
| `QuizSession.ButtonClass` | components/Quiz.tsx:39-50 | unanswered iff the open style. Marked right iff answered and the option is the correct answer. Marked wrong iff answered, incorrect and the selected option. Anything else is dimmed |
| `QuizSession.OptionStyles` | components/Quiz.tsx:84-95 | one style per option of the current question, in order |
| `QuizSession.WrongButtonMarksMistake` | components/Quiz.tsx:39-50 | after answering on the page, some button is marked wrong iff the answer was wrong, and with distinct options at most one is |
| `QuizSession.FeedbackMatchesScore` | components/Quiz.tsx:100 | after an answer, "Correct!" is shown iff that answer raised the score |
| `AppController.Initial` | App.tsx:16-19 | the app mounts on the landing view with no loader, error or payload |
| `AppController.AnalyzeResponse` | services/geminiService.ts:73-85 | the service resolves iff it got a reply with at least one question, resolving to that reply; every failure rejects with one fixed `Error` message |
| `AppController.Trim` | App.tsx:22 | `trim()` never lengthens the text, and a non-empty result starts and ends with a non-white-space character |
| `AppController.TrimEmptyIffBlank` | App.tsx:22 | the trimmed input is empty iff every character is ECMAScript white space or a line terminator |
| `AppController.BeginGenerate` | App.tsx:21-28 | blank input sets only the validation message and starts no request. Other input starts the request with the loader on and the error and payload cleared. The view is kept |
| `AppController.FinishGenerate` | App.tsx:29-40 | the loader is always off; success stores the payload and keeps the error; failure stores the error's message (or the generic one) and keeps the payload |
| `AppController.ResetQuiz` | App.tsx:43-47 | payload, error and loader cleared; view unchanged |
| `AppController.GoHome` | App.tsx:49-54 | from any state, the result is the mount state: landing with nothing loaded |
| `AppController.SetView` | App.tsx:88 | changes only the view |
| `AppController.RenderQuizContent` | App.tsx:56-83 | strict priority: loader iff loading, else the error panel iff a truthy error, else the quiz iff a payload, else the input form; the panel carries the state's message or payload |
| `AppController.RenderMainContent` | App.tsx:85-99 | the landing page iff the landing view, the quiz card iff the quiz view, with the quiz card holding the quiz panel |
| `AppController.ViewOfTag` | App.tsx:97-98 | any tag other than the quiz and timer tags falls back to the landing view |
| `AppController.ViewTagRoundTrip` | App.tsx:86-96 | each view's tag selects that view |
| `AppController.StartShowsInputForm` | App.tsx:85-92 | the app opens on the landing page, and its start button leads to the quiz card showing the input form |
| `AppController.BeginShowsLoader` | App.tsx:26-28 | non-blank input starts the request and shows the loader |
| `AppController.BlankInputShowsValidation` | App.tsx:22-25 | blank input from the input form shows the validation message; loading flag and payload are unchanged and no request starts |
| `AppController.GenerateThenFinish` | App.tsx:21-41 | after a started request: success gives the payload, no error and the quiz panel; failure gives the message, no payload, and the error panel when the message is non-empty |
| `AppController.ServiceFailureShown` | services/geminiService.ts:82-85 | every service failure reaches the screen as the fixed failure message |
| `AppController.NoCancellation` | App.tsx:29-40 | going home during a request does not stop a late success from being stored and shown on the next visit to the quiz view |
| `AppController.ResetShowsInputForm` | App.tsx:43-47 | after "Try Again" the input form is shown |
| `AppController.RunHasQuestions` | services/geminiService.ts:76-78 | with every outcome passed through the service's validation, a stored payload always has at least one question, after any sequence of events |
| `AppController.ReachableQuizHasQuestions` | services/geminiService.ts:76-78 | from mount, the quiz panel never shows an empty quiz |
| `QuizScreen.Remount` | App.tsx:74-80 | a `Quiz` that appears starts a fresh session. One that stays on screen with the same payload keeps its session, and so does one whose payload changes, unless it is keyed; keyed, it starts afresh |
| `QuizScreen.TwoRequestsPending` | App.tsx:21-54 | submit, go home, reopen the quiz and submit again: the quiz view shows the loader with no payload, and no quiz session has started |
| `QuizScreen.LateSettleKeepsIndex` | App.tsx:29-40 | as written, a second payload settling under a mounted quiz at question 2 is shown with the session's index 1, outside a one-question list |
| `QuizScreen.StaleResponseOverrunsSession` | components/Quiz.tsx:17 | as written, overlapping requests leave a mounted quiz whose index names no question of the payload it shows |
| `QuizScreen.KeyedLateSettleRestarts` | App.tsx:78 | with a remount per payload, the same events leave a fresh session on the second payload |
| `QuizScreen.KeyedStepInv` | components/Quiz.tsx:11-37 | with a remount per payload, every controller event and enabled click keeps each mounted quiz's session valid for its payload |
| `QuizScreen.KeyedRunInv` | components/Quiz.tsx:11-37 | the same for any sequence of events |
| `QuizScreen.KeyedQuestionInRange` | components/Quiz.tsx:17 | with a remount per payload, from page load, whatever happens, a mounted quiz's current question exists |

## Left out

- The network call, the prompt, the response schema and `JSON.parse` in
  services/geminiService.ts are external. They are reduced to an optional
  parsed reply that `AnalyzeResponse` validates.
- `localStorage` reads and writes and JSON (de)serialisation of the log are
  I/O. They are reduced to an optional stored text and a `parse` function
  parameter. `JSON.parse` returning a non-array (such as `null`) is not
  modelled.
- The `toLocaleTimeString` completion time depends on the clock and locale.
  It is an opaque string parameter.
- The notification sound is a side effect and is left out.
- The `setInterval` lifecycle and React's batching of state updates are left
  out. One second and one run of the effect are the same discrete `Step`;
  the code is single-threaded.
- The progress percentage and the SVG ring arithmetic are floating point.
  Only the integer numerator is modelled (`Elapsed`).
- Unmounting the timer when the view changes, which resets its local state,
  is left out; the timer is modelled on its own. For the quiz it is modelled
  in `QuizScreen`.
- QuizSession: its members take the question list as a parameter and do
  not promise that it stays fixed. The component does not guarantee this
  either: overlapping requests can hand a mounted session a new list and
  leave its index out of range (`QuizScreen.StaleResponseOverrunsSession`).
- components/EmotionDisplay.tsx, Header.tsx, InputForm.tsx, LandingPage.tsx,
  Loader.tsx and Footer.tsx are presentation only. Header's navigation
  buttons appear only as `SetView`.
- `ClockFormat.FormatTime` takes a non-negative number of seconds. The
  source's rendering of negative or fractional numbers never arises, because
  the counter stays within [0, length]. Its `Decimal` matches `String(n)`
  only below 10^21, where JavaScript switches to exponent notation; a
  counter never gets near that.

## Findings

| source | as written | input that shows it | evidently intended | confidence | as-written member | corrected member |
|---|---|---|---|---|---|---|
| App.tsx:29-31, App.tsx:78, components/Quiz.tsx:17 | a superseded request still stores its payload, and `Quiz` has no `key`, so a payload that replaces another while the quiz is shown keeps the old session's index and score | submit "a", Home, Get Started, submit "b"; "a" settles with 2 questions, the user answers question 1 and presses Next; "b" settles with 1 question; the index is 1 and reading `questions[1]` fails | a new payload starts a fresh quiz (a `key` per payload, or ignoring a superseded request) | medium, not executed | `QuizScreen.StaleResponseOverrunsSession` | `QuizScreen.KeyedQuestionInRange` |
