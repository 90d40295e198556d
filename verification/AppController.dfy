/** The top-level view controller (App.tsx): which screen is up, and the
    loading / error / payload state around the one call to the AI service.
    The asynchronous `handleGenerateQuiz` is split into `BeginGenerate`
    (everything before the `await`) and `FinishGenerate` (everything after),
    with the service's settled outcome passed in. */
module AppController {
  import opened Types

  datatype View = Landing | QuizView | Pomodoro

  /** What a rejected promise carried: an `Error` with its message, or any
      other thrown value. */
  datatype Thrown = ErrorValue(message: string) | OtherValue

  /** How the awaited service call settled. */
  datatype Outcome = Resolved(data: QuizData) | Rejected(reason: Thrown)

  const ValidationMessage: string := "Please tell me how you're feeling about your lesson."
  const UnknownErrorMessage: string := "An unknown error occurred."
  const ServiceFailureMessage: string :=
    "Failed to generate the quiz. The AI might be busy, please try again."

  datatype AppState = AppState(
    view: View,
    isLoading: bool,
    error: Option<string>,
    quizData: Option<QuizData>)

  /** The state on mount. */
  function Initial(): (a: AppState)
    ensures a.view == Landing && !a.isLoading && a.error.None? && a.quizData.None?
  {
    AppState(Landing, false, None, None)
  }

  // ---------------------------------------------------------------------
  // The service boundary (services/geminiService.ts)
  // ---------------------------------------------------------------------

  /** `analyzeAndCreateQuiz` after the network call: `response` is the parsed
      reply, `None` when the request or the parse failed. A reply without
      questions is refused, and every failure is reported as one fixed
      `Error`. */
  function AnalyzeResponse(response: Option<QuizData>): (o: Outcome)
    ensures o.Resolved? <==> response.Some? && |response.value.questions| > 0
    ensures o.Resolved? ==> response == Some(o.data)
    ensures o.Rejected? ==> o.reason == ErrorValue(ServiceFailureMessage)
  {
    match response
    case None => Rejected(ErrorValue(ServiceFailureMessage))
    case Some(data) =>
      if |data.questions| == 0 then Rejected(ErrorValue(ServiceFailureMessage))
      else Resolved(data)
  }

  // ---------------------------------------------------------------------
  // Input validation: `userInput.trim()` is empty
  // ---------------------------------------------------------------------

  /** ECMAScript white space and line terminators, the characters `trim`
      removes: TAB, VT, FF, ZWNBSP, the space separators (category Zs), LF,
      CR, LS and PS. */
  predicate IsTrimmable(c: char) {
    || c == '\t' || c == '\n' || c == '\U{000B}' || c == '\U{000C}' || c == '\r'
    || c == ' ' || c == '\U{00A0}' || c == '\U{1680}'
    || ('\U{2000}' <= c <= '\U{200A}')
    || c == '\U{2028}' || c == '\U{2029}' || c == '\U{202F}' || c == '\U{205F}'
    || c == '\U{3000}' || c == '\U{FEFF}'
  }

  /** `String.prototype.trim`: drop trimmable characters at both ends. */
  function Trim(s: string): (r: string)
    ensures |r| <= |s|
    ensures r != [] ==> !IsTrimmable(r[0]) && !IsTrimmable(r[|r| - 1])
    decreases |s|
  {
    if s == [] then s
    else if IsTrimmable(s[0]) then Trim(s[1..])
    else if IsTrimmable(s[|s| - 1]) then Trim(s[..|s| - 1])
    else s
  }

  /** Every character of `s` is white space. */
  predicate IsBlank(s: string) {
    forall i :: 0 <= i < |s| ==> IsTrimmable(s[i])
  }

  /** Trimming leaves nothing exactly when the input is all white space. */
  lemma {:induction false} TrimEmptyIffBlank(s: string)
    ensures Trim(s) == [] <==> IsBlank(s)
    decreases |s|
  {
    if s != [] {
      if IsTrimmable(s[0]) {
        TrimEmptyIffBlank(s[1..]);
        assert IsBlank(s) <==> IsBlank(s[1..]) by {
          if IsBlank(s[1..]) {
            forall i | 0 <= i < |s| ensures IsTrimmable(s[i]) {
              if i > 0 { assert s[i] == s[1..][i - 1]; }
            }
          }
        }
      } else {
        assert !IsTrimmable(s[0]);
        if IsTrimmable(s[|s| - 1]) {
          TrimEmptyIffBlank(s[..|s| - 1]);
          assert !IsBlank(s[..|s| - 1]) by { assert s[..|s| - 1][0] == s[0]; }
        }
      }
    }
  }

  // ---------------------------------------------------------------------
  // Transitions
  // ---------------------------------------------------------------------

  /** `handleGenerateQuiz` up to the `await`. Blank input only sets the
      validation message and starts nothing; otherwise the request starts
      with the loader on and the old error and payload cleared. The boolean
      says whether the service was called. */
  function BeginGenerate(a: AppState, userInput: string): (r: (AppState, bool))
    ensures !r.1 <==> Trim(userInput) == []
    ensures !r.1 ==> r.0 == a.(error := Some(ValidationMessage))
    ensures r.1 ==> r.0.isLoading && r.0.error.None? && r.0.quizData.None?
    ensures r.0.view == a.view
  {
    if Trim(userInput) == [] then (a.(error := Some(ValidationMessage)), false)
    else (a.(isLoading := true, error := None, quizData := None), true)
  }

  /** The message shown for a rejection: an `Error`'s own message, or a
      generic one for anything else thrown. */
  function ErrorMessage(reason: Thrown): string {
    match reason
    case ErrorValue(message) => message
    case OtherValue => UnknownErrorMessage
  }

  /** `handleGenerateQuiz` after the `await`: store the payload or the error
      message, and turn the loader off in every case. */
  function FinishGenerate(a: AppState, outcome: Outcome): (r: AppState)
    ensures !r.isLoading && r.view == a.view
    ensures outcome.Resolved? ==> r.quizData == Some(outcome.data) && r.error == a.error
    ensures outcome.Rejected? ==> r.error == Some(ErrorMessage(outcome.reason)) && r.quizData == a.quizData
  {
    match outcome
    case Resolved(data) => a.(quizData := Some(data), isLoading := false)
    case Rejected(reason) => a.(error := Some(ErrorMessage(reason)), isLoading := false)
  }

  /** `handleResetQuiz` ("Try Again" and "Start a New Topic"). */
  function ResetQuiz(a: AppState): (r: AppState)
    ensures r.quizData.None? && r.error.None? && !r.isLoading
    ensures r.view == a.view
  {
    a.(quizData := None, error := None, isLoading := false)
  }

  /** `handleGoHome`: back to the landing page with everything cleared,
      whatever came before. */
  function GoHome(a: AppState): (r: AppState)
    ensures r == Initial()
  {
    AppState(Landing, false, None, None)
  }

  /** The landing page's start button, and the header's navigation buttons. */
  function SetView(a: AppState, v: View): (r: AppState)
    ensures r.view == v
    ensures r.isLoading == a.isLoading && r.error == a.error && r.quizData == a.quizData
  {
    a.(view := v)
  }

  // ---------------------------------------------------------------------
  // Rendering decisions
  // ---------------------------------------------------------------------

  /** JavaScript truthiness of the error slot: `null` and `""` are falsy. */
  predicate Shows(error: Option<string>) {
    error.Some? && error.value != ""
  }

  /** The panel inside the quiz card. */
  datatype QuizPanel = Loader | ErrorPanel(message: string) | QuizShown(data: QuizData) | InputForm

  /** `renderQuizContent`: loading first, then an error, then a payload,
      and the input form when there is none of them. */
  function RenderQuizContent(a: AppState): (p: QuizPanel)
    ensures p.Loader? <==> a.isLoading
    ensures p.ErrorPanel? <==> !a.isLoading && Shows(a.error)
    ensures p.QuizShown? <==> !a.isLoading && !Shows(a.error) && a.quizData.Some?
    ensures p.InputForm? <==> !a.isLoading && !Shows(a.error) && a.quizData.None?
    ensures p.ErrorPanel? ==> Some(p.message) == a.error
    ensures p.QuizShown? ==> Some(p.data) == a.quizData
  {
    if a.isLoading then Loader
    else if Shows(a.error) then ErrorPanel(a.error.value)
    else if a.quizData.Some? then QuizShown(a.quizData.value)
    else InputForm
  }

  /** What fills the main area. */
  datatype MainPanel = LandingPage | QuizCard(content: QuizPanel) | PomodoroClock

  /** `renderMainContent`. */
  function RenderMainContent(a: AppState): (p: MainPanel)
    ensures p.LandingPage? <==> a.view == Landing
    ensures p.QuizCard? <==> a.view == QuizView
    ensures p.QuizCard? ==> p.content == RenderQuizContent(a)
  {
    match a.view
    case Landing => LandingPage
    case QuizView => QuizCard(RenderQuizContent(a))
    case Pomodoro => PomodoroClock
  }

  /** The view as the string tag the source switches on. */
  function ViewTag(v: View): string {
    match v
    case Landing => "landing"
    case QuizView => "quiz"
    case Pomodoro => "pomodoro"
  }

  /** The `switch` read from its tag: the three known tags select their
      view, and the `default` branch sends anything else to the landing page. */
  function ViewOfTag(tag: string): (v: View)
    ensures tag != "quiz" && tag != "pomodoro" ==> v == Landing
  {
    if tag == "quiz" then QuizView
    else if tag == "pomodoro" then Pomodoro
    else Landing
  }

  lemma ViewTagRoundTrip(v: View)
    ensures ViewOfTag(ViewTag(v)) == v
  {
  }

  // ---------------------------------------------------------------------
  // Properties across transitions
  // ---------------------------------------------------------------------

  /** "Get Started" on a fresh app opens the quiz card on the input form. */
  lemma StartShowsInputForm()
    ensures RenderMainContent(Initial()) == LandingPage
    ensures RenderMainContent(SetView(Initial(), QuizView)) == QuizCard(InputForm)
  {
  }

  /** Submitting non-blank text puts the loader up. */
  lemma BeginShowsLoader(a: AppState, userInput: string)
    requires !IsBlank(userInput)
    ensures BeginGenerate(a, userInput).1
    ensures RenderQuizContent(BeginGenerate(a, userInput).0) == Loader
  {
    TrimEmptyIffBlank(userInput);
  }

  /** Submitting blank text from the input form shows the validation message
      in place of the form; nothing else changes. */
  lemma BlankInputShowsValidation(a: AppState, userInput: string)
    requires RenderQuizContent(a) == InputForm && IsBlank(userInput)
    ensures !BeginGenerate(a, userInput).1
    ensures RenderQuizContent(BeginGenerate(a, userInput).0) == ErrorPanel(ValidationMessage)
    ensures BeginGenerate(a, userInput).0.isLoading == a.isLoading
    ensures BeginGenerate(a, userInput).0.quizData == a.quizData
  {
    TrimEmptyIffBlank(userInput);
  }

  /** A started request that succeeds shows the quiz with no error; one that
      fails shows the failure with no quiz (unless the message is empty,
      which is falsy and brings the input form back). */
  lemma GenerateThenFinish(a: AppState, userInput: string, outcome: Outcome)
    requires !IsBlank(userInput)
    ensures var r := FinishGenerate(BeginGenerate(a, userInput).0, outcome);
      && !r.isLoading
      && (outcome.Resolved? ==> r.error.None? && r.quizData == Some(outcome.data)
                                && RenderQuizContent(r) == QuizShown(outcome.data))
      && (outcome.Rejected? ==> r.quizData.None? && r.error == Some(ErrorMessage(outcome.reason)))
      && (outcome.Rejected? && ErrorMessage(outcome.reason) != "" ==>
            RenderQuizContent(r) == ErrorPanel(ErrorMessage(outcome.reason)))
  {
    TrimEmptyIffBlank(userInput);
  }

  /** Every failure the service reports reaches the screen as its fixed
      message. */
  lemma ServiceFailureShown(a: AppState, userInput: string, response: Option<QuizData>)
    requires !IsBlank(userInput) && AnalyzeResponse(response).Rejected?
    ensures RenderQuizContent(FinishGenerate(BeginGenerate(a, userInput).0, AnalyzeResponse(response)))
              == ErrorPanel(ServiceFailureMessage)
  {
    TrimEmptyIffBlank(userInput);
  }

  /** The request is never cancelled: going home while it is pending clears
      the screen, but a late success still lands in the state and is shown
      the next time the quiz view is opened. */
  lemma NoCancellation(a: AppState, userInput: string, data: QuizData)
    requires !IsBlank(userInput)
    ensures var r := FinishGenerate(GoHome(BeginGenerate(a, userInput).0), Resolved(data));
      && r.view == Landing
      && RenderMainContent(SetView(r, QuizView)) == QuizCard(QuizShown(data))
  {
  }

  /** "Try Again" always brings the input form back. */
  lemma ResetShowsInputForm(a: AppState)
    ensures RenderQuizContent(ResetQuiz(a)) == InputForm
  {
  }

  /** A payload in the state always has questions, when every outcome comes
      through the service's validation: the quiz never starts empty. */
  predicate HasQuestions(a: AppState) {
    a.quizData.Some? ==> |a.quizData.value.questions| > 0
  }

  /** Everything a user or the service can do to the controller. */
  datatype Event =
    | Submit(userInput: string)
    | Settle(response: Option<QuizData>)
    | TryAgain
    | Home
    | Navigate(view: View)

  function Apply(a: AppState, e: Event): AppState {
    match e
    case Submit(userInput) => BeginGenerate(a, userInput).0
    case Settle(response) => FinishGenerate(a, AnalyzeResponse(response))
    case TryAgain => ResetQuiz(a)
    case Home => GoHome(a)
    case Navigate(v) => SetView(a, v)
  }

  function Run(a: AppState, events: seq<Event>): AppState
    decreases |events|
  {
    if events == [] then a else Run(Apply(a, events[0]), events[1..])
  }

  lemma {:induction false} RunHasQuestions(a: AppState, events: seq<Event>)
    requires HasQuestions(a)
    ensures HasQuestions(Run(a, events))
    decreases |events|
  {
    if events != [] {
      RunHasQuestions(Apply(a, events[0]), events[1..]);
    }
  }

  /** From mount, whatever happens, a quiz on screen has questions. */
  lemma ReachableQuizHasQuestions(events: seq<Event>)
    ensures var a := Run(Initial(), events);
      RenderQuizContent(a).QuizShown? ==> |RenderQuizContent(a).data.questions| > 0
  {
    RunHasQuestions(Initial(), events);
  }
}
