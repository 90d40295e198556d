/** The quiz screen as a whole (App.tsx with components/Quiz.tsx inside
    it): the controller's state together with the session of the `Quiz`
    component it renders. React keeps a component's state for as long as
    it stays mounted in the same place; `Quiz` is rendered without a
    `key`, so a new payload arriving while it is mounted is handed to the
    old session. `keyed` switches between that behaviour and a remount on
    every new payload. */
module QuizScreen {
  import opened Types
  import opened AppController
  import QuizSession

  datatype Screen = Screen(app: AppState, session: QuizSession.Session)

  /** The `Quiz` component is on the page. */
  predicate Mounted(a: AppState) {
    a.view == QuizView && RenderQuizContent(a).QuizShown?
  }

  /** The payload the mounted `Quiz` receives. */
  function Shown(a: AppState): (q: QuizData)
    requires Mounted(a)
    ensures a.quizData == Some(q)
  {
    a.quizData.value
  }

  /** The session after the controller moves from `before` to `after`: a
      component that appears starts afresh, one that stays keeps its state,
      and with `keyed` one whose payload changes is remounted. */
  function Remount(before: AppState, after: AppState, s: QuizSession.Session, keyed: bool)
    : (r: QuizSession.Session)
    ensures Mounted(after) && !Mounted(before) ==> r == QuizSession.Start()
    ensures Mounted(after) && Mounted(before) && before.quizData == after.quizData ==> r == s
    ensures Mounted(after) && Mounted(before) && !keyed ==> r == s
    ensures Mounted(after) && keyed && before.quizData != after.quizData ==> r == QuizSession.Start()
  {
    if !Mounted(after) then s
    else if !Mounted(before) || (keyed && before.quizData != after.quizData) then QuizSession.Start()
    else s
  }

  /** A controller event, or a click on the quiz page. */
  datatype Event = AppEvent(e: AppController.Event) | Click(action: QuizSession.Action)

  /** A click lands only on a mounted quiz whose current question exists,
      and only on a control the page offers. */
  function Step(c: Screen, e: Event, keyed: bool): Screen {
    match e
    case AppEvent(ev) =>
      var after := Apply(c.app, ev);
      Screen(after, Remount(c.app, after, c.session, keyed))
    case Click(action) =>
      if Mounted(c.app) && c.session.index < |Shown(c.app).questions|
         && QuizSession.Enabled(Shown(c.app), c.session, action)
      then c.(session := QuizSession.Perform(Shown(c.app), c.session, action))
      else c
  }

  function Run(c: Screen, events: seq<Event>, keyed: bool): Screen
    decreases |events|
  {
    if events == [] then c else Run(Step(c, events[0], keyed), events[1..], keyed)
  }

  /** The screen at page load. */
  function Load(): (c: Screen)
    ensures !Mounted(c.app)
  {
    Screen(AppController.Initial(), QuizSession.Start())
  }

  /** A mounted quiz's session fits its payload, and the controller only
      ever holds payloads with questions. */
  predicate ScreenInv(c: Screen) {
    && HasQuestions(c.app)
    && (Mounted(c.app) ==> QuizSession.UiInv(Shown(c.app), c.session))
  }

  lemma ApplyHasQuestions(a: AppState, e: AppController.Event)
    requires HasQuestions(a)
    ensures HasQuestions(Apply(a, e))
  {
    RunHasQuestions(a, [e]);
  }

  /** With a remount on every new payload, each step keeps the invariant. */
  lemma KeyedStepInv(c: Screen, e: Event)
    requires ScreenInv(c)
    ensures ScreenInv(Step(c, e, true))
  {
    match e
    case AppEvent(ev) =>
      var after := Apply(c.app, ev);
      ApplyHasQuestions(c.app, ev);
      if Mounted(after) && (!Mounted(c.app) || c.app.quizData != after.quizData) {
        QuizSession.StartInv(Shown(after));
      }
    case Click(action) =>
      if Mounted(c.app) && c.session.index < |Shown(c.app).questions|
         && QuizSession.Enabled(Shown(c.app), c.session, action) {
        QuizSession.PerformUiInv(Shown(c.app), c.session, action);
      }
  }

  lemma {:induction false} KeyedRunInv(c: Screen, events: seq<Event>)
    requires ScreenInv(c)
    ensures ScreenInv(Run(c, events, true))
    decreases |events|
  {
    if events != [] {
      KeyedStepInv(c, events[0]);
      KeyedRunInv(Step(c, events[0], true), events[1..]);
    }
  }

  /** With a remount on every new payload, whatever the user and the
      service do, a mounted quiz's current question exists. */
  lemma KeyedQuestionInRange(events: seq<Event>)
    ensures var c := Run(Load(), events, true);
      Mounted(c.app) ==> c.session.index < |Shown(c.app).questions|
  {
    KeyedRunInv(Load(), events);
  }

  /** A run over two stretches of events is the second run from where the
      first ends. */
  lemma {:induction false} RunAppend(c: Screen, xs: seq<Event>, ys: seq<Event>, keyed: bool)
    ensures Run(c, xs + ys, keyed) == Run(Run(c, xs, keyed), ys, keyed)
    decreases |xs|
  {
    if xs != [] {
      assert (xs + ys)[0] == xs[0] && (xs + ys)[1..] == xs[1..] + ys;
      RunAppend(Step(c, xs[0], keyed), xs[1..], ys, keyed);
    } else {
      assert xs + ys == ys;
    }
  }

  /** A run is its first step followed by the rest. */
  lemma RunFirst(c: Screen, events: seq<Event>, keyed: bool)
    requires events != []
    ensures Run(c, events, keyed) == Run(Step(c, events[0], keyed), events[1..], keyed)
  {
  }

  /** Submit, go home, reopen the quiz and submit again: the first request
      is still unanswered when the second goes out. */
  function TwoRequests(): seq<Event> {
    [ AppEvent(Navigate(QuizView)), AppEvent(Submit("a")), AppEvent(Home),
      AppEvent(Navigate(QuizView)), AppEvent(Submit("b")) ]
  }

  /** After those five events the quiz view shows the loader, and no `Quiz`
      has been mounted. */
  lemma TwoRequestsPending(keyed: bool)
    ensures Run(Load(), TwoRequests(), keyed)
      == Screen(AppState(QuizView, true, None, None), QuizSession.Start())
  {
    var e := TwoRequests();
    var c0 := Load();
    var c1 := Step(c0, e[0], keyed);
    assert c1 == Screen(AppState(QuizView, false, None, None), QuizSession.Start());
    var c2 := Step(c1, e[1], keyed);
    assert Trim("a") == "a";
    assert c2 == Screen(AppState(QuizView, true, None, None), QuizSession.Start());
    var c3 := Step(c2, e[2], keyed);
    assert c3 == c0;
    var c5 := Step(Step(c3, e[3], keyed), e[4], keyed);
    assert Trim("b") == "b";
    assert c5 == c2;
    RunFirst(c0, e, keyed);
    RunFirst(c1, e[1..], keyed);
    RunFirst(c2, e[2..], keyed);
    RunFirst(c3, e[3..], keyed);
    RunFirst(Step(c3, e[3], keyed), e[4..], keyed);
    assert e[1..][1..] == e[2..] && e[2..][1..] == e[3..] && e[3..][1..] == e[4..] && e[4..][1..] == [];
  }

  /** The first response arrives and the user answers its first question
      and moves on; then the second response arrives. */
  function LateSettle(first: QuizData, second: QuizData, option: string): seq<Event> {
    [ AppEvent(Settle(Some(first))), Click(QuizSession.Choose(option)), Click(QuizSession.Next),
      AppEvent(Settle(Some(second))) ]
  }

  /** As written, the `Quiz` mounted for the first payload is handed the
      second and keeps its index: with a one-question second payload the
      index no longer names a question. */
  lemma LateSettleKeepsIndex(first: QuizData, second: QuizData, option: string)
    requires |first.questions| >= 2 && option in first.questions[0].options
    requires |second.questions| == 1
    ensures var c := Run(Screen(AppState(QuizView, true, None, None), QuizSession.Start()),
                         LateSettle(first, second, option), false);
      && Mounted(c.app) && Shown(c.app) == second
      && c.session.index == 1 >= |Shown(c.app).questions|
  {
    var e := LateSettle(first, second, option);
    var c0 := Screen(AppState(QuizView, true, None, None), QuizSession.Start());
    var c1 := Step(c0, e[0], false);
    assert c1 == Screen(AppState(QuizView, false, None, Some(first)), QuizSession.Start());
    var c2 := Step(c1, e[1], false);
    assert c2.session.index == 0 && c2.session.answered && c2.app == c1.app;
    var c3 := Step(c2, e[2], false);
    assert c3.session.index == 1 && c3.app == c1.app;
    var c4 := Step(c3, e[3], false);
    assert c4 == Screen(AppState(QuizView, false, None, Some(second)), c3.session);
    RunFirst(c0, e, false);
    RunFirst(c1, e[1..], false);
    RunFirst(c2, e[2..], false);
    RunFirst(c3, e[3..], false);
    assert e[1..][1..] == e[2..] && e[2..][1..] == e[3..] && e[3..][1..] == [];
  }

  /** As written: two requests overlap, the first settles with two or more
      questions and the user reaches the second, then the second settles
      with one question. The mounted `Quiz` keeps its index, which no
      longer names a question, so reading the current one fails. */
  lemma StaleResponseOverrunsSession(first: QuizData, second: QuizData, option: string)
    requires |first.questions| >= 2 && option in first.questions[0].options
    requires |second.questions| == 1
    ensures var c := Run(Load(), TwoRequests() + LateSettle(first, second, option), false);
      && Mounted(c.app) && Shown(c.app) == second
      && c.session.index >= |Shown(c.app).questions|
  {
    RunAppend(Load(), TwoRequests(), LateSettle(first, second, option), false);
    TwoRequestsPending(false);
    LateSettleKeepsIndex(first, second, option);
  }

  /** With a remount on every new payload the same events leave a fresh
      session on the second payload. */
  lemma KeyedLateSettleRestarts(first: QuizData, second: QuizData, option: string)
    requires |first.questions| >= 2 && option in first.questions[0].options
    requires |second.questions| == 1
    ensures var c := Run(Load(), TwoRequests() + LateSettle(first, second, option), true);
      && Mounted(c.app) && Shown(c.app) == second
      && c.session == QuizSession.Start()
  {
    RunAppend(Load(), TwoRequests(), LateSettle(first, second, option), true);
    TwoRequestsPending(true);
    var e := LateSettle(first, second, option);
    var c0 := Screen(AppState(QuizView, true, None, None), QuizSession.Start());
    var c1 := Step(c0, e[0], true);
    var c2 := Step(c1, e[1], true);
    var c3 := Step(c2, e[2], true);
    assert c3.app == AppState(QuizView, false, None, Some(first));
    var c4 := Step(c3, e[3], true);
    assert c4 == Screen(AppState(QuizView, false, None, Some(second)), QuizSession.Start());
    RunFirst(c0, e, true);
    RunFirst(c1, e[1..], true);
    RunFirst(c2, e[2..], true);
    RunFirst(c3, e[3..], true);
    assert e[1..][1..] == e[2..] && e[2..][1..] == e[3..] && e[3..][1..] == [];
  }
}
