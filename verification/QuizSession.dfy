/** The quiz-taking state machine (components/Quiz.tsx): which question is
    shown, the answer picked for it, whether it is locked in, the running
    score, and whether the results page is up. Every member here takes the
    question list as given; the component itself does not pin it, and the
    screen-level model (QuizScreen) shows a new list reaching a live
    session. */
module QuizSession {
  import opened Types

  datatype Session = Session(
    index: nat,
    selected: Option<string>,
    answered: bool,
    score: nat,
    showResults: bool)

  /** A fresh session, as the component mounts. */
  function Start(): (s: Session)
    ensures s.index == 0 && s.selected.None? && !s.answered && s.score == 0 && !s.showResults
  {
    Session(0, None, false, 0, false)
  }

  function Current(quiz: QuizData, s: Session): QuizQuestion
    requires s.index < |quiz.questions|
  {
    quiz.questions[s.index]
  }

  /** `handleAnswerSelect`: ignored once the question is answered; otherwise
      records the option, locks the question and scores one point exactly
      when the option is the correct answer, character for character. */
  function SelectAnswer(quiz: QuizData, s: Session, option: string): (r: Session)
    requires s.index < |quiz.questions|
    ensures s.answered ==> r == s
    ensures !s.answered ==> r.selected == Some(option) && r.answered
    ensures !s.answered ==> (r.score == s.score + 1 <==> option == Current(quiz, s).correctAnswer)
    ensures !s.answered ==> (r.score == s.score <==> option != Current(quiz, s).correctAnswer)
    ensures r.index == s.index && r.showResults == s.showResults
  {
    if s.answered then s
    else
      var gained := if option == Current(quiz, s).correctAnswer then 1 else 0;
      s.(selected := Some(option), answered := true, score := s.score + gained)
  }

  /** `handleNext`: before the last question, move on and clear the answer;
      on the last one, show the results. The score is kept either way. */
  function HandleNext(quiz: QuizData, s: Session): (r: Session)
    ensures s.index + 1 < |quiz.questions| ==>
              r.index == s.index + 1 && r.selected.None? && !r.answered && r.showResults == s.showResults
    ensures s.index + 1 >= |quiz.questions| ==> r == s.(showResults := true)
    ensures r.score == s.score
  {
    if s.index < |quiz.questions| - 1 then
      s.(index := s.index + 1, selected := None, answered := false)
    else
      s.(showResults := true)
  }

  /** The invariant every session keeps over a non-empty question list: the
      index points at a question, an answer is recorded exactly when the
      question is locked, and each scored point came from an answered
      question. */
  predicate Inv(quiz: QuizData, s: Session) {
    && s.index < |quiz.questions|
    && (s.answered <==> s.selected.Some?)
    && s.score <= s.index + (if s.answered then 1 else 0)
  }

  lemma StartInv(quiz: QuizData)
    requires |quiz.questions| > 0
    ensures Inv(quiz, Start())
  {
  }

  lemma SelectAnswerInv(quiz: QuizData, s: Session, option: string)
    requires Inv(quiz, s)
    ensures Inv(quiz, SelectAnswer(quiz, s, option))
    ensures SelectAnswer(quiz, s, option).score >= s.score
  {
  }

  lemma HandleNextInv(quiz: QuizData, s: Session)
    requires Inv(quiz, s)
    ensures Inv(quiz, HandleNext(quiz, s))
  {
  }

  /** Selecting twice is selecting once. */
  lemma SelectIdempotent(quiz: QuizData, s: Session, first: string, second: string)
    requires s.index < |quiz.questions|
    ensures SelectAnswer(quiz, SelectAnswer(quiz, s, first), second) == SelectAnswer(quiz, s, first)
  {
  }

  /** On the results page the shown score is at most the question count. */
  lemma ResultsScoreBound(quiz: QuizData, s: Session)
    requires Inv(quiz, s)
    ensures s.score <= |quiz.questions|
  {
  }

  /** What the page offers the user. */
  datatype Action = Choose(option: string) | Next

  /** Option buttons are enabled only while the current question is
      unanswered, and only the current question's options are on them;
      the next/results button exists only once the question is answered.
      Neither is on the results page. */
  predicate Enabled(quiz: QuizData, s: Session, a: Action)
    requires s.index < |quiz.questions|
  {
    && !s.showResults
    && match a
       case Choose(option) => !s.answered && option in Current(quiz, s).options
       case Next => s.answered
  }

  function Perform(quiz: QuizData, s: Session, a: Action): (r: Session)
    requires s.index < |quiz.questions|
    ensures r.index < |quiz.questions|
  {
    match a
    case Choose(option) => SelectAnswer(quiz, s, option)
    case Next => HandleNext(quiz, s)
  }

  /** Through the page, a recorded answer is always one of the current
      question's options. */
  predicate UiInv(quiz: QuizData, s: Session) {
    && Inv(quiz, s)
    && (s.selected.Some? ==> s.selected.value in Current(quiz, s).options)
  }

  lemma PerformUiInv(quiz: QuizData, s: Session, a: Action)
    requires UiInv(quiz, s) && Enabled(quiz, s, a)
    ensures UiInv(quiz, Perform(quiz, s, a))
    ensures Perform(quiz, s, a).score >= s.score
  {
  }

  /** The session after the user clicks through `actions`, or `None` as soon
      as one of them is not on offer. */
  function Play(quiz: QuizData, s: Session, actions: seq<Action>): Option<Session>
    requires s.index < |quiz.questions|
    decreases |actions|
  {
    if actions == [] then Some(s)
    else if !Enabled(quiz, s, actions[0]) then None
    else Play(quiz, Perform(quiz, s, actions[0]), actions[1..])
  }

  /** Whatever the user clicks, the invariant holds and the score never
      goes down. */
  lemma {:induction false} PlayUiInv(quiz: QuizData, s: Session, actions: seq<Action>)
    requires UiInv(quiz, s)
    ensures Play(quiz, s, actions).Some? ==>
              UiInv(quiz, Play(quiz, s, actions).value)
              && Play(quiz, s, actions).value.score >= s.score
    decreases |actions|
  {
    if actions != [] && Enabled(quiz, s, actions[0]) {
      PerformUiInv(quiz, s, actions[0]);
      PlayUiInv(quiz, Perform(quiz, s, actions[0]), actions[1..]);
    }
  }

  /** Reference count: how many of `answers` match the correct answer of the
      question in the same position. */
  function CountCorrect(questions: seq<QuizQuestion>, answers: seq<string>): (n: nat)
    requires |answers| <= |questions|
    ensures n <= |answers|
    ensures n == |answers| <==> forall i :: 0 <= i < |answers| ==> answers[i] == questions[i].correctAnswer
    decreases |answers|
  {
    if answers == [] then 0
    else (if answers[0] == questions[0].correctAnswer then 1 else 0)
         + CountCorrect(questions[1..], answers[1..])
  }

  /** Answering the questions in turn with `answers`, pressing the
      next/results button after each. */
  function TakeQuiz(quiz: QuizData, s: Session, answers: seq<string>): Session
    requires s.index + |answers| <= |quiz.questions|
    decreases |answers|
  {
    if answers == [] then s
    else TakeQuiz(quiz, HandleNext(quiz, SelectAnswer(quiz, s, answers[0])), answers[1..])
  }

  /** Answering every remaining question of a fresh question ends on the
      results page, on the last question, with exactly one point per
      correct answer added. */
  lemma {:induction false} TakeQuizScores(quiz: QuizData, s: Session, answers: seq<string>)
    requires s.index + |answers| == |quiz.questions| && |answers| > 0
    requires !s.answered
    ensures var r := TakeQuiz(quiz, s, answers);
      && r.showResults
      && r.index == |quiz.questions| - 1
      && r.score == s.score + CountCorrect(quiz.questions[s.index..], answers)
    decreases |answers|
  {
    var t := HandleNext(quiz, SelectAnswer(quiz, s, answers[0]));
    var gained := if answers[0] == quiz.questions[s.index].correctAnswer then 1 else 0;
    assert t.score == s.score + gained;
    if |answers| > 1 {
      TakeQuizScores(quiz, t, answers[1..]);
      assert quiz.questions[s.index..][1..] == quiz.questions[t.index..];
    }
  }

  /** A whole quiz of N questions: N answers and N presses reach the
      results page with the score equal to the number of correct answers,
      hence between 0 and N. */
  lemma CompleteQuiz(quiz: QuizData, answers: seq<string>)
    requires |answers| == |quiz.questions| > 0
    ensures TakeQuiz(quiz, Start(), answers).showResults
    ensures TakeQuiz(quiz, Start(), answers).score == CountCorrect(quiz.questions, answers)
    ensures TakeQuiz(quiz, Start(), answers).score <= |quiz.questions|
  {
    TakeQuizScores(quiz, Start(), answers);
    assert quiz.questions[0..] == quiz.questions;
  }

  /** How an option button is drawn: open for clicking, marked right,
      marked wrong, or dimmed. */
  datatype ButtonStyle = Open | Right | Wrong | Dimmed

  /** `getButtonClass`. */
  function ButtonClass(quiz: QuizData, s: Session, option: string): (c: ButtonStyle)
    requires s.index < |quiz.questions|
    ensures !s.answered <==> c == Open
    ensures c == Right <==> s.answered && option == Current(quiz, s).correctAnswer
    ensures c == Wrong <==> s.answered && option != Current(quiz, s).correctAnswer && s.selected == Some(option)
  {
    if !s.answered then Open
    else if option == Current(quiz, s).correctAnswer then Right
    else if s.selected == Some(option) then Wrong
    else Dimmed
  }

  /** The styles of the current question's buttons, in order. */
  function OptionStyles(quiz: QuizData, s: Session): (styles: seq<ButtonStyle>)
    requires s.index < |quiz.questions|
    ensures |styles| == |Current(quiz, s).options|
    ensures forall i :: 0 <= i < |styles| ==> styles[i] == ButtonClass(quiz, s, Current(quiz, s).options[i])
  {
    seq(|Current(quiz, s).options|, i requires 0 <= i < |Current(quiz, s).options| =>
      ButtonClass(quiz, s, Current(quiz, s).options[i]))
  }

  predicate Distinct(options: seq<string>) {
    forall i, j :: 0 <= i < j < |options| ==> options[i] != options[j]
  }

  /** Once a question is answered through the page, some button is marked
      wrong exactly when the recorded answer was not the correct one, and
      with distinct options at most one button is. */
  lemma WrongButtonMarksMistake(quiz: QuizData, s: Session)
    requires UiInv(quiz, s) && s.answered
    ensures (exists i :: 0 <= i < |OptionStyles(quiz, s)| && OptionStyles(quiz, s)[i] == Wrong)
              <==> s.selected != Some(Current(quiz, s).correctAnswer)
    ensures Distinct(Current(quiz, s).options) ==>
              forall i, j :: 0 <= i < j < |OptionStyles(quiz, s)| ==>
                !(OptionStyles(quiz, s)[i] == Wrong && OptionStyles(quiz, s)[j] == Wrong)
  {
    var opts := Current(quiz, s).options;
    var styles := OptionStyles(quiz, s);
    if s.selected != Some(Current(quiz, s).correctAnswer) {
      var k :| 0 <= k < |opts| && opts[k] == s.selected.value;
      assert styles[k] == Wrong;
    }
  }

  /** The feedback line under an answered question: `Some(true)` for
      "Correct!", `Some(false)` for "Not quite!", nothing before answering. */
  function Feedback(quiz: QuizData, s: Session): Option<bool>
    requires s.index < |quiz.questions|
  {
    if s.answered then Some(s.selected == Some(Current(quiz, s).correctAnswer)) else None
  }

  /** "Correct!" appears after an answer exactly when that answer scored. */
  lemma FeedbackMatchesScore(quiz: QuizData, s: Session, option: string)
    requires s.index < |quiz.questions| && !s.answered
    ensures (Feedback(quiz, SelectAnswer(quiz, s, option)) == Some(true))
              == (SelectAnswer(quiz, s, option).score == s.score + 1)
    ensures Feedback(quiz, SelectAnswer(quiz, s, option)).Some?
  {
  }
}
