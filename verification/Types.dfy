/** Shared data shapes of the quiz payload (types.ts) and a small Option type
    standing in for TypeScript's `T | null`. */
module Types {

  /** `T | null`: `None` plays the role of `null`. */
  datatype Option<+T> = None | Some(value: T)

  /** One multiple-choice question as the AI collaborator returns it. */
  datatype QuizQuestion = QuizQuestion(
    questionText: string,
    options: seq<string>,
    correctAnswer: string,
    explanation: string)

  /** The whole payload: detected emotion, topic, a title and the questions. */
  datatype QuizData = QuizData(
    emotion: string,
    topic: string,
    quizTitle: string,
    questions: seq<QuizQuestion>)
}
