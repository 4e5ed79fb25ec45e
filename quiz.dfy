/** The values the quiz tool passes around: questions, the quiz payload of a share link, a student result. */
module Quiz {
  /** Seconds on each question's countdown. */
  const QuestionTime: nat := 60

  datatype Kind = MultipleChoice | TrueFalse

  /**
   * A question as the teacher's form or the CSV import stores it. `options` holds the four
   * texts of a multiple-choice question and `["True", "False"]` for a true/false one.
   */
  datatype Question = Question(
    id: int,
    kind: Kind,
    text: string,
    options: seq<string>,
    correctAnswer: int,
    category: string,
    hint: string,
    explanation: string,
    optionImages: seq<string>)

  /** The object carried by a `#quiz=` link. */
  datatype QuizData = QuizData(id: string, questions: seq<Question>, version: string)

  /** The object carried by a `#result=` link; `answers` maps display positions to chosen options. */
  datatype StudentResult = StudentResult(
    studentName: string,
    quizId: string,
    score: int,
    totalQuestions: int,
    answers: map<nat, int>,
    completedAt: string)
}
