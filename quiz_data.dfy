/**
 * The records the quiz screens exchange with the store: quizzes, question
 * rows, the admin editor's question entries, the write payloads the save
 * produces, and respondents' responses.
 */
module QuizData {
  import opened Wrappers

  /** A store-assigned id. Ids are non-empty strings, so a present id is truthy. */
  type Id = s: string | |s| > 0 witness "0"

  /** The five question types the editor offers and the import contract allows. */
  datatype QType = MultipleChoice | MultipleAnswer | TrueFalse | Matching | Text

  /** The `type` column value of each question type. */
  function TypeName(t: QType): string {
    match t
    case MultipleChoice => "multiple_choice"
    case MultipleAnswer => "multiple_answer"
    case TrueFalse => "true_false"
    case Matching => "matching"
    case Text => "text"
  }

  /**
   * One entry of the editor's question buffer. `id` is None for a question
   * that was never saved; missing options are the empty list.
   */
  datatype Question = Question(
    id: Option<Id>,
    text: string,
    qtype: QType,
    options: seq<string>,
    correctAnswer: string)

  /** The default true/false choices: the Arabic words for "right" and "wrong". */
  const ArabicTrueFalse: seq<string> := ["\U{0635}\U{0648}\U{0627}\U{0628}", "\U{062E}\U{0637}\U{0623}"]

  /** A row of the `questions` table; `options` and `order` may be null. */
  datatype QuestionRow = QuestionRow(
    id: Id,
    quizId: Id,
    text: string,
    qtype: QType,
    options: Option<seq<string>>,
    correctAnswer: string,
    order: Option<int>)

  /** The question payload a save sends: with an id to update, without one to insert. */
  datatype QuestionWrite = QuestionWrite(
    id: Option<Id>,
    quizId: Id,
    text: string,
    qtype: QType,
    options: Option<seq<string>>,
    correctAnswer: string,
    order: nat)

  /** The fields of a quiz the public list and the links use. */
  datatype Quiz = Quiz(id: Id, slug: Option<string>, title: string, description: Option<string>)

  /** A row of the `responses` table; `answers` maps question ids to submitted answers. */
  datatype Response = Response(
    quizId: Id,
    respondentName: string,
    score: nat,
    answers: Option<map<Id, string>>)
}
