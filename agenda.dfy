/** The values the extraction produces, as the scraper builds them out of
    Python lists and dicts. */
module Agenda {

  datatype Option<+T> = None | Some(value: T)

  datatype Result<+T, +E> = Success(value: T) | Failure(error: E)

  /** The one failure of the core that escapes it: `titles[0].xpath('.//text()')[0]`
      on a sole title candidate with no text raises `IndexError`, which the
      surrounding `except ValueError` does not catch. */
  datatype Crash = IndexError

  /** A Python value that can sit in a question row: a `str`, `None` or a `bool`. */
  datatype PyVal = PyStr(s: string) | PyNone | PyBool(b: bool)

  /** The list `extract_spokesperson(text) + [False]` that becomes one question. */
  type Row = seq<PyVal>

  const QUESTION_KEYS: seq<string> := ["question", "speaker", "error"]

  /** `dict(zip(["question", "speaker", "error"], row))`: a key is present
      exactly when the row is long enough to reach it. */
  datatype Question = Question(question: Option<PyVal>, speaker: Option<PyVal>, error: Option<PyVal>)

  function At(row: Row, k: nat): Option<PyVal>
  {
    if k < |row| then Some(row[k]) else None
  }

  function ToQuestion(row: Row): Question
  {
    Question(At(row, 0), At(row, 1), At(row, 2))
  }

  function ToQuestions(rows: seq<Row>): (qs: seq<Question>)
    ensures |qs| == |rows| && forall j :: 0 <= j < |rows| ==> qs[j] == ToQuestion(rows[j])
  {
    if rows == [] then [] else [ToQuestion(rows[0])] + ToQuestions(rows[1..])
  }

  /** `{"title": ..., "questions": [...]}` of the disciplinary dialect. */
  datatype AgendaItem = AgendaItem(title: string, questions: seq<Question>)

  /** `{"title": ..., "questions": [...]}` of the plenary dialect, whose
      questions stay plain strings. */
  datatype VrpTopic = VrpTopic(title: string, questions: seq<string>)
}
