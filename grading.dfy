/**
 * The first half of the answer handler `process_answer`: decode the pressed button's payload,
 * find the question, compare `int(selected)` with the question's `answer`, and word the reply.
 * Each failure below is an exception in the bot; all of them happen before the score tables
 * are touched.
 */
module Grading {
  import opened Wrappers
  import Payload
  import opened Catalog

  datatype AnswerError =
    | MalformedPayload       // `split(":")` did not give exactly two parts (ValueError)
    | UnknownQuestion        // no entry with that id: `None["answer"]` (TypeError)
    | NotAnInteger           // `int(selected)` failed (ValueError)
    | AnswerIndexOutOfRange  // `options[answer]` on a wrong answer (IndexError)

  /** What the handler knows once the press is graded: what it stores and what it replies. */
  datatype Verdict = Verdict(questionId: string, selected: int, correct: bool, text: string)

  const CorrectText: string := "✅ Верно!"
  const WrongPrefix: string := "❌ Неверно. Правильный ответ: "

  /**
   * The reply to an answer to `q`: the fixed text when it is right, otherwise the right
   * option's text after the fixed prefix, which fails when `answer` cannot index `options`.
   */
  function Feedback(q: Question, correct: bool): (r: Result<string, AnswerError>)
    ensures correct ==> r == Success(CorrectText)
    ensures r.Success? ==> (r.value == CorrectText <==> correct)
    ensures !correct && r.Success? ==> |WrongPrefix| <= |r.value| && r.value[..|WrongPrefix|] == WrongPrefix
    ensures !correct ==> (r.Success? <==> -|q.options| <= q.answer < |q.options|)
    ensures !correct && 0 <= q.answer < |q.options| ==> r == Success(WrongPrefix + q.options[q.answer])
    ensures !correct && -|q.options| <= q.answer < 0 ==>
      r == Success(WrongPrefix + q.options[|q.options| + q.answer])
    ensures r == Failure(AnswerIndexOutOfRange) <==> !correct && !(-|q.options| <= q.answer < |q.options|)
  {
    if correct then Success(CorrectText)
    else match PyIndex(q.options, q.answer)
      case Some(option) => Success(WrongPrefix + option)
      case None => Failure(AnswerIndexOutOfRange)
  }

  /** The catalog question a payload names: none when it does not unpack or the id is unknown. */
  function PressedQuestion(catalog: seq<Question>, data: string): Option<Question>
  {
    match Payload.Decode(data)
    case Failure(_) => None
    case Success((questionId, _)) => Lookup(catalog, questionId)
  }

  /** The index a payload carries: none when it does not unpack or is not an integer. */
  function PressedIndex(data: string): Option<int>
  {
    match Payload.Decode(data)
    case Failure(_) => None
    case Success((_, selected)) => Payload.ParseInt(selected)
  }

  /** Grading one button press against the catalog. */
  function Grade(catalog: seq<Question>, data: string): (r: Result<Verdict, AnswerError>)
    ensures r == Failure(MalformedPayload) <==> Payload.Decode(data).Failure?
    ensures r == Failure(UnknownQuestion) <==>
      Payload.Decode(data).Success? && PressedQuestion(catalog, data).None?
    ensures r.Success? <==>
      && PressedQuestion(catalog, data).Some?
      && PressedIndex(data).Some?
      && Feedback(PressedQuestion(catalog, data).value,
                  PressedIndex(data).value == PressedQuestion(catalog, data).value.answer).Success?
    ensures r == Failure(NotAnInteger) <==>
      PressedQuestion(catalog, data).Some? && PressedIndex(data).None?
    ensures r == Failure(AnswerIndexOutOfRange) <==>
      && PressedQuestion(catalog, data).Some?
      && PressedIndex(data).Some?
      && Feedback(PressedQuestion(catalog, data).value,
                  PressedIndex(data).value == PressedQuestion(catalog, data).value.answer).Failure?
    ensures r.Success? ==>
      data == r.value.questionId + [Payload.Separator] + Payload.Decode(data).value.1 &&
      Payload.ParseInt(Payload.Decode(data).value.1) == Some(r.value.selected)
    ensures r.Success? ==>
      var q := Lookup(catalog, r.value.questionId);
      q.Some? && q.value in catalog &&
      (r.value.correct <==> r.value.selected == q.value.answer) &&
      Feedback(q.value, r.value.correct) == Success(r.value.text)
  {
    match Payload.Decode(data)
    case Failure(_) => Failure(MalformedPayload)
    case Success((questionId, selected)) =>
      match Lookup(catalog, questionId)
      case None => Failure(UnknownQuestion)
      case Some(q) =>
        match Payload.ParseInt(selected)
        case None => Failure(NotAnInteger)
        case Some(n) =>
          var correct := n == q.answer;
          match Feedback(q, correct)
          case Failure(e) => Failure(e)
          case Success(text) => Success(Verdict(questionId, n, correct, text))
  }

  /**
   * Pressing button `i` of a catalog question (the first entry with its identifier, whose
   * identifier has no separator and whose answer index is in range) is graded right exactly
   * when `i` is the answer index; a wrong press is answered with the right option's text.
   */
  lemma GradeButton(catalog: seq<Question>, k: nat, i: nat)
    requires k < |catalog| && WellFormed(catalog[k]) && Payload.Separator !in catalog[k].id
    requires forall j :: 0 <= j < k ==> catalog[j].id != catalog[k].id
    requires i < |catalog[k].options|
    ensures var q := catalog[k];
      Grade(catalog, Keyboard(q)[i].payload) ==
        Success(Verdict(q.id, i, i == q.answer,
                        if i == q.answer then CorrectText else WrongPrefix + q.options[q.answer]))
  {
    var q := catalog[k];
    LookupFirst(catalog, k);
    KeyboardDecodes(q);
  }
}
