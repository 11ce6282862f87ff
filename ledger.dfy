/**
 * The score ledger: the `users` table (user id to cumulative score) and the append-only
 * `user_answers` table, kept here as a map and a sequence inside one object. The answer
 * handler reads the user's score (0 when the user has no row), adds one for a right answer,
 * upserts the row and appends one answer record.
 */
module Ledger {
  import opened Wrappers
  import Catalog
  import Payload
  import opened Grading

  /** One `user_answers` row; `date` is the handler's clock reading, in microseconds. */
  datatype AnswerRecord = AnswerRecord(user: string, questionId: string, answer: int, correct: bool, date: int)

  /** PostgreSQL's `INTEGER`: the range the `answer` column accepts. */
  const IntegerMin: int := -0x8000_0000
  const IntegerMax: int := 0x7fff_ffff

  predicate FitsIntegerColumn(n: int)
  {
    IntegerMin <= n <= IntegerMax
  }

  /** Why the answer handler ends without a reply. */
  datatype HandlerError =
    | Rejected(cause: AnswerError)  // the press could not be graded; nothing was written
    | IndexOutOfColumnRange         // the INSERT of the index into `answer INTEGER` failed

  /** How many answers `u` has in the log. */
  function AnswerCount(log: seq<AnswerRecord>, u: string): nat
  {
    if log == [] then 0 else (if log[0].user == u then 1 else 0) + AnswerCount(log[1..], u)
  }

  /** How many right answers `u` has in the log. */
  function CorrectCount(log: seq<AnswerRecord>, u: string): nat
  {
    if log == [] then 0
    else (if log[0].user == u && log[0].correct then 1 else 0) + CorrectCount(log[1..], u)
  }

  /** Appending one record moves each count of its own user by at most one, and no other user's. */
  lemma {:induction false} CountsAppend(log: seq<AnswerRecord>, rec: AnswerRecord, u: string)
    ensures AnswerCount(log + [rec], u) == AnswerCount(log, u) + (if rec.user == u then 1 else 0)
    ensures CorrectCount(log + [rec], u) == CorrectCount(log, u) + (if rec.user == u && rec.correct then 1 else 0)
  {
    if log == [] {
      assert log + [rec] == [rec];
    } else {
      assert (log + [rec])[1..] == log[1..] + [rec];
      CountsAppend(log[1..], rec, u);
    }
  }

  /** A user never has more right answers than answers. */
  lemma {:induction false} CorrectAtMostAnswered(log: seq<AnswerRecord>, u: string)
    ensures CorrectCount(log, u) <= AnswerCount(log, u)
  {
    if log != [] {
      CorrectAtMostAnswered(log[1..], u);
    }
  }

  class ScoreLedger {
    /** The `users` table. */
    var users: map<string, int>
    /** The `user_answers` table, oldest first. */
    var answers: seq<AnswerRecord>

    /** `CREATE TABLE IF NOT EXISTS` on a fresh database: both tables empty. */
    constructor ()
      ensures users == map[] && answers == []
      ensures Consistent()
    {
      users := map[];
      answers := [];
    }

    /**
     * What the bot keeps true when every change goes through ProcessAnswer: a user has a row
     * exactly when they have answered, and the row's score is their number of right answers.
     */
    ghost predicate Consistent()
      reads this
    {
      && (forall u :: u in users <==> AnswerCount(answers, u) > 0)
      && (forall u :: u in users ==> users[u] == CorrectCount(answers, u))
    }

    /**
     * `SELECT score FROM users WHERE user_id = %s`, with 0 for a user without a row; in a
     * consistent ledger that is the user's number of right answers.
     */
    function ScoreOf(u: string): (r: int)
      reads this
      ensures u !in users ==> r == 0
      ensures Consistent() ==> r == CorrectCount(answers, u)
    {
      CorrectAtMostAnswered(answers, u);
      if u in users then users[u] else 0
    }

    /** `update_score`: insert the row, or overwrite its score on conflict. */
    method UpdateScore(u: string, score: int)
      modifies this
      ensures users == old(users)[u := score]
      ensures answers == old(answers)
    {
      users := users[u := score];
    }

    /**
     * `save_answer`: append one record stamped with the clock reading `now`. The database
     * refuses the row, and nothing is appended, when the index does not fit `INTEGER`.
     */
    method SaveAnswer(u: string, questionId: string, answer: int, correct: bool, now: int)
      returns (stored: bool)
      modifies this
      ensures stored <==> FitsIntegerColumn(answer)
      ensures answers == if stored then old(answers) + [AnswerRecord(u, questionId, answer, correct, now)]
                         else old(answers)
      ensures users == old(users)
    {
      stored := FitsIntegerColumn(answer);
      if stored {
        answers := answers + [AnswerRecord(u, questionId, answer, correct, now)];
      }
    }

    /**
     * `process_answer` for a press with payload `data` by user `u` at time `now`: on success
     * the reply text; the user's score moves from its old value (0 if absent) by one for a
     * right answer and none otherwise, nobody else's changes, and exactly one record is
     * appended. A press that cannot be graded changes nothing. A press whose index does not
     * fit `INTEGER` fails after the score has been written, without a record.
     */
    method ProcessAnswer(catalog: seq<Catalog.Question>, u: string, data: string, now: int)
      returns (r: Result<string, HandlerError>)
      modifies this
      ensures Grade(catalog, data).Failure? ==>
        r == Failure(Rejected(Grade(catalog, data).error)) && users == old(users) && answers == old(answers)
      ensures Grade(catalog, data).Success? ==>
        var v := Grade(catalog, data).value;
        && users == old(users)[u := old(ScoreOf(u)) + (if v.correct then 1 else 0)]
        && (FitsIntegerColumn(v.selected) ==>
              && r == Success(v.text)
              && answers == old(answers) + [AnswerRecord(u, v.questionId, v.selected, v.correct, now)])
        && (!FitsIntegerColumn(v.selected) ==>
              r == Failure(IndexOutOfColumnRange) && answers == old(answers))
      ensures forall w :: w != u ==> ScoreOf(w) == old(ScoreOf(w))
      ensures old(Consistent()) && r.Success? ==> Consistent()
    {
      var graded := Grade(catalog, data);
      if graded.Failure? {
        return Failure(Rejected(graded.error));
      }
      var v := graded.value;
      ghost var before, scores := answers, users;
      ghost var wasConsistent := Consistent();
      var currentScore := if u in users then users[u] else 0;
      if v.correct {
        currentScore := currentScore + 1;
      }
      UpdateScore(u, currentScore);
      var stored := SaveAnswer(u, v.questionId, v.selected, v.correct, now);
      if !stored {
        return Failure(IndexOutOfColumnRange);
      }
      r := Success(v.text);
      var rec := AnswerRecord(u, v.questionId, v.selected, v.correct, now);
      forall w
        ensures AnswerCount(answers, w) == AnswerCount(before, w) + (if w == u then 1 else 0)
        ensures CorrectCount(answers, w) == CorrectCount(before, w) + (if w == u && v.correct then 1 else 0)
      {
        CountsAppend(before, rec, w);
      }
      if wasConsistent {
        forall w | w in users
          ensures users[w] == CorrectCount(answers, w)
        {
          if w == u && u !in scores {
            CorrectAtMostAnswered(before, u);
          }
        }
      }
    }
  }

  /** On a two-option question whose answer is option 0, both buttons are graded. */
  lemma GradeScenarioPresses(q1: Catalog.Question)
    requires q1 == Catalog.Question("q1", "?", ["A", "B"], 0)
    ensures Grading.Grade([q1], "q1:0") == Success(Verdict("q1", 0, true, CorrectText))
    ensures Grading.Grade([q1], "q1:1") == Success(Verdict("q1", 1, false, WrongPrefix + "A"))
  {
    GradeButton([q1], 0, 0);
    assert Catalog.Keyboard(q1)[0].payload == "q1:0";
    GradeButton([q1], 0, 1);
    assert Catalog.Keyboard(q1)[1].payload == "q1:1";
  }

  /**
   * The scenario of a one-question catalog: a right press scores one, a later wrong press
   * keeps the score and reveals the right option.
   */
  method Scenario()
  {
    var q1 := Catalog.Question("q1", "?", ["A", "B"], 0);
    GradeScenarioPresses(q1);
    var ledger := new ScoreLedger();
    var reply := ledger.ProcessAnswer([q1], "42", "q1:0", 1);
    assert reply == Success(CorrectText);
    assert ledger.ScoreOf("42") == 1;
    reply := ledger.ProcessAnswer([q1], "42", "q1:1", 2);
    assert reply == Success(WrongPrefix + "A");
    assert ledger.ScoreOf("42") == 1;
    assert |ledger.answers| == 2;
  }

  /** The payload of index 3000000000 on a two-option question is graded, as a wrong press. */
  lemma GradeOversizedIndex(q1: Catalog.Question)
    requires q1 == Catalog.Question("q1", "?", ["A", "B"], 0)
    ensures Grading.Grade([q1], Payload.Encode("q1", 3000000000)) ==
      Success(Verdict("q1", 3000000000, false, WrongPrefix + "A"))
  {
    var big := Payload.Encode("q1", 3000000000);
    var digits := Payload.NatToString(3000000000);
    Payload.DecodeEncode("q1", 3000000000);
    Payload.ParseIntOfNatToString(3000000000);
    assert Payload.Decode(big) == Success(("q1", digits));
    assert Payload.ParseInt(digits) == Some(3000000000);
    assert Catalog.Lookup([q1], "q1") == Some(q1);
    assert Feedback(q1, false) == Success(WrongPrefix + "A");
  }

  /**
   * A press whose index `int()` accepts but `INTEGER` does not: the user's score row is
   * written, the answer record is not, and the ledger is no longer consistent.
   */
  method OversizedIndexScenario()
  {
    var q1 := Catalog.Question("q1", "?", ["A", "B"], 0);
    var ledger := new ScoreLedger();
    var big := Payload.Encode("q1", 3000000000);
    GradeOversizedIndex(q1);
    assert !FitsIntegerColumn(3000000000);
    var reply := ledger.ProcessAnswer([q1], "7", big, 1);
    assert reply == Failure(IndexOutOfColumnRange);
    assert ledger.users == map["7" := 0] && ledger.answers == [];
    assert AnswerCount(ledger.answers, "7") == 0;
    assert !ledger.Consistent();
  }
}
