/**
 * The monthly ranking `get_top_users`: keep the answers dated strictly after `now - 30 days`,
 * sum the right ones per user, order by that sum descending and keep at most three rows.
 * The query leaves the order of equal sums open, so IsLeaderboard describes every answer the
 * database may give, and TopUsers computes one of them.
 */
module Leaderboard {
  import opened Ledger

  /** `datetime.timedelta(days=30)` in microseconds. */
  const MonthSpan: int := 30 * 24 * 60 * 60 * 1000000

  /** `LIMIT 3`. */
  const BoardSize: nat := 3

  /** One result row: `(user_id, total_score)`. */
  datatype Row = Row(user: string, total: nat)

  /** `WHERE date > %s`: strictly after the cutoff. */
  predicate InWindow(rec: AnswerRecord, cutoff: int)
  {
    rec.date > cutoff
  }

  /** How many answers `u` gave after the cutoff. */
  function WindowCount(log: seq<AnswerRecord>, u: string, cutoff: int): nat
  {
    if log == [] then 0
    else (if log[0].user == u && InWindow(log[0], cutoff) then 1 else 0) + WindowCount(log[1..], u, cutoff)
  }

  /** `SUM(CASE WHEN correct THEN 1 ELSE 0 END)` over `u`'s answers after the cutoff. */
  function WindowTotal(log: seq<AnswerRecord>, u: string, cutoff: int): nat
  {
    if log == [] then 0
    else
      var here := if log[0].user == u && log[0].correct && InWindow(log[0], cutoff) then 1 else 0;
      here + WindowTotal(log[1..], u, cutoff)
  }

  predicate DistinctUsers(rows: seq<Row>)
  {
    forall i, j :: 0 <= i < j < |rows| ==> rows[i].user != rows[j].user
  }

  /** `GROUP BY user_id`: every user with an answer after the cutoff, each once. */
  function Participants(log: seq<AnswerRecord>, cutoff: int): (us: seq<string>)
    ensures forall i, j :: 0 <= i < j < |us| ==> us[i] != us[j]
    ensures forall u :: u in us <==> WindowCount(log, u, cutoff) > 0
  {
    if log == [] then []
    else
      var rest := Participants(log[1..], cutoff);
      if InWindow(log[0], cutoff) && log[0].user !in rest then [log[0].user] + rest else rest
  }

  /** The grouped rows before ordering and limiting. */
  function Rows(log: seq<AnswerRecord>, cutoff: int): (rows: seq<Row>)
    ensures DistinctUsers(rows)
    ensures forall u :: WindowCount(log, u, cutoff) > 0 ==> Row(u, WindowTotal(log, u, cutoff)) in rows
    ensures forall x :: x in rows ==> WindowCount(log, x.user, cutoff) > 0 && x.total == WindowTotal(log, x.user, cutoff)
  {
    var us := Participants(log, cutoff);
    var rows := seq(|us|, i requires 0 <= i < |us| => Row(us[i], WindowTotal(log, us[i], cutoff)));
    assert forall u :: u in us ==> Row(u, WindowTotal(log, u, cutoff)) in rows by {
      forall u | u in us
        ensures Row(u, WindowTotal(log, u, cutoff)) in rows
      {
        var i :| 0 <= i < |us| && us[i] == u;
        assert rows[i] == Row(u, WindowTotal(log, u, cutoff));
      }
    }
    rows
  }

  /** A position of a row with the largest total. */
  function MaxIndex(rows: seq<Row>): (m: nat)
    requires |rows| > 0
    ensures m < |rows|
    ensures forall j :: 0 <= j < |rows| ==> rows[j].total <= rows[m].total
  {
    if |rows| == 1 then 0
    else
      var m := MaxIndex(rows[1..]);
      if rows[0].total >= rows[m + 1].total then 0 else m + 1
  }

  /** The rows without the one at position `i`. */
  function RemoveAt(rows: seq<Row>, i: nat): (r: seq<Row>)
    requires i < |rows|
    ensures |r| == |rows| - 1
  {
    rows[..i] + rows[i + 1..]
  }

  /** What removing one row keeps: the other rows, and distinct users. */
  lemma RemoveAtMembers(rows: seq<Row>, i: nat)
    requires i < |rows|
    ensures forall x :: x in RemoveAt(rows, i) ==> x in rows
    ensures forall x :: x in rows && x != rows[i] ==> x in RemoveAt(rows, i)
    ensures DistinctUsers(rows) ==> DistinctUsers(RemoveAt(rows, i))
    ensures DistinctUsers(rows) ==> forall x :: x in RemoveAt(rows, i) ==> x.user != rows[i].user
  {
  }

  /** `ORDER BY total_score DESC LIMIT k`, by picking a largest remaining row k times. */
  function TakeTop(rows: seq<Row>, k: nat): seq<Row>
    decreases k
  {
    if k == 0 || rows == [] then []
    else
      var m := MaxIndex(rows);
      [rows[m]] + TakeTop(RemoveAt(rows, m), k - 1)
  }

  /** TakeTop keeps min(k, |rows|) rows, all of them taken from `rows`. */
  lemma {:induction false} TakeTopSize(rows: seq<Row>, k: nat)
    ensures |TakeTop(rows, k)| == if k < |rows| then k else |rows|
    ensures forall x :: x in TakeTop(rows, k) ==> x in rows
    decreases k
  {
    if k != 0 && rows != [] {
      var m := MaxIndex(rows);
      TakeTopSize(RemoveAt(rows, m), k - 1);
      RemoveAtMembers(rows, m);
    }
  }

  /** TakeTop lists its rows in non-increasing order of total. */
  lemma {:induction false} TakeTopSorted(rows: seq<Row>, k: nat)
    ensures forall j :: 0 < j < |TakeTop(rows, k)| ==> TakeTop(rows, k)[j].total <= TakeTop(rows, k)[j - 1].total
    decreases k
  {
    if k != 0 && rows != [] {
      var m := MaxIndex(rows);
      var rest := RemoveAt(rows, m);
      var tail := TakeTop(rest, k - 1);
      var top := TakeTop(rows, k);
      TakeTopSorted(rest, k - 1);
      TakeTopSize(rest, k - 1);
      RemoveAtMembers(rows, m);
      forall j | 0 < j < |top|
        ensures top[j].total <= top[j - 1].total
      {
        assert top[j] == tail[j - 1];
        assert tail[j - 1] in rest;
      }
    }
  }

  /** No row that TakeTop leaves out has a larger total than a row it keeps. */
  lemma {:induction false} TakeTopDominates(rows: seq<Row>, k: nat, x: Row)
    requires x in rows && x !in TakeTop(rows, k)
    ensures forall j :: 0 <= j < |TakeTop(rows, k)| ==> x.total <= TakeTop(rows, k)[j].total
    decreases k
  {
    if k != 0 && rows != [] {
      var m := MaxIndex(rows);
      var rest := RemoveAt(rows, m);
      var tail := TakeTop(rest, k - 1);
      var top := TakeTop(rows, k);
      assert top == [rows[m]] + tail;
      RemoveAtMembers(rows, m);
      assert x in rest && x !in tail;
      TakeTopDominates(rest, k - 1, x);
      forall j | 0 < j < |top|
        ensures x.total <= top[j].total
      {
        assert top[j] == tail[j - 1];
      }
    }
  }

  /** With at most k rows, TakeTop keeps every one of them. */
  lemma {:induction false} TakeTopKeepsAll(rows: seq<Row>, k: nat, x: Row)
    requires k >= |rows| && x in rows
    ensures x in TakeTop(rows, k)
    decreases k
  {
    var m := MaxIndex(rows);
    RemoveAtMembers(rows, m);
    if x != rows[m] {
      TakeTopKeepsAll(RemoveAt(rows, m), k - 1, x);
    }
  }

  /** TakeTop never lists a user twice when the rows do not. */
  lemma {:induction false} TakeTopDistinct(rows: seq<Row>, k: nat)
    requires DistinctUsers(rows)
    ensures DistinctUsers(TakeTop(rows, k))
    decreases k
  {
    if k != 0 && rows != [] {
      var m := MaxIndex(rows);
      var rest := RemoveAt(rows, m);
      var tail := TakeTop(rest, k - 1);
      var top := TakeTop(rows, k);
      RemoveAtMembers(rows, m);
      TakeTopDistinct(rest, k - 1);
      TakeTopSize(rest, k - 1);
      forall a, b | 0 <= a < b < |top|
        ensures top[a].user != top[b].user
      {
        assert top[b] == tail[b - 1];
        if a == 0 {
          assert tail[b - 1] in rest;
        } else {
          assert top[a] == tail[a - 1];
        }
      }
    }
  }

  /** `get_top_users()` with the clock reading `now` passed in. */
  function TopUsers(log: seq<AnswerRecord>, now: int): seq<Row>
  {
    TakeTop(Rows(log, now - MonthSpan), BoardSize)
  }

  /** Every row names a user who answered after the cutoff, with that user's right answers. */
  ghost predicate TrueTotals(log: seq<AnswerRecord>, cutoff: int, board: seq<Row>)
  {
    forall i :: 0 <= i < |board| ==>
      WindowCount(log, board[i].user, cutoff) > 0 && board[i].total == WindowTotal(log, board[i].user, cutoff)
  }

  /** A user who answered after the cutoff is left out only from a full board, and only by larger totals. */
  ghost predicate NobodyBetterMissing(log: seq<AnswerRecord>, cutoff: int, board: seq<Row>)
  {
    forall u :: WindowCount(log, u, cutoff) > 0 && (forall i :: 0 <= i < |board| ==> board[i].user != u) ==>
      |board| == BoardSize && forall i :: 0 <= i < |board| ==> WindowTotal(log, u, cutoff) <= board[i].total
  }

  /**
   * Every answer the query may give: at most three rows for distinct users with their true
   * monthly totals, totals not increasing, and nobody missing who belongs on the board.
   */
  ghost predicate IsLeaderboard(log: seq<AnswerRecord>, now: int, board: seq<Row>)
  {
    && |board| <= BoardSize
    && DistinctUsers(board)
    && (forall i :: 0 < i < |board| ==> board[i].total <= board[i - 1].total)
    && TrueTotals(log, now - MonthSpan, board)
    && NobodyBetterMissing(log, now - MonthSpan, board)
  }

  /** The computed ranking is one the query may give. */
  lemma TopUsersIsLeaderboard(log: seq<AnswerRecord>, now: int)
    ensures IsLeaderboard(log, now, TopUsers(log, now))
  {
    var rows := Rows(log, now - MonthSpan);
    TakeTopSize(rows, BoardSize);
    TakeTopSorted(rows, BoardSize);
    TakeTopDistinct(rows, BoardSize);
    assert forall i :: 0 <= i < |TopUsers(log, now)| ==> TopUsers(log, now)[i] in rows;
    TopUsersComplete(log, now);
  }

  lemma TopUsersComplete(log: seq<AnswerRecord>, now: int)
    ensures NobodyBetterMissing(log, now - MonthSpan, TopUsers(log, now))
  {
    var cutoff := now - MonthSpan;
    var rows := Rows(log, cutoff);
    var board := TopUsers(log, now);
    forall u | WindowCount(log, u, cutoff) > 0 && (forall i :: 0 <= i < |board| ==> board[i].user != u)
      ensures |board| == BoardSize
      ensures forall i :: 0 <= i < |board| ==> WindowTotal(log, u, cutoff) <= board[i].total
    {
      var x := Row(u, WindowTotal(log, u, cutoff));
      assert x in rows;
      TakeTopMissing(rows, BoardSize, x);
    }
  }

  /** A row whose user TakeTop does not list is dominated by a full list of k rows. */
  lemma TakeTopMissing(rows: seq<Row>, k: nat, x: Row)
    requires x in rows
    requires forall i :: 0 <= i < |TakeTop(rows, k)| ==> TakeTop(rows, k)[i].user != x.user
    ensures |TakeTop(rows, k)| == k
    ensures forall i :: 0 <= i < |TakeTop(rows, k)| ==> x.total <= TakeTop(rows, k)[i].total
  {
    assert x !in TakeTop(rows, k);
    TakeTopSize(rows, k);
    TakeTopDominates(rows, k, x);
    if |TakeTop(rows, k)| < k {
      TakeTopKeepsAll(rows, k, x);
    }
  }

  /** Somebody who answered nothing after the cutoff is never on the board. */
  lemma AbsentUsersNeverListed(log: seq<AnswerRecord>, now: int, board: seq<Row>, u: string)
    requires IsLeaderboard(log, now, board)
    requires forall k :: 0 <= k < |log| && log[k].user == u ==> !InWindow(log[k], now - MonthSpan)
    ensures forall i :: 0 <= i < |board| ==> board[i].user != u
  {
    NoWindowAnswers(log, u, now - MonthSpan);
  }

  lemma {:induction false} NoWindowAnswers(log: seq<AnswerRecord>, u: string, cutoff: int)
    requires forall k :: 0 <= k < |log| && log[k].user == u ==> !InWindow(log[k], cutoff)
    ensures WindowCount(log, u, cutoff) == 0
  {
    if log != [] {
      assert forall k :: 1 <= k < |log| ==> log[1..][k - 1] == log[k];
      NoWindowAnswers(log[1..], u, cutoff);
    }
  }

  /** A monthly total never exceeds the user's all-time number of right answers in the log. */
  lemma {:induction false} WindowTotalAtMostScore(log: seq<AnswerRecord>, u: string, cutoff: int)
    ensures WindowTotal(log, u, cutoff) <= CorrectCount(log, u)
    ensures WindowTotal(log, u, cutoff) <= WindowCount(log, u, cutoff)
  {
    if log != [] {
      WindowTotalAtMostScore(log[1..], u, cutoff);
    }
  }

  /** In a consistent ledger, a monthly total never exceeds the score in the `users` table. */
  lemma WindowTotalAtMostStoredScore(ledger: ScoreLedger, u: string, cutoff: int)
    requires ledger.Consistent()
    ensures WindowTotal(ledger.answers, u, cutoff) <= ledger.ScoreOf(u)
  {
    WindowTotalAtMostScore(ledger.answers, u, cutoff);
  }

  /** A new answer counts towards a window exactly when it is dated after the cutoff. */
  lemma {:induction false} WindowTotalAppend(log: seq<AnswerRecord>, rec: AnswerRecord, u: string, cutoff: int)
    ensures WindowTotal(log + [rec], u, cutoff) ==
      WindowTotal(log, u, cutoff) + (if rec.user == u && rec.correct && InWindow(rec, cutoff) then 1 else 0)
  {
    if log == [] {
      assert log + [rec] == [rec];
    } else {
      assert (log + [rec])[1..] == log[1..] + [rec];
      WindowTotalAppend(log[1..], rec, u, cutoff);
    }
  }
}
