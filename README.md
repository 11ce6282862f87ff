# Quiz bot core, modelled in Dafny

The system is a Telegram quiz bot (`bot.py`). It sends users multiple-choice questions with one
inline button per option, grades the button a user presses, keeps a cumulative score per user
in a `users` table, logs every answer in a `user_answers` table, and once a month ranks the
users by right answers over the last 30 days.

This project models the quiz logic inside the bot's handlers and SQL:

- `payload.dfy` (module `Payload`): the button payload `"<question id>:<option index>"`, Python's
  `str.split(":")` with the two-part unpacking of the answer handler, `str(i)` and `int(s)`.
- `catalog.dfy` (module `Catalog`): catalog entries, lookup of the first entry with a given id,
  Python list indexing, the keyboard of a question, and the choice of three distinct questions
  for a quiz.
- `grading.dfy` (module `Grading`): grading a button press and wording the reply.
- `ledger.dfy` (module `Ledger`): the two tables as one object (`ScoreLedger`) with a `map` field
  and a `seq` field, and the answer handler as a method that reads the score, upserts it and
  appends one record.
- `leaderboard.dfy` (module `Leaderboard`): the monthly top-3 query as a pure function of the
  answer log and the clock reading `now`.
- `wrappers.dfy` (module `Wrappers`): `Option` and `Result`.

Modelling choices:

- Exceptions become `Failure` values. The handler raises on a malformed payload, on an unknown
  question id, on a non-numeric index and on a wrong answer whose `answer` index cannot index
  `options`. Each of these happens before the tables are written, so such a press changes
  nothing. These four are the grading errors (`Grading.AnswerError`); the handler reports them
  as `Rejected`.
- The handler stores the pressed index in the `INTEGER` column `answer`. An index that `int()`
  accepts but that lies outside -2^31 .. 2^31-1 is refused by that INSERT. By then the score row
  has already been upserted. So the user's row is written, no answer record is appended, and no
  reply is sent. The handler then returns its own error `IndexOutOfColumnRange`
  (`Ledger.HandlerError`), with the score written and the log unchanged. The bot's own buttons
  never carry such an index.
- The code does not check that a question's `answer` is a valid index. `options[answer]` is
  Python indexing: a negative index counts from the end, and anything else raises. It is only
  evaluated for a wrong answer.
- An unknown question id crashes the handler (it indexes `None`). It does not send a polite
  error. The model records it as the error `UnknownQuestion` with no state change.
- `update_score` always upserts, also after a wrong answer, so a first wrong answer creates a
  row with score 0.
- The ranking counts answers dated strictly after `now - 30 days`. It groups every user with
  an answer in that window, so a user whose answers there were all wrong appears with a total
  of 0. Ties come back in no particular order, and an answer dated exactly at the cutoff does
  not count. `IsLeaderboard` describes every ordering the query may return, and `TopUsers`
  computes one of them.
- Times are integers in microseconds. The clock is a parameter.
- The sample of three questions is a nondeterministic choice of three distinct catalog
  positions (`:|`). With fewer than three questions the result is an error, as in
  `random.sample`.

## Model

| member | source | states |
|---|---|---|
| `Payload.SplitJoin` | bot.py:132 | `split(":")` cuts at every `:` and nowhere else: joining the parts gives back the input, no part holds a `:`, and there is one more part than there are `:` |
| `Payload.ParseIntOfNatToString` | bot.py:137 | `int(str(i)) == i` for every option index `i` |
| `Payload.Decode` | bot.py:132 | unpacking succeeds exactly when the payload holds one `:`; then the payload is the two parts joined by `:`, and neither part holds a `:` |
| `Payload.DecodeEncode` | bot.py:93 | a payload built from an id without `:` and index `i` decodes to that id and `str(i)` |
| `Payload.DecodeEncodeColonId` | bot.py:132 | if the id holds a `:`, the handler cannot unpack the payload of any of its buttons |
| `Payload.EncodeInjective` | bot.py:93 | two buttons of one question with the same payload have the same index, whatever the id |
| `Catalog.Lookup` | bot.py:133 | the result is a catalog entry with the requested id; there is no result exactly when no entry has that id |
| `Catalog.LookupFirst` | bot.py:133 | when several entries share an id, the earliest one is returned |
| `Catalog.KeyboardDecodes` | bot.py:92-94 | a question whose id has no `:` and that has k options gets k buttons in option order; button i shows option i and its payload decodes to the question id and `str(i)`, which reads back as i |
| `Catalog.KeyboardPayloadsDistinct` | bot.py:92-94 | the buttons of one question carry pairwise different payloads |
| `Catalog.Message` | bot.py:90-96 | the message for a question carries its text and one button per option; button i shows option i and carries the payload `"<id>:<i>"` |
| `Catalog.Sample` | bot.py:89 | fails exactly when the catalog has fewer than 3 entries; otherwise 3 pairwise-distinct catalog positions |
| `Catalog.SendQuiz` | bot.py:88-96 | fails exactly when the catalog has fewer than 3 entries; otherwise one message per sampled question, for 3 distinct catalog positions |
| `Grading.Feedback` | bot.py:138 | the fixed text for a right answer, and a reply is that text if and only if the answer was right; for a wrong one, the fixed prefix followed by the option `options[answer]` names in Python (counting from the end for a negative index), and an error exactly when `answer` cannot index `options` |
| `Grading.Grade` | bot.py:132-138 | a press is accepted exactly when its payload unpacks, its id is in the catalog, its index parses as an integer and the reply can be worded; each of the four errors (malformed payload, unknown id, non-integer index, unindexable `answer`) arises in exactly its own case; a verdict names a catalog question, the index parsed from the payload, correctness exactly when that index equals the question's `answer`, and the matching reply |
| `Grading.GradeButton` | bot.py:133-138 | pressing button i of a well-formed question whose id has no `:` and that is the first catalog entry with that id is graded right exactly when i is its answer index; a wrong press is answered with the right option's text |
| `Ledger.CountsAppend` | bot.py:61-63 | appending one record raises its user's answer count by one and their right-answer count by one when it is right; other users' counts stay the same |
| `Ledger.ScoreLedger.constructor` | bot.py:35-44 | on a fresh database both tables start empty, and the ledger starts consistent |
| `Ledger.ScoreLedger.UpdateScore` | bot.py:49-55 | the user's row is inserted or overwritten with the new score; nothing else changes |
| `Ledger.ScoreLedger.ScoreOf` | bot.py:143-145 | 0 for a user without a row; in a consistent ledger, the user's number of right answers |
| `Ledger.ScoreLedger.SaveAnswer` | bot.py:58-65 | when the index fits `INTEGER`, exactly one record `(user, question id, answer, correct, now)` is appended; otherwise nothing is; scores are unchanged |
| `Ledger.ScoreLedger.ProcessAnswer` | bot.py:131-154 | a press that cannot be graded is rejected with its grading error and changes nothing; otherwise the user's score becomes its old value (0 when absent) plus 1 if right and no other score changes; then, if the index fits `INTEGER`, the reply is the verdict's text and exactly one record is appended, else the press fails with the log unchanged; a successful press preserves "every user with a row has answered, and their score equals their number of right answers" |
| `Leaderboard.Participants` | bot.py:77-78 | the grouped users are pairwise distinct and are exactly the users with an answer dated after the cutoff |
| `Leaderboard.Rows` | bot.py:75-78 | one row per such user, carrying that user's number of right answers after the cutoff |
| `Leaderboard.TakeTopSize` | bot.py:80 | keeping the top k gives min(k, number of rows) rows, all from the input |
| `Leaderboard.TakeTopSorted` | bot.py:79 | the kept rows come in non-increasing order of total |
| `Leaderboard.TakeTopDominates` | bot.py:79-80 | no row left out has a larger total than a kept one |
| `Leaderboard.TakeTopKeepsAll` | bot.py:80 | with at most k rows, every row is kept |
| `Leaderboard.TakeTopDistinct` | bot.py:78-80 | no user is listed twice |
| `Leaderboard.TakeTopMissing` | bot.py:79-80 | a user who is left out is left out of a full board of k rows, each with a total at least theirs |
| `Leaderboard.TopUsersIsLeaderboard` | bot.py:68-85 | the computed board has at most 3 rows for distinct users who answered in the last 30 days, each with their true monthly total, totals non-increasing, and a user left out only from a full board whose totals are all at least theirs |
| `Leaderboard.AbsentUsersNeverListed` | bot.py:77 | a user with no answer dated after the cutoff never appears on any acceptable board |
| `Leaderboard.WindowTotalAtMostScore` | bot.py:75-77 | a monthly total is at most the user's all-time number of right answers and at most their number of answers in the window |
| `Leaderboard.WindowTotalAtMostStoredScore` | bot.py:75-77 | in a consistent ledger, a monthly total is at most the score stored in `users` |
| `Leaderboard.WindowTotalAppend` | bot.py:75-77 | a new answer adds to a user's monthly total exactly when it is theirs, right, and dated after the cutoff |

## Left out

- The Telegram transport: sending messages, acknowledging callback queries, the keyboard
  objects beyond their button texts and payloads, and handler registration. These are calls
  into the bot library.
- The database connection and `create_db`'s DDL beyond "on a fresh database both tables start
  empty". A restart keeps the existing tables and their rows; the model covers a first start.
  The text of the pressed index is cast to `INTEGER` by the database. The record stores the
  parsed index, which is the same number for every text the model parses.
- Ledger.ScoreLedger.UpdateScore: does not model the `INTEGER` overflow of a score above
  2^31-1, because it needs more than two billion right answers from one user.
- The scheduled jobs `send_daily_quiz` and `send_top_users`, with their cron triggers and time
  zone. The daily job sends a quiz to every key of `users`. The monthly job sends one
  congratulation to each row of `TopUsers`. Neither adds logic beyond those two facts.
- Loading `questions.json` and reading the environment. The catalog is a parameter.
- The distribution of `random.sample` and the value of `datetime.now()`. Sampling is a
  nondeterministic choice and time is a parameter.
- The lost update between reading the score and upserting it when two presses of one user run
  concurrently. Each press is one sequential step here.
- The undefined `executor` at start-up and the mix of two bot-library API versions. These are
  run-time breakage, not quiz logic.
- Payload.ParseInt: models `int()` only on an optional `+` or `-` followed by ASCII digits. It
  does not accept surrounding whitespace, `_` digit separators or non-ASCII digits, which
  Python accepts. Payloads built by the bot never contain them.
- Payload.ParseInt: does not model the limit of Python's integer-string conversion (by default
  `int()` raises `ValueError` on more than 4300 decimal digits), so the model accepts such an
  index where the bot raises before writing anything. Telegram callback data holds at most 64
  bytes, so no such payload reaches the handler.
- Numeric question ids: identifiers are strings here. A catalog whose `id` is a JSON number is not
  modelled; the bot would render it into the payload but never find it again.
