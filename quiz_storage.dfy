/**
 * Quiz scores and active quiz sessions (telegram/quiz_storage.py).
 *
 * Each JSON file becomes a map field of a class, initially empty (a missing or
 * unreadable file reads as `{}`); each load-change-save function becomes a
 * method on that map. Percentages are exact reals.
 */
module QuizStorage {
  import opened Wrappers
  import QuizQuestions

  type UserId = int

  datatype ScoreRecord = ScoreRecord(
    totalAnswered: int,
    totalCorrect: int,
    quizzesCompleted: int,
    bestScore: real)

  /** The record an unseen user gets. */
  const EmptyScore := ScoreRecord(0, 0, 0, 0.0)

  /** `correct / answered * 100`, or 0 when nothing was answered. */
  function Accuracy(correct: int, answered: int): real {
    if answered > 0 then (correct as real / answered as real) * 100.0 else 0.0
  }

  /**
   * The record after one finished quiz: the running totals grow by the quiz's
   * counts and the best score becomes the larger of the old best and the
   * CUMULATIVE accuracy (not the accuracy of this quiz).
   */
  function RecordQuiz(rec: ScoreRecord, correct: int, total: int): (r: ScoreRecord)
    ensures r.totalAnswered == rec.totalAnswered + total
    ensures r.totalCorrect == rec.totalCorrect + correct
    ensures r.quizzesCompleted == rec.quizzesCompleted + 1
    ensures r.bestScore >= rec.bestScore
    ensures r.bestScore >= Accuracy(r.totalCorrect, r.totalAnswered)
    ensures r.bestScore == rec.bestScore || r.bestScore == Accuracy(r.totalCorrect, r.totalAnswered)
  {
    var answered := rec.totalAnswered + total;
    var right := rec.totalCorrect + correct;
    var accuracy := Accuracy(right, answered);
    ScoreRecord(answered, right, rec.quizzesCompleted + 1,
                if accuracy > rec.bestScore then accuracy else rec.bestScore)
  }

  datatype QuizResult = QuizResult(correct: int, total: int)

  /** The record after a series of quizzes, oldest first. */
  function RecordQuizzes(rec: ScoreRecord, results: seq<QuizResult>): ScoreRecord
    decreases |results|
  {
    if results == [] then rec
    else RecordQuizzes(RecordQuiz(rec, results[0].correct, results[0].total), results[1..])
  }

  function SumCorrect(results: seq<QuizResult>): int {
    if results == [] then 0 else results[0].correct + SumCorrect(results[1..])
  }

  function SumTotal(results: seq<QuizResult>): int {
    if results == [] then 0 else results[0].total + SumTotal(results[1..])
  }

  /**
   * Over any series of quizzes the totals are the sums of the quizzes' counts,
   * one quiz is counted per call, and the best score never decreases.
   */
  lemma {:induction false} RecordQuizzesAccumulates(rec: ScoreRecord, results: seq<QuizResult>)
    ensures var r := RecordQuizzes(rec, results);
      && r.totalAnswered == rec.totalAnswered + SumTotal(results)
      && r.totalCorrect == rec.totalCorrect + SumCorrect(results)
      && r.quizzesCompleted == rec.quizzesCompleted + |results|
      && r.bestScore >= rec.bestScore
    decreases |results|
  {
    if results != [] {
      RecordQuizzesAccumulates(RecordQuiz(rec, results[0].correct, results[0].total), results[1..]);
    }
  }

  /**
   * Because the best score is a cumulative accuracy, a perfect quiz after any
   * earlier wrong answer does not reach 100: one wrong answer, then ten right.
   */
  lemma CumulativeBestScoreAfterPerfectQuiz()
    ensures var r := RecordQuiz(RecordQuiz(EmptyScore, 0, 1), 10, 10);
      r.totalCorrect == 10 && r.totalAnswered == 11 && r.bestScore < 100.0
  {
    var first := RecordQuiz(EmptyScore, 0, 1);
    assert first.bestScore == 0.0;
    assert Accuracy(10, 11) == (10.0 / 11.0) * 100.0;
  }

  /** The per-user cumulative quiz scores (`quiz_scores.json`). */
  class ScoreStore {
    var scores: map<UserId, ScoreRecord>

    constructor ()
      ensures scores == map[]
    {
      scores := map[];
    }

    /** `get_user_score`: the stored record, or the all-zero record for an unseen user. */
    function GetUserScore(user: UserId): (r: ScoreRecord)
      reads this
      ensures user !in scores ==> r == EmptyScore
      ensures user in scores ==> r == scores[user]
    {
      if user in scores then scores[user] else EmptyScore
    }

    /**
     * `update_user_score`: records one finished quiz for `user` and leaves every
     * other user's record as it was.
     */
    method UpdateUserScore(user: UserId, correct: int, total: int)
      modifies this
      ensures scores == old(scores)[user := RecordQuiz(old(GetUserScore(user)), correct, total)]
      ensures GetUserScore(user).bestScore >= old(GetUserScore(user)).bestScore
      ensures forall other :: other != user ==> GetUserScore(other) == old(GetUserScore(other))
    {
      if user !in scores {
        scores := scores[user := EmptyScore];
      }
      var rec := scores[user];
      var answered := rec.totalAnswered + total;
      var right := rec.totalCorrect + correct;
      var completed := rec.quizzesCompleted + 1;
      var accuracy := if answered > 0 then (right as real / answered as real) * 100.0 else 0.0;
      var best := rec.bestScore;
      if accuracy > best {
        best := accuracy;
      }
      scores := scores[user := ScoreRecord(answered, right, completed, best)];
    }
  }

  /** One active quiz; `started_at` is always `None` in the source and is not kept. */
  datatype Session = Session(
    questionIndex: int,
    questionData: QuizQuestions.Question,
    score: int,
    total: int)

  /** The single-slot active quiz sessions (`active_quizzes.json`). */
  class SessionStore {
    var quizzes: map<UserId, Session>

    constructor ()
      ensures quizzes == map[]
    {
      quizzes := map[];
    }

    /** `get_quiz_session`. */
    function GetQuizSession(user: UserId): (r: Option<Session>)
      reads this
      ensures r.Some? <==> user in quizzes
      ensures r.Some? ==> r.value == quizzes[user]
    {
      if user in quizzes then Some(quizzes[user]) else None
    }

    /** `start_quiz_session`: a fresh session with score and total 0, replacing any existing one. */
    method StartQuizSession(user: UserId, questionIndex: int, questionData: QuizQuestions.Question)
      modifies this
      ensures quizzes == old(quizzes)[user := Session(questionIndex, questionData, 0, 0)]
      ensures GetQuizSession(user) == Some(Session(questionIndex, questionData, 0, 0))
    {
      quizzes := quizzes[user := Session(questionIndex, questionData, 0, 0)];
    }

    /**
     * `update_quiz_session`: sets score and total of an existing session and
     * reports whether there was one; without a session nothing changes.
     */
    method UpdateQuizSession(user: UserId, score: int, total: int) returns (updated: bool)
      modifies this
      ensures updated <==> user in old(quizzes)
      ensures updated ==> quizzes == old(quizzes)[user := old(quizzes)[user].(score := score, total := total)]
      ensures !updated ==> quizzes == old(quizzes)
    {
      if user in quizzes {
        var s := quizzes[user];
        quizzes := quizzes[user := s.(score := score, total := total)];
        updated := true;
      } else {
        updated := false;
      }
    }

    /** `end_quiz_session`: removes the session and returns it, or returns `None`. */
    method EndQuizSession(user: UserId) returns (ended: Option<Session>)
      modifies this
      ensures ended == old(GetQuizSession(user))
      ensures quizzes == old(quizzes) - {user}
      ensures GetQuizSession(user) == None
    {
      if user in quizzes {
        ended := Some(quizzes[user]);
        quizzes := quizzes - {user};
      } else {
        ended := None;
      }
    }
  }
}
