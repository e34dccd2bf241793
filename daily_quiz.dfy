/**
 * The daily challenge (telegram/daily_quiz.py): one stored question per date,
 * at most one completion per user and date, per-user statistics with a streak
 * that must reach today, and a leaderboard.
 *
 * ISO date strings are day ordinals (their string order is their numeric
 * order); the clock, the random choice and the completion timestamp are
 * parameters.
 */
module DailyQuiz {
  import opened Wrappers
  import QuizQuestions
  import QuizStorage
  import Seqs

  type UserId = int
  type Day = int
  type Timestamp = int

  /** A stored question together with the `date` key written into it. */
  datatype DailyQuestion = DailyQuestion(question: QuizQuestions.Question, date: Day)

  datatype Completion = Completion(score: int, total: int, accuracy: real, completedAt: Timestamp)

  datatype DailyStats = DailyStats(
    totalCompleted: int,
    totalCorrect: int,
    totalAnswered: int,
    bestScore: real,
    currentStreak: int)

  const NoStats := DailyStats(0, 0, 0, 0.0, 0)

  datatype LeaderEntry = LeaderEntry(user: UserId, totalCompleted: int, avgAccuracy: real, totalCorrect: int)

  predicate NoDuplicates<T(==)>(s: seq<T>) {
    forall i, j :: 0 <= i < j < |s| ==> s[i] != s[j]
  }

  /**
   * One user's completions: a dict from date to completion, kept as its
   * insertion order plus the mapping itself.
   */
  datatype History = History(order: seq<Day>, entries: map<Day, Completion>)

  ghost predicate ValidHistory(h: History) {
    && (forall d :: d in h.entries ==> d in h.order)
    && (forall i :: 0 <= i < |h.order| ==> h.order[i] in h.entries)
    && NoDuplicates(h.order)
  }

  const EmptyHistory := History([], map[])

  // ---------------------------------------------------------------------------
  // Dates in descending order (`sorted(keys, reverse=True)`)

  predicate StrictlyDesc(s: seq<Day>) {
    forall i, j :: 0 <= i < j < |s| ==> s[i] > s[j]
  }

  /** Inserts `d` before the first date smaller than it. */
  function InsertDesc(d: Day, s: seq<Day>): (r: seq<Day>)
    ensures |r| == |s| + 1
    ensures forall x :: x in r <==> x == d || x in s
  {
    if s == [] || d > s[0] then [d] + s
    else
      assert s == [s[0]] + s[1..];
      [s[0]] + InsertDesc(d, s[1..])
  }

  lemma {:induction false} InsertDescSorted(d: Day, s: seq<Day>)
    requires StrictlyDesc(s) && d !in s
    ensures StrictlyDesc(InsertDesc(d, s))
    decreases |s|
  {
    if s != [] && d <= s[0] {
      assert s == [s[0]] + s[1..];
      InsertDescSorted(d, s[1..]);
      var rest := InsertDesc(d, s[1..]);
      forall k | 0 <= k < |rest|
        ensures rest[k] < s[0]
      {
        assert rest[k] in rest;
        if rest[k] != d {
          var j :| 0 <= j < |s[1..]| && s[1..][j] == rest[k];
          assert s[j + 1] == rest[k];
        }
      }
    }
  }

  /** The dates of `s`, newest first. */
  function SortDesc(s: seq<Day>): (r: seq<Day>)
    ensures |r| == |s|
    ensures forall x :: x in r <==> x in s
  {
    if s == [] then []
    else
      assert s == s[..|s| - 1] + [s[|s| - 1]];
      InsertDesc(s[|s| - 1], SortDesc(s[..|s| - 1]))
  }

  /** Sorting distinct dates yields them strictly newest first. */
  lemma {:induction false} SortDescSorted(s: seq<Day>)
    requires NoDuplicates(s)
    ensures StrictlyDesc(SortDesc(s))
    decreases |s|
  {
    if s != [] {
      var init := s[..|s| - 1];
      assert NoDuplicates(init);
      SortDescSorted(init);
      InsertDescSorted(s[|s| - 1], SortDesc(init));
    }
  }

  // ---------------------------------------------------------------------------
  // Per-user totals (`sum`, `max(..., default=0)`, `len`), over the dict's order

  function SumScores(m: map<Day, Completion>, ds: seq<Day>): int
    requires forall i :: 0 <= i < |ds| ==> ds[i] in m
  {
    if ds == [] then 0 else m[ds[0]].score + SumScores(m, ds[1..])
  }

  function SumTotals(m: map<Day, Completion>, ds: seq<Day>): int
    requires forall i :: 0 <= i < |ds| ==> ds[i] in m
  {
    if ds == [] then 0 else m[ds[0]].total + SumTotals(m, ds[1..])
  }

  /** The largest accuracy recorded on the dates `ds`, or 0 when there are none. */
  function BestAccuracy(m: map<Day, Completion>, ds: seq<Day>): (r: real)
    requires forall i :: 0 <= i < |ds| ==> ds[i] in m
    ensures forall i :: 0 <= i < |ds| ==> m[ds[i]].accuracy <= r
    ensures ds == [] ==> r == 0.0
    ensures ds != [] ==> exists i :: 0 <= i < |ds| && m[ds[i]].accuracy == r
  {
    if ds == [] then 0.0
    else if |ds| == 1 then m[ds[0]].accuracy
    else
      var rest := BestAccuracy(m, ds[1..]);
      assert forall i :: 1 <= i < |ds| ==> ds[i] == ds[1..][i - 1];
      if m[ds[0]].accuracy >= rest then m[ds[0]].accuracy else rest
  }

  // ---------------------------------------------------------------------------
  // The streak loop

  /**
   * The `for i, date_str in enumerate(sorted_dates)` loop: counts dates while
   * the i-th date is `today - i` and stops at the first that is not.
   */
  method CurrentStreak(dates: seq<Day>, today: Day) returns (streak: nat)
    ensures streak <= |dates|
    ensures forall i :: 0 <= i < streak ==> dates[i] == today - i
    ensures streak < |dates| ==> dates[streak] != today - streak
  {
    streak := 0;
    var i := 0;
    while i < |dates|
      invariant 0 <= i <= |dates|
      invariant streak == i
      invariant forall k :: 0 <= k < i ==> dates[k] == today - k
    {
      if dates[i] == today - i {
        streak := streak + 1;
      } else {
        break;
      }
      i := i + 1;
    }
  }

  /**
   * On dates sorted newest first with none after today, the loop's count is
   * exactly the run of consecutive completed days ending today: every day of
   * the run is completed and the day before it is not. In particular it is 0
   * unless today is completed.
   */
  lemma {:induction false} StreakIsRunEndingToday(dates: seq<Day>, today: Day, streak: nat)
    requires forall i, j :: 0 <= i < j < |dates| ==> dates[i] > dates[j]
    requires forall i :: 0 <= i < |dates| ==> dates[i] <= today
    requires streak <= |dates|
    requires forall i :: 0 <= i < streak ==> dates[i] == today - i
    requires streak < |dates| ==> dates[streak] != today - streak
    ensures forall d :: today - streak < d <= today ==> d in dates
    ensures today - streak !in dates
    ensures streak > 0 <==> today in dates
  {
    if streak < |dates| {
      assert dates[streak] < today - streak by {
        if streak > 0 {
          assert dates[streak] < dates[streak - 1];
        }
      }
      forall i | 0 <= i < |dates|
        ensures dates[i] != today - streak
      {
        if i < streak {
          assert dates[i] == today - i;
        } else if i > streak {
          assert dates[i] < dates[streak];
        }
      }
    }
    forall d | today - streak < d <= today
      ensures d in dates
    {
      assert dates[today - d] == d;
    }
    if streak > 0 {
      assert dates[0] == today;
    } else if |dates| > 0 {
      forall i | 0 <= i < |dates|
        ensures dates[i] != today
      {
        if i > 0 {
          assert dates[i] < dates[0];
        }
      }
    }
  }

  /** No completion of `h` is dated after `today`. */
  ghost predicate NoneAfter(h: History, today: Day) {
    forall d :: d in h.entries ==> d <= today
  }

  /** A date after `today` among dates sorted newest first means the newest is not `today`. */
  lemma FutureDateFirst(dates: seq<Day>, today: Day, d: Day)
    requires StrictlyDesc(dates) && d in dates && d > today
    ensures dates[0] != today
  {
    var j :| 0 <= j < |dates| && dates[j] == d;
    if j > 0 {
      assert dates[0] > dates[j];
    }
  }

  /** The streak facts `get_daily_quiz_stats` reports, stated on one user's completions. */
  lemma StreakFacts(h: History, dates: seq<Day>, today: Day, streak: nat)
    requires ValidHistory(h)
    requires dates == SortDesc(h.order)
    requires StrictlyDesc(dates)
    requires streak <= |dates|
    requires forall i :: 0 <= i < streak ==> dates[i] == today - i
    requires streak < |dates| ==> dates[streak] != today - streak
    ensures forall d :: today - streak < d <= today ==> d in h.entries
    ensures NoneAfter(h, today) ==> today - streak !in h.entries
    ensures streak > 0 ==> today in h.entries
    ensures (exists d :: d in h.entries && d > today) ==> streak == 0
  {
    if exists d :: d in h.entries && d > today {
      var d :| d in h.entries && d > today;
      assert d in dates;
      FutureDateFirst(dates, today, d);
    }
    forall d | today - streak < d <= today
      ensures d in h.entries
    {
      assert dates[today - d] == d;
      assert d in dates;
    }
    if NoneAfter(h, today) {
      forall i | 0 <= i < |dates|
        ensures dates[i] <= today
      {
        assert dates[i] in dates;
      }
      StreakIsRunEndingToday(dates, today, streak);
    }
  }

  /** The loop of `get_daily_quiz_leaderboard` that builds one row per user. */
  method BuildRows(users: seq<UserId>, c: map<UserId, History>) returns (rows: seq<LeaderEntry>)
    requires forall u :: u in c ==> ValidHistory(c[u])
    requires forall i :: 0 <= i < |users| ==> users[i] in c
    ensures rows == Rows(users, c)
  {
    rows := [];
    var i := 0;
    while i < |users|
      invariant 0 <= i <= |users|
      invariant rows == Rows(users[..i], c)
    {
      var u := users[i];
      assert users[..i + 1] == users[..i] + [u];
      rows := rows + [EntryFor(u, c[u])];
      i := i + 1;
    }
    assert users[..i] == users;
  }

  /** A leading slice of a ranking is a ranking. */
  lemma RankedPrefix(s: seq<LeaderEntry>, k: nat)
    requires RankedDesc(s) && k <= |s|
    ensures RankedDesc(s[..k])
  {
  }

  /** Sorting the rows keeps each row the row of its own user. */
  lemma SortedRowsAreRows(users: seq<UserId>, c: map<UserId, History>)
    requires forall u :: u in c ==> ValidHistory(c[u])
    requires forall i :: 0 <= i < |users| ==> users[i] in c
    ensures forall e :: e in SortRanked(Rows(users, c)) ==> e.user in c && e == EntryFor(e.user, c[e.user])
  {
    var rows := Rows(users, c);
    forall e | e in SortRanked(rows)
      ensures e.user in c && e == EntryFor(e.user, c[e.user])
    {
      assert e in multiset(rows);
      var j :| 0 <= j < |rows| && rows[j] == e;
    }
  }

  /**
   * A leading slice of the sorted rows is ranked, and each of its rows is
   * the row of its own user.
   */
  lemma LeaderboardSlice(users: seq<UserId>, c: map<UserId, History>, k: nat)
    requires forall u :: u in c ==> ValidHistory(c[u])
    requires forall i :: 0 <= i < |users| ==> users[i] in c
    requires k <= |users|
    ensures RankedDesc(SortRanked(Rows(users, c))[..k])
    ensures forall e :: e in SortRanked(Rows(users, c))[..k] ==> e.user in c && e == EntryFor(e.user, c[e.user])
  {
    var sorted := SortRanked(Rows(users, c));
    SortRankedIsRanking(Rows(users, c));
    RankedPrefix(sorted, k);
    SortedRowsAreRows(users, c);
    assert forall e :: e in sorted[..k] ==> e in sorted;
  }

  /**
   * The streak of a history: its dates sorted newest first, then counted
   * back from `today`.
   */
  method HistoryStreak(h: History, today: Day) returns (streak: nat)
    requires ValidHistory(h)
    ensures streak <= |h.order|
    ensures forall d :: today - streak < d <= today ==> d in h.entries
    ensures NoneAfter(h, today) ==> today - streak !in h.entries
    ensures streak > 0 ==> today in h.entries
    ensures (exists d :: d in h.entries && d > today) ==> streak == 0
  {
    var dates := SortDesc(h.order);
    SortDescSorted(h.order);
    streak := CurrentStreak(dates, today);
    StreakFacts(h, dates, today, streak);
  }

  // ---------------------------------------------------------------------------
  // Leaderboard ranking

  /** The leaderboard row of one user, from that user's completions. */
  function EntryFor(user: UserId, h: History): (e: LeaderEntry)
    requires ValidHistory(h)
    ensures e.user == user && e.totalCompleted == |h.order|
    ensures e.totalCorrect == SumScores(h.entries, h.order)
    ensures e.avgAccuracy == QuizStorage.Accuracy(e.totalCorrect, SumTotals(h.entries, h.order))
  {
    var correct := SumScores(h.entries, h.order);
    LeaderEntry(user, |h.order|, QuizStorage.Accuracy(correct, SumTotals(h.entries, h.order)), correct)
  }

  /** `a` ranks at least as high as `b` under the key `(total_completed, avg_accuracy)`, descending. */
  predicate RanksAtLeast(a: LeaderEntry, b: LeaderEntry) {
    a.totalCompleted > b.totalCompleted
    || (a.totalCompleted == b.totalCompleted && a.avgAccuracy >= b.avgAccuracy)
  }

  predicate RankedDesc(s: seq<LeaderEntry>) {
    forall i, j :: 0 <= i < j < |s| ==> RanksAtLeast(s[i], s[j])
  }

  /** Inserts `e` after every entry ranking at least as high, which keeps equal keys in arrival order. */
  function InsertRanked(e: LeaderEntry, s: seq<LeaderEntry>): (r: seq<LeaderEntry>)
    ensures multiset(r) == multiset(s) + multiset{e}
    ensures |r| == |s| + 1
  {
    if s == [] || !RanksAtLeast(s[0], e) then [e] + s
    else
      assert s == [s[0]] + s[1..];
      [s[0]] + InsertRanked(e, s[1..])
  }

  lemma {:induction false} InsertRankedKeepsOrder(e: LeaderEntry, s: seq<LeaderEntry>)
    requires RankedDesc(s)
    ensures RankedDesc(InsertRanked(e, s))
    decreases |s|
  {
    var r := InsertRanked(e, s);
    if s == [] || !RanksAtLeast(s[0], e) {
      forall j | 0 < j < |r|
        ensures RanksAtLeast(e, r[j])
      {
        assert r[j] == s[j - 1];
        assert RanksAtLeast(s[0], s[j - 1]) || j - 1 == 0;
      }
    } else {
      InsertRankedKeepsOrder(e, s[1..]);
      var tail := InsertRanked(e, s[1..]);
      assert r == [s[0]] + tail;
      forall j | 0 < j < |r|
        ensures RanksAtLeast(s[0], r[j])
      {
        assert r[j] in multiset(tail);
        assert r[j] in multiset(s[1..]) + multiset{e};
        if r[j] != e {
          assert r[j] in s[1..];
          var k :| 0 <= k < |s[1..]| && s[1..][k] == r[j];
          assert s[k + 1] == r[j];
        }
      }
    }
  }

  /** Python's stable `sort(key=..., reverse=True)` on the rows, by insertion. */
  function SortRanked(s: seq<LeaderEntry>): (r: seq<LeaderEntry>)
    ensures multiset(r) == multiset(s)
    ensures |r| == |s|
  {
    if s == [] then []
    else
      var init := s[..|s| - 1];
      assert s == init + [s[|s| - 1]];
      InsertRanked(s[|s| - 1], SortRanked(init))
  }

  /** The sort yields a ranking: non-increasing by (total completed, average accuracy), and a permutation. */
  lemma {:induction false} SortRankedIsRanking(s: seq<LeaderEntry>)
    ensures RankedDesc(SortRanked(s))
    ensures multiset(SortRanked(s)) == multiset(s)
    decreases |s|
  {
    if s != [] {
      SortRankedIsRanking(s[..|s| - 1]);
      InsertRankedKeepsOrder(s[|s| - 1], SortRanked(s[..|s| - 1]));
    }
  }

  /** The entries of `s` whose key is `(completed, accuracy)`, in the order of `s`. */
  function OfKey(s: seq<LeaderEntry>, completed: int, accuracy: real): (r: seq<LeaderEntry>)
    ensures forall e :: e in r ==> e in s && e.totalCompleted == completed && e.avgAccuracy == accuracy
  {
    if s == [] then []
    else if s[0].totalCompleted == completed && s[0].avgAccuracy == accuracy then [s[0]] + OfKey(s[1..], completed, accuracy)
    else OfKey(s[1..], completed, accuracy)
  }

  /** The key filter distributes over concatenation. */
  lemma {:induction false} OfKeyConcat(a: seq<LeaderEntry>, b: seq<LeaderEntry>, completed: int, accuracy: real)
    ensures OfKey(a + b, completed, accuracy) == OfKey(a, completed, accuracy) + OfKey(b, completed, accuracy)
    decreases |a|
  {
    if a == [] {
      assert a + b == b;
    } else {
      assert (a + b)[0] == a[0];
      assert (a + b)[1..] == a[1..] + b;
      OfKeyConcat(a[1..], b, completed, accuracy);
    }
  }

  /** The key filter on a list with one more entry in front. */
  lemma OfKeyCons(x: LeaderEntry, s: seq<LeaderEntry>, completed: int, accuracy: real)
    ensures OfKey([x] + s, completed, accuracy)
            == (if x.totalCompleted == completed && x.avgAccuracy == accuracy then [x] else []) + OfKey(s, completed, accuracy)
  {
    assert ([x] + s)[0] == x && ([x] + s)[1..] == s;
  }

  /** In a ranking headed by an entry ranking strictly below `e`, no entry has the key of `e`. */
  lemma BelowHasNoneOfKey(e: LeaderEntry, s: seq<LeaderEntry>)
    requires RankedDesc(s) && s != [] && !RanksAtLeast(s[0], e)
    ensures OfKey(s, e.totalCompleted, e.avgAccuracy) == []
  {
  }

  /** Inserting into a ranking places `e` after every earlier entry with its key. */
  lemma {:induction false} OfKeyInsert(e: LeaderEntry, s: seq<LeaderEntry>, completed: int, accuracy: real)
    requires RankedDesc(s)
    ensures OfKey(InsertRanked(e, s), completed, accuracy)
            == OfKey(s, completed, accuracy) + (if e.totalCompleted == completed && e.avgAccuracy == accuracy then [e] else [])
    decreases |s|
  {
    var tied := e.totalCompleted == completed && e.avgAccuracy == accuracy;
    var added: seq<LeaderEntry> := if tied then [e] else [];
    if s == [] || !RanksAtLeast(s[0], e) {
      OfKeyInsertFront(e, s, completed, accuracy);
    } else {
      var t := InsertRanked(e, s[1..]);
      assert RankedDesc(s[1..]);
      OfKeyInsert(e, s[1..], completed, accuracy);
      OfKeyCons(s[0], t, completed, accuracy);
      assert s == [s[0]] + s[1..];
      OfKeyCons(s[0], s[1..], completed, accuracy);
      var head: seq<LeaderEntry> := if s[0].totalCompleted == completed && s[0].avgAccuracy == accuracy then [s[0]] else [];
      Seqs.ConcatAssoc(head, OfKey(s[1..], completed, accuracy), added);
    }
  }

  /** Inserting `e` in front of a ranking headed by a lower entry adds it after its key's entries, of which there are none. */
  lemma OfKeyInsertFront(e: LeaderEntry, s: seq<LeaderEntry>, completed: int, accuracy: real)
    requires RankedDesc(s) && (s == [] || !RanksAtLeast(s[0], e))
    ensures OfKey(InsertRanked(e, s), completed, accuracy)
            == OfKey(s, completed, accuracy) + (if e.totalCompleted == completed && e.avgAccuracy == accuracy then [e] else [])
  {
    var added: seq<LeaderEntry> := if e.totalCompleted == completed && e.avgAccuracy == accuracy then [e] else [];
    var rest := OfKey(s, completed, accuracy);
    assert InsertRanked(e, s) == [e] + s;
    OfKeyCons(e, s, completed, accuracy);
    if added != [] {
      if s != [] {
        BelowHasNoneOfKey(e, s);
      }
      assert rest == [];
    }
    assert added + rest == rest + added;
  }

  /**
   * The sort is stable: the entries of any one key keep the order they had
   * before sorting, as Python's `list.sort` guarantees.
   */
  lemma {:induction false} SortRankedIsStable(s: seq<LeaderEntry>, completed: int, accuracy: real)
    ensures OfKey(SortRanked(s), completed, accuracy) == OfKey(s, completed, accuracy)
    decreases |s|
  {
    if s != [] {
      var init := s[..|s| - 1];
      var last := s[|s| - 1];
      SortRankedIsStable(init, completed, accuracy);
      SortRankedIsRanking(init);
      OfKeyInsert(last, SortRanked(init), completed, accuracy);
      assert s == init + [last];
      OfKeyConcat(init, [last], completed, accuracy);
      assert OfKey([last], completed, accuracy)
             == if last.totalCompleted == completed && last.avgAccuracy == accuracy then [last] else [];
    }
  }

  /**
   * On a leaderboard cut to its first `k` rows, the rows of each key are the
   * first rows of that key in user order: ties go to the users who completed
   * a daily quiz first.
   */
  lemma LeaderboardTiesInUserOrder(users: seq<UserId>, c: map<UserId, History>, k: nat)
    requires forall u :: u in c ==> ValidHistory(c[u])
    requires forall i :: 0 <= i < |users| ==> users[i] in c
    requires k <= |users|
    ensures TiesKeepOrder(SortRanked(Rows(users, c))[..k], Rows(users, c))
  {
    var rows := Rows(users, c);
    forall completed, accuracy
      ensures OfKey(SortRanked(rows)[..k], completed, accuracy) <= OfKey(rows, completed, accuracy)
    {
      StableCut(rows, k, completed, accuracy);
    }
  }

  /**
   * For every key, the entries of `board` with that key are the first entries
   * of `rows` with that key, in the same order.
   */
  ghost predicate TiesKeepOrder(board: seq<LeaderEntry>, rows: seq<LeaderEntry>) {
    forall completed, accuracy :: OfKey(board, completed, accuracy) <= OfKey(rows, completed, accuracy)
  }

  /** A leading slice of the sorted entries holds a leading part of each key's entries. */
  lemma StableCut(s: seq<LeaderEntry>, k: nat, completed: int, accuracy: real)
    requires k <= |s|
    ensures OfKey(SortRanked(s)[..k], completed, accuracy) <= OfKey(s, completed, accuracy)
  {
    var sorted := SortRanked(s);
    SortRankedIsStable(s, completed, accuracy);
    assert sorted == sorted[..k] + sorted[k..];
    OfKeyConcat(sorted[..k], sorted[k..], completed, accuracy);
  }

  /** The length of `xs[:limit]` for a list of length `n`, negative limits counting from the end. */
  function SliceLength(n: nat, limit: int): (k: nat)
    ensures k <= n
    ensures 0 <= limit ==> k == (if limit < n then limit else n)
    ensures limit < 0 ==> k == (if n + limit > 0 then n + limit else 0)
  {
    if limit >= 0 then (if limit < n then limit else n)
    else if n + limit > 0 then n + limit else 0
  }

  /** The rows of the users `users` (in that order), built from the completions `c`. */
  function Rows(users: seq<UserId>, c: map<UserId, History>): (r: seq<LeaderEntry>)
    requires forall u :: u in c ==> ValidHistory(c[u])
    requires forall i :: 0 <= i < |users| ==> users[i] in c
    ensures |r| == |users|
    ensures forall i :: 0 <= i < |r| ==> r[i] == EntryFor(users[i], c[users[i]])
  {
    if users == [] then []
    else Rows(users[..|users| - 1], c) + [EntryFor(users[|users| - 1], c[users[|users| - 1]])]
  }

  // ---------------------------------------------------------------------------
  // The store

  /** The contents of `daily_quiz.json`. */
  class DailyQuizStore {
    var dailyQuizzes: map<Day, DailyQuestion>
    var completions: map<UserId, History>
    /** The insertion order of the users in `completions`, which the leaderboard iterates. */
    var completionUsers: seq<UserId>

    ghost predicate Valid()
      reads this
    {
      && (forall u :: u in completions ==> u in completionUsers)
      && (forall i :: 0 <= i < |completionUsers| ==> completionUsers[i] in completions)
      && NoDuplicates(completionUsers)
      && (forall u :: u in completions ==> ValidHistory(completions[u]))
    }

    constructor ()
      ensures Valid()
      ensures dailyQuizzes == map[] && completions == map[] && completionUsers == []
    {
      dailyQuizzes := map[];
      completions := map[];
      completionUsers := [];
    }

    /**
     * `get_today_quiz_question`: the question stored for `today`, or else a
     * fresh unfiltered pick from `catalogue` (driven by the random value `r`),
     * stamped with `today` and stored. The shipped catalogue is never empty;
     * on an empty one the source fails.
     */
    method GetTodayQuizQuestion(today: Day, catalogue: seq<QuizQuestions.Question>, r: nat) returns (q: DailyQuestion)
      requires catalogue != []
      modifies this
      ensures today in old(dailyQuizzes) ==> q == old(dailyQuizzes)[today] && dailyQuizzes == old(dailyQuizzes)
      ensures today !in old(dailyQuizzes) ==> q.question in catalogue && q.date == today
      ensures dailyQuizzes == old(dailyQuizzes)[today := q]
      ensures completions == old(completions) && completionUsers == old(completionUsers)
    {
      if today in dailyQuizzes {
        q := dailyQuizzes[today];
        return;
      }
      var picked := QuizQuestions.GetRandomQuestion(catalogue, "", "", [], r);
      q := DailyQuestion(picked.value, today);
      dailyQuizzes := dailyQuizzes[today := q];
    }

    /** `get_quiz_question_for_date`. */
    function GetQuizQuestionForDate(date: Day): (r: Option<DailyQuestion>)
      reads this
      ensures r.Some? <==> date in dailyQuizzes
      ensures r.Some? ==> r.value == dailyQuizzes[date]
    {
      if date in dailyQuizzes then Some(dailyQuizzes[date]) else None
    }

    /** The completions of `user`, empty for a user who never completed. */
    function UserHistory(user: UserId): (h: History)
      reads this
      ensures user in completions ==> h == completions[user]
      ensures user !in completions ==> h == EmptyHistory
    {
      if user in completions then completions[user] else EmptyHistory
    }

    /** `has_completed_daily_quiz`. */
    predicate HasCompletedDailyQuiz(user: UserId, today: Day): (b: bool)
      reads this
      ensures b <==> user in completions && today in completions[user].entries
    {
      today in UserHistory(user).entries
    }

    /**
     * `mark_daily_quiz_completed`: the first completion of `user` on `today` is
     * recorded (accuracy `score / total * 100`, or 0 for `total = 0`) and the
     * result is true; a repeat returns false and changes nothing.
     */
    method MarkDailyQuizCompleted(user: UserId, score: int, total: int, today: Day, now: Timestamp) returns (recorded: bool)
      requires Valid()
      modifies this
      ensures Valid()
      ensures recorded <==> !old(HasCompletedDailyQuiz(user, today))
      ensures recorded ==> completions == old(completions)[user :=
        var h := old(UserHistory(user));
        History(h.order + [today], h.entries[today := Completion(score, total, QuizStorage.Accuracy(score, total), now)])]
      ensures recorded ==> completionUsers == if user in old(completions) then old(completionUsers) else old(completionUsers) + [user]
      ensures !recorded ==> completions == old(completions) && completionUsers == old(completionUsers)
      ensures HasCompletedDailyQuiz(user, today)
      ensures dailyQuizzes == old(dailyQuizzes)
    {
      if user !in completions {
        completions := completions[user := EmptyHistory];
        completionUsers := completionUsers + [user];
      }
      var h := completions[user];
      if today !in h.entries {
        var accuracy := if total > 0 then (score as real / total as real) * 100.0 else 0.0;
        completions := completions[user := History(h.order + [today], h.entries[today := Completion(score, total, accuracy, now)])];
        recorded := true;
      } else {
        recorded := false;
      }
    }

    /**
     * `get_daily_quiz_stats`: the number of completed dates, the score and
     * question totals, the best accuracy and the streak ending today; all zero
     * for a user with no completions.
     */
    method GetDailyQuizStats(user: UserId, today: Day) returns (st: DailyStats)
      requires Valid()
      ensures user !in completions ==> st == NoStats
      ensures user in completions ==>
        var h := completions[user];
        && st.totalCompleted == |h.order|
        && st.totalCorrect == SumScores(h.entries, h.order)
        && st.totalAnswered == SumTotals(h.entries, h.order)
        && st.bestScore == BestAccuracy(h.entries, h.order)
      ensures 0 <= st.currentStreak <= st.totalCompleted
      ensures forall d :: today - st.currentStreak < d <= today ==> HasCompletedDailyQuiz(user, d)
      ensures NoneAfter(UserHistory(user), today) ==>
        !HasCompletedDailyQuiz(user, today - st.currentStreak)
      ensures st.currentStreak > 0 ==> HasCompletedDailyQuiz(user, today)
      ensures (exists d :: d in UserHistory(user).entries && d > today) ==> st.currentStreak == 0
    {
      if user !in completions {
        return NoStats;
      }
      var h := completions[user];
      var streak := HistoryStreak(h, today);
      assert UserHistory(user) == h;
      st := DailyStats(|h.order|, SumScores(h.entries, h.order), SumTotals(h.entries, h.order),
                       BestAccuracy(h.entries, h.order), streak);
    }

    /**
     * `get_daily_quiz_leaderboard`: one row per user in insertion order, sorted
     * by (total completed, average accuracy) descending, then cut to `limit`
     * with Python slice semantics.
     */
    method GetDailyQuizLeaderboard(limit: int) returns (board: seq<LeaderEntry>)
      requires Valid()
      ensures board == SortRanked(Rows(completionUsers, completions))[..SliceLength(|completionUsers|, limit)]
      ensures |board| == SliceLength(|completionUsers|, limit)
      ensures RankedDesc(board)
      ensures forall e :: e in board ==> e.user in completions && e == EntryFor(e.user, completions[e.user])
      ensures TiesKeepOrder(board, Rows(completionUsers, completions))
    {
      var rows := BuildRows(completionUsers, completions);
      var n := SliceLength(|completionUsers|, limit);
      board := SortRanked(rows)[..n];
      LeaderboardSlice(completionUsers, completions, n);
      LeaderboardTiesInUserOrder(completionUsers, completions, n);
    }
  }
}
