/**
 * Bible-reading progress (telegram/reading_progress.py): for each user and
 * year, the list of completed day numbers, the last day marked and the count.
 *
 * The JSON file `{"progress": {user: {year: record}}}` becomes the nested map
 * field of `ProgressStore`; the current year and the current day of the year
 * are parameters.
 */
module ReadingProgress {
  import opened Wrappers

  type UserId = int
  type Year = int

  datatype ReadingRecord = ReadingRecord(completedDays: seq<int>, lastCompleted: Option<int>, totalCompleted: int)

  /** The record of a user/year pair nothing was marked for. */
  const EmptyRecord := ReadingRecord([], None, 0)

  /** Sorted with no day twice. */
  predicate Increasing(s: seq<int>) {
    forall i, j :: 0 <= i < j < |s| ==> s[i] < s[j]
  }

  /** Sorted, possibly with repeats: what `sorted` returns. */
  predicate Sorted(s: seq<int>) {
    forall i, j :: 0 <= i < j < |s| ==> s[i] <= s[j]
  }

  /** What every stored record satisfies: sorted, duplicate-free and counted. */
  predicate ValidRecord(r: ReadingRecord) {
    Increasing(r.completedDays) && r.totalCompleted == |r.completedDays|
  }

  // ---------------------------------------------------------------------------
  // Marking a day
  // ---------------------------------------------------------------------------

  /** `s` with `d` appended and the list sorted again. */
  function InsertSorted(d: int, s: seq<int>): (r: seq<int>)
    requires Increasing(s) && d !in s
    ensures Increasing(r)
    ensures |r| == |s| + 1
    ensures forall x :: x in r <==> x in s || x == d
  {
    if s == [] then [d]
    else if d < s[0] then [d] + s
    else
      var rest := InsertSorted(d, s[1..]);
      assert forall i :: 0 <= i < |rest| ==> rest[i] > s[0] by {
        forall i | 0 <= i < |rest|
          ensures rest[i] > s[0]
        {
          assert rest[i] in rest;
          if rest[i] != d {
            var j :| 0 <= j < |s[1..]| && s[1..][j] == rest[i];
            assert s[j + 1] == rest[i];
          }
        }
      }
      [s[0]] + rest
  }

  /** A sorted duplicate-free list is determined by its elements. */
  lemma {:induction false} IncreasingIsUnique(a: seq<int>, b: seq<int>)
    requires Increasing(a) && Increasing(b)
    requires forall x :: x in a <==> x in b
    ensures a == b
    decreases |a|
  {
    HeadIsMember(a);
    HeadIsMember(b);
    if a != [] && b != [] {
      assert a[0] == b[0] by {
        assert a[0] in b && b[0] in a;
      }
      forall x
        ensures x in a[1..] <==> x in b[1..]
      {
        if x in a[1..] {
          assert x in b && x > a[0];
        }
        if x in b[1..] {
          assert x in a && x > b[0];
        }
      }
      IncreasingIsUnique(a[1..], b[1..]);
      assert a == [a[0]] + a[1..] && b == [b[0]] + b[1..];
    }
  }

  lemma HeadIsMember(s: seq<int>)
    ensures s != [] ==> s[0] in s
  {
  }

  /**
   * The record after `day` is marked: unchanged if the day is in it, otherwise
   * the day is inserted in order, becomes the last completed day, and the count
   * is the new length.
   */
  function Mark(rec: ReadingRecord, day: int): (r: ReadingRecord)
    requires ValidRecord(rec)
    ensures ValidRecord(r)
    ensures forall d :: d in r.completedDays <==> d in rec.completedDays || d == day
    ensures day in rec.completedDays ==> r == rec
    ensures day !in rec.completedDays ==> r.lastCompleted == Some(day) && r.totalCompleted == rec.totalCompleted + 1
  {
    if day in rec.completedDays then rec
    else
      var days := InsertSorted(day, rec.completedDays);
      ReadingRecord(days, Some(day), |days|)
  }

  /** Marking the same day twice is the same as marking it once. */
  lemma MarkIsIdempotent(rec: ReadingRecord, day: int)
    requires ValidRecord(rec)
    ensures Mark(Mark(rec, day), day) == Mark(rec, day)
  {
  }

  /**
   * The days of the marked record are the sorted old days plus the new one,
   * whatever order days were marked in.
   */
  lemma MarkIsSortedUnion(rec: ReadingRecord, day: int, sorted: seq<int>)
    requires ValidRecord(rec)
    requires Increasing(sorted)
    requires forall x :: x in sorted <==> x in rec.completedDays || x == day
    ensures Mark(rec, day).completedDays == sorted
  {
    IncreasingIsUnique(Mark(rec, day).completedDays, sorted);
  }

  // ---------------------------------------------------------------------------
  // Year length and progress summary
  // ---------------------------------------------------------------------------

  /** The Gregorian rule: divisible by 4, and not by 100 unless by 400. */
  predicate IsLeapYear(year: Year) {
    year % 4 == 0 && (year % 100 != 0 || year % 400 == 0)
  }

  function TotalDays(year: Year): (n: int)
    ensures n == 365 || n == 366
    ensures n == 366 <==> IsLeapYear(year)
  {
    if IsLeapYear(year) then 366 else 365
  }

  /** The year length repeats every 400 years. */
  lemma TotalDaysPeriodic(year: Year)
    ensures TotalDays(year + 400) == TotalDays(year)
  {
  }

  /** Century years are leap years only when divisible by 400. */
  lemma CenturyYears()
    ensures TotalDays(2000) == 366 && TotalDays(1900) == 365 && TotalDays(2100) == 365
    ensures TotalDays(2024) == 366 && TotalDays(2023) == 365
  {
  }

  /** The dictionary `get_user_progress` returns. */
  datatype Progress = Progress(
    completedDays: seq<int>,
    lastCompleted: Option<int>,
    totalCompleted: int,
    completionPercentage: real)

  /** A stored record as `get_user_progress` reports it for `year`. */
  function Summary(rec: ReadingRecord, year: Year): (p: Progress)
    ensures p.completedDays == rec.completedDays && p.lastCompleted == rec.lastCompleted
    ensures p.totalCompleted == rec.totalCompleted
    ensures p.completionPercentage * TotalDays(year) as real == rec.totalCompleted as real * 100.0
  {
    Progress(rec.completedDays, rec.lastCompleted, rec.totalCompleted,
             (rec.totalCompleted as real / TotalDays(year) as real) * 100.0)
  }

  /** The reply for a user/year pair with no record. */
  const NoProgress := Progress([], None, 0, 0.0)

  /** A full year of reading is exactly 100 percent, in leap and common years. */
  lemma FullYearIsComplete(rec: ReadingRecord, year: Year)
    requires rec.totalCompleted == TotalDays(year)
    ensures Summary(rec, year).completionPercentage == 100.0
  {
  }

  // ---------------------------------------------------------------------------
  // Streaks
  // ---------------------------------------------------------------------------

  /**
   * The number of consecutive completed days counted down from `day` and
   * stopping at the first day that is missing or not positive.
   */
  function RunDownFrom(days: seq<int>, day: int): (n: nat)
    ensures n <= if day > 0 then day else 0
    decreases if day > 0 then day else 0
  {
    if day > 0 && day in days then 1 + RunDownFrom(days, day - 1) else 0
  }

  /** The run counted from `day` is exactly the completed days just below and at it. */
  lemma {:induction false} RunDownFromIsRun(days: seq<int>, day: int)
    ensures forall d :: day - RunDownFrom(days, day) < d <= day ==> d in days
    ensures day - RunDownFrom(days, day) <= 0 || day - RunDownFrom(days, day) !in days
    decreases if day > 0 then day else 0
  {
    if day > 0 && day in days {
      RunDownFromIsRun(days, day - 1);
    }
  }

  /** The day the current streak is counted from: today if completed, otherwise yesterday. */
  function StreakStart(days: seq<int>, currentDay: int): int {
    if currentDay in days then currentDay else currentDay - 1
  }

  /**
   * `get_current_streak` on the completed days of the year: the run of
   * consecutive completed days ending today, or ending yesterday when today is
   * not yet completed.
   */
  method CurrentStreak(days: seq<int>, currentDay: int) returns (streak: nat)
    ensures streak == RunDownFrom(days, StreakStart(days, currentDay))
    ensures days == [] ==> streak == 0
    ensures streak <= if currentDay > 0 then currentDay else 0
  {
    if days == [] {
      return 0;
    }
    var checkDay := if currentDay in days then currentDay else currentDay - 1;
    streak := 0;
    while checkDay in days && checkDay > 0
      invariant streak + RunDownFrom(days, checkDay) == RunDownFrom(days, StreakStart(days, currentDay))
      decreases if checkDay > 0 then checkDay else 0
    {
      streak := streak + 1;
      checkDay := checkDay - 1;
    }
  }

  /** The current streak covers consecutive completed days ending at today or yesterday. */
  lemma CurrentStreakIsRun(days: seq<int>, currentDay: int)
    ensures var start := StreakStart(days, currentDay);
      var n := RunDownFrom(days, start);
      && (forall d :: start - n < d <= start ==> d in days)
      && (start - n <= 0 || start - n !in days)
  {
    RunDownFromIsRun(days, StreakStart(days, currentDay));
  }

  /** The length of the run of consecutive numbers ending at position `i`. */
  function RunEnd(s: seq<int>, i: nat): (n: nat)
    requires i < |s|
    ensures 1 <= n <= i + 1
  {
    if i > 0 && s[i] == s[i - 1] + 1 then RunEnd(s, i - 1) + 1 else 1
  }

  /** The longest run ending at one of the first `n` positions. */
  function MaxRun(s: seq<int>, n: nat): (m: nat)
    requires 1 <= n <= |s|
    ensures 1 <= m <= n
  {
    if n == 1 then 1
    else
      var prev := MaxRun(s, n - 1);
      var here := RunEnd(s, n - 1);
      if here > prev then here else prev
  }

  /** `len` positions from `k` hold consecutive numbers. */
  predicate Consecutive(s: seq<int>, k: nat, len: nat)
    requires k + len <= |s|
  {
    forall j :: k <= j < k + len ==> s[j] == s[k] + (j - k)
  }

  /** The run ending at `i` is a block of consecutive numbers. */
  lemma {:induction false} RunEndIsConsecutive(s: seq<int>, i: nat)
    requires i < |s|
    ensures Consecutive(s, i + 1 - RunEnd(s, i), RunEnd(s, i))
  {
    if i > 0 && s[i] == s[i - 1] + 1 {
      RunEndIsConsecutive(s, i - 1);
    }
  }

  /** Every block of consecutive numbers is no longer than the run ending at its last position. */
  lemma {:induction false} ConsecutiveWithinRunEnd(s: seq<int>, k: nat, len: nat)
    requires 1 <= len && k + len <= |s|
    requires Consecutive(s, k, len)
    ensures RunEnd(s, k + len - 1) >= len
    decreases len
  {
    if len > 1 {
      assert Consecutive(s, k, len - 1);
      ConsecutiveWithinRunEnd(s, k, len - 1);
      assert s[k + len - 1] == s[k + len - 2] + 1;
    }
  }

  /** `MaxRun` bounds every run ending in range and is reached by one. */
  lemma {:induction false} MaxRunIsMaximum(s: seq<int>, n: nat)
    requires 1 <= n <= |s|
    ensures forall i :: 0 <= i < n ==> RunEnd(s, i) <= MaxRun(s, n)
    ensures exists i :: 0 <= i < n && RunEnd(s, i) == MaxRun(s, n)
  {
    if n == 1 {
      assert RunEnd(s, 0) == 1;
    } else {
      MaxRunIsMaximum(s, n - 1);
    }
  }

  /**
   * The longest streak is the length of the longest block of consecutive
   * numbers in the list: one such block exists and none is longer.
   */
  lemma LongestRunIsLongest(s: seq<int>)
    requires |s| >= 1
    ensures exists k: nat :: k + MaxRun(s, |s|) <= |s| && Consecutive(s, k, MaxRun(s, |s|))
    ensures forall k: nat, len: nat :: 1 <= len && k + len <= |s| && Consecutive(s, k, len) ==> len <= MaxRun(s, |s|)
  {
    MaxRunIsMaximum(s, |s|);
    var i :| 0 <= i < |s| && RunEnd(s, i) == MaxRun(s, |s|);
    RunEndIsConsecutive(s, i);
    assert 0 <= i + 1 - RunEnd(s, i);
    forall k: nat, len: nat | 1 <= len && k + len <= |s| && Consecutive(s, k, len)
      ensures len <= MaxRun(s, |s|)
    {
      ConsecutiveWithinRunEnd(s, k, len);
    }
  }

  /**
   * `get_longest_streak` on the sorted completed days: one pass keeping the
   * current run and the longest run so far.
   */
  method LongestStreak(days: seq<int>) returns (longest: nat)
    requires Sorted(days)
    ensures days == [] ==> longest == 0
    ensures days != [] ==> longest == MaxRun(days, |days|)
    ensures days != [] ==> 1 <= longest <= |days|
  {
    if days == [] {
      return 0;
    }
    longest := 1;
    var current := 1;
    var i := 1;
    while i < |days|
      invariant 1 <= i <= |days|
      invariant current == RunEnd(days, i - 1)
      invariant longest == MaxRun(days, i)
    {
      if days[i] == days[i - 1] + 1 {
        current := current + 1;
        if current > longest {
          longest := current;
        }
      } else {
        current := 1;
      }
      i := i + 1;
    }
  }

  // ---------------------------------------------------------------------------
  // The store
  // ---------------------------------------------------------------------------

  /** The contents of `reading_progress.json`. */
  class ProgressStore {
    var progress: map<UserId, map<Year, ReadingRecord>>

    ghost predicate Valid()
      reads this
    {
      forall u, y :: u in progress && y in progress[u] ==> ValidRecord(progress[u][y])
    }

    constructor ()
      ensures Valid()
      ensures progress == map[]
    {
      progress := map[];
    }

    /** The stored record, or the empty record for an unknown user or year. */
    function Record(user: UserId, year: Year): (r: ReadingRecord)
      reads this
      requires Valid()
      ensures ValidRecord(r)
      ensures user in progress && year in progress[user] ==> r == progress[user][year]
      ensures !(user in progress && year in progress[user]) ==> r == EmptyRecord
    {
      if user in progress && year in progress[user] then progress[user][year] else EmptyRecord
    }

    /** The years stored for `user`. */
    function Years(user: UserId): map<Year, ReadingRecord>
      reads this
    {
      if user in progress then progress[user] else map[]
    }

    /**
     * `mark_day_completed`: adds `day` to the user's days for `year`, keeping
     * them sorted and unique, and makes it the last completed day; a day that
     * is already marked changes nothing.
     */
    method MarkDayCompleted(user: UserId, day: int, year: Year)
      requires Valid()
      modifies this
      ensures Valid()
      ensures old(IsDayCompleted(user, day, year)) ==> progress == old(progress)
      ensures !old(IsDayCompleted(user, day, year)) ==>
        progress == old(progress)[user := old(Years(user))[year := Mark(old(Record(user, year)), day)]]
      ensures IsDayCompleted(user, day, year)
      ensures forall d :: IsDayCompleted(user, d, year) <==> old(IsDayCompleted(user, d, year)) || d == day
    {
      var rec := Record(user, year);
      if day !in rec.completedDays {
        var days := InsertSorted(day, rec.completedDays);
        rec := ReadingRecord(days, Some(day), |days|);
        progress := progress[user := Years(user)[year := rec]];
      }
    }

    /** `get_user_progress`: the stored record with its completion percentage. */
    function GetUserProgress(user: UserId, year: Year): (p: Progress)
      reads this
      requires Valid()
      ensures !(user in progress && year in progress[user]) ==> p == NoProgress
      ensures user in progress && year in progress[user] ==> p == Summary(progress[user][year], year)
      ensures p.totalCompleted == |p.completedDays|
    {
      if user in progress && year in progress[user] then Summary(progress[user][year], year) else NoProgress
    }

    /** `is_day_completed`. */
    function IsDayCompleted(user: UserId, day: int, year: Year): (b: bool)
      reads this
      requires Valid()
      ensures b <==> day in GetUserProgress(user, year).completedDays
    {
      day in Record(user, year).completedDays
    }

    /** `get_current_streak` for `year`, with `currentDay` the day of the year today. */
    method GetCurrentStreak(user: UserId, year: Year, currentDay: int) returns (streak: nat)
      requires Valid()
      ensures streak == RunDownFrom(Record(user, year).completedDays, StreakStart(Record(user, year).completedDays, currentDay))
    {
      var days := GetUserProgress(user, year).completedDays;
      streak := CurrentStreak(days, currentDay);
    }

    /** `get_longest_streak` for `year`. */
    method GetLongestStreak(user: UserId, year: Year) returns (longest: nat)
      requires Valid()
      ensures Record(user, year).completedDays == [] ==> longest == 0
      ensures Record(user, year).completedDays != [] ==>
        longest == MaxRun(Record(user, year).completedDays, |Record(user, year).completedDays|)
    {
      var days := GetUserProgress(user, year).completedDays;
      longest := LongestStreak(days);
    }
  }

}
