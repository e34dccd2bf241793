/**
 * Achievements (telegram/achievements.py): a per-user list of unlocked ids
 * with unlock timestamps, an idempotent unlock, and a rule pass that awards
 * every not-yet-unlocked achievement whose threshold is met.
 *
 * The statistics the rules read (reading progress, reading streak, quiz score,
 * daily-quiz statistics) are passed in; the clock is the parameter `now`.
 */
module Achievements {
  type UserId = int
  type Timestamp = int

  /** The keys of `ACHIEVEMENTS`. */
  datatype AchievementId =
    | FirstSteps | WeekWarrior | MonthMaster | QuizMaster
    | PerfectScore | BibleScholar | DailyChampion | CenturyClub

  /** The key under which an achievement is stored. */
  function Key(id: AchievementId): string {
    match id
    case FirstSteps => "first_steps"
    case WeekWarrior => "week_warrior"
    case MonthMaster => "month_master"
    case QuizMaster => "quiz_master"
    case PerfectScore => "perfect_score"
    case BibleScholar => "bible_scholar"
    case DailyChampion => "daily_champion"
    case CenturyClub => "century_club"
  }

  /** Distinct achievements are stored under distinct keys. */
  lemma KeysDistinct(a: AchievementId, b: AchievementId)
    ensures Key(a) == Key(b) ==> a == b
  {
  }

  datatype UserAchievements = UserAchievements(unlocked: seq<AchievementId>, unlockedAt: map<AchievementId, Timestamp>)

  const NoAchievements := UserAchievements([], map[])

  /** The ids of `ACHIEVEMENTS`, in the dict's declaration order, which the rule pass follows. */
  const AchievementIds: seq<AchievementId> := [
    FirstSteps, WeekWarrior, MonthMaster, QuizMaster,
    PerfectScore, BibleScholar, DailyChampion, CenturyClub
  ]

  /** The figures the rules look at. */
  datatype AwardStats = AwardStats(
    readingCompleted: int,
    currentStreak: int,
    quizCorrect: int,
    quizBestScore: real,
    dailyCompleted: int)

  predicate NoDuplicates<T(==)>(s: seq<T>) {
    forall i, j :: 0 <= i < j < |s| ==> s[i] != s[j]
  }

  /** The condition under which the rule pass awards `id`. */
  predicate Qualifies(id: AchievementId, st: AwardStats) {
    match id
    case FirstSteps => st.readingCompleted >= 1
    case WeekWarrior => st.currentStreak >= 7
    case MonthMaster => st.currentStreak >= 30
    case QuizMaster => st.quizCorrect >= 100
    case PerfectScore => st.quizBestScore >= 100.0
    case BibleScholar => st.readingCompleted >= 365
    case DailyChampion => st.dailyCompleted >= 10
    case CenturyClub => st.readingCompleted >= 100
  }

  /** `st` is at least `lo` in every figure. */
  predicate AtLeast(st: AwardStats, lo: AwardStats) {
    && st.readingCompleted >= lo.readingCompleted
    && st.currentStreak >= lo.currentStreak
    && st.quizCorrect >= lo.quizCorrect
    && st.quizBestScore >= lo.quizBestScore
    && st.dailyCompleted >= lo.dailyCompleted
  }

  /** Every rule is a lower threshold: growing figures never make an achievement unearned. */
  lemma QualifiesIsMonotone(id: AchievementId, lo: AwardStats, st: AwardStats)
    requires AtLeast(st, lo)
    ensures Qualifies(id, lo) ==> Qualifies(id, st)
  {
  }

  /** A user with no activity at all earns nothing. */
  lemma NothingForNoActivity(id: AchievementId)
    ensures !Qualifies(id, AwardStats(0, 0, 0, 0.0, 0))
  {
  }

  /**
   * The ids of `ids`, in order, that are not in `already` and whose condition
   * holds: what the rule pass returns when `ids` is `AchievementIds`.
   */
  function Earned(ids: seq<AchievementId>, already: seq<AchievementId>, st: AwardStats): (r: seq<AchievementId>)
    ensures |r| <= |ids|
  {
    if ids == [] then []
    else
      var last := ids[|ids| - 1];
      Earned(ids[..|ids| - 1], already, st) + (if last !in already && Qualifies(last, st) then [last] else [])
  }

  /** An id is earned exactly when it is listed, not held already, and qualifies. */
  lemma {:induction false} EarnedMembers(ids: seq<AchievementId>, already: seq<AchievementId>, st: AwardStats)
    ensures forall a :: a in Earned(ids, already, st) <==> a in ids && a !in already && Qualifies(a, st)
    decreases |ids|
  {
    if ids != [] {
      var init := ids[..|ids| - 1];
      assert ids == init + [ids[|ids| - 1]];
      EarnedMembers(init, already, st);
    }
  }

  /** Earning from a duplicate-free list yields a duplicate-free list. */
  lemma {:induction false} EarnedDistinct(ids: seq<AchievementId>, already: seq<AchievementId>, st: AwardStats)
    requires NoDuplicates(ids)
    ensures NoDuplicates(Earned(ids, already, st))
    decreases |ids|
  {
    if ids != [] {
      var init := ids[..|ids| - 1];
      var last := ids[|ids| - 1];
      assert ids == init + [last];
      assert NoDuplicates(init);
      EarnedDistinct(init, already, st);
      EarnedMembers(init, already, st);
      assert last !in init;
    }
  }

  /** One more id considered: the earned list grows by that id exactly when it is new and qualifies. */
  lemma EarnedExtend(ids: seq<AchievementId>, i: int, already: seq<AchievementId>, st: AwardStats)
    requires 0 <= i < |ids|
    ensures Earned(ids[..i + 1], already, st)
      == Earned(ids[..i], already, st) + (if ids[i] !in already && Qualifies(ids[i], st) then [ids[i]] else [])
  {
    assert ids[..i + 1][..i] == ids[..i];
  }

  /** One step of the rule pass: the id considered is not yet in the earned list, which grows by it exactly when it is new and qualifies. */
  lemma AwardStep(ids: seq<AchievementId>, i: int, already: seq<AchievementId>, st: AwardStats)
    requires NoDuplicates(ids) && 0 <= i < |ids|
    ensures ids[i] !in Earned(ids[..i], already, st)
    ensures Earned(ids[..i + 1], already, st)
      == Earned(ids[..i], already, st) + (if ids[i] !in already && Qualifies(ids[i], st) then [ids[i]] else [])
  {
    EarnedExtend(ids, i, already, st);
    EarnedMembers(ids[..i], already, st);
  }

  lemma AchievementIdsDistinct()
    ensures NoDuplicates(AchievementIds)
  {
  }

  /** Appending what a pass awards keeps the list duplicate-free. */
  lemma {:induction false} AwardingKeepsNoDuplicates(already: seq<AchievementId>, st: AwardStats)
    requires NoDuplicates(already)
    ensures NoDuplicates(already + Earned(AchievementIds, already, st))
  {
    var r := Earned(AchievementIds, already, st);
    AchievementIdsDistinct();
    EarnedMembers(AchievementIds, already, st);
    EarnedDistinct(AchievementIds, already, st);
    var all := already + r;
    forall i, j | 0 <= i < j < |all|
      ensures all[i] != all[j]
    {
      if j >= |already| {
        assert all[j] == r[j - |already|];
        assert all[j] in r;
        if i < |already| {
          assert all[i] in already;
        } else {
          assert all[i] == r[i - |already|];
        }
      }
    }
  }

  /** Nothing is earned from ids whose qualifying members are all held already. */
  lemma {:induction false} NothingLeftToEarn(ids: seq<AchievementId>, already: seq<AchievementId>, st: AwardStats)
    requires forall a :: a in ids && Qualifies(a, st) ==> a in already
    ensures Earned(ids, already, st) == []
    decreases |ids|
  {
    if ids != [] {
      var init := ids[..|ids| - 1];
      assert forall a :: a in init ==> a in ids;
      NothingLeftToEarn(init, already, st);
      assert ids[|ids| - 1] in ids;
    }
  }

  /** A second pass with the same figures awards nothing. */
  lemma SecondPassAwardsNothing(already: seq<AchievementId>, st: AwardStats)
    ensures Earned(AchievementIds, already + Earned(AchievementIds, already, st), st) == []
  {
    var first := Earned(AchievementIds, already, st);
    EarnedMembers(AchievementIds, already, st);
    forall a | a in AchievementIds && Qualifies(a, st)
      ensures a in already + first
    {
      if a !in already {
        assert a in first;
      }
    }
    NothingLeftToEarn(AchievementIds, already + first, st);
  }

  /** A user's unlocked list is duplicate-free and timestamped exactly for its ids. */
  ghost predicate ValidRecord(r: UserAchievements) {
    && NoDuplicates(r.unlocked)
    && (forall a :: a in r.unlockedAt <==> a in r.unlocked)
  }

  /** The record after `id` is unlocked at time `now`. */
  function Unlocked(rec: UserAchievements, id: AchievementId, now: Timestamp): (r: UserAchievements)
    ensures r.unlocked == rec.unlocked + [id]
    ensures forall a :: a in r.unlockedAt <==> a in rec.unlockedAt || a == id
    ensures r.unlockedAt[id] == now
    ensures forall a :: a in rec.unlockedAt && a != id ==> r.unlockedAt[a] == rec.unlockedAt[a]
  {
    UserAchievements(rec.unlocked + [id], rec.unlockedAt[id := now])
  }

  /** The record after each id of `added` is unlocked in turn at time `now`. */
  function Awarded(rec: UserAchievements, added: seq<AchievementId>, now: Timestamp): (r: UserAchievements)
    ensures r.unlocked == rec.unlocked + added
    decreases |added|
  {
    if added == [] then rec
    else Unlocked(Awarded(rec, added[..|added| - 1], now), added[|added| - 1], now)
  }

  /** Unlocking one more id after `added`. */
  lemma AwardedSnoc(rec: UserAchievements, added: seq<AchievementId>, id: AchievementId, now: Timestamp)
    ensures Awarded(rec, added + [id], now) == Unlocked(Awarded(rec, added, now), id, now)
  {
    assert (added + [id])[..|added|] == added;
  }

  /** Unlocking the ids of `added` stamps each with `now`, keeps other stamps and adds no other key. */
  lemma {:induction false} AwardedStamps(rec: UserAchievements, added: seq<AchievementId>, now: Timestamp)
    ensures forall a :: a in Awarded(rec, added, now).unlockedAt <==> a in rec.unlockedAt || a in added
    ensures forall a :: a in added ==> Awarded(rec, added, now).unlockedAt[a] == now
    ensures forall a :: a in rec.unlockedAt && a !in added ==>
      Awarded(rec, added, now).unlockedAt[a] == rec.unlockedAt[a]
    decreases |added|
  {
    if added != [] {
      var init := added[..|added| - 1];
      assert added == init + [added[|added| - 1]];
      AwardedStamps(rec, init, now);
    }
  }

  /** Unlocking new, distinct ids keeps a record valid. */
  lemma {:induction false} AwardedValid(rec: UserAchievements, added: seq<AchievementId>, now: Timestamp)
    requires ValidRecord(rec) && NoDuplicates(added)
    requires forall a :: a in added ==> a !in rec.unlocked
    ensures ValidRecord(Awarded(rec, added, now))
  {
    var r := Awarded(rec, added, now);
    AwardedStamps(rec, added, now);
    forall i, j | 0 <= i < j < |r.unlocked|
      ensures r.unlocked[i] != r.unlocked[j]
    {
      if j >= |rec.unlocked| {
        assert r.unlocked[j] == added[j - |rec.unlocked|];
        assert r.unlocked[j] in added;
        if i < |rec.unlocked| {
          assert r.unlocked[i] in rec.unlocked;
        } else {
          assert r.unlocked[i] == added[i - |rec.unlocked|];
        }
      }
    }
  }

  /**
   * The loop of the rule pass on one user's record: for each id in order,
   * skip it if held, else unlock it if its condition holds.
   */
  method ApplyRules(rec: UserAchievements, ids: seq<AchievementId>, st: AwardStats, now: Timestamp)
    returns (updated: UserAchievements, newly: seq<AchievementId>)
    requires ValidRecord(rec) && NoDuplicates(ids)
    ensures ValidRecord(updated)
    ensures newly == Earned(ids, rec.unlocked, st)
    ensures updated == Awarded(rec, newly, now)
  {
    updated := rec;
    newly := [];
    var i := 0;
    while i < |ids|
      invariant 0 <= i <= |ids|
      invariant newly == Earned(ids[..i], rec.unlocked, st)
      invariant updated == Awarded(rec, newly, now)
    {
      var id := ids[i];
      AwardStep(ids, i, rec.unlocked, st);
      assert id in updated.unlocked <==> id in rec.unlocked;
      if id !in updated.unlocked && Qualifies(id, st) {
        AwardedSnoc(rec, newly, id, now);
        updated := Unlocked(updated, id, now);
        newly := newly + [id];
      }
      i := i + 1;
    }
    assert ids[..i] == ids;
    EarnedMembers(ids, rec.unlocked, st);
    EarnedDistinct(ids, rec.unlocked, st);
    AwardedValid(rec, newly, now);
  }

  /** The contents of `achievements.json`. */
  class AchievementStore {
    var records: map<UserId, UserAchievements>

    ghost predicate Valid()
      reads this
    {
      forall u :: u in records ==> ValidRecord(records[u])
    }

    constructor ()
      ensures Valid()
      ensures records == map[]
    {
      records := map[];
    }

    function UserRecord(user: UserId): (r: UserAchievements)
      reads this
      ensures user in records ==> r == records[user]
      ensures user !in records ==> r == NoAchievements
    {
      if user in records then records[user] else NoAchievements
    }

    /** `get_user_achievements`: the unlocked ids, empty for an unknown user. */
    function GetUserAchievements(user: UserId): (r: seq<AchievementId>)
      reads this
      ensures user !in records ==> r == []
      ensures user in records ==> r == records[user].unlocked
    {
      UserRecord(user).unlocked
    }

    /**
     * `unlock_achievement`: appends `id` with timestamp `now` and returns true
     * when `user` does not have it yet; otherwise returns false and changes
     * nothing.
     */
    method UnlockAchievement(user: UserId, id: AchievementId, now: Timestamp) returns (unlocked: bool)
      requires Valid()
      modifies this
      ensures Valid()
      ensures unlocked <==> id !in old(GetUserAchievements(user))
      ensures unlocked ==> records == old(records)[user := Unlocked(old(UserRecord(user)), id, now)]
      ensures !unlocked ==> records == old(records)
    {
      var rec := if user in records then records[user] else NoAchievements;
      if id !in rec.unlocked {
        assert Awarded(rec, [id], now) == Unlocked(rec, id, now);
        AwardedValid(rec, [id], now);
        records := records[user := Unlocked(rec, id, now)];
        unlocked := true;
      } else {
        unlocked := false;
      }
    }

    /**
     * `check_and_award_achievements`: walks `ACHIEVEMENTS` in order, skipping
     * ids the user has, and unlocks those whose condition holds. It returns
     * exactly the newly unlocked ids, in that order; they are appended to the
     * user's list, each stamped `now`, and no other user changes.
     */
    method CheckAndAwardAchievements(user: UserId, st: AwardStats, now: Timestamp) returns (newly: seq<AchievementId>)
      requires Valid()
      modifies this
      ensures Valid()
      ensures newly == Earned(AchievementIds, old(GetUserAchievements(user)), st)
      ensures GetUserAchievements(user) == old(GetUserAchievements(user)) + newly
      ensures newly == [] ==> records == old(records)
      ensures newly != [] ==> records == old(records)[user := Awarded(old(UserRecord(user)), newly, now)]
    {
      AchievementIdsDistinct();
      var rec;
      rec, newly := ApplyRules(UserRecord(user), AchievementIds, st, now);
      if newly != [] {
        records := records[user := rec];
      }
    }
  }
}
