# Telegram Bible-reading bot: a Dafny model of its bookkeeping

The bot sends subscribers a daily Bible reading. It answers `/day N` and
free-text questions ("day 45", "what is today's reading"). It also runs
quizzes, a daily quiz with streaks and a leaderboard, achievements,
per-year reading progress and reminder times. All of that state lives in
JSON files keyed by the user's id.

This project models that in-process logic, one Dafny module per source file:

- **Stores as classes.** Each JSON file becomes a `class` whose fields are
  the file's contents. Its methods update those fields in place and state
  the whole new state:
  - `UserStorage.Subscriptions`
  - `QuizStorage.ScoreStore` and `QuizStorage.SessionStore`
  - `DailyQuiz.DailyQuizStore`
  - `Achievements.AchievementStore`
  - `ReadingProgress.ProgressStore`
  - `Reminders.ReminderStore`
- **Lookups and text handling as functions.** Catalogue lookups and text
  handling are pure functions with lemmas:
  - the quiz catalogue (`QuizQuestions`);
  - keyword answers (`BibleQa`);
  - verse search (`Verses`);
  - abbreviation expansion (`BibleBooks`);
  - `/day` and free-text queries (`Bot`).
- **Source loops as methods.** Each loop in the source is a `method` with
  loop invariants. Its `ensures` ties the result to a specification
  function, and lemmas prove what the source promises about that function.
  Examples: the streak counters, the leaderboard builder, the achievement
  award loop, the keyword scorer and the reminder scan.
- **Python builtins.** The `Text` module gives the Python string builtins
  the model relies on, restricted to ASCII:
  - `str.lower`, `str.strip`, `in` on strings, `str.replace`, `str.split`;
  - `int()` on text;
  - string ordering.
- **Order of filtered lists.** The `Seqs` module defines the subsequence
  relation. The order lemmas of the quiz filters and the verse search state
  their results with it.

The clock, randomness and the catalogue tables are parameters:

- "today" is a day ordinal;
- `random.choice` is an index chosen by a natural number `r`;
- `QUIZ_QUESTIONS`, `BIBLE_QA`, `POPULAR_VERSES` and
  `BIBLE_BOOK_ABBREVIATIONS` are sequences passed in.

## Model

| member | source | states |
|---|---|---|
| UserStorage.Dedup | telegram/user_storage.py:45 | saved ids carry no duplicates, contain exactly the given ids, and are no more numerous |
| UserStorage.DedupOfDistinct | telegram/user_storage.py:37-64 | a list already free of duplicates is saved unchanged |
| UserStorage.DedupIsIdempotent | telegram/user_storage.py:37-64 | saving the saved list again changes nothing |
| UserStorage.Subscriptions.constructor | telegram/user_storage.py:18-35 | a missing file reads as no subscribers |
| UserStorage.Subscriptions.SaveSubscribedUsers | telegram/user_storage.py:37-64 | the stored list is the deduplicated input and has no duplicates |
| UserStorage.Subscriptions.AddUser | telegram/user_storage.py:66-83 | returns true; a new id is appended, an existing one changes nothing; afterwards the id is subscribed |
| UserStorage.Subscriptions.RemoveUser | telegram/user_storage.py:85-102 | true exactly when the id was subscribed; its one occurrence is cut out, others stay; false leaves the list unchanged |
| UserStorage.Subscriptions.IsSubscribed | telegram/user_storage.py:104-107 | true exactly when the id is in the subscriber list |
| UserStorage.Subscriptions.GetAllSubscribedUsers | telegram/user_storage.py:109-111 | returns exactly the subscribed ids, without duplicates |
| QuizQuestions.SampleCatalogueWellFormed | telegram/quiz_questions.py:6-4638 | each sample entry has its correct index among its options, a declared difficulty and a declared category |
| QuizQuestions.MatchingFrom | telegram/quiz_questions.py:4661-4665 | the filtered indices are exactly those whose question matches the difficulty and category filters |
| QuizQuestions.Without | telegram/quiz_questions.py:4671 | available indices are the filtered ones not excluded; empty when all are excluded |
| QuizQuestions.Candidates | telegram/quiz_questions.py:4650-4688 | the candidate pool is empty only for an empty catalogue and holds only catalogue indices |
| QuizQuestions.Pick | telegram/quiz_questions.py:4675 | a random choice from a non-empty pool is a member of it |
| QuizQuestions.GetRandomQuestion | telegram/quiz_questions.py:4650-4688 | returns a catalogue question, and None only when the catalogue is empty |
| QuizQuestions.SelectionAvoidsExclusions | telegram/quiz_questions.py:4668-4676 | when some matching question is not excluded, the chosen one matches and is not excluded |
| QuizQuestions.SelectionRepeatsWhenExhausted | telegram/quiz_questions.py:4677-4688 | when every matching question is excluded, a matching (repeated) question is still chosen |
| QuizQuestions.SelectionFallsBackToCatalogue | telegram/quiz_questions.py:4680-4686 | with no matching question, any catalogue question is chosen, avoiding exclusions when possible |
| QuizQuestions.NoExclusionsChoosesFiltered | telegram/quiz_questions.py:4688 | without exclusions and with a match, the pool is exactly the filtered questions |
| QuizQuestions.EveryCandidateReachable | telegram/quiz_questions.py:4650-4688 | every candidate is chosen for some random draw |
| QuizQuestions.GetQuestionIndex | telegram/quiz_questions.py:4690-4695 | None exactly when the question is absent, otherwise the first index holding it |
| QuizQuestions.GetQuestionByIndex | telegram/quiz_questions.py:4697-4701 | a question exactly for indices in range, namely the one at that index |
| QuizQuestions.IndexRoundTrip | telegram/quiz_questions.py:4690-4701 | looking up the index of a catalogue question gives the question back |
| QuizQuestions.QuestionsByDifficulty | telegram/quiz_questions.py:4707-4709 | a question is in the result exactly when it is a catalogue question of that difficulty, and each such question occurs as many times as in the catalogue |
| QuizQuestions.QuestionsByCategory | telegram/quiz_questions.py:4711-4713 | a question is in the result exactly when it is a catalogue question of that category, and each such question occurs as many times as in the catalogue |
| QuizQuestions.QuestionsByDifficultyInOrder | telegram/quiz_questions.py:4707-4709 | the difficulty filter keeps catalogue order; with the counts this fixes the list the comprehension builds |
| QuizQuestions.QuestionsByCategoryInOrder | telegram/quiz_questions.py:4711-4713 | the category filter keeps catalogue order; with the counts this fixes the list the comprehension builds |
| QuizQuestions.GetStats | telegram/quiz_questions.py:4715-4729 | total is the catalogue size; one count per declared difficulty and category, each the size of its filter |
| QuizQuestions.DifficultyCountsSumToTotal | telegram/quiz_questions.py:4715-4729 | in a well-formed catalogue the three difficulty counts add up to the total |
| QuizQuestions.CategoryCountsSumToTotal | telegram/quiz_questions.py:4715-4729 | in a well-formed catalogue the three category counts add up to the total |
| QuizStorage.RecordQuiz | telegram/quiz_storage.py:83-92 | totals grow by the quiz, one more quiz; best score never falls and becomes the cumulative accuracy when that is higher |
| QuizStorage.RecordQuizzesAccumulates | telegram/quiz_storage.py:70-94 | after a series of quizzes the totals are the sums of the series and the best score has not fallen |
| QuizStorage.CumulativeBestScoreAfterPerfectQuiz | telegram/quiz_storage.py:88-92 | the best score tracks cumulative accuracy: a perfect 10/10 after a 0/1 leaves it below 100 |
| QuizStorage.ScoreStore.constructor | telegram/quiz_storage.py:35-46 | no scores are stored |
| QuizStorage.ScoreStore.GetUserScore | telegram/quiz_storage.py:59-68 | the stored record, or all zeros for an unknown user |
| QuizStorage.ScoreStore.UpdateUserScore | telegram/quiz_storage.py:70-94 | only this user's record changes, to RecordQuiz of the old one; the best score never falls |
| QuizStorage.SessionStore.constructor | telegram/quiz_storage.py:96-112 | no sessions are active |
| QuizStorage.SessionStore.GetQuizSession | telegram/quiz_storage.py:142-145 | the session exactly when one is active |
| QuizStorage.SessionStore.StartQuizSession | telegram/quiz_storage.py:130-140 | the user's session is replaced by a fresh one with score and total 0 |
| QuizStorage.SessionStore.UpdateQuizSession | telegram/quiz_storage.py:147-156 | true exactly when a session exists, then only its score and total change; false changes nothing |
| QuizStorage.SessionStore.EndQuizSession | telegram/quiz_storage.py:158-168 | returns the removed session (None if there was none); afterwards the user has none |
| DailyQuiz.InsertDesc | telegram/daily_quiz.py:154 | inserting a date adds exactly that date |
| DailyQuiz.InsertDescSorted | telegram/daily_quiz.py:154 | insertion keeps distinct dates strictly newest first |
| DailyQuiz.SortDesc | telegram/daily_quiz.py:154 | sorting keeps exactly the completion dates |
| DailyQuiz.SortDescSorted | telegram/daily_quiz.py:154 | the sorted dates are strictly newest first |
| DailyQuiz.BestAccuracy | telegram/daily_quiz.py:151 | the best accuracy bounds every completion's and is one of them; 0 when there are none |
| DailyQuiz.CurrentStreak | telegram/daily_quiz.py:153-164 | the streak counts the leading dates equal to today, today-1, …, and stops at the first that is not |
| DailyQuiz.StreakIsRunEndingToday | telegram/daily_quiz.py:153-164 | on sorted past dates, every day of the streak was completed, the day before it was not, and the streak is positive iff today was completed |
| DailyQuiz.StreakFacts | telegram/daily_quiz.py:153-164 | the same facts stated on one user's completion history, and a streak of 0 when a completion is dated after today |
| DailyQuiz.HistoryStreak | telegram/daily_quiz.py:153-164 | sorts a user's dates and counts the streak, with the facts above, including 0 when a completion is dated after today |
| DailyQuiz.EntryFor | telegram/daily_quiz.py:183-193 | a leaderboard row holds the completion count, the correct total and the cumulative accuracy |
| DailyQuiz.Rows | telegram/daily_quiz.py:181-193 | one row per user, in order, each EntryFor that user |
| DailyQuiz.BuildRows | telegram/daily_quiz.py:181-193 | the loop builds exactly Rows |
| DailyQuiz.InsertRanked | telegram/daily_quiz.py:196 | insertion is a permutation adding one row |
| DailyQuiz.InsertRankedKeepsOrder | telegram/daily_quiz.py:196 | insertion keeps rows ordered by (completions, accuracy) descending |
| DailyQuiz.SortRanked | telegram/daily_quiz.py:196 | sorting is a permutation of the rows |
| DailyQuiz.SortRankedIsRanking | telegram/daily_quiz.py:196 | the sorted rows are ordered by (completions, accuracy) descending |
| DailyQuiz.OfKeyInsert | telegram/daily_quiz.py:196 | insertion into a ranking puts the new row after every row with its key |
| DailyQuiz.SortRankedIsStable | telegram/daily_quiz.py:196 | the sort is stable: rows with equal (completions, accuracy) keep their order |
| DailyQuiz.LeaderboardTiesInUserOrder | telegram/daily_quiz.py:196-198 | after the cut to `limit`, the rows of each key are the first rows of that key in user order |
| DailyQuiz.SliceLength | telegram/daily_quiz.py:198 | the length Python's `[:limit]` keeps, including negative limits |
| DailyQuiz.RankedPrefix | telegram/daily_quiz.py:198 | a prefix of a ranking is a ranking |
| DailyQuiz.SortedRowsAreRows | telegram/daily_quiz.py:181-196 | every sorted row is the true row of its user |
| DailyQuiz.LeaderboardSlice | telegram/daily_quiz.py:181-198 | the sliced leaderboard is ranked and its rows are true rows |
| DailyQuiz.DailyQuizStore.constructor | telegram/daily_quiz.py:34-47 | no daily questions and no completions |
| DailyQuiz.DailyQuizStore.GetTodayQuizQuestion | telegram/daily_quiz.py:62-83 | an existing question for today is returned unchanged; otherwise a catalogue question is stored for today |
| DailyQuiz.DailyQuizStore.GetQuizQuestionForDate | telegram/daily_quiz.py:85-93 | the stored question exactly when that date has one |
| DailyQuiz.DailyQuizStore.UserHistory | telegram/daily_quiz.py:138-147 | the user's completions, or none |
| DailyQuiz.DailyQuizStore.MarkDailyQuizCompleted | telegram/daily_quiz.py:95-117 | true exactly when today was not yet completed, then today's score, total and accuracy are recorded; false changes nothing; afterwards today is completed |
| DailyQuiz.DailyQuizStore.HasCompletedDailyQuiz | telegram/daily_quiz.py:119-131 | true exactly when the user has a completion recorded for today; false for a user with none |
| DailyQuiz.DailyQuizStore.GetDailyQuizStats | telegram/daily_quiz.py:133-172 | zeros for an unknown user; otherwise count, sums and best accuracy, and a streak whose days were all completed, positive only if today was, and 0 when a completion is dated after today |
| DailyQuiz.DailyQuizStore.GetDailyQuizLeaderboard | telegram/daily_quiz.py:174-198 | the first `limit` rows of the ranking, ordered, each the true row of its user; rows with equal keys are the first such rows in the order users first completed |
| Achievements.KeysDistinct | telegram/achievements.py:34-83 | the eight achievement ids have distinct keys |
| Achievements.QualifiesIsMonotone | telegram/achievements.py:170-201 | higher activity never loses a qualification |
| Achievements.NothingForNoActivity | telegram/achievements.py:170-201 | no achievement is earned with no activity |
| Achievements.EarnedMembers | telegram/achievements.py:164-204 | newly earned ids are exactly those not yet unlocked whose condition holds |
| Achievements.EarnedDistinct | telegram/achievements.py:164-204 | newly earned ids are distinct |
| Achievements.AwardingKeepsNoDuplicates | telegram/achievements.py:164-204 | the unlocked list stays free of duplicates after awarding |
| Achievements.NothingLeftToEarn | telegram/achievements.py:164-167 | nothing is awarded when every qualifying id is already unlocked |
| Achievements.SecondPassAwardsNothing | telegram/achievements.py:142-204 | awarding twice with the same stats awards nothing the second time |
| Achievements.Unlocked | telegram/achievements.py:134-136 | unlocking appends the id and stamps it with the time, other stamps unchanged |
| Achievements.Awarded | telegram/achievements.py:164-204 | the unlocked list is extended by the awarded ids in order |
| Achievements.AwardedStamps | telegram/achievements.py:136 | every awarded id is stamped with the time, earlier stamps are kept |
| Achievements.AwardedValid | telegram/achievements.py:123-140 | awarding new distinct ids keeps the record consistent (no duplicates, one stamp per id) |
| Achievements.ApplyRules | telegram/achievements.py:164-204 | the loop awards exactly Earned, in declaration order, and keeps the record consistent |
| Achievements.AchievementStore.constructor | telegram/achievements.py:85-98 | no user has achievements |
| Achievements.AchievementStore.UserRecord | telegram/achievements.py:128-132 | the stored record, or an empty one |
| Achievements.AchievementStore.GetUserAchievements | telegram/achievements.py:113-121 | the unlocked ids, or none for an unknown user |
| Achievements.AchievementStore.UnlockAchievement | telegram/achievements.py:123-140 | true exactly when not yet unlocked, then only this user's record gains the id; false changes nothing |
| Achievements.AchievementStore.CheckAndAwardAchievements | telegram/achievements.py:142-204 | returns exactly the newly earned ids and appends them to the user's list; nothing changes when none are earned |
| ReadingProgress.InsertSorted | telegram/reading_progress.py:87-88 | inserting a new day keeps the days strictly increasing and adds exactly that day |
| ReadingProgress.IncreasingIsUnique | telegram/reading_progress.py:88 | two increasing lists with the same members are equal |
| ReadingProgress.Mark | telegram/reading_progress.py:86-90 | a new day is added with last day and count updated; a completed day changes nothing |
| ReadingProgress.MarkIsIdempotent | telegram/reading_progress.py:86-90 | marking a day twice is marking it once |
| ReadingProgress.MarkIsSortedUnion | telegram/reading_progress.py:86-88 | the completed days become the sorted union of the old days and the new one |
| ReadingProgress.TotalDays | telegram/reading_progress.py:112-114 | 366 exactly in Gregorian leap years, else 365 |
| ReadingProgress.TotalDaysPeriodic | telegram/reading_progress.py:113 | the length of a year repeats every 400 years |
| ReadingProgress.CenturyYears | telegram/reading_progress.py:113 | 2000 and 2024 are leap years; 1900, 2023 and 2100 are not |
| ReadingProgress.Summary | telegram/reading_progress.py:111-123 | the stored fields, with percentage times year length equal to completed days times 100 |
| ReadingProgress.FullYearIsComplete | telegram/reading_progress.py:116 | completing every day of the year gives 100 percent |
| ReadingProgress.RunDownFromIsRun | telegram/reading_progress.py:143-147 | counting down from a day covers only completed days and stops at day 0 or an uncompleted day |
| ReadingProgress.CurrentStreak | telegram/reading_progress.py:125-156 | counts down from today if completed, else from yesterday; 0 with no completed days |
| ReadingProgress.CurrentStreakIsRun | telegram/reading_progress.py:140-156 | the current streak is a maximal run of completed days ending at its start day |
| ReadingProgress.RunEndIsConsecutive | telegram/reading_progress.py:172-177 | the run counted at a position is a run of consecutive days |
| ReadingProgress.ConsecutiveWithinRunEnd | telegram/reading_progress.py:172-177 | any consecutive stretch ending at a position is no longer than the run counted there |
| ReadingProgress.MaxRunIsMaximum | telegram/reading_progress.py:169-179 | the longest streak bounds every counted run and equals one of them |
| ReadingProgress.LongestRunIsLongest | telegram/reading_progress.py:158-179 | the longest streak is a consecutive stretch, and no consecutive stretch is longer |
| ReadingProgress.LongestStreak | telegram/reading_progress.py:158-179 | 0 with no days, otherwise MaxRun, between 1 and the number of days |
| ReadingProgress.ProgressStore.constructor | telegram/reading_progress.py:34-51 | no progress is stored |
| ReadingProgress.ProgressStore.Record | telegram/reading_progress.py:103-111 | the stored record for the user and year, or an empty one |
| ReadingProgress.ProgressStore.MarkDayCompleted | telegram/reading_progress.py:67-92 | an already completed day changes nothing; otherwise only that user and year change, by Mark; afterwards the day is completed and no other day changed |
| ReadingProgress.ProgressStore.GetUserProgress | telegram/reading_progress.py:94-123 | an empty summary for an unknown user or year, otherwise Summary; the count equals the number of days |
| ReadingProgress.ProgressStore.IsDayCompleted | telegram/reading_progress.py:181-187 | true exactly when the day is among the completed days |
| ReadingProgress.ProgressStore.GetCurrentStreak | telegram/reading_progress.py:125-156 | the current streak of the stored days |
| ReadingProgress.ProgressStore.GetLongestStreak | telegram/reading_progress.py:158-179 | the longest streak of the stored days |
| Reminders.TwoDigits | telegram/reminders.py:73 | `{n:02d}`: decimal text, zero-padded to two digits below 10 |
| Reminders.FormatTime | telegram/reminders.py:73 | a reminder time is two numbers joined by a colon |
| Reminders.ParseTwoDigits | telegram/reminders.py:73 | reading a formatted number back gives the number, negatives included |
| Reminders.InsertTime | telegram/reminders.py:75-77 | appending a new time and sorting keeps the times sorted and adds exactly that time |
| Reminders.AddTime | telegram/reminders.py:75-77 | a time already present changes nothing; otherwise it is added, sorted |
| Reminders.RemoveTimeKeepsSorted | telegram/reminders.py:93-94 | removing a present time keeps the rest sorted and drops exactly that time |
| Reminders.ParseCleaned | telegram/reminders.py:165-180 | without a colon the minutes are 0 |
| Reminders.ParseHourColonMinute | telegram/reminders.py:166-173 | "H:M" parses to the two numbers |
| Reminders.FormatThenParse | telegram/reminders.py:73 | parsing a formatted reminder time gives the hour and minute back |
| Reminders.BareHourParses | telegram/reminders.py:176-178 | a bare hour parses to that hour and minute 0 |
| Reminders.SuffixCleaned | telegram/reminders.py:160-163 | cleaning removes a trailing "am" or "pm" entirely |
| Reminders.SuffixIgnored | telegram/reminders.py:160-180 | as written, "H:MMpm" parses to the same time as "H:MM" |
| Reminders.BareHourSuffixIgnored | telegram/reminders.py:160-180 | as written, "9pm" parses to 9:00 |
| Reminders.ParseTimeOfDay | telegram/reminders.py:158-180 | the corrected parser fails exactly where the source's does; when the lower-cased, stripped text ends in "pm" an hour 1..11 gains 12 and any other hour is kept; when it ends in "am" hour 12 becomes 0 and any other hour is kept; without a suffix the source's reading stands |
| Reminders.PmIsAfternoon | telegram/reminders.py:159 | corrected: "H:MMpm" with 1 ≤ H ≤ 11 is H+12:MM |
| Reminders.BarePmIsAfternoon | telegram/reminders.py:159 | corrected: "Hpm" with 1 ≤ H ≤ 11 is H+12:00 |
| Reminders.TwelveAmIsMidnight | telegram/reminders.py:159 | corrected: "12:MMam" is 0:MM |
| Reminders.BareAmKeepsHour | telegram/reminders.py:159 | corrected: "Ham" with H ≠ 12, such as the docstring's "8am", is H:00 |
| Reminders.TwelvePmIsNoon | telegram/reminders.py:159 | corrected: "12:MMpm" is 12:MM |
| Reminders.PlainTimeUnchanged | telegram/reminders.py:166-173 | corrected: a time without suffix parses as the source parses it |
| Reminders.NonNumericRejected | telegram/reminders.py:172-180 | text without digits is rejected |
| Reminders.Due | telegram/reminders.py:150-156 | the users due are no more than the stored users |
| Reminders.DueMembers | telegram/reminders.py:152-154 | a user is due exactly when enabled with that time among their times |
| Reminders.CollectDue | telegram/reminders.py:150-156 | the loop collects exactly Due, in storage order |
| Reminders.ReminderStore.constructor | telegram/reminders.py:34-47 | no reminders are stored |
| Reminders.ReminderStore.GetUserReminders | telegram/reminders.py:132-143 | the stored settings, or disabled with no times |
| Reminders.ReminderStore.SetReminder | telegram/reminders.py:62-81 | the time is added (sorted, once) and reminders enabled; afterwards the user is due at that time |
| Reminders.ReminderStore.RemoveReminder | telegram/reminders.py:83-98 | true exactly when the time was set, then only that time is removed; afterwards the time is absent |
| Reminders.ReminderStore.DisableReminders | telegram/reminders.py:100-114 | only the enabled flag changes, to false, creating the user if needed; the user is due at no time |
| Reminders.ReminderStore.EnableReminders | telegram/reminders.py:116-130 | only the enabled flag changes, to true, creating the user if needed |
| Reminders.ReminderStore.GetUsersToRemind | telegram/reminders.py:145-156 | exactly the users enabled for that time, in storage order |
| BibleBooks.SortByLength | telegram/bible_books.py:96 | the table sorted longest abbreviation first, as a permutation |
| BibleBooks.SortByLengthIsStable | telegram/bible_books.py:96 | abbreviations of equal length keep their table order |
| BibleBooks.SubstituteNoMatch | telegram/bible_books.py:104-105 | text without a match is unchanged |
| BibleBooks.SubstituteFirstMatch | telegram/bible_books.py:104-105 | the text before the first match is kept and the match is replaced by the full name |
| BibleBooks.SubstituteLeading | telegram/bible_books.py:104 | an abbreviation at the start followed by a space is replaced |
| BibleBooks.NoMatchBeforeOtherChar | telegram/bible_books.py:104 | an abbreviation followed by anything but whitespace, ';' or the end is not replaced |
| BibleBooks.ExpandBibleReading | telegram/bible_books.py:81-107 | empty text is returned as is; otherwise every abbreviation is substituted, longest first |
| BibleBooks.ExpandNothing | telegram/bible_books.py:81-107 | text containing no abbreviation is returned unchanged |
| BibleBooks.SampleTableSorted | telegram/bible_books.py:96 | the table of "Gen.", "Ps.", "Mt." and "1 Cor." (lines 10, 28, 51, 57) is well formed and sorts to "1 Cor.", "Gen.", "Ps.", "Mt." |
| BibleBooks.SubstituteOnly | telegram/bible_books.py:104-105 | an abbreviation standing alone between non-word text and a boundary, occurring nowhere else, is replaced and the rest kept |
| BibleBooks.ExpandGenesisExample | telegram/bible_books.py:85-86 | over those four books, "Gen. 1–3; Mt. 1" expands to "Genesis 1–3; Matthew 1" |
| BibleBooks.ExpandPsalmsExample | telegram/bible_books.py:85-87 | over those four books, "Ps. 119:1-88; 1 Cor. 7:20-40" expands to "Psalms 119:1-88; 1 Corinthians 7:20-40" |
| BibleQa.Score | telegram/bible_qa.py:221-224 | a score is at most the number of keywords |
| BibleQa.ScorePositive | telegram/bible_qa.py:221-224 | the score is positive exactly when some keyword occurs |
| BibleQa.KeywordInsideWord | telegram/bible_qa.py:223 | a keyword inside a longer word still counts |
| BibleQa.KeywordScore | telegram/bible_qa.py:221-224 | the loop computes Score |
| BibleQa.NoScoreMeansNoKeyword | telegram/bible_qa.py:230-234 | every score is 0 exactly when no keyword of any entry occurs |
| BibleQa.FindAnswer | telegram/bible_qa.py:209-234 | None exactly when every score is 0; otherwise the first entry with the highest score |
| BibleQa.GetAllTopics | telegram/bible_qa.py:236-238 | every entry's question, in table order |
| Verses.Matching | telegram/verses.py:180-184 | a verse is in the result exactly when it is a table verse whose text, reference or topic contains the lower-cased keyword, and each such verse occurs as many times as in the table |
| Verses.MatchingIsSubsequence | telegram/verses.py:180-186 | matches keep the table's order |
| Verses.EmptyKeywordMatchesAll | telegram/verses.py:181-183 | the empty keyword matches every verse |
| Verses.SearchVerses | telegram/verses.py:175-186 | the loop computes Matching |
| Verses.GetVerseByReference | telegram/verses.py:188-196 | None exactly when no reference equals the stripped, lower-cased one; otherwise the first that does |
| Bot.EncouragementIndex | telegram/bot.py:86 | the index is always within the 15 encouragements |
| Bot.GetEncouragement | telegram/bot.py:66-87 | the message is one of the encouragements |
| Bot.FirstCycleInOrder | telegram/bot.py:86 | days 1 to 15 take the encouragements in order |
| Bot.EncouragementIsPeriodic | telegram/bot.py:86 | the encouragement repeats every 15 days, also for days ≤ 0 |
| Bot.DayCommand | telegram/bot.py:177-189 | no argument gives today; an argument `int()` reads as N gives day N when 1 ≤ N ≤ 365 and is refused as out of range otherwise; an argument `int()` rejects is refused as not a number |
| Bot.DayCommandAcceptsEveryDay | telegram/bot.py:179-184 | every day 1..365 is accepted |
| Bot.DayCommandRejectsOutOfRange | telegram/bot.py:182-184 | 0 and days above 365 are refused as out of range |
| Bot.DayCommandRejectsNegative | telegram/bot.py:182-184 | negative numbers are refused as out of range |
| Bot.FirstSomeIsLeftmost | telegram/bot.py:259 | the search finds the leftmost position where the pattern matches |
| Bot.NumberAfterDayOfDecimal | telegram/bot.py:259 | "day" followed by spaces and a number ending at a word boundary yields that number |
| Bot.NowInsideWord | telegram/bot.py:277 | any text containing "now", even inside a word, asks for today |
| Bot.Classify | telegram/bot.py:258-290 | a day reading exactly when the first "day N" match is in 1..365; today only when a today-word occurs; help only when none does |
| Bot.HandleQuery | telegram/bot.py:253-290 | a day reading is always in 1..365 |
| Bot.DayQueryAnswered | telegram/bot.py:259-262 | "day N" with N in 1..365 at the start of a query gives day N |
| Text.Lower | telegram/bot.py:255 | lower-casing keeps the length and maps each character |
| Text.Strip | telegram/bot.py:255 | the stripped text neither starts nor ends with whitespace, is empty exactly when the input is all whitespace, and holds only characters of the input |
| Text.StripIsSlice | telegram/bot.py:255 | the stripped text is a slice of the input with only whitespace before and after it |
| Text.ContainsMeansOccurs | telegram/bible_qa.py:223 | Python's `in` on strings holds exactly when the needle occurs at some position |
| Text.ParseInt | telegram/bot.py:181 | `int()` succeeds exactly when the stripped text is one optional '+' or '-' followed by at least one digit, and gives the digits' decimal value, negated after '-' |
| Text.ParseIntSplit | telegram/bot.py:181 | the same over a split of the stripped text into sign and digits: a number exactly when such a split exists, and then its signed value |
| Text.SplitReads | telegram/bot.py:181 | any one split of the stripped text into sign and digits gives the number read |
| Text.NumeralShape | telegram/bot.py:181 | a numeral splits into sign and digits in one way only |
| Text.ParseDigits | telegram/bot.py:181 | an unsigned run of digits reads as its decimal value |
| Text.ParseDecimal | telegram/bot.py:181 | `int()` reads back any decimal numeral |
| Text.ParseNegativeDecimal | telegram/bot.py:181 | `int()` reads back a negative numeral |
| Text.ParseNegativeDigits | telegram/bot.py:181 | a minus sign before a run of digits gives the negated value |
| Text.ParseIntRejectsNonNumeric | telegram/bot.py:185-187 | text without digits raises ValueError |
| Text.LessTotal | telegram/reminders.py:77 | string order is total |
| Text.LessTransitive | telegram/reminders.py:77 | string order is transitive |
| Text.RemoveAllAbsent | telegram/reminders.py:163 | replacing a pattern whose first character is absent changes nothing |
| Text.SplitTwo | telegram/reminders.py:167 | splitting "a:b" with one colon gives [a, b] |

## Left out

- Persistence: loading and saving JSON files and `_fix_storage_file` are not modelled. Each store starts empty, as it does when its file is missing. Save-success booleans are not modelled; methods that return `save_*`'s result report success by their state change.
- I/O and transport: the async Telegram handlers, message sending, `format_message` and `get_day_of_year` are out of the model. Only the decisions they take (`/day` arguments, free-text classification) are modelled.
- Clock and randomness: `date.today()`, `datetime.now()` and `random.choice` are parameters. Dates are day ordinals and timestamps are opaque values.
- Floating point: accuracy and percentages are exact reals.
- Unicode: `lower`, `strip`, `\w`, `\s`, `\d` and `int()` are ASCII only. `int()`'s acceptance of underscores and non-ASCII digits is not modelled.
- Data tables: `QUIZ_QUESTIONS`, `BIBLE_QA`, `POPULAR_VERSES` and `BIBLE_BOOK_ABBREVIATIONS` are parameters. `SampleCatalogue` stands in for the quiz catalogue, and `SampleTable` holds the four abbreviations the examples in `expand_bible_reading`'s docstring use.
- UserStorage.Subscriptions.SaveSubscribedUsers: the source deduplicates through a Python set, whose order is unspecified. The model keeps first appearances.
- Dict iteration order: stores are Dafny maps, plus explicit user-order sequences where the source iterates them (leaderboard, reminder scan).
- DailyQuiz.DailyQuizStore.GetTodayQuizQuestion: requires a non-empty catalogue, which the source assumes (`random.choice` on an empty list raises). The aliasing of the stored question dictionary is not modelled.
- Out of the model:
  - `get_total_questions` (it is `len(QUIZ_QUESTIONS)`);
  - `get_verse_of_the_day`;
  - `get_achievement_display`;
  - `add_questions.py`, `daily_sender`, `bot_runner`, the scheduler, `get_chat_id` and `config.py`.
- `reading_plan` is not part of this model: `get_bible_reading` supplies text only.
- Concurrency: two handlers can race on the same JSON file. The model runs operations one at a time.

## Findings

| source | as written | input that shows it | evidently intended | confidence | as-written member | corrected member |
|---|---|---|---|---|---|---|
| telegram/reminders.py:159-163 | `parse_time_string` deletes "am" and "pm" before parsing, so the suffix has no effect | "9:00pm" parses to (9, 0), and "12am" to (12, 0) | the docstring promises '9:00pm'; a pm hour 1..11 should gain 12 and 12am should be hour 0 | medium, not executed | Reminders.SuffixIgnored | Reminders.ParseTimeOfDay |
