# Progression core of a lesson-and-XP learning app, in Dafny

This project models the progression logic of a small learning platform:

- Users answer the problems of a lesson.
- Each correct answer earns 10 XP, and the cached XP total grows by that amount.
- Each lesson keeps a progress row (percentage, completed) and each user a daily streak row.
- XP also has an append-only ledger, from which a user's total can be recomputed.
- A level curve turns a total into a level and a progress bar.
- A leaderboard ranks users by their cached total.

The database is one `Store.Database` object. Its fields are the tables the handlers touch:

- `attempts` — userProblemAttempt rows;
- `ledger` — userXP rows;
- `profiles` — userProfile.totalXP;
- `progress` — userLessonProgress;
- `streaks` — userStreak;
- `lessons` — lessons with their problems.

Handlers that write become methods with `modifies db`. Read-only handlers become functions that `reads db`, so they change nothing by construction.

Modules, one per source file:

- `LevelSystem` (lib/level-system.ts): the level curve.
  - `XpForLevel` is a level's cost and `Cumulative` its threshold.
  - `TotalXpForLevel` is the summing `for` loop.
  - `CalculateLevelProgress` is the level-walking `while` loop, proved equal to the function `LevelProgress`.
- `AnswerValidation` (lib/answer-validation.ts):
  - `IsAnswerCorrect` covers trim, quote stripping and exact comparison.
  - `AnalyzeSubmissionResult` is the leftmost, unanchored `Correct: (\d+)/(\d+)` match with its fallback.
  - `Decimal` supplies the decimal printing and `parseInt` it relies on.
- `XpManager` (lib/xp-manager.ts): `AwardXp` and `RecalculateUserXp` over the ledger and the cached totals.
- `LessonsRoute` (features/lessons/server/route.ts):
  - `Submit` is POST `/:id/submit`. It checks idempotency by attemptId, whether the lesson exists and problem ownership, runs the grading loop, then does the profile, progress and streak upserts.
  - It is split into methods by source step: `RecordAttempts`, `UpsertProfile`, `UpsertProgress`, `UpdateStreak`, `Tally` and `Accept`.
  - The read handlers are `ListLessons` (GET `/`), `GetLesson` (GET `/:id`) and `LessonsProfile` (GET `/profile`).
- `ProfileRoute` (features/profile/server/route.ts): `GetProfile` computes:
  - the ledger total;
  - the level fields;
  - overall completion;
  - streak defaults;
  - whether there was activity today.
- `Leaderboard` (app/leaderboard/page.tsx): the top-10 list and the competition rank.
- `Store`, `Percent` and `Wrappers`: the shared tables, exact percentages, and Option/Result.

Modelling conventions:

- **Level curve.** `Math.floor(100 * Math.pow(n, 1.5))` is modelled as `ISqrt(10000 * n^3)`, an exact integer square root. The two agree in exact arithmetic. The source computes in double precision, so agreement for every level is a modelling assumption (see "## Left out"). The real thresholds are 100, 382 and 901 for levels 2, 3 and 4; `FirstThresholds` proves them. The worked examples in the doc comment at the top of lib/level-system.ts do not match the code and are not used.
- **Percentages.** Every percentage is an exact fraction `Percent(num, den)`, meaning num/den percent.
- **Time.** Timestamps are integer milliseconds and a UTC day is `t / 86400000`. Dafny's division floors, which matches `setUTCHours(0, 0, 0, 0)`. A streak row stores its last active day as a day number.
- **Sessions.** The session is an `Option<UserId>` parameter.

## Model

| member | source | states |
|---|---|---|
| LevelSystem.ISqrt | lib/level-system.ts:24 | r·r ≤ x < (r+1)·(r+1): the floor square root that replaces `Math.pow(n, 1.5)` |
| LevelSystem.XpForLevel | lib/level-system.ts:22-25 | 0 for level ≤ 1; for level ≥ 2 it is ⌊√(10000·(level−1)³)⌋ = ⌊100·(level−1)^1.5⌋, and at least 100 |
| LevelSystem.XpForLevelIncreasing | lib/level-system.ts:22-25 | the cost of a level strictly increases with the level, from level 2 on |
| LevelSystem.Cumulative | lib/level-system.ts:32-40 | the threshold of level l is at least 100·(l−1) |
| LevelSystem.CumulativeGap | lib/level-system.ts:32-40 | thresholds increase strictly, by at least 100 per level, which is the measure that ends the level loop |
| LevelSystem.TotalXpForLevel | lib/level-system.ts:32-40 | the summing loop returns the threshold `Cumulative(level)`, which is 0 for level ≤ 1 |
| LevelSystem.LevelFrom | lib/level-system.ts:61-83 | walking up from a level whose threshold is within reach ends at a level no lower, whose bracket holds the XP |
| LevelSystem.Clamp | lib/level-system.ts:55 | the clamped total is max(0, totalXp): at least the total, and either 0 or the total itself |
| LevelSystem.LevelOf | lib/level-system.ts:55-84 | the level is ≥ 1 and its bracket satisfies threshold(level) ≤ max(0, totalXp) < threshold(level+1) |
| LevelSystem.Percentage | lib/level-system.ts:68-70 | the progress bar, clamped, always lies in 0..100 |
| LevelSystem.LevelProgress | lib/level-system.ts:47-84 | level ≥ 1; the bracket holds; xpIntoLevel = xp − current threshold; 0 ≤ xpIntoLevel < xpForNextLevel = cost of level+1 ≥ 100; percentage in 0..100 |
| LevelSystem.CalculateLevelProgress | lib/level-system.ts:55-79 | clamps the total, walks to its level and builds exactly `LevelProgress(totalXp)` from that level's threshold and cost |
| LevelSystem.WalkLevels | lib/level-system.ts:57-83 | the level-walking while loop, with its bracket invariant and a measure that decreases, stops at `LevelFrom(xp, 1)`, holding that level's threshold |
| LevelSystem.NegativeIsZero | lib/level-system.ts:55 | a negative total gives the same result as 0 |
| LevelSystem.LevelUnique | lib/level-system.ts:61-84 | the level is the only one whose bracket contains the total |
| LevelSystem.LevelMonotone | lib/level-system.ts:57-83 | more XP never gives a lower level |
| LevelSystem.PercentageIsRatio | lib/level-system.ts:67-70 | because xpForNextLevel ≥ 100, the clamp and the `: 100` fallback never apply; the percentage is xpIntoLevel/xpForNextLevel |
| LevelSystem.XpForLevelIs | lib/level-system.ts:22-25 | a level's cost is the unique r with r² ≤ 10000·(level−1)³ < (r+1)² |
| LevelSystem.FirstThresholds | lib/level-system.ts:22-40 | level costs 100, 282, 519 and thresholds 100, 382, 901 for levels 2, 3, 4 |
| LevelSystem.LevelExamples | lib/level-system.ts:61-83 | 0 XP gives level 1 with 0/100 at 0%; 99 gives level 1; 100 gives level 2 at 0/282; 381 gives level 2 and 382 gives level 3 |
| Decimal.ValueShow | lib/answer-validation.ts:30-31 | `parseInt` of the decimal printing of n gives back n |
| AnswerValidation.Trim | lib/answer-validation.ts:51-52 | the result neither starts nor ends with whitespace |
| AnswerValidation.TrimPadded | lib/answer-validation.ts:51-52 | trimming ignores any whitespace added on either side |
| AnswerValidation.IsAnswerCorrect | lib/answer-validation.ts:49-62 | correct iff the trimmed stored answer is the trimmed user answer (when that is not quote-wrapped), or that answer wrapped in one pair of `"`, or a lone `"` against an empty answer |
| AnswerValidation.UnquoteForm | lib/answer-validation.ts:55-61 | comparing with the stored answer after one surrounding pair of quotes is sliced off is the same as that bare-or-wrapped-in-quotes form |
| AnswerValidation.GradingIgnoresPadding | lib/answer-validation.ts:49-61 | grading is insensitive to leading and trailing whitespace on both arguments |
| AnswerValidation.SelfGrading | lib/answer-validation.ts:55-61 | an answer graded against itself is correct iff its trimmed form is not both `"`-prefixed and `"`-suffixed |
| AnswerValidation.StoredQuotesStripped | lib/answer-validation.ts:55-58 | `"12"` is accepted against the stored answer `"\"12\""` |
| AnswerValidation.SubmittedQuotesKept | lib/answer-validation.ts:55-61 | quotes are stripped from the stored answer only: `"\"12\""` is rejected against `"12"` |
| AnswerValidation.PaddedQuoteExample | lib/answer-validation.ts:51-58 | trimming comes before unquoting: `"  12 "` is accepted against `"\"12\""` |
| AnswerValidation.CaseExample | lib/answer-validation.ts:61 | the comparison is case-sensitive: `"Paris"` is rejected against `"paris"` |
| AnswerValidation.LoneQuoteExample | lib/answer-validation.ts:56-57 | a stored lone `"` strips to "", which any all-whitespace submission matches |
| AnswerValidation.DigitRun | lib/answer-validation.ts:17 | `\d+` takes the maximal run of digits |
| AnswerValidation.FindMatch | lib/answer-validation.ts:17 | the match is the leftmost position where the pattern matches; none means no position matches |
| AnswerValidation.MatchAtIff | lib/answer-validation.ts:17 | the per-position match succeeds exactly where `Correct: ` is followed by one or more digits, a `/` and one or more digits |
| AnswerValidation.PatternMatches | lib/answer-validation.ts:17 | wherever the pattern fits, the groups are the one possible first digit run and the longest second digit run (greedy `\d+`) |
| AnswerValidation.AnalyzeSubmissionResult | lib/answer-validation.ts:10-40 | parsed iff the pattern occurs somewhere; otherwise the XP fallback (xp>0, xp>0, 0, 1, false); when parsed, the counts are the groups of the leftmost match, isCorrect holds and isNewlyCorrect iff correctCount > 0 |
| AnswerValidation.MatchAtFirstGroup | lib/answer-validation.ts:30 | a label followed by digits then `/` and a digit matches, and the first group is the value of those digits |
| AnswerValidation.NoLabelNoParse | lib/answer-validation.ts:19-28 | a message with no `C` in it is never parsed, so the result is the XP fallback |
| AnswerValidation.ReplayMessageFallsBack | lib/answer-validation.ts:17-28 | the replay message "Attempt already processed" falls back to the XP rule |
| Store.LedgerSumAppend | lib/xp-manager.ts:41-48 | appending an entry adds its amount to its own user's sum only |
| Store.LedgerSum | lib/xp-manager.ts:41-56 | the `_sum` of the user's amounts is never negative when none of that user's amounts is |
| Store.LedgerSumNoEntries | lib/xp-manager.ts:56 | a user with no ledger entries sums to 0, the `_sum.amount` fallback |
| Store.ProgressOf | features/lessons/server/route.ts:45-46 | without a progress row: not completed, at 0% |
| Store.OverallProgressFull | features/profile/server/route.ts:60-61 | when the user's rows name existing lessons, completed/total·100 lies in 0..100 and is 100 iff there are lessons and every one is completed |
| Store.OverallProgress | features/profile/server/route.ts:41-61 | a well-formed percentage with positive denominator, which is 0 exactly when there are no lessons (the `: 0` guard) or no row of the user is completed |
| Store.Database.CreateUserRows | features/accounts/server/route.ts:34-59 | for a user with no rows yet (a fresh id, after the "User already exists" check), sign-up creates a profile at 0 XP and a 0/0 streak last active on the sign-up day, leaving the other tables alone |
| XpManager.AwardXp | lib/xp-manager.ts:13-61 | appends exactly one entry with the given fields and returns it; the user's cached total becomes the ledger sum, i.e. the old sum plus the amount; other users' profiles are unchanged; a missing profile row is an error, but the entry has already been appended |
| XpManager.RecalculateUserXp | lib/xp-manager.ts:68-92 | ledger untouched; the cached total is set to the ledger sum, which is returned; a missing profile row is an error and changes nothing; from a consistent cache, nothing changes |
| XpManager.AwardThenRecalculate | lib/xp-manager.ts:68-92 | after a successful award the cache is consistent, recalculating returns the old sum plus the amount, and other users' sums and profiles are unchanged |
| LessonsRoute.FirstWithAttemptId | features/lessons/server/route.ts:139-143 | finds the first attempt row with the attemptId, from any user and any problem; none iff no row has it |
| LessonsRoute.CountOwned | features/lessons/server/route.ts:176-178 | the filter keeps at most all of the lesson's problems, and all of them iff every problem id occurs among the answers |
| LessonsRoute.ReplayResponse | features/lessons/server/route.ts:145-162 | the replay answers with that row's xpEarned and the message "Attempt already processed" |
| LessonsRoute.CountOwnedIsOverlap | features/lessons/server/route.ts:176-179 | the filter counts the lesson's problem ids that occur among the answers' ids |
| LessonsRoute.OwnershipIff | features/lessons/server/route.ts:175-185 | with unique problem ids in the lesson, the check passes iff the answers' problem ids are pairwise distinct and all belong to the lesson |
| LessonsRoute.ForeignAnswerRejected | features/lessons/server/route.ts:176-185 | an answer to a problem of another lesson fails the check |
| LessonsRoute.DuplicateAnswerRejected | features/lessons/server/route.ts:176-185 | two answers to the same problem fail the check |
| LessonsRoute.FindProblem | features/lessons/server/route.ts:193 | after the check the lookup always finds a problem of the lesson with that id |
| LessonsRoute.FindProblemUnique | features/lessons/server/route.ts:193 | with unique ids, the lookup finds exactly that problem |
| LessonsRoute.Grade | features/lessons/server/route.ts:199-213 | the attempt row carries the user, problem, attemptId and answer; isCorrect iff it equals the stored answer exactly (`===`); xpEarned is 10 if correct, else 0 |
| LessonsRoute.GradeAll | features/lessons/server/route.ts:192-217 | the loop records exactly one row per answer |
| LessonsRoute.GradeAllRows | features/lessons/server/route.ts:192-217 | the loop appends one graded row per answer, in answer order |
| LessonsRoute.CountCorrect | features/lessons/server/route.ts:188-202 | the number of correct answers is at most the number of answers |
| LessonsRoute.XpMatchesRows | features/lessons/server/route.ts:212-220 | the response xp, 10·correctAnswers, equals the sum of the new rows' xpEarned |
| LessonsRoute.CountCorrectIsCard | features/lessons/server/route.ts:199-202 | with distinct answers, correctAnswers is the number of distinct problems answered correctly |
| LessonsRoute.ProgressFor | features/lessons/server/route.ts:237-257 | for correct ≤ total the row is well formed (0..100%, completed iff 100%); completed iff the lesson is non-empty and every problem is correct |
| LessonsRoute.CorrectWithinLesson | features/lessons/server/route.ts:176-217 | after the ownership check every answer names a lesson problem, and the correct count is at most the number of problems |
| LessonsRoute.CompletedIffAllCorrect | features/lessons/server/route.ts:237-257 | after the ownership check, the overwritten progress row is completed iff the lesson is non-empty and every one of its problems was answered correctly |
| LessonsRoute.NextStreak | features/lessons/server/route.ts:276-319 | longestStreak never decreases, and lastActive becomes either today or stays as it was |
| LessonsRoute.SameDayStable | features/lessons/server/route.ts:310-319 | a submission on the row's last active day never changes the row |
| LessonsRoute.SecondSubmissionStable | features/lessons/server/route.ts:310-319 | once a submission stamped today, a second one that day changes nothing |
| LessonsRoute.NextDayExtends | features/lessons/server/route.ts:292-309 | a correct answer one day away from lastActive adds one to current, sets longest to max(new current, longest) and stamps today |
| LessonsRoute.GapRestarts | features/lessons/server/route.ts:283-291 | a gap of two or more days sets current to 1, or 0 with nothing correct, keeps longest and stamps today |
| LessonsRoute.FutureLastActiveExtends | features/lessons/server/route.ts:280-281 | the day gap is absolute: a last active day one day in the future also extends the streak |
| LessonsRoute.NextDayNothingCorrect | features/lessons/server/route.ts:292-319 | the next day with nothing correct leaves the whole row, lastActive included, as it was |
| LessonsRoute.LongestCanTrailCurrent | features/lessons/server/route.ts:283-291 | a gap of two or more days restarts current at 1 without raising longest, so current can exceed longest |
| LessonsRoute.FirstSubmissionKeepsZero | features/lessons/server/route.ts:264-273 | a user without a streak row gets 0/0/today, so the first day's submission leaves current at 0 |
| LessonsRoute.SubmitMessage | features/lessons/server/route.ts:339 | the printed `Correct: c/n` message matches the client's pattern at its start, with groups c and n |
| LessonsRoute.MessageMatches | features/lessons/server/route.ts:339 | the label, the printed count, `/` and the printed total match at position 0 and read back as the two counts |
| LessonsRoute.MessageRoundTrip | features/lessons/server/route.ts:339 | parsing the `Correct: c/n` message gives back c and n, parsed and correct, and newly correct iff c > 0 |
| LessonsRoute.RecordAttempts | features/lessons/server/route.ts:187-217 | the loop returns the number of correct answers and appends exactly the graded rows; other tables are unchanged |
| LessonsRoute.UpdateStreak | features/lessons/server/route.ts:259-331 | creates 0/0/today if the row is missing, then stores `NextStreak` of it and returns that row's current and longest |
| LessonsRoute.UpsertProfile | features/lessons/server/route.ts:222-234 | the cached total grows by the XP earned, or is created with it |
| LessonsRoute.UpsertProgress | features/lessons/server/route.ts:240-257 | the (user, lesson) progress row is overwritten, not maxed, and the stored rows stay well formed |
| LessonsRoute.Tally | features/lessons/server/route.ts:219-341 | profile, progress and streak are written as `Tallied` describes and the response reports them; attempts and ledger are untouched |
| LessonsRoute.Accept | features/lessons/server/route.ts:187-341 | one graded row per answer, then the tally for the number of correct answers |
| LessonsRoute.Submit | features/lessons/server/route.ts:128-349 | 403 without a session; a known attemptId replays the first row's xpEarned and writes nothing; 404 for a missing lesson and 400 for a failed ownership check, writing nothing; otherwise `Accepted`; never writes the ledger; the store stays valid |
| LessonsRoute.ListLessons | features/lessons/server/route.ts:11-55 | 403 without a session; otherwise one entry per lesson with its problem count, showing the user's stored progress row, or not completed at 0% without one |
| LessonsRoute.ListedProgressWellFormed | features/lessons/server/route.ts:44-46 | in a valid store every listed percentage lies in 0..100 and completed iff 100, defaults included |
| LessonsRoute.NewUserListing | features/lessons/server/route.ts:45-46 | a user without progress rows sees every lesson not completed at 0% |
| LessonsRoute.GetLesson | features/lessons/server/route.ts:58-111 | 403 without a session, 404 for an unknown lesson; otherwise the lesson's problem views and the user's stored progress row, or not completed at 0% (`?? false`, `?? 0`) without one |
| LessonsRoute.NewUserLesson | features/lessons/server/route.ts:101-102 | a user with no progress row sees the lesson's problem views, not completed, at 0% |
| LessonsRoute.ViewsHideAnswers | features/lessons/server/route.ts:72-78 | the served problems do not depend on the stored answers |
| LessonsRoute.Views | features/lessons/server/route.ts:72-78 | one view per problem, in lesson order, carrying that problem's id and question |
| LessonsRoute.ReadAfterAccept | features/lessons/server/route.ts:89-104 | after an accepted submission, GET `/:id` shows the progress it wrote |
| LessonsRoute.LessonsProfile | features/lessons/server/route.ts:352-394 | 403 without a session; the stored cached total and streak counters, each defaulting to 0 without a row |
| LessonsRoute.LessonsProfileProgress | features/lessons/server/route.ts:371-379 | in a valid store the overall progress lies in 0..100 and is 100 iff every lesson is completed |
| LessonsRoute.ProfileAfterAccept | features/lessons/server/route.ts:383-387 | after an accepted submission the profile shows the total and streak the response carried |
| LessonsRoute.AcceptOutrunsLedger | features/lessons/server/route.ts:222-234 | the submission raises the cached total without a ledger entry: from a matching cache, the cache ends ahead of the ledger by exactly the XP awarded |
| ProfileRoute.StartOfDay | features/profile/server/route.ts:19-20 | today's UTC midnight is at most `now`, and less than a day before it |
| ProfileRoute.ActiveSince | features/profile/server/route.ts:47-57 | the findFirst succeeds iff some attempt by this user was created at or after the bound |
| ProfileRoute.DayBoundary | features/profile/server/route.ts:47-53 | a time is at or after today's midnight iff its UTC day is today or later |
| ProfileRoute.GetProfile | features/profile/server/route.ts:10-81 | 403 without a session; totalXP is the ledger sum; progress is the overall completed-lesson percentage; hasActivityToday iff some attempt by the user falls on today's UTC day or later; the stored streak counters, or 0/0 without a row |
| ProfileRoute.LevelFieldsMatchTotal | features/profile/server/route.ts:33-75 | all four level fields are those of `calculateLevelProgress(totalXP)`: level ≥ 1 whose bracket holds the total, 0 ≤ xpIntoLevel < xpForNextLevel = the next level's cost, and levelProgress exactly 100·xpIntoLevel/xpForNextLevel |
| ProfileRoute.NoEntriesLevelOne | features/profile/server/route.ts:30 | with no ledger entries, total 0 at level 1 with 0 of 100 XP |
| ProfileRoute.ProfileProgress | features/profile/server/route.ts:60-61 | in a valid store the progress lies in 0..100 and is 100 iff every lesson is completed |
| ProfileRoute.ActivityIsPerUser | features/profile/server/route.ts:47-53 | another user's attempt never switches the flag |
| Leaderboard.CountAbove | app/leaderboard/page.tsx:46-52 | the count of profiles with strictly more XP is at most the number of profiles |
| Leaderboard.CountAboveIsCard | app/leaderboard/page.tsx:46-52 | the count is the size of the set of profiles with strictly more XP |
| Leaderboard.CountAbovePermutation | app/leaderboard/page.tsx:46-52 | the count does not depend on the order of the rows |
| Leaderboard.CountAboveZero | app/leaderboard/page.tsx:46-52 | the count is 0 iff nobody has strictly more XP |
| Leaderboard.Lookup | app/leaderboard/page.tsx:33-42 | no profile is found iff no row belongs to the user |
| Leaderboard.LookupRow | app/leaderboard/page.tsx:33-42 | with unique users, the lookup returns the user's own total |
| Leaderboard.UserRank | app/leaderboard/page.tsx:45-53 | null iff the user has no profile row; otherwise 1 ≤ rank ≤ number of profiles |
| Leaderboard.RankCountsHigherTotals | app/leaderboard/page.tsx:45-52 | rank = 1 + the number of profiles with strictly more XP |
| Leaderboard.EqualTotalsEqualRank | app/leaderboard/page.tsx:45-52 | users with equal totals get equal rank |
| Leaderboard.RankOneIff | app/leaderboard/page.tsx:46-52 | rank 1 iff no profile has strictly more XP |
| Leaderboard.RankOfProfile | app/leaderboard/page.tsx:33-53 | over the userProfile table, the rank is null iff the user has no profile row, and otherwise counts against that user's total |
| Leaderboard.Insert | app/leaderboard/page.tsx:18-20 | inserting into a descending list keeps it descending and adds exactly that row |
| Leaderboard.SortDescending | app/leaderboard/page.tsx:18-20 | orders by totalXP descending and is a permutation of the rows |
| Leaderboard.TopUsers | app/leaderboard/page.tsx:17-30 | at most 10 rows (exactly min(10, n)), in non-increasing totalXP, all taken from the table |
| Leaderboard.SortedCountAbove | app/leaderboard/page.tsx:17-21 | in a descending list, at most i rows have more XP than the row at position i |
| Leaderboard.OrderedRankBound | app/leaderboard/page.tsx:17-52 | in any ordering of the profiles by descending XP, however ties fall, the user at 0-based position i has rank ≤ i+1 |
| Leaderboard.TopRankBound | app/leaderboard/page.tsx:17-52 | the user at 0-based position i of the top list has rank ≤ i+1 |

## Behaviour the model follows

These are behaviours of the code that a reader might not expect. Where a comment or the client expects something else, the bullet names it. The model follows the code.

- **Grading on submit** compares with plain `===` (features/lessons/server/route.ts:199). It trims nothing and strips no quotes. The doc comment of `isAnswerCorrect` (lib/answer-validation.ts:44) says that function should be used server-side; the submit route does not use it.
- **"Newly correct".** Every correct answer earns 10 XP again on each new attemptId, and the message counts all correct answers. The comment at lib/answer-validation.ts:16 reads X as the newly correct count. The client's `ResultData` type (app/lessons/[id]/[questionId]/page.tsx:17-25) also expects `isCorrect` and `wasNewlyCorrect` fields, which the submit response never carries.
- **Idempotency** is keyed on attemptId alone, across all users and problems. The replay reports the xpEarned of one matching row, not the whole submission's XP. The `findFirst` at features/lessons/server/route.ts:139-143 has no `orderBy`, so which row is unspecified. The model takes the first in insertion order (see "## Left out").
- **Route shadowing.** `lessonsRouter` registers GET `/:id` (features/lessons/server/route.ts:58) before GET `/profile` (features/lessons/server/route.ts:352). Hono tries handlers in registration order, so a GET of `/profile` on this router reaches the `/:id` handler, which looks for a lesson with id "profile" and answers 404. `LessonsRoute.LessonsProfile` models the shadowed handler as written. In the API entry point, app/api/[[...route]]/route.ts:6 mounts only the accounts router.
- **Attempt rows** are appended, one per answer per submission. There is no per-(user, problem) upsert.
- **The streak's day gap** is an absolute difference (`Math.abs`). A gap of two or more days restarts current at 1, or 0, without raising longest. `longestStreak ≥ currentStreak` is therefore not kept (`LessonsRoute.LongestCanTrailCurrent`). A user's first submission keeps current at 0.
- **The submit route never writes the XP ledger.** The profile router's total (the ledger sum) and the lessons router's and leaderboard's total (the cached userProfile.totalXP) can differ (`LessonsRoute.AcceptOutrunsLedger`). The model never asserts that they are equal.

## Left out

- Prisma, Hono and zod are not modelled as such. Queries are reads and writes of the `Database` fields. Request-body validation is the typed parameters.
- Every 500 path (`catch` to "Failed to …") is left out. Database failures are not modelled.
- Concurrency and atomicity are left out: the find-then-create race on attemptId, the `Promise.all` fan-out, and partial writes when no transaction is used. Each handler runs as one atomic step.
- Floating point is not modelled. Every percentage is an exact fraction (`Percent`). So the `progressPercentage === 100` test at features/lessons/server/route.ts:249 is exact: it holds iff every problem is correct. Bounds and the completed equivalence are proved on exact values; IEEE rounding is not modelled.
- The clock: `new Date()` is the parameter `now`, in milliseconds; `setUTCHours(0, 0, 0, 0)` is `DayOf`. `Math.ceil` of a whole-day difference is that difference.
- The session lookup (NextAuth) is an `Option<UserId>` parameter. Sign-up is modelled only by the rows it creates, in `Store.Database.CreateUserRows`.
- Ordering: GET `/` lists lessons by their `order` field. The model returns a map keyed by lesson id, so that order is not modelled. Problems keep their stored order.
- Leaderboard ties: Prisma leaves the order of equal totals unspecified. `Leaderboard.SortDescending` is one stable choice. The rank properties do not depend on row order (`CountAbovePermutation`). The rank bound by position holds for any descending permutation (`OrderedRankBound`). `TopUsers` itself is stated for `SortDescending`'s output, so which tied rows make the cut at position 10 is that choice.
- LevelSystem.XpForLevel: computes the exact ⌊√(10000·n³)⌋. The source's double-precision `Math.floor(100 * Math.pow(n, 1.5))` is assumed to agree with it. That is not proved. Rounding can make the two differ, at the latest once 100·n^1.5 exceeds 2^53.
- LessonsRoute.FirstWithAttemptId: returns the first matching row in insertion order. The source's `findFirst` has no `orderBy`, so the database may return any matching row; the replayed xpEarned is only specified for that choice.
- Integer width is not modelled. Integers are unbounded. Prisma `Int` columns (totalXP, amount, xpEarned, the streak counters) are 32-bit in the database. JavaScript numbers are doubles, exact only up to 2^53.
- Decimal.ValueShow: holds for unbounded naturals. `parseInt` and a template literal agree only while the number is exactly representable, and `${n}` switches to exponent notation from 1e21.
- LessonsRoute.MessageRoundTrip: holds for unbounded counts, with the same limits as `Decimal.ValueShow`.
- The columns not used by the logic are left out: problem type, options and order, usernames, lesson titles, userProfile.progress, and row ids and timestamps other than createdAt.
- The `if (!problem) continue` branch (features/lessons/server/route.ts:195-197) cannot be reached after the ownership check. `LessonsRoute.FindProblem` proves the lookup succeeds, so the loop has no dead branch.
- The fallback `updatedStreak?.currentStreak ?? 0` (features/lessons/server/route.ts:327-330) always finds the row the upsert created. The model reads that row.
- The leaderboard's redirect for a missing session (app/leaderboard/page.tsx:12-14) and the page's JSX are not modelled.
- React pages and hooks, query keys and invalidation, error classes and seed scripts are outside the progression logic.
