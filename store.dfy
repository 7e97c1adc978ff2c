/**
 * The database tables the progression logic reads and writes, as one object whose
 * fields are the tables. Rows are values; a table keyed by a unique column is a map,
 * a table that is appended to and scanned is a sequence.
 */
module Store {
  import opened Percent

  type UserId = string
  type LessonId = string
  type ProblemId = string

  /** Milliseconds in a UTC day. */
  const MsPerDay: int := 86400000

  /** The UTC day of a millisecond timestamp (what setUTCHours(0, 0, 0, 0) truncates to). */
  function DayOf(t: int): int {
    t / MsPerDay
  }

  /** A problem of a lesson; `answer` is the stored correct answer. */
  datatype Problem = Problem(id: ProblemId, question: string, answer: string)

  /** A userProblemAttempt row: one graded answer of one submission. */
  datatype Attempt = Attempt(
    userId: UserId,
    problemId: ProblemId,
    attemptId: string,
    answer: string,
    isCorrect: bool,
    xpEarned: int,
    createdAt: int)

  datatype XpSource = UserProblemAttempt | ManualAdjustment | SpecialAchievement | DailyStreak

  datatype XpCategory = CorrectAnswer | StreakBonus | Achievement | Manual

  /** A userXP row: one XP-granting event. */
  datatype XpEntry = XpEntry(
    userId: UserId,
    amount: int,
    sourceType: XpSource,
    sourceId: string,
    description: string,
    category: XpCategory)

  /** A userLessonProgress row. */
  datatype Progress = Progress(completed: bool, percentage: Percent) {
    /** A percentage between 0 and 100, and completed exactly at 100. */
    predicate WellFormed() {
      percentage.InRange() && (completed <==> percentage.IsHundred())
    }
  }

  /** A userStreak row; lastActive is a UTC day number. */
  datatype Streak = Streak(currentStreak: int, longestStreak: int, lastActive: int)

  /** The ids of a list of problems. */
  function Ids(problems: seq<Problem>): (ids: seq<ProblemId>)
    ensures |ids| == |problems|
    ensures forall i :: 0 <= i < |problems| ==> ids[i] == problems[i].id
  {
    if problems == [] then [] else [problems[0].id] + Ids(problems[1..])
  }

  /** No two elements of s are equal. */
  predicate Distinct<T(==)>(s: seq<T>) {
    forall i, j :: 0 <= i < j < |s| ==> s[i] != s[j]
  }

  /** The elements of s, as a set. */
  function ToSet(s: seq<string>): (r: set<string>)
    ensures forall x :: x in r <==> x in s
  {
    if s == [] then {} else {s[0]} + ToSet(s[1..])
  }

  /** A non-empty sequence is Distinct when its head is not repeated in its Distinct tail. */
  lemma DistinctCons<T>(s: seq<T>)
    requires s != []
    ensures Distinct(s) <==> s[0] !in s[1..] && Distinct(s[1..])
  {
    if s[0] !in s[1..] && Distinct(s[1..]) {
      forall i, j | 0 <= i < j < |s| ensures s[i] != s[j] {
        assert s[j] == s[1..][j - 1];
        if i > 0 {
          assert s[i] == s[1..][i - 1];
        }
      }
    }
    if Distinct(s) {
      forall i, j | 0 <= i < j < |s[1..]| ensures s[1..][i] != s[1..][j] {
        assert s[1..][i] == s[i + 1] && s[1..][j] == s[j + 1];
      }
    }
  }

  /** A sequence has at most as many distinct elements as it is long, and exactly as many when it is Distinct. */
  lemma {:induction false} ToSetCard(s: seq<string>)
    ensures |ToSet(s)| <= |s|
    ensures |ToSet(s)| == |s| <==> Distinct(s)
  {
    if s != [] {
      ToSetCard(s[1..]);
      DistinctCons(s);
      if s[0] in s[1..] {
        assert ToSet(s) == ToSet(s[1..]);
      } else {
        assert ToSet(s) == {s[0]} + ToSet(s[1..]);
      }
    }
  }

  /** A subset is no larger, and a subset as large as its superset is the superset. */
  lemma SubsetCard<T>(a: set<T>, b: set<T>)
    requires a <= b
    ensures |a| <= |b|
    ensures |a| == |b| ==> a == b
  {
    assert b == a + (b - a);
    assert a * (b - a) == {};
    if |a| == |b| {
      assert |b - a| == 0;
    }
  }

  /** The sum of the XP amounts the ledger holds for user u (the aggregate _sum, or 0). */
  function LedgerSum(ledger: seq<XpEntry>, u: UserId): (sum: int)
    ensures (forall i :: 0 <= i < |ledger| && ledger[i].userId == u ==> ledger[i].amount >= 0) ==> sum >= 0
  {
    if ledger == [] then 0
    else (if ledger[0].userId == u then ledger[0].amount else 0) + LedgerSum(ledger[1..], u)
  }

  /** Appending an entry adds its amount to its own user's sum and nothing to anyone else's. */
  lemma {:induction false} LedgerSumAppend(ledger: seq<XpEntry>, e: XpEntry, u: UserId)
    ensures LedgerSum(ledger + [e], u) == LedgerSum(ledger, u) + (if e.userId == u then e.amount else 0)
  {
    if ledger != [] {
      assert (ledger + [e])[1..] == ledger[1..] + [e];
      LedgerSumAppend(ledger[1..], e, u);
    }
  }

  /** A user with no entries sums to 0. */
  lemma {:induction false} LedgerSumNoEntries(ledger: seq<XpEntry>, u: UserId)
    requires forall i :: 0 <= i < |ledger| ==> ledger[i].userId != u
    ensures LedgerSum(ledger, u) == 0
  {
    if ledger != [] {
      LedgerSumNoEntries(ledger[1..], u);
    }
  }

  /** The database: every table the progression logic touches. */
  // ---------------------------------------------------------------------------
  // Reads shared by the handlers

  /** An HTTPException: status code and message. */
  datatype HttpError = HttpError(status: int, message: string)

  /** What every handler throws when there is no session. */
  const Unauthenticated := HttpError(403, "Unauthenticated")

  /** A user's cached userProfile.totalXP, 0 without a profile. */
  function CachedTotal(profiles: map<UserId, int>, u: UserId): int {
    if u in profiles then profiles[u] else 0
  }

  /** A user's progress rows, keyed by lesson (none when the user has none). */
  function ProgressRows(progress: map<UserId, map<LessonId, Progress>>, u: UserId): map<LessonId, Progress> {
    if u in progress then progress[u] else map[]
  }

  /** A user's progress on one lesson; without a row, not completed at 0%. */
  function ProgressOf(progress: map<UserId, map<LessonId, Progress>>, u: UserId, l: LessonId): (p: Progress)
    ensures l !in ProgressRows(progress, u) ==> !p.completed && p.percentage == Zero
  {
    var rows := ProgressRows(progress, u);
    if l in rows then rows[l] else Progress(false, Zero)
  }

  /** A user's current and longest streak; both 0 without a streak row. */
  function StreakCounters(streaks: map<UserId, Streak>, u: UserId): (int, int) {
    if u in streaks then (streaks[u].currentStreak, streaks[u].longestStreak) else (0, 0)
  }

  /** The lessons whose progress row says completed: the rows the completed-lesson count counts. */
  function CompletedLessons(rows: map<LessonId, Progress>): (c: set<LessonId>)
    ensures c <= rows.Keys
    ensures forall l :: l in c <==> l in rows && rows[l].completed
  {
    set l | l in rows && rows[l].completed
  }

  /** completedLessons / totalLessons * 100, or 0 when there are no lessons. */
  function OverallProgress(progress: map<UserId, map<LessonId, Progress>>, lessons: map<LessonId, seq<Problem>>,
                           u: UserId): (p: Percent)
    ensures p.den > 0 && p.num >= 0
    ensures p.num == 0 <==> |lessons.Keys| == 0 || forall l :: l in ProgressRows(progress, u) ==> !ProgressRows(progress, u)[l].completed
  {
    var total := |lessons.Keys|;
    if total > 0 then Of(|CompletedLessons(ProgressRows(progress, u))|, total) else Zero
  }

  /**
   * When the user's rows all name existing lessons, the overall progress lies in
   * 0..100 and is 100 exactly when every lesson has a completed row.
   */
  lemma OverallProgressFull(progress: map<UserId, map<LessonId, Progress>>, lessons: map<LessonId, seq<Problem>>,
                            u: UserId)
    requires ProgressRows(progress, u).Keys <= lessons.Keys
    ensures OverallProgress(progress, lessons, u).InRange()
    ensures OverallProgress(progress, lessons, u).IsHundred()
        <==> |lessons| > 0 && forall l :: l in lessons ==> ProgressOf(progress, u, l).completed
  {
    var rows := ProgressRows(progress, u);
    var done := CompletedLessons(rows);
    SubsetCard(done, lessons.Keys);
    if forall l :: l in lessons ==> ProgressOf(progress, u, l).completed {
      forall l | l in lessons
        ensures l in done
      {
        assert ProgressOf(progress, u, l).completed;
      }
      assert done == lessons.Keys;
    }
    if done == lessons.Keys {
      forall l | l in lessons
        ensures ProgressOf(progress, u, l).completed
      {
        assert l in done;
      }
    }
  }

  /**
   * What the schema guarantees of the two tables (problem ids are unique within a
   * lesson, progress rows refer to existing lessons) and what every write keeps
   * (progress rows are WellFormed).
   */
  ghost predicate TablesValid(lessons: map<LessonId, seq<Problem>>, progress: map<UserId, map<LessonId, Progress>>) {
    && (forall l :: l in lessons ==> Distinct(Ids(lessons[l])))
    && (forall u :: u in progress ==> progress[u].Keys <= lessons.Keys)
    && (forall u, l :: u in progress && l in progress[u] ==> progress[u][l].WellFormed())
  }

  class Database {
    /** userProblemAttempt, in insertion order */
    var attempts: seq<Attempt>
    /** userXP, the append-only XP ledger */
    var ledger: seq<XpEntry>
    /** userProfile.totalXP, the cached total per user */
    var profiles: map<UserId, int>
    /** userLessonProgress, per user and lesson */
    var progress: map<UserId, map<LessonId, Progress>>
    /** userStreak, per user */
    var streaks: map<UserId, Streak>
    /** lesson with its problems (in ascending `order`) */
    var lessons: map<LessonId, seq<Problem>>

    /** The lessons and progress tables are TablesValid; the other tables carry no constraint. */
    ghost predicate Valid()
      reads this
    {
      TablesValid(lessons, progress)
    }

    /** A database holding a lesson catalogue and no user data. */
    constructor (catalogue: map<LessonId, seq<Problem>>)
      requires forall l :: l in catalogue ==> Distinct(Ids(catalogue[l]))
      ensures Valid()
      ensures lessons == catalogue
      ensures attempts == [] && ledger == [] && profiles == map[]
      ensures progress == map[] && streaks == map[]
    {
      attempts, ledger, profiles := [], [], map[];
      progress, streaks, lessons := map[], map[], catalogue;
    }

    /**
     * The rows sign-up creates for a new user: a profile with 0 XP and a streak
     * of 0/0 last active on the sign-up day.
     */
    method CreateUserRows(u: UserId, now: int)
      requires Valid() && u !in profiles && u !in streaks
      modifies this
      ensures Valid()
      ensures profiles == old(profiles)[u := 0]
      ensures streaks == old(streaks)[u := Streak(0, 0, DayOf(now))]
      ensures attempts == old(attempts) && ledger == old(ledger)
      ensures progress == old(progress) && lessons == old(lessons)
    {
      profiles := profiles[u := 0];
      streaks := streaks[u := Streak(0, 0, DayOf(now))];
    }
  }
}
