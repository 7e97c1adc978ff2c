/**
 * The profile router's GET /profile: a read-only aggregation over the store.
 * The total comes from the XP ledger (not the cached profile total), the level
 * fields from the level curve, and hasActivityToday from the attempt rows.
 */
module ProfileRoute {
  import opened Wrappers
  import opened Percent
  import opened Store
  import LevelSystem

  /** The `data` object of the response. */
  datatype ProfileView = ProfileView(
    totalXP: int,
    progress: Percent,
    current: int,
    longest: int,
    hasActivityToday: bool,
    level: int,
    xpIntoLevel: int,
    xpForNextLevel: int,
    levelProgress: Percent)

  /** The first millisecond of the UTC day holding `now` (setUTCHours(0, 0, 0, 0)). */
  function StartOfDay(now: int): (t: int)
    ensures t <= now < t + MsPerDay
  {
    DayOf(now) * MsPerDay
  }

  /** Whether some attempt row of user u was created at or after `since` (the findFirst). */
  function ActiveSince(attempts: seq<Attempt>, u: UserId, since: int): (b: bool)
    ensures b <==> exists i :: 0 <= i < |attempts| && attempts[i].userId == u && attempts[i].createdAt >= since
  {
    if attempts == [] then false
    else
      var last := attempts[|attempts| - 1];
      (last.userId == u && last.createdAt >= since) || ActiveSince(attempts[..|attempts| - 1], u, since)
  }

  /** GET /profile. */
  function GetProfile(db: Database, session: Option<UserId>, now: int): (r: Result<ProfileView, HttpError>)
    reads db
    ensures r.Err? <==> session.None?
    ensures r.Err? ==> r.error == Unauthenticated
    ensures r.Ok? ==> r.value.totalXP == LedgerSum(db.ledger, session.value)
    ensures r.Ok? ==> (r.value.hasActivityToday <==>
      exists i :: 0 <= i < |db.attempts| && db.attempts[i].userId == session.value
                                         && DayOf(db.attempts[i].createdAt) >= DayOf(now))
    ensures session.Some? && session.value !in db.streaks ==> r.value.current == 0 && r.value.longest == 0
    ensures session.Some? && session.value in db.streaks ==>
      r.value.current == db.streaks[session.value].currentStreak
      && r.value.longest == db.streaks[session.value].longestStreak
    ensures r.Ok? ==> r.value.progress == OverallProgress(db.progress, db.lessons, session.value)
  {
    if session.None? then Err(Unauthenticated)
    else
      var u := session.value;
      var totalXP := LedgerSum(db.ledger, u);
      var levelInfo := LevelSystem.LevelProgress(totalXP);
      var (current, longest) := StreakCounters(db.streaks, u);
      var active := ActiveSince(db.attempts, u, StartOfDay(now));
      assert active <==> exists i :: 0 <= i < |db.attempts| && db.attempts[i].userId == u
                                 && DayOf(db.attempts[i].createdAt) >= DayOf(now) by {
        forall t: int
          ensures t >= StartOfDay(now) <==> DayOf(t) >= DayOf(now)
        {
          DayBoundary(t, now);
        }
      }
      Ok(ProfileView(totalXP, OverallProgress(db.progress, db.lessons, u), current, longest, active,
                     levelInfo.level, levelInfo.xpIntoLevel, levelInfo.xpForNextLevel, levelInfo.progressPercentage))
  }

  /** A timestamp is at or after today's UTC midnight exactly when its day is today or later. */
  lemma DayBoundary(t: int, now: int)
    ensures t >= StartOfDay(now) <==> DayOf(t) >= DayOf(now)
  {
    var d, e := DayOf(now), DayOf(t);
    assert e * MsPerDay <= t < e * MsPerDay + MsPerDay;
    if e >= d {
      assert e * MsPerDay >= d * MsPerDay;
    } else {
      assert e * MsPerDay + MsPerDay <= d * MsPerDay;
    }
  }

  /**
   * The four level fields are those of calculateLevelProgress of the ledger total:
   * the level whose bracket holds it, the XP into that level, the next level's cost,
   * and the exact share of that cost already earned.
   */
  lemma LevelFieldsMatchTotal(db: Database, u: UserId, now: int)
    ensures GetProfile(db, Some(u), now).Ok?
    ensures var v := GetProfile(db, Some(u), now).value;
      var lp := LevelSystem.LevelProgress(v.totalXP);
      && v.level == lp.level && v.xpIntoLevel == lp.xpIntoLevel
      && v.xpForNextLevel == lp.xpForNextLevel && v.levelProgress == lp.progressPercentage
    ensures var v := GetProfile(db, Some(u), now).value;
      && v.level >= 1
      && v.xpIntoLevel == LevelSystem.Clamp(v.totalXP) - LevelSystem.Cumulative(v.level)
      && 0 <= v.xpIntoLevel < v.xpForNextLevel == LevelSystem.XpForLevel(v.level + 1)
      && v.level == LevelSystem.LevelOf(v.totalXP)
      && v.levelProgress == Of(v.xpIntoLevel, v.xpForNextLevel)
      && v.levelProgress.InRange()
  {
    LevelSystem.PercentageIsRatio(LedgerSum(db.ledger, u));
  }

  /** A user without ledger entries has total 0, and so level 1 with 0 of 100 XP. */
  lemma NoEntriesLevelOne(db: Database, u: UserId, now: int)
    requires forall i :: 0 <= i < |db.ledger| ==> db.ledger[i].userId != u
    ensures GetProfile(db, Some(u), now).Ok?
    ensures GetProfile(db, Some(u), now).value.totalXP == 0
    ensures GetProfile(db, Some(u), now).value.level == 1
    ensures GetProfile(db, Some(u), now).value.xpIntoLevel == 0
    ensures GetProfile(db, Some(u), now).value.xpForNextLevel == 100
  {
    LedgerSumNoEntries(db.ledger, u);
    LevelSystem.LevelExamples();
  }

  /** In a valid store the overall progress lies in 0..100 and is 100 exactly when every lesson is completed. */
  lemma ProfileProgress(db: Database, u: UserId, now: int)
    requires db.Valid()
    ensures GetProfile(db, Some(u), now).Ok?
    ensures GetProfile(db, Some(u), now).value.progress.InRange()
    ensures GetProfile(db, Some(u), now).value.progress.IsHundred()
        <==> |db.lessons| > 0 && forall l :: l in db.lessons ==> ProgressOf(db.progress, u, l).completed
  {
    OverallProgressFull(db.progress, db.lessons, u);
  }

  /** Only the user's own attempts count: another user's rows never switch the flag on. */
  lemma ActivityIsPerUser(attempts: seq<Attempt>, a: Attempt, u: UserId, since: int)
    requires a.userId != u
    ensures ActiveSince(attempts + [a], u, since) == ActiveSince(attempts, u, since)
  {
    assert (attempts + [a])[..|attempts|] == attempts;
  }
}
