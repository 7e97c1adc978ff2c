/**
 * The lessons API: POST /:id/submit, which grades a submission and updates XP,
 * lesson progress and the daily streak, and the read handlers GET /, GET /:id and
 * GET /profile of the same router.
 */
module LessonsRoute {
  import opened Wrappers
  import opened Percent
  import opened Decimal
  import opened Store
  import AnswerValidation

  /** XP granted for each correct answer. */
  const XpPerProblem: int := 10

  /** One element of the submitted `answers` array. */
  datatype AnswerInput = AnswerInput(problemId: ProblemId, answer: string)

  const LessonNotFound := HttpError(404, "Lesson not found")
  const ForeignProblems := HttpError(400, "Some problems do not belong to this lesson")

  /** The `data` object of a successful submit response. */
  datatype SubmitResponse =
    | Processed(xp: int, totalXp: int, streak: int, longestStreak: int, message: string)
    | AlreadyProcessed(xp: int, totalXp: int, streak: int, message: string)

  const ReplayMessage: string := "Attempt already processed"

  // ---------------------------------------------------------------------------
  // Idempotency

  /** Where the first attempt row carrying attemptId sits (findFirst on attemptId, any user). */
  function FirstWithAttemptId(attempts: seq<Attempt>, attemptId: string): (r: Option<nat>)
    ensures r.None? <==> forall i :: 0 <= i < |attempts| ==> attempts[i].attemptId != attemptId
    ensures r.Some? ==> r.value < |attempts| && attempts[r.value].attemptId == attemptId
    ensures r.Some? ==> forall i :: 0 <= i < r.value ==> attempts[i].attemptId != attemptId
  {
    if attempts == [] then None
    else if attempts[0].attemptId == attemptId then Some(0)
    else match FirstWithAttemptId(attempts[1..], attemptId)
      case None => None
      case Some(i) => Some(i + 1)
  }

  // ---------------------------------------------------------------------------
  // Ownership check

  /** answers.map(a => a.problemId) */
  function AnswerIds(answers: seq<AnswerInput>): (ids: seq<ProblemId>)
    ensures |ids| == |answers|
    ensures forall i :: 0 <= i < |answers| ==> ids[i] == answers[i].problemId
  {
    if answers == [] then [] else [answers[0].problemId] + AnswerIds(answers[1..])
  }

  /** How many of the lesson's problems have an id among problemIds (the length of validProblems). */
  function CountOwned(problems: seq<Problem>, problemIds: seq<ProblemId>): (n: nat)
    ensures n <= |problems|
    ensures n == |problems| <==> forall i :: 0 <= i < |problems| ==> problems[i].id in problemIds
  {
    if problems == [] then 0
    else
      var rest := CountOwned(problems[1..], problemIds);
      assert forall i :: 1 <= i < |problems| ==> problems[i] == problems[1..][i - 1];
      (if problems[0].id in problemIds then 1 else 0) + rest
  }

  /** The check that rejects a submission with status 400 when it fails. */
  predicate OwnershipHolds(problems: seq<Problem>, answers: seq<AnswerInput>) {
    CountOwned(problems, AnswerIds(answers)) == |answers|
  }

  /** Every answer names a problem of the lesson. */
  predicate AllOwned(problems: seq<Problem>, answers: seq<AnswerInput>) {
    forall i :: 0 <= i < |answers| ==> answers[i].problemId in Ids(problems)
  }

  /** Peeling an element that does not repeat off a sequence peels it off its overlap with any set. */
  lemma OverlapStep(ids: seq<string>, other: set<string>)
    requires ids != [] && ids[0] !in ids[1..]
    ensures |ToSet(ids) * other| == (if ids[0] in other then 1 else 0) + |ToSet(ids[1..]) * other|
  {
    var rest := ToSet(ids[1..]) * other;
    assert ToSet(ids) == {ids[0]} + ToSet(ids[1..]);
    if ids[0] in other {
      assert ToSet(ids) * other == {ids[0]} + rest;
    } else {
      assert ToSet(ids) * other == rest;
    }
  }

  /** With distinct problem ids, CountOwned counts the problem ids that are also answer ids. */
  lemma {:induction false} CountOwnedIsOverlap(problems: seq<Problem>, problemIds: seq<ProblemId>)
    requires Distinct(Ids(problems))
    ensures CountOwned(problems, problemIds) == |ToSet(Ids(problems)) * ToSet(problemIds)|
  {
    if problems != [] {
      var ids := Ids(problems);
      assert Ids(problems[1..]) == ids[1..];
      DistinctCons(ids);
      CountOwnedIsOverlap(problems[1..], problemIds);
      OverlapStep(ids, ToSet(problemIds));
    }
  }

  /**
   * The ownership check passes exactly when no problem is answered twice and every
   * answer names a problem of the lesson (problem ids being unique in a lesson).
   */
  lemma OwnershipIff(problems: seq<Problem>, answers: seq<AnswerInput>)
    requires Distinct(Ids(problems))
    ensures OwnershipHolds(problems, answers) <==> Distinct(AnswerIds(answers)) && AllOwned(problems, answers)
  {
    var p := ToSet(Ids(problems));
    var s := ToSet(AnswerIds(answers));
    CountOwnedIsOverlap(problems, AnswerIds(answers));
    ToSetCard(AnswerIds(answers));
    SubsetCard(p * s, s);
    if Distinct(AnswerIds(answers)) && AllOwned(problems, answers) {
      assert p * s == s;
    }
    if OwnershipHolds(problems, answers) {
      forall i | 0 <= i < |answers| ensures answers[i].problemId in Ids(problems) {
        assert AnswerIds(answers)[i] in s;
      }
    }
  }

  /** An answer to a problem of another lesson is rejected. */
  lemma ForeignAnswerRejected(problems: seq<Problem>, answers: seq<AnswerInput>, i: nat)
    requires Distinct(Ids(problems))
    requires i < |answers| && answers[i].problemId !in Ids(problems)
    ensures !OwnershipHolds(problems, answers)
  {
    OwnershipIff(problems, answers);
  }

  /** A problem answered twice is rejected, even when both answers belong to the lesson. */
  lemma DuplicateAnswerRejected(problems: seq<Problem>, answers: seq<AnswerInput>, i: nat, j: nat)
    requires Distinct(Ids(problems))
    requires i < j < |answers| && answers[i].problemId == answers[j].problemId
    ensures !OwnershipHolds(problems, answers)
  {
    OwnershipIff(problems, answers);
    assert AnswerIds(answers)[i] == AnswerIds(answers)[j];
  }

  // ---------------------------------------------------------------------------
  // Grading

  /** lesson.problems.find(p => p.id === problemId) for an id the lesson has. */
  function FindProblem(problems: seq<Problem>, id: ProblemId): (p: Problem)
    requires id in Ids(problems)
    ensures p in problems && p.id == id
  {
    assert Ids(problems) == [problems[0].id] + Ids(problems[1..]);
    if problems[0].id == id then problems[0] else FindProblem(problems[1..], id)
  }

  /** With unique ids, the problem found is the only one carrying the id. */
  lemma {:induction false} FindProblemUnique(problems: seq<Problem>, k: nat)
    requires Distinct(Ids(problems)) && k < |problems|
    ensures FindProblem(problems, problems[k].id) == problems[k]
  {
    if k > 0 {
      assert Ids(problems)[0] != Ids(problems)[k];
      assert Ids(problems[1..]) == Ids(problems)[1..];
      DistinctCons(Ids(problems));
      assert problems[1..][k - 1] == problems[k];
      FindProblemUnique(problems[1..], k - 1);
    }
  }

  /** An answer is correct when it is exactly (===) the problem's stored answer. */
  predicate IsCorrectAnswer(problems: seq<Problem>, a: AnswerInput)
    requires a.problemId in Ids(problems)
  {
    FindProblem(problems, a.problemId).answer == a.answer
  }

  /** The attempt row recorded for one answer. */
  function Grade(userId: UserId, attemptId: string, problems: seq<Problem>, a: AnswerInput, now: int): (row: Attempt)
    requires a.problemId in Ids(problems)
    ensures row.userId == userId && row.problemId == a.problemId && row.attemptId == attemptId
    ensures row.answer == a.answer && row.createdAt == now
    ensures row.isCorrect <==> IsCorrectAnswer(problems, a)
    ensures row.xpEarned == if row.isCorrect then XpPerProblem else 0
  {
    var isCorrect := IsCorrectAnswer(problems, a);
    Attempt(userId, a.problemId, attemptId, a.answer, isCorrect, if isCorrect then XpPerProblem else 0, now)
  }

  /** The attempt rows a submission records, one per answer, in order. */
  function GradeAll(userId: UserId, attemptId: string, problems: seq<Problem>, answers: seq<AnswerInput>, now: int): (rows: seq<Attempt>)
    requires AllOwned(problems, answers)
    ensures |rows| == |answers|
  {
    if answers == [] then []
    else
      var init := answers[..|answers| - 1];
      assert forall i :: 0 <= i < |init| ==> init[i] == answers[i];
      GradeAll(userId, attemptId, problems, init, now) + [Grade(userId, attemptId, problems, answers[|answers| - 1], now)]
  }

  /** Row i of a submission is the grade of answer i. */
  lemma {:induction false} GradeAllRows(userId: UserId, attemptId: string, problems: seq<Problem>, answers: seq<AnswerInput>, now: int)
    requires AllOwned(problems, answers)
    ensures forall i :: 0 <= i < |answers| ==>
      GradeAll(userId, attemptId, problems, answers, now)[i] == Grade(userId, attemptId, problems, answers[i], now)
  {
    if answers != [] {
      var init := answers[..|answers| - 1];
      GradeAllRows(userId, attemptId, problems, init, now);
    }
  }

  /** The number of correct answers. */
  function CountCorrect(problems: seq<Problem>, answers: seq<AnswerInput>): (n: nat)
    requires AllOwned(problems, answers)
    ensures n <= |answers|
  {
    if answers == [] then 0
    else CountCorrect(problems, answers[..|answers| - 1])
         + (if IsCorrectAnswer(problems, answers[|answers| - 1]) then 1 else 0)
  }

  /** One more answer adds its graded row and, when correct, one to the count. */
  lemma PrefixStep(userId: UserId, attemptId: string, problems: seq<Problem>, answers: seq<AnswerInput>,
                   now: int, i: nat)
    requires AllOwned(problems, answers) && i < |answers|
    ensures AllOwned(problems, answers[..i]) && AllOwned(problems, answers[..i + 1])
    ensures GradeAll(userId, attemptId, problems, answers[..i + 1], now)
         == GradeAll(userId, attemptId, problems, answers[..i], now) + [Grade(userId, attemptId, problems, answers[i], now)]
    ensures CountCorrect(problems, answers[..i + 1])
         == CountCorrect(problems, answers[..i]) + (if IsCorrectAnswer(problems, answers[i]) then 1 else 0)
  {
    var p := answers[..i + 1];
    assert p[..i] == answers[..i];
    assert p[i] == answers[i];
  }

  /** The XP recorded on a list of attempt rows. */
  function SumXpEarned(rows: seq<Attempt>): int {
    if rows == [] then 0 else SumXpEarned(rows[..|rows| - 1]) + rows[|rows| - 1].xpEarned
  }

  /** The xp a submission reports is the XP its attempt rows record. */
  lemma {:induction false} XpMatchesRows(userId: UserId, attemptId: string, problems: seq<Problem>, answers: seq<AnswerInput>, now: int)
    requires AllOwned(problems, answers)
    ensures SumXpEarned(GradeAll(userId, attemptId, problems, answers, now)) == CountCorrect(problems, answers) * XpPerProblem
  {
    if answers != [] {
      var rows := GradeAll(userId, attemptId, problems, answers, now);
      assert rows[..|rows| - 1] == GradeAll(userId, attemptId, problems, answers[..|answers| - 1], now);
      XpMatchesRows(userId, attemptId, problems, answers[..|answers| - 1], now);
    }
  }

  /** The ids of the answers that are correct, as a set. */
  function CorrectIds(problems: seq<Problem>, answers: seq<AnswerInput>): (c: set<ProblemId>)
    requires AllOwned(problems, answers)
    ensures forall x :: x in c <==> exists i :: 0 <= i < |answers| && answers[i].problemId == x && IsCorrectAnswer(problems, answers[i])
  {
    if answers == [] then {}
    else
      var last := answers[|answers| - 1];
      var rest := CorrectIds(problems, answers[..|answers| - 1]);
      assert forall i :: 0 <= i < |answers| - 1 ==> answers[..|answers| - 1][i] == answers[i];
      if IsCorrectAnswer(problems, last) then rest + {last.problemId} else rest
  }

  /** When no problem is answered twice, the correct count is the number of problems answered correctly. */
  lemma {:induction false} CountCorrectIsCard(problems: seq<Problem>, answers: seq<AnswerInput>)
    requires AllOwned(problems, answers) && Distinct(AnswerIds(answers))
    ensures CountCorrect(problems, answers) == |CorrectIds(problems, answers)|
  {
    if answers != [] {
      var init := answers[..|answers| - 1];
      var last := answers[|answers| - 1];
      assert Distinct(AnswerIds(init)) by {
        forall i, j | 0 <= i < j < |init| ensures AnswerIds(init)[i] != AnswerIds(init)[j] {
          assert AnswerIds(answers)[i] != AnswerIds(answers)[j];
        }
      }
      CountCorrectIsCard(problems, init);
      var rest := CorrectIds(problems, init);
      assert last.problemId !in rest by {
        forall i | 0 <= i < |init| ensures init[i].problemId != last.problemId {
          assert AnswerIds(answers)[i] != AnswerIds(answers)[|answers| - 1];
        }
      }
      assert CorrectIds(problems, answers) == if IsCorrectAnswer(problems, last) then rest + {last.problemId} else rest;
    }
  }

  // ---------------------------------------------------------------------------
  // Lesson progress

  /** The progress row a submission writes: the correct share of all the lesson's problems. */
  function ProgressFor(correctAnswers: nat, totalProblems: nat): (p: Progress)
    ensures correctAnswers <= totalProblems ==> p.WellFormed()
    ensures p.completed <==> totalProblems > 0 && correctAnswers == totalProblems
  {
    var pct := if totalProblems > 0 then Of(correctAnswers, totalProblems) else Zero;
    Progress(pct.IsHundred(), pct)
  }

  /** Every problem of the lesson has an answer equal to its stored answer. */
  predicate AllAnsweredCorrectly(problems: seq<Problem>, answers: seq<AnswerInput>) {
    forall k :: 0 <= k < |problems| ==>
      exists i :: 0 <= i < |answers| && answers[i].problemId == problems[k].id
                                     && answers[i].answer == problems[k].answer
  }

  /** Only ids of the lesson are answered correctly. */
  lemma CorrectIdsOwned(problems: seq<Problem>, answers: seq<AnswerInput>)
    requires AllOwned(problems, answers)
    ensures CorrectIds(problems, answers) <= ToSet(Ids(problems))
  {
  }

  /** A problem's id is among the correctly answered ids exactly when some answer to it equals its stored answer. */
  lemma CorrectIdMember(problems: seq<Problem>, answers: seq<AnswerInput>, k: nat)
    requires Distinct(Ids(problems)) && AllOwned(problems, answers) && k < |problems|
    ensures problems[k].id in CorrectIds(problems, answers) <==>
            exists i :: 0 <= i < |answers| && answers[i].problemId == problems[k].id
                                           && answers[i].answer == problems[k].answer
  {
    FindProblemUnique(problems, k);
  }

  /** When every problem is answered correctly, every id of the lesson is a correctly answered id. */
  lemma AllCorrectCoversIds(problems: seq<Problem>, answers: seq<AnswerInput>)
    requires Distinct(Ids(problems)) && AllOwned(problems, answers)
    requires AllAnsweredCorrectly(problems, answers)
    ensures ToSet(Ids(problems)) <= CorrectIds(problems, answers)
  {
    forall x | x in ToSet(Ids(problems)) ensures x in CorrectIds(problems, answers) {
      var k :| 0 <= k < |problems| && Ids(problems)[k] == x;
      CorrectIdMember(problems, answers, k);
    }
  }

  /** When every id of the lesson is a correctly answered id, every problem is answered correctly. */
  lemma IdsCoveredAllCorrect(problems: seq<Problem>, answers: seq<AnswerInput>)
    requires Distinct(Ids(problems)) && AllOwned(problems, answers)
    requires ToSet(Ids(problems)) <= CorrectIds(problems, answers)
    ensures AllAnsweredCorrectly(problems, answers)
  {
    forall k | 0 <= k < |problems|
      ensures exists i :: 0 <= i < |answers| && answers[i].problemId == problems[k].id
                                             && answers[i].answer == problems[k].answer
    {
      assert Ids(problems)[k] in ToSet(Ids(problems));
      CorrectIdMember(problems, answers, k);
    }
  }

  /** The correctly answered ids are all of the lesson's ids exactly when every problem is answered correctly. */
  lemma CorrectIdsAreAll(problems: seq<Problem>, answers: seq<AnswerInput>)
    requires Distinct(Ids(problems)) && AllOwned(problems, answers)
    ensures CorrectIds(problems, answers) <= ToSet(Ids(problems))
    ensures CorrectIds(problems, answers) == ToSet(Ids(problems)) <==> AllAnsweredCorrectly(problems, answers)
  {
    CorrectIdsOwned(problems, answers);
    if AllAnsweredCorrectly(problems, answers) {
      AllCorrectCoversIds(problems, answers);
    }
    if CorrectIds(problems, answers) == ToSet(Ids(problems)) {
      IdsCoveredAllCorrect(problems, answers);
    }
  }

  /** A submission that passes the ownership check scores at most one point per problem. */
  lemma CorrectWithinLesson(problems: seq<Problem>, answers: seq<AnswerInput>)
    requires Distinct(Ids(problems)) && OwnershipHolds(problems, answers)
    ensures AllOwned(problems, answers) && CountCorrect(problems, answers) <= |problems|
  {
    OwnershipIff(problems, answers);
    CountCorrectIsCard(problems, answers);
    ToSetCard(Ids(problems));
    SubsetCard(CorrectIds(problems, answers), ToSet(Ids(problems)));
  }

  /**
   * A valid submission completes its lesson exactly when the lesson has problems
   * and every one of them is answered correctly in this very submission.
   */
  lemma CompletedIffAllCorrect(problems: seq<Problem>, answers: seq<AnswerInput>)
    requires Distinct(Ids(problems)) && OwnershipHolds(problems, answers)
    ensures AllOwned(problems, answers) && CountCorrect(problems, answers) <= |problems|
    ensures ProgressFor(CountCorrect(problems, answers), |problems|).completed
        <==> |problems| > 0 && AllAnsweredCorrectly(problems, answers)
  {
    OwnershipIff(problems, answers);
    CountCorrectIsCard(problems, answers);
    ToSetCard(Ids(problems));
    CorrectIdsAreAll(problems, answers);
    SubsetCard(CorrectIds(problems, answers), ToSet(Ids(problems)));
  }

  // ---------------------------------------------------------------------------
  // Streak

  function Abs(x: int): nat {
    if x < 0 then -x else x
  }

  /**
   * The streak row after a submission on day `today`: a gap of more than one day
   * restarts the streak, the next day extends it when something was correct, the
   * same day only refreshes lastActive when something was correct.
   */
  function NextStreak(s: Streak, today: int, correctAnswers: nat): (r: Streak)
    ensures r.longestStreak >= s.longestStreak
    ensures r.lastActive == s.lastActive || r.lastActive == today
    ensures s.currentStreak >= 0 ==> r.currentStreak >= 0
  {
    var diffDays := Abs(today - s.lastActive);
    if diffDays > 1 then
      s.(currentStreak := if correctAnswers > 0 then 1 else 0, lastActive := today)
    else if diffDays == 1 && correctAnswers > 0 then
      var newStreak := s.currentStreak + 1;
      Streak(newStreak, if newStreak > s.longestStreak then newStreak else s.longestStreak, today)
    else if diffDays == 0 && correctAnswers > 0 then
      s.(lastActive := today)
    else
      s
  }

  /** The streak row as it stands before the update (the upsert creates 0/0/today). */
  function StreakBefore(streaks: map<UserId, Streak>, u: UserId, today: int): Streak {
    if u in streaks then streaks[u] else Streak(0, 0, today)
  }

  /** A submission on the day the streak was last active never changes the row. */
  lemma SameDayStable(s: Streak, correctAnswers: nat)
    ensures NextStreak(s, s.lastActive, correctAnswers) == s
  {
  }

  /** A second submission on a day the first one stamped changes nothing more. */
  lemma SecondSubmissionStable(s: Streak, today: int, c1: nat, c2: nat)
    requires NextStreak(s, today, c1).lastActive == today
    ensures NextStreak(NextStreak(s, today, c1), today, c2) == NextStreak(s, today, c1)
  {
  }

  /**
   * A correct answer one day after lastActive (either side) extends the streak by
   * one, raises longest to it when it is passed, and stamps today.
   */
  lemma NextDayExtends(s: Streak, today: int, correctAnswers: nat)
    requires Abs(today - s.lastActive) == 1 && correctAnswers > 0
    ensures NextStreak(s, today, correctAnswers).currentStreak == s.currentStreak + 1
    ensures NextStreak(s, today, correctAnswers).longestStreak
         == if s.currentStreak + 1 > s.longestStreak then s.currentStreak + 1 else s.longestStreak
    ensures NextStreak(s, today, correctAnswers).lastActive == today
  {
  }

  /**
   * A gap of two or more days (either side) restarts current at 1, or at 0 with
   * nothing correct, leaves longest as it was and stamps today.
   */
  lemma GapRestarts(s: Streak, today: int, correctAnswers: nat)
    requires Abs(today - s.lastActive) > 1
    ensures NextStreak(s, today, correctAnswers)
         == Streak(if correctAnswers > 0 then 1 else 0, s.longestStreak, today)
  {
  }

  /** The day difference is absolute: a lastActive in the future also counts as "the next day". */
  lemma FutureLastActiveExtends(current: int, longest: int, day: int)
    ensures NextStreak(Streak(current, longest, day + 1), day, 1).currentStreak == current + 1
  {
  }

  /** A submission with nothing correct after a one-day gap leaves the row alone, lastActive included. */
  lemma NextDayNothingCorrect(s: Streak)
    ensures NextStreak(s, s.lastActive + 1, 0) == s
  {
  }

  /**
   * longestStreak >= currentStreak is not kept: a fresh 0/0 row whose next
   * submission comes two days later restarts at 1 without touching longest.
   */
  lemma LongestCanTrailCurrent(day: int)
    ensures NextStreak(Streak(0, 0, day), day + 2, 1) == Streak(1, 0, day + 2)
  {
  }

  /**
   * A streak row created on the submission day has a zero-day difference, so a
   * user's first submission leaves current at 0 however many answers are correct.
   */
  lemma FirstSubmissionKeepsZero(streaks: map<UserId, Streak>, u: UserId, today: int, correctAnswers: nat)
    requires u !in streaks
    ensures NextStreak(StreakBefore(streaks, u, today), today, correctAnswers) == Streak(0, 0, today)
  {
  }

  // ---------------------------------------------------------------------------
  // Response message

  /** The message `Correct: ${correctAnswers}/${answers.length}`. */
  function SubmitMessage(correctAnswers: nat, total: nat): (m: string)
    ensures AnswerValidation.MatchAt(m, 0) == Some((correctAnswers, total))
  {
    MessageMatches(correctAnswers, total);
    AnswerValidation.Label + Show(correctAnswers) + "/" + Show(total)
  }

  /** The pattern matches the printed message at its start, with the two printed counts as groups. */
  lemma MessageMatches(correctAnswers: nat, total: nat)
    ensures AnswerValidation.MatchAt(AnswerValidation.Label + Show(correctAnswers) + "/" + Show(total), 0)
         == Some((correctAnswers, total))
  {
    AnswerValidation.MatchLabelled(Show(correctAnswers), Show(total));
    ValueShow(correctAnswers);
    ValueShow(total);
  }

  /** The client's analyzeSubmissionResult reads back exactly the counts the server printed. */
  lemma MessageRoundTrip(xp: int, correctAnswers: nat, total: nat)
    ensures AnswerValidation.AnalyzeSubmissionResult(xp, SubmitMessage(correctAnswers, total))
         == AnswerValidation.SubmissionAnalysis(true, correctAnswers > 0, correctAnswers, total, true)
  {
  }

  // ---------------------------------------------------------------------------
  // POST /:id/submit

  /** What a replayed attemptId answers: the first matching row's xp, and the session user's total and streak. */
  function ReplayResponse(db: Database, u: UserId, row: nat): (r: SubmitResponse)
    reads db
    requires row < |db.attempts|
    ensures r.AlreadyProcessed? && r.xp == db.attempts[row].xpEarned && r.message == ReplayMessage
  {
    AlreadyProcessed(
      db.attempts[row].xpEarned,
      CachedTotal(db.profiles, u),
      if u in db.streaks then db.streaks[u].currentStreak else 0,
      ReplayMessage)
  }

  /**
   * The answer loop: grades each answer against the lesson's problem and appends
   * its attempt row; returns the number of correct answers.
   */
  method RecordAttempts(db: Database, userId: UserId, attemptId: string, problems: seq<Problem>,
                        answers: seq<AnswerInput>, now: int)
    returns (correctAnswers: nat)
    requires AllOwned(problems, answers)
    modifies db
    ensures correctAnswers == CountCorrect(problems, answers)
    ensures db.attempts == old(db.attempts) + GradeAll(userId, attemptId, problems, answers, now)
    ensures db.ledger == old(db.ledger) && db.profiles == old(db.profiles)
    ensures db.progress == old(db.progress) && db.streaks == old(db.streaks) && db.lessons == old(db.lessons)
  {
    correctAnswers := 0;
    var i := 0;
    ghost var start, rows := db.attempts, [];
    while i < |answers|
      invariant 0 <= i <= |answers|
      invariant correctAnswers == CountCorrect(problems, answers[..i])
      invariant rows == GradeAll(userId, attemptId, problems, answers[..i], now)
      invariant db.attempts == start + rows
      invariant db.ledger == old(db.ledger) && db.profiles == old(db.profiles)
      invariant db.progress == old(db.progress) && db.streaks == old(db.streaks) && db.lessons == old(db.lessons)
    {
      PrefixStep(userId, attemptId, problems, answers, now, i);
      var problemId, answer := answers[i].problemId, answers[i].answer;
      var problem := FindProblem(problems, problemId);
      var isCorrect := problem.answer == answer;
      if isCorrect {
        correctAnswers := correctAnswers + 1;
      }
      var attempt := Attempt(userId, problemId, attemptId, answer, isCorrect,
                             if isCorrect then XpPerProblem else 0, now);
      assert attempt == Grade(userId, attemptId, problems, answers[i], now);
      assert start + (rows + [attempt]) == db.attempts + [attempt];
      db.attempts := db.attempts + [attempt];
      rows := rows + [attempt];
      i := i + 1;
    }
    assert answers[..i] == answers;
  }

  /**
   * The streak step of a submission: creates the 0/0/today row if the user has none,
   * then applies the day-difference rule; returns the row's current and longest.
   */
  method UpdateStreak(db: Database, userId: UserId, today: int, correctAnswers: nat)
    returns (current: int, longest: int)
    requires db.Valid()
    modifies db
    ensures db.Valid()
    ensures db.streaks == old(db.streaks)[userId := NextStreak(old(StreakBefore(db.streaks, userId, today)), today, correctAnswers)]
    ensures current == db.streaks[userId].currentStreak && longest == db.streaks[userId].longestStreak
    ensures db.attempts == old(db.attempts) && db.ledger == old(db.ledger) && db.profiles == old(db.profiles)
    ensures db.progress == old(db.progress) && db.lessons == old(db.lessons)
  {
    if userId !in db.streaks {
      db.streaks := db.streaks[userId := Streak(0, 0, today)];
    }
    var userStreak := db.streaks[userId];
    var diffDays := Abs(today - userStreak.lastActive);
    var streakData: Option<(int, int)> := None;
    if diffDays > 1 {
      db.streaks := db.streaks[userId := userStreak.(currentStreak := if correctAnswers > 0 then 1 else 0, lastActive := today)];
    } else if diffDays == 1 && correctAnswers > 0 {
      var newStreak := userStreak.currentStreak + 1;
      var longestStreak := if newStreak > userStreak.longestStreak then newStreak else userStreak.longestStreak;
      db.streaks := db.streaks[userId := Streak(newStreak, longestStreak, today)];
      streakData := Some((newStreak, longestStreak));
    } else if diffDays == 0 && correctAnswers > 0 {
      db.streaks := db.streaks[userId := userStreak.(lastActive := today)];
    }
    if streakData.None? {
      var updated := db.streaks[userId];
      streakData := Some((updated.currentStreak, updated.longestStreak));
    }
    current, longest := streakData.value.0, streakData.value.1;
  }

  /**
   * The writes after the answer loop, for `correct` correct answers out of
   * `answerCount` on a lesson of `totalProblems` problems: the cached total raised
   * by the XP earned, the lesson's progress row overwritten, the streak row advanced,
   * and the response reporting them.
   */
  twostate predicate Tallied(db: Database, u: UserId, lessonId: LessonId, totalProblems: nat, correct: nat,
                             answerCount: nat, now: int, response: SubmitResponse)
    reads db
  {
    var streak := NextStreak(old(StreakBefore(db.streaks, u, DayOf(now))), DayOf(now), correct);
    && response == Processed(correct * XpPerProblem, old(CachedTotal(db.profiles, u)) + correct * XpPerProblem,
                             streak.currentStreak, streak.longestStreak, SubmitMessage(correct, answerCount))
    && db.profiles == old(db.profiles)[u := response.totalXp]
    && db.progress == old(db.progress)[u := old(ProgressRows(db.progress, u))[lessonId := ProgressFor(correct, totalProblems)]]
    && db.streaks == old(db.streaks)[u := streak]
  }

  /**
   * The effect of an accepted submission by user u on lesson lessonId, whose problems
   * are `problems`: one graded attempt row per answer appended, then the writes of
   * Tallied for the number of correct answers. The ledger and the lessons are left alone.
   */
  twostate predicate Accepted(db: Database, u: UserId, lessonId: LessonId, problems: seq<Problem>,
                              attemptId: string, answers: seq<AnswerInput>, now: int, response: SubmitResponse)
    reads db
  {
    && db.lessons == old(db.lessons) && db.ledger == old(db.ledger)
    && AllOwned(problems, answers)
    && db.attempts == old(db.attempts) + GradeAll(u, attemptId, problems, answers, now)
    && Tallied(db, u, lessonId, |problems|, CountCorrect(problems, answers), |answers|, now, response)
  }

  /** The userProfile upsert: increments the cached total, or creates it with the XP earned. */
  method UpsertProfile(db: Database, userId: UserId, xpEarned: int) returns (totalXp: int)
    requires db.Valid()
    modifies db
    ensures db.Valid()
    ensures db.profiles == old(db.profiles)[userId := old(CachedTotal(db.profiles, userId)) + xpEarned]
    ensures totalXp == db.profiles[userId]
    ensures db.attempts == old(db.attempts) && db.ledger == old(db.ledger)
    ensures db.progress == old(db.progress) && db.streaks == old(db.streaks) && db.lessons == old(db.lessons)
  {
    totalXp := CachedTotal(db.profiles, userId) + xpEarned;
    db.profiles := db.profiles[userId := totalXp];
  }

  /** The userLessonProgress upsert: creates or overwrites the row for (userId, lessonId). */
  method UpsertProgress(db: Database, userId: UserId, lessonId: LessonId, row: Progress)
    requires db.Valid() && lessonId in db.lessons && row.WellFormed()
    modifies db
    ensures db.Valid()
    ensures db.progress == old(db.progress)[userId := old(ProgressRows(db.progress, userId))[lessonId := row]]
    ensures db.attempts == old(db.attempts) && db.ledger == old(db.ledger)
    ensures db.profiles == old(db.profiles) && db.streaks == old(db.streaks) && db.lessons == old(db.lessons)
  {
    db.progress := db.progress[userId := ProgressRows(db.progress, userId)[lessonId := row]];
  }

  /** The upserts that follow the answer loop, and the response. */
  method Tally(db: Database, userId: UserId, lessonId: LessonId, totalProblems: nat, correctAnswers: nat,
               answerCount: nat, now: int)
    returns (response: SubmitResponse)
    requires db.Valid() && lessonId in db.lessons && correctAnswers <= totalProblems
    modifies db
    ensures db.Valid()
    ensures db.attempts == old(db.attempts) && db.ledger == old(db.ledger) && db.lessons == old(db.lessons)
    ensures Tallied(db, userId, lessonId, totalProblems, correctAnswers, answerCount, now, response)
  {
    var xpEarned := correctAnswers * XpPerProblem;
    var totalXp := UpsertProfile(db, userId, xpEarned);
    var percentage := if totalProblems > 0 then Of(correctAnswers, totalProblems) else Zero;
    UpsertProgress(db, userId, lessonId, Progress(percentage.IsHundred(), percentage));
    var current, longest := UpdateStreak(db, userId, DayOf(now), correctAnswers);
    response := Processed(xpEarned, totalXp, current, longest, SubmitMessage(correctAnswers, answerCount));
  }

  /** The writes of a submission that passed every check. */
  method Accept(db: Database, userId: UserId, lessonId: LessonId, problems: seq<Problem>, attemptId: string,
                answers: seq<AnswerInput>, now: int)
    returns (response: SubmitResponse)
    requires db.Valid() && lessonId in db.lessons && db.lessons[lessonId] == problems
    requires OwnershipHolds(problems, answers)
    modifies db
    ensures db.Valid()
    ensures Accepted(db, userId, lessonId, problems, attemptId, answers, now, response)
  {
    CorrectWithinLesson(problems, answers);
    var correctAnswers := RecordAttempts(db, userId, attemptId, problems, answers, now);
    response := Tally(db, userId, lessonId, |problems|, correctAnswers, |answers|, now);
  }

  /**
   * POST /:id/submit. Nothing is written when the session is missing, when the
   * attemptId was seen before (from any user), when the lesson is missing or when
   * the ownership check fails; otherwise the submission is Accepted.
   */
  method Submit(db: Database, session: Option<UserId>, lessonId: LessonId, attemptId: string,
                answers: seq<AnswerInput>, now: int)
    returns (r: Result<SubmitResponse, HttpError>)
    requires db.Valid()
    modifies db
    ensures db.Valid()
    ensures db.ledger == old(db.ledger) && db.lessons == old(db.lessons)
    ensures session.None? ==> r == Err(Unauthenticated) && unchanged(db)
    ensures session.Some? && FirstWithAttemptId(old(db.attempts), attemptId).Some? ==>
      && unchanged(db)
      && r == Ok(old(ReplayResponse(db, session.value, FirstWithAttemptId(db.attempts, attemptId).value)))
    ensures session.Some? && FirstWithAttemptId(old(db.attempts), attemptId).None? && lessonId !in old(db.lessons) ==>
      r == Err(LessonNotFound) && unchanged(db)
    ensures session.Some? && FirstWithAttemptId(old(db.attempts), attemptId).None? && lessonId in old(db.lessons)
            && !OwnershipHolds(old(db.lessons)[lessonId], answers) ==>
      r == Err(ForeignProblems) && unchanged(db)
    ensures session.Some? && FirstWithAttemptId(old(db.attempts), attemptId).None? && lessonId in old(db.lessons)
            && OwnershipHolds(old(db.lessons)[lessonId], answers) ==>
      r.Ok? && Accepted(db, session.value, lessonId, old(db.lessons)[lessonId], attemptId, answers, now, r.value)
  {
    if session.None? {
      return Err(Unauthenticated);
    }
    var userId := session.value;
    var existing := FirstWithAttemptId(db.attempts, attemptId);
    if existing.Some? {
      var previous := db.attempts[existing.value];
      var totalXp := if userId in db.profiles then db.profiles[userId] else 0;
      var streak := if userId in db.streaks then db.streaks[userId].currentStreak else 0;
      return Ok(AlreadyProcessed(previous.xpEarned, totalXp, streak, ReplayMessage));
    }
    if lessonId !in db.lessons {
      return Err(LessonNotFound);
    }
    var problems := db.lessons[lessonId];
    var problemIds := AnswerIds(answers);
    if CountOwned(problems, problemIds) != |answers| {
      return Err(ForeignProblems);
    }
    var response := Accept(db, userId, lessonId, problems, attemptId, answers, now);
    r := Ok(response);
  }

  // ---------------------------------------------------------------------------
  // GET /

  /** One lesson of the listing: its problem count and the user's progress on it. */
  datatype LessonSummary = LessonSummary(problemCount: nat, completed: bool, percentage: Percent)

  /** The listing entry for lesson l (progress `?? false` and `?? 0` when the user has no row). */
  function Summary(db: Database, u: UserId, l: LessonId): LessonSummary
    reads db
    requires l in db.lessons
  {
    var p := ProgressOf(db.progress, u, l);
    LessonSummary(|db.lessons[l]|, p.completed, p.percentage)
  }

  /** GET /: every lesson with its problem count and the session user's progress. */
  function ListLessons(db: Database, session: Option<UserId>): (r: Result<map<LessonId, LessonSummary>, HttpError>)
    reads db
    ensures r.Err? <==> session.None?
    ensures r.Err? ==> r.error == Unauthenticated
    ensures r.Ok? ==> r.value.Keys == db.lessons.Keys
    ensures r.Ok? ==> forall l :: l in r.value ==> r.value[l].problemCount == |db.lessons[l]|
    ensures r.Ok? ==> forall l :: l in r.value && l in ProgressRows(db.progress, session.value) ==>
      var row := db.progress[session.value][l];
      r.value[l].completed == row.completed && r.value[l].percentage == row.percentage
    ensures r.Ok? ==> forall l :: l in r.value && l !in ProgressRows(db.progress, session.value) ==>
      !r.value[l].completed && r.value[l].percentage == Zero
  {
    if session.None? then Err(Unauthenticated)
    else Ok(map l | l in db.lessons :: Summary(db, session.value, l))
  }

  /**
   * In a valid store every listed percentage lies in 0..100 and a lesson is listed
   * completed exactly when its percentage is 100, defaults included.
   */
  lemma ListedProgressWellFormed(db: Database, u: UserId, l: LessonId)
    requires db.Valid() && l in db.lessons
    ensures ListLessons(db, Some(u)).Ok?
    ensures Progress(ListLessons(db, Some(u)).value[l].completed, ListLessons(db, Some(u)).value[l].percentage).WellFormed()
  {
    var p := ProgressOf(db.progress, u, l);
    assert ListLessons(db, Some(u)).value[l] == LessonSummary(|db.lessons[l]|, p.completed, p.percentage);
    if l in ProgressRows(db.progress, u) {
      assert p == db.progress[u][l];
    }
  }

  /** A user with no progress rows sees every lesson not completed at 0%. */
  lemma NewUserListing(db: Database, u: UserId, l: LessonId)
    requires u !in db.progress && l in db.lessons
    ensures ListLessons(db, Some(u)).Ok?
    ensures ListLessons(db, Some(u)).value[l] == LessonSummary(|db.lessons[l]|, false, Zero)
  {
    assert ListLessons(db, Some(u)).value[l] == Summary(db, u, l);
  }

  // ---------------------------------------------------------------------------
  // GET /:id

  /** A problem as the client receives it: the stored answer is not selected. */
  datatype ProblemView = ProblemView(id: ProblemId, question: string)

  /** A lesson as the client receives it, with the user's progress on it. */
  datatype LessonView = LessonView(problems: seq<ProblemView>, completed: bool, percentage: Percent)

  /** The selected columns of each problem, in lesson order. */
  function Views(problems: seq<Problem>): (v: seq<ProblemView>)
    ensures |v| == |problems|
    ensures forall i :: 0 <= i < |v| ==> v[i].id == problems[i].id && v[i].question == problems[i].question
  {
    seq(|problems|, i requires 0 <= i < |problems| => ProblemView(problems[i].id, problems[i].question))
  }

  /** GET /:id: 403 without a session, 404 for an unknown lesson, else its problems and progress. */
  function GetLesson(db: Database, session: Option<UserId>, lessonId: LessonId): (r: Result<LessonView, HttpError>)
    reads db
    ensures session.None? <==> r == Err(Unauthenticated)
    ensures session.Some? ==> (lessonId !in db.lessons <==> r == Err(LessonNotFound))
    ensures r.Ok? ==> lessonId in db.lessons && r.value.problems == Views(db.lessons[lessonId])
    ensures r.Ok? && lessonId in ProgressRows(db.progress, session.value) ==>
      var row := db.progress[session.value][lessonId];
      r.value.completed == row.completed && r.value.percentage == row.percentage
    ensures r.Ok? && lessonId !in ProgressRows(db.progress, session.value) ==>
      !r.value.completed && r.value.percentage == Zero
  {
    if session.None? then Err(Unauthenticated)
    else if lessonId !in db.lessons then Err(LessonNotFound)
    else
      var p := ProgressOf(db.progress, session.value, lessonId);
      Ok(LessonView(Views(db.lessons[lessonId]), p.completed, p.percentage))
  }

  /** A user with no progress row on a lesson sees it not completed at 0%, with every problem listed. */
  lemma NewUserLesson(db: Database, u: UserId, lessonId: LessonId)
    requires u !in db.progress && lessonId in db.lessons
    ensures GetLesson(db, Some(u), lessonId) == Ok(LessonView(Views(db.lessons[lessonId]), false, Zero))
  {
  }

  /**
   * The view does not depend on the stored answers: two lessons whose problems
   * differ only in their answers are served identically.
   */
  lemma {:induction false} ViewsHideAnswers(problems: seq<Problem>, other: seq<Problem>)
    requires |problems| == |other|
    requires forall i :: 0 <= i < |problems| ==> problems[i].id == other[i].id && problems[i].question == other[i].question
    ensures Views(problems) == Views(other)
  {
    var a, b := Views(problems), Views(other);
    forall i | 0 <= i < |a|
      ensures a[i] == b[i]
    {
      assert a[i] == ProblemView(problems[i].id, problems[i].question);
    }
  }

  /**
   * After an accepted submission, GET /:id for the same user and lesson shows the
   * progress row the submission wrote.
   */
  twostate lemma ReadAfterAccept(db: Database, u: UserId, lessonId: LessonId, problems: seq<Problem>,
                                 attemptId: string, answers: seq<AnswerInput>, now: int, response: SubmitResponse)
    requires Accepted(db, u, lessonId, problems, attemptId, answers, now, response)
    requires lessonId in db.lessons && db.lessons[lessonId] == problems
    ensures GetLesson(db, Some(u), lessonId)
         == Ok(LessonView(Views(problems), ProgressFor(CountCorrect(problems, answers), |problems|).completed,
                          ProgressFor(CountCorrect(problems, answers), |problems|).percentage))
  {
  }

  // ---------------------------------------------------------------------------
  // GET /profile (lessons router)

  /** The lessons router's profile: cached total, overall progress and streak counters. */
  datatype StatsView = StatsView(totalXP: int, progress: Percent, current: int, longest: int)

  /** GET /profile: reads the cached userProfile.totalXP, not the ledger. */
  function LessonsProfile(db: Database, session: Option<UserId>): (r: Result<StatsView, HttpError>)
    reads db
    ensures r.Err? <==> session.None?
    ensures r.Err? ==> r.error == Unauthenticated
    ensures session.Some? && session.value !in db.profiles ==> r.value.totalXP == 0
    ensures session.Some? && session.value !in db.streaks ==> r.value.current == 0 && r.value.longest == 0
    ensures session.Some? && session.value in db.profiles ==> r.value.totalXP == db.profiles[session.value]
    ensures session.Some? && session.value in db.streaks ==>
      r.value.current == db.streaks[session.value].currentStreak
      && r.value.longest == db.streaks[session.value].longestStreak
  {
    if session.None? then Err(Unauthenticated)
    else
      var u := session.value;
      var (current, longest) := StreakCounters(db.streaks, u);
      Ok(StatsView(CachedTotal(db.profiles, u), OverallProgress(db.progress, db.lessons, u), current, longest))
  }

  /** In a valid store the overall progress lies in 0..100 and is 100 exactly when every lesson is completed. */
  lemma LessonsProfileProgress(db: Database, u: UserId)
    requires db.Valid()
    ensures LessonsProfile(db, Some(u)).Ok?
    ensures LessonsProfile(db, Some(u)).value.progress.InRange()
    ensures LessonsProfile(db, Some(u)).value.progress.IsHundred()
        <==> |db.lessons| > 0 && forall l :: l in db.lessons ==> ProgressOf(db.progress, u, l).completed
  {
    OverallProgressFull(db.progress, db.lessons, u);
  }

  /** After an accepted submission the profile reports the total and streak the response carried. */
  twostate lemma ProfileAfterAccept(db: Database, u: UserId, lessonId: LessonId, problems: seq<Problem>,
                                    attemptId: string, answers: seq<AnswerInput>, now: int, response: SubmitResponse)
    requires Accepted(db, u, lessonId, problems, attemptId, answers, now, response)
    ensures LessonsProfile(db, Some(u)).Ok?
    ensures LessonsProfile(db, Some(u)).value.totalXP == response.totalXp
    ensures LessonsProfile(db, Some(u)).value.current == response.streak
    ensures LessonsProfile(db, Some(u)).value.longest == response.longestStreak
  {
  }

  /**
   * The submit route raises the cached total but writes no ledger entry: starting
   * from a cache that matches the ledger, an accepted submission leaves the cache
   * ahead of the ledger sum by exactly the XP it awarded.
   */
  twostate lemma AcceptOutrunsLedger(db: Database, u: UserId, lessonId: LessonId, problems: seq<Problem>,
                                     attemptId: string, answers: seq<AnswerInput>, now: int, response: SubmitResponse)
    requires Accepted(db, u, lessonId, problems, attemptId, answers, now, response)
    requires old(CachedTotal(db.profiles, u)) == old(LedgerSum(db.ledger, u))
    ensures CachedTotal(db.profiles, u) == LedgerSum(db.ledger, u) + CountCorrect(problems, answers) * XpPerProblem
  {
  }
}
