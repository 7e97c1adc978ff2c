/**
 * The RPG-style level curve of lib/level-system.ts.
 *
 * The cost of reaching level N from level N-1 is floor(100 * (N-1)^1.5) for N >= 2.
 * The source computes it with floating-point Math.pow; here it is computed exactly as
 * floor(sqrt(10000 * (N-1)^3)), which is the same integer because
 * 100 * n^1.5 = sqrt(10000 * n^3).
 */
module LevelSystem {
  import opened Percent

  /** The largest r whose square does not exceed x. */
  function ISqrt(x: nat): (r: nat)
    ensures r * r <= x < (r + 1) * (r + 1)
    decreases x
  {
    if x < 4 then (if x == 0 then 0 else 1)
    else
      var h := ISqrt(x / 4);
      ISqrtStep(x, h);
      if (2 * h + 1) * (2 * h + 1) <= x then 2 * h + 1 else 2 * h
  }

  /** Doubling the root of x / 4 brackets the root of x. */
  lemma ISqrtStep(x: nat, h: nat)
    requires x >= 4 && h * h <= x / 4 < (h + 1) * (h + 1)
    ensures (2 * h) * (2 * h) <= x < (2 * h + 2) * (2 * h + 2)
  {
    var q := x / 4;
    var s := h * h;
    var t := (h + 1) * (h + 1);
    assert (2 * h) * (2 * h) == 4 * s;
    assert (2 * h + 2) * (2 * h + 2) == 4 * t;
    assert 4 * q <= x < 4 * q + 4;
    assert q + 1 <= t;
  }

  lemma SquareMonotone(a: nat, b: nat)
    requires a <= b
    ensures a * a <= b * b
  {
    assert a * a <= a * b <= b * b;
  }

  /** Every k whose square fits under x is at most ISqrt(x). */
  lemma ISqrtAtLeast(x: nat, k: nat)
    requires k * k <= x
    ensures k <= ISqrt(x)
  {
    var r := ISqrt(x);
    if r < k {
      SquareMonotone(r + 1, k);
    }
  }

  /** ISqrt is pinned down by its bracket. */
  lemma ISqrtUnique(x: nat, k: nat)
    requires k * k <= x < (k + 1) * (k + 1)
    ensures ISqrt(x) == k
  {
    ISqrtAtLeast(x, k);
    var r := ISqrt(x);
    if k < r {
      SquareMonotone(k + 1, r);
    }
  }

  function Cube(n: nat): nat { n * n * n }

  /** From level 2 on, the root is at least the root of 10000 * 1^3. */
  lemma RootAtLeastHundred(n: nat)
    requires n >= 1
    ensures ISqrt(10000 * Cube(n)) >= 100
  {
    assert n * n >= 1;
    assert Cube(n) >= n * n;
    ISqrtAtLeast(10000 * Cube(n), 100);
  }

  /** getXpForLevel: the XP needed to go from level-1 to level (0 for level <= 1). */
  function XpForLevel(level: int): (r: nat)
    ensures level <= 1 ==> r == 0
    ensures level >= 2 ==> r * r <= 10000 * Cube(level - 1) < (r + 1) * (r + 1)
    ensures level >= 2 ==> 100 <= r
  {
    if level <= 1 then 0
    else
      RootAtLeastHundred(level - 1);
      ISqrt(10000 * Cube(level - 1))
  }

  lemma CubeSucc(n: nat)
    ensures Cube(n + 1) == Cube(n) + 3 * (n * n) + 3 * n + 1
  {
    var m := n * n;
    assert (n + 1) * (n + 1) == m + 2 * n + 1;
    assert (m + 2 * n + 1) * (n + 1) == m * n + 3 * m + 3 * n + 1;
  }

  /** A root of 10000 n^3 is at most 100 n^2. */
  lemma RootBound(n: nat, r: nat)
    requires n >= 1 && r * r <= 10000 * Cube(n)
    ensures r <= 100 * (n * n)
  {
    var m := n * n;
    assert n <= m;
    assert Cube(n) == m * n <= m * m;
    assert (100 * m) * (100 * m) == 10000 * (m * m);
    if r > 100 * m {
      SquareMonotone(100 * m + 1, r);
    }
  }

  /** The per-level cost strictly grows with the level. */
  lemma XpForLevelStep(level: int)
    requires level >= 2
    ensures XpForLevel(level) < XpForLevel(level + 1)
  {
    var n: nat := level - 1;
    var r := XpForLevel(level);
    RootBound(n, r);
    CubeSucc(n);
    assert (r + 1) * (r + 1) == r * r + 2 * r + 1;
    assert (r + 1) * (r + 1) <= 10000 * Cube(n + 1);
    ISqrtAtLeast(10000 * Cube(n + 1), r + 1);
  }

  lemma {:induction false} XpForLevelIncreasing(a: int, b: int)
    requires 2 <= a < b
    ensures XpForLevel(a) < XpForLevel(b)
    decreases b - a
  {
    XpForLevelStep(a);
    if a + 1 < b {
      XpForLevelIncreasing(a + 1, b);
    }
  }

  /** The cumulative XP threshold of a level: the sum of XpForLevel(i) for i = 2..level. */
  function Cumulative(level: int): (r: nat)
    ensures level >= 1 ==> r >= 100 * (level - 1)
    decreases level
  {
    if level <= 1 then 0 else Cumulative(level - 1) + XpForLevel(level)
  }

  lemma CumulativeNext(level: int)
    requires level >= 1
    ensures Cumulative(level + 1) == Cumulative(level) + XpForLevel(level + 1)
  {
  }

  /** Thresholds are 0 up to level 1 and grow by at least 100 per level after that. */
  lemma {:induction false} CumulativeGap(a: int, b: int)
    requires 1 <= a <= b
    ensures Cumulative(a) + 100 * (b - a) <= Cumulative(b)
    decreases b - a
  {
    if a < b {
      CumulativeNext(a);
      CumulativeGap(a + 1, b);
    }
  }

  /** getTotalXpForLevel: the source's accumulating for-loop. */
  method TotalXpForLevel(level: int) returns (totalXp: int)
    ensures totalXp == Cumulative(level)
  {
    if level <= 1 {
      return 0;
    }
    totalXp := 0;
    for i := 2 to level + 1
      invariant totalXp == Cumulative(i - 1)
    {
      totalXp := totalXp + XpForLevel(i);
    }
  }

  /** Negative totals are read as 0. */
  function Clamp(totalXp: int): (c: nat)
    ensures c >= totalXp && (c == 0 || c == totalXp)
  {
    if totalXp < 0 then 0 else totalXp
  }

  /** The level reached with xp points, searching upwards from level. */
  function LevelFrom(xp: nat, level: int): (l: int)
    requires level >= 1 && Cumulative(level) <= xp
    ensures level <= l && Cumulative(l) <= xp < Cumulative(l + 1)
    decreases xp - Cumulative(level)
  {
    if xp < Cumulative(level + 1) then level else LevelFrom(xp, level + 1)
  }

  function LevelOf(totalXp: int): (l: int)
    ensures l >= 1 && Cumulative(l) <= Clamp(totalXp) < Cumulative(l + 1)
  {
    LevelFrom(Clamp(totalXp), 1)
  }

  /**
   * The progress bar value min(100, max(0, 100 * xpIntoLevel / xpForNextLevel)),
   * or 100 when the next level costs nothing.
   */
  function Percentage(xpIntoLevel: int, xpForNextLevel: int): (p: Percent)
    ensures p.InRange()
  {
    if xpForNextLevel > 0 then
      if xpIntoLevel < 0 then Zero
      else if xpIntoLevel > xpForNextLevel then Hundred
      else Of(xpIntoLevel, xpForNextLevel)
    else Hundred
  }

  datatype LevelInfo = LevelInfo(
    level: int,
    xpIntoLevel: int,
    xpForNextLevel: int,
    progressPercentage: Percent,
    totalXpForCurrentLevel: int,
    totalXpForNextLevel: int)

  /** The result record for a total of xp points at level l. */
  function InfoAt(xp: nat, l: int): LevelInfo {
    LevelInfo(l, xp - Cumulative(l), XpForLevel(l + 1),
              Percentage(xp - Cumulative(l), XpForLevel(l + 1)),
              Cumulative(l), Cumulative(l + 1))
  }

  /** calculateLevelProgress as a function of the total XP. */
  function LevelProgress(totalXp: int): (r: LevelInfo)
    ensures r.level >= 1
    ensures r.totalXpForCurrentLevel == Cumulative(r.level) <= Clamp(totalXp)
    ensures Clamp(totalXp) < r.totalXpForNextLevel == Cumulative(r.level + 1)
    ensures r.xpIntoLevel == Clamp(totalXp) - r.totalXpForCurrentLevel
    ensures r.xpForNextLevel == XpForLevel(r.level + 1) >= 100
    ensures 0 <= r.xpIntoLevel < r.xpForNextLevel
    ensures r.progressPercentage.InRange()
  {
    InfoAt(Clamp(totalXp), LevelOf(totalXp))
  }

  /**
   * calculateLevelProgress as the source runs it: walk up from level 1 until the
   * next threshold exceeds the total. The source's while(true) with an inner return
   * is written with the return condition negated as the loop guard.
   */
  method CalculateLevelProgress(totalXp: int) returns (r: LevelInfo)
    ensures r == LevelProgress(totalXp)
  {
    var xp := totalXp;
    if xp < 0 {
      xp := 0;
    }
    var level, totalXpForCurrentLevel := WalkLevels(xp);
    CumulativeNext(level);
    var xpNeededForNextLevel := XpForLevel(level + 1);
    var totalXpForNextLevel := totalXpForCurrentLevel + xpNeededForNextLevel;
    var xpIntoLevel := xp - totalXpForCurrentLevel;
    var progressPercentage := Percentage(xpIntoLevel, xpNeededForNextLevel);
    r := LevelInfo(level, xpIntoLevel, xpNeededForNextLevel, progressPercentage,
                   totalXpForCurrentLevel, totalXpForNextLevel);
    assert r == InfoAt(xp, level);
  }

  /**
   * The level search inside calculateLevelProgress: starting at level 1 with a running
   * threshold of 0, step up while the next threshold is still within reach.
   */
  method WalkLevels(xp: nat) returns (level: int, totalXpForCurrentLevel: int)
    ensures level == LevelFrom(xp, 1) && totalXpForCurrentLevel == Cumulative(level)
  {
    level := 1;
    totalXpForCurrentLevel := 0;
    while totalXpForCurrentLevel + XpForLevel(level + 1) <= xp
      invariant level >= 1 && totalXpForCurrentLevel == Cumulative(level) <= xp
      invariant LevelFrom(xp, level) == LevelFrom(xp, 1)
      decreases xp - totalXpForCurrentLevel
    {
      CumulativeNext(level);
      totalXpForCurrentLevel := totalXpForCurrentLevel + XpForLevel(level + 1);
      level := level + 1;
    }
    CumulativeNext(level);
  }

  /** A negative total gives exactly the result of 0. */
  lemma NegativeIsZero(totalXp: int)
    requires totalXp < 0
    ensures LevelProgress(totalXp) == LevelProgress(0)
  {
  }

  /** The bracket determines the level: no other level satisfies it. */
  lemma LevelUnique(totalXp: int, l: int)
    requires l >= 1 && Cumulative(l) <= Clamp(totalXp) < Cumulative(l + 1)
    ensures LevelOf(totalXp) == l
  {
    var k := LevelOf(totalXp);
    if k < l {
      CumulativeGap(k + 1, l);
    } else if l < k {
      CumulativeGap(l + 1, k);
    }
  }

  /** More XP never means a lower level. */
  lemma LevelMonotone(x: int, y: int)
    requires x <= y
    ensures LevelOf(x) <= LevelOf(y)
  {
    var a, b := LevelOf(x), LevelOf(y);
    if b < a {
      CumulativeGap(b + 1, a);
    }
  }

  /**
   * Since the next level always costs at least 100, the clamps and the ": 100"
   * fallback never apply: the percentage is the plain ratio.
   */
  lemma PercentageIsRatio(totalXp: int)
    ensures var r := LevelProgress(totalXp);
      r.progressPercentage == Of(r.xpIntoLevel, r.xpForNextLevel)
  {
  }

  /** The cost of a level is the r whose square and next square bracket 10000 * (level - 1)^3. */
  lemma XpForLevelIs(level: int, cube: nat, r: nat, square: nat, next: nat)
    requires level >= 2 && cube == Cube(level - 1)
    requires square == r * r && next == (r + 1) * (r + 1) && square <= 10000 * cube < next
    ensures XpForLevel(level) == r
  {
    ISqrtUnique(10000 * cube, r);
  }

  lemma SmallCubes()
    ensures Cube(1) == 1 && Cube(2) == 8 && Cube(3) == 27
  {
  }

  /** The first thresholds: level 2 at 100, level 3 at 382, level 4 at 901. */
  lemma FirstThresholds()
    ensures XpForLevel(2) == 100 && XpForLevel(3) == 282 && XpForLevel(4) == 519
    ensures Cumulative(2) == 100 && Cumulative(3) == 382 && Cumulative(4) == 901
  {
    SmallCubes();
    XpForLevelIs(2, 1, 100, 10000, 10201);
    XpForLevelIs(3, 8, 282, 79524, 80089);
    XpForLevelIs(4, 27, 519, 269361, 270400);
  }

  lemma LevelExamples()
    ensures LevelProgress(0) == LevelInfo(1, 0, 100, Percent(0, 100), 0, 100)
    ensures LevelOf(99) == 1
    ensures LevelProgress(100).level == 2
    ensures LevelProgress(100).xpIntoLevel == 0 && LevelProgress(100).xpForNextLevel == 282
    ensures LevelOf(381) == 2 && LevelOf(382) == 3
  {
    FirstThresholds();
    LevelUnique(0, 1);
    LevelUnique(99, 1);
    LevelUnique(100, 2);
    LevelUnique(381, 2);
    LevelUnique(382, 3);
  }
}
