/**
 * The leaderboard page's data: the ten profiles with the most XP, and the
 * session user's competition rank (one plus the number of profiles with
 * strictly more XP), or none when the user has no profile row.
 */
module Leaderboard {
  import opened Wrappers
  import opened Store

  /** A userProfile row as the page reads it. */
  datatype ProfileRow = ProfileRow(userId: UserId, totalXP: int)

  /** The `take` of the top-users query. */
  const TopCount: nat := 10

  /** The userProfile table lists each user at most once (userId is unique). */
  predicate UniqueUsers(rows: seq<ProfileRow>) {
    forall i, j :: 0 <= i < j < |rows| ==> rows[i].userId != rows[j].userId
  }

  /** rows is the userProfile table whose totals the map `profiles` holds. */
  predicate Lists(rows: seq<ProfileRow>, profiles: map<UserId, int>) {
    && UniqueUsers(rows)
    && (forall i :: 0 <= i < |rows| ==> rows[i].userId in profiles && profiles[rows[i].userId] == rows[i].totalXP)
    && (forall u :: u in profiles ==> exists i :: 0 <= i < |rows| && rows[i].userId == u)
  }

  // ---------------------------------------------------------------------------
  // Counting profiles above a total

  /** The number of rows with totalXP strictly greater than xp. */
  function CountAbove(rows: seq<ProfileRow>, xp: int): (n: nat)
    ensures n <= |rows|
  {
    if rows == [] then 0
    else CountAbove(rows[..|rows| - 1], xp) + (if rows[|rows| - 1].totalXP > xp then 1 else 0)
  }

  /** The positions of the rows with totalXP strictly greater than xp. */
  function Above(rows: seq<ProfileRow>, xp: int): set<int> {
    set i | 0 <= i < |rows| && rows[i].totalXP > xp
  }

  /** CountAbove is the size of the set of rows it counts. */
  lemma {:induction false} CountAboveIsCard(rows: seq<ProfileRow>, xp: int)
    ensures CountAbove(rows, xp) == |Above(rows, xp)|
  {
    if rows == [] {
      assert Above(rows, xp) == {};
    } else {
      var n := |rows| - 1;
      var init := rows[..n];
      CountAboveIsCard(init, xp);
      assert n !in Above(init, xp);
      if rows[n].totalXP > xp {
        assert Above(rows, xp) == Above(init, xp) + {n};
      } else {
        assert Above(rows, xp) == Above(init, xp);
      }
    }
  }

  /** The count over a concatenation is the sum of the counts. */
  lemma {:induction false} CountAboveConcat(a: seq<ProfileRow>, b: seq<ProfileRow>, xp: int)
    ensures CountAbove(a + b, xp) == CountAbove(a, xp) + CountAbove(b, xp)
  {
    if b == [] {
      assert a + b == a;
    } else {
      var n := |b| - 1;
      assert (a + b)[..|a + b| - 1] == a + b[..n];
      CountAboveConcat(a, b[..n], xp);
    }
  }

  /** The count depends only on which rows there are, not on their order. */
  lemma {:induction false} CountAbovePermutation(a: seq<ProfileRow>, b: seq<ProfileRow>, xp: int)
    requires multiset(a) == multiset(b)
    ensures CountAbove(a, xp) == CountAbove(b, xp)
  {
    if a == [] {
      assert |b| == |multiset(b)| == 0;
    } else {
      var n := |a| - 1;
      var x := a[n];
      assert a == a[..n] + [x];
      assert x in multiset(b);
      var k :| 0 <= k < |b| && b[k] == x;
      var rest := b[..k] + b[k + 1..];
      assert b == b[..k] + [x] + b[k + 1..];
      assert multiset(rest) == multiset(b) - multiset{x};
      assert multiset(a[..n]) == multiset(a) - multiset{x};
      CountAbovePermutation(a[..n], rest, xp);
      CountAboveConcat(a[..n], [x], xp);
      CountAboveConcat(b[..k], b[k + 1..], xp);
      CountAboveConcat(b[..k] + [x], b[k + 1..], xp);
      CountAboveConcat(b[..k], [x], xp);
    }
  }

  /** No row is counted exactly when no row has more than xp. */
  lemma {:induction false} CountAboveZero(rows: seq<ProfileRow>, xp: int)
    ensures CountAbove(rows, xp) == 0 <==> forall i :: 0 <= i < |rows| ==> rows[i].totalXP <= xp
  {
    if rows != [] {
      var n := |rows| - 1;
      CountAboveZero(rows[..n], xp);
      if CountAbove(rows, xp) == 0 {
        forall i | 0 <= i < |rows|
          ensures rows[i].totalXP <= xp
        {
          if i < n {
            assert rows[..n][i] == rows[i];
          }
        }
      } else if rows[n].totalXP <= xp {
        var i :| 0 <= i < n && rows[..n][i].totalXP > xp;
        assert rows[i].totalXP > xp;
      }
    }
  }

  // ---------------------------------------------------------------------------
  // Rank

  /** The total of u's profile row, if u has one. */
  function Lookup(rows: seq<ProfileRow>, u: UserId): (r: Option<int>)
    ensures r.None? <==> forall i :: 0 <= i < |rows| ==> rows[i].userId != u
  {
    if rows == [] then None
    else if rows[0].userId == u then Some(rows[0].totalXP)
    else Lookup(rows[1..], u)
  }

  /** In a table with unique users, the lookup finds a row's own total. */
  lemma {:induction false} LookupRow(rows: seq<ProfileRow>, k: int)
    requires UniqueUsers(rows) && 0 <= k < |rows|
    ensures Lookup(rows, rows[k].userId) == Some(rows[k].totalXP)
  {
    if k > 0 {
      assert rows[0].userId != rows[k].userId;
      assert rows[1..][k - 1] == rows[k];
      LookupRow(rows[1..], k - 1);
    }
  }

  /** The user's rank: 1 + the number of profiles with strictly more XP; None without a profile. */
  function UserRank(rows: seq<ProfileRow>, u: UserId): (rank: Option<nat>)
    ensures rank.None? <==> forall i :: 0 <= i < |rows| ==> rows[i].userId != u
    ensures rank.Some? ==> 1 <= rank.value <= |rows|
  {
    match Lookup(rows, u)
    case None => None
    case Some(xp) =>
      assert CountAbove(rows, xp) < |rows| by {
        var k :| 0 <= k < |rows| && rows[k].userId == u;
        var j := FirstRow(rows, u, k);
        CountAboveMisses(rows, xp, j);
      }
      Some(CountAbove(rows, xp) + 1)
  }

  /** A row with no more than xp is never counted, so the count misses at least one row. */
  lemma {:induction false} CountAboveMisses(rows: seq<ProfileRow>, xp: int, j: int)
    requires 0 <= j < |rows| && rows[j].totalXP <= xp
    ensures CountAbove(rows, xp) < |rows|
  {
    var n := |rows| - 1;
    if j < n {
      assert rows[..n][j] == rows[j];
      CountAboveMisses(rows[..n], xp, j);
    }
  }

  /** The position of the row Lookup reads: the first one of user u. */
  lemma {:induction false} FirstRow(rows: seq<ProfileRow>, u: UserId, k: int) returns (j: int)
    requires 0 <= k < |rows| && rows[k].userId == u
    ensures 0 <= j < |rows| && Lookup(rows, u) == Some(rows[j].totalXP)
  {
    if rows[0].userId == u {
      j := 0;
    } else {
      assert rows[1..][k - 1] == rows[k];
      var j' := FirstRow(rows[1..], u, k - 1);
      j := j' + 1;
    }
  }

  /** The rank counts the profiles with strictly more XP. */
  lemma RankCountsHigherTotals(rows: seq<ProfileRow>, u: UserId)
    requires Lookup(rows, u).Some?
    ensures UserRank(rows, u) == Some(1 + |Above(rows, Lookup(rows, u).value)|)
  {
    CountAboveIsCard(rows, Lookup(rows, u).value);
  }

  /** Users with equal totals share a rank. */
  lemma EqualTotalsEqualRank(rows: seq<ProfileRow>, u: UserId, v: UserId)
    requires Lookup(rows, u).Some? && Lookup(rows, u) == Lookup(rows, v)
    ensures UserRank(rows, u) == UserRank(rows, v)
  {
  }

  /** Rank 1 exactly when nobody has strictly more XP. */
  lemma RankOneIff(rows: seq<ProfileRow>, u: UserId)
    requires Lookup(rows, u).Some?
    ensures UserRank(rows, u) == Some(1) <==> forall i :: 0 <= i < |rows| ==> rows[i].totalXP <= Lookup(rows, u).value
  {
    CountAboveZero(rows, Lookup(rows, u).value);
  }

  /** Over the userProfile table, the rank is None exactly for users without a profile row. */
  lemma RankOfProfile(rows: seq<ProfileRow>, profiles: map<UserId, int>, u: UserId)
    requires Lists(rows, profiles)
    ensures UserRank(rows, u).None? <==> u !in profiles
    ensures u in profiles ==> UserRank(rows, u) == Some(1 + CountAbove(rows, profiles[u]))
  {
    if u in profiles {
      var k :| 0 <= k < |rows| && rows[k].userId == u;
      LookupRow(rows, k);
    }
  }

  // ---------------------------------------------------------------------------
  // Top users

  /** Non-increasing totalXP. */
  predicate Descending(s: seq<ProfileRow>) {
    forall i, j :: 0 <= i < j < |s| ==> s[i].totalXP >= s[j].totalXP
  }

  /** A row with at least the XP of a descending list's head can go in front of it. */
  lemma DescendingCons(x: ProfileRow, t: seq<ProfileRow>)
    requires Descending(t) && (t == [] || x.totalXP >= t[0].totalXP)
    ensures Descending([x] + t)
  {
    var u := [x] + t;
    forall i, j | 0 <= i < j < |u|
      ensures u[i].totalXP >= u[j].totalXP
    {
      if i == 0 && j > 1 {
        assert u[j] == t[j - 1];
      }
    }
  }

  /** Places r before the first row with no more XP than r. */
  function Insert(r: ProfileRow, s: seq<ProfileRow>): (t: seq<ProfileRow>)
    requires Descending(s)
    ensures Descending(t)
    ensures multiset(t) == multiset(s) + multiset{r}
    ensures |t| == |s| + 1 && (t[0] == r || (s != [] && t[0] == s[0]))
  {
    if s == [] then [r]
    else if r.totalXP >= s[0].totalXP then
      DescendingCons(r, s);
      [r] + s
    else
      assert s == [s[0]] + s[1..];
      var rest := Insert(r, s[1..]);
      DescendingCons(s[0], rest);
      [s[0]] + rest
  }

  /** The orderBy totalXP desc of the query. */
  function SortDescending(rows: seq<ProfileRow>): (s: seq<ProfileRow>)
    ensures Descending(s)
    ensures multiset(s) == multiset(rows)
  {
    if rows == [] then []
    else
      assert rows == [rows[0]] + rows[1..];
      Insert(rows[0], SortDescending(rows[1..]))
  }

  /** The top-users query: the profiles by descending XP, at most ten of them. */
  function TopUsers(rows: seq<ProfileRow>): (top: seq<ProfileRow>)
    ensures |top| == if |rows| < TopCount then |rows| else TopCount
    ensures Descending(top)
    ensures multiset(top) <= multiset(rows)
  {
    var sorted := SortDescending(rows);
    assert |sorted| == |multiset(sorted)| == |rows|;
    var n := if |rows| < TopCount then |rows| else TopCount;
    assert sorted == sorted[..n] + sorted[n..];
    sorted[..n]
  }

  /** In a descending list, the rows above position i are among the i before it. */
  lemma SortedCountAbove(s: seq<ProfileRow>, i: int)
    requires Descending(s) && 0 <= i < |s|
    ensures CountAbove(s, s[i].totalXP) <= i
  {
    assert s == s[..i] + s[i..];
    CountAboveConcat(s[..i], s[i..], s[i].totalXP);
    CountAboveZero(s[i..], s[i].totalXP);
  }

  /**
   * In any ordering of the profiles by descending totalXP (however ties fall), the
   * user at position i (from 0) has rank at most i + 1.
   */
  lemma OrderedRankBound(rows: seq<ProfileRow>, ordered: seq<ProfileRow>, i: int)
    requires UniqueUsers(rows) && Descending(ordered) && multiset(ordered) == multiset(rows)
    requires 0 <= i < |ordered|
    ensures UserRank(rows, ordered[i].userId).Some?
    ensures UserRank(rows, ordered[i].userId).value <= i + 1
  {
    var r := ordered[i];
    assert r in multiset(rows) by {
      assert r in multiset(ordered);
    }
    var k :| 0 <= k < |rows| && rows[k] == r;
    LookupRow(rows, k);
    CountAbovePermutation(rows, ordered, r.totalXP);
    SortedCountAbove(ordered, i);
  }

  /** The user listed at position i (from 0) has rank at most i + 1; ties can only lower it. */
  lemma TopRankBound(rows: seq<ProfileRow>, i: int)
    requires UniqueUsers(rows) && 0 <= i < |TopUsers(rows)|
    ensures UserRank(rows, TopUsers(rows)[i].userId).Some?
    ensures UserRank(rows, TopUsers(rows)[i].userId).value <= i + 1
  {
    assert TopUsers(rows)[i] == SortDescending(rows)[i];
    OrderedRankBound(rows, SortDescending(rows), i);
  }
}
