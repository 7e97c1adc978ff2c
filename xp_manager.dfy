/**
 * lib/xp-manager.ts: awarding XP through the append-only ledger and refreshing the
 * cached per-user total from it.
 */
module XpManager {
  import opened Wrappers
  import opened Store

  /** The failure of prisma.userProfile.update when the user has no profile row. */
  datatype XpError = ProfileNotFound

  /** The cached total agrees with the ledger for user u. */
  ghost predicate Consistent(db: Database, u: UserId)
    reads db
  {
    u in db.profiles && db.profiles[u] == LedgerSum(db.ledger, u)
  }

  /**
   * awardXP: append one ledger entry, then overwrite the user's cached total with the
   * user's ledger sum. The entry is written before the profile update and there is no
   * transaction, so a user without a profile row still gets the entry, and then the
   * call fails.
   */
  method AwardXp(db: Database, userId: UserId, amount: int, sourceType: XpSource,
                 sourceId: string, description: string, category: XpCategory)
    returns (r: Result<XpEntry, XpError>)
    requires db.Valid()
    modifies db
    ensures db.Valid()
    ensures db.ledger == old(db.ledger) + [XpEntry(userId, amount, sourceType, sourceId, description, category)]
    ensures r.Ok? <==> userId in old(db.profiles)
    ensures r.Ok? ==> r.value == db.ledger[|db.ledger| - 1]
    ensures r.Ok? ==> db.profiles == old(db.profiles)[userId := LedgerSum(db.ledger, userId)]
    ensures r.Ok? ==> db.profiles[userId] == old(LedgerSum(db.ledger, userId)) + amount
    ensures r.Err? ==> db.profiles == old(db.profiles)
    ensures db.attempts == old(db.attempts) && db.progress == old(db.progress)
    ensures db.streaks == old(db.streaks) && db.lessons == old(db.lessons)
  {
    var xpTransaction := XpEntry(userId, amount, sourceType, sourceId, description, category);
    db.ledger := db.ledger + [xpTransaction];
    LedgerSumAppend(old(db.ledger), xpTransaction, userId);
    var totalXP := LedgerSum(db.ledger, userId);
    if userId !in db.profiles {
      return Err(ProfileNotFound);
    }
    db.profiles := db.profiles[userId := totalXP];
    return Ok(xpTransaction);
  }

  /**
   * recalculateUserXP: overwrite the user's cached total with the ledger sum and
   * return it; fails, changing nothing, when the user has no profile row.
   */
  method RecalculateUserXp(db: Database, userId: UserId) returns (r: Result<int, XpError>)
    requires db.Valid()
    modifies db
    ensures db.Valid()
    ensures r.Ok? <==> userId in old(db.profiles)
    ensures r.Ok? ==> r.value == LedgerSum(db.ledger, userId)
    ensures r.Ok? ==> db.profiles == old(db.profiles)[userId := r.value]
    ensures r.Err? ==> db.profiles == old(db.profiles)
    ensures old(Consistent(db, userId)) ==> db.profiles == old(db.profiles)
    ensures db.ledger == old(db.ledger) && db.attempts == old(db.attempts)
    ensures db.progress == old(db.progress) && db.streaks == old(db.streaks)
    ensures db.lessons == old(db.lessons)
  {
    var totalXP := LedgerSum(db.ledger, userId);
    if userId !in db.profiles {
      return Err(ProfileNotFound);
    }
    db.profiles := db.profiles[userId := totalXP];
    return Ok(totalXP);
  }

  /**
   * After a successful award the user's cache is consistent, every other user's
   * sum is unchanged, and calling recalculateUserXP again returns the same total
   * and changes nothing.
   */
  method AwardThenRecalculate(db: Database, userId: UserId, amount: int, other: UserId)
    returns (awarded: Result<XpEntry, XpError>, total: Result<int, XpError>)
    requires db.Valid() && other != userId
    modifies db
    ensures awarded.Ok? ==> Consistent(db, userId)
    ensures awarded.Ok? ==> total == Ok(old(LedgerSum(db.ledger, userId)) + amount)
    ensures LedgerSum(db.ledger, other) == old(LedgerSum(db.ledger, other))
    ensures other in old(db.profiles) ==> other in db.profiles && db.profiles[other] == old(db.profiles[other])
  {
    awarded := AwardXp(db, userId, amount, ManualAdjustment, "", "", Manual);
    LedgerSumAppend(old(db.ledger), db.ledger[|db.ledger| - 1], other);
    ghost var before := db.profiles;
    total := RecalculateUserXp(db, userId);
    assert awarded.Ok? ==> db.profiles == before;
  }
}
