// What a relay answers to an offered message and to a delete request, in terms of the rows
// of its tables alone: an account of the handlers that names none of their functions.
module Answers {
  import opened Protocol
  import opened Tables
  import opened Store
  import opened Quota
  import opened DayWindow

  ghost predicate Holds(db: Db, s: Signature) {
    exists row | row in db.messages.rows :: row.value.signature == s
  }

  ghost predicate Buried(db: Db, s: Signature) {
    exists row | row in db.deletions.rows :: row.value.confirmed && row.value.target == s
  }

  // The recipient has fewer rows than one cap, together smaller than the other.
  ghost predicate Room(cfg: Config, db: Db, recipient: RecipientId) {
    var its := RowsFor(db.messages.rows, recipient);
    |its| < cfg.quotaMessages && TotalSize(its) < cfg.quotaBytes
  }

  // The message its signature signs, addressed to someone, with a time to live between the
  // shortest and the longest.
  ghost predicate Proper(cfg: Config, p: Payload, now: int) {
    && p.signature.Genuine? && p == MessageOf(p.signature)
    && p.recipient != Blank
    && p.expiry.expiresAt - cfg.maxTtl * SECOND <= now <= p.expiry.expiresAt - cfg.minTtl * SECOND
  }

  // The address is a blinding of the requester's key, on today or one of the lookback days.
  ghost predicate Owns(cfg: Config, requester: Key, address: RecipientId, now: int) {
    && address.Blind? && address.key == requester
    && 0 <= DayBucket(now) - address.day <= LookbackDays(cfg.maxTtl)
  }

  // Someone asked for the deletion before the message came, and owns its address now.
  ghost predicate Claimed(cfg: Config, db: Db, s: Signature, address: RecipientId, now: int) {
    exists row | row in db.deletions.rows ::
      !row.value.confirmed && row.value.target == s && Owns(cfg, row.value.requester, address, now)
  }

  lemma OwnsIff(cfg: Config, requester: Key, address: RecipientId, now: int)
    ensures Owns(cfg, requester, address, now) <==> address in Candidates(requester, cfg.maxTtl, now)
  {
    if address.Blind? { WindowExact(requester, cfg.maxTtl, now, address.key, address.day); }
  }

  lemma ProperIff(cfg: Config, p: Payload, now: int)
    ensures Proper(cfg, p, now) <==> Validates(cfg, p, now)
  {
  }

  lemma HoldsIff(db: Db, s: Signature)
    ensures Holds(db, s) <==> FindMessage(db.messages.rows, s).Some?
    ensures Holds(db, s) <==> s in Stored(db)
  {
  }

  // What the last gate finds.
  lemma DiscardIff(cfg: Config, db: Db, s: Signature, address: RecipientId, now: int)
    requires UniqueDeletions(db.deletions.rows)
    ensures var (after, discard) := Resolve(cfg, db, s, address, now);
            (discard <==> Buried(db, s) || Claimed(cfg, db, s, address, now))
            && (!discard ==> after.messages == db.messages)
  {
    hide Owns, Candidates, ResolveWrite;
    forall row | row in db.deletions.rows
      ensures Owns(cfg, row.value.requester, address, now) <==>
                address in Candidates(row.value.requester, cfg.maxTtl, now)
    {
      OwnsIff(cfg, row.value.requester, address, now);
    }
    match FindDeletion(db.deletions.rows, s)
    case None =>
    case Some(claim) =>
      var row :| row in db.deletions.rows && row.value == claim;
      ResolveWriteKeepsMessages(db, claim, address, now);
  }

  lemma ResolveWriteKeepsMessages(db: Db, claim: Deletion, recipient: RecipientId, now: int)
    ensures ResolveWrite(db, claim, recipient, false, now).messages == db.messages
  {
  }

  lemma KeptByTables(db: Db)
    requires WellFormed(db)
    ensures Ascending(db.messages.rows) && UniqueDeletions(db.deletions.rows)
  {
  }

  // The one answer that an offered message gets. The last gate is reached by a message not
  // held, with room, proper and granted both tokens; it discards what someone had deleted.
  ghost predicate Answer(cfg: Config, db: Db, p: Payload, g: Grants, now: int, outcome: Outcome) {
    var known, room, proper := Holds(db, p.signature), Room(cfg, db, p.recipient), Proper(cfg, p, now);
    var last := !known && g.global && room && proper && g.identity;
    var deleted := Buried(db, p.signature) || Claimed(cfg, db, p.signature, p.recipient, now);
    match outcome
    case Known => known
    case Throttled => !known && (!g.global || (room && proper && !g.identity))
    case OverQuota => !known && g.global && !room
    case Invalid => !known && g.global && room && !proper
    case Discarded => last && deleted
    case Accepted => last && !deleted
  }

  // An outcome is the relay's answer if and only if it is that one, and nothing changes short
  // of the last gate.
  lemma OutcomeIff(cfg: Config, db: Db, p: Payload, g: Grants, now: int, outcome: Outcome)
    requires WellFormed(db)
    ensures outcome == Offer(cfg, db, p, g, now).1 <==> Answer(cfg, db, p, g, now, outcome)
    ensures !outcome.Accepted? && !outcome.Discarded? && Answer(cfg, db, p, g, now, outcome) ==>
              Offer(cfg, db, p, g, now).0 == db
  {
    hide Holds, Buried, Claimed, Proper, Validates, Resolve, FindMessage, WellFormed, RowsFor, TotalSize, Count, Bytes;
    HoldsIff(db, p.signature);
    ProperIff(cfg, p, now);
    KeptByTables(db);
    HasRoomIff(cfg, db, p.recipient);
    DiscardIff(cfg, db, p.signature, p.recipient, now);
  }

  // A stored message becomes the next row; a claim it met is gone, and nothing else.
  lemma AcceptedRows(cfg: Config, db: Db, p: Payload, g: Grants, now: int)
    requires WellFormed(db) && Offer(cfg, db, p, g, now).1.Accepted?
    ensures var after := Offer(cfg, db, p, g, now).0;
            && after.messages == Table(db.messages.rows + [Row(db.messages.next, p)], db.messages.next + 1)
            && (forall row :: row in after.deletions.rows <==>
                  row in db.deletions.rows && row.value.target != p.signature)
  {
    hide Validates, HasRoom, Candidates, ValidTable, UniqueMessages, UniqueDeletions;
  }

  // A message discarded over a claim leaves the messages as they were, and the claim makes way
  // for a tombstone under a fresh id, in the claimant's name and for the message's address.
  lemma DiscardedRows(cfg: Config, db: Db, p: Payload, g: Grants, now: int, claim: Row<Deletion>)
    requires WellFormed(db) && Offer(cfg, db, p, g, now).1.Discarded?
    requires claim in db.deletions.rows && claim.value.target == p.signature && !claim.value.confirmed
    ensures var after := Offer(cfg, db, p, g, now).0;
            var tombstone := Deletion(p.signature, claim.value.requester, p.recipient, true, now);
            && (forall row :: row in after.messages.rows <==> row in db.messages.rows)
            && (forall row :: row in after.deletions.rows <==>
                  row == Row(db.deletions.next, tombstone) || (row in db.deletions.rows && row != claim))
  {
    hide Validates, HasRoom, Candidates, ValidTable, UniqueMessages;
  }

  // A delete request is confirmed if and only if the message is held at an address the
  // requester owns now.
  lemma ConfirmsIff(cfg: Config, db: Db, q: DeleteRequest, now: int)
    requires WellFormed(db)
    ensures HandleDelete(cfg, db, q, now).1 <==>
              exists row | row in db.messages.rows ::
                row.value.signature == q.target && Owns(cfg, q.requester, row.value.recipient, now)
  {
    hide Owns, Candidates, LookbackDays, ApplyConfirmed, AddPending, ValidTable, UniqueDeletions;
    match FindMessage(db.messages.rows, q.target)
    case None =>
    case Some(p) =>
      var held :| held in db.messages.rows && held.value == p;
      OwnsIff(cfg, q.requester, p.recipient, now);
  }

  // Then the message goes, and a tombstone under a fresh id, for the address the message was
  // held at, replaces whatever was recorded of its deletion.
  lemma ConfirmingRows(cfg: Config, db: Db, q: DeleteRequest, now: int, held: Row<Payload>)
    requires WellFormed(db) && HandleDelete(cfg, db, q, now).1
    requires held in db.messages.rows && held.value.signature == q.target
    ensures var after := HandleDelete(cfg, db, q, now).0;
            var tombstone := Row(db.deletions.next, Deletion(q.target, q.requester, held.value.recipient, true, now));
            && after.deletions.next == db.deletions.next + 1
            && (forall row :: row in after.messages.rows <==> row in db.messages.rows && row != held)
            && (forall row :: row in after.deletions.rows <==>
                  row == tombstone || (row in db.deletions.rows && row.value.target != q.target))
  {
    hide Candidates, AddPending, ValidTable, UniqueDeletions;
  }

  // Otherwise no message is touched, and a message neither held nor asked for gets a claim.
  lemma UnconfirmedRows(cfg: Config, db: Db, q: DeleteRequest, now: int)
    requires WellFormed(db) && !HandleDelete(cfg, db, q, now).1
    ensures var after, known := HandleDelete(cfg, db, q, now).0, Holds(db, q.target);
            var asked := exists row | row in db.deletions.rows :: row.value.target == q.target;
            var claim := Row(db.deletions.next, Deletion(q.target, q.requester, Blank, false, now));
            && after.messages == db.messages
            && after.deletions.rows == (if known || asked then db.deletions.rows else db.deletions.rows + [claim])
  {
    hide Candidates, ApplyConfirmed, ValidTable, UniqueDeletions;
    HoldsIff(db, q.target);
  }

  // After a sweep the messages whose text has not lapsed are left, and of the deletions, claim
  // or tombstone, those asked for less than the retention time ago: they, and no others.
  lemma SweepExact(cfg: Config, db: Db, now: int, messages: seq<Row<Payload>>, deletions: seq<Row<Deletion>>)
    requires WellFormed(db) && Ascending(messages) && Ascending(deletions)
    ensures messages == Sweep(cfg, db, now).messages.rows <==>
              forall row :: row in messages <==> row in db.messages.rows && now < row.value.expiry.lapsesAt
    ensures deletions == Sweep(cfg, db, now).deletions.rows <==>
              forall row :: row in deletions <==>
                row in db.deletions.rows && now < row.value.requestedAt + cfg.maxTtl * SECOND
  {
    var swept := Sweep(cfg, db, now);
    if forall row :: row in messages <==> row in swept.messages.rows {
      SameRowsSameOrder(messages, swept.messages.rows);
    }
    if forall row :: row in deletions <==> row in swept.deletions.rows {
      SameRowsSameOrder(deletions, swept.deletions.rows);
    }
  }
}
