// A delete request and its message, in either order.
module Order {
  import opened Protocol
  import opened Tables
  import opened Store

  const GRANTED: Grants := Grants(true, true)

  ghost predicate SameContents(a: Db, b: Db) {
    Stored(a) == Stored(b) && Confirmed(a) == Confirmed(b) && Pending(a) == Pending(b)
  }

  // A signature with no prior state.
  ghost predicate Unseen(db: Db, s: Signature) {
    WellFormed(db) && s !in Stored(db) + Confirmed(db) + Pending(db)
  }

  lemma ClaimThenArrival(cfg: Config, db: Db, p: Payload, requester: Key, at: int, now: int)
    requires Unseen(db, p.signature) && HasRoom(cfg, db, p.recipient) && Validates(cfg, p, now)
    ensures var (after, outcome) := Offer(cfg, AddPending(db, p.signature, requester, at), p, GRANTED, now);
            var owns := p.recipient in Candidates(requester, cfg.maxTtl, now);
            && outcome == (if owns then Discarded else Accepted)
            && Stored(after) == Stored(db) + (if owns then {} else {p.signature})
            && Confirmed(after) == Confirmed(db) + (if owns then {p.signature} else {})
            && Pending(after) == Pending(db)
  {
    hide Candidates, Validates, HasRoom, FindMessage, FindDeletion, Stored, Confirmed, Pending, Select, Unseen;
    var claim := Deletion(p.signature, requester, Blank, false, at);
    var claimed := db.(deletions := Append(db.deletions, claim));
    NoneFound(db, p.signature);
    OnlyClaim(db, claim);
    AppendDeletionContents(db, claim);
    assert AddPending(db, p.signature, requester, at) == claimed;
    SameMessages(cfg, db, claimed, p.recipient);
    if p.recipient in Candidates(requester, cfg.maxTtl, now) {
      var tombstone := Deletion(p.signature, requester, p.recipient, true, now);
      assert Offer(cfg, claimed, p, GRANTED, now) == (ApplyConfirmed(claimed, tombstone), Discarded);
      ConfirmationContents(claimed, tombstone);
    } else {
      WithoutDeletionContents(claimed, p.signature);
      var cleared := ResolveWrite(claimed, claim, p.recipient, false, now);
      SameMessages(cfg, db, cleared, p.recipient);
      InsertionContents(cleared, p);
      var after := cleared.(messages := Append(cleared.messages, p));
      assert Offer(cfg, claimed, p, GRANTED, now) == (after, Accepted);
      SameDeletions(cleared, after);
    }
  }

  lemma SameMessages(cfg: Config, a: Db, b: Db, recipient: RecipientId)
    requires a.messages == b.messages
    ensures HasRoom(cfg, a, recipient) == HasRoom(cfg, b, recipient) && Stored(a) == Stored(b)
  {
  }

  lemma SameDeletions(a: Db, b: Db)
    requires a.deletions == b.deletions
    ensures Confirmed(a) == Confirmed(b) && Pending(a) == Pending(b)
  {
  }

  lemma NoneFound(db: Db, s: Signature)
    requires Unseen(db, s)
    ensures FindMessage(db.messages.rows, s).None? && FindDeletion(db.deletions.rows, s).None?
    ensures s !in Stored(db) + Confirmed(db) + Pending(db)
    ensures forall row | row in db.deletions.rows :: row.value.target != s
  {
    FindsStored(db, s);
    FindsDeletion(db, s);
  }

  lemma OnlyClaim(db: Db, claim: Deletion)
    requires forall row | row in db.deletions.rows :: row.value.target != claim.target
    ensures FindDeletion(Append(db.deletions, claim).rows, claim.target) == Some(claim)
  {
  }

  lemma ArrivalThenRequest(cfg: Config, db: Db, p: Payload, q: DeleteRequest, at: int, now: int)
    requires Unseen(db, p.signature) && q.target == p.signature
    requires HasRoom(cfg, db, p.recipient) && Validates(cfg, p, at)
    ensures var after := HandleDelete(cfg, Offer(cfg, db, p, GRANTED, at).0, q, now).0;
            var owns := p.recipient in Candidates(q.requester, cfg.maxTtl, now);
            && Stored(after) == Stored(db) + (if owns then {} else {p.signature})
            && Confirmed(after) == Confirmed(db) + (if owns then {p.signature} else {})
            && Pending(after) == Pending(db)
  {
    hide Candidates, Validates, HasRoom, FindMessage, FindDeletion, Stored, Confirmed, Pending, Select, Unseen;
    NoneFound(db, p.signature);
    var inserted := db.(messages := Append(db.messages, p));
    assert Offer(cfg, db, p, GRANTED, at).0 == inserted;
    InsertionContents(db, p);
    SameDeletions(db, inserted);
    OnlyMessage(db, p);
    ConfirmationContents(inserted, Deletion(p.signature, q.requester, p.recipient, true, now));
  }

  lemma OnlyMessage(db: Db, p: Payload)
    requires p.signature !in Stored(db)
    ensures FindMessage(Append(db.messages, p).rows, p.signature) == Some(p)
  {
    assert forall row | row in db.messages.rows :: row.value.signature in Stored(db);
    var found := FindMessage(Append(db.messages, p).rows, p.signature);
    assert Row(db.messages.next, p) in Append(db.messages, p).rows;
  }

  // A claim alone, when the message is refused or has not come.
  lemma ClaimAlone(db: Db, s: Signature, requester: Key, at: int)
    requires Unseen(db, s)
    ensures var claimed := AddPending(db, s, requester, at);
            && Stored(claimed) == Stored(db) && Confirmed(claimed) == Confirmed(db)
            && Pending(claimed) == Pending(db) + {s} && claimed.messages == db.messages
  {
    hide FindMessage, FindDeletion, Stored, Confirmed, Pending, Unseen;
    NoneFound(db, s);
    var claim := Deletion(s, requester, Blank, false, at);
    AppendDeletionContents(db, claim);
    SameStoredAs(db, db.(deletions := Append(db.deletions, claim)));
  }

  lemma SameStoredAs(a: Db, b: Db)
    requires a.messages == b.messages
    ensures Stored(a) == Stored(b)
  {
  }

  lemma RefusedOffer(cfg: Config, db: Db, p: Payload, now: int)
    requires p.signature !in Stored(db) && !(HasRoom(cfg, db, p.recipient) && Validates(cfg, p, now))
    ensures var (after, outcome) := Offer(cfg, db, p, GRANTED, now);
            after == db && (outcome.OverQuota? || outcome.Invalid?)
  {
    FindsStored(db, p.signature);
  }

  predicate Admitted(cfg: Config, db: Db, p: Payload, now: int) {
    HasRoom(cfg, db, p.recipient) && Validates(cfg, p, now)
  }

  // The request first: what the message then meets.
  lemma RequestThenArrival(cfg: Config, db: Db, p: Payload, q: DeleteRequest, at: int, now: int)
    requires Unseen(db, p.signature) && q.target == p.signature
    ensures var after := Offer(cfg, HandleDelete(cfg, db, q, at).0, p, GRANTED, now).0;
            var owns := p.recipient in Candidates(q.requester, cfg.maxTtl, now);
            if Admitted(cfg, db, p, now)
            then && Stored(after) == Stored(db) + (if owns then {} else {p.signature})
                 && Confirmed(after) == Confirmed(db) + (if owns then {p.signature} else {})
                 && Pending(after) == Pending(db)
            else && Stored(after) == Stored(db) && Confirmed(after) == Confirmed(db)
                 && Pending(after) == Pending(db) + {p.signature}
  {
    hide Candidates, Validates, Stored, Confirmed, Pending, Offer, Unseen;
    NoneFound(db, p.signature);
    var claimed := AddPending(db, p.signature, q.requester, at);
    ClaimAlone(db, p.signature, q.requester, at);
    SameMessages(cfg, db, claimed, p.recipient);
    if Admitted(cfg, db, p, now) {
      ClaimThenArrival(cfg, db, p, q.requester, at, now);
    } else {
      RefusedOffer(cfg, claimed, p, now);
    }
  }

  // The message first, if it is admitted, and then the request.
  lemma MessageThenRequest(cfg: Config, db: Db, p: Payload, q: DeleteRequest, at: int, now: int)
    requires Unseen(db, p.signature) && q.target == p.signature
    ensures var after := HandleDelete(cfg, Offer(cfg, db, p, GRANTED, at).0, q, now).0;
            var owns := p.recipient in Candidates(q.requester, cfg.maxTtl, now);
            if Admitted(cfg, db, p, at)
            then && Stored(after) == Stored(db) + (if owns then {} else {p.signature})
                 && Confirmed(after) == Confirmed(db) + (if owns then {p.signature} else {})
                 && Pending(after) == Pending(db)
            else && Stored(after) == Stored(db) && Confirmed(after) == Confirmed(db)
                 && Pending(after) == Pending(db) + {p.signature}
  {
    hide Candidates, Validates, HasRoom, Stored, Confirmed, Pending, Offer, Unseen;
    NoneFound(db, p.signature);
    if Admitted(cfg, db, p, at) {
      ArrivalThenRequest(cfg, db, p, q, at, now);
    } else {
      RefusedOffer(cfg, db, p, at);
      ClaimAlone(db, p.signature, q.requester, now);
    }
  }

  // Whichever comes first, the request or the message, the relay ends with the same
  // messages, tombstones and claims, whether or not the requester owns the message, if and
  // only if there is no room for it or it validates at both times or at neither. The check
  // of ownership that decides is the later one in both orders.
  lemma OrderIndependentIff(cfg: Config, db: Db, p: Payload, q: DeleteRequest, first: int, second: int)
    requires Unseen(db, p.signature) && q.target == p.signature
    ensures SameContents(Offer(cfg, HandleDelete(cfg, db, q, first).0, p, GRANTED, second).0,
                         HandleDelete(cfg, Offer(cfg, db, p, GRANTED, first).0, q, second).0)
       <==> !HasRoom(cfg, db, p.recipient) || (Validates(cfg, p, first) <==> Validates(cfg, p, second))
  {
    hide Candidates, Validates, HasRoom, Stored, Confirmed, Pending, Offer, HandleDelete, Unseen;
    NoneFound(db, p.signature);
    RequestThenArrival(cfg, db, p, q, first, second);
    MessageThenRequest(cfg, db, p, q, first, second);
  }

  // --- A claim, from its request until its message comes ---

  // Recorded, of a message not held.
  ghost predicate Waiting(db: Db, claim: Deletion) {
    && WellFormed(db) && !claim.confirmed && claim.target !in Stored(db)
    && exists row | row in db.deletions.rows :: row.value == claim
  }

  // What a relay meets in the meantime.
  datatype Event =
    | Requested(request: DeleteRequest, at: int)
    | Offered(payload: Payload, grants: Grants, at: int)
    | Reconciled(deletion: Deletion)
    | Swept(at: int)

  function Meet(cfg: Config, db: Db, e: Event): Db {
    match e
    case Requested(q, at) => HandleDelete(cfg, db, q, at).0
    case Offered(p, g, at) => Offer(cfg, db, p, g, at).0
    case Reconciled(d) => ReconcileDeletion(db, d)
    case Swept(at) => Sweep(cfg, db, at)
  }

  function MeetAll(cfg: Config, db: Db, events: seq<Event>): Db {
    if events == [] then db else Meet(cfg, MeetAll(cfg, db, events[..|events| - 1]), events[|events| - 1])
  }

  // Anything but the message itself, its tombstone, and a sweep once the claim has aged by
  // the retention time. Further requests for the message are allowed, whoever makes them.
  predicate Spares(cfg: Config, claim: Deletion, e: Event) {
    match e
    case Requested(_, _) => true
    case Offered(p, _, _) => p.signature != claim.target
    case Reconciled(d) => d.target != claim.target
    case Swept(at) => at < claim.requestedAt + cfg.maxTtl * SECOND
  }

  lemma FirstClaim(cfg: Config, db: Db, q: DeleteRequest, at: int)
    requires Unseen(db, q.target)
    ensures Waiting(HandleDelete(cfg, db, q, at).0, Deletion(q.target, q.requester, Blank, false, at))
  {
    hide Stored, FindMessage, FindDeletion, WellFormed;
    var claim := Deletion(q.target, q.requester, Blank, false, at);
    NoneFound(db, q.target);
    PendingWellFormed(db, q.target, q.requester, at);
    SameStoredAs(db, AddPending(db, q.target, q.requester, at));
    assert Row(db.deletions.next, claim) in Append(db.deletions, claim).rows;
  }

  lemma FindsClaim(db: Db, claim: Deletion)
    requires Waiting(db, claim)
    ensures FindMessage(db.messages.rows, claim.target).None?
    ensures FindDeletion(db.deletions.rows, claim.target) == Some(claim)
    ensures !claim.confirmed && claim.target !in Stored(db) + Confirmed(db) && claim.target in Pending(db)
  {
    FindsStored(db, claim.target);
    FindsDeletion(db, claim.target);
  }

  lemma OtherConfirmed(db: Db, claim: Deletion, d: Deletion)
    requires Waiting(db, claim) && d.confirmed && d.target != claim.target
    ensures Waiting(ApplyConfirmed(db, d), claim)
  {
    hide WellFormed, Stored;
    ConfirmationWellFormed(db, d);
    ConfirmationContents(db, d);
    var row :| row in db.deletions.rows && row.value == claim;
    assert row in ApplyConfirmed(db, d).deletions.rows;
  }

  lemma OtherRequested(cfg: Config, db: Db, claim: Deletion, q: DeleteRequest, at: int)
    requires Waiting(db, claim)
    ensures Waiting(HandleDelete(cfg, db, q, at).0, claim)
  {
    hide WellFormed, Stored, ApplyConfirmed, FindMessage, FindDeletion, Candidates;
    FindsClaim(db, claim);
    match FindMessage(db.messages.rows, q.target)
    case Some(p) =>
      if q.target != claim.target {
        OtherConfirmed(db, claim, Deletion(q.target, q.requester, p.recipient, true, at));
      }
    case None =>
      var after := AddPending(db, q.target, q.requester, at);
      PendingWellFormed(db, q.target, q.requester, at);
      SameStoredAs(db, after);
      var row :| row in db.deletions.rows && row.value == claim;
      assert row in after.deletions.rows;
  }

  lemma OtherOffered(cfg: Config, db: Db, claim: Deletion, p: Payload, g: Grants, at: int)
    requires Waiting(db, claim) && p.signature != claim.target
    ensures Waiting(Offer(cfg, db, p, g, at).0, claim)
  {
    hide Waiting, FindMessage, HasRoom, Validates, Resolve, InsertSection;
    OtherResolved(cfg, db, claim, p, at);
    OtherInserted(cfg, Resolve(cfg, db, p.signature, p.recipient, at).0, claim, p);
  }

  lemma OtherResolved(cfg: Config, db: Db, claim: Deletion, p: Payload, at: int)
    requires Waiting(db, claim) && p.signature != claim.target
    ensures Waiting(Resolve(cfg, db, p.signature, p.recipient, at).0, claim)
  {
    hide WellFormed, Stored, ApplyConfirmed, FindDeletion, Candidates;
    match FindDeletion(db.deletions.rows, p.signature)
    case None =>
    case Some(other) =>
      if p.recipient in Candidates(other.requester, cfg.maxTtl, at) {
        OtherConfirmed(db, claim, Deletion(p.signature, other.requester, p.recipient, true, at));
      } else {
        var after := ResolveWrite(db, other, p.recipient, false, at);
        ResolutionWellFormed(db, other, p.recipient, false, at);
        SameStoredAs(db, after);
        var row :| row in db.deletions.rows && row.value == claim;
        assert row in after.deletions.rows;
      }
  }

  lemma OtherInserted(cfg: Config, db: Db, claim: Deletion, p: Payload)
    requires Waiting(db, claim) && p.signature != claim.target
    ensures Waiting(InsertSection(cfg, db, p).0, claim)
  {
    hide WellFormed, Stored, FindMessage, HasRoom;
    InsertionWellFormed(cfg, db, p);
    InsertionContents(db, p);
  }

  lemma SweptTooSoon(cfg: Config, db: Db, claim: Deletion, at: int)
    requires Waiting(db, claim) && at < claim.requestedAt + cfg.maxTtl * SECOND
    ensures Waiting(Sweep(cfg, db, at), claim)
  {
    hide WellFormed;
    SweepWellFormed(cfg, db, at);
    var row :| row in db.deletions.rows && row.value == claim;
    assert row in Sweep(cfg, db, at).deletions.rows;
  }

  lemma EventSpares(cfg: Config, db: Db, claim: Deletion, e: Event)
    requires Waiting(db, claim) && Spares(cfg, claim, e)
    ensures Waiting(Meet(cfg, db, e), claim)
  {
    hide Waiting, HandleDelete, Offer, ApplyConfirmed, Sweep;
    match e
    case Requested(q, at) => OtherRequested(cfg, db, claim, q, at);
    case Offered(p, g, at) => OtherOffered(cfg, db, claim, p, g, at);
    case Reconciled(d) => OtherConfirmed(db, claim, d.(confirmed := true));
    case Swept(at) => SweptTooSoon(cfg, db, claim, at);
  }

  lemma {:induction false} ClaimWaits(cfg: Config, db: Db, claim: Deletion, events: seq<Event>)
    requires Waiting(db, claim) && forall e | e in events :: Spares(cfg, claim, e)
    ensures Waiting(MeetAll(cfg, db, events), claim)
  {
    hide Waiting, Meet;
    if events != [] {
      var front, last := events[..|events| - 1], events[|events| - 1];
      assert forall e | e in front :: e in events;
      ClaimWaits(cfg, db, claim, front);
      EventSpares(cfg, MeetAll(cfg, db, front), claim, last);
    }
  }

  // A sweep forgets a claim if and only if it comes once the retention time has passed since
  // the request; the message is then one the relay knows nothing of.
  lemma SweepForgetsIff(cfg: Config, db: Db, claim: Deletion, at: int)
    requires Waiting(db, claim)
    ensures Waiting(Sweep(cfg, db, at), claim) <==> at < claim.requestedAt + cfg.maxTtl * SECOND
    ensures Unseen(Sweep(cfg, db, at), claim.target) <==> claim.requestedAt + cfg.maxTtl * SECOND <= at
  {
    hide WellFormed;
    SweepWellFormed(cfg, db, at);
    if at < claim.requestedAt + cfg.maxTtl * SECOND {
      SweptTooSoon(cfg, db, claim, at);
      FindsClaim(Sweep(cfg, db, at), claim);
      FindsDeletion(Sweep(cfg, db, at), claim.target);
    } else {
      OnlyRow(db, claim);
    }
  }

  lemma OnlyRow(db: Db, claim: Deletion)
    requires Waiting(db, claim)
    ensures forall row | row in db.deletions.rows && row.value.target == claim.target :: row.value == claim
  {
  }

  lemma MeetsClaim(cfg: Config, db: Db, p: Payload, claim: Deletion, now: int)
    requires Waiting(db, claim) && claim.target == p.signature
    ensures var (after, outcome) := Offer(cfg, db, p, GRANTED, now);
            var admitted := Admitted(cfg, db, p, now);
            var owns := p.recipient in Candidates(claim.requester, cfg.maxTtl, now);
            && (outcome.Discarded? <==> admitted && owns) && (outcome.Accepted? <==> admitted && !owns)
            && Stored(after) == Stored(db) + (if admitted && !owns then {p.signature} else {})
            && Confirmed(after) == Confirmed(db) + (if admitted && owns then {p.signature} else {})
            && Pending(after) == if admitted then Pending(db) - {p.signature} else Pending(db)
  {
    hide Candidates, Validates, HasRoom, FindMessage, FindDeletion, Stored, Confirmed, Pending, Select, Waiting;
    FindsClaim(db, claim);
    if !Admitted(cfg, db, p, now) {
      RefusedOffer(cfg, db, p, now);
    } else if p.recipient in Candidates(claim.requester, cfg.maxTtl, now) {
      ConfirmationContents(db, Deletion(p.signature, claim.requester, p.recipient, true, now));
    } else {
      WithoutDeletionContents(db, p.signature);
      var cleared := ResolveWrite(db, claim, p.recipient, false, now);
      SameMessages(cfg, db, cleared, p.recipient);
      InsertionContents(cleared, p);
      SameDeletions(cleared, cleared.(messages := Append(cleared.messages, p)));
    }
  }

  // Of several early requests for one message only the first counts. Whatever the relay meets
  // after it, with sweeps at any times within the retention time of that request: when the
  // message arrives it is discarded if and only if it is admitted and the first requester owns
  // it. An owner's early request therefore takes effect exactly when no one else's came before.
  lemma FirstClaimDecides(cfg: Config, db: Db, q: DeleteRequest, at: int, events: seq<Event>, p: Payload, now: int)
    requires Unseen(db, p.signature) && q.target == p.signature
    requires forall e | e in events :: Spares(cfg, Deletion(p.signature, q.requester, Blank, false, at), e)
    ensures var met := MeetAll(cfg, HandleDelete(cfg, db, q, at).0, events);
            var (after, outcome) := Offer(cfg, met, p, GRANTED, now);
            var admitted := Admitted(cfg, met, p, now);
            var owns := p.recipient in Candidates(q.requester, cfg.maxTtl, now);
            && (outcome.Discarded? <==> admitted && owns) && (outcome.Accepted? <==> admitted && !owns)
            && (p.signature in Confirmed(after) <==> admitted && owns)
            && (p.signature in Stored(after) <==> admitted && !owns)
            && (p.signature in Pending(after) <==> !admitted)
  {
    hide Candidates, Admitted, Stored, Confirmed, Pending, Unseen, Offer, HandleDelete, Waiting, MeetAll;
    var claim := Deletion(p.signature, q.requester, Blank, false, at);
    var met := MeetAll(cfg, HandleDelete(cfg, db, q, at).0, events);
    FirstClaim(cfg, db, q, at);
    ClaimWaits(cfg, HandleDelete(cfg, db, q, at).0, claim, events);
    MeetsClaim(cfg, met, p, claim, now);
    FindsClaim(met, claim);
  }
}
