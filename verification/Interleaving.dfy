// One relay at the granularity the code really has: handlers interleave between any two of
// their lock sections. Uniqueness and the quota hold under every interleaving; disjointness
// of the tables does not, and the exact condition under which it does is given.
module Interleaving {
  import opened Protocol
  import opened Tables
  import opened Store

  // A handler waiting for its next lock section.
  datatype Handler =
    | Arriving(p: Payload)                                   // message_exists
    | Unknown(p: Payload)                                    // check_recipient_quota, then validation
    | Valid(p: Payload)                                      // resolve_deletion_request, the read
    | Claimed(p: Payload, claim: Deletion, matched: bool)    // resolve_deletion_request, the write
    | Cleared(p: Payload)                                    // insert_message_and_maybe_gossip
    | Requesting(q: DeleteRequest, candidates: seq<RecipientId>, at: int)
    | Reconciling(d: Deletion)
    | Sweeping(at: int)
    | Finished

  datatype State = State(db: Db, clock: int, handlers: seq<Handler>)

  // A handler runs its next section and computes up to the one after.
  function Section(cfg: Config, db: Db, clock: int, h: Handler): (Db, Handler) {
    match h
    case Arriving(p) => (db, if FindMessage(db.messages.rows, p.signature).Some? then Finished else Unknown(p))
    case Unknown(p) => (db, if HasRoom(cfg, db, p.recipient) && Validates(cfg, p, clock) then Valid(p) else Finished)
    case Valid(p) =>
      (db, match FindDeletion(db.deletions.rows, p.signature)
           case None => Cleared(p)
           case Some(claim) =>
             if claim.confirmed then Finished
             else Claimed(p, claim, p.recipient in Candidates(claim.requester, cfg.maxTtl, clock)))
    case Claimed(p, claim, matched) =>
      (ResolveWrite(db, claim, p.recipient, matched, clock), if matched then Finished else Cleared(p))
    case Cleared(p) => (InsertSection(cfg, db, p).0, Finished)
    case Requesting(q, candidates, at) => (DeleteSection(db, q, candidates, at).0, Finished)
    case Reconciling(d) => (ReconcileDeletion(db, d), Finished)
    case Sweeping(at) => (Sweep(cfg, db, at), Finished)
    case Finished => (db, Finished)
  }

  // Giving up covers a rate limit between two sections, a lost connection and a crash.
  datatype Event =
    | Wait(elapsed: nat)
    | Offer(p: Payload)
    | Ask(q: DeleteRequest)
    | Pull(d: Deletion)
    | CleanUp
    | Advance(handler: nat)
    | GiveUp(handler: nat)

  function Apply(cfg: Config, s: State, e: Event): State {
    match e
    case Wait(elapsed) => s.(clock := s.clock + elapsed)
    case Offer(p) => s.(handlers := s.handlers + [Arriving(p)])
    case Ask(q) => s.(handlers := s.handlers + [Requesting(q, Candidates(q.requester, cfg.maxTtl, s.clock), s.clock)])
    case Pull(d) => s.(handlers := s.handlers + [Reconciling(d)])
    case CleanUp => s.(handlers := s.handlers + [Sweeping(s.clock)])
    case Advance(k) =>
      if k < |s.handlers|
      then
        var (db, h) := Section(cfg, s.db, s.clock, s.handlers[k]);
        State(db, s.clock, s.handlers[k := h])
      else s
    case GiveUp(k) => if k < |s.handlers| then s.(handlers := s.handlers[k := Finished]) else s
  }

  function After(cfg: Config, start: int, events: seq<Event>): State {
    if events == [] then State(EMPTY, start, [])
    else Apply(cfg, After(cfg, start, events[..|events| - 1]), events[|events| - 1])
  }

  // --- The quota, under every interleaving ---

  // Every stored row found room among the rows before it for its own recipient.
  ghost predicate Admitted(cfg: Config, rows: seq<Row<Payload>>) {
    rows == [] ||
    var front, recipient := rows[..|rows| - 1], rows[|rows| - 1].value.recipient;
    && Admitted(cfg, front)
    && Count(front, recipient) < cfg.quotaMessages
    && Bytes(front, recipient) < cfg.quotaBytes
  }

  lemma AdmittedOneMore(cfg: Config, rows: seq<Row<Payload>>, row: Row<Payload>)
    requires Admitted(cfg, rows)
    requires Count(rows, row.value.recipient) < cfg.quotaMessages && Bytes(rows, row.value.recipient) < cfg.quotaBytes
    ensures Admitted(cfg, rows + [row])
  {
    assert (rows + [row])[..|rows|] == rows;
  }

  lemma {:induction false} FewerAfterWhere(rows: seq<Row<Payload>>, keep: Row<Payload> -> bool, recipient: RecipientId)
    ensures Count(Where(rows, keep), recipient) <= Count(rows, recipient)
    ensures Bytes(Where(rows, keep), recipient) <= Bytes(rows, recipient)
  {
    if rows != [] {
      var front, last := rows[..|rows| - 1], rows[|rows| - 1];
      FewerAfterWhere(front, keep, recipient);
      assert rows == front + [last];
      CountOneMore(front, last, recipient);
      CountOneMore(Where(front, keep), last, recipient);
    }
  }

  lemma {:induction false} AdmittedAfterWhere(cfg: Config, rows: seq<Row<Payload>>, keep: Row<Payload> -> bool)
    requires Admitted(cfg, rows)
    ensures Admitted(cfg, Where(rows, keep))
  {
    if rows != [] {
      var front, last := rows[..|rows| - 1], rows[|rows| - 1];
      AdmittedAfterWhere(cfg, front, keep);
      FewerAfterWhere(front, keep, last.value.recipient);
      AdmittedOneMore(cfg, front, last);
      if keep(last) { AdmittedOneMore(cfg, Where(front, keep), last); }
    }
  }

  lemma AdmittedAfterSelect(cfg: Config, rows: seq<Row<Payload>>, keep: Payload -> bool)
    requires Admitted(cfg, rows)
    ensures Admitted(cfg, Select(rows, keep))
  {
    AdmittedAfterWhere(cfg, rows, OnValue(keep));
  }

  ghost predicate Inv(cfg: Config, db: Db) {
    WellFormed(db) && Admitted(cfg, db.messages.rows)
  }

  lemma InsertionKeeps(cfg: Config, db: Db, p: Payload)
    requires Inv(cfg, db)
    ensures Inv(cfg, InsertSection(cfg, db, p).0)
  {
    hide WellFormed;
    InsertionWellFormed(cfg, db, p);
    if HasRoom(cfg, db, p.recipient) { AdmittedOneMore(cfg, db.messages.rows, Row(db.messages.next, p)); }
  }

  lemma ConfirmationKeeps(cfg: Config, db: Db, d: Deletion)
    requires Inv(cfg, db)
    ensures Inv(cfg, ApplyConfirmed(db, d))
  {
    hide WellFormed;
    ConfirmationWellFormed(db, d);
    AdmittedAfterSelect(cfg, db.messages.rows, (p: Payload) => p.signature != d.target);
  }

  lemma SectionKeeps(cfg: Config, db: Db, clock: int, h: Handler)
    requires Inv(cfg, db)
    ensures Inv(cfg, Section(cfg, db, clock, h).0)
  {
    hide WellFormed, Admitted;
    match h
    case Claimed(p, claim, matched) =>
      ResolutionWellFormed(db, claim, p.recipient, matched, clock);
      ConfirmationKeeps(cfg, db, Deletion(claim.target, claim.requester, p.recipient, true, clock));
    case Cleared(p) => InsertionKeeps(cfg, db, p);
    case Requesting(q, candidates, at) =>
      PendingWellFormed(db, q.target, q.requester, at);
      var found := FindMessage(db.messages.rows, q.target);
      if found.Some? { ConfirmationKeeps(cfg, db, Deletion(q.target, q.requester, found.value.recipient, true, at)); }
    case Reconciling(d) => ConfirmationKeeps(cfg, db, d.(confirmed := true));
    case Sweeping(at) =>
      SweepWellFormed(cfg, db, at);
      AdmittedAfterSelect(cfg, db.messages.rows, (p: Payload) => at < p.expiry.lapsesAt);
    case _ =>
  }

  lemma {:induction false} RunKeeps(cfg: Config, start: int, events: seq<Event>)
    ensures Inv(cfg, After(cfg, start, events).db)
  {
    if events != [] {
      var before := After(cfg, start, events[..|events| - 1]);
      RunKeeps(cfg, start, events[..|events| - 1]);
      var e := events[|events| - 1];
      if e.Advance? && e.handler < |before.handlers| {
        SectionKeeps(cfg, before.db, before.clock, before.handlers[e.handler]);
      }
    }
  }

  lemma {:induction false} CountWithinQuota(cfg: Config, rows: seq<Row<Payload>>, recipient: RecipientId)
    requires Admitted(cfg, rows)
    ensures Count(rows, recipient) == 0 || Count(rows, recipient) <= cfg.quotaMessages
  {
    if rows != [] { CountWithinQuota(cfg, rows[..|rows| - 1], recipient); }
  }

  lemma {:induction false} BytesWithinQuota(cfg: Config, rows: seq<Row<Payload>>, recipient: RecipientId, largest: nat)
    requires Admitted(cfg, rows)
    requires forall row | row in rows && row.value.recipient == recipient :: row.value.size <= largest
    ensures Count(rows, recipient) == 0 || Bytes(rows, recipient) < cfg.quotaBytes + largest
  {
    if rows != [] {
      assert rows[|rows| - 1] in rows;
      BytesWithinQuota(cfg, rows[..|rows| - 1], recipient, largest);
    }
  }

  // However the handlers of a relay interleave: signatures stay unique, no recipient has
  // more rows than the cap, and none has the byte cap plus its own largest message or more.
  lemma QuotaHolds(cfg: Config, start: int, events: seq<Event>, recipient: RecipientId, largest: nat)
    requires forall row | row in After(cfg, start, events).db.messages.rows && row.value.recipient == recipient ::
               row.value.size <= largest
    ensures var db := After(cfg, start, events).db;
            var rows := db.messages.rows;
            && UniqueMessages(rows) && UniqueDeletions(db.deletions.rows)
            && (Count(rows, recipient) == 0 ||
                (Count(rows, recipient) <= cfg.quotaMessages && Bytes(rows, recipient) < cfg.quotaBytes + largest))
  {
    RunKeeps(cfg, start, events);
    CountWithinQuota(cfg, After(cfg, start, events).db.messages.rows, recipient);
    BytesWithinQuota(cfg, After(cfg, start, events).db.messages.rows, recipient, largest);
  }

  // One recipient's messages never change another's headroom.
  lemma InsertionIsolated(cfg: Config, db: Db, p: Payload, other: RecipientId)
    requires other != p.recipient
    ensures HasRoom(cfg, InsertSection(cfg, db, p).0, other) == HasRoom(cfg, db, other)
  {
    var rows := db.messages.rows;
    assert (rows + [Row(db.messages.next, p)])[..|rows|] == rows;
  }

  // --- Disjointness, and when it holds ---

  // What happened between the sections of a handler that its next one does not look at.
  ghost predicate Overtaken(db: Db, h: Handler) {
    match h
    case Cleared(p) => p.signature in Confirmed(db) + Pending(db)
    case Claimed(p, claim, matched) => !matched && claim.target in Confirmed(db)
    case _ => false
  }

  // An insert breaks disjointness exactly when there is room for it although a deletion
  // request for the message was recorded after the handler looked for one.
  lemma InsertDisjointIff(cfg: Config, db: Db, clock: int, p: Payload)
    requires Disjoint(db)
    ensures var db' := Section(cfg, db, clock, Cleared(p)).0;
            Disjoint(db') <==> !HasRoom(cfg, db, p.recipient) || !Overtaken(db, Cleared(p))
  {
    InsertionContents(db, p);
    FindsStored(db, p.signature);
    var db' := InsertSection(cfg, db, p).0;
    SameTombstones(db, db');
    SamePending(db, db');
    if HasRoom(cfg, db, p.recipient) { assert p.signature in Stored(db'); }
  }

  // The write after an unmatched claim loses a tombstone exactly when one was confirmed in
  // between.
  lemma ResolveLosesIff(cfg: Config, db: Db, clock: int, p: Payload, claim: Deletion)
    ensures var h := Claimed(p, claim, false);
            Confirmed(Section(cfg, db, clock, h).0) == Confirmed(db) <==> !Overtaken(db, h)
  {
    WithoutDeletionContents(db, claim.target);
  }

  // Every section but the insert keeps the tables disjoint, whatever came between.
  lemma OtherSectionsDisjoint(cfg: Config, db: Db, clock: int, h: Handler)
    requires Disjoint(db) && !h.Cleared?
    ensures Disjoint(Section(cfg, db, clock, h).0)
  {
    hide Stored, Confirmed, Pending, Candidates;
    match h
    case Claimed(p, claim, matched) => ClaimSafe(db, claim, p.recipient, matched, clock);
    case Requesting(q, candidates, at) => RequestSafe(db, q, candidates, at);
    case Reconciling(d) => ConfirmationContents(db, d.(confirmed := true));
    case Sweeping(at) => SweepSafe(cfg, db, at);
    case _ =>
  }

  // Every section but a sweep and an overtaken claim keeps every tombstone.
  lemma TombstonesKept(cfg: Config, db: Db, clock: int, h: Handler)
    requires !h.Sweeping? && !(h.Claimed? && Overtaken(db, h))
    ensures Confirmed(db) <= Confirmed(Section(cfg, db, clock, h).0)
  {
    hide Stored, Confirmed, Pending, Candidates;
    match h
    case Claimed(p, claim, matched) =>
      if matched {
        ConfirmationContents(db, Deletion(claim.target, claim.requester, p.recipient, true, clock));
      } else {
        WithoutDeletionContents(db, claim.target);
      }
    case Cleared(p) => SameTombstones(db, InsertSection(cfg, db, p).0);
    case Requesting(q, candidates, at) =>
      match FindMessage(db.messages.rows, q.target) {
        case Some(p) => ConfirmationContents(db, Deletion(q.target, q.requester, p.recipient, true, at));
        case None => AppendDeletionContents(db, Deletion(q.target, q.requester, Blank, false, at));
      }
    case Reconciling(d) => ConfirmationContents(db, d.(confirmed := true));
    case _ =>
  }

  lemma SamePending(a: Db, b: Db)
    requires a.deletions == b.deletions
    ensures Pending(a) == Pending(b)
  {
  }

  lemma ClaimSafe(db: Db, claim: Deletion, recipient: RecipientId, matched: bool, now: int)
    requires Disjoint(db)
    ensures Disjoint(ResolveWrite(db, claim, recipient, matched, now))
  {
    if matched {
      ConfirmationContents(db, Deletion(claim.target, claim.requester, recipient, true, now));
    } else {
      WithoutDeletionContents(db, claim.target);
      assert Stored(ResolveWrite(db, claim, recipient, matched, now)) == Stored(db);
    }
  }

  lemma RequestSafe(db: Db, q: DeleteRequest, candidates: seq<RecipientId>, at: int)
    requires Disjoint(db)
    ensures Disjoint(DeleteSection(db, q, candidates, at).0)
  {
    hide Candidates;
    FindsStored(db, q.target);
    match FindMessage(db.messages.rows, q.target)
    case Some(p) => ConfirmationContents(db, Deletion(q.target, q.requester, p.recipient, true, at));
    case None =>
      AppendDeletionContents(db, Deletion(q.target, q.requester, Blank, false, at));
      assert Stored(AddPending(db, q.target, q.requester, at)) == Stored(db);
  }

  lemma SweepSafe(cfg: Config, db: Db, at: int)
    requires Disjoint(db)
    ensures Disjoint(Sweep(cfg, db, at))
  {
    var db' := Sweep(cfg, db, at);
    assert Stored(db') <= Stored(db) && Confirmed(db') <= Confirmed(db) && Pending(db') <= Pending(db);
  }

  // The schedule that shows the condition is needed: a message is cleared for insertion, a
  // peer's tombstone for it is applied, and only then is the message inserted.
  function Race(p: Payload, d: Deletion): seq<Event> {
    [Offer(p), Advance(0), Advance(0), Advance(0), Pull(d), Advance(1), Advance(0)]
  }

  lemma ClearingSections(cfg: Config, clock: int, p: Payload)
    requires Validates(cfg, p, clock) && HasRoom(cfg, EMPTY, p.recipient)
    ensures Section(cfg, EMPTY, clock, Arriving(p)) == (EMPTY, Unknown(p))
    ensures Section(cfg, EMPTY, clock, Unknown(p)) == (EMPTY, Valid(p))
    ensures Section(cfg, EMPTY, clock, Valid(p)) == (EMPTY, Cleared(p))
  {
  }

  lemma RaceClears(cfg: Config, start: int, p: Payload, d: Deletion)
    requires Validates(cfg, p, start) && HasRoom(cfg, EMPTY, p.recipient)
    ensures After(cfg, start, Race(p, d)[..4]) == State(EMPTY, start, [Cleared(p)])
  {
    hide Section;
    ClearingSections(cfg, start, p);
    RaceStep(cfg, start, p, d, 0);
    RaceStep(cfg, start, p, d, 1);
    RaceStep(cfg, start, p, d, 2);
    RaceStep(cfg, start, p, d, 3);
  }

  lemma RaceTombstones(cfg: Config, start: int, p: Payload, d: Deletion)
    requires Validates(cfg, p, start) && HasRoom(cfg, EMPTY, p.recipient) && d.confirmed
    ensures After(cfg, start, Race(p, d)[..6]) == State(ApplyConfirmed(EMPTY, d), start, [Cleared(p), Finished])
  {
    hide Validates, HasRoom, ApplyConfirmed;
    RaceClears(cfg, start, p, d);
    RaceStep(cfg, start, p, d, 4);
    RaceStep(cfg, start, p, d, 5);
    assert d.(confirmed := true) == d;
  }

  lemma GapResurrects(cfg: Config, start: int, p: Payload, d: Deletion)
    requires Validates(cfg, p, start) && HasRoom(cfg, EMPTY, p.recipient)
    requires d.confirmed && d.target == p.signature
    ensures var early, late := After(cfg, start, Race(p, d)[..6]).db, After(cfg, start, Race(p, d)).db;
            && p.signature in Confirmed(early) && p.signature !in Stored(early)
            && p.signature in Confirmed(late) && p.signature in Stored(late)
  {
    hide Validates, After, Stored, Confirmed;
    var tombstoned := ApplyConfirmed(EMPTY, d);
    RaceTombstones(cfg, start, p, d);
    RaceStep(cfg, start, p, d, 6);
    assert Race(p, d)[..7] == Race(p, d) && tombstoned.messages.rows == [];
    ConfirmationContents(EMPTY, d);
    InsertionContents(tombstoned, p);
    SameTombstones(tombstoned, tombstoned.(messages := Append(tombstoned.messages, p)));
  }

  lemma SameTombstones(a: Db, b: Db)
    requires a.deletions == b.deletions
    ensures Confirmed(a) == Confirmed(b)
  {
  }

  lemma RaceStep(cfg: Config, start: int, p: Payload, d: Deletion, i: nat)
    requires i < 7
    ensures var r := Race(p, d);
            After(cfg, start, r[..i + 1]) == Apply(cfg, After(cfg, start, r[..i]), r[i])
  {
    assert Race(p, d)[..i + 1][..i] == Race(p, d)[..i];
  }

  // --- Run alone, a handler is the atomic one ---

  function Rank(h: Handler): nat {
    match h
    case Arriving(_) => 5
    case Unknown(_) => 4
    case Valid(_) => 3
    case Claimed(_, _, _) => 2
    case Finished => 0
    case _ => 1
  }

  // The database once a handler has run all its sections with nothing in between.
  function Alone(cfg: Config, db: Db, clock: int, h: Handler): Db
    decreases Rank(h)
  {
    var (db', h') := Section(cfg, db, clock, h);
    if h'.Finished? then db' else Alone(cfg, db', clock, h')
  }

  lemma UninterruptedOffer(cfg: Config, db: Db, clock: int, p: Payload)
    ensures Alone(cfg, db, clock, Arriving(p)) == Store.Offer(cfg, db, p, Grants(true, true), clock).0
  {
    if FindMessage(db.messages.rows, p.signature).None? && HasRoom(cfg, db, p.recipient) && Validates(cfg, p, clock) {
      assert Alone(cfg, db, clock, Arriving(p)) == Alone(cfg, db, clock, Unknown(p)) == Alone(cfg, db, clock, Valid(p));
      UninterruptedResolve(cfg, db, clock, p);
    }
  }

  lemma UninterruptedResolve(cfg: Config, db: Db, clock: int, p: Payload)
    ensures var (resolved, discard) := Resolve(cfg, db, p.signature, p.recipient, clock);
            Alone(cfg, db, clock, Valid(p)) == if discard then resolved else InsertSection(cfg, resolved, p).0
  {
    match FindDeletion(db.deletions.rows, p.signature)
    case None => assert Alone(cfg, db, clock, Valid(p)) == Alone(cfg, db, clock, Cleared(p));
    case Some(claim) =>
      if !claim.confirmed {
        var matched := p.recipient in Candidates(claim.requester, cfg.maxTtl, clock);
        var resolved := ResolveWrite(db, claim, p.recipient, matched, clock);
        assert Alone(cfg, db, clock, Valid(p)) == Alone(cfg, db, clock, Claimed(p, claim, matched));
        var claimed := Claimed(p, claim, matched);
        assert !matched ==> Alone(cfg, db, clock, claimed) == Alone(cfg, resolved, clock, Cleared(p));
      }
  }

  lemma RunsNext(cfg: Config, s: State, h: Handler)
    ensures Apply(cfg, s.(handlers := s.handlers + [h]), Advance(|s.handlers|)).db == Section(cfg, s.db, s.clock, h).0
  {
    hide Section;
  }

  // A request, a pulled tombstone and a sweep have one section each: run as soon as they come,
  // they are the uninterrupted handlers. An offer that comes is one about to be looked up.
  lemma UninterruptedOthers(cfg: Config, s: State, q: DeleteRequest, d: Deletion, p: Payload)
    ensures var next := Advance(|s.handlers|);
            && Apply(cfg, Apply(cfg, s, Ask(q)), next).db == HandleDelete(cfg, s.db, q, s.clock).0
            && Apply(cfg, Apply(cfg, s, Pull(d)), next).db == ReconcileDeletion(s.db, d)
            && Apply(cfg, Apply(cfg, s, CleanUp), next).db == Sweep(cfg, s.db, s.clock)
            && Apply(cfg, s, Offer(p)) == s.(handlers := s.handlers + [Arriving(p)])
  {
    hide DeleteSection, ReconcileDeletion, Sweep, Candidates;
    var candidates := Candidates(q.requester, cfg.maxTtl, s.clock);
    RunsNext(cfg, s, Requesting(q, candidates, s.clock));
    RunsNext(cfg, s, Reconciling(d));
    RunsNext(cfg, s, Sweeping(s.clock));
  }
}
