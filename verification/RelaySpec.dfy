// One relay as a state machine: its database, its clock, its place in each peer's log,
// and a record of everything it has ever stored, confirmed deleted, settled or refused.
module RelaySpec {
  import opened Protocol
  import opened Tables
  import opened Store

  const PULL_BATCH_LIMIT: nat := 500

  // The anti-entropy thread, between a page it has fetched and the cursor it will store.
  datatype Sync =
    | Idle
    | Messages(peer: nat, messages: seq<Row<Payload>>, maxId: nat)
    | Deletions(peer: nat, deletions: seq<Row<Deletion>>, maxId: nat)

  // Everything ever in the messages table, everything ever confirmed deleted, every payload
  // that went through the gates without meeting a rate limit, and, of these, every payload
  // turned away for good: invalid when offered, or its recipient full.
  datatype Past = Past(inserted: set<Signature>, confirmed: set<Signature>,
                       settled: set<Payload>, refused: set<Payload>)

  datatype Relay = Relay(db: Db, clock: int, cursors: map<nat, nat>, deletionCursors: map<nat, nat>,
                         sync: Sync, past: Past)

  const FRESH: Relay := Relay(EMPTY, 0, map[], map[], Idle, Past({}, {}, {}, {}))

  function Cursor(cursors: map<nat, nat>, peer: nat): nat {
    if peer in cursors then cursors[peer] else 0
  }

  // The rows GET /gossip/deletions serves.
  function ConfirmedRows(db: Db): seq<Row<Deletion>> {
    Select(db.deletions.rows, (d: Deletion) => d.confirmed)
  }

  // A new database, remembered.
  ghost function With(r: Relay, db: Db): Relay {
    r.(db := db, past := r.past.(inserted := r.past.inserted + Stored(db),
                                 confirmed := r.past.confirmed + Confirmed(db)))
  }

  ghost function Settling(r: Relay, p: Payload, outcome: Outcome): Relay {
    if outcome.Throttled? then r
    else
      var turnedAway := if outcome.OverQuota? || outcome.Invalid? then {p} else {};
      r.(past := r.past.(settled := r.past.settled + {p}, refused := r.past.refused + turnedAway))
  }

  // --- Steps ---

  ghost function Receive(cfg: Config, r: Relay, p: Payload, g: Grants): (Relay, Outcome) {
    var (db, outcome) := Offer(cfg, r.db, p, g, r.clock);
    (Settling(With(r, db), p, outcome), outcome)
  }

  ghost function Delete(cfg: Config, r: Relay, q: DeleteRequest, g: Grants): (Relay, bool) {
    if !g.global || !q.authentic || !g.identity then (r, false)
    else
      var (db, confirmed) := HandleDelete(cfg, r.db, q, r.clock);
      (With(r, db), confirmed)
  }

  // The next row of the message page; a rate limit ends the page early.
  ghost function PullOneMessage(cfg: Config, r: Relay, g: Grants): (Relay, Outcome)
    requires r.sync.Messages? && r.sync.messages != []
  {
    var item := r.sync.messages[0];
    var (db, maxId, outcome) := PullMessage(cfg, r.db, r.sync.maxId, item, g, r.clock);
    var left := if outcome.Throttled? then [] else r.sync.messages[1..];
    (Settling(With(r, db), item.value, outcome).(sync := Messages(r.sync.peer, left, maxId)), outcome)
  }

  // The next row of the tombstone page.
  ghost function PullOneDeletion(r: Relay, g: Grants): Relay
    requires r.sync.Deletions? && r.sync.deletions != []
  {
    if !g.global || !g.identity then r.(sync := r.sync.(deletions := []))
    else
      var item := r.sync.deletions[0];
      With(r, ReconcileDeletion(r.db, item.value))
        .(sync := Deletions(r.sync.peer, r.sync.deletions[1..], Max(r.sync.maxId, item.id)))
  }

  ghost function SweepNow(cfg: Config, r: Relay): Relay {
    With(r, Sweep(cfg, r.db, r.clock))
  }

  // --- What a single relay keeps ---

  // A confirmed tombstone: it names the message's own address, which was among the
  // requester's candidates when it was confirmed, and it cannot be reaped while the
  // message could still be accepted.
  ghost predicate SoundTombstone(cfg: Config, d: Deletion) {
    && d.confirmed
    && d.target.Genuine?
    && d.requesterRecipient == d.target.recipient
    && d.requesterRecipient in Candidates(d.requester, cfg.maxTtl, d.requestedAt)
    && d.target.expiry.expiresAt <= d.requestedAt + cfg.maxTtl * SECOND
  }

  ghost predicate MessagesSound(cfg: Config, r: Relay) {
    forall row | row in r.db.messages.rows ::
      Verifies(row.value) && row.value.wellShaped && row.value.expiry.expiresAt <= r.clock + cfg.maxTtl * SECOND
  }

  ghost predicate TombstonesSound(cfg: Config, rows: seq<Row<Deletion>>) {
    forall row | row in rows && row.value.confirmed :: SoundTombstone(cfg, row.value)
  }

  // A message that a sweep may remove only once it no longer validates: its text does not
  // lapse earlier than the shortest accepted time to live before it expires. isoformat()
  // texts, which lapse when they expire, are all of this kind.
  predicate Steady(cfg: Config, s: Signature) {
    s.Genuine? && s.expiry.expiresAt < s.expiry.lapsesAt + cfg.minTtl * SECOND
  }

  // Nothing once confirmed deleted is stored, and whatever has left a table has lapsed or,
  // if it was a tombstone, expired.
  ghost predicate Accounted(r: Relay) {
    && Stored(r.db) <= r.past.inserted
    && Confirmed(r.db) <= r.past.confirmed
    && Stored(r.db) !! r.past.confirmed
    && (forall s | s in r.past.inserted ::
          s.Genuine? && (s in Stored(r.db) || s in r.past.confirmed || s.expiry.lapsesAt <= r.clock))
    && (forall s | s in r.past.confirmed ::
          s.Genuine? && (s in Confirmed(r.db) || s.expiry.expiresAt <= r.clock))
  }

  // A payload that was settled was stored or deleted, by this or another step, or turned away.
  ghost predicate Answered(r: Relay) {
    forall p | p in r.past.settled ::
      p.signature in r.past.inserted || p.signature in r.past.confirmed || p in r.past.refused
  }

  ghost predicate SyncSound(cfg: Config, r: Relay) {
    r.sync.Deletions? ==>
      TombstonesSound(cfg, r.sync.deletions) && forall row | row in r.sync.deletions :: row.value.confirmed
  }

  ghost predicate Inv(cfg: Config, r: Relay) {
    && WellFormed(r.db)
    && Disjoint(r.db)
    && MessagesSound(cfg, r)
    && TombstonesSound(cfg, r.db.deletions.rows)
    && Accounted(r)
    && Answered(r)
    && SyncSound(cfg, r)
  }

  // What a peer reading this relay's logs relies on: rows never change under an id, ids
  // are never reused, and nothing is forgotten.
  ghost predicate Grows(r: Relay, r': Relay) {
    && r.clock <= r'.clock
    && r.past.inserted <= r'.past.inserted
    && r.past.confirmed <= r'.past.confirmed
    && r.past.settled <= r'.past.settled
    && r.past.refused <= r'.past.refused
    && r.db.messages.next <= r'.db.messages.next
    && r.db.deletions.next <= r'.db.deletions.next
    && (forall row | row in r'.db.messages.rows && row.id < r.db.messages.next :: row in r.db.messages.rows)
    && (forall row | row in r'.db.deletions.rows && row.id < r.db.deletions.next :: row in r.db.deletions.rows)
  }

  // A step that leaves the anti-entropy thread alone.
  ghost predicate Undisturbed(r: Relay, r': Relay) {
    r'.cursors == r.cursors && r'.deletionCursors == r.deletionCursors && r'.sync == r.sync
  }

  // --- Each primitive change keeps the invariant ---

  lemma AcceptKeeps(cfg: Config, r: Relay, p: Payload)
    requires Inv(cfg, r) && cfg.minTtl > 0
    requires Validates(cfg, p, r.clock)
    requires p.signature !in Stored(r.db) + Confirmed(r.db) + Pending(r.db)
    ensures var r' := With(r, r.db.(messages := Append(r.db.messages, p)));
            Inv(cfg, r') && Grows(r, r')
  {
    hide WellFormed, SoundTombstone, Candidates, Accounted, MessagesSound, Stored, Confirmed, Pending;
    InsertionContents(r.db, p);
    AppendMessageWellFormed(r.db, p);
    var db := r.db.(messages := Append(r.db.messages, p));
    AcceptSound(cfg, r, p);
    SameDeletionSets(r.db, db);
    AcceptAccounted(cfg, r, p);
  }

  lemma AcceptSound(cfg: Config, r: Relay, p: Payload)
    requires MessagesSound(cfg, r) && Validates(cfg, p, r.clock)
    ensures MessagesSound(cfg, With(r, r.db.(messages := Append(r.db.messages, p))))
  {
  }

  lemma SameDeletionSets(a: Db, b: Db)
    requires a.deletions == b.deletions
    ensures Confirmed(a) == Confirmed(b) && Pending(a) == Pending(b)
  {
  }

  lemma AcceptAccounted(cfg: Config, r: Relay, p: Payload)
    requires Accounted(r) && cfg.minTtl > 0 && Validates(cfg, p, r.clock)
    requires p.signature !in Stored(r.db) + Confirmed(r.db)
    ensures Accounted(With(r, r.db.(messages := Append(r.db.messages, p))))
  {
    hide Stored, Confirmed;
    InsertionContents(r.db, p);
    SameDeletionSets(r.db, r.db.(messages := Append(r.db.messages, p)));
  }

  lemma ConfirmKeeps(cfg: Config, r: Relay, d: Deletion)
    requires Inv(cfg, r) && SoundTombstone(cfg, d)
    ensures var r' := With(r, ApplyConfirmed(r.db, d));
            Inv(cfg, r') && Grows(r, r') && d.target in r'.past.confirmed
  {
    ConfirmationContents(r.db, d);
    ConfirmationWellFormed(r.db, d);
  }

  lemma DropKeeps(cfg: Config, r: Relay, target: Signature)
    requires Inv(cfg, r) && target !in Confirmed(r.db)
    ensures var db := r.db.(deletions := r.db.deletions.(rows := WithoutDeletion(r.db.deletions.rows, target)));
            With(r, db) == r.(db := db) && Inv(cfg, With(r, db)) && Grows(r, With(r, db))
            && target !in Pending(db) && Stored(db) == Stored(r.db) && Confirmed(db) == Confirmed(r.db)
  {
    hide Candidates, Verifies, Select;
    WithoutDeletionContents(r.db, target);
    var db := r.db.(deletions := r.db.deletions.(rows := WithoutDeletion(r.db.deletions.rows, target)));
    assert r.past.inserted + Stored(db) == r.past.inserted;
    assert r.past.confirmed + Confirmed(db) == r.past.confirmed;
  }

  lemma ClaimKeeps(cfg: Config, r: Relay, d: Deletion)
    requires Inv(cfg, r) && !d.confirmed && d.target !in Stored(r.db)
    requires WellFormed(r.db.(deletions := Append(r.db.deletions, d)))
    ensures var r' := With(r, r.db.(deletions := Append(r.db.deletions, d)));
            Inv(cfg, r') && Grows(r, r') && Confirmed(r'.db) == Confirmed(r.db)
  {
    hide WellFormed, SoundTombstone, Candidates, Verifies;
    AppendDeletionContents(r.db, d);
    var db := r.db.(deletions := Append(r.db.deletions, d));
    assert Stored(db) == Stored(r.db);
  }

  lemma PendingKeeps(cfg: Config, r: Relay, target: Signature, requester: Key)
    requires Inv(cfg, r) && target !in Stored(r.db)
    ensures var r' := With(r, AddPending(r.db, target, requester, r.clock));
            Inv(cfg, r') && Grows(r, r') && Confirmed(r'.db) == Confirmed(r.db)
  {
    hide WellFormed, TombstonesSound, MessagesSound, Accounted;
    Unchanged(cfg, r);
    PendingWellFormed(r.db, target, requester, r.clock);
    if FindDeletion(r.db.deletions.rows, target).None? {
      ClaimKeeps(cfg, r, Deletion(target, requester, Blank, false, r.clock));
    }
  }

  lemma SweepKeeps(cfg: Config, r: Relay)
    requires Inv(cfg, r)
    ensures Inv(cfg, SweepNow(cfg, r)) && Grows(r, SweepNow(cfg, r))
    ensures var db := SweepNow(cfg, r).db;
            && Stored(db) == (set s | s in Stored(r.db) && s.Genuine? && r.clock < s.expiry.lapsesAt)
            && Confirmed(db) <= Confirmed(r.db)
  {
    hide WellFormed, Stored, Confirmed, Pending, Accounted, Select;
    var db := Sweep(cfg, r.db, r.clock);
    SweepWellFormed(cfg, r.db, r.clock);
    SweepContents(cfg, r);
    Lapses(r, db);
  }

  // What leaves the tables has lapsed.
  lemma Lapses(r: Relay, db: Db)
    requires Accounted(r)
    requires Stored(db) <= Stored(r.db) && Confirmed(db) <= Confirmed(r.db)
    requires forall s | s in Stored(r.db) :: s in Stored(db) || !s.Genuine? || s.expiry.lapsesAt <= r.clock
    requires forall s | s in Confirmed(r.db) :: s in Confirmed(db) || !s.Genuine? || s.expiry.expiresAt <= r.clock
    ensures With(r, db) == r.(db := db) && Accounted(With(r, db))
  {
    assert r.past.inserted + Stored(db) == r.past.inserted && r.past.confirmed + Confirmed(db) == r.past.confirmed;
  }

  lemma SweepContents(cfg: Config, r: Relay)
    requires MessagesSound(cfg, r) && TombstonesSound(cfg, r.db.deletions.rows)
    ensures var db := Sweep(cfg, r.db, r.clock);
            && Stored(db) == (set s | s in Stored(r.db) && s.Genuine? && r.clock < s.expiry.lapsesAt)
            && Confirmed(db) <= Confirmed(r.db) && Pending(db) <= Pending(r.db)
            && forall s | s in Confirmed(r.db) :: s in Confirmed(db) || (s.Genuine? && s.expiry.expiresAt <= r.clock)
  {
    var db := Sweep(cfg, r.db, r.clock);
    forall s | s in Stored(r.db) && s.Genuine? && r.clock < s.expiry.lapsesAt ensures s in Stored(db) {
      var row :| row in r.db.messages.rows && row.value.signature == s;
      assert row in db.messages.rows;
    }
    forall s | s in Confirmed(r.db) ensures s in Confirmed(db) || (s.Genuine? && s.expiry.expiresAt <= r.clock) {
      var row :| row in r.db.deletions.rows && row.value.confirmed && row.value.target == s;
      assert SoundTombstone(cfg, row.value);
      assert row in db.deletions.rows || row.value.requestedAt <= r.clock - cfg.maxTtl * SECOND;
    }
  }

  // --- Each handler keeps it ---

  lemma ResolveKeeps(cfg: Config, r: Relay, p: Payload)
    requires Inv(cfg, r) && Validates(cfg, p, r.clock) && p.signature !in Stored(r.db)
    ensures var (db, discard) := Resolve(cfg, r.db, p.signature, p.recipient, r.clock);
            && Inv(cfg, With(r, db)) && Grows(r, With(r, db)) && Stored(db) == Stored(r.db)
            && (discard ==> Confirmed(db) == Confirmed(r.db) + {p.signature})
            && (!discard ==> Confirmed(db) == Confirmed(r.db)
                             && With(r, db) == r.(db := db) && p.signature !in Confirmed(db) + Pending(db))
            && db.messages == r.db.messages
  {
    FindsDeletion(r.db, p.signature);
    Unchanged(cfg, r);
    match FindDeletion(r.db.deletions.rows, p.signature)
    case None =>
    case Some(claim) =>
      if !claim.confirmed && p.recipient in Candidates(claim.requester, cfg.maxTtl, r.clock) {
        var d := Deletion(p.signature, claim.requester, p.recipient, true, r.clock);
        ConfirmKeeps(cfg, r, d);
        ConfirmationContents(r.db, d);
        NothingToDelete(r.db.messages.rows, p.signature);
      } else if !claim.confirmed {
        DropKeeps(cfg, r, p.signature);
      }
  }

  lemma Unchanged(cfg: Config, r: Relay)
    requires Inv(cfg, r)
    ensures With(r, r.db) == r && Grows(r, r)
  {
    assert r.past.inserted + Stored(r.db) == r.past.inserted;
    assert r.past.confirmed + Confirmed(r.db) == r.past.confirmed;
  }

  lemma StoredIsRecorded(cfg: Config, r: Relay)
    requires Inv(cfg, r)
    ensures Accounted(r)
  {
  }

  lemma NothingToDelete(rows: seq<Row<Payload>>, signature: Signature)
    requires forall row | row in rows :: row.value.signature != signature
    ensures WithoutMessage(rows, signature) == rows
  {
    if rows != [] {
      assert rows == rows[..|rows| - 1] + [rows[|rows| - 1]];
      NothingToDelete(rows[..|rows| - 1], signature);
    }
  }

  // What an offered message does to a relay, in terms of its contents.
  ghost predicate OfferEffect(cfg: Config, r: Relay, p: Payload, db: Db, outcome: Outcome) {
    match outcome
    case Accepted =>
      && Verifies(p)
      && p.signature !in Stored(r.db) + r.past.confirmed
      && (Steady(cfg, p.signature) ==> p.signature !in r.past.inserted)
      && Stored(db) == Stored(r.db) + {p.signature}
      && Confirmed(db) == Confirmed(r.db)
    case Discarded =>
      && Stored(db) == Stored(r.db)
      && p.signature in Confirmed(db)
      && Confirmed(db) == Confirmed(r.db) + {p.signature}
    case Known => db == r.db && p.signature in Stored(db)
    case Throttled => db == r.db
    case _ => db == r.db
  }

  lemma GrowsOn(a: Relay, b: Relay, c: Relay)
    requires Grows(a, b) && Grows(b, c)
    ensures Grows(a, c)
  {
  }

  lemma OfferKeeps(cfg: Config, r: Relay, p: Payload, g: Grants)
    requires Inv(cfg, r) && cfg.minTtl > 0
    ensures var (db, outcome) := Offer(cfg, r.db, p, g, r.clock);
            Inv(cfg, With(r, db)) && Grows(r, With(r, db)) && OfferEffect(cfg, r, p, db, outcome)
  {
    hide Inv, Grows, Resolve, HasRoom;
    FindsStored(r.db, p.signature);
    Unchanged(cfg, r);
    if && p.signature !in Stored(r.db) && g.global && HasRoom(cfg, r.db, p.recipient)
       && Validates(cfg, p, r.clock) && g.identity
    {
      AdmitKeeps(cfg, r, p);
    }
  }

  // The last gate and the insert, for a valid message that found room.
  lemma AdmitKeeps(cfg: Config, r: Relay, p: Payload)
    requires Inv(cfg, r) && cfg.minTtl > 0 && p.signature !in Stored(r.db)
    requires HasRoom(cfg, r.db, p.recipient) && Validates(cfg, p, r.clock)
    ensures var (resolved, discard) := Resolve(cfg, r.db, p.signature, p.recipient, r.clock);
            if discard
            then && Inv(cfg, With(r, resolved)) && Grows(r, With(r, resolved))
                 && OfferEffect(cfg, r, p, resolved, Discarded)
            else
              var (db, result) := InsertSection(cfg, resolved, p);
              result.New? && Inv(cfg, With(r, db)) && Grows(r, With(r, db)) && OfferEffect(cfg, r, p, db, Accepted)
  {
    hide Inv, Grows, Resolve, Validates, Count, Bytes;
    ResolveKeeps(cfg, r, p);
    var (resolved, discard) := Resolve(cfg, r.db, p.signature, p.recipient, r.clock);
    if !discard {
      var settled := r.(db := resolved);
      FindsStored(resolved, p.signature);
      AcceptKeeps(cfg, settled, p);
      InsertionContents(resolved, p);
      var db := resolved.(messages := Append(resolved.messages, p));
      assert With(settled, db) == With(r, db);
      GrowsOn(r, settled, With(r, db));
      NeverSeen(cfg, r, p);
      ValidVerifies(cfg, p, r.clock);
      assert Confirmed(db) == Confirmed(resolved);
    }
  }

  lemma ValidVerifies(cfg: Config, p: Payload, now: int)
    requires Validates(cfg, p, now)
    ensures Verifies(p)
  {
  }

  // A valid message that is neither stored nor confirmed deleted was never confirmed deleted
  // before, and never stored before unless its text lapses too early.
  lemma NeverSeen(cfg: Config, r: Relay, p: Payload)
    requires Inv(cfg, r) && cfg.minTtl > 0 && Validates(cfg, p, r.clock)
    requires p.signature !in Stored(r.db) + Confirmed(r.db)
    ensures p.signature !in r.past.confirmed
    ensures Steady(cfg, p.signature) ==> p.signature !in r.past.inserted
  {
  }

  // A tombstone made for a message held here is sound.
  lemma OwnTombstoneSound(cfg: Config, r: Relay, q: DeleteRequest, p: Payload)
    requires Inv(cfg, r) && FindMessage(r.db.messages.rows, q.target) == Some(p)
    requires p.recipient in Candidates(q.requester, cfg.maxTtl, r.clock)
    ensures SoundTombstone(cfg, Deletion(q.target, q.requester, p.recipient, true, r.clock))
  {
    var row :| row in r.db.messages.rows && row.value == p;
    assert Verifies(row.value);
  }

  lemma DeleteKeeps(cfg: Config, r: Relay, q: DeleteRequest, g: Grants)
    requires Inv(cfg, r)
    ensures var (r', confirmed) := Delete(cfg, r, q, g);
            && Inv(cfg, r') && Grows(r, r') && Undisturbed(r, r')
            && (confirmed ==> q.target in Stored(r.db) && q.target in Confirmed(r'.db))
            && (!confirmed ==> Stored(r'.db) == Stored(r.db) && Confirmed(r'.db) == Confirmed(r.db))
            && Stored(r'.db) <= Stored(r.db)
  {
    hide Inv;
    FindsStored(r.db, q.target);
    Unchanged(cfg, r);
    if g.global && q.authentic && g.identity {
      match FindMessage(r.db.messages.rows, q.target)
      case Some(p) =>
        if p.recipient in Candidates(q.requester, cfg.maxTtl, r.clock) {
          var d := Deletion(q.target, q.requester, p.recipient, true, r.clock);
          OwnTombstoneSound(cfg, r, q, p);
          ConfirmKeeps(cfg, r, d);
          ConfirmationContents(r.db, d);
        }
      case None => PendingKeeps(cfg, r, q.target, q.requester);
    }
  }

  lemma ReconcileKeeps(cfg: Config, r: Relay, d: Deletion)
    requires Inv(cfg, r) && SoundTombstone(cfg, d)
    ensures var r' := With(r, ReconcileDeletion(r.db, d));
            Inv(cfg, r') && Grows(r, r') && d.target in Confirmed(r'.db)
  {
    FindsDeletion(r.db, d.target);
    assert d.(confirmed := true) == d;
    if d.target !in Confirmed(r.db) {
      ConfirmKeeps(cfg, r, d);
      ConfirmationContents(r.db, d);
    }
  }

  // --- Each step keeps it ---

  lemma SettlingKeeps(cfg: Config, r: Relay, p: Payload, outcome: Outcome)
    requires Inv(cfg, r)
    requires outcome.Known? || outcome.Accepted? || outcome.Discarded? ==>
               p.signature in r.past.inserted + r.past.confirmed
    ensures Inv(cfg, Settling(r, p, outcome)) && Grows(r, Settling(r, p, outcome))
  {
    hide WellFormed, Disjoint;
  }

  lemma ReceiveKeeps(cfg: Config, r: Relay, p: Payload, g: Grants)
    requires Inv(cfg, r) && cfg.minTtl > 0
    ensures var (r', outcome) := Receive(cfg, r, p, g);
            && Inv(cfg, r') && Grows(r, r') && Undisturbed(r, r')
            && OfferEffect(cfg, r, p, r'.db, outcome)
            && (!outcome.Throttled? ==> p in r'.past.settled)
  {
    hide Inv, Grows, Offer;
    OfferKeeps(cfg, r, p, g);
    var (db, outcome) := Offer(cfg, r.db, p, g, r.clock);
    SettlingKeeps(cfg, With(r, db), p, outcome);
    GrowsOn(r, With(r, db), Receive(cfg, r, p, g).0);
  }

  lemma PullOneMessageKeeps(cfg: Config, r: Relay, g: Grants)
    requires Inv(cfg, r) && cfg.minTtl > 0
    requires r.sync.Messages? && r.sync.messages != []
    ensures var (r', outcome) := PullOneMessage(cfg, r, g);
            var item := r.sync.messages[0];
            && Inv(cfg, r') && Grows(r, r')
            && r'.cursors == r.cursors && r'.deletionCursors == r.deletionCursors
            && r' == Receive(cfg, r, item.value, g).0.(sync := r'.sync)
            && outcome == Receive(cfg, r, item.value, g).1
            && r'.sync.Messages? && r'.sync.peer == r.sync.peer
            && (outcome.Throttled? ==> r'.sync.maxId == r.sync.maxId && r'.sync.messages == [] && r'.db == r.db)
            && (!outcome.Throttled? ==>
                  && r'.sync.maxId == Max(r.sync.maxId, item.id) && r'.sync.messages == r.sync.messages[1..])
  {
    ReceiveKeeps(cfg, r, r.sync.messages[0].value, g);
  }

  lemma PullOneDeletionKeeps(cfg: Config, r: Relay, g: Grants)
    requires Inv(cfg, r)
    requires r.sync.Deletions? && r.sync.deletions != []
    ensures var r' := PullOneDeletion(r, g);
            var item := r.sync.deletions[0];
            && Inv(cfg, r') && Grows(r, r')
            && r'.cursors == r.cursors && r'.deletionCursors == r.deletionCursors
            && r'.sync.Deletions? && r'.sync.peer == r.sync.peer
            && (!g.global || !g.identity ==> r' == r.(sync := r.sync.(deletions := [])))
            && (g.global && g.identity ==>
                  && r'.sync.maxId == Max(r.sync.maxId, item.id) && r'.sync.deletions == r.sync.deletions[1..]
                  && item.value.target in r'.past.confirmed)
  {
    Unchanged(cfg, r);
    if g.global && g.identity {
      assert r.sync.deletions[0] in r.sync.deletions;
      ReconcileKeeps(cfg, r, r.sync.deletions[0].value);
    }
  }
}
