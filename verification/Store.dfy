// One relay's database and the lock sections that read and write it, as functions on
// values. Each function below is one `with db_lock` block, or a handler composed of them.
module Store {
  import opened Protocol
  import opened Tables

  datatype Option<+T> = None | Some(value: T)

  // Seconds and counts, as given on the command line.
  datatype Config = Config(minTtl: int, maxTtl: int, quotaMessages: int, quotaBytes: int)

  // A row of deletion_requests: a pending claim or a confirmed tombstone.
  datatype Deletion = Deletion(target: Signature, requester: Key, requesterRecipient: RecipientId,
                               confirmed: bool, requestedAt: int)

  datatype Db = Db(messages: Table<Payload>, deletions: Table<Deletion>)

  const EMPTY: Db := Db(Table([], 1), Table([], 1))

  // --- What a database holds ---

  ghost function Stored(db: Db): set<Signature> {
    set row | row in db.messages.rows :: row.value.signature
  }

  ghost function Confirmed(db: Db): set<Signature> {
    set row | row in db.deletions.rows && row.value.confirmed :: row.value.target
  }

  ghost function Pending(db: Db): set<Signature> {
    set row | row in db.deletions.rows && !row.value.confirmed :: row.value.target
  }

  // The UNIQUE constraints of both tables, and the AUTOINCREMENT discipline.
  ghost predicate WellFormed(db: Db) {
    && ValidTable(db.messages)
    && ValidTable(db.deletions)
    && UniqueMessages(db.messages.rows)
    && UniqueDeletions(db.deletions.rows)
  }

  ghost predicate UniqueMessages(rows: seq<Row<Payload>>) {
    forall a, b | a in rows && b in rows && a.value.signature == b.value.signature :: a == b
  }

  ghost predicate UniqueDeletions(rows: seq<Row<Deletion>>) {
    forall a, b | a in rows && b in rows && a.value.target == b.value.target :: a == b
  }

  // No signature is a stored message and a deletion request at once.
  ghost predicate Disjoint(db: Db) {
    Stored(db) !! Confirmed(db) + Pending(db)
  }

  // --- Queries ---

  function FindMessage(rows: seq<Row<Payload>>, signature: Signature): (r: Option<Payload>)
    ensures r.Some? ==> r.value.signature == signature && exists row | row in rows :: row.value == r.value
    ensures r.None? ==> forall row | row in rows :: row.value.signature != signature
  {
    if rows == [] then None
    else if rows[0].value.signature == signature then Some(rows[0].value)
    else
      assert rows == [rows[0]] + rows[1..];
      FindMessage(rows[1..], signature)
  }

  function FindDeletion(rows: seq<Row<Deletion>>, target: Signature): (r: Option<Deletion>)
    ensures r.Some? ==> r.value.target == target && exists row | row in rows :: row.value == r.value
    ensures r.None? ==> forall row | row in rows :: row.value.target != target
  {
    if rows == [] then None
    else if rows[0].value.target == target then Some(rows[0].value)
    else
      assert rows == [rows[0]] + rows[1..];
      FindDeletion(rows[1..], target)
  }

  // SELECT COUNT(*) WHERE recipient_id = ?
  function Count(rows: seq<Row<Payload>>, recipient: RecipientId): nat {
    if rows == [] then 0
    else
      var last := rows[|rows| - 1].value;
      Count(rows[..|rows| - 1], recipient) + if last.recipient == recipient then 1 else 0
  }

  lemma CountOneMore(rows: seq<Row<Payload>>, row: Row<Payload>, recipient: RecipientId)
    ensures var n := if row.value.recipient == recipient then 1 else 0;
            Count(rows + [row], recipient) == Count(rows, recipient) + n
    ensures var n := if row.value.recipient == recipient then row.value.size else 0;
            Bytes(rows + [row], recipient) == Bytes(rows, recipient) + n
  {
    assert (rows + [row])[..|rows|] == rows;
  }

  // SELECT SUM(LENGTH(payload)) WHERE recipient_id = ?
  function Bytes(rows: seq<Row<Payload>>, recipient: RecipientId): nat {
    if rows == [] then 0
    else
      var last := rows[|rows| - 1].value;
      Bytes(rows[..|rows| - 1], recipient) + if last.recipient == recipient then last.size else 0
  }

  function HasRoom(cfg: Config, db: Db, recipient: RecipientId): bool {
    && Count(db.messages.rows, recipient) < cfg.quotaMessages
    && Bytes(db.messages.rows, recipient) < cfg.quotaBytes
  }

  // --- Lock sections ---

  datatype Insertion = New | Duplicate | Full

  // insert_message_and_maybe_gossip: the quota recheck and the INSERT, in one section.
  function InsertSection(cfg: Config, db: Db, p: Payload): (Db, Insertion) {
    if !HasRoom(cfg, db, p.recipient) then (db, Full)
    else if FindMessage(db.messages.rows, p.signature).Some? then (db, Duplicate)
    else (db.(messages := Append(db.messages, p)), New)
  }

  function WithoutMessage(rows: seq<Row<Payload>>, signature: Signature): seq<Row<Payload>> {
    Select(rows, (p: Payload) => p.signature != signature)
  }

  function WithoutDeletion(rows: seq<Row<Deletion>>, target: Signature): seq<Row<Deletion>> {
    Select(rows, (d: Deletion) => d.target != target)
  }

  // _apply_confirmed_deletion: delete the message, then INSERT OR REPLACE a tombstone
  // under a fresh id.
  function ApplyConfirmed(db: Db, d: Deletion): Db {
    Db(db.messages.(rows := WithoutMessage(db.messages.rows, d.target)),
       Append(db.deletions.(rows := WithoutDeletion(db.deletions.rows, d.target)), d))
  }

  // The writing section of resolve_deletion_request.
  function ResolveWrite(db: Db, claim: Deletion, recipient: RecipientId, matched: bool, now: int): Db {
    if matched
    then ApplyConfirmed(db, Deletion(claim.target, claim.requester, recipient, true, now))
    else db.(deletions := db.deletions.(rows := WithoutDeletion(db.deletions.rows, claim.target)))
  }

  // INSERT OR IGNORE of a pending claim.
  function AddPending(db: Db, target: Signature, requester: Key, now: int): Db {
    if FindDeletion(db.deletions.rows, target).Some? then db
    else db.(deletions := Append(db.deletions, Deletion(target, requester, Blank, false, now)))
  }

  // The section of handle_delete_request; the candidates were computed before the lock was
  // taken. The flag is did_confirm.
  function DeleteSection(db: Db, q: DeleteRequest, candidates: seq<RecipientId>, now: int): (Db, bool) {
    match FindMessage(db.messages.rows, q.target)
    case Some(p) =>
      if p.recipient in candidates
      then (ApplyConfirmed(db, Deletion(q.target, q.requester, p.recipient, true, now)), true)
      else (db, false)
    case None => (AddPending(db, q.target, q.requester, now), false)
  }

  function HandleDelete(cfg: Config, db: Db, q: DeleteRequest, now: int): (Db, bool) {
    DeleteSection(db, q, Candidates(q.requester, cfg.maxTtl, now), now)
  }

  // One row of a pulled tombstone page, which is written as confirmed.
  function ReconcileDeletion(db: Db, d: Deletion): Db {
    var known := FindDeletion(db.deletions.rows, d.target);
    if known.Some? && known.value.confirmed then db else ApplyConfirmed(db, d.(confirmed := true))
  }

  // _CleanupJob._run_once.
  function Sweep(cfg: Config, db: Db, now: int): Db {
    Db(db.messages.(rows := Select(db.messages.rows, (p: Payload) => now < p.expiry.lapsesAt)),
       db.deletions.(rows := Select(db.deletions.rows,
                                    (d: Deletion) => now - cfg.maxTtl * SECOND < d.requestedAt)))
  }

  // --- Handlers, run without interruption ---

  // _validate_publish_payload.
  function Validates(cfg: Config, p: Payload, now: int): bool {
    && p.wellShaped
    && p.recipient != Blank
    && now + cfg.minTtl * SECOND <= p.expiry.expiresAt <= now + cfg.maxTtl * SECOND
    && Verifies(p)
  }

  // resolve_deletion_request; true means the message must be discarded.
  function Resolve(cfg: Config, db: Db, signature: Signature, recipient: RecipientId, now: int): (Db, bool) {
    match FindDeletion(db.deletions.rows, signature)
    case None => (db, false)
    case Some(claim) =>
      if claim.confirmed then (db, true)
      else
        var matched := recipient in Candidates(claim.requester, cfg.maxTtl, now);
        (ResolveWrite(db, claim, recipient, matched, now), matched)
  }

  // What the rate limiter answers; a pushed payload has one combined check, the global one.
  datatype Grants = Grants(global: bool, identity: bool)

  datatype Outcome = Known | Throttled | OverQuota | Invalid | Discarded | Accepted

  // The sequence of gates shared by /publish, /gossip/publish and a pulled message.
  function Offer(cfg: Config, db: Db, p: Payload, g: Grants, now: int): (Db, Outcome) {
    if FindMessage(db.messages.rows, p.signature).Some? then (db, Known)
    else if !g.global then (db, Throttled)
    else if !HasRoom(cfg, db, p.recipient) then (db, OverQuota)
    else if !Validates(cfg, p, now) then (db, Invalid)
    else if !g.identity then (db, Throttled)
    else
      var (resolved, discard) := Resolve(cfg, db, p.signature, p.recipient, now);
      if discard then (resolved, Discarded)
      else
        var (inserted, result) := InsertSection(cfg, resolved, p);
        (inserted, match result case New => Accepted case Duplicate => Known case Full => OverQuota)
  }

  // A pulled message: the gates, and the cursor, which waits only for a rate limit.
  function PullMessage(cfg: Config, db: Db, maxId: nat, item: Row<Payload>, g: Grants, now: int)
    : (Db, nat, Outcome)
  {
    var (after, outcome) := Offer(cfg, db, item.value, g, now);
    (after, if outcome.Throttled? then maxId else Max(maxId, item.id), outcome)
  }

  // What a row of a pulled page meets: the limiter's answers, and the time.
  datatype Moment = Moment(grants: Grants, now: int)

  // A page being read: the database, the place reached, whether a rate limit ended it, and
  // the newly stored payloads to push on.
  datatype Reading = Reading(db: Db, maxId: nat, stopped: bool, pushed: seq<Payload>)

  function ReadRow(cfg: Config, r: Reading, item: Row<Payload>, m: Moment): Reading {
    if r.stopped then r
    else
      var (db, maxId, outcome) := PullMessage(cfg, r.db, r.maxId, item, m.grants, m.now);
      Reading(db, maxId, outcome.Throttled?, r.pushed + if outcome.Accepted? then [item.value] else [])
  }

  // The loop of _sync_with_peer.
  function ReadPage(cfg: Config, start: Reading, page: seq<Row<Payload>>, moments: seq<Moment>): Reading
    requires |moments| == |page|
  {
    if page == [] then start
    else ReadRow(cfg, ReadPage(cfg, start, page[..|page| - 1], moments[..|page| - 1]),
                 page[|page| - 1], moments[|page| - 1])
  }

  function ReconcileRow(r: Reading, item: Row<Deletion>, g: Grants): Reading {
    if r.stopped || !g.global || !g.identity then r.(stopped := true)
    else r.(db := ReconcileDeletion(r.db, item.value), maxId := Max(r.maxId, item.id))
  }

  // The loop of _sync_deletions_with_peer.
  function ReconcilePage(start: Reading, page: seq<Row<Deletion>>, grants: seq<Grants>): Reading
    requires |grants| == |page|
  {
    if page == [] then start
    else ReconcileRow(ReconcilePage(start, page[..|page| - 1], grants[..|page| - 1]),
                      page[|page| - 1], grants[|page| - 1])
  }

  function Max(a: nat, b: nat): nat {
    if a < b then b else a
  }

  // --- Contents of the sections, as sets ---

  lemma InsertionContents(db: Db, p: Payload)
    ensures var after := db.(messages := Append(db.messages, p));
            Stored(after) == Stored(db) + {p.signature}
  {
    var after := db.(messages := Append(db.messages, p));
    assert Row(db.messages.next, p) in after.messages.rows;
    forall s | s in Stored(db) ensures s in Stored(after) {
      var row :| row in db.messages.rows && row.value.signature == s;
      assert row in after.messages.rows;
    }
  }

  lemma WithoutMessageContents(db: Db, s: Signature)
    ensures var after := db.(messages := db.messages.(rows := WithoutMessage(db.messages.rows, s)));
            Stored(after) == Stored(db) - {s}
  {
    var after := db.(messages := db.messages.(rows := WithoutMessage(db.messages.rows, s)));
    forall x | x in Stored(db) && x != s ensures x in Stored(after) {
      var row :| row in db.messages.rows && row.value.signature == x;
      assert row in after.messages.rows;
    }
  }

  lemma WithoutDeletionContents(db: Db, s: Signature)
    ensures var after := db.(deletions := db.deletions.(rows := WithoutDeletion(db.deletions.rows, s)));
            Confirmed(after) == Confirmed(db) - {s} && Pending(after) == Pending(db) - {s}
  {
    var after := db.(deletions := db.deletions.(rows := WithoutDeletion(db.deletions.rows, s)));
    forall x | x in Confirmed(db) && x != s ensures x in Confirmed(after) {
      var row :| row in db.deletions.rows && row.value.confirmed && row.value.target == x;
      assert row in after.deletions.rows;
    }
    forall x | x in Pending(db) && x != s ensures x in Pending(after) {
      var row :| row in db.deletions.rows && !row.value.confirmed && row.value.target == x;
      assert row in after.deletions.rows;
    }
  }

  lemma AppendDeletionContents(db: Db, d: Deletion)
    ensures var after := db.(deletions := Append(db.deletions, d));
            && Confirmed(after) == Confirmed(db) + (if d.confirmed then {d.target} else {})
            && Pending(after) == Pending(db) + (if d.confirmed then {} else {d.target})
  {
    var after := db.(deletions := Append(db.deletions, d));
    assert Row(db.deletions.next, d) in after.deletions.rows;
    forall x | x in Confirmed(db) ensures x in Confirmed(after) {
      var row :| row in db.deletions.rows && row.value.confirmed && row.value.target == x;
      assert row in after.deletions.rows;
    }
    forall x | x in Pending(db) ensures x in Pending(after) {
      var row :| row in db.deletions.rows && !row.value.confirmed && row.value.target == x;
      assert row in after.deletions.rows;
    }
  }

  lemma ConfirmationContents(db: Db, d: Deletion)
    requires d.confirmed
    ensures var after := ApplyConfirmed(db, d);
            && Stored(after) == Stored(db) - {d.target}
            && Confirmed(after) == Confirmed(db) + {d.target}
            && Pending(after) == Pending(db) - {d.target}
  {
    WithoutMessageContents(db, d.target);
    var a := db.(messages := db.messages.(rows := WithoutMessage(db.messages.rows, d.target)));
    WithoutDeletionContents(a, d.target);
    var b := a.(deletions := a.deletions.(rows := WithoutDeletion(a.deletions.rows, d.target)));
    AppendDeletionContents(b, d);
    assert ApplyConfirmed(db, d) == b.(deletions := Append(b.deletions, d));
    assert Confirmed(a) == Confirmed(db) && Pending(a) == Pending(db);
    assert Stored(b) == Stored(a);
  }

  // The table lookups, in terms of contents.
  lemma FindsStored(db: Db, s: Signature)
    ensures FindMessage(db.messages.rows, s).Some? <==> s in Stored(db)
  {
  }

  lemma FindsDeletion(db: Db, s: Signature)
    requires UniqueDeletions(db.deletions.rows)
    ensures var found := FindDeletion(db.deletions.rows, s);
            && (found.Some? && found.value.confirmed <==> s in Confirmed(db))
            && (found.Some? && !found.value.confirmed <==> s in Pending(db))
  {
  }

  // --- Well-formedness is kept by every section, in any order ---

  lemma InsertionWellFormed(cfg: Config, db: Db, p: Payload)
    requires WellFormed(db)
    ensures WellFormed(InsertSection(cfg, db, p).0)
  {
  }

  lemma AppendMessageWellFormed(db: Db, p: Payload)
    requires WellFormed(db) && p.signature !in Stored(db)
    ensures WellFormed(db.(messages := Append(db.messages, p)))
  {
    assert forall row | row in db.messages.rows :: row.value.signature in Stored(db);
  }

  lemma ConfirmationWellFormed(db: Db, d: Deletion)
    requires WellFormed(db)
    ensures WellFormed(ApplyConfirmed(db, d))
  {
  }

  lemma ResolutionWellFormed(db: Db, claim: Deletion, recipient: RecipientId, matched: bool, now: int)
    requires WellFormed(db)
    ensures WellFormed(ResolveWrite(db, claim, recipient, matched, now))
  {
  }

  lemma PendingWellFormed(db: Db, target: Signature, requester: Key, now: int)
    requires WellFormed(db)
    ensures WellFormed(AddPending(db, target, requester, now))
  {
  }

  lemma SweepWellFormed(cfg: Config, db: Db, now: int)
    requires WellFormed(db)
    ensures WellFormed(Sweep(cfg, db, now))
  {
  }
}
