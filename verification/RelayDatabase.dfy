// The relay's tables as they are kept, changed in place one lock section at a time, and
// the push fan-out. Each method is proved against the lock section of Store it carries out.
module RelayDatabase {
  import opened Protocol
  import opened Tables
  import opened Store
  import opened RelaySpec
  import Interleaving
  import Fetch
  import Quota
  import Answers

  // What is pushed to the peers.
  datatype Notice = Publishing(payload: Payload) | Deleting(request: DeleteRequest)

  // One push of a notice to every peer.
  function Fanout(peers: seq<nat>, notice: Notice): seq<(nat, Notice)> {
    seq(|peers|, i requires 0 <= i < |peers| => (peers[i], notice))
  }

  // GossipContext: the pushes handed to its pool so far.
  class GossipContext {
    const peers: seq<nat>
    var submitted: seq<(nat, Notice)>

    constructor (peers: seq<nat>)
      ensures this.peers == peers && submitted == []
    {
      this.peers := peers;
      submitted := [];
    }

    method ScheduleFanout(notice: Notice)
      modifies this
      ensures submitted == old(submitted) + Fanout(peers, notice)
      ensures |submitted| == |old(submitted)| + |peers| && old(submitted) <= submitted
      ensures forall i | 0 <= i < |peers| :: submitted[|old(submitted)| + i] == (peers[i], notice)
    {
      var i := 0;
      while i < |peers|
        invariant 0 <= i <= |peers|
        invariant submitted == old(submitted) + Fanout(peers[..i], notice)
      {
        submitted := submitted + [(peers[i], notice)];
        i := i + 1;
      }
      assert peers[..i] == peers;
    }
  }

  class Database {
    const cfg: Config
    var messages: seq<Row<Payload>>
    var nextMessageId: nat
    var deletions: seq<Row<Deletion>>
    var nextDeletionId: nat

    ghost function Model(): Db
      reads this
    {
      Db(Table(messages, nextMessageId), Table(deletions, nextDeletionId))
    }

    // Unique signatures and targets, ascending ids never reused, and the quota.
    ghost predicate Valid()
      reads this
    {
      Interleaving.Inv(cfg, Model())
    }

    // init_db on a new file.
    constructor (cfg: Config)
      ensures Valid() && Model() == EMPTY && this.cfg == cfg
    {
      this.cfg := cfg;
      messages, nextMessageId := [], 1;
      deletions, nextDeletionId := [], 1;
    }

    method MessageExists(signature: Signature) returns (found: bool)
      ensures found <==> signature in Stored(Model())
      ensures found == FindMessage(messages, signature).Some?
    {
      FindsStored(Model(), signature);
      found := FindMessage(messages, signature).Some?;
    }

    method CheckRecipientQuota(recipient: RecipientId) returns (room: bool)
      requires Valid()
      ensures room == HasRoom(cfg, Model(), recipient)
      ensures var its := Quota.RowsFor(messages, recipient);
              room <==> |its| < cfg.quotaMessages && Quota.TotalSize(its) < cfg.quotaBytes
    {
      Quota.HasRoomIff(cfg, Model(), recipient);
      var count := Count(messages, recipient);
      if count >= cfg.quotaMessages { return false; }
      var totalBytes := Bytes(messages, recipient);
      return totalBytes < cfg.quotaBytes;
    }

    method InsertMessageAndMaybeGossip(p: Payload, gossip: GossipContext)
      returns (isNew: bool, rowId: Option<nat>, quotaExceeded: bool)
      requires Valid()
      modifies this, gossip
      ensures Valid()
      ensures var (after, result) := InsertSection(cfg, old(Model()), p);
              && Model() == after
              && isNew == result.New? && quotaExceeded == result.Full?
              && rowId == (if isNew then Some(old(nextMessageId)) else None)
      ensures var its := Quota.RowsFor(old(messages), p.recipient);
              && (quotaExceeded <==> cfg.quotaMessages <= |its| || cfg.quotaBytes <= Quota.TotalSize(its))
              && (isNew <==> !quotaExceeded && p.signature !in old(Stored(Model())))
      ensures gossip.submitted == old(gossip.submitted) + if isNew then Fanout(gossip.peers, Publishing(p)) else []
    {
      hide Count, Bytes, FindMessage, Stored, Fanout, Quota.RowsFor, Quota.TotalSize;
      Quota.InsertionIff(cfg, Model(), p);
      hide Interleaving.Inv;
      Interleaving.InsertionKeeps(cfg, Model(), p);
      var count := Count(messages, p.recipient);
      if count >= cfg.quotaMessages { return false, None, true; }
      var totalBytes := Bytes(messages, p.recipient);
      if totalBytes >= cfg.quotaBytes { return false, None, true; }
      if FindMessage(messages, p.signature).Some? { return false, None, false; }
      rowId := Some(nextMessageId);
      messages := messages + [Row(nextMessageId, p)];
      nextMessageId := nextMessageId + 1;
      gossip.ScheduleFanout(Publishing(p));
      return true, rowId, false;
    }

    method ApplyConfirmedDeletion(d: Deletion)
      requires Valid() && d.confirmed
      modifies this
      ensures Valid() && Model() == ApplyConfirmed(old(Model()), d)
    {
      Interleaving.ConfirmationKeeps(cfg, Model(), d);
      messages := WithoutMessage(messages, d.target);
      deletions := WithoutDeletion(deletions, d.target);
      deletions := deletions + [Row(nextDeletionId, d)];
      nextDeletionId := nextDeletionId + 1;
    }

    method ResolveDeletionRequest(signature: Signature, recipient: RecipientId, now: int) returns (discard: bool)
      requires Valid()
      modifies this
      ensures Valid()
      ensures (Model(), discard) == Resolve(cfg, old(Model()), signature, recipient, now)
      ensures var was := old(Model());
              discard <==> Answers.Buried(was, signature) || Answers.Claimed(cfg, was, signature, recipient, now)
    {
      Answers.DiscardIff(cfg, Model(), signature, recipient, now);
      hide Answers.Buried, Answers.Claimed;
      var row := FindDeletion(deletions, signature);
      if row.None? { return false; }
      var claim := row.value;
      if claim.confirmed { return true; }
      var matched := recipient in Candidates(claim.requester, cfg.maxTtl, now);
      ResolutionWellFormed(Model(), claim, recipient, matched, now);
      if matched {
        ApplyConfirmedDeletion(Deletion(signature, claim.requester, recipient, true, now));
      } else {
        deletions := WithoutDeletion(deletions, signature);
      }
      return matched;
    }

    method HandleDeleteRequest(q: DeleteRequest, now: int) returns (didConfirm: bool)
      requires Valid()
      modifies this
      ensures Valid()
      ensures (Model(), didConfirm) == HandleDelete(cfg, old(Model()), q, now)
      ensures didConfirm <==>
                exists row | row in old(messages) ::
                  row.value.signature == q.target && Answers.Owns(cfg, q.requester, row.value.recipient, now)
    {
      Answers.ConfirmsIff(cfg, Model(), q, now);
      hide Answers.Owns;
      var candidates := Candidates(q.requester, cfg.maxTtl, now);
      var row := FindMessage(messages, q.target);
      if row.Some? && row.value.recipient in candidates {
        ApplyConfirmedDeletion(Deletion(q.target, q.requester, row.value.recipient, true, now));
        return true;
      }
      if row.None? {
        PendingWellFormed(Model(), q.target, q.requester, now);
        if FindDeletion(deletions, q.target).None? {
          deletions := deletions + [Row(nextDeletionId, Deletion(q.target, q.requester, Blank, false, now))];
          nextDeletionId := nextDeletionId + 1;
        }
      }
      return false;
    }

    // The section of _sync_deletions_with_peer.
    method ReconcileTombstone(d: Deletion)
      requires Valid()
      modifies this
      ensures Valid() && Model() == ReconcileDeletion(old(Model()), d)
    {
      var row := FindDeletion(deletions, d.target);
      if !(row.Some? && row.value.confirmed) {
        ApplyConfirmedDeletion(d.(confirmed := true));
      }
    }

    // _CleanupJob._run_once.
    method RunOnce(now: int)
      requires Valid()
      modifies this
      ensures Valid() && Model() == Sweep(cfg, old(Model()), now)
      ensures forall row :: row in messages <==> row in old(messages) && now < row.value.expiry.lapsesAt
      ensures forall row ::
                row in deletions <==> row in old(deletions) && now < row.value.requestedAt + cfg.maxTtl * SECOND
    {
      SweepWellFormed(cfg, Model(), now);
      Interleaving.AdmittedAfterSelect(cfg, messages, (p: Payload) => now < p.expiry.lapsesAt);
      var tombstoneCutoff := now - cfg.maxTtl * SECOND;
      messages := Select(messages, (p: Payload) => now < p.expiry.lapsesAt);
      var maxTtl := cfg.maxTtl;
      deletions := Select(deletions, (d: Deletion) => now - maxTtl * SECOND < d.requestedAt);
    }

    // GET /gossip/messages: the rows above `since`, in id order; all of them unless there are
    // more than the limit, when it is the lowest of them.
    method MessagesPage(since: nat) returns (page: seq<Row<Payload>>)
      requires Valid()
      ensures page == Page(messages, since, PULL_BATCH_LIMIT)
      ensures Ascending(page) && |page| <= 500
      ensures forall row | row in page :: row in messages && since < row.id
      ensures |page| < 500 ==> forall row | row in messages && since < row.id :: row in page
      ensures forall row | row in messages && since < row.id <= LastId(since, page) :: row in page
    {
      page := Page(messages, since, PULL_BATCH_LIMIT);
      PageServes(messages, since, PULL_BATCH_LIMIT);
    }

    // GET /gossip/deletions: the same of the confirmed tombstones only.
    method DeletionsPage(since: nat) returns (page: seq<Row<Deletion>>)
      requires Valid()
      ensures page == Page(ConfirmedRows(Model()), since, PULL_BATCH_LIMIT)
      ensures Ascending(page) && |page| <= 500
      ensures forall row | row in page :: row in deletions && row.value.confirmed && since < row.id
      ensures |page| < 500 ==>
                forall row | row in deletions && row.value.confirmed && since < row.id :: row in page
      ensures forall row | row in deletions && row.value.confirmed && since < row.id <= LastId(since, page) ::
                row in page
    {
      var confirmed := ConfirmedRows(Db(Table(messages, nextMessageId), Table(deletions, nextDeletionId)));
      page := Page(confirmed, since, PULL_BATCH_LIMIT);
      PageServes(confirmed, since, PULL_BATCH_LIMIT);
    }

    // POST /fetch.
    method DoFetch(ids: seq<RecipientId>, now: int) returns (response: Fetch.Response)
      requires Valid()
      ensures response == Fetch.Fetch(cfg, Model(), ids, now)
      ensures response.Messages? ==> Fetch.Answers(Model(), ids, now, response.messages)
    {
      Fetch.FetchExact(cfg, Model(), ids, now);
      if ids == [] { return Fetch.Rejected(Fetch.NoIds); }
      if |ids| > MaxFetchIds(cfg.maxTtl) { return Fetch.Rejected(Fetch.TooManyIds); }
      if Blank in ids { return Fetch.Rejected(Fetch.BadId); }
      var rows := Fetch.Matching(messages, ids, now);
      return Fetch.Messages(Fetch.Payloads(rows));
    }
  }
}
