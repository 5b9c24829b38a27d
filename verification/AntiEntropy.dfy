// The pull loops of the anti-entropy thread, over tables, cursors and limiter kept in
// place: proved against a page read row by row, which is then shown to be what the mesh
// does with the same page.
module AntiEntropy {
  import opened Protocol
  import opened Tables
  import opened Store
  import opened RelaySpec
  import opened RateLimit
  import opened RateLimiterClass
  import opened RelayDatabase
  import opened RelayHandlers
  import opened Wire
  import Interleaving
  import Answers

  // A reading of the wall clock and of the monotonic clock.
  datatype Instant = Instant(now: int, at: real)

  // A peer's answer to a page request.
  datatype Response<T> = Failed | Rows(rows: seq<T>)

  // --- A page read with a limiter that is spent as it goes ---

  datatype Pulling = Pulling(reading: Reading, limiter: Limiter)

  function PullRow(cfg: Config, s: Pulling, item: Row<Payload>, peer: Identity, t: Instant): Pulling {
    if s.reading.stopped then s
    else Pulling(ReadRow(cfg, s.reading, item, Moment(SplitGrants(s.limiter, peer, t.at), t.now)),
                 OfferCharge(cfg, s.reading.db, item.value, s.limiter, peer, t.now, t.at))
  }

  function PullPage(cfg: Config, s: Pulling, page: seq<Row<Payload>>, peer: Identity, clock: nat -> Instant): Pulling {
    if page == [] then s
    else PullRow(cfg, PullPage(cfg, s, page[..|page| - 1], peer, clock), page[|page| - 1], peer, clock(|page| - 1))
  }

  function ReconcileNext(s: Pulling, item: Row<Deletion>, peer: Identity, t: Instant): Pulling {
    if s.reading.stopped then s
    else Pulling(ReconcileRow(s.reading, item, SplitGrants(s.limiter, peer, t.at)),
                 SplitCharge(s.limiter, true, peer, t.at))
  }

  function ReconcileAll(s: Pulling, page: seq<Row<Deletion>>, peer: Identity, clock: nat -> Instant): Pulling {
    if page == [] then s
    else ReconcileNext(ReconcileAll(s, page[..|page| - 1], peer, clock), page[|page| - 1], peer, clock(|page| - 1))
  }

  lemma {:induction false} PullStopped(cfg: Config, s: Pulling, page: seq<Row<Payload>>, i: nat, peer: Identity,
                                       clock: nat -> Instant)
    requires i <= |page| && PullPage(cfg, s, page[..i], peer, clock).reading.stopped
    ensures PullPage(cfg, s, page, peer, clock) == PullPage(cfg, s, page[..i], peer, clock)
  {
    if i < |page| {
      assert page[..|page| - 1][..i] == page[..i];
      PullStopped(cfg, s, page[..|page| - 1], i, peer, clock);
    } else {
      assert page[..i] == page;
    }
  }

  lemma {:induction false} ReconcileStopped(s: Pulling, page: seq<Row<Deletion>>, i: nat, peer: Identity,
                                            clock: nat -> Instant)
    requires i <= |page| && ReconcileAll(s, page[..i], peer, clock).reading.stopped
    ensures ReconcileAll(s, page, peer, clock) == ReconcileAll(s, page[..i], peer, clock)
  {
    if i < |page| {
      assert page[..|page| - 1][..i] == page[..i];
      ReconcileStopped(s, page[..|page| - 1], i, peer, clock);
    } else {
      assert page[..i] == page;
    }
  }

  lemma PullNone(cfg: Config, s: Pulling, peers: seq<nat>, peer: Identity, clock: nat -> Instant)
    ensures PullPage(cfg, s, [], peer, clock) == s && FanoutAll(peers, []) == []
  {
  }

  lemma PullNext(cfg: Config, s: Pulling, page: seq<Row<Payload>>, i: nat, peer: Identity, clock: nat -> Instant)
    requires i < |page|
    ensures PullPage(cfg, s, page[..i + 1], peer, clock)
         == PullRow(cfg, PullPage(cfg, s, page[..i], peer, clock), page[i], peer, clock(i))
  {
    assert page[..i + 1][..i] == page[..i];
  }

  lemma ReconcileOneMore(s: Pulling, page: seq<Row<Deletion>>, i: nat, peer: Identity, clock: nat -> Instant)
    requires i < |page|
    ensures ReconcileAll(s, page[..i + 1], peer, clock)
         == ReconcileNext(ReconcileAll(s, page[..i], peer, clock), page[i], peer, clock(i))
  {
    assert page[..i + 1][..i] == page[..i];
  }

  // The pushes of a page's new messages, in order.
  function FanoutAll(peers: seq<nat>, payloads: seq<Payload>): seq<(nat, Notice)> {
    if payloads == [] then []
    else FanoutAll(peers, payloads[..|payloads| - 1]) + Fanout(peers, Publishing(payloads[|payloads| - 1]))
  }

  lemma FanoutOneMore(peers: seq<nat>, payloads: seq<Payload>, p: Payload)
    ensures FanoutAll(peers, payloads + [p]) == FanoutAll(peers, payloads) + Fanout(peers, Publishing(p))
  {
    assert (payloads + [p])[..|payloads|] == payloads;
  }

  class AntiEntropySync {
    const db: Database
    const limiter: RateLimiter
    const gossip: GossipContext
    var lastSeenId: map<nat, nat>
    var lastSeenDeletionId: map<nat, nat>

    // Cursors live in memory: a restarted relay reads every log from its start.
    constructor (db: Database, limiter: RateLimiter, gossip: GossipContext)
      ensures this.db == db && this.limiter == limiter && this.gossip == gossip
      ensures lastSeenId == map[] && lastSeenDeletionId == map[]
    {
      this.db := db;
      this.limiter := limiter;
      this.gossip := gossip;
      lastSeenId, lastSeenDeletionId := map[], map[];
    }

    // The gates for one row of a message page; `settled` is false when a rate limit ends it.
    method PullItem(item: Row<Payload>, peer: Identity, t: Instant) returns (settled: bool, accepted: bool)
      requires db.Valid() && limiter.Valid()
      modifies db, gossip, limiter`buckets, limiter.globalBucket, limiter.Objects()
      ensures db.Valid() && limiter.Valid() && fresh(limiter.Objects() - old(limiter.Objects()))
      ensures var was, l := old(db.Model()), old(limiter.Model());
              var (after, outcome) := Offer(db.cfg, was, item.value, SplitGrants(l, peer, t.at), t.now);
              && db.Model() == after && settled == !outcome.Throttled? && accepted == outcome.Accepted?
              && Answers.Answer(db.cfg, was, item.value, SplitGrants(l, peer, t.at), t.now, outcome)
              && limiter.Model() == OfferCharge(db.cfg, was, item.value, l, peer, t.now, t.at)
      ensures !accepted ==> gossip.submitted == old(gossip.submitted)
      ensures accepted ==> gossip.submitted == old(gossip.submitted) + Fanout(gossip.peers, Publishing(item.value))
    {
      hide CheckGlobal, CheckIdentity, RefundGlobal, Validates, HasRoom, FindMessage, Resolve,
        InsertSection, Interleaving.Inv, Answers.Answer;
      var p := item.value;
      AnswerGiven(db.cfg, db.Model(), p, SplitGrants(limiter.Model(), peer, t.at), t.now);
      var known := db.MessageExists(p.signature);
      if known { return true, false; }
      var ok := limiter.CheckGlobal(t.at);
      if !ok { return false, false; }
      var room := db.CheckRecipientQuota(p.recipient);
      if !room { return true, false; }
      if !Validates(db.cfg, p, t.now) { return true, false; }
      ok := limiter.CheckIdentity(peer, t.at);
      if !ok {
        limiter.RefundGlobal();
        return false, false;
      }
      var outcome := Admit(db, gossip, p, t.now);
      return true, outcome.Accepted?;
    }

    ghost function Pulled(start: Db, since: nat, l: Limiter, page: seq<Row<Payload>>, peer: nat,
                          clock: nat -> Instant): Pulling
    {
      PullPage(db.cfg, Pulling(Reading(start, since, false, []), l), page, peer, clock)
    }

    // A failed request, or a page larger than the relay accepts, leaves everything as it
    // was; otherwise the page is read to its end or to the first rate limit, and the cursor
    // is stored.
    method SyncWithPeer(peer: nat, response: Response<Row<Payload>>, clock: nat -> Instant) returns (completed: bool)
      requires db.Valid() && limiter.Valid()
      modifies `lastSeenId, db, gossip, limiter`buckets, limiter.globalBucket, limiter.Objects()
      ensures db.Valid() && limiter.Valid() && fresh(limiter.Objects() - old(limiter.Objects()))
      ensures completed == (response.Rows? && MessagesFit(response.rows))
      ensures !completed ==>
                && lastSeenId == old(lastSeenId) && db.Model() == old(db.Model())
                && limiter.Model() == old(limiter.Model()) && gossip.submitted == old(gossip.submitted)
      ensures completed ==>
                var end := Pulled(old(db.Model()), Cursor(old(lastSeenId), peer), old(limiter.Model()),
                                  response.rows, peer, clock);
                && db.Model() == end.reading.db
                && lastSeenId == old(lastSeenId)[peer := end.reading.maxId]
                && limiter.Model() == end.limiter
                && gossip.submitted == old(gossip.submitted) + FanoutAll(gossip.peers, end.reading.pushed)
    {
      hide MessagesFit, Cursor, Offer, SplitGrants, OfferCharge, Fanout, PullPage, FanoutAll, Interleaving.Inv;
      if response.Failed? || !MessagesFit(response.rows) { return false; }
      var page, sinceId := response.rows, Cursor(lastSeenId, peer);
      var maxId, i := sinceId, 0;
      ghost var start := Pulling(Reading(db.Model(), sinceId, false, []), limiter.Model());
      ghost var pushed: seq<Payload> := [];
      PullNone(db.cfg, start, gossip.peers, peer, clock);
      assert page[..0] == [];
      while i < |page|
        invariant 0 <= i <= |page|
        invariant db.Valid() && limiter.Valid() && fresh(limiter.Objects() - old(limiter.Objects()))
        invariant lastSeenId == old(lastSeenId)
        invariant Pulling(Reading(db.Model(), maxId, false, pushed), limiter.Model())
               == PullPage(db.cfg, start, page[..i], peer, clock)
        invariant gossip.submitted == old(gossip.submitted) + FanoutAll(gossip.peers, pushed)
      {
        PullNext(db.cfg, start, page, i, peer, clock);
        assert pushed + [] == pushed;
        var settled, accepted := PullItem(page[i], peer, clock(i));
        if !settled {
          PullStopped(db.cfg, start, page, i + 1, peer, clock);
          break;
        }
        maxId := Max(maxId, page[i].id);
        if accepted {
          FanoutOneMore(gossip.peers, pushed, page[i].value);
          pushed := pushed + [page[i].value];
        }
        i := i + 1;
      }
      assert page[..|page|] == page;
      lastSeenId := lastSeenId[peer := maxId];
      return true;
    }

    ghost function Reconciled(start: Db, since: nat, l: Limiter, page: seq<Row<Deletion>>, peer: nat,
                              clock: nat -> Instant): Pulling
    {
      ReconcileAll(Pulling(Reading(start, since, false, []), l), page, peer, clock)
    }

    // The same for tombstones, under the same limit on the size of a response.
    method SyncDeletionsWithPeer(peer: nat, response: Response<Row<Deletion>>, clock: nat -> Instant)
      returns (completed: bool)
      requires db.Valid() && limiter.Valid()
      modifies `lastSeenDeletionId, db, limiter`buckets, limiter.globalBucket, limiter.Objects()
      ensures db.Valid() && limiter.Valid() && fresh(limiter.Objects() - old(limiter.Objects()))
      ensures completed == (response.Rows? && DeletionsFit(response.rows))
      ensures !completed ==>
                && lastSeenDeletionId == old(lastSeenDeletionId) && db.Model() == old(db.Model())
                && limiter.Model() == old(limiter.Model())
      ensures completed ==>
                var end := Reconciled(old(db.Model()), Cursor(old(lastSeenDeletionId), peer), old(limiter.Model()),
                                      response.rows, peer, clock);
                && db.Model() == end.reading.db
                && lastSeenDeletionId == old(lastSeenDeletionId)[peer := end.reading.maxId]
                && limiter.Model() == end.limiter
    {
      hide DeletionsFit, Cursor, ReconcileDeletion, CheckGlobal, CheckIdentity, RefundGlobal, Interleaving.Inv;
      if response.Failed? || !DeletionsFit(response.rows) { return false; }
      var page, sinceId := response.rows, Cursor(lastSeenDeletionId, peer);
      var maxId, i := sinceId, 0;
      ghost var start := Pulling(Reading(db.Model(), sinceId, false, []), limiter.Model());
      assert page[..0] == [];
      while i < |page|
        invariant 0 <= i <= |page|
        invariant db.Valid() && limiter.Valid() && fresh(limiter.Objects() - old(limiter.Objects()))
        invariant lastSeenDeletionId == old(lastSeenDeletionId)
        invariant Pulling(Reading(db.Model(), maxId, false, []), limiter.Model())
               == ReconcileAll(start, page[..i], peer, clock)
      {
        ReconcileOneMore(start, page, i, peer, clock);
        var t := clock(i);
        var ok := limiter.CheckGlobal(t.at);
        if !ok {
          ReconcileStopped(start, page, i + 1, peer, clock);
          break;
        }
        ok := limiter.CheckIdentity(peer, t.at);
        if !ok {
          limiter.RefundGlobal();
          ReconcileStopped(start, page, i + 1, peer, clock);
          break;
        }
        maxId := Max(maxId, page[i].id);
        db.ReconcileTombstone(page[i].value);
        i := i + 1;
      }
      assert page[..|page|] == page;
      lastSeenDeletionId := lastSeenDeletionId[peer := maxId];
      return true;
    }
  }
}
