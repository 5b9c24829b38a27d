// The POST handlers of the two listeners: what each does to the tables, to its rate limiter
// and to the push queue, gate by gate. What a request costs the limiter is stated exactly.
module RelayHandlers {
  import opened Protocol
  import opened Store
  import opened RateLimit
  import opened RateLimiterClass
  import opened RelayDatabase
  import Answers
  import Interleaving
  import Quota

  // --- What the limiter answers, and what it is charged ---

  // The answers of check_global and then check_identity.
  function SplitGrants(l: Limiter, id: Identity, at: real): Grants {
    var (charged, granted) := CheckGlobal(l, at);
    Grants(granted, CheckIdentity(charged, id, at).1)
  }

  // check_identity for a request already granted globally, which is refunded on failure.
  function ChargeIdentity(l: Limiter, id: Identity, at: real): Limiter {
    var (charged, granted) := CheckIdentity(l, id, at);
    if granted then charged else RefundGlobal(charged)
  }

  // The limiter after a request that reaches the identity check if `screened`.
  function SplitCharge(l: Limiter, screened: bool, id: Identity, at: real): Limiter {
    var (charged, granted) := CheckGlobal(l, at);
    if granted && screened then ChargeIdentity(charged, id, at) else charged
  }

  // The limiter after an offered message: a duplicate is free, and only a message with room
  // and a valid signature is charged to its sender.
  function OfferCharge(cfg: Config, db: Db, p: Payload, l: Limiter, id: Identity, now: int, at: real): Limiter {
    if FindMessage(db.messages.rows, p.signature).Some? then l
    else SplitCharge(l, HasRoom(cfg, db, p.recipient) && Validates(cfg, p, now), id, at)
  }

  // A request that passes every other check is charged like one call of allow, so a split
  // check and a combined one obey the same bounds.
  lemma SplitIsAllow(l: Limiter, id: Identity, at: real)
    ensures SplitCharge(l, true, id, at) == Allow(l, id, at).0
    ensures var g := SplitGrants(l, id, at);
            (g.global && g.identity) == Allow(l, id, at).1
  {
  }

  // No one can spend another's budget by naming it as the sender: a message it did not
  // sign changes neither the tables nor any identity's bucket, and takes at most one token
  // from the global one.
  lemma SpoofingSpendsNothing(cfg: Config, db: Db, p: Payload, l: Limiter, now: int, at: real)
    requires !(p.signature.Genuine? && p.signature.sender == p.sender)
    ensures var l' := OfferCharge(cfg, db, p, l, p.sender.id, now, at);
            && Offer(cfg, db, p, SplitGrants(l, p.sender.id, at), now).0 == db
            && l'.pool == l.pool
            && (l' == l || l' == CheckGlobal(l, at).0)
  {
  }

  // What a message costs, by the answer it gets: a duplicate nothing; one refused for its
  // recipient or for itself the global token alone; any other what allow would charge.
  lemma OfferCost(cfg: Config, db: Db, p: Payload, l: Limiter, id: Identity, now: int, at: real)
    requires Interleaving.Inv(cfg, db)
    ensures var l', outcome := OfferCharge(cfg, db, p, l, id, now, at),
                               Offer(cfg, db, p, SplitGrants(l, id, at), now).1;
            match outcome
            case Known => l' == l
            case OverQuota => CheckGlobal(l, at) == (l', true)
            case Invalid => CheckGlobal(l, at) == (l', true)
            case Throttled => Allow(l, id, at) == (l', false)
            case Discarded => Allow(l, id, at) == (l', true)
            case Accepted => Allow(l, id, at) == (l', true)
  {
    hide CheckGlobal, CheckIdentity, RefundGlobal, Interleaving.Inv, Answers.Holds, Answers.Room, Answers.Proper,
      Answers.Buried, Answers.Claimed, HasRoom, Validates, FindMessage, Offer;
    AnswerGiven(cfg, db, p, SplitGrants(l, id, at), now);
    Answers.HoldsIff(db, p.signature);
    Answers.ProperIff(cfg, p, now);
    RoomIff(cfg, db, p.recipient);
  }

  lemma RoomIff(cfg: Config, db: Db, recipient: RecipientId)
    requires Interleaving.Inv(cfg, db)
    ensures Answers.Room(cfg, db, recipient) <==> HasRoom(cfg, db, recipient)
  {
    Quota.HasRoomIff(cfg, db, recipient);
  }

  // --- The handlers ---

  class RelayHandler {
    const db: Database
    const limiter: RateLimiter
    const gossip: GossipContext

    constructor (db: Database, limiter: RateLimiter, gossip: GossipContext)
      ensures this.db == db && this.limiter == limiter && this.gossip == gossip
    {
      this.db := db;
      this.limiter := limiter;
      this.gossip := gossip;
    }

    // POST /publish; `now` and `at` read the wall clock and the monotonic clock.
    method DoPublish(p: Payload, now: int, at: real) returns (outcome: Outcome)
      requires db.Valid() && limiter.Valid()
      modifies db, gossip, limiter`buckets, limiter.globalBucket, limiter.Objects()
      ensures db.Valid() && limiter.Valid() && fresh(limiter.Objects() - old(limiter.Objects()))
      ensures var was, l := old(db.Model()), old(limiter.Model());
              && (db.Model(), outcome) == Offer(db.cfg, was, p, SplitGrants(l, p.sender.id, at), now)
              && limiter.Model() == OfferCharge(db.cfg, was, p, l, p.sender.id, now, at)
              && Answers.Answer(db.cfg, was, p, SplitGrants(l, p.sender.id, at), now, outcome)
      ensures gossip.submitted == old(gossip.submitted)
                                  + if outcome.Accepted? then Fanout(gossip.peers, Publishing(p)) else []
    {
      hide CheckGlobal, CheckIdentity, RefundGlobal, Validates, HasRoom, FindMessage, Candidates, Answers.Answer;
      AnswerGiven(db.cfg, db.Model(), p, SplitGrants(limiter.Model(), p.sender.id, at), now);
      var known := db.MessageExists(p.signature);
      if known { return Known; }
      var ok := limiter.CheckGlobal(at);
      if !ok { return Throttled; }
      var room := db.CheckRecipientQuota(p.recipient);
      if !room { return OverQuota; }
      if !Validates(db.cfg, p, now) { return Invalid; }
      ok := limiter.CheckIdentity(p.sender.id, at);
      if !ok {
        limiter.RefundGlobal();
        return Throttled;
      }
      outcome := Admit(db, gossip, p, now);
    }

    // POST /delete.
    method DoDelete(q: DeleteRequest, now: int, at: real) returns (didConfirm: bool)
      requires db.Valid() && limiter.Valid()
      modifies db, gossip, limiter`buckets, limiter.globalBucket, limiter.Objects()
      ensures db.Valid() && limiter.Valid() && fresh(limiter.Objects() - old(limiter.Objects()))
      ensures var was, l := old(db.Model()), old(limiter.Model());
              var g := SplitGrants(l, q.requester.id, at);
              && limiter.Model() == SplitCharge(l, q.authentic, q.requester.id, at)
              && (db.Model(), didConfirm) ==
                   if g.global && q.authentic && g.identity then HandleDelete(db.cfg, was, q, now) else (was, false)
      ensures gossip.submitted == old(gossip.submitted) + if didConfirm then Fanout(gossip.peers, Deleting(q)) else []
    {
      hide CheckGlobal, CheckIdentity, RefundGlobal, HandleDelete;
      var ok := limiter.CheckGlobal(at);
      if !ok || !q.authentic { return false; }
      ok := limiter.CheckIdentity(q.requester.id, at);
      if !ok {
        limiter.RefundGlobal();
        return false;
      }
      didConfirm := db.HandleDeleteRequest(q, now);
      if didConfirm { gossip.ScheduleFanout(Deleting(q)); }
    }
  }

  class GossipHandler {
    const db: Database
    const limiter: RateLimiter
    const gossip: GossipContext

    constructor (db: Database, limiter: RateLimiter, gossip: GossipContext)
      ensures this.db == db && this.limiter == limiter && this.gossip == gossip
    {
      this.db := db;
      this.limiter := limiter;
      this.gossip := gossip;
    }

    // POST /gossip/publish; the peer is known from its certificate before anything is read.
    method DoPublish(p: Payload, peer: Identity, now: int, at: real) returns (outcome: Outcome)
      requires db.Valid() && limiter.Valid()
      modifies db, gossip, limiter`buckets, limiter.globalBucket, limiter.Objects()
      ensures db.Valid() && limiter.Valid() && fresh(limiter.Objects() - old(limiter.Objects()))
      ensures var was, l := old(db.Model()), old(limiter.Model());
              && (db.Model(), outcome) == Offer(db.cfg, was, p, Grants(Allow(l, peer, at).1, true), now)
              && Answers.Answer(db.cfg, was, p, Grants(Allow(l, peer, at).1, true), now, outcome)
              && limiter.Model() == if FindMessage(was.messages.rows, p.signature).Some? then l
                                    else Allow(l, peer, at).0
      ensures gossip.submitted == old(gossip.submitted)
                                  + if outcome.Accepted? then Fanout(gossip.peers, Publishing(p)) else []
    {
      hide Allow, Validates, HasRoom, FindMessage, Candidates, Answers.Answer;
      AnswerGiven(db.cfg, db.Model(), p, Grants(Allow(limiter.Model(), peer, at).1, true), now);
      var known := db.MessageExists(p.signature);
      if known { return Known; }
      var ok := limiter.Allow(peer, at);
      if !ok { return Throttled; }
      var room := db.CheckRecipientQuota(p.recipient);
      if !room { return OverQuota; }
      if !Validates(db.cfg, p, now) { return Invalid; }
      outcome := Admit(db, gossip, p, now);
    }

    // POST /gossip/delete.
    method DoDelete(q: DeleteRequest, peer: Identity, now: int, at: real) returns (didConfirm: bool)
      requires db.Valid() && limiter.Valid()
      modifies db, gossip, limiter`buckets, limiter.globalBucket, limiter.Objects()
      ensures db.Valid() && limiter.Valid() && fresh(limiter.Objects() - old(limiter.Objects()))
      ensures var was, l := old(db.Model()), old(limiter.Model());
              && limiter.Model() == Allow(l, peer, at).0
              && (db.Model(), didConfirm) ==
                   if Allow(l, peer, at).1 && q.authentic then HandleDelete(db.cfg, was, q, now) else (was, false)
      ensures gossip.submitted == old(gossip.submitted) + if didConfirm then Fanout(gossip.peers, Deleting(q)) else []
    {
      hide Allow, HandleDelete;
      var ok := limiter.Allow(peer, at);
      if !ok || !q.authentic { return false; }
      didConfirm := db.HandleDeleteRequest(q, now);
      if didConfirm { gossip.ScheduleFanout(Deleting(q)); }
    }
  }

  lemma AnswerGiven(cfg: Config, db: Db, p: Payload, g: Grants, now: int)
    requires Interleaving.Inv(cfg, db)
    ensures Answers.Answer(cfg, db, p, g, now, Offer(cfg, db, p, g, now).1)
  {
    Answers.OutcomeIff(cfg, db, p, g, now, Offer(cfg, db, p, g, now).1);
  }

  // The last two sections, common to every way a message arrives.
  method Admit(db: Database, gossip: GossipContext, p: Payload, now: int) returns (outcome: Outcome)
    requires db.Valid() && FindMessage(db.messages, p.signature).None?
    requires HasRoom(db.cfg, db.Model(), p.recipient) && Validates(db.cfg, p, now)
    modifies db, gossip
    ensures db.Valid()
    ensures (db.Model(), outcome) == Offer(db.cfg, old(db.Model()), p, Grants(true, true), now)
    ensures !outcome.Throttled?
    ensures gossip.submitted == old(gossip.submitted)
                                + if outcome.Accepted? then Fanout(gossip.peers, Publishing(p)) else []
  {
    hide Validates, HasRoom, FindMessage, Resolve;
    var discard := db.ResolveDeletionRequest(p.signature, p.recipient, now);
    if discard { return Discarded; }
    var isNew, _, quotaExceeded := db.InsertMessageAndMaybeGossip(p, gossip);
    outcome := if quotaExceeded then OverQuota else if isNew then Accepted else Known;
  }
}
