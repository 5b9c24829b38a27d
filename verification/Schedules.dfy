// Whole schedules of one relay's interleaved handlers: exactly when the tables stay
// disjoint, exactly when a deleted message stays deleted, and what a schedule must keep to
// between a handler's sections for that.
module Schedules {
  import opened Protocol
  import opened Tables
  import opened Store
  import opened Interleaving

  // The state after the first n events.
  function At(cfg: Config, start: int, events: seq<Event>, n: nat): State
    requires n <= |events|
  {
    After(cfg, start, events[..n])
  }

  lemma NextState(cfg: Config, start: int, events: seq<Event>, n: nat)
    requires n < |events|
    ensures At(cfg, start, events, n + 1) == Apply(cfg, At(cfg, start, events, n), events[n])
  {
    assert events[..n + 1][..n] == events[..n];
  }

  // The handler an event advances.
  function Runs(s: State, e: Event): Handler {
    if e.Advance? && e.handler < |s.handlers| then s.handlers[e.handler] else Finished
  }

  // Any event changes the database by the section it runs, if it runs one.
  lemma RunsSection(cfg: Config, s: State, e: Event)
    ensures Apply(cfg, s, e).db == Section(cfg, s.db, s.clock, Runs(s, e)).0
    ensures s.clock <= Apply(cfg, s, e).clock
  {
  }

  // --- Disjointness ---

  // An insert with room for its message overtakes a deletion request for it.
  ghost predicate Overtakes(cfg: Config, s: State, e: Event) {
    var h := Runs(s, e);
    h.Cleared? && HasRoom(cfg, s.db, h.p.recipient) && Overtaken(s.db, h)
  }

  lemma StepDisjointIff(cfg: Config, s: State, e: Event)
    requires Disjoint(s.db)
    ensures Disjoint(Apply(cfg, s, e).db) <==> !Overtakes(cfg, s, e)
  {
    hide Disjoint, Section, Apply;
    RunsSection(cfg, s, e);
    var h := Runs(s, e);
    if h.Cleared? { InsertDisjointIff(cfg, s.db, s.clock, h.p); } else { OtherSectionsDisjoint(cfg, s.db, s.clock, h); }
  }

  lemma {:induction false} DisjointWithout(cfg: Config, start: int, events: seq<Event>, n: nat)
    requires n <= |events|
    requires forall i: nat | i < n :: !Overtakes(cfg, At(cfg, start, events, i), events[i])
    ensures Disjoint(At(cfg, start, events, n).db)
  {
    hide Overtakes, Apply;
    if n > 0 {
      DisjointWithout(cfg, start, events, n - 1);
      NextState(cfg, start, events, n - 1);
      StepDisjointIff(cfg, At(cfg, start, events, n - 1), events[n - 1]);
    }
  }

  // A schedule keeps the tables disjoint throughout if and only if no insert in it overtakes
  // a deletion request.
  lemma DisjointIff(cfg: Config, start: int, events: seq<Event>)
    ensures (forall n: nat | n <= |events| :: Disjoint(At(cfg, start, events, n).db))
       <==> (forall n: nat | n < |events| :: !Overtakes(cfg, At(cfg, start, events, n), events[n]))
  {
    hide Disjoint, Overtakes, Apply, At;
    if forall n: nat | n < |events| :: !Overtakes(cfg, At(cfg, start, events, n), events[n]) {
      forall n: nat | n <= |events| ensures Disjoint(At(cfg, start, events, n).db) {
        DisjointWithout(cfg, start, events, n);
      }
    }
    if forall n: nat | n <= |events| :: Disjoint(At(cfg, start, events, n).db) {
      forall n: nat | n < |events| ensures !Overtakes(cfg, At(cfg, start, events, n), events[n]) {
        NextState(cfg, start, events, n);
        assert Disjoint(At(cfg, start, events, n).db) && Disjoint(At(cfg, start, events, n + 1).db);
        StepDisjointIff(cfg, At(cfg, start, events, n), events[n]);
      }
    }
  }

  // --- No resurrection, exactly ---

  ghost predicate EverConfirmed(cfg: Config, start: int, events: seq<Event>, n: nat, s: Signature)
    requires n <= |events|
  {
    exists i: nat | i <= n :: s in Confirmed(At(cfg, start, events, i).db)
  }

  // An insert with room for its message, once confirmed deleted here.
  ghost predicate Revives(cfg: Config, start: int, events: seq<Event>, n: nat)
    requires n < |events|
  {
    var s := At(cfg, start, events, n);
    var h := Runs(s, events[n]);
    h.Cleared? && HasRoom(cfg, s.db, h.p.recipient) && EverConfirmed(cfg, start, events, n, h.p.signature)
  }

  ghost predicate NeverResurrects(cfg: Config, start: int, events: seq<Event>) {
    forall i: nat, j: nat, s | i <= j <= |events| && s in Confirmed(At(cfg, start, events, i).db) ::
      s !in Stored(At(cfg, start, events, j).db)
  }

  // Only an insert with room stores, and what a section confirms it removes.
  lemma SectionStores(cfg: Config, db: Db, clock: int, h: Handler, s: Signature)
    ensures var db' := Section(cfg, db, clock, h).0;
            && (s in Stored(db') && s !in Stored(db) ==>
                  && h.Cleared? && h.p.signature == s && HasRoom(cfg, db, h.p.recipient)
                  && Confirmed(db') == Confirmed(db))
            && (s in Confirmed(db') && s !in Confirmed(db) ==> s !in Stored(db'))
            && (h.Cleared? && HasRoom(cfg, db, h.p.recipient) ==> h.p.signature in Stored(db'))
  {
    hide Stored, Confirmed, Pending, Candidates, HasRoom;
    match h
    case Claimed(p, claim, matched) =>
      ConfirmationContents(db, Deletion(claim.target, claim.requester, p.recipient, true, clock));
      WithoutDeletionContents(db, claim.target);
      SameStored(db, ResolveWrite(db, claim, p.recipient, false, clock));
    case Cleared(p) =>
      InsertionContents(db, p);
      FindsStored(db, p.signature);
      SameTombstones(db, InsertSection(cfg, db, p).0);
    case Requesting(q, candidates, at) => RequestStores(db, q, candidates, at);
    case Reconciling(d) => ConfirmationContents(db, d.(confirmed := true));
    case Sweeping(at) => SweepShrinks(cfg, db, at);
    case _ =>
  }

  lemma RequestStores(db: Db, q: DeleteRequest, candidates: seq<RecipientId>, at: int)
    ensures var db' := DeleteSection(db, q, candidates, at).0;
            && Stored(db') <= Stored(db)
            && forall s | s in Confirmed(db') && s !in Confirmed(db) :: s !in Stored(db')
  {
    hide Stored, Confirmed, Pending, Candidates;
    match FindMessage(db.messages.rows, q.target)
    case Some(p) => ConfirmationContents(db, Deletion(q.target, q.requester, p.recipient, true, at));
    case None =>
      AppendDeletionContents(db, Deletion(q.target, q.requester, Blank, false, at));
      SameStored(db, AddPending(db, q.target, q.requester, at));
  }

  lemma SameStored(a: Db, b: Db)
    requires a.messages.rows == b.messages.rows
    ensures Stored(a) == Stored(b)
  {
  }

  lemma SweepShrinks(cfg: Config, db: Db, at: int)
    ensures Stored(Sweep(cfg, db, at)) <= Stored(db) && Confirmed(Sweep(cfg, db, at)) <= Confirmed(db)
  {
  }

  lemma {:induction false} DeadWithout(cfg: Config, start: int, events: seq<Event>, n: nat, s: Signature)
    requires n <= |events| && EverConfirmed(cfg, start, events, n, s)
    requires forall i: nat | i < n :: !Revives(cfg, start, events, i)
    ensures s !in Stored(At(cfg, start, events, n).db)
  {
    hide Apply, Section, After, HasRoom, Stored, Confirmed;
    if n == 0 {
      NothingAtFirst(cfg, start, events);
    } else {
      var before, e := At(cfg, start, events, n - 1), events[n - 1];
      NextState(cfg, start, events, n - 1);
      RunsSection(cfg, before, e);
      SectionStores(cfg, before.db, before.clock, Runs(before, e), s);
      assert !Revives(cfg, start, events, n - 1);
      if EverConfirmed(cfg, start, events, n - 1, s) { DeadWithout(cfg, start, events, n - 1, s); }
    }
  }

  lemma NothingAtFirst(cfg: Config, start: int, events: seq<Event>)
    ensures Stored(At(cfg, start, events, 0).db) == {}
  {
  }

  // A schedule never stores again what it has confirmed deleted if and only if none of its
  // inserts finds room for a message confirmed deleted before.
  lemma NoResurrectionIff(cfg: Config, start: int, events: seq<Event>)
    ensures NeverResurrects(cfg, start, events) <==> forall n: nat | n < |events| :: !Revives(cfg, start, events, n)
  {
    hide Apply, Section, After, At, HasRoom, Stored, Confirmed;
    if forall n: nat | n < |events| :: !Revives(cfg, start, events, n) {
      forall i: nat, j: nat, s | i <= j <= |events| && s in Confirmed(At(cfg, start, events, i).db)
        ensures s !in Stored(At(cfg, start, events, j).db)
      {
        DeadWithout(cfg, start, events, j, s);
      }
    }
    if n: nat :| n < |events| && Revives(cfg, start, events, n) {
      var before := At(cfg, start, events, n);
      var s := Runs(before, events[n]).p.signature;
      NextState(cfg, start, events, n);
      RunsSection(cfg, before, events[n]);
      SectionStores(cfg, before.db, before.clock, Runs(before, events[n]), s);
      var i: nat :| i <= n && s in Confirmed(At(cfg, start, events, i).db);
      assert s in Stored(At(cfg, start, events, n + 1).db);
    }
  }

  // Disjoint tables are not enough: a message is cleared for insertion, a tombstone for it is
  // applied, time passes, a sweep reaps the tombstone, and only then the message is inserted.
  function ReapRace(p: Payload, d: Deletion, elapsed: nat): seq<Event> {
    Race(p, d)[..6] + [Wait(elapsed), CleanUp, Advance(2), Advance(0)]
  }

  lemma ReapedState(cfg: Config, start: int, p: Payload, d: Deletion, elapsed: nat)
    requires Validates(cfg, p, start) && HasRoom(cfg, EMPTY, p.recipient) && d.confirmed
    requires d.requestedAt + cfg.maxTtl * SECOND <= start + elapsed
    ensures var s := At(cfg, start, ReapRace(p, d, elapsed), 9);
            && s.db.messages == EMPTY.messages && s.db.deletions.rows == []
            && s.handlers == [Cleared(p), Finished, Finished]
  {
    hide Validates, HasRoom, Select;
    var events, tombstoned := ReapRace(p, d, elapsed), ApplyConfirmed(EMPTY, d);
    RaceTombstones(cfg, start, p, d);
    assert events[..6] == Race(p, d)[..6];
    NextState(cfg, start, events, 6);
    NextState(cfg, start, events, 7);
    NextState(cfg, start, events, 8);
    var late := start + elapsed;
    assert At(cfg, start, events, 8) == State(tombstoned, late, [Cleared(p), Finished, Sweeping(late)]);
    SweptEmpty(cfg, d, late);
  }

  lemma SweptEmpty(cfg: Config, d: Deletion, now: int)
    requires d.requestedAt + cfg.maxTtl * SECOND <= now
    ensures var db := Sweep(cfg, ApplyConfirmed(EMPTY, d), now);
            db.messages == EMPTY.messages && db.deletions.rows == []
  {
    assert [Row(1, d)][..0] == [];
  }

  lemma ReapResurrects(cfg: Config, start: int, p: Payload, d: Deletion, elapsed: nat)
    requires Validates(cfg, p, start) && HasRoom(cfg, EMPTY, p.recipient)
    requires d.confirmed && d.target == p.signature && d.requestedAt + cfg.maxTtl * SECOND <= start + elapsed
    ensures var events := ReapRace(p, d, elapsed);
            && p.signature in Confirmed(At(cfg, start, events, 6).db)
            && (forall n: nat | n < 10 :: !Overtakes(cfg, At(cfg, start, events, n), events[n]))
            && p.signature in Stored(At(cfg, start, events, 10).db)
  {
    hide Validates, At, Apply, HasRoom, Stored, Confirmed;
    var events := ReapRace(p, d, elapsed);
    RaceTombstones(cfg, start, p, d);
    ConfirmationContents(EMPTY, d);
    assert events[..6] == Race(p, d)[..6];
    assert At(cfg, start, events, 6).db == ApplyConfirmed(EMPTY, d) by { AtIs(cfg, start, events, 6); }
    ReapedState(cfg, start, p, d, elapsed);
    var before := At(cfg, start, events, 9);
    NextState(cfg, start, events, 9);
    RunsSection(cfg, before, events[9]);
    SameRoom(cfg, EMPTY, before.db, p.recipient);
    SectionStores(cfg, before.db, before.clock, Cleared(p), p.signature);
    NoDeletions(before.db);
    forall n: nat | n < 10 ensures !Overtakes(cfg, At(cfg, start, events, n), events[n]) {
      if n < 9 { EarlyStepsClear(cfg, start, p, d, elapsed, n); }
    }
  }

  lemma AtIs(cfg: Config, start: int, events: seq<Event>, n: nat)
    requires n <= |events|
    ensures At(cfg, start, events, n) == After(cfg, start, events[..n])
  {
  }

  lemma SameRoom(cfg: Config, a: Db, b: Db, recipient: RecipientId)
    requires a.messages == b.messages
    ensures HasRoom(cfg, a, recipient) == HasRoom(cfg, b, recipient)
  {
  }

  lemma NoDeletions(db: Db)
    requires db.deletions.rows == []
    ensures Confirmed(db) == {} && Pending(db) == {}
  {
  }

  // Before the insert no handler of the race runs an insert.
  lemma EarlyStepsClear(cfg: Config, start: int, p: Payload, d: Deletion, elapsed: nat, n: nat)
    requires Validates(cfg, p, start) && HasRoom(cfg, EMPTY, p.recipient) && d.confirmed && n < 9
    ensures var events := ReapRace(p, d, elapsed);
            !Overtakes(cfg, At(cfg, start, events, n), events[n])
  {
    hide Validates, HasRoom, Section, Overtaken, After;
    var events := ReapRace(p, d, elapsed);
    if n < 4 {
      EarlyHandlers(cfg, start, p, d, n);
      assert events[..n] == Race(p, d)[..n];
    } else if n == 5 {
      RaceClears(cfg, start, p, d);
      assert events[..4] == Race(p, d)[..4];
      NextState(cfg, start, events, 4);
    } else if n == 8 {
      RaceTombstones(cfg, start, p, d);
      assert events[..6] == Race(p, d)[..6];
      NextState(cfg, start, events, 6);
      NextState(cfg, start, events, 7);
    }
  }

  lemma EarlyHandlers(cfg: Config, start: int, p: Payload, d: Deletion, n: nat)
    requires Validates(cfg, p, start) && HasRoom(cfg, EMPTY, p.recipient) && n < 4
    ensures !Runs(After(cfg, start, Race(p, d)[..n]), Race(p, d)[n]).Cleared?
  {
    hide Section;
    ClearingSections(cfg, start, p);
    if n > 0 { RaceStep(cfg, start, p, d, 0); }
    if n > 1 { RaceStep(cfg, start, p, d, 1); }
    if n > 2 { RaceStep(cfg, start, p, d, 2); }
  }

  // --- What a schedule must keep to ---

  // Event v validates the message of handler k.
  ghost predicate ValidatedAt(cfg: Config, start: int, events: seq<Event>, v: nat, k: nat, p: Payload)
    requires v < |events|
  {
    var s := At(cfg, start, events, v);
    && events[v] == Advance(k) && k < |s.handlers| && s.handlers[k] == Unknown(p)
    && HasRoom(cfg, s.db, p.recipient) && Validates(cfg, p, s.clock)
  }

  // A tombstone that cannot be reaped before its message has expired.
  predicate Aged(cfg: Config, d: Deletion) {
    d.target.Genuine? ==> d.target.expiry.expiresAt <= d.requestedAt + cfg.maxTtl * SECOND
  }

  // What event n must keep to. A peer's tombstone is aged, and so is the tombstone a delete
  // request writes with the time at which it arrived; no claim found unmatched is written
  // after its target was confirmed; and between the validation of a message and its insert
  // it is at no time confirmed deleted, reaped again or not.
  ghost predicate Orderly(cfg: Config, start: int, events: seq<Event>, n: nat)
    requires n < |events|
  {
    var s := At(cfg, start, events, n);
    && (events[n].Pull? ==> Aged(cfg, events[n].d))
    && match Runs(s, events[n])
       case Requesting(q, candidates, at) =>
         forall row | row in s.db.messages.rows && row.value.signature == q.target
                      && row.value.recipient in candidates ::
           row.value.expiry.expiresAt <= at + cfg.maxTtl * SECOND
       case Claimed(p, claim, matched) => matched || claim.target !in Confirmed(s.db)
       case Cleared(p) =>
         HasRoom(cfg, s.db, p.recipient) ==>
           forall v: nat, i: nat | v < i <= n && ValidatedAt(cfg, start, events, v, events[n].handler, p) ::
             p.signature !in Confirmed(At(cfg, start, events, i).db)
       case _ => true
  }

  ghost predicate SoundPayload(cfg: Config, clock: int, p: Payload) {
    Verifies(p) && p.expiry.expiresAt <= clock + cfg.maxTtl * SECOND
  }

  ghost predicate SoundHandler(cfg: Config, clock: int, h: Handler) {
    match h
    case Valid(p) => SoundPayload(cfg, clock, p)
    case Claimed(p, claim, _) => SoundPayload(cfg, clock, p) && claim.target == p.signature
    case Cleared(p) => SoundPayload(cfg, clock, p)
    case Reconciling(d) => Aged(cfg, d)
    case Sweeping(at) => at <= clock
    case _ => true
  }

  ghost predicate SoundTables(cfg: Config, db: Db, clock: int) {
    && (forall row | row in db.messages.rows :: SoundPayload(cfg, clock, row.value))
    && (forall row | row in db.deletions.rows && row.value.confirmed :: Aged(cfg, row.value))
  }

  ghost predicate Sound(cfg: Config, s: State) {
    SoundTables(cfg, s.db, s.clock) && forall h | h in s.handlers :: SoundHandler(cfg, s.clock, h)
  }

  // The part of Orderly that speaks of one section alone.
  ghost predicate OrderlySection(cfg: Config, db: Db, h: Handler) {
    match h
    case Requesting(q, candidates, at) =>
      forall row | row in db.messages.rows && row.value.signature == q.target && row.value.recipient in candidates ::
        row.value.expiry.expiresAt <= at + cfg.maxTtl * SECOND
    case Claimed(p, claim, matched) => matched || claim.target !in Confirmed(db)
    case _ => true
  }

  lemma SectionSound(cfg: Config, db: Db, clock: int, h: Handler)
    requires SoundTables(cfg, db, clock) && SoundHandler(cfg, clock, h) && OrderlySection(cfg, db, h)
    ensures var (db', h') := Section(cfg, db, clock, h);
            SoundTables(cfg, db', clock) && SoundHandler(cfg, clock, h')
  {
    hide HasRoom, Candidates, Confirmed;
    match h
    case Requesting(q, candidates, at) => RequestSound(cfg, db, clock, q, candidates, at);
    case _ =>
  }

  lemma RequestSound(cfg: Config, db: Db, clock: int, q: DeleteRequest, candidates: seq<RecipientId>, at: int)
    requires SoundTables(cfg, db, clock)
    requires forall row | row in db.messages.rows && row.value.signature == q.target
                          && row.value.recipient in candidates ::
               row.value.expiry.expiresAt <= at + cfg.maxTtl * SECOND
    ensures SoundTables(cfg, DeleteSection(db, q, candidates, at).0, clock)
  {
    hide Candidates;
    match FindMessage(db.messages.rows, q.target)
    case Some(p) =>
      var row :| row in db.messages.rows && row.value == p;
      assert SoundPayload(cfg, clock, row.value);
    case None =>
  }

  lemma LaterSound(cfg: Config, s: State, clock: int)
    requires Sound(cfg, s) && s.clock <= clock
    ensures Sound(cfg, s.(clock := clock))
  {
  }

  lemma StepSound(cfg: Config, s: State, e: Event)
    requires Sound(cfg, s) && OrderlySection(cfg, s.db, Runs(s, e)) && (e.Pull? ==> Aged(cfg, e.d))
    ensures Sound(cfg, Apply(cfg, s, e))
  {
    hide Section, SoundTables, OrderlySection;
    match e
    case Wait(elapsed) => LaterSound(cfg, s, s.clock + elapsed);
    case Advance(k) =>
      if k < |s.handlers| {
        assert s.handlers[k] in s.handlers;
        SectionSound(cfg, s.db, s.clock, s.handlers[k]);
      }
    case _ =>
  }

  ghost predicate AllOrderly(cfg: Config, start: int, events: seq<Event>) {
    forall n: nat | n < |events| :: Orderly(cfg, start, events, n)
  }

  lemma OrderlyAlone(cfg: Config, start: int, events: seq<Event>, n: nat)
    requires n < |events| && Orderly(cfg, start, events, n)
    ensures OrderlySection(cfg, At(cfg, start, events, n).db, Runs(At(cfg, start, events, n), events[n]))
    ensures events[n].Pull? ==> Aged(cfg, events[n].d)
  {
  }

  lemma {:induction false} SoundThroughout(cfg: Config, start: int, events: seq<Event>, n: nat)
    requires n <= |events| && AllOrderly(cfg, start, events)
    ensures Sound(cfg, At(cfg, start, events, n))
  {
    hide Apply, Orderly, OrderlySection;
    if n > 0 {
      SoundThroughout(cfg, start, events, n - 1);
      NextState(cfg, start, events, n - 1);
      assert Orderly(cfg, start, events, n - 1);
      OrderlyAlone(cfg, start, events, n - 1);
      StepSound(cfg, At(cfg, start, events, n - 1), events[n - 1]);
    }
  }

  // An aged tombstone is lost only once its message has expired.
  lemma TombstoneLasts(cfg: Config, s: State, e: Event, x: Signature)
    requires Sound(cfg, s) && OrderlySection(cfg, s.db, Runs(s, e)) && x in Confirmed(s.db)
    ensures x in Confirmed(Apply(cfg, s, e).db) || (x.Genuine? ==> x.expiry.expiresAt <= s.clock)
  {
    hide Section, Apply;
    RunsSection(cfg, s, e);
    var h := Runs(s, e);
    if h.Sweeping? {
      assert h in s.handlers;
      ReapedExpired(cfg, s.db, s.clock, h.at, x);
      assert Section(cfg, s.db, s.clock, h).0 == Sweep(cfg, s.db, h.at) by { SweepsNow(cfg, s.db, s.clock, h.at); }
    } else {
      TombstonesKept(cfg, s.db, s.clock, h);
    }
  }

  lemma SweepsNow(cfg: Config, db: Db, clock: int, at: int)
    ensures Section(cfg, db, clock, Sweeping(at)).0 == Sweep(cfg, db, at)
  {
  }

  lemma ReapedExpired(cfg: Config, db: Db, clock: int, at: int, x: Signature)
    requires SoundTables(cfg, db, clock) && at <= clock && x in Confirmed(db)
    ensures x in Confirmed(Sweep(cfg, db, at)) || (x.Genuine? ==> x.expiry.expiresAt <= clock)
  {
    var row :| row in db.deletions.rows && row.value.confirmed && row.value.target == x;
    assert Aged(cfg, row.value);
    assert row in Sweep(cfg, db, at).deletions.rows || row.value.requestedAt <= at - cfg.maxTtl * SECOND;
  }

  lemma {:induction false} ConfirmedLasts(cfg: Config, start: int, events: seq<Event>, i: nat, n: nat, x: Signature)
    requires i <= n <= |events| && AllOrderly(cfg, start, events) && x in Confirmed(At(cfg, start, events, i).db)
    ensures x in Confirmed(At(cfg, start, events, n).db)
         || (x.Genuine? ==> x.expiry.expiresAt <= At(cfg, start, events, n).clock)
    decreases n - i
  {
    hide Apply, Orderly, OrderlySection, Sound, Confirmed;
    if i < n {
      var s, e := At(cfg, start, events, n - 1), events[n - 1];
      ConfirmedLasts(cfg, start, events, i, n - 1, x);
      NextState(cfg, start, events, n - 1);
      RunsSection(cfg, s, e);
      SoundThroughout(cfg, start, events, n - 1);
      assert Orderly(cfg, start, events, n - 1);
      OrderlyAlone(cfg, start, events, n - 1);
      if x in Confirmed(s.db) { TombstoneLasts(cfg, s, e, x); }
    }
  }

  predicate PastValidation(h: Handler, p: Payload) {
    (h.Valid? && h.p == p) || (h.Claimed? && h.p == p) || (h.Cleared? && h.p == p)
  }

  // A handler past validation was validated.
  lemma {:induction false} WasValidated(cfg: Config, start: int, events: seq<Event>, n: nat, k: nat, p: Payload)
    requires n <= |events| && k < |At(cfg, start, events, n).handlers|
    requires PastValidation(At(cfg, start, events, n).handlers[k], p)
    ensures exists v: nat | v < n :: ValidatedAt(cfg, start, events, v, k, p)
  {
    hide HasRoom, Validates, Candidates, ResolveWrite, InsertSection, DeleteSection,
      ReconcileDeletion, Sweep, At, After;
    if n == 0 {
      NothingRunning(cfg, start, events);
    } else {
      var before := At(cfg, start, events, n - 1);
      NextState(cfg, start, events, n - 1);
      if k < |before.handlers| && PastValidation(before.handlers[k], p) {
        WasValidated(cfg, start, events, n - 1, k, p);
      } else {
        assert ValidatedAt(cfg, start, events, n - 1, k, p);
      }
    }
  }

  lemma NothingRunning(cfg: Config, start: int, events: seq<Event>)
    ensures At(cfg, start, events, 0).handlers == []
  {
  }

  lemma ValidationWritesNothing(cfg: Config, start: int, events: seq<Event>, v: nat, k: nat, p: Payload)
    requires v < |events| && ValidatedAt(cfg, start, events, v, k, p) && cfg.minTtl > 0
    ensures At(cfg, start, events, v + 1).db == At(cfg, start, events, v).db
    ensures p.signature.Genuine? && At(cfg, start, events, v).clock < p.signature.expiry.expiresAt
  {
    NextState(cfg, start, events, v);
  }

  // On every orderly schedule, however the handlers interleave, what a relay has confirmed
  // deleted it never stores again, reaped or not.
  lemma OrderlyNeverResurrects(cfg: Config, start: int, events: seq<Event>)
    requires cfg.minTtl > 0 && AllOrderly(cfg, start, events)
    ensures NeverResurrects(cfg, start, events)
  {
    hide NeverResurrects, At, Orderly, Validates, HasRoom, Confirmed, Revives;
    NoResurrectionIff(cfg, start, events);
    forall n: nat | n < |events| ensures !Revives(cfg, start, events, n) { OrderlyNeverRevives(cfg, start, events, n); }
  }

  lemma OrderlyNeverRevives(cfg: Config, start: int, events: seq<Event>, n: nat)
    requires cfg.minTtl > 0 && AllOrderly(cfg, start, events) && n < |events|
    ensures !Revives(cfg, start, events, n)
  {
    hide At, Apply, HasRoom, ValidatedAt, Confirmed;
    if Revives(cfg, start, events, n) {
      var s := At(cfg, start, events, n);
      var p, k := Runs(s, events[n]).p, events[n].handler;
      WasValidated(cfg, start, events, n, k, p);
      var v: nat :| v < n && ValidatedAt(cfg, start, events, v, k, p);
      var i: nat :| i <= n && p.signature in Confirmed(At(cfg, start, events, i).db);
      assert Orderly(cfg, start, events, n);
      ValidationWritesNothing(cfg, start, events, v, k, p);
      if i <= v { ConfirmedLasts(cfg, start, events, i, v, p.signature); }
    }
  }
}
