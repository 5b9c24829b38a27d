// Safety over whole runs of the mesh, stated about the tables a run passes through.
module Runs {
  import opened Protocol
  import opened Tables
  import opened Store
  import opened RelaySpec
  import opened Mesh

  // Relay k after the first i steps of a run.
  ghost function At(sys: System, steps: seq<Step>, i: nat, k: nat): Relay
    requires ValidSystem(sys) && i <= |steps| && k < |sys.trust|
  {
    RunKeeps(sys, steps[..i]);
    After(sys, steps[..i]).relays[k]
  }

  // The message a step puts through the gates of the acting relay, if any.
  ghost function OfferedBy(sys: System, m: State, step: Step): Option<(Payload, Grants)>
    requires Enabled(sys, m, step)
  {
    var r := m.relays[Actor(m, step)];
    match Handled(sys, m, step)
    case Offered(p, g) => Some((p, g))
    case Asked(_, _) => None
    case Nothing =>
      if step.NextMessage? && r.sync.Messages? && r.sync.messages != []
      then Some((r.sync.messages[0].value, step.grants))
      else None
  }

  // A step puts a payload through the gates of relay k and meets no rate limit.
  ghost predicate Settles(sys: System, m: State, step: Step, k: nat, p: Payload) {
    && Enabled(sys, m, step) && Actor(m, step) == k
    && var offered := OfferedBy(sys, m, step);
       && offered.Some? && offered.value.0 == p
       && !Offer(sys.cfg, m.relays[k].db, p, offered.value.1, m.relays[k].clock).1.Throttled?
  }

  // A step turns a payload away for good at relay k: invalid, or its recipient full.
  ghost predicate Refuses(sys: System, m: State, step: Step, k: nat, p: Payload) {
    && Settles(sys, m, step, k, p)
    && var outcome := Offer(sys.cfg, m.relays[k].db, p, OfferedBy(sys, m, step).value.1, m.relays[k].clock).1;
       outcome.OverQuota? || outcome.Invalid?
  }

  // --- The record is exactly what was observed ---

  // The record after a step: what the tables now hold, and a payload just settled or turned away.
  ghost predicate Recorded(r: Relay, r': Relay, settled: set<Payload>, turnedAway: set<Payload>) {
    && r'.past.inserted == r.past.inserted + Stored(r'.db)
    && r'.past.confirmed == r.past.confirmed + Confirmed(r'.db)
    && r'.past.settled == r.past.settled + settled
    && r'.past.refused == r.past.refused + turnedAway
  }

  ghost function SettledNow(cfg: Config, r: Relay, p: Payload, g: Grants): set<Payload> {
    if Offer(cfg, r.db, p, g, r.clock).1.Throttled? then {} else {p}
  }

  ghost function TurnedAway(cfg: Config, r: Relay, p: Payload, g: Grants): set<Payload> {
    var outcome := Offer(cfg, r.db, p, g, r.clock).1;
    if outcome.OverQuota? || outcome.Invalid? then {p} else {}
  }

  lemma ReceiveRecords(cfg: Config, r: Relay, p: Payload, g: Grants)
    ensures Recorded(r, Receive(cfg, r, p, g).0, SettledNow(cfg, r, p, g), TurnedAway(cfg, r, p, g))
  {
  }

  lemma DeleteRecords(cfg: Config, r: Relay, q: DeleteRequest, g: Grants)
    requires Inv(cfg, r)
    ensures Recorded(r, Delete(cfg, r, q, g).0, {}, {})
  {
    Unchanged(cfg, r);
  }

  lemma PassiveRecords(sys: System, m: State, step: Step)
    requires ValidSystem(sys) && MeshInv(sys, m) && Enabled(sys, m, step) && Handled(sys, m, step).Nothing?
    requires OfferedBy(sys, m, step).None?
    ensures Recorded(m.relays[Actor(m, step)], Moved(sys, m, step), {}, {})
  {
    hide Inv, PairInv, Recorded, Page, Sweep, ReconcileDeletion;
    var r := m.relays[Actor(m, step)];
    assert Inv(sys.cfg, r);
    if step.CleanUp? {
      WithRecords(r, Sweep(sys.cfg, r.db, r.clock), r.sync);
    } else if step.NextDeletion? && r.sync.Deletions? && r.sync.deletions != []
              && step.grants.global && step.grants.identity {
      WithRecords(r, ReconcileDeletion(r.db, r.sync.deletions[0].value), Moved(sys, m, step).sync);
    } else {
      SameRecords(sys.cfg, r, Moved(sys, m, step));
    }
  }

  lemma WithRecords(r: Relay, db: Db, sync: Sync)
    ensures Recorded(r, With(r, db).(sync := sync), {}, {})
  {
  }

  lemma SameRecords(cfg: Config, r: Relay, r': Relay)
    requires Inv(cfg, r) && r'.db == r.db && r'.past == r.past
    ensures Recorded(r, r', {}, {})
  {
    Unchanged(cfg, r);
  }

  lemma MovedRecords(sys: System, m: State, step: Step)
    requires ValidSystem(sys) && MeshInv(sys, m) && Enabled(sys, m, step)
    ensures var r := m.relays[Actor(m, step)];
            match OfferedBy(sys, m, step)
            case None => Recorded(r, Moved(sys, m, step), {}, {})
            case Some((p, g)) =>
              Recorded(r, Moved(sys, m, step), SettledNow(sys.cfg, r, p, g), TurnedAway(sys.cfg, r, p, g))
  {
    hide Inv, PairInv;
    var r := m.relays[Actor(m, step)];
    assert Inv(sys.cfg, r);
    match Handled(sys, m, step)
    case Offered(p, g) => ReceiveRecords(sys.cfg, r, p, g);
    case Asked(q, g) => DeleteRecords(sys.cfg, r, q, g);
    case Nothing =>
      if step.NextMessage? && r.sync.Messages? && r.sync.messages != [] {
        PullOneMessageKeeps(sys.cfg, r, step.grants);
        ReceiveRecords(sys.cfg, r, r.sync.messages[0].value, step.grants);
      } else {
        PassiveRecords(sys, m, step);
      }
  }

  lemma StepRecords(sys: System, m: State, step: Step, k: nat, s: Signature)
    requires ValidSystem(sys) && MeshInv(sys, m) && k < |m.relays|
    ensures var r, r' := m.relays[k], Apply(sys, m, step).relays[k];
            && r.clock <= r'.clock
            && r.past.inserted <= r'.past.inserted && r.past.confirmed <= r'.past.confirmed
            && (s in r'.past.inserted - r.past.inserted ==> s in Stored(r'.db))
            && (s in r'.past.confirmed - r.past.confirmed ==> s in Confirmed(r'.db))
  {
    hide Inv, PairInv;
    if Enabled(sys, m, step) && Actor(m, step) == k {
      MovedKeeps(sys, m, step);
      MovedRecords(sys, m, step);
    }
  }

  lemma StepSettles(sys: System, m: State, step: Step, k: nat, p: Payload)
    requires ValidSystem(sys) && MeshInv(sys, m) && k < |m.relays|
    ensures var r, r' := m.relays[k], Apply(sys, m, step).relays[k];
            && r.past.settled <= r'.past.settled && r.past.refused <= r'.past.refused
            && (p in r'.past.settled - r.past.settled ==> Settles(sys, m, step, k, p))
            && (p in r'.past.refused - r.past.refused ==> Refuses(sys, m, step, k, p))
  {
    hide Inv, PairInv;
    if Enabled(sys, m, step) && Actor(m, step) == k { MovedRecords(sys, m, step); }
  }

  lemma Prefix(sys: System, steps: seq<Step>, i: nat)
    requires i < |steps|
    ensures After(sys, steps[..i + 1]) == Apply(sys, After(sys, steps[..i]), steps[i])
  {
    assert steps[..i + 1][..i] == steps[..i];
  }

  lemma {:induction false} RecordGrows(sys: System, steps: seq<Step>, i: nat, j: nat, k: nat)
    requires ValidSystem(sys) && i <= j <= |steps| && k < |sys.trust|
    ensures var a, b := At(sys, steps, i, k), At(sys, steps, j, k);
            a.clock <= b.clock && a.past.inserted <= b.past.inserted && a.past.confirmed <= b.past.confirmed
    decreases j - i
  {
    if i < j {
      RecordGrows(sys, steps, i, j - 1, k);
      RunKeeps(sys, steps[..j - 1]);
      Prefix(sys, steps, j - 1);
      StepRecords(sys, After(sys, steps[..j - 1]), steps[j - 1], k, Forged(0, 0));
    }
  }

  lemma {:induction false} InsertedWasStored(sys: System, steps: seq<Step>, j: nat, k: nat, s: Signature)
    requires ValidSystem(sys) && j <= |steps| && k < |sys.trust|
    requires s in At(sys, steps, j, k).past.inserted
    ensures exists i | 0 <= i <= j :: s in Stored(At(sys, steps, i, k).db)
  {
    if j > 0 {
      RunKeeps(sys, steps[..j - 1]);
      Prefix(sys, steps, j - 1);
      StepRecords(sys, After(sys, steps[..j - 1]), steps[j - 1], k, s);
      if s in At(sys, steps, j - 1, k).past.inserted { InsertedWasStored(sys, steps, j - 1, k, s); }
    }
  }

  // The record of insertions is what the run shows.
  lemma EverStored(sys: System, steps: seq<Step>, k: nat, s: Signature)
    requires ValidSystem(sys) && k < |sys.trust|
    ensures s in At(sys, steps, |steps|, k).past.inserted
       <==> exists i | 0 <= i <= |steps| :: s in Stored(At(sys, steps, i, k).db)
  {
    if s in At(sys, steps, |steps|, k).past.inserted { InsertedWasStored(sys, steps, |steps|, k, s); }
    if i :| 0 <= i <= |steps| && s in Stored(At(sys, steps, i, k).db) {
      RunKeeps(sys, steps[..i]);
      assert Inv(sys.cfg, At(sys, steps, i, k));
      RecordGrows(sys, steps, i, |steps|, k);
    }
  }

  lemma {:induction false} ConfirmedWasTombstone(sys: System, steps: seq<Step>, j: nat, k: nat, s: Signature)
    requires ValidSystem(sys) && j <= |steps| && k < |sys.trust|
    requires s in At(sys, steps, j, k).past.confirmed
    ensures exists i | 0 <= i <= j :: s in Confirmed(At(sys, steps, i, k).db)
  {
    if j > 0 {
      RunKeeps(sys, steps[..j - 1]);
      Prefix(sys, steps, j - 1);
      StepRecords(sys, After(sys, steps[..j - 1]), steps[j - 1], k, s);
      if s in At(sys, steps, j - 1, k).past.confirmed { ConfirmedWasTombstone(sys, steps, j - 1, k, s); }
    }
  }

  lemma {:induction false} SettledWasOffered(sys: System, steps: seq<Step>, j: nat, k: nat, p: Payload)
    requires ValidSystem(sys) && j <= |steps| && k < |sys.trust|
    requires p in At(sys, steps, j, k).past.settled
    ensures exists i | 0 <= i < j :: Settles(sys, After(sys, steps[..i]), steps[i], k, p)
  {
    hide Settles, Apply;
    if j > 0 {
      RunKeeps(sys, steps[..j - 1]);
      Prefix(sys, steps, j - 1);
      StepSettles(sys, After(sys, steps[..j - 1]), steps[j - 1], k, p);
      if p in At(sys, steps, j - 1, k).past.settled { SettledWasOffered(sys, steps, j - 1, k, p); }
    }
  }

  lemma {:induction false} RefusedWasTurnedAway(sys: System, steps: seq<Step>, j: nat, k: nat, p: Payload)
    requires ValidSystem(sys) && j <= |steps| && k < |sys.trust|
    requires p in At(sys, steps, j, k).past.refused
    ensures exists i | 0 <= i < j :: Refuses(sys, After(sys, steps[..i]), steps[i], k, p)
  {
    hide Refuses, Apply;
    if j > 0 {
      RunKeeps(sys, steps[..j - 1]);
      Prefix(sys, steps, j - 1);
      StepSettles(sys, After(sys, steps[..j - 1]), steps[j - 1], k, p);
      if p in At(sys, steps, j - 1, k).past.refused { RefusedWasTurnedAway(sys, steps, j - 1, k, p); }
    }
  }

  // --- Main results ---

  // No signature is ever a message and a deletion request at the same relay.
  lemma AlwaysDisjoint(sys: System, steps: seq<Step>, k: nat)
    requires ValidSystem(sys) && k < |sys.trust|
    ensures var db := At(sys, steps, |steps|, k).db;
            WellFormed(db) && Stored(db) !! Confirmed(db) + Pending(db) && Confirmed(db) !! Pending(db)
  {
    RunKeeps(sys, steps[..|steps|]);
    assert Inv(sys.cfg, At(sys, steps, |steps|, k));
  }

  // Once a relay has confirmed a deletion it never stores the message again, whatever
  // happens to the tombstone.
  lemma NoResurrection(sys: System, steps: seq<Step>, i: nat, j: nat, k: nat, s: Signature)
    requires ValidSystem(sys) && i <= j <= |steps| && k < |sys.trust|
    requires s in Confirmed(At(sys, steps, i, k).db)
    ensures s !in Stored(At(sys, steps, j, k).db)
  {
    RunKeeps(sys, steps[..i]);
    assert Inv(sys.cfg, At(sys, steps, i, k));
    RecordGrows(sys, steps, i, j, k);
    RunKeeps(sys, steps[..j]);
    assert Inv(sys.cfg, At(sys, steps, j, k));
  }

  ghost predicate InsertsAt(sys: System, steps: seq<Step>, i: nat, k: nat, s: Signature)
    requires ValidSystem(sys) && i < |steps| && k < |sys.trust|
  {
    s !in Stored(At(sys, steps, i, k).db) && s in Stored(At(sys, steps, i + 1, k).db)
  }

  // A relay inserts a steady signature at most once in its whole life: across duplicates,
  // deletions, sweeps, restarts and renewed offers.
  lemma InsertedOnce(sys: System, steps: seq<Step>, i: nat, j: nat, k: nat, s: Signature)
    requires ValidSystem(sys) && i < |steps| && j < |steps| && k < |sys.trust| && Steady(sys.cfg, s)
    requires InsertsAt(sys, steps, i, k, s) && InsertsAt(sys, steps, j, k, s)
    ensures i == j
  {
    hide At, After, Stored;
    if i < j { NeverInsertedAgain(sys, steps, i, j, k, s); }
    if j < i { NeverInsertedAgain(sys, steps, j, i, k, s); }
  }

  lemma NeverInsertedAgain(sys: System, steps: seq<Step>, a: nat, b: nat, k: nat, s: Signature)
    requires ValidSystem(sys) && a < b < |steps| && k < |sys.trust| && Steady(sys.cfg, s)
    requires s in Stored(At(sys, steps, a + 1, k).db)
    ensures !InsertsAt(sys, steps, b, k, s)
  {
    hide Inv, PairInv, Stored, Apply;
    RunKeeps(sys, steps[..a + 1]);
    StoredIsRecorded(sys.cfg, At(sys, steps, a + 1, k));
    RecordGrows(sys, steps, a + 1, b, k);
    RunKeeps(sys, steps[..b]);
    Prefix(sys, steps, b);
    if InsertsAt(sys, steps, b, k, s) {
      StoresOnlyNew(sys, After(sys, steps[..b]), steps[b], k, s);
    }
  }

  // A step stores a signature only through the gates, only if this relay never confirmed
  // its deletion and, for a steady signature, only if it never had it.
  lemma StoresOnlyNew(sys: System, m: State, step: Step, k: nat, s: Signature)
    requires ValidSystem(sys) && MeshInv(sys, m) && k < |m.relays|
    requires s in Stored(Apply(sys, m, step).relays[k].db) - Stored(m.relays[k].db)
    ensures s !in m.relays[k].past.confirmed
    ensures Steady(sys.cfg, s) ==> s !in m.relays[k].past.inserted
    ensures Enabled(sys, m, step) && Actor(m, step) == k
    ensures OfferedBy(sys, m, step).Some? && OfferedBy(sys, m, step).value.0.signature == s
  {
    hide Inv, PairInv, Receive, Delete, PullOneMessage, PullOneDeletion, SweepNow;
    var r := m.relays[k];
    assert Inv(sys.cfg, r);
    StoredIsRecorded(sys.cfg, r);
    match Handled(sys, m, step)
    case Offered(p, g) => ReceiveKeeps(sys.cfg, r, p, g);
    case Asked(q, g) => DeleteKeeps(sys.cfg, r, q, g);
    case Nothing => PassiveStoresOnlyNew(sys, m, step, s);
  }

  lemma PassiveStoresOnlyNew(sys: System, m: State, step: Step, s: Signature)
    requires ValidSystem(sys) && MeshInv(sys, m) && Enabled(sys, m, step) && Handled(sys, m, step).Nothing?
    requires s in Stored(Moved(sys, m, step).db) - Stored(m.relays[Actor(m, step)].db)
    ensures s !in m.relays[Actor(m, step)].past.confirmed
    ensures Steady(sys.cfg, s) ==> s !in m.relays[Actor(m, step)].past.inserted
    ensures OfferedBy(sys, m, step).Some? && OfferedBy(sys, m, step).value.0.signature == s
  {
    hide Inv, PairInv, Receive, SweepNow, PullOneDeletion, Steady;
    var r := m.relays[Actor(m, step)];
    assert Inv(sys.cfg, r);
    if step.NextMessage? && r.sync.Messages? && r.sync.messages != [] {
      PullOneMessageKeeps(sys.cfg, r, step.grants);
      ReceiveKeeps(sys.cfg, r, r.sync.messages[0].value, step.grants);
    } else if step.NextDeletion? && r.sync.Deletions? && r.sync.deletions != [] {
      ReconcileOnlyRemoves(r, step.grants);
    } else if step.CleanUp? {
      SweepKeeps(sys.cfg, r);
    }
  }

  // --- A text that lapses too early ---

  // Published at the last moment it validates, swept as lapsed, and published again.
  function Twice(cfg: Config, k: nat, p: Payload): seq<Step>
    requires cfg.minTtl * SECOND <= p.expiry.expiresAt
  {
    [Tick(k, p.expiry.expiresAt - cfg.minTtl * SECOND), Publish(k, p, ALL_GRANTED), CleanUp(k),
     Publish(k, p, ALL_GRANTED)]
  }

  const ALL_GRANTED: Grants := Grants(true, true)

  // What an empty relay accepts at some time.
  predicate Acceptable(cfg: Config, p: Payload) {
    && Verifies(p) && p.wellShaped && p.recipient != Blank
    && cfg.minTtl <= cfg.maxTtl && 0 < cfg.quotaMessages && 0 < cfg.quotaBytes
    && cfg.minTtl * SECOND <= p.expiry.expiresAt
  }

  lemma AcceptedWhenEmpty(cfg: Config, db: Db, p: Payload)
    requires Acceptable(cfg, p) && db.messages.rows == [] && db.deletions.rows == []
    ensures Offer(cfg, db, p, ALL_GRANTED, p.expiry.expiresAt - cfg.minTtl * SECOND)
         == (db.(messages := Append(db.messages, p)), Accepted)
  {
  }

  lemma SweptWhenLapsed(cfg: Config, db: Db, p: Payload, now: int)
    requires db.messages.rows == [Row(1, p)] && db.deletions.rows == [] && p.expiry.lapsesAt <= now
    ensures Sweep(cfg, db, now).messages.rows == [] && Sweep(cfg, db, now).deletions.rows == []
  {
    assert [Row(1, p)][..0] == [];
  }

  // The relay after each step of Twice.
  lemma TwiceStores(sys: System, k: nat, p: Payload)
    requires ValidSystem(sys) && k < |sys.trust| && Acceptable(sys.cfg, p) && !Steady(sys.cfg, p.signature)
    ensures var steps := Twice(sys.cfg, k, p);
            && Stored(At(sys, steps, 1, k).db) == {} && Stored(At(sys, steps, 2, k).db) == {p.signature}
            && Stored(At(sys, steps, 3, k).db) == {} && Stored(At(sys, steps, 4, k).db) == {p.signature}
  {
    hide At, Offer, Sweep, Stored;
    var steps, last := Twice(sys.cfg, k, p), p.expiry.expiresAt - sys.cfg.minTtl * SECOND;
    var stored := EMPTY.(messages := Append(EMPTY.messages, p));
    var swept := Sweep(sys.cfg, stored, last);
    StepAlone(sys, steps, 0, k);
    StepAlone(sys, steps, 1, k);
    StepAlone(sys, steps, 2, k);
    StepAlone(sys, steps, 3, k);
    AcceptedWhenEmpty(sys.cfg, EMPTY, p);
    assert At(sys, steps, 2, k).db == stored;
    SweptWhenLapsed(sys.cfg, stored, p, last);
    AcceptedWhenEmpty(sys.cfg, swept, p);
    NothingStored(EMPTY);
    NothingStored(swept);
    InsertionContents(EMPTY, p);
    InsertionContents(swept, p);
  }

  lemma NothingStored(db: Db)
    requires db.messages.rows == []
    ensures Stored(db) == {}
  {
  }

  // One step of a run, seen by relay k's database and clock.
  lemma StepAlone(sys: System, steps: seq<Step>, n: nat, k: nat)
    requires ValidSystem(sys) && n < |steps| && k < |sys.trust|
    requires steps[n].Tick? || steps[n].Publish? || steps[n].CleanUp?
    requires steps[n].at == k
    ensures var r, r' := At(sys, steps, n, k), At(sys, steps, n + 1, k);
            match steps[n]
            case Tick(_, elapsed) => r'.db == r.db && r'.clock == r.clock + elapsed
            case Publish(_, p, g) => r'.db == Offer(sys.cfg, r.db, p, g, r.clock).0 && r'.clock == r.clock
            case CleanUp(_) => r'.db == Sweep(sys.cfg, r.db, r.clock) && r'.clock == r.clock
            case _ => true
    ensures n == 0 ==> At(sys, steps, n, k) == FRESH
  {
    hide Inv, PairInv, Offer, Sweep, Delete;
    RunKeeps(sys, steps[..n]);
    Prefix(sys, steps, n);
  }

  // Exactly when a message an empty relay accepts is inserted at most once on every run.
  lemma InsertedOnceIff(sys: System, k: nat, p: Payload)
    requires ValidSystem(sys) && k < |sys.trust| && Acceptable(sys.cfg, p)
    ensures Steady(sys.cfg, p.signature) <==>
              forall steps, i: nat, j: nat | i < |steps| && j < |steps|
                && InsertsAt(sys, steps, i, k, p.signature) && InsertsAt(sys, steps, j, k, p.signature) :: i == j
  {
    var s := p.signature;
    if Steady(sys.cfg, s) {
      forall steps, i: nat, j: nat | i < |steps| && j < |steps|
                                     && InsertsAt(sys, steps, i, k, s) && InsertsAt(sys, steps, j, k, s)
        ensures i == j
      {
        InsertedOnce(sys, steps, i, j, k, s);
      }
    } else {
      var steps := Twice(sys.cfg, k, p);
      TwiceStores(sys, k, p);
      assert InsertsAt(sys, steps, 1, k, s) && InsertsAt(sys, steps, 3, k, s);
    }
  }

  lemma ReconcileOnlyRemoves(r: Relay, g: Grants)
    requires r.sync.Deletions? && r.sync.deletions != []
    ensures Stored(PullOneDeletion(r, g).db) <= Stored(r.db)
  {
    var d := r.sync.deletions[0].value;
    var db := ReconcileDeletion(r.db, d);
    forall s | s in Stored(db) ensures s in Stored(r.db) {
      var row :| row in db.messages.rows && row.value.signature == s;
      assert row in r.db.messages.rows;
    }
  }

  // A delete request is handled and answered with did_confirm.
  ghost predicate DidConfirm(sys: System, steps: seq<Step>, i: nat, k: nat, s: Signature)
    requires ValidSystem(sys) && i < |steps| && k < |sys.trust|
  {
    var m := After(sys, steps[..i]);
    && Enabled(sys, m, steps[i]) && Actor(m, steps[i]) == k
    && var input := Handled(sys, m, steps[i]);
       input.Asked? && input.request.target == s && Delete(sys.cfg, m.relays[k], input.request, input.askGrants).1
  }

  // So each relay fans a deletion out at most once.
  lemma DidConfirmOnce(sys: System, steps: seq<Step>, i: nat, j: nat, k: nat, s: Signature)
    requires ValidSystem(sys) && i < |steps| && j < |steps| && k < |sys.trust|
    requires DidConfirm(sys, steps, i, k, s) && DidConfirm(sys, steps, j, k, s)
    ensures i == j
  {
    var a, b := if i < j then i else j, if i < j then j else i;
    if a < b {
      ConfirmationMoves(sys, steps, a, k, s);
      ConfirmationMoves(sys, steps, b, k, s);
      NoResurrection(sys, steps, a + 1, b, k, s);
    }
  }

  lemma ConfirmationMoves(sys: System, steps: seq<Step>, i: nat, k: nat, s: Signature)
    requires ValidSystem(sys) && i < |steps| && k < |sys.trust| && DidConfirm(sys, steps, i, k, s)
    ensures s in Stored(At(sys, steps, i, k).db) && s in Confirmed(At(sys, steps, i + 1, k).db)
  {
    RunKeeps(sys, steps[..i]);
    Prefix(sys, steps, i);
    var m := After(sys, steps[..i]);
    var input := Handled(sys, m, steps[i]);
    assert Inv(sys.cfg, m.relays[k]);
    DeleteKeeps(sys.cfg, m.relays[k], input.request, input.askGrants);
  }

  // A tombstone stays confirmed until its message has expired by this relay's own clock;
  // a pending claim never takes its place before that.
  lemma TombstoneOutlivesMessage(sys: System, steps: seq<Step>, i: nat, j: nat, k: nat, s: Signature)
    requires ValidSystem(sys) && i <= j <= |steps| && k < |sys.trust|
    requires s in Confirmed(At(sys, steps, i, k).db)
    ensures s.Genuine?
    ensures var r := At(sys, steps, j, k);
            (s in Confirmed(r.db) && s !in Pending(r.db)) || s.expiry.expiresAt <= r.clock
  {
    RunKeeps(sys, steps[..i]);
    assert Inv(sys.cfg, At(sys, steps, i, k));
    RecordGrows(sys, steps, i, j, k);
    RunKeeps(sys, steps[..j]);
    assert Inv(sys.cfg, At(sys, steps, j, k));
  }

  // Every tombstone in a peer's log at or below the cursor has been confirmed here too,
  // and is still confirmed unless its message has expired.
  lemma DeletionCursorComplete(sys: System, steps: seq<Step>, k: nat, peer: nat, row: Row<Deletion>)
    requires ValidSystem(sys) && k < |sys.trust| && peer < |sys.trust|
    requires var n := |steps|;
             && row in At(sys, steps, n, peer).db.deletions.rows && row.value.confirmed
             && row.id <= Cursor(At(sys, steps, n, k).deletionCursors, peer)
    ensures exists i | 0 <= i <= |steps| :: row.value.target in Confirmed(At(sys, steps, i, k).db)
    ensures var r := At(sys, steps, |steps|, k);
            row.value.target.Genuine? &&
            (row.value.target in Confirmed(r.db) || row.value.target.expiry.expiresAt <= r.clock)
  {
    var n := |steps|;
    RunKeeps(sys, steps[..n]);
    var m := After(sys, steps[..n]);
    assert PairInv(m.relays[k], peer, m.relays[peer]) && Inv(sys.cfg, m.relays[k]) && Inv(sys.cfg, m.relays[peer]);
    ConfirmedWasTombstone(sys, steps, n, k, row.value.target);
  }

  // Every message in a peer's log at or below the cursor went through the gates here, that
  // very payload, without meeting a rate limit: it has been stored here, or confirmed deleted
  // here, or it was itself turned away as invalid or over quota.
  lemma MessageCursorSafe(sys: System, steps: seq<Step>, k: nat, peer: nat, row: Row<Payload>)
    requires ValidSystem(sys) && k < |sys.trust| && peer < |sys.trust|
    requires var n := |steps|;
             && row in At(sys, steps, n, peer).db.messages.rows
             && row.id <= Cursor(At(sys, steps, n, k).cursors, peer)
    ensures exists i | 0 <= i < |steps| :: Settles(sys, After(sys, steps[..i]), steps[i], k, row.value)
    ensures var s := row.value.signature;
            || (exists i | 0 <= i <= |steps| :: s in Stored(At(sys, steps, i, k).db))
            || (exists i | 0 <= i <= |steps| :: s in Confirmed(At(sys, steps, i, k).db))
            || (exists i | 0 <= i < |steps| :: Refuses(sys, After(sys, steps[..i]), steps[i], k, row.value))
  {
    hide Settles, Refuses, Stored, Confirmed, WellFormed, Disjoint;
    var n, p := |steps|, row.value;
    RunKeeps(sys, steps[..n]);
    var m := After(sys, steps[..n]);
    assert PairInv(m.relays[k], peer, m.relays[peer]) && Inv(sys.cfg, m.relays[k]);
    SettledWasOffered(sys, steps, n, k, p);
    if p.signature in m.relays[k].past.inserted { InsertedWasStored(sys, steps, n, k, p.signature); }
    else if p.signature in m.relays[k].past.confirmed { ConfirmedWasTombstone(sys, steps, n, k, p.signature); }
    else { RefusedWasTurnedAway(sys, steps, n, k, p); }
  }

  // A pulled message that meets a rate limit leaves the database, the record and the place
  // in the log as they were, so the next page starts with it again.
  lemma RateLimitLosesNothing(cfg: Config, r: Relay, g: Grants)
    requires Inv(cfg, r) && r.sync.Messages? && r.sync.messages != []
    requires PullOneMessage(cfg, r, g).1.Throttled?
    ensures PullOneMessage(cfg, r, g).0 == r.(sync := r.sync.(messages := []))
    ensures r.sync.messages[0].value.signature !in Stored(r.db)
  {
    hide Inv;
    Unchanged(cfg, r);
    FindsStored(r.db, r.sync.messages[0].value.signature);
  }

  // Settling the same message again, at any later time and under any limit, changes nothing.
  lemma ReplayedMessage(cfg: Config, r: Relay, p: Payload, g: Grants, g': Grants, later: int)
    requires Inv(cfg, r) && cfg.minTtl > 0
    ensures var (db, outcome) := Offer(cfg, r.db, p, g, r.clock);
            outcome.Accepted? || outcome.Known? || outcome.Discarded? ==>
              Offer(cfg, db, p, g', later).0 == db && !Offer(cfg, db, p, g', later).1.Accepted?
  {
    OfferKeeps(cfg, r, p, g);
    SettledOffer(cfg, With(r, Offer(cfg, r.db, p, g, r.clock).0), p, g', later);
  }

  lemma SettledOffer(cfg: Config, r: Relay, p: Payload, g: Grants, later: int)
    requires Inv(cfg, r)
    ensures p.signature in Stored(r.db) + Confirmed(r.db) ==>
              Offer(cfg, r.db, p, g, later).0 == r.db && !Offer(cfg, r.db, p, g, later).1.Accepted?
  {
    FindsStored(r.db, p.signature);
    FindsDeletion(r.db, p.signature);
  }

  // Applying the same tombstone row again changes nothing either.
  lemma ReplayedTombstone(cfg: Config, r: Relay, d: Deletion)
    requires Inv(cfg, r) && SoundTombstone(cfg, d)
    ensures var db := ReconcileDeletion(r.db, d);
            ReconcileDeletion(db, d) == db && d.target in Confirmed(db)
  {
    ReconcileKeeps(cfg, r, d);
    FindsDeletion(ReconcileDeletion(r.db, d), d.target);
  }
}
