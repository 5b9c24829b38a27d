// The push flood: every message crosses each edge of the trust graph at most once, and a
// flood that loses nothing reaches exactly the relays reachable from where it started.
module Flood {
  import opened Protocol
  import opened Tables
  import opened Store
  import opened RelaySpec
  import opened Mesh
  import opened Runs

  // --- Termination ---

  function Carrying(pushes: seq<Push>, s: Signature): nat {
    if pushes == [] then 0
    else
      var last := pushes[|pushes| - 1];
      Carrying(pushes[..|pushes| - 1], s) + if last.PushMessage? && last.payload.signature == s then 1 else 0
  }

  lemma {:induction false} CarryingConcat(a: seq<Push>, b: seq<Push>, s: Signature)
    ensures Carrying(a + b, s) == Carrying(a, s) + Carrying(b, s)
  {
    if b == [] {
      assert a + b == a;
    } else {
      assert (a + b)[..|a + b| - 1] == a + b[..|b| - 1];
      CarryingConcat(a, b[..|b| - 1], s);
    }
  }

  lemma CarryingWithout(pushes: seq<Push>, i: nat, s: Signature)
    requires i < |pushes|
    ensures Carrying(pushes, s) == Carrying(pushes[..i] + pushes[i + 1..], s) + Carrying([pushes[i]], s)
  {
    assert pushes == pushes[..i] + [pushes[i]] + pushes[i + 1..];
    CarryingConcat(pushes[..i] + [pushes[i]], pushes[i + 1..], s);
    CarryingConcat(pushes[..i], [pushes[i]], s);
    CarryingConcat(pushes[..i], pushes[i + 1..], s);
  }

  lemma {:induction false} CarryingUniform(pushes: seq<Push>, s: Signature, all: bool)
    requires forall push | push in pushes :: (push.PushMessage? && push.payload.signature == s) == all
    ensures Carrying(pushes, s) == if all then |pushes| else 0
  {
    if pushes != [] {
      assert pushes[|pushes| - 1] in pushes;
      CarryingUniform(pushes[..|pushes| - 1], s, all);
    }
  }

  // The edges out of the first n relays that have not yet stored s, and so may still push it.
  ghost function Unspent(sys: System, m: State, s: Signature, n: nat): nat
    requires n <= |sys.trust| == |m.relays|
  {
    if n == 0 then 0
    else Unspent(sys, m, s, n - 1) + if s in m.relays[n - 1].past.inserted then 0 else |sys.trust[n - 1]|
  }

  function Edges(sys: System, n: nat): nat
    requires n <= |sys.trust|
  {
    if n == 0 then 0 else Edges(sys, n - 1) + |sys.trust[n - 1]|
  }

  // What is left of the flood of s: pushes under way and pushes still to come.
  ghost function Left(sys: System, m: State, s: Signature): nat
    requires |m.relays| == |sys.trust|
  {
    Carrying(m.inflight, s) + Unspent(sys, m, s, |sys.trust|)
  }

  lemma {:induction false} UnspentAfter(sys: System, m: State, m': State, s: Signature, n: nat, k: nat)
    requires n <= |sys.trust| == |m.relays| == |m'.relays| && k < |m.relays|
    requires forall j | 0 <= j < |m.relays| && j != k :: m'.relays[j] == m.relays[j]
    requires m.relays[k].past.inserted <= m'.relays[k].past.inserted
    ensures var spent := s !in m.relays[k].past.inserted && s in m'.relays[k].past.inserted && k < n;
            Unspent(sys, m, s, n) == Unspent(sys, m', s, n) + if spent then |sys.trust[k]| else 0
  {
    if n > 0 { UnspentAfter(sys, m, m', s, n - 1, k); }
  }

  // A step consumes a push of s when it delivers or loses one.
  ghost predicate Consumes(sys: System, m: State, step: Step, s: Signature) {
    && Enabled(sys, m, step) && (step.Arrive? || step.Lose?)
    && m.inflight[step.push].PushMessage? && m.inflight[step.push].payload.signature == s
  }

  // What a step that offers a message adds to the record and to the pushes in flight.
  lemma OfferedStep(sys: System, m: State, step: Step)
    requires ValidSystem(sys) && MeshInv(sys, m) && Enabled(sys, m, step) && OfferedBy(sys, m, step).Some?
    ensures var k := Actor(m, step);
            var (p, g) := OfferedBy(sys, m, step).value;
            var r, r' := m.relays[k], Moved(sys, m, step);
            if Receive(sys.cfg, r, p, g).1.Accepted?
            then && Scheduled(sys, m, step) == FanoutMessage(sys, k, p)
                 && (Steady(sys.cfg, p.signature) ==> p.signature !in r.past.inserted)
                 && r'.past.inserted == r.past.inserted + {p.signature}
            else Scheduled(sys, m, step) == [] && r'.past.inserted == r.past.inserted
  {
    hide Inv, PairInv;
    var r := m.relays[Actor(m, step)];
    var (p, g) := OfferedBy(sys, m, step).value;
    assert Inv(sys.cfg, r);
    if Handled(sys, m, step).Nothing? { PullOneMessageKeeps(sys.cfg, r, g); }
    ReceiveInserts(sys.cfg, r, p, g);
  }

  lemma ReceiveInserts(cfg: Config, r: Relay, p: Payload, g: Grants)
    requires Inv(cfg, r) && cfg.minTtl > 0
    ensures var (r', outcome) := Receive(cfg, r, p, g);
            if outcome.Accepted?
            then && (Steady(cfg, p.signature) ==> p.signature !in r.past.inserted)
                 && r'.past.inserted == r.past.inserted + {p.signature}
            else r'.past.inserted == r.past.inserted
  {
    hide Inv, Offer;
    ReceiveKeeps(cfg, r, p, g);
    ReceiveRecords(cfg, r, p, g);
    StoredIsRecorded(cfg, r);
  }

  // Any other step stores nothing new and pushes no message.
  lemma OtherStep(sys: System, m: State, step: Step)
    requires ValidSystem(sys) && MeshInv(sys, m) && Enabled(sys, m, step) && OfferedBy(sys, m, step).None?
    ensures Moved(sys, m, step).past.inserted == m.relays[Actor(m, step)].past.inserted
    ensures forall push | push in Scheduled(sys, m, step) :: push.PushDelete?
  {
    var k := Actor(m, step);
    MovedRecords(sys, m, step);
    assert Inv(sys.cfg, m.relays[k]);
    forall s | s in Stored(Moved(sys, m, step).db) ensures s in m.relays[k].past.inserted {
      if s !in Stored(m.relays[k].db) { StoresOnlyNew(sys, m, step, k, s); }
    }
  }

  // A step schedules pushes of a steady s only when it first stores s.
  lemma ScheduledIsSpent(sys: System, m: State, step: Step, s: Signature)
    requires ValidSystem(sys) && MeshInv(sys, m) && Enabled(sys, m, step) && Steady(sys.cfg, s)
    ensures var k := Actor(m, step);
            var spent := s !in m.relays[k].past.inserted && s in Moved(sys, m, step).past.inserted;
            Carrying(Scheduled(sys, m, step), s) == if spent then |sys.trust[k]| else 0
  {
    hide Inv, PairInv;
    var pushes := Scheduled(sys, m, step);
    match OfferedBy(sys, m, step)
    case None =>
      OtherStep(sys, m, step);
      CarryingUniform(pushes, s, false);
    case Some((p, g)) =>
      OfferedStep(sys, m, step);
      CarryingUniform(pushes, s, p.signature == s && pushes != []);
  }

  lemma StepSpends(sys: System, m: State, step: Step, s: Signature)
    requires ValidSystem(sys) && MeshInv(sys, m) && Steady(sys.cfg, s)
    ensures var m' := Apply(sys, m, step);
            && |m'.relays| == |m.relays|
            && Left(sys, m', s) + (if Consumes(sys, m, step, s) then 1 else 0) <= Left(sys, m, s)
  {
    hide Inv, PairInv, Receive, Delete, OfferedBy, Moved, Scheduled, NewlyDropped, Unspent, Carrying;
    if Enabled(sys, m, step) {
      var m' := Apply(sys, m, step);
      MovedKeeps(sys, m, step);
      ScheduledIsSpent(sys, m, step, s);
      UnspentAfter(sys, m, m', s, |sys.trust|, Actor(m, step));
      CarryingConcat(Remaining(m, step), Scheduled(sys, m, step), s);
      if step.Arrive? || step.Lose? {
        CarryingWithout(m.inflight, step.push, s);
        CarryingUniform([m.inflight[step.push]], s, Consumes(sys, m, step, s));
      }
    }
  }

  // How many pushes of s a run has delivered or lost.
  ghost function Consumed(sys: System, steps: seq<Step>, s: Signature): nat {
    if steps == [] then 0
    else
      var before := steps[..|steps| - 1];
      Consumed(sys, before, s) + if Consumes(sys, After(sys, before), steps[|steps| - 1], s) then 1 else 0
  }

  lemma {:induction false} NothingSpent(sys: System, s: Signature, n: nat)
    requires n <= |sys.trust|
    ensures Unspent(sys, Initial(sys), s, n) == Edges(sys, n)
  {
    if n > 0 { NothingSpent(sys, s, n - 1); }
  }

  // Over any run, with any duplicates, deletions, sweeps, restarts and re-offers, the pushes
  // of one steady message that were delivered, lost or are still in flight number at most
  // the edges of the trust graph; each delivery uses one up for good.
  lemma {:induction false} FloodTerminates(sys: System, steps: seq<Step>, s: Signature)
    requires ValidSystem(sys) && Steady(sys.cfg, s)
    ensures |After(sys, steps).relays| == |sys.trust|
    ensures Consumed(sys, steps, s) + Left(sys, After(sys, steps), s) <= Edges(sys, |sys.trust|)
    ensures Consumed(sys, steps, s) + Carrying(After(sys, steps).inflight, s) <= Edges(sys, |sys.trust|)
  {
    RunKeeps(sys, steps);
    if steps == [] {
      NothingSpent(sys, s, |sys.trust|);
    } else {
      var before := steps[..|steps| - 1];
      RunKeeps(sys, before);
      FloodTerminates(sys, before, s);
      StepSpends(sys, After(sys, before), steps[|steps| - 1], s);
    }
  }

  // A message that is swept while it still validates is published again, and pushed again.
  lemma PublishesAgain(sys: System, m: State, k: nat, p: Payload)
    requires k < |sys.trust| == |m.relays| && Acceptable(sys.cfg, p) && !Steady(sys.cfg, p.signature)
    requires var r := m.relays[k];
             && r.db.messages.rows == [] && r.db.deletions.rows == []
             && r.clock == p.expiry.expiresAt - sys.cfg.minTtl * SECOND
    ensures var m' := Apply(sys, Apply(sys, m, Publish(k, p, ALL_GRANTED)), CleanUp(k));
            var r, r' := m.relays[k], m'.relays[k];
            && |m'.relays| == |m.relays|
            && r'.db.messages.rows == [] && r'.db.deletions.rows == [] && r'.clock == r.clock
            && m'.inflight == m.inflight + FanoutMessage(sys, k, p)
  {
    hide Offer, Stored, Confirmed;
    AcceptedWhenEmpty(sys.cfg, m.relays[k].db, p);
    var published := Apply(sys, m, Publish(k, p, ALL_GRANTED));
    var db := m.relays[k].db.(messages := Append(m.relays[k].db.messages, p));
    assert published.relays[k].db == db && published.inflight == m.inflight + FanoutMessage(sys, k, p);
    assert [Row(m.relays[k].db.messages.next, p)][..0] == [];
    assert Sweep(sys.cfg, db, m.relays[k].clock).messages.rows == [];
    assert published.inflight + [] == published.inflight;
  }

  lemma {:induction false} FloodRepeats(sys: System, k: nat, p: Payload, times: nat) returns (steps: seq<Step>)
    requires ValidSystem(sys) && k < |sys.trust| && Acceptable(sys.cfg, p) && !Steady(sys.cfg, p.signature)
    ensures var m := After(sys, steps);
            && |m.relays| == |sys.trust|
            && m.relays[k].db.messages.rows == [] && m.relays[k].db.deletions.rows == []
            && m.relays[k].clock == p.expiry.expiresAt - sys.cfg.minTtl * SECOND
            && Carrying(m.inflight, p.signature) == times * |sys.trust[k]|
  {
    hide After, Apply, Carrying, Acceptable, Steady, FanoutMessage;
    if times == 0 {
      steps := FirstWait(sys, k, p);
    } else {
      var before := FloodRepeats(sys, k, p, times - 1);
      var m, publish := After(sys, before), Publish(k, p, ALL_GRANTED);
      steps := before + [publish] + [CleanUp(k)];
      TwoMore(sys, before, publish, CleanUp(k));
      PublishesAgain(sys, m, k, p);
      CarryingConcat(m.inflight, FanoutMessage(sys, k, p), p.signature);
      CarryingUniform(FanoutMessage(sys, k, p), p.signature, true);
      OneMoreTimes(times, |sys.trust[k]|);
    }
  }

  lemma TwoMore(sys: System, before: seq<Step>, a: Step, b: Step)
    ensures After(sys, before + [a] + [b]) == Apply(sys, Apply(sys, After(sys, before), a), b)
  {
    hide Apply;
    assert (before + [a] + [b])[..|before| + 1] == before + [a] && (before + [a])[..|before|] == before;
  }

  lemma OneMoreTimes(times: nat, n: nat)
    requires 0 < times
    ensures times * n == (times - 1) * n + n
  {
  }

  lemma FirstWait(sys: System, k: nat, p: Payload) returns (steps: seq<Step>)
    requires ValidSystem(sys) && k < |sys.trust| && Acceptable(sys.cfg, p)
    ensures var m := After(sys, steps);
            && |m.relays| == |sys.trust| && Carrying(m.inflight, p.signature) == 0
            && m.relays[k].db == EMPTY && m.relays[k].clock == p.expiry.expiresAt - sys.cfg.minTtl * SECOND
  {
    steps := [Tick(k, p.expiry.expiresAt - sys.cfg.minTtl * SECOND)];
    assert steps[..0] == [] && After(sys, steps) == Apply(sys, Initial(sys), steps[0]);
  }

  // Exactly when the pushes of a message a relay with a peer accepts are bounded on every run.
  lemma FloodBoundedIff(sys: System, k: nat, p: Payload)
    requires ValidSystem(sys) && k < |sys.trust| && sys.trust[k] != [] && Acceptable(sys.cfg, p)
    ensures Steady(sys.cfg, p.signature) <==>
              forall steps :: Carrying(After(sys, steps).inflight, p.signature) <= Edges(sys, |sys.trust|)
  {
    hide Steady, After;
    var edges := Edges(sys, |sys.trust|);
    if Steady(sys.cfg, p.signature) {
      forall steps ensures Carrying(After(sys, steps).inflight, p.signature) <= edges {
        FloodTerminates(sys, steps, p.signature);
      }
    } else {
      var steps := FloodRepeats(sys, k, p, edges + 1);
      assert edges + 1 <= (edges + 1) * |sys.trust[k]|;
    }
  }

  // --- Coverage ---

  ghost predicate Route(sys: System, path: seq<nat>) {
    && path != []
    && (forall i | 0 <= i < |path| :: path[i] < |sys.trust|)
    && forall i | 0 <= i < |path| - 1 :: path[i + 1] in sys.trust[path[i]]
  }

  ghost predicate Reaches(sys: System, a: nat, b: nat) {
    exists path :: Route(sys, path) && path[0] == a && path[|path| - 1] == b
  }

  lemma ReachesFurther(sys: System, a: nat, b: nat, c: nat)
    requires Reaches(sys, a, b) && b < |sys.trust| && c < |sys.trust| && c in sys.trust[b]
    ensures Reaches(sys, a, c)
  {
    var path :| Route(sys, path) && path[0] == a && path[|path| - 1] == b;
    assert Route(sys, path + [c]);
  }

  ghost predicate Origin(sys: System, m: State, s: Signature, o: nat, k: nat) {
    o < |sys.trust| && (o, s) in m.origins && Reaches(sys, o, k)
  }

  // A push in flight was sent by a relay that stored the message, along a trust edge.
  ghost predicate PushesSound(sys: System, m: State)
    requires |m.relays| == |sys.trust|
  {
    forall push | push in m.inflight && push.PushMessage? ::
      && push.from < |sys.trust| && push.to in sys.trust[push.from]
      && push.payload.signature in m.relays[push.from].past.inserted
  }

  // Whatever a relay has stored came from a client's publish at a relay that reaches it.
  ghost predicate Sourced(sys: System, m: State) {
    forall k, s | 0 <= k < |m.relays| && s in m.relays[k].past.inserted :: exists o :: Origin(sys, m, s, o, k)
  }

  ghost predicate Passed(m: State, k: nat, p: nat, s: Signature)
    requires p < |m.relays|
  {
    || s in m.relays[p].past.inserted
    || (p, s) in m.dropped
    || exists push :: (push in m.inflight && push.PushMessage? && push.from == k && push.to == p
                       && push.payload.signature == s)
  }

  // Every peer of a relay that stored s has it too, has a push of it under way, or lost it.
  ghost predicate Covered(sys: System, m: State)
    requires ValidSystem(sys) && |m.relays| == |sys.trust|
  {
    forall k, p, s | 0 <= k < |m.relays| && p in sys.trust[k] && s in m.relays[k].past.inserted :: Passed(m, k, p, s)
  }

  // A push was lost by a relay that some relay holding the message trusts.
  ghost predicate DroppedSound(sys: System, m: State)
    requires |m.relays| == |sys.trust|
  {
    forall p, s | (p, s) in m.dropped ::
      exists j: nat :: j < |m.relays| && p in sys.trust[j] && s in m.relays[j].past.inserted
  }

  ghost predicate OriginsStored(m: State) {
    forall o, s | (o, s) in m.origins :: o < |m.relays| && s in m.relays[o].past.inserted
  }

  ghost predicate FloodInv(sys: System, m: State)
    requires ValidSystem(sys) && |m.relays| == |sys.trust|
  {
    PushesSound(sys, m) && Sourced(sys, m) && Covered(sys, m) && OriginsStored(m) && DroppedSound(sys, m)
  }

  lemma ScheduledSound(sys: System, m: State, step: Step, push: Push)
    requires ValidSystem(sys) && MeshInv(sys, m) && Enabled(sys, m, step)
    requires push in Scheduled(sys, m, step) && push.PushMessage?
    ensures push.from == Actor(m, step) && push.to in sys.trust[push.from]
    ensures push.payload.signature in Moved(sys, m, step).past.inserted
  {
    hide Inv, PairInv;
    if OfferedBy(sys, m, step).None? { OtherStep(sys, m, step); } else { OfferedStep(sys, m, step); }
  }

  lemma StepPushesSound(sys: System, m: State, step: Step)
    requires ValidSystem(sys) && MeshInv(sys, m) && FloodInv(sys, m) && Enabled(sys, m, step)
    ensures PushesSound(sys, Apply(sys, m, step))
  {
    hide Inv, PairInv, Moved, Receive, Delete, Scheduled, NewlyDropped, Sourced, Covered;
    var m' := Apply(sys, m, step);
    MovedKeeps(sys, m, step);
    forall push | push in m'.inflight && push.PushMessage?
      ensures push.from < |sys.trust| && push.to in sys.trust[push.from]
      ensures push.payload.signature in m'.relays[push.from].past.inserted
    {
      if push in Scheduled(sys, m, step) {
        ScheduledSound(sys, m, step, push);
      } else {
        assert push in m.inflight;
      }
    }
  }

  // The relay a new message came from, and the trust edge it came along.
  lemma NewSource(sys: System, m: State, step: Step, s: Signature) returns (j: nat)
    requires ValidSystem(sys) && MeshInv(sys, m) && FloodInv(sys, m) && Enabled(sys, m, step)
    requires s in Moved(sys, m, step).past.inserted - m.relays[Actor(m, step)].past.inserted
    ensures var k := Actor(m, step);
            || (k, s) in Apply(sys, m, step).origins
            || (j < |m.relays| && s in m.relays[j].past.inserted && k in sys.trust[j])
  {
    hide Inv, PairInv, Moved, Receive, Delete, Scheduled, FanoutMessage, FanoutDelete, Covered, DroppedSound, Sourced,
      OriginsStored;
    var k := Actor(m, step);
    if OfferedBy(sys, m, step).None? { OtherStep(sys, m, step); } else { OfferedStep(sys, m, step); }
    j := 0;
    if step.Arrive? {
      assert m.inflight[step.push] in m.inflight;
      j := m.inflight[step.push].from;
    } else if step.NextMessage? {
      j := m.relays[k].sync.peer;
      PageSource(sys, m, k);
    }
  }

  lemma PageSource(sys: System, m: State, k: nat)
    requires MeshInv(sys, m) && k < |m.relays| && m.relays[k].sync.Messages? && m.relays[k].sync.messages != []
    ensures var j := m.relays[k].sync.peer;
            Linked(sys, k, j) && m.relays[k].sync.messages[0].value.signature in m.relays[j].past.inserted
  {
    var j := m.relays[k].sync.peer;
    assert Linked(sys, k, j) && PairInv(m.relays[k], j, m.relays[j]);
    assert m.relays[k].sync.messages[0] in m.relays[k].sync.messages;
  }

  lemma StepSourced(sys: System, m: State, step: Step)
    requires ValidSystem(sys) && MeshInv(sys, m) && FloodInv(sys, m) && Enabled(sys, m, step)
    ensures Sourced(sys, Apply(sys, m, step))
  {
    hide Inv, PairInv;
    var m' := Apply(sys, m, step);
    forall j, s | 0 <= j < |m'.relays| && s in m'.relays[j].past.inserted ensures exists o :: Origin(sys, m', s, o, j) {
      if s in m.relays[j].past.inserted { OriginGrows(sys, m, step, s, j); } else { NewlySourced(sys, m, step, s); }
    }
  }

  lemma NewlySourced(sys: System, m: State, step: Step, s: Signature)
    requires ValidSystem(sys) && MeshInv(sys, m) && FloodInv(sys, m) && Enabled(sys, m, step)
    requires s in Moved(sys, m, step).past.inserted - m.relays[Actor(m, step)].past.inserted
    ensures exists o :: Origin(sys, Apply(sys, m, step), s, o, Actor(m, step))
  {
    hide Inv, PairInv, Moved, Receive, PushesSound, Covered, OriginsStored;
    var m', k := Apply(sys, m, step), Actor(m, step);
    var i := NewSource(sys, m, step, s);
    if (k, s) in m'.origins {
      assert Route(sys, [k]) && [k][0] == k;
      assert Origin(sys, m', s, k, k);
    } else {
      OriginGrows(sys, m, step, s, i);
      var o :| Origin(sys, m', s, o, i);
      ReachesFurther(sys, o, i, k);
      assert Origin(sys, m', s, o, k);
    }
  }

  lemma OriginGrows(sys: System, m: State, step: Step, s: Signature, k: nat)
    requires ValidSystem(sys) && MeshInv(sys, m) && Sourced(sys, m) && Enabled(sys, m, step)
    requires k < |m.relays| && s in m.relays[k].past.inserted
    ensures exists o :: Origin(sys, Apply(sys, m, step), s, o, k)
  {
    hide Inv, PairInv;
    var o :| Origin(sys, m, s, o, k);
    assert Origin(sys, Apply(sys, m, step), s, o, k);
  }

  lemma StepCovered(sys: System, m: State, step: Step)
    requires ValidSystem(sys) && MeshInv(sys, m) && FloodInv(sys, m) && Enabled(sys, m, step)
    ensures Covered(sys, Apply(sys, m, step))
  {
    hide Inv, PairInv;
    var m' := Apply(sys, m, step);
    forall k, p, s | 0 <= k < |m'.relays| && p in sys.trust[k] && s in m'.relays[k].past.inserted
      ensures Passed(m', k, p, s)
    {
      if s in m.relays[k].past.inserted {
        StaysPassed(sys, m, step, k, p, s);
      } else {
        NewlyPassed(sys, m, step, p, s);
      }
    }
  }

  lemma StaysPassed(sys: System, m: State, step: Step, k: nat, p: nat, s: Signature)
    requires ValidSystem(sys) && MeshInv(sys, m) && Covered(sys, m) && Enabled(sys, m, step)
    requires k < |m.relays| && p in sys.trust[k] && s in m.relays[k].past.inserted
    ensures Passed(Apply(sys, m, step), k, p, s)
  {
    hide Inv, PairInv;
    assert Passed(m, k, p, s);
    MovedKeeps(sys, m, step);
    if push :| (push in m.inflight && push.PushMessage? && push.from == k && push.to == p
                && push.payload.signature == s) {
      PushStaysOrLands(sys, m, step, push);
    }
  }

  lemma NewlyPassed(sys: System, m: State, step: Step, p: nat, s: Signature)
    requires ValidSystem(sys) && MeshInv(sys, m) && Enabled(sys, m, step) && p in sys.trust[Actor(m, step)]
    requires s in Moved(sys, m, step).past.inserted - m.relays[Actor(m, step)].past.inserted
    ensures Passed(Apply(sys, m, step), Actor(m, step), p, s)
  {
    hide Inv, PairInv;
    var k := Actor(m, step);
    if OfferedBy(sys, m, step).None? { OtherStep(sys, m, step); } else { OfferedStep(sys, m, step); }
    var offered := OfferedBy(sys, m, step).value.0;
    var i :| 0 <= i < |sys.trust[k]| && sys.trust[k][i] == p;
    assert FanoutMessage(sys, k, offered)[i] == PushMessage(k, p, offered);
    assert PushMessage(k, p, offered) in Apply(sys, m, step).inflight;
  }

  // A push in flight is still in flight after a step, or has been stored, or is recorded as lost.
  lemma PushStaysOrLands(sys: System, m: State, step: Step, push: Push)
    requires ValidSystem(sys) && MeshInv(sys, m) && Enabled(sys, m, step)
    requires push in m.inflight && push.PushMessage? && push.to < |m.relays|
    ensures var m' := Apply(sys, m, step);
            || push in m'.inflight
            || push.payload.signature in m'.relays[push.to].past.inserted
            || (push.to, push.payload.signature) in m'.dropped
  {
    hide Inv, PairInv, Moved, Receive, Delete, Scheduled;
    if (step.Arrive? || step.Lose?) && m.inflight[step.push] == push {
      PushLands(sys, m, step);
    } else {
      var i :| 0 <= i < |m.inflight| && m.inflight[i] == push;
      if step.Arrive? || step.Lose? {
        assert i < step.push ==> Remaining(m, step)[i] == push;
        assert i > step.push ==> Remaining(m, step)[i - 1] == push;
      }
      assert push in Remaining(m, step);
    }
  }

  lemma PushLands(sys: System, m: State, step: Step)
    requires ValidSystem(sys) && MeshInv(sys, m) && Enabled(sys, m, step) && (step.Arrive? || step.Lose?)
    requires m.inflight[step.push].PushMessage?
    ensures var push := m.inflight[step.push];
            || push.payload.signature in Moved(sys, m, step).past.inserted
            || (push.to, push.payload.signature) in NewlyDropped(sys, m, step)
  {
    hide Inv, PairInv, Offer;
    var r := m.relays[m.inflight[step.push].to];
    assert Inv(sys.cfg, r);
    match Handled(sys, m, step)
    case Offered(p, g) =>
      ReceiveKeeps(sys.cfg, r, p, g);
      ReceiveRecords(sys.cfg, r, p, g);
    case _ =>
  }

  lemma StepFloods(sys: System, m: State, step: Step)
    requires ValidSystem(sys) && MeshInv(sys, m) && FloodInv(sys, m)
    ensures MeshInv(sys, Apply(sys, m, step)) && FloodInv(sys, Apply(sys, m, step))
  {
    hide Inv, PairInv;
    StepKeeps(sys, m, step);
    if Enabled(sys, m, step) {
      StepPushesSound(sys, m, step);
      StepSourced(sys, m, step);
      StepCovered(sys, m, step);
      StepOrigins(sys, m, step);
      StepDropped(sys, m, step);
    }
  }

  lemma StepDropped(sys: System, m: State, step: Step)
    requires ValidSystem(sys) && MeshInv(sys, m) && PushesSound(sys, m) && DroppedSound(sys, m) && Enabled(sys, m, step)
    ensures DroppedSound(sys, Apply(sys, m, step))
  {
    hide Inv, PairInv, Moved, Receive, Delete, Scheduled;
    var m' := Apply(sys, m, step);
    MovedKeeps(sys, m, step);
    forall p, s | (p, s) in m'.dropped
      ensures exists j: nat :: j < |m'.relays| && p in sys.trust[j] && s in m'.relays[j].past.inserted
    {
      if (p, s) in m.dropped {
        var j: nat :| j < |m.relays| && p in sys.trust[j] && s in m.relays[j].past.inserted;
        assert s in m'.relays[j].past.inserted;
      } else {
        var push := m.inflight[step.push];
        assert push in m.inflight && push.payload.signature == s && push.to == p;
        assert s in m'.relays[push.from].past.inserted;
      }
    }
  }

  lemma StepOrigins(sys: System, m: State, step: Step)
    requires ValidSystem(sys) && MeshInv(sys, m) && OriginsStored(m) && Enabled(sys, m, step)
    ensures OriginsStored(Apply(sys, m, step))
  {
    hide Inv, PairInv;
    MovedKeeps(sys, m, step);
    if step.Publish? {
      assert Inv(sys.cfg, m.relays[step.at]);
      ReceiveKeeps(sys.cfg, m.relays[step.at], step.payload, step.grants);
      MovedRecords(sys, m, step);
    }
  }

  lemma {:induction false} RunFloods(sys: System, steps: seq<Step>)
    requires ValidSystem(sys)
    ensures MeshInv(sys, After(sys, steps)) && FloodInv(sys, After(sys, steps))
  {
    if steps != [] {
      RunFloods(sys, steps[..|steps| - 1]);
      StepFloods(sys, After(sys, steps[..|steps| - 1]), steps[|steps| - 1]);
    }
  }

  lemma {:induction false} RouteCovered(sys: System, m: State, path: seq<nat>, s: Signature)
    requires ValidSystem(sys) && |m.relays| == |sys.trust| && Covered(sys, m) && Route(sys, path)
    requires forall p: nat | p < |m.relays| && (p, s) in m.dropped :: s in m.relays[p].past.inserted
    requires forall push | push in m.inflight && push.PushMessage? :: push.payload.signature != s
    requires s in m.relays[path[0]].past.inserted
    ensures s in m.relays[path[|path| - 1]].past.inserted
  {
    if |path| > 1 {
      assert Passed(m, path[0], path[1], s);
      RouteCovered(sys, m, path[1..], s);
    }
  }

  lemma NoneCarries(pushes: seq<Push>, s: Signature, push: Push)
    requires Carrying(pushes, s) == 0 && push in pushes && push.PushMessage?
    ensures push.payload.signature != s
  {
    var i :| 0 <= i < |pushes| && pushes[i] == push;
    CarryingWithout(pushes, i, s);
    if push.payload.signature == s { CarryingUniform([push], s, true); }
  }

  // A relay that has held s at some time.
  ghost predicate Held(sys: System, steps: seq<Step>, k: nat, s: Signature)
    requires ValidSystem(sys) && k < |sys.trust|
  {
    exists i | 0 <= i <= |steps| :: s in Stored(At(sys, steps, i, k).db)
  }

  ghost predicate Reached(sys: System, m: State, s: Signature, k: nat) {
    exists o :: Origin(sys, m, s, o, k)
  }

  // When no push of s is in flight: the relays that have held s are exactly those reachable,
  // along trust edges, from a relay a client published it to, if and only if every relay that
  // lost a push of it has held it all the same.
  lemma FloodCompletesIff(sys: System, steps: seq<Step>, s: Signature)
    requires ValidSystem(sys) && Carrying(After(sys, steps).inflight, s) == 0
    ensures (forall k: nat | k < |sys.trust| :: Held(sys, steps, k, s) <==> Reached(sys, After(sys, steps), s, k))
       <==> (forall p: nat | p < |sys.trust| && (p, s) in After(sys, steps).dropped :: Held(sys, steps, p, s))
  {
    hide Held, Reached, FloodInv, Apply;
    var m := After(sys, steps);
    RunFloods(sys, steps);
    assert steps[..|steps|] == steps;
    forall k: nat | k < |sys.trust| ensures Held(sys, steps, k, s) <==> s in m.relays[k].past.inserted {
      HeldIsRecorded(sys, steps, k, s);
    }
    FloodReachesIff(sys, m, s);
  }

  lemma HeldIsRecorded(sys: System, steps: seq<Step>, k: nat, s: Signature)
    requires ValidSystem(sys) && k < |sys.trust|
    ensures |After(sys, steps).relays| == |sys.trust|
    ensures Held(sys, steps, k, s) <==> s in After(sys, steps).relays[k].past.inserted
  {
    RunKeeps(sys, steps);
    EverStored(sys, steps, k, s);
    assert steps[..|steps|] == steps;
  }

  lemma FloodReachesIff(sys: System, m: State, s: Signature)
    requires ValidSystem(sys) && |sys.trust| == |m.relays| && FloodInv(sys, m) && Carrying(m.inflight, s) == 0
    ensures (forall k: nat | k < |m.relays| :: s in m.relays[k].past.inserted <==> Reached(sys, m, s, k))
       <==> (forall p: nat | p < |m.relays| && (p, s) in m.dropped :: s in m.relays[p].past.inserted)
  {
    hide Inv, PairInv, Covered, PushesSound, Origin;
    if forall p: nat | p < |m.relays| && (p, s) in m.dropped :: s in m.relays[p].past.inserted {
      forall k: nat | k < |m.relays| ensures s in m.relays[k].past.inserted <==> Reached(sys, m, s, k) {
        FloodReaches(sys, m, s, k);
      }
    }
    if forall k: nat | k < |m.relays| :: s in m.relays[k].past.inserted <==> Reached(sys, m, s, k) {
      forall p: nat | p < |m.relays| && (p, s) in m.dropped ensures s in m.relays[p].past.inserted {
        var j: nat :| j < |m.relays| && p in sys.trust[j] && s in m.relays[j].past.inserted;
        ReachedNext(sys, m, s, j, p);
      }
    }
  }

  lemma ReachedNext(sys: System, m: State, s: Signature, j: nat, p: nat)
    requires Reached(sys, m, s, j) && j < |sys.trust| && p < |sys.trust| && p in sys.trust[j]
    ensures Reached(sys, m, s, p)
  {
    var o :| Origin(sys, m, s, o, j);
    ReachesFurther(sys, o, j, p);
    assert Origin(sys, m, s, o, p);
  }

  lemma FloodReaches(sys: System, m: State, s: Signature, k: nat)
    requires ValidSystem(sys) && k < |sys.trust| == |m.relays| && FloodInv(sys, m) && Carrying(m.inflight, s) == 0
    requires forall p: nat | p < |m.relays| && (p, s) in m.dropped :: s in m.relays[p].past.inserted
    ensures s in m.relays[k].past.inserted <==> Reached(sys, m, s, k)
  {
    hide Inv, PairInv;
    if o :| Origin(sys, m, s, o, k) {
      var path :| Route(sys, path) && path[0] == o && path[|path| - 1] == k;
      forall push | push in m.inflight && push.PushMessage? ensures push.payload.signature != s {
        NoneCarries(m.inflight, s, push);
      }
      RouteCovered(sys, m, path, s);
    }
  }
}
