// Who may delete: every tombstone in the mesh goes back to a request its recipient signed
// and to a relay that found the message's own address among that recipient's candidates.
module Provenance {
  import opened Protocol
  import opened Tables
  import opened Store
  import opened RelaySpec
  import opened Mesh
  import opened Runs

  // A row a delete request wrote at relay r.
  ghost predicate FromRequest(cfg: Config, r: Relay, q: DeleteRequest, d: Deletion) {
    && q.authentic
    && d.target == q.target && d.requester == q.requester && d.requestedAt == r.clock
    && (d.confirmed ==>
          && d.requesterRecipient in Candidates(q.requester, cfg.maxTtl, r.clock)
          && exists row | row in r.db.messages.rows ::
               row.value.signature == d.target && row.value.recipient == d.requesterRecipient)
  }

  // A tombstone written when the message of a pending claim arrived at relay r.
  ghost predicate FromArrival(cfg: Config, r: Relay, p: Payload, d: Deletion) {
    && d.confirmed && d.target == p.signature && d.requestedAt == r.clock
    && Verifies(p) && d.requesterRecipient == p.recipient
    && d.requesterRecipient in Candidates(d.requester, cfg.maxTtl, r.clock)
    && exists row | row in r.db.deletions.rows ::
         !row.value.confirmed && row.value.target == d.target && row.value.requester == d.requester
  }

  lemma RequestRows(cfg: Config, r: Relay, q: DeleteRequest, g: Grants, row: Row<Deletion>)
    requires row in Delete(cfg, r, q, g).0.db.deletions.rows
    ensures row in r.db.deletions.rows || FromRequest(cfg, r, q, row.value)
  {
  }

  lemma ArrivalRows(cfg: Config, r: Relay, p: Payload, g: Grants, row: Row<Deletion>)
    requires row in Offer(cfg, r.db, p, g, r.clock).0.deletions.rows
    ensures row in r.db.deletions.rows || FromArrival(cfg, r, p, row.value)
  {
    if row !in r.db.deletions.rows {
      assert Offer(cfg, r.db, p, g, r.clock).0.deletions
          == Resolve(cfg, r.db, p.signature, p.recipient, r.clock).0.deletions;
      var claim := FindDeletion(r.db.deletions.rows, p.signature).value;
      assert row.value == Deletion(p.signature, claim.requester, p.recipient, true, r.clock);
    }
  }

  // --- Every claim was signed by its requester ---

  ghost predicate Signed(m: State, d: Deletion) {
    (d.requester, d.target) in m.issued
  }

  ghost predicate RelaySigned(m: State, r: Relay) {
    && (forall row | row in r.db.deletions.rows :: Signed(m, row.value))
    && (r.sync.Deletions? ==> forall row | row in r.sync.deletions :: Signed(m, row.value))
  }

  ghost predicate AllSigned(m: State) {
    && (forall k | 0 <= k < |m.relays| :: RelaySigned(m, m.relays[k]))
    && (forall push | push in m.inflight && push.PushDelete? ::
          push.request.authentic && (push.request.requester, push.request.target) in m.issued)
  }

  lemma MovedSigned(sys: System, m: State, step: Step)
    requires ValidSystem(sys) && MeshInv(sys, m) && AllSigned(m) && Enabled(sys, m, step)
    ensures RelaySigned(Apply(sys, m, step), Moved(sys, m, step))
  {
    hide Inv, PairInv;
    var m' := Apply(sys, m, step);
    var r, r' := m.relays[Actor(m, step)], Moved(sys, m, step);
    assert RelaySigned(m, r) && m.issued <= m'.issued;
    match Handled(sys, m, step)
    case Offered(p, g) =>
      forall row | row in r'.db.deletions.rows ensures Signed(m', row.value) { ArrivalRows(sys.cfg, r, p, g, row); }
    case Asked(q, g) =>
      forall row | row in r'.db.deletions.rows ensures Signed(m', row.value) { RequestRows(sys.cfg, r, q, g, row); }
    case Nothing => PassiveSigned(sys, m, step);
  }

  lemma PassiveSigned(sys: System, m: State, step: Step)
    requires ValidSystem(sys) && MeshInv(sys, m) && AllSigned(m) && Enabled(sys, m, step)
    requires Handled(sys, m, step).Nothing?
    ensures RelaySigned(m, Moved(sys, m, step))
  {
    hide Inv, PairInv;
    var r, r' := m.relays[Actor(m, step)], Moved(sys, m, step);
    assert RelaySigned(m, r);
    match step
    case NextMessage(_, g) =>
      if r.sync.Messages? && r.sync.messages != [] {
        PullOneMessageKeeps(sys.cfg, r, g);
        forall row | row in r'.db.deletions.rows ensures Signed(m, row.value) {
          ArrivalRows(sys.cfg, r, r.sync.messages[0].value, g, row);
        }
      }
    case NextDeletion(_, g) =>
      if r.sync.Deletions? && r.sync.deletions != [] { assert r.sync.deletions[0] in r.sync.deletions; }
    case OpenDeletions(k, j) =>
      if Linked(sys, k, j) { assert RelaySigned(m, m.relays[j]); }
    case _ =>
  }

  lemma StepSigned(sys: System, m: State, step: Step)
    requires ValidSystem(sys) && MeshInv(sys, m) && AllSigned(m)
    ensures AllSigned(Apply(sys, m, step))
  {
    hide Inv, PairInv;
    if Enabled(sys, m, step) {
      MovedSigned(sys, m, step);
      var m' := Apply(sys, m, step);
      forall k | 0 <= k < |m'.relays| ensures RelaySigned(m', m'.relays[k]) {
        if k != Actor(m, step) { assert RelaySigned(m, m.relays[k]); }
      }
    }
  }

  lemma {:induction false} RunSigned(sys: System, steps: seq<Step>)
    requires ValidSystem(sys)
    ensures AllSigned(After(sys, steps))
  {
    if steps != [] {
      RunKeeps(sys, steps[..|steps| - 1]);
      RunSigned(sys, steps[..|steps| - 1]);
      StepSigned(sys, After(sys, steps[..|steps| - 1]), steps[|steps| - 1]);
    }
  }

  // --- Main results ---

  // The owner of an address: whose key it blinds.
  ghost predicate Owns(key: Key, recipient: RecipientId) {
    recipient.Blind? && recipient.key == key
  }

  lemma {:induction false} IssuedGrows(sys: System, steps: seq<Step>, i: nat, j: nat)
    requires i <= j <= |steps|
    ensures After(sys, steps[..i]).issued <= After(sys, steps[..j]).issued
    decreases j - i
  {
    if i < j {
      IssuedGrows(sys, steps, i, j - 1);
      Prefix(sys, steps, j - 1);
    }
  }

  // A tombstone anywhere in a run was signed for by the owner of the message's address.
  lemma OwnerSigned(sys: System, steps: seq<Step>, i: nat, k: nat, s: Signature)
    requires ValidSystem(sys) && i <= |steps| && k < |sys.trust| && s in Confirmed(At(sys, steps, i, k).db)
    ensures s.Genuine? && exists key :: Owns(key, s.recipient) && (key, s) in After(sys, steps[..i]).issued
  {
    hide PairInv, WellFormed, Disjoint, MessagesSound, Apply;
    RunKeeps(sys, steps[..i]);
    RunSigned(sys, steps[..i]);
    var m, r := After(sys, steps[..i]), At(sys, steps, i, k);
    assert Inv(sys.cfg, r) && RelaySigned(m, r);
    var row :| row in r.db.deletions.rows && row.value.confirmed && row.value.target == s;
    assert SoundTombstone(sys.cfg, row.value) && Signed(m, row.value);
    assert Owns(row.value.requester, s.recipient);
  }

  // A message stored at some point is stored still, unless its text has lapsed there or the
  // owner of its address signed a request to delete it.
  lemma OnlyOwnersDelete(sys: System, steps: seq<Step>, i: nat, k: nat, s: Signature)
    requires ValidSystem(sys) && i <= |steps| && k < |sys.trust|
    requires s in Stored(At(sys, steps, i, k).db)
    ensures s.Genuine?
    ensures var r := At(sys, steps, |steps|, k);
            || s in Stored(r.db)
            || s.expiry.lapsesAt <= r.clock
            || exists key :: Owns(key, s.recipient) && (key, s) in After(sys, steps).issued
  {
    hide PairInv, WellFormed, Disjoint, MessagesSound, Apply, Stored, Confirmed, Owns;
    var n := |steps|;
    assert steps[..n] == steps;
    RunKeeps(sys, steps[..i]);
    assert Inv(sys.cfg, At(sys, steps, i, k));
    RecordGrows(sys, steps, i, n, k);
    RunKeeps(sys, steps);
    var r := At(sys, steps, n, k);
    assert Inv(sys.cfg, r);
    if s in r.past.confirmed {
      ConfirmedWasTombstone(sys, steps, n, k, s);
      var at :| 0 <= at <= n && s in Confirmed(At(sys, steps, at, k).db);
      OwnerSigned(sys, steps, at, k, s);
      IssuedGrows(sys, steps, at, n);
    }
  }

  // Step i of the run, at relay o, made this tombstone by its own check.
  ghost predicate ChecksAt(sys: System, steps: seq<Step>, i: nat, o: nat, d: Deletion)
    requires ValidSystem(sys) && i < |steps|
  {
    var m := After(sys, steps[..i]);
    && Enabled(sys, m, steps[i]) && Actor(m, steps[i]) == o
    && d.confirmed
    && var input := Handled(sys, m, steps[i]);
       || (input.Asked? && FromRequest(sys.cfg, m.relays[o], input.request, d))
       || (OfferedBy(sys, m, steps[i]).Some?
           && FromArrival(sys.cfg, m.relays[o], OfferedBy(sys, m, steps[i]).value.0, d))
  }

  ghost predicate Holds(r: Relay, d: Deletion) {
    || (exists row | row in r.db.deletions.rows :: row.value == d)
    || (r.sync.Deletions? && exists row | row in r.sync.deletions :: row.value == d)
  }

  // A tombstone a relay holds after a step: held before it by some relay, or made by it.
  lemma TombstoneSource(sys: System, steps: seq<Step>, i: nat, k: nat, d: Deletion)
    requires ValidSystem(sys) && i < |steps| && k < |sys.trust| && d.confirmed
    requires Holds(At(sys, steps, i + 1, k), d)
    ensures || ChecksAt(sys, steps, i, k, d)
            || exists j | 0 <= j < |sys.trust| :: Holds(At(sys, steps, i, j), d)
  {
    hide Inv, PairInv;
    RunKeeps(sys, steps[..i]);
    Prefix(sys, steps, i);
    var m, step := After(sys, steps[..i]), steps[i];
    if Enabled(sys, m, step) && Actor(m, step) == k {
      MovedSource(sys, m, step, d);
      if !Holds(m.relays[k], d) && step.OpenDeletions? && Linked(sys, k, step.peer) && Holds(m.relays[step.peer], d) {
        assert Holds(At(sys, steps, i, step.peer), d);
      } else if Holds(m.relays[k], d) {
        assert Holds(At(sys, steps, i, k), d);
      }
    } else {
      assert Holds(At(sys, steps, i, k), d);
    }
  }

  lemma MovedSource(sys: System, m: State, step: Step, d: Deletion)
    requires ValidSystem(sys) && MeshInv(sys, m) && Enabled(sys, m, step) && d.confirmed
    requires Holds(Moved(sys, m, step), d)
    ensures var r := m.relays[Actor(m, step)];
            || Holds(r, d)
            || (Handled(sys, m, step).Asked? && FromRequest(sys.cfg, r, Handled(sys, m, step).request, d))
            || (OfferedBy(sys, m, step).Some? && FromArrival(sys.cfg, r, OfferedBy(sys, m, step).value.0, d))
            || (step.OpenDeletions? && Linked(sys, Actor(m, step), step.peer) && Holds(m.relays[step.peer], d))
  {
    hide Inv, PairInv, FromRequest, FromArrival;
    var r, r' := m.relays[Actor(m, step)], Moved(sys, m, step);
    if row :| row in r'.db.deletions.rows && row.value == d {
      match Handled(sys, m, step)
      case Offered(p, g) => ArrivalRows(sys.cfg, r, p, g, row);
      case Asked(q, g) => RequestRows(sys.cfg, r, q, g, row);
      case Nothing =>
        if step.NextMessage? && r.sync.Messages? && r.sync.messages != [] {
          PullOneMessageKeeps(sys.cfg, r, step.grants);
          ArrivalRows(sys.cfg, r, r.sync.messages[0].value, step.grants, row);
        } else if step.NextDeletion? && r.sync.Deletions? && r.sync.deletions != [] {
          ReconciledRows(sys.cfg, r, step.grants, row);
        }
    } else {
      var row :| row in r'.sync.deletions && row.value == d;
      PageSource(sys, m, step, row);
    }
  }

  lemma ReconciledRows(cfg: Config, r: Relay, g: Grants, row: Row<Deletion>)
    requires Inv(cfg, r) && r.sync.Deletions? && r.sync.deletions != []
    requires row in PullOneDeletion(r, g).db.deletions.rows
    ensures row in r.db.deletions.rows || row.value == r.sync.deletions[0].value
    ensures r.sync.deletions[0] in r.sync.deletions
  {
    var item := r.sync.deletions[0].value;
    assert r.sync.deletions[0] in r.sync.deletions;
    assert item.(confirmed := true) == item;
  }

  lemma PageSource(sys: System, m: State, step: Step, row: Row<Deletion>)
    requires ValidSystem(sys) && MeshInv(sys, m) && Enabled(sys, m, step)
    requires Moved(sys, m, step).sync.Deletions? && row in Moved(sys, m, step).sync.deletions
    ensures var r := m.relays[Actor(m, step)];
            || (r.sync.Deletions? && row in r.sync.deletions)
            || (step.OpenDeletions? && Linked(sys, Actor(m, step), step.peer) && Holds(m.relays[step.peer], row.value))
  {
    var r := m.relays[Actor(m, step)];
    assert Inv(sys.cfg, r);
  }

  // Every tombstone anywhere in the mesh was made by a relay that checked, by its own
  // clock at that moment, that the message's own address is one of the requester's.
  lemma {:induction false} TombstoneOrigin(sys: System, steps: seq<Step>, n: nat, k: nat, d: Deletion)
    requires ValidSystem(sys) && n <= |steps| && k < |sys.trust| && d.confirmed
    requires Holds(At(sys, steps, n, k), d)
    ensures exists i, o | 0 <= i < n && 0 <= o < |sys.trust| :: ChecksAt(sys, steps, i, o, d)
  {
    if n > 0 {
      TombstoneSource(sys, steps, n - 1, k, d);
      if !ChecksAt(sys, steps, n - 1, k, d) {
        var j :| 0 <= j < |sys.trust| && Holds(At(sys, steps, n - 1, j), d);
        TombstoneOrigin(sys, steps, n - 1, j, d);
      }
    }
  }

  // A request for a message held here by someone who does not own its address changes
  // nothing at all, and is answered like a request for an unknown message.
  lemma StrangerChangesNothing(cfg: Config, r: Relay, q: DeleteRequest, g: Grants)
    requires Inv(cfg, r) && q.target in Stored(r.db) && !Owns(q.requester, q.target.recipient)
    ensures Delete(cfg, r, q, g) == (r, false)
  {
    hide WellFormed, TombstonesSound, Accounted;
    FindsStored(r.db, q.target);
    var p := FindMessage(r.db.messages.rows, q.target).value;
    var row :| row in r.db.messages.rows && row.value == p;
    assert Verifies(row.value);
    assert HandleDelete(cfg, r.db, q, r.clock) == (r.db, false);
    Unchanged(cfg, r);
  }
}
