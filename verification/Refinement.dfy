// A pull by the anti-entropy thread is a run of the mesh: opening a page, one step for each
// of its rows, and closing it leave exactly the tables, the cursor and the pushes that the
// loop over the page leaves. What is proved of every run of the mesh therefore holds of it.
module Refinement {
  import opened Protocol
  import opened Tables
  import opened Store
  import opened RelaySpec
  import opened Wire
  import opened Mesh
  import opened RelayDatabase
  import AntiEntropy
  import Answers
  import RateLimit
  import RelayHandlers

  ghost function ApplyAll(sys: System, m: State, steps: seq<Step>): State {
    if steps == [] then m
    else Apply(sys, ApplyAll(sys, m, steps[..|steps| - 1]), steps[|steps| - 1])
  }

  lemma ApplyOneMore(sys: System, m: State, steps: seq<Step>, step: Step)
    ensures ApplyAll(sys, m, steps + [step]) == Apply(sys, ApplyAll(sys, m, steps), step)
  {
    assert (steps + [step])[..|steps|] == steps;
  }

  // Steps after a run make a longer run.
  lemma {:induction false} RunGoesOn(sys: System, before: seq<Step>, steps: seq<Step>)
    ensures ApplyAll(sys, After(sys, before), steps) == After(sys, before + steps)
  {
    hide Apply;
    if steps == [] {
      assert before + steps == before;
    } else {
      RunGoesOn(sys, before, steps[..|steps| - 1]);
      assert (before + steps)[..|before + steps| - 1] == before + steps[..|steps| - 1];
    }
  }

  // --- Messages ---

  // The clock readings of a page never go back.
  ghost predicate Monotone(moments: seq<Moment>, clock: int) {
    moments != [] ==>
      && Monotone(moments[..|moments| - 1], clock)
      && LastClock(moments[..|moments| - 1], clock) <= moments[|moments| - 1].now
  }

  function LastClock(moments: seq<Moment>, clock: int): int {
    if moments == [] then clock else moments[|moments| - 1].now
  }

  ghost function RowSteps(k: nat, moments: seq<Moment>, clock: int): seq<Step>
    requires Monotone(moments, clock)
  {
    if moments == [] then []
    else
      var front, last := moments[..|moments| - 1], moments[|moments| - 1];
      RowSteps(k, front, clock) + [Tick(k, last.now - LastClock(front, clock)), NextMessage(k, last.grants)]
  }

  function PushAll(sys: System, k: nat, payloads: seq<Payload>): seq<Push>
    requires k < |sys.trust|
  {
    if payloads == [] then []
    else PushAll(sys, k, payloads[..|payloads| - 1]) + FanoutMessage(sys, k, payloads[|payloads| - 1])
  }

  // The mesh has read as much of the page as `end` has.
  ghost predicate ReadSoFar(sys: System, m: State, k: nat, peer: nat, rest: seq<Row<Payload>>, end: Reading,
                            clock: int, m': State)
    requires k < |sys.trust| == |m.relays|
  {
    && |m'.relays| == |m.relays|
    && (forall j | 0 <= j < |m.relays| && j != k :: m'.relays[j] == m.relays[j])
    && m'.inflight == m.inflight + PushAll(sys, k, end.pushed)
    && var r, r' := m.relays[k], m'.relays[k];
       && r'.db == end.db && r'.clock == clock
       && r'.cursors == r.cursors && r'.deletionCursors == r.deletionCursors
       && r'.sync == Messages(peer, if end.stopped then [] else rest, end.maxId)
  }

  lemma PushOneMore(sys: System, k: nat, payloads: seq<Payload>, p: Payload)
    requires k < |sys.trust|
    ensures PushAll(sys, k, payloads + [p]) == PushAll(sys, k, payloads) + FanoutMessage(sys, k, p)
    ensures payloads + [] == payloads
  {
    assert (payloads + [p])[..|payloads|] == payloads;
  }

  // One row: time passes, and the row goes through the gates.
  lemma ReadsRow(sys: System, m: State, k: nat, peer: nat, rest: seq<Row<Payload>>, end: Reading, clock: int,
                 m': State, t: Moment)
    requires k < |sys.trust| == |m.relays| && rest != [] && clock <= t.now
    requires ReadSoFar(sys, m, k, peer, rest, end, clock, m')
    ensures ReadSoFar(sys, m, k, peer, rest[1..], ReadRow(sys.cfg, end, rest[0], t), t.now,
                      Apply(sys, Apply(sys, m', Tick(k, t.now - clock)), NextMessage(k, t.grants)))
  {
    hide Apply, ReadSoFar, ReadRow;
    TimePasses(sys, m, k, peer, rest, end, clock, m', t.now);
    ReadsNext(sys, m, k, peer, rest, end, Apply(sys, m', Tick(k, t.now - clock)), t);
  }

  lemma TimePasses(sys: System, m: State, k: nat, peer: nat, rest: seq<Row<Payload>>, end: Reading, clock: int,
                   m': State, now: int)
    requires k < |sys.trust| == |m.relays| && clock <= now && ReadSoFar(sys, m, k, peer, rest, end, clock, m')
    ensures ReadSoFar(sys, m, k, peer, rest, end, now, Apply(sys, m', Tick(k, now - clock)))
  {
  }

  // What a row step does to the mesh.
  lemma RowStepEffect(sys: System, m: State, k: nat, g: Grants)
    requires k < |sys.trust| == |m.relays| && m.relays[k].sync.Messages?
    ensures var r, m' := m.relays[k], Apply(sys, m, NextMessage(k, g));
            if r.sync.messages == [] then m'.relays == m.relays && m'.inflight == m.inflight
            else
              var (r', outcome) := PullOneMessage(sys.cfg, r, g);
              && m'.relays == m.relays[k := r']
              && m'.inflight == m.inflight
                                + if outcome.Accepted? then FanoutMessage(sys, k, r.sync.messages[0].value) else []
  {
    hide PullOneMessage, Receive, Delete;
  }

  lemma ReadsNext(sys: System, m: State, k: nat, peer: nat, rest: seq<Row<Payload>>, end: Reading, m': State, t: Moment)
    requires k < |sys.trust| == |m.relays| && rest != [] && ReadSoFar(sys, m, k, peer, rest, end, t.now, m')
    ensures ReadSoFar(sys, m, k, peer, rest[1..], ReadRow(sys.cfg, end, rest[0], t), t.now,
                      Apply(sys, m', NextMessage(k, t.grants)))
  {
    hide Apply, Offer, PushAll;
    PushOneMore(sys, k, end.pushed, rest[0].value);
    RowStepEffect(sys, m', k, t.grants);
    assert m'.inflight + [] == m'.inflight;
  }

  lemma {:induction false} ReadsPage(sys: System, m: State, k: nat, peer: nat, page: seq<Row<Payload>>, start: Reading,
                                     moments: seq<Moment>, clock: int, atStart: State)
    requires k < |sys.trust| == |m.relays| && |moments| <= |page| && Monotone(moments, clock)
    requires ReadSoFar(sys, m, k, peer, page, start, clock, atStart)
    ensures ReadSoFar(sys, m, k, peer, page[|moments|..], ReadPage(sys.cfg, start, page[..|moments|], moments),
                      LastClock(moments, clock), ApplyAll(sys, atStart, RowSteps(k, moments, clock)))
  {
    hide ReadSoFar, Apply, ReadRow, ReadPage, RowSteps;
    var n := |moments|;
    if n == 0 {
      assert page[0..] == page && page[..0] == [];
      NothingRead(sys.cfg, start, k, clock);
    } else {
      var front, last := moments[..n - 1], moments[n - 1];
      ReadsPage(sys, m, k, peer, page, start, front, clock, atStart);
      var mid := ApplyAll(sys, atStart, RowSteps(k, front, clock));
      ReadsRow(sys, m, k, peer, page[n - 1..], ReadPage(sys.cfg, start, page[..n - 1], front),
               LastClock(front, clock), mid, last);
      ReadsOneMore(sys, start, page, moments, k, clock, atStart);
      assert page[n - 1..][1..] == page[n..];
    }
  }

  lemma NothingRead(cfg: Config, start: Reading, k: nat, clock: int)
    ensures ReadPage(cfg, start, [], []) == start && RowSteps(k, [], clock) == []
  {
  }

  // The last row of a page, in the loop and in the steps.
  lemma ReadsOneMore(sys: System, start: Reading, page: seq<Row<Payload>>, moments: seq<Moment>, k: nat,
                     clock: int, m: State)
    requires 0 < |moments| <= |page| && Monotone(moments, clock)
    ensures var n := |moments|;
            var front, last := moments[..n - 1], moments[n - 1];
            && ReadPage(sys.cfg, start, page[..n], moments)
               == ReadRow(sys.cfg, ReadPage(sys.cfg, start, page[..n - 1], front), page[n - 1], last)
            && ApplyAll(sys, m, RowSteps(k, moments, clock))
               == Apply(sys, Apply(sys, ApplyAll(sys, m, RowSteps(k, front, clock)),
                                   Tick(k, last.now - LastClock(front, clock))),
                        NextMessage(k, last.grants))
  {
    hide Apply, ReadRow;
    var n := |moments|;
    var front, last := moments[..n - 1], moments[n - 1];
    var tick, next := Tick(k, last.now - LastClock(front, clock)), NextMessage(k, last.grants);
    assert page[..n][..n - 1] == page[..n - 1];
    ApplyOneMore(sys, m, RowSteps(k, front, clock), tick);
    ApplyOneMore(sys, m, RowSteps(k, front, clock) + [tick], next);
    assert RowSteps(k, moments, clock) == RowSteps(k, front, clock) + [tick] + [next];
  }

  // Pulling from a peer, row by row.
  ghost function PullSteps(k: nat, peer: nat, moments: seq<Moment>, clock: int): seq<Step>
    requires Monotone(moments, clock)
  {
    [OpenMessages(k, peer)] + RowSteps(k, moments, clock) + [CloseMessages(k)]
  }

  lemma PullIsMeshRun(sys: System, m: State, k: nat, peer: nat, moments: seq<Moment>)
    requires ValidSystem(sys) && MeshInv(sys, m) && Linked(sys, k, peer) && m.relays[k].sync.Idle?
    requires Monotone(moments, m.relays[k].clock)
    requires var page := MessagePage(m.relays[k], peer, m.relays[peer]);
             |moments| == |page| && MessagesFit(page)
    ensures var r := m.relays[k];
            var since := Cursor(r.cursors, peer);
            var page := MessagePage(r, peer, m.relays[peer]);
            var end := ReadPage(sys.cfg, Reading(r.db, since, false, []), page, moments);
            var m' := ApplyAll(sys, m, PullSteps(k, peer, moments, r.clock));
            && |m'.relays| == |m.relays|
            && m'.relays[k].db == end.db && m'.relays[k].sync.Idle?
            && m'.relays[k].cursors == r.cursors[peer := end.maxId]
            && m'.relays[k].deletionCursors == r.deletionCursors
            && m'.inflight == m.inflight + PushAll(sys, k, end.pushed)
            && forall j | 0 <= j < |m.relays| && j != k :: m'.relays[j] == m.relays[j]
  {
    hide Inv, PairInv, ReadPage, MessagePage, MessagesFit, RowSteps;
    var r, since := m.relays[k], Cursor(m.relays[k].cursors, peer);
    var page := MessagePage(r, peer, m.relays[peer]);
    var start := Reading(r.db, since, false, []);
    var atStart := Apply(sys, m, OpenMessages(k, peer));
    OpensPage(sys, m, k, peer);
    ReadsPage(sys, m, k, peer, page, start, moments, r.clock, atStart);
    var rows := RowSteps(k, moments, r.clock);
    SessionOf(sys, m, OpenMessages(k, peer), rows, CloseMessages(k));
    assert page[..|page|] == page && page[|page|..] == [];
    ClosesPage(sys, m, k, peer, ReadPage(sys.cfg, start, page, moments), LastClock(moments, r.clock),
               ApplyAll(sys, atStart, rows));
  }

  lemma OpensPage(sys: System, m: State, k: nat, peer: nat)
    requires ValidSystem(sys) && MeshInv(sys, m) && Linked(sys, k, peer) && m.relays[k].sync.Idle?
    requires MessagesFit(MessagePage(m.relays[k], peer, m.relays[peer]))
    ensures var r := m.relays[k];
            ReadSoFar(sys, m, k, peer, MessagePage(r, peer, m.relays[peer]),
                      Reading(r.db, Cursor(r.cursors, peer), false, []), r.clock, Apply(sys, m, OpenMessages(k, peer)))
  {
    hide PairInv, Inv, MessagesFit, MessagePage;
  }

  lemma ClosesPage(sys: System, m: State, k: nat, peer: nat, end: Reading, clock: int, m': State)
    requires k < |sys.trust| == |m.relays| && ReadSoFar(sys, m, k, peer, [], end, clock, m')
    ensures var closed := Apply(sys, m', CloseMessages(k));
            && closed.relays == m'.relays[k :=
                 m'.relays[k].(cursors := m'.relays[k].cursors[peer := end.maxId], sync := Idle)]
            && closed.inflight == m'.inflight
  {
  }

  lemma {:induction false} SessionOf(sys: System, m: State, open: Step, rows: seq<Step>, close: Step)
    ensures ApplyAll(sys, m, [open] + rows + [close]) == Apply(sys, ApplyAll(sys, Apply(sys, m, open), rows), close)
  {
    ApplyOneMore(sys, m, [open] + rows, close);
    HeadFirst(sys, m, open, rows);
  }

  lemma {:induction false} HeadFirst(sys: System, m: State, open: Step, rows: seq<Step>)
    ensures ApplyAll(sys, m, [open] + rows) == ApplyAll(sys, Apply(sys, m, open), rows)
  {
    hide Apply;
    if rows == [] {
      assert [open] + rows == [open] && [open][..0] == [];
    } else {
      HeadFirst(sys, m, open, rows[..|rows| - 1]);
      assert ([open] + rows)[..|rows|] == [open] + rows[..|rows| - 1];
    }
  }

  // --- The class's page, with a limiter that is spent as it goes, is such a page ---

  function MomentsOf(cfg: Config, s: AntiEntropy.Pulling, page: seq<Row<Payload>>, peer: RateLimit.Identity,
                     clock: nat -> AntiEntropy.Instant): (moments: seq<Moment>)
    ensures |moments| == |page|
    ensures forall i | 0 <= i < |page| :: moments[i].now == clock(i).now
  {
    if page == [] then []
    else
      var front, t := page[..|page| - 1], clock(|page| - 1);
      var reached := AntiEntropy.PullPage(cfg, s, front, peer, clock);
      MomentsOf(cfg, s, front, peer, clock) + [Moment(RelayHandlers.SplitGrants(reached.limiter, peer, t.at), t.now)]
  }

  lemma {:induction false} PullIsRead(cfg: Config, s: AntiEntropy.Pulling, page: seq<Row<Payload>>,
                                      peer: RateLimit.Identity, clock: nat -> AntiEntropy.Instant)
    ensures AntiEntropy.PullPage(cfg, s, page, peer, clock).reading
         == ReadPage(cfg, s.reading, page, MomentsOf(cfg, s, page, peer, clock))
  {
    if page != [] {
      var front := page[..|page| - 1];
      PullIsRead(cfg, s, front, peer, clock);
      assert MomentsOf(cfg, s, page, peer, clock)[..|page| - 1] == MomentsOf(cfg, s, front, peer, clock);
    }
  }

  lemma {:induction false} MonotoneClock(moments: seq<Moment>, clock: int)
    requires moments != [] ==> clock <= moments[0].now
    requires forall i, j | 0 <= i < j < |moments| :: moments[i].now <= moments[j].now
    ensures Monotone(moments, clock)
  {
    if moments != [] { MonotoneClock(moments[..|moments| - 1], clock); }
  }

  // So a sync with a peer, from any reachable state of the mesh, is a run of it: the tables,
  // the cursor and the pushes it leaves are those of a reachable state. A page too large
  // leaves the state as it was.
  lemma SyncReachesMeshState(sys: System, before: seq<Step>, k: nat, peer: nat, limiter: RateLimit.Limiter,
                             clock: nat -> AntiEntropy.Instant) returns (steps: seq<Step>)
    requires ValidSystem(sys) && Linked(sys, k, peer) && |After(sys, before).relays| == |sys.trust|
    requires After(sys, before).relays[k].sync.Idle?
    requires forall i: nat :: After(sys, before).relays[k].clock <= clock(i).now
    requires forall i: nat, j: nat | i < j :: clock(i).now <= clock(j).now
    ensures var m, m' := After(sys, before), After(sys, before + steps);
            var r, since := m.relays[k], Cursor(m.relays[k].cursors, peer);
            var page := MessagePage(r, peer, m.relays[peer]);
            var end := AntiEntropy.PullPage(sys.cfg, AntiEntropy.Pulling(Reading(r.db, since, false, []), limiter),
                                            page, peer, clock).reading;
            if MessagesFit(page)
            then && |m'.relays| == |m.relays|
                 && m'.relays[k].db == end.db && m'.relays[k].cursors == r.cursors[peer := end.maxId]
                 && m'.inflight == m.inflight + PushAll(sys, k, end.pushed)
            else m' == m
  {
    hide MeshInv, ReadPage, MessagePage, MessagesFit, Apply;
    var m := After(sys, before);
    RunKeeps(sys, before);
    var r, since := m.relays[k], Cursor(m.relays[k].cursors, peer);
    var page := MessagePage(r, peer, m.relays[peer]);
    if MessagesFit(page) {
      var start := AntiEntropy.Pulling(Reading(r.db, since, false, []), limiter);
      var moments := MomentsOf(sys.cfg, start, page, peer, clock);
      PullIsRead(sys.cfg, start, page, peer, clock);
      MonotoneClock(moments, r.clock);
      PullIsMeshRun(sys, m, k, peer, moments);
      steps := PullSteps(k, peer, moments, r.clock);
      RunGoesOn(sys, before, steps);
    } else {
      steps := [];
      assert before + [] == before;
    }
  }

  // --- Tombstones ---

  function DeletionSteps(k: nat, grants: seq<Grants>): seq<Step> {
    if grants == [] then [] else DeletionSteps(k, grants[..|grants| - 1]) + [NextDeletion(k, grants[|grants| - 1])]
  }

  // The mesh has read as much of the tombstone page as `end` has.
  ghost predicate ReconciledSoFar(m: State, k: nat, peer: nat, rest: seq<Row<Deletion>>, end: Reading, m': State)
    requires k < |m.relays|
  {
    && |m'.relays| == |m.relays|
    && (forall j | 0 <= j < |m.relays| && j != k :: m'.relays[j] == m.relays[j])
    && m'.inflight == m.inflight
    && var r, r' := m.relays[k], m'.relays[k];
       && r'.db == end.db && r'.clock == r.clock
       && r'.cursors == r.cursors && r'.deletionCursors == r.deletionCursors
       && r'.sync == Deletions(peer, if end.stopped then [] else rest, end.maxId)
  }

  // What a tombstone step does to the mesh.
  lemma DeletionStepEffect(sys: System, m: State, k: nat, g: Grants)
    requires k < |sys.trust| == |m.relays| && m.relays[k].sync.Deletions?
    ensures var r, m' := m.relays[k], Apply(sys, m, NextDeletion(k, g));
            && m'.inflight == m.inflight
            && m'.relays == if r.sync.deletions == [] then m.relays else m.relays[k := PullOneDeletion(r, g)]
  {
    hide PullOneDeletion, Receive, Delete;
    assert m.inflight + [] == m.inflight;
  }

  lemma ReconcilesNext(sys: System, m: State, k: nat, peer: nat, rest: seq<Row<Deletion>>, end: Reading, m': State,
                       g: Grants)
    requires k < |sys.trust| == |m.relays| && rest != [] && ReconciledSoFar(m, k, peer, rest, end, m')
    ensures ReconciledSoFar(m, k, peer, rest[1..], ReconcileRow(end, rest[0], g), Apply(sys, m', NextDeletion(k, g)))
  {
    hide Apply, ReconcileDeletion;
    DeletionStepEffect(sys, m', k, g);
  }

  lemma {:induction false} ReconcilesPage(sys: System, m: State, k: nat, peer: nat, page: seq<Row<Deletion>>,
                                          start: Reading, grants: seq<Grants>, atStart: State)
    requires k < |sys.trust| == |m.relays| && |grants| <= |page|
    requires ReconciledSoFar(m, k, peer, page, start, atStart)
    ensures ReconciledSoFar(m, k, peer, page[|grants|..], ReconcilePage(start, page[..|grants|], grants),
                            ApplyAll(sys, atStart, DeletionSteps(k, grants)))
  {
    hide ReconciledSoFar, Apply, ReconcileRow;
    var n := |grants|;
    if n == 0 {
      assert page[0..] == page && page[..0] == [];
    } else {
      var front, last := grants[..n - 1], grants[n - 1];
      ReconcilesPage(sys, m, k, peer, page, start, front, atStart);
      ReconcilesNext(sys, m, k, peer, page[n - 1..], ReconcilePage(start, page[..n - 1], front),
                     ApplyAll(sys, atStart, DeletionSteps(k, front)), last);
      ApplyOneMore(sys, atStart, DeletionSteps(k, front), NextDeletion(k, last));
      assert page[..n][..n - 1] == page[..n - 1] && page[n - 1..][1..] == page[n..];
    }
  }

  ghost function DeletionPullSteps(k: nat, peer: nat, grants: seq<Grants>): seq<Step> {
    [OpenDeletions(k, peer)] + DeletionSteps(k, grants) + [CloseDeletions(k)]
  }

  lemma DeletionPullIsMeshRun(sys: System, m: State, k: nat, peer: nat, grants: seq<Grants>)
    requires ValidSystem(sys) && MeshInv(sys, m) && Linked(sys, k, peer) && m.relays[k].sync.Idle?
    requires var page := DeletionPage(m.relays[k], peer, m.relays[peer]);
             |grants| == |page| && DeletionsFit(page)
    ensures var r := m.relays[k];
            var since := Cursor(r.deletionCursors, peer);
            var page := DeletionPage(r, peer, m.relays[peer]);
            var end := ReconcilePage(Reading(r.db, since, false, []), page, grants);
            var m' := ApplyAll(sys, m, DeletionPullSteps(k, peer, grants));
            && |m'.relays| == |m.relays|
            && m'.relays[k].db == end.db && m'.relays[k].sync.Idle?
            && m'.relays[k].deletionCursors == r.deletionCursors[peer := end.maxId]
            && m'.relays[k].cursors == r.cursors
            && m'.inflight == m.inflight
            && forall j | 0 <= j < |m.relays| && j != k :: m'.relays[j] == m.relays[j]
  {
    hide Inv, PairInv, ReconcilePage, DeletionPage, DeletionsFit, DeletionSteps;
    var r := m.relays[k];
    var page := DeletionPage(r, peer, m.relays[peer]);
    var start := Reading(r.db, Cursor(r.deletionCursors, peer), false, []);
    var atStart := Apply(sys, m, OpenDeletions(k, peer));
    assert m.inflight + [] == m.inflight;
    ReconcilesPage(sys, m, k, peer, page, start, grants, atStart);
    SessionOf(sys, m, OpenDeletions(k, peer), DeletionSteps(k, grants), CloseDeletions(k));
    assert page[..|page|] == page && page[|page|..] == [];
    ClosesDeletions(sys, m, k, peer, ReconcilePage(start, page, grants),
                    ApplyAll(sys, atStart, DeletionSteps(k, grants)));
  }

  lemma ClosesDeletions(sys: System, m: State, k: nat, peer: nat, end: Reading, m': State)
    requires k < |sys.trust| == |m.relays| && ReconciledSoFar(m, k, peer, [], end, m')
    ensures var closed := Apply(sys, m', CloseDeletions(k));
            && closed.relays == m'.relays[k :=
                 m'.relays[k].(deletionCursors := m'.relays[k].deletionCursors[peer := end.maxId], sync := Idle)]
            && closed.inflight == m'.inflight
  {
  }

  function GrantsOf(s: AntiEntropy.Pulling, page: seq<Row<Deletion>>, peer: RateLimit.Identity,
                    clock: nat -> AntiEntropy.Instant): (grants: seq<Grants>)
    ensures |grants| == |page|
  {
    if page == [] then []
    else
      var front, t := page[..|page| - 1], clock(|page| - 1);
      var reached := AntiEntropy.ReconcileAll(s, front, peer, clock);
      GrantsOf(s, front, peer, clock) + [RelayHandlers.SplitGrants(reached.limiter, peer, t.at)]
  }

  lemma {:induction false} ReconcileIsRead(s: AntiEntropy.Pulling, page: seq<Row<Deletion>>, peer: RateLimit.Identity,
                                           clock: nat -> AntiEntropy.Instant)
    ensures AntiEntropy.ReconcileAll(s, page, peer, clock).reading
         == ReconcilePage(s.reading, page, GrantsOf(s, page, peer, clock))
  {
    hide ReconcileDeletion;
    if page != [] {
      var front := page[..|page| - 1];
      ReconcileIsRead(s, front, peer, clock);
      assert GrantsOf(s, page, peer, clock)[..|page| - 1] == GrantsOf(s, front, peer, clock);
    }
  }

  // A tombstone sync is a run of the mesh too.
  lemma DeletionSyncReachesMeshState(sys: System, before: seq<Step>, k: nat, peer: nat, limiter: RateLimit.Limiter,
                                     clock: nat -> AntiEntropy.Instant) returns (steps: seq<Step>)
    requires ValidSystem(sys) && Linked(sys, k, peer) && |After(sys, before).relays| == |sys.trust|
    requires After(sys, before).relays[k].sync.Idle?
    ensures var m, m' := After(sys, before), After(sys, before + steps);
            var r, since := m.relays[k], Cursor(m.relays[k].deletionCursors, peer);
            var page := DeletionPage(r, peer, m.relays[peer]);
            var end := AntiEntropy.ReconcileAll(AntiEntropy.Pulling(Reading(r.db, since, false, []), limiter),
                                                page, peer, clock).reading;
            if DeletionsFit(page)
            then && |m'.relays| == |m.relays|
                 && m'.relays[k].db == end.db && m'.relays[k].deletionCursors == r.deletionCursors[peer := end.maxId]
                 && m'.inflight == m.inflight
            else m' == m
  {
    hide MeshInv, ReconcilePage, DeletionPage, DeletionsFit, Apply;
    var m := After(sys, before);
    RunKeeps(sys, before);
    var r, since := m.relays[k], Cursor(m.relays[k].deletionCursors, peer);
    var page := DeletionPage(r, peer, m.relays[peer]);
    if DeletionsFit(page) {
      var start := AntiEntropy.Pulling(Reading(r.db, since, false, []), limiter);
      var grants := GrantsOf(start, page, peer, clock);
      ReconcileIsRead(start, page, peer, clock);
      DeletionPullIsMeshRun(sys, m, k, peer, grants);
      steps := DeletionPullSteps(k, peer, grants);
      RunGoesOn(sys, before, steps);
    } else {
      steps := [];
      assert before + [] == before;
    }
  }

  // --- The handlers are single steps ---

  function AsPush(k: nat, push: (nat, Notice)): Push {
    match push.1
    case Publishing(p) => PushMessage(k, push.0, p)
    case Deleting(q) => PushDelete(k, push.0, q)
  }

  function AsPushes(k: nat, pushes: seq<(nat, Notice)>): seq<Push> {
    seq(|pushes|, i requires 0 <= i < |pushes| => AsPush(k, pushes[i]))
  }

  lemma FanoutIsMesh(sys: System, k: nat, p: Payload, q: DeleteRequest)
    requires k < |sys.trust|
    ensures AsPushes(k, Fanout(sys.trust[k], Publishing(p))) == FanoutMessage(sys, k, p)
    ensures AsPushes(k, Fanout(sys.trust[k], Deleting(q))) == FanoutDelete(sys, k, q)
    ensures AsPushes(k, []) == []
  {
  }

  // The relay k alone changes, to this database, and schedules these pushes.
  ghost predicate Acted(m: State, k: nat, m': State, db: Db, pushes: seq<(nat, Notice)>)
    requires k < |m.relays|
  {
    && |m'.relays| == |m.relays|
    && m'.relays == m.relays[k := m'.relays[k]] && m'.relays[k].db == db
    && m'.inflight == m.inflight + AsPushes(k, pushes)
  }

  // What POST /publish does to tables and pushes is the mesh's step of that name.
  lemma PublishIsMeshStep(sys: System, m: State, k: nat, p: Payload, g: Grants)
    requires |m.relays| == |sys.trust| && k < |sys.trust|
    ensures var (db, outcome) := Offer(sys.cfg, m.relays[k].db, p, g, m.relays[k].clock);
            Acted(m, k, Apply(sys, m, Publish(k, p, g)), db,
                  if outcome.Accepted? then Fanout(sys.trust[k], Publishing(p)) else [])
  {
    hide Offer;
    FanoutIsMesh(sys, k, p, DeleteRequest(p.signature, p.sender, false));
  }

  // And POST /delete likewise: one that is confirmed goes to every peer.
  lemma RequestIsMeshStep(sys: System, m: State, k: nat, q: DeleteRequest, g: Grants)
    requires |m.relays| == |sys.trust| && k < |sys.trust|
    ensures var (db, confirmed) := if g.global && q.authentic && g.identity
                                   then HandleDelete(sys.cfg, m.relays[k].db, q, m.relays[k].clock)
                                   else (m.relays[k].db, false);
            Acted(m, k, Apply(sys, m, Request(k, q, g)), db,
                  if confirmed then Fanout(sys.trust[k], Deleting(q)) else [])
  {
    hide HandleDelete;
  }

  // A push between relays that list each other is handled where it arrives, as POST
  // /gossip/publish or /gossip/delete handles it; any other is only taken off the queue.
  lemma ArrivalIsMeshStep(sys: System, m: State, i: nat, granted: bool)
    requires |m.relays| == |sys.trust| && i < |m.inflight| && m.inflight[i].to < |sys.trust|
    ensures var push, m' := m.inflight[i], Apply(sys, m, Arrive(i, granted));
            var k, left := push.to, m.(inflight := m.inflight[..i] + m.inflight[i + 1..]);
            var r := m.relays[k];
            if push.from < |sys.trust| && k in sys.trust[push.from] && push.from in sys.trust[k]
            then
              match push
              case PushMessage(_, _, p) =>
                var (db, outcome) := Offer(sys.cfg, r.db, p, Grants(granted, true), r.clock);
                Acted(left, k, m', db, if outcome.Accepted? then Fanout(sys.trust[k], Publishing(p)) else [])
              case PushDelete(_, _, q) =>
                var (db, confirmed) := if granted && q.authentic then HandleDelete(sys.cfg, r.db, q, r.clock)
                                       else (r.db, false);
                Acted(left, k, m', db, if confirmed then Fanout(sys.trust[k], Deleting(q)) else [])
            else Acted(left, k, m', r.db, [])
  {
    hide Offer, HandleDelete;
  }

  // A restart keeps the tables and forgets every place: whatever peer is read next, it is read
  // from the start of its log.
  lemma RestartReadsAgain(sys: System, m: State, k: nat, j: nat)
    requires |m.relays| == |sys.trust| && k < |m.relays| && j < |m.relays|
    ensures var m' := Apply(sys, m, Restart(k));
            && Acted(m, k, m', m.relays[k].db, []) && m'.relays[k].sync.Idle?
            && MessagePage(m'.relays[k], j, m'.relays[j]) == Page(m.relays[j].db.messages.rows, 0, 500)
            && DeletionPage(m'.relays[k], j, m'.relays[j]) == Page(ConfirmedRows(m.relays[j].db), 0, 500)
  {
    hide Receive, Delete, Page, ConfirmedRows;
  }

  // A delete pushed to a relay that holds the message, at an address its requester owns there
  // and then, is confirmed there too and goes on to every peer of that relay.
  lemma DeleteSpreads(sys: System, m: State, i: nat, held: Row<Payload>)
    requires MeshInv(sys, m) && i < |m.inflight| && m.inflight[i].PushDelete?
    requires var push := m.inflight[i];
             && push.from < |sys.trust| && push.to < |sys.trust| && push.request.authentic
             && push.to in sys.trust[push.from] && push.from in sys.trust[push.to]
             && var r := m.relays[push.to];
                && held in r.db.messages.rows && held.value.signature == push.request.target
                && Answers.Owns(sys.cfg, push.request.requester, held.value.recipient, r.clock)
    ensures var k, q, m' := m.inflight[i].to, m.inflight[i].request, Apply(sys, m, Arrive(i, true));
            && q.target !in Stored(m'.relays[k].db) && q.target in Confirmed(m'.relays[k].db)
            && forall peer | peer in sys.trust[k] :: PushDelete(k, peer, q) in m'.inflight
  {
    hide Apply, HandleDelete, Inv, PairInv, Answers.Owns;
    var k, q := m.inflight[i].to, m.inflight[i].request;
    var r, m' := m.relays[k], Apply(sys, m, Arrive(i, true));
    WellFormedRelay(sys.cfg, r);
    Answers.ConfirmsIff(sys.cfg, r.db, q, r.clock);
    ArrivalIsMeshStep(sys, m, i, true);
    ConfirmedLeaves(sys.cfg, r.db, q, r.clock);
    var left := m.inflight[..i] + m.inflight[i + 1..];
    FanoutIsMesh(sys, k, held.value, q);
    forall peer | peer in sys.trust[k] ensures PushDelete(k, peer, q) in m'.inflight {
      var j :| 0 <= j < |sys.trust[k]| && sys.trust[k][j] == peer;
      assert m'.inflight[|left| + j] == FanoutDelete(sys, k, q)[j];
    }
  }

  lemma WellFormedRelay(cfg: Config, r: Relay)
    requires Inv(cfg, r)
    ensures WellFormed(r.db)
  {
  }

  lemma ConfirmedLeaves(cfg: Config, db: Db, q: DeleteRequest, now: int)
    requires HandleDelete(cfg, db, q, now).1
    ensures var after := HandleDelete(cfg, db, q, now).0;
            q.target !in Stored(after) && q.target in Confirmed(after)
  {
    hide Stored, Confirmed, ApplyConfirmed;
    var p := FindMessage(db.messages.rows, q.target).value;
    ConfirmationContents(db, Deletion(q.target, q.requester, p.recipient, true, now));
  }
}
