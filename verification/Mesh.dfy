// The mesh: relays joined by a trust graph, pushes in flight, and anti-entropy pulls that
// interleave with everything else one row at a time. Every sequence of steps is a run.
module Mesh {
  import opened Protocol
  import opened Tables
  import opened Store
  import opened RelaySpec
  import opened Wire

  // trust[k] lists the peers of relay k, as its peers.json does.
  datatype System = System(cfg: Config, trust: seq<seq<nat>>)

  ghost predicate ValidSystem(sys: System) {
    && sys.cfg.minTtl > 0
    && forall k, i | 0 <= k < |sys.trust| && 0 <= i < |sys.trust[k]| :: sys.trust[k][i] < |sys.trust|
  }

  // Mutual TLS: a connection needs each end to pin the other's certificate.
  predicate Linked(sys: System, a: nat, b: nat) {
    a < |sys.trust| && b < |sys.trust| && b in sys.trust[a] && a in sys.trust[b]
  }

  datatype Push =
    | PushMessage(from: nat, to: nat, payload: Payload)
    | PushDelete(from: nat, to: nat, request: DeleteRequest)

  // Beside the relays and the pushes: who has signed a delete request for what, which
  // relay a client first published a message to, and which pushes came to nothing.
  datatype State = State(relays: seq<Relay>, inflight: seq<Push>, issued: set<(Key, Signature)>,
                         origins: set<(nat, Signature)>, dropped: set<(nat, Signature)>)

  datatype Step =
    | Tick(at: nat, elapsed: nat)
    | Publish(at: nat, payload: Payload, grants: Grants)
    | Request(at: nat, request: DeleteRequest, grants: Grants)
    | Arrive(push: nat, granted: bool)
    | Lose(push: nat)
    | OpenMessages(at: nat, peer: nat)
    | NextMessage(at: nat, grants: Grants)
    | CloseMessages(at: nat)
    | OpenDeletions(at: nat, peer: nat)
    | NextDeletion(at: nat, grants: Grants)
    | CloseDeletions(at: nat)
    | Abandon(at: nat)
    | CleanUp(at: nat)
    | Restart(at: nat)

  ghost function Initial(sys: System): State {
    State(seq(|sys.trust|, _ => FRESH), [], {}, {}, {})
  }

  // schedule_fanout: one push to every peer.
  function FanoutMessage(sys: System, k: nat, p: Payload): (pushes: seq<Push>)
    requires k < |sys.trust|
    ensures |pushes| == |sys.trust[k]|
    ensures forall i | 0 <= i < |pushes| :: pushes[i] == PushMessage(k, sys.trust[k][i], p)
  {
    seq(|sys.trust[k]|, i requires 0 <= i < |sys.trust[k]| => PushMessage(k, sys.trust[k][i], p))
  }

  function FanoutDelete(sys: System, k: nat, q: DeleteRequest): (pushes: seq<Push>)
    requires k < |sys.trust|
    ensures |pushes| == |sys.trust[k]|
    ensures forall i | 0 <= i < |pushes| :: pushes[i] == PushDelete(k, sys.trust[k][i], q)
  {
    seq(|sys.trust[k]|, i requires 0 <= i < |sys.trust[k]| => PushDelete(k, sys.trust[k][i], q))
  }

  // --- One step: one relay acts ---

  // The relay a step changes; out of range when the step cannot happen.
  function Actor(m: State, step: Step): nat {
    match step
    case Arrive(i, _) => if i < |m.inflight| then m.inflight[i].to else |m.relays|
    case Lose(i) => if i < |m.inflight| then m.inflight[i].to else |m.relays|
    case _ => step.at
  }

  ghost predicate Enabled(sys: System, m: State, step: Step) {
    |m.relays| == |sys.trust| && Actor(m, step) < |m.relays|
  }

  // A message or a delete request handled by the acting relay, from a client or a peer.
  datatype Input = Offered(payload: Payload, offerGrants: Grants)
                 | Asked(request: DeleteRequest, askGrants: Grants)
                 | Nothing

  function Handled(sys: System, m: State, step: Step): Input {
    match step
    case Publish(_, p, g) => Offered(p, g)
    case Request(_, q, g) => Asked(q, g)
    case Arrive(i, granted) =>
      if i < |m.inflight| && Linked(sys, m.inflight[i].from, m.inflight[i].to)
      then match m.inflight[i]
           case PushMessage(_, _, p) => Offered(p, Grants(granted, true))
           case PushDelete(_, _, q) => Asked(q, Grants(granted, true))
      else Nothing
    case _ => Nothing
  }

  ghost function Moved(sys: System, m: State, step: Step): Relay
    requires Enabled(sys, m, step)
  {
    var r := m.relays[Actor(m, step)];
    match Handled(sys, m, step)
    case Offered(p, g) => Receive(sys.cfg, r, p, g).0
    case Asked(q, g) => Delete(sys.cfg, r, q, g).0
    case Nothing =>
      match step
      case Tick(_, elapsed) => r.(clock := r.clock + elapsed)
      case OpenMessages(k, j) =>
        if r.sync.Idle? && Linked(sys, k, j) && MessagesFit(MessagePage(r, j, m.relays[j]))
        then r.(sync := Messages(j, MessagePage(r, j, m.relays[j]), Cursor(r.cursors, j)))
        else r
      case NextMessage(_, g) =>
        if r.sync.Messages? && r.sync.messages != [] then PullOneMessage(sys.cfg, r, g).0 else r
      case CloseMessages(_) =>
        if r.sync.Messages? && r.sync.messages == []
        then r.(cursors := r.cursors[r.sync.peer := r.sync.maxId], sync := Idle)
        else r
      case OpenDeletions(k, j) =>
        if r.sync.Idle? && Linked(sys, k, j) && DeletionsFit(DeletionPage(r, j, m.relays[j]))
        then r.(sync := Deletions(j, DeletionPage(r, j, m.relays[j]), Cursor(r.deletionCursors, j)))
        else r
      case NextDeletion(_, g) =>
        if r.sync.Deletions? && r.sync.deletions != [] then PullOneDeletion(r, g) else r
      case CloseDeletions(_) =>
        if r.sync.Deletions? && r.sync.deletions == []
        then r.(deletionCursors := r.deletionCursors[r.sync.peer := r.sync.maxId], sync := Idle)
        else r
      case Abandon(_) => r.(sync := Idle)
      case CleanUp(_) => SweepNow(sys.cfg, r)
      case Restart(_) => r.(cursors := map[], deletionCursors := map[], sync := Idle)
      case _ => r
  }

  // The pages r asks peer s, known as j, for next; one that does not fit is refused whole.
  function MessagePage(r: Relay, j: nat, s: Relay): seq<Row<Payload>> {
    Page(s.db.messages.rows, Cursor(r.cursors, j), PULL_BATCH_LIMIT)
  }

  function DeletionPage(r: Relay, j: nat, s: Relay): seq<Row<Deletion>> {
    Page(ConfirmedRows(s.db), Cursor(r.deletionCursors, j), PULL_BATCH_LIMIT)
  }

  // The pushes a step schedules: on a new insert, and on a delete confirmed here.
  ghost function Scheduled(sys: System, m: State, step: Step): seq<Push>
    requires Enabled(sys, m, step)
  {
    var k := Actor(m, step);
    var r := m.relays[k];
    match Handled(sys, m, step)
    case Offered(p, g) => if Receive(sys.cfg, r, p, g).1.Accepted? then FanoutMessage(sys, k, p) else []
    case Asked(q, g) => if Delete(sys.cfg, r, q, g).1 then FanoutDelete(sys, k, q) else []
    case Nothing =>
      if step.NextMessage? && r.sync.Messages? && r.sync.messages != []
         && PullOneMessage(sys.cfg, r, step.grants).1.Accepted?
      then FanoutMessage(sys, k, r.sync.messages[0].value)
      else []
  }

  function Remaining(m: State, step: Step): seq<Push> {
    if (step.Arrive? || step.Lose?) && step.push < |m.inflight|
    then m.inflight[..step.push] + m.inflight[step.push + 1..]
    else m.inflight
  }

  // A message push that did not leave the message stored at its destination.
  ghost function NewlyDropped(sys: System, m: State, step: Step): set<(nat, Signature)>
    requires Enabled(sys, m, step)
  {
    if (step.Arrive? || step.Lose?) && m.inflight[step.push].PushMessage?
    then
      var p := m.inflight[step.push].payload;
      match Handled(sys, m, step)
      case Offered(_, g) =>
        var outcome := Receive(sys.cfg, m.relays[Actor(m, step)], p, g).1;
        if outcome.Accepted? || outcome.Known? then {} else {(Actor(m, step), p.signature)}
      case _ => {(Actor(m, step), p.signature)}
    else {}
  }

  ghost function Apply(sys: System, m: State, step: Step): State {
    if !Enabled(sys, m, step) then m
    else
      var k := Actor(m, step);
      State(m.relays[k := Moved(sys, m, step)],
            Remaining(m, step) + Scheduled(sys, m, step),
            if step.Request? && step.request.authentic
            then m.issued + {(step.request.requester, step.request.target)} else m.issued,
            if step.Publish? && Receive(sys.cfg, m.relays[k], step.payload, step.grants).1.Accepted?
            then m.origins + {(k, step.payload.signature)} else m.origins,
            m.dropped + NewlyDropped(sys, m, step))
  }

  // The state a run has reached; a step that cannot happen changes nothing.
  ghost function After(sys: System, steps: seq<Step>): State {
    if steps == [] then Initial(sys)
    else Apply(sys, After(sys, steps[..|steps| - 1]), steps[|steps| - 1])
  }

  // --- What one relay knows of another's logs ---

  // r has settled everything in s's message log up to `place`.
  ghost predicate MessagesBehind(r: Relay, s: Relay, place: nat) {
    && place < s.db.messages.next
    && forall row | row in s.db.messages.rows && row.id <= place :: row.value in r.past.settled
  }

  // r has confirmed everything in s's tombstone log up to `place`.
  ghost predicate DeletionsBehind(r: Relay, s: Relay, place: nat) {
    && place < s.db.deletions.next
    && forall row | row in s.db.deletions.rows && row.value.confirmed && row.id <= place ::
         row.value.target in r.past.confirmed
  }

  // The rest of a page r took from s: nothing still in s's log is missing from it.
  ghost predicate MessagePageComplete(r: Relay, s: Relay)
    requires r.sync.Messages?
  {
    var page, place := r.sync.messages, r.sync.maxId;
    && Ascending(page)
    && (forall row | row in page :: place < row.id < s.db.messages.next && row.value.signature in s.past.inserted)
    && (forall row | row in s.db.messages.rows && place < row.id <= LastId(place, page) :: row in page)
  }

  ghost predicate DeletionPageComplete(r: Relay, s: Relay)
    requires r.sync.Deletions?
  {
    var page, place := r.sync.deletions, r.sync.maxId;
    && Ascending(page)
    && (forall row | row in page :: place < row.id < s.db.deletions.next)
    && (forall row | row in s.db.deletions.rows && row.value.confirmed && place < row.id <= LastId(place, page) ::
          row in page)
  }

  ghost predicate PairInv(r: Relay, j: nat, s: Relay) {
    && MessagesBehind(r, s, Cursor(r.cursors, j))
    && DeletionsBehind(r, s, Cursor(r.deletionCursors, j))
    && (r.sync.Messages? && r.sync.peer == j ==> MessagesBehind(r, s, r.sync.maxId) && MessagePageComplete(r, s))
    && (r.sync.Deletions? && r.sync.peer == j ==> DeletionsBehind(r, s, r.sync.maxId) && DeletionPageComplete(r, s))
  }

  ghost predicate MeshInv(sys: System, m: State) {
    && |m.relays| == |sys.trust|
    && (forall k | 0 <= k < |m.relays| :: Inv(sys.cfg, m.relays[k]))
    && (forall k, j | 0 <= k < |m.relays| && 0 <= j < |m.relays| :: PairInv(m.relays[k], j, m.relays[j]))
    && (forall k | 0 <= k < |m.relays| :: !m.relays[k].sync.Idle? ==> Linked(sys, k, m.relays[k].sync.peer))
  }

  // --- The acting relay stays sound, and only grows ---

  lemma MovedKeeps(sys: System, m: State, step: Step)
    requires ValidSystem(sys) && MeshInv(sys, m) && Enabled(sys, m, step)
    ensures Inv(sys.cfg, Moved(sys, m, step))
    ensures Grows(m.relays[Actor(m, step)], Moved(sys, m, step))
  {
    hide Inv;
    var r := m.relays[Actor(m, step)];
    Unchanged(sys.cfg, r);
    match Handled(sys, m, step)
    case Offered(p, g) => ReceiveKeeps(sys.cfg, r, p, g);
    case Asked(q, g) => DeleteKeeps(sys.cfg, r, q, g);
    case Nothing => PassiveKeeps(sys, m, step);
  }

  lemma PassiveKeeps(sys: System, m: State, step: Step)
    requires ValidSystem(sys) && MeshInv(sys, m) && Enabled(sys, m, step) && Handled(sys, m, step).Nothing?
    ensures Inv(sys.cfg, Moved(sys, m, step))
    ensures Grows(m.relays[Actor(m, step)], Moved(sys, m, step))
  {
    hide Inv, PairInv, Grows;
    var r, r' := m.relays[Actor(m, step)], Moved(sys, m, step);
    Unchanged(sys.cfg, r);
    match step
    case NextMessage(_, g) =>
      if r.sync.Messages? && r.sync.messages != [] { PullOneMessageKeeps(sys.cfg, r, g); }
    case NextDeletion(_, g) =>
      if r.sync.Deletions? && r.sync.deletions != [] { PullOneDeletionKeeps(sys.cfg, r, g); }
    case CleanUp(_) => SweepKeeps(sys.cfg, r);
    case OpenDeletions(k, j) => if Linked(sys, k, j) { OpenDeletionsKeeps(sys, m, k, j); }
    case _ => QuietKeeps(sys.cfg, r, r');
  }

  // Steps that touch neither table.
  lemma QuietKeeps(cfg: Config, r: Relay, r': Relay)
    requires Inv(cfg, r) && r'.db == r.db && r'.past == r.past && r.clock <= r'.clock
    requires r'.sync == r.sync || !r'.sync.Deletions?
    ensures Inv(cfg, r') && Grows(r, r')
  {
  }

  lemma OpenDeletionsKeeps(sys: System, m: State, k: nat, j: nat)
    requires MeshInv(sys, m) && k < |m.relays| && Linked(sys, k, j)
    ensures var r := m.relays[k];
            var r' := r.(sync := Deletions(j, DeletionPage(r, j, m.relays[j]), Cursor(r.deletionCursors, j)));
            Inv(sys.cfg, r') && Grows(r, r')
  {
    assert Inv(sys.cfg, m.relays[j]) && Inv(sys.cfg, m.relays[k]);
  }

  // --- Cursors and pages survive growth on either side ---

  lemma PairGrows(r: Relay, j: nat, s: Relay, r': Relay)
    requires PairInv(r, j, s) && Grows(r, r') && Undisturbed(r, r')
    ensures PairInv(r', j, s)
  {
  }

  lemma PeerGrows(r: Relay, j: nat, s: Relay, s': Relay)
    requires PairInv(r, j, s) && Grows(s, s')
    ensures PairInv(r, j, s')
  {
  }

  lemma OpenKeepsPair(r: Relay, j: nat, s: Relay, r': Relay)
    requires PairInv(r, j, s) && ValidTable(s.db.messages) && ValidTable(s.db.deletions)
    requires Stored(s.db) <= s.past.inserted
    requires || r' == r.(sync := Messages(j, MessagePage(r, j, s), Cursor(r.cursors, j)))
             || r' == r.(sync := Deletions(j, DeletionPage(r, j, s), Cursor(r.deletionCursors, j)))
    ensures PairInv(r', j, s)
  {
    if r'.sync.Messages? {
      forall row | row in s.db.messages.rows && r'.sync.maxId < row.id <= LastId(r'.sync.maxId, r'.sync.messages)
        ensures row in r'.sync.messages
      {
        PageSkipsNothing(s.db.messages.rows, r'.sync.maxId, PULL_BATCH_LIMIT, row);
      }
    } else {
      forall row | row in s.db.deletions.rows && row.value.confirmed
                   && r'.sync.maxId < row.id <= LastId(r'.sync.maxId, r'.sync.deletions)
        ensures row in r'.sync.deletions
      {
        PageSkipsNothing(ConfirmedRows(s.db), r'.sync.maxId, PULL_BATCH_LIMIT, row);
      }
    }
  }

  // Consuming the head of a page moves the place to its id, and nothing lies between.
  lemma HeadOfPage<V(!new)>(place: nat, page: seq<Row<V>>)
    requires page != [] && Ascending(page) && place < page[0].id
    ensures Ascending(page[1..])
    ensures Max(place, page[0].id) == page[0].id
    ensures LastId(page[0].id, page[1..]) == LastId(place, page)
    ensures forall row | row in page :: row == page[0] || (row in page[1..] && page[0].id < row.id)
  {
    forall row | row in page ensures row == page[0] || (row in page[1..] && page[0].id < row.id) {
      var i :| 0 <= i < |page| && page[i] == row;
      assert i > 0 ==> page[1..][i - 1] == row;
    }
  }

  // A page given up early, for want of budget: the place does not move.
  lemma StoppingKeepsPair(r: Relay, j: nat, s: Relay, r': Relay)
    requires PairInv(r, j, s) && r'.past == r.past
    requires r'.cursors == r.cursors && r'.deletionCursors == r.deletionCursors
    requires || (r.sync.Messages? && r'.sync == r.sync.(messages := []))
             || (r.sync.Deletions? && r'.sync == r.sync.(deletions := []))
    ensures PairInv(r', j, s)
  {
  }

  // A message settled: the place moves to its id.
  lemma AdvanceMessage(r: Relay, j: nat, s: Relay, r': Relay)
    requires PairInv(r, j, s) && r.past.settled <= r'.past.settled && r.past.confirmed <= r'.past.confirmed
    requires r'.cursors == r.cursors && r'.deletionCursors == r.deletionCursors
    requires r.sync.Messages? && r.sync.messages != []
    requires var item := r.sync.messages[0];
             && item.value in r'.past.settled
             && r'.sync == Messages(r.sync.peer, r.sync.messages[1..], Max(r.sync.maxId, item.id))
    ensures PairInv(r', j, s)
  {
    if r.sync.peer == j {
      assert r.sync.messages[0] in r.sync.messages;
      HeadOfPage(r.sync.maxId, r.sync.messages);
    }
  }

  lemma AdvanceDeletion(r: Relay, j: nat, s: Relay, r': Relay)
    requires PairInv(r, j, s) && r.past.settled <= r'.past.settled && r.past.confirmed <= r'.past.confirmed
    requires r'.cursors == r.cursors && r'.deletionCursors == r.deletionCursors
    requires r.sync.Deletions? && r.sync.deletions != []
    requires var item := r.sync.deletions[0];
             && item.value.target in r'.past.confirmed
             && r'.sync == Deletions(r.sync.peer, r.sync.deletions[1..], Max(r.sync.maxId, item.id))
    ensures PairInv(r', j, s)
  {
    if r.sync.peer == j {
      assert r.sync.deletions[0] in r.sync.deletions;
      HeadOfPage(r.sync.maxId, r.sync.deletions);
    }
  }

  lemma NextMessageKeepsPair(cfg: Config, r: Relay, j: nat, s: Relay, g: Grants)
    requires PairInv(r, j, s) && Inv(cfg, r) && cfg.minTtl > 0
    requires r.sync.Messages? && r.sync.messages != []
    ensures PairInv(PullOneMessage(cfg, r, g).0, j, s)
  {
    PullOneMessageKeeps(cfg, r, g);
    ReceiveKeeps(cfg, r, r.sync.messages[0].value, g);
    var (r', outcome) := PullOneMessage(cfg, r, g);
    if outcome.Throttled? {
      Unchanged(cfg, r);
      StoppingKeepsPair(r, j, s, r');
    } else {
      AdvanceMessage(r, j, s, r');
    }
  }

  lemma NextDeletionKeepsPair(cfg: Config, r: Relay, j: nat, s: Relay, g: Grants)
    requires PairInv(r, j, s) && Inv(cfg, r)
    requires r.sync.Deletions? && r.sync.deletions != []
    ensures PairInv(PullOneDeletion(r, g), j, s)
  {
    PullOneDeletionKeeps(cfg, r, g);
    if g.global && g.identity {
      AdvanceDeletion(r, j, s, PullOneDeletion(r, g));
    } else {
      StoppingKeepsPair(r, j, s, PullOneDeletion(r, g));
    }
  }

  // The acting relay's own view of any peer.
  lemma MovedKeepsPair(sys: System, m: State, step: Step, j: nat)
    requires ValidSystem(sys) && MeshInv(sys, m) && Enabled(sys, m, step) && j < |m.relays|
    ensures PairInv(Moved(sys, m, step), j, m.relays[j])
  {
    hide Inv, PairInv;
    var k := Actor(m, step);
    var r, s := m.relays[k], m.relays[j];
    assert PairInv(r, j, s) && Inv(sys.cfg, r) && Inv(sys.cfg, s);
    match Handled(sys, m, step)
    case Offered(p, g) =>
      ReceiveKeeps(sys.cfg, r, p, g);
      PairGrows(r, j, s, Receive(sys.cfg, r, p, g).0);
    case Asked(q, g) =>
      DeleteKeeps(sys.cfg, r, q, g);
      PairGrows(r, j, s, Delete(sys.cfg, r, q, g).0);
    case Nothing => PassiveKeepsPair(sys, m, step, j);
  }

  lemma PassiveKeepsPair(sys: System, m: State, step: Step, j: nat)
    requires ValidSystem(sys) && MeshInv(sys, m) && Enabled(sys, m, step) && j < |m.relays|
    requires Handled(sys, m, step).Nothing?
    ensures PairInv(Moved(sys, m, step), j, m.relays[j])
  {
    hide Inv, PairInv;
    var k := Actor(m, step);
    var r, s, r' := m.relays[k], m.relays[j], Moved(sys, m, step);
    assert PairInv(r, j, s) && Inv(sys.cfg, r);
    match step
    case NextMessage(_, g) =>
      if r.sync.Messages? && r.sync.messages != [] { NextMessageKeepsPair(sys.cfg, r, j, s, g); }
    case NextDeletion(_, g) =>
      if r.sync.Deletions? && r.sync.deletions != [] { NextDeletionKeepsPair(sys.cfg, r, j, s, g); }
    case CleanUp(_) =>
      SweepKeeps(sys.cfg, r);
      PairGrows(r, j, s, r');
    case _ => CursorsKeepPair(sys, m, step, j);
  }

  lemma CursorsKeepPair(sys: System, m: State, step: Step, j: nat)
    requires ValidSystem(sys) && MeshInv(sys, m) && Enabled(sys, m, step) && j < |m.relays|
    requires Handled(sys, m, step).Nothing? && !step.NextMessage? && !step.NextDeletion? && !step.CleanUp?
    ensures PairInv(Moved(sys, m, step), j, m.relays[j])
  {
    hide PairInv, MessagesSound, TombstonesSound, SyncSound, Disjoint, MessagePage, DeletionPage, MessagesFit,
      DeletionsFit;
    var k := Actor(m, step);
    var r, s, r' := m.relays[k], m.relays[j], Moved(sys, m, step);
    assert PairInv(r, j, s) && Inv(sys.cfg, s);
    if r.sync.Idle? && !r'.sync.Idle? && r'.sync.peer == j {
      OpenKeepsPair(r, j, s, r');
    } else {
      CursorMoveKeepsPair(r, j, s, r');
    }
  }

  // Time passing, a cursor stored, a page given up, a restart, or a page from another peer.
  lemma CursorMoveKeepsPair(r: Relay, j: nat, s: Relay, r': Relay)
    requires PairInv(r, j, s) && ValidTable(s.db.messages) && ValidTable(s.db.deletions)
    requires || r' == r.(clock := r'.clock)
             || (r.sync.Messages? && r' == r.(cursors := r.cursors[r.sync.peer := r.sync.maxId], sync := Idle))
             || (r.sync.Deletions?
                 && r' == r.(deletionCursors := r.deletionCursors[r.sync.peer := r.sync.maxId], sync := Idle))
             || r' == r.(sync := Idle)
             || r' == r.(cursors := map[], deletionCursors := map[], sync := Idle)
             || (r' == r.(sync := r'.sync) && !r'.sync.Idle? && r'.sync.peer != j)
    ensures PairInv(r', j, s)
  {
  }

  lemma StepKeeps(sys: System, m: State, step: Step)
    requires ValidSystem(sys) && MeshInv(sys, m)
    ensures MeshInv(sys, Apply(sys, m, step))
  {
    hide Inv, PairInv;
    if Enabled(sys, m, step) {
      var k := Actor(m, step);
      var m' := Apply(sys, m, step);
      MovedKeeps(sys, m, step);
      forall a, j | 0 <= a < |m.relays| && 0 <= j < |m.relays| ensures PairInv(m'.relays[a], j, m'.relays[j]) {
        if a == k { MovedKeepsPair(sys, m, step, j); }
        assert PairInv(m'.relays[a], j, m.relays[j]);
        if j == k { PeerGrows(m'.relays[a], j, m.relays[j], m'.relays[j]); }
      }
      SyncStaysLinked(sys, m, step);
    }
  }

  lemma SyncStaysLinked(sys: System, m: State, step: Step)
    requires MeshInv(sys, m) && Enabled(sys, m, step)
    ensures var k := Actor(m, step);
            var r' := Moved(sys, m, step);
            !r'.sync.Idle? ==> Linked(sys, k, r'.sync.peer)
  {
    hide Inv, PairInv, Page, Offer, HandleDelete, Stored, Confirmed;
    var r := m.relays[Actor(m, step)];
    assert !r.sync.Idle? ==> Linked(sys, Actor(m, step), r.sync.peer);
  }

  lemma {:induction false} RunKeeps(sys: System, steps: seq<Step>)
    requires ValidSystem(sys)
    ensures MeshInv(sys, After(sys, steps))
  {
    if steps != [] {
      RunKeeps(sys, steps[..|steps| - 1]);
      StepKeeps(sys, After(sys, steps[..|steps| - 1]), steps[|steps| - 1]);
    }
  }
}
