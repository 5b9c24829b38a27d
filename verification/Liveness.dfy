// From every reachable state, pulling alone brings a mesh to rest: each useful step of the
// anti-entropy threads lowers a measure, and where none is left a cursor is at the end of
// its peer's log exactly if the page it would ask for next fits the response limit.
module Liveness {
  import opened Protocol
  import opened Tables
  import opened Store
  import opened RelaySpec
  import opened Wire
  import opened Mesh
  import opened Runs
  import opened Convergence

  // A step of a thread that has something to do and meets no rate limit; a page that the
  // reader refuses for its size is nothing to do.
  ghost predicate Useful(sys: System, m: State, step: Step) {
    && Enabled(sys, m, step)
    && var r := m.relays[Actor(m, step)];
       match step
       case OpenMessages(k, j) =>
         && Linked(sys, k, j) && r.sync.Idle?
         && MessagePage(r, j, m.relays[j]) != [] && MessagesFit(MessagePage(r, j, m.relays[j]))
       case OpenDeletions(k, j) =>
         && Linked(sys, k, j) && r.sync.Idle?
         && DeletionPage(r, j, m.relays[j]) != [] && DeletionsFit(DeletionPage(r, j, m.relays[j]))
       case NextMessage(_, g) => r.sync.Messages? && r.sync.messages != [] && g == ALL_GRANTED
       case NextDeletion(_, g) => r.sync.Deletions? && r.sync.deletions != [] && g == ALL_GRANTED
       case CloseMessages(_) => r.sync.Messages? && r.sync.messages == []
       case CloseDeletions(_) => r.sync.Deletions? && r.sync.deletions == []
       case _ => false
  }

  // --- The measure ---

  ghost function Sum(n: nat, f: nat -> nat): nat {
    if n == 0 then 0 else Sum(n - 1, f) + f(n - 1)
  }

  lemma {:induction false} SumAtMost(n: nat, f: nat -> nat, g: nat -> nat)
    requires forall i: nat | i < n :: f(i) <= g(i)
    ensures Sum(n, f) <= Sum(n, g)
  {
    if n > 0 { SumAtMost(n - 1, f, g); }
  }

  lemma {:induction false} SumLess(n: nat, f: nat -> nat, g: nat -> nat, k: nat)
    requires k < n && f(k) < g(k) && forall i: nat | i < n :: f(i) <= g(i)
    ensures Sum(n, f) < Sum(n, g)
  {
    if k == n - 1 { SumAtMost(n - 1, f, g); } else { SumLess(n - 1, f, g, k); }
  }

  // What relay r may still store or confirm, out of everything known to the mesh.
  ghost function Missing(u: set<Signature>, r: Relay): nat {
    |u - (Stored(r.db) + Confirmed(r.db))| + |u - Confirmed(r.db)|
  }

  // The place in peer j's log a thread has reached or has a page up to.
  ghost function Place(r: Relay, j: nat): nat {
    if r.sync.Messages? && r.sync.peer == j then LastId(r.sync.maxId, r.sync.messages) else Cursor(r.cursors, j)
  }

  ghost function DeletionPlace(r: Relay, j: nat): nat {
    if r.sync.Deletions? && r.sync.peer == j then LastId(r.sync.maxId, r.sync.deletions)
    else Cursor(r.deletionCursors, j)
  }

  ghost function Unread(r: Relay, j: nat, s: Relay): nat {
    |Above(s.db.messages.rows, Place(r, j))| + |Above(ConfirmedRows(s.db), DeletionPlace(r, j))|
  }

  ghost function InHand(r: Relay): nat {
    match r.sync
    case Idle => 0
    case Messages(_, rows, _) => 1 + |rows|
    case Deletions(_, rows, _) => 1 + |rows|
  }

  ghost function MissingAt(u: set<Signature>, m: State): nat -> nat {
    (k: nat) => if k < |m.relays| then Missing(u, m.relays[k]) else 0
  }

  ghost function UnreadBy(m: State, k: nat): nat -> nat {
    (j: nat) => if k < |m.relays| && j < |m.relays| then Unread(m.relays[k], j, m.relays[j]) else 0
  }

  ghost function UnreadAt(m: State): nat -> nat {
    (k: nat) => Sum(|m.relays|, UnreadBy(m, k))
  }

  ghost function InHandAt(m: State): nat -> nat {
    (k: nat) => if k < |m.relays| then InHand(m.relays[k]) else 0
  }

  ghost function ToStore(u: set<Signature>, m: State): nat { Sum(|m.relays|, MissingAt(u, m)) }
  ghost function ToRead(m: State): nat { Sum(|m.relays|, UnreadAt(m)) }
  ghost function ToFinish(m: State): nat { Sum(|m.relays|, InHandAt(m)) }

  // u holds every signature the mesh knows.
  ghost predicate Knows(u: set<Signature>, r: Relay) {
    && r.past.inserted <= u && r.past.confirmed <= u
    && (r.sync.Messages? ==> forall row | row in r.sync.messages :: row.value.signature in u)
    && (r.sync.Deletions? ==> forall row | row in r.sync.deletions :: row.value.target in u)
  }

  ghost predicate AllKnown(u: set<Signature>, m: State) {
    forall k | 0 <= k < |m.relays| :: Knows(u, m.relays[k])
  }

  // --- One relay ---

  // Either something new is stored or confirmed, or the tables and the places are unchanged.
  ghost predicate Advances(u: set<Signature>, r: Relay, r': Relay) {
    || Missing(u, r') < Missing(u, r)
    || (&& r'.db == r.db && InHand(r') < InHand(r)
        && forall j :: Place(r', j) == Place(r, j) && DeletionPlace(r', j) == DeletionPlace(r, j))
  }

  lemma Smaller(u: set<Signature>, a: set<Signature>, b: set<Signature>)
    requires a <= b
    ensures |u - b| <= |u - a|
    ensures (exists s :: s in u && s in b && s !in a) ==> |u - b| < |u - a|
  {
    var x, y := u - a, u - b;
    assert x == y + (x - y) && y !! x - y;
    if s :| s in u && s in b && s !in a { assert s in x - y; }
  }

  lemma MessageAdvances(cfg: Config, u: set<Signature>, r: Relay)
    requires Inv(cfg, r) && cfg.minTtl > 0 && Knows(u, r)
    requires r.sync.Messages? && r.sync.messages != [] && Ascending(r.sync.messages)
    requires r.sync.maxId < r.sync.messages[0].id
    ensures var r' := PullOneMessage(cfg, r, ALL_GRANTED).0;
            Knows(u, r') && Advances(u, r, r')
  {
    hide Inv, Offer, Missing, OfferEffect, Recorded, PullOneMessage, Receive;
    var p := r.sync.messages[0].value;
    var (r', outcome) := PullOneMessage(cfg, r, ALL_GRANTED);
    PullOneMessageKeeps(cfg, r, ALL_GRANTED);
    OfferMissing(cfg, u, r, p);
    HeadOfPage(r.sync.maxId, r.sync.messages);
    assert r.sync.messages[0] in r.sync.messages && r'.sync.messages == r.sync.messages[1..];
    assert forall row | row in r'.sync.messages :: row in r.sync.messages;
    SameMissing(u, r', Receive(cfg, r, p, ALL_GRANTED).0);
  }

  lemma SameMissing(u: set<Signature>, a: Relay, b: Relay)
    requires a.db == b.db
    ensures Missing(u, a) == Missing(u, b)
  {
  }

  lemma OfferMissing(cfg: Config, u: set<Signature>, r: Relay, p: Payload)
    requires Inv(cfg, r) && cfg.minTtl > 0 && p.signature in u && r.past.inserted <= u && r.past.confirmed <= u
    ensures var (r', outcome) := Receive(cfg, r, p, ALL_GRANTED);
            && !outcome.Throttled? && r'.past.inserted <= u && r'.past.confirmed <= u
            && (Missing(u, r') < Missing(u, r) || r'.db == r.db)
  {
    hide Inv, Receive, Stored, Confirmed;
    var (r', outcome) := Receive(cfg, r, p, ALL_GRANTED);
    ReceiveKeeps(cfg, r, p, ALL_GRANTED);
    ReceiveRecords(cfg, r, p, ALL_GRANTED);
    SettlesGranted(cfg, r, p);
    StoredIsRecorded(cfg, r);
    Smaller(u, Stored(r.db) + Confirmed(r.db), Stored(r'.db) + Confirmed(r'.db));
    Smaller(u, Confirmed(r.db), Confirmed(r'.db));
  }

  // With budget a message is settled; one already confirmed deleted changes nothing.
  lemma SettlesGranted(cfg: Config, r: Relay, p: Payload)
    requires Inv(cfg, r)
    ensures var (r', outcome) := Receive(cfg, r, p, ALL_GRANTED);
            !outcome.Throttled? && (outcome.Discarded? && p.signature in Confirmed(r.db) ==> r'.db == r.db)
  {
    hide Validates, HasRoom, Candidates, ApplyConfirmed, InsertSection, Stored;
    FindsDeletion(r.db, p.signature);
  }

  lemma DeletionAdvances(cfg: Config, u: set<Signature>, r: Relay)
    requires Inv(cfg, r) && Knows(u, r)
    requires r.sync.Deletions? && r.sync.deletions != [] && Ascending(r.sync.deletions)
    requires r.sync.maxId < r.sync.deletions[0].id
    ensures var r' := PullOneDeletion(r, ALL_GRANTED);
            Knows(u, r') && Advances(u, r, r')
  {
    hide Inv, Missing, ReconcileDeletion;
    var r', d := PullOneDeletion(r, ALL_GRANTED), r.sync.deletions[0].value;
    HeadOfPage(r.sync.maxId, r.sync.deletions);
    assert r.sync.deletions[0] in r.sync.deletions && r'.sync.deletions == r.sync.deletions[1..];
    assert forall row | row in r'.sync.deletions :: row in r.sync.deletions;
    ReconcileMissing(cfg, u, r, d);
    SameMissing(u, r', With(r, ReconcileDeletion(r.db, d)));
  }

  lemma ReconcileMissing(cfg: Config, u: set<Signature>, r: Relay, d: Deletion)
    requires Inv(cfg, r) && d.target in u && r.past.inserted <= u && r.past.confirmed <= u
    ensures var r' := With(r, ReconcileDeletion(r.db, d));
            && r'.past.inserted <= u && r'.past.confirmed <= u
            && (Missing(u, r') < Missing(u, r) || r'.db == r.db)
  {
    Unchanged(cfg, r);
    FindsDeletion(r.db, d.target);
    var r' := With(r, ReconcileDeletion(r.db, d));
    if d.target !in Confirmed(r.db) {
      ConfirmationContents(r.db, d.(confirmed := true));
      Smaller(u, Stored(r.db) + Confirmed(r.db), Stored(r'.db) + Confirmed(r'.db));
      Smaller(u, Confirmed(r.db), Confirmed(r'.db));
    }
  }

  lemma CloseAdvances(u: set<Signature>, r: Relay, r': Relay)
    requires Knows(u, r)
    requires || (r.sync.Messages? && r.sync.messages == []
                 && r' == r.(cursors := r.cursors[r.sync.peer := r.sync.maxId], sync := Idle))
             || (r.sync.Deletions? && r.sync.deletions == []
                 && r' == r.(deletionCursors := r.deletionCursors[r.sync.peer := r.sync.maxId], sync := Idle))
    ensures Knows(u, r') && Advances(u, r, r')
  {
  }

  // A page fetched from peer j leaves less of its log to read.
  ghost predicate Fetches(r: Relay, r': Relay, j: nat, s: Relay) {
    && r'.db == r.db && r'.past == r.past
    && Unread(r', j, s) < Unread(r, j, s)
    && forall i | i != j :: Place(r', i) == Place(r, i) && DeletionPlace(r', i) == DeletionPlace(r, i)
  }

  lemma PageShortensLog<V(!new)>(log: seq<Row<V>>, since: nat)
    requires Ascending(log) && Page(log, since, PULL_BATCH_LIMIT) != []
    ensures |Above(log, LastId(since, Page(log, since, PULL_BATCH_LIMIT)))| < |Above(log, since)|
  {
    AboveAfterPage(log, since, PULL_BATCH_LIMIT);
  }

  lemma OpenMessagesFetches(u: set<Signature>, r: Relay, j: nat, s: Relay)
    requires Ascending(s.db.messages.rows) && Stored(s.db) <= u && Knows(u, r) && r.sync.Idle?
    requires MessagePage(r, j, s) != []
    ensures var r' := r.(sync := Messages(j, MessagePage(r, j, s), Cursor(r.cursors, j)));
            Knows(u, r') && Fetches(r, r', j, s)
  {
    hide Above, Page, Ascending;
    PageShortensLog(s.db.messages.rows, Cursor(r.cursors, j));
    assert forall row | row in s.db.messages.rows :: row.value.signature in Stored(s.db);
  }

  lemma OpenDeletionsFetches(u: set<Signature>, r: Relay, j: nat, s: Relay)
    requires Ascending(ConfirmedRows(s.db)) && Confirmed(s.db) <= u && Knows(u, r) && r.sync.Idle?
    requires DeletionPage(r, j, s) != []
    ensures var r' := r.(sync := Deletions(j, DeletionPage(r, j, s), Cursor(r.deletionCursors, j)));
            Knows(u, r') && Fetches(r, r', j, s)
  {
    hide Above, Page, Ascending, ConfirmedRows;
    PageShortensLog(ConfirmedRows(s.db), Cursor(r.deletionCursors, j));
    ConfirmedRowsConfirmed(s.db);
  }

  lemma ConfirmedRowsConfirmed(db: Db)
    ensures forall row | row in ConfirmedRows(db) :: row.value.target in Confirmed(db)
    ensures Ascending(db.deletions.rows) ==> Ascending(ConfirmedRows(db))
  {
    assert forall row | row in db.deletions.rows && row.value.confirmed :: row.value.target in Confirmed(db);
  }

  // --- The mesh ---

  ghost predicate Progress(u: set<Signature>, m: State, m': State) {
    || ToStore(u, m') < ToStore(u, m)
    || (ToStore(u, m') == ToStore(u, m) && ToRead(m') < ToRead(m))
    || (ToStore(u, m') == ToStore(u, m) && ToRead(m') == ToRead(m) && ToFinish(m') < ToFinish(m))
  }

  // m' is m with relay k changed.
  ghost predicate OnlyAt(m: State, k: nat, r': Relay, m': State) {
    k < |m.relays| && m'.relays == m.relays[k := r']
  }

  lemma StoringProgresses(u: set<Signature>, m: State, k: nat, r': Relay, m': State)
    requires OnlyAt(m, k, r', m') && Missing(u, r') < Missing(u, m.relays[k])
    ensures ToStore(u, m') < ToStore(u, m)
  {
    hide Missing;
    SumLess(|m.relays|, MissingAt(u, m'), MissingAt(u, m), k);
  }

  lemma SameStores(u: set<Signature>, m: State, k: nat, r': Relay, m': State)
    requires OnlyAt(m, k, r', m') && r'.db == m.relays[k].db
    ensures ToStore(u, m') == ToStore(u, m)
  {
    SumAtMost(|m.relays|, MissingAt(u, m'), MissingAt(u, m));
    SumAtMost(|m.relays|, MissingAt(u, m), MissingAt(u, m'));
  }

  lemma FinishingProgresses(u: set<Signature>, m: State, k: nat, r': Relay, m': State)
    requires OnlyAt(m, k, r', m') && Advances(u, m.relays[k], r') && Missing(u, r') >= Missing(u, m.relays[k])
    ensures Progress(u, m, m')
  {
    hide Missing, InHand, Place, DeletionPlace, Above, ConfirmedRows;
    SameStores(u, m, k, r', m');
    SumLess(|m.relays|, InHandAt(m'), InHandAt(m), k);
    forall a: nat | a < |m.relays| ensures UnreadAt(m')(a) == UnreadAt(m)(a) {
      SumAtMost(|m.relays|, UnreadBy(m', a), UnreadBy(m, a));
      SumAtMost(|m.relays|, UnreadBy(m, a), UnreadBy(m', a));
    }
    SumAtMost(|m.relays|, UnreadAt(m'), UnreadAt(m));
    SumAtMost(|m.relays|, UnreadAt(m), UnreadAt(m'));
  }

  lemma FetchingProgresses(u: set<Signature>, m: State, k: nat, r': Relay, j: nat, m': State)
    requires OnlyAt(m, k, r', m') && j < |m.relays| && Fetches(m.relays[k], r', j, m.relays[j])
    ensures Progress(u, m, m')
  {
    hide Missing, Place, DeletionPlace, Above, ConfirmedRows;
    SameStores(u, m, k, r', m');
    forall a: nat | a < |m.relays| && a != k ensures UnreadAt(m')(a) <= UnreadAt(m)(a) {
      SumAtMost(|m.relays|, UnreadBy(m', a), UnreadBy(m, a));
    }
    SumLess(|m.relays|, UnreadBy(m', k), UnreadBy(m, k), j);
    SumLess(|m.relays|, UnreadAt(m'), UnreadAt(m), k);
  }

  // Every useful step makes progress, so no schedule of useful steps goes on for ever.
  lemma UsefulProgresses(sys: System, u: set<Signature>, m: State, step: Step)
    requires ValidSystem(sys) && MeshInv(sys, m) && AllKnown(u, m) && Useful(sys, m, step)
    ensures AllKnown(u, Apply(sys, m, step)) && Progress(u, m, Apply(sys, m, step))
  {
    hide Inv, PairInv, Knows, Missing, Advances, Fetches, Progress;
    var k := Actor(m, step);
    var r, r', m' := m.relays[k], Moved(sys, m, step), Apply(sys, m, step);
    assert Knows(u, r) && OnlyAt(m, k, r', m');
    UsefulMoves(sys, u, m, step);
    if step.OpenMessages? || step.OpenDeletions? {
      FetchingProgresses(u, m, k, r', step.peer, m');
    } else if Missing(u, r') < Missing(u, r) {
      StoringProgresses(u, m, k, r', m');
      assert Progress(u, m, m') by { ProgressByStoring(u, m, m'); }
    } else {
      FinishingProgresses(u, m, k, r', m');
    }
  }

  lemma ProgressByStoring(u: set<Signature>, m: State, m': State)
    requires ToStore(u, m') < ToStore(u, m)
    ensures Progress(u, m, m')
  {
  }

  lemma UsefulMoves(sys: System, u: set<Signature>, m: State, step: Step)
    requires ValidSystem(sys) && MeshInv(sys, m) && AllKnown(u, m) && Useful(sys, m, step)
    ensures var r, r' := m.relays[Actor(m, step)], Moved(sys, m, step);
            && Knows(u, r')
            && if step.OpenMessages? || step.OpenDeletions?
               then Linked(sys, step.at, step.peer) && Fetches(r, r', step.peer, m.relays[step.peer])
               else Advances(u, r, r')
  {
    hide Inv, PairInv, Knows, Missing, Advances, Fetches, MessagePage, DeletionPage, MessagesFit, DeletionsFit;
    var k := Actor(m, step);
    var r := m.relays[k];
    assert Knows(u, r) && Inv(sys.cfg, r);
    match step
    case OpenMessages(_, j) =>
      LogsSound(sys, u, m, j);
      OpenMessagesFetches(u, r, j, m.relays[j]);
    case OpenDeletions(_, j) =>
      LogsSound(sys, u, m, j);
      OpenDeletionsFetches(u, r, j, m.relays[j]);
    case NextMessage(_, _) =>
      PageHead(sys, m, k);
      MessageAdvances(sys.cfg, u, r);
    case NextDeletion(_, _) =>
      PageHead(sys, m, k);
      DeletionAdvances(sys.cfg, u, r);
    case CloseMessages(_) => CloseAdvances(u, r, Moved(sys, m, step));
    case CloseDeletions(_) => CloseAdvances(u, r, Moved(sys, m, step));
  }

  lemma LogsSound(sys: System, u: set<Signature>, m: State, j: nat)
    requires MeshInv(sys, m) && AllKnown(u, m) && j < |m.relays|
    ensures var s := m.relays[j];
            && Ascending(s.db.messages.rows) && Ascending(ConfirmedRows(s.db))
            && Stored(s.db) <= u && Confirmed(s.db) <= u
  {
    hide ConfirmedRows;
    assert Inv(sys.cfg, m.relays[j]) && Knows(u, m.relays[j]);
    ConfirmedRowsConfirmed(m.relays[j].db);
  }

  lemma PageHead(sys: System, m: State, k: nat)
    requires MeshInv(sys, m) && k < |m.relays|
    ensures var sync := m.relays[k].sync;
            && (sync.Messages? && sync.messages != [] ==> Ascending(sync.messages) && sync.maxId < sync.messages[0].id)
            && (sync.Deletions? && sync.deletions != [] ==>
                  Ascending(sync.deletions) && sync.maxId < sync.deletions[0].id)
  {
    var r := m.relays[k];
    if !r.sync.Idle? {
      assert Linked(sys, k, r.sync.peer) && PairInv(r, r.sync.peer, m.relays[r.sync.peer]);
      assert r.sync.Messages? && r.sync.messages != [] ==> r.sync.messages[0] in r.sync.messages;
      assert r.sync.Deletions? && r.sync.deletions != [] ==> r.sync.deletions[0] in r.sync.deletions;
    }
  }

  // Where no step is useful: every thread is idle, and a cursor is at the end of its peer's
  // log if and only if the page it would ask for next fits.
  ghost predicate AtRest(sys: System, m: State)
    requires |m.relays| == |sys.trust|
  {
    && (forall k | 0 <= k < |m.relays| :: m.relays[k].sync.Idle?)
    && forall k: nat, j: nat | Linked(sys, k, j) ::
         var r, s := m.relays[k], m.relays[j];
         && (MessagesRead(r, j, s) <==> MessagesFit(MessagePage(r, j, s)))
         && (DeletionsRead(r, j, s) <==> DeletionsFit(DeletionPage(r, j, s)))
  }

  lemma RestIff(sys: System, m: State)
    requires ValidSystem(sys) && MeshInv(sys, m)
    ensures (forall step :: !Useful(sys, m, step)) <==> AtRest(sys, m)
  {
    hide Inv, PairInv, MessagesRead, DeletionsRead, MessagesFit, DeletionsFit, MessagePage, DeletionPage;
    forall k: nat, j: nat | Linked(sys, k, j)
      ensures var r, s := m.relays[k], m.relays[j];
              && (MessagesRead(r, j, s) <==> MessagePage(r, j, s) == [])
              && (DeletionsRead(r, j, s) <==> DeletionPage(r, j, s) == [])
    {
      ReadIff(m.relays[k], j, m.relays[j]);
    }
    NothingFits();
    if forall step :: !Useful(sys, m, step) {
      forall k: nat | k < |m.relays| ensures m.relays[k].sync.Idle? { RestIsIdle(sys, m, k); }
      forall k: nat, j: nat | Linked(sys, k, j)
        ensures MessagePage(m.relays[k], j, m.relays[j]) == [] || !MessagesFit(MessagePage(m.relays[k], j, m.relays[j]))
        ensures DeletionPage(m.relays[k], j, m.relays[j]) == []
             || !DeletionsFit(DeletionPage(m.relays[k], j, m.relays[j]))
      {
        assert !Useful(sys, m, OpenMessages(k, j)) && !Useful(sys, m, OpenDeletions(k, j));
      }
    }
  }

  lemma NothingFits()
    ensures MessagesFit([]) && DeletionsFit([])
  {
  }

  lemma RestIsIdle(sys: System, m: State, k: nat)
    requires MeshInv(sys, m) && k < |m.relays| && forall step :: !Useful(sys, m, step)
    ensures m.relays[k].sync.Idle?
  {
    hide Inv, PairInv;
    assert !Useful(sys, m, NextMessage(k, ALL_GRANTED)) && !Useful(sys, m, CloseMessages(k));
    assert !Useful(sys, m, NextDeletion(k, ALL_GRANTED)) && !Useful(sys, m, CloseDeletions(k));
  }

  lemma ReadIff(r: Relay, j: nat, s: Relay)
    ensures MessagesRead(r, j, s) <==> MessagePage(r, j, s) == []
    ensures DeletionsRead(r, j, s) <==> DeletionPage(r, j, s) == []
  {
    hide Above;
    PageEmptyIff(s.db.messages.rows, Cursor(r.cursors, j));
    PageEmptyIff(ConfirmedRows(s.db), Cursor(r.deletionCursors, j));
  }

  lemma PageEmptyIff<V(!new)>(log: seq<Row<V>>, place: nat)
    ensures Page(log, place, PULL_BATCH_LIMIT) == [] <==> forall row | row in log :: row.id <= place
  {
    if Page(log, place, PULL_BATCH_LIMIT) == [] {
      forall row | row in log ensures row.id <= place { assert row !in Above(log, place); }
    }
    if forall row | row in log :: row.id <= place { NothingAbove(log, place); }
  }

  // Everything a state knows.
  ghost function Known(m: State): set<Signature> {
    Published(m) + Deleted(m)
    + (set k, row | 0 <= k < |m.relays| && m.relays[k].sync.Messages? && row in m.relays[k].sync.messages ::
         row.value.signature)
    + (set k, row | 0 <= k < |m.relays| && m.relays[k].sync.Deletions? && row in m.relays[k].sync.deletions ::
         row.value.target)
  }

  ghost predicate AllUseful(sys: System, before: seq<Step>, steps: seq<Step>) {
    forall i | 0 <= i < |steps| :: Useful(sys, After(sys, before + steps[..i]), steps[i])
  }

  lemma Settle(sys: System, u: set<Signature>, before: seq<Step>) returns (steps: seq<Step>)
    requires ValidSystem(sys) && AllKnown(u, After(sys, before))
    ensures AllUseful(sys, before, steps)
    ensures var m := After(sys, before + steps);
            |m.relays| == |sys.trust| && AtRest(sys, m)
    decreases ToStore(u, After(sys, before)), ToRead(After(sys, before)), ToFinish(After(sys, before))
  {
    hide Useful, ToStore, ToRead, ToFinish, AtRest, MeshInv;
    var m := After(sys, before);
    RunKeeps(sys, before);
    ValidRelays(sys, m);
    RestIff(sys, m);
    if step :| Useful(sys, m, step) {
      UsefulProgresses(sys, u, m, step);
      assert (before + [step])[..|before|] == before;
      var rest := Settle(sys, u, before + [step]);
      steps := [step] + rest;
      UsefulFirst(sys, before, step, rest);
    } else {
      steps := [];
      assert before + [] == before;
    }
  }

  lemma ValidRelays(sys: System, m: State)
    requires MeshInv(sys, m)
    ensures |m.relays| == |sys.trust|
  {
  }

  lemma UsefulFirst(sys: System, before: seq<Step>, step: Step, rest: seq<Step>)
    requires Useful(sys, After(sys, before), step) && AllUseful(sys, before + [step], rest)
    ensures before + ([step] + rest) == before + [step] + rest && AllUseful(sys, before, [step] + rest)
  {
    hide Useful, After;
    var steps := [step] + rest;
    forall i | 0 <= i < |steps| ensures Useful(sys, After(sys, before + steps[..i]), steps[i]) {
      if i == 0 {
        assert before + steps[..0] == before;
      } else {
        assert before + steps[..i] == before + [step] + rest[..i - 1];
      }
    }
  }

  // --- Rest is final ---

  // A step of an anti-entropy thread, whatever the limiter answers.
  predicate Pulls(step: Step) {
    || step.OpenMessages? || step.NextMessage? || step.CloseMessages?
    || step.OpenDeletions? || step.NextDeletion? || step.CloseDeletions? || step.Abandon?
  }

  // A thread that has at most an empty page in hand.
  ghost predicate EmptyHanded(r: Relay) {
    match r.sync
    case Idle => true
    case Messages(j, page, place) => page == [] && place == Cursor(r.cursors, j)
    case Deletions(j, page, place) => page == [] && place == Cursor(r.deletionCursors, j)
  }

  ghost predicate NothingToFetch(r: Relay, j: nat, s: Relay) {
    && (MessagePage(r, j, s) == [] || !MessagesFit(MessagePage(r, j, s)))
    && (DeletionPage(r, j, s) == [] || !DeletionsFit(DeletionPage(r, j, s)))
  }

  ghost predicate Quiet(sys: System, m: State) {
    && |m.relays| == |sys.trust|
    && (forall k | 0 <= k < |m.relays| :: EmptyHanded(m.relays[k]))
    && forall k: nat, j: nat | Linked(sys, k, j) :: NothingToFetch(m.relays[k], j, m.relays[j])
  }

  // Tables, and the places in every log, as they were.
  ghost predicate Unmoved(r: Relay, r': Relay) {
    && r'.db == r.db
    && forall j :: Cursor(r'.cursors, j) == Cursor(r.cursors, j)
                   && Cursor(r'.deletionCursors, j) == Cursor(r.deletionCursors, j)
  }

  lemma QuietMoves(sys: System, m: State, step: Step)
    requires Quiet(sys, m) && Pulls(step) && Enabled(sys, m, step)
    ensures var r, r' := m.relays[Actor(m, step)], Moved(sys, m, step);
            Unmoved(r, r') && EmptyHanded(r')
    ensures Scheduled(sys, m, step) == []
  {
    hide MessagePage, DeletionPage, MessagesFit, DeletionsFit;
    var k := Actor(m, step);
    assert EmptyHanded(m.relays[k]);
    match step
    case OpenMessages(_, j) => if Linked(sys, k, j) { assert NothingToFetch(m.relays[k], j, m.relays[j]); }
    case OpenDeletions(_, j) => if Linked(sys, k, j) { assert NothingToFetch(m.relays[k], j, m.relays[j]); }
    case _ =>
  }

  lemma QuietStays(sys: System, m: State, step: Step)
    requires Quiet(sys, m) && Pulls(step)
    ensures var m' := Apply(sys, m, step);
            Quiet(sys, m') && m'.inflight == m.inflight
            && forall k | 0 <= k < |m.relays| :: m'.relays[k].db == m.relays[k].db
  {
    hide Moved, Scheduled, MessagesFit, DeletionsFit, EmptyHanded, Page;
    if Enabled(sys, m, step) {
      var m' := Apply(sys, m, step);
      QuietMoves(sys, m, step);
      assert m.inflight + [] == m.inflight;
      forall k | 0 <= k < |m.relays| ensures Unmoved(m.relays[k], m'.relays[k]) && EmptyHanded(m'.relays[k]) {
        assert EmptyHanded(m.relays[k]);
      }
      forall k: nat, j: nat | Linked(sys, k, j) ensures NothingToFetch(m'.relays[k], j, m'.relays[j]) {
        assert NothingToFetch(m.relays[k], j, m.relays[j]);
        assert Unmoved(m.relays[k], m'.relays[k]) && Unmoved(m.relays[j], m'.relays[j]);
      }
    }
  }

  lemma RestIsQuiet(sys: System, m: State)
    requires |m.relays| == |sys.trust| && AtRest(sys, m)
    ensures Quiet(sys, m)
  {
    hide MessagesRead, DeletionsRead, MessagesFit, DeletionsFit, MessagePage, DeletionPage;
    forall k: nat, j: nat | Linked(sys, k, j) ensures NothingToFetch(m.relays[k], j, m.relays[j]) {
      ReadIff(m.relays[k], j, m.relays[j]);
    }
  }

  // However often the threads of a mesh at rest try again, no table changes and nothing is
  // pushed: what a page too large has blocked stays blocked until something else happens.
  lemma {:induction false} RestIsFinal(sys: System, before: seq<Step>, steps: seq<Step>)
    requires |After(sys, before).relays| == |sys.trust| && AtRest(sys, After(sys, before))
    requires forall step | step in steps :: Pulls(step)
    ensures var m, m' := After(sys, before), After(sys, before + steps);
            Quiet(sys, m') && m'.inflight == m.inflight
            && forall k | 0 <= k < |m.relays| :: m'.relays[k].db == m.relays[k].db
  {
    hide Apply, AtRest, Quiet;
    if steps == [] {
      assert before + steps == before;
      RestIsQuiet(sys, After(sys, before));
    } else {
      var front, last := steps[..|steps| - 1], steps[|steps| - 1];
      assert last in steps && forall step | step in front :: step in steps;
      RestIsFinal(sys, before, front);
      assert (before + steps)[..|before + steps| - 1] == before + front;
      QuietStays(sys, After(sys, before + front), last);
      SameSize(sys, After(sys, before), After(sys, before + front));
    }
  }

  lemma SameSize(sys: System, m: State, m': State)
    requires |m.relays| == |sys.trust| && Quiet(sys, m')
    ensures |m'.relays| == |m.relays|
  {
  }

  // The links neither of whose next pages is too large.
  ghost predicate Open(sys: System, m: State, k: nat, j: nat)
    requires |m.relays| == |sys.trust|
  {
    && Linked(sys, k, j)
    && MessagesFit(MessagePage(m.relays[k], j, m.relays[j])) && DeletionsFit(DeletionPage(m.relays[k], j, m.relays[j]))
  }

  // From every state a run can reach, useful pulls alone bring the mesh to rest. There, a
  // relay has read a peer to the end if and only if neither of the pages it would ask for
  // next is too large. If the links of that kind join every pair of relays, the mesh is
  // consistent, message by message: every relay has the tombstone of an unexpired message if
  // and only if some relay confirmed its deletion, and none stores it then; and every relay
  // stores a live message that was published and not deleted, if and only if none that turned
  // it away has never had it otherwise.
  lemma EventuallyConsistent(sys: System, before: seq<Step>) returns (steps: seq<Step>)
    requires ValidSystem(sys)
    ensures AllUseful(sys, before, steps)
    ensures var m := After(sys, before + steps);
            && |m.relays| == |sys.trust| && AtRest(sys, m)
            && (forall k: nat, j: nat :: HasRead(sys, m, k, j) <==> Open(sys, m, k, j))
            && (CaughtUp(sys, m) ==> forall x | Unexpired(m, x) ::
                  && (forall k | 0 <= k < |m.relays| ::
                        && (x in Confirmed(m.relays[k].db) <==> x in Deleted(m))
                        && (x in Stored(m.relays[k].db) ==> x in Published(m) - Deleted(m)))
                  && (Live(m, x) && x in Published(m) - Deleted(m) ==>
                        ((forall k | 0 <= k < |m.relays| :: x in Stored(m.relays[k].db)) <==> NotRefused(m, x))))
  {
    hide CaughtUp, Live, NotRefused, Useful, After, MessagesRead, DeletionsRead, MessagesFit, DeletionsFit,
      MessagePage, DeletionPage, Stored, Confirmed, Published, Deleted;
    KnowsItself(After(sys, before));
    steps := Settle(sys, Known(After(sys, before)), before);
    var m := After(sys, before + steps);
    if CaughtUp(sys, m) {
      forall x | Unexpired(m, x)
        ensures forall k | 0 <= k < |m.relays| ::
                  && (x in Confirmed(m.relays[k].db) <==> x in Deleted(m))
                  && (x in Stored(m.relays[k].db) ==> x in Published(m) - Deleted(m))
        ensures Live(m, x) && x in Published(m) - Deleted(m) ==>
                  ((forall k | 0 <= k < |m.relays| :: x in Stored(m.relays[k].db)) <==> NotRefused(m, x))
      {
        Converges(sys, before + steps, x);
      }
    }
  }

  lemma KnowsItself(m: State)
    ensures AllKnown(Known(m), m)
  {
    forall k | 0 <= k < |m.relays| ensures Knows(Known(m), m.relays[k]) {
      assert m.relays[k].past.inserted <= Published(m) && m.relays[k].past.confirmed <= Deleted(m);
    }
  }
}
