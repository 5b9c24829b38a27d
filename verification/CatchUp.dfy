// How far a relay gets through a peer's logs, round by round: exactly when a round makes
// progress, exactly when a backlog is read 500 rows a round, and backlogs that no number of
// rounds can shorten.
module CatchUp {
  import opened Protocol
  import opened Tables
  import opened Store
  import opened RelaySpec
  import opened Wire

  // --- One round ---

  // One round against a message log: a page that does not fit raises before the cursor is
  // stored.
  function Round(cfg: Config, db: Db, cursor: nat, log: seq<Row<Payload>>, moments: seq<Moment>): (Db, nat)
    requires |moments| == PULL_BATCH_LIMIT
  {
    var page := Page(log, cursor, PULL_BATCH_LIMIT);
    if !MessagesFit(page) then (db, cursor)
    else
      var end := ReadPage(cfg, Reading(db, cursor, false, []), page, moments[..|page|]);
      (end.db, end.maxId)
  }

  // The same for a tombstone log.
  function DeletionRound(db: Db, cursor: nat, log: seq<Row<Deletion>>, grants: seq<Grants>): (Db, nat)
    requires |grants| == PULL_BATCH_LIMIT
  {
    var page := Page(log, cursor, PULL_BATCH_LIMIT);
    if !DeletionsFit(page) then (db, cursor)
    else
      var end := ReconcilePage(Reading(db, cursor, false, []), page, grants[..|page|]);
      (end.db, end.maxId)
  }

  // What a pulled message needs of the limiter: nothing for a duplicate, a global token
  // otherwise, and a token of the peer's own if it has room and is valid.
  predicate LetThrough(cfg: Config, db: Db, p: Payload, m: Moment) {
    || FindMessage(db.messages.rows, p.signature).Some?
    || (m.grants.global && (!HasRoom(cfg, db, p.recipient) || !Validates(cfg, p, m.now) || m.grants.identity))
  }

  lemma LetThroughIff(cfg: Config, db: Db, place: nat, item: Row<Payload>, m: Moment)
    ensures PullMessage(cfg, db, place, item, m.grants, m.now).2.Throttled? <==> !LetThrough(cfg, db, item.value, m)
  {
  }

  lemma {:induction false} PlaceNeverFalls(cfg: Config, start: Reading, page: seq<Row<Payload>>, moments: seq<Moment>)
    requires |moments| == |page|
    ensures start.maxId <= ReadPage(cfg, start, page, moments).maxId
  {
    if page != [] { PlaceNeverFalls(cfg, start, page[..|page| - 1], moments[..|page| - 1]); }
  }

  lemma {:induction false} PlaceAfterFirst(cfg: Config, start: Reading, page: seq<Row<Payload>>, moments: seq<Moment>)
    requires |moments| == |page| && page != [] && !start.stopped && start.maxId < page[0].id
    ensures var end := ReadPage(cfg, start, page, moments);
            if LetThrough(cfg, start.db, page[0].value, moments[0]) then start.maxId < end.maxId
            else end.maxId == start.maxId && end.stopped
  {
    hide LetThrough;
    LetThroughIff(cfg, start.db, start.maxId, page[0], moments[0]);
    if |page| == 1 {
      assert ReadPage(cfg, start, [], []) == start;
      assert page[..0] == [] && moments[..0] == [];
    } else {
      PlaceAfterFirst(cfg, start, page[..|page| - 1], moments[..|page| - 1]);
    }
  }

  // A round moves the cursor exactly when there is something above it, the page fits, and
  // the limiter lets the first row through.
  lemma RoundAdvancesIff(cfg: Config, db: Db, cursor: nat, log: seq<Row<Payload>>, moments: seq<Moment>)
    requires |moments| == PULL_BATCH_LIMIT
    ensures var page := Page(log, cursor, PULL_BATCH_LIMIT);
            cursor <= Round(cfg, db, cursor, log, moments).1
            && (cursor < Round(cfg, db, cursor, log, moments).1 <==>
                  page != [] && MessagesFit(page) && LetThrough(cfg, db, page[0].value, moments[0]))
  {
    hide LetThrough, MessagesFit;
    var page := Page(log, cursor, PULL_BATCH_LIMIT);
    var start := Reading(db, cursor, false, []);
    PlaceNeverFalls(cfg, start, page, moments[..|page|]);
    if page != [] {
      assert page[0] in page;
      PlaceAfterFirst(cfg, start, page, moments[..|page|]);
    } else {
      assert ReadPage(cfg, start, page, moments[..0]) == start;
    }
  }

  lemma {:induction false} DeletionPlaceAfterFirst(start: Reading, page: seq<Row<Deletion>>, grants: seq<Grants>)
    requires |grants| == |page| && page != [] && !start.stopped && start.maxId < page[0].id
    ensures var end := ReconcilePage(start, page, grants);
            if grants[0].global && grants[0].identity then start.maxId < end.maxId
            else end.maxId == start.maxId && end.stopped
  {
    hide ReconcileDeletion;
    if |page| == 1 {
      assert ReconcilePage(start, [], []) == start;
      assert page[..0] == [] && grants[..0] == [];
    } else {
      DeletionPlaceAfterFirst(start, page[..|page| - 1], grants[..|page| - 1]);
    }
  }

  // The same of a tombstone round, where every row needs a token of both kinds.
  lemma DeletionRoundAdvancesIff(db: Db, cursor: nat, log: seq<Row<Deletion>>, grants: seq<Grants>)
    requires |grants| == PULL_BATCH_LIMIT
    ensures var page := Page(log, cursor, PULL_BATCH_LIMIT);
            cursor <= DeletionRound(db, cursor, log, grants).1
            && (cursor < DeletionRound(db, cursor, log, grants).1 <==>
                  page != [] && DeletionsFit(page) && grants[0].global && grants[0].identity)
  {
    hide DeletionsFit;
    var page := Page(log, cursor, PULL_BATCH_LIMIT);
    if page != [] {
      assert page[0] in page;
      DeletionPlaceAfterFirst(Reading(db, cursor, false, []), page, grants[..|page|]);
    } else {
      assert ReconcilePage(Reading(db, cursor, false, []), page, grants[..0]) == Reading(db, cursor, false, []);
    }
  }

  // --- Whole backlogs ---

  // Where a number of rounds with budget take a cursor through a log that does not change.
  function PlaceAfter<V(!new)>(log: seq<Row<V>>, cursor: nat, fits: seq<Row<V>> -> bool, rounds: nat): nat {
    if rounds == 0 then cursor
    else
      var place := PlaceAfter(log, cursor, fits, rounds - 1);
      var page := Page(log, place, PULL_BATCH_LIMIT);
      if fits(page) then LastId(place, page) else place
  }

  function Least(a: nat, b: nat): nat {
    if a < b then a else b
  }

  // Rows 500i to 500i + 499 of a backlog.
  function Chunk<V>(backlog: seq<Row<V>>, i: nat): seq<Row<V>> {
    backlog[Least(PULL_BATCH_LIMIT * i, |backlog|)..Least(PULL_BATCH_LIMIT * (i + 1), |backlog|)]
  }

  function AfterChunks<V>(backlog: seq<Row<V>>, n: nat): seq<Row<V>> {
    backlog[Least(PULL_BATCH_LIMIT * n, |backlog|)..]
  }

  ghost predicate ChunksFit<V(!new)>(backlog: seq<Row<V>>, fits: seq<Row<V>> -> bool, n: nat) {
    forall i: nat | i < n :: fits(Chunk(backlog, i))
  }

  // n rounds read n chunks if and only if each of these chunks fits; if one does not, the
  // page asked for stays the same and stays too large.
  lemma {:induction false} PlacesIff<V(!new)>(log: seq<Row<V>>, cursor: nat, fits: seq<Row<V>> -> bool, n: nat)
    requires Ascending(log) && fits([])
    ensures var backlog, left := Above(log, cursor), Above(log, PlaceAfter(log, cursor, fits, n));
            if ChunksFit(backlog, fits, n) then left == AfterChunks(backlog, n)
            else && !fits(Page(log, PlaceAfter(log, cursor, fits, n), PULL_BATCH_LIMIT))
                 && |left| > |AfterChunks(backlog, n)|
  {
    hide Above, Chunk, AfterChunks, Page, ChunksFit;
    var backlog := Above(log, cursor);
    if n == 0 {
      NoChunks(backlog, fits);
    } else {
      PlacesIff(log, cursor, fits, n - 1);
      var place := PlaceAfter(log, cursor, fits, n - 1);
      AboveAfterPage(log, place, PULL_BATCH_LIMIT);
      OneMoreChunk(backlog, fits, n - 1);
      if ChunksFit(backlog, fits, n - 1) { PageIsChunk(log, place, backlog, n - 1); }
    }
  }

  lemma NoChunks<V(!new)>(backlog: seq<Row<V>>, fits: seq<Row<V>> -> bool)
    ensures ChunksFit(backlog, fits, 0) && AfterChunks(backlog, 0) == backlog
  {
  }

  lemma OneMoreChunk<V(!new)>(backlog: seq<Row<V>>, fits: seq<Row<V>> -> bool, i: nat)
    ensures ChunksFit(backlog, fits, i + 1) <==> ChunksFit(backlog, fits, i) && fits(Chunk(backlog, i))
    ensures |Chunk(backlog, i)| <= |AfterChunks(backlog, i)|
    ensures AfterChunks(backlog, i + 1) == AfterChunks(backlog, i)[|Chunk(backlog, i)|..]
  {
  }

  lemma PageIsChunk<V(!new)>(log: seq<Row<V>>, place: nat, backlog: seq<Row<V>>, i: nat)
    requires Above(log, place) == AfterChunks(backlog, i)
    ensures Page(log, place, PULL_BATCH_LIMIT) == Chunk(backlog, i)
  {
    hide Above;
  }

  ghost predicate AllGranted(moments: seq<Moment>) {
    forall m | m in moments :: m.grants.global && m.grants.identity
  }

  lemma {:induction false} GrantedReachesEnd(cfg: Config, start: Reading, page: seq<Row<Payload>>, moments: seq<Moment>)
    requires |moments| == |page| && !start.stopped && Ascending(page) && AllGranted(moments)
    requires forall row | row in page :: start.maxId < row.id
    ensures var end := ReadPage(cfg, start, page, moments);
            !end.stopped && end.maxId == LastId(start.maxId, page)
  {
    if page != [] {
      var front, last := page[..|page| - 1], page[|page| - 1];
      assert moments[|page| - 1] in moments && last in page;
      GrantedReachesEnd(cfg, start, front, moments[..|page| - 1]);
      assert front != [] ==> front[|front| - 1].id < last.id;
    }
  }

  lemma {:induction false} GrantedDeletionsReachEnd(start: Reading, page: seq<Row<Deletion>>, grants: seq<Grants>)
    requires |grants| == |page| && !start.stopped && Ascending(page)
    requires forall g | g in grants :: g.global && g.identity
    requires forall row | row in page :: start.maxId < row.id
    ensures var end := ReconcilePage(start, page, grants);
            !end.stopped && end.maxId == LastId(start.maxId, page)
  {
    hide ReconcileDeletion;
    if page != [] {
      var front, last := page[..|page| - 1], page[|page| - 1];
      assert grants[|page| - 1] in grants && last in page;
      GrantedDeletionsReachEnd(start, front, grants[..|page| - 1]);
      assert front != [] ==> front[|front| - 1].id < last.id;
    }
  }

  // The relay after a number of rounds against a log that does not change.
  function Rounds(cfg: Config, db: Db, cursor: nat, log: seq<Row<Payload>>, schedule: seq<seq<Moment>>): (Db, nat)
    requires forall moments | moments in schedule :: |moments| == PULL_BATCH_LIMIT
  {
    if schedule == [] then (db, cursor)
    else
      assert forall moments | moments in schedule[..|schedule| - 1] :: moments in schedule;
      var (mid, place) := Rounds(cfg, db, cursor, log, schedule[..|schedule| - 1]);
      Round(cfg, mid, place, log, schedule[|schedule| - 1])
  }

  function DeletionRounds(db: Db, cursor: nat, log: seq<Row<Deletion>>, schedule: seq<seq<Grants>>): (Db, nat)
    requires forall grants | grants in schedule :: |grants| == PULL_BATCH_LIMIT
  {
    if schedule == [] then (db, cursor)
    else
      assert forall grants | grants in schedule[..|schedule| - 1] :: grants in schedule;
      var (mid, place) := DeletionRounds(db, cursor, log, schedule[..|schedule| - 1]);
      DeletionRound(mid, place, log, schedule[|schedule| - 1])
  }

  lemma {:induction false} RoundsPlace(cfg: Config, db: Db, cursor: nat, log: seq<Row<Payload>>,
                                       schedule: seq<seq<Moment>>)
    requires Ascending(log)
    requires forall moments | moments in schedule :: |moments| == PULL_BATCH_LIMIT && AllGranted(moments)
    ensures Rounds(cfg, db, cursor, log, schedule).1 == PlaceAfter(log, cursor, MessagesFit, |schedule|)
  {
    hide Above, ReadPage, MessagesFit;
    if schedule != [] {
      var front, moments := schedule[..|schedule| - 1], schedule[|schedule| - 1];
      assert moments in schedule && forall x | x in front :: x in schedule;
      RoundsPlace(cfg, db, cursor, log, front);
      var (mid, place) := Rounds(cfg, db, cursor, log, front);
      var page := Page(log, place, PULL_BATCH_LIMIT);
      assert forall m | m in moments[..|page|] :: m in moments;
      GrantedReachesEnd(cfg, Reading(mid, place, false, []), page, moments[..|page|]);
    }
  }

  lemma {:induction false} DeletionRoundsPlace(db: Db, cursor: nat, log: seq<Row<Deletion>>, schedule: seq<seq<Grants>>)
    requires Ascending(log)
    requires forall grants | grants in schedule ::
               |grants| == PULL_BATCH_LIMIT && forall g | g in grants :: g.global && g.identity
    ensures DeletionRounds(db, cursor, log, schedule).1 == PlaceAfter(log, cursor, DeletionsFit, |schedule|)
  {
    hide Above, ReconcilePage, DeletionsFit;
    if schedule != [] {
      var front, grants := schedule[..|schedule| - 1], schedule[|schedule| - 1];
      assert grants in schedule && forall x | x in front :: x in schedule;
      DeletionRoundsPlace(db, cursor, log, front);
      var (mid, place) := DeletionRounds(db, cursor, log, front);
      var page := Page(log, place, PULL_BATCH_LIMIT);
      assert forall g | g in grants[..|page|] :: g in grants;
      GrantedDeletionsReachEnd(Reading(mid, place, false, []), page, grants[..|page|]);
    }
  }

  // With budget, rounds against a log that does not change take 500 rows off the backlog each,
  // so that n rows are read in n / 500 rounds, rounded up, if and only if every 500 rows that
  // are asked for on the way fit one response.
  lemma BacklogIff(cfg: Config, db: Db, cursor: nat, log: seq<Row<Payload>>, schedule: seq<seq<Moment>>)
    requires Ascending(log)
    requires forall moments | moments in schedule :: |moments| == PULL_BATCH_LIMIT && AllGranted(moments)
    ensures ChunksFit(Above(log, cursor), MessagesFit, |schedule|)
       <==> Above(log, Rounds(cfg, db, cursor, log, schedule).1) == AfterChunks(Above(log, cursor), |schedule|)
  {
    RoundsPlace(cfg, db, cursor, log, schedule);
    PlacesIff(log, cursor, MessagesFit, |schedule|);
  }

  lemma DeletionBacklogIff(db: Db, cursor: nat, log: seq<Row<Deletion>>, schedule: seq<seq<Grants>>)
    requires Ascending(log)
    requires forall grants | grants in schedule ::
               |grants| == PULL_BATCH_LIMIT && forall g | g in grants :: g.global && g.identity
    ensures ChunksFit(Above(log, cursor), DeletionsFit, |schedule|)
       <==> Above(log, DeletionRounds(db, cursor, log, schedule).1) == AfterChunks(Above(log, cursor), |schedule|)
  {
    DeletionRoundsPlace(db, cursor, log, schedule);
    PlacesIff(log, cursor, DeletionsFit, |schedule|);
  }

  // --- Backlogs that stall ---

  // A page that does not fit is asked for again, unchanged, for as long as it does not fit.
  lemma OversizedPageStalls(cfg: Config, db: Db, cursor: nat, log: seq<Row<Payload>>, moments: seq<Moment>)
    requires |moments| == PULL_BATCH_LIMIT
    ensures MessagesFit(Page(log, cursor, PULL_BATCH_LIMIT)) || Round(cfg, db, cursor, log, moments) == (db, cursor)
  {
  }

  // Twenty-five messages behind, each at least as large as the smallest padding size makes it,
  // a relay can no longer catch up: the page of up to 500 rows it asks for exceeds the size it
  // accepts, whatever the rate limit and however often it tries.
  lemma {:induction false} BacklogStalls(cfg: Config, db: Db, cursor: nat, log: seq<Row<Payload>>,
                                         schedule: seq<seq<Moment>>)
    requires forall moments | moments in schedule :: |moments| == PULL_BATCH_LIMIT
    requires 25 <= |Above(log, cursor)|
    requires forall row | row in log :: Base64Length(PAD_BUCKETS[0] + TAG_BYTES) <= row.value.size
    ensures Rounds(cfg, db, cursor, log, schedule) == (db, cursor)
  {
    hide Above;
    if schedule != [] {
      assert schedule[|schedule| - 1] in schedule;
      assert forall x | x in schedule[..|schedule| - 1] :: x in schedule;
      BacklogStalls(cfg, db, cursor, log, schedule[..|schedule| - 1]);
      var page := Page(log, cursor, PULL_BATCH_LIMIT);
      ListAtLeast(page, MessageBytes, 5484);
      assert 25 * 5484 <= 5484 * |page|;
    }
  }

  // So does a relay 143 tombstones behind, each with the base64 texts of a 2048-bit signature
  // and key.
  lemma {:induction false} DeletionBacklogStalls(db: Db, cursor: nat, log: seq<Row<Deletion>>,
                                                 schedule: seq<seq<Grants>>)
    requires forall grants | grants in schedule :: |grants| == PULL_BATCH_LIMIT
    requires 143 <= |Above(log, cursor)|
    requires forall row | row in log ::
               && 344 <= row.value.target.length && 392 <= row.value.requester.length
               && row.value.requesterRecipient.Blind?
    ensures DeletionRounds(db, cursor, log, schedule) == (db, cursor)
  {
    hide Above;
    if schedule != [] {
      assert schedule[|schedule| - 1] in schedule;
      assert forall x | x in schedule[..|schedule| - 1] :: x in schedule;
      DeletionBacklogStalls(db, cursor, log, schedule[..|schedule| - 1]);
      var page := Page(log, cursor, PULL_BATCH_LIMIT);
      ListAtLeast(page, DeletionBytes, 932);
      assert 143 * 932 <= 932 * |page|;
    }
  }
}
