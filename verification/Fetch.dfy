// What a client is given, against the plain statement of it.
module Fetch {
  import opened Protocol
  import opened Tables
  import opened Store
  import DayWindow
  import Interleaving

  datatype Error = NoIds | TooManyIds | BadId

  datatype Response = Messages(messages: seq<Payload>) | Rejected(error: Error)

  // WHERE recipient_id IN ids AND expires_at > now ORDER BY id, comparing texts.
  function Matching(rows: seq<Row<Payload>>, ids: seq<RecipientId>, now: int): seq<Row<Payload>> {
    Select(rows, (p: Payload) => p.recipient in ids && now < p.expiry.lapsesAt)
  }

  function Payloads(rows: seq<Row<Payload>>): (r: seq<Payload>)
    ensures |r| == |rows| && forall i | 0 <= i < |rows| :: r[i] == rows[i].value
  {
    seq(|rows|, i requires 0 <= i < |rows| => rows[i].value)
  }

  // _do_fetch.
  function Fetch(cfg: Config, db: Db, ids: seq<RecipientId>, now: int): Response {
    if ids == [] then Rejected(NoIds)
    else if |ids| > MaxFetchIds(cfg.maxTtl) then Rejected(TooManyIds)
    else if Blank in ids then Rejected(BadId)
    else Messages(Payloads(Matching(db.messages.rows, ids, now)))
  }

  // The plain statement: the stored rows for the addresses asked for whose expiry text has
  // not lapsed, in id order.
  ghost predicate Answers(db: Db, ids: seq<RecipientId>, now: int, messages: seq<Payload>) {
    exists rows: seq<Row<Payload>> ::
      && Ascending(rows) && messages == Payloads(rows)
      && forall row :: row in rows <==>
           row in db.messages.rows && row.value.recipient in ids && now < row.value.expiry.lapsesAt
  }

  // A fetch is rejected for its list of addresses alone; otherwise its response is the one
  // list that meets the plain statement.
  lemma FetchExact(cfg: Config, db: Db, ids: seq<RecipientId>, now: int)
    requires WellFormed(db)
    ensures Fetch(cfg, db, ids, now).Messages? <==> 0 < |ids| <= MaxFetchIds(cfg.maxTtl) && Blank !in ids
    ensures var response := Fetch(cfg, db, ids, now);
            response.Messages? ==> forall messages :: messages == response.messages <==> Answers(db, ids, now, messages)
  {
    var rows := Matching(db.messages.rows, ids, now);
    assert Answers(db, ids, now, Payloads(rows));
    forall messages | Answers(db, ids, now, messages) ensures messages == Payloads(rows) {
      var other: seq<Row<Payload>> :| Ascending(other) && messages == Payloads(other)
        && forall row :: row in other <==>
             row in db.messages.rows && row.value.recipient in ids && now < row.value.expiry.lapsesAt;
      SameRowsSameOrder(rows, other);
    }
  }

  // --- Sweeps ---

  lemma WhereOneMore<V(!new)>(front: seq<Row<V>>, last: Row<V>, keep: Row<V> -> bool)
    ensures Where(front + [last], keep) == if keep(last) then Where(front, keep) + [last] else Where(front, keep)
  {
    assert (front + [last])[..|front|] == front;
  }

  lemma {:induction false} WhereTwice<V(!new)>(rows: seq<Row<V>>, wide: Row<V> -> bool, narrow: Row<V> -> bool)
    requires forall row | row in rows && narrow(row) :: wide(row)
    ensures Where(Where(rows, wide), narrow) == Where(rows, narrow)
  {
    if rows != [] {
      hide Where;
      var front, last := rows[..|rows| - 1], rows[|rows| - 1];
      assert rows == front + [last] && last in rows;
      WhereTwice(front, wide, narrow);
      WhereOneMore(front, last, wide);
      WhereOneMore(front, last, narrow);
      if wide(last) { WhereOneMore(Where(front, wide), last, narrow); }
    }
  }

  function SweepAll(cfg: Config, db: Db, times: seq<int>): Db
    decreases |times|
  {
    if times == [] then db else SweepAll(cfg, Sweep(cfg, db, times[0]), times[1..])
  }

  // Sweeps run at any times up to now are invisible to a fetch at now.
  lemma {:induction false} SweepsInvisible(cfg: Config, db: Db, times: seq<int>, ids: seq<RecipientId>, now: int)
    requires forall t | t in times :: t <= now
    ensures Fetch(cfg, SweepAll(cfg, db, times), ids, now) == Fetch(cfg, db, ids, now)
    decreases |times|
  {
    hide Fetch, Sweep;
    if times != [] {
      assert times == [times[0]] + times[1..];
      assert times[0] in times && forall t | t in times[1..] :: t in times;
      SweepsInvisible(cfg, Sweep(cfg, db, times[0]), times[1..], ids, now);
      SweepInvisible(cfg, db, times[0], ids, now);
    }
  }

  lemma SweepInvisible(cfg: Config, db: Db, time: int, ids: seq<RecipientId>, now: int)
    requires time <= now
    ensures Fetch(cfg, Sweep(cfg, db, time), ids, now) == Fetch(cfg, db, ids, now)
  {
    var wide := (p: Payload) => time < p.expiry.lapsesAt;
    var narrow := (p: Payload) => p.recipient in ids && now < p.expiry.lapsesAt;
    WhereTwice(db.messages.rows, OnValue(wide), OnValue(narrow));
    assert Matching(Sweep(cfg, db, time).messages.rows, ids, now)
        == Where(Where(db.messages.rows, OnValue(wide)), OnValue(narrow));
  }

  // --- Size ---

  // Rows stored for each address asked for, with repetition.
  function Total(rows: seq<Row<Payload>>, ids: seq<RecipientId>): nat {
    if ids == [] then 0 else Count(rows, ids[0]) + Total(rows, ids[1..])
  }

  lemma {:induction false} TotalOneMore(rows: seq<Row<Payload>>, row: Row<Payload>, ids: seq<RecipientId>)
    ensures Total(rows + [row], ids) >= Total(rows, ids) + if row.value.recipient in ids then 1 else 0
  {
    if ids != [] {
      assert ids == [ids[0]] + ids[1..];
      CountOneMore(rows, row, ids[0]);
      TotalOneMore(rows, row, ids[1..]);
    }
  }

  lemma {:induction false} MatchesAreCounted(rows: seq<Row<Payload>>, keep: Row<Payload> -> bool, ids: seq<RecipientId>)
    requires forall row | row in rows && keep(row) :: row.value.recipient in ids
    ensures |Where(rows, keep)| <= Total(rows, ids)
  {
    if rows != [] {
      var front, last := rows[..|rows| - 1], rows[|rows| - 1];
      assert rows == front + [last];
      MatchesAreCounted(front, keep, ids);
      TotalOneMore(front, last, ids);
    }
  }

  lemma {:induction false} TotalWithinQuota(cfg: Config, rows: seq<Row<Payload>>, ids: seq<RecipientId>)
    requires Interleaving.Admitted(cfg, rows) && 0 <= cfg.quotaMessages
    ensures Total(rows, ids) <= cfg.quotaMessages * |ids|
  {
    hide Interleaving.Admitted, Count;
    if ids != [] {
      Interleaving.CountWithinQuota(cfg, rows, ids[0]);
      TotalWithinQuota(cfg, rows, ids[1..]);
      assert cfg.quotaMessages * |ids| == cfg.quotaMessages + cfg.quotaMessages * (|ids| - 1);
    }
  }

  // However a relay's handlers have interleaved, a response has at most the message quota
  // for each address asked for.
  lemma FetchBounded(cfg: Config, start: int, events: seq<Interleaving.Event>, ids: seq<RecipientId>, now: int)
    requires 0 <= cfg.quotaMessages
    ensures var response := Fetch(cfg, Interleaving.After(cfg, start, events).db, ids, now);
            response.Messages? ==> |response.messages| <= cfg.quotaMessages * |ids|
  {
    var rows := Interleaving.After(cfg, start, events).db.messages.rows;
    Interleaving.RunKeeps(cfg, start, events);
    var keep := (p: Payload) => p.recipient in ids && now < p.expiry.lapsesAt;
    MatchesAreCounted(rows, OnValue(keep), ids);
    TotalWithinQuota(cfg, rows, ids);
    assert Matching(rows, ids, now) == Where(rows, OnValue(keep));
  }

  // --- What an owner can fetch it can delete ---

  // A message addressed to a key on the day it was sent: for the retention time and a day
  // from then, its owner's fetch is accepted, and returns it if and only if its text has not
  // lapsed; its owner's delete request is confirmed in any case.
  lemma OwnerFetchesAndDeletes(cfg: Config, db: Db, row: Row<Payload>, key: Key, sent: int, now: int)
    requires WellFormed(db) && 0 < cfg.maxTtl && row in db.messages.rows
    requires row.value.recipient == Blind(key, DayBucket(sent))
    requires sent <= now <= sent + (cfg.maxTtl + DAY_SECONDS) * SECOND
    ensures var response := Fetch(cfg, db, Candidates(key, cfg.maxTtl, now), now);
            response.Messages? && (row.value in response.messages <==> now < row.value.expiry.lapsesAt)
    ensures var (after, confirmed) := HandleDelete(cfg, db, DeleteRequest(row.value.signature, key, true), now);
            confirmed && row.value.signature in Confirmed(after) && row.value.signature !in Stored(after)
  {
    hide Confirmed, Stored;
    var ids := Candidates(key, cfg.maxTtl, now);
    DayWindow.WindowComplete(key, cfg.maxTtl, now, sent);
    DayWindow.WindowFitsFetch(key, cfg.maxTtl, now);
    var rows := Matching(db.messages.rows, ids, now);
    if row in rows {
      var i :| 0 <= i < |rows| && rows[i] == row;
      assert Payloads(rows)[i] == row.value;
    }
    if row.value in Payloads(rows) {
      var i :| 0 <= i < |rows| && rows[i].value == row.value;
      assert rows[i] in rows;
    }
    OwnerDeletes(cfg, db, row, key, now);
  }

  lemma OwnerDeletes(cfg: Config, db: Db, row: Row<Payload>, key: Key, now: int)
    requires WellFormed(db) && row in db.messages.rows && row.value.recipient in Candidates(key, cfg.maxTtl, now)
    ensures var (after, confirmed) := HandleDelete(cfg, db, DeleteRequest(row.value.signature, key, true), now);
            confirmed && row.value.signature in Confirmed(after) && row.value.signature !in Stored(after)
  {
    FindsStored(db, row.value.signature);
    var p := FindMessage(db.messages.rows, row.value.signature).value;
    assert p == row.value;
    ConfirmationContents(db, Deletion(p.signature, key, p.recipient, true, now));
  }
}
