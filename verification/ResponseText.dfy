// The two gossip responses as the JSON text a peer sends: the sizes the model compares with
// the limit are the lengths of these texts. Which pages fit for certain.
module ResponseText {
  import opened Protocol
  import opened Tables
  import opened Store
  import opened RelaySpec
  import opened Wire
  import opened CatchUp
  import Timestamps

  // str(n).
  function Decimal(n: nat): (r: string)
    ensures |r| == DecimalDigits(n)
  {
    if n < 10 then [Timestamps.Digit(n)] else Decimal(n / 10) + [Timestamps.Digit(n % 10)]
  }

  // The items of a list, each after a separator but the first.
  function ListText<V>(page: seq<Row<V>>, text: Row<V> -> string): string {
    if page == [] then ""
    else ListText(page[..|page| - 1], text) + (if |page| > 1 then ", " else "") + text(page[|page| - 1])
  }

  function MessageText(row: Row<Payload>, payload: Payload -> string): string {
    "{\"id\": " + Decimal(row.id) + ", \"payload\": " + payload(row.value) + "}"
  }

  function MessagesText(page: seq<Row<Payload>>, payload: Payload -> string): string {
    "{\"messages\": [" + ListText(page, row => MessageText(row, payload)) + "], \"count\": " + Decimal(|page|) + "}"
  }

  // How signatures, keys and addresses are written, and the calendar time of an instant.
  datatype Spelling = Spelling(signature: Signature -> string, key: Key -> string,
                               recipient: RecipientId -> string, time: int -> Timestamps.Civil)

  // Texts of the lengths the model gives them, and the time an instant is.
  ghost predicate Spells(w: Spelling, d: Deletion) {
    && |w.signature(d.target)| == d.target.length && |w.key(d.requester)| == d.requester.length
    && |w.recipient(d.requesterRecipient)| == RecipientBytes(d.requesterRecipient)
    && Timestamps.ValidCivil(w.time(d.requestedAt)) && Timestamps.Instant(w.time(d.requestedAt)) == d.requestedAt
  }

  function DeletionText(row: Row<Deletion>, w: Spelling): string {
    var d := row.value;
    "{\"id\": " + Decimal(row.id)
    + ", \"target_signature\": \"" + w.signature(d.target)
    + "\", \"requester_pubkey\": \"" + w.key(d.requester)
    + "\", \"requester_recipient_id\": \"" + w.recipient(d.requesterRecipient)
    + "\", \"requested_at\": \"" + Timestamps.IsoFormat(w.time(d.requestedAt)) + "\"}"
  }

  function DeletionsText(page: seq<Row<Deletion>>, w: Spelling): string {
    "{\"deletions\": [" + ListText(page, row => DeletionText(row, w)) + "], \"count\": " + Decimal(|page|) + "}"
  }

  lemma {:induction false} ListLength<V>(page: seq<Row<V>>, text: Row<V> -> string, bytes: Row<V> -> nat)
    requires forall row | row in page :: |text(row)| == bytes(row)
    ensures |ListText(page, text)| == ListBytes(page, bytes)
  {
    if page != [] {
      assert page[|page| - 1] in page;
      ListLength(page[..|page| - 1], text, bytes);
    }
  }

  lemma TimeLength(t: Timestamps.Civil)
    requires Timestamps.ValidCivil(t)
    ensures |Timestamps.IsoFormat(t)| == TimeBytes(Timestamps.Instant(t))
  {
    hide Timestamps.Clock, Timestamps.Seconds;
  }

  // A page of messages fits if and only if its response has at most 133086 bytes.
  lemma MessagesFitIff(page: seq<Row<Payload>>, payload: Payload -> string)
    requires forall row | row in page :: |payload(row.value)| == row.value.size
    ensures MessagesFit(page) <==> |MessagesText(page, payload)| <= 133_086
  {
    ListLength(page, row => MessageText(row, payload), MessageBytes);
  }

  lemma DeletionLength(row: Row<Deletion>, w: Spelling)
    requires Spells(w, row.value)
    ensures |DeletionText(row, w)| == DeletionBytes(row)
  {
    hide Timestamps.IsoFormat, Timestamps.Instant;
    TimeLength(w.time(row.value.requestedAt));
  }

  // And a page of tombstones.
  lemma DeletionsFitIff(page: seq<Row<Deletion>>, w: Spelling)
    requires forall row | row in page :: Spells(w, row.value)
    ensures DeletionsFit(page) <==> |DeletionsText(page, w)| <= 133_086
  {
    hide DeletionText, DeletionBytes, Spells;
    forall row | row in page ensures |DeletionText(row, w)| == DeletionBytes(row) { DeletionLength(row, w); }
    ListLength(page, row => DeletionText(row, w), DeletionBytes);
  }

  // --- Pages that always fit ---

  lemma {:induction false} ListAtMost<V>(page: seq<Row<V>>, bytes: Row<V> -> nat, most: nat)
    requires forall row | row in page :: bytes(row) <= most
    ensures ListBytes(page, bytes) <= (most + 2) * |page|
  {
    if page != [] {
      assert page[|page| - 1] in page;
      ListAtMost(page[..|page| - 1], bytes, most);
      assert (most + 2) * |page| == (most + 2) * (|page| - 1) + most + 2;
    }
  }

  // An SQLite id, below 2 to the 63rd power, has at most nineteen digits.
  lemma IdDigits(id: nat)
    requires id < 0x8000_0000_0000_0000
    ensures DecimalDigits(id) <= 19
  {
    assert Timestamps.Pow10(4) == 10_000 && Timestamps.Pow10(8) == 100_000_000;
    assert Timestamps.Pow10(12) == 1_000_000_000_000 && Timestamps.Pow10(16) == 10_000_000_000_000_000;
    assert Timestamps.Pow10(19) == 10_000_000_000_000_000_000;
    DigitsBelow(id, 19);
  }

  lemma {:induction false} DigitsBelow(n: nat, width: nat)
    requires 1 <= width && n < Timestamps.Pow10(width)
    ensures DecimalDigits(n) <= width
  {
    if n >= 10 {
      assert width > 1 by { assert Timestamps.Pow10(1) == 10; }
      DigitsBelow(n / 10, width - 1);
    }
  }

  // Nineteen messages of the smallest padded size, or any one that may be published, fit.
  lemma FewMessagesFit(page: seq<Row<Payload>>)
    requires forall row | row in page :: row.id < 0x8000_0000_0000_0000
    requires |page| <= 19
    requires forall row | row in page ::
               row.value.size <= (if |page| == 1 then MAX_PUBLISH_BODY_BYTES
                                  else Base64Length(PAD_BUCKETS[0] + TAG_BYTES) + JSON_FIELD_OVERHEAD_BYTES)
    ensures MessagesFit(page)
  {
    var most: nat := if |page| == 1 then 88_764 else 6_844;
    forall row | row in page ensures MessageBytes(row) <= most { IdDigits(row.id); }
    ListAtMost(page, MessageBytes, most);
    DigitsBelow(|page|, 2);
  }

  // And 138 tombstones of 2048-bit signatures and keys.
  lemma FewDeletionsFit(page: seq<Row<Deletion>>)
    requires |page| <= 138
    requires forall row | row in page ::
               && row.id < 0x8000_0000_0000_0000
               && row.value.target.length <= 344 && row.value.requester.length <= 392
               && row.value.requesterRecipient.Blind?
    ensures DeletionsFit(page)
  {
    forall row | row in page ensures DeletionBytes(row) <= 957 { IdDigits(row.id); }
    ListAtMost(page, DeletionBytes, 957);
    DigitsBelow(|page|, 3);
  }

  // So a relay at most nineteen such messages behind catches up in one round with budget.
  lemma SmallBacklogRead(cfg: Config, db: Db, cursor: nat, log: seq<Row<Payload>>, moments: seq<Moment>)
    requires Ascending(log) && |moments| == PULL_BATCH_LIMIT && AllGranted(moments)
    requires |Above(log, cursor)| <= 19
    requires forall row | row in log ::
               && row.id < 0x8000_0000_0000_0000
               && row.value.size <= Base64Length(PAD_BUCKETS[0] + TAG_BYTES) + JSON_FIELD_OVERHEAD_BYTES
    ensures Above(log, Rounds(cfg, db, cursor, log, [moments]).1) == []
  {
    hide Rounds, MessagesFit;
    var backlog := Above(log, cursor);
    assert forall row | row in backlog :: row in log;
    FewMessagesFit(backlog);
    BacklogIff(cfg, db, cursor, log, [moments]);
    assert Chunk(backlog, 0) == backlog;
  }

  // And at most 138 such tombstones behind.
  lemma SmallDeletionBacklogRead(db: Db, cursor: nat, log: seq<Row<Deletion>>, grants: seq<Grants>)
    requires Ascending(log) && |grants| == PULL_BATCH_LIMIT && forall g | g in grants :: g.global && g.identity
    requires |Above(log, cursor)| <= 138
    requires forall row | row in log ::
               && row.id < 0x8000_0000_0000_0000
               && row.value.target.length <= 344 && row.value.requester.length <= 392
               && row.value.requesterRecipient.Blind?
    ensures Above(log, DeletionRounds(db, cursor, log, [grants]).1) == []
  {
    hide DeletionRounds, DeletionsFit;
    var backlog := Above(log, cursor);
    assert forall row | row in backlog :: row in log;
    FewDeletionsFit(backlog);
    DeletionBacklogIff(db, cursor, log, [grants]);
    assert Chunk(backlog, 0) == backlog;
  }
}
