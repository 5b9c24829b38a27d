// The quota in terms of rows: how many a recipient has, and how large they are together.
module Quota {
  import opened Protocol
  import opened Tables
  import opened Store

  ghost function RowsFor(rows: seq<Row<Payload>>, recipient: RecipientId): set<Row<Payload>> {
    set row | row in rows && row.value.recipient == recipient
  }

  // The sizes of a set of rows, added up in any order.
  ghost function TotalSize(rows: set<Row<Payload>>): nat {
    if rows == {} then 0
    else
      var row :| row in rows;
      row.value.size + TotalSize(rows - {row})
  }

  lemma {:induction false} TotalSizeWithout(rows: set<Row<Payload>>, row: Row<Payload>)
    requires row in rows
    ensures TotalSize(rows) == row.value.size + TotalSize(rows - {row})
  {
    var first :| first in rows && TotalSize(rows) == first.value.size + TotalSize(rows - {first});
    if first != row {
      TotalSizeWithout(rows - {first}, row);
      TotalSizeWithout(rows - {row}, first);
      assert rows - {first} - {row} == rows - {row} - {first};
    }
  }

  lemma NoRows(recipient: RecipientId)
    ensures Count([], recipient) == |RowsFor([], recipient)|
    ensures Bytes([], recipient) == TotalSize(RowsFor([], recipient))
  {
    assert RowsFor([], recipient) == {};
  }

  lemma LastIsNew(front: seq<Row<Payload>>, last: Row<Payload>)
    requires Ascending(front + [last])
    ensures Ascending(front) && last !in front
  {
    var rows := front + [last];
    assert front == rows[..|front|] && rows[|front|] == last;
    forall i | 0 <= i < |front| ensures front[i] != last {
      assert rows[i] == front[i];
    }
  }

  lemma RowsForOneMore(front: seq<Row<Payload>>, last: Row<Payload>, recipient: RecipientId)
    requires last !in front
    ensures var before, its := RowsFor(front, recipient), RowsFor(front + [last], recipient);
            if last.value.recipient == recipient then last in its && last !in before && its - {last} == before
            else its == before
  {
  }

  lemma OneMoreRow(front: seq<Row<Payload>>, last: Row<Payload>, recipient: RecipientId)
    requires last !in front
    ensures var before, its := RowsFor(front, recipient), RowsFor(front + [last], recipient);
            if last.value.recipient == recipient
            then |its| == |before| + 1 && TotalSize(its) == TotalSize(before) + last.value.size
            else its == before
  {
    hide RowsFor, TotalSize;
    RowsForOneMore(front, last, recipient);
    if last.value.recipient == recipient { TotalSizeWithout(RowsFor(front + [last], recipient), last); }
  }

  // Both queries of the quota check, against the rows they are about.
  lemma {:induction false} QueriesExact(rows: seq<Row<Payload>>, recipient: RecipientId)
    requires Ascending(rows)
    ensures Count(rows, recipient) == |RowsFor(rows, recipient)|
    ensures Bytes(rows, recipient) == TotalSize(RowsFor(rows, recipient))
  {
    hide RowsFor, TotalSize, Count, Bytes, Ascending;
    if rows == [] {
      NoRows(recipient);
    } else {
      var front, last := rows[..|rows| - 1], rows[|rows| - 1];
      assert rows == front + [last];
      LastIsNew(front, last);
      OneMoreRow(front, last, recipient);
      QueriesExact(front, recipient);
      CountOneMore(front, last, recipient);
    }
  }

  // There is room if and only if the recipient has fewer rows than the message cap and they
  // are together smaller than the byte cap.
  lemma HasRoomIff(cfg: Config, db: Db, recipient: RecipientId)
    requires Ascending(db.messages.rows)
    ensures var its := RowsFor(db.messages.rows, recipient);
            HasRoom(cfg, db, recipient) <==> |its| < cfg.quotaMessages && TotalSize(its) < cfg.quotaBytes
  {
    QueriesExact(db.messages.rows, recipient);
  }

  // What the insert's section answers: full at either cap, and otherwise new if and only if
  // the message is not held.
  lemma InsertionIff(cfg: Config, db: Db, p: Payload)
    requires Ascending(db.messages.rows)
    ensures var its, result := RowsFor(db.messages.rows, p.recipient), InsertSection(cfg, db, p).1;
            && (result.Full? <==> cfg.quotaMessages <= |its| || cfg.quotaBytes <= TotalSize(its))
            && (result.New? <==> !result.Full? && p.signature !in Stored(db))
  {
    hide RowsFor, TotalSize, HasRoom, FindMessage, Stored;
    HasRoomIff(cfg, db, p.recipient);
    FindsStored(db, p.signature);
  }
}
