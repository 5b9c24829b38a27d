// The sizes of the two gossip responses, and the limit their reader puts on them.
module Wire {
  import opened Protocol
  import opened Tables
  import opened Store

  function DecimalDigits(n: nat): (r: nat)
    ensures 1 <= r
  {
    if n < 10 then 1 else 1 + DecimalDigits(n / 10)
  }

  // {"id": N, "payload": P}
  function MessageBytes(row: Row<Payload>): nat {
    7 + DecimalDigits(row.id) + 13 + row.value.size + 1
  }

  // A blinded address is 64 hexadecimal digits.
  function RecipientBytes(recipient: RecipientId): nat {
    match recipient
    case Blind(_, _) => 64
    case Opaque(_, length) => length
    case Blank => 0
  }

  // datetime.isoformat(), without or with microseconds.
  function TimeBytes(t: int): nat {
    if t % SECOND == 0 then 25 else 32
  }

  // {"id": N, "target_signature": "..", "requester_pubkey": "..",
  //  "requester_recipient_id": "..", "requested_at": ".."}
  function DeletionBytes(row: Row<Deletion>): nat {
    var d := row.value;
    106 + DecimalDigits(row.id) + d.target.length + d.requester.length
    + RecipientBytes(d.requesterRecipient) + TimeBytes(d.requestedAt)
  }

  // The items of a JSON list, with the separators between them.
  function ListBytes<V>(page: seq<Row<V>>, bytes: Row<V> -> nat): nat {
    if page == [] then 0
    else ListBytes(page[..|page| - 1], bytes) + bytes(page[|page| - 1]) + if |page| > 1 then 2 else 0
  }

  // _read_bounded_response on {"messages": [..], "count": N}.
  predicate MessagesFit(page: seq<Row<Payload>>) {
    14 + ListBytes(page, MessageBytes) + 12 + DecimalDigits(|page|) + 1 <= MAX_BODY_BYTES
  }

  // _read_bounded_response on {"deletions": [..], "count": N}.
  predicate DeletionsFit(page: seq<Row<Deletion>>) {
    15 + ListBytes(page, DeletionBytes) + 12 + DecimalDigits(|page|) + 1 <= MAX_BODY_BYTES
  }

  lemma {:induction false} ListAtLeast<V>(page: seq<Row<V>>, bytes: Row<V> -> nat, least: nat)
    requires forall row | row in page :: least <= bytes(row)
    ensures least * |page| <= ListBytes(page, bytes)
  {
    if page != [] {
      assert page[|page| - 1] in page;
      ListAtLeast(page[..|page| - 1], bytes, least);
      assert least * |page| == least * (|page| - 1) + least;
    }
  }
}
