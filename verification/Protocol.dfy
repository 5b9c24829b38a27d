// Identities, signatures, addresses and days: what protocol.py shares between the
// client and the relay, with the cryptography idealised.
module Protocol {

  // A public key, standing for its owner, with the length of its text.
  datatype Key = Key(id: nat, length: nat)

  // Instants and durations are whole microseconds, the resolution of a datetime.
  const SECOND: int := 1_000_000
  const DAY_SECONDS: int := 86_400
  const DAY: int := 86_400_000_000

  // The UTC calendar day of an instant, as a day number.
  function DayBucket(t: int): int {
    t / DAY
  }

  // A recipient_id as the relay sees it: the blinding of a key on a day, some other
  // text, or the empty text of a pending deletion row. Blinding is injective.
  datatype RecipientId = Blind(key: Key, day: int) | Opaque(tag: nat, length: nat) | Blank

  // An expiry is a text, of which two things matter. Validation parses it: expiresAt is the
  // instant it names. The database compares it, as text, with the present in isoformat():
  // lapsesAt is the instant from which it no longer sorts after the present. Every text has
  // one (Timestamps.EveryTextLapses), and for an isoformat() text the two are equal.
  datatype Expiry = Expiry(expiresAt: int, lapsesAt: int)

  // An ideal signature fixes the signed fields. The salt stands for everything the relay
  // never looks at: the ciphertext, the nonce and the randomness of the signature itself.
  datatype Signature =
    | Genuine(sender: Key, recipient: RecipientId, expiry: Expiry, size: nat, salt: nat, length: nat)
    | Forged(tag: nat, length: nat)

  // A published payload as received; wellShaped is false when a field is missing, has the
  // wrong type or is too long, or when the expiry is not a UTC timestamp.
  datatype Payload = Payload(signature: Signature, sender: Key, recipient: RecipientId,
                             expiry: Expiry, size: nat, wellShaped: bool)

  predicate Verifies(p: Payload) {
    && p.signature.Genuine?
    && p.signature.sender == p.sender
    && p.signature.recipient == p.recipient
    && p.signature.expiry == p.expiry
    && p.signature.size == p.size
  }

  // The one well-shaped message a signature verifies.
  function MessageOf(s: Signature): (p: Payload)
    requires s.Genuine?
    ensures Verifies(p) && p.wellShaped && p.signature == s
    ensures forall q: Payload | Verifies(q) && q.wellShaped && q.signature == s :: q == p
  {
    Payload(s, s.sender, s.recipient, s.expiry, s.size, true)
  }

  // A delete request; authentic is false when its shape or its own signature is wrong.
  datatype DeleteRequest = DeleteRequest(target: Signature, requester: Key, authentic: bool)

  // Number of days searched backwards: the retention window rounded up, plus one.
  function LookbackDays(maxTtl: int): int {
    -((-maxTtl) / DAY_SECONDS) + 1
  }

  // Every address a message for this key may still carry, today's first.
  function Candidates(key: Key, maxTtl: int, now: int): seq<RecipientId> {
    var count := LookbackDays(maxTtl) + 1;
    if count < 0 then [] else seq(count, offset => Blind(key, DayBucket(now - offset * DAY)))
  }

  // The relay's limit on the number of addresses in one fetch.
  function MaxFetchIds(maxTtl: int): int {
    -((-maxTtl) / DAY_SECONDS) + 2
  }

  // Padding sizes and the sizes derived from them.
  const PAD_BUCKETS: seq<nat> := [4 * 1024, 16 * 1024, 64 * 1024]
  const TAG_BYTES: nat := 16
  const JSON_FIELD_OVERHEAD_BYTES: nat := 1_320

  function Base64Length(n: nat): nat {
    4 * ((n + 2) / 3)
  }

  const MAX_PUBLISH_BODY_BYTES: nat := Base64Length(PAD_BUCKETS[2] + TAG_BYTES) + JSON_FIELD_OVERHEAD_BYTES
  const MAX_BODY_BYTES: nat := MAX_PUBLISH_BODY_BYTES + MAX_PUBLISH_BODY_BYTES / 2
}
