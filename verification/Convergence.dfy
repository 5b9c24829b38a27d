// Eventual consistency: where the links that have been read to the end join every pair of
// relays, the mesh holds one set of tombstones and one set of messages, a two-phase set.
module Convergence {
  import opened Protocol
  import opened Tables
  import opened Store
  import opened RelaySpec
  import opened Mesh

  // r's cursor is at the end of s's message log, or of its tombstone log.
  ghost predicate MessagesRead(r: Relay, j: nat, s: Relay) {
    forall row | row in s.db.messages.rows :: row.id <= Cursor(r.cursors, j)
  }

  ghost predicate DeletionsRead(r: Relay, j: nat, s: Relay) {
    forall row | row in s.db.deletions.rows && row.value.confirmed :: row.id <= Cursor(r.deletionCursors, j)
  }

  // Relay k can pull from j, and has pulled all there is.
  ghost predicate HasRead(sys: System, m: State, k: nat, j: nat)
    requires |m.relays| == |sys.trust|
  {
    Linked(sys, k, j) && MessagesRead(m.relays[k], j, m.relays[j]) && DeletionsRead(m.relays[k], j, m.relays[j])
  }

  // A chain of relays, each of which has read the next.
  ghost predicate Path(sys: System, m: State, path: seq<nat>)
    requires |m.relays| == |sys.trust|
  {
    && path != []
    && (forall i | 0 <= i < |path| :: path[i] < |sys.trust|)
    && forall i | 0 <= i < |path| - 1 :: HasRead(sys, m, path[i], path[i + 1])
  }

  ghost predicate Joined(sys: System, m: State, a: nat, b: nat)
    requires |m.relays| == |sys.trust|
  {
    exists path :: Path(sys, m, path) && path[0] == a && path[|path| - 1] == b
  }

  ghost predicate CaughtUp(sys: System, m: State)
    requires |m.relays| == |sys.trust|
  {
    forall a: nat, b: nat | a < |sys.trust| && b < |sys.trust| :: Joined(sys, m, a, b)
  }

  // Everything any relay ever stored, and everything any relay ever confirmed deleted.
  ghost function Published(m: State): set<Signature> {
    set k, s | 0 <= k < |m.relays| && s in m.relays[k].past.inserted :: s
  }

  ghost function Deleted(m: State): set<Signature> {
    set k, s | 0 <= k < |m.relays| && s in m.relays[k].past.confirmed :: s
  }

  // No relay's clock has reached the message's expiry, so no tombstone for it has been reaped.
  ghost predicate Unexpired(m: State, x: Signature) {
    x.Genuine? && forall k | 0 <= k < |m.relays| :: m.relays[k].clock < x.expiry.expiresAt
  }

  // Nor has its text lapsed, so no sweep has removed it anywhere.
  ghost predicate Live(m: State, x: Signature) {
    Unexpired(m, x) && forall k | 0 <= k < |m.relays| :: m.relays[k].clock < x.expiry.lapsesAt
  }

  // A relay that turned the message away, for a full quota or a skewed clock, has had it or
  // its deletion otherwise.
  ghost predicate NotRefused(m: State, x: Signature)
    requires x.Genuine?
  {
    forall k | 0 <= k < |m.relays| && MessageOf(x) in m.relays[k].past.refused ::
      x in m.relays[k].past.inserted || x in m.relays[k].past.confirmed
  }

  // --- One link ---

  lemma LinkCarriesDeletion(sys: System, m: State, k: nat, j: nat, x: Signature)
    requires MeshInv(sys, m) && HasRead(sys, m, k, j) && Unexpired(m, x)
    ensures x in m.relays[j].past.confirmed ==> x in m.relays[k].past.confirmed
  {
    var r, s := m.relays[k], m.relays[j];
    assert PairInv(r, j, s) && Inv(sys.cfg, s);
    if x in s.past.confirmed {
      assert s.clock < x.expiry.expiresAt;
      var row :| row in s.db.deletions.rows && row.value.confirmed && row.value.target == x;
    }
  }

  // The link carries the message too, or its reader turned it away or knows its deletion.
  lemma LinkCarries(sys: System, m: State, k: nat, j: nat, x: Signature)
    requires MeshInv(sys, m) && HasRead(sys, m, k, j) && Live(m, x) && NotRefused(m, x)
    ensures x in m.relays[j].past.confirmed ==> x in m.relays[k].past.confirmed
    ensures x in m.relays[j].past.inserted ==> x in m.relays[k].past.inserted + m.relays[k].past.confirmed
  {
    LinkCarriesDeletion(sys, m, k, j, x);
    var r, s := m.relays[k], m.relays[j];
    assert PairInv(r, j, s) && Inv(sys.cfg, s) && Inv(sys.cfg, r);
    if x in s.past.inserted && x !in s.past.confirmed {
      assert s.clock < x.expiry.lapsesAt;
      var row :| row in s.db.messages.rows && row.value.signature == x;
      assert row.value == MessageOf(x) && row.value in r.past.settled;
    }
  }

  // --- Chains of links ---

  lemma {:induction false} PathCarriesDeletion(sys: System, m: State, path: seq<nat>, x: Signature)
    requires MeshInv(sys, m) && Path(sys, m, path) && Unexpired(m, x)
    ensures x in m.relays[path[|path| - 1]].past.confirmed ==> x in m.relays[path[0]].past.confirmed
  {
    hide Inv, PairInv, MessagesRead, DeletionsRead, Unexpired;
    if |path| > 1 {
      PathCarriesDeletion(sys, m, path[1..], x);
      assert HasRead(sys, m, path[0], path[1]);
      LinkCarriesDeletion(sys, m, path[0], path[1], x);
    }
  }

  lemma {:induction false} PathCarries(sys: System, m: State, path: seq<nat>, x: Signature)
    requires MeshInv(sys, m) && Path(sys, m, path) && Live(m, x) && NotRefused(m, x)
    ensures var r, s := m.relays[path[0]], m.relays[path[|path| - 1]];
            && (x in s.past.confirmed ==> x in r.past.confirmed)
            && (x in s.past.inserted ==> x in r.past.inserted + r.past.confirmed)
  {
    hide Inv, PairInv, MessagesRead, DeletionsRead, Live, NotRefused;
    if |path| > 1 {
      PathCarries(sys, m, path[1..], x);
      assert HasRead(sys, m, path[0], path[1]);
      LiveIsGenuine(m, x);
      LinkCarries(sys, m, path[0], path[1], x);
    }
  }

  lemma LiveIsGenuine(m: State, x: Signature)
    requires Live(m, x)
    ensures x.Genuine? && Unexpired(m, x)
  {
  }

  lemma UnexpiredIsGenuine(m: State, x: Signature)
    requires Unexpired(m, x)
    ensures x.Genuine?
  {
  }

  // --- The whole mesh ---

  // Every relay knows every deletion of an unexpired message.
  lemma DeletionSpreads(sys: System, m: State, k: nat, x: Signature)
    requires MeshInv(sys, m) && CaughtUp(sys, m) && Unexpired(m, x) && k < |m.relays|
    ensures x in m.relays[k].past.confirmed <==> x in Deleted(m)
  {
    hide Inv, PairInv, HasRead, Unexpired;
    if x in Deleted(m) {
      var j: nat :| j < |m.relays| && x in m.relays[j].past.confirmed;
      assert Joined(sys, m, k, j);
      var path :| Path(sys, m, path) && path[0] == k && path[|path| - 1] == j;
      PathCarriesDeletion(sys, m, path, x);
    }
  }

  lemma MessageSpreads(sys: System, m: State, k: nat, x: Signature)
    requires MeshInv(sys, m) && CaughtUp(sys, m) && Live(m, x) && NotRefused(m, x) && k < |m.relays|
    ensures x in Published(m) ==> x in m.relays[k].past.inserted + m.relays[k].past.confirmed
  {
    hide Inv, PairInv, HasRead, Live, NotRefused;
    if x in Published(m) {
      var j: nat :| j < |m.relays| && x in m.relays[j].past.inserted;
      assert Joined(sys, m, k, j);
      var path :| Path(sys, m, path) && path[0] == k && path[|path| - 1] == j;
      LiveIsGenuine(m, x);
      PathCarries(sys, m, path, x);
    }
  }

  // What a relay has ever known of an unexpired message's deletion, or held of a live
  // message, it knows and holds still.
  lemma LiveStays(sys: System, m: State, k: nat, x: Signature)
    requires MeshInv(sys, m) && Unexpired(m, x) && k < |m.relays|
    ensures var r := m.relays[k];
            && (x in Confirmed(r.db) <==> x in r.past.confirmed)
            && (x in Stored(r.db) ==> x in r.past.inserted && x !in r.past.confirmed)
            && (Live(m, x) && x in r.past.inserted && x !in r.past.confirmed ==> x in Stored(r.db))
  {
    var r := m.relays[k];
    assert Inv(sys.cfg, r) && r.clock < x.expiry.expiresAt;
  }

  // The mesh as a two-phase set, message by message and whatever has become of all others.
  // Of a message unexpired at every relay: each relay has its tombstone if and only if some
  // relay ever confirmed its deletion, and none stores it if so, or if it was never published.
  // If its text has not lapsed either and it was published and never deleted, every relay
  // stores it if and only if none that turned it away has never had it otherwise.
  lemma Converges(sys: System, steps: seq<Step>, x: Signature)
    requires ValidSystem(sys)
    requires var m := After(sys, steps);
             |m.relays| == |sys.trust| && CaughtUp(sys, m) && Unexpired(m, x)
    ensures var m := After(sys, steps);
            && (forall k | 0 <= k < |m.relays| ::
                  && (x in Confirmed(m.relays[k].db) <==> x in Deleted(m))
                  && (x in Stored(m.relays[k].db) ==> x in Published(m) - Deleted(m)))
            && (Live(m, x) && x in Published(m) - Deleted(m) ==>
                  ((forall k | 0 <= k < |m.relays| :: x in Stored(m.relays[k].db)) <==> NotRefused(m, x)))
  {
    hide CaughtUp, Live, Unexpired, NotRefused, Stored, Confirmed, MeshInv;
    var m := After(sys, steps);
    RunKeeps(sys, steps);
    UnexpiredIsGenuine(m, x);
    forall k: nat | k < |m.relays|
      ensures x in Confirmed(m.relays[k].db) <==> x in Deleted(m)
      ensures x in Stored(m.relays[k].db) ==> x in Published(m) - Deleted(m)
      ensures Live(m, x) && x in Published(m) - Deleted(m) && NotRefused(m, x) ==> x in Stored(m.relays[k].db)
    {
      LiveStays(sys, m, k, x);
      DeletionSpreads(sys, m, k, x);
      if Live(m, x) && NotRefused(m, x) { MessageSpreads(sys, m, k, x); }
    }
    if forall k | 0 <= k < |m.relays| :: x in Stored(m.relays[k].db) {
      forall k | 0 <= k < |m.relays| ensures x in m.relays[k].past.inserted { LiveStays(sys, m, k, x); }
      HeldIsNotRefused(m, x);
    }
  }

  lemma HeldIsNotRefused(m: State, x: Signature)
    requires x.Genuine? && forall k | 0 <= k < |m.relays| :: x in m.relays[k].past.inserted
    ensures NotRefused(m, x)
  {
  }

  // Hence, if everything the mesh ever knew is live and none of it refused, every relay holds
  // the same tables: all tombstones, and all messages published and not deleted.
  lemma ConvergesWhole(sys: System, steps: seq<Step>, k: nat)
    requires ValidSystem(sys) && k < |sys.trust|
    requires var m := After(sys, steps);
             && |m.relays| == |sys.trust| && CaughtUp(sys, m)
             && (forall x | x in Published(m) + Deleted(m) :: Live(m, x) && NotRefused(m, x))
    ensures var m := After(sys, steps);
            && Confirmed(m.relays[k].db) == Deleted(m)
            && Stored(m.relays[k].db) == Published(m) - Deleted(m)
  {
    hide CaughtUp, Live, Unexpired, NotRefused;
    var m := After(sys, steps);
    RunKeeps(sys, steps);
    forall x ensures x in Confirmed(m.relays[k].db) <==> x in Deleted(m)
             ensures x in Stored(m.relays[k].db) <==> x in Published(m) - Deleted(m)
    {
      OnlyKnown(sys, m, k, x);
      if x in Published(m) + Deleted(m) {
        LiveIsGenuine(m, x);
        Converges(sys, steps, x);
      }
    }
  }

  lemma OnlyKnown(sys: System, m: State, k: nat, x: Signature)
    requires MeshInv(sys, m) && k < |m.relays|
    ensures x in Confirmed(m.relays[k].db) ==> x in Deleted(m)
    ensures x in Stored(m.relays[k].db) ==> x in Published(m)
  {
    assert Inv(sys.cfg, m.relays[k]);
  }
}
