// The rate limiter: one global token bucket and an LRU pool of per-identity buckets.
// The state as values, and the bounds that hold over any sequence of calls.
module RateLimit {

  type Identity = nat

  // --- A token bucket ---

  datatype Bucket = Bucket(capacity: real, refill: real, tokens: real, last: real)

  ghost predicate ValidBucket(b: Bucket) {
    0.0 <= b.refill && 0.0 <= b.tokens <= b.capacity
  }

  function Min(a: real, b: real): real {
    if a <= b then a else b
  }

  function NewBucket(capacity: real, refill: real, now: real): Bucket {
    Bucket(capacity, refill, capacity, now)
  }

  // The tokens that flow in between two instants.
  function Accrued(refill: real, from: real, until: real): real {
    (until - from) * refill
  }

  function Refilled(b: Bucket, now: real): Bucket {
    b.(last := now, tokens := Min(b.capacity, b.tokens + Accrued(b.refill, b.last, now)))
  }

  function TryTake(b: Bucket, now: real): (Bucket, bool) {
    var full := Refilled(b, now);
    if full.tokens >= 1.0 then (full.(tokens := full.tokens - 1.0), true) else (full, false)
  }

  function Refunded(b: Bucket): Bucket {
    b.(tokens := Min(b.capacity, b.tokens + 1.0))
  }

  // --- The limiter ---

  // The pool is an ordered dictionary, least recently used first.
  datatype Entry = Entry(identity: Identity, bucket: Bucket)

  datatype Settings = Settings(capacity: real, refill: real, maxIdentities: nat)

  datatype Limiter = Limiter(settings: Settings, global: Bucket, pool: seq<Entry>)

  function Ids(pool: seq<Entry>): (ids: seq<Identity>)
    ensures |ids| == |pool| && forall i | 0 <= i < |pool| :: ids[i] == pool[i].identity
  {
    seq(|pool|, i requires 0 <= i < |pool| => pool[i].identity)
  }

  ghost predicate Distinct(ids: seq<Identity>) {
    forall i, j | 0 <= i < j < |ids| :: ids[i] != ids[j]
  }

  ghost predicate ValidLimiter(l: Limiter) {
    && ValidBucket(l.global)
    && 0.0 <= l.settings.capacity && 0.0 <= l.settings.refill
    && |l.pool| <= l.settings.maxIdentities
    && Distinct(Ids(l.pool))
    && forall e | e in l.pool ::
         ValidBucket(e.bucket) && e.bucket.capacity == l.settings.capacity && e.bucket.refill == l.settings.refill
  }

  // The index of an identity in the pool, or the pool's length.
  function Find(pool: seq<Entry>, id: Identity): (i: nat)
    ensures i <= |pool|
    ensures i < |pool| ==> pool[i].identity == id
    ensures forall j | 0 <= j < i :: pool[j].identity != id
  {
    if pool == [] || pool[0].identity == id then 0 else 1 + Find(pool[1..], id)
  }

  // check_identity: the bucket moves to the recent end, or is created there and the least
  // recent entry leaves if the pool has grown too large; then a token is taken.
  function CheckIdentity(l: Limiter, id: Identity, now: real): (Limiter, bool) {
    var i := Find(l.pool, id);
    if i < |l.pool|
    then
      var (b, ok) := TryTake(l.pool[i].bucket, now);
      (l.(pool := l.pool[..i] + l.pool[i + 1..] + [Entry(id, b)]), ok)
    else
      var (b, ok) := TryTake(NewBucket(l.settings.capacity, l.settings.refill, now), now);
      var grown := l.pool + [Entry(id, b)];
      (l.(pool := if |grown| > l.settings.maxIdentities then grown[1..] else grown), ok)
  }

  function CheckGlobal(l: Limiter, now: real): (Limiter, bool) {
    var (b, ok) := TryTake(l.global, now);
    (l.(global := b), ok)
  }

  function RefundGlobal(l: Limiter): Limiter {
    l.(global := Refunded(l.global))
  }

  function Allow(l: Limiter, id: Identity, now: real): (Limiter, bool) {
    var (a, granted) := CheckGlobal(l, now);
    if !granted then (a, false)
    else
      var (b, ok) := CheckIdentity(a, id, now);
      if ok then (b, true) else (RefundGlobal(b), false)
  }

  // --- Sequences of calls ---

  datatype Call =
    | GlobalCall(at: real)
    | IdentityCall(id: Identity, at: real)
    | RefundCall
    | AllowCall(id: Identity, at: real)

  function Serve(l: Limiter, c: Call): (Limiter, bool) {
    match c
    case GlobalCall(at) => CheckGlobal(l, at)
    case IdentityCall(id, at) => CheckIdentity(l, id, at)
    case RefundCall => (RefundGlobal(l), false)
    case AllowCall(id, at) => Allow(l, id, at)
  }

  // The limiter a sequence of calls leaves behind.
  function ServeAll(l: Limiter, calls: seq<Call>): Limiter {
    if calls == [] then l else Serve(ServeAll(l, calls[..|calls| - 1]), calls[|calls| - 1]).0
  }

  // The identity whose bucket a call uses; allow uses one only if the global bucket grants.
  function Used(l: Limiter, c: Call): seq<Identity> {
    match c
    case IdentityCall(id, _) => [id]
    case AllowCall(id, at) => if CheckGlobal(l, at).1 then [id] else []
    case _ => []
  }

  function UsedAll(l: Limiter, calls: seq<Call>): seq<Identity> {
    if calls == [] then []
    else
      var front := calls[..|calls| - 1];
      UsedAll(l, front) + Used(ServeAll(l, front), calls[|calls| - 1])
  }

  // Calls that look at the clock do so in order, from `from` to `until`.
  ghost predicate Timely(calls: seq<Call>, from: real, until: real)
    decreases |calls|
  {
    if calls == [] then from <= until
    else if calls[0].RefundCall? then Timely(calls[1..], from, until)
    else from <= calls[0].at && Timely(calls[1..], calls[0].at, until)
  }

  // Tokens taken from the global bucket and not refunded.
  function NetTaken(l: Limiter, calls: seq<Call>): int
    decreases |calls|
  {
    if calls == [] then 0 else Net(l, calls[0]) + NetTaken(Serve(l, calls[0]).0, calls[1..])
  }

  // Requests an identity was granted, by check_identity or by allow.
  function Granted(l: Limiter, calls: seq<Call>, id: Identity): nat
    decreases |calls|
  {
    if calls == [] then 0
    else
      var (next, ok) := Serve(l, calls[0]);
      Granted(next, calls[1..], id)
      + if (calls[0].IdentityCall? || calls[0].AllowCall?) && calls[0].id == id && ok then 1 else 0
  }

  // --- The global bound ---

  // The tokens a bucket would hold at time t if its capacity did not cap them.
  function Budget(b: Bucket, t: real): real {
    b.tokens + Accrued(b.refill, b.last, t)
  }

  // What a full bucket can give out between two instants.
  function Allowance(b: Bucket, from: real, until: real): real {
    b.capacity + Accrued(b.refill, from, until)
  }

  lemma Accrual(refill: real, a: real, b: real, c: real)
    requires 0.0 <= refill && a <= b <= c
    ensures Accrued(refill, a, b) + Accrued(refill, b, c) == Accrued(refill, a, c)
    ensures 0.0 <= Accrued(refill, a, b) && 0.0 <= Accrued(refill, b, c)
  {
  }

  lemma BudgetNonNegative(b: Bucket, t: real)
    requires ValidBucket(b) && b.last <= t
    ensures 0.0 <= Budget(b, t) <= Allowance(b, b.last, t)
  {
    hide Accrued;
    Accrual(b.refill, b.last, t, t);
  }

  lemma TakeSpends(b: Bucket, now: real, t: real)
    requires ValidBucket(b) && b.last <= now <= t
    ensures var (b', ok) := TryTake(b, now);
            && ValidBucket(b') && b'.capacity == b.capacity && b'.refill == b.refill && b'.last == now
            && Budget(b', t) + (if ok then 1.0 else 0.0) <= Budget(b, t)
            && Budget(b', t) + (if ok then 1.0 else 0.0) <= Allowance(b, now, t)
  {
    hide Accrued;
    Accrual(b.refill, b.last, now, t);
  }

  lemma RefundReturns(b: Bucket, t: real)
    requires ValidBucket(b)
    ensures var b' := Refunded(b);
            && ValidBucket(b') && b'.capacity == b.capacity && b'.refill == b.refill && b'.last == b.last
            && Budget(b', t) - 1.0 <= Budget(b, t)
  {
    hide Accrued;
  }

  // A failed identity check inside allow gives the global token back exactly.
  lemma AllowRefundsExactly(l: Limiter, id: Identity, now: real)
    requires ValidBucket(l.global) && l.global.last <= now
    ensures var (l', ok) := Allow(l, id, now);
            && (!ok ==> l'.global == Refilled(l.global, now))
            && (ok ==> l'.global == TryTake(l.global, now).0 && TryTake(l.global, now).1)
  {
    hide Accrued;
    TakeSpends(l.global, now, now);
  }

  // One call's part in NetTaken.
  function Net(l: Limiter, c: Call): int {
    match c
    case GlobalCall(_) => if Serve(l, c).1 then 1 else 0
    case AllowCall(_, _) => if Serve(l, c).1 then 1 else 0
    case RefundCall => -1
    case IdentityCall(_, _) => 0
  }

  predicate Takes(c: Call) {
    c.GlobalCall? || c.AllowCall?
  }

  lemma ServeSpends(l: Limiter, c: Call, t: real)
    requires ValidBucket(l.global) && (!c.RefundCall? ==> l.global.last <= c.at <= t)
    ensures var b, b' := l.global, Serve(l, c).0.global;
            && ValidBucket(b') && b'.capacity == b.capacity && b'.refill == b.refill
            && b'.last == (if Takes(c) then c.at else b.last)
            && Budget(b', t) + Net(l, c) as real <= Budget(b, t)
            && (Takes(c) ==> Budget(b', t) + Net(l, c) as real <= Allowance(b, c.at, t))
  {
    hide Accrued;
    match c
    case GlobalCall(at) => TakeSpends(l.global, at, t);
    case AllowCall(id, at) =>
      TakeSpends(l.global, at, t);
      AllowRefundsExactly(l, id, at);
      RefilledBudget(l.global, at, t);
    case RefundCall => RefundReturns(l.global, t);
    case IdentityCall(_, _) =>
  }

  lemma RefilledBudget(b: Bucket, now: real, t: real)
    requires ValidBucket(b) && b.last <= now <= t
    ensures ValidBucket(Refilled(b, now))
    ensures Budget(Refilled(b, now), t) <= Budget(b, t)
    ensures Budget(Refilled(b, now), t) <= Allowance(b, now, t)
  {
    hide Accrued;
    Accrual(b.refill, b.last, now, t);
  }

  lemma {:induction false} TimelyFrom(calls: seq<Call>, from: real, earlier: real, until: real)
    requires Timely(calls, from, until) && earlier <= from
    ensures Timely(calls, earlier, until) && from <= until
  {
    if calls != [] {
      TimelyFrom(calls[1..], if calls[0].RefundCall? then from else calls[0].at, earlier, until);
    }
  }

  // From any state: what is taken comes out of the tokens there and the refill since.
  lemma {:induction false} GlobalBudget(l: Limiter, calls: seq<Call>, until: real)
    requires ValidBucket(l.global) && Timely(calls, l.global.last, until)
    ensures NetTaken(l, calls) as real <= Budget(l.global, until)
    decreases |calls|
  {
    hide Budget, Allowance, Serve, ValidBucket;
    if calls == [] {
      BudgetNonNegative(l.global, until);
    } else {
      var next := Serve(l, calls[0]).0;
      var reached := if calls[0].RefundCall? then l.global.last else calls[0].at;
      TimelyFrom(calls[1..], reached, reached, until);
      ServeSpends(l, calls[0], until);
      TimelyFrom(calls[1..], reached, next.global.last, until);
      GlobalBudget(next, calls[1..], until);
    }
  }

  lemma {:induction false} GlobalWindow(l: Limiter, calls: seq<Call>, from: real, until: real)
    requires ValidBucket(l.global) && l.global.last <= from && Timely(calls, from, until)
    ensures NetTaken(l, calls) as real <= l.global.capacity + Accrued(l.global.refill, from, until)
    decreases |calls|
  {
    hide Budget, Serve, Accrued;
    if calls == [] {
      Accrual(l.global.refill, from, until, until);
    } else {
      var next := Serve(l, calls[0]).0;
      var reached := if calls[0].RefundCall? then from else calls[0].at;
      TimelyFrom(calls[1..], reached, from, until);
      ServeSpends(l, calls[0], until);
      if Takes(calls[0]) {
        GlobalBudget(next, calls[1..], until);
        Accrual(l.global.refill, from, reached, until);
      } else {
        GlobalWindow(next, calls[1..], from, until);
      }
    }
  }

  // In any window, whatever calls for however many identities: the tokens taken and not
  // refunded number at most the capacity plus the refill over the window.
  lemma GlobalRateBound(l: Limiter, calls: seq<Call>, from: real, until: real)
    requires ValidBucket(l.global) && l.global.last <= from && Timely(calls, from, until)
    ensures NetTaken(l, calls) as real <= l.global.capacity + (until - from) * l.global.refill
  {
    hide NetTaken, ValidBucket, Timely;
    GlobalWindow(l, calls, from, until);
  }

  // For allow, the successes themselves obey the bound.
  lemma AllowRateBound(l: Limiter, calls: seq<Call>, from: real, until: real)
    requires ValidBucket(l.global) && l.global.last <= from && Timely(calls, from, until)
    requires forall c | c in calls :: c.AllowCall?
    ensures Successes(l, calls) as real <= l.global.capacity + (until - from) * l.global.refill
  {
    hide NetTaken, ValidBucket, Timely, Successes;
    GlobalRateBound(l, calls, from, until);
    SuccessesAreNet(l, calls);
  }

  function Successes(l: Limiter, calls: seq<Call>): nat
    decreases |calls|
  {
    if calls == [] then 0
    else
      var (next, ok) := Serve(l, calls[0]);
      Successes(next, calls[1..]) + if calls[0].AllowCall? && ok then 1 else 0
  }

  lemma {:induction false} SuccessesAreNet(l: Limiter, calls: seq<Call>)
    requires forall c | c in calls :: c.AllowCall?
    ensures Successes(l, calls) == NetTaken(l, calls)
    decreases |calls|
  {
    if calls != [] {
      assert calls[0] in calls;
      SuccessesAreNet(Serve(l, calls[0]).0, calls[1..]);
    }
  }

  // --- The pool, by recency ---

  function Remove(ids: seq<Identity>, id: Identity): (r: seq<Identity>)
    ensures forall x :: x in r <==> x in ids && x != id
    ensures Distinct(ids) ==> Distinct(r)
    ensures |r| <= |ids|
  {
    if ids == [] then []
    else
      var front, last := Remove(ids[..|ids| - 1], id), ids[|ids| - 1];
      assert ids == ids[..|ids| - 1] + [last];
      assert Distinct(ids) ==> last !in ids[..|ids| - 1];
      if last == id then front else front + [last]
  }

  lemma DistinctOneMore(ids: seq<Identity>, id: Identity)
    requires Distinct(ids) && id !in ids
    ensures Distinct(ids + [id])
  {
  }

  // Every identity ever used, in order of its last use.
  function Recent(uses: seq<Identity>): (r: seq<Identity>)
    ensures Distinct(r)
    ensures forall x :: x in r <==> x in uses
  {
    if uses == [] then []
    else
      var last := uses[|uses| - 1];
      var others := Remove(Recent(uses[..|uses| - 1]), last);
      assert uses == uses[..|uses| - 1] + [last];
      DistinctOneMore(others, last);
      others + [last]
  }

  function LastOf(ids: seq<Identity>, n: nat): (r: seq<Identity>)
    ensures |r| == if |ids| <= n then |ids| else n
  {
    if |ids| <= n then ids else ids[|ids| - n..]
  }

  // The identities of the pool after one use.
  function Touch(ids: seq<Identity>, id: Identity, max: nat): seq<Identity> {
    if id in ids then Remove(ids, id) + [id]
    else
      var grown := ids + [id];
      if |grown| > max then grown[1..] else grown
  }

  function TouchAll(uses: seq<Identity>, max: nat): seq<Identity> {
    if uses == [] then []
    else Touch(TouchAll(uses[..|uses| - 1], max), uses[|uses| - 1], max)
  }

  lemma {:induction false} RemoveAbsent(ids: seq<Identity>, id: Identity)
    requires id !in ids
    ensures Remove(ids, id) == ids
  {
    if ids != [] {
      assert ids == ids[..|ids| - 1] + [ids[|ids| - 1]];
      RemoveAbsent(ids[..|ids| - 1], id);
    }
  }

  lemma {:induction false} RemoveConcat(a: seq<Identity>, b: seq<Identity>, id: Identity)
    ensures Remove(a + b, id) == Remove(a, id) + Remove(b, id)
  {
    if b == [] {
      assert a + b == a;
    } else {
      assert (a + b)[..|a + b| - 1] == a + b[..|b| - 1];
      RemoveConcat(a, b[..|b| - 1], id);
    }
  }

  lemma {:induction false} RemoveOne(ids: seq<Identity>, id: Identity)
    requires Distinct(ids) && id in ids
    ensures |Remove(ids, id)| == |ids| - 1
  {
    var front, last := ids[..|ids| - 1], ids[|ids| - 1];
    assert ids == front + [last];
    if last == id {
      assert id !in front;
      RemoveAbsent(front, id);
    } else {
      RemoveOne(front, id);
    }
  }

  lemma TouchKeepsLast(gone: seq<Identity>, kept: seq<Identity>, id: Identity, max: nat)
    requires Distinct(gone + kept) && |kept| <= max && (gone == [] || |kept| == max)
    ensures Touch(kept, id, max) == LastOf(Remove(gone + kept, id) + [id], max)
  {
    RemoveConcat(gone, kept, id);
    if id in kept {
      AbsentBefore(gone, kept, id);
      RemoveAbsent(gone, id);
      RemoveOne(kept, id);
      assert Remove(gone + kept, id) + [id] == gone + Touch(kept, id, max);
    } else {
      RemoveAbsent(kept, id);
      assert Remove(gone + kept, id) + [id] == Remove(gone, id) + (kept + [id]);
      assert gone == [] ==> Remove(gone, id) == [];
      LastOfConcat(Remove(gone, id), kept + [id], max);
    }
  }

  lemma LastOfConcat(a: seq<Identity>, b: seq<Identity>, n: nat)
    requires n <= |b| || a == []
    ensures LastOf(a + b, n) == LastOf(b, n)
  {
  }

  lemma AbsentBefore(gone: seq<Identity>, kept: seq<Identity>, id: Identity)
    requires Distinct(gone + kept) && id in kept
    ensures id !in gone && Distinct(kept)
  {
    var j :| 0 <= j < |kept| && kept[j] == id;
    assert (gone + kept)[|gone| + j] == id;
    forall i | 0 <= i < |gone| ensures gone[i] != id { assert (gone + kept)[i] == gone[i]; }
    forall a, b | 0 <= a < b < |kept| ensures kept[a] != kept[b] {
      assert (gone + kept)[|gone| + a] == kept[a] && (gone + kept)[|gone| + b] == kept[b];
    }
  }

  // The pool is the most recently used identities, in order of last use, and never more
  // than the maximum.
  lemma {:induction false} PoolIsMostRecent(uses: seq<Identity>, max: nat)
    ensures TouchAll(uses, max) == LastOf(Recent(uses), max)
    ensures |TouchAll(uses, max)| <= max
  {
    if uses != [] {
      PoolIsMostRecent(uses[..|uses| - 1], max);
      var recent := Recent(uses[..|uses| - 1]);
      var kept := LastOf(recent, max);
      var gone := recent[..|recent| - |kept|];
      assert recent == gone + kept;
      TouchKeepsLast(gone, kept, uses[|uses| - 1], max);
    }
  }

  // check_identity touches the pool as described.
  lemma CheckTouches(l: Limiter, id: Identity, now: real)
    requires Distinct(Ids(l.pool))
    ensures Ids(CheckIdentity(l, id, now).0.pool) == Touch(Ids(l.pool), id, l.settings.maxIdentities)
  {
    hide TryTake, Distinct, Remove;
    var i, ids := Find(l.pool, id), Ids(l.pool);
    var pool := CheckIdentity(l, id, now).0.pool;
    if i < |l.pool| {
      IdsMoved(l.pool, i, pool[|pool| - 1]);
      assert ids == ids[..i] + [id] + ids[i + 1..];
      RemoveFound(ids[..i], id, ids[i + 1..]);
    } else {
      assert id !in ids;
      var created := TryTake(NewBucket(l.settings.capacity, l.settings.refill, now), now).0;
      IdsGrown(l.pool, Entry(id, created), l.settings.maxIdentities);
    }
  }

  lemma IdsMoved(pool: seq<Entry>, i: nat, e: Entry)
    requires i < |pool|
    ensures Ids(pool[..i] + pool[i + 1..] + [e]) == Ids(pool)[..i] + Ids(pool)[i + 1..] + [e.identity]
  {
  }

  lemma IdsGrown(pool: seq<Entry>, e: Entry, max: nat)
    ensures var grown, ids := pool + [e], Ids(pool) + [e.identity];
            Ids(if |grown| > max then grown[1..] else grown) == if |ids| > max then ids[1..] else ids
  {
  }

  lemma RemoveFound(a: seq<Identity>, id: Identity, b: seq<Identity>)
    requires Distinct(a + [id] + b)
    ensures Remove(a + [id] + b, id) == a + b
  {
    var all := a + [id] + b;
    assert all[|a|] == id;
    forall j | 0 <= j < |b| ensures b[j] != id { assert all[|a| + 1 + j] == b[j]; }
    forall j | 0 <= j < |a| ensures a[j] != id { assert all[j] == a[j]; }
    RemoveConcat(a + [id], b, id);
    RemoveConcat(a, [id], id);
    RemoveAbsent(a, id);
    RemoveAbsent(b, id);
    assert Remove([id], id) == [];
  }

  // The pool after any sequence of calls: the last identities used, most recent last.
  lemma {:induction false} PoolAfterCalls(l: Limiter, calls: seq<Call>)
    requires l.pool == []
    ensures var pool, max := ServeAll(l, calls).pool, l.settings.maxIdentities;
            && Ids(pool) == LastOf(Recent(UsedAll(l, calls)), max)
            && |pool| <= max && Distinct(Ids(pool))
    ensures ServeAll(l, calls).settings == l.settings
  {
    PoolIsTouched(l, calls);
    PoolIsMostRecent(UsedAll(l, calls), l.settings.maxIdentities);
  }

  lemma {:induction false} PoolIsTouched(l: Limiter, calls: seq<Call>)
    requires l.pool == []
    ensures var l' := ServeAll(l, calls);
            && Ids(l'.pool) == TouchAll(UsedAll(l, calls), l.settings.maxIdentities)
            && l'.settings == l.settings && Distinct(Ids(l'.pool))
  {
    var max := l.settings.maxIdentities;
    if calls != [] {
      var front, c := calls[..|calls| - 1], calls[|calls| - 1];
      PoolIsTouched(l, front);
      var mid := ServeAll(l, front);
      var before := UsedAll(l, front);
      PoolIsMostRecent(UsedAll(l, calls), max);
      if Used(mid, c) != [] {
        var id := Used(mid, c)[0];
        assert (before + [id])[..|before|] == before;
        CheckTouches(mid, id, c.at);
        CheckTouches(CheckGlobal(mid, c.at).0, id, c.at);
      } else {
        assert before + [] == before;
      }
      DistinctSuffix(Recent(UsedAll(l, calls)), max);
    }
  }

  lemma DistinctSuffix(ids: seq<Identity>, n: nat)
    requires Distinct(ids)
    ensures Distinct(LastOf(ids, n))
  {
  }

  // --- An identity keeps its bucket while fewer than the maximum of others are used ---

  ghost predicate ValidAt(l: Limiter, t: real) {
    && ValidLimiter(l) && l.global.last <= t
    && forall e | e in l.pool :: e.bucket.last <= t
  }

  // The bucket of id is in the pool, and everything used more recently is in `since`.
  ghost predicate Held(l: Limiter, id: Identity, b: Bucket, since: set<Identity>) {
    exists i | 0 <= i < |l.pool| ::
      l.pool[i] == Entry(id, b) && forall j | i < j < |l.pool| :: l.pool[j].identity in since
  }

  lemma {:induction false} DistinctFits(ids: seq<Identity>, all: set<Identity>)
    requires Distinct(ids) && forall x | x in ids :: x in all
    ensures |ids| <= |all|
  {
    if ids != [] {
      var last := ids[|ids| - 1];
      assert last !in ids[..|ids| - 1];
      DistinctFits(ids[..|ids| - 1], all - {last});
    }
  }

  lemma OwnUse(l: Limiter, id: Identity, b: Bucket, since: set<Identity>, now: real)
    requires Distinct(Ids(l.pool)) && Held(l, id, b, since)
    ensures var (l', ok) := CheckIdentity(l, id, now);
            Held(l', id, TryTake(b, now).0, {}) && ok == TryTake(b, now).1
  {
    hide TryTake;
    var i := Find(l.pool, id);
    var k :| 0 <= k < |l.pool| && l.pool[k] == Entry(id, b);
    assert Ids(l.pool)[i] == Ids(l.pool)[k];
    var pool := CheckIdentity(l, id, now).0.pool;
    assert pool[|pool| - 1] == Entry(id, TryTake(b, now).0);
  }

  lemma OtherUse(l: Limiter, x: Identity, now: real, id: Identity, b: Bucket, since: set<Identity>)
    requires Distinct(Ids(l.pool)) && Held(l, id, b, since) && x != id
    requires |since + {x}| < l.settings.maxIdentities && |l.pool| <= l.settings.maxIdentities
    ensures Held(CheckIdentity(l, x, now).0, id, b, since + {x})
  {
    var k :| 0 <= k < |l.pool| && l.pool[k] == Entry(id, b)
      && forall j | k < j < |l.pool| :: l.pool[j].identity in since;
    if Find(l.pool, x) < |l.pool| { RenewedUse(l, x, now, k, since); } else { NewUse(l, x, now, k, since); }
  }

  lemma RenewedUse(l: Limiter, x: Identity, now: real, k: nat, since: set<Identity>)
    requires k < |l.pool| && l.pool[k].identity != x && Find(l.pool, x) < |l.pool|
    requires forall j | k < j < |l.pool| :: l.pool[j].identity in since
    ensures Held(CheckIdentity(l, x, now).0, l.pool[k].identity, l.pool[k].bucket, since + {x})
  {
    hide TryTake, Held;
    var i := Find(l.pool, x);
    var pool := CheckIdentity(l, x, now).0.pool;
    assert pool == l.pool[..i] + l.pool[i + 1..] + [pool[|pool| - 1]] && pool[|pool| - 1].identity == x;
    HeldWithout(CheckIdentity(l, x, now).0, l.pool, i, pool[|pool| - 1], k, since);
  }

  lemma HeldWithout(l: Limiter, was: seq<Entry>, i: nat, used: Entry, k: nat, since: set<Identity>)
    requires i < |was| && k < |was| && i != k && l.pool == was[..i] + was[i + 1..] + [used]
    requires forall j | k < j < |was| :: was[j].identity in since
    ensures Held(l, was[k].identity, was[k].bucket, since + {used.identity})
  {
    forall j | 0 <= j < |was| - 1 ensures l.pool[j] == was[if j < i then j else j + 1] {}
    assert l.pool[if i < k then k - 1 else k] == was[k];
  }

  lemma NewUse(l: Limiter, x: Identity, now: real, k: nat, since: set<Identity>)
    requires Distinct(Ids(l.pool)) && k < |l.pool| <= l.settings.maxIdentities && Find(l.pool, x) == |l.pool|
    requires forall j | k < j < |l.pool| :: l.pool[j].identity in since
    requires |since + {x}| < l.settings.maxIdentities
    ensures Held(CheckIdentity(l, x, now).0, l.pool[k].identity, l.pool[k].bucket, since + {x})
  {
    hide TryTake;
    var pool := CheckIdentity(l, x, now).0.pool;
    var dropped := |l.pool| + 1 - |pool|;
    if dropped == 1 { NotOldest(l, x, k, since); }
    assert pool[k - dropped] == l.pool[k];
    forall j | k - dropped < j < |pool| ensures pool[j].identity in since + {x} {
      if j < |pool| - 1 { assert pool[j] == l.pool[j + dropped]; }
    }
  }

  lemma NotOldest(l: Limiter, x: Identity, k: nat, since: set<Identity>)
    requires Distinct(Ids(l.pool)) && k < |l.pool| == l.settings.maxIdentities && x !in Ids(l.pool)
    requires forall j | k < j < |l.pool| :: l.pool[j].identity in since
    requires |since + {x}| < l.settings.maxIdentities
    ensures 0 < k
  {
    var newer := Ids(l.pool)[k + 1..] + [x];
    DistinctOneMore(Ids(l.pool)[k + 1..], x);
    DistinctFits(newer, since + {x});
  }

  lemma CheckKeepsValid(l: Limiter, id: Identity, now: real)
    requires ValidAt(l, now)
    ensures ValidAt(CheckIdentity(l, id, now).0, now)
  {
    var l' := CheckIdentity(l, id, now).0;
    CheckTouches(l, id, now);
    TouchDistinct(Ids(l.pool), id, l.settings.maxIdentities);
    TouchFits(Ids(l.pool), id, l.settings.maxIdentities);
    CheckKeepsBuckets(l, id, now);
    assert |Ids(l'.pool)| == |l'.pool|;
  }

  lemma CheckKeepsBuckets(l: Limiter, id: Identity, now: real)
    requires ValidAt(l, now)
    ensures forall e | e in CheckIdentity(l, id, now).0.pool ::
              && ValidBucket(e.bucket) && e.bucket.last <= now
              && e.bucket.capacity == l.settings.capacity && e.bucket.refill == l.settings.refill
  {
    hide Distinct;
    var i := Find(l.pool, id);
    var created := NewBucket(l.settings.capacity, l.settings.refill, now);
    Accrual(l.settings.refill, now, now, now);
    if i < |l.pool| { TakeSpends(l.pool[i].bucket, now, now); } else { TakeSpends(created, now, now); }
    hide TryTake, ValidBucket;
  }

  lemma TouchFits(ids: seq<Identity>, id: Identity, max: nat)
    requires Distinct(ids) && |ids| <= max
    ensures |Touch(ids, id, max)| <= max
  {
    if id in ids { RemoveOne(ids, id); }
  }

  lemma TouchDistinct(ids: seq<Identity>, id: Identity, max: nat)
    requires Distinct(ids)
    ensures Distinct(Touch(ids, id, max))
  {
    DistinctOneMore(Remove(ids, id), id);
    if id !in ids { DistinctOneMore(ids, id); }
  }

  // --- What keeps a bucket in the pool ---

  function Members(uses: seq<Identity>): set<Identity> {
    set x | x in uses
  }

  // The uses after the i-th and before the j-th.
  function Between(uses: seq<Identity>, i: nat, j: nat): seq<Identity>
    requires i < j <= |uses|
  {
    uses[i + 1..j]
  }

  // After each of its uses, fewer than the maximum of distinct others are used before the next.
  ghost predicate StaysRecent(uses: seq<Identity>, id: Identity, max: nat) {
    forall i: nat, j: nat | i < j <= |uses| && uses[i] == id && id !in Between(uses, i, j) ::
      |Members(Between(uses, i, j))| < max
  }

  // The same, for the uses to come of an identity since whose last use `since` were used.
  ghost predicate KeptBy(since: set<Identity>, uses: seq<Identity>, id: Identity, max: nat) {
    forall j | 0 <= j <= |uses| && id !in uses[..j] :: |since + Members(uses[..j])| < max
  }

  // Every identity ever used, split at one: after it come those used since its last use.
  lemma {:induction false} RecentSplit(uses: seq<Identity>, i: nat, id: Identity)
    returns (older: seq<Identity>, newer: seq<Identity>)
    requires i < |uses| && uses[i] == id && id !in Between(uses, i, |uses|)
    ensures Recent(uses) == older + [id] + newer
    ensures Distinct(newer) && Members(newer) == Members(Between(uses, i, |uses|))
  {
    hide Remove, Members;
    var front, last := uses[..|uses| - 1], uses[|uses| - 1];
    if i == |uses| - 1 {
      older, newer := Remove(Recent(front), id), [];
      assert Between(uses, i, |uses|) == [];
    } else {
      assert Between(uses, i, |uses|) == Between(front, i, |front|) + [last];
      assert last != id by { assert Between(uses, i, |uses|)[|uses| - i - 2] == last; }
      var a, b := RecentSplit(front, i, id);
      older, newer := Remove(a, last), Remove(b, last) + [last];
      RemoveAround(a, id, b, last);
      DistinctOneMore(Remove(b, last), last);
      MembersMoved(b, Between(front, i, |front|), last);
    }
  }

  lemma RemoveAround(a: seq<Identity>, id: Identity, b: seq<Identity>, x: Identity)
    requires x != id
    ensures Remove(a + [id] + b, x) + [x] == Remove(a, x) + [id] + (Remove(b, x) + [x])
  {
    RemoveConcat(a + [id], b, x);
    RemoveConcat(a, [id], x);
    assert Remove([id], x) == [id] by { assert [id][..0] == []; }
  }

  lemma MembersMoved(b: seq<Identity>, uses: seq<Identity>, x: Identity)
    requires Members(b) == Members(uses)
    ensures Members(Remove(b, x) + [x]) == Members(uses + [x])
  {
    assert Members(Remove(b, x) + [x]) == Members(b) + {x};
  }

  lemma {:induction false} DistinctSize(ids: seq<Identity>)
    requires Distinct(ids)
    ensures |Members(ids)| == |ids|
  {
    if ids != [] {
      var front, last := ids[..|ids| - 1], ids[|ids| - 1];
      DistinctSize(front);
      assert last !in front;
      assert Members(ids) == Members(front) + {last};
    }
  }

  lemma InLastIff(older: seq<Identity>, id: Identity, newer: seq<Identity>, n: nat)
    requires Distinct(older + [id] + newer)
    ensures id in LastOf(older + [id] + newer, n) <==> |newer| < n
  {
    var all := older + [id] + newer;
    assert all[|older|] == id;
    var last := LastOf(all, n);
    if |newer| < n { assert last[|last| - 1 - |newer|] == id; }
    if id in last {
      var k :| 0 <= k < |last| && last[k] == id;
      assert all[|all| - |last| + k] == id;
    }
  }

  // An identity has a bucket in the pool exactly until the maximum of distinct others have
  // been used since its own last use.
  lemma InPoolIff(l: Limiter, calls: seq<Call>, id: Identity, i: nat)
    requires l.pool == []
    requires var uses := UsedAll(l, calls);
             i < |uses| && uses[i] == id && id !in Between(uses, i, |uses|)
    ensures id in Ids(ServeAll(l, calls).pool)
       <==> |Members(Between(UsedAll(l, calls), i, |UsedAll(l, calls)|))| < l.settings.maxIdentities
  {
    hide UsedAll, ServeAll, Recent;
    var uses := UsedAll(l, calls);
    PoolAfterCalls(l, calls);
    var older, newer := RecentSplit(uses, i, id);
    InLastIff(older, id, newer, l.settings.maxIdentities);
    DistinctSize(newer);
  }

  lemma {:induction false} ServeFirst(l: Limiter, calls: seq<Call>)
    requires calls != []
    ensures ServeAll(l, calls) == ServeAll(Serve(l, calls[0]).0, calls[1..])
    ensures UsedAll(l, calls) == Used(l, calls[0]) + UsedAll(Serve(l, calls[0]).0, calls[1..])
  {
    hide Serve, Used;
    if |calls| == 1 {
      assert calls[..0] == [] && calls[1..] == [];
    } else {
      var front := calls[..|calls| - 1];
      ServeFirst(l, front);
      assert front[1..] == calls[1..][..|calls| - 2] && front[0] == calls[0];
    }
  }

  lemma OwnUseNext(uses: seq<Identity>, id: Identity, max: nat)
    requires uses != [] && uses[0] == id && StaysRecent(uses, id, max)
    ensures StaysRecent(uses[1..], id, max) && KeptBy({}, uses[1..], id, max)
  {
    RestRecent(uses, id, max);
    var rest := uses[1..];
    forall j | 0 <= j <= |rest| && id !in rest[..j] ensures |{} + Members(rest[..j])| < max {
      assert rest[..j] == Between(uses, 0, j + 1);
      assert {} + Members(rest[..j]) == Members(rest[..j]);
    }
  }

  lemma RestRecent(uses: seq<Identity>, id: Identity, max: nat)
    requires uses != [] && StaysRecent(uses, id, max)
    ensures StaysRecent(uses[1..], id, max)
  {
    var rest := uses[1..];
    forall i: nat, j: nat | i < j <= |rest| && rest[i] == id && id !in Between(rest, i, j)
      ensures |Members(Between(rest, i, j))| < max
    {
      assert Between(rest, i, j) == Between(uses, i + 1, j + 1) && uses[i + 1] == id;
    }
  }

  lemma OtherUseNext(since: set<Identity>, uses: seq<Identity>, id: Identity, max: nat)
    requires uses != [] && uses[0] != id && KeptBy(since, uses, id, max)
    ensures |since + {uses[0]}| < max && KeptBy(since + {uses[0]}, uses[1..], id, max)
  {
    var x, rest := uses[0], uses[1..];
    assert uses[..1] == [x];
    assert since + Members(uses[..1]) == since + {x};
    forall j | 0 <= j <= |rest| && id !in rest[..j] ensures |since + {x} + Members(rest[..j])| < max {
      assert uses[..j + 1] == [x] + rest[..j];
      assert since + Members(uses[..j + 1]) == since + {x} + Members(rest[..j]);
    }
  }

  predicate OwnCall(c: Call, id: Identity) {
    (c.IdentityCall? || c.AllowCall?) && c.id == id
  }

  // A call that uses no bucket of the pool leaves it as it was, and grants no identity.
  lemma UnusedKeeps(l: Limiter, c: Call)
    requires Used(l, c) == []
    ensures Serve(l, c).0.pool == l.pool && (c.IdentityCall? || c.AllowCall? ==> !Serve(l, c).1)
  {
  }

  // A call that uses another identity's bucket.
  lemma OthersUse(l: Limiter, c: Call, id: Identity, b: Bucket, since: set<Identity>)
    requires ValidLimiter(l) && Held(l, id, b, since) && Used(l, c) != [] && Used(l, c)[0] != id
    requires |since + {c.id}| < l.settings.maxIdentities
    ensures Held(Serve(l, c).0, id, b, since + {c.id}) && !OwnCall(c, id)
  {
    match c
    case IdentityCall(x, at) => OtherUse(l, x, at, id, b, since);
    case AllowCall(x, at) =>
      var a := CheckGlobal(l, at).0;
      assert Held(a, id, b, since) && a.pool == l.pool;
      OtherUse(a, x, at, id, b, since);
      assert Held(CheckIdentity(a, x, at).0, id, b, since + {x});
      assert RefundGlobal(CheckIdentity(a, x, at).0).pool == CheckIdentity(a, x, at).0.pool;
      assert Held(a, id, b, since + {x});
    case _ =>
  }

  // A call that uses the identity's own bucket takes a token out of it, if there is one.
  lemma OwnUseSpends(l: Limiter, c: Call, id: Identity, b: Bucket, since: set<Identity>, t: real)
    requires ValidLimiter(l) && Held(l, id, b, since) && ValidBucket(b) && Used(l, c) == [id] && b.last <= c.at <= t
    ensures OwnCall(c, id)
    ensures var (l', ok) := Serve(l, c);
            exists b' :: Held(l', id, b', {}) && ValidBucket(b') && b'.last <= c.at
                         && Budget(b', t) + (if ok then 1.0 else 0.0) <= Budget(b, t)
  {
    var a := if c.AllowCall? then CheckGlobal(l, c.at).0 else l;
    assert Held(a, id, b, since) && a.pool == l.pool;
    OwnUse(a, id, b, since, c.at);
    TakeSpends(b, c.at, t);
    var l' := Serve(l, c).0;
    assert l'.pool == CheckIdentity(a, id, c.at).0.pool;
    HeldMore(l', id, TryTake(b, c.at).0, {}, {});
  }

  lemma HeldMore(l: Limiter, id: Identity, b: Bucket, since: set<Identity>, more: set<Identity>)
    requires since <= more
    requires exists i | 0 <= i < |l.pool| ::
               l.pool[i] == Entry(id, b) && forall j | i < j < |l.pool| :: l.pool[j].identity in since
    ensures Held(l, id, b, more)
  {
  }

  lemma ServeKeepsValid(l: Limiter, c: Call, t: real)
    requires ValidAt(l, t) && (!c.RefundCall? ==> t <= c.at)
    ensures ValidAt(Serve(l, c).0, if c.RefundCall? then t else c.at)
    ensures Serve(l, c).0.settings == l.settings
  {
    match c
    case GlobalCall(at) => TakeSpends(l.global, at, at);
    case IdentityCall(id, at) => CheckKeepsValid(l, id, at);
    case RefundCall => RefundReturns(l.global, t);
    case AllowCall(id, at) =>
      TakeSpends(l.global, at, at);
      CheckKeepsValid(CheckGlobal(l, at).0, id, at);
      RefundReturns(TryTake(l.global, at).0, at);
  }

  // While its bucket is held: an identity is granted at most what the bucket gives out.
  lemma {:induction false} IdentityBudget(l: Limiter, calls: seq<Call>, id: Identity, b: Bucket,
                                          since: set<Identity>, from: real, until: real)
    requires ValidAt(l, from) && Timely(calls, from, until)
    requires Held(l, id, b, since) && ValidBucket(b) && b.last <= from
    requires var uses, max := UsedAll(l, calls), l.settings.maxIdentities;
             KeptBy(since, uses, id, max) && StaysRecent(uses, id, max)
    ensures Granted(l, calls, id) as real <= Budget(b, until)
    decreases |calls|
  {
    hide Budget, Held, ValidAt, ValidBucket, Serve, Used, UsedAll, KeptBy, StaysRecent;
    TimelyFrom(calls, from, from, until);
    if calls == [] {
      BudgetLeft(b, from, until);
    } else {
      var c := calls[0];
      var reached := if c.RefundCall? then from else c.at;
      TimelyFrom(calls[1..], reached, reached, until);
      ServeFirst(l, calls);
      ServeKeepsValid(l, c, from);
      ValidAtIsValid(l, from);
      var next, rest := Serve(l, c).0, UsedAll(Serve(l, c).0, calls[1..]);
      var uses, max := UsedAll(l, calls), l.settings.maxIdentities;
      UsedIsCalled(l, c);
      if Used(l, c) == [] {
        UnusedKeeps(l, c);
        SamePoolHeld(l, next, id, b, since);
        assert uses == rest;
        IdentityBudget(next, calls[1..], id, b, since, reached, until);
      } else if c.id == id {
        assert uses[0] == id && uses[1..] == rest;
        OwnUseNext(uses, id, max);
        OwnUseSpends(l, c, id, b, since, until);
        var b' :| Held(next, id, b', {}) && ValidBucket(b') && b'.last <= c.at
                  && Budget(b', until) + (if Serve(l, c).1 then 1.0 else 0.0) <= Budget(b, until);
        IdentityBudget(next, calls[1..], id, b', {}, reached, until);
      } else {
        assert uses[0] == c.id && uses[1..] == rest;
        OtherUseNext(since, uses, id, max);
        RestRecent(uses, id, max);
        OthersUse(l, c, id, b, since);
        IdentityBudget(next, calls[1..], id, b, since + {c.id}, reached, until);
      }
    }
  }

  lemma UsedIsCalled(l: Limiter, c: Call)
    ensures Used(l, c) == [] || ((c.IdentityCall? || c.AllowCall?) && Used(l, c) == [c.id])
  {
  }

  lemma SamePoolHeld(l: Limiter, l': Limiter, id: Identity, b: Bucket, since: set<Identity>)
    requires l'.pool == l.pool && Held(l, id, b, since)
    ensures Held(l', id, b, since)
  {
  }

  lemma BudgetLeft(b: Bucket, from: real, until: real)
    requires ValidBucket(b) && b.last <= from <= until
    ensures 0.0 <= Budget(b, until)
  {
    BudgetNonNegative(b, until);
  }

  lemma ValidAtIsValid(l: Limiter, t: real)
    requires ValidAt(l, t)
    ensures ValidLimiter(l)
  {
  }

  // The first use by id, whatever bucket it finds or creates.
  lemma FirstUse(l: Limiter, c: Call, id: Identity, from: real, t: real)
    requires Used(l, c) == [id] && ValidAt(l, from) && from <= c.at <= t && 0 < l.settings.maxIdentities
    ensures var (l', ok) := Serve(l, c);
            exists b' :: Held(l', id, b', {}) && ValidBucket(b') && b'.last <= c.at
                         && Budget(b', t) + (if ok then 1.0 else 0.0)
                            <= l.settings.capacity + Accrued(l.settings.refill, c.at, t)
  {
    var a := if c.AllowCall? then CheckGlobal(l, c.at).0 else l;
    var i := Find(a.pool, id);
    Accrual(l.settings.refill, c.at, c.at, c.at);
    var b := if i < |a.pool| then a.pool[i].bucket else NewBucket(l.settings.capacity, l.settings.refill, c.at);
    TakeSpends(b, c.at, t);
    hide TryTake, ValidBucket, Budget;
    var pool := CheckIdentity(a, id, c.at).0.pool;
    assert pool[|pool| - 1] == Entry(id, TryTake(b, c.at).0);
    assert Serve(l, c).0.pool == pool;
    assert Held(Serve(l, c).0, id, TryTake(b, c.at).0, {});
  }

  lemma {:induction false} IdentityWindow(l: Limiter, calls: seq<Call>, id: Identity, from: real, until: real)
    requires ValidAt(l, from) && Timely(calls, from, until)
    requires StaysRecent(UsedAll(l, calls), id, l.settings.maxIdentities)
    ensures Granted(l, calls, id) as real <= l.settings.capacity + Accrued(l.settings.refill, from, until)
    decreases |calls|
  {
    hide Budget, Held, ValidAt, ValidBucket, Serve, Used, UsedAll, Accrued, KeptBy, StaysRecent;
    TimelyFrom(calls, from, from, until);
    ValidAtIsValid(l, from);
    Accrual(l.settings.refill, from, until, until);
    if calls != [] {
      var c := calls[0];
      var reached := if c.RefundCall? then from else c.at;
      TimelyFrom(calls[1..], reached, reached, until);
      Accrual(l.settings.refill, from, reached, until);
      ServeFirst(l, calls);
      ServeKeepsValid(l, c, from);
      UsedIsCalled(l, c);
      var (next, ok) := Serve(l, c);
      var uses, rest := UsedAll(l, calls), UsedAll(next, calls[1..]);
      if Used(l, c) == [] {
        UnusedKeeps(l, c);
        assert uses == rest;
        IdentityWindow(next, calls[1..], id, reached, until);
      } else {
        assert uses[0] == c.id && uses[1..] == rest;
        RestRecent(uses, id, l.settings.maxIdentities);
        if c.id == id {
          OwnUseNext(uses, id, l.settings.maxIdentities);
          SomeRoom(uses, id, l.settings.maxIdentities);
          FirstUse(l, c, id, from, until);
          var b' :| Held(next, id, b', {}) && ValidBucket(b') && b'.last <= c.at
                    && Budget(b', until) + (if ok then 1.0 else 0.0)
                       <= l.settings.capacity + Accrued(l.settings.refill, c.at, until);
          IdentityBudget(next, calls[1..], id, b', {}, reached, until);
        } else {
          IdentityWindow(next, calls[1..], id, reached, until);
        }
      }
    }
  }

  lemma SomeRoom(uses: seq<Identity>, id: Identity, max: nat)
    requires uses != [] && uses[0] == id && StaysRecent(uses, id, max)
    ensures 0 < max
  {
    assert Between(uses, 0, 1) == [];
  }

  // In any window, an identity is granted at most one bucket's capacity plus its refill over
  // the window, provided that after each of its uses fewer than the maximum of distinct
  // others use the pool before its next; calls refused globally do not count.
  lemma IdentityRateBound(l: Limiter, calls: seq<Call>, id: Identity, from: real, until: real)
    requires ValidAt(l, from) && Timely(calls, from, until)
    requires StaysRecent(UsedAll(l, calls), id, l.settings.maxIdentities)
    ensures Granted(l, calls, id) as real <= l.settings.capacity + (until - from) * l.settings.refill
  {
    hide Granted, ValidAt, Timely, StaysRecent, UsedAll;
    IdentityWindow(l, calls, id, from, until);
  }
}
