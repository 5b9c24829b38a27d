// When the rate limiter grants: exactly which calls of a token bucket succeed, and that no
// one else's requests can cost an identity its own allowance.
module RateAvailability {
  import opened RateLimit

  // --- A token bucket, call by call ---

  // The bucket after calls of try_take at these times.
  function Run(b: Bucket, times: seq<real>): Bucket {
    if times == [] then b else TryTake(Run(b, times[..|times| - 1]), times[|times| - 1]).0
  }

  // The times of those it granted.
  function GrantedTimes(b: Bucket, times: seq<real>): seq<real> {
    if times == [] then []
    else
      var front, last := times[..|times| - 1], times[|times| - 1];
      GrantedTimes(b, front) + if TryTake(Run(b, front), last).1 then [last] else []
  }

  ghost predicate InOrder(from: real, times: seq<real>) {
    && (forall i | 0 <= i < |times| :: from <= times[i])
    && forall i, j | 0 <= i <= j < |times| :: times[i] <= times[j]
  }

  // n tokens by the time t are no more than flow in from the time `from` on, beside those a
  // full bucket holds, or those there at the start.
  predicate Within(b: Bucket, from: real, n: real, t: real) {
    n <= b.capacity + (t - from) * b.refill
  }

  predicate WithinStart(b: Bucket, n: real, t: real) {
    n <= b.tokens + (t - b.last) * b.refill
  }

  // After grants at the times g there is room at t for x more, over the time since the start
  // and over the time since each of those grants.
  ghost predicate Affords(b: Bucket, g: seq<real>, t: real, x: real) {
    && x <= b.capacity
    && WithinStart(b, |g| as real + x, t)
    && forall i | 0 <= i < |g| :: Within(b, g[i], (|g| - i) as real + x, t)
  }

  lemma Flows(refill: real, a: real, b: real, c: real)
    requires 0.0 <= refill && b <= c
    ensures (c - a) * refill == (b - a) * refill + (c - b) * refill && 0.0 <= (c - b) * refill
  {
  }

  lemma RefillTokens(b: Bucket, now: real, x: real)
    ensures x <= Refilled(b, now).tokens <==> x <= b.capacity && x <= b.tokens + (now - b.last) * b.refill
  {
  }

  // A refill on the way changes nothing.
  lemma RefillTwice(b: Bucket, s: real, t: real)
    requires 0.0 <= b.refill && s <= t
    ensures Refilled(Refilled(b, s), t) == Refilled(b, t)
  {
    Flows(b.refill, b.last, s, t);
  }

  // What must be there at s, before a token is taken, for x to be there at t.
  function Needed(refill: real, s: real, t: real, x: real): real {
    x + 1.0 - (t - s) * refill
  }

  lemma AffordsNext(b: Bucket, g: seq<real>, s: real, t: real, x: real)
    requires 0.0 <= b.refill && s <= t
    ensures Affords(b, g + [s], t, x) <==> x <= b.capacity && Affords(b, g, s, Needed(b.refill, s, t, x))
  {
    hide Within, WithinStart, Needed;
    var more, y := g + [s], Needed(b.refill, s, t, x);
    WithinLater(b, b.last, |g| as real, s, t, x);
    WithinNow(b, s, t, x);
    forall i | 0 <= i < |g|
      ensures Within(b, g[i], (|g| - i) as real + y, s) <==> Within(b, more[i], (|more| - i) as real + x, t)
    {
      WithinLater(b, g[i], (|g| - i) as real, s, t, x);
    }
    assert more[|g|] == s;
    if Affords(b, more, t, x) {
      assert Within(b, more[|g|], 1.0 + x, t);
    }
  }

  lemma WithinLater(b: Bucket, from: real, n: real, s: real, t: real, x: real)
    ensures Within(b, from, n + Needed(b.refill, s, t, x), s) <==> Within(b, from, n + 1.0 + x, t)
    ensures from == b.last ==>
              (WithinStart(b, n + Needed(b.refill, s, t, x), s) <==> WithinStart(b, n + 1.0 + x, t))
  {
    assert (t - from) * b.refill == (s - from) * b.refill + (t - s) * b.refill;
  }

  lemma WithinNow(b: Bucket, s: real, t: real, x: real)
    ensures Within(b, s, 1.0 + x, t) <==> Needed(b.refill, s, t, x) <= b.capacity
  {
  }

  // The tokens in a bucket, from the times of its grants alone: refused calls leave no trace.
  lemma {:induction false} TokensIff(b: Bucket, times: seq<real>, t: real, x: real)
    requires 0.0 <= b.refill && InOrder(b.last, times + [t])
    ensures x <= Refilled(Run(b, times), t).tokens <==> Affords(b, GrantedTimes(b, times), t, x)
    ensures var r := Run(b, times); r.capacity == b.capacity && r.refill == b.refill
  {
    hide Affords, Refilled, Needed, Within, WithinStart, InOrder;
    if times == [] {
      RefillTokens(b, t, x);
      AffordsNone(b, t, x);
    } else {
      var front, s := times[..|times| - 1], times[|times| - 1];
      var r := Run(b, front);
      assert times == front + [s];
      Prefix(b.last, front, s, t);
      TokensIff(b, front, s, 1.0);
      TokensAfterTake(r, s, t, x);
      if TryTake(r, s).1 {
        TokensIff(b, front, s, Needed(b.refill, s, t, x));
        AffordsNext(b, GrantedTimes(b, front), s, t, x);
      } else {
        TokensIff(b, front, t, x);
        assert GrantedTimes(b, times) == GrantedTimes(b, front);
      }
    }
  }

  lemma AffordsNone(b: Bucket, t: real, x: real)
    ensures Affords(b, [], t, x) <==> x <= b.capacity && x <= b.tokens + (t - b.last) * b.refill
  {
  }

  lemma Prefix(from: real, front: seq<real>, s: real, t: real)
    requires InOrder(from, front + [s] + [t])
    ensures InOrder(from, front + [s]) && InOrder(from, front + [t]) && s <= t
  {
    var all := front + [s] + [t];
    assert all[|front|] == s && all[|front| + 1] == t;
    forall i | 0 <= i < |front| + 1 ensures (front + [s])[i] == all[i] {}
    forall i | 0 <= i < |front| + 1 ensures (front + [t])[i] == all[if i < |front| then i else i + 1] {}
  }

  lemma TokensAfterTake(r: Bucket, s: real, t: real, x: real)
    requires 0.0 <= r.refill && s <= t
    ensures var (b, ok) := TryTake(r, s);
            && b.capacity == r.capacity && b.refill == r.refill
            && (ok <==> 1.0 <= Refilled(r, s).tokens)
            && (ok ==> (x <= Refilled(b, t).tokens <==>
                          x <= r.capacity && Needed(r.refill, s, t, x) <= Refilled(r, s).tokens))
            && (!ok ==> Refilled(b, t) == Refilled(r, t))
  {
    RefillTwice(r, s, t);
    RefillTokens(TryTake(r, s).0, t, x);
  }

  // A call is granted if and only if it and the grants before it stay within what the bucket
  // allows over every stretch of time that ends with it. Each direction says what a caller
  // may rely on: no call within that allowance is refused, none beyond it is granted.
  lemma GrantedIff(b: Bucket, times: seq<real>, t: real)
    requires 0.0 <= b.refill && InOrder(b.last, times + [t])
    ensures var g := GrantedTimes(b, times);
            TryTake(Run(b, times), t).1 <==>
              && 1.0 <= b.capacity
              && |g| as real + 1.0 <= b.tokens + (t - b.last) * b.refill
              && forall i | 0 <= i < |g| :: (|g| - i) as real + 1.0 <= b.capacity + (t - g[i]) * b.refill
  {
    hide Run, GrantedTimes;
    TokensIff(b, times, t, 1.0);
    assert forall i | 0 <= i < |GrantedTimes(b, times)| ::
        var g := GrantedTimes(b, times);
        Within(b, g[i], (|g| - i) as real + 1.0, t) <==>
          (|g| - i) as real + 1.0 <= b.capacity + (t - g[i]) * b.refill;
  }

  // --- Callers who are never refused ---

  // The calls from any one of them on, and from the start, are within the allowance.
  ghost predicate Conforms(b: Bucket, times: seq<real>) {
    && (forall j | 0 <= j < |times| :: WithinStart(b, (j + 1) as real, times[j]))
    && forall i, j | 0 <= i <= j < |times| :: Within(b, times[i], (j - i + 1) as real, times[j])
  }

  lemma ConformsNext(b: Bucket, front: seq<real>, t: real)
    ensures Conforms(b, front + [t]) <==> Conforms(b, front) && Affords(b, front, t, 1.0)
  {
    hide Within, WithinStart;
    var times, n := front + [t], |front|;
    assert Within(b, t, 1.0, t) <==> 1.0 <= b.capacity by { WithinNow(b, t, t, 0.0); }
    assert times[n] == t && forall i | 0 <= i < n :: times[i] == front[i];
    if Conforms(b, times) {
      forall i, j | 0 <= i <= j < n ensures Within(b, front[i], (j - i + 1) as real, front[j]) {
        assert Within(b, times[i], (j - i + 1) as real, times[j]);
      }
      forall j | 0 <= j < n ensures WithinStart(b, (j + 1) as real, front[j]) {
        assert WithinStart(b, (j + 1) as real, times[j]);
      }
      assert WithinStart(b, (n + 1) as real, times[n]) && Within(b, times[n], (n - n + 1) as real, times[n]);
      forall i | 0 <= i < n ensures Within(b, front[i], (n - i) as real + 1.0, t) {
        assert Within(b, times[i], (n - i + 1) as real, times[n]);
      }
    }
    if Conforms(b, front) && Affords(b, front, t, 1.0) {
      forall i, j | 0 <= i <= j < |times| ensures Within(b, times[i], (j - i + 1) as real, times[j]) {
        if j < n {
          assert Within(b, front[i], (j - i + 1) as real, front[j]);
        } else if i < n {
          assert Within(b, front[i], (n - i) as real + 1.0, t);
        }
      }
    }
  }

  // Every call is granted if and only if the calls conform.
  lemma {:induction false} ConformingIff(b: Bucket, times: seq<real>)
    requires 0.0 <= b.refill && InOrder(b.last, times)
    ensures GrantedTimes(b, times) == times <==> Conforms(b, times)
    ensures |GrantedTimes(b, times)| <= |times|
  {
    hide Affords, Conforms, Refilled;
    if times == [] {
      NoCalls(b);
    } else {
      var front, t := times[..|times| - 1], times[|times| - 1];
      assert times == front + [t];
      assert InOrder(b.last, front);
      ConformingIff(b, front);
      ConformsNext(b, front, t);
      TokensIff(b, front, t, 1.0);
      if GrantedTimes(b, times) == times {
        assert GrantedTimes(b, times)[..|front|] == front;
      }
    }
  }

  lemma NoCalls(b: Bucket)
    ensures Conforms(b, [])
  {
  }

  // For a new bucket, which is full: of the calls in any stretch there are at most the capacity
  // and what flows in from the first of them to the last.
  lemma NewBucketIff(capacity: real, refill: real, start: real, times: seq<real>)
    requires 0.0 <= refill && InOrder(start, times)
    ensures GrantedTimes(NewBucket(capacity, refill, start), times) == times <==>
              forall i, j | 0 <= i <= j < |times| ::
                (j - i + 1) as real <= capacity + (times[j] - times[i]) * refill
  {
    hide GrantedTimes, WithinStart, InOrder;
    var b := NewBucket(capacity, refill, start);
    ConformingIff(b, times);
    if forall i, j | 0 <= i <= j < |times| :: Within(b, times[i], (j - i + 1) as real, times[j]) {
      forall j | 0 <= j < |times| ensures WithinStart(b, (j + 1) as real, times[j]) {
        assert Within(b, times[0], (j - 0 + 1) as real, times[j]);
        FullAtStart(b, times, j);
      }
    }
    assert forall i, j | 0 <= i <= j < |times| ::
        Within(b, times[i], (j - i + 1) as real, times[j]) <==>
          (j - i + 1) as real <= capacity + (times[j] - times[i]) * refill;
  }

  lemma FullAtStart(b: Bucket, times: seq<real>, j: nat)
    requires 0.0 <= b.refill && b.tokens == b.capacity && InOrder(b.last, times) && j < |times|
    requires Within(b, times[0], (j + 1) as real, times[j])
    ensures WithinStart(b, (j + 1) as real, times[j])
  {
    Flows(b.refill, b.last, times[0], times[j]);
    Flows(b.refill, b.last, b.last, times[0]);
  }

  // A full bucket of n grants n calls, however soon one after another.
  lemma BurstGranted(capacity: real, refill: real, start: real, times: seq<real>)
    requires 0.0 <= refill && InOrder(start, times) && |times| as real <= capacity
    ensures GrantedTimes(NewBucket(capacity, refill, start), times) == times
  {
    hide GrantedTimes;
    NewBucketIff(capacity, refill, start, times);
    forall i, j | 0 <= i <= j < |times| ensures (j - i + 1) as real <= capacity + (times[j] - times[i]) * refill {
      BurstWithin(capacity, refill, |times|, j - i + 1, times[i], times[j]);
    }
  }

  lemma BurstWithin(capacity: real, refill: real, all: nat, n: nat, from: real, until: real)
    requires 0.0 <= refill && from <= until && n <= all && all as real <= capacity
    ensures n as real <= capacity + (until - from) * refill
  {
    assert 0.0 <= (until - from) * refill;
  }

  // n calls at once, then m more, one as each token flows in.
  function Eager(n: nat, refill: real, start: real, m: nat): (times: seq<real>)
    requires 0.0 < refill
    ensures |times| == n + m
  {
    seq(n + m, k requires 0 <= k < n + m => start + Steps(n, k) as real / refill)
  }

  function Steps(n: nat, k: nat): nat {
    if k < n then 0 else k - n + 1
  }

  lemma EagerGap(n: nat, refill: real, start: real, m: nat, i: nat, j: nat)
    requires 0.0 < refill && i < n + m && j < n + m
    ensures var times := Eager(n, refill, start, m);
            (times[j] - times[i]) * refill == Steps(n, j) as real - Steps(n, i) as real
  {
    Quotient(Steps(n, j) as real, refill);
    Quotient(Steps(n, i) as real, refill);
    var a, b := Steps(n, j) as real / refill, Steps(n, i) as real / refill;
    assert (a - b) * refill == a * refill - b * refill;
  }

  lemma Quotient(a: real, b: real)
    requires b != 0.0
    ensures a / b * b == a
  {
  }

  // The most a bucket of n may grant in the time in which m tokens flow in, n + m calls, it does
  // grant: the upper bound on a window is reached.
  lemma AllowanceReached(n: nat, refill: real, start: real, m: nat)
    requires 1 <= n && 0.0 < refill
    ensures var times := Eager(n, refill, start, m);
            && GrantedTimes(NewBucket(n as real, refill, start), times) == times
            && (forall k | 0 <= k < |times| :: start <= times[k] <= start + m as real / refill)
            && |times| as real == n as real + (start + m as real / refill - start) * refill
  {
    hide Eager, GrantedTimes, InOrder;
    var times := Eager(n, refill, start, m);
    EagerInOrder(n, refill, start, m);
    NewBucketIff(n as real, refill, start, times);
    forall i, j | 0 <= i <= j < |times| ensures (j - i + 1) as real <= n as real + (times[j] - times[i]) * refill {
      EagerGap(n, refill, start, m, i, j);
    }
    Quotient(m as real, refill);
  }

  lemma EagerInOrder(n: nat, refill: real, start: real, m: nat)
    requires 1 <= n && 0.0 < refill
    ensures var times := Eager(n, refill, start, m);
            && InOrder(start, times)
            && forall k | 0 <= k < |times| :: times[k] <= start + m as real / refill
  {
    forall i, j | 0 <= i <= j < n + m ensures Steps(n, i) as real / refill <= Steps(n, j) as real / refill {
      LessQuotient(Steps(n, i) as real, Steps(n, j) as real, refill);
    }
    forall k | 0 <= k < n + m ensures 0.0 <= Steps(n, k) as real / refill <= m as real / refill {
      LessQuotient(0.0, Steps(n, k) as real, refill);
      LessQuotient(Steps(n, k) as real, m as real, refill);
    }
  }

  lemma LessQuotient(a: real, b: real, c: real)
    requires a <= b && 0.0 < c
    ensures a / c <= b / c
  {
  }

  // At least n tokens flow in between two instants.
  predicate Gains(b: Bucket, from: real, until: real, n: int) {
    n as real <= (until - from) * b.refill
  }

  // From any state, calls far enough apart for a token to flow in between are all granted.
  lemma SpacedGranted(b: Bucket, times: seq<real>)
    requires ValidBucket(b) && 1.0 <= b.capacity && InOrder(b.last, times)
    requires times != [] ==> Gains(b, b.last, times[0], 1)
    requires forall i | 0 < i < |times| :: Gains(b, times[i - 1], times[i], 1)
    ensures GrantedTimes(b, times) == times
  {
    hide GrantedTimes, InOrder, Within, WithinStart, Gains;
    ConformingIff(b, times);
    forall j | 0 <= j < |times| ensures WithinStart(b, (j + 1) as real, times[j]) {
      Spaced(b, times, 0, j);
      GainsMore(b, b.last, times[0], times[j], 1, j);
      GainsStart(b, times[j], j + 1);
    }
    forall i, j | 0 <= i <= j < |times| ensures Within(b, times[i], (j - i + 1) as real, times[j]) {
      Spaced(b, times, i, j);
      GainsWithin(b, times[i], times[j], j - i);
    }
  }

  lemma {:induction false} Spaced(b: Bucket, times: seq<real>, i: nat, j: nat)
    requires i <= j < |times| && forall i | 0 < i < |times| :: Gains(b, times[i - 1], times[i], 1)
    ensures Gains(b, times[i], times[j], j - i)
  {
    if i < j {
      hide Gains;
      Spaced(b, times, i, j - 1);
      GainsMore(b, times[i], times[j - 1], times[j], j - 1 - i, 1);
    }
  }

  lemma GainsMore(b: Bucket, s: real, t: real, u: real, n: int, m: int)
    requires Gains(b, s, t, n) && Gains(b, t, u, m)
    ensures Gains(b, s, u, n + m)
  {
    assert (u - s) * b.refill == (t - s) * b.refill + (u - t) * b.refill;
  }

  lemma GainsStart(b: Bucket, t: real, n: int)
    requires 0.0 <= b.tokens && Gains(b, b.last, t, n)
    ensures WithinStart(b, n as real, t)
  {
  }

  lemma GainsWithin(b: Bucket, from: real, t: real, n: int)
    requires 1.0 <= b.capacity && Gains(b, from, t, n)
    ensures Within(b, from, (n + 1) as real, t)
  {
  }

  // --- The limiter ---

  // A combined check succeeds if and only if a token is in the global bucket, and in the
  // identity's own: one it has not used lately is full.
  lemma AllowIff(l: Limiter, id: Identity, now: real)
    requires ValidLimiter(l)
    ensures var i := Find(l.pool, id);
            Allow(l, id, now).1 <==>
              && 1.0 <= l.global.capacity
              && 1.0 <= l.global.tokens + (now - l.global.last) * l.global.refill
              && 1.0 <= l.settings.capacity
              && (id in Ids(l.pool) ==>
                    i < |l.pool| && var own := l.pool[i].bucket;
                    l.pool[i].identity == id && 1.0 <= own.tokens + (now - own.last) * own.refill)
  {
    hide Refilled, Distinct;
    var i := Find(l.pool, id);
    RefillTokens(l.global, now, 1.0);
    if i < |l.pool| {
      RefillTokens(l.pool[i].bucket, now, 1.0);
      assert l.pool[i] in l.pool && Ids(l.pool)[i] == id;
    } else {
      RefillTokens(NewBucket(l.settings.capacity, l.settings.refill, now), now, 1.0);
    }
  }

  // The times at which an identity's bucket is asked for a token.
  function OwnTimes(l: Limiter, calls: seq<Call>, id: Identity): seq<real> {
    if calls == [] then []
    else
      var front, c := calls[..|calls| - 1], calls[|calls| - 1];
      OwnTimes(l, front, id) + if Used(ServeAll(l, front), c) == [id] then [c.at] else []
  }

  // Whatever bucket the pool holds for the identity has at least the tokens of b.
  ghost predicate Richer(l: Limiter, id: Identity, b: Bucket) {
    && Distinct(Ids(l.pool))
    && b.capacity == l.settings.capacity && b.refill == l.settings.refill
    && forall e | e in l.pool && e.identity == id ::
         e.bucket == b.(tokens := e.bucket.tokens) && b.tokens <= e.bucket.tokens
  }

  lemma RicherTake(rich: Bucket, b: Bucket, now: real)
    requires rich == b.(tokens := rich.tokens) && b.tokens <= rich.tokens && TryTake(b, now).1
    ensures var (after, ok) := TryTake(rich, now);
            ok && after == TryTake(b, now).0.(tokens := after.tokens) && TryTake(b, now).0.tokens <= after.tokens
  {
    hide Accrued;
  }

  lemma NewTake(b: Bucket, now: real)
    requires TryTake(b, now).1
    ensures var (after, ok) := TryTake(NewBucket(b.capacity, b.refill, now), now);
            ok && after == TryTake(b, now).0.(tokens := after.tokens) && TryTake(b, now).0.tokens <= after.tokens
  {
  }

  lemma OwnCheck(l: Limiter, id: Identity, b: Bucket, now: real)
    requires Richer(l, id, b) && TryTake(b, now).1
    ensures var (after, ok) := CheckIdentity(l, id, now);
            ok && Richer(after, id, TryTake(b, now).0)
  {
    hide TryTake, Distinct;
    var i, after := Find(l.pool, id), CheckIdentity(l, id, now).0;
    CheckTouches(l, id, now);
    TouchDistinct(Ids(l.pool), id, l.settings.maxIdentities);
    TakeKeepsSettings(b, now);
    if i < |l.pool| {
      assert l.pool[i] in l.pool;
      RicherTake(l.pool[i].bucket, b, now);
      OthersAreOthers(l.pool, i);
    } else {
      NewTake(b, now);
    }
  }

  lemma TakeKeepsSettings(b: Bucket, now: real)
    ensures var after := TryTake(b, now).0; after.capacity == b.capacity && after.refill == b.refill
  {
  }

  lemma OthersAreOthers(pool: seq<Entry>, i: nat)
    requires Distinct(Ids(pool)) && i < |pool|
    ensures forall e | e in pool[..i] + pool[i + 1..] :: e.identity != pool[i].identity
  {
    var ids := Ids(pool);
    forall k | 0 <= k < |pool| && k != i ensures pool[k].identity != pool[i].identity {
      assert ids[k] != ids[i];
    }
  }

  lemma OtherCheck(l: Limiter, x: Identity, id: Identity, b: Bucket, now: real)
    requires Richer(l, id, b) && x != id
    ensures Richer(CheckIdentity(l, x, now).0, id, b)
  {
    hide TryTake, Distinct;
    CheckTouches(l, x, now);
    TouchDistinct(Ids(l.pool), x, l.settings.maxIdentities);
  }

  // One call: the identity's own is granted if b would grant it, and others' do not matter.
  lemma ServeRicher(l: Limiter, c: Call, id: Identity, b: Bucket)
    requires Richer(l, id, b)
    ensures Used(l, c) != [id] ==> Richer(Serve(l, c).0, id, b)
    ensures Used(l, c) == [id] && TryTake(b, c.at).1 ==> Serve(l, c).1 && Richer(Serve(l, c).0, id, TryTake(b, c.at).0)
  {
    hide TryTake, Richer, CheckIdentity, Refunded;
    match c
    case IdentityCall(x, at) =>
      if x != id { OtherCheck(l, x, id, b, at); } else if TryTake(b, at).1 { OwnCheck(l, id, b, at); }
    case AllowCall(x, at) =>
      var a := CheckGlobal(l, at).0;
      SamePoolRicher(l, a, id, b);
      if x != id { OtherCheck(a, x, id, b, at); } else if TryTake(b, at).1 { OwnCheck(a, id, b, at); }
      var used := CheckIdentity(a, x, at).0;
      if Richer(used, id, b) { SamePoolRicher(used, RefundGlobal(used), id, b); }
    case _ => SamePoolRicher(l, Serve(l, c).0, id, b);
  }

  lemma SamePoolRicher(l: Limiter, l': Limiter, id: Identity, b: Bucket)
    requires Richer(l, id, b) && l'.pool == l.pool && l'.settings == l.settings
    ensures Richer(l', id, b)
  {
  }

  // An identity that keeps within its own allowance is never refused for its own bucket: not by
  // what others ask, however many they are, nor by its bucket being evicted from the pool.
  lemma {:induction false} NeverStarved(l: Limiter, calls: seq<Call>, id: Identity, b: Bucket, k: nat)
    requires Richer(l, id, b) && 0.0 <= b.refill && k < |calls|
    requires InOrder(b.last, OwnTimes(l, calls, id)) && Conforms(b, OwnTimes(l, calls, id))
    requires Used(ServeAll(l, calls[..k]), calls[k]) == [id]
    ensures Serve(ServeAll(l, calls[..k]), calls[k]).1
  {
    hide Richer, InOrder, Conforms, Serve, Used;
    if k < |calls| - 1 {
      var front := calls[..|calls| - 1];
      assert front[..k] == calls[..k];
      FrontConforms(b, OwnTimes(l, calls, id), OwnTimes(l, front, id));
      NeverStarved(l, front, id, b, k);
    } else {
      StaysRicher(l, calls, id, b);
    }
  }

  // So of an identity the pool does not know: if in any stretch of time it asks for no more
  // than the capacity and what flows in meanwhile, each time it asks it has a token.
  lemma NewcomerNeverStarved(l: Limiter, calls: seq<Call>, id: Identity, start: real, k: nat)
    requires ValidLimiter(l) && id !in Ids(l.pool) && InOrder(start, OwnTimes(l, calls, id))
    requires var times := OwnTimes(l, calls, id);
             forall i, j | 0 <= i <= j < |times| ::
               (j - i + 1) as real <= l.settings.capacity + (times[j] - times[i]) * l.settings.refill
    requires k < |calls| && Used(ServeAll(l, calls[..k]), calls[k]) == [id]
    ensures Serve(ServeAll(l, calls[..k]), calls[k]).1
  {
    hide OwnTimes, GrantedTimes, InOrder, Serve, Used;
    var b := NewBucket(l.settings.capacity, l.settings.refill, start);
    NewBucketIff(b.capacity, b.refill, start, OwnTimes(l, calls, id));
    ConformingIff(b, OwnTimes(l, calls, id));
    assert Richer(l, id, b) by {
      assert forall e | e in l.pool :: e.identity in Ids(l.pool);
    }
    hide Conforms, Richer;
    NeverStarved(l, calls, id, b, k);
  }

  lemma FrontConforms(b: Bucket, times: seq<real>, front: seq<real>)
    requires InOrder(b.last, times) && Conforms(b, times)
    requires front == times || (times != [] && front == times[..|times| - 1])
    ensures InOrder(b.last, front) && Conforms(b, front)
  {
    hide Within, WithinStart;
  }

  lemma {:induction false} StaysRicher(l: Limiter, calls: seq<Call>, id: Identity, b: Bucket)
    requires Richer(l, id, b) && 0.0 <= b.refill
    requires InOrder(b.last, OwnTimes(l, calls, id)) && Conforms(b, OwnTimes(l, calls, id))
    ensures Richer(ServeAll(l, calls), id, Run(b, OwnTimes(l, calls, id)))
    ensures calls != [] ==>
              var c, before := calls[|calls| - 1], ServeAll(l, calls[..|calls| - 1]);
              Used(before, c) == [id] ==> Serve(before, c).1
  {
    hide Richer, InOrder, Conforms, Serve, Used, TryTake;
    if calls != [] {
      var front, c := calls[..|calls| - 1], calls[|calls| - 1];
      var times, early := OwnTimes(l, calls, id), OwnTimes(l, front, id);
      FrontConforms(b, times, early);
      StaysRicher(l, front, id, b);
      ServeRicher(ServeAll(l, front), c, id, Run(b, early));
      if Used(ServeAll(l, front), c) == [id] {
        assert times[..|early|] == early;
        UsedIsCalled(ServeAll(l, front), c);
        LastGranted(b, early, c.at);
      } else {
        assert times == early;
      }
    }
  }

  lemma LastGranted(b: Bucket, front: seq<real>, t: real)
    requires 0.0 <= b.refill && InOrder(b.last, front + [t]) && Conforms(b, front + [t])
    ensures TryTake(Run(b, front), t).1
  {
    hide Conforms, TryTake, InOrder;
    var times := front + [t];
    assert times[..|front|] == front;
    ConformingIff(b, times);
    FrontConforms(b, times, front);
    ConformingIff(b, front);
  }
}
