// The rate limiter as the relay keeps it: bucket objects changed in place, and an ordered
// dictionary of them, proved against the values of RateLimit.
module RateLimiterClass {
  import opened RateLimit

  class TokenBucket {
    const capacity: real
    const refillPerSecond: real
    var tokens: real
    var lastRefill: real

    ghost function Value(): Bucket
      reads this
    {
      Bucket(capacity, refillPerSecond, tokens, lastRefill)
    }

    constructor (capacity: real, refillPerSecond: real, now: real)
      ensures Value() == NewBucket(capacity, refillPerSecond, now)
      ensures tokens == capacity && lastRefill == now
    {
      this.capacity := capacity;
      this.refillPerSecond := refillPerSecond;
      this.tokens := capacity;
      this.lastRefill := now;
    }

    method Refill(now: real)
      modifies this
      ensures Value() == Refilled(old(Value()), now)
      ensures lastRefill == now
      ensures var sum := old(tokens) + (now - old(lastRefill)) * refillPerSecond;
              tokens == if capacity <= sum then capacity else sum
    {
      var elapsed := now - lastRefill;
      lastRefill := now;
      tokens := Min(capacity, tokens + elapsed * refillPerSecond);
    }

    method TryTake(now: real) returns (ok: bool)
      modifies this
      ensures (Value(), ok) == RateLimit.TryTake(old(Value()), now)
      ensures lastRefill == now
      ensures var sum := old(tokens) + (now - old(lastRefill)) * refillPerSecond;
              && (ok <==> 1.0 <= capacity && 1.0 <= sum)
              && tokens == (if capacity <= sum then capacity else sum) - if ok then 1.0 else 0.0
    {
      Refill(now);
      if tokens >= 1.0 {
        tokens := tokens - 1.0;
        return true;
      }
      return false;
    }

    method Refund()
      modifies this
      ensures Value() == Refunded(old(Value()))
      ensures tokens == if capacity <= old(tokens) + 1.0 then capacity else old(tokens) + 1.0
    {
      tokens := Min(capacity, tokens + 1.0);
    }
  }

  class RateLimiter {
    const globalBucket: TokenBucket
    const perIdentityCapacity: real
    const perIdentityRefill: real
    const maxIdentities: nat
    var buckets: seq<(Identity, TokenBucket)>

    ghost function Objects(): set<TokenBucket>
      reads this
    {
      set entry | entry in buckets :: entry.1
    }

    // No two entries share a bucket, and the global bucket is none of them.
    ghost predicate Valid()
      reads this
    {
      && globalBucket !in Objects()
      && (forall i, j | 0 <= i < j < |buckets| :: buckets[i].1 != buckets[j].1)
    }

    ghost function Pool(): seq<Entry>
      reads this, Objects()
    {
      seq(|buckets|, i requires 0 <= i < |buckets| reads this, Objects() => Entry(buckets[i].0, buckets[i].1.Value()))
    }

    ghost function Model(): Limiter
      reads this, globalBucket, Objects()
    {
      Limiter(Settings(perIdentityCapacity, perIdentityRefill, maxIdentities), globalBucket.Value(), Pool())
    }

    constructor (globalCapacity: real, globalRefill: real, perIdentityCapacity: real, perIdentityRefill: real,
                 maxIdentities: nat, now: real)
      ensures Valid() && fresh(globalBucket)
      ensures Model() == Limiter(Settings(perIdentityCapacity, perIdentityRefill, maxIdentities),
                                 NewBucket(globalCapacity, globalRefill, now), [])
    {
      this.globalBucket := new TokenBucket(globalCapacity, globalRefill, now);
      this.perIdentityCapacity := perIdentityCapacity;
      this.perIdentityRefill := perIdentityRefill;
      this.maxIdentities := maxIdentities;
      this.buckets := [];
    }

    static function IndexOf(buckets: seq<(Identity, TokenBucket)>, id: Identity): (i: nat)
      ensures i <= |buckets|
      ensures i < |buckets| ==> buckets[i].0 == id
      ensures forall j | 0 <= j < i :: buckets[j].0 != id
    {
      if buckets == [] || buckets[0].0 == id then 0 else 1 + IndexOf(buckets[1..], id)
    }

    lemma IndexIsFind(id: Identity)
      ensures IndexOf(buckets, id) == Find(Pool(), id)
    {
      forall k | 0 <= k < |buckets| ensures buckets[k].0 == Pool()[k].identity {}
    }

    // The bucket of an identity, moved or added to the recent end; a full pool loses its
    // least recently used entry.
    method GetOrCreateBucket(id: Identity, now: real) returns (bucket: TokenBucket)
      requires Valid()
      modifies `buckets
      ensures Valid() && bucket != globalBucket && fresh(Objects() - old(Objects()))
      ensures bucket in old(Objects()) || fresh(bucket)
      ensures var was, i := old(buckets), IndexOf(old(buckets), id);
              if i < |was|
              then bucket == was[i].1 && buckets == was[..i] + was[i + 1..] + [(id, bucket)]
              else && fresh(bucket) && bucket.Value() == NewBucket(perIdentityCapacity, perIdentityRefill, now)
                   && var grown := was + [(id, bucket)];
                      buckets == if |grown| > maxIdentities then grown[1..] else grown
    {
      var i := IndexOf(buckets, id);
      if i < |buckets| {
        bucket := buckets[i].1;
        assert buckets[i] in buckets;
        buckets := buckets[..i] + buckets[i + 1..] + [(id, bucket)];
      } else {
        bucket := new TokenBucket(perIdentityCapacity, perIdentityRefill, now);
        buckets := buckets + [(id, bucket)];
        if |buckets| > maxIdentities {
          buckets := buckets[1..];
        }
      }
    }

    method CheckGlobal(now: real) returns (ok: bool)
      requires Valid()
      modifies globalBucket
      ensures Valid()
      ensures (Model(), ok) == RateLimit.CheckGlobal(old(Model()), now)
    {
      ok := globalBucket.TryTake(now);
      assert Pool() == old(Pool());
    }

    method CheckIdentity(id: Identity, now: real) returns (ok: bool)
      requires Valid()
      modifies `buckets, Objects()
      ensures Valid() && fresh(Objects() - old(Objects()))
      ensures (Model(), ok) == RateLimit.CheckIdentity(old(Model()), id, now)
    {
      hide RateLimit.TryTake, NewBucket, IndexOf, Find;
      IndexIsFind(id);
      var i := IndexOf(buckets, id);
      ghost var was, pool := buckets, Pool();
      assert forall j | 0 <= j < |was| :: was[j] in was && was[j].1 in Objects();
      var bucket := GetOrCreateBucket(id, now);
      ok := bucket.TryTake(now);
      forall j | 0 <= j < |was| && j != i ensures pool[j] == Entry(was[j].0, was[j].1.Value()) {
        assert was[j].1 != bucket;
      }
      if i < |was| { PoolMoved(was, pool, i, bucket); } else { PoolGrown(was, pool, id, bucket); }
    }

    lemma PoolMoved(was: seq<(Identity, TokenBucket)>, pool: seq<Entry>, i: nat, bucket: TokenBucket)
      requires |pool| == |was| && i < |was|
      requires forall j | 0 <= j < |was| && j != i :: pool[j] == Entry(was[j].0, was[j].1.Value())
      requires buckets == was[..i] + was[i + 1..] + [(was[i].0, bucket)]
      ensures Pool() == pool[..i] + pool[i + 1..] + [Entry(was[i].0, bucket.Value())]
    {
    }

    lemma PoolGrown(was: seq<(Identity, TokenBucket)>, pool: seq<Entry>, id: Identity, bucket: TokenBucket)
      requires |pool| == |was| && forall j | 0 <= j < |was| :: pool[j] == Entry(was[j].0, was[j].1.Value())
      requires var grown := was + [(id, bucket)];
               buckets == if |grown| > maxIdentities then grown[1..] else grown
      ensures var grown := pool + [Entry(id, bucket.Value())];
              Pool() == if |grown| > maxIdentities then grown[1..] else grown
    {
    }

    method RefundGlobal()
      requires Valid()
      modifies globalBucket
      ensures Valid()
      ensures Model() == RateLimit.RefundGlobal(old(Model()))
    {
      globalBucket.Refund();
      assert Pool() == old(Pool());
    }

    method Allow(id: Identity, now: real) returns (ok: bool)
      requires Valid()
      modifies `buckets, globalBucket, Objects()
      ensures Valid() && fresh(Objects() - old(Objects()))
      ensures (Model(), ok) == RateLimit.Allow(old(Model()), id, now)
    {
      ok := CheckGlobal(now);
      if !ok { return false; }
      ok := CheckIdentity(id, now);
      if ok { return true; }
      RefundGlobal();
    }
  }

  // A limit of n a minute is a bucket of n that refills at this rate.
  function PerMinute(capacity: real): real {
    capacity / 60.0
  }

  // So over any window of whole minutes it grants n, plus n for each minute.
  lemma PerMinuteAllowance(n: real, from: real, minutes: nat)
    ensures Allowance(NewBucket(n, PerMinute(n), from), from, from + 60.0 * minutes as real)
         == n * (1 + minutes) as real
  {
    var m := minutes as real;
    assert (60.0 * m) * (n / 60.0) == n * m;
  }
}
