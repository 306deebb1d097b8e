/** The origin-side token buckets (internal/ratelimit/bucket.go). Times are
    seconds; the hash that picks a shard is any function. */
module TokenBucket {
  import opened Contents
  import Statistics

  datatype Config = Config(perSecond: real, burst: real, ttl: real)

  datatype Bucket = Bucket(tokens: real, lastFill: real, lastSeen: real)

  /** wait is the duration a refusal comes with; see Header for what is sent. */
  datatype Answer = Answer(allowed: bool, wait: real)

  datatype Touched = Touched(bucket: Bucket, answer: Answer)

  function Min(a: real, b: real): real { if a < b then a else b }

  /** Elapsed time refills up to the burst; a clock that stepped back does not. */
  function Refill(cfg: Config, b: Bucket, now: real): Bucket {
    if now - b.lastFill > 0.0
    then b.(tokens := Min(cfg.burst, b.tokens + (now - b.lastFill) * cfg.perSecond), lastFill := now)
    else b
  }

  /** How long until a bucket short of a token has one. */
  function Need(cfg: Config, b: Bucket): real
    requires cfg.perSecond > 0.0
  {
    (1.0 - b.tokens) / cfg.perSecond
  }

  /** One call on a bucket, or on a key that has none. The wait until a token is
      there is told in whole seconds, the nearest. */
  function Touch(cfg: Config, b: Option<Bucket>, now: real): Touched {
    var b := if b.Some? then b.value else Bucket(cfg.burst, now, now);
    var b := Refill(cfg, b, now).(lastSeen := now);
    if b.tokens >= 1.0 then Touched(b.(tokens := b.tokens - 1.0), Answer(true, 0.0))
    else if cfg.perSecond <= 0.0 then Touched(b, Answer(false, cfg.ttl))
    else Touched(b, Answer(false, Statistics.Round(Need(cfg, b)) as real))
  }

  type Table = map<string, Bucket>

  function Lookup(t: Table, key: string): Option<Bucket> {
    if key in t then Some(t[key]) else None
  }

  function Stale(cfg: Config, b: Bucket, now: real): bool { b.lastSeen < now - cfg.ttl }

  function Swept(cfg: Config, t: Table, now: real): Table {
    map k | k in t && !Stale(cfg, t[k], now) :: t[k]
  }

  /** Sweeping some of the keys only, as one shard's turn does. */
  function SweptOf(cfg: Config, t: Table, keys: set<string>, now: real): Table {
    map k | k in t && !(k in keys && Stale(cfg, t[k], now)) :: t[k]
  }

  // ---- the limiter ----

  class Limiter {
    const cfg: Config
    const hash: string -> nat
    var shards: seq<Table>

    constructor (cfg: Config, hash: string -> nat, shardCount: nat)
      requires shardCount >= 1
      ensures Valid() && Contents() == map[]
      ensures this.cfg == cfg && |shards| == shardCount
    {
      this.cfg, this.hash := cfg, hash;
      shards := seq(shardCount, i => map[]);
    }

    ghost predicate Valid()
      reads this
    {
      |shards| >= 1 && forall i, k | 0 <= i < |shards| && k in shards[i] :: i == hash(k) % |shards|
    }

    function ShardFor(key: string): (i: nat)
      requires |shards| >= 1
      reads this
      ensures i < |shards|
    {
      hash(key) % |shards|
    }

    ghost function Keys(): set<string>
      reads this
    {
      set i, k | 0 <= i < |shards| && k in shards[i] :: k
    }

    /** What the shards hold between them. */
    ghost function Contents(): Table
      requires Valid()
      reads this
    {
      map k | k in Keys() :: shards[ShardFor(k)][k]
    }

    lemma LookupInShard(key: string)
      requires Valid()
      ensures Lookup(shards[ShardFor(key)], key) == Lookup(Contents(), key)
    {
    }

    /** Sharding is unobservable: one call acts on the union of the shards. */
    method Allow(key: string, now: real) returns (a: Answer)
      requires Valid()
      modifies this
      ensures Valid() && |shards| == old(|shards|)
      ensures var touched := Touch(cfg, Lookup(old(Contents()), key), now);
              a == touched.answer && Contents() == old(Contents())[key := touched.bucket]
    {
      hide Touch;
      LookupInShard(key);
      var at := ShardFor(key);
      var touched := TakeToken(cfg, Lookup(shards[at], key), now);
      StoreBucket(at, key, touched.bucket);
      a := touched.answer;
    }

    method StoreBucket(at: nat, key: string, b: Bucket)
      requires Valid() && at == ShardFor(key)
      modifies this
      ensures Valid() && |shards| == old(|shards|) && Contents() == old(Contents())[key := b]
    {
      ghost var before, was := Contents(), shards;
      shards := shards[at := shards[at][key := b]];
      forall k ensures k in Keys() <==> k in before || k == key {
        if k in before {
          assert k in was[hash(k) % |was|];
          assert k in shards[hash(k) % |was|];
        }
        assert key in shards[at];
      }
    }

    /** One shard's turn of the sweep, under its own lock. Calls may come between
        the turns; the clock is the one the sweep read when it began. */
    method EvictShard(i: nat, now: real)
      requires Valid() && i < |shards|
      modifies this
      ensures Valid() && |shards| == old(|shards|)
      ensures shards == old(shards)[i := Swept(cfg, old(shards)[i], now)]
      ensures Contents() == SweptOf(cfg, old(Contents()), old(shards)[i].Keys, now)
    {
      ghost var before, was := Contents(), shards;
      var kept := Sweep(cfg, shards[i], now);
      shards := shards[i := kept];
      forall k ensures k in Keys() <==> k in before && !(k in was[i] && Stale(cfg, before[k], now)) {
        if k in before && !(k in was[i] && Stale(cfg, before[k], now)) {
          assert k in was[hash(k) % |was|];
          assert k in shards[hash(k) % |was|];
        }
      }
    }

    /** The whole sweep when nothing comes between. */
    method Evict(now: real)
      requires Valid()
      modifies this
      ensures Valid() && |shards| == old(|shards|) && Contents() == Swept(cfg, old(Contents()), now)
    {
      ghost var before := shards;
      for i := 0 to |shards|
        invariant Valid() && |shards| == |before|
        invariant forall j | 0 <= j < |shards| :: shards[j] == if j < i then Swept(cfg, before[j], now) else before[j]
      {
        EvictShard(i, now);
      }
      forall k ensures k in Keys() <==> k in old(Contents()) && !Stale(cfg, old(Contents())[k], now) {
        if k in old(Contents()) && !Stale(cfg, old(Contents())[k], now) {
          assert k in before[hash(k) % |before|];
          assert k in shards[hash(k) % |before|];
        }
      }
    }

    ghost function KeysBelow(i: nat): set<string>
      requires i <= |shards|
      reads this
    {
      if i == 0 then {} else KeysBelow(i - 1) + shards[i - 1].Keys
    }

    lemma {:induction false} KeysBelowHashed(i: nat)
      requires Valid() && i <= |shards|
      ensures forall k :: k in KeysBelow(i) <==> ShardFor(k) < i && k in shards[ShardFor(k)]
    {
      if i > 0 { KeysBelowHashed(i - 1); }
    }

    lemma CountStep(i: nat)
      requires Valid() && i < |shards|
      ensures |KeysBelow(i + 1)| == |KeysBelow(i)| + |shards[i].Keys|
    {
      KeysBelowHashed(i);
      DisjointSize(KeysBelow(i), shards[i].Keys);
    }

    lemma CountAll()
      requires Valid()
      ensures KeysBelow(|shards|) == Contents().Keys
    {
      KeysBelowHashed(|shards|);
    }

    /** The number of live buckets: no key is held twice. */
    method Len() returns (n: nat)
      requires Valid()
      ensures n == |Contents().Keys|
    {
      n := 0;
      for i := 0 to |shards|
        invariant n == |KeysBelow(i)|
      {
        CountStep(i);
        n := n + |shards[i].Keys|;
      }
      CountAll();
    }
  }

  lemma DisjointSize(a: set<string>, b: set<string>)
    requires a !! b
    ensures |a + b| == |a| + |b|
  {
  }

  /** Refill, mark as seen, and spend a token if there is one. */
  method TakeToken(cfg: Config, stored: Option<Bucket>, now: real) returns (out: Touched)
    ensures out == Touch(cfg, stored, now)
  {
    hide Statistics.Round;
    var b := if stored.Some? then stored.value else Bucket(cfg.burst, now, now);
    var elapsed := now - b.lastFill;
    if elapsed > 0.0 {
      b := b.(tokens := Min(cfg.burst, b.tokens + elapsed * cfg.perSecond), lastFill := now);
    }
    b := b.(lastSeen := now);
    if b.tokens >= 1.0 {
      b := b.(tokens := b.tokens - 1.0);
      return Touched(b, Answer(true, 0.0));
    }
    if cfg.perSecond <= 0.0 {
      return Touched(b, Answer(false, cfg.ttl));
    }
    var need := 1.0 - b.tokens;
    var wait := need / cfg.perSecond;
    assert wait == Need(cfg, b);
    return Touched(b, Answer(false, Statistics.Round(wait) as real));
  }

  /** Ranging over one shard and deleting what has gone stale. */
  method Sweep(cfg: Config, t: Table, now: real) returns (kept: Table)
    ensures kept == Swept(cfg, t, now)
  {
    kept := t;
    var rest := t.Keys;
    while rest != {}
      invariant rest <= t.Keys
      invariant forall k :: k in kept <==> k in t && (k in rest || !Stale(cfg, t[k], now))
      invariant forall k | k in kept :: kept[k] == t[k]
      decreases rest
    {
      var k :| k in rest;
      if t[k].lastSeen < now - cfg.ttl {
        kept := kept - {k};
      }
      rest := rest - {k};
    }
  }

  // ---- one bucket, any clocks ----

  function Latest(since: real, clocks: seq<real>): real {
    if clocks == [] then since
    else
      var t := Latest(since, clocks[..|clocks| - 1]);
      if clocks[|clocks| - 1] > t then clocks[|clocks| - 1] else t
  }

  function BucketAfter(cfg: Config, b: Bucket, clocks: seq<real>): Bucket {
    if clocks == [] then b
    else Touch(cfg, Some(BucketAfter(cfg, b, clocks[..|clocks| - 1])), clocks[|clocks| - 1]).bucket
  }

  function AllowedCount(cfg: Config, b: Bucket, clocks: seq<real>): nat {
    if clocks == [] then 0
    else
      var front, last := clocks[..|clocks| - 1], clocks[|clocks| - 1];
      AllowedCount(cfg, b, front) + if Touch(cfg, Some(BucketAfter(cfg, b, front)), last).answer.allowed then 1 else 0
  }

  /** Whatever order the clock readings come in, the tokens stay in [0, burst]
      and the calls allowed are paid for by the tokens there were and those the
      clock has earned since. */
  lemma {:induction false} SpendBound(cfg: Config, b: Bucket, clocks: seq<real>)
    requires cfg.perSecond >= 0.0 && 0.0 <= b.tokens <= cfg.burst
    ensures var after := BucketAfter(cfg, b, clocks);
            && 0.0 <= after.tokens <= cfg.burst
            && after.lastFill == Latest(b.lastFill, clocks) >= b.lastFill
            && AllowedCount(cfg, b, clocks) as real + after.tokens
               <= b.tokens + cfg.perSecond * (Latest(b.lastFill, clocks) - b.lastFill)
    ensures AllowedCount(cfg, b, clocks) as real
            <= b.tokens + cfg.perSecond * (Latest(b.lastFill, clocks) - b.lastFill)
    decreases |clocks|
  {
    hide Touch, Refill;
    if clocks != [] {
      var front, last := clocks[..|clocks| - 1], clocks[|clocks| - 1];
      SpendBound(cfg, b, front);
      var before := BucketAfter(cfg, b, front);
      RefillBound(cfg, before, last);
      TouchSpends(cfg, before, last);
      Distribute(cfg.perSecond, Refill(cfg, before, last).lastFill, before.lastFill, b.lastFill);
    }
  }

  /** A call spends one of the refilled tokens, or none. */
  lemma TouchSpends(cfg: Config, b: Bucket, now: real)
    ensures var t, f := Touch(cfg, Some(b), now), Refill(cfg, b, now);
            && (t.answer.allowed <==> f.tokens >= 1.0)
            && t.bucket.tokens == f.tokens - (if t.answer.allowed then 1.0 else 0.0)
            && t.bucket.lastFill == f.lastFill && t.bucket.lastSeen == now
            && (!t.answer.allowed && cfg.perSecond > 0.0 ==> t.answer.wait == Statistics.Round(Need(cfg, t.bucket)) as real)
  {
  }

  lemma RefillBound(cfg: Config, b: Bucket, now: real)
    requires cfg.perSecond >= 0.0 && 0.0 <= b.tokens <= cfg.burst
    ensures var f := Refill(cfg, b, now);
            && 0.0 <= f.tokens <= cfg.burst && f.lastFill == (if now > b.lastFill then now else b.lastFill)
            && f.tokens <= b.tokens + cfg.perSecond * (f.lastFill - b.lastFill)
  {
    if now > b.lastFill {
      assert (now - b.lastFill) * cfg.perSecond >= 0.0;
    }
  }

  lemma Distribute(k: real, a: real, b: real, c: real)
    ensures k * (a - b) + k * (b - c) == k * (a - c)
  {
  }

  /** The wait before rounding is exactly the shortest after which the next call
      is allowed. */
  lemma WaitIsExact(cfg: Config, b: Bucket, now: real, later: real)
    requires cfg.perSecond > 0.0 && cfg.burst >= 1.0
    requires b.lastFill <= now <= later
    requires !Touch(cfg, Some(b), now).answer.allowed
    ensures var refused := Touch(cfg, Some(b), now).bucket;
            && Need(cfg, refused) > 0.0
            && (Touch(cfg, Some(refused), later).answer.allowed <==> later >= now + Need(cfg, refused))
  {
    var refused := Touch(cfg, Some(b), now).bucket;
    Quotient(1.0 - refused.tokens, cfg.perSecond, Need(cfg, refused), later - now);
  }

  /** The duration a refusal comes with is at most half a second off. Waiting for
      it is enough if and only if rounding did not cut the exact wait, that is unless
      the exact wait is less than half a second over a whole one; half a second more
      always is. */
  lemma ToldWaitSuffices(cfg: Config, b: Bucket, now: real)
    requires cfg.perSecond > 0.0 && cfg.burst >= 1.0 && b.lastFill <= now
    requires !Touch(cfg, Some(b), now).answer.allowed
    ensures var refused := Touch(cfg, Some(b), now);
            var told, exact := refused.answer.wait, Need(cfg, refused.bucket);
            && 0.0 <= told && exact - 0.5 <= told <= exact + 0.5
            && (Touch(cfg, Some(refused.bucket), now + told).answer.allowed
                <==> exact == exact.Floor as real || exact - exact.Floor as real >= 0.5)
            && Touch(cfg, Some(refused.bucket), now + told + 0.5).answer.allowed
  {
    var refused := Touch(cfg, Some(b), now);
    var exact := Need(cfg, refused.bucket);
    WaitIsExact(cfg, b, now, now);
    RoundedWait(exact);
    var told := refused.answer.wait;
    assert told == Statistics.Round(exact) as real;
    WaitIsExact(cfg, b, now, now + told);
    WaitIsExact(cfg, b, now, now + told + 0.5);
  }

  /** The seconds both callers put in the Retry-After header: at least one. */
  function Header(wait: real): int { if wait.Floor < 1 then 1 else wait.Floor }

  /** A client that waits for as long as the header says is allowed if and only if
      the exact wait is at most a second, or whole, or at least half a second over a
      whole one. */
  lemma HeaderSuffices(cfg: Config, b: Bucket, now: real)
    requires cfg.perSecond > 0.0 && cfg.burst >= 1.0 && b.lastFill <= now
    requires !Touch(cfg, Some(b), now).answer.allowed
    ensures var refused := Touch(cfg, Some(b), now);
            var exact := Need(cfg, refused.bucket);
            Touch(cfg, Some(refused.bucket), now + Header(refused.answer.wait) as real).answer.allowed
            <==> exact <= 1.0 || exact == exact.Floor as real || exact - exact.Floor as real >= 0.5
  {
    hide Touch;
    var refused := Touch(cfg, Some(b), now);
    var exact := Need(cfg, refused.bucket);
    WaitIsExact(cfg, b, now, now);
    TouchSpends(cfg, b, now);
    RoundedWait(exact);
    SentWait(exact);
    WaitIsExact(cfg, b, now, now + Header(refused.answer.wait) as real);
  }

  lemma SentWait(exact: real)
    requires exact > 0.0
    ensures var sent := Header(Statistics.Round(exact) as real) as real;
            sent >= exact <==> exact <= 1.0 || exact == exact.Floor as real || exact - exact.Floor as real >= 0.5
  {
    RoundedWait(exact);
  }

  /** Whatever state a key's bucket is in when it is refused, waiting for as long as
      the header says is enough. */
  ghost predicate HeaderHonest(cfg: Config) {
    forall b: Bucket, now | 0.0 <= b.tokens <= cfg.burst && b.lastFill <= now ::
      var refused := Touch(cfg, Some(b), now);
      refused.answer.allowed
      || Touch(cfg, Some(refused.bucket), now + Header(refused.answer.wait) as real).answer.allowed
  }

  /** A key short of part of a token at a slow refill, for which it is not. */
  function Slow(cfg: Config): Bucket
    requires cfg.perSecond > 0.0
  {
    Bucket(if 1.25 * cfg.perSecond <= 1.0 then 1.0 - 1.25 * cfg.perSecond else 0.0, 0.0, 0.0)
  }

  lemma SlowFallsShort(cfg: Config)
    requires 0.0 < cfg.perSecond < 1.0 && cfg.burst >= 1.0
    ensures var b := Slow(cfg); var refused := Touch(cfg, Some(b), 0.0);
            && 0.0 <= b.tokens < 1.0 && !refused.answer.allowed && Header(refused.answer.wait) == 1
            && !Touch(cfg, Some(refused.bucket), 1.0).answer.allowed
  {
    hide Statistics.Round;
    var b := Slow(cfg);
    TouchSpends(cfg, b, 0.0);
    var exact := Need(cfg, b);
    SlowNeed(cfg.perSecond, 1.0 - b.tokens, exact);
    RoundedDown(exact);
    WaitIsExact(cfg, b, 0.0, 1.0);
  }

  lemma SlowNeed(k: real, need: real, exact: real)
    requires 0.0 < k < 1.0 && exact == need / k && need == if 1.25 * k <= 1.0 then 1.25 * k else 1.0
    ensures 1.0 < exact <= 1.25
  {
    Quotient(need, k, exact, 1.0);
    Quotient(need, k, exact, 1.25);
  }

  lemma RoundedDown(exact: real)
    requires 1.0 < exact <= 1.25
    ensures Header(Statistics.Round(exact) as real) == 1
  {
  }

  /** The header is always honest if and only if at least a token a second is
      earned; a slower bucket has refusals it cuts short. */
  lemma HeaderHonestExactly(cfg: Config)
    requires cfg.perSecond > 0.0 && cfg.burst >= 1.0
    ensures HeaderHonest(cfg) <==> cfg.perSecond >= 1.0
  {
    hide Touch;
    if cfg.perSecond < 1.0 {
      SlowFallsShort(cfg);
    } else {
      forall b: Bucket, now | 0.0 <= b.tokens <= cfg.burst && b.lastFill <= now
        ensures var refused := Touch(cfg, Some(b), now);
                refused.answer.allowed
                || Touch(cfg, Some(refused.bucket), now + Header(refused.answer.wait) as real).answer.allowed
      {
        var refused := Touch(cfg, Some(b), now);
        if !refused.answer.allowed {
          TouchSpends(cfg, b, now);
          RefillBound(cfg, b, now);
          FastNeed(cfg.perSecond, 1.0 - refused.bucket.tokens, Need(cfg, refused.bucket));
          HeaderSuffices(cfg, b, now);
        }
      }
    }
  }

  lemma FastNeed(k: real, need: real, exact: real)
    requires k >= 1.0 && exact == need / k && 0.0 < need <= 1.0
    ensures exact <= 1.0
  {
    Quotient(need, k, exact, 1.0);
  }

  lemma RoundedWait(exact: real)
    requires exact > 0.0
    ensures var told := Statistics.Round(exact) as real;
            && 0.0 <= told && exact - 0.5 <= told <= exact + 0.5
            && (told >= exact <==> exact == exact.Floor as real || exact - exact.Floor as real >= 0.5)
  {
    var whole := exact.Floor;
    var told := Statistics.Round(exact);
    if exact - whole as real >= 0.5 {
      assert told == whole + 1;
    } else {
      assert told == whole;
    }
  }

  /** With no refill configured a refusal reports the TTL, and the key is refused
      from then on, whatever the clock does. */
  lemma {:induction false} NoRefillNoToken(cfg: Config, b: Bucket, now: real, clocks: seq<real>, later: real)
    requires cfg.perSecond <= 0.0 && !Touch(cfg, Some(b), now).answer.allowed
    ensures var refused := Touch(cfg, Some(b), now);
            && refused.answer.wait == cfg.ttl && refused.bucket.tokens < 1.0
            && BucketAfter(cfg, refused.bucket, clocks).tokens < 1.0
            && !Touch(cfg, Some(BucketAfter(cfg, refused.bucket, clocks)), later).answer.allowed
    decreases |clocks|
  {
    if clocks == [] {
      EarnsNothing(cfg, Touch(cfg, Some(b), now).bucket, later);
    } else {
      var front, last := clocks[..|clocks| - 1], clocks[|clocks| - 1];
      NoRefillNoToken(cfg, b, now, front, last);
      EarnsNothing(cfg, BucketAfter(cfg, Touch(cfg, Some(b), now).bucket, front), last);
      EarnsNothing(cfg, BucketAfter(cfg, Touch(cfg, Some(b), now).bucket, clocks), later);
    }
  }

  lemma EarnsNothing(cfg: Config, b: Bucket, now: real)
    requires cfg.perSecond <= 0.0 && b.tokens < 1.0
    ensures var t := Touch(cfg, Some(b), now); !t.answer.allowed && t.bucket.tokens < 1.0
  {
    if now - b.lastFill > 0.0 {
      assert (now - b.lastFill) * cfg.perSecond <= 0.0;
    }
  }

  lemma Quotient(need: real, k: real, wait: real, elapsed: real)
    requires k > 0.0 && need > 0.0 && wait == need / k
    ensures wait > 0.0 && (elapsed * k >= need <==> elapsed >= wait)
  {
    assert wait * k == need;
    if elapsed >= wait {
      assert (elapsed - wait) * k >= 0.0;
    } else {
      assert (wait - elapsed) * k > 0.0;
    }
  }

  /** A key's first call finds a full bucket; a later one is allowed exactly when what
      was left and what was earned since make a token, the burst permitting, and a call
      refused costs nothing. */
  lemma AllowedExactly(cfg: Config, b: Bucket, now: real)
    requires b.lastFill <= now && b.tokens <= cfg.burst
    ensures var first := Touch(cfg, None, now);
            first.answer.allowed == (cfg.burst >= 1.0)
            && first.bucket.tokens == cfg.burst - (if first.answer.allowed then 1.0 else 0.0)
    ensures var t, earned := Touch(cfg, Some(b), now), b.tokens + cfg.perSecond * (now - b.lastFill);
            && t.answer.allowed == (cfg.burst >= 1.0 && earned >= 1.0)
            && t.bucket.tokens == (if earned < cfg.burst then earned else cfg.burst) - (if t.answer.allowed then 1.0 else 0.0)
            && t.bucket.lastFill == now == t.bucket.lastSeen
  {
  }
}
