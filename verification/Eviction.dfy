/** When the idle sweep of internal/ratelimit/bucket.go can be noticed. */
module Eviction {
  import opened Contents
  import Statistics
  import opened TokenBucket

  /** A sweep takes some of the keys at a time, a shard's, so that calls may come
      between. */
  datatype Op = Call(key: string, at: real) | Sweep(keys: set<string>, at: real)

  /** The buckets after a run, with the sweeps carried out or ignored. */
  function After(cfg: Config, ops: seq<Op>, evicting: bool): Table {
    if ops == [] then map[]
    else
      var before := After(cfg, ops[..|ops| - 1], evicting);
      match ops[|ops| - 1]
      case Call(key, at) => before[key := Touch(cfg, Lookup(before, key), at).bucket]
      case Sweep(keys, at) => if evicting then SweptOf(cfg, before, keys, at) else before
  }

  function AnswerTo(cfg: Config, ops: seq<Op>, key: string, now: real, evicting: bool): Answer {
    Touch(cfg, Lookup(After(cfg, ops, evicting), key), now).answer
  }

  /** The clock never steps back, and now is no earlier than any of the run. */
  ghost predicate Ordered(ops: seq<Op>, now: real) {
    && (forall i, j | 0 <= i < j < |ops| :: ops[i].at <= ops[j].at)
    && (forall i | 0 <= i < |ops| :: ops[i].at <= now)
  }

  /** No call of any run is answered differently because of a sweep. */
  ghost predicate Transparent(cfg: Config) {
    forall ops: seq<Op>, key, now | Ordered(ops, now) ::
      AnswerTo(cfg, ops, key, now, true) == AnswerTo(cfg, ops, key, now, false)
  }

  /** No call of any run is admitted or refused because of a sweep. */
  ghost predicate AdmitsAlike(cfg: Config) {
    forall ops: seq<Op>, key, now | Ordered(ops, now) ::
      AnswerTo(cfg, ops, key, now, true).allowed == AnswerTo(cfg, ops, key, now, false).allowed
  }

  /** A bucket is full again by the time it may be swept. */
  predicate Refills(cfg: Config) {
    cfg.burst < 1.0 || cfg.perSecond * cfg.ttl >= cfg.burst
  }

  ghost predicate Positive(cfg: Config) {
    cfg.perSecond > 0.0 && cfg.burst > 0.0 && cfg.ttl > 0.0
  }

  // ---- enough time to refill makes sweeping invisible ----

  ghost predicate Sound(cfg: Config, b: Bucket, now: real) {
    && 0.0 <= b.tokens <= cfg.burst && b.tokens + cfg.perSecond * cfg.ttl >= cfg.burst
    && b.lastFill <= b.lastSeen <= now
  }

  /** The swept table against the unswept one. */
  ghost predicate Related(cfg: Config, swept: Table, full: Table, now: real) {
    && (forall k | k in swept :: k in full && swept[k] == full[k])
    && (forall k | k in full :: Sound(cfg, full[k], now))
    && (forall k | k in full && k !in swept :: full[k].lastSeen + cfg.ttl < now)
  }

  /** A swept key's next call is answered as if it had never been swept. */
  lemma TouchSwept(cfg: Config, b: Bucket, now: real)
    requires Positive(cfg) && Sound(cfg, b, now) && b.lastSeen + cfg.ttl < now
    ensures Touch(cfg, Some(b), now) == Touch(cfg, None, now)
  {
  }

  lemma TouchSound(cfg: Config, stored: Option<Bucket>, now: real)
    requires Positive(cfg) && Refills(cfg)
    requires stored.Some? ==> Sound(cfg, stored.value, now)
    ensures Sound(cfg, Touch(cfg, stored, now).bucket, now)
  {
    hide Touch, Refill;
    assert cfg.perSecond * cfg.ttl > 0.0;
    var b := if stored.Some? then stored.value else Bucket(cfg.burst, now, now);
    assert Touch(cfg, stored, now) == Touch(cfg, Some(b), now) by { Fresh(cfg, now); }
    RefillBound(cfg, b, now);
    RefillGrows(cfg, b, now);
    TouchSpends(cfg, b, now);
  }

  lemma Fresh(cfg: Config, now: real)
    ensures Touch(cfg, None, now) == Touch(cfg, Some(Bucket(cfg.burst, now, now)), now)
  {
  }

  lemma RefillGrows(cfg: Config, b: Bucket, now: real)
    requires cfg.perSecond > 0.0 && b.tokens <= cfg.burst
    ensures b.tokens <= Refill(cfg, b, now).tokens
  {
    if now > b.lastFill {
      assert (now - b.lastFill) * cfg.perSecond > 0.0;
    }
  }

  lemma {:induction false} StaysRelated(cfg: Config, ops: seq<Op>, now: real)
    requires Positive(cfg) && Refills(cfg) && Ordered(ops, now)
    ensures Related(cfg, After(cfg, ops, true), After(cfg, ops, false), now)
    decreases |ops|
  {
    hide Touch;
    if ops != [] {
      var front, op := ops[..|ops| - 1], ops[|ops| - 1];
      StaysRelated(cfg, front, op.at);
      var swept, full := After(cfg, front, true), After(cfg, front, false);
      if op.Call? {
        if op.key in full && op.key !in swept {
          TouchSwept(cfg, full[op.key], op.at);
        }
        TouchSound(cfg, Lookup(full, op.key), op.at);
        TouchSeen(cfg, Lookup(full, op.key), op.at);
      }
    }
  }

  lemma TouchSeen(cfg: Config, stored: Option<Bucket>, now: real)
    ensures Touch(cfg, stored, now).bucket.lastSeen == now
  {
  }

  lemma RefillsIsTransparent(cfg: Config)
    requires Positive(cfg) && Refills(cfg)
    ensures Transparent(cfg)
  {
    hide Touch;
    forall ops: seq<Op>, key, now | Ordered(ops, now)
      ensures AnswerTo(cfg, ops, key, now, true) == AnswerTo(cfg, ops, key, now, false)
    {
      StaysRelated(cfg, ops, now);
      var swept, full := After(cfg, ops, true), After(cfg, ops, false);
      if key in full && key !in swept {
        TouchSwept(cfg, full[key], now);
      }
    }
  }

  // ---- otherwise some run shows it ----

  const KEY := ""

  /** The tokens a call at now would find. */
  function Available(cfg: Config, t: Table, now: real): real {
    Refill(cfg, if KEY in t then t[KEY] else Bucket(cfg.burst, now, now), now).tokens
  }

  function Calls(n: nat, at: real): (ops: seq<Op>)
    ensures |ops| == n && forall i | 0 <= i < n :: ops[i] == Call(KEY, at)
  {
    if n == 0 then [] else Calls(n - 1, at) + [Call(KEY, at)]
  }

  lemma TouchTakes(cfg: Config, t: Table, now: real)
    requires cfg.perSecond > 0.0
    ensures var touched, x := Touch(cfg, Lookup(t, KEY), now), Available(cfg, t, now);
            && touched.answer == (if x >= 1.0 then Answer(true, 0.0) else Answer(false, Statistics.Round((1.0 - x) / cfg.perSecond) as real))
            && touched.bucket.tokens == (if x >= 1.0 then x - 1.0 else x)
            && Available(cfg, t[KEY := touched.bucket], now) == touched.bucket.tokens
  {
  }

  /** Calls at one instant take the available tokens one by one. */
  lemma {:induction false} CallsTake(cfg: Config, ops: seq<Op>, n: nat, now: real, evicting: bool)
    requires cfg.perSecond > 0.0
    requires n as real <= Available(cfg, After(cfg, ops, evicting), now)
    ensures Available(cfg, After(cfg, ops + Calls(n, now), evicting), now)
         == Available(cfg, After(cfg, ops, evicting), now) - n as real
    decreases n
  {
    hide Touch, Refill, Available;
    if n == 0 {
      assert ops + Calls(n, now) == ops;
    } else {
      CallsTake(cfg, ops, n - 1, now, evicting);
      var whole, before := ops + Calls(n, now), ops + Calls(n - 1, now);
      assert whole[..|whole| - 1] == before && whole[|whole| - 1] == Call(KEY, now);
      TouchTakes(cfg, After(cfg, before, evicting), now);
    }
  }

  lemma {:induction false} CallsOnly(cfg: Config, n: nat, at: real, evicting: bool)
    requires n > 0
    ensures var t := After(cfg, Calls(n, at), evicting);
            t.Keys == {KEY} && t[KEY].lastFill == at && t[KEY].lastSeen == at
    decreases n
  {
    var ops := Calls(n, at);
    assert ops[..|ops| - 1] == Calls(n - 1, at);
    if n > 1 {
      CallsOnly(cfg, n - 1, at, evicting);
    }
  }

  /** Draining a fresh key to no tokens at all: every whole token at once, and
      one more as soon as it has been earned. */
  lemma Drained(cfg: Config) returns (ops: seq<Op>, t: real)
    requires Positive(cfg) && cfg.burst >= 1.0
    ensures t > 0.0 && Ordered(ops, t)
    ensures forall evicting :: After(cfg, ops, evicting) == map[KEY := Bucket(0.0, t, t)]
  {
    var n := cfg.burst.Floor;
    var left := cfg.burst - n as real;
    t := (1.0 - left) / cfg.perSecond;
    TimeToEarn(cfg.perSecond, 1.0 - left, t);
    ops := Calls(n, 0.0) + [Call(KEY, t)];
    forall evicting ensures After(cfg, ops, evicting) == map[KEY := Bucket(0.0, t, t)] {
      DrainedEither(cfg, n, left, t, evicting);
    }
  }

  lemma DrainedEither(cfg: Config, n: nat, left: real, t: real, evicting: bool)
    requires Positive(cfg) && n > 0 && left == cfg.burst - n as real >= 0.0 && cfg.burst >= 1.0
    requires t > 0.0 && t * cfg.perSecond == 1.0 - left
    ensures After(cfg, Calls(n, 0.0) + [Call(KEY, t)], evicting) == map[KEY := Bucket(0.0, t, t)]
  {
    hide Touch, Calls, Statistics.Round, Need, Refill, Available;
    var first := Calls(n, 0.0);
    SpentAtOnce(cfg, n, evicting);
    var before := After(cfg, first, evicting);
    assert (first + [Call(KEY, t)])[..n] == first;
    LastToken(cfg, before, left, t);
  }

  lemma SpentAtOnce(cfg: Config, n: nat, evicting: bool)
    requires Positive(cfg) && n > 0 && cfg.burst - n as real >= 0.0
    ensures After(cfg, Calls(n, 0.0), evicting) == map[KEY := Bucket(cfg.burst - n as real, 0.0, 0.0)]
  {
    hide Touch, Calls;
    assert [] + Calls(n, 0.0) == Calls(n, 0.0);
    CallsTake(cfg, [], n, 0.0, evicting);
    CallsOnly(cfg, n, 0.0, evicting);
  }

  lemma LastToken(cfg: Config, before: Table, left: real, t: real)
    requires Positive(cfg) && cfg.burst >= 1.0 && before == map[KEY := Bucket(left, 0.0, 0.0)]
    requires t > 0.0 && t * cfg.perSecond == 1.0 - left
    ensures before[KEY := Touch(cfg, Lookup(before, KEY), t).bucket] == map[KEY := Bucket(0.0, t, t)]
  {
    hide Statistics.Round, Need;
    assert Refill(cfg, before[KEY], t) == Bucket(1.0, t, 0.0);
  }

  lemma TimeToEarn(k: real, need: real, t: real)
    requires k > 0.0 && need > 0.0 && t == need / k
    ensures t > 0.0 && t * k == need
  {
  }

  /** A little after the drained bucket may be swept it still holds fewer tokens
      than a fresh one. */
  lemma SweptTooSoon(cfg: Config, t: real) returns (later: real, held: real)
    requires Positive(cfg) && cfg.perSecond * cfg.ttl < cfg.burst
    ensures t < later - cfg.ttl
    ensures 0.0 < held < cfg.burst && (later - t) * cfg.perSecond == held
  {
    held := (cfg.perSecond * cfg.ttl + cfg.burst) / 2.0;
    assert cfg.perSecond * cfg.ttl > 0.0;
    var elapsed := held / cfg.perSecond;
    TimeToEarn(cfg.perSecond, held, elapsed);
    later := t + elapsed;
    Longer(cfg.perSecond, cfg.ttl, elapsed);
  }

  lemma Longer(k: real, a: real, b: real)
    requires k > 0.0 && a * k < b * k
    ensures a < b
  {
    assert (b - a) * k > 0.0;
  }

  lemma SweepFinds(cfg: Config, ops: seq<Op>, t: real, later: real, held: real)
    requires forall evicting :: After(cfg, ops, evicting) == map[KEY := Bucket(0.0, t, t)]
    requires t < later && t < later - cfg.ttl && held < cfg.burst && (later - t) * cfg.perSecond == held
    ensures Available(cfg, After(cfg, ops + [Sweep({KEY}, later)], true), later) == cfg.burst
    ensures Available(cfg, After(cfg, ops + [Sweep({KEY}, later)], false), later) == held
  {
  }

  lemma Visible(cfg: Config)
    requires Positive(cfg) && !Refills(cfg)
    ensures !Transparent(cfg) && !AdmitsAlike(cfg)
  {
    hide After, Available, AnswerTo;
    var drained, t := Drained(cfg);
    var later, held := SweptTooSoon(cfg, t);
    SweepFinds(cfg, drained, t, later, held);
    Distinguish(cfg, drained + [Sweep({KEY}, later)], later, held);
  }

  ghost predicate Filled(t: Table, now: real) { forall k | k in t :: t[k].lastFill <= now }

  lemma {:induction false} FilledBy(cfg: Config, ops: seq<Op>, now: real, evicting: bool)
    requires Ordered(ops, now)
    ensures Filled(After(cfg, ops, evicting), now)
    decreases |ops|
  {
    hide Touch;
    if ops != [] {
      var front, op := ops[..|ops| - 1], ops[|ops| - 1];
      var before := After(cfg, front, evicting);
      FilledBy(cfg, front, op.at, evicting);
      if op.Call? { TouchFilled(cfg, Lookup(before, op.key), op.at); }
    }
  }

  lemma TouchFilled(cfg: Config, stored: Option<Bucket>, now: real)
    requires stored.Some? ==> stored.value.lastFill <= now
    ensures Touch(cfg, stored, now).bucket.lastFill <= now
  {
    hide Statistics.Round;
  }

  lemma EarnedBy(cfg: Config, t: Table, now: real, at: real, x: real)
    requires cfg.perSecond > 0.0 && Available(cfg, t, now) == x && now <= at
    requires KEY in t ==> t[KEY].lastFill <= now
    ensures KEY !in t ==> x == cfg.burst
    ensures at == now ==> Available(cfg, t, at) == x
    ensures at > now ==> Available(cfg, t, at) == if KEY in t then Min(cfg.burst, x + (at - now) * cfg.perSecond) else cfg.burst
  {
    if KEY in t && at > now {
      EarnedInTwo(cfg.perSecond, at - now, now - t[KEY].lastFill, at - t[KEY].lastFill);
    }
  }

  lemma TimeLeft(k: real, need: real)
    requires k > 0.0
    ensures need > 0.0 ==> need / k > 0.0
    ensures need / k * k == need
  {
  }

  lemma EarnedInTwo(k: real, a: real, b: real, both: real)
    requires k > 0.0 && a > 0.0 && b >= 0.0 && both == a + b
    ensures both * k == b * k + a * k && a * k > 0.0 && b * k >= 0.0
  {
  }

  /** Different token counts at one instant are told apart by who is allowed:
      after the whole tokens are spent, the next one is earned at different times. */
  lemma Distinguish(cfg: Config, ops: seq<Op>, now: real, held: real)
    requires Positive(cfg) && cfg.burst >= 1.0 && Ordered(ops, now)
    requires Available(cfg, After(cfg, ops, true), now) == cfg.burst
    requires Available(cfg, After(cfg, ops, false), now) == held && 0.0 < held < cfg.burst
    ensures exists run: seq<Op>, at :: Ordered(run, at)
              && AnswerTo(cfg, run, KEY, at, true).allowed && !AnswerTo(cfg, run, KEY, at, false).allowed
  {
    hide Touch, Refill, Available, After;
    var n := held.Floor;
    CallsTake(cfg, ops, n, now, true);
    CallsTake(cfg, ops, n, now, false);
    var all := ops + Calls(n, now);
    assert Ordered(all, now);
    var swept, full := After(cfg, all, true), After(cfg, all, false);
    var more, less := cfg.burst - n as real, held - n as real;
    var at := if more >= 1.0 then now else now + (1.0 - more) / cfg.perSecond;
    FilledBy(cfg, all, now, true);
    FilledBy(cfg, all, now, false);
    TimeLeft(cfg.perSecond, 1.0 - more);
    assert more < 1.0 ==> at > now && (at - now) * cfg.perSecond == 1.0 - more;
    EarnedBy(cfg, swept, now, at, more);
    EarnedBy(cfg, full, now, at, less);
    TouchTakes(cfg, swept, at);
    TouchTakes(cfg, full, at);
    assert AnswerTo(cfg, all, KEY, at, true).allowed && !AnswerTo(cfg, all, KEY, at, false).allowed;
  }

  /** The idle sweep is unobservable, in the answers and in who is admitted, exactly
      when a bucket has had time to fill before it may be swept (or can never hold a
      whole token). */
  lemma EvictionUnobservable(cfg: Config)
    requires Positive(cfg)
    ensures Transparent(cfg) <==> cfg.burst < 1.0 || cfg.perSecond * cfg.ttl >= cfg.burst
    ensures AdmitsAlike(cfg) <==> cfg.burst < 1.0 || cfg.perSecond * cfg.ttl >= cfg.burst
  {
    hide AnswerTo;
    if Refills(cfg) {
      RefillsIsTransparent(cfg);
    } else {
      Visible(cfg);
    }
  }

  /** A shard's turn that uses the clock the sweep read when it began is one of the
      sweeps above: it takes some of what is stale by now. */
  lemma EarlierClock(cfg: Config, t: Table, keys: set<string>, began: real, now: real)
    requires began <= now
    ensures var stale := set k | k in keys && k in t && Stale(cfg, t[k], began);
            SweptOf(cfg, t, keys, began) == SweptOf(cfg, t, stale, now)
  {
  }
}
