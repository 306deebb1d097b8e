/** The distinct-value counter of internal/ratelimit/enumerate.go: how many
    areas and sensors each client key may touch in one fixed window. Sensor ids
    arrive already formatted, so both dimensions count strings. */
module Breadth {
  import opened Contents

  datatype Config = Config(areaLimit: int, sensorLimit: int, window: real) {
    function Limit(sensor: bool): int { if sensor then sensorLimit else areaLimit }

    ghost predicate Positive() { areaLimit > 0 && sensorLimit > 0 && window > 0.0 }
  }

  datatype Entry = Entry(windowStart: real, lastSeen: real, slugs: set<string>, sensors: set<string>) {
    function Seen(sensor: bool): set<string> { if sensor then sensors else slugs }

    function Record(value: string, sensor: bool): Entry {
      if sensor then this.(sensors := sensors + {value}) else this.(slugs := slugs + {value})
    }
  }

  datatype Observed = Observed(entry: Entry, served: bool)

  /** The entry an observation works on: a new one, a rolled one, or the open
      window. */
  function Opened(cfg: Config, stored: Option<Entry>, now: real): Entry {
    if stored.None? || now - stored.value.windowStart >= cfg.window then Entry(now, now, {}, {})
    else stored.value.(lastSeen := now)
  }

  function Outcome(cfg: Config, stored: Option<Entry>, now: real, value: string, sensor: bool): Observed {
    var e := Opened(cfg, stored, now);
    if value in e.Seen(sensor) then Observed(e, true)
    else if |e.Seen(sensor)| >= cfg.Limit(sensor) then Observed(e, false)
    else Observed(e.Record(value, sensor), true)
  }

  type Table = map<string, Entry>

  function Lookup(t: Table, key: string): Option<Entry> {
    if key in t then Some(t[key]) else None
  }

  function Swept(cfg: Config, t: Table, now: real): Table {
    map k | k in t && !(t[k].lastSeen < now - 2.0 * cfg.window) :: t[k]
  }

  class Counter {
    const cfg: Config
    var entries: Table

    constructor (cfg: Config)
      ensures this.cfg == cfg && entries == map[]
    {
      this.cfg := cfg;
      entries := map[];
    }

    method Observe(key: string, now: real, value: string, sensor: bool) returns (served: bool)
      modifies this
      ensures var o := Outcome(cfg, Lookup(old(entries), key), now, value, sensor);
              served == o.served && entries == old(entries)[key := o.entry]
    {
      var e := if key in entries then entries[key] else Entry(now, now, {}, {});
      if now - e.windowStart >= cfg.window {
        e := Entry(now, e.lastSeen, {}, {});
      }
      e := e.(lastSeen := now);
      var seen, limit := e.slugs, cfg.areaLimit;
      if sensor {
        seen, limit := e.sensors, cfg.sensorLimit;
      }
      if value in seen {
        served := true;
      } else if |seen| >= limit {
        served := false;
      } else {
        e := e.Record(value, sensor);
        served := true;
      }
      entries := entries[key := e];
    }

    method Evict(now: real)
      modifies this
      ensures entries == Swept(cfg, old(entries), now)
    {
      var cutoff := now - 2.0 * cfg.window;
      var rest := entries.Keys;
      while rest != {}
        invariant rest <= old(entries).Keys
        invariant forall k :: k in entries <==> k in old(entries) && (k in rest || !(old(entries)[k].lastSeen < cutoff))
        invariant forall k | k in entries :: entries[k] == old(entries)[k]
        decreases rest
      {
        var k :| k in rest;
        if entries[k].lastSeen < cutoff {
          entries := entries - {k};
        }
        rest := rest - {k};
      }
    }
  }

  // ---- runs ----

  datatype Op = See(key: string, at: real, value: string, sensor: bool) | Sweep(at: real)

  function After(cfg: Config, ops: seq<Op>, evicting: bool): Table {
    if ops == [] then map[]
    else
      var before := After(cfg, ops[..|ops| - 1], evicting);
      match ops[|ops| - 1]
      case See(key, at, value, sensor) => before[key := Outcome(cfg, Lookup(before, key), at, value, sensor).entry]
      case Sweep(at) => if evicting then Swept(cfg, before, at) else before
  }

  /** Whether the last operation of a run served its value. */
  function ServedLast(cfg: Config, ops: seq<Op>, evicting: bool): bool
    requires ops != []
  {
    var op := ops[|ops| - 1];
    op.See? && Outcome(cfg, Lookup(After(cfg, ops[..|ops| - 1], evicting), op.key), op.at, op.value, op.sensor).served
  }

  ghost predicate Ordered(ops: seq<Op>, now: real) {
    && (forall i, j | 0 <= i < j < |ops| :: ops[i].at <= ops[j].at)
    && (forall i | 0 <= i < |ops| :: ops[i].at <= now)
  }

  // ---- the sweep is invisible ----

  ghost predicate Related(cfg: Config, swept: Table, full: Table, now: real) {
    && (forall k | k in swept :: k in full && swept[k] == full[k])
    && (forall k | k in full :: full[k].windowStart <= full[k].lastSeen <= now)
    && (forall k | k in full && k !in swept :: full[k].lastSeen + 2.0 * cfg.window < now)
  }

  lemma {:induction false} StaysRelated(cfg: Config, ops: seq<Op>, now: real)
    requires cfg.window > 0.0 && Ordered(ops, now)
    ensures Related(cfg, After(cfg, ops, true), After(cfg, ops, false), now)
    decreases |ops|
  {
    if ops != [] {
      StaysRelated(cfg, ops[..|ops| - 1], ops[|ops| - 1].at);
    }
  }

  /** A key swept after two silent windows is answered as if it never had been,
      because its window would have rolled anyway. */
  lemma EvictionUnobservable(cfg: Config, ops: seq<Op>, now: real)
    requires cfg.window > 0.0 && Ordered(ops, now) && ops != []
    ensures ServedLast(cfg, ops, true) == ServedLast(cfg, ops, false)
  {
    StaysRelated(cfg, ops[..|ops| - 1], ops[|ops| - 1].at);
  }

  /** ops[i] is an observation of the key. */
  predicate SeenAt(ops: seq<Op>, key: string, i: nat)
    requires i < |ops|
  {
    ops[i].See? && ops[i].key == key
  }

  lemma {:induction false} HeldSince(cfg: Config, ops: seq<Op>, key: string, now: real)
    requires Ordered(ops, now)
    ensures var t := After(cfg, ops, true);
            && (key in t ==> exists i :: 0 <= i < |ops| && SeenAt(ops, key, i) && ops[i].at == t[key].lastSeen)
            && (forall i | 0 <= i < |ops| && SeenAt(ops, key, i) ::
                  (key in t && ops[i].at <= t[key].lastSeen) || ops[i].at < now - 2.0 * cfg.window)
    decreases |ops|
  {
    if ops != [] {
      var n := |ops| - 1;
      var front, op := ops[..n], ops[n];
      HeldSince(cfg, front, key, op.at);
      var was, t := After(cfg, front, true), After(cfg, ops, true);
      if op.See? && op.key == key {
        assert SeenAt(ops, key, n);
        LastSeenNow(cfg, Lookup(was, key), op.at, op.value, op.sensor);
      } else if key in t {
        var i :| 0 <= i < n && SeenAt(front, key, i) && front[i].at == was[key].lastSeen;
        assert SeenAt(ops, key, i);
      }
      forall i | 0 <= i < |ops| && SeenAt(ops, key, i)
        ensures (key in t && ops[i].at <= t[key].lastSeen) || ops[i].at < now - 2.0 * cfg.window
      {
        assert i < n ==> SeenAt(front, key, i);
      }
    }
  }

  lemma LastSeenNow(cfg: Config, stored: Option<Entry>, now: real, value: string, sensor: bool)
    ensures Outcome(cfg, stored, now, value, sensor).entry.lastSeen == now
  {
  }

  /** After a sweep a key is held if and only if it was observed within two windows
      of it. */
  lemma SweepTakesTheSilent(cfg: Config, ops: seq<Op>, at: real, key: string)
    requires Ordered(ops, at)
    ensures key in After(cfg, ops + [Sweep(at)], true)
            <==> exists i :: 0 <= i < |ops| && SeenAt(ops, key, i) && ops[i].at >= at - 2.0 * cfg.window
  {
    var all := ops + [Sweep(at)];
    assert all[..|all| - 1] == ops && all[|all| - 1] == Sweep(at);
    HeldSince(cfg, ops, key, at);
  }

  // ---- what is bounded ----

  ghost predicate Within(cfg: Config, t: Table) {
    forall k | k in t :: |t[k].slugs| <= cfg.areaLimit && |t[k].sensors| <= cfg.sensorLimit
  }

  lemma ObserveWithin(cfg: Config, stored: Option<Entry>, now: real, value: string, sensor: bool)
    requires cfg.Positive()
    requires stored.Some? ==> |stored.value.slugs| <= cfg.areaLimit && |stored.value.sensors| <= cfg.sensorLimit
    ensures var e := Outcome(cfg, stored, now, value, sensor).entry;
            |e.slugs| <= cfg.areaLimit && |e.sensors| <= cfg.sensorLimit
  {
  }

  /** Whatever the clock does and whenever the sweep runs, no set outgrows its
      limit. */
  lemma {:induction false} SetsWithinLimits(cfg: Config, ops: seq<Op>, evicting: bool)
    requires cfg.Positive()
    ensures Within(cfg, After(cfg, ops, evicting))
    decreases |ops|
  {
    hide Outcome;
    if ops != [] {
      var op := ops[|ops| - 1];
      SetsWithinLimits(cfg, ops[..|ops| - 1], evicting);
      if op.See? {
        ObserveWithin(cfg, Lookup(After(cfg, ops[..|ops| - 1], evicting), op.key), op.at, op.value, op.sensor);
      }
    }
  }

  /** The key's entry after more observations of it. */
  function EntryAfter(cfg: Config, e: Entry, seen: seq<Op>): Entry
    requires forall i | 0 <= i < |seen| :: seen[i].See?
  {
    if seen == [] then e
    else
      var op := seen[|seen| - 1];
      Outcome(cfg, Some(EntryAfter(cfg, e, seen[..|seen| - 1])), op.at, op.value, op.sensor).entry
  }

  /** A value once served is served again, however often and whatever else the
      key asks for meanwhile, until its window rolls. */
  lemma {:induction false} OnceServedStaysServed(cfg: Config, stored: Option<Entry>, now: real, value: string,
                                                 sensor: bool, meanwhile: seq<Op>, again: real)
    requires Outcome(cfg, stored, now, value, sensor).served
    requires forall i | 0 <= i < |meanwhile| :: meanwhile[i].See?
    requires var e := Outcome(cfg, stored, now, value, sensor).entry;
             && (forall i | 0 <= i < |meanwhile| :: meanwhile[i].at - e.windowStart < cfg.window)
             && again - e.windowStart < cfg.window
    ensures var e := Outcome(cfg, stored, now, value, sensor).entry;
            && EntryAfter(cfg, e, meanwhile).windowStart == e.windowStart
            && value in EntryAfter(cfg, e, meanwhile).Seen(sensor)
            && Outcome(cfg, Some(EntryAfter(cfg, e, meanwhile)), again, value, sensor).served
    decreases |meanwhile|
  {
    if meanwhile != [] {
      OnceServedStaysServed(cfg, stored, now, value, sensor, meanwhile[..|meanwhile| - 1], again);
    }
  }

  /** The distinct values of one dimension served to a key in [from, to). */
  ghost function ServedIn(cfg: Config, ops: seq<Op>, key: string, sensor: bool, from: real, to: real, evicting: bool): set<string> {
    if ops == [] then {}
    else
      var op := ops[|ops| - 1];
      ServedIn(cfg, ops[..|ops| - 1], key, sensor, from, to, evicting)
      + if ServedLast(cfg, ops, evicting) && op.key == key && op.sensor == sensor && from <= op.at < to
        then {op.value} else {}
  }

  /** How the values served in [from, to) sit against what the key's open window,
      begun at start, has seen. */
  ghost predicate Accounted(limit: int, served: set<string>, start: real, seen: set<string>, from: real, to: real, now: real) {
    && |served| <= 2 * limit && |seen| <= limit && start <= now
    && (now < from ==> served == {})
    && (start < from ==> served <= seen)
    && (from <= start < to ==> |served - seen| <= limit)
  }

  ghost predicate AccountedFor(cfg: Config, served: set<string>, stored: Option<Entry>, sensor: bool, from: real, to: real, now: real) {
    match stored
    case None => served == {}
    case Some(e) => Accounted(cfg.Limit(sensor), served, e.windowStart, e.Seen(sensor), from, to, now)
  }

  /** What one observation may add to the values served in [from, to). */
  ghost predicate Adds(served: set<string>, after: set<string>, seen: set<string>, from: real, to: real, now: real) {
    served <= after <= served + seen && (after == served || from <= now < to)
  }

  /** The window stayed open: what it has seen only grew. */
  lemma AccountKept(limit: int, served: set<string>, after: set<string>, start: real, was: set<string>, seen: set<string>,
                    from: real, to: real, now: real)
    requires Accounted(limit, served, start, was, from, to, now)
    requires Adds(served, after, seen, from, to, now) && was <= seen && |seen| <= limit
    ensures Accounted(limit, after, start, seen, from, to, now)
  {
    SubsetSize(after - seen, served - was);
    SplitSize(after, seen);
    if start < from {
      SubsetSize(after, seen);
    }
  }

  /** A window opened or rolled: what was served before is now outside it. */
  lemma AccountRolled(limit: int, served: set<string>, after: set<string>, seen: set<string>, from: real, to: real, now: real)
    requires |seen| <= limit && |served| <= 2 * limit && (now < to ==> |served| <= limit)
    requires Adds(served, after, seen, from, to, now) && (now < from ==> served == {})
    ensures Accounted(limit, after, now, seen, from, to, now)
  {
    SubsetSize(after - seen, served);
    SplitSize(after, seen);
  }

  lemma AccountStep(cfg: Config, served: set<string>, stored: Option<Entry>, sensor: bool, from: real, to: real,
                    now: real, value: string, dim: bool, after: set<string>)
    requires cfg.Positive() && to <= from + cfg.window
    requires stored.Some? ==> |stored.value.slugs| <= cfg.areaLimit && |stored.value.sensors| <= cfg.sensorLimit
    requires AccountedFor(cfg, served, stored, sensor, from, to, now)
    requires Adds(served, after, Outcome(cfg, stored, now, value, dim).entry.Seen(sensor), from, to, now)
    ensures AccountedFor(cfg, after, Some(Outcome(cfg, stored, now, value, dim).entry), sensor, from, to, now)
  {
    hide Outcome, Accounted, Adds;
    var o := Outcome(cfg, stored, now, value, dim);
    var limit, seen := cfg.Limit(sensor), o.entry.Seen(sensor);
    ObserveWithin(cfg, stored, now, value, dim);
    OutcomeShape(cfg, stored, now, value, dim);
    if stored.None? {
      AccountRolled(limit, served, after, seen, from, to, now);
    } else {
      var e := stored.value;
      if now - e.windowStart >= cfg.window {
        BeforeRoll(limit, served, e.windowStart, e.Seen(sensor), from, to, now, cfg.window);
        AccountRolled(limit, served, after, seen, from, to, now);
      } else {
        AccountKept(limit, served, after, e.windowStart, e.Seen(sensor), seen, from, to, now);
      }
    }
  }

  /** When a window rolls inside the interval, it was begun before it. */
  lemma BeforeRoll(limit: int, served: set<string>, start: real, seen: set<string>, from: real, to: real, now: real, window: real)
    requires Accounted(limit, served, start, seen, from, to, now)
    requires now - start >= window && to <= from + window
    ensures |served| <= 2 * limit && (now < to ==> |served| <= limit) && (now < from ==> served == {})
  {
    if now < to {
      SubsetSize(served, seen);
    }
  }

  /** An observation keeps its window's start, adds at most its own value to its
      own dimension, and has every value it served in the set. */
  lemma OutcomeShape(cfg: Config, stored: Option<Entry>, now: real, value: string, dim: bool)
    ensures var o, e := Outcome(cfg, stored, now, value, dim), Opened(cfg, stored, now);
            && o.entry.windowStart == e.windowStart
            && (forall sensor :: e.Seen(sensor) <= o.entry.Seen(sensor))
            && (o.served ==> value in o.entry.Seen(dim))
  {
  }

  lemma SplitSize<T>(a: set<T>, b: set<T>)
    ensures |a| <= |a - b| + |b|
  {
  }

  lemma AccountLater(cfg: Config, served: set<string>, stored: Option<Entry>, sensor: bool, from: real, to: real,
                     was: real, now: real)
    requires AccountedFor(cfg, served, stored, sensor, from, to, was) && was <= now
    ensures AccountedFor(cfg, served, stored, sensor, from, to, now)
  {
  }

  /** What the last operation of a run does to a key's entry and served values. */
  lemma LastStep(cfg: Config, ops: seq<Op>, key: string, sensor: bool, from: real, to: real)
    requires ops != []
    ensures var front, op := ops[..|ops| - 1], ops[|ops| - 1];
            var served, stored := ServedIn(cfg, front, key, sensor, from, to, false), Lookup(After(cfg, front, false), key);
            var served', stored' := ServedIn(cfg, ops, key, sensor, from, to, false), Lookup(After(cfg, ops, false), key);
            if op.See? && op.key == key then
              var o := Outcome(cfg, stored, op.at, op.value, op.sensor);
              stored' == Some(o.entry) && Adds(served, served', o.entry.Seen(sensor), from, to, op.at)
            else stored' == stored && served' == served
  {
    hide Outcome;
    var front, op := ops[..|ops| - 1], ops[|ops| - 1];
    if op.See? && op.key == key {
      OutcomeShape(cfg, Lookup(After(cfg, front, false), key), op.at, op.value, op.sensor);
    }
  }

  lemma {:induction false} StaysAccounted(cfg: Config, ops: seq<Op>, key: string, sensor: bool, from: real, to: real, now: real)
    requires cfg.Positive() && to <= from + cfg.window && Ordered(ops, now)
    ensures AccountedFor(cfg, ServedIn(cfg, ops, key, sensor, from, to, false), Lookup(After(cfg, ops, false), key),
                         sensor, from, to, now)
    decreases |ops|
  {
    if ops != [] {
      hide Outcome, AccountedFor, Adds, ServedIn, After;
      var front, op := ops[..|ops| - 1], ops[|ops| - 1];
      var served, stored := ServedIn(cfg, front, key, sensor, from, to, false), Lookup(After(cfg, front, false), key);
      var served', stored' := ServedIn(cfg, ops, key, sensor, from, to, false), Lookup(After(cfg, ops, false), key);
      StaysAccounted(cfg, front, key, sensor, from, to, op.at);
      LastStep(cfg, ops, key, sensor, from, to);
      if op.See? && op.key == key {
        SetsWithinLimits(cfg, front, false);
        AccountStep(cfg, served, stored, sensor, from, to, op.at, op.value, op.sensor, served');
      }
      AccountLater(cfg, served', stored', sensor, from, to, op.at, now);
    }
  }

  lemma {:induction false} ServedEitherWay(cfg: Config, ops: seq<Op>, key: string, sensor: bool, from: real, to: real, now: real)
    requires cfg.window > 0.0 && Ordered(ops, now)
    ensures ServedIn(cfg, ops, key, sensor, from, to, true) == ServedIn(cfg, ops, key, sensor, from, to, false)
    decreases |ops|
  {
    if ops != [] {
      hide ServedLast;
      EvictionUnobservable(cfg, ops, now);
      ServedEitherWay(cfg, ops[..|ops| - 1], key, sensor, from, to, now);
    }
  }

  /** In any half-open interval of one window's length, whenever the sweep runs,
      a key is served at most twice its limit of distinct values. */
  lemma TwiceTheLimit(cfg: Config, ops: seq<Op>, key: string, sensor: bool, from: real, now: real)
    requires cfg.Positive() && Ordered(ops, now)
    ensures |ServedIn(cfg, ops, key, sensor, from, from + cfg.window, true)| <= 2 * cfg.Limit(sensor)
  {
    StaysAccounted(cfg, ops, key, sensor, from, from + cfg.window, now);
    ServedEitherWay(cfg, ops, key, sensor, from, from + cfg.window, now);
  }

  // ---- and twice the limit is reached ----

  /** The i-th of any number of different values. */
  function Value(i: nat): string { seq(i, _ => 'a') }

  /** One key asking for n values of a dimension, from the first-th on, at once. */
  function Visits(key: string, at: real, sensor: bool, first: nat, n: nat): (ops: seq<Op>)
    ensures |ops| == n && forall i | 0 <= i < n :: ops[i] == See(key, at, Value(first + i), sensor)
  {
    seq(n, i requires 0 <= i < n => See(key, at, Value(first + i), sensor))
  }

  ghost function Values(first: nat, n: nat): set<string> { set i | first <= i < first + n :: Value(i) }

  lemma {:induction false} ValuesCount(first: nat, n: nat)
    ensures |Values(first, n)| == n
    ensures Value(first + n) !in Values(first, n)
    decreases n
  {
    hide Value;
    if n > 0 {
      ValuesCount(first, n - 1);
      NextValue(first, n - 1);
    }
    forall j | first <= j < first + n ensures Value(first + n) != Value(j) { ValuesDiffer(first + n, j); }
  }

  lemma ValuesDiffer(i: nat, j: nat)
    requires i != j
    ensures Value(i) != Value(j)
  {
    assert |Value(i)| == i && |Value(j)| == j;
  }

  lemma NextValue(first: nat, n: nat)
    ensures Values(first, n + 1) == Values(first, n) + {Value(first + n)}
  {
  }

  /** Since before, exactly these values were served to the key at one instant, in
      the window that instant finds or opens. */
  ghost predicate Served(cfg: Config, before: seq<Op>, ops: seq<Op>, key: string, sensor: bool, at: real,
                         from: real, to: real, values: set<string>) {
    var was, stored := Lookup(After(cfg, before, true), key), Lookup(After(cfg, ops, true), key);
    && ServedIn(cfg, ops, key, sensor, from, to, true) == ServedIn(cfg, before, key, sensor, from, to, true) + values
    && was.Some? && stored.Some?
    && Opened(cfg, stored, at).Seen(sensor) == values
    && Opened(cfg, stored, at).windowStart == Opened(cfg, was, at).windowStart
    && (values != {} ==> stored.value.windowStart == Opened(cfg, was, at).windowStart && stored.value.Seen(sensor) == values)
  }

  lemma OneMoreServed(cfg: Config, before: seq<Op>, front: seq<Op>, key: string, sensor: bool, at: real, from: real, to: real,
                      values: set<string>, value: string)
    requires cfg.window > 0.0 && from <= at < to && Served(cfg, before, front, key, sensor, at, from, to, values)
    requires value !in values && |values| < cfg.Limit(sensor)
    ensures Served(cfg, before, front + [See(key, at, value, sensor)], key, sensor, at, from, to, values + {value})
  {
    var ops := front + [See(key, at, value, sensor)];
    assert ops[..|ops| - 1] == front && ops[|ops| - 1] == See(key, at, value, sensor);
    ServedNew(cfg, Lookup(After(cfg, front, true), key), at, value, sensor);
    LastServed(cfg, front, key, at, value, sensor, from, to);
    hide Outcome, Opened, After, ServedIn;
  }

  lemma LastServed(cfg: Config, front: seq<Op>, key: string, at: real, value: string, sensor: bool, from: real, to: real)
    requires from <= at < to
    ensures var ops := front + [See(key, at, value, sensor)];
            var o := Outcome(cfg, Lookup(After(cfg, front, true), key), at, value, sensor);
            && Lookup(After(cfg, ops, true), key) == Some(o.entry)
            && (o.served ==> ServedIn(cfg, ops, key, sensor, from, to, true)
                             == ServedIn(cfg, front, key, sensor, from, to, true) + {value})
  {
    hide Outcome;
    var ops := front + [See(key, at, value, sensor)];
    assert ops[..|ops| - 1] == front && ops[|ops| - 1] == See(key, at, value, sensor);
  }

  /** New values, up to the limit, are all served in one window. */
  lemma {:induction false} AllServed(cfg: Config, before: seq<Op>, key: string, sensor: bool, at: real, first: nat, n: nat,
                                     from: real, to: real)
    requires cfg.window > 0.0 && n <= cfg.Limit(sensor) && from <= at < to
    requires var stored := Lookup(After(cfg, before, true), key);
             stored.Some? && Opened(cfg, stored, at).Seen(sensor) == {}
    ensures Served(cfg, before, before + Visits(key, at, sensor, first, n), key, sensor, at, from, to, Values(first, n))
    decreases n
  {
    hide Opened, After, Visits, Served, Values, ServedIn, Value;
    if n == 0 {
      NoneServed(cfg, before, key, sensor, at, first, from, to);
    } else {
      AllServed(cfg, before, key, sensor, at, first, n - 1, from, to);
      ValuesCount(first, n - 1);
      NextValue(first, n - 1);
      NextVisit(before, key, at, sensor, first, n - 1);
      OneMoreServed(cfg, before, before + Visits(key, at, sensor, first, n - 1), key, sensor, at, from, to,
                    Values(first, n - 1), Value(first + n - 1));
    }
  }

  lemma NextVisit(before: seq<Op>, key: string, at: real, sensor: bool, first: nat, n: nat)
    ensures before + Visits(key, at, sensor, first, n + 1)
         == before + Visits(key, at, sensor, first, n) + [See(key, at, Value(first + n), sensor)]
  {
    hide Value;
  }

  lemma NoneServed(cfg: Config, before: seq<Op>, key: string, sensor: bool, at: real, first: nat, from: real, to: real)
    requires var stored := Lookup(After(cfg, before, true), key);
             stored.Some? && Opened(cfg, stored, at).Seen(sensor) == {}
    ensures Served(cfg, before, before + Visits(key, at, sensor, first, 0), key, sensor, at, from, to, Values(first, 0))
  {
    hide Opened, After, ServedIn;
    assert before + Visits(key, at, sensor, first, 0) == before;
    assert Values(first, 0) == {};
  }

  /** One new value with room for it. */
  lemma ServedNew(cfg: Config, stored: Option<Entry>, at: real, value: string, sensor: bool)
    requires cfg.window > 0.0 && value !in Opened(cfg, stored, at).Seen(sensor)
    requires |Opened(cfg, stored, at).Seen(sensor)| < cfg.Limit(sensor)
    ensures var o, e := Outcome(cfg, stored, at, value, sensor), Opened(cfg, stored, at);
            && o.served && o.entry.windowStart == e.windowStart && o.entry.Seen(sensor) == e.Seen(sensor) + {value}
            && Opened(cfg, Some(o.entry), at) == o.entry.(lastSeen := at)
  {
  }

  /** A window opened by the other dimension, the limit late in it, and the limit
      again as soon as the next begins: twice the limit in one window's length. */
  function Boundary(cfg: Config, key: string, sensor: bool): seq<Op>
    requires cfg.Limit(sensor) > 0
  {
    [See(key, 0.0, "", !sensor)] + Visits(key, cfg.window / 2.0, sensor, 0, cfg.Limit(sensor))
    + Visits(key, cfg.window, sensor, cfg.Limit(sensor), cfg.Limit(sensor))
  }

  lemma TwiceTheLimitIsReached(cfg: Config, key: string, sensor: bool)
    requires cfg.Positive()
    ensures var ops := Boundary(cfg, key, sensor); var from := cfg.window / 2.0;
            && Ordered(ops, cfg.window)
            && |ServedIn(cfg, ops, key, sensor, from, from + cfg.window, true)| == 2 * cfg.Limit(sensor)
  {
    hide Values, Visits, Value, ServedIn, After, Outcome, Ordered;
    var n, from := cfg.Limit(sensor), cfg.window / 2.0;
    var opening := [See(key, 0.0, "", !sensor)];
    var late := opening + Visits(key, from, sensor, 0, n);
    OpenedBy(cfg, key, sensor, from, from + cfg.window);
    AllServed(cfg, opening, key, sensor, from, 0, n, from, from + cfg.window);
    LateWindow(cfg, opening, late, key, sensor, from, n);
    AllServed(cfg, late, key, sensor, cfg.window, n, n, from, from + cfg.window);
    BothValues(n);
    BoundaryOrdered(cfg, key, sensor);
  }

  /** By the end of its window the key's next observation begins a new one. */
  lemma LateWindow(cfg: Config, before: seq<Op>, ops: seq<Op>, key: string, sensor: bool, at: real, n: nat)
    requires cfg.Positive() && n > 0
    requires Served(cfg, before, ops, key, sensor, at, at, at + cfg.window, Values(0, n))
    requires Opened(cfg, Lookup(After(cfg, before, true), key), at).windowStart == 0.0
    ensures var stored := Lookup(After(cfg, ops, true), key);
            stored.Some? && Opened(cfg, stored, cfg.window).Seen(sensor) == {}
  {
    hide After, ServedIn, Values;
    ValuesCount(0, n);
  }

  lemma BoundaryOrdered(cfg: Config, key: string, sensor: bool)
    requires cfg.Positive()
    ensures Ordered(Boundary(cfg, key, sensor), cfg.window)
  {
    hide Value;
  }

  lemma OpenedBy(cfg: Config, key: string, sensor: bool, from: real, to: real)
    requires cfg.Positive() && 0.0 < from < cfg.window
    ensures var ops := [See(key, 0.0, "", !sensor)]; var stored := Lookup(After(cfg, ops, true), key);
            && ServedIn(cfg, ops, key, sensor, from, to, true) == {}
            && stored.Some? && stored.value.windowStart == 0.0
            && Opened(cfg, stored, from).Seen(sensor) == {} && Opened(cfg, stored, from).windowStart == 0.0
  {
    var ops := [See(key, 0.0, "", !sensor)];
    assert ops[..0] == [];
  }

  lemma BothValues(n: nat)
    ensures |Values(0, n) + Values(n, n)| == 2 * n
  {
    assert Values(0, n) + Values(n, n) == Values(0, n + n);
    ValuesCount(0, n + n);
  }
}
