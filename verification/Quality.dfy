/** Plausibility scoring of one poll batch: the outlier check of
    internal/quality/spatial.go and the two-phase scorer of
    internal/quality/score.go. Great-circle distance is an unknown function. */
module Quality {
  import opened Contents
  import opened Statistics
  import opened History

  datatype Flag = FlagOK | Clamped | OutOfRange | Stuck | SpatialOutlier | NoNeighbours

  datatype Range = Range(min: real, max: real)

  datatype Reading = Reading(sensorID: int, metric: string, lon: real, lat: real, value: real, timestamp: int)

  datatype Scored = Scored(reading: Reading, flag: Flag)

  datatype Config = Config(minNeighbours: int, madScale: real, madThreshold: real, neighbourRadius: real,
                           ranges: map<string, Range>, clampSentinels: map<string, real>,
                           smoothFieldFloors: map<string, real>, pmRatioThreshold: real, pmAbsoluteThreshold: real,
                           temperatureFrozenTolerance: real,
                           distance: (real, real, real, real) -> real) {

    predicate InRange(metric: string, value: real) {
      metric in ranges && ranges[metric].min <= value <= ranges[metric].max
    }

    predicate IsClamped(metric: string, value: real) {
      metric in clampSentinels && value == clampSentinels[metric]
    }

    /** May be compared against, and enters the history. */
    predicate Usable(r: Reading) {
      InRange(r.metric, r.value) && !IsClamped(r.metric, r.value)
    }
  }

  // ---- the outlier check ----

  function SpatialFlag(cfg: Config, metric: string, value: real, values: seq<real>): Flag {
    if |values| < cfg.minNeighbours then NoNeighbours
    else if metric == "P1" || metric == "P2" then
      var median := MedianMad(values).median;
      if median <= 0.0 then FlagOK
      else if value > cfg.pmRatioThreshold * median && value > cfg.pmAbsoluteThreshold then SpatialOutlier
      else FlagOK
    else if metric !in cfg.smoothFieldFloors then FlagOK
    else
      SmoothFlag(cfg.madThreshold * cfg.madScale, cfg.smoothFieldFloors[metric], value, MedianMad(values))
  }

  /** A deviation beyond the scaled MAD, or beyond the floor if that is larger. */
  function SmoothFlag(k: real, floor: real, value: real, s: Spread): Flag {
    if Abs(value - s.median) > LimitFor(k, s.mad, floor) then SpatialOutlier else FlagOK
  }

  /** The deviation a smooth metric tolerates around a median of that MAD. */
  function LimitFor(scaledThreshold: real, mad: real, floor: real): real {
    Max(scaledThreshold * mad, floor)
  }

  datatype Neighbour = Neighbour(lon: real, lat: real, value: real)

  function Values(ns: seq<Neighbour>): seq<real> { seq(|ns|, i requires 0 <= i < |ns| => ns[i].value) }

  method SpatialCheck(cfg: Config, metric: string, value: real, neighbours: seq<Neighbour>) returns (flag: Flag)
    ensures flag == SpatialFlag(cfg, metric, value, Values(neighbours))
  {
    hide MedianMad;
    if |neighbours| < cfg.minNeighbours {
      return NoNeighbours;
    }
    var values: seq<real> := [];
    for i := 0 to |neighbours|
      invariant |values| == i && forall j | 0 <= j < i :: values[j] == neighbours[j].value
    {
      values := values + [neighbours[i].value];
    }
    assert values == Values(neighbours);
    var median, mad := MedianAbsoluteDeviation(values);
    if metric == "P1" || metric == "P2" {
      if median <= 0.0 {
        return FlagOK;
      }
      if value > cfg.pmRatioThreshold * median && value > cfg.pmAbsoluteThreshold {
        return SpatialOutlier;
      }
      return FlagOK;
    }
    if metric !in cfg.smoothFieldFloors {
      return FlagOK;
    }
    var deviation := Abs(value - median);
    var limit := LimitFor(cfg.madThreshold * cfg.madScale, mad, cfg.smoothFieldFloors[metric]);
    flag := if deviation > limit then SpatialOutlier else FlagOK;
  }

  lemma Scale(k: real, a: real, b: real)
    requires k >= 0.0 && a <= b
    ensures k * a <= k * b
  {
  }

  /** On a smooth metric, while strictly more than half of enough neighbours lie
      in [lo, hi], no report of the others can hide a reading far outside it or,
      when the interval is no wider than the floor, condemn one inside it. */
  lemma OutlierBreakdown(cfg: Config, metric: string, value: real, values: seq<real>, lo: real, hi: real)
    requires metric in cfg.smoothFieldFloors && metric != "P1" && metric != "P2"
    requires cfg.madThreshold * cfg.madScale >= 0.0
    requires |values| >= cfg.minNeighbours && 2 * CountWithin(lo, hi, values) > |values|
    ensures var reach := LimitFor(cfg.madThreshold * cfg.madScale, hi - lo, cfg.smoothFieldFloors[metric]);
            value > hi + reach || value < lo - reach ==> SpatialFlag(cfg, metric, value, values) == SpatialOutlier
    ensures lo <= value <= hi && hi - lo <= cfg.smoothFieldFloors[metric] ==>
              SpatialFlag(cfg, metric, value, values) == FlagOK
  {
    hide MedianMad;
    MadBreakdown(lo, hi, values);
    SmoothBreakdown(cfg.madThreshold * cfg.madScale, cfg.smoothFieldFloors[metric], value, MedianMad(values), lo, hi);
  }

  lemma SmoothBreakdown(k: real, floor: real, value: real, s: Spread, lo: real, hi: real)
    requires k >= 0.0 && lo <= s.median <= hi && 0.0 <= s.mad <= hi - lo
    ensures var reach := LimitFor(k, hi - lo, floor);
            value > hi + reach || value < lo - reach ==> SmoothFlag(k, floor, value, s) == SpatialOutlier
    ensures lo <= value <= hi && hi - lo <= floor ==> SmoothFlag(k, floor, value, s) == FlagOK
  {
    hide LimitFor;
    LimitGrows(k, s.mad, hi - lo, floor);
  }

  lemma LimitGrows(k: real, mad: real, width: real, floor: real)
    requires k >= 0.0 && mad <= width
    ensures floor <= LimitFor(k, mad, floor) <= LimitFor(k, width, floor)
  {
    Scale(k, mad, width);
  }

  /** The same for particulates, whose guard is a ratio and an absolute floor. */
  lemma ParticulateBreakdown(cfg: Config, metric: string, value: real, values: seq<real>, lo: real, hi: real)
    requires metric == "P1" || metric == "P2"
    requires cfg.pmRatioThreshold >= 0.0 && lo > 0.0
    requires |values| >= cfg.minNeighbours && 2 * CountWithin(lo, hi, values) > |values|
    ensures value > cfg.pmRatioThreshold * hi && value > cfg.pmAbsoluteThreshold ==>
              SpatialFlag(cfg, metric, value, values) == SpatialOutlier
    ensures value <= cfg.pmRatioThreshold * lo || value <= cfg.pmAbsoluteThreshold ==>
              SpatialFlag(cfg, metric, value, values) == FlagOK
  {
    hide MedianMad;
    MadBreakdown(lo, hi, values);
    Scale(cfg.pmRatioThreshold, lo, MedianMad(values).median);
    Scale(cfg.pmRatioThreshold, MedianMad(values).median, hi);
  }

  lemma SpatialByContents(cfg: Config, metric: string, value: real, a: seq<real>, b: seq<real>)
    requires multiset(a) == multiset(b)
    ensures SpatialFlag(cfg, metric, value, a) == SpatialFlag(cfg, metric, value, b)
  {
    hide SpatialFlag;
    assert |multiset(a)| == |a| && |multiset(b)| == |b|;
    MedianMadByContents(a, b);
    SpatialBySpread(cfg, metric, value, a, b);
  }

  lemma SpatialBySpread(cfg: Config, metric: string, value: real, a: seq<real>, b: seq<real>)
    requires |a| == |b| && MedianMad(a) == MedianMad(b)
    ensures SpatialFlag(cfg, metric, value, a) == SpatialFlag(cfg, metric, value, b)
  {
    hide MedianMad;
  }

  // ---- one reading against its batch and its history ----

  predicate IsStuck(t: Tracked, depth: nat, id: int, metric: string) {
    var w := WindowOf(depth, t.Series(id, metric), 0.0);
    w.ok && w.value !in ExemptStuckValues(metric)
  }

  predicate FailureSignature(cfg: Config, t: Tracked, depth: nat, r: Reading) {
    var frozen := WindowOf(depth, t.Series(r.sensorID, "temperature"), cfg.temperatureFrozenTolerance).ok;
    if r.metric == "temperature" then frozen
    else if r.metric == "humidity" then
      var w := WindowOf(depth, t.Series(r.sensorID, "humidity"), 0.0);
      w.ok && (w.value == 0.0 || (w.value == 100.0 && frozen))
    else false
  }

  function NeighbourOf(cfg: Config, r: Reading): Reading -> Option<Neighbour> {
    (other: Reading) =>
      if other.sensorID == r.sensorID || cfg.distance(r.lon, r.lat, other.lon, other.lat) > cfg.neighbourRadius then None
      else Some(Neighbour(other.lon, other.lat, other.value))
  }

  function FlagOf(cfg: Config, r: Reading, population: seq<Reading>, t: Tracked, depth: nat): Flag {
    if cfg.IsClamped(r.metric, r.value) then Clamped
    else if !cfg.InRange(r.metric, r.value) then OutOfRange
    else if IsStuck(t, depth, r.sensorID, r.metric) || FailureSignature(cfg, t, depth, r) then Stuck
    else SpatialFlag(cfg, r.metric, r.value, Values(Collect(NeighbourOf(cfg, r), population)))
  }

  method ScoreOne(cfg: Config, r: Reading, population: seq<Reading>, hist: Histories) returns (flag: Flag)
    requires hist.depth >= 1
    ensures flag == FlagOf(cfg, r, population, hist.Contents(), hist.depth)
  {
    if cfg.IsClamped(r.metric, r.value) {
      return Clamped;
    }
    if !cfg.InRange(r.metric, r.value) {
      return OutOfRange;
    }
    var constant := hist.WindowFor(r.sensorID, r.metric, 0.0);
    if constant.ok && constant.value !in ExemptStuckValues(r.metric) {
      return Stuck;
    }
    var frozen := hist.WindowFor(r.sensorID, "temperature", cfg.temperatureFrozenTolerance);
    if r.metric == "temperature" && frozen.ok {
      return Stuck;
    }
    if r.metric == "humidity" && constant.ok && (constant.value == 0.0 || (constant.value == 100.0 && frozen.ok)) {
      return Stuck;
    }
    var neighbours: seq<Neighbour> := [];
    for i := 0 to |population|
      invariant neighbours == Collect(NeighbourOf(cfg, r), population[..i])
    {
      CollectStep(NeighbourOf(cfg, r), population[..i], population[i]);
      assert population[..i + 1] == population[..i] + [population[i]];
      var other := population[i];
      if other.sensorID == r.sensorID || cfg.distance(r.lon, r.lat, other.lon, other.lat) > cfg.neighbourRadius {
        continue;
      }
      neighbours := neighbours + [Neighbour(other.lon, other.lat, other.value)];
    }
    assert population[..|population|] == population;
    flag := SpatialCheck(cfg, r.metric, r.value, neighbours);
  }

  // ---- a batch ----

  const ByMetric := (r: Reading) => r.metric

  function UsableIn(cfg: Config): Reading -> Option<Reading> {
    (r: Reading) => if cfg.Usable(r) then Some(r) else None
  }

  function ObservedIn(cfg: Config): Reading -> Option<Observation> {
    (r: Reading) => if cfg.Usable(r) then Some(Observation(r.sensorID, r.metric, r.value)) else None
  }

  function ReferenceIn(cfg: Config, metric: string): Reading -> Option<Reading> {
    (r: Reading) => if r.metric == metric && cfg.Usable(r) then Some(r) else None
  }

  /** The readings a metric is judged against, in batch order. */
  function ReferenceFor(cfg: Config, batch: seq<Reading>, metric: string): seq<Reading> {
    Collect(ReferenceIn(cfg, metric), batch)
  }

  /** The history after a batch's usable readings have been observed. */
  function HistoryAfter(cfg: Config, batch: seq<Reading>, t: Tracked, depth: nat, cap: nat): Tracked {
    ObserveAll(t, depth, cap, Collect(ObservedIn(cfg), batch))
  }

  /** The flag r gets when scored as part of a batch. */
  function FlagIn(cfg: Config, batch: seq<Reading>, t: Tracked, depth: nat, cap: nat, r: Reading): Flag {
    FlagOf(cfg, r, ReferenceFor(cfg, batch, r.metric), HistoryAfter(cfg, batch, t, depth, cap), depth)
  }

  method GroupByMetric(readings: seq<Reading>) returns (byMetric: map<string, seq<Reading>>)
    ensures forall m :: m in byMetric <==> exists r | r in readings :: r.metric == m
    ensures forall m | m in byMetric :: byMetric[m] == Members(ByMetric, m, readings)
  {
    hide Members;
    byMetric := map[];
    NoMembers();
    for i := 0 to |readings|
      invariant forall m :: m in byMetric <==> exists j :: 0 <= j < i && readings[j].metric == m
      invariant forall m :: Members(ByMetric, m, readings[..i]) == if m in byMetric then byMetric[m] else []
    {
      var r := readings[i];
      assert readings[..i + 1] == readings[..i] + [r];
      forall m ensures Members(ByMetric, m, readings[..i + 1]) ==
                         if r.metric == m then Members(ByMetric, m, readings[..i]) + [r] else Members(ByMetric, m, readings[..i])
      {
        MembersStep(ByMetric, m, readings[..i], r);
      }
      byMetric := byMetric[r.metric := (if r.metric in byMetric then byMetric[r.metric] else []) + [r]];
    }
    assert readings[..|readings|] == readings;
  }

  lemma NoMembers()
    ensures forall m :: Members(ByMetric, m, []) == []
  {
  }

  method Valid(cfg: Config, metric: string, group: seq<Reading>) returns (valid: seq<Reading>)
    requires forall r | r in group :: r.metric == metric
    ensures valid == Collect(UsableIn(cfg), group)
  {
    valid := [];
    for i := 0 to |group|
      invariant valid == Collect(UsableIn(cfg), group[..i])
    {
      CollectStep(UsableIn(cfg), group[..i], group[i]);
      assert group[..i + 1] == group[..i] + [group[i]];
      assert group[i] in group;
      if cfg.InRange(metric, group[i].value) && !cfg.IsClamped(metric, group[i].value) {
        valid := valid + [group[i]];
      }
    }
    assert group[..|group|] == group;
  }

  lemma {:induction false} UsableMembers(cfg: Config, batch: seq<Reading>, metric: string)
    ensures Collect(UsableIn(cfg), Members(ByMetric, metric, batch)) == ReferenceFor(cfg, batch, metric)
    decreases |batch|
  {
    if batch != [] {
      var front, r := batch[..|batch| - 1], batch[|batch| - 1];
      assert batch == front + [r];
      UsableMembers(cfg, front, metric);
      MembersStep(ByMetric, metric, front, r);
      CollectStep(UsableIn(cfg), Members(ByMetric, metric, front), r);
      CollectStep(ReferenceIn(cfg, metric), front, r);
    }
  }

  /** Scores a whole batch: the reference populations first, then every usable
      observation, then the flags. Output i carries input i. */
  method Score(cfg: Config, readings: seq<Reading>, hist: Histories) returns (out: seq<Scored>)
    requires hist.depth >= 1
    modifies hist
    ensures hist.Contents() == HistoryAfter(cfg, readings, old(hist.Contents()), hist.depth, hist.cap)
    ensures |out| == |readings|
    ensures forall i | 0 <= i < |out| ::
              out[i] == Scored(readings[i], FlagIn(cfg, readings, old(hist.Contents()), hist.depth, hist.cap, readings[i]))
  {
    hide FlagOf, HistoryAfter, Collect, Members;
    var byMetric := GroupByMetric(readings);
    var reference: map<string, seq<Reading>> := map[];
    var rest := byMetric.Keys;
    while rest != {}
      invariant hist.Contents() == old(hist.Contents())
      invariant rest <= byMetric.Keys && reference.Keys == byMetric.Keys - rest
      invariant forall m | m in reference :: reference[m] == ReferenceFor(cfg, readings, m)
      decreases rest
    {
      var m :| m in rest;
      MembersIn(ByMetric, m, readings);
      var valid := Valid(cfg, m, byMetric[m]);
      UsableMembers(cfg, readings, m);
      reference := reference[m := valid];
      rest := rest - {m};
    }
    ObserveUsable(cfg, readings, hist);
    out := [];
    for i := 0 to |readings|
      invariant |out| == i
      invariant hist.Contents() == HistoryAfter(cfg, readings, old(hist.Contents()), hist.depth, hist.cap)
      invariant forall j | 0 <= j < i ::
                  out[j] == Scored(readings[j], FlagIn(cfg, readings, old(hist.Contents()), hist.depth, hist.cap, readings[j]))
    {
      assert readings[i] in readings;
      var flag := ScoreOne(cfg, readings[i], reference[readings[i].metric], hist);
      out := out + [Scored(readings[i], flag)];
    }
  }

  lemma HistoryStep(cfg: Config, batch: seq<Reading>, r: Reading, t: Tracked, depth: nat, cap: nat)
    ensures HistoryAfter(cfg, batch + [r], t, depth, cap) ==
            var before := HistoryAfter(cfg, batch, t, depth, cap);
            if cfg.Usable(r) then before.Observe(depth, cap, r.sensorID, r.metric, r.value) else before
  {
  }

  method ObserveUsable(cfg: Config, readings: seq<Reading>, hist: Histories)
    modifies hist
    ensures hist.Contents() == HistoryAfter(cfg, readings, old(hist.Contents()), hist.depth, hist.cap)
  {
    hide HistoryAfter, Tracked.Observe;
    ghost var start := hist.Contents();
    NoHistory(cfg, start, hist.depth, hist.cap);
    for i := 0 to |readings|
      invariant hist.Contents() == HistoryAfter(cfg, readings[..i], start, hist.depth, hist.cap)
    {
      var r := readings[i];
      HistoryStep(cfg, readings[..i], r, start, hist.depth, hist.cap);
      assert readings[..i + 1] == readings[..i] + [r];
      if !cfg.IsClamped(r.metric, r.value) && cfg.InRange(r.metric, r.value) {
        hist.Observe(r.sensorID, r.metric, r.value);
      }
    }
    assert readings[..|readings|] == readings;
  }

  lemma NoHistory(cfg: Config, t: Tracked, depth: nat, cap: nat)
    ensures HistoryAfter(cfg, [], t, depth, cap) == t
  {
  }

  // ---- what a flag does and does not depend on ----

  /** Gathering by a rule that ignores unusable readings is the same with them
      already removed. */
  lemma {:induction false} ThroughUsable<U>(cfg: Config, f: Reading -> Option<U>, batch: seq<Reading>)
    requires forall r | !cfg.Usable(r) :: f(r) == None
    ensures Collect(f, Collect(UsableIn(cfg), batch)) == Collect(f, batch)
    decreases |batch|
  {
    if batch != [] {
      var front, r := batch[..|batch| - 1], batch[|batch| - 1];
      assert batch == front + [r];
      ThroughUsable(cfg, f, front);
      CollectStep(UsableIn(cfg), front, r);
      CollectStep(f, front, r);
      CollectStep(f, Collect(UsableIn(cfg), front), r);
    }
  }

  /** Deleting every clamped or out-of-range reading from a batch changes no
      other reading's flag, nor the history. */
  lemma UnusableDoNotInterfere(cfg: Config, batch: seq<Reading>, t: Tracked, depth: nat, cap: nat, r: Reading)
    ensures var kept := Collect(UsableIn(cfg), batch);
            && FlagIn(cfg, kept, t, depth, cap, r) == FlagIn(cfg, batch, t, depth, cap, r)
            && HistoryAfter(cfg, kept, t, depth, cap) == HistoryAfter(cfg, batch, t, depth, cap)
  {
    ThroughUsable(cfg, ReferenceIn(cfg, r.metric), batch);
    ThroughUsable(cfg, ObservedIn(cfg), batch);
  }

  ghost predicate SameSeries(cfg: Config, a: seq<Reading>, b: seq<Reading>) {
    forall id, metric :: Collect(ValueOf(id, metric), Collect(ObservedIn(cfg), a))
                      == Collect(ValueOf(id, metric), Collect(ObservedIn(cfg), b))
  }

  lemma {:induction false} ValuesCollected(ns: seq<Neighbour>)
    ensures Values(ns) == Collect((n: Neighbour) => Some(n.value), ns)
    decreases |ns|
  {
    if ns != [] {
      ValuesCollected(ns[..|ns| - 1]);
      assert Values(ns) == Values(ns[..|ns| - 1]) + [ns[|ns| - 1].value];
    }
  }

  lemma NeighboursByContents(cfg: Config, r: Reading, a: seq<Reading>, b: seq<Reading>)
    requires multiset(a) == multiset(b)
    ensures multiset(Values(Collect(NeighbourOf(cfg, r), a))) == multiset(Values(Collect(NeighbourOf(cfg, r), b)))
  {
    CollectContents(NeighbourOf(cfg, r), a, b);
    ValuesCollected(Collect(NeighbourOf(cfg, r), a));
    ValuesCollected(Collect(NeighbourOf(cfg, r), b));
    CollectContents((n: Neighbour) => Some(n.value), Collect(NeighbourOf(cfg, r), a), Collect(NeighbourOf(cfg, r), b));
  }

  lemma ObservedIds(cfg: Config, a: seq<Reading>, b: seq<Reading>)
    requires multiset(a) == multiset(b)
    ensures Ids(Collect(ObservedIn(cfg), a)) == Ids(Collect(ObservedIn(cfg), b))
  {
    CollectContents(ObservedIn(cfg), a, b);
    var x, y := Collect(ObservedIn(cfg), a), Collect(ObservedIn(cfg), b);
    forall o ensures o in x <==> o in y {
      assert o in x <==> o in multiset(x);
      assert o in y <==> o in multiset(y);
    }
  }

  /** Below the tracked-sensor cap, any rearrangement of a batch that keeps each
      sensor's series of each metric in order gives each reading the same flag. */
  lemma OrderDoesNotMatter(cfg: Config, a: seq<Reading>, b: seq<Reading>, t: Tracked, depth: nat, cap: nat, r: Reading)
    requires multiset(a) == multiset(b) && SameSeries(cfg, a, b)
    requires t.Valid(cap) && (forall id, metric :: |t.Series(id, metric)| <= depth)
    requires |t.state.Keys + Ids(Collect(ObservedIn(cfg), a))| <= cap
    ensures FlagIn(cfg, a, t, depth, cap, r) == FlagIn(cfg, b, t, depth, cap, r)
  {
    hide FlagIn, HistoryAfter, Tracked.Series, Tracked.Valid, Collect;
    ObservedIds(cfg, a, b);
    SameHistory(cfg, a, b, t, depth, cap, r.sensorID, r.metric);
    SameHistory(cfg, a, b, t, depth, cap, r.sensorID, "temperature");
    SameHistory(cfg, a, b, t, depth, cap, r.sensorID, "humidity");
    FlagFromSeries(cfg, a, b, t, depth, cap, r);
  }

  /** A flag depends on the batch's contents and on what three series become. */
  lemma FlagFromSeries(cfg: Config, a: seq<Reading>, b: seq<Reading>, t: Tracked, depth: nat, cap: nat, r: Reading)
    requires multiset(a) == multiset(b)
    requires forall m | m in {r.metric, "temperature", "humidity"} ::
      HistoryAfter(cfg, a, t, depth, cap).Series(r.sensorID, m) == HistoryAfter(cfg, b, t, depth, cap).Series(r.sensorID, m)
    ensures FlagIn(cfg, a, t, depth, cap, r) == FlagIn(cfg, b, t, depth, cap, r)
  {
    hide Tracked.Series, Tracked.Valid, WindowOf, SpatialFlag, Collect, ExemptStuckValues, HistoryAfter;
    CollectContents(ReferenceIn(cfg, r.metric), a, b);
    var popA, popB := ReferenceFor(cfg, a, r.metric), ReferenceFor(cfg, b, r.metric);
    NeighboursByContents(cfg, r, popA, popB);
    SpatialByContents(cfg, r.metric, r.value, Values(Collect(NeighbourOf(cfg, r), popA)),
                      Values(Collect(NeighbourOf(cfg, r), popB)));
  }

  lemma SameHistory(cfg: Config, a: seq<Reading>, b: seq<Reading>, t: Tracked, depth: nat, cap: nat, id: int, metric: string)
    requires SameSeries(cfg, a, b) && t.Valid(cap) && |t.Series(id, metric)| <= depth
    requires |t.state.Keys + Ids(Collect(ObservedIn(cfg), a))| <= cap
    requires Ids(Collect(ObservedIn(cfg), a)) == Ids(Collect(ObservedIn(cfg), b))
    ensures HistoryAfter(cfg, a, t, depth, cap).Series(id, metric) == HistoryAfter(cfg, b, t, depth, cap).Series(id, metric)
  {
    SeriesBelowCap(t, depth, cap, Collect(ObservedIn(cfg), a), id, metric);
    SeriesBelowCap(t, depth, cap, Collect(ObservedIn(cfg), b), id, metric);
  }

  // ---- what counts as stuck ----

  /** The stuck rule, its exemptions and the failure signatures taken together:
      temperature is stuck when frozen, humidity when constant unless saturated
      air explains it, particulates when constant but not clean, any other metric
      when constant. */
  lemma StuckExactly(cfg: Config, r: Reading, population: seq<Reading>, t: Tracked, depth: nat)
    requires cfg.Usable(r) && depth >= 1
    ensures var stuck := FlagOf(cfg, r, population, t, depth) == Stuck;
            var own, temperature := t.Series(r.sensorID, r.metric), t.Series(r.sensorID, "temperature");
            var w := WindowOf(depth, own, 0.0);
            stuck <==>
              if r.metric == "temperature" then WindowOf(depth, own, Max(0.0, cfg.temperatureFrozenTolerance)).ok
              else if r.metric == "humidity" then
                w.ok && (w.value != 100.0 || WindowOf(depth, temperature, cfg.temperatureFrozenTolerance).ok)
              else if r.metric == "P1" || r.metric == "P2" then w.ok && w.value != 0.0
              else w.ok
  {
    NeverStuckSpatially(cfg, r.metric, r.value, Values(Collect(NeighbourOf(cfg, r), population)));
  }

  lemma NeverStuckSpatially(cfg: Config, metric: string, value: real, values: seq<real>)
    ensures SpatialFlag(cfg, metric, value, values) in {FlagOK, SpatialOutlier, NoNeighbours}
  {
  }

  /** The newest depth values of a series once a batch has been observed. */
  function Newest(cfg: Config, batch: seq<Reading>, t: Tracked, depth: nat, id: int, metric: string): seq<real> {
    Trim(depth, t.Series(id, metric) + Collect(ValueOf(id, metric), Collect(ObservedIn(cfg), batch)))
  }

  /** All there, and no two farther apart than the tolerance and the epsilon. */
  predicate Steady(vs: seq<real>, depth: nat, tolerance: real) {
    |vs| == depth && forall i, j | 0 <= i < depth && 0 <= j < depth :: vs[i] - vs[j] <= tolerance + EPSILON
  }

  lemma WindowSteady(vs: seq<real>, depth: nat, tolerance: real)
    requires depth >= 1 && |vs| <= depth
    ensures var w := WindowOf(depth, vs, tolerance);
            (w.ok <==> Steady(vs, depth, tolerance)) && (w.ok ==> w.value == vs[depth - 1])
  {
    WindowSpread(depth, vs, tolerance);
  }

  /** Below the cap, when a reading of any metric is flagged stuck, said of the
      values its sensor reported, this batch's included. */
  lemma StuckMeansRepeated(cfg: Config, batch: seq<Reading>, t: Tracked, depth: nat, cap: nat, r: Reading)
    requires cfg.Usable(r) && depth >= 1
    requires t.Valid(cap) && forall m :: |t.Series(r.sensorID, m)| <= depth
    requires |t.state.Keys + Ids(Collect(ObservedIn(cfg), batch))| <= cap
    ensures var own := Newest(cfg, batch, t, depth, r.sensorID, r.metric);
            var temperature := Newest(cfg, batch, t, depth, r.sensorID, "temperature");
            FlagIn(cfg, batch, t, depth, cap, r) == Stuck <==>
              if r.metric == "temperature" then Steady(own, depth, Max(0.0, cfg.temperatureFrozenTolerance))
              else if r.metric == "humidity" then
                && Steady(own, depth, 0.0)
                && (own[depth - 1] != 100.0 || Steady(temperature, depth, cfg.temperatureFrozenTolerance))
              else if r.metric == "P1" || r.metric == "P2" then Steady(own, depth, 0.0) && own[depth - 1] != 0.0
              else Steady(own, depth, 0.0)
  {
    hide FlagOf, Tracked.Valid, Tracked.Series, ReferenceFor, WindowOf, ObserveAll, Trim;
    var after := HistoryAfter(cfg, batch, t, depth, cap);
    var own := after.Series(r.sensorID, r.metric);
    var temperature := after.Series(r.sensorID, "temperature");
    SeriesBelowCap(t, depth, cap, Collect(ObservedIn(cfg), batch), r.sensorID, r.metric);
    SeriesBelowCap(t, depth, cap, Collect(ObservedIn(cfg), batch), r.sensorID, "temperature");
    StuckExactly(cfg, r, ReferenceFor(cfg, batch, r.metric), after, depth);
    TrimLength(depth, t.Series(r.sensorID, r.metric) + Collect(ValueOf(r.sensorID, r.metric), Collect(ObservedIn(cfg), batch)));
    TrimLength(depth, t.Series(r.sensorID, "temperature")
                      + Collect(ValueOf(r.sensorID, "temperature"), Collect(ObservedIn(cfg), batch)));
    WindowSteady(own, depth, 0.0);
    WindowSteady(own, depth, Max(0.0, cfg.temperatureFrozenTolerance));
    WindowSteady(temperature, depth, cfg.temperatureFrozenTolerance);
  }

  lemma TrimLength<T>(n: nat, s: seq<T>)
    ensures |Trim(n, s)| <= n
  {
  }

  /** A stuck series need not be exactly equal: all but the last of its values may
      differ from that by the epsilon. */
  lemma StuckWithoutEquality(depth: nat, id: int, metric: string, v: real)
    requires depth >= 2 && v + EPSILON !in ExemptStuckValues(metric)
    ensures var s := Repeated(v, depth - 1) + [v + EPSILON];
            s[0] != s[depth - 1] && IsStuck(Tracked(map[id := map[metric := s]], [id]), depth, id, metric)
  {
    WindowSpread(depth, Repeated(v, depth - 1) + [v + EPSILON], 0.0);
  }

  // ---- order and the cap ----

  /** No rearrangement that keeps each series in order can be told from any flag of
      the batch, whatever was tracked before, so long as the tracked and the
      reporting sensors are n in all. */
  ghost predicate OrderUnobservable(cfg: Config, depth: nat, cap: nat, n: nat) {
    forall a, b, t: Tracked, r |
      && multiset(a) == multiset(b) && SameSeries(cfg, a, b) && r in a
      && t.Valid(cap) && (forall id, metric :: |t.Series(id, metric)| <= depth)
      && |t.state.Keys + Ids(Collect(ObservedIn(cfg), a))| == n ::
      FlagIn(cfg, a, t, depth, cap, r) == FlagIn(cfg, b, t, depth, cap, r)
  }

  /** Order cannot be told if and only if all the sensors fit under the cap (or the
      cap lets no sensor in at all). Some value of some metric has to be able to
      count as stuck. */
  lemma OrderUnobservableExactly(cfg: Config, depth: nat, cap: nat, n: nat, metric: string, v: real)
    requires depth >= 1 && cfg.Usable(Reading(0, metric, 0.0, 0.0, v, 0)) && v !in ExemptStuckValues(metric)
    ensures OrderUnobservable(cfg, depth, cap, n) <==> n <= cap || cap == 0
  {
    hide FlagIn, SameSeries, Tracked.Valid, Tracked.Series, Ids, Collect;
    if n <= cap || cap == 0 {
      forall a, b, t: Tracked, r |
        && multiset(a) == multiset(b) && SameSeries(cfg, a, b) && r in a
        && t.Valid(cap) && (forall id, m :: |t.Series(id, m)| <= depth)
        && |t.state.Keys + Ids(Collect(ObservedIn(cfg), a))| == n
        ensures FlagIn(cfg, a, t, depth, cap, r) == FlagIn(cfg, b, t, depth, cap, r)
      {
        if n <= cap {
          OrderDoesNotMatter(cfg, a, b, t, depth, cap, r);
        } else {
          NothingTracked(cfg, a, b, t, depth, r);
        }
      }
    } else {
      OrderMattersOverCap(cfg, depth, cap, n, metric, v);
    }
  }

  lemma {:induction false} NoneAdmitted(t: Tracked, depth: nat, obs: seq<Observation>)
    requires t.Valid(0)
    ensures var after := ObserveAll(t, depth, 0, obs); after.Valid(0) && forall id, m :: after.Series(id, m) == []
  {
    AllKeep(t, depth, 0, obs);
    var after := ObserveAll(t, depth, 0, obs);
    forall id ensures id !in after.state { TrackedAreListed(after, 0, id); }
  }

  lemma NothingTracked(cfg: Config, a: seq<Reading>, b: seq<Reading>, t: Tracked, depth: nat, r: Reading)
    requires multiset(a) == multiset(b) && t.Valid(0)
    ensures FlagIn(cfg, a, t, depth, 0, r) == FlagIn(cfg, b, t, depth, 0, r)
  {
    hide FlagIn, Tracked.Valid, Tracked.Series;
    NoneAdmitted(t, depth, Collect(ObservedIn(cfg), a));
    NoneAdmitted(t, depth, Collect(ObservedIn(cfg), b));
    FlagFromSeries(cfg, a, b, t, depth, 0, r);
  }

  /** One sensor's reading, and one each of sensors 1 to n. */
  function At(id: int, metric: string, v: real): Reading { Reading(id, metric, 0.0, 0.0, v, 0) }

  function Others(n: nat, metric: string, v: real): seq<Reading> { seq(n, i requires 0 <= i < n => At(i + 1, metric, v)) }

  function Seen(batch: seq<Reading>): seq<Observation> {
    seq(|batch|, i requires 0 <= i < |batch| => Observation(batch[i].sensorID, batch[i].metric, batch[i].value))
  }

  lemma {:induction false} AllObserved(cfg: Config, batch: seq<Reading>)
    requires forall r | r in batch :: cfg.Usable(r)
    ensures Collect(ObservedIn(cfg), batch) == Seen(batch)
    decreases |batch|
  {
    if batch != [] {
      var n := |batch| - 1;
      AllObserved(cfg, batch[..n]);
      assert batch[n] in batch && forall r | r in batch[..n] :: r in batch;
      assert Seen(batch) == Seen(batch[..n]) + [Observation(batch[n].sensorID, batch[n].metric, batch[n].value)];
    }
  }

  lemma {:induction false} NoValues(id: int, metric: string, obs: seq<Observation>)
    requires forall i | 0 <= i < |obs| :: obs[i].id != id
    ensures Collect(ValueOf(id, metric), obs) == []
    decreases |obs|
  {
    if obs != [] {
      NoValues(id, metric, obs[..|obs| - 1]);
    }
  }

  lemma {:induction false} DistinctIds(obs: seq<Observation>)
    requires forall i, j | 0 <= i < j < |obs| :: obs[i].id != obs[j].id
    ensures |Ids(obs)| == |obs|
    decreases |obs|
  {
    if obs != [] {
      var n := |obs| - 1;
      DistinctIds(obs[..n]);
      IdsStep(obs[..n], obs[n]);
      assert obs == obs[..n] + [obs[n]];
      assert obs[n].id !in Ids(obs[..n]);
    }
  }

  /** For any cap and any number of sensors over it: a constant sensor that reports
      before the others is forgotten, one that reports after them is found stuck. */
  lemma OrderMattersOverCap(cfg: Config, depth: nat, cap: nat, n: nat, metric: string, v: real)
    requires depth >= 1 && 1 <= cap < n
    requires cfg.Usable(At(0, metric, v)) && v !in ExemptStuckValues(metric)
    ensures var a, b := Repeated(At(0, metric, v), depth) + Others(n - 1, metric, v),
                        Others(n - 1, metric, v) + Repeated(At(0, metric, v), depth);
            && multiset(a) == multiset(b) && SameSeries(cfg, a, b) && At(0, metric, v) in a
            && |Ids(Collect(ObservedIn(cfg), a))| == n
            && FlagIn(cfg, a, Tracked(map[], []), depth, cap, At(0, metric, v)) != Stuck
            && FlagIn(cfg, b, Tracked(map[], []), depth, cap, At(0, metric, v)) == Stuck
    ensures !OrderUnobservable(cfg, depth, cap, n)
  {
    hide FlagIn, SameSeries, Ids, Collect, Repeated, Others, OrderUnobservable;
    var z, o := Repeated(At(0, metric, v), depth), Others(n - 1, metric, v);
    WitnessContents(cfg, depth, n, metric, v);
    WitnessSeries(cfg, depth, n, metric, v);
    WitnessCount(cfg, depth, n, metric, v);
    WitnessFlags(cfg, depth, cap, n, metric, v);
    Told(cfg, depth, cap, n, z + o, o + z, At(0, metric, v));
  }

  /** Two arrangements that can be told apart from nothing tracked. */
  lemma Told(cfg: Config, depth: nat, cap: nat, n: nat, a: seq<Reading>, b: seq<Reading>, r: Reading)
    requires multiset(a) == multiset(b) && SameSeries(cfg, a, b) && r in a && |Ids(Collect(ObservedIn(cfg), a))| == n
    requires FlagIn(cfg, a, Tracked(map[], []), depth, cap, r) != FlagIn(cfg, b, Tracked(map[], []), depth, cap, r)
    ensures !OrderUnobservable(cfg, depth, cap, n)
  {
    hide FlagIn, SameSeries, Ids, Collect;
    var t: Tracked := Tracked(map[], []);
    assert t.state.Keys + Ids(Collect(ObservedIn(cfg), a)) == Ids(Collect(ObservedIn(cfg), a));
  }

  lemma WitnessContents(cfg: Config, depth: nat, n: nat, metric: string, v: real)
    requires depth >= 1 && n >= 1 && cfg.Usable(At(0, metric, v))
    ensures var z, o := Repeated(At(0, metric, v), depth), Others(n - 1, metric, v);
            && multiset(z + o) == multiset(o + z) && At(0, metric, v) in z + o
            && Collect(ObservedIn(cfg), z + o) == Repeated(Observation(0, metric, v), depth) + Seen(o)
            && Collect(ObservedIn(cfg), o + z) == Seen(o) + Repeated(Observation(0, metric, v), depth)
  {
    hide Collect, Repeated, Seen, Others, At, ObservedIn, Config.Usable;
    var z, o := Repeated(At(0, metric, v), depth), Others(n - 1, metric, v);
    assert (z + o)[0] == At(0, metric, v);
    WitnessUsable(cfg, depth, n, metric, v);
    CollectConcat(ObservedIn(cfg), z, o);
    CollectConcat(ObservedIn(cfg), o, z);
    AllObserved(cfg, z);
    AllObserved(cfg, o);
    SeenRepeated(depth, metric, v);
  }

  lemma WitnessUsable(cfg: Config, depth: nat, n: nat, metric: string, v: real)
    requires n >= 1 && cfg.Usable(At(0, metric, v))
    ensures forall r | r in Repeated(At(0, metric, v), depth) :: cfg.Usable(r)
    ensures forall r | r in Others(n - 1, metric, v) :: cfg.Usable(r)
  {
  }

  lemma SeenRepeated(depth: nat, metric: string, v: real)
    ensures Seen(Repeated(At(0, metric, v), depth)) == Repeated(Observation(0, metric, v), depth)
  {
  }

  lemma WitnessSeries(cfg: Config, depth: nat, n: nat, metric: string, v: real)
    requires depth >= 1 && n >= 1 && cfg.Usable(At(0, metric, v))
    ensures var z, o := Repeated(At(0, metric, v), depth), Others(n - 1, metric, v); SameSeries(cfg, z + o, o + z)
  {
    hide Collect;
    WitnessContents(cfg, depth, n, metric, v);
    var zs, os := Repeated(Observation(0, metric, v), depth), Seen(Others(n - 1, metric, v));
    forall id, m ensures Collect(ValueOf(id, m), zs + os) == Collect(ValueOf(id, m), os + zs) {
      CollectConcat(ValueOf(id, m), zs, os);
      CollectConcat(ValueOf(id, m), os, zs);
      if id == 0 { NoValues(id, m, os); } else { NoValues(id, m, zs); }
    }
  }

  lemma WitnessCount(cfg: Config, depth: nat, n: nat, metric: string, v: real)
    requires depth >= 1 && n >= 1 && cfg.Usable(At(0, metric, v))
    ensures |Ids(Collect(ObservedIn(cfg), Repeated(At(0, metric, v), depth) + Others(n - 1, metric, v)))| == n
  {
    hide Collect;
    WitnessContents(cfg, depth, n, metric, v);
    var zs, os := Repeated(Observation(0, metric, v), depth), Seen(Others(n - 1, metric, v));
    DistinctIds(os);
    IdsOfBoth(zs, os, 0);
  }

  lemma IdsOfBoth(zs: seq<Observation>, os: seq<Observation>, id: int)
    requires zs != [] && (forall o | o in zs :: o.id == id) && forall o | o in os :: o.id != id
    ensures |Ids(zs + os)| == |Ids(os)| + 1
  {
    assert zs[0] in zs && zs[0] in zs + os;
    assert Ids(zs + os) == {id} + Ids(os) && id !in Ids(os);
  }

  lemma WitnessFlags(cfg: Config, depth: nat, cap: nat, n: nat, metric: string, v: real)
    requires depth >= 1 && 1 <= cap < n
    requires cfg.Usable(At(0, metric, v)) && v !in ExemptStuckValues(metric)
    ensures var z, o := Repeated(At(0, metric, v), depth), Others(n - 1, metric, v); var t := Tracked(map[], []);
            && FlagIn(cfg, z + o, t, depth, cap, At(0, metric, v)) != Stuck
            && FlagIn(cfg, o + z, t, depth, cap, At(0, metric, v)) == Stuck
  {
    hide FlagOf, Collect, ReferenceFor, Tracked.Series, Repeated, Seen, Others;
    var z, o := Repeated(At(0, metric, v), depth), Others(n - 1, metric, v);
    WitnessContents(cfg, depth, n, metric, v);
    ForgottenFirst(depth, cap, n, metric, v);
    RememberedLast(depth, cap, n, metric, v);
    var r, t := At(0, metric, v), Tracked(map[], []);
    UnseenIsNotStuck(cfg, r, ReferenceFor(cfg, z + o, metric), HistoryAfter(cfg, z + o, t, depth, cap), depth);
    ConstantIsStuck(cfg, r, ReferenceFor(cfg, o + z, metric), HistoryAfter(cfg, o + z, t, depth, cap), depth);
  }

  lemma UnseenIsNotStuck(cfg: Config, r: Reading, population: seq<Reading>, t: Tracked, depth: nat)
    requires depth >= 1 && cfg.Usable(r) && r.sensorID !in t.state
    ensures FlagOf(cfg, r, population, t, depth) != Stuck
  {
    StuckExactly(cfg, r, population, t, depth);
  }

  lemma ConstantIsStuck(cfg: Config, r: Reading, population: seq<Reading>, t: Tracked, depth: nat)
    requires depth >= 1 && cfg.Usable(r) && r.value !in ExemptStuckValues(r.metric)
    requires t.Series(r.sensorID, r.metric) == Repeated(r.value, depth)
    ensures FlagOf(cfg, r, population, t, depth) == Stuck
  {
    WindowSpread(depth, Repeated(r.value, depth), 0.0);
  }

  lemma ForgottenFirst(depth: nat, cap: nat, n: nat, metric: string, v: real)
    requires depth >= 1 && 1 <= cap < n
    ensures var after := ObserveAll(Tracked(map[], []), depth, cap,
                                    Repeated(Observation(0, metric, v), depth) + Seen(Others(n - 1, metric, v)));
            0 !in after.state
  {
    hide Tracked.Observe, ObserveAll;
    var t: Tracked := Tracked(map[], []);
    var zs, os := Repeated(Observation(0, metric, v), depth), Seen(Others(n - 1, metric, v));
    ObserveConcat(t, depth, cap, zs, os);
    RepeatRemembered(t, depth, cap, Observation(0, metric, v), depth);
    var mid := ObserveAll(t, depth, cap, zs);
    assert mid.order == [0] by { assert t.order + [0] == [0]; }
    NewSensorsOrder(mid, depth, cap, os);
    TrackedAreListed(ObserveAll(mid, depth, cap, os), cap, 0);
  }

  lemma RememberedLast(depth: nat, cap: nat, n: nat, metric: string, v: real)
    requires depth >= 1 && 1 <= cap < n
    ensures var after := ObserveAll(Tracked(map[], []), depth, cap,
                                    Seen(Others(n - 1, metric, v)) + Repeated(Observation(0, metric, v), depth));
            after.Series(0, metric) == Repeated(v, depth)
  {
    hide Tracked.Observe, ObserveAll;
    var t: Tracked := Tracked(map[], []);
    var zs, os := Repeated(Observation(0, metric, v), depth), Seen(Others(n - 1, metric, v));
    ObserveConcat(t, depth, cap, os, zs);
    NewSensorsOrder(t, depth, cap, os);
    var mid := ObserveAll(t, depth, cap, os);
    TrackedAreListed(mid, cap, 0);
    assert 0 !in t.order + IdsOf(os);
    RepeatRemembered(mid, depth, cap, Observation(0, metric, v), depth);
  }
}
