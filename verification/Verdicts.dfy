/** What the flags of internal/quality/score.go mean, said of the batch alone:
    which readings a reading is judged against, and what they decide. */
module Verdicts {
  import opened Contents
  import opened Statistics
  import opened History
  import opened Quality

  /** o is a neighbour of r: another sensor's plausible reading of the same metric,
      close enough. */
  predicate Near(cfg: Config, r: Reading, o: Reading) {
    && o.metric == r.metric && o.sensorID != r.sensorID
    && cfg.distance(r.lon, r.lat, o.lon, o.lat) <= cfg.neighbourRadius
    && Plausible(cfg, o)
  }

  predicate Plausible(cfg: Config, o: Reading) {
    && o.metric in cfg.ranges && cfg.ranges[o.metric].min <= o.value <= cfg.ranges[o.metric].max
    && !(o.metric in cfg.clampSentinels && o.value == cfg.clampSentinels[o.metric])
  }

  predicate NearWithin(cfg: Config, r: Reading, lo: real, hi: real, o: Reading) {
    Near(cfg, r, o) && lo <= o.value <= hi
  }

  function NearValue(cfg: Config, r: Reading): Reading -> Option<real> {
    (o: Reading) => if Near(cfg, r, o) then Some(o.value) else None
  }

  /** The values a reading is compared with are its neighbours'. */
  lemma ComparedWithNeighbours(cfg: Config, batch: seq<Reading>, r: Reading)
    ensures Values(Collect(NeighbourOf(cfg, r), ReferenceFor(cfg, batch, r.metric))) == Collect(NearValue(cfg, r), batch)
  {
    hide Collect;
    var population := ReferenceFor(cfg, batch, r.metric);
    var value := (n: Neighbour) => Some(n.value);
    var ofNeighbour := (o: Reading) => match NeighbourOf(cfg, r)(o) case None => None case Some(n) => value(n);
    ValuesCollected(Collect(NeighbourOf(cfg, r), population));
    CollectThrough(value, NeighbourOf(cfg, r), ofNeighbour, population);
    CollectThrough(ofNeighbour, ReferenceIn(cfg, r.metric), NearValue(cfg, r), batch);
  }

  /** A clamped reading is flagged so, whatever else is true of it; one that is not,
      but lies outside its metric's range or has none, is out of range; no other
      reading is flagged either. */
  lemma ImplausibleExactly(cfg: Config, batch: seq<Reading>, t: Tracked, depth: nat, cap: nat, r: Reading)
    ensures var flag := FlagIn(cfg, batch, t, depth, cap, r);
            var clamped := r.metric in cfg.clampSentinels && r.value == cfg.clampSentinels[r.metric];
            && (flag == Clamped <==> clamped)
            && (flag == OutOfRange <==> !clamped && !(r.metric in cfg.ranges
                                                     && cfg.ranges[r.metric].min <= r.value <= cfg.ranges[r.metric].max))
            && (flag in {FlagOK, Stuck, SpatialOutlier, NoNeighbours} <==> Plausible(cfg, r))
  {
    NeverStuckSpatially(cfg, r.metric, r.value,
                        Values(Collect(NeighbourOf(cfg, r), ReferenceFor(cfg, batch, r.metric))));
  }

  lemma PlausibleIsUsable(cfg: Config, r: Reading)
    ensures Plausible(cfg, r) <==> cfg.Usable(r)
  {
  }

  /** A plausible reading that is not stuck is judged by its neighbours' values. */
  lemma JudgedByNeighbours(cfg: Config, batch: seq<Reading>, t: Tracked, depth: nat, cap: nat, r: Reading)
    requires Plausible(cfg, r) && FlagIn(cfg, batch, t, depth, cap, r) != Stuck
    ensures FlagIn(cfg, batch, t, depth, cap, r) == SpatialFlag(cfg, r.metric, r.value, Collect(NearValue(cfg, r), batch))
    ensures |Collect(NearValue(cfg, r), batch)| == Count((o: Reading) => Near(cfg, r, o), batch)
  {
    hide Near, SpatialFlag;
    ComparedWithNeighbours(cfg, batch, r);
    CollectCount(NearValue(cfg, r), (o: Reading) => Near(cfg, r, o), batch);
    PlausibleIsUsable(cfg, r);
  }

  /** It has no neighbours, officially, exactly when it has fewer than it takes. */
  lemma NoNeighboursExactly(cfg: Config, batch: seq<Reading>, t: Tracked, depth: nat, cap: nat, r: Reading)
    requires Plausible(cfg, r) && FlagIn(cfg, batch, t, depth, cap, r) != Stuck
    ensures FlagIn(cfg, batch, t, depth, cap, r) == NoNeighbours
            <==> Count((o: Reading) => Near(cfg, r, o), batch) < cfg.minNeighbours
  {
    hide FlagIn;
    JudgedByNeighbours(cfg, batch, t, depth, cap, r);
  }

  lemma Majority(cfg: Config, batch: seq<Reading>, r: Reading, lo: real, hi: real)
    requires 2 * Count((o: Reading) => NearWithin(cfg, r, lo, hi, o), batch) > Count((o: Reading) => Near(cfg, r, o), batch)
    ensures var values := Collect(NearValue(cfg, r), batch); 2 * CountWithin(lo, hi, values) > |values|
  {
    hide Near, Collect;
    var inside := (v: real) => if lo <= v <= hi then Some(v) else None;
    var through := (o: Reading) => match NearValue(cfg, r)(o) case None => None case Some(v) => inside(v);
    CollectCount(NearValue(cfg, r), (o: Reading) => Near(cfg, r, o), batch);
    CollectCount(through, (o: Reading) => NearWithin(cfg, r, lo, hi, o), batch);
    CollectThrough(inside, NearValue(cfg, r), through, batch);
  }

  /** On a smooth metric, while strictly more than half of enough neighbours report
      within [lo, hi], nothing the others report hides a reading far outside or, when
      the interval is no wider than the floor, condemns one inside. */
  lemma SmoothVerdict(cfg: Config, batch: seq<Reading>, t: Tracked, depth: nat, cap: nat, r: Reading, lo: real, hi: real)
    requires Plausible(cfg, r) && FlagIn(cfg, batch, t, depth, cap, r) != Stuck
    requires r.metric in cfg.smoothFieldFloors && r.metric != "P1" && r.metric != "P2" && cfg.madThreshold * cfg.madScale >= 0.0
    requires Count((o: Reading) => Near(cfg, r, o), batch) >= cfg.minNeighbours
    requires 2 * Count((o: Reading) => NearWithin(cfg, r, lo, hi, o), batch) > Count((o: Reading) => Near(cfg, r, o), batch)
    ensures var floor := cfg.smoothFieldFloors[r.metric]; var scaled := cfg.madThreshold * cfg.madScale * (hi - lo);
            var reach := if scaled < floor then floor else scaled;
            && (r.value > hi + reach || r.value < lo - reach ==> FlagIn(cfg, batch, t, depth, cap, r) == SpatialOutlier)
            && (lo <= r.value <= hi && hi - lo <= floor ==> FlagIn(cfg, batch, t, depth, cap, r) == FlagOK)
  {
    hide FlagIn, Near, NearWithin, SpatialFlag, Collect;
    JudgedByNeighbours(cfg, batch, t, depth, cap, r);
    Majority(cfg, batch, r, lo, hi);
    OutlierBreakdown(cfg, r.metric, r.value, Collect(NearValue(cfg, r), batch), lo, hi);
  }

  /** The same for particulates, against the ratio and the absolute threshold. */
  lemma ParticulateVerdict(cfg: Config, batch: seq<Reading>, t: Tracked, depth: nat, cap: nat, r: Reading, lo: real, hi: real)
    requires Plausible(cfg, r) && FlagIn(cfg, batch, t, depth, cap, r) != Stuck
    requires (r.metric == "P1" || r.metric == "P2") && cfg.pmRatioThreshold >= 0.0 && lo > 0.0
    requires Count((o: Reading) => Near(cfg, r, o), batch) >= cfg.minNeighbours
    requires 2 * Count((o: Reading) => NearWithin(cfg, r, lo, hi, o), batch) > Count((o: Reading) => Near(cfg, r, o), batch)
    ensures var flag := FlagIn(cfg, batch, t, depth, cap, r);
            && (r.value > cfg.pmRatioThreshold * hi && r.value > cfg.pmAbsoluteThreshold ==> flag == SpatialOutlier)
            && (r.value <= cfg.pmRatioThreshold * lo || r.value <= cfg.pmAbsoluteThreshold ==> flag == FlagOK)
  {
    hide FlagIn, Near, NearWithin, SpatialFlag, Collect;
    JudgedByNeighbours(cfg, batch, t, depth, cap, r);
    Majority(cfg, batch, r, lo, hi);
    ParticulateBreakdown(cfg, r.metric, r.value, Collect(NearValue(cfg, r), batch), lo, hi);
  }

  /** Clean air around a particulate reading, or a metric without a spatial
      expectation, never makes an outlier. */
  lemma NeverAnOutlier(cfg: Config, batch: seq<Reading>, t: Tracked, depth: nat, cap: nat, r: Reading)
    requires Plausible(cfg, r) && FlagIn(cfg, batch, t, depth, cap, r) != Stuck
    requires Count((o: Reading) => Near(cfg, r, o), batch) >= cfg.minNeighbours
    requires if r.metric == "P1" || r.metric == "P2"
             then 2 * Count((o: Reading) => NearWithin(cfg, r, 0.0, 0.0, o), batch) > Count((o: Reading) => Near(cfg, r, o), batch)
             else r.metric !in cfg.smoothFieldFloors
    ensures FlagIn(cfg, batch, t, depth, cap, r) == FlagOK
  {
    hide FlagIn, Near, NearWithin, Collect;
    JudgedByNeighbours(cfg, batch, t, depth, cap, r);
    if r.metric == "P1" || r.metric == "P2" {
      Majority(cfg, batch, r, 0.0, 0.0);
      MadBreakdown(0.0, 0.0, Collect(NearValue(cfg, r), batch));
    }
  }

  /** The values a sensor's plausible readings of a metric carry. */
  function OwnValue(cfg: Config, id: int, metric: string): Reading -> Option<real> {
    (o: Reading) => if o.sensorID == id && o.metric == metric && Plausible(cfg, o) then Some(o.value) else None
  }

  /** What a sensor has reported of a metric, as far back as is remembered. */
  function Reported(cfg: Config, batch: seq<Reading>, t: Tracked, id: int, metric: string): seq<real> {
    t.Series(id, metric) + Collect(OwnValue(cfg, id, metric), batch)
  }

  lemma ReportedIsNewest(cfg: Config, batch: seq<Reading>, t: Tracked, depth: nat, id: int, metric: string)
    ensures Newest(cfg, batch, t, depth, id, metric) == Trim(depth, Reported(cfg, batch, t, id, metric))
  {
    hide Collect;
    CollectThrough(ValueOf(id, metric), ObservedIn(cfg), OwnValue(cfg, id, metric), batch);
  }

  /** The newest depth of the values are depth in number and no two are farther apart
      than the tolerance, to a billionth. */
  predicate Constant(vs: seq<real>, depth: nat, tolerance: real) {
    |vs| >= depth && forall i, j | |vs| - depth <= i < |vs| && |vs| - depth <= j < |vs| :: vs[i] - vs[j] <= tolerance + 0.000000001
  }

  lemma ConstantIsSteady(vs: seq<real>, depth: nat, tolerance: real)
    ensures Steady(Trim(depth, vs), depth, tolerance) <==> Constant(vs, depth, tolerance)
  {
    var newest := Trim(depth, vs);
    if |vs| >= depth {
      assert forall i | 0 <= i < depth :: newest[i] == vs[|vs| - depth + i];
      if Steady(newest, depth, tolerance) {
        forall i, j | |vs| - depth <= i < |vs| && |vs| - depth <= j < |vs| ensures vs[i] - vs[j] <= tolerance + 0.000000001 {
          var a, b := i - (|vs| - depth), j - (|vs| - depth);
          assert newest[a] - newest[b] <= tolerance + EPSILON;
        }
      }
    }
  }

  /** Below the cap, a plausible reading is stuck when the newest values its sensor
      reported plausibly, this batch's included, do not move. A constant particulate
      zero is not, nor a constant full humidity while the temperature moves. */
  lemma StuckByReadings(cfg: Config, batch: seq<Reading>, t: Tracked, depth: nat, cap: nat, r: Reading)
    requires Plausible(cfg, r) && depth >= 1
    requires t.Valid(cap) && forall m :: |t.Series(r.sensorID, m)| <= depth
    requires |t.state.Keys + (set o | o in batch && Plausible(cfg, o) :: o.sensorID)| <= cap
    ensures var own := Reported(cfg, batch, t, r.sensorID, r.metric);
            var temperature := Reported(cfg, batch, t, r.sensorID, "temperature");
            FlagIn(cfg, batch, t, depth, cap, r) == Stuck <==>
              if r.metric == "temperature" then Constant(own, depth, Max(0.0, cfg.temperatureFrozenTolerance))
              else
                && Constant(own, depth, 0.0)
                && !((r.metric == "P1" || r.metric == "P2") && own[|own| - 1] == 0.0)
                && !(r.metric == "humidity" && own[|own| - 1] == 100.0 && !Constant(temperature, depth, cfg.temperatureFrozenTolerance))
  {
    hide FlagIn, Constant, Steady, Tracked.Series, Tracked.Valid, Newest, Plausible;
    var own := Reported(cfg, batch, t, r.sensorID, r.metric);
    ReportingSensors(cfg, batch);
    PlausibleIsUsable(cfg, r);
    StuckMeansRepeated(cfg, batch, t, depth, cap, r);
    ReportedIsNewest(cfg, batch, t, depth, r.sensorID, r.metric);
    ReportedIsNewest(cfg, batch, t, depth, r.sensorID, "temperature");
    ConstantIsSteady(own, depth, 0.0);
    ConstantIsSteady(own, depth, Max(0.0, cfg.temperatureFrozenTolerance));
    ConstantIsSteady(Reported(cfg, batch, t, r.sensorID, "temperature"), depth, cfg.temperatureFrozenTolerance);
    if Constant(own, depth, 0.0) {
      NewestLast(own, depth);
    }
  }

  lemma NewestLast(vs: seq<real>, depth: nat)
    requires depth >= 1 && Constant(vs, depth, 0.0)
    ensures |vs| >= depth && |Trim(depth, vs)| == depth && Trim(depth, vs)[depth - 1] == vs[|vs| - 1]
  {
  }

  lemma ReportingSensors(cfg: Config, batch: seq<Reading>)
    ensures Ids(Collect(ObservedIn(cfg), batch)) == set o | o in batch && Plausible(cfg, o) :: o.sensorID
  {
    hide Collect;
    var obs := Collect(ObservedIn(cfg), batch);
    CollectMembers(ObservedIn(cfg), batch);
    forall o | o in batch && Plausible(cfg, o) ensures o.sensorID in Ids(obs) {
      assert ObservedIn(cfg)(o) == Some(Observation(o.sensorID, o.metric, o.value));
      assert Observation(o.sensorID, o.metric, o.value) in obs;
    }
  }
}
