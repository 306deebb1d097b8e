/** Station identity: the three groupings by published coordinate and network
    (internal/snapshot/build.go, and both builders of internal/snapshot/hexes.go). */
module Stations {
  import opened Contents
  import opened Sorting
  import opened Statistics
  import opened Wire
  import opened HexBins

  /** One more sensor changes the id of its own station only. */
  lemma StationIdStep(ms: seq<Sensor>, s: Sensor, k: StationKey)
    requires k in HexBins.Stations(ms + [s])
    ensures StationId(ms + [s], k) ==
            if StationKeyOf(s) != k then StationId(ms, k)
            else if k !in HexBins.Stations(ms) || s.id < StationId(ms, k) then s.id
            else StationId(ms, k)
  {
    var own := Members(ByStation, k, ms);
    MembersIn(ByStation, k, ms);
    CollectStep(Having(ByStation, k), ms, s);
    CollectStep(IdOf(), own, s);
    SmallestStep(Ids(own), s.id);
    assert own == [] ==> Ids(own) == [];
  }

  ghost function Lowest(ms: seq<Sensor>): map<StationKey, int> {
    map k | k in HexBins.Stations(ms) :: StationId(ms, k)
  }

  lemma StationsStep(ms: seq<Sensor>, s: Sensor)
    ensures HexBins.Stations(ms + [s]) == HexBins.Stations(ms) + {StationKeyOf(s)}
  {
  }

  lemma LowestStep(ms: seq<Sensor>, s: Sensor)
    ensures var k, was := StationKeyOf(s), Lowest(ms);
            Lowest(ms + [s]) == if k !in was || s.id < was[k] then was[k := s.id] else was
  {
    hide StationId, HexBins.Stations, StationKeyOf;
    StationsStep(ms, s);
    var was, now := Lowest(ms), Lowest(ms + [s]);
    forall k | k in now
      ensures now[k] == if StationKeyOf(s) != k then was[k] else if k !in was || s.id < was[k] then s.id else was[k]
    {
      StationIdStep(ms, s, k);
    }
  }

  /** Which site each sensor stands at, in order. */
  method StationIDs(sensors: seq<Sensor>) returns (out: seq<int>)
    ensures |out| == |sensors|
    ensures forall i | 0 <= i < |sensors| ::
              StationKeyOf(sensors[i]) in HexBins.Stations(sensors)
              && out[i] == StationId(sensors, StationKeyOf(sensors[i]))
  {
    hide StationId, StationKeyOf, HexBins.Stations;
    var lowest: map<StationKey, int> := map[];
    StationsEmpty();
    for i := 0 to |sensors|
      invariant lowest == Lowest(sensors[..i])
    {
      var sr := sensors[i];
      LowestStep(sensors[..i], sr);
      assert sensors[..i + 1] == sensors[..i] + [sr];
      var k := StationKeyOf(sr);
      if k !in lowest || sr.id < lowest[k] {
        lowest := lowest[k := sr.id];
      }
    }
    assert sensors[..|sensors|] == sensors;
    EveryStation(sensors);
    out := [];
    for i := 0 to |sensors|
      invariant |out| == i
      invariant forall j | 0 <= j < i :: out[j] == StationId(sensors, StationKeyOf(sensors[j]))
    {
      out := out + [lowest[StationKeyOf(sensors[i])]];
    }
  }

  lemma StationsEmpty()
    ensures HexBins.Stations([]) == {}
  {
  }

  lemma EveryStation(sensors: seq<Sensor>)
    ensures forall i | 0 <= i < |sensors| :: StationKeyOf(sensors[i]) in HexBins.Stations(sensors)
  {
  }

  // ---- the point tier ----

  function CountryOrUnknown(s: Sensor): string {
    if s.country == "" then CountryUnknown else s.country
  }

  /** The point-tier entry of station k: where it stands, its smallest member id,
      its device count, the first member's country, and the medians of the
      canonical metrics. */
  function PointOf(sensors: seq<Sensor>, k: StationKey): Entry
    requires k in HexBins.Stations(sensors)
  {
    MembersIn(ByStation, k, sensors);
    var own := Members(ByStation, k, sensors);
    Entry(k.lon, k.lat, StationId(sensors, k), map[], |own|, CountryOrUnknown(own[0]),
          Medians(Gathered(own)), k.source, map[])
  }

  const IdAtMost := (a: Entry, b: Entry) => a.sensorID <= b.sensorID

  /** One entry per station, ordered by station id. */
  ghost predicate IsPoints(out: seq<Entry>, sensors: seq<Sensor>) {
    && SortedBy(IdAtMost, out)
    && exists order: seq<StationKey> :: Covers(order, sensors) && multiset(out) == multiset(PointsIn(order, sensors))
  }

  ghost predicate Covers(order: seq<StationKey>, sensors: seq<Sensor>) {
    && (forall k :: k in order <==> k in HexBins.Stations(sensors))
    && (forall i, j | 0 <= i < j < |order| :: order[i] != order[j])
  }

  ghost function PointsIn(order: seq<StationKey>, sensors: seq<Sensor>): seq<Entry>
    requires forall k | k in order :: k in HexBins.Stations(sensors)
  {
    seq(|order|, i requires 0 <= i < |order| => assert order[i] in order; PointOf(sensors, order[i]))
  }

  /** A station being assembled: its entry so far, and every reading of its
      members, canonical metric or not. */
  datatype Draft = Draft(entry: Entry, vals: map<string, seq<real>>)

  ghost predicate Drafted(d: Draft, sensors: seq<Sensor>, k: StationKey) {
    && k in HexBins.Stations(sensors)
    && (MembersIn(ByStation, k, sensors);
        var own := Members(ByStation, k, sensors);
        && d.entry == Entry(k.lon, k.lat, StationId(sensors, k), map[], |own|, CountryOrUnknown(own[0]),
                            map[], k.source, map[])
        && forall m :: (m in d.vals <==> Readings(own, m) != []) && (m in d.vals ==> d.vals[m] == Readings(own, m)))
  }

  /** vals once the readings of the metrics in done have been appended. */
  ghost function Extended(vals: map<string, seq<real>>, values: map<string, real>, done: set<string>): map<string, seq<real>>
    requires done <= values.Keys
  {
    map m | m in vals.Keys + done :: if m in done then OrEmpty(vals, m) + [values[m]] else vals[m]
  }

  function OrEmpty(vals: map<string, seq<real>>, m: string): seq<real> {
    if m in vals then vals[m] else []
  }

  lemma ExtendStep(vals: map<string, seq<real>>, values: map<string, real>, done: set<string>, m: string)
    requires done <= values.Keys && m in values && m !in done
    ensures OrEmpty(Extended(vals, values, done), m) == OrEmpty(vals, m)
    ensures Extended(vals, values, done + {m}) == Extended(vals, values, done)[m := OrEmpty(vals, m) + [values[m]]]
  {
  }

  lemma ExtendNone(vals: map<string, seq<real>>, values: map<string, real>)
    ensures Extended(vals, values, {}) == vals
  {
  }

  /** Appending one sensor's readings to what a station has gathered. */
  method AppendReadings(vals: map<string, seq<real>>, values: map<string, real>) returns (out: map<string, seq<real>>)
    ensures out == Extended(vals, values, values.Keys)
  {
    hide OrEmpty, Extended;
    out := vals;
    var rest := values.Keys;
    ExtendNone(vals, values);
    assert values.Keys - rest == {};
    while rest != {}
      invariant rest <= values.Keys && out == Extended(vals, values, values.Keys - rest)
      decreases rest
    {
      var m :| m in rest;
      ExtendStep(vals, values, values.Keys - rest, m);
      assert values.Keys - rest + {m} == values.Keys - (rest - {m});
      out := out[m := OrEmpty(out, m) + [values[m]]];
      rest := rest - {m};
    }
    assert values.Keys - rest == values.Keys;
  }

  /** The group's readings with one more member. */
  lemma ReadingsStep(own: seq<Sensor>, s: Sensor, m: string)
    ensures Readings(own + [s], m) == Readings(own, m) + (if m in s.values then [s.values[m]] else [])
  {
  }

  lemma MemberStep(before: seq<Sensor>, s: Sensor, k: StationKey)
    ensures Members(ByStation, k, before + [s])
         == if StationKeyOf(s) == k then Members(ByStation, k, before) + [s] else Members(ByStation, k, before)
    ensures k in HexBins.Stations(before) <==> Members(ByStation, k, before) != []
  {
    MembersStep(ByStation, k, before, s);
    MembersIn(ByStation, k, before);
  }

  lemma DraftStep(before: seq<Sensor>, s: Sensor, k: StationKey, d: Draft, vals: map<string, seq<real>>)
    requires StationKeyOf(s) == k
    requires k in HexBins.Stations(before) ==> Drafted(d, before, k)
    requires k !in HexBins.Stations(before) ==>
               d == Draft(Entry(s.lon, s.lat, s.id, map[], 0, CountryOrUnknown(s), map[], k.source, map[]), map[])
    requires vals == Extended(d.vals, s.values, s.values.Keys)
    ensures Drafted(Draft(d.entry.(n := d.entry.n + 1,
                                   sensorID := if s.id < d.entry.sensorID then s.id else d.entry.sensorID), vals),
                    before + [s], k)
  {
    hide StationId, HexBins.Stations, Members, Readings;
    var own := Members(ByStation, k, before);
    StationsStep(before, s);
    MemberStep(before, s, k);
    StationIdStep(before, s, k);
    assert s.lon == k.lon && s.lat == k.lat;
    assert own != [] ==> (own + [s])[0] == own[0];
    forall m ensures Readings(own + [s], m) == Readings(own, m) + (if m in s.values then [s.values[m]] else []) {
      ReadingsStep(own, s, m);
    }
    if own == [] {
      NoReadings(own);
    }
  }

  lemma NoReadings(own: seq<Sensor>)
    requires own == []
    ensures forall m :: Readings(own, m) == []
  {
  }

  lemma DraftOther(before: seq<Sensor>, s: Sensor, k: StationKey, d: Draft)
    requires StationKeyOf(s) != k && Drafted(d, before, k)
    ensures Drafted(d, before + [s], k)
  {
  }

  /** Closing a draft: only canonical metrics are published. */
  method Publish(d: Draft, ghost sensors: seq<Sensor>, ghost k: StationKey) returns (e: Entry)
    requires Drafted(d, sensors, k)
    ensures e == PointOf(sensors, k)
  {
    ghost var own := Members(ByStation, k, sensors);
    var values: map<string, real> := map[];
    for i := 0 to |CanonicalMetrics()|
      invariant values.Keys == set m | m in CanonicalMetrics()[..i] && Readings(own, m) != []
      invariant forall m | m in values :: Readings(own, m) != [] && values[m] == Round1(Median(Readings(own, m)))
    {
      var m := CanonicalMetrics()[i];
      if m in d.vals {
        values := values[m := Round1(Median(d.vals[m]))];
      }
    }
    assert CanonicalMetrics()[..|CanonicalMetrics()|] == CanonicalMetrics();
    e := d.entry.(values := values);
    assert values == Medians(Gathered(own));
  }

  method PointsFrom(sensors: seq<Sensor>) returns (out: seq<Entry>)
    ensures IsPoints(out, sensors)
  {
    hide StationId, HexBins.Stations, Members, Readings, Drafted, PointOf, StationKeyOf, Extended;
    StationsEmpty();
    var order: seq<StationKey> := [];
    var stations: map<StationKey, Draft> := map[];
    for i := 0 to |sensors|
      invariant Covers(order, sensors[..i]) && stations.Keys == HexBins.Stations(sensors[..i])
      invariant forall k | k in stations :: Drafted(stations[k], sensors[..i], k)
    {
      var sr := sensors[i];
      ghost var before := sensors[..i];
      assert sensors[..i + 1] == before + [sr];
      var k := StationKeyOf(sr);
      StationsStep(before, sr);
      var st;
      if k in stations {
        st := stations[k];
      } else {
        st := Draft(Entry(sr.lon, sr.lat, sr.id, map[], 0, CountryOrUnknown(sr), map[], k.source, map[]), map[]);
        order := order + [k];
      }
      var vals := AppendReadings(st.vals, sr.values);
      DraftStep(before, sr, k, st, vals);
      forall other | other in stations && other != k {
        DraftOther(before, sr, other, stations[other]);
      }
      var entry := st.entry.(n := st.entry.n + 1);
      if sr.id < entry.sensorID {
        entry := entry.(sensorID := sr.id);
      }
      stations := stations[k := Draft(entry, vals)];
    }
    assert sensors[..|sensors|] == sensors;

    var listed: seq<Entry> := [];
    for i := 0 to |order|
      invariant |listed| == i && listed == PointsIn(order, sensors)[..i]
    {
      assert order[i] in order;
      var e := Publish(stations[order[i]], sensors, order[i]);
      listed := listed + [e];
    }
    assert listed == PointsIn(order, sensors);
    out := Sort(IdAtMost, listed);
    SortCorrect(IdAtMost, listed);
  }
}
