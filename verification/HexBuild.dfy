/** The loops of hexPayloadFrom (internal/snapshot/hexes.go): accumulate a bin
    per occupied cell, then close the bins in (q, r) order. Go ranges over its
    maps in no particular order; here every such range picks arbitrarily. */
module HexBuild {
  import opened Contents
  import opened Sorting
  import opened Statistics
  import opened HexGrid
  import opened Orders
  import opened Wire
  import opened HexBins
  import S = Stations
  import opened BBoxIndex

  datatype SourceBin = SourceBin(n: int, vals: map<string, seq<real>>)

  datatype Bin = Bin(n: int, vals: map<string, seq<real>>, countries: map<string, int>,
                     bySource: map<string, SourceBin>, stations: map<StationKey, int>, sensorID: int,
                     metricStations: map<string, set<StationKey>>)

  ghost function CountryCounts(ms: seq<Sensor>): map<string, int> {
    map code | code in CountryCodes(ms) :: |Members(ByCountry, code, ms)|
  }

  ghost function SourceBins(ms: seq<Sensor>): map<string, SourceBin> {
    map src | src in Sources(ms) :: SourceBinOf(ms, src)
  }

  ghost function SourceBinOf(ms: seq<Sensor>, src: string): SourceBin {
    var own := Members(BySourceName, src, ms); SourceBin(|own|, Gathered(own))
  }

  ghost function MetricStations(ms: seq<Sensor>): map<string, set<StationKey>> {
    map m | m in CanonicalMetrics() && Readings(ms, m) != [] :: Reporters(ms, m)
  }

  /** b has accumulated exactly the sensors ms. */
  ghost predicate Holds(b: Bin, ms: seq<Sensor>) {
    && b.n == |ms|
    && b.vals == Gathered(ms)
    && b.countries == CountryCounts(ms)
    && b.bySource == SourceBins(ms)
    && b.stations == S.Lowest(ms)
    && (ms != [] ==> b.sensorID == Smallest(Ids(ms)))
    && b.metricStations == MetricStations(ms)
  }

  // ---- one more sensor in a bin ----

  /** The canonical metrics a sensor reports among the first n. */
  ghost function Reported(s: Sensor, n: nat): set<string>
    requires n <= |CanonicalMetrics()|
  {
    set m | m in CanonicalMetrics()[..n] && m in s.values
  }

  lemma ReportedStep(s: Sensor, n: nat)
    requires n < |CanonicalMetrics()|
    ensures CanonicalMetrics()[n] !in Reported(s, n)
    ensures Reported(s, n + 1) ==
            if CanonicalMetrics()[n] in s.values then Reported(s, n) + {CanonicalMetrics()[n]} else Reported(s, n)
  {
  }

  ghost function AllReported(s: Sensor): set<string> {
    set m | m in CanonicalMetrics() && m in s.values
  }

  lemma ReportedAll(s: Sensor)
    ensures Reported(s, |CanonicalMetrics()|) == AllReported(s)
  {
  }

  lemma GatheredStep(ms: seq<Sensor>, s: Sensor)
    ensures Gathered(ms + [s]) == S.Extended(Gathered(ms), s.values, AllReported(s))
  {
    hide Readings, CanonicalMetrics;
    var was, now, want := Gathered(ms), Gathered(ms + [s]), S.Extended(Gathered(ms), s.values, AllReported(s));
    forall m ensures (m in now <==> m in want) && (m in now ==> now[m] == want[m]) {
      S.ReadingsStep(ms, s, m);
    }
  }

  /** stations per metric once station sk is added for the metrics in done. */
  ghost function Attributed(at: map<string, set<StationKey>>, done: set<string>, sk: StationKey): map<string, set<StationKey>> {
    map m | m in at.Keys + done :: if m in done then OrNone(at, m) + {sk} else at[m]
  }

  function OrNone(at: map<string, set<StationKey>>, m: string): set<StationKey> {
    if m in at then at[m] else {}
  }

  lemma AttributeStep(at: map<string, set<StationKey>>, done: set<string>, sk: StationKey, m: string)
    requires m !in done
    ensures OrNone(Attributed(at, done, sk), m) == OrNone(at, m)
    ensures Attributed(at, done + {m}, sk) == Attributed(at, done, sk)[m := OrNone(at, m) + {sk}]
  {
  }

  lemma AttributeNone(at: map<string, set<StationKey>>, sk: StationKey)
    ensures Attributed(at, {}, sk) == at
  {
  }

  lemma MetricStationsStep(ms: seq<Sensor>, s: Sensor)
    ensures MetricStations(ms + [s]) == Attributed(MetricStations(ms), AllReported(s), StationKeyOf(s))
  {
    hide Readings, StationKeyOf, Reporters, CanonicalMetrics;
    var at, now := MetricStations(ms), MetricStations(ms + [s]);
    var want := Attributed(at, AllReported(s), StationKeyOf(s));
    forall m ensures (m in now <==> m in want) && (m in now ==> now[m] == want[m]) {
      S.ReadingsStep(ms, s, m);
      ReportersStep(ms, s, m);
      NoReporters(ms, m);
    }
  }

  lemma ReportersStep(ms: seq<Sensor>, s: Sensor, m: string)
    ensures Reporters(ms + [s], m) == Reporters(ms, m) + (if m in s.values then {StationKeyOf(s)} else {})
  {
  }

  lemma NoReporters(ms: seq<Sensor>, m: string)
    ensures Readings(ms, m) == [] <==> Reporters(ms, m) == {}
  {
    CollectMembers(ReadingOf(m), ms);
    if s :| s in ms && m in s.values {
      assert ReadingOf(m)(s) == Some(s.values[m]);
      assert s.values[m] in Readings(ms, m);
      assert StationKeyOf(s) in Reporters(ms, m);
    }
    if Readings(ms, m) != [] {
      var v: real := Readings(ms, m)[0];
      assert v in Collect(ReadingOf(m), ms);
      var s :| s in ms && ReadingOf(m)(s) == Some(v);
      assert StationKeyOf(s) in Reporters(ms, m);
    }
  }

  lemma CountriesStep(ms: seq<Sensor>, s: Sensor)
    ensures CountryCounts(ms + [s]) ==
            var was := CountryCounts(ms);
            if s.country == "" then was
            else was[s.country := (if s.country in was then was[s.country] else 0) + 1]
  {
    hide Members;
    assert CountryCodes(ms + [s]) == CountryCodes(ms) + (if s.country == "" then {} else {s.country});
    forall code
      ensures |Members(ByCountry, code, ms + [s])| == |Members(ByCountry, code, ms)| + if s.country == code then 1 else 0
      ensures code != "" && code !in CountryCodes(ms) ==> |Members(ByCountry, code, ms)| == 0
    {
      MembersStep(ByCountry, code, ms, s);
      MembersIn(ByCountry, code, ms);
    }
  }

  lemma SourcesStep(ms: seq<Sensor>, s: Sensor)
    ensures var was, src := SourceBins(ms), SourceOf(s);
            var sb := if src in was then was[src] else SourceBin(0, map[]);
            SourceBins(ms + [s]) == was[src := SourceBin(sb.n + 1, S.Extended(sb.vals, s.values, AllReported(s)))]
  {
    hide Members, Gathered, SourceOf, S.Extended;
    var src := SourceOf(s);
    assert Sources(ms + [s]) == Sources(ms) + {src};
    forall other
      ensures Members(BySourceName, other, ms + [s])
           == if other == src then Members(BySourceName, other, ms) + [s] else Members(BySourceName, other, ms)
      ensures other !in Sources(ms) ==> Members(BySourceName, other, ms) == []
    {
      MembersStep(BySourceName, other, ms, s);
      MembersIn(BySourceName, other, ms);
    }
    GatheredStep(Members(BySourceName, src, ms), s);
    NoneGathered();
  }

  lemma NoneGathered()
    ensures Gathered([]) == map[]
  {
  }

  lemma IdsStep(ms: seq<Sensor>, s: Sensor)
    ensures Smallest(Ids(ms + [s])) == if ms == [] || s.id < Smallest(Ids(ms)) then s.id else Smallest(Ids(ms))
  {
  }

  method AddSensor(b: Bin, sr: Sensor, ghost ms: seq<Sensor>) returns (out: Bin)
    requires Holds(b, ms) && (ms == [] ==> b.sensorID == sr.id)
    ensures Holds(out, ms + [sr])
  {
    hide Gathered, CountryCounts, SourceBins, S.Lowest, Ids, MetricStations, S.Extended, Attributed, Reported,
         AllReported, CanonicalMetrics, S.OrEmpty, OrNone, SourceOf, StationKeyOf;
    ghost var after := ms + [sr];
    var sk := StationKeyOf(sr);
    var stations, sensorID, countries := b.stations, b.sensorID, b.countries;
    if sk !in stations || sr.id < stations[sk] {
      stations := stations[sk := sr.id];
    }
    assert stations == S.Lowest(after) by { S.LowestStep(ms, sr); }
    if sr.id < sensorID {
      sensorID := sr.id;
    }
    assert sensorID == Smallest(Ids(after)) by { IdsStep(ms, sr); }
    if sr.country != "" {
      countries := countries[sr.country := (if sr.country in countries then countries[sr.country] else 0) + 1];
    }
    assert countries == CountryCounts(after) by { CountriesStep(ms, sr); }
    var src := SourceOf(sr);
    var sb := if src in b.bySource then b.bySource[src] else SourceBin(0, map[]);
    var vals, own, at := SpreadReadings(sr, sk, b.vals, sb.vals, b.metricStations);
    assert vals == Gathered(after) by { GatheredStep(ms, sr); }
    assert at == MetricStations(after) by { MetricStationsStep(ms, sr); }
    var bySource := b.bySource[src := SourceBin(sb.n + 1, own)];
    assert bySource == SourceBins(after) by { SourcesStep(ms, sr); }
    out := Bin(b.n + 1, vals, countries, bySource, stations, sensorID, at);
  }

  /** The inner loop over the canonical metrics. */
  method SpreadReadings(sr: Sensor, sk: StationKey, vals0: map<string, seq<real>>, own0: map<string, seq<real>>,
                        at0: map<string, set<StationKey>>)
    returns (vals: map<string, seq<real>>, own: map<string, seq<real>>, at: map<string, set<StationKey>>)
    ensures vals == S.Extended(vals0, sr.values, AllReported(sr))
    ensures own == S.Extended(own0, sr.values, AllReported(sr))
    ensures at == Attributed(at0, AllReported(sr), sk)
  {
    hide S.Extended, Attributed, Reported, AllReported, CanonicalMetrics, S.OrEmpty, OrNone;
    vals, own, at := vals0, own0, at0;
    S.ExtendNone(vals, sr.values);
    S.ExtendNone(own, sr.values);
    AttributeNone(at, sk);
    ReportedNone(sr);
    ReportedAll(sr);
    for i := 0 to |CanonicalMetrics()|
      invariant Reported(sr, i) <= sr.values.Keys
      invariant vals == S.Extended(vals0, sr.values, Reported(sr, i))
      invariant own == S.Extended(own0, sr.values, Reported(sr, i))
      invariant at == Attributed(at0, Reported(sr, i), sk)
    {
      var m := CanonicalMetrics()[i];
      ReportedStep(sr, i);
      if m in sr.values {
        S.ExtendStep(vals0, sr.values, Reported(sr, i), m);
        S.ExtendStep(own0, sr.values, Reported(sr, i), m);
        AttributeStep(at0, Reported(sr, i), sk, m);
        vals := vals[m := S.OrEmpty(vals, m) + [sr.values[m]]];
        own := own[m := S.OrEmpty(own, m) + [sr.values[m]]];
        at := at[m := OrNone(at, m) + {sk}];
      }
    }
  }

  lemma ReportedNone(s: Sensor)
    ensures Reported(s, 0) == {}
  {
  }

  // ---- closing a bin ----

  method MediansOf(vals: map<string, seq<real>>) returns (out: map<string, real>)
    ensures out == Medians(vals)
  {
    out := map[];
    var rest := vals.Keys;
    while rest != {}
      invariant rest <= vals.Keys
      invariant out == MediansBut(vals, rest)
      decreases rest
    {
      var m :| m in rest;
      MediansStep(vals, rest, m);
      if |vals[m]| > 0 {
        out := out[m := Round1(Median(vals[m]))];
      }
      rest := rest - {m};
    }
  }

  ghost function MediansBut(vals: map<string, seq<real>>, rest: set<string>): map<string, real> {
    map m | m in vals && m !in rest && vals[m] != [] :: Round1(Median(vals[m]))
  }

  lemma MediansStep(vals: map<string, seq<real>>, rest: set<string>, m: string)
    requires m in rest && m in vals
    ensures MediansBut(vals, rest - {m}) ==
            if vals[m] != [] then MediansBut(vals, rest)[m := Round1(Median(vals[m]))] else MediansBut(vals, rest)
  {
  }

  method ModalCountry(countries: map<string, int>, ghost ms: seq<Sensor>) returns (best: string)
    requires countries == CountryCounts(ms)
    ensures IsModal(ms, best)
  {
    forall code | code in countries ensures code != "" && countries[code] > 0 {
      MembersIn(ByCountry, code, ms);
    }
    best := "";
    var bestN := 0;
    var rest := countries.Keys;
    LexTotal();
    while rest != {}
      invariant rest <= countries.Keys
      invariant if best == "" then bestN == 0 && rest == countries.Keys
                else best in countries && best !in rest && bestN == countries[best]
      invariant forall code | code in countries && code !in rest ::
                  countries[code] < bestN || (countries[code] == bestN && LexAtMost(best, code))
      decreases rest
    {
      var code :| code in rest;
      var n := countries[code];
      if n > bestN || (n == bestN && LexLeq(code, best) && code != best) {
        best, bestN := code, n;
      } else {
        assert LexAtMost(best, code) || LexAtMost(code, best);
      }
      rest := rest - {code};
    }
    if best == "" {
      best := CountryUnknown;
    } else {
      forall other | other in CountryCodes(ms)
        ensures var n, k := |Members(ByCountry, other, ms)|, |Members(ByCountry, best, ms)|;
                n < k || (n == k && LexLeq(best, other))
      {
        assert other in countries;
      }
    }
  }

  method MetricIds(at: map<string, set<StationKey>>, stations: map<StationKey, int>, ghost ms: seq<Sensor>)
    returns (ids: map<string, int>)
    requires at == MetricStations(ms) && stations == S.Lowest(ms)
    ensures ids.Keys == set m | m in CanonicalMetrics() && |Reporters(ms, m)| == 1
    ensures forall m, k | m in ids && k in Reporters(ms, m) :: k in Stations(ms) && ids[m] == StationId(ms, k)
  {
    hide StationId, CanonicalMetrics;
    ids := map[];
    var rest := at.Keys;
    while rest != {}
      invariant rest <= at.Keys
      invariant ids.Keys == set m | m in at && m !in rest && |at[m]| == 1
      invariant forall m, k | m in ids && k in at[m] :: k in stations && ids[m] == stations[k]
      decreases rest
    {
      var m :| m in rest;
      if |at[m]| == 1 {
        var sk :| sk in at[m];
        forall k | k in at[m] ensures k == sk { SingleMember(at[m], k, sk); }
        assert sk in Stations(ms);
        ids := ids[m := stations[sk]];
      }
      rest := rest - {m};
    }
    forall m ensures |Reporters(ms, m)| == 1 ==> Readings(ms, m) != [] {
      NoReporters(ms, m);
    }
    forall m, k | m in ids && k in Reporters(ms, m)
      ensures k in Stations(ms) && ids[m] == StationId(ms, k)
    {
      assert at[m] == Reporters(ms, m);
      assert k in stations;
    }
  }

  method SourceEntries(bySource: map<string, SourceBin>, ghost ms: seq<Sensor>) returns (out: map<string, SourceEntry>)
    requires bySource == SourceBins(ms)
    ensures out == map src | src in Sources(ms) :: SummaryOf(ms, src)
  {
    hide Members, Gathered, Medians;
    out := map[];
    var rest := bySource.Keys;
    while rest != {}
      invariant rest <= bySource.Keys
      invariant out == map src | src in bySource && src !in rest :: SummaryOf(ms, src)
      decreases rest
    {
      var src :| src in rest;
      var sv := MediansOf(bySource[src].vals);
      out := out[src := SourceEntry(bySource[src].n, sv)];
      rest := rest - {src};
    }
  }

  method Close(b: Bin, g: Lattice, res: Km, c: Axial, ghost ms: seq<Sensor>) returns (e: Entry)
    requires Holds(b, ms) && ms != []
    ensures Summarises(e, g, res, c, ms)
  {
    hide Gathered, Medians, CountryCounts, MetricStations, SummaryOf, StationId, Ids, IsModal, Round4, Reporters,
         Grid.HexCentre, CanonicalMetrics, Stations, Sources;
    var Point(lon, lat) := g.HexCentre(c, res);
    var values := MediansOf(b.vals);
    var country := ModalCountry(b.countries, ms);
    var byMetric := MetricIds(b.metricStations, b.stations, ms);
    assert b.stations.Keys == Stations(ms) && b.bySource.Keys == Sources(ms);
    e := Entry(Round4(lon), Round4(lat), 0, byMetric, b.n, country, values, "", map[]);
    if |b.stations.Keys| == 1 {
      e := e.(sensorID := b.sensorID);
    }
    if |b.bySource.Keys| == 1 {
      var src :| src in b.bySource.Keys;
      e := e.(source := src);
    } else {
      var entries := SourceEntries(b.bySource, ms);
      e := e.(bySource := entries);
    }
  }

  // ---- the whole grid ----

  lemma CellsStep(g: Lattice, res: Km, before: seq<Sensor>, s: Sensor, c: Axial)
    ensures Cells(g, res, before + [s]) == Cells(g, res, before) + {CellOf(g, res)(s)}
    ensures Members(CellOf(g, res), c, before + [s])
         == if CellOf(g, res)(s) == c then Members(CellOf(g, res), c, before) + [s] else Members(CellOf(g, res), c, before)
    ensures c in Cells(g, res, before) <==> Members(CellOf(g, res), c, before) != []
  {
    MembersStep(CellOf(g, res), c, before, s);
    MembersIn(CellOf(g, res), c, before);
  }

  method Accumulate(g: Lattice, res: Km, sensors: seq<Sensor>) returns (bins: map<Axial, Bin>)
    ensures bins.Keys == Cells(g, res, sensors)
    ensures forall c | c in bins :: Holds(bins[c], Members(CellOf(g, res), c, sensors))
  {
    hide Holds, Members, Cells, Grid.HexOf;
    NothingHeld(g, res);
    bins := map[];
    for i := 0 to |sensors|
      invariant bins.Keys == Cells(g, res, sensors[..i])
      invariant forall c | c in bins :: Holds(bins[c], Members(CellOf(g, res), c, sensors[..i]))
    {
      var sr := sensors[i];
      ghost var before := sensors[..i];
      assert sensors[..i + 1] == before + [sr];
      var c := g.HexOf(sr.lon, sr.lat, res);
      EmptyHolds(sr.id);
      var b := if c in bins then bins[c] else Bin(0, map[], map[], map[], map[], sr.id, map[]);
      CellsStep(g, res, before, sr, c);
      var grown := AddSensor(b, sr, Members(CellOf(g, res), c, before));
      forall other | other in bins && other != c
        ensures Members(CellOf(g, res), other, before + [sr]) == Members(CellOf(g, res), other, before)
      {
        CellsStep(g, res, before, sr, other);
      }
      bins := bins[c := grown];
    }
    assert sensors[..|sensors|] == sensors;
  }

  lemma CellOccupied(g: Lattice, res: Km, sensors: seq<Sensor>, c: Axial)
    requires c in Cells(g, res, sensors)
    ensures Members(CellOf(g, res), c, sensors) != []
  {
    MembersIn(CellOf(g, res), c, sensors);
  }

  lemma NothingHeld(g: Lattice, res: Km)
    ensures Cells(g, res, []) == {}
  {
  }

  lemma EmptyHolds(id: int)
    ensures Holds(Bin(0, map[], map[], map[], map[], id, map[]), [])
  {
  }

  /** Collecting a map's keys and sorting them by coordinate. */
  method OrderedCells(cells: set<Axial>) returns (ordered: seq<Axial>)
    ensures TotalOrder(AxialAtMost) && ordered == Ascending(AxialAtMost, cells)
  {
    ordered := [];
    var rest := cells;
    while rest != {}
      invariant rest <= cells && multiset(ordered) == multiset(cells - rest)
      decreases rest
    {
      var c :| c in rest;
      ordered := ordered + [c];
      assert cells - (rest - {c}) == cells - rest + {c};
      rest := rest - {c};
    }
    assert cells - rest == cells;
    AxialTotal();
    SortCorrect(AxialAtMost, ordered);
    ordered := Sort(AxialAtMost, ordered);
    AscendingUnique(AxialAtMost, cells, ordered);
  }

  method CloseAll(bins: map<Axial, Bin>, ordered: seq<Axial>, g: Lattice, res: Km, ghost sensors: seq<Sensor>)
    returns (hexes: seq<Entry>)
    requires forall i | 0 <= i < |ordered| ::
               ordered[i] in bins && Holds(bins[ordered[i]], Members(CellOf(g, res), ordered[i], sensors))
               && Members(CellOf(g, res), ordered[i], sensors) != []
    ensures |hexes| == |ordered|
    ensures forall i | 0 <= i < |ordered| ::
              Summarises(hexes[i], g, res, ordered[i], Members(CellOf(g, res), ordered[i], sensors))
  {
    hide Holds, Summarises, Members, CellOf;
    hexes := [];
    for i := 0 to |ordered|
      invariant |hexes| == i
      invariant forall j | 0 <= j < i ::
                  Summarises(hexes[j], g, res, ordered[j], Members(CellOf(g, res), ordered[j], sensors))
    {
      var c := ordered[i];
      var e := Close(bins[c], g, res, c, Members(CellOf(g, res), c, sensors));
      hexes := hexes + [e];
    }
  }

  /** The published grid, and the index its viewport clips go through. */
  method HexPayload(g: Lattice, res: Km, sensors: seq<Sensor>) returns (hexes: seq<Entry>, idx: Index)
    ensures IsPayload(hexes, g, res, sensors) && idx.Indexes(hexes)
  {
    hide Holds, Summarises, Members, Cells, Index.Indexes, SortedBy, Preorder, TotalOrder, CellOf;
    var bins := Accumulate(g, res, sensors);
    var ordered := OrderedCells(bins.Keys);
    forall i | 0 <= i < |ordered|
      ensures ordered[i] in bins && Members(CellOf(g, res), ordered[i], sensors) != []
    {
      assert ordered[i] in ordered;
      CellOccupied(g, res, sensors, ordered[i]);
    }
    hexes := CloseAll(bins, ordered, g, res, sensors);
    idx := BuildIndex(hexes);
  }
}
