/** How internal/snapshot/hexes.go bins sensors onto the grid and summarises
    each bin. */
module HexBins {
  import opened Contents
  import opened Sorting
  import opened Statistics
  import opened HexGrid
  import opened Orders
  import opened Wire

  // ---- what a group of sensors reports ----

  function ReadingOf(m: string): Sensor -> Option<real> {
    (s: Sensor) => if m in s.values then Some(s.values[m]) else None
  }

  /** The group's readings of one metric, in order. */
  function Readings(ms: seq<Sensor>, m: string): seq<real> { Collect(ReadingOf(m), ms) }

  function IdOf(): Sensor -> Option<int> { (s: Sensor) => Some(s.id) }

  function Ids(ms: seq<Sensor>): (ids: seq<int>)
    ensures ms != [] ==> ids != []
  {
    if ms != [] then CollectStep(IdOf(), ms[..|ms| - 1], ms[|ms| - 1]);
                     assert ms == ms[..|ms| - 1] + [ms[|ms| - 1]]; Collect(IdOf(), ms)
    else Collect(IdOf(), ms)
  }

  const ByStation := (s: Sensor) => StationKeyOf(s)
  const BySourceName := (s: Sensor) => SourceOf(s)
  const ByCountry := (s: Sensor) => s.country

  function CellOf(g: Lattice, res: Km): Sensor -> Axial {
    (s: Sensor) => g.HexOf(s.lon, s.lat, res)
  }

  function Stations(ms: seq<Sensor>): set<StationKey> { set s | s in ms :: StationKeyOf(s) }

  function Reporters(ms: seq<Sensor>, m: string): set<StationKey> {
    set s | s in ms && m in s.values :: StationKeyOf(s)
  }

  function Sources(ms: seq<Sensor>): set<string> { set s | s in ms :: SourceOf(s) }

  function CountryCodes(ms: seq<Sensor>): set<string> { set s | s in ms && s.country != "" :: s.country }

  /** A station's id: its smallest member id. */
  function StationId(ms: seq<Sensor>, k: StationKey): int
    requires k in Stations(ms)
  {
    MembersIn(ByStation, k, ms);
    Smallest(Ids(Members(ByStation, k, ms)))
  }

  /** Readings per metric, with no key for a metric nobody reports. */
  function Gathered(ms: seq<Sensor>): map<string, seq<real>> {
    map m | m in CanonicalMetrics() && Readings(ms, m) != [] :: Readings(ms, m)
  }

  function Medians(vals: map<string, seq<real>>): map<string, real> {
    map m | m in vals && vals[m] != [] :: Round1(Median(vals[m]))
  }

  /** The most common country, ties to the smallest code. */
  ghost predicate IsModal(ms: seq<Sensor>, country: string) {
    if CountryCodes(ms) == {} then country == CountryUnknown
    else
      country in CountryCodes(ms) && forall other | other in CountryCodes(ms) ::
        var n, k := |Members(ByCountry, other, ms)|, |Members(ByCountry, country, ms)|;
        n < k || (n == k && LexLeq(country, other))
  }

  /** e is the published summary of a bin with centre c and members ms. */
  ghost predicate Summarises(e: Entry, g: Lattice, res: Km, c: Axial, ms: seq<Sensor>)
  {
    var Point(lon, lat) := g.HexCentre(c, res);
    && e.lon == Round4(lon) && e.lat == Round4(lat)
    && e.n == |ms|
    && e.values == Medians(Gathered(ms))
    && IsModal(ms, e.country)
    && e.sensorID == (if ms != [] && |Stations(ms)| == 1 then Smallest(Ids(ms)) else 0)
    && e.sensorIDByMetric.Keys == (set m | m in CanonicalMetrics() && |Reporters(ms, m)| == 1)
    && (forall m, k | m in e.sensorIDByMetric && k in Reporters(ms, m) ::
          k in Stations(ms) && e.sensorIDByMetric[m] == StationId(ms, k))
    && (if |Sources(ms)| == 1 then e.source in Sources(ms) && e.bySource == map[]
        else e.source == "" && e.bySource == map src | src in Sources(ms) :: SummaryOf(ms, src))
  }

  /** One network's share of a bin. */
  function SummaryOf(ms: seq<Sensor>, src: string): SourceEntry {
    var own := Members(BySourceName, src, ms);
    SourceEntry(|own|, Medians(Gathered(own)))
  }

  function Cells(g: Lattice, res: Km, sensors: seq<Sensor>): set<Axial> {
    set s | s in sensors :: CellOf(g, res)(s)
  }

  /** hexes lists one summary per occupied cell, in strict (q, r) order. */
  ghost predicate IsPayload(hexes: seq<Entry>, g: Lattice, res: Km, sensors: seq<Sensor>) {
    AxialTotal();
    var cells := Ascending(AxialAtMost, Cells(g, res, sensors));
    && |hexes| == |cells|
    && forall i | 0 <= i < |cells| ::
         Summarises(hexes[i], g, res, cells[i], Members(CellOf(g, res), cells[i], sensors))
  }

  // ---- the payload is a function of the readings alone ----

  lemma SameElements<T>(a: seq<T>, b: seq<T>)
    requires multiset(a) == multiset(b)
    ensures |a| == |b| && forall x :: x in a <==> x in b
  {
    assert |multiset(a)| == |a| && |multiset(b)| == |b|;
    forall x ensures x in a <==> x in b {
      assert x in a <==> x in multiset(a);
      assert x in b <==> x in multiset(b);
    }
  }

  lemma GatheredByContents(a: seq<Sensor>, b: seq<Sensor>)
    requires multiset(a) == multiset(b)
    ensures Medians(Gathered(a)) == Medians(Gathered(b))
  {
    forall m ensures multiset(Readings(a, m)) == multiset(Readings(b, m)) && |Readings(a, m)| == |Readings(b, m)| {
      CollectContents(ReadingOf(m), a, b);
    }
    forall m | m in Gathered(a) ensures m in Gathered(b) && Median(Gathered(a)[m]) == Median(Gathered(b)[m]) {
      MedianByContents(Readings(a, m), Readings(b, m));
    }
    assert Gathered(a).Keys == Gathered(b).Keys;
  }

  lemma SetsByContents(a: seq<Sensor>, b: seq<Sensor>)
    requires multiset(a) == multiset(b)
    ensures Stations(a) == Stations(b) && Sources(a) == Sources(b) && CountryCodes(a) == CountryCodes(b)
    ensures forall m :: Reporters(a, m) == Reporters(b, m)
  {
    SameElements(a, b);
  }

  lemma SmallestIdByContents(a: seq<Sensor>, b: seq<Sensor>)
    requires multiset(a) == multiset(b) && a != []
    ensures b != [] && Smallest(Ids(a)) == Smallest(Ids(b))
  {
    SameElements(a, b);
    CollectContents(IdOf(), a, b);
    SmallestOfSame(Ids(a), Ids(b));
  }

  lemma StationIdByContents(a: seq<Sensor>, b: seq<Sensor>, k: StationKey)
    requires multiset(a) == multiset(b) && k in Stations(a)
    ensures k in Stations(b) && StationId(a, k) == StationId(b, k)
  {
    SetsByContents(a, b);
    CollectContents(Having(ByStation, k), a, b);
    MembersIn(ByStation, k, a);
    SmallestIdByContents(Members(ByStation, k, a), Members(ByStation, k, b));
  }

  lemma ModalUnique(a: seq<Sensor>, b: seq<Sensor>, x: string, y: string)
    requires multiset(a) == multiset(b) && IsModal(a, x) && IsModal(b, y)
    ensures x == y
  {
    SetsByContents(a, b);
    forall code ensures |Members(ByCountry, code, a)| == |Members(ByCountry, code, b)| {
      CollectContents(Having(ByCountry, code), a, b);
    }
    if CountryCodes(a) != {} && LexLeq(x, y) && LexLeq(y, x) {
      LexAntisymmetric(x, y);
    }
  }

  lemma SourcesByContents(a: seq<Sensor>, b: seq<Sensor>)
    requires multiset(a) == multiset(b)
    ensures forall src :: SummaryOf(a, src) == SummaryOf(b, src)
  {
    forall src ensures SummaryOf(a, src) == SummaryOf(b, src) {
      CollectContents(Having(BySourceName, src), a, b);
      GatheredByContents(Members(BySourceName, src, a), Members(BySourceName, src, b));
    }
  }

  lemma MetricIdsByContents(x: Entry, y: Entry, g: Lattice, res: Km, c: Axial, a: seq<Sensor>, b: seq<Sensor>)
    requires multiset(a) == multiset(b)
    requires Summarises(x, g, res, c, a) && Summarises(y, g, res, c, b)
    ensures x.sensorIDByMetric == y.sensorIDByMetric
  {
    SetsByContents(a, b);
    forall m | m in x.sensorIDByMetric ensures x.sensorIDByMetric[m] == y.sensorIDByMetric[m] {
      var k :| k in Reporters(a, m);
      StationIdByContents(a, b, k);
    }
  }

  /** Two summaries of one bin agree whatever order its sensors came in. */
  lemma SummaryByContents(x: Entry, y: Entry, g: Lattice, res: Km, c: Axial, a: seq<Sensor>, b: seq<Sensor>)
    requires multiset(a) == multiset(b)
    requires Summarises(x, g, res, c, a) && Summarises(y, g, res, c, b)
    ensures x == y
  {
    SameElements(a, b);
    SetsByContents(a, b);
    GatheredByContents(a, b);
    ModalUnique(a, b, x.country, y.country);
    MetricIdsByContents(x, y, g, res, c, a, b);
    SourcesByContents(a, b);
    if a != [] {
      SmallestIdByContents(a, b);
    }
    if |Sources(a)| == 1 {
      SingleMember(Sources(a), x.source, y.source);
    }
  }

  lemma SingleMember<T>(s: set<T>, x: T, y: T)
    requires |s| == 1 && x in s && y in s
    ensures x == y
  {
    assert |s - {x}| == 0;
  }

  /** The published grid depends only on the multiset of sensors. */
  lemma PayloadOfReadingsAlone(h1: seq<Entry>, h2: seq<Entry>, g: Lattice, res: Km, s1: seq<Sensor>, s2: seq<Sensor>)
    requires multiset(s1) == multiset(s2)
    ensures IsPayload(h1, g, res, s1) && IsPayload(h2, g, res, s2) ==> h1 == h2
  {
    SameElements(s1, s2);
    assert Cells(g, res, s1) == Cells(g, res, s2);
    AxialTotal();
    var cells := Ascending(AxialAtMost, Cells(g, res, s1));
    if IsPayload(h1, g, res, s1) && IsPayload(h2, g, res, s2) {
      forall i | 0 <= i < |cells| ensures h1[i] == h2[i] {
        CollectContents(Having(CellOf(g, res), cells[i]), s1, s2);
        SummaryByContents(h1[i], h2[i], g, res, cells[i],
                          Members(CellOf(g, res), cells[i], s1), Members(CellOf(g, res), cells[i], s2));
      }
    }
  }
}
