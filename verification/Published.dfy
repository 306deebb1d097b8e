/** What the point tier and the grid publish, said of the sensors alone
    (internal/snapshot/hexes.go, pointsFrom and hexPayloadFrom). */
module Published {
  import opened Contents
  import opened Sorting
  import opened Statistics
  import opened HexGrid
  import opened Orders
  import opened Wire
  import opened HexBins
  import S = Stations
  import V = Views

  // ---- a group of sensors, by what selects it ----

  function Reporting(at: Sensor -> bool, m: string): Sensor -> bool {
    (s: Sensor) => at(s) && m in s.values
  }

  function ReportingWithin(at: Sensor -> bool, m: string, lo: real, hi: real): Sensor -> bool {
    (s: Sensor) => at(s) && m in s.values && lo <= s.values[m] <= hi
  }

  ghost predicate Has(p: Sensor -> bool, sensors: seq<Sensor>) { exists s | s in sensors :: p(s) }

  /** values publishes a group: the canonical metrics its members report and no others. */
  ghost predicate Publishes(values: map<string, real>, at: Sensor -> bool, sensors: seq<Sensor>) {
    forall m :: m in values <==> m in CanonicalMetrics() && Has(Reporting(at, m), sensors)
  }

  /** While more than half of the group's readings of a metric lie in [lo, hi], so
      does the published value, to half a tenth. */
  ghost predicate FollowsMajority(values: map<string, real>, at: Sensor -> bool, sensors: seq<Sensor>) {
    forall m, lo: real, hi: real |
      m in CanonicalMetrics() && 2 * Count(ReportingWithin(at, m, lo, hi), sensors) > Count(Reporting(at, m), sensors) ::
      m in values && lo - 0.05 <= values[m] <= hi + 0.05
  }

  /** The smallest id of a group that is not empty. */
  ghost predicate IsLeastId(id: int, at: Sensor -> bool, sensors: seq<Sensor>) {
    && (exists s | s in sensors :: at(s) && s.id == id)
    && (forall s | s in sensors && at(s) :: id <= s.id)
  }

  lemma MembersWhere<K>(key: Sensor -> K, k: K, at: Sensor -> bool, sensors: seq<Sensor>)
    requires forall s | s in sensors :: at(s) <==> key(s) == k
    ensures Members(key, k, sensors) == Collect(Where(at), sensors)
    ensures |Members(key, k, sensors)| == Count(at, sensors)
    ensures forall s :: s in Members(key, k, sensors) <==> s in sensors && at(s)
  {
    hide Collect;
    CollectAlike(Having(key, k), Where(at), sensors);
    CollectCount(Where(at), at, sensors);
    MembersIn(key, k, sensors);
  }

  lemma ReadingsWhere(at: Sensor -> bool, m: string, sensors: seq<Sensor>)
    ensures var through := (s: Sensor) => if at(s) && m in s.values then Some(s.values[m]) else None;
            Readings(Collect(Where(at), sensors), m) == Collect(through, sensors)
    ensures Readings(Collect(Where(at), sensors), m) != [] <==> Has(Reporting(at, m), sensors)
  {
    hide Collect;
    var through := (s: Sensor) => if at(s) && m in s.values then Some(s.values[m]) else None;
    CollectThrough(ReadingOf(m), Where(at), through, sensors);
    CollectCount(through, Reporting(at, m), sensors);
    CountNone(Reporting(at, m), sensors);
  }

  lemma GroupPublishes(at: Sensor -> bool, sensors: seq<Sensor>)
    ensures var values := Medians(Gathered(Collect(Where(at), sensors)));
            Publishes(values, at, sensors) && FollowsMajority(values, at, sensors)
  {
    hide Collect, Round1, Median, CanonicalMetrics, Readings, Has;
    var own := Collect(Where(at), sensors);
    var values := Medians(Gathered(own));
    forall m ensures m in values <==> m in CanonicalMetrics() && Has(Reporting(at, m), sensors) {
      ReadingsWhere(at, m, sensors);
    }
    forall m, lo: real, hi: real |
      m in CanonicalMetrics() && 2 * Count(ReportingWithin(at, m, lo, hi), sensors) > Count(Reporting(at, m), sensors)
      ensures m in values && lo - 0.05 <= values[m] <= hi + 0.05
    {
      MajorityRounded(at, m, lo, hi, sensors);
    }
  }

  lemma MajorityRounded(at: Sensor -> bool, m: string, lo: real, hi: real, sensors: seq<Sensor>)
    requires 2 * Count(ReportingWithin(at, m, lo, hi), sensors) > Count(Reporting(at, m), sensors)
    ensures var vs := Readings(Collect(Where(at), sensors), m);
            vs != [] && lo - 0.05 <= Round1(Median(vs)) <= hi + 0.05
  {
    hide Collect, Round1, Median, Readings;
    var through := (s: Sensor) => if at(s) && m in s.values then Some(s.values[m]) else None;
    ReadingsWhere(at, m, sensors);
    MedianWhere(through, Reporting(at, m), ReportingWithin(at, m, lo, hi), sensors, lo, hi);
    Round1Within(Median(Collect(through, sensors)), lo, hi);
  }

  lemma LeastWhere(own: seq<Sensor>, at: Sensor -> bool, sensors: seq<Sensor>)
    requires own != [] && forall s :: s in own <==> s in sensors && at(s)
    ensures IsLeastId(Smallest(Ids(own)), at, sensors)
  {
    CollectMembers(IdOf(), own);
    var id := Smallest(Ids(own));
    var s :| s in own && IdOf()(s) == Some(id);
    forall s | s in sensors && at(s) ensures id <= s.id {
      assert IdOf()(s) == Some(s.id);
    }
  }

  // ---- the point tier ----

  /** A row without a network is sensor.community's. */
  function NetworkOf(s: Sensor): string { if s.source == "" then "sensor.community" else s.source }

  /** e is at the sensor's position and on its network. */
  predicate StandsAt(e: Entry, s: Sensor) {
    s.lon == e.lon && s.lat == e.lat && NetworkOf(s) == e.source
  }

  function At(e: Entry): Sensor -> bool { (s: Sensor) => StandsAt(e, s) }

  lemma EntryPlace(points: seq<Entry>, sensors: seq<Sensor>, e: Entry)
    requires S.IsPoints(points, sensors) && e in points
    ensures var k := StationKey(e.lon, e.lat, e.source); k in HexBins.Stations(sensors) && e == S.PointOf(sensors, k)
    ensures forall s :: StandsAt(e, s) <==> ByStation(s) == StationKey(e.lon, e.lat, e.source)
  {
    hide S.IsPoints, HexBins.Stations, StationId;
    var order := V.PointsHold(points, sensors);
  }

  /** Each sensor has exactly one entry, at its own position and of its own network;
      each entry is some sensor's; and the entries come in the order of their ids. */
  lemma PointsAreThePlaces(points: seq<Entry>, sensors: seq<Sensor>)
    requires S.IsPoints(points, sensors)
    ensures forall s | s in sensors :: exists i :: 0 <= i < |points| && StandsAt(points[i], s)
    ensures forall s, i, j | s in sensors && 0 <= i < |points| && 0 <= j < |points|
              && StandsAt(points[i], s) && StandsAt(points[j], s) :: i == j
    ensures forall e | e in points :: Has(At(e), sensors)
    ensures forall i, j | 0 <= i < j < |points| :: points[i].sensorID <= points[j].sensorID
  {
    hide S.PointOf, S.IsPoints, HexBins.Stations;
    forall s | s in sensors ensures exists i :: 0 <= i < |points| && StandsAt(points[i], s) {
      var e := PlaceListed(points, sensors, s);
    }
    forall s, i, j | s in sensors && 0 <= i < j < |points| && StandsAt(points[i], s) ensures !StandsAt(points[j], s) {
      PlaceOnce(points, sensors, s, i, j);
    }
    forall e | e in points ensures Has(At(e), sensors) {
      EntryPlace(points, sensors, e);
      SomeoneStands(sensors, StationKey(e.lon, e.lat, e.source));
    }
    PointsInOrder(points, sensors);
  }

  lemma SomeoneStands(sensors: seq<Sensor>, k: StationKey)
    requires k in HexBins.Stations(sensors)
    ensures exists s | s in sensors :: ByStation(s) == k
  {
  }

  lemma PointsInOrder(points: seq<Entry>, sensors: seq<Sensor>)
    requires S.IsPoints(points, sensors)
    ensures forall i, j | 0 <= i < j < |points| :: points[i].sensorID <= points[j].sensorID
  {
  }

  lemma PlaceListed(points: seq<Entry>, sensors: seq<Sensor>, s: Sensor) returns (e: Entry)
    requires S.IsPoints(points, sensors) && s in sensors
    ensures e in points && StandsAt(e, s)
  {
    hide S.IsPoints, StationId;
    var order := V.PointsHold(points, sensors);
    var k := StationKeyOf(s);
    assert k in HexBins.Stations(sensors);
    e := S.PointOf(sensors, k);
  }

  lemma PlaceOnce(points: seq<Entry>, sensors: seq<Sensor>, s: Sensor, i: nat, j: nat)
    requires S.IsPoints(points, sensors) && i < j < |points| && StandsAt(points[i], s)
    ensures !StandsAt(points[j], s)
  {
    if StandsAt(points[j], s) {
      EntryPlace(points, sensors, points[i]);
      EntryPlace(points, sensors, points[j]);
      var order: seq<StationKey> :| S.Covers(order, sensors) && multiset(points) == multiset(S.PointsIn(order, sensors));
      PointsDiffer(order, sensors);
      SplitAtTwo(points, i, j);
      OnceEach(S.PointsIn(order, sensors), points[i]);
    }
  }

  lemma PointsDiffer(order: seq<StationKey>, sensors: seq<Sensor>)
    requires S.Covers(order, sensors)
    ensures forall i, j | 0 <= i < j < |order| :: S.PointsIn(order, sensors)[i] != S.PointsIn(order, sensors)[j]
  {
    hide StationId, HexBins.Stations;
  }

  lemma {:induction false} OnceEach<T>(s: seq<T>, x: T)
    requires forall i, j | 0 <= i < j < |s| :: s[i] != s[j]
    ensures multiset(s)[x] <= 1
    decreases |s|
  {
    if s != [] {
      var n := |s| - 1;
      OnceEach(s[..n], x);
      assert s == s[..n] + [s[n]];
      assert s[n] !in s[..n];
    }
  }

  /** An entry says how many devices stand there, the smallest of their ids, and what
      they report. */
  lemma PointSays(points: seq<Entry>, sensors: seq<Sensor>, e: Entry)
    requires S.IsPoints(points, sensors) && e in points
    ensures e.n == Count(At(e), sensors) && IsLeastId(e.sensorID, At(e), sensors)
    ensures Publishes(e.values, At(e), sensors) && FollowsMajority(e.values, At(e), sensors)
    ensures e.sensorIDByMetric == map[] && e.bySource == map[]
  {
    hide S.IsPoints, HexBins.Stations, Gathered, Medians, Publishes, FollowsMajority, IsLeastId, Collect, StandsAt, Ids;
    var k := StationKey(e.lon, e.lat, e.source);
    EntryPlace(points, sensors, e);
    MembersWhere(ByStation, k, At(e), sensors);
    GroupPublishes(At(e), sensors);
    MembersIn(ByStation, k, sensors);
    assert Members(ByStation, k, sensors) != [] by { SomeoneStands(sensors, k); }
    LeastWhere(Members(ByStation, k, sensors), At(e), sensors);
  }

  /** Its country is that of the first of them. */
  lemma PointCountry(points: seq<Entry>, sensors: seq<Sensor>, e: Entry, i: nat)
    requires S.IsPoints(points, sensors) && e in points
    requires i < |sensors| && StandsAt(e, sensors[i]) && forall j | 0 <= j < i :: !StandsAt(e, sensors[j])
    ensures e.country == if sensors[i].country == "" then "??" else sensors[i].country
  {
    hide S.IsPoints, HexBins.Stations, Gathered, Medians, StationId, StandsAt;
    var k := StationKey(e.lon, e.lat, e.source);
    EntryPlace(points, sensors, e);
    FirstMember(ByStation, k, sensors, i);
  }

  lemma {:induction false} FirstMember<T, K>(key: T -> K, k: K, s: seq<T>, i: nat)
    requires i < |s| && key(s[i]) == k && forall j | 0 <= j < i :: key(s[j]) != k
    ensures Members(key, k, s) != [] && Members(key, k, s)[0] == s[i]
    decreases |s|
  {
    var n := |s| - 1;
    assert s == s[..n] + [s[n]];
    MembersStep(key, k, s[..n], s[n]);
    if i < n {
      FirstMember(key, k, s[..n], i);
    } else {
      MembersIn(key, k, s[..n]);
    }
  }

  // ---- the grid ----

  function In(g: Lattice, res: Km, c: Axial): Sensor -> bool {
    (s: Sensor) => g.HexOf(s.lon, s.lat, res) == c
  }

  function InFrom(g: Lattice, res: Km, c: Axial, network: string): Sensor -> bool {
    (s: Sensor) => g.HexOf(s.lon, s.lat, res) == c && NetworkOf(s) == network
  }

  function InNaming(g: Lattice, res: Km, c: Axial, country: string): Sensor -> bool {
    (s: Sensor) => g.HexOf(s.lon, s.lat, res) == c && s.country == country
  }

  predicate SameSite(s: Sensor, t: Sensor) {
    s.lon == t.lon && s.lat == t.lat && NetworkOf(s) == NetworkOf(t)
  }

  /** The group of sensors a bin is drawn from. */
  ghost predicate Binned(e: Entry, g: Lattice, res: Km, c: Axial, sensors: seq<Sensor>) {
    Summarises(e, g, res, c, Members(CellOf(g, res), c, sensors))
  }

  lemma CellMembers(g: Lattice, res: Km, c: Axial, sensors: seq<Sensor>)
    ensures var ms := Members(CellOf(g, res), c, sensors);
            && ms == Collect(Where(In(g, res, c)), sensors) && |ms| == Count(In(g, res, c), sensors)
            && forall s :: s in ms <==> s in sensors && g.HexOf(s.lon, s.lat, res) == c
  {
    hide Grid.HexOf;
    MembersWhere(CellOf(g, res), c, In(g, res, c), sensors);
  }

  /** The grid has one bin for each cell some sensor lies in, by column and then row,
      without repetition. */
  lemma GridIsTheCells(hexes: seq<Entry>, g: Lattice, res: Km, sensors: seq<Sensor>) returns (cells: seq<Axial>)
    requires IsPayload(hexes, g, res, sensors)
    ensures |cells| == |hexes| && forall i | 0 <= i < |cells| :: Binned(hexes[i], g, res, cells[i], sensors)
    ensures forall c :: c in cells <==> Has(In(g, res, c), sensors)
    ensures forall i, j | 0 <= i < j < |cells| ::
              cells[i].q < cells[j].q || (cells[i].q == cells[j].q && cells[i].r < cells[j].r)
  {
    hide Grid.HexOf, Summarises;
    AxialTotal();
    cells := Ascending(AxialAtMost, Cells(g, res, sensors));
  }

  /** A bin is placed at its cell's centre, to half a ten-thousandth of a degree, and
      says how many devices lie in the cell and what they report. */
  lemma BinSays(e: Entry, g: Lattice, res: Km, c: Axial, sensors: seq<Sensor>)
    requires Binned(e, g, res, c, sensors)
    ensures var at := g.HexCentre(c, res);
            at.x - 0.00005 <= e.lon <= at.x + 0.00005 && at.y - 0.00005 <= e.lat <= at.y + 0.00005
    ensures e.n == Count(In(g, res, c), sensors)
    ensures Publishes(e.values, In(g, res, c), sensors) && FollowsMajority(e.values, In(g, res, c), sensors)
  {
    hide Grid.HexOf, Grid.HexCentre, Members, Collect, Gathered, Medians, Publishes, FollowsMajority, IsModal, Round4, Ids, Reporters;
    CellMembers(g, res, c, sensors);
    GroupPublishes(In(g, res, c), sensors);
    Round4Near(g.HexCentre(c, res).x);
    Round4Near(g.HexCentre(c, res).y);
  }

  /** A bin of one network names it; a mixed one names none and says, of each network
      with a device in the cell and of no other, how many it has there and what they
      report. */
  lemma BinNetworks(e: Entry, g: Lattice, res: Km, c: Axial, sensors: seq<Sensor>, s: Sensor)
    requires Binned(e, g, res, c, sensors) && s in sensors && In(g, res, c)(s)
    ensures if forall t | t in sensors && In(g, res, c)(t) :: NetworkOf(t) == NetworkOf(s)
            then e.source == NetworkOf(s) && e.bySource == map[]
            else
              && e.source == ""
              && (forall src :: src in e.bySource <==> Has(InFrom(g, res, c, src), sensors))
              && (forall src | src in e.bySource ::
                    && e.bySource[src].n == Count(InFrom(g, res, c, src), sensors)
                    && Publishes(e.bySource[src].values, InFrom(g, res, c, src), sensors)
                    && FollowsMajority(e.bySource[src].values, InFrom(g, res, c, src), sensors))
  {
    hide Grid.HexOf, Grid.HexCentre, Members, IsModal, Round4, Ids, Reporters, SummaryOf, Publishes, FollowsMajority, Medians, Gathered;
    var ms := Members(CellOf(g, res), c, sensors);
    CellMembers(g, res, c, sensors);
    assert SourceOf(s) in Sources(ms);
    if forall t | t in sensors && In(g, res, c)(t) :: NetworkOf(t) == NetworkOf(s) {
      assert Sources(ms) == {SourceOf(s)};
    } else {
      var t :| t in sensors && In(g, res, c)(t) && NetworkOf(t) != NetworkOf(s);
      assert SourceOf(t) in Sources(ms) && t in ms;
      if |Sources(ms)| == 1 {
        SingleMember(Sources(ms), SourceOf(t), SourceOf(s));
      }
      forall src
        ensures src in Sources(ms) <==> Has(InFrom(g, res, c, src), sensors)
        ensures var share := SummaryOf(ms, src);
                && share.n == Count(InFrom(g, res, c, src), sensors)
                && Publishes(share.values, InFrom(g, res, c, src), sensors)
                && FollowsMajority(share.values, InFrom(g, res, c, src), sensors)
      {
        NetworkShare(g, res, c, sensors, src);
      }
    }
  }

  lemma NetworkShare(g: Lattice, res: Km, c: Axial, sensors: seq<Sensor>, src: string)
    ensures var share, at := SummaryOf(Members(CellOf(g, res), c, sensors), src), InFrom(g, res, c, src);
            share.n == Count(at, sensors) && Publishes(share.values, at, sensors) && FollowsMajority(share.values, at, sensors)
    ensures src in Sources(Members(CellOf(g, res), c, sensors)) <==> Has(InFrom(g, res, c, src), sensors)
  {
    hide Grid.HexOf, Collect, Publishes, FollowsMajority, Medians, Gathered;
    var at := InFrom(g, res, c, src);
    CellMembers(g, res, c, sensors);
    CollectThrough(Having(BySourceName, src), Where(In(g, res, c)), Where(at), sensors);
    CollectCount(Where(at), at, sensors);
    GroupPublishes(at, sensors);
  }

  /** Its country is the one most of its devices that name any name, the first in
      the alphabet of those named equally often, and "??" if none names any. */
  lemma BinCountry(e: Entry, g: Lattice, res: Km, c: Axial, sensors: seq<Sensor>)
    requires Binned(e, g, res, c, sensors)
    ensures (forall s | s in sensors && In(g, res, c)(s) :: s.country == "") ==> e.country == "??"
    ensures forall s | s in sensors && In(g, res, c)(s) && s.country != "" ::
              var n, most := Count(InNaming(g, res, c, s.country), sensors), Count(InNaming(g, res, c, e.country), sensors);
              && e.country != "" && most > 0
              && (n < most || (n == most && LexLeq(e.country, s.country)))
  {
    hide Grid.HexOf, Grid.HexCentre, Members, Round4, Ids, Reporters, SummaryOf, Medians, Gathered, LexLeq;
    var ms := Members(CellOf(g, res), c, sensors);
    CellMembers(g, res, c, sensors);
    forall country ensures |Members(ByCountry, country, ms)| == Count(InNaming(g, res, c, country), sensors) {
      CountryShare(g, res, c, sensors, country);
    }
    forall s | s in sensors && In(g, res, c)(s) && s.country != ""
      ensures s.country in CountryCodes(ms) && Count(InNaming(g, res, c, s.country), sensors) > 0
    {
      assert s in ms;
      CountNone(InNaming(g, res, c, s.country), sensors);
    }
  }

  lemma CountryShare(g: Lattice, res: Km, c: Axial, sensors: seq<Sensor>, country: string)
    ensures |Members(ByCountry, country, Members(CellOf(g, res), c, sensors))| == Count(InNaming(g, res, c, country), sensors)
  {
    hide Grid.HexOf, Collect;
    var at := InNaming(g, res, c, country);
    CellMembers(g, res, c, sensors);
    CollectThrough(Having(ByCountry, country), Where(In(g, res, c)), Where(at), sensors);
    CollectCount(Where(at), at, sensors);
  }

  /** The order countries are compared by: a proper prefix first, and otherwise by the
      first character that differs. */
  lemma {:induction false} LexByFirstDifference(a: string, b: string, k: nat)
    requires k <= |a| && k <= |b| && a[..k] == b[..k]
    ensures k == |a| ==> LexLeq(a, b)
    ensures k < |a| && (k == |b| || b[k] < a[k]) ==> !LexLeq(a, b)
    ensures k < |a| && k < |b| && a[k] < b[k] ==> LexLeq(a, b)
  {
    if k > 0 {
      assert a[0] == a[..k][0] && b[0] == b[..k][0];
      assert a[1..][..k - 1] == a[..k][1..] && b[1..][..k - 1] == b[..k][1..];
      LexByFirstDifference(a[1..], b[1..], k - 1);
    }
  }

  /** A bin all of whose devices stand at one site carries its smallest id and any
      other none; a metric all of whose reporters stand at one carries the smallest
      id of that site, also when the device it belongs to does not report it. */
  lemma BinIds(e: Entry, g: Lattice, res: Km, c: Axial, sensors: seq<Sensor>, s: Sensor)
    requires Binned(e, g, res, c, sensors) && s in sensors && In(g, res, c)(s)
    ensures if forall t | t in sensors && In(g, res, c)(t) :: SameSite(s, t)
            then IsLeastId(e.sensorID, In(g, res, c), sensors) else e.sensorID == 0
    ensures forall m | m in s.values && m in CanonicalMetrics() ::
              if forall t | t in sensors && Reporting(In(g, res, c), m)(t) :: SameSite(s, t)
              then m in e.sensorIDByMetric && IsLeastId(e.sensorIDByMetric[m], (t: Sensor) => SameSite(s, t), sensors)
              else m !in e.sensorIDByMetric
    ensures forall m | m in e.sensorIDByMetric :: m in CanonicalMetrics() && Has(Reporting(In(g, res, c), m), sensors)
  {
    hide Grid.HexOf, Grid.HexCentre, Members, Round4, SummaryOf, Medians, Gathered, IsModal, IsLeastId, CanonicalMetrics,
         Ids, StationId, Reporters, Stations, StationKeyOf, SameSite;
    var ms := Members(CellOf(g, res), c, sensors);
    CellMembers(g, res, c, sensors);
    SitesOf(ms, s);
    LeastWhere(ms, In(g, res, c), sensors);
    forall m | m in s.values ensures |Reporters(ms, m)| == 1 <==> forall t | t in ms && m in t.values :: SameSite(s, t)
                             ensures StationKeyOf(s) in Reporters(ms, m) {
      ReportersOf(ms, s, m);
    }
    SiteId(g, res, c, sensors, s);
    forall m | m in e.sensorIDByMetric ensures Has(Reporting(In(g, res, c), m), sensors) {
      SomeReporter(ms, m);
    }
  }

  lemma SitesOf(ms: seq<Sensor>, s: Sensor)
    requires s in ms
    ensures |HexBins.Stations(ms)| == 1 <==> forall t | t in ms :: SameSite(s, t)
  {
    assert StationKeyOf(s) in HexBins.Stations(ms);
    if forall t | t in ms :: SameSite(s, t) {
      assert HexBins.Stations(ms) == {StationKeyOf(s)};
    } else {
      var t :| t in ms && !SameSite(s, t);
      assert StationKeyOf(t) in HexBins.Stations(ms);
      if |HexBins.Stations(ms)| == 1 {
        SingleMember(HexBins.Stations(ms), StationKeyOf(s), StationKeyOf(t));
      }
    }
  }

  lemma ReportersOf(ms: seq<Sensor>, s: Sensor, m: string)
    requires s in ms && m in s.values
    ensures |Reporters(ms, m)| == 1 <==> forall t | t in ms && m in t.values :: SameSite(s, t)
    ensures StationKeyOf(s) in Reporters(ms, m)
  {
    assert StationKeyOf(s) in Reporters(ms, m);
    if forall t | t in ms && m in t.values :: SameSite(s, t) {
      assert Reporters(ms, m) == {StationKeyOf(s)};
    } else {
      var t :| t in ms && m in t.values && !SameSite(s, t);
      assert StationKeyOf(t) in Reporters(ms, m);
      if |Reporters(ms, m)| == 1 {
        SingleMember(Reporters(ms, m), StationKeyOf(s), StationKeyOf(t));
      }
    }
  }

  lemma SomeReporter(ms: seq<Sensor>, m: string)
    requires |Reporters(ms, m)| == 1
    ensures exists t | t in ms :: m in t.values
  {
    assert Reporters(ms, m) != {};
    var k :| k in Reporters(ms, m);
  }

  /** A site's id in its cell is the smallest id of all its devices. */
  lemma SiteId(g: Lattice, res: Km, c: Axial, sensors: seq<Sensor>, s: Sensor)
    requires s in sensors && In(g, res, c)(s)
    ensures var ms, k := Members(CellOf(g, res), c, sensors), StationKeyOf(s);
            k in HexBins.Stations(ms) && IsLeastId(StationId(ms, k), (t: Sensor) => SameSite(s, t), sensors)
  {
    hide Grid.HexOf, Collect, StationId, IsLeastId;
    var ms, k := Members(CellOf(g, res), c, sensors), StationKeyOf(s);
    CellMembers(g, res, c, sensors);
    assert s in ms;
    V.StationIdInCell(g, res, c, sensors, k);
    CatalogueIds(sensors, s);
  }

  /** The sensor catalogue gives each device the smallest id at its site. */
  lemma CatalogueIds(sensors: seq<Sensor>, s: Sensor)
    requires s in sensors
    ensures StationKeyOf(s) in HexBins.Stations(sensors)
            && IsLeastId(StationId(sensors, StationKeyOf(s)), (t: Sensor) => SameSite(s, t), sensors)
  {
    hide Collect, Ids, IsLeastId;
    var k, at := StationKeyOf(s), (t: Sensor) => SameSite(s, t);
    MembersWhere(ByStation, k, at, sensors);
    assert s in Members(ByStation, k, sensors);
    LeastWhere(Members(ByStation, k, sensors), at, sensors);
  }
}
