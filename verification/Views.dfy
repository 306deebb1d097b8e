/** What the grid, the point tier and the sensor catalogue agree on. */
module Views {
  import opened Contents
  import opened Sorting
  import opened HexGrid
  import opened Orders
  import opened Wire
  import opened HexBins
  import S = Stations

  // ---- no sensor is lost or counted twice ----

  const Devices := (e: Entry) => e.n

  /** On every tier the device counts add up to the number of sensors. */
  lemma GridCountsEverySensor(hexes: seq<Entry>, g: Lattice, res: Km, sensors: seq<Sensor>)
    ensures IsPayload(hexes, g, res, sensors) ==> SumOver(Devices, hexes) == |sensors|
  {
    AxialTotal();
    var key := CellOf(g, res);
    var cells := Ascending(AxialAtMost, Cells(g, res, sensors));
    forall x | x in sensors ensures key(x) in cells {
      assert key(x) in Cells(g, res, sensors);
    }
    PartitionCount(key, cells, sensors);
    if IsPayload(hexes, g, res, sensors) {
      SumAligned(Devices, hexes, c => |Members(key, c, sensors)|, cells);
    }
  }

  /** And on the point tier. */
  lemma PointsCountEverySensor(points: seq<Entry>, sensors: seq<Sensor>)
    requires S.IsPoints(points, sensors)
    ensures SumOver(Devices, points) == |sensors|
  {
    var order: seq<StationKey> :| S.Covers(order, sensors) && multiset(points) == multiset(S.PointsIn(order, sensors));
    SumByContents(Devices, points, S.PointsIn(order, sensors));
    forall x | x in sensors ensures ByStation(x) in order {
      assert StationKeyOf(x) in Stations(sensors);
    }
    PartitionCount(ByStation, order, sensors);
    SumAligned(Devices, S.PointsIn(order, sensors), k => |Members(ByStation, k, sensors)|, order);
  }

  /** The devices an entry attributes to one network. */
  function SourceDevices(e: Entry): string -> int {
    src => if src in e.bySource then e.bySource[src].n else 0
  }

  /** In a bin fed by several networks, their counts add up to the bin's. */
  lemma SourcesCountEveryDevice(e: Entry, g: Lattice, res: Km, c: Axial, ms: seq<Sensor>)
    requires Summarises(e, g, res, c, ms) && |Sources(ms)| != 1
    ensures TotalOrder(LexAtMost)
    ensures SumOver(SourceDevices(e), Ascending(LexAtMost, e.bySource.Keys)) == e.n
  {
    LexTotal();
    hide Grid.HexCentre, IsModal, Medians, Gathered, TotalOrder, Preorder, SortedBy;
    SourceSizes(e, ms, Ascending(LexAtMost, e.bySource.Keys));
  }

  lemma SourceSizes(e: Entry, ms: seq<Sensor>, sources: seq<string>)
    requires e.bySource == map src | src in Sources(ms) :: SummaryOf(ms, src)
    requires forall src :: src in sources <==> src in e.bySource
    requires forall i, j | 0 <= i < j < |sources| :: sources[i] != sources[j]
    ensures SumOver(SourceDevices(e), sources) == |ms|
  {
    hide Medians, Gathered;
    forall x | x in ms ensures BySourceName(x) in sources {
      assert SourceOf(x) in Sources(ms);
    }
    PartitionCount(BySourceName, sources, ms);
    forall i | 0 <= i < |sources| ensures SourceDevices(e)(sources[i]) == |Members(BySourceName, sources[i], ms)| {
      assert sources[i] in sources;
    }
    SumAligned(SourceDevices(e), sources, src => |Members(BySourceName, src, ms)|, sources);
  }

  // ---- a station has one id in every view ----

  /** A station's members share its position, so a cell holds all or none. */
  lemma {:induction false} StationInOneCell(g: Lattice, res: Km, c: Axial, sensors: seq<Sensor>, k: StationKey)
    requires g.HexOf(k.lon, k.lat, res) == c
    ensures Members(ByStation, k, Members(CellOf(g, res), c, sensors)) == Members(ByStation, k, sensors)
    decreases |sensors|
  {
    if sensors != [] {
      hide Grid.HexOf, Members;
      var front, s := sensors[..|sensors| - 1], sensors[|sensors| - 1];
      assert sensors == front + [s];
      StationInOneCell(g, res, c, front, k);
      MembersStep(CellOf(g, res), c, front, s);
      MembersStep(ByStation, k, Members(CellOf(g, res), c, front), s);
      MembersStep(ByStation, k, front, s);
    } else {
      hide Grid.HexOf;
    }
  }

  lemma StationIdInCell(g: Lattice, res: Km, c: Axial, sensors: seq<Sensor>, k: StationKey)
    requires k in Stations(Members(CellOf(g, res), c, sensors))
    ensures k in Stations(sensors)
    ensures StationId(Members(CellOf(g, res), c, sensors), k) == StationId(sensors, k)
  {
    var ms := Members(CellOf(g, res), c, sensors);
    MembersIn(CellOf(g, res), c, sensors);
    var s :| s in ms && StationKeyOf(s) == k;
    assert CellOf(g, res)(s) == c;
    StationInOneCell(g, res, c, sensors, k);
  }

  lemma {:induction false} AllMembers(ms: seq<Sensor>, k: StationKey)
    requires forall s | s in ms :: StationKeyOf(s) == k
    ensures Members(ByStation, k, ms) == ms
    decreases |ms|
  {
    if ms != [] {
      var front, s := ms[..|ms| - 1], ms[|ms| - 1];
      assert ms == front + [s];
      AllMembers(front, k);
      CollectStep(Having(ByStation, k), front, s);
    }
  }

  /** A cell of one station publishes that station's id: the id the point tier
      and the catalogue give it, the smallest of all its members'. */
  lemma OneStationOneId(e: Entry, g: Lattice, res: Km, c: Axial, sensors: seq<Sensor>, k: StationKey)
    requires Stations(Members(CellOf(g, res), c, sensors)) == {k}
    ensures k in Stations(sensors)
    ensures Summarises(e, g, res, c, Members(CellOf(g, res), c, sensors)) ==>
              e.sensorID == StationId(sensors, k) == S.PointOf(sensors, k).sensorID
  {
    hide Grid.HexCentre, Grid.HexOf, IsModal, Medians, Gathered, StationId, Members, Ids, Stations, CellOf;
    StationIdInCell(g, res, c, sensors, k);
    SoleStation(Members(CellOf(g, res), c, sensors), k);
  }

  /** A metric one station reports in a cell names that station, by the same id. */
  lemma OneReporterOneId(e: Entry, g: Lattice, res: Km, c: Axial, sensors: seq<Sensor>, m: string, k: StationKey)
    requires m in CanonicalMetrics() && Reporters(Members(CellOf(g, res), c, sensors), m) == {k}
    ensures k in Stations(sensors)
    ensures Summarises(e, g, res, c, Members(CellOf(g, res), c, sensors)) ==>
              m in e.sensorIDByMetric && e.sensorIDByMetric[m] == StationId(sensors, k) == S.PointOf(sensors, k).sensorID
  {
    hide Grid.HexCentre, Grid.HexOf, IsModal, Medians, Gathered, StationId, Members, Ids, CellOf, CanonicalMetrics;
    var ms := Members(CellOf(g, res), c, sensors);
    assert k in Reporters(ms, m);
    StationIdInCell(g, res, c, sensors, k);
  }

  /** With one station in the group, the group's smallest id is the station's. */
  lemma SoleStation(ms: seq<Sensor>, k: StationKey)
    requires Stations(ms) == {k}
    ensures ms != [] && StationId(ms, k) == Smallest(Ids(ms)) && |Stations(ms)| == 1
  {
    assert forall s | s in ms :: StationKeyOf(s) in Stations(ms);
    AllMembers(ms, k);
  }

  // ---- the point tier and the order of its input ----

  /** Rearranging the input changes nothing about a station on the point tier
      except, possibly, the country: that is its first member's. */
  lemma StationOfReadingsAlone(s1: seq<Sensor>, s2: seq<Sensor>, k: StationKey)
    requires multiset(s1) == multiset(s2) && k in Stations(s1)
    ensures k in Stations(s2)
    ensures Placeless(S.PointOf(s1, k)) == Placeless(S.PointOf(s2, k))
    ensures StationId(s1, k) == StationId(s2, k)
  {
    StationIdByContents(s1, s2, k);
    CollectContents(Having(ByStation, k), s1, s2);
    GatheredByContents(Members(ByStation, k, s1), Members(ByStation, k, s2));
  }

  /** An entry without its country. */
  function Placeless(e: Entry): Entry { e.(country := "") }

  function AllPlaceless(points: seq<Entry>): seq<Entry> { Collect((e: Entry) => Some(Placeless(e)), points) }

  /** An id is not shared between stations. */
  ghost predicate OneStationPerId(sensors: seq<Sensor>) {
    forall x, y | x in sensors && y in sensors && x.id == y.id :: StationKeyOf(x) == StationKeyOf(y)
  }

  lemma MemberWithId(sensors: seq<Sensor>, k: StationKey) returns (s: Sensor)
    requires k in Stations(sensors)
    ensures s in sensors && StationKeyOf(s) == k && s.id == StationId(sensors, k)
  {
    MembersIn(ByStation, k, sensors);
    var own := Members(ByStation, k, sensors);
    CollectMembers(IdOf(), own);
    s :| s in own && s.id == StationId(sensors, k);
  }

  lemma StationIdsDiffer(sensors: seq<Sensor>, k1: StationKey, k2: StationKey)
    requires OneStationPerId(sensors) && k1 in Stations(sensors) && k2 in Stations(sensors)
    ensures StationId(sensors, k1) == StationId(sensors, k2) ==> k1 == k2
  {
    var x := MemberWithId(sensors, k1);
    var y := MemberWithId(sensors, k2);
  }

  /** The entry of a station, or of a rearrangement's, as a rule over its key. */
  function EntryOf(sensors: seq<Sensor>): StationKey -> Option<Entry> {
    (k: StationKey) => if k in Stations(sensors) then Some(S.PointOf(sensors, k)) else None
  }

  /** What the list holds: every station's entry, once. */
  lemma PointsHold(points: seq<Entry>, sensors: seq<Sensor>) returns (order: seq<StationKey>)
    requires S.IsPoints(points, sensors)
    ensures multiset(order) == multiset(Stations(sensors)) && (forall k :: k in order <==> k in Stations(sensors))
    ensures multiset(points) == multiset(Collect(EntryOf(sensors), order))
    ensures forall e :: e in points <==> exists k | k in Stations(sensors) :: e == S.PointOf(sensors, k)
  {
    hide S.PointOf, Stations;
    order :| S.Covers(order, sensors) && multiset(points) == multiset(S.PointsIn(order, sensors));
    Enumeration(order, Stations(sensors));
    CollectAll(EntryOf(sensors), order);
    assert Collect(EntryOf(sensors), order) == S.PointsIn(order, sensors);
    CollectMembers(EntryOf(sensors), order);
    forall e ensures e in points <==> exists k | k in Stations(sensors) :: e == S.PointOf(sensors, k) {
      assert e in points <==> e in multiset(points);
      assert e in Collect(EntryOf(sensors), order) <==> e in multiset(Collect(EntryOf(sensors), order));
      if k :| k in Stations(sensors) && e == S.PointOf(sensors, k) {
        assert k in order && EntryOf(sensors)(k) == Some(e);
      }
    }
  }

  lemma PointsSeparate(points: seq<Entry>, sensors: seq<Sensor>)
    requires S.IsPoints(points, sensors) && OneStationPerId(sensors)
    ensures Preorder(S.IdAtMost) && Separates(S.IdAtMost, points) && SortedBy(S.IdAtMost, points)
    ensures Separates(S.IdAtMost, AllPlaceless(points)) && SortedBy(S.IdAtMost, AllPlaceless(points))
  {
    hide Stations, StationId, S.PointOf, S.Covers, Collect;
    forall x, y | x in points && y in points && x.sensorID == y.sensorID ensures x == y {
      SameIdSameEntry(points, sensors, x, y);
    }
    PlacelessSeparate(points);
  }

  lemma SameIdSameEntry(points: seq<Entry>, sensors: seq<Sensor>, x: Entry, y: Entry)
    requires S.IsPoints(points, sensors) && OneStationPerId(sensors)
    requires x in points && y in points && x.sensorID == y.sensorID
    ensures x == y
  {
    hide Stations, StationId, S.IsPoints;
    var order := PointsHold(points, sensors);
    var k1 :| k1 in Stations(sensors) && x == S.PointOf(sensors, k1);
    var k2 :| k2 in Stations(sensors) && y == S.PointOf(sensors, k2);
    StationIdsDiffer(sensors, k1, k2);
  }

  lemma PlacelessSeparate(points: seq<Entry>)
    requires SortedBy(S.IdAtMost, points)
    requires forall x, y | x in points && y in points && x.sensorID == y.sensorID :: x == y
    ensures Separates(S.IdAtMost, AllPlaceless(points)) && SortedBy(S.IdAtMost, AllPlaceless(points))
  {
    hide Collect;
    var bare := AllPlaceless(points);
    CollectAll((e: Entry) => Some(Placeless(e)), points);
    forall x, y | x in bare && y in bare && x.sensorID == y.sensorID ensures x == y {
      var i :| 0 <= i < |bare| && bare[i] == x;
      var j :| 0 <= j < |bare| && bare[j] == y;
      assert points[i] in points && points[j] in points;
    }
  }

  function PlacelessOf(sensors: seq<Sensor>): StationKey -> Option<Entry> {
    (k: StationKey) => if k in Stations(sensors) then Some(Placeless(S.PointOf(sensors, k))) else None
  }

  lemma PlacelessContents(points: seq<Entry>, sensors: seq<Sensor>, order: seq<StationKey>)
    requires multiset(points) == multiset(Collect(EntryOf(sensors), order))
    requires forall k | k in order :: k in Stations(sensors)
    ensures multiset(AllPlaceless(points)) == multiset(Collect(PlacelessOf(sensors), order))
  {
    hide S.PointOf, Stations;
    var strip := (e: Entry) => Some(Placeless(e));
    CollectContents(strip, points, Collect(EntryOf(sensors), order));
    CollectAll(EntryOf(sensors), order);
    CollectAll(PlacelessOf(sensors), order);
    CollectAll(strip, Collect(EntryOf(sensors), order));
    assert Collect(strip, Collect(EntryOf(sensors), order)) == Collect(PlacelessOf(sensors), order);
  }

  /** The published point tier depends only on the multiset of sensors, entries and
      order alike, except for countries: two arrangements give the same list if and
      only if every station's first members name the same country. */
  lemma PointsOfReadingsAlone(p1: seq<Entry>, p2: seq<Entry>, s1: seq<Sensor>, s2: seq<Sensor>)
    requires multiset(s1) == multiset(s2) && OneStationPerId(s1)
    ensures Stations(s1) == Stations(s2)
    ensures S.IsPoints(p1, s1) && S.IsPoints(p2, s2) ==>
              && AllPlaceless(p1) == AllPlaceless(p2)
              && (p1 == p2 <==> forall k | k in Stations(s1) :: S.PointOf(s1, k).country == S.PointOf(s2, k).country)
  {
    hide S.PointOf, StationId, Stations, S.IsPoints, Placeless, AllPlaceless, Collect;
    SetsByContents(s1, s2);
    SameElements(s1, s2);
    if S.IsPoints(p1, s1) && S.IsPoints(p2, s2) {
      PointsSeparate(p1, s1);
      PointsSeparate(p2, s2);
      SamePlaceless(p1, p2, s1, s2);
      SamePoints(p1, p2, s1, s2);
      SameCountries(p1, p2, s1, s2);
    }
  }

  lemma SamePlaceless(p1: seq<Entry>, p2: seq<Entry>, s1: seq<Sensor>, s2: seq<Sensor>)
    requires multiset(s1) == multiset(s2) && OneStationPerId(s1) && OneStationPerId(s2)
    requires S.IsPoints(p1, s1) && S.IsPoints(p2, s2)
    ensures AllPlaceless(p1) == AllPlaceless(p2)
  {
    hide S.PointOf, StationId, Stations, S.IsPoints, Placeless, AllPlaceless, Collect, Separates, SortedBy, Preorder;
    SetsByContents(s1, s2);
    var o1 := PointsHold(p1, s1);
    var o2 := PointsHold(p2, s2);
    PlacelessContents(p1, s1, o1);
    PlacelessContents(p2, s2, o2);
    forall k | k in o1 ensures PlacelessOf(s1)(k) == PlacelessOf(s2)(k) { StationOfReadingsAlone(s1, s2, k); }
    CollectAlike(PlacelessOf(s1), PlacelessOf(s2), o1);
    CollectContents(PlacelessOf(s2), o1, o2);
    PointsSeparate(p1, s1);
    PointsSeparate(p2, s2);
    SortedUniquely(S.IdAtMost, AllPlaceless(p1), AllPlaceless(p2));
  }

  lemma SamePoints(p1: seq<Entry>, p2: seq<Entry>, s1: seq<Sensor>, s2: seq<Sensor>)
    requires multiset(s1) == multiset(s2) && OneStationPerId(s1) && OneStationPerId(s2)
    requires S.IsPoints(p1, s1) && S.IsPoints(p2, s2) && Stations(s1) == Stations(s2)
    ensures (forall k | k in Stations(s1) :: S.PointOf(s1, k).country == S.PointOf(s2, k).country) ==> p1 == p2
  {
    hide S.PointOf, StationId, Stations, S.IsPoints, Collect, Separates, SortedBy, Preorder;
    if forall k | k in Stations(s1) :: S.PointOf(s1, k).country == S.PointOf(s2, k).country {
      var o1 := PointsHold(p1, s1);
      var o2 := PointsHold(p2, s2);
      forall k | k in o1 ensures EntryOf(s1)(k) == EntryOf(s2)(k) { StationOfReadingsAlone(s1, s2, k); }
      CollectAlike(EntryOf(s1), EntryOf(s2), o1);
      CollectContents(EntryOf(s2), o1, o2);
      PointsSeparate(p1, s1);
      PointsSeparate(p2, s2);
      SortedUniquely(S.IdAtMost, p1, p2);
    }
  }

  lemma SameCountries(p1: seq<Entry>, p2: seq<Entry>, s1: seq<Sensor>, s2: seq<Sensor>)
    requires multiset(s1) == multiset(s2) && OneStationPerId(s1)
    requires S.IsPoints(p1, s1) && S.IsPoints(p2, s2) && Stations(s1) == Stations(s2)
    ensures p1 == p2 ==> forall k | k in Stations(s1) :: S.PointOf(s1, k).country == S.PointOf(s2, k).country
  {
    hide StationId, Stations, S.IsPoints, Collect;
    var o1 := PointsHold(p1, s1);
    var o2 := PointsHold(p2, s2);
    if p1 == p2 {
      forall k | k in Stations(s1) ensures S.PointOf(s1, k).country == S.PointOf(s2, k).country {
        assert S.PointOf(s1, k) in p2;
        var other :| other in Stations(s2) && S.PointOf(s1, k) == S.PointOf(s2, other);
        StationOfReadingsAlone(s1, s2, other);
        StationIdsDiffer(s1, k, other);
      }
    }
  }

  /** The country does follow the order of the input: two devices of one station
      that name different ones. */
  lemma CountryFollowsOrder()
    ensures var x := Sensor(1, 23.0, 42.0, "BG", "", map[]); var y := Sensor(2, 23.0, 42.0, "RS", "", map[]);
            var k := StationKeyOf(x);
            && multiset([x, y]) == multiset([y, x]) && OneStationPerId([x, y])
            && k in Stations([x, y]) && k in Stations([y, x])
            && S.PointOf([x, y], k).country == "BG" && S.PointOf([y, x], k).country == "RS"
  {
    var x, y := Sensor(1, 23.0, 42.0, "BG", "", map[]), Sensor(2, 23.0, 42.0, "RS", "", map[]);
    assert x in [x, y] && x in [y, x];
    AllMembers([x, y], StationKeyOf(x));
    AllMembers([y, x], StationKeyOf(x));
  }
}
