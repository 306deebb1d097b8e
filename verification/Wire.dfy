/** The values that pass between the parts of a snapshot: a sensor's latest
    readings as the store returns them, and the entries a grid body lists. */
module Wire {

  /** One device's newest usable readings (internal/store/aggregate.go). */
  datatype Sensor = Sensor(id: int, lon: real, lat: real, country: string, source: string,
                           values: map<string, real>)

  /** A row written before the source column existed is sensor.community. */
  function SourceOf(s: Sensor): string {
    if s.source == "" then "sensor.community" else s.source
  }

  /** A physical site: the exact published coordinate and the network. */
  datatype StationKey = StationKey(lon: real, lat: real, source: string)

  function StationKeyOf(s: Sensor): StationKey {
    StationKey(s.lon, s.lat, SourceOf(s))
  }

  datatype SourceEntry = SourceEntry(n: int, values: map<string, real>)

  /** A bin or a station. As on the wire, a sensorID of 0, an empty source and
      empty maps stand for an omitted field. */
  datatype Entry = Entry(lon: real, lat: real, sensorID: int, sensorIDByMetric: map<string, int>,
                         n: int, country: string, values: map<string, real>,
                         source: string, bySource: map<string, SourceEntry>)

  /** The metrics that are stored, in sorted order (internal/upstream/types.go). */
  function CanonicalMetrics(): seq<string> {
    ["C6H6", "CO", "NO2", "NOX", "O3", "P1", "P2", "SO2",
     "humidity", "noise_LA_max", "noise_LAeq", "pressure", "temperature"]
  }

  /** The code of a bin none of whose sensors names a country. */
  const CountryUnknown := "??"

  const QUANTUM := 0.25

  /** A viewport in degrees. */
  datatype BBox = BBox(w: real, s: real, e: real, n: real) {
    predicate Contains(lon: real, lat: real) {
      w <= lon <= e && s <= lat <= n
    }

    /** The enclosing box on the quantum grid. */
    function Quantise(): BBox {
      BBox((w / QUANTUM).Floor as real * QUANTUM, (s / QUANTUM).Floor as real * QUANTUM,
           Ceil(e / QUANTUM) as real * QUANTUM, Ceil(n / QUANTUM) as real * QUANTUM)
    }
  }

  function Ceil(x: real): int { -((-x).Floor) }

  /** Quantising only ever widens, by less than a quantum on each side, and a
      box already on the grid stays where it is. */
  lemma QuantiseWidens(b: BBox)
    ensures var q := b.Quantise();
            && q.w <= b.w < q.w + QUANTUM && q.s <= b.s < q.s + QUANTUM
            && b.e <= q.e < b.e + QUANTUM && b.n <= q.n < b.n + QUANTUM
            && q.Quantise() == q
  {
    FloorSteps(b.w);
    FloorSteps(b.s);
    FloorSteps(-b.e);
    FloorSteps(-b.n);
    var q := b.Quantise();
    assert -q.e == (-b.e / QUANTUM).Floor as real * QUANTUM;
    assert -q.n == (-b.n / QUANTUM).Floor as real * QUANTUM;
  }

  lemma FloorSteps(x: real)
    ensures var k := (x / QUANTUM).Floor;
            k as real * QUANTUM <= x < k as real * QUANTUM + QUANTUM && (k as real * QUANTUM / QUANTUM).Floor == k
  {
  }
}
