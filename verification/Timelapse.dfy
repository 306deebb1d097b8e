/** The week of hourly reductions behind the animation
    (internal/snapshot/timelapse.go): folded from rollup rows, carried from one
    build to the next, and regrouped into frames. Hours are whole numbers. */
module Timelapse {
  import opened Contents
  import opened Sorting
  import opened Statistics
  import opened HexGrid

  datatype FrameReading = FrameReading(bucket: int, lon: real, lat: real, value: real)

  /** One hour reduced to the grid, at every published tier. */
  datatype HourCells = HourCells(bucket: int, tiers: map<Km, map<Axial, real>>)

  function TiersKM(): seq<Km> { [100.0, 50.0, 25.0, 15.0, 5.0, 2.0] }

  datatype FrameSpec = FrameSpec(step: int, dur: int)

  function FrameSpecs(): seq<FrameSpec> { [FrameSpec(1, 24), FrameSpec(2, 48), FrameSpec(6, 168)] }

  /** The longest span published. */
  const RING_HOURS := 168

  const ByBucket := (r: FrameReading) => r.bucket

  function CellOf(g: Lattice, res: Km): FrameReading -> Axial {
    (r: FrameReading) => g.HexOf(r.lon, r.lat, res)
  }

  function ValueOf(): FrameReading -> Option<real> { (r: FrameReading) => Some(r.value) }

  /** The values of one cell, in order. */
  function CellValues(rs: seq<FrameReading>, g: Lattice, res: Km, c: Axial): seq<real> {
    Collect(ValueOf(), Members(CellOf(g, res), c, rs))
  }

  function Cells(rs: seq<FrameReading>, g: Lattice, res: Km): set<Axial> {
    set r | r in rs :: CellOf(g, res)(r)
  }

  /** Each occupied cell's median. */
  ghost function Reduced(rs: seq<FrameReading>, g: Lattice, res: Km): map<Axial, real> {
    map c | c in Cells(rs, g, res) && CellValues(rs, g, res, c) != [] :: Median(CellValues(rs, g, res, c))
  }

  ghost function HourOf(rs: seq<FrameReading>, g: Lattice, h: int): HourCells {
    HourCells(h, map res: Km | res in TiersKM() :: Reduced(rs, g, res))
  }

  /** The reductions of the hours in [from, until) that have readings, oldest first. */
  ghost function RingOf(at: int -> seq<FrameReading>, g: Lattice, from: int, until: int): seq<HourCells>
    decreases until - from
  {
    if until <= from then []
    else RingOf(at, g, from, until - 1) + Slot(at(until - 1), g, until - 1)
  }

  ghost function Slot(rs: seq<FrameReading>, g: Lattice, h: int): seq<HourCells> {
    if rs == [] then [] else [HourOf(rs, g, h)]
  }

  function AtHour(rs: seq<FrameReading>): int -> seq<FrameReading> { h => Members(ByBucket, h, rs) }

  // ---- folding one query's rows ----

  /** Each occupied cell's values, in order. */
  ghost function Gathered(rs: seq<FrameReading>, g: Lattice, res: Km): map<Axial, seq<real>> {
    map c | c in Cells(rs, g, res) :: CellValues(rs, g, res, c)
  }

  ghost function GatheredTiers(rs: seq<FrameReading>, g: Lattice): map<Km, map<Axial, seq<real>>> {
    map res: Km | res in TiersKM() :: Gathered(rs, g, res)
  }

  lemma CellsOccupied(rs: seq<FrameReading>, g: Lattice, res: Km, c: Axial)
    ensures c in Cells(rs, g, res) <==> CellValues(rs, g, res, c) != []
  {
    var own := Members(CellOf(g, res), c, rs);
    MembersIn(CellOf(g, res), c, rs);
    if own != [] {
      assert own == own[..|own| - 1] + [own[|own| - 1]];
      CollectStep(ValueOf(), own[..|own| - 1], own[|own| - 1]);
    }
  }

  lemma GatheredStep(rs: seq<FrameReading>, r: FrameReading, g: Lattice, res: Km)
    ensures var was, c := Gathered(rs, g, res), CellOf(g, res)(r);
            Gathered(rs + [r], g, res) == was[c := (if c in was then was[c] else []) + [r.value]]
  {
    hide CellOf;
    var c0 := CellOf(g, res)(r);
    assert Cells(rs + [r], g, res) == Cells(rs, g, res) + {c0};
    CellsOccupied(rs, g, res, c0);
    forall c ensures CellValues(rs + [r], g, res, c) == CellValues(rs, g, res, c) + if c == c0 then [r.value] else [] {
      MembersStep(CellOf(g, res), c, rs, r);
      CollectStep(ValueOf(), Members(CellOf(g, res), c, rs), r);
    }
  }

  /** Every tier bins the same reading independently. */
  method AddReading(tiers: map<Km, map<Axial, seq<real>>>, r: FrameReading, g: Lattice, ghost rs: seq<FrameReading>)
    returns (out: map<Km, map<Axial, seq<real>>>)
    requires tiers == GatheredTiers(rs, g)
    ensures out == GatheredTiers(rs + [r], g)
  {
    hide Gathered, Grid.HexOf;
    out := tiers;
    for i := 0 to |TiersKM()|
      invariant out.Keys == tiers.Keys
      invariant forall j | 0 <= j < |TiersKM()| ::
                  out[TiersKM()[j]] == Gathered(if j < i then rs + [r] else rs, g, TiersKM()[j])
    {
      var res := TiersKM()[i];
      GatheredStep(rs, r, g, res);
      var c, cells := g.HexOf(r.lon, r.lat, res), out[res];
      out := out[res := cells[c := (if c in cells then cells[c] else []) + [r.value]]];
    }
    forall res | res in out ensures res in GatheredTiers(rs + [r], g) && out[res] == GatheredTiers(rs + [r], g)[res] {
      var j :| 0 <= j < |TiersKM()| && TiersKM()[j] == res;
    }
  }

  method MedianCells(vals: map<Axial, seq<real>>, g: Lattice, res: Km, ghost rs: seq<FrameReading>) returns (cells: map<Axial, real>)
    requires vals == Gathered(rs, g, res)
    ensures cells == Reduced(rs, g, res)
  {
    hide Median, CellValues;
    cells := map[];
    var rest := vals.Keys;
    while rest != {}
      invariant rest <= vals.Keys && cells.Keys == vals.Keys - rest
      invariant forall c | c in cells :: CellValues(rs, g, res, c) != [] && cells[c] == Median(CellValues(rs, g, res, c))
      decreases rest
    {
      var c :| c in rest;
      CellsOccupied(rs, g, res, c);
      cells := cells[c := Median(vals[c])];
      rest := rest - {c};
    }
    forall c | c in Cells(rs, g, res) ensures CellValues(rs, g, res, c) != [] {
      CellsOccupied(rs, g, res, c);
    }
  }

  method CloseHour(tiers: map<Km, map<Axial, seq<real>>>, g: Lattice, h: int, ghost rs: seq<FrameReading>) returns (out: HourCells)
    requires tiers == GatheredTiers(rs, g)
    ensures out == HourOf(rs, g, h)
  {
    hide Gathered, Reduced;
    var closed: map<Km, map<Axial, real>> := map[];
    for i := 0 to |TiersKM()|
      invariant closed.Keys == set j | 0 <= j < i :: TiersKM()[j]
      invariant forall j | 0 <= j < i :: closed[TiersKM()[j]] == Reduced(rs, g, TiersKM()[j])
    {
      var res := TiersKM()[i];
      var cells := MedianCells(tiers[res], g, res, rs);
      closed := closed[res := cells];
    }
    out := HourCells(h, closed);
    forall res | res in closed ensures res in HourOf(rs, g, h).tiers && closed[res] == HourOf(rs, g, h).tiers[res] {
      var j :| 0 <= j < |TiersKM()| && TiersKM()[j] == res;
    }
  }

  ghost function Hours(rs: seq<FrameReading>): set<int> { set r | r in rs :: r.bucket }

  ghost function Nonempty(at: int -> seq<FrameReading>, from: int, until: int): set<int> {
    set h | from <= h < until && at(h) != []
  }

  lemma {:induction false} RingFromOrder(order: seq<int>, ring: seq<HourCells>, at: int -> seq<FrameReading>, g: Lattice, from: int, until: int)
    requires Lists(order, Nonempty(at, from, until))
    requires |ring| == |order| && forall i | 0 <= i < |order| :: ring[i] == HourOf(at(order[i]), g, order[i])
    ensures ring == RingOf(at, g, from, until)
    decreases until - from
  {
    hide HourOf, Lists;
    var members := Nonempty(at, from, until);
    if until <= from {
      assert members == {};
      ListsEmpty(order);
    } else {
      var front := Nonempty(at, from, until - 1);
      if at(until - 1) == [] {
        assert members == front;
        RingFromOrder(order, ring, at, g, from, until - 1);
      } else {
        ListsDropLast(order, members, until - 1);
        assert members - {until - 1} == front;
        var end := |order| - 1;
        RingFromOrder(order[..end], ring[..end], at, g, from, until - 1);
        assert ring == ring[..end] + [ring[end]];
      }
    }
  }

  method GroupByHour(readings: seq<FrameReading>, g: Lattice)
    returns (byHour: map<int, map<Km, map<Axial, seq<real>>>>, order: seq<int>)
    ensures multiset(order) == multiset(byHour.Keys) && byHour.Keys == Hours(readings)
    ensures forall h | h in byHour :: byHour[h] == GatheredTiers(Members(ByBucket, h, readings), g)
  {
    hide GatheredTiers, Members, Hours;
    byHour, order := map[], [];
    NoReadings();
    for i := 0 to |readings|
      invariant multiset(order) == multiset(byHour.Keys)
      invariant byHour.Keys == Hours(readings[..i])
      invariant forall h | h in byHour :: byHour[h] == GatheredTiers(Members(ByBucket, h, readings[..i]), g)
    {
      var r := readings[i];
      ghost var before := readings[..i];
      assert readings[..i + 1] == before + [r];
      HoursStep(before, r);
      var tiers;
      if r.bucket in byHour {
        tiers := byHour[r.bucket];
      } else {
        tiers := EmptyTiers(g);
        order := order + [r.bucket];
      }
      tiers := AddReading(tiers, r, g, Members(ByBucket, r.bucket, before));
      byHour := byHour[r.bucket := tiers];
    }
    assert readings[..|readings|] == readings;
  }

  /** Rows of [from, until) in any order, folded into the ring of those hours. */
  method FoldHours(readings: seq<FrameReading>, g: Lattice, ghost from: int, ghost until: int) returns (out: seq<HourCells>)
    requires forall r | r in readings :: from <= r.bucket < until
    ensures out == RingOf(AtHour(readings), g, from, until)
  {
    hide GatheredTiers, HourOf, Members, Lists, AtHour, RingOf;
    var byHour, order := GroupByHour(readings, g);
    SortCorrect(IntAtMost, order);
    order := Sort(IntAtMost, order);
    OrderLists(order, readings, byHour.Keys, from, until);
    out := CloseHours(byHour, order, g, readings);
    RingFromOrder(order, out, AtHour(readings), g, from, until);
  }

  method CloseHours(byHour: map<int, map<Km, map<Axial, seq<real>>>>, order: seq<int>, g: Lattice, ghost readings: seq<FrameReading>)
    returns (out: seq<HourCells>)
    requires forall i | 0 <= i < |order| :: order[i] in byHour
    requires forall h | h in byHour :: byHour[h] == GatheredTiers(Members(ByBucket, h, readings), g)
    ensures |out| == |order|
    ensures forall i | 0 <= i < |order| :: out[i] == HourOf(AtHour(readings)(order[i]), g, order[i])
  {
    hide GatheredTiers, HourOf, Members;
    out := [];
    for i := 0 to |order|
      invariant |out| == i && forall j | 0 <= j < i :: out[j] == HourOf(AtHour(readings)(order[j]), g, order[j])
    {
      var hour := CloseHour(byHour[order[i]], g, order[i], AtHour(readings)(order[i]));
      out := out + [hour];
    }
  }

  method EmptyTiers(g: Lattice) returns (tiers: map<Km, map<Axial, seq<real>>>)
    ensures tiers == GatheredTiers([], g)
  {
    tiers := map[];
    for i := 0 to |TiersKM()|
      invariant tiers.Keys == set j | 0 <= j < i :: TiersKM()[j]
      invariant forall res | res in tiers :: tiers[res] == map[]
    {
      tiers := tiers[TiersKM()[i] := map[]];
    }
    assert forall res: Km :: Gathered([], g, res) == map[];
  }

  lemma NoReadings()
    ensures Hours([]) == {}
  {
  }

  lemma HoursStep(rs: seq<FrameReading>, r: FrameReading)
    ensures Hours(rs + [r]) == Hours(rs) + {r.bucket}
    ensures forall h :: Members(ByBucket, h, rs + [r]) ==
                        if h == r.bucket then Members(ByBucket, h, rs) + [r] else Members(ByBucket, h, rs)
    ensures r.bucket !in Hours(rs) ==> Members(ByBucket, r.bucket, rs) == []
  {
    forall h ensures Members(ByBucket, h, rs + [r]) ==
                     if h == r.bucket then Members(ByBucket, h, rs) + [r] else Members(ByBucket, h, rs)
    {
      MembersStep(ByBucket, h, rs, r);
    }
    MembersIn(ByBucket, r.bucket, rs);
  }

  lemma OrderLists(order: seq<int>, rs: seq<FrameReading>, hours: set<int>, from: int, until: int)
    requires SortedBy(IntAtMost, order) && multiset(order) == multiset(hours) && hours == Hours(rs)
    requires forall r | r in rs :: from <= r.bucket < until
    ensures Lists(order, Nonempty(AtHour(rs), from, until))
    ensures forall i | 0 <= i < |order| :: order[i] in hours
  {
    forall h ensures h in hours <==> from <= h < until && AtHour(rs)(h) != [] {
      MembersIn(ByBucket, h, rs);
    }
    assert hours == Nonempty(AtHour(rs), from, until);
    DistinctFromSet(order, hours);
  }

  // ---- carrying the ring from build to build ----

  /** The answer of the store to one query: every row of [since, until), in
      bucket order but in no particular order within an hour. */
  ghost predicate Answers(rows: seq<FrameReading>, at: int -> seq<FrameReading>, since: int, until: int) {
    && (forall r | r in rows :: since <= r.bucket < until)
    && (forall h | since <= h < until :: multiset(AtHour(rows)(h)) == multiset(at(h)))
  }

  lemma ReducedByContents(a: seq<FrameReading>, b: seq<FrameReading>, g: Lattice, res: Km)
    requires multiset(a) == multiset(b)
    ensures Reduced(a, g, res) == Reduced(b, g, res)
  {
    hide CellOf;
    forall c
      ensures c in Cells(a, g, res) <==> c in Cells(b, g, res)
      ensures c in Cells(a, g, res) ==>
                CellValues(a, g, res, c) != [] && CellValues(b, g, res, c) != []
                && Median(CellValues(a, g, res, c)) == Median(CellValues(b, g, res, c))
    {
      CellsOccupied(a, g, res, c);
      CellsOccupied(b, g, res, c);
      CollectContents(Having(CellOf(g, res), c), a, b);
      CollectContents(ValueOf(), Members(CellOf(g, res), c, a), Members(CellOf(g, res), c, b));
      if c in Cells(a, g, res) {
        MedianByContents(CellValues(a, g, res, c), CellValues(b, g, res, c));
      }
    }
    forall c | c in Reduced(a, g, res) ensures c in Reduced(b, g, res) && Reduced(a, g, res)[c] == Reduced(b, g, res)[c] {
      CellsOccupied(b, g, res, c);
    }
    forall c | c in Reduced(b, g, res) ensures c in Reduced(a, g, res) {
      CellsOccupied(a, g, res, c);
    }
  }

  lemma HourByContents(a: seq<FrameReading>, b: seq<FrameReading>, g: Lattice, h: int)
    requires multiset(a) == multiset(b)
    ensures Slot(a, g, h) == Slot(b, g, h)
  {
    hide Reduced;
    assert |multiset(a)| == |a| && |multiset(b)| == |b|;
    var x, y := HourOf(a, g, h).tiers, HourOf(b, g, h).tiers;
    forall res: Km | res in x ensures res in y && x[res] == y[res] {
      ReducedByContents(a, b, g, res);
    }
    assert x == y;
    assert a == [] <==> b == [];
    assert HourOf(a, g, h) == HourOf(b, g, h);
  }

  /** Histories that reduce alike hour by hour have the same ring. */
  lemma {:induction false} RingSame(a: int -> seq<FrameReading>, b: int -> seq<FrameReading>, g: Lattice, from: int, until: int)
    requires forall h | from <= h < until :: Slot(a(h), g, h) == Slot(b(h), g, h)
    ensures RingOf(a, g, from, until) == RingOf(b, g, from, until)
    decreases until - from
  {
    hide Slot;
    if from < until { RingSame(a, b, g, from, until - 1); }
  }

  /** And only those do: a ring says what each hour reduced to. */
  lemma {:induction false} RingTells(a: int -> seq<FrameReading>, b: int -> seq<FrameReading>, g: Lattice, from: int, until: int)
    ensures RingOf(a, g, from, until) == RingOf(b, g, from, until)
            <==> forall h | from <= h < until :: Slot(a(h), g, h) == Slot(b(h), g, h)
    decreases until - from
  {
    if from < until {
      var last := until - 1;
      RingTells(a, b, g, from, last);
      RingBuckets(a, g, from, last);
      RingBuckets(b, g, from, last);
      LastSlot(RingOf(a, g, from, last), Slot(a(last), g, last), RingOf(b, g, from, last), Slot(b(last), g, last), last);
    }
  }

  lemma LastSlot(x: seq<HourCells>, s: seq<HourCells>, y: seq<HourCells>, t: seq<HourCells>, h: int)
    requires |s| <= 1 && |t| <= 1 && (forall c | c in s + t :: c.bucket == h) && forall c | c in x + y :: c.bucket < h
    ensures x + s == y + t <==> x == y && s == t
  {
    AnyAt(x, s, h);
    AnyAt(y, t, h);
    if x + s == y + t {
      assert |s| == |t|;
      assert (x + s)[..|x|] == x && (y + t)[..|y|] == y;
      assert (x + s)[|x|..] == s && (y + t)[|y|..] == t;
    }
  }

  lemma AnyAt(x: seq<HourCells>, s: seq<HourCells>, h: int)
    requires (forall c | c in s :: c.bucket == h) && forall c | c in x :: c.bucket < h
    ensures s == [] <==> forall c | c in x + s :: c.bucket < h
  {
    if s != [] {
      assert s[0] in s && s[0] in x + s;
    }
  }

  lemma AnswerRing(rows: seq<FrameReading>, at: int -> seq<FrameReading>, g: Lattice, since: int, until: int)
    requires Answers(rows, at, since, until)
    ensures RingOf(AtHour(rows), g, since, until) == RingOf(at, g, since, until)
  {
    hide Slot, AtHour;
    forall h | since <= h < until ensures Slot(AtHour(rows)(h), g, h) == Slot(at(h), g, h) {
      HourByContents(AtHour(rows)(h), at(h), g, h);
    }
    RingSame(AtHour(rows), at, g, since, until);
  }

  lemma {:induction false} RingConcat(at: int -> seq<FrameReading>, g: Lattice, from: int, mid: int, until: int)
    requires from <= mid <= until
    ensures RingOf(at, g, from, until) == RingOf(at, g, from, mid) + RingOf(at, g, mid, until)
    decreases until - mid
  {
    hide Slot;
    if mid < until { RingConcat(at, g, from, mid, until - 1); }
  }

  lemma {:induction false} RingBuckets(at: int -> seq<FrameReading>, g: Lattice, from: int, until: int)
    ensures forall i | 0 <= i < |RingOf(at, g, from, until)| :: from <= RingOf(at, g, from, until)[i].bucket < until
    ensures forall i, j | 0 <= i < j < |RingOf(at, g, from, until)| ::
              RingOf(at, g, from, until)[i].bucket < RingOf(at, g, from, until)[j].bucket
    decreases until - from
  {
    hide Reduced;
    if from < until { RingBuckets(at, g, from, until - 1); }
  }

  /** The carried hours still inside the longest span. */
  function Kept(hours: seq<HourCells>, oldest: int): seq<HourCells> {
    if hours == [] then []
    else
      var last := hours[|hours| - 1];
      Kept(hours[..|hours| - 1], oldest) + if last.bucket < oldest then [] else [last]
  }

  /** Where reading resumes. */
  function Since(kept: seq<HourCells>, oldest: int): int {
    if kept == [] then oldest else kept[|kept| - 1].bucket + 1
  }

  lemma {:induction false} KeptRing(at: int -> seq<FrameReading>, g: Lattice, from: int, until: int, oldest: int)
    requires from <= oldest
    ensures Kept(RingOf(at, g, from, until), oldest) == RingOf(at, g, oldest, until)
    decreases until - from
  {
    hide Reduced;
    if from < until {
      KeptRing(at, g, from, until - 1, oldest);
      var ring := RingOf(at, g, from, until - 1);
      var slot := Slot(at(until - 1), g, until - 1);
      if slot != [] {
        assert (ring + slot)[..|ring|] == ring;
      } else {
        assert ring + slot == ring;
      }
    }
  }

  /** Nothing was read after the last kept hour, so the kept hours are the ring
      up to where reading resumes. */
  lemma {:induction false} ResumePoint(at: int -> seq<FrameReading>, g: Lattice, oldest: int, until: int)
    requires oldest <= until
    ensures var kept := RingOf(at, g, oldest, until);
            var since := Since(kept, oldest);
            oldest <= since <= until && kept == RingOf(at, g, oldest, since) && RingOf(at, g, since, until) == []
    decreases until - oldest
  {
    hide Reduced;
    if oldest < until {
      ResumePoint(at, g, oldest, until - 1);
      var before, slot := RingOf(at, g, oldest, until - 1), Slot(at(until - 1), g, until - 1);
      if slot == [] {
        assert before + slot == before;
      }
    }
  }

  /** Drops what has left the span and reads only what the carried ring lacks.
      read is the store's query, which may fail. */
  method ExtendRing(carried: Option<seq<HourCells>>, oldest: int, end: int, g: Lattice,
                    read: (int, int) -> Result<seq<FrameReading>>) returns (ring: Result<seq<HourCells>>)
    requires forall a, b :: read(a, b).Ok? ==> forall r | r in read(a, b).value :: a <= r.bucket < b
    ensures var kept := if carried.Some? then Kept(carried.value, oldest) else [];
            var since := Since(kept, oldest);
            ring == if since >= end then Ok(kept)
                    else if read(since, end).Err? then Err
                    else Ok(kept + RingOf(AtHour(read(since, end).value), g, since, end))
  {
    var hours: seq<HourCells> := [];
    var since := oldest;
    if carried.Some? {
      for i := 0 to |carried.value|
        invariant hours == Kept(carried.value[..i], oldest)
      {
        assert carried.value[..i + 1][..i] == carried.value[..i];
        if !(carried.value[i].bucket < oldest) {
          hours := hours + [carried.value[i]];
        }
      }
      assert carried.value[..|carried.value|] == carried.value;
      if |hours| > 0 {
        since := hours[|hours| - 1].bucket + 1;
      }
    }
    if since >= end {
      return Ok(hours);
    }
    var readings := read(since, end);
    if readings.Err? {
      return Err;
    }
    var folded := FoldHours(readings.value, g, since, end);
    ring := Ok(hours + folded);
  }

  /** What ExtendRing returns for a carried ring and a store that answers. */
  ghost function Extended(carried: seq<HourCells>, at: int -> seq<FrameReading>, g: Lattice, oldest: int, end: int): seq<HourCells> {
    var kept := Kept(carried, oldest);
    kept + RingOf(at, g, Since(kept, oldest), end)
  }

  /** Two histories joined at an hour. */
  ghost function Joined(past: int -> seq<FrameReading>, present: int -> seq<FrameReading>, since: int): int -> seq<FrameReading> {
    h => if h < since then past(h) else present(h)
  }

  function Later(a: int, b: int): int { if a < b then b else a }

  lemma {:induction false} AllKept(at: int -> seq<FrameReading>, g: Lattice, from: int, until: int, oldest: int)
    requires oldest <= from
    ensures Kept(RingOf(at, g, from, until), oldest) == RingOf(at, g, from, until)
    decreases until - from
  {
    hide Reduced;
    if from < until {
      AllKept(at, g, from, until - 1, oldest);
      var ring := RingOf(at, g, from, until - 1);
      var slot := Slot(at(until - 1), g, until - 1);
      if slot != [] {
        assert (ring + slot)[..|ring|] == ring;
      } else {
        assert ring + slot == ring;
      }
    }
  }

  /** A ring that says what the hours of one span held then, extended for another,
      says that of the hours it kept and what the hours it read hold now. A span that
      moved back is missing the hours before those kept, and keeps those after it. */
  lemma ExtendJoins(past: int -> seq<FrameReading>, present: int -> seq<FrameReading>, g: Lattice,
                    from: int, until: int, oldest: int, end: int)
    requires oldest <= end
    ensures var carried := RingOf(past, g, from, until);
            var kept := Kept(carried, oldest); var since := Since(kept, oldest);
            && oldest <= since && (kept != [] ==> Later(from, oldest) < since <= until)
            && Extended(carried, present, g, oldest, end)
               == RingOf(Joined(past, present, since), g, if kept == [] then oldest else Later(from, oldest), Later(since, end))
  {
    hide Slot;
    var kept := Kept(RingOf(past, g, from, until), oldest);
    var lo, since := Later(from, oldest), Since(kept, oldest);
    if from <= oldest { KeptRing(past, g, from, until, oldest); } else { AllKept(past, g, from, until, oldest); }
    assert kept == RingOf(past, g, lo, until);
    if kept == [] {
      lo := oldest;
    } else {
      ResumePoint(past, g, lo, until);
      RingBuckets(past, g, lo, until);
    }
    assert kept == RingOf(past, g, lo, since);
    var joined := Joined(past, present, since);
    RingSame(past, joined, g, lo, since);
    RingSame(present, joined, g, since, end);
    if since <= end {
      RingConcat(joined, g, lo, since, end);
    } else {
      assert kept + [] == kept;
    }
  }

  /** It is exact for what they all hold now if and only if every hour it kept,
      quiet ones included, still reduces to what it did. */
  lemma ExtendExact(past: int -> seq<FrameReading>, present: int -> seq<FrameReading>, g: Lattice,
                    from: int, was: int, oldest: int, end: int)
    requires from <= oldest && was <= end && oldest <= end
    ensures var carried := RingOf(past, g, from, was);
            var since := Since(Kept(carried, oldest), oldest);
            Extended(carried, present, g, oldest, end) == RingOf(present, g, oldest, end)
            <==> forall h | oldest <= h < since :: Slot(past(h), g, h) == Slot(present(h), g, h)
  {
    hide Slot, Kept, RingOf, Extended;
    var kept := Kept(RingOf(past, g, from, was), oldest);
    var since := Since(kept, oldest);
    assert kept == [] ==> since == oldest;
    var joined := Joined(past, present, since);
    ExtendJoins(past, present, g, from, was, oldest, end);
    RingTells(joined, present, g, oldest, end);
    forall h | oldest <= h < end ensures joined(h) == if h < since then past(h) else present(h) {}
    if forall h | oldest <= h < since :: Slot(past(h), g, h) == Slot(present(h), g, h) {
      assert forall h | oldest <= h < end :: Slot(joined(h), g, h) == Slot(present(h), g, h);
    }
    if forall h | oldest <= h < end :: Slot(joined(h), g, h) == Slot(present(h), g, h) {
      forall h | oldest <= h < since ensures Slot(past(h), g, h) == Slot(present(h), g, h) {
        assert Slot(joined(h), g, h) == Slot(present(h), g, h);
      }
    }
  }

  /** ExtendRing's result is that one whatever order the store answers in. */
  lemma ExtendRingMeets(carried: seq<HourCells>, rows: seq<FrameReading>, at: int -> seq<FrameReading>, g: Lattice,
                        oldest: int, end: int)
    requires var since := Since(Kept(carried, oldest), oldest); since < end ==> Answers(rows, at, since, end)
    ensures var kept := Kept(carried, oldest);
            var since := Since(kept, oldest);
            Extended(carried, at, g, oldest, end)
            == if since >= end then kept else kept + RingOf(AtHour(rows), g, since, end)
  {
    var since := Since(Kept(carried, oldest), oldest);
    if since < end { AnswerRing(rows, at, g, since, end); }
  }

  /** One build: its end hour, and what the hours held when it ran. */
  datatype Build = Build(end: int, at: int -> seq<FrameReading>)

  /** The ring after a run of builds, each extending the one before. */
  ghost function RingAfter(builds: seq<Build>, g: Lattice): seq<HourCells>
    requires builds != []
  {
    var b := builds[|builds| - 1];
    if |builds| == 1 then Extended([], b.at, g, b.end - RING_HOURS, b.end)
    else Extended(RingAfter(builds[..|builds| - 1], g), b.at, g, b.end - RING_HOURS, b.end)
  }

  ghost predicate EndsAscend(builds: seq<Build>) {
    forall i, j | 0 <= i < j < |builds| :: builds[i].end <= builds[j].end
  }

  /** Where the last build resumed reading. */
  ghost function Resumed(builds: seq<Build>, g: Lattice): int
    requires builds != []
  {
    var oldest := builds[|builds| - 1].end - RING_HOURS;
    if |builds| == 1 then oldest else Since(Kept(RingAfter(builds[..|builds| - 1], g), oldest), oldest)
  }

  /** Which build last read hour h. */
  ghost function ReadBy(builds: seq<Build>, g: Lattice, h: int): (i: nat)
    requires builds != []
    ensures i < |builds|
    decreases |builds|
  {
    if |builds| == 1 || h >= Resumed(builds, g) then |builds| - 1 else ReadBy(builds[..|builds| - 1], g, h)
  }

  /** What that build found in the hour. */
  ghost function LastRead(builds: seq<Build>, g: Lattice): int -> seq<FrameReading>
    requires builds != []
  {
    h => builds[ReadBy(builds, g, h)].at(h)
  }

  lemma LastReadStep(builds: seq<Build>, g: Lattice, h: int)
    requires |builds| > 1
    ensures var n := |builds| - 1; var front := builds[..n];
            && ReadBy(builds, g, h) == (if h >= Resumed(builds, g) then n else ReadBy(front, g, h))
            && LastRead(builds, g)(h) == Joined(LastRead(front, g), builds[n].at, Resumed(builds, g))(h)
  {
  }

  /** The first hour the ring answers for. */
  ghost function HeldFrom(builds: seq<Build>, g: Lattice): int
    requires builds != []
  {
    var oldest := builds[|builds| - 1].end - RING_HOURS;
    if |builds| == 1 || Kept(RingAfter(builds[..|builds| - 1], g), oldest) == [] then oldest
    else Later(HeldFrom(builds[..|builds| - 1], g), oldest)
  }

  /** The hour after the last one it answers for. */
  ghost function HeldUntil(builds: seq<Build>, g: Lattice): int
    requires builds != []
  {
    Later(Resumed(builds, g), builds[|builds| - 1].end)
  }

  lemma LaterRing(builds: seq<Build>, g: Lattice)
    requires |builds| > 1
    requires var front := builds[..|builds| - 1];
             RingAfter(front, g) == RingOf(LastRead(front, g), g, HeldFrom(front, g), HeldUntil(front, g))
    ensures var n := |builds| - 1; var front, end, since := builds[..n], builds[n].end, Resumed(builds, g);
            && HeldFrom(builds, g) <= HeldUntil(builds, g)
            && end - RING_HOURS <= since && (since > HeldFrom(builds, g) ==> since <= HeldUntil(front, g))
            && (since > HeldFrom(builds, g) ==> HeldFrom(front, g) <= HeldFrom(builds, g))
            && RingAfter(builds, g) == RingOf(LastRead(builds, g), g, HeldFrom(builds, g), HeldUntil(builds, g))
  {
    hide Slot, Kept, Extended, LastRead, ReadBy, HeldUntil;
    var n := |builds| - 1;
    var front, end := builds[..n], builds[n].end;
    ExtendJoins(LastRead(front, g), builds[n].at, g, HeldFrom(front, g), HeldUntil(front, g), end - RING_HOURS, end);
    assert HeldUntil(builds, g) == Later(Resumed(builds, g), end) by { Until(builds, g); }
    var joined := Joined(LastRead(front, g), builds[n].at, Resumed(builds, g));
    forall h ensures LastRead(builds, g)(h) == joined(h) { LastReadStep(builds, g, h); }
    RingSame(joined, LastRead(builds, g), g, HeldFrom(builds, g), HeldUntil(builds, g));
  }

  lemma Until(builds: seq<Build>, g: Lattice)
    requires builds != []
    ensures HeldUntil(builds, g) == Later(Resumed(builds, g), builds[|builds| - 1].end)
  {
  }

  lemma FirstRing(b: Build, g: Lattice)
    ensures HeldFrom([b], g) == b.end - RING_HOURS && HeldUntil([b], g) == b.end
    ensures RingAfter([b], g) == RingOf(LastRead([b], g), g, b.end - RING_HOURS, b.end)
    ensures forall h :: ReadBy([b], g, h) == 0
  {
    hide Slot;
    forall h ensures LastRead([b], g)(h) == b.at(h) { assert ReadBy([b], g, h) == 0; }
    assert Kept([], b.end - RING_HOURS) == [];
    RingSame(b.at, LastRead([b], g), g, b.end - RING_HOURS, b.end);
  }

  /** Whatever the hours and the clock do meanwhile, the carried ring answers for one
      stretch of hours, each as the last build that read it found it, already past. */
  lemma {:induction false} RingIsLastRead(builds: seq<Build>, g: Lattice)
    requires builds != []
    ensures var from, until, end := HeldFrom(builds, g), HeldUntil(builds, g), builds[|builds| - 1].end;
            && end - RING_HOURS <= from <= until && end <= until
            && RingAfter(builds, g) == RingOf(LastRead(builds, g), g, from, until)
            && (forall h | from <= h < until :: h < builds[ReadBy(builds, g, h)].end)
    decreases |builds|
  {
    hide Slot, Resumed, RingAfter, RingOf, Kept;
    var n := |builds| - 1;
    if n == 0 {
      assert builds == [builds[0]];
      FirstRing(builds[0], g);
    } else {
      RingIsLastRead(builds[..n], g);
      LaterRing(builds, g);
      forall h | HeldFrom(builds, g) <= h < HeldUntil(builds, g) ensures h < builds[ReadBy(builds, g, h)].end {
        LastReadStep(builds, g, h);
      }
    }
  }

  /** Under a clock that never steps back, the stretch is the week. */
  lemma {:induction false} HoldsTheWeek(builds: seq<Build>, g: Lattice)
    requires builds != [] && EndsAscend(builds)
    ensures var end := builds[|builds| - 1].end; HeldFrom(builds, g) == end - RING_HOURS && HeldUntil(builds, g) == end
    decreases |builds|
  {
    hide Slot, RingAfter, RingOf, Kept;
    var n := |builds| - 1;
    if n == 0 {
      assert builds == [builds[0]];
      FirstRing(builds[0], g);
    } else {
      assert builds[..n][n - 1] == builds[n - 1] && EndsAscend(builds[..n]);
      HoldsTheWeek(builds[..n], g);
      RingIsLastRead(builds[..n], g);
      LaterRing(builds, g);
    }
  }

  /** What the carried ring shows of an hour, and what a week read afresh would. */
  ghost function Shown(builds: seq<Build>, g: Lattice): int -> seq<FrameReading>
    requires builds != []
  {
    h => if HeldFrom(builds, g) <= h < HeldUntil(builds, g) then LastRead(builds, g)(h) else []
  }

  ghost function Wanted(b: Build): int -> seq<FrameReading> {
    h => if b.end - RING_HOURS <= h < b.end then b.at(h) else []
  }

  /** Over any run of builds, with any clock, the carried ring is the whole week read
      afresh, quiet hours and gaps longer than the ring included, if and only if every
      hour reduces alike in what the ring shows, as the last build that read it found
      it, and in that week. */
  lemma RingIsFreshExactly(builds: seq<Build>, g: Lattice)
    requires builds != []
    ensures var b := builds[|builds| - 1];
            && (RingAfter(builds, g) == RingOf(b.at, g, b.end - RING_HOURS, b.end) <==>
                forall h :: Slot(Shown(builds, g)(h), g, h) == Slot(Wanted(b)(h), g, h))
            && (EndsAscend(builds) ==>
                (RingAfter(builds, g) == RingOf(b.at, g, b.end - RING_HOURS, b.end) <==>
                 forall h | b.end - RING_HOURS <= h < b.end ::
                   Slot(builds[ReadBy(builds, g, h)].at(h), g, h) == Slot(b.at(h), g, h)))
  {
    hide Slot, ReadBy, RingOf, RingAfter, HeldFrom, HeldUntil;
    var b := builds[|builds| - 1];
    RingIsLastRead(builds, g);
    var from, until, oldest := HeldFrom(builds, g), HeldUntil(builds, g), b.end - RING_HOURS;
    Padded(LastRead(builds, g), Shown(builds, g), g, from, until, oldest, until);
    Padded(b.at, Wanted(b), g, oldest, b.end, oldest, until);
    RingTells(Shown(builds, g), Wanted(b), g, oldest, until);
    if EndsAscend(builds) {
      HoldsTheWeek(builds, g);
      RingTells(LastRead(builds, g), b.at, g, oldest, b.end);
    }
  }

  /** Quiet hours on either side make no difference to a ring. */
  lemma Padded(at: int -> seq<FrameReading>, padded: int -> seq<FrameReading>, g: Lattice, from: int, until: int, lo: int, hi: int)
    requires lo <= from <= until <= hi
    requires forall h :: padded(h) == if from <= h < until then at(h) else []
    ensures RingOf(padded, g, lo, hi) == RingOf(at, g, from, until)
  {
    hide Slot;
    RingConcat(padded, g, lo, from, hi);
    RingConcat(padded, g, from, until, hi);
    RingSame(padded, at, g, from, until);
    QuietRing(padded, g, lo, from);
    QuietRing(padded, g, until, hi);
  }

  lemma {:induction false} QuietRing(at: int -> seq<FrameReading>, g: Lattice, from: int, until: int)
    requires forall h | from <= h < until :: at(h) == []
    ensures RingOf(at, g, from, until) == []
    decreases until - from
  {
    hide Reduced;
    if from < until { QuietRing(at, g, from, until - 1); }
  }

  /** An hour's reduction never changes once a build has found it past. */
  ghost predicate Settled(builds: seq<Build>, g: Lattice) {
    forall i, j, h | 0 <= i < j < |builds| && h < builds[i].end ::
      Slot(builds[i].at(h), g, h) == Slot(builds[j].at(h), g, h)
  }

  /** So a history whose past does not change is carried exactly. */
  lemma RingIsFresh(builds: seq<Build>, g: Lattice)
    requires builds != [] && EndsAscend(builds) && Settled(builds, g)
    ensures var b := builds[|builds| - 1];
            RingAfter(builds, g) == RingOf(b.at, g, b.end - RING_HOURS, b.end)
  {
    hide Slot, ReadBy, RingOf, RingAfter;
    var n := |builds| - 1;
    RingIsLastRead(builds, g);
    HoldsTheWeek(builds, g);
    RingIsFreshExactly(builds, g);
    forall h | builds[n].end - RING_HOURS <= h < builds[n].end
      ensures Slot(builds[ReadBy(builds, g, h)].at(h), g, h) == Slot(builds[n].at(h), g, h)
    {
      assert ReadBy(builds, g, h) <= n;
    }
  }

  /** A reading that reaches an hour after a build found it past is not seen by
      the carried ring until the hour leaves the week. */
  lemma LateReadingIsMissed(g: Lattice) returns (past: int -> seq<FrameReading>, present: int -> seq<FrameReading>)
    ensures var carried := RingOf(past, g, -168, 0);
            Extended(carried, present, g, -167, 1) != RingOf(present, g, -167, 1)
  {
    var r, late := FrameReading(-1, 0.0, 0.0, 1.0), FrameReading(-1, 0.0, 0.0, 3.0);
    past := h => if h == -1 then [r] else [];
    present := h => if h == -1 then [r, late] else [];
    ExtendExact(past, present, g, -168, 0, -167, 1);
    KeptRing(past, g, -168, 0, -167);
    RingConcat(past, g, -167, -1, 0);
    assert RingOf(past, g, -1, 0) == RingOf(past, g, -1, -1) + Slot([r], g, -1);
    RingConcat(present, g, -167, -1, 0);
    assert RingOf(present, g, -1, 0) == RingOf(present, g, -1, -1) + Slot([r, late], g, -1);
    SlotsDiffer(g, r, late);
  }

  lemma SlotsDiffer(g: Lattice, r: FrameReading, late: FrameReading)
    requires r == FrameReading(-1, 0.0, 0.0, 1.0) && late == FrameReading(-1, 0.0, 0.0, 3.0)
    ensures Slot([r], g, -1) != Slot([r, late], g, -1)
  {
    var res: Km := 2.0;
    var c := CellOf(g, res)(r);
    hide CellOf, Reduced;
    CoarseCell(g, r, late, res, c);
    assert TiersKM()[5] == res;
    assert HourOf([r], g, -1).tiers[res][c] != HourOf([r, late], g, -1).tiers[res][c];
  }

  lemma CoarseCell(g: Lattice, r: FrameReading, late: FrameReading, res: Km, c: Axial)
    requires c == CellOf(g, res)(r) == CellOf(g, res)(late) && r.value == 1.0 && late.value == 3.0
    ensures var one, two := Reduced([r], g, res), Reduced([r, late], g, res);
            c in one && c in two && one[c] == 1.0 && two[c] == 2.0
  {
    hide CellOf, Members, Median;
    assert [] + [r] == [r] && [r] + [late] == [r, late];
    NoneInCell(g, res, c);
    MembersStep(CellOf(g, res), c, [], r);
    MembersStep(CellOf(g, res), c, [r], late);
    CollectStep(ValueOf(), [], r);
    CollectStep(ValueOf(), [r], late);
    assert CellValues([r], g, res, c) == [1.0] && CellValues([r, late], g, res, c) == [1.0, 3.0];
    MedianOfOne(1.0);
    MedianOfTwo(1.0, 3.0);
    CellsOccupied([r], g, res, c);
    CellsOccupied([r, late], g, res, c);
  }

  lemma NoneInCell(g: Lattice, res: Km, c: Axial)
    ensures Members(CellOf(g, res), c, []) == []
  {
  }
}
