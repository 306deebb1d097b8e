/** What a frame of the animation shows, said of the rollup rows it was folded from
    (internal/snapshot/timelapse.go, foldHours through timelapseFrom). */
module Animation {
  import opened Contents
  import opened Sorting
  import opened Statistics
  import opened HexGrid
  import opened Timelapse
  import opened Frames

  /** The row lies in the cell, in the stretch of hours. */
  predicate Lies(g: Lattice, res: Km, c: Axial, from: int, until: int, r: FrameReading) {
    from <= r.bucket < until && g.HexOf(r.lon, r.lat, res) == c
  }

  lemma {:induction false} RingMembers(at: int -> seq<FrameReading>, g: Lattice, from: int, until: int)
    ensures forall hour :: hour in RingOf(at, g, from, until) <==>
              from <= hour.bucket < until && at(hour.bucket) != [] && hour == HourOf(at(hour.bucket), g, hour.bucket)
    decreases until - from
  {
    hide Reduced;
    if from < until {
      RingMembers(at, g, from, until - 1);
    }
  }

  lemma HourRows(rows: seq<FrameReading>, h: int)
    ensures forall r :: r in AtHour(rows)(h) <==> r in rows && r.bucket == h
  {
    MembersIn(ByBucket, h, rows);
  }

  /** An hour has the cells its rows lie in, at every published tier, and the value
      of each lies among theirs. */
  lemma HourCell(rs: seq<FrameReading>, g: Lattice, h: int, res: Km, c: Axial, lo: real, hi: real)
    requires res in TiersKM()
    ensures var tiers := HourOf(rs, g, h).tiers;
            && res in tiers
            && (c in tiers[res] <==> exists r | r in rs :: g.HexOf(r.lon, r.lat, res) == c)
            && (c in tiers[res] && (forall r | r in rs && g.HexOf(r.lon, r.lat, res) == c :: lo <= r.value <= hi)
                ==> lo <= tiers[res][c] <= hi)
  {
    hide Grid.HexOf, Median, Members;
    var own := Members(CellOf(g, res), c, rs);
    var vs := CellValues(rs, g, res, c);
    MembersIn(CellOf(g, res), c, rs);
    CellsOccupied(rs, g, res, c);
    CollectMembers(ValueOf(), own);
    if vs != [] && forall r | r in rs && g.HexOf(r.lon, r.lat, res) == c :: lo <= r.value <= hi {
      forall v | v in vs ensures lo <= v <= hi {
        var r :| r in own && ValueOf()(r) == Some(v);
      }
      MedianAmong(vs, lo, hi);
    }
  }

  /** The ring's hours and cells are the rows'. */
  lemma RingCell(rows: seq<FrameReading>, g: Lattice, from: int, until: int, res: Km, c: Axial, h: int)
    requires res in TiersKM() && forall r | r in rows :: from <= r.bucket < until
    ensures var ring := RingOf(AtHour(rows), g, from, until);
            (exists hour | hour in ring :: hour.bucket == h && res in hour.tiers && c in hour.tiers[res])
            <==> exists r | r in rows :: r.bucket == h && g.HexOf(r.lon, r.lat, res) == c
  {
    hide Grid.HexOf, RingOf, HourOf, AtHour;
    var at := AtHour(rows);
    RingMembers(at, g, from, until);
    HourRows(rows, h);
    HourCell(at(h), g, h, res, c, 0.0, 0.0);
    var hour := HourOf(at(h), g, h);
    assert hour.bucket == h by { HourBucket(at(h), g, h); }
    if r :| r in rows && r.bucket == h && g.HexOf(r.lon, r.lat, res) == c {
      assert r in at(h);
      assert hour in RingOf(at, g, from, until);
    }
  }

  lemma HourBucket(rs: seq<FrameReading>, g: Lattice, h: int)
    ensures HourOf(rs, g, h).bucket == h
  {
  }

  /** Over a folded ring, an entry is a value if and only if some row of its step lies
      in its cell, and is then among the values of those rows, to a twentieth; with one
      such row it is that row's. */
  lemma EntryOfRows(p: Payload, coords: seq<Axial>, spec: FrameSpec, rows: seq<FrameReading>, end: int, g: Lattice, res: Km,
                    from: int, until: int, i: int, k: int, lo: real, hi: real)
    requires res in TiersKM() && (forall r | r in rows :: from <= r.bucket < until)
    requires spec.step > 0 && spec.dur >= 0 && spec.dur % spec.step == 0
    requires IsTimelapse(p, coords, spec, RingOf(AtHour(rows), g, from, until), end, g, res)
    requires 0 <= i < |p.frames| && 0 <= k < |p.cells|
    ensures p.frames[i].t == end - spec.dur + i * spec.step
    ensures var c, t, v := coords[k], p.frames[i].t, p.frames[i].v[k];
            && (v.Some? <==> exists r | r in rows :: Lies(g, res, c, t, t + spec.step, r))
            && (v.Some? && (forall r | r in rows && Lies(g, res, c, t, t + spec.step, r) :: lo <= r.value <= hi) ==>
                  lo - 0.05 <= v.value <= hi + 0.05)
  {
    hide Grid.HexOf, RingOf, AtHour, Coords, IsTimelapse, FrameValues, Round1, Median, Lies, SomeHourHasCell, Among, TiersKM;
    var ring, start := RingOf(AtHour(rows), g, from, until), end - spec.dur;
    Sizes(p, coords, spec, ring, end, g, res);
    Entry(p, coords, spec, ring, end, g, res, i, k);
    ValueOrNull(p, coords, spec, ring, end, g, res, i, k);
    var c, t := coords[k], p.frames[i].t;
    HasRow(rows, g, from, until, res, c, t, spec.step);
    if p.frames[i].v[k].Some? && forall r | r in rows && Lies(g, res, c, t, t + spec.step, r) :: lo <= r.value <= hi {
      ValuesAmong(rows, g, from, until, res, c, spec, end, i, lo, hi);
      RoundedAmong(FrameValues(ring, start, spec.step, res, i, c), lo, hi);
    }
  }

  lemma RoundedAmong(vs: seq<real>, lo: real, hi: real)
    requires vs != [] && Among(vs, lo, hi)
    ensures lo - 0.05 <= Round1(Median(vs)) <= hi + 0.05
  {
    hide Median, Round1;
    MedianAmong(vs, lo, hi);
    Round1Within(Median(vs), lo, hi);
  }

  lemma HasRow(rows: seq<FrameReading>, g: Lattice, from: int, until: int, res: Km, c: Axial, t: int, step: int)
    requires res in TiersKM() && forall r | r in rows :: from <= r.bucket < until
    ensures SomeHourHasCell(RingOf(AtHour(rows), g, from, until), t, step, res, c)
            <==> exists r | r in rows :: Lies(g, res, c, t, t + step, r)
  {
    hide Grid.HexOf, RingOf, AtHour;
    var ring := RingOf(AtHour(rows), g, from, until);
    if hour :| hour in ring && t <= hour.bucket < t + step && res in hour.tiers && c in hour.tiers[res] {
      RingCell(rows, g, from, until, res, c, hour.bucket);
      var r :| r in rows && r.bucket == hour.bucket && g.HexOf(r.lon, r.lat, res) == c;
      assert Lies(g, res, c, t, t + step, r);
    }
    if r :| r in rows && Lies(g, res, c, t, t + step, r) {
      RingCell(rows, g, from, until, res, c, r.bucket);
    }
  }

  lemma ValuesAmong(rows: seq<FrameReading>, g: Lattice, from: int, until: int, res: Km, c: Axial,
                    spec: FrameSpec, end: int, i: int, lo: real, hi: real)
    requires res in TiersKM() && forall r | r in rows :: from <= r.bucket < until
    requires spec.step > 0 && spec.dur % spec.step == 0
    requires var t := end - spec.dur + i * spec.step;
             forall r | r in rows && Lies(g, res, c, t, t + spec.step, r) :: lo <= r.value <= hi
    ensures Among(FrameValues(RingOf(AtHour(rows), g, from, until), end - spec.dur, spec.step, res, i, c), lo, hi)
  {
    hide Grid.HexOf, RingOf, AtHour, HourOf, StepIndex;
    var ring, start := RingOf(AtHour(rows), g, from, until), end - spec.dur;
    CollectMembers(InFrame(start, spec.step, res, i, c), ring);
    RingMembers(AtHour(rows), g, from, until);
    forall v | v in FrameValues(ring, start, spec.step, res, i, c) ensures lo <= v <= hi {
      var hour :| hour in ring && InFrame(start, spec.step, res, i, c)(hour) == Some(v);
      var h := hour.bucket;
      FramesPartition(spec, end, h, i);
      assert (i + 1) * spec.step == i * spec.step + spec.step;
      HourRows(rows, h);
      HourCell(AtHour(rows)(h), g, h, res, c, lo, hi);
    }
  }

  /** The cells listed are those the span's rows lie in, and where they are shown is
      their centres, to half a ten-thousandth of a degree. */
  lemma CellsOfRows(p: Payload, coords: seq<Axial>, spec: FrameSpec, rows: seq<FrameReading>, end: int, g: Lattice, res: Km,
                    from: int, until: int)
    requires res in TiersKM() && (forall r | r in rows :: from <= r.bucket < until) && spec.step > 0
    requires IsTimelapse(p, coords, spec, RingOf(AtHour(rows), g, from, until), end, g, res)
    ensures && |p.cells| == |coords|
            && (forall c :: c in coords <==> exists r | r in rows :: r.bucket >= end - spec.dur && g.HexOf(r.lon, r.lat, res) == c)
            && (forall k | 0 <= k < |coords| :: var at := g.HexCentre(coords[k], res);
                  at.x - 0.00005 <= p.cells[k].x <= at.x + 0.00005 && at.y - 0.00005 <= p.cells[k].y <= at.y + 0.00005)
  {
    hide Grid.HexOf, Grid.HexCentre, RingOf, AtHour, Coords, Round4;
    var ring, start := RingOf(AtHour(rows), g, from, until), end - spec.dur;
    forall k | 0 <= k < |coords|
      ensures var at := g.HexCentre(coords[k], res);
              at.x - 0.00005 <= p.cells[k].x <= at.x + 0.00005 && at.y - 0.00005 <= p.cells[k].y <= at.y + 0.00005
    {
      Round4Near(g.HexCentre(coords[k], res).x);
      Round4Near(g.HexCentre(coords[k], res).y);
    }
    forall c ensures c in coords <==> exists r | r in rows :: r.bucket >= start && g.HexOf(r.lon, r.lat, res) == c {
      ListedCell(rows, g, from, until, res, start, c);
    }
  }

  lemma ListedCell(rows: seq<FrameReading>, g: Lattice, from: int, until: int, res: Km, start: int, c: Axial)
    requires res in TiersKM() && forall r | r in rows :: from <= r.bucket < until
    ensures c in Coords(RingOf(AtHour(rows), g, from, until), start, res)
            <==> exists r | r in rows :: r.bucket >= start && g.HexOf(r.lon, r.lat, res) == c
  {
    hide Grid.HexOf, RingOf, AtHour;
    var ring := RingOf(AtHour(rows), g, from, until);
    CoordsList(ring, start, res);
    if hour :| hour in ring && hour.bucket >= start && c in TierCells(hour, res) {
      RingCell(rows, g, from, until, res, c, hour.bucket);
    }
    if r :| r in rows && r.bucket >= start && g.HexOf(r.lon, r.lat, res) == c {
      RingCell(rows, g, from, until, res, c, r.bucket);
    }
  }

  lemma CoordsList(ring: seq<HourCells>, start: int, res: Km)
    ensures forall c :: c in Coords(ring, start, res) <==> exists hour | hour in ring :: hour.bucket >= start && c in TierCells(hour, res)
  {
    hide TierCells;
  }
}
