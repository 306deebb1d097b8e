/** Regrouping the ring into one span's frames (timelapseFrom in
    internal/snapshot/timelapse.go): one sorted cell list, and per frame one
    value or null for each cell of the list. */
module Frames {
  import opened Contents
  import opened Sorting
  import opened Statistics
  import opened HexGrid
  import opened Orders
  import opened Timelapse

  datatype Frame = Frame(t: int, v: seq<Option<real>>)

  datatype Payload = Payload(cells: seq<Point>, frames: seq<Frame>)

  function TierCells(h: HourCells, res: Km): map<Axial, real> {
    if res in h.tiers then h.tiers[res] else map[]
  }

  lemma TierHas(h: HourCells, res: Km, c: Axial)
    ensures c in TierCells(h, res) <==> res in h.tiers && c in h.tiers[res]
  {
  }

  function StepIndex(h: int, start: int, step: int): int
    requires step > 0
  {
    (h - start) / step
  }

  /** An hour's value of a cell, if the hour is in frame i and has the cell. */
  function InFrame(start: int, step: int, res: Km, i: int, c: Axial): HourCells -> Option<real>
    requires step > 0
  {
    (h: HourCells) =>
      if h.bucket >= start && StepIndex(h.bucket, start, step) == i && c in TierCells(h, res)
      then Some(TierCells(h, res)[c]) else None
  }

  /** The values of cell c in frame i, in ring order. */
  function FrameValues(ring: seq<HourCells>, start: int, step: int, res: Km, i: int, c: Axial): seq<real>
    requires step > 0
  {
    Collect(InFrame(start, step, res, i, c), ring)
  }

  /** Every cell some hour of the span has. */
  function ListedCells(ring: seq<HourCells>, start: int, res: Km): set<Axial> {
    set h, c | h in ring && h.bucket >= start && c in TierCells(h, res) :: c
  }

  /** Those cells once each, by column then row. */
  ghost function Coords(ring: seq<HourCells>, start: int, res: Km): seq<Axial> {
    AxialTotal();
    Ascending(AxialAtMost, ListedCells(ring, start, res))
  }

  function FrameValue(vs: seq<real>): Option<real> {
    if vs == [] then None else Some(Round1(Median(vs)))
  }

  /** A cell's published centre. */
  function Centre(g: Lattice, c: Axial, res: Km): Point {
    var Point(lon, lat) := g.HexCentre(c, res);
    Point(Round4(lon), Round4(lat))
  }

  /** p shows the ring's last spec.dur hours before end at resolution res; coords
      are the lattice points whose centres it lists. */
  ghost predicate IsTimelapse(p: Payload, coords: seq<Axial>, spec: FrameSpec, ring: seq<HourCells>, end: int, g: Lattice, res: Km)
    requires spec.step > 0
  {
    var start := end - spec.dur;
    && coords == Coords(ring, start, res)
    && |p.cells| == |coords|
    && (forall k | 0 <= k < |coords| :: p.cells[k] == Centre(g, coords[k], res))
    && |p.frames| == spec.dur / spec.step
    && (forall i | 0 <= i < |p.frames| :: |p.frames[i].v| == |p.cells|)
    && (forall i | 0 <= i < |p.frames| :: Shows(p.frames[i], i, coords, ring, start, spec.step, res))
  }

  /** f is frame i: its own moment, and per cell the rounded median or null. */
  ghost predicate Shows(f: Frame, i: int, coords: seq<Axial>, ring: seq<HourCells>, start: int, step: int, res: Km)
    requires step > 0
  {
    && f.t == start + i * step
    && |f.v| == |coords|
    && forall k | 0 <= k < |coords| :: f.v[k] == FrameValue(FrameValues(ring, start, step, res, i, coords[k]))
  }

  // ---- building it ----

  type Groups = map<int, map<Axial, seq<real>>>

  function GroupValues(groups: Groups, i: int, c: Axial): seq<real> {
    if i in groups && c in groups[i] then groups[i][c] else []
  }

  /** groups holds, per frame and cell, the values of the hours so far. */
  ghost predicate Grouped(groups: Groups, ring: seq<HourCells>, start: int, step: int, res: Km)
    requires step > 0
  {
    && (forall i, c :: GroupValues(groups, i, c) == FrameValues(ring, start, step, res, i, c))
    && (forall i, c | i in groups && c in groups[i] :: groups[i][c] != [])
  }

  /** Appending one hour's cells to its frame's group. */
  method AppendHour(group: map<Axial, seq<real>>, cells: map<Axial, real>) returns (out: map<Axial, seq<real>>)
    ensures out.Keys == group.Keys + cells.Keys
    ensures forall c | c in out :: out[c] == Appended(group, cells, c)
  {
    out := group;
    var rest := cells.Keys;
    while rest != {}
      invariant rest <= cells.Keys && out.Keys == group.Keys + (cells.Keys - rest)
      invariant forall c | c in out && c !in rest :: out[c] == Appended(group, cells, c)
      invariant forall c | c in group && c in rest :: out[c] == group[c]
      decreases rest
    {
      var c :| c in rest;
      assert (if c in out then out[c] else []) == if c in group then group[c] else [];
      out := out[c := (if c in out then out[c] else []) + [cells[c]]];
      rest := rest - {c};
    }
  }

  function Appended(group: map<Axial, seq<real>>, cells: map<Axial, real>, c: Axial): seq<real> {
    (if c in group then group[c] else []) + if c in cells then [cells[c]] else []
  }

  lemma GroupStep(groups: Groups, ring: seq<HourCells>, h: HourCells, start: int, step: int, res: Km,
                  group: map<Axial, seq<real>>, after: Groups)
    requires step > 0 && Grouped(groups, ring, start, step, res) && h.bucket >= start
    requires var i, cells := StepIndex(h.bucket, start, step), TierCells(h, res);
             var was := if i in groups then groups[i] else map[];
             && group.Keys == was.Keys + cells.Keys
             && (forall c | c in group :: group[c] == Appended(was, cells, c))
             && after == groups[i := group]
    ensures Grouped(after, ring + [h], start, step, res)
  {
    hide TierCells, StepIndex, Collect;
    forall i, c ensures GroupValues(after, i, c) == FrameValues(ring + [h], start, step, res, i, c) {
      var f := InFrame(start, step, res, i, c);
      CollectStep(f, ring, h);
      assert f(h).Some? <==> StepIndex(h.bucket, start, step) == i && c in TierCells(h, res);
      assert GroupValues(groups, i, c) == FrameValues(ring, start, step, res, i, c);
      if StepIndex(h.bucket, start, step) == i && c in group {
        assert group[c] == GroupValues(groups, i, c) + if c in TierCells(h, res) then [TierCells(h, res)[c]] else [];
      }
    }
  }

  lemma SkipStep(groups: Groups, ring: seq<HourCells>, h: HourCells, start: int, step: int, res: Km)
    requires step > 0 && Grouped(groups, ring, start, step, res) && h.bucket < start
    ensures Grouped(groups, ring + [h], start, step, res)
  {
  }

  method GroupHours(ring: seq<HourCells>, start: int, step: int, res: Km) returns (groups: Groups)
    requires step > 0
    ensures Grouped(groups, ring, start, step, res)
  {
    hide Grouped, TierCells, StepIndex;
    groups := map[];
    NoGroups(start, step, res);
    for j := 0 to |ring|
      invariant Grouped(groups, ring[..j], start, step, res)
    {
      var h := ring[j];
      assert ring[..j + 1] == ring[..j] + [h];
      if h.bucket < start {
        SkipStep(groups, ring[..j], h, start, step, res);
        continue;
      }
      var i := StepIndex(h.bucket, start, step);
      var group := AppendHour(if i in groups then groups[i] else map[], TierCells(h, res));
      GroupStep(groups, ring[..j], h, start, step, res, group, groups[i := group]);
      groups := groups[i := group];
    }
    assert ring[..|ring|] == ring;
  }

  lemma NoGroups(start: int, step: int, res: Km)
    requires step > 0
    ensures Grouped(map[], [], start, step, res)
  {
  }

  /** The union over the span of the groups' cells. */
  method SeenCells(groups: Groups) returns (seen: set<Axial>)
    ensures forall c :: c in seen <==> exists g :: g in groups.Items && c in g.1
  {
    seen := {};
    var rest := groups.Items;
    while rest != {}
      invariant rest <= groups.Items
      invariant forall c :: c in seen <==> exists g :: g in groups.Items && g !in rest && c in g.1
      decreases rest
    {
      var g :| g in rest;
      seen := seen + g.1.Keys;
      rest := rest - {g};
    }
  }

  lemma SeenIsListed(groups: Groups, ring: seq<HourCells>, start: int, step: int, res: Km, seen: set<Axial>)
    requires step > 0 && Grouped(groups, ring, start, step, res)
    requires forall c :: c in seen <==> exists g :: g in groups.Items && c in g.1
    ensures seen == ListedCells(ring, start, res)
  {
    forall c ensures c in seen <==> c in ListedCells(ring, start, res) {
      if c in seen {
        var g :| g in groups.Items && c in g.1;
        assert GroupValues(groups, g.0, c) != [];
        SomeHour(ring, start, step, res, g.0, c);
      }
      if c in ListedCells(ring, start, res) {
        var h :| h in ring && h.bucket >= start && c in TierCells(h, res);
        var i := StepIndex(h.bucket, start, step);
        HourShows(ring, start, step, res, h, c);
        assert GroupValues(groups, i, c) != [];
        assert (i, groups[i]) in groups.Items;
      }
    }
  }

  /** A frame has a value for a cell exactly when some hour of its step has it. */
  lemma SomeHour(ring: seq<HourCells>, start: int, step: int, res: Km, i: int, c: Axial)
    requires step > 0
    ensures FrameValues(ring, start, step, res, i, c) != [] <==>
              exists h :: h in ring && h.bucket >= start && StepIndex(h.bucket, start, step) == i && c in TierCells(h, res)
  {
    var f := InFrame(start, step, res, i, c);
    var vs := Collect(f, ring);
    CollectMembers(f, ring);
    if vs != [] {
      var v: real := vs[0];
      assert v in vs;
      var h :| h in ring && f(h) == Some(v);
    }
    if h :| h in ring && h.bucket >= start && StepIndex(h.bucket, start, step) == i && c in TierCells(h, res) {
      assert f(h) == Some(TierCells(h, res)[c]);
      assert TierCells(h, res)[c] in vs;
    }
  }

  lemma HourShows(ring: seq<HourCells>, start: int, step: int, res: Km, h: HourCells, c: Axial)
    requires step > 0 && h in ring && h.bucket >= start && c in TierCells(h, res)
    ensures FrameValues(ring, start, step, res, StepIndex(h.bucket, start, step), c) != []
  {
    SomeHour(ring, start, step, res, StepIndex(h.bucket, start, step), c);
  }

  /** Collecting the seen cells and sorting them by coordinate. */
  method SortedCells(seen: set<Axial>) returns (coords: seq<Axial>)
    ensures TotalOrder(AxialAtMost) && coords == Ascending(AxialAtMost, seen)
    ensures forall c :: c in coords <==> c in seen
    ensures forall i, j | 0 <= i < j < |coords| :: coords[i] != coords[j]
  {
    coords := [];
    var rest := seen;
    while rest != {}
      invariant rest <= seen && multiset(coords) == multiset(seen - rest)
      decreases rest
    {
      var c :| c in rest;
      coords := coords + [c];
      assert seen - (rest - {c}) == seen - rest + {c};
      rest := rest - {c};
    }
    assert seen - rest == seen;
    AxialTotal();
    SortCorrect(AxialAtMost, coords);
    coords := Sort(AxialAtMost, coords);
    AscendingUnique(AxialAtMost, seen, coords);
  }

  /** One frame's positional values: null where no hour of the step has the cell. */
  method FillFrame(group: map<Axial, seq<real>>, index: map<Axial, int>, coords: seq<Axial>) returns (v: seq<Option<real>>)
    requires forall k | 0 <= k < |coords| :: coords[k] in index && index[coords[k]] == k
    requires forall c | c in group :: c in coords && group[c] != []
    ensures |v| == |coords|
    ensures forall k | 0 <= k < |coords| :: v[k] == FrameValue(if coords[k] in group then group[coords[k]] else [])
  {
    hide FrameValue, Median, Round1;
    NullFrameValue();
    v := seq(|coords|, _ => None);
    var rest := group.Keys;
    while rest != {}
      invariant rest <= group.Keys && |v| == |coords|
      invariant forall k | 0 <= k < |coords| ::
                  v[k] == FrameValue(if coords[k] in group && coords[k] !in rest then group[coords[k]] else [])
      decreases rest
    {
      var c :| c in rest;
      var k :| 0 <= k < |coords| && coords[k] == c;
      SomeFrameValue(group[c]);
      v := v[index[c] := Some(Round1(Median(group[c])))];
      rest := rest - {c};
    }
  }

  lemma NullFrameValue()
    ensures FrameValue([]) == None
  {
  }

  lemma SomeFrameValue(vs: seq<real>)
    requires vs != []
    ensures FrameValue(vs) == Some(Round1(Median(vs)))
  {
  }

  method Geometry(coords: seq<Axial>, g: Lattice, res: Km) returns (cells: seq<Point>, index: map<Axial, int>)
    requires forall i, j | 0 <= i < j < |coords| :: coords[i] != coords[j]
    ensures |cells| == |coords|
    ensures forall k | 0 <= k < |coords| ::
              cells[k] == Centre(g, coords[k], res) && coords[k] in index && index[coords[k]] == k
  {
    hide Centre;
    index, cells := map[], [];
    for k := 0 to |coords|
      invariant |cells| == k
      invariant forall j | 0 <= j < k ::
                  cells[j] == Centre(g, coords[j], res) && coords[j] in index && index[coords[j]] == j
    {
      cells := cells + [Centre(g, coords[k], res)];
      index := index[coords[k] := k];
    }
  }

  /** The union of the groups' cells, sorted. */
  method ListCells(groups: Groups, ghost ring: seq<HourCells>, ghost start: int, ghost step: int, ghost res: Km)
    returns (coords: seq<Axial>)
    requires step > 0 && Grouped(groups, ring, start, step, res)
    ensures coords == Coords(ring, start, res)
    ensures forall c :: c in coords <==> exists g :: g in groups.Items && c in g.1
    ensures forall i, j | 0 <= i < j < |coords| :: coords[i] != coords[j]
  {
    hide Grouped, ListedCells, SortedBy, TotalOrder, Preorder;
    var seen := SeenCells(groups);
    SeenIsListed(groups, ring, start, step, res, seen);
    coords := SortedCells(seen);
  }

  method TimelapseFrom(spec: FrameSpec, ring: seq<HourCells>, end: int, g: Lattice, res: Km)
    returns (p: Payload)
    requires spec.step > 0 && spec.dur >= 0
    ensures IsTimelapse(p, Coords(ring, end - spec.dur, res), spec, ring, end, g, res)
  {
    hide Centre, Shows, Coords, Grouped, IsTimelapse;
    var start := end - spec.dur;
    var groups := GroupHours(ring, start, spec.step, res);
    var coords := ListCells(groups, ring, start, spec.step, res);
    var cells, index := Geometry(coords, g, res);
    var frames := FillFrames(spec, ring, start, res, groups, index, coords);
    p := Payload(cells, frames);
    Assembled(p, spec, ring, end, g, res, coords);
  }

  lemma Assembled(p: Payload, spec: FrameSpec, ring: seq<HourCells>, end: int, g: Lattice, res: Km, coords: seq<Axial>)
    requires spec.step > 0 && coords == Coords(ring, end - spec.dur, res)
    requires |p.cells| == |coords| && forall k | 0 <= k < |coords| :: p.cells[k] == Centre(g, coords[k], res)
    requires |p.frames| == spec.dur / spec.step
    requires forall i | 0 <= i < |p.frames| :: Shows(p.frames[i], i, coords, ring, end - spec.dur, spec.step, res)
    ensures IsTimelapse(p, coords, spec, ring, end, g, res)
  {
    hide Centre, FrameValue, FrameValues, Coords;
  }

  lemma Entry(p: Payload, coords: seq<Axial>, spec: FrameSpec, ring: seq<HourCells>, end: int, g: Lattice, res: Km, i: int, k: int)
    requires spec.step > 0 && IsTimelapse(p, coords, spec, ring, end, g, res)
    requires 0 <= i < |p.frames| && 0 <= k < |p.cells|
    ensures |coords| == |p.cells| && |p.frames| == spec.dur / spec.step
            && p.frames[i].t == end - spec.dur + i * spec.step && |p.frames[i].v| == |coords|
            && p.frames[i].v[k] == FrameValue(FrameValues(ring, end - spec.dur, spec.step, res, i, coords[k]))
  {
    hide Centre, FrameValue, FrameValues, Coords;
  }

  method FillFrames(spec: FrameSpec, ghost ring: seq<HourCells>, start: int, res: Km, groups: Groups,
                    index: map<Axial, int>, coords: seq<Axial>) returns (frames: seq<Frame>)
    requires spec.step > 0 && spec.dur >= 0 && Grouped(groups, ring, start, spec.step, res)
    requires forall k | 0 <= k < |coords| :: coords[k] in index && index[coords[k]] == k
    requires forall c :: c in coords <==> exists g :: g in groups.Items && c in g.1
    ensures |frames| == spec.dur / spec.step
    ensures forall i | 0 <= i < |frames| :: Shows(frames[i], i, coords, ring, start, spec.step, res)
  {
    hide FrameValue, FrameValues;
    var steps := spec.dur / spec.step;
    frames := [];
    for i := 0 to steps
      invariant |frames| == i
      invariant forall j | 0 <= j < i :: Shows(frames[j], j, coords, ring, start, spec.step, res)
    {
      var group := if i in groups then groups[i] else map[];
      assert i in groups ==> (i, group) in groups.Items;
      var v := FillFrame(group, index, coords);
      forall k | 0 <= k < |coords|
        ensures v[k] == FrameValue(FrameValues(ring, start, spec.step, res, i, coords[k]))
      {
        assert GroupValues(groups, i, coords[k]) == if coords[k] in group then group[coords[k]] else [];
      }
      frames := frames + [Frame(start + i * spec.step, v)];
    }
  }

  // ---- what the frames say ----

  /** The published steps divide their spans. */
  lemma SpecsTile()
    ensures forall s | s in FrameSpecs() :: s.step > 0 && s.dur > 0 && s.dur % s.step == 0 && s.dur <= RING_HOURS
  {
  }

  /** The frames partition the span: every hour of it falls in exactly one, the
      one whose interval contains it. */
  lemma FramesPartition(spec: FrameSpec, end: int, h: int, i: int)
    requires spec.step > 0 && spec.dur % spec.step == 0
    ensures var start := end - spec.dur;
            && (start <= h < end ==> 0 <= StepIndex(h, start, spec.step) < spec.dur / spec.step)
            && (start <= h ==> (StepIndex(h, start, spec.step) == i <==>
                                start + i * spec.step <= h < start + (i + 1) * spec.step))
  {
    var off, n := h - (end - spec.dur), spec.dur / spec.step;
    assert off == (off / spec.step) * spec.step + off % spec.step;
    assert spec.dur == n * spec.step;
    DivUnique(off, spec.step, i);
    if 0 <= off < spec.dur { DivBelow(off, spec.step, n); }
  }

  lemma DivUnique(off: int, step: int, i: int)
    requires step > 0
    ensures off / step == i <==> i * step <= off < (i + 1) * step
  {
    var q := off / step;
    assert q * step <= off < q * step + step;
    if i < q {
      assert (i + 1) * step <= q * step by { MulOrder(i + 1, q, step); }
    } else if i > q {
      assert (q + 1) * step <= i * step by { MulOrder(q + 1, i, step); }
    }
    assert (i + 1) * step == i * step + step;
  }

  lemma MulOrder(a: int, b: int, k: int)
    requires a <= b && k > 0
    ensures a * k <= b * k
  {
  }

  lemma DivBelow(off: int, step: int, n: int)
    requires step > 0 && 0 <= off < n * step
    ensures 0 <= off / step < n
  {
    DivUnique(off, step, off / step);
    if off / step >= n { MulOrder(n, off / step, step); }
  }

  ghost predicate SomeHourHasCell(ring: seq<HourCells>, from: int, step: int, res: Km, c: Axial) {
    exists h :: h in ring && from <= h.bucket < from + step && res in h.tiers && c in h.tiers[res]
  }

  /** An entry is a value exactly when some hour of that step has that cell; it
      is then the rounded median of those hours' values. */
  lemma ValueOrNull(p: Payload, coords: seq<Axial>, spec: FrameSpec, ring: seq<HourCells>, end: int, g: Lattice, res: Km, i: int, k: int)
    requires spec.step > 0 && spec.dur >= 0 && spec.dur % spec.step == 0
    requires IsTimelapse(p, coords, spec, ring, end, g, res)
    requires 0 <= i < |p.frames| && 0 <= k < |p.cells|
    ensures var start, c := end - spec.dur, coords[k];
            && (p.frames[i].v[k].Some? <==> SomeHourHasCell(ring, start + i * spec.step, spec.step, res, c))
            && (p.frames[i].v[k].Some? ==>
                  FrameValues(ring, start, spec.step, res, i, c) != []
                  && p.frames[i].v[k].value == Round1(Median(FrameValues(ring, start, spec.step, res, i, c))))
  {
    hide Median, Round1, Coords, FrameValues, IsTimelapse, SomeHourHasCell;
    var start := end - spec.dur;
    Entry(p, coords, spec, ring, end, g, res, i, k);
    StepOrNone(ring, spec, end, res, i, coords[k]);
  }

  lemma StepOrNone(ring: seq<HourCells>, spec: FrameSpec, end: int, res: Km, i: nat, c: Axial)
    requires spec.step > 0 && spec.dur >= 0 && spec.dur % spec.step == 0
    ensures var start := end - spec.dur;
            FrameValues(ring, start, spec.step, res, i, c) != [] <==>
              SomeHourHasCell(ring, start + i * spec.step, spec.step, res, c)
  {
    hide TierCells, StepIndex, FrameValues;
    var start := end - spec.dur;
    SomeHour(ring, start, spec.step, res, i, c);
    MulOrder(0, i, spec.step);
    forall h: HourCells
      ensures h.bucket >= start && StepIndex(h.bucket, start, spec.step) == i
              <==> start + i * spec.step <= h.bucket < start + i * spec.step + spec.step
      ensures c in TierCells(h, res) <==> res in h.tiers && c in h.tiers[res]
    {
      TierHas(h, res, c);
      FramesPartition(spec, end, h.bucket, i);
      assert (i + 1) * spec.step == i * spec.step + spec.step;
    }
  }

  lemma ListedAt(ring: seq<HourCells>, start: int, res: Km, h: HourCells, c: Axial) returns (k: nat)
    requires h in ring && h.bucket >= start && c in TierCells(h, res)
    ensures k < |Coords(ring, start, res)| && Coords(ring, start, res)[k] == c
  {
    AxialTotal();
    assert c in ListedCells(ring, start, res);
    assert c in Coords(ring, start, res);
    k :| 0 <= k < |Coords(ring, start, res)| && Coords(ring, start, res)[k] == c;
  }

  lemma Sizes(p: Payload, coords: seq<Axial>, spec: FrameSpec, ring: seq<HourCells>, end: int, g: Lattice, res: Km)
    requires spec.step > 0 && IsTimelapse(p, coords, spec, ring, end, g, res)
    ensures coords == Coords(ring, end - spec.dur, res) && |coords| == |p.cells| && |p.frames| == spec.dur / spec.step
    ensures forall i | 0 <= i < |p.frames| :: |p.frames[i].v| == |p.cells|
  {
  }

  /** Every hour of the span contributes each of its cells: the cell is listed,
      and the frame the hour falls in has a value for it. */
  lemma HourIsShown(p: Payload, coords: seq<Axial>, spec: FrameSpec, ring: seq<HourCells>, end: int, g: Lattice, res: Km, h: HourCells, c: Axial)
    requires spec.step > 0 && spec.dur >= 0 && spec.dur % spec.step == 0
    requires IsTimelapse(p, coords, spec, ring, end, g, res)
    requires h in ring && end - spec.dur <= h.bucket < end && res in h.tiers && c in h.tiers[res]
    ensures exists i, k :: 0 <= i < |p.frames| && 0 <= k < |p.cells|
              && coords[k] == c
              && p.frames[i].t <= h.bucket < p.frames[i].t + spec.step && p.frames[i].v[k].Some?
  {
    hide Median, Round1, TierCells, StepIndex, FrameValues, Coords, IsTimelapse;
    var start := end - spec.dur;
    var i := StepIndex(h.bucket, start, spec.step);
    FramesPartition(spec, end, h.bucket, i);
    TierHas(h, res, c);
    HourShows(ring, start, spec.step, res, h, c);
    var k := ListedAt(ring, start, res, h, c);
    Sizes(p, coords, spec, ring, end, g, res);
    Entry(p, coords, spec, ring, end, g, res, i, k);
    assert p.frames[i].v[k].Some?;
    assert (i + 1) * spec.step == i * spec.step + spec.step;
  }

  /** A listed cell has a value in some frame if and only if some hour of the span
      has it; hours at or past the end, which a clock that stepped back leaves in the
      ring, list their cells without showing them. */
  lemma ListedCellsAreShown(p: Payload, coords: seq<Axial>, spec: FrameSpec, ring: seq<HourCells>, end: int, g: Lattice, res: Km, k: int)
    requires spec.step > 0 && spec.dur >= 0 && spec.dur % spec.step == 0
    requires IsTimelapse(p, coords, spec, ring, end, g, res)
    requires 0 <= k < |p.cells|
    ensures (exists i :: 0 <= i < |p.frames| && p.frames[i].v[k].Some?)
            <==> SomeHourHasCell(ring, end - spec.dur, spec.dur, res, coords[k])
    ensures (forall h | h in ring :: h.bucket < end) ==> exists i :: 0 <= i < |p.frames| && p.frames[i].v[k].Some?
  {
    hide Median, Round1, TierCells, StepIndex, FrameValues, Coords, IsTimelapse;
    var start := end - spec.dur;
    Sizes(p, coords, spec, ring, end, g, res);
    var listed := SomeHourHas(ring, start, res, k);
    TierHas(listed, res, coords[k]);
    if h :| h in ring && start <= h.bucket < end && res in h.tiers && coords[k] in h.tiers[res] {
      TierHas(h, res, coords[k]);
      var i := StepIndex(h.bucket, start, spec.step);
      FramesPartition(spec, end, h.bucket, i);
      HourShows(ring, start, spec.step, res, h, coords[k]);
      Entry(p, coords, spec, ring, end, g, res, i, k);
      assert p.frames[i].v[k].Some?;
    }
    if i :| 0 <= i < |p.frames| && p.frames[i].v[k].Some? {
      ValueOrNull(p, coords, spec, ring, end, g, res, i, k);
      WithinSpan(spec, end, i);
      var h :| h in ring && start + i * spec.step <= h.bucket < start + i * spec.step + spec.step
               && res in h.tiers && coords[k] in h.tiers[res];
      assert start <= h.bucket < start + spec.dur;
      assert SomeHourHasCell(ring, start, spec.dur, res, coords[k]);
    }
  }

  lemma WithinSpan(spec: FrameSpec, end: int, i: nat)
    requires spec.step > 0 && spec.dur >= 0 && i < spec.dur / spec.step
    ensures 0 <= i * spec.step && i * spec.step + spec.step <= spec.dur
  {
    MulOrder(0, i, spec.step);
    MulOrder(i + 1, spec.dur / spec.step, spec.step);
    assert (i + 1) * spec.step == i * spec.step + spec.step;
  }

  lemma SomeHourHas(ring: seq<HourCells>, start: int, res: Km, k: nat) returns (h: HourCells)
    requires k < |Coords(ring, start, res)|
    ensures h in ring && h.bucket >= start && Coords(ring, start, res)[k] in TierCells(h, res)
  {
    AxialTotal();
    var c := Coords(ring, start, res)[k];
    assert c in Coords(ring, start, res);
    assert c in ListedCells(ring, start, res);
    h :| h in ring && h.bucket >= start && c in TierCells(h, res);
  }

  /** One list of cells, in strict order, for every frame. */
  lemma CellsStrictlySorted(ring: seq<HourCells>, start: int, res: Km)
    ensures var coords := Coords(ring, start, res);
            forall i, j | 0 <= i < j < |coords| :: AxialLeq(coords[i], coords[j]) && coords[i] != coords[j]
  {
  }
}
