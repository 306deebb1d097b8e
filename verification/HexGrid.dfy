/** The hexagonal lattice of internal/snapshot/hexes.go over exact reals.

    Trigonometry and the square root enter only as the constants of a Grid:
    `root3` is the positive root of 3, `east` and `north` are the kilometres a
    degree of longitude and of latitude project to. */
module HexGrid {
  import opened Statistics

  datatype Axial = Axial(q: int, r: int)

  /** A projected position in kilometres, or a position in degrees, or a pair of
      fractional axial coordinates. */
  datatype Point = Point(x: real, y: real)

  datatype Grid = Grid(root3: real, east: real, north: real) {
    ghost predicate Valid() {
      root3 > 0.0 && root3 * root3 == 3.0 && east > 0.0 && north > 0.0
    }

    function Project(lon: real, lat: real): Point {
      Point(east * lon, north * lat)
    }

    function Unproject(x: real, y: real): Point
      requires east != 0.0 && north != 0.0
    {
      Point(x / east, y / north)
    }

    /** The circumradius giving resKM between neighbouring centres. */
    function SizeOf(resKM: real): (size: real)
      requires root3 > 0.0 && resKM > 0.0
      ensures size > 0.0
    {
      SizePositive(resKM, root3);
      resKM / root3
    }

    /** Fractional axial coordinates of a projected point. */
    function Fractional(x: real, y: real, resKM: real): Point
      requires root3 > 0.0 && resKM > 0.0
    {
      var size := SizeOf(resKM);
      Point((root3 / 3.0 * x - y / 3.0) / size, (2.0 / 3.0 * y) / size)
    }

    function HexOf(lon: real, lat: real, resKM: real): Axial
      requires root3 > 0.0 && resKM > 0.0
    {
      var Point(x, y) := Project(lon, lat);
      var Point(q, r) := Fractional(x, y, resKM);
      CubeRound(q, r)
    }

    /** The projected position of a lattice point: a cell's unrounded centre. */
    function CentreXY(c: Axial, resKM: real): Point
      requires root3 > 0.0 && resKM > 0.0
    {
      var size := SizeOf(resKM);
      Point(size * (root3 * c.q as real + root3 / 2.0 * c.r as real), size * (1.5 * c.r as real))
    }

    function HexCentre(c: Axial, resKM: real): Point
      requires root3 > 0.0 && east != 0.0 && north != 0.0 && resKM > 0.0
    {
      var Point(x, y) := CentreXY(c, resKM);
      Unproject(x, y)
    }
  }

  /** What the program itself relies on; Grid.Valid adds that root3 is exact. */
  type Lattice = g: Grid | g.root3 > 0.0 && g.east > 0.0 && g.north > 0.0 witness Grid(1.0, 1.0, 1.0)
  type Km = r: real | r > 0.0 witness 1.0

  function CubeRound(q: real, r: real): Axial {
    var x, z := q, r;
    var y := -x - z;
    var rx, ry, rz := Round(x), Round(y), Round(z);
    var dx, dy, dz := Abs(rx as real - x), Abs(ry as real - y), Abs(rz as real - z);
    if dx > dy && dx > dz then Axial(-ry - rz, rz)
    else if dy > dz then Axial(rx, rz)
    else Axial(rx, -rx - ry)
  }

  /** A third of the squared distance, in circumradii, that an axial offset
      spans; see DistanceIsNorm. */
  function Norm(u: real, v: real): real { u * u + u * v + v * v }

  function Distance2(p: Point, c: Point): real {
    (p.x - c.x) * (p.x - c.x) + (p.y - c.y) * (p.y - c.y)
  }

  /** An axial offset no farther from the origin than from its six neighbours,
      written in cube coordinates u, v and -u - v. */
  ghost predicate InCell(u: real, v: real) {
    && -1.0 <= u - v <= 1.0
    && -1.0 <= u + v + v <= 1.0
    && -1.0 <= u + u + v <= 1.0
  }

  /** Cube rounding restores x + y + z = 0 by discarding the component that
      moved furthest, and that lands in the cell of the chosen centre. */
  lemma CubeRoundInCell(q: real, r: real)
    ensures var c := CubeRound(q, r); InCell(q - c.q as real, r - c.r as real)
  {
    hide Round;
    var x, y, z := q, -q - r, r;
    RoundNearest(x);
    RoundNearest(y);
    RoundNearest(z);
    var k := Round(x) + Round(y) + Round(z);
    assert -1.5 <= k as real <= 1.5;
    assert k == -1 || k == 0 || k == 1;
  }

  lemma Shrunk(m: int, f: real)
    requires m >= 0 && f <= 1.0
    ensures m as real * f <= m as real
  {
  }

  /** A third of a lattice vector's squared length. */
  function Length(m: int, n: int): int { m * m + m * n + n * n }

  lemma LengthBound(m: int, n: int)
    requires m >= 0 && n >= 0
    ensures Length(m, n) >= m + n
  {
    assert m * m >= m && n * n >= n && m * n >= 0;
  }

  /** What m and n steps gain in two directions. */
  function Gain(m: int, n: int, fu: real, fv: real): real { m as real * fu + n as real * fv }

  /** Offsets between two adjacent directions of the lattice. In that sector a
      lattice vector is m times one direction plus n times the other, and each
      direction gains at most half its own squared length. */
  lemma SectorBound(fu: real, fv: real, m: int, n: int)
    requires m >= 0 && n >= 0 && fu <= 1.0 && fv <= 1.0
    ensures Gain(m, n, fu, fv) <= Length(m, n) as real
  {
    hide Length;
    LengthBound(m, n);
    Shrunk(m, fu);
    Shrunk(n, fv);
  }

  /** The cell of the origin is where the origin is a nearest lattice point. */
  lemma CellIsVoronoi(u: real, v: real, a: int, b: int)
    requires InCell(u, v)
    ensures Norm(u, v) <= Norm(u - a as real, v - b as real)
  {
    hide Norm, Length, Gain;
    NormOffset(u, v, a, b);
    Sector(u, v, a, b);
    if a >= 0 && b >= 0 {
      SectorBound(u + u + v, u + v + v, a, b);
    } else if a <= 0 && b <= 0 {
      SectorBound(-(u + u + v), -(u + v + v), -a, -b);
    } else if a >= 0 && a + b >= 0 {
      // a(1, 0) + b(0, 1) = (a + b)(1, 0) + (-b)(1, -1)
      SectorBound(u + u + v, u - v, a + b, -b);
    } else if a >= 0 {
      SectorBound(u - v, -(u + v + v), a, -a - b);
    } else if a + b >= 0 {
      SectorBound(v - u, u + v + v, -a, a + b);
    } else {
      SectorBound(-(u + u + v), v - u, -a - b, b);
    }
  }

  /** The same vector written in each of the sectors it may fall in. */
  lemma Sector(u: real, v: real, a: int, b: int)
    ensures var gain := Gain(a, b, u + u + v, u + v + v);
            && gain == Gain(-a, -b, -(u + u + v), -(u + v + v))
            && gain == Gain(a + b, -b, u + u + v, u - v)
            && gain == Gain(a, -a - b, u - v, -(u + v + v))
            && gain == Gain(-a, a + b, v - u, u + v + v)
            && gain == Gain(-a - b, b, -(u + u + v), v - u)
    ensures var n := Length(a, b);
            n == Length(-a, -b) == Length(a + b, -b) == Length(a, -a - b) == Length(-a, a + b) == Length(-a - b, b)
  {
  }

  lemma NormOffset(u: real, v: real, a: int, b: int)
    ensures Norm(u - a as real, v - b as real) == Norm(u, v) - Gain(a, b, u + u + v, u + v + v) + Length(a, b) as real
  {
  }

  /** A cell reaches no farther than its circumradius. */
  lemma CellRadius(u: real, v: real)
    requires InCell(u, v)
    ensures 3.0 * Norm(u, v) <= 1.0
  {
    // With x, y, z the cube coordinates, 3 Norm = (a a + a b + b b) for the two
    // successive gaps of the sorted coordinates, whose sum is at most one.
    var w := -u - v;
    if u >= v >= w { GapBound(u - v, v - w, u, v); }
    else if u >= w >= v { GapBound(u - w, w - v, u, w); }
    else if v >= u >= w { GapBound(v - u, u - w, v, u); }
    else if v >= w >= u { GapBound(v - w, w - u, v, w); }
    else if w >= u >= v { GapBound(w - u, u - v, w, u); }
    else { GapBound(w - v, v - u, w, v); }
  }

  lemma GapBound(a: real, b: real, x: real, y: real)
    requires a >= 0.0 && b >= 0.0 && a + b <= 1.0
    requires a == x - y && b == y + x + y
    ensures 3.0 * Norm(x, y) <= 1.0
    ensures Norm(x, y) == Norm(y, -x - y) == Norm(x, -x - y) == Norm(y, x) == Norm(-x - y, x) == Norm(-x - y, y)
  {
    assert 3.0 * Norm(x, y) == a * a + a * b + b * b;
    assert a * a + a * b + b * b <= (a + b) * (a + b) by { assert a * b >= 0.0; }
    var t := a + b;
    ScaleOrder(t, t, 1.0);
    assert t * t <= t * 1.0;
  }

  /** Where hexOf's fractional coordinates put a projected point. */
  lemma DistanceIsNorm(g: Grid, lon: real, lat: real, resKM: real, c: Axial)
    requires g.Valid() && resKM > 0.0
    ensures var size := g.SizeOf(resKM);
            var Point(x, y) := g.Project(lon, lat);
            var Point(q, r) := g.Fractional(x, y, resKM);
            && Distance2(Point(x, y), g.CentreXY(c, resKM)) == 3.0 * size * size * Norm(q - c.q as real, r - c.r as real)
  {
    var size := g.SizeOf(resKM);
    var Point(x, y) := g.Project(lon, lat);
    var Point(q, r) := g.Fractional(x, y, resKM);
    FractionalInverse(g.root3, size, x, y, q, r);
    var u, v := q - c.q as real, r - c.r as real;
    OffsetDistance(g.root3, size, x, y, q, r, c.q as real, c.r as real);
  }

  lemma SizePositive(resKM: real, root3: real)
    requires resKM > 0.0 && root3 > 0.0
    ensures resKM / root3 > 0.0
  {
  }

  lemma FractionalInverse(s: real, size: real, x: real, y: real, q: real, r: real)
    requires s * s == 3.0 && size > 0.0
    requires q == (s / 3.0 * x - y / 3.0) / size && r == (2.0 / 3.0 * y) / size
    ensures y == size * (1.5 * r) && x == size * (s * q + s / 2.0 * r)
  {
    assert q * size == s / 3.0 * x - y / 3.0;
    assert r * size == 2.0 / 3.0 * y;
    calc {
      size * (s * q + s / 2.0 * r);
      s * (q * size) + s / 2.0 * (r * size);
      s * (s / 3.0 * x - y / 3.0) + s / 2.0 * (2.0 / 3.0 * y);
      { assert s * (s / 3.0 * x) == (s * s) / 3.0 * x; }
      (s * s) / 3.0 * x - s * (y / 3.0) + s / 2.0 * (2.0 / 3.0 * y);
      x;
    }
  }

  lemma OffsetDistance(s: real, size: real, x: real, y: real, q: real, r: real, a: real, b: real)
    requires s * s == 3.0
    requires y == size * (1.5 * r) && x == size * (s * q + s / 2.0 * r)
    ensures Distance2(Point(x, y), Point(size * (s * a + s / 2.0 * b), size * (1.5 * b)))
         == 3.0 * size * size * Norm(q - a, r - b)
  {
    var u, v := q - a, r - b;
    var dx, dy := x - size * (s * a + s / 2.0 * b), y - size * (1.5 * b);
    assert dx == size * s * (u + v / 2.0);
    assert dy == size * 1.5 * v;
    var w := u + v / 2.0;
    assert dx * dx == size * size * (s * s) * (w * w);
    assert dy * dy == size * size * 2.25 * (v * v);
    assert w * w == u * u + u * v + v * v / 4.0;
    assert dx * dx + dy * dy == size * size * (3.0 * (w * w) + 2.25 * (v * v));
    assert 3.0 * (w * w) + 2.25 * (v * v) == 3.0 * Norm(u, v);
    ScaleBy(size * size, 3.0 * (w * w) + 2.25 * (v * v), Norm(u, v));
  }

  lemma ScaleBy(k: real, a: real, n: real)
    requires a == 3.0 * n
    ensures k * a == 3.0 * k * n
  {
  }

  lemma ScaleOrder(k: real, a: real, b: real)
    requires k >= 0.0 && a <= b
    ensures k * a <= k * b
  {
  }

  /** hexOf picks a closest lattice point: no other cell's centre is nearer to
      the projected point, and the chosen one is within a circumradius. */
  lemma HexOfNearest(g: Grid, lon: real, lat: real, resKM: real, other: Axial)
    requires g.Valid() && resKM > 0.0
    ensures var p := g.Project(lon, lat);
            var c := g.HexOf(lon, lat, resKM);
            && Distance2(p, g.CentreXY(c, resKM)) <= Distance2(p, g.CentreXY(other, resKM))
            && Distance2(p, g.CentreXY(c, resKM)) <= g.SizeOf(resKM) * g.SizeOf(resKM)
  {
    hide Distance2, Norm;
    var size := g.SizeOf(resKM);
    var Point(x, y) := g.Project(lon, lat);
    var Point(q, r) := g.Fractional(x, y, resKM);
    var c := g.HexOf(lon, lat, resKM);
    DistanceIsNorm(g, lon, lat, resKM, c);
    DistanceIsNorm(g, lon, lat, resKM, other);
    NearestNorm(q, r, other);
    NormOrder(size, Norm(q - c.q as real, r - c.r as real), Norm(q - other.q as real, r - other.r as real));
  }

  lemma NearestNorm(q: real, r: real, other: Axial)
    ensures var c := CubeRound(q, r);
            && Norm(q - c.q as real, r - c.r as real) <= Norm(q - other.q as real, r - other.r as real)
            && 3.0 * Norm(q - c.q as real, r - c.r as real) <= 1.0
  {
    var c := CubeRound(q, r);
    CubeRoundInCell(q, r);
    var u, v := q - c.q as real, r - c.r as real;
    CellIsVoronoi(u, v, other.q - c.q, other.r - c.r);
    assert u - (other.q - c.q) as real == q - other.q as real;
    assert v - (other.r - c.r) as real == r - other.r as real;
    CellRadius(u, v);
  }

  lemma NormOrder(size: real, near: real, far: real)
    requires near <= far && 3.0 * near <= 1.0
    ensures 3.0 * size * size * near <= 3.0 * size * size * far
    ensures 3.0 * size * size * near <= size * size
  {
    var k := size * size;
    assert k >= 0.0;
    ScaleOrder(k, 3.0 * near, 3.0 * far);
    ScaleOrder(k, 3.0 * near, 1.0);
    assert 3.0 * size * size * near == k * (3.0 * near);
    assert 3.0 * size * size * far == k * (3.0 * far);
  }

  /** A cell's own centre is binned back to that cell. */
  lemma CentreRoundTrip(g: Grid, c: Axial, resKM: real)
    requires g.Valid() && resKM > 0.0
    ensures var Point(lon, lat) := g.HexCentre(c, resKM); g.HexOf(lon, lat, resKM) == c
  {
    hide Grid.Project, Grid.Unproject, Grid.CentreXY, Grid.Fractional, CubeRound;
    var Point(x, y) := g.CentreXY(c, resKM);
    ProjectInverse(g, x, y);
    CentreFractional(g, c, resKM);
    CubeRoundFixed(c);
  }

  lemma ProjectInverse(g: Grid, x: real, y: real)
    requires g.Valid()
    ensures var Point(lon, lat) := g.Unproject(x, y); g.Project(lon, lat) == Point(x, y)
  {
    var Point(lon, lat) := g.Unproject(x, y);
    DivMul(g.east, x, lon);
    DivMul(g.north, y, lat);
  }

  lemma DivMul(k: real, x: real, d: real)
    requires k > 0.0 && d == x / k
    ensures k * d == x
  {
  }

  lemma MulDiv(k: real, x: real, n: real)
    requires k > 0.0 && n == x * k
    ensures n / k == x
  {
  }

  lemma CubeRoundFixed(c: Axial)
    ensures CubeRound(c.q as real, c.r as real) == c
  {
    RoundFixed(c.q);
    RoundFixed(c.r);
    RoundFixed(-c.q - c.r);
    assert -(c.q as real) - c.r as real == (-c.q - c.r) as real;
  }

  lemma CentreFractional(g: Grid, c: Axial, resKM: real)
    requires g.Valid() && resKM > 0.0
    ensures var Point(x, y) := g.CentreXY(c, resKM);
            g.Fractional(x, y, resKM) == Point(c.q as real, c.r as real)
  {
    var s, size, a, b := g.root3, g.SizeOf(resKM), c.q as real, c.r as real;
    var Point(x, y) := g.CentreXY(c, resKM);
    calc {
      s / 3.0 * x;
      (s * s) / 3.0 * (size * (a + b / 2.0));
      size * (a + b / 2.0);
    }
    MulDiv(size, a, s / 3.0 * x - y / 3.0);
    MulDiv(size, b, 2.0 / 3.0 * y);
  }

  // ---- the lattice in kilometres and degrees ----

  lemma SizeSquared(root3: real, size: real, resKM: real)
    requires root3 * root3 == 3.0 && root3 > 0.0 && size == resKM / root3
    ensures size * root3 == resKM && 3.0 * size * size == resKM * resKM
  {
    assert size * root3 == resKM;
    assert resKM * resKM == size * size * (root3 * root3);
  }

  /** A tier's resolution is the scale of its lattice: centres are as far apart as
      the resolution and the lattice vector between them say. */
  lemma CentresApart(g: Grid, c: Axial, d: Axial, resKM: real)
    requires g.Valid() && resKM > 0.0
    ensures Distance2(g.CentreXY(c, resKM), g.CentreXY(d, resKM)) == resKM * resKM * Length(d.q - c.q, d.r - c.r) as real
  {
    var s, size := g.root3, g.SizeOf(resKM);
    var Point(x, y) := g.CentreXY(c, resKM);
    var a, b := (c.q - d.q) as real, (c.r - d.r) as real;
    SizeSquared(s, size, resKM);
    OffsetDistance(s, size, x, y, c.q as real, c.r as real, d.q as real, d.r as real);
    assert c.q as real - d.q as real == a && c.r as real - d.r as real == b;
    assert Norm(a, b) == Length(d.q - c.q, d.r - c.r) as real;
  }

  /** Each of a cell's six neighbours is exactly the resolution away. */
  lemma NeighboursApart(g: Grid, c: Axial, resKM: real)
    requires g.Valid() && resKM > 0.0
    ensures forall d | d in {Axial(c.q + 1, c.r), Axial(c.q - 1, c.r), Axial(c.q, c.r + 1), Axial(c.q, c.r - 1),
                             Axial(c.q + 1, c.r - 1), Axial(c.q - 1, c.r + 1)} ::
              Distance2(g.CentreXY(c, resKM), g.CentreXY(d, resKM)) == resKM * resKM
  {
    hide Grid.CentreXY, Distance2;
    forall d | d in {Axial(c.q + 1, c.r), Axial(c.q - 1, c.r), Axial(c.q, c.r + 1), Axial(c.q, c.r - 1),
                     Axial(c.q + 1, c.r - 1), Axial(c.q - 1, c.r + 1)}
      ensures Distance2(g.CentreXY(c, resKM), g.CentreXY(d, resKM)) == resKM * resKM
    {
      CentresApart(g, c, d, resKM);
      assert Length(d.q - c.q, d.r - c.r) == 1;
    }
  }

  /** The lattice stands on a corner and starts at the origin: columns run due east
      a resolution apart, and each row begins half a resolution east of the one
      south of it. */
  lemma CentresRun(g: Grid, c: Axial, resKM: real)
    requires g.Valid() && resKM > 0.0
    ensures g.CentreXY(Axial(0, 0), resKM) == Point(0.0, 0.0)
    ensures var o, east, north := g.CentreXY(c, resKM), g.CentreXY(Axial(c.q + 1, c.r), resKM), g.CentreXY(Axial(c.q, c.r + 1), resKM);
            && east.x == o.x + resKM && east.y == o.y
            && north.x == o.x + resKM / 2.0 && north.y > o.y
  {
    var s, size, q, r := g.root3, g.SizeOf(resKM), c.q as real, c.r as real;
    SizeSquared(s, size, resKM);
    StepEast(s, size, q, r);
    StepNorth(s, size, q, r);
  }

  lemma StepEast(s: real, size: real, q: real, r: real)
    ensures size * (s * (q + 1.0) + s / 2.0 * r) == size * (s * q + s / 2.0 * r) + size * s
  {
  }

  lemma StepNorth(s: real, size: real, q: real, r: real)
    ensures size * (s * q + s / 2.0 * (r + 1.0)) == size * (s * q + s / 2.0 * r) + size * s / 2.0
    ensures size * (1.5 * (r + 1.0)) == size * (1.5 * r) + 1.5 * size
  {
  }

  /** The squared kilometres between two positions in degrees. */
  function Apart2(g: Grid, a: Point, b: Point): real {
    g.east * (a.x - b.x) * (g.east * (a.x - b.x)) + g.north * (a.y - b.y) * (g.north * (a.y - b.y))
  }

  /** In degrees: a position is binned to a cell whose unrounded centre no other
      cell's is nearer than, and which is within resKM / root3 of it. */
  lemma CellOfPosition(g: Grid, lon: real, lat: real, resKM: real, other: Axial)
    requires g.Valid() && resKM > 0.0
    ensures var here, centre := Point(lon, lat), g.HexCentre(g.HexOf(lon, lat, resKM), resKM);
            && Apart2(g, here, centre) <= Apart2(g, here, g.HexCentre(other, resKM))
            && 3.0 * Apart2(g, here, centre) <= resKM * resKM
  {
    hide Grid.CentreXY, Grid.HexOf, Grid.HexCentre, Grid.Project, Apart2, Distance2;
    HexOfNearest(g, lon, lat, resKM, other);
    InDegrees(g, lon, lat, g.HexOf(lon, lat, resKM), resKM);
    InDegrees(g, lon, lat, other, resKM);
    SizeSquared(g.root3, g.SizeOf(resKM), resKM);
  }

  lemma InDegrees(g: Grid, lon: real, lat: real, c: Axial, resKM: real)
    requires g.Valid() && resKM > 0.0
    ensures Apart2(g, Point(lon, lat), g.HexCentre(c, resKM)) == Distance2(g.Project(lon, lat), g.CentreXY(c, resKM))
  {
    hide Grid.CentreXY;
    var Point(x, y) := g.CentreXY(c, resKM);
    ProjectInverse(g, x, y);
    var Point(a, b) := g.HexCentre(c, resKM);
    assert g.east * (lon - a) == g.east * lon - x && g.north * (lat - b) == g.north * lat - y;
  }
}
