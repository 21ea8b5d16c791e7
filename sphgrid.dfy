/**
 * The SPH gas particle grid: a 3-D grid of m x m x m cells whose separation points follow the particle
 * distribution along each axis, with per-cell lists of the particles that overlap each cell.  Particles
 * are named by their index in the particle vector.
 */
module SphGrid {
  import opened Arith

  /** A coordinate on the extended real line: grid end points are minus and plus infinity. */
  datatype Ext = NegInf | Fin(x: real) | PosInf

  datatype Axis = X | Y | Z

  /** A particle: centre and smoothing radius. */
  datatype Particle = Particle(x: real, y: real, z: real, h: real)

  function Coord(p: Particle, dir: Axis): real
  {
    match dir
    case X => p.x
    case Y => p.y
    case Z => p.z
  }

  /** A grid cell, by its index along each axis. */
  datatype Cell = Cell(i: nat, j: nat, k: nat)

  // ---------------------------------------------------------------------------
  // Linear indexing of the m * m * m cells

  /** The linear index of cell (i, j, k) in an m * m * m table; cells of the grid have indices below m^3. */
  function Index(m: nat, i: nat, j: nat, k: nat): (c: nat)
    ensures i < m && j < m && k < m ==> c < m * m * m
  {
    var r := i * m + j;
    assert i < m && j < m && k < m ==> r * m + k < m * m * m by {
      if i < m && j < m && k < m {
        BlockBound(i, m, j, m);
        BlockBound(r, m, k, m * m);
      }
    }
    r * m + k
  }

  /** The cell with linear index c. */
  function Decode(m: nat, c: nat): Cell
    requires m > 0
  {
    Cell((c / m) / m, (c / m) % m, c % m)
  }

  /** Decoding the index of a cell gives the cell back, so distinct cells have distinct indices. */
  lemma DecodeIndex(m: nat, i: nat, j: nat, k: nat)
    requires i < m && j < m && k < m
    ensures Decode(m, Index(m, i, j, k)) == Cell(i, j, k)
  {
    DivModUnique(Index(m, i, j, k), m, i * m + j, k);
    DivModUnique(i * m + j, m, i, j);
  }

  /** Every index in [0, m^3) is the index of the cell it decodes to. */
  lemma IndexDecode(m: nat, c: nat)
    requires m > 0 && c < m * m * m
    ensures var d := Decode(m, c); d.i < m && d.j < m && d.k < m && Index(m, d.i, d.j, d.k) == c
  {
    DecodeBounds(m, c);
    Recompose(m, c);
  }

  lemma DecodeBounds(m: nat, c: nat)
    requires m > 0 && c < m * m * m
    ensures (c / m) / m < m
  {
    DivBelow(c, m, m * m);
    DivBelow(c / m, m, m);
  }

  lemma Recompose(m: nat, c: nat)
    requires m > 0
    ensures (((c / m) / m) * m + (c / m) % m) * m + c % m == c
  {
    var q := c / m;
    assert q == (q / m) * m + q % m;
    assert c == q * m + c % m;
  }

  /** Distinct cells of the grid have distinct indices. */
  lemma IndexInjective(m: nat, a: Cell, b: Cell)
    requires a.i < m && a.j < m && a.k < m && b.i < m && b.j < m && b.k < m
    requires Index(m, a.i, a.j, a.k) == Index(m, b.i, b.j, b.k)
    ensures a == b
  {
    DecodeIndex(m, a.i, a.j, a.k);
    DecodeIndex(m, b.i, b.j, b.k);
  }

  // ---------------------------------------------------------------------------
  // Box / sphere intersection

  /** c lies below the lower bound lo. */
  predicate Below(c: real, lo: Ext)
  {
    match lo
    case NegInf => false
    case Fin(v) => c < v
    case PosInf => true
  }

  /** c lies above the upper bound hi. */
  predicate Above(c: real, hi: Ext)
  {
    match hi
    case NegInf => true
    case Fin(v) => c > v
    case PosInf => false
  }

  /** The square of a value. */
  function Square(v: real): real
  {
    v * v
  }

  /** A product of two factors of the same sign is positive. */
  lemma ProductPositive(a: real, b: real, s: real)
    requires (a > 0.0 && b > 0.0) || (a < 0.0 && b < 0.0)
    requires s == a * b
    ensures s > 0.0
  {
  }

  /** Multiplying by a positive factor keeps a strict order. */
  lemma MulLess(a: real, b: real, w: real)
    requires a < b && w > 0.0
    ensures a * w < b * w
  {
    ProductPositive(b - a, w, (b - a) * w);
  }

  /** The square of a non-zero value is positive. */
  lemma SquarePositive(v: real)
    requires v != 0.0
    ensures Square(v) > 0.0
  {
    ProductPositive(v, v, Square(v));
  }

  /** The squared distance to subtract along one axis; Infinite stands for an infinite distance. */
  datatype Gap = Finite(v: real) | Infinite

  function AxisGap(c: real, lo: Ext, hi: Ext): Gap
  {
    if Below(c, lo) then (if lo.Fin? then Finite(Square(c - lo.x)) else Infinite)
    else if Above(c, hi) then (if hi.Fin? then Finite(Square(c - hi.x)) else Infinite)
    else Finite(0.0)
  }

  /** The bounds of an axis-aligned box, possibly infinite. */
  datatype Bounds = Bounds(xmin: Ext, xmax: Ext, ymin: Ext, ymax: Ext, zmin: Ext, zmax: Ext)

  /**
   * Whether the box and the sphere with centre (xc, yc, zc) and radius r intersect: r^2 minus the
   * squared distances along the axes where the centre lies outside the box stays positive.
   */
  function Intersects(b: Bounds, xc: real, yc: real, zc: real, r: real): bool
  {
    var gx := AxisGap(xc, b.xmin, b.xmax);
    var gy := AxisGap(yc, b.ymin, b.ymax);
    var gz := AxisGap(zc, b.zmin, b.zmax);
    gx.Finite? && gy.Finite? && gz.Finite? && Square(r) - gx.v - gy.v - gz.v > 0.0
  }

  /** A sphere with positive radius whose centre lies inside the box intersects it. */
  lemma CentreInsideIntersects(b: Bounds, xc: real, yc: real, zc: real, r: real)
    requires !Below(xc, b.xmin) && !Above(xc, b.xmax)
    requires !Below(yc, b.ymin) && !Above(yc, b.ymax)
    requires !Below(zc, b.zmin) && !Above(zc, b.zmax)
    requires r > 0.0
    ensures Intersects(b, xc, yc, zc, r)
  {
    SquarePositive(r);
  }

  /** The point of [lo, hi] closest to c. */
  function Clamp(c: real, lo: real, hi: real): real
  {
    if c < lo then lo else if c > hi then hi else c
  }

  /**
   * Reference: for a finite box, the test holds exactly when the squared distance from the centre to
   * the closest point of the box is below r^2.
   */
  lemma IntersectsIffCloser(xmin: real, xmax: real, ymin: real, ymax: real, zmin: real, zmax: real,
                            xc: real, yc: real, zc: real, r: real)
    ensures Intersects(Bounds(Fin(xmin), Fin(xmax), Fin(ymin), Fin(ymax), Fin(zmin), Fin(zmax)), xc, yc, zc, r)
        <==> Square(xc - Clamp(xc, xmin, xmax)) + Square(yc - Clamp(yc, ymin, ymax))
             + Square(zc - Clamp(zc, zmin, zmax)) < Square(r)
  {
    AxisGapClamp(xc, xmin, xmax);
    AxisGapClamp(yc, ymin, ymax);
    AxisGapClamp(zc, zmin, zmax);
  }

  lemma AxisGapClamp(c: real, lo: real, hi: real)
    ensures AxisGap(c, Fin(lo), Fin(hi)) == Finite(Square(c - Clamp(c, lo, hi)))
  {
  }

  // ---------------------------------------------------------------------------
  // Locating a coordinate in a grid

  /** v is at or above the grid point g. */
  predicate AtMost(g: Ext, v: real)
  {
    match g
    case NegInf => true
    case Fin(w) => w <= v
    case PosInf => false
  }

  /**
   * The index of the grid interval holding v, clipped to [0, |grid| - 2]: the largest i in that range
   * whose grid point is at most v, or 0 when there is none.
   */
  function LocateClip(grid: seq<Ext>, v: real): (i: nat)
    requires |grid| >= 2
    ensures i <= |grid| - 2
    ensures i > 0 ==> AtMost(grid[i], v)
    ensures forall l :: i < l <= |grid| - 2 ==> !AtMost(grid[l], v)
  {
    LocateFrom(grid, v, |grid| - 2)
  }

  function LocateFrom(grid: seq<Ext>, v: real, i: nat): (r: nat)
    requires i < |grid|
    ensures r <= i
    ensures r > 0 ==> AtMost(grid[r], v)
    ensures forall l :: r < l <= i ==> !AtMost(grid[l], v)
  {
    if i == 0 || AtMost(grid[i], v) then i else LocateFrom(grid, v, i - 1)
  }

  // ---------------------------------------------------------------------------
  // Building the grid along one axis

  function ExtMin(e: Ext, v: real): Ext
  {
    match e
    case NegInf => NegInf
    case Fin(a) => Fin(if v < a then v else a)
    case PosInf => Fin(v)
  }

  function ExtMax(e: Ext, v: real): Ext
  {
    match e
    case NegInf => Fin(v)
    case Fin(a) => Fin(if v > a then v else a)
    case PosInf => PosInf
  }

  /**
   * cmin is the smallest c - h and cmax the largest c + h over the particles, for centre coordinate c
   * along dir and radius h; with no particles they stay +infinity and -infinity.
   */
  ghost predicate Encloses(pv: seq<Particle>, dir: Axis, cmin: Ext, cmax: Ext)
  {
    if pv == [] then cmin == PosInf && cmax == NegInf
    else
      cmin.Fin? && cmax.Fin? &&
      (forall p :: 0 <= p < |pv| ==> cmin.x <= Coord(pv[p], dir) - pv[p].h && Coord(pv[p], dir) + pv[p].h <= cmax.x) &&
      (exists p :: 0 <= p < |pv| && cmin.x == Coord(pv[p], dir) - pv[p].h) &&
      (exists p :: 0 <= p < |pv| && cmax.x == Coord(pv[p], dir) + pv[p].h)
  }

  /** The spatial range of the particles along dir. */
  method Range(pv: seq<Particle>, dir: Axis) returns (cmin: Ext, cmax: Ext)
    ensures Encloses(pv, dir, cmin, cmax)
  {
    cmin, cmax := PosInf, NegInf;
    var p := 0;
    while p < |pv|
      invariant p <= |pv|
      invariant p == 0 ==> cmin == PosInf && cmax == NegInf
      invariant p > 0 ==> cmin.Fin? && cmax.Fin?
      invariant p > 0 ==> forall q :: 0 <= q < p ==>
        cmin.x <= Coord(pv[q], dir) - pv[q].h && Coord(pv[q], dir) + pv[q].h <= cmax.x
      invariant p > 0 ==> exists q :: 0 <= q < p && cmin.x == Coord(pv[q], dir) - pv[q].h
      invariant p > 0 ==> exists q :: 0 <= q < p && cmax.x == Coord(pv[q], dir) + pv[q].h
    {
      cmin := ExtMin(cmin, Coord(pv[p], dir) - pv[p].h);
      cmax := ExtMax(cmax, Coord(pv[p], dir) + pv[p].h);
      p := p + 1;
    }
  }

  /** The bin of a coordinate: the integer part of its distance from cmin in bin widths. */
  function BinOf(c: real, cmin: real, binwidth: real): int
    requires binwidth > 0.0
  {
    ((c - cmin) / binwidth).Floor
  }

  /** Every particle centre falls in one of the nbins bins. */
  ghost predicate Binnable(pv: seq<Particle>, dir: Axis, cmin: real, binwidth: real, nbins: nat)
  {
    binwidth > 0.0 && forall p :: 0 <= p < |pv| ==> 0 <= BinOf(Coord(pv[p], dir), cmin, binwidth) < nbins
  }

  /** The number of the first n particles whose centre falls in bin b. */
  function BinCount(pv: seq<Particle>, dir: Axis, cmin: real, binwidth: real, n: nat, b: int): nat
    requires binwidth > 0.0 && n <= |pv|
  {
    if n == 0 then 0
    else BinCount(pv, dir, cmin, binwidth, n - 1, b)
         + (if BinOf(Coord(pv[n - 1], dir), cmin, binwidth) == b then 1 else 0)
  }

  /** The sum of the first b bins. */
  function Cumul(bins: seq<nat>, b: nat): nat
    requires b <= |bins|
  {
    if b == 0 then 0 else Cumul(bins, b - 1) + bins[b - 1]
  }

  lemma {:induction false} CumulUpdate(bins: seq<nat>, b: nat, i: nat)
    requires b <= |bins| && i < |bins|
    ensures Cumul(bins[i := bins[i] + 1], b) == Cumul(bins, b) + (if i < b then 1 else 0)
  {
    if b > 0 {
      CumulUpdate(bins, b - 1, i);
    }
  }

  lemma {:induction false} CumulZero(bins: seq<nat>, b: nat)
    requires b <= |bins| && forall i :: 0 <= i < |bins| ==> bins[i] == 0
    ensures Cumul(bins, b) == 0
  {
    if b > 0 {
      CumulZero(bins, b - 1);
    }
  }

  /** The particle distribution along dir, binned; every particle is counted in exactly one bin. */
  method Histogram(pv: seq<Particle>, dir: Axis, cmin: real, binwidth: real, nbins: nat) returns (bins: seq<nat>)
    requires Binnable(pv, dir, cmin, binwidth, nbins)
    ensures |bins| == nbins
    ensures forall b :: 0 <= b < nbins ==> bins[b] == BinCount(pv, dir, cmin, binwidth, |pv|, b)
    ensures Cumul(bins, nbins) == |pv|
  {
    var a := new nat[nbins](_ => 0);
    CumulZero(a[..], nbins);
    var p := 0;
    while p < |pv|
      invariant p <= |pv|
      invariant forall b :: 0 <= b < nbins ==> a[b] == BinCount(pv, dir, cmin, binwidth, p, b)
      invariant Cumul(a[..], nbins) == p
    {
      var b := BinOf(Coord(pv[p], dir), cmin, binwidth);
      ghost var before := a[..];
      CumulUpdate(before, nbins, b);
      a[b] := a[b] + 1;
      assert a[..] == before[b := before[b] + 1];
      p := p + 1;
    }
    bins := a[..];
  }

  lemma {:induction false} CumulMonotone(bins: seq<nat>, b1: nat, b2: nat)
    requires b1 <= b2 <= |bins|
    ensures Cumul(bins, b1) <= Cumul(bins, b2)
    decreases b2 - b1
  {
    if b1 < b2 {
      CumulMonotone(bins, b1, b2 - 1);
    }
  }

  // ---------------------------------------------------------------------------
  // Placing the separation points

  /** The grid point placed at the upper border of bin b. */
  function Point(cmin: real, binwidth: real, b: nat): real
  {
    cmin + (b + 1) as real * binwidth
  }

  /** The first bin where the search for separation point g + 1 starts: just after the previous one. */
  function Prev(placed: seq<nat>, g: nat): nat
    requires g <= |placed|
  {
    if g == 0 then 0 else placed[g - 1] + 1
  }

  /** The cumulative number of particles in bins 0 through b. */
  function Through(bins: seq<nat>, b: nat): nat
    requires b < |bins|
  {
    Cumul(bins, b + 1)
  }

  /** Every placed point lies in a bin before upto whose cumulative count exceeds its threshold. */
  ghost predicate Found(bins: seq<nat>, percell: int, placed: seq<nat>, upto: nat)
  {
    upto <= |bins| &&
    forall g :: 0 <= g < |placed| ==> placed[g] < upto && Through(bins, placed[g]) > percell * (g + 1)
  }

  /** Every point lies after the previous one. */
  ghost predicate Ordered(placed: seq<nat>)
  {
    forall g {:trigger Prev(placed, g)} :: 0 <= g < |placed| ==> Prev(placed, g) <= placed[g]
  }

  /** No bin between a point and the previous one crosses the point's threshold. */
  ghost predicate First(bins: seq<nat>, percell: int, placed: seq<nat>)
    requires forall g :: 0 <= g < |placed| ==> placed[g] < |bins|
  {
    forall g, b {:trigger Prev(placed, g), Through(bins, b)} ::
      0 <= g < |placed| && Prev(placed, g) <= b < placed[g] ==> Through(bins, b) <= percell * (g + 1)
  }

  /** No bin after the last point, up to upto, crosses the next threshold. */
  ghost predicate Quiet(bins: seq<nat>, percell: int, placed: seq<nat>, upto: nat)
    requires upto <= |bins|
  {
    forall b :: Prev(placed, |placed|) <= b < upto ==> Through(bins, b) <= percell * (|placed| + 1)
  }

  /**
   * The points in placed are the ones found by scanning bins 0 to upto - 1: placed[g] is the first bin
   * after the one of point g where the cumulative count exceeds percell * (g + 1), and no bin after
   * the last placed one, up to upto, crosses the next threshold.
   */
  ghost predicate Scanned(bins: seq<nat>, percell: int, placed: seq<nat>, upto: nat)
  {
    Found(bins, percell, placed, upto) && Ordered(placed) && First(bins, percell, placed) &&
    Quiet(bins, percell, placed, upto)
  }

  /**
   * placed[g] is the bin after which separation point g + 1 goes: at most one point goes into a bin,
   * at most gridsize - 1 points are placed, and fewer only when the bins run out first.
   */
  ghost predicate Crossings(bins: seq<nat>, percell: int, gridsize: nat, placed: seq<nat>)
  {
    gridsize >= 1 && |placed| <= gridsize - 1 &&
    Scanned(bins, percell, placed, if |placed| < gridsize - 1 then |bins| else Prev(placed, |placed|))
  }

  /** Only the n / gridsize thresholds below the last one can be crossed, so a crossing leaves room for its point. */
  lemma CrossLeavesRoom(bins: seq<nat>, n: nat, gridsize: nat, b: nat, k: nat)
    requires gridsize >= 1 && Cumul(bins, |bins|) == n && b < |bins|
    requires k <= gridsize && (k < gridsize || gridsize == 1)
    requires Through(bins, b) > (n / gridsize) * k
    ensures k < gridsize
  {
    CumulMonotone(bins, b + 1, |bins|);
  }

  /** A scan that stopped because its last point was placed in the bin before upto has found all points. */
  lemma CrossingsAtStop(bins: seq<nat>, percell: int, gridsize: nat, placed: seq<nat>)
    requires gridsize >= 1 && |placed| == gridsize - 1
    requires Scanned(bins, percell, placed, Prev(placed, |placed|))
    ensures Crossings(bins, percell, gridsize, placed)
  {
  }

  /** A scan that ran through all bins has found all the points it can. */
  lemma CrossingsAtEnd(bins: seq<nat>, percell: int, gridsize: nat, placed: seq<nat>)
    requires gridsize >= 1 && (|placed| < gridsize - 1 || (gridsize == 1 && placed == []))
    requires Scanned(bins, percell, placed, |bins|)
    ensures Crossings(bins, percell, gridsize, placed)
  {
  }

  /** A bin that stays below the next threshold extends the scan. */
  lemma ScanQuiet(bins: seq<nat>, percell: int, placed: seq<nat>, b: nat)
    requires Scanned(bins, percell, placed, b) && b < |bins|
    requires Through(bins, b) <= percell * (|placed| + 1)
    ensures Scanned(bins, percell, placed, b + 1)
  {
  }

  /** A bin that crosses the next threshold receives the next point. */
  lemma ScanCross(bins: seq<nat>, percell: int, placed: seq<nat>, b: nat)
    requires Scanned(bins, percell, placed, b) && b < |bins|
    requires Through(bins, b) > percell * (|placed| + 1)
    ensures Scanned(bins, percell, placed + [b], b + 1)
  {
    var q := placed + [b];
    var n := |placed|;
    assert Prev(q, n + 1) == b + 1;
    forall g | 0 <= g <= n
      ensures Prev(q, g) == Prev(placed, g)
    {
    }
    assert Found(bins, percell, q, b + 1) by {
      forall g | 0 <= g < |q|
        ensures q[g] < b + 1 && Through(bins, q[g]) > percell * (g + 1)
      {
        if g == n {
          assert q[g] == b && g + 1 == |placed| + 1;
        }
      }
    }
    assert Ordered(q) by {
      forall g | 0 <= g < |q|
        ensures Prev(q, g) <= q[g]
      {
        if g == n && n > 0 {
          assert placed[n - 1] < b;
        }
      }
    }
    assert First(bins, percell, q) by {
      forall g, c | 0 <= g < |q| && Prev(q, g) <= c < q[g]
        ensures Through(bins, c) <= percell * (g + 1)
      {
        if g < n {
          assert Prev(placed, g) <= c < placed[g];
        } else {
          assert Prev(placed, n) <= c < b && g + 1 == |placed| + 1;
        }
      }
    }
  }

  /**
   * The separation points from the binned distribution of n particles: -infinity, the points placed
   * by Crossings, 0.0 for points never reached, and +infinity.
   */
  method Separations(bins: seq<nat>, n: nat, gridsize: nat, cmin: real, binwidth: real)
    returns (grid: seq<Ext>, ghost placed: seq<nat>)
    requires gridsize >= 1 && Cumul(bins, |bins|) == n
    ensures |grid| == gridsize + 1 && grid[0] == NegInf && grid[gridsize] == PosInf
    ensures Crossings(bins, n / gridsize, gridsize, placed)
    ensures forall g :: 1 <= g <= |placed| ==> grid[g] == Fin(Point(cmin, binwidth, placed[g - 1]))
    ensures forall g :: |placed| < g < gridsize ==> grid[g] == Fin(0.0)
  {
    var a := new Ext[gridsize + 1](_ => Fin(0.0));
    a[0] := NegInf;
    var percell := n / gridsize;
    var cumul := 0;
    var gridindex := 1;
    placed := [];
    ghost var stopped := false;
    var binindex := 0;
    while binindex < |bins|
      invariant gridindex == |placed| + 1 && gridindex <= gridsize && (gridindex < gridsize || gridsize == 1)
      invariant Scanned(bins, percell, placed, binindex)
      invariant cumul == Cumul(bins, binindex)
      invariant a[0] == NegInf
      invariant forall g :: 1 <= g < gridindex ==> a[g] == Fin(Point(cmin, binwidth, placed[g - 1]))
      invariant forall g :: gridindex <= g <= gridsize ==> a[g] == Fin(0.0)
      invariant !stopped
    {
      cumul := cumul + bins[binindex];
      assert cumul == Through(bins, binindex);
      if cumul > percell * gridindex {
        CrossLeavesRoom(bins, n, gridsize, binindex, gridindex);
        ScanCross(bins, percell, placed, binindex);
        a[gridindex] := Fin(Point(cmin, binwidth, binindex));
        placed := placed + [binindex];
        gridindex := gridindex + 1;
        if gridindex >= gridsize {
          CrossingsAtStop(bins, percell, gridsize, placed);
          stopped := true;
          break;
        }
      } else {
        ScanQuiet(bins, percell, placed, binindex);
      }
      binindex := binindex + 1;
    }
    if !stopped {
      CrossingsAtEnd(bins, percell, gridsize, placed);
    }
    a[gridsize] := PosInf;
    grid := a[..];
  }

  /** Points are ordered like their bins when the bins have positive width. */
  lemma PointsIncreasing(cmin: real, binwidth: real, b1: nat, b2: nat)
    requires binwidth > 0.0 && b1 < b2
    ensures Point(cmin, binwidth, b1) < Point(cmin, binwidth, b2)
  {
    MulLess((b1 + 1) as real, (b2 + 1) as real, binwidth);
  }

  /** Bin b of nbins bins of equal width spanning (cmin, cmax] puts its point in (cmin, cmax]. */
  lemma PointWithin(cmin: real, cmax: real, nbins: nat, b: nat)
    requires cmin < cmax && b < nbins
    ensures cmin < Point(cmin, (cmax - cmin) / nbins as real, b) <= cmax
  {
    var span, n := cmax - cmin, nbins as real;
    var w := span / n;
    var f := (b + 1) as real;
    assert w * n == span;
    ProductPositive(f, w, f * w);
    if f < n {
      MulLess(f, n, w);
    }
  }

  /** A distance d in [0, span) measured in units of span / n lies in [0, n). */
  lemma ScaledBelow(d: real, span: real, n: real)
    requires 0.0 <= d < span && n > 0.0
    ensures 0.0 <= d / (span / n) < n
  {
    var w := span / n;
    assert w * n == span;
    var q := d / w;
    assert q * w == d;
    if q < 0.0 {
      MulLess(q, 0.0, w);
    }
    if q > n {
      MulLess(n, q, w);
    }
  }

  /** Earlier points of an ordered placement lie in earlier bins. */
  lemma {:induction false} OrderedIncreasing(placed: seq<nat>, g1: nat, g2: nat)
    requires Ordered(placed) && g1 < g2 < |placed|
    ensures placed[g1] < placed[g2]
    decreases g2 - g1
  {
    assert Prev(placed, g2) <= placed[g2];
    if g1 + 1 < g2 {
      OrderedIncreasing(placed, g1, g2 - 1);
    }
  }

  /** Two placements that both satisfy Crossings agree on their first g points. */
  lemma {:induction false} CrossingsAgree(bins: seq<nat>, percell: int, gridsize: nat, p1: seq<nat>, p2: seq<nat>, g: nat)
    requires Crossings(bins, percell, gridsize, p1) && Crossings(bins, percell, gridsize, p2)
    requires g <= |p1| && g <= |p2|
    ensures p1[..g] == p2[..g] && Prev(p1, g) == Prev(p2, g)
  {
    if g > 0 {
      var h := g - 1;
      CrossingsAgree(bins, percell, gridsize, p1, p2, h);
      assert Prev(p1, h) <= p1[h] && Prev(p2, h) <= p2[h];
      if p1[h] < p2[h] {
        assert false;
      } else if p2[h] < p1[h] {
        assert false;
      }
      assert p1[..g] == p1[..h] + [p1[h]] && p2[..g] == p2[..h] + [p2[h]];
    }
  }

  /** Crossings determines the placement: the scan has exactly one outcome. */
  lemma CrossingsUnique(bins: seq<nat>, percell: int, gridsize: nat, p1: seq<nat>, p2: seq<nat>)
    requires Crossings(bins, percell, gridsize, p1) && Crossings(bins, percell, gridsize, p2)
    ensures p1 == p2
  {
    if |p1| < |p2| {
      var n := |p1|;
      CrossingsAgree(bins, percell, gridsize, p1, p2, n);
      assert false;
    } else if |p2| < |p1| {
      var n := |p2|;
      CrossingsAgree(bins, percell, gridsize, p1, p2, n);
      assert false;
    } else {
      CrossingsAgree(bins, percell, gridsize, p1, p2, |p1|);
      assert p1 == p1[..|p1|] && p2 == p2[..|p2|];
    }
  }

  /** With every bin empty and no target above zero, no point is placed. */
  lemma NothingPlaced(bins: seq<nat>, gridsize: nat, placed: seq<nat>)
    requires Crossings(bins, 0, gridsize, placed)
    requires forall b :: 0 <= b < |bins| ==> bins[b] == 0
    ensures placed == []
  {
    if placed != [] {
      CumulZero(bins, placed[0] + 1);
      assert false;
    }
  }

  /** The number of histogram bins for a grid of the given size. */
  function BinsFor(gridsize: nat): nat
  {
    gridsize * 100
  }

  /** The width of each of the nbins bins spanning [cmin, cmax]. */
  function BinWidth(cmin: real, cmax: real, nbins: nat): real
    requires nbins > 0
  {
    (cmax - cmin) / nbins as real
  }

  /** The histogram of the particle centres along dir. */
  ghost function Bins(pv: seq<Particle>, dir: Axis, cmin: real, binwidth: real, nbins: nat): seq<nat>
    requires binwidth > 0.0
  {
    seq(nbins, b => BinCount(pv, dir, cmin, binwidth, |pv|, b))
  }

  /**
   * grid is the grid along dir for the particles pv: gridsize + 1 points from -infinity to +infinity,
   * [cmin, cmax] the spatial range of the particles, the bins nbins = 100 * gridsize bins of equal
   * width spanning that range, and the points from 1 on those placed at the upper borders of the bins
   * chosen by Crossings for a target of n / gridsize particles per cell; points not reached are 0.0.
   */
  ghost predicate Placement(pv: seq<Particle>, dir: Axis, gridsize: nat, grid: seq<Ext>, cmin: Ext, cmax: Ext,
                            placed: seq<nat>)
  {
    gridsize >= 1 && Encloses(pv, dir, cmin, cmax) &&
    |grid| == gridsize + 1 && grid[0] == NegInf && grid[gridsize] == PosInf &&
    |placed| < gridsize && (forall g :: |placed| < g < gridsize ==> grid[g] == Fin(0.0)) &&
    (pv == [] ==> placed == []) &&
    (pv != [] ==>
      var nbins := BinsFor(gridsize);
      var binwidth := BinWidth(cmin.x, cmax.x, nbins);
      cmin.x < cmax.x && binwidth > 0.0 &&
      Crossings(Bins(pv, dir, cmin.x, binwidth, nbins), |pv| / gridsize, gridsize, placed) &&
      forall g :: 1 <= g <= |placed| ==> grid[g] == Fin(Point(cmin.x, binwidth, placed[g - 1])))
  }

  /** With a positive radius every particle's centre lies strictly inside its extent, so it falls in a bin. */
  lemma CentresBinnable(pv: seq<Particle>, dir: Axis, cmin: real, cmax: real, nbins: nat)
    requires pv != [] && nbins > 0 && Encloses(pv, dir, Fin(cmin), Fin(cmax))
    requires forall p :: 0 <= p < |pv| ==> pv[p].h > 0.0
    ensures cmin < cmax && Binnable(pv, dir, cmin, BinWidth(cmin, cmax, nbins), nbins)
  {
    var p0 :| 0 <= p0 < |pv| && cmin == Coord(pv[p0], dir) - pv[p0].h;
    assert cmin < cmax;
    var binwidth := BinWidth(cmin, cmax, nbins);
    assert binwidth > 0.0 by {
      ScaledBelow(0.0, cmax - cmin, nbins as real);
    }
    forall p | 0 <= p < |pv|
      ensures 0 <= BinOf(Coord(pv[p], dir), cmin, binwidth) < nbins
    {
      ScaledBelow(Coord(pv[p], dir) - cmin, cmax - cmin, nbins as real);
    }
  }

  /** The points placed at bin borders lie in (cmin, cmax] and strictly increase. */
  lemma PlacedWithin(cmin: real, cmax: real, nbins: nat, bins: seq<nat>, percell: int, gridsize: nat,
                     placed: seq<nat>, grid: seq<Ext>)
    requires cmin < cmax && nbins > 0 && |bins| == nbins && Crossings(bins, percell, gridsize, placed)
    requires |grid| == gridsize + 1
    requires forall g :: 1 <= g <= |placed| ==> grid[g] == Fin(Point(cmin, BinWidth(cmin, cmax, nbins), placed[g - 1]))
    ensures forall g :: 1 <= g <= |placed| ==> grid[g].Fin? && cmin < grid[g].x <= cmax
    ensures forall g1, g2 :: 1 <= g1 < g2 <= |placed| ==> grid[g1].Fin? && grid[g2].Fin? && grid[g1].x < grid[g2].x
  {
    var binwidth := BinWidth(cmin, cmax, nbins);
    assert binwidth > 0.0 by {
      ScaledBelow(0.0, cmax - cmin, nbins as real);
    }
    forall g | 1 <= g <= |placed|
      ensures grid[g].Fin? && cmin < grid[g].x <= cmax
    {
      PointWithin(cmin, cmax, nbins, placed[g - 1]);
    }
    forall g1, g2 | 1 <= g1 < g2 <= |placed|
      ensures grid[g1].Fin? && grid[g2].Fin? && grid[g1].x < grid[g2].x
    {
      OrderedIncreasing(placed, g1 - 1, g2 - 1);
      PointsIncreasing(cmin, binwidth, placed[g1 - 1], placed[g2 - 1]);
    }
  }

  /**
   * The separation scan over the all-empty histogram of no particles: no point is placed, so the
   * grid holds the two sentinels and zeros in between.
   */
  method EmptyGrid(gridsize: nat) returns (grid: seq<Ext>, ghost placed: seq<nat>)
    requires gridsize >= 1
    ensures |grid| == gridsize + 1 && grid[0] == NegInf && grid[gridsize] == PosInf
    ensures placed == [] && forall g :: 0 < g < gridsize ==> grid[g] == Fin(0.0)
  {
    var bins := seq(BinsFor(gridsize), b => 0);
    CumulZero(bins, |bins|);
    grid, placed := Separations(bins, 0, gridsize, 0.0, 0.0);
    NothingPlaced(bins, gridsize, placed);
  }

  /**
   * Builds the grid along dir; the placed points strictly increase and lie in (cmin, cmax].
   */
  method MakeGrid(pv: seq<Particle>, dir: Axis, gridsize: nat)
    returns (grid: seq<Ext>, cmin: Ext, cmax: Ext, ghost placed: seq<nat>)
    requires gridsize >= 1
    requires forall p :: 0 <= p < |pv| ==> pv[p].h > 0.0
    ensures Placement(pv, dir, gridsize, grid, cmin, cmax, placed)
    ensures forall g :: 1 <= g <= |placed| ==> grid[g].Fin? && cmin.Fin? && cmin.x < grid[g].x <= cmax.x
    ensures forall g1, g2 :: 1 <= g1 < g2 <= |placed| ==> grid[g1].Fin? && grid[g2].Fin? && grid[g1].x < grid[g2].x
  {
    cmin, cmax := Range(pv, dir);
    var nbins := BinsFor(gridsize);
    if pv == [] {
      grid, placed := EmptyGrid(gridsize);
    } else {
      var binwidth := BinWidth(cmin.x, cmax.x, nbins);
      CentresBinnable(pv, dir, cmin.x, cmax.x, nbins);
      var bins := Histogram(pv, dir, cmin.x, binwidth, nbins);
      assert bins == Bins(pv, dir, cmin.x, binwidth, nbins);
      grid, placed := Separations(bins, |pv|, gridsize, cmin.x, binwidth);
      PlacedWithin(cmin.x, cmax.x, nbins, bins, |pv| / gridsize, gridsize, placed, grid);
    }
  }

  // ---------------------------------------------------------------------------
  // Locating points in the cells

  /** Locating a larger coordinate never gives an earlier interval. */
  lemma LocateMonotone(grid: seq<Ext>, v: real, w: real)
    requires |grid| >= 2 && v <= w
    ensures LocateClip(grid, v) <= LocateClip(grid, w)
  {
    var i := LocateClip(grid, v);
    if i > LocateClip(grid, w) {
      assert false;
    }
  }

  /** In a grid from -infinity to +infinity, v lies within the interval it is located in. */
  lemma LocateBrackets(grid: seq<Ext>, v: real)
    requires |grid| >= 2 && grid[0] == NegInf && grid[|grid| - 1] == PosInf
    ensures var i := LocateClip(grid, v); !Below(v, grid[i]) && !Above(v, grid[i + 1])
  {
  }

  // ---------------------------------------------------------------------------
  // Per-cell particle lists

  /** The three grids of an m x m x m particle grid. */
  datatype Grids = Grids(m: nat, xg: seq<Ext>, yg: seq<Ext>, zg: seq<Ext>)

  /** m + 1 points along each axis, the first -infinity and the last +infinity. */
  predicate Framed(g: Grids)
  {
    g.m >= 1 && |g.xg| == g.m + 1 && |g.yg| == g.m + 1 && |g.zg| == g.m + 1 &&
    g.xg[0] == NegInf && g.yg[0] == NegInf && g.zg[0] == NegInf &&
    g.xg[g.m] == PosInf && g.yg[g.m] == PosInf && g.zg[g.m] == PosInf
  }

  /** The bounds of cell (i, j, k). */
  function CellBounds(g: Grids, i: nat, j: nat, k: nat): Bounds
    requires Framed(g) && i < g.m && j < g.m && k < g.m
  {
    Bounds(g.xg[i], g.xg[i + 1], g.yg[j], g.yg[j + 1], g.zg[k], g.zg[k + 1])
  }

  /** Cells i1 through i2 along one axis possibly overlapped by the extent [c - h, c + h]. */
  predicate Spans(grid: seq<Ext>, c: real, h: real, i: nat)
    requires |grid| >= 2
  {
    LocateClip(grid, c - h) <= i <= LocateClip(grid, c + h)
  }

  /**
   * Particle q is listed in cell (i, j, k): the cell is in the range of cells spanned by the
   * particle's extent along each axis, and its bounds intersect the particle's sphere.
   */
  predicate Overlaps(g: Grids, q: Particle, i: nat, j: nat, k: nat)
    requires Framed(g) && i < g.m && j < g.m && k < g.m
  {
    Spans(g.xg, q.x, q.h, i) && Spans(g.yg, q.y, q.h, j) && Spans(g.zg, q.z, q.h, k) &&
    Intersects(CellBounds(g, i, j, k), q.x, q.y, q.z, q.h)
  }

  /** The list of cell (i, j, k) after the first n particles: the ones overlapping it, in order. */
  function CellList(g: Grids, pv: seq<Particle>, n: nat, i: nat, j: nat, k: nat): (list: seq<nat>)
    requires Framed(g) && n <= |pv| && i < g.m && j < g.m && k < g.m
    ensures |list| <= n
  {
    if n == 0 then []
    else CellList(g, pv, n - 1, i, j, k) + (if Overlaps(g, pv[n - 1], i, j, k) then [n - 1] else [])
  }

  /** The elements strictly increase, so none occurs twice. */
  ghost predicate Increasing(s: seq<nat>)
  {
    forall a, b :: 0 <= a < b < |s| ==> s[a] < s[b]
  }

  /** Appending an element when a condition holds adds exactly that element. */
  lemma AppendIf(prior: seq<nat>, o: bool, x: nat, p: nat)
    ensures p in prior + (if o then [x] else []) <==> p in prior || (o && p == x)
  {
  }

  /** A particle is in a cell's list exactly when it overlaps the cell. */
  lemma {:induction false} CellListContents(g: Grids, pv: seq<Particle>, n: nat, i: nat, j: nat, k: nat, p: nat)
    requires Framed(g) && n <= |pv| && i < g.m && j < g.m && k < g.m
    ensures p in CellList(g, pv, n, i, j, k) <==> p < n && Overlaps(g, pv[p], i, j, k)
  {
    if n > 0 {
      var prior := CellList(g, pv, n - 1, i, j, k);
      var o := Overlaps(g, pv[n - 1], i, j, k);
      assert CellList(g, pv, n, i, j, k) == prior + (if o then [n - 1] else []);
      AppendIf(prior, o, n - 1, p);
      CellListContents(g, pv, n - 1, i, j, k, p);
      if p == n - 1 {
        assert p !in prior;
        assert Overlaps(g, pv[p], i, j, k) == o;
      } else {
        assert p in prior <==> p < n && Overlaps(g, pv[p], i, j, k);
      }
    }
  }

  /** Every particle is added at most once to a cell's list, in increasing order. */
  lemma {:induction false} CellListIncreasing(g: Grids, pv: seq<Particle>, n: nat, i: nat, j: nat, k: nat)
    requires Framed(g) && n <= |pv| && i < g.m && j < g.m && k < g.m
    ensures Increasing(CellList(g, pv, n, i, j, k))
  {
    if n > 0 {
      var prior := CellList(g, pv, n - 1, i, j, k);
      CellListIncreasing(g, pv, n - 1, i, j, k);
      forall a | 0 <= a < |prior|
        ensures prior[a] < n - 1
      {
        CellListContents(g, pv, n - 1, i, j, k, prior[a]);
      }
    }
  }

  /** A particle with positive radius is listed in the cell that holds its centre. */
  lemma OwnCellListed(g: Grids, pv: seq<Particle>, n: nat, p: nat)
    requires Framed(g) && p < n <= |pv| && pv[p].h > 0.0
    ensures p in CellList(g, pv, n, LocateClip(g.xg, pv[p].x), LocateClip(g.yg, pv[p].y), LocateClip(g.zg, pv[p].z))
  {
    var q := pv[p];
    LocateMonotone(g.xg, q.x - q.h, q.x);
    LocateMonotone(g.xg, q.x, q.x + q.h);
    LocateMonotone(g.yg, q.y - q.h, q.y);
    LocateMonotone(g.yg, q.y, q.y + q.h);
    LocateMonotone(g.zg, q.z - q.h, q.z);
    LocateMonotone(g.zg, q.z, q.z + q.h);
    LocateBrackets(g.xg, q.x);
    LocateBrackets(g.yg, q.y);
    LocateBrackets(g.zg, q.z);
    var i, j, k := LocateClip(g.xg, q.x), LocateClip(g.yg, q.y), LocateClip(g.zg, q.z);
    CentreInsideIntersects(CellBounds(g, i, j, k), q.x, q.y, q.z, q.h);
    CellListContents(g, pv, n, i, j, k, p);
  }

  /** Replacing the list of one cell leaves the lists of all other cells as they were. */
  lemma UpdateCell(m: nat, s: seq<seq<nat>>, i: nat, j: nat, k: nat, v: seq<nat>)
    requires |s| == m * m * m && i < m && j < m && k < m
    ensures forall a: nat, b: nat, c: nat :: a < m && b < m && c < m ==>
      s[Index(m, i, j, k) := v][Index(m, a, b, c)] == if Cell(a, b, c) == Cell(i, j, k) then v else s[Index(m, a, b, c)]
  {
    forall a: nat, b: nat, c: nat | a < m && b < m && c < m && Index(m, a, b, c) == Index(m, i, j, k)
      ensures Cell(a, b, c) == Cell(i, j, k)
    {
      IndexInjective(m, Cell(a, b, c), Cell(i, j, k));
    }
  }

  /** Adds particle p to the lists of cells (i, j, k) of row (i, j) that it overlaps. */
  method AddRow(listv: seq<seq<nat>>, g: Grids, q: Particle, p: nat, i: nat, j: nat) returns (r: seq<seq<nat>>)
    requires Framed(g) && |listv| == g.m * g.m * g.m && i < g.m && j < g.m
    requires Spans(g.xg, q.x, q.h, i) && Spans(g.yg, q.y, q.h, j)
    ensures |r| == |listv|
    ensures forall a: nat, b: nat, c: nat :: a < g.m && b < g.m && c < g.m ==>
      r[Index(g.m, a, b, c)] == listv[Index(g.m, a, b, c)] + (if a == i && b == j && Overlaps(g, q, a, b, c) then [p] else [])
  {
    var m := g.m;
    var k1, k2 := LocateClip(g.zg, q.z - q.h), LocateClip(g.zg, q.z + q.h);
    r := listv;
    var k := k1;
    while k <= k2
      invariant k1 <= k <= m && |r| == |listv|
      invariant forall a: nat, b: nat, c: nat :: a < m && b < m && c < m ==>
        r[Index(m, a, b, c)] == listv[Index(m, a, b, c)] + (if a == i && b == j && c < k && Overlaps(g, q, a, b, c) then [p] else [])
    {
      if Intersects(CellBounds(g, i, j, k), q.x, q.y, q.z, q.h) {
        UpdateCell(m, r, i, j, k, r[Index(m, i, j, k)] + [p]);
        r := r[Index(m, i, j, k) := r[Index(m, i, j, k)] + [p]];
      }
      k := k + 1;
    }
  }

  /** Adds particle p to the lists of cells (i, _, _) of plane i that it overlaps. */
  method AddPlane(listv: seq<seq<nat>>, g: Grids, q: Particle, p: nat, i: nat) returns (r: seq<seq<nat>>)
    requires Framed(g) && |listv| == g.m * g.m * g.m && i < g.m
    requires Spans(g.xg, q.x, q.h, i)
    ensures |r| == |listv|
    ensures forall a: nat, b: nat, c: nat :: a < g.m && b < g.m && c < g.m ==>
      r[Index(g.m, a, b, c)] == listv[Index(g.m, a, b, c)] + (if a == i && Overlaps(g, q, a, b, c) then [p] else [])
  {
    var m := g.m;
    var j1, j2 := LocateClip(g.yg, q.y - q.h), LocateClip(g.yg, q.y + q.h);
    r := listv;
    var j := j1;
    while j <= j2
      invariant j1 <= j <= m && |r| == |listv|
      invariant forall a: nat, b: nat, c: nat :: a < m && b < m && c < m ==>
        r[Index(m, a, b, c)] == listv[Index(m, a, b, c)] + (if a == i && b < j && Overlaps(g, q, a, b, c) then [p] else [])
    {
      r := AddRow(r, g, q, p, i, j);
      j := j + 1;
    }
  }

  /** Adds particle p to the list of every cell that it overlaps. */
  method AddParticle(listv: seq<seq<nat>>, g: Grids, q: Particle, p: nat) returns (r: seq<seq<nat>>)
    requires Framed(g) && |listv| == g.m * g.m * g.m
    ensures |r| == |listv|
    ensures forall a: nat, b: nat, c: nat :: a < g.m && b < g.m && c < g.m ==>
      r[Index(g.m, a, b, c)] == listv[Index(g.m, a, b, c)] + (if Overlaps(g, q, a, b, c) then [p] else [])
  {
    var m := g.m;
    var i1, i2 := LocateClip(g.xg, q.x - q.h), LocateClip(g.xg, q.x + q.h);
    r := listv;
    var i := i1;
    while i <= i2
      invariant i1 <= i <= m && |r| == |listv|
      invariant forall a: nat, b: nat, c: nat :: a < m && b < m && c < m ==>
        r[Index(m, a, b, c)] == listv[Index(m, a, b, c)] + (if a < i && Overlaps(g, q, a, b, c) then [p] else [])
    {
      r := AddPlane(r, g, q, p, i);
      i := i + 1;
    }
  }

  /** The m^3 cell lists: each holds, in order, the particles that overlap the cell. */
  method FillLists(g: Grids, pv: seq<Particle>) returns (listv: seq<seq<nat>>)
    requires Framed(g)
    ensures |listv| == g.m * g.m * g.m
    ensures forall i: nat, j: nat, k: nat :: i < g.m && j < g.m && k < g.m ==> listv[Index(g.m, i, j, k)] == CellList(g, pv, |pv|, i, j, k)
  {
    var m := g.m;
    listv := seq(m * m * m, c => []);
    var p := 0;
    while p < |pv|
      invariant p <= |pv| && |listv| == m * m * m
      invariant forall i: nat, j: nat, k: nat :: i < m && j < m && k < m ==> listv[Index(m, i, j, k)] == CellList(g, pv, p, i, j, k)
    {
      listv := AddParticle(listv, g, pv[p], p);
      p := p + 1;
    }
  }

  // ---------------------------------------------------------------------------
  // Statistics

  /** The sum of the list sizes. */
  function TotalSize(lists: seq<seq<nat>>): nat
  {
    if lists == [] then 0 else TotalSize(lists[..|lists| - 1]) + |lists[|lists| - 1]|
  }

  /**
   * The smallest and largest list size, starting from n and 0, and the total size: pmin is at most n
   * and every size, and equals n or some size; pmax is at least every size and equals 0 or some size.
   */
  method Statistics(listv: seq<seq<nat>>, n: nat) returns (pmin: nat, pmax: nat, ptotal: nat)
    ensures ptotal == TotalSize(listv)
    ensures forall c :: 0 <= c < |listv| ==> pmin <= |listv[c]| <= pmax
    ensures pmin <= n && (pmin == n || exists c :: 0 <= c < |listv| && |listv[c]| == pmin)
    ensures pmax == 0 || exists c :: 0 <= c < |listv| && |listv[c]| == pmax
  {
    pmin, pmax, ptotal := n, 0, 0;
    var index := 0;
    while index < |listv|
      invariant index <= |listv|
      invariant ptotal == TotalSize(listv[..index])
      invariant forall c :: 0 <= c < index ==> pmin <= |listv[c]| <= pmax
      invariant pmin <= n && (pmin == n || exists c :: 0 <= c < index && |listv[c]| == pmin)
      invariant pmax == 0 || exists c :: 0 <= c < index && |listv[c]| == pmax
    {
      var size := |listv[index]|;
      assert listv[..index + 1][..index] == listv[..index];
      pmin := if size < pmin then size else pmin;
      pmax := if size > pmax then size else pmax;
      ptotal := ptotal + size;
      index := index + 1;
    }
    assert listv[..index] == listv;
  }

  // ---------------------------------------------------------------------------
  // Joining the lists of a range of cells

  /** The elements of a list, as a set. */
  function Elements(s: seq<nat>): (e: set<nat>)
    ensures forall q :: q in e <==> q in s
  {
    set q | q in s
  }

  /** The particles listed in cells (i, j, k1) .. (i, j, k - 1). */
  function Row(listv: seq<seq<nat>>, m: nat, i: nat, j: nat, k1: nat, k: nat): set<nat>
    requires |listv| == m * m * m && i < m && j < m && k <= m
  {
    if k <= k1 then {} else Row(listv, m, i, j, k1, k - 1) + Elements(listv[Index(m, i, j, k - 1)])
  }

  /** The particles listed in the rows (i, j1) .. (i, j - 1), cells k1 .. k2 of each. */
  function Plane(listv: seq<seq<nat>>, m: nat, i: nat, j1: nat, j: nat, k1: nat, k2: nat): set<nat>
    requires |listv| == m * m * m && i < m && j <= m && k2 < m
  {
    if j <= j1 then {} else Plane(listv, m, i, j1, j - 1, k1, k2) + Row(listv, m, i, j - 1, k1, k2 + 1)
  }

  /** The particles listed in the planes i1 .. i - 1, rows j1 .. j2 and cells k1 .. k2 of each. */
  function Block(listv: seq<seq<nat>>, m: nat, i1: nat, i: nat, j1: nat, j2: nat, k1: nat, k2: nat): set<nat>
    requires |listv| == m * m * m && i <= m && j2 < m && k2 < m
  {
    if i <= i1 then {} else Block(listv, m, i1, i - 1, j1, j2, k1, k2) + Plane(listv, m, i - 1, j1, j2 + 1, k1, k2)
  }

  /** q is in the list of some cell in [i1, i2] x [j1, j2] x [k1, k2]. */
  ghost predicate Listed(listv: seq<seq<nat>>, m: nat, q: nat, i1: nat, i2: nat, j1: nat, j2: nat, k1: nat, k2: nat)
    requires |listv| == m * m * m && i2 < m && j2 < m && k2 < m
  {
    exists i: nat, j: nat, k: nat :: i1 <= i <= i2 && j1 <= j <= j2 && k1 <= k <= k2 && q in listv[Index(m, i, j, k)]
  }

  lemma {:induction false} RowContents(listv: seq<seq<nat>>, m: nat, i: nat, j: nat, k1: nat, k: nat, q: nat)
    requires |listv| == m * m * m && i < m && j < m && k <= m
    ensures q in Row(listv, m, i, j, k1, k) <==> exists c: nat :: k1 <= c < k && q in listv[Index(m, i, j, c)]
  {
    if k > k1 {
      RowContents(listv, m, i, j, k1, k - 1, q);
    }
  }

  lemma {:induction false} PlaneContents(listv: seq<seq<nat>>, m: nat, i: nat, j1: nat, j: nat, k1: nat, k2: nat, q: nat)
    requires |listv| == m * m * m && i < m && j <= m && k2 < m
    ensures q in Plane(listv, m, i, j1, j, k1, k2) <==>
      exists b: nat, c: nat :: j1 <= b < j && k1 <= c <= k2 && q in listv[Index(m, i, b, c)]
  {
    if j > j1 {
      PlaneContents(listv, m, i, j1, j - 1, k1, k2, q);
      RowContents(listv, m, i, j - 1, k1, k2 + 1, q);
    }
  }

  /** The join of a block is exactly the set of particles listed in one of its cells. */
  lemma {:induction false} BlockContents(listv: seq<seq<nat>>, m: nat, i1: nat, i: nat, j1: nat, j2: nat, k1: nat, k2: nat, q: nat)
    requires |listv| == m * m * m && i <= m && j2 < m && k2 < m
    ensures q in Block(listv, m, i1, i, j1, j2, k1, k2) <==>
      exists a: nat, b: nat, c: nat :: i1 <= a < i && j1 <= b <= j2 && k1 <= c <= k2 && q in listv[Index(m, a, b, c)]
  {
    if i > i1 {
      BlockContents(listv, m, i1, i - 1, j1, j2, k1, k2, q);
      PlaneContents(listv, m, i - 1, j1, j2 + 1, k1, k2, q);
    }
  }

  /** Adds the lists of cells (i, j, k1) .. (i, j, k2) to joined. */
  method JoinRow(joined: set<nat>, listv: seq<seq<nat>>, m: nat, i: nat, j: nat, k1: nat, k2: nat) returns (s: set<nat>)
    requires |listv| == m * m * m && i < m && j < m && k1 < m && k2 < m
    ensures s == joined + Row(listv, m, i, j, k1, k2 + 1)
  {
    s := joined;
    var k := k1;
    while k <= k2
      invariant k1 <= k <= m && (k <= k2 + 1 || k == k1)
      invariant s == joined + Row(listv, m, i, j, k1, k)
    {
      s := s + Elements(listv[Index(m, i, j, k)]);
      k := k + 1;
    }
  }

  /** Adds the lists of the rows (i, j1) .. (i, j2), cells k1 .. k2 of each, to joined. */
  method JoinPlane(joined: set<nat>, listv: seq<seq<nat>>, m: nat, i: nat, j1: nat, j2: nat, k1: nat, k2: nat)
    returns (s: set<nat>)
    requires |listv| == m * m * m && i < m && j1 < m && j2 < m && k1 < m && k2 < m
    ensures s == joined + Plane(listv, m, i, j1, j2 + 1, k1, k2)
  {
    s := joined;
    var j := j1;
    while j <= j2
      invariant j1 <= j <= m && (j <= j2 + 1 || j == j1)
      invariant s == joined + Plane(listv, m, i, j1, j, k1, k2)
    {
      s := JoinRow(s, listv, m, i, j, k1, k2);
      j := j + 1;
    }
  }

  /** The union of the lists of the cells in [i1, i2] x [j1, j2] x [k1, k2]. */
  method JoinBlock(listv: seq<seq<nat>>, m: nat, i1: nat, i2: nat, j1: nat, j2: nat, k1: nat, k2: nat)
    returns (s: set<nat>)
    requires |listv| == m * m * m && i1 < m && i2 < m && j1 < m && j2 < m && k1 < m && k2 < m
    ensures s == Block(listv, m, i1, i2 + 1, j1, j2, k1, k2)
  {
    s := {};
    var i := i1;
    while i <= i2
      invariant i1 <= i <= m && (i <= i2 + 1 || i == i1)
      invariant s == Block(listv, m, i1, i, j1, j2, k1, k2)
    {
      s := JoinPlane(s, listv, m, i, j1, j2, k1, k2);
      i := i + 1;
    }
  }

  /** The elements of s, all below n, in increasing order. */
  method Ascending(s: set<nat>, n: nat) returns (r: seq<nat>)
    requires forall q :: q in s ==> q < n
    ensures Increasing(r)
    ensures forall q :: q in r <==> q in s
  {
    r := [];
    var p := 0;
    while p < n
      invariant p <= n
      invariant Increasing(r) && forall a :: 0 <= a < |r| ==> r[a] < p
      invariant forall q :: q in r <==> q in s && q < p
    {
      if p in s {
        r := r + [p];
      }
      p := p + 1;
    }
  }

  /** Every list names particles below n. */
  ghost predicate ListsBelow(listv: seq<seq<nat>>, m: nat, n: nat)
    requires |listv| == m * m * m
  {
    forall i: nat, j: nat, k: nat, q :: i < m && j < m && k < m && q in listv[Index(m, i, j, k)] ==> q < n
  }

  /** The lists of the cells in [i1, i2] x [j1, j2] x [k1, k2], joined into one increasing list. */
  method Join(listv: seq<seq<nat>>, m: nat, n: nat, i1: nat, i2: nat, j1: nat, j2: nat, k1: nat, k2: nat)
    returns (r: seq<nat>)
    requires |listv| == m * m * m && i1 < m && i2 < m && j1 < m && j2 < m && k1 < m && k2 < m
    requires ListsBelow(listv, m, n)
    ensures Increasing(r)
    ensures forall q :: q in r <==> Listed(listv, m, q, i1, i2, j1, j2, k1, k2)
  {
    var joined := JoinBlock(listv, m, i1, i2, j1, j2, k1, k2);
    forall q
      ensures q in joined <==> Listed(listv, m, q, i1, i2, j1, j2, k1, k2)
    {
      BlockContents(listv, m, i1, i2 + 1, j1, j2, k1, k2, q);
    }
    r := Ascending(joined, n);
  }

  // ---------------------------------------------------------------------------
  // The particle grid

  /** A query box with finite bounds. */
  datatype Box = Box(xmin: real, xmax: real, ymin: real, ymax: real, zmin: real, zmax: real)

  lemma CubePositive(m: nat)
    requires m >= 1
    ensures m * m * m >= 1
  {
    assert m * m >= 1;
  }

  class ParticleGrid {
    const m: nat
    const pv: seq<Particle>
    const xgrid: seq<Ext>
    const ygrid: seq<Ext>
    const zgrid: seq<Ext>
    const xmin: Ext
    const xmax: Ext
    const ymin: Ext
    const ymax: Ext
    const zmin: Ext
    const zmax: Ext
    ghost const xplaced: seq<nat>
    ghost const yplaced: seq<nat>
    ghost const zplaced: seq<nat>
    const listv: seq<seq<nat>>
    const pmin: nat
    const pmax: nat
    const ptotal: nat

    function Grid(): Grids
    {
      Grids(m, xgrid, ygrid, zgrid)
    }

    /**
     * The grids follow the particle distribution along each axis, each of the m^3 lists holds the
     * particles overlapping its cell, and the statistics describe the list sizes.
     */
    ghost predicate Valid()
    {
      m >= 1 && (forall p :: 0 <= p < |pv| ==> pv[p].h > 0.0) &&
      Placement(pv, X, m, xgrid, xmin, xmax, xplaced) &&
      Placement(pv, Y, m, ygrid, ymin, ymax, yplaced) &&
      Placement(pv, Z, m, zgrid, zmin, zmax, zplaced) &&
      Framed(Grid()) && |listv| == m * m * m &&
      (forall i: nat, j: nat, k: nat :: i < m && j < m && k < m ==>
        listv[Index(m, i, j, k)] == CellList(Grid(), pv, |pv|, i, j, k)) &&
      ptotal == TotalSize(listv) &&
      (forall c :: 0 <= c < |listv| ==> pmin <= |listv[c]| <= pmax) &&
      (exists c :: 0 <= c < |listv| && |listv[c]| == pmin) &&
      (exists c :: 0 <= c < |listv| && |listv[c]| == pmax)
    }

    /** Builds the grids, fills the cell lists and computes the statistics. */
    constructor (pv: seq<Particle>, gridsize: nat)
      requires gridsize >= 1
      requires forall p :: 0 <= p < |pv| ==> pv[p].h > 0.0
      ensures Valid() && this.pv == pv && m == gridsize
    {
      var xg, x0, x1, xp := MakeGrid(pv, X, gridsize);
      var yg, y0, y1, yp := MakeGrid(pv, Y, gridsize);
      var zg, z0, z1, zp := MakeGrid(pv, Z, gridsize);
      var g := Grids(gridsize, xg, yg, zg);
      var lists := FillLists(g, pv);
      var lo, hi, total := Statistics(lists, |pv|);
      CubePositive(gridsize);
      assert Index(gridsize, 0, 0, 0) == 0;
      assert |lists[0]| <= |pv|;
      this.m, this.pv := gridsize, pv;
      xgrid, xmin, xmax, xplaced := xg, x0, x1, xp;
      ygrid, ymin, ymax, yplaced := yg, y0, y1, yp;
      zgrid, zmin, zmax, zplaced := zg, z0, z1, zp;
      listv, pmin, pmax, ptotal := lists, lo, hi, total;
    }

    /** The smallest number of particles listed in any cell. */
    function MinParticlesPerCell(): (r: nat)
      requires Valid()
      ensures forall c :: 0 <= c < |listv| ==> r <= |listv[c]|
      ensures exists c :: 0 <= c < |listv| && |listv[c]| == r
    {
      pmin
    }

    /** The largest number of particles listed in any cell. */
    function MaxParticlesPerCell(): (r: nat)
      requires Valid()
      ensures forall c :: 0 <= c < |listv| ==> |listv[c]| <= r
      ensures exists c :: 0 <= c < |listv| && |listv[c]| == r
    {
      pmax
    }

    /** The total number of particle references over all cells. */
    function TotalParticles(): (r: nat)
      requires Valid()
      ensures r == TotalSize(listv)
    {
      ptotal
    }

    /** The particles overlapping the cell that holds the point (x, y, z). */
    function ParticlesAt(x: real, y: real, z: real): (r: seq<nat>)
      requires Valid()
      ensures r == CellList(Grid(), pv, |pv|, LocateClip(xgrid, x), LocateClip(ygrid, y), LocateClip(zgrid, z))
    {
      listv[Index(m, LocateClip(xgrid, x), LocateClip(ygrid, y), LocateClip(zgrid, z))]
    }

    /** Every particle is found at its own centre. */
    lemma OwnParticleFound(p: nat)
      requires Valid() && p < |pv|
      ensures p in ParticlesAt(pv[p].x, pv[p].y, pv[p].z)
    {
      OwnCellListed(Grid(), pv, |pv|, p);
    }

    /** Every list names particles of the grid. */
    lemma ListsName()
      requires Valid()
      ensures ListsBelow(listv, m, |pv|)
    {
      forall i: nat, j: nat, k: nat, q | i < m && j < m && k < m && q in listv[Index(m, i, j, k)]
        ensures q < |pv|
      {
        CellListContents(Grid(), pv, |pv|, i, j, k, q);
      }
    }

    /** The list of one cell is increasing and holds the particles listed in that cell. */
    lemma SingleCell(i: nat, j: nat, k: nat)
      requires Valid() && i < m && j < m && k < m
      ensures Increasing(listv[Index(m, i, j, k)])
      ensures forall q :: q in listv[Index(m, i, j, k)] <==> Listed(listv, m, q, i, i, j, j, k, k)
    {
      CellListIncreasing(Grid(), pv, |pv|, i, j, k);
    }

    /**
     * The particles listed in the cells that possibly overlap the box, once each and in order: the
     * single cell's list when the box lies in one cell, the join of the lists of the block of cells
     * otherwise.
     */
    method ParticlesInBox(box: Box) returns (r: seq<nat>)
      requires Valid()
      ensures var i1, i2 := LocateClip(xgrid, box.xmin), LocateClip(xgrid, box.xmax);
              var j1, j2 := LocateClip(ygrid, box.ymin), LocateClip(ygrid, box.ymax);
              var k1, k2 := LocateClip(zgrid, box.zmin), LocateClip(zgrid, box.zmax);
              (i1 == i2 && j1 == j2 && k1 == k2 ==> r == listv[Index(m, i1, j1, k1)]) &&
              Increasing(r) && forall q :: q in r <==> Listed(listv, m, q, i1, i2, j1, j2, k1, k2)
    {
      var i1, i2 := LocateClip(xgrid, box.xmin), LocateClip(xgrid, box.xmax);
      var j1, j2 := LocateClip(ygrid, box.ymin), LocateClip(ygrid, box.ymax);
      var k1, k2 := LocateClip(zgrid, box.zmin), LocateClip(zgrid, box.zmax);
      if i1 == i2 && j1 == j2 && k1 == k2 {
        SingleCell(i1, j1, k1);
        r := listv[Index(m, i1, j1, k1)];
      } else {
        ListsName();
        r := Join(listv, m, |pv|, i1, i2, j1, j2, k1, k2);
      }
    }

    /** A particle is listed in a block of cells exactly when it overlaps one of them. */
    lemma ListedOverlaps(q: nat, i1: nat, i2: nat, j1: nat, j2: nat, k1: nat, k2: nat)
      requires Valid() && i2 < m && j2 < m && k2 < m
      ensures Listed(listv, m, q, i1, i2, j1, j2, k1, k2) <==>
        q < |pv| &&
        exists a: nat, b: nat, c: nat ::
          i1 <= a <= i2 && j1 <= b <= j2 && k1 <= c <= k2 && Overlaps(Grid(), pv[q], a, b, c)
    {
      forall a: nat, b: nat, c: nat | a < m && b < m && c < m
        ensures q in listv[Index(m, a, b, c)] <==> q < |pv| && Overlaps(Grid(), pv[q], a, b, c)
      {
        CellListContents(Grid(), pv, |pv|, a, b, c, q);
      }
    }
  }
}
