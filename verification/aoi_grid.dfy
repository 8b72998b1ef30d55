/** The grid half of the two-dimensional area-of-interest index: the state
    record, the cell arithmetic, and the neighbourhood scan that feeds the
    visibility callbacks.

    Positions, vision radii and cell sizes are exact non-negative integers;
    "distance <= vision" is decided on squared distances, which is the same
    test for non-negative radii. An entity is seen through its accessors at
    the moment of a call: a `World` maps each guid to that snapshot. */
module AoiGrid {

  type Guid = int

  /** What `GetPosition()` and `GetVision()` return for one entity during a call. */
  datatype Entity = Entity(x: nat, y: nat, vision: nat)

  /** The accessors of every entity during one call. */
  type World = Guid -> Entity

  /** The index: plane size, cell size, the cell counts minus one
      (`areaWidthLimit`, `areaHeightLimit`), the cells `areas[w][h]` (each a
      set of guids) and every entity's focus set. */
  datatype TwoDimensional = TwoDimensional(
    width: int, height: int,
    areaWidth: int, areaHeight: int,
    widthLimit: int, heightLimit: int,
    areas: seq<seq<set<Guid>>>,
    focus: map<Guid, set<Guid>>)

  // ---------------------------------------------------------------------------
  // Geometry

  function Sq(n: int): nat
  {
    n * n
  }

  /** Squared Euclidean distance between two points. */
  function Dist2(x1: int, y1: int, x2: int, y2: int): nat
  {
    Sq(x1 - x2) + Sq(y1 - y2)
  }

  /** Observer `e` sees the point `(px, py)`: its distance is at most `e.vision`. */
  predicate InVision(e: Entity, px: int, py: int)
  {
    Dist2(e.x, e.y, px, py) <= e.vision * e.vision
  }

  predicate Sees(e: Entity, o: Entity)
  {
    InVision(e, o.x, o.y)
  }

  /** `ceil(a / b)` on non-negative integers. */
  function CeilDiv(a: nat, b: nat): nat
    requires b > 0
  {
    (a + b - 1) / b
  }

  lemma MulMono(x: int, y: int, k: int)
    requires x <= y && k > 0
    ensures x * k <= y * k
  {
    assert y * k - x * k == (y - x) * k;
  }

  /** A multiple bound below a number bounds its quotient. */
  lemma DivAtLeast(b: int, k: int, size: int)
    requires size > 0 && b >= k * size
    ensures b / size >= k
  {
    var q := b / size;
    assert b < (q + 1) * size;
    if q + 1 <= k {
      MulMono(q + 1, k, size);
      assert false;
    }
  }

  /** A multiple bound above a number bounds its quotient. */
  lemma DivBelow(b: int, k: int, size: int)
    requires size > 0 && b < k * size
    ensures b / size < k
  {
    var q := b / size;
    assert q * size <= b;
    if q >= k {
      MulMono(k, q, size);
      assert false;
    }
  }

  lemma DivMono(a: int, b: int, d: int)
    requires 0 <= a <= b && d > 0
    ensures a / d <= b / d
  {
    assert (a / d) * d <= a <= b;
    DivAtLeast(b, a / d, d);
  }

  /** The cell of a point `p` along one axis is `p / size`: it bounds `p`. */
  lemma CellBounds(p: nat, size: int, c: int)
    requires size > 0 && c == p / size
    ensures c * size <= p < (c + 1) * size
  {
  }

  /** A point farther out along the axis than `q` is at least as far from `own`. */
  lemma SqMono(own: int, q: int, p: int)
    requires own <= q <= p || p <= q <= own
    ensures Sq(own - q) <= Sq(own - p)
  {
    var a, b := q - own, p - own;
    if own <= q <= p {
      SqLe(a, b);
    } else {
      SqLe(-a, -b);
    }
    assert Sq(own - q) == Sq(a) && Sq(own - p) == Sq(b);
  }

  lemma SqLe(a: int, b: int)
    requires 0 <= a <= b
    ensures Sq(a) <= Sq(b) && Sq(-a) <= Sq(-b)
  {
    MulMono(a, b, b + 1);
    assert a * a <= a * b <= b * b;
  }

  // ---------------------------------------------------------------------------
  // Cells

  /** The grid has the shape the plane and cell sizes call for:
      `ceil(width / areaWidth) + 1` columns of `ceil(height / areaHeight) + 1` cells. */
  ghost predicate Valid(t: TwoDimensional)
  {
    && t.areaWidth > 0 && t.areaHeight > 0
    && t.width >= 0 && t.height >= 0
    && t.widthLimit == CeilDiv(t.width, t.areaWidth)
    && t.heightLimit == CeilDiv(t.height, t.areaHeight)
    && |t.areas| == t.widthLimit + 1
    && forall w :: 0 <= w < |t.areas| ==> |t.areas[w]| == t.heightLimit + 1
  }

  /** The cell indexes of `e`'s position exist, so the writes and deletes at
      `areas[int(x / areaWidth)][int(y / areaHeight)]` do not go out of range. */
  predicate InGrid(t: TwoDimensional, e: Entity)
  {
    && t.areaWidth > 0 && t.areaHeight > 0
    && e.x / t.areaWidth < |t.areas|
    && e.y / t.areaHeight < |t.areas[e.x / t.areaWidth]|
  }

  predicate IsCell(t: TwoDimensional, w: int, h: int)
  {
    0 <= w < |t.areas| && 0 <= h < |t.areas[w]|
  }

  /** Guid `g` is held in some cell. */
  ghost predicate Held(t: TwoDimensional, g: Guid)
  {
    exists w, h :: IsCell(t, w, h) && g in t.areas[w][h]
  }

  /** Every held entity sits in the cell of its current position. */
  ghost predicate Consistent(t: TwoDimensional, world: World)
  {
    && t.areaWidth > 0 && t.areaHeight > 0
    && forall w, h, g :: IsCell(t, w, h) && g in t.areas[w][h] ==>
         world(g).x / t.areaWidth == w && world(g).y / t.areaHeight == h
  }

  /** The two grids have the same cell sizes and the same shape. */
  ghost predicate SameShape(t: TwoDimensional, t': TwoDimensional)
  {
    && t'.areaWidth == t.areaWidth && t'.areaHeight == t.areaHeight
    && t'.width == t.width && t'.height == t.height
    && t'.widthLimit == t.widthLimit && t'.heightLimit == t.heightLimit
    && |t'.areas| == |t.areas|
    && forall w :: 0 <= w < |t.areas| ==> |t'.areas[w]| == |t.areas[w]|
  }

  /** A grid of `columns` columns of `rows` empty cells. */
  function EmptyGrid(columns: nat, rows: nat): (a: seq<seq<set<Guid>>>)
    ensures |a| == columns
    ensures forall w :: 0 <= w < columns ==> |a[w]| == rows
    ensures forall w, h :: 0 <= w < columns && 0 <= h < rows ==> a[w][h] == {}
  {
    seq(columns, _ => seq(rows, _ => {}))
  }

  /** Any position inside the plane `[0, width] x [0, height]` has its cell in a valid grid. */
  lemma PlaneInGrid(t: TwoDimensional, e: Entity)
    requires Valid(t)
    requires e.x <= t.width && e.y <= t.height
    ensures InGrid(t, e)
  {
    DivMono(e.x, t.width, t.areaWidth);
    DivMono(t.width, t.width + t.areaWidth - 1, t.areaWidth);
    DivMono(e.y, t.height, t.areaHeight);
    DivMono(t.height, t.height + t.areaHeight - 1, t.areaHeight);
  }

  // ---------------------------------------------------------------------------
  // The neighbourhood scan (`rangeVisionAreaEntities`)

  /** The scan loops run `w` over `[sw, ew)` and `h` over `[sh, eh)`. */
  datatype Bounds = Bounds(sw: int, ew: int, sh: int, eh: int)

  function ClampStart(v: int, limit: int): int
  {
    if v < 0 then 0 else if v > limit then limit else v
  }

  function ClampEnd(v: int, start: int, limit: int): int
  {
    if v < start then start else if v > limit then limit else v
  }

  /** The scan bounds exactly as the source computes them: both ends start
      from `widthArea - widthSpan`, and the vertical end does too. */
  function ScanBounds(t: TwoDimensional, e: Entity): (b: Bounds)
    requires t.areaWidth > 0 && t.areaHeight > 0
    ensures b.ew == b.sw
    ensures t.widthLimit >= 0 ==> 0 <= b.sw <= t.widthLimit
    ensures t.heightLimit >= 0 ==> 0 <= b.sh <= b.eh <= t.heightLimit
  {
    var widthArea := e.x / t.areaWidth;
    var heightArea := e.y / t.areaHeight;
    var widthSpan := CeilDiv(e.vision, t.areaWidth);
    var heightSpan := CeilDiv(e.vision, t.areaHeight);
    var sw := ClampStart(widthArea - widthSpan, t.widthLimit);
    var ew := ClampEnd(widthArea - widthSpan, sw, t.widthLimit);
    var sh := ClampStart(heightArea - heightSpan, t.heightLimit);
    var eh := ClampEnd(widthArea - widthSpan, sh, t.heightLimit);
    Bounds(sw, ew, sh, eh)
  }

  /** The point of cell `c` that stands in for the whole cell along one axis:
      its near edge when the cell lies before or after the observer's cell
      `own / size`, the observer's own coordinate when it is the same cell. */
  function Probe(c: int, ownCell: int, size: int, own: int): int
  {
    if c < ownCell then (c + 1) * size
    else if c > ownCell then c * size
    else own
  }

  /** The cell-level filter: the probe point of cell `(w, h)` is within vision. */
  predicate CellPasses(t: TwoDimensional, e: Entity, w: int, h: int)
    requires t.areaWidth > 0 && t.areaHeight > 0
  {
    InVision(e,
      Probe(w, e.x / t.areaWidth, t.areaWidth, e.x),
      Probe(h, e.y / t.areaHeight, t.areaHeight, e.y))
  }

  /** The guids the scan hands to its callback for observer `g` over bounds
      `b`: held in a visited cell that passes the cell filter, not `g` itself,
      and within `g`'s vision. */
  function Candidates(t: TwoDimensional, world: World, g: Guid, b: Bounds): (c: set<Guid>)
    requires t.areaWidth > 0 && t.areaHeight > 0
    ensures forall o :: o in c ==> Held(t, o) && o != g && Sees(world(g), world(o))
    ensures b.ew <= b.sw || b.eh <= b.sh ==> c == {}
  {
    set w, h, o | b.sw <= w < b.ew && b.sh <= h < b.eh && IsCell(t, w, h)
                  && o in t.areas[w][h]
                  && CellPasses(t, world(g), w, h) && o != g && Sees(world(g), world(o)) :: o
  }

  /** What an exhaustive scan over the same cells would find: every held guid
      other than `g` within `g`'s vision, with no cell-level filter. */
  function InVisionWithin(t: TwoDimensional, world: World, g: Guid, b: Bounds): set<Guid>
  {
    set w, h, o | b.sw <= w < b.ew && b.sh <= h < b.eh && IsCell(t, w, h)
                  && o in t.areas[w][h] && o != g && Sees(world(g), world(o)) :: o
  }

  /** As written, the end of the column range is clamped to its start in
      every branch, so the outer loop visits no column and the callback is
      never called. */
  lemma ScanVisitsNothing(t: TwoDimensional, world: World, g: Guid)
    requires t.areaWidth > 0 && t.areaHeight > 0
    ensures ScanBounds(t, world(g)).ew == ScanBounds(t, world(g)).sw
    ensures Candidates(t, world, g, ScanBounds(t, world(g))) == {}
  {
  }

  /** Along one axis, the probe is never farther from the observer than any
      point of the probed cell. */
  lemma {:induction false} ProbeNoFarther(c: int, size: int, own: nat, p: nat)
    requires size > 0 && p / size == c
    ensures Sq(own - Probe(c, own / size, size, own)) <= Sq(own - p)
  {
    var ownCell := own / size;
    CellBounds(p, size, c);
    CellBounds(own, size, ownCell);
    if c < ownCell {
      MulMono(c + 1, ownCell, size);
      SqMono(own, (c + 1) * size, p);
    } else if c > ownCell {
      MulMono(ownCell + 1, c, size);
      SqMono(own, c * size, p);
    }
  }

  /** The cell filter never drops an entity within vision: on a consistent
      grid the scan hands over exactly the held entities within vision in
      the visited cells, whatever the bounds are. */
  lemma {:induction false} CandidatesExact(t: TwoDimensional, world: World, g: Guid, b: Bounds)
    requires Consistent(t, world)
    ensures Candidates(t, world, g, b) == InVisionWithin(t, world, g, b)
    ensures forall o :: o in Candidates(t, world, g, b) ==> o != g && Sees(world(g), world(o))
  {
    var e := world(g);
    forall o | o in InVisionWithin(t, world, g, b)
      ensures o in Candidates(t, world, g, b)
    {
      var w, h :| b.sw <= w < b.ew && b.sh <= h < b.eh && IsCell(t, w, h)
                  && o in t.areas[w][h] && o != g && Sees(e, world(o));
      var oe := world(o);
      ProbeNoFarther(w, t.areaWidth, e.x, oe.x);
      ProbeNoFarther(h, t.areaHeight, e.y, oe.y);
      assert CellPasses(t, e, w, h);
    }
  }

  /** The spans `ceil(vision / areaWidth)` and `ceil(vision / areaHeight)`
      reach every cell that can hold an entity within vision. */
  lemma {:induction false} SpanCoversVision(t: TwoDimensional, e: Entity, o: Entity)
    requires t.areaWidth > 0 && t.areaHeight > 0
    requires Sees(e, o)
    ensures e.x / t.areaWidth - CeilDiv(e.vision, t.areaWidth) <= o.x / t.areaWidth
              <= e.x / t.areaWidth + CeilDiv(e.vision, t.areaWidth)
    ensures e.y / t.areaHeight - CeilDiv(e.vision, t.areaHeight) <= o.y / t.areaHeight
              <= e.y / t.areaHeight + CeilDiv(e.vision, t.areaHeight)
  {
    AxisWithinVision(e.x, o.x, e.y - o.y, e.vision);
    AxisWithinVision(e.y, o.y, e.x - o.x, e.vision);
    AxisSpan(e.x, o.x, e.vision, t.areaWidth);
    AxisSpan(e.y, o.y, e.vision, t.areaHeight);
  }

  lemma AxisWithinVision(a: int, b: int, other: int, v: nat)
    requires Sq(a - b) + Sq(other) <= v * v
    ensures a - v <= b <= a + v
  {
    var d := a - b;
    assert Sq(d) <= v * v;
    if d > v {
      SqBeyond(d, v);
      assert false;
    } else if -d > v {
      SqBeyond(-d, v);
      assert false;
    }
  }

  lemma SqBeyond(d: int, v: nat)
    requires d > v
    ensures Sq(d) > v * v
  {
    assert d * d - v * v == (d - v) * (d + v);
    assert (d - v) * (d + v) > 0;
  }

  lemma AxisSpan(a: nat, b: nat, v: nat, size: int)
    requires size > 0
    requires a - v <= b <= a + v
    ensures a / size - CeilDiv(v, size) <= b / size <= a / size + CeilDiv(v, size)
  {
    var q := a / size;
    var c := CeilDiv(v, size);
    CellBounds(a, size, q);
    assert v <= c * size by {
      CellBounds(v + size - 1, size, c);
    }
    // b < (q + c + 1) * size, so its cell is at most q + c
    assert (q + 1) * size + c * size == (q + c + 1) * size;
    DivBelow(b, q + c + 1, size);
    // b >= (q - c) * size, so its cell is at least q - c
    assert q * size - c * size == (q - c) * size;
    DivAtLeast(b, q - c, size);
  }

  /** The first and last cell, along one axis, within `v` of coordinate `own`:
      `own / size` minus and plus `ceil(v / size)`. */
  function SpanLow(own: nat, v: nat, size: int): int
    requires size > 0
  {
    own / size - CeilDiv(v, size)
  }

  function SpanHigh(own: nat, v: nat, size: int): int
    requires size > 0
  {
    own / size + CeilDiv(v, size)
  }

  function Max(a: int, b: int): int { if a < b then b else a }

  function Min(a: int, b: int): int { if a < b then a else b }

  /** Bounds that cover the span box around the observer's cell, as far as
      it lies inside the grid, find every held entity within vision. */
  lemma {:induction false} CoveringScanFindsAll(t: TwoDimensional, world: World, g: Guid, b: Bounds, o: Guid)
    requires Valid(t) && Consistent(t, world)
    requires b.sw <= Max(0, SpanLow(world(g).x, world(g).vision, t.areaWidth))
    requires b.ew > Min(t.widthLimit, SpanHigh(world(g).x, world(g).vision, t.areaWidth))
    requires b.sh <= Max(0, SpanLow(world(g).y, world(g).vision, t.areaHeight))
    requires b.eh > Min(t.heightLimit, SpanHigh(world(g).y, world(g).vision, t.areaHeight))
    requires Held(t, o) && o != g && Sees(world(g), world(o))
    ensures o in Candidates(t, world, g, b)
  {
    var w, h :| IsCell(t, w, h) && o in t.areas[w][h];
    SpanCoversVision(t, world(g), world(o));
    assert b.sw <= w < b.ew && b.sh <= h < b.eh;
    assert o in InVisionWithin(t, world, g, b);
    CandidatesExact(t, world, g, b);
  }

  /** The scan with the ends it evidently means, `widthArea + widthSpan` and
      `heightArea + heightSpan`, clamped as the source clamps them, but still
      exclusive as in the source's `w < ew` and `h < eh`. */
  function PlusBounds(t: TwoDimensional, e: Entity): Bounds
    requires t.areaWidth > 0 && t.areaHeight > 0
  {
    var sw := ClampStart(SpanLow(e.x, e.vision, t.areaWidth), t.widthLimit);
    var ew := ClampEnd(SpanHigh(e.x, e.vision, t.areaWidth), sw, t.widthLimit);
    var sh := ClampStart(SpanLow(e.y, e.vision, t.areaHeight), t.heightLimit);
    var eh := ClampEnd(SpanHigh(e.y, e.vision, t.areaHeight), sh, t.heightLimit);
    Bounds(sw, ew, sh, eh)
  }

  /** The same ends made inclusive: the scan that reaches every cell of the
      span box inside the grid. */
  function IntendedBounds(t: TwoDimensional, e: Entity): Bounds
    requires t.areaWidth > 0 && t.areaHeight > 0
  {
    var b := PlusBounds(t, e);
    Bounds(b.sw, b.ew + 1, b.sh, b.eh + 1)
  }

  /** Fixing the sign alone is not enough: on a 200 x 200 plane with 100-wide
      cells, an observer at (0, 0) with vision 100 scans only cell (0, 0) and
      misses an entity at (100, 0) that it sees. */
  lemma PlusBoundsMiss()
    ensures var t := TwoDimensional(200, 200, 100, 100, 2, 2,
                                    [[{}, {}, {}], [{2}, {}, {}], [{}, {}, {}]], map[]);
            var world := (g: Guid) => if g == 2 then Entity(100, 0, 0) else Entity(0, 0, 100);
            && Valid(t) && Consistent(t, world)
            && Held(t, 2) && Sees(world(1), world(2))
            && PlusBounds(t, world(1)) == Bounds(0, 1, 0, 1)
            && 2 !in Candidates(t, world, 1, PlusBounds(t, world(1)))
  {
    var t := TwoDimensional(200, 200, 100, 100, 2, 2,
                            [[{}, {}, {}], [{2}, {}, {}], [{}, {}, {}]], map[]);
    var world := (g: Guid) => if g == 2 then Entity(100, 0, 0) else Entity(0, 0, 100);
    assert CeilDiv(100, 100) == 1 && CeilDiv(200, 100) == 2;
    assert IsCell(t, 1, 0) && 2 in t.areas[1][0];
    assert PlusBounds(t, world(1)) == Bounds(0, 1, 0, 1);
    assert Consistent(t, world) by {
      forall w, h, g | IsCell(t, w, h) && g in t.areas[w][h]
        ensures world(g).x / 100 == w && world(g).y / 100 == h
      {
        assert w == 1 && h == 0 && g == 2;
      }
    }
  }

  /** With inclusive ends the scan hands over exactly the held entities,
      other than the observer, that it sees. */
  lemma {:induction false} IntendedScanExact(t: TwoDimensional, world: World, g: Guid)
    requires Valid(t) && Consistent(t, world)
    ensures forall o :: o in Candidates(t, world, g, IntendedBounds(t, world(g))) <==>
              Held(t, o) && o != g && Sees(world(g), world(o))
  {
    var b := IntendedBounds(t, world(g));
    forall o | Held(t, o) && o != g && Sees(world(g), world(o))
      ensures o in Candidates(t, world, g, b)
    {
      CoveringScanFindsAll(t, world, g, b, o);
    }
    forall o | o in Candidates(t, world, g, b)
      ensures Held(t, o) && o != g && Sees(world(g), world(o))
    {
      var w, h :| b.sw <= w < b.ew && b.sh <= h < b.eh && IsCell(t, w, h) && o in t.areas[w][h]
                  && CellPasses(t, world(g), w, h) && o != g && Sees(world(g), world(o));
    }
  }
}
