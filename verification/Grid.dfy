/** A regular grid of cells over a point set, and its epsilon query. */
module Grid {
  import opened Common
  import opened Space
  import opened BoundingBox

  datatype Coords = Coords(x: nat, y: nat, z: nat)

  /** The lexicographic order of arrays. */
  predicate LexLess(a: Coords, b: Coords) {
    a.x < b.x || (a.x == b.x && (a.y < b.y || (a.y == b.y && a.z < b.z)))
  }

  predicate Below(a: Coords, b: Coords) {
    a.x < b.x && a.y < b.y && a.z < b.z
  }

  predicate Between(lo: Coords, c: Coords, hi: Coords) {
    lo.x <= c.x <= hi.x && lo.y <= c.y <= hi.y && lo.z <= c.z <= hi.z
  }

  // ---- one axis ----

  /** One axis of the grid: its half-open extent, the number of cells and their size. */
  datatype Axis = Axis(min: real, max: real, n: nat, step: real, nextStep: real) {

    /** The size of the cells covers the extent. */
    predicate Valid() {
      n >= 1 && 0.0 < step < nextStep && max - min < n as real * step
    }

    /** The cell of a coordinate.  The distance is rounded down before it is divided. */
    function Cell(x: real): (c: nat)
      requires Valid()
      ensures c < n
    {
      if x < min then 0
      else if x >= max then n - 1
      else
        CellInRange(x);
        ((x - min).Floor as real / nextStep).Floor
    }

    lemma CellInRange(x: real)
      requires Valid() && min <= x < max
      ensures 0 <= ((x - min).Floor as real / nextStep).Floor < n
    {
      ProductMonotone(step, nextStep, n as real);
      QuotientBelow((x - min).Floor as real, nextStep, n as real);
    }

    /** The distance from the lower end, rounded down, lies in the cell: rounding comes before dividing. */
    lemma CellInCoordinates(x: real)
      requires Valid() && min <= x < max
      ensures Cell(x) as real * nextStep <= (x - min).Floor as real < Cell(x) as real * nextStep + nextStep
    {
      CellInRange(x);
      var f := (x - min).Floor as real;
      var q := f / nextStep;
      var c := q.Floor as real;
      RoundedQuotient(f, nextStep, q, c, c + 1.0, c + 1.0 - q);
    }

    lemma CellMonotone(x: real, y: real)
      requires Valid() && x <= y
      ensures Cell(x) <= Cell(y)
    {
      if min <= x && y < max {
        var f, g := (x - min).Floor as real, (y - min).Floor as real;
        FloorMonotone(x - min, y - min);
        QuotientMonotone(f, g, nextStep);
        FloorMonotone(f / nextStep, g / nextStep);
      }
    }
  }

  lemma RoundedQuotient(f: real, s: real, q: real, c: real, d: real, gap: real)
    requires s > 0.0 && q * s == f && c <= q < d && d == c + 1.0 && gap == d - q
    ensures c * s <= f < c * s + s
  {
    ProductPositive(q - c, gap, s);
    assert (q - c) * s == q * s - c * s;
    assert d * s == c * s + s;
    assert gap * s == d * s - q * s;
  }

  lemma ProductPositive(a: real, b: real, s: real)
    requires a >= 0.0 && b > 0.0 && s > 0.0
    ensures a * s >= 0.0 && b * s > 0.0
  {
  }

  /** The cells together are as long as the number next to the extent, but never shorter than the machine epsilon. */
  ghost predicate IsAxis(a: Axis, min: real, max: real, n: nat, next: real -> real) {
    a.min == min && a.max == max && a.n == n && a.nextStep == next(a.step) &&
    n as real * a.step == if next(max - min) >= EPSILON then next(max - min) else EPSILON
  }

  lemma AxisOfIsAxis(min: real, max: real, n: nat, next: real -> real)
    requires n >= 1 && min <= max && forall x :: next(x) > x
    ensures IsAxis(AxisOf(min, max, n, next), min, max, n, next)
  {
    var delta := next(max - min);
    assert delta > max - min;
    var d := if -EPSILON < delta < EPSILON then EPSILON else delta;
    QuotientPositive(d, n as real);
  }

  /** The axis for an extent and a number of cells. */
  function AxisOf(min: real, max: real, n: nat, next: real -> real): Axis
    requires n >= 1
  {
    var delta := next(max - min);
    var d := if -EPSILON < delta < EPSILON then EPSILON else delta;
    Axis(min, max, n, d / n as real, next(d / n as real))
  }

  lemma AxisOfValid(min: real, max: real, n: nat, next: real -> real)
    requires n >= 1 && min <= max && forall x :: next(x) > x
    ensures AxisOf(min, max, n, next).Valid()
  {
    var a := AxisOf(min, max, n, next);
    assert next(max - min) > max - min;
    var delta := next(max - min);
    var d := if -EPSILON < delta < EPSILON then EPSILON else delta;
    QuotientPositive(d, n as real);
    assert next(a.step) > a.step;
  }

  lemma QuotientPositive(d: real, n: real)
    requires d > 0.0 && n > 0.0
    ensures d / n > 0.0 && n * (d / n) == d
  {
  }

  lemma FloorMonotone(a: real, b: real)
    requires a <= b
    ensures a.Floor <= b.Floor
  {
  }

  lemma QuotientMonotone(a: real, b: real, s: real)
    requires a <= b && s > 0.0
    ensures a / s <= b / s
  {
    var q, r := a / s, b / s;
    assert q * s == a && r * s == b;
    assert q > r ==> q * s > r * s;
  }

  lemma QuotientBelow(f: real, s: real, n: real)
    requires 0.0 <= f < n * s && s > 0.0
    ensures 0.0 <= f / s < n
  {
    var q := f / s;
    assert q * s == f;
    assert q >= n ==> q * s >= n * s;
    assert q < 0.0 ==> q * s < 0.0;
  }

  lemma ProductMonotone(a: real, b: real, n: real)
    requires a <= b && n >= 0.0
    ensures n * a <= n * b
  {
    assert n * (b - a) >= 0.0;
  }

  // ---- the lattice of cells ----

  datatype Lattice = Lattice(x: Axis, y: Axis, z: Axis) {

    predicate Valid() {
      x.Valid() && y.Valid() && z.Valid()
    }

    function Steps(): Coords {
      Coords(x.n, y.n, z.n)
    }

    function GridCoords(v: Vec): (c: Coords)
      requires Valid()
      ensures Below(c, Steps())
    {
      Coords(x.Cell(v.x), y.Cell(v.y), z.Cell(v.z))
    }

    /** The position of a cell in the linear array of cells. */
    function Index(c: Coords): nat {
      c.x + c.y * x.n + c.z * (x.n * y.n)
    }

    /** Different cells have different positions, all of them inside the array. */
    lemma IndexInjective(c: Coords, d: Coords)
      requires Below(c, Steps()) && Below(d, Steps())
      ensures Index(c) < x.n * y.n * z.n
      ensures Index(c) == Index(d) <==> c == d
    {
      IndexSplit(c);
      IndexSplit(d);
      var m, l := c.y + y.n * c.z, d.y + y.n * d.z;
      if c.x + x.n * m == d.x + x.n * l {
        Digits(c.x, m, d.x, l, x.n);
        Digits(c.y, c.z, d.y, d.z, y.n);
      }
      DigitsBelow(c.y, c.z, y.n, z.n);
      DigitsBelow(c.x, m, x.n, y.n * z.n);
      Associative(x.n, y.n, z.n);
    }

    lemma IndexSplit(c: Coords)
      ensures Index(c) == c.x + x.n * (c.y + y.n * c.z)
    {
      assert x.n * (c.y + y.n * c.z) == x.n * c.y + x.n * (y.n * c.z);
      Associative(x.n, y.n, c.z);
    }

    /** Everything within eps of a point lies in the cells between those of the corners of the cube around it. */
    lemma NearIsBetween(v: Vec, eps: real, w: Vec)
      requires Valid() && eps >= 0.0 && SqrDist(w, v) < Sq(eps)
      ensures Between(GridCoords(Vec(v.x - eps, v.y - eps, v.z - eps)), GridCoords(w),
        GridCoords(Vec(v.x + eps, v.y + eps, v.z + eps)))
    {
      CloserIsInRange(w, v, eps);
      x.CellMonotone(v.x - eps, w.x);
      x.CellMonotone(w.x, v.x + eps);
      y.CellMonotone(v.y - eps, w.y);
      y.CellMonotone(w.y, v.y + eps);
      z.CellMonotone(v.z - eps, w.z);
      z.CellMonotone(w.z, v.z + eps);
    }
  }

  /** The lattice over the half-open box of points with these bounds. */
  function LatticeOf(lower: Vec, upper: Vec, nSteps: Coords, next: real -> real): (l: Lattice)
    requires nSteps.x >= 1 && nSteps.y >= 1 && nSteps.z >= 1
    ensures l.Steps() == nSteps
  {
    Lattice(AxisOf(lower.x, next(upper.x), nSteps.x, next), AxisOf(lower.y, next(upper.y), nSteps.y, next),
            AxisOf(lower.z, next(upper.z), nSteps.z, next))
  }

  lemma Associative(a: nat, b: nat, c: nat)
    ensures a * (b * c) == a * b * c == c * (a * b)
  {
  }

  lemma Digits(a: nat, b: nat, a': nat, b': nat, n: nat)
    requires a < n && a' < n && a + n * b == a' + n * b'
    ensures a == a' && b == b'
  {
    MultiplesApart(b, b', n);
    MultiplesApart(b', b, n);
  }

  lemma MultiplesApart(b: nat, b': nat, n: nat)
    ensures b < b' ==> n * b + n <= n * b'
  {
    if b < b' {
      var gap := b' - b - 1;
      assert n * b' == n * b + n + n * gap;
    }
  }

  lemma DigitsBelow(a: nat, b: nat, n: nat, m: nat)
    requires a < n && b < m
    ensures a + n * b < n * m
  {
    assert n * m >= n * (b + 1) == n * b + n;
  }

  // ---- specifications ----

  /** The points of a sequence that are strictly closer than |eps| to v, by a linear scan. */
  ghost function Scan(points: seq<Point>, v: Vec, eps: real): seq<Point> {
    if points == [] then [] else
      var p := points[|points| - 1];
      Scan(points[..|points| - 1], v, eps) + if SqrDist(p.pos, v) < Sq(eps) then [p] else []
  }

  /** In coordinates: w is strictly closer than |eps| to v. */
  predicate NearTo(w: Vec, v: Vec, eps: real) {
    (w.x - v.x) * (w.x - v.x) + (w.y - v.y) * (w.y - v.y) + (w.z - v.z) * (w.z - v.z) < eps * eps
  }

  lemma NearToIff(w: Vec, v: Vec, eps: real)
    ensures NearTo(w, v, eps) <==> SqrDist(w, v) < Sq(eps)
  {
  }

  /** A scan finds exactly the near points, as often as they are there. */
  lemma {:induction false} ScanMeans(points: seq<Point>, v: Vec, eps: real, p: Point)
    ensures multiset(Scan(points, v, eps))[p] == if NearTo(p.pos, v, eps) then multiset(points)[p] else 0
  {
    NearToIff(p.pos, v, eps);
    hide SqrDist, Sq, NearTo;
    if points != [] {
      var n := |points| - 1;
      ScanMeans(points[..n], v, eps, p);
      assert points == points[..n] + [points[n]];
    }
  }

  /** The points of a sequence that lie in a set of cells. */
  ghost function InCells(l: Lattice, points: seq<Point>, cells: set<Coords>): seq<Point>
    requires l.Valid()
    ensures forall p :: p in InCells(l, points, cells) ==> p in points
  {
    if points == [] then [] else
      var p := points[|points| - 1];
      InCells(l, points[..|points| - 1], cells) + if l.GridCoords(p.pos) in cells then [p] else []
  }

  lemma {:induction false} OneMoreCell(l: Lattice, points: seq<Point>, cells: set<Coords>, c: Coords, v: Vec, eps: real)
    requires l.Valid() && c !in cells
    ensures multiset(Scan(InCells(l, points, cells + {c}), v, eps)) ==
            multiset(Scan(InCells(l, points, cells), v, eps)) + multiset(Scan(InCells(l, points, {c}), v, eps))
  {
    if points != [] {
      var front := points[..|points| - 1];
      OneMoreCell(l, front, cells, c, v, eps);
      ScanStep(l, points, cells + {c}, v, eps);
      ScanStep(l, points, cells, v, eps);
      ScanStep(l, points, {c}, v, eps);
    }
  }

  lemma ScanStep(l: Lattice, points: seq<Point>, cells: set<Coords>, v: Vec, eps: real)
    requires l.Valid() && points != []
    ensures var p := points[|points| - 1];
      Scan(InCells(l, points, cells), v, eps) == Scan(InCells(l, points[..|points| - 1], cells), v, eps) +
        if l.GridCoords(p.pos) in cells && SqrDist(p.pos, v) < Sq(eps) then [p] else []
  {
    hide Scan, Lattice.GridCoords, SqrDist, Sq;
    var p := points[|points| - 1];
    var some := InCells(l, points[..|points| - 1], cells);
    ScanAppend(some, p, v, eps);
    assert some + [] == some;
    assert Scan(some, v, eps) + [] == Scan(some, v, eps);
  }

  lemma ScanAppend(points: seq<Point>, p: Point, v: Vec, eps: real)
    ensures Scan(points + [p], v, eps) == Scan(points, v, eps) + if SqrDist(p.pos, v) < Sq(eps) then [p] else []
  {
    hide SqrDist, Sq;
    assert (points + [p])[..|points|] == points;
  }

  /** A scan of the cells around a point finds what a scan of all points finds. */
  lemma {:induction false} ScanOfCells(l: Lattice, points: seq<Point>, cells: set<Coords>, v: Vec, eps: real)
    requires l.Valid() && forall p :: p in points && SqrDist(p.pos, v) < Sq(eps) ==> l.GridCoords(p.pos) in cells
    ensures Scan(InCells(l, points, cells), v, eps) == Scan(points, v, eps)
  {
    if points != [] {
      ScanOfCells(l, points[..|points| - 1], cells, v, eps);
      ScanStep(l, points, cells, v, eps);
    }
  }

  // ---- the grid ----

  class Grid {
    const lattice: Lattice
    const cells: array<seq<Point>>
    ghost const points: seq<Point>

    /** Every cell holds the points that lie in it, in the order they were given. */
    ghost predicate Valid()
      reads cells
    {
      lattice.Valid() && cells.Length == lattice.x.n * lattice.y.n * lattice.z.n &&
      forall c: Coords :: Below(c, lattice.Steps()) ==> CellHolds(c, points)
    }

    ghost predicate CellHolds(c: Coords, points: seq<Point>)
      reads cells
      requires lattice.Valid()
    {
      lattice.Index(c) < cells.Length && cells[lattice.Index(c)] == InCells(lattice, points, {c})
    }

    /** The grid with the given numbers of cells over the bounding box of the points. */
    constructor (points: seq<Point>, nSteps: Coords, next: real -> real)
      requires |points| > 0 && nSteps.x >= 1 && nSteps.y >= 1 && nSteps.z >= 1 && forall x :: next(x) > x
      ensures Valid() && this.points == points && fresh(cells)
      ensures lattice == LatticeOf(Lower(points), Upper(points), nSteps, next)
      ensures forall p :: p in points ==>
        lattice.x.min <= p.pos.x < lattice.x.max && lattice.y.min <= p.pos.y < lattice.y.max &&
                                          lattice.z.min <= p.pos.z < lattice.z.max
      // the three axes, written out
      ensures IsAxis(lattice.x, Lower(points).x, next(Upper(points).x), nSteps.x, next)
      ensures IsAxis(lattice.y, Lower(points).y, next(Upper(points).y), nSteps.y, next)
      ensures IsAxis(lattice.z, Lower(points).z, next(Upper(points).z), nSteps.z, next)
    {
      var box := new Aabb(points, next);
      BoxHoldsPoints(points, next, box.min, box.max);
      var l := Lattice(AxisOf(box.min.x, box.max.x, nSteps.x, next), AxisOf(box.min.y, box.max.y, nSteps.y, next),
                       AxisOf(box.min.z, box.max.z, nSteps.z, next));
      assert l == LatticeOf(Lower(points), Upper(points), nSteps, next);
      assert points[0] in points;
      AxisOfValid(box.min.x, box.max.x, nSteps.x, next);
      AxisOfValid(box.min.y, box.max.y, nSteps.y, next);
      AxisOfValid(box.min.z, box.max.z, nSteps.z, next);
      AxisOfIsAxis(box.min.x, box.max.x, nSteps.x, next);
      AxisOfIsAxis(box.min.y, box.max.y, nSteps.y, next);
      AxisOfIsAxis(box.min.z, box.max.z, nSteps.z, next);
      var nPlane := nSteps.x * nSteps.y;
      lattice := l;
      this.points := points;
      cells := new seq<Point>[nPlane * nSteps.z](_ => []);
      new;
      Fill(points);
    }

    /** Sorts the points into the cells. */
    method Fill(points: seq<Point>)
      requires lattice.Valid() && cells.Length == lattice.x.n * lattice.y.n * lattice.z.n
      requires forall i :: 0 <= i < cells.Length ==> cells[i] == []
      modifies cells
      ensures forall c: Coords :: Below(c, lattice.Steps()) ==> CellHolds(c, points)
    {
      hide Axis.Valid, Lattice.Index, InCells, Axis.Cell, LexLess;
      NothingInCells(lattice);
      EveryCell(lattice);
      for i := 0 to |points|
        invariant forall c: Coords :: Below(c, lattice.Steps()) ==> CellHolds(c, points[..i])
      {
        var c := lattice.GridCoords(points[i].pos);
        ComponentwiseIsLexicographic(c, lattice.Steps());
        if LexLess(c, lattice.Steps()) {
          var pos := lattice.Index(c);
          lattice.IndexInjective(c, c);
          cells[pos] := cells[pos] + [points[i]];
        }
        forall d: Coords | Below(d, lattice.Steps())
          ensures CellHolds(d, points[..i + 1])
        {
          lattice.IndexInjective(c, d);
          InCellStep(lattice, points, i, d);
        }
      }
      assert points[..|points|] == points;
    }

    // ---- queries ----

    /** The contents of the cells that intersect the cube with this center, cell by cell in ascending order. */
    method CellsIntersectingCube(center: Vec, halfLen: real) returns (r: seq<seq<Point>>)
      requires Valid()
      ensures var order := CellsAround(center, halfLen);
        |r| == |order| && forall i :: 0 <= i < |r| ==> r[i] == InCells(lattice, points, {order[i]})
    {
      hide InCells, Lattice.GridCoords, CellsBetween, Collected, Axis.Valid, Lattice.Index, CellHolds;
      var lo := lattice.GridCoords(Vec(center.x - halfLen, center.y - halfLen, center.z - halfLen));
      var hi := lattice.GridCoords(Vec(center.x + halfLen, center.y + halfLen, center.z + halfLen));
      ghost var order;
      r, order := CollectCells(lo, hi);
      CollectedMeans(this, r, order);
    }

    method CollectCells(lo: Coords, hi: Coords) returns (r: seq<seq<Point>>, ghost order: seq<Coords>)
      requires Valid() && lattice.Valid() && Below(lo, lattice.Steps()) && Below(hi, lattice.Steps())
      ensures Collected(r, order) && order == CellsBetween(lo, hi)
    {
      hide Valid, Lattice.Valid, InCells, Lattice.Index, Collected, Row, Rows, Slabs, CellsBetween;
      SlabsStart(lo, hi);
      NothingCollected(this);
      r, order := [], [];
      var x := lo.x;
      while x < hi.x + 1
        invariant lo.x <= x && (x <= hi.x + 1 || x == lo.x) && Collected(r, order) && order == Slabs(lo, hi, x)
      {
        var y := lo.y;
        RowsStart(lo, hi, x, y);
        while y < hi.y + 1
          invariant lo.y <= y && (y <= hi.y + 1 || y == lo.y)
          invariant Collected(r, order) && order == Slabs(lo, hi, x) + Rows(lo, hi, x, y)
        {
          r, order := CollectRow(x, y, lo, hi, r, order);
          y := y + 1;
        }
        RowsComplete(lo, hi, x, y);
        x := x + 1;
      }
      SlabsComplete(lo, hi, x);
    }

    /** The innermost loop: the cells of one row. */
    method CollectRow(x: nat, y: nat, lo: Coords, hi: Coords, before: seq<seq<Point>>, ghost cells: seq<Coords>)
      returns (r: seq<seq<Point>>, ghost order: seq<Coords>)
      requires Valid() && Collected(before, cells) && cells == Slabs(lo, hi, x) + Rows(lo, hi, x, y)
      requires lo.x <= x <= hi.x && lo.y <= y <= hi.y && Below(hi, lattice.Steps())
      ensures Collected(r, order) && order == Slabs(lo, hi, x) + Rows(lo, hi, x, y + 1)
    {
      hide InCells, Lattice.Index, Collected, Row, Rows, Slabs;
      r, order := before, cells;
      var z := lo.z;
      RowsStart(lo, hi, x, y);
      while z < hi.z + 1
        invariant lo.z <= z && (z <= hi.z + 1 || z == lo.z)
        invariant Collected(r, order) && order == Slabs(lo, hi, x) + Rows(lo, hi, x, y) + Row(x, y, lo.z, z)
      {
        var cell := CellAt(x, y, z);
        CollectedOneMore(this, r, order, cell, Coords(x, y, z));
        RowStep(Slabs(lo, hi, x) + Rows(lo, hi, x, y), x, y, lo.z, z);
        r := r + [cell];
        order := order + [Coords(x, y, z)];
        z := z + 1;
      }
      RowComplete(lo, hi, x, y, z);
    }

    /** The cells between those of the corners of the cube, in the order they are visited. */
    ghost function CellsAround(v: Vec, eps: real): seq<Coords>
      requires lattice.Valid()
    {
      CellsBetween(lattice.GridCoords(Vec(v.x - eps, v.y - eps, v.z - eps)),
        lattice.GridCoords(Vec(v.x + eps, v.y + eps, v.z + eps)))
    }

    /** The contents of the cell with these coordinates. */
    function CellAt(x: nat, y: nat, z: nat): (r: seq<Point>)
      reads cells
      requires Valid() && Below(Coords(x, y, z), lattice.Steps())
      ensures r == InCells(lattice, points, {Coords(x, y, z)})
    {
      assert CellHolds(Coords(x, y, z), points);
      cells[x + y * lattice.x.n + z * (lattice.x.n * lattice.y.n)]
    }

    ghost predicate Collected(r: seq<seq<Point>>, order: seq<Coords>)
      requires lattice.Valid()
    {
      |r| == |order| && forall i :: 0 <= i < |r| ==> r[i] == InCells(lattice, points, {order[i]})
    }

    /** The ids of the points strictly closer than |eps| in the cells around v.  They are those a linear scan over
        all points finds, as often, iff eps is not negative, or its cube does not reach into another cell, or
        there is nothing to find. */
    method GetPointsInEpsilonEnvironment(v: Vec, eps: real) returns (ids: seq<nat>)
      requires Valid()
      ensures var cells := set c | c in CellsAround(v, eps);
        multiset(ids) == multiset(IdsOf(Scan(InCells(lattice, points, cells), v, eps)))
      ensures multiset(ids) == multiset(IdsOf(Scan(points, v, eps))) <==> FindsAll(lattice, points, v, eps)
      // in coordinates: only ids of near points, and all of them where eps is not negative
      ensures NearOnly(points, v, eps, ids) && (eps >= 0.0 ==> NearAll(points, v, eps, ids))
    {
      hide NearOnly, NearAll, SqrDist, Sq, Scan, InCells, Lattice.GridCoords, CellsBetween, Between, IdsOf, FindsAll;
      var vecs := CellsIntersectingCube(v, eps);
      ghost var order := CellsAround(v, eps);
      CellsBetweenMean(lattice.GridCoords(Vec(v.x - eps, v.y - eps, v.z - eps)),
        lattice.GridCoords(Vec(v.x + eps, v.y + eps, v.z + eps)));
      ids := [];
      ghost var found: seq<Point> := [];
      ghost var done: set<Coords> := {};
      NoCells(lattice, points, v, eps);
      for i := 0 to |vecs|
        invariant done == set c | c in order[..i]
        invariant HaveIds(ids, found)
        invariant multiset(found) == multiset(Scan(InCells(lattice, points, done), v, eps))
      {
        ids := ScanCell(vecs[i], v, eps, ids, found);
        found := found + Scan(vecs[i], v, eps);
        assert order[..i + 1] == order[..i] + [order[i]];
        OneMoreCell(lattice, points, done, order[i], v, eps);
        done := done + {order[i]};
      }
      assert order[..|order|] == order;
      IdsAre(ids, found);
      SameIds(found, Scan(InCells(lattice, points, done), v, eps));
      FindsAllIff(lattice, points, done, v, eps);
      IdsAreNear(points, InCells(lattice, points, done), v, eps, ids);
      NearAreIds(lattice, points, v, eps, ids);
    }

    ghost predicate HaveIds(ids: seq<nat>, found: seq<Point>)
      reads found
    {
      |ids| == |found| && forall i :: 0 <= i < |ids| ==> ids[i] == found[i].id
    }

    /** Appends the ids of the points of one cell that are closer than eps. */
    method ScanCell(vec: seq<Point>, v: Vec, eps: real, before: seq<nat>, ghost found: seq<Point>)
      returns (ids: seq<nat>)
      requires HaveIds(before, found)
      ensures HaveIds(ids, found + Scan(vec, v, eps))
    {
      ids := before;
      for j := 0 to |vec|
        invariant HaveIds(ids, found + Scan(vec[..j], v, eps))
      {
        assert vec[..j + 1] == vec[..j] + [vec[j]];
        ScanAppend(vec[..j], vec[j], v, eps);
        if SqrDist(vec[j].pos, v) < eps * eps {
          ids := ids + [vec[j].id];
        }
      }
      assert vec[..|vec|] == vec;
    }
  }

  lemma NothingCollected(g: Grid)
    requires g.lattice.Valid()
    ensures g.Collected([], [])
  {
  }

  lemma CollectedOneMore(g: Grid, r: seq<seq<Point>>, order: seq<Coords>, cell: seq<Point>, c: Coords)
    requires g.lattice.Valid() && g.Collected(r, order) && cell == InCells(g.lattice, g.points, {c})
    ensures g.Collected(r + [cell], order + [c])
  {
    hide InCells;
  }

  lemma CollectedMeans(g: Grid, r: seq<seq<Point>>, order: seq<Coords>)
    requires g.lattice.Valid() && g.Collected(r, order)
    ensures |r| == |order| && forall i :: 0 <= i < |r| ==> r[i] == InCells(g.lattice, g.points, {order[i]})
  {
  }

  // ---- the cells of a box ----

  /** The cells (x, y, z0) to (x, y, z1 - 1). */
  ghost function Row(x: nat, y: nat, z0: nat, z1: nat): seq<Coords> {
    if z1 <= z0 then [] else Row(x, y, z0, z1 - 1) + [Coords(x, y, z1 - 1)]
  }

  /** The rows at x in front of y1. */
  ghost function Rows(lo: Coords, hi: Coords, x: nat, y1: nat): seq<Coords> {
    if y1 <= lo.y then [] else Rows(lo, hi, x, y1 - 1) + Row(x, y1 - 1, lo.z, hi.z + 1)
  }

  /** The slabs in front of x1. */
  ghost function Slabs(lo: Coords, hi: Coords, x1: nat): seq<Coords> {
    if x1 <= lo.x then [] else Slabs(lo, hi, x1 - 1) + Rows(lo, hi, x1 - 1, hi.y + 1)
  }

  ghost function CellsBetween(lo: Coords, hi: Coords): seq<Coords> {
    Slabs(lo, hi, hi.x + 1)
  }

  lemma RowComplete(lo: Coords, hi: Coords, x: nat, y: nat, z: nat)
    requires lo.y <= y && z >= hi.z + 1 && (z == hi.z + 1 || z == lo.z)
    ensures Slabs(lo, hi, x) + Rows(lo, hi, x, y) + Row(x, y, lo.z, z) == Slabs(lo, hi, x) + Rows(lo, hi, x, y + 1)
  {
    assert Row(x, y, lo.z, z) == Row(x, y, lo.z, hi.z + 1);
    assert Rows(lo, hi, x, y + 1) == Rows(lo, hi, x, y) + Row(x, y, lo.z, hi.z + 1);
  }

  lemma RowsComplete(lo: Coords, hi: Coords, x: nat, y: nat)
    requires lo.x <= x && y >= hi.y + 1 && (y == hi.y + 1 || y == lo.y)
    ensures Slabs(lo, hi, x) + Rows(lo, hi, x, y) == Slabs(lo, hi, x + 1)
  {
    assert Rows(lo, hi, x, y) == Rows(lo, hi, x, hi.y + 1);
  }

  lemma SlabsComplete(lo: Coords, hi: Coords, x: nat)
    requires x >= hi.x + 1 && (x == hi.x + 1 || x == lo.x)
    ensures Slabs(lo, hi, x) == CellsBetween(lo, hi)
  {
  }

  lemma SlabsStart(lo: Coords, hi: Coords)
    ensures Slabs(lo, hi, lo.x) == []
  {
  }

  lemma RowsStart(lo: Coords, hi: Coords, x: nat, y: nat)
    ensures Slabs(lo, hi, x) + Rows(lo, hi, x, lo.y) == Slabs(lo, hi, x)
    ensures Slabs(lo, hi, x) + Rows(lo, hi, x, y) + Row(x, y, lo.z, lo.z) == Slabs(lo, hi, x) + Rows(lo, hi, x, y)
  {
  }

  lemma RowStep(before: seq<Coords>, x: nat, y: nat, z0: nat, z: nat)
    requires z0 <= z
    ensures before + Row(x, y, z0, z) + [Coords(x, y, z)] == before + Row(x, y, z0, z + 1)
  {
  }

  lemma {:induction false} RowMeans(x: nat, y: nat, z0: nat, z1: nat)
    ensures Distinct(Row(x, y, z0, z1)) && forall c :: c in Row(x, y, z0, z1) <==>
      c.x == x && c.y == y && z0 <= c.z < z1
  {
    if z1 > z0 {
      RowMeans(x, y, z0, z1 - 1);
      DistinctConcat(Row(x, y, z0, z1 - 1), [Coords(x, y, z1 - 1)]);
    }
  }

  lemma {:induction false} RowsMean(lo: Coords, hi: Coords, x: nat, y1: nat)
    ensures Distinct(Rows(lo, hi, x, y1))
    ensures forall c :: c in Rows(lo, hi, x, y1) <==> c.x == x && lo.y <= c.y < y1 && lo.z <= c.z <= hi.z
  {
    if y1 > lo.y {
      RowsMean(lo, hi, x, y1 - 1);
      RowMeans(x, y1 - 1, lo.z, hi.z + 1);
      DistinctConcat(Rows(lo, hi, x, y1 - 1), Row(x, y1 - 1, lo.z, hi.z + 1));
    }
  }

  lemma {:induction false} SlabsMean(lo: Coords, hi: Coords, x1: nat)
    ensures Distinct(Slabs(lo, hi, x1))
    ensures forall c :: c in Slabs(lo, hi, x1) <==> lo.x <= c.x < x1 && lo.y <= c.y <= hi.y && lo.z <= c.z <= hi.z
  {
    if x1 > lo.x {
      SlabsMean(lo, hi, x1 - 1);
      RowsMean(lo, hi, x1 - 1, hi.y + 1);
      DistinctConcat(Slabs(lo, hi, x1 - 1), Rows(lo, hi, x1 - 1, hi.y + 1));
    }
  }

  /** Every cell of the box is visited exactly once. */
  lemma CellsBetweenMean(lo: Coords, hi: Coords)
    ensures Distinct(CellsBetween(lo, hi)) && forall c :: c in CellsBetween(lo, hi) <==> Between(lo, c, hi)
  {
    SlabsMean(lo, hi, hi.x + 1);
  }

  // ---- ids ----

  ghost function IdsOf(points: seq<Point>): seq<nat>
    reads points
  {
    if points == [] then [] else IdsOf(points[..|points| - 1]) + [points[|points| - 1].id]
  }

  lemma {:induction false} IdsAre(ids: seq<nat>, points: seq<Point>)
    requires |ids| == |points| && forall i :: 0 <= i < |ids| ==> ids[i] == points[i].id
    ensures ids == IdsOf(points)
  {
    if ids != [] {
      IdsAre(ids[..|ids| - 1], points[..|points| - 1]);
    }
  }

  lemma {:induction false} IdsConcat(a: seq<Point>, b: seq<Point>)
    ensures IdsOf(a + b) == IdsOf(a) + IdsOf(b)
  {
    if b == [] {
      assert a + b == a;
    } else {
      IdsConcat(a, b[..|b| - 1]);
      assert (a + b)[..|a + b| - 1] == a + b[..|b| - 1];
    }
  }

  lemma {:induction false} IdsMean(points: seq<Point>, id: nat)
    ensures id in IdsOf(points) <==> exists p :: p in points && p.id == id
  {
    if points != [] {
      var n := |points| - 1;
      IdsMean(points[..n], id);
      assert points == points[..n] + [points[n]];
    }
  }

  /** The ids are ids of near points. */
  ghost predicate NearOnly(points: seq<Point>, v: Vec, eps: real, ids: seq<nat>)
    reads points
  {
    forall id :: id in ids ==> exists p :: p in points && p.id == id && NearTo(p.pos, v, eps)
  }

  /** The ids of all near points are there. */
  ghost predicate NearAll(points: seq<Point>, v: Vec, eps: real, ids: seq<nat>)
    reads points
  {
    forall p :: p in points && NearTo(p.pos, v, eps) ==> p.id in ids
  }

  lemma IdsAreNear(points: seq<Point>, some: seq<Point>, v: Vec, eps: real, ids: seq<nat>)
    requires multiset(ids) == multiset(IdsOf(Scan(some, v, eps))) && forall p :: p in some ==> p in points
    ensures NearOnly(points, v, eps, ids)
  {
    hide Scan, NearTo, IdsOf;
    forall id | id in ids
      ensures exists p :: p in points && p.id == id && NearTo(p.pos, v, eps)
    {
      assert id in multiset(ids);
      IdsMean(Scan(some, v, eps), id);
      var p :| p in Scan(some, v, eps) && p.id == id;
      ScanMeans(some, v, eps, p);
      assert p in multiset(Scan(some, v, eps)) && p in multiset(some);
    }
  }

  lemma NearAreIds(l: Lattice, points: seq<Point>, v: Vec, eps: real, ids: seq<nat>)
    requires l.Valid() && (multiset(ids) == multiset(IdsOf(Scan(points, v, eps))) <==> FindsAll(l, points, v, eps))
    ensures eps >= 0.0 ==> NearAll(points, v, eps, ids)
  {
    hide Scan, NearTo, IdsOf, Lattice.GridCoords;
    forall p | eps >= 0.0 && p in points && NearTo(p.pos, v, eps)
      ensures p.id in ids
    {
      ScanMeans(points, v, eps, p);
      assert p in multiset(points) && p in multiset(Scan(points, v, eps));
      IdsMean(Scan(points, v, eps), p.id);
      assert p.id in multiset(ids);
    }
  }

  lemma IdsOfMiddle(b1: seq<Point>, p: Point, b2: seq<Point>)
    ensures multiset(IdsOf(b1 + [p] + b2)) == multiset(IdsOf(b1 + b2)) + multiset{p.id}
  {
    IdsConcat(b1, b2);
    IdsConcat(b1 + [p], b2);
    IdsConcat(b1, [p]);
    assert IdsOf([p]) == [p.id];
  }

  lemma Middle(s: seq<Point>, p: Point) returns (b1: seq<Point>, b2: seq<Point>)
    requires p in multiset(s)
    ensures s == b1 + [p] + b2 && multiset(b1 + b2) == multiset(s) - multiset{p}
  {
    var i :| 0 <= i < |s| && s[i] == p;
    b1, b2 := s[..i], s[i + 1..];
    assert s == b1 + [p] + b2;
    assert multiset(s) == multiset(b1 + b2) + multiset{p};
  }

  /** Rearranged points have rearranged ids. */
  lemma {:induction false} SameIds(a: seq<Point>, b: seq<Point>)
    requires multiset(a) == multiset(b)
    ensures multiset(IdsOf(a)) == multiset(IdsOf(b))
    decreases |a|
  {
    hide IdsOf;
    if a == [] {
      assert |multiset(b)| == 0;
      assert a == b;
    } else {
      var p := a[|a| - 1];
      var a1, a2 := Middle(a, p);
      var b1, b2 := Middle(b, p);
      SameIds(a1 + a2, b1 + b2);
      IdsOfMiddle(a1, p, a2);
      IdsOfMiddle(b1, p, b2);
    }
  }

  lemma NoCells(l: Lattice, points: seq<Point>, v: Vec, eps: real)
    requires l.Valid()
    ensures Scan(InCells(l, points, {}), v, eps) == []
  {
    NothingInNoCells(l, points);
  }

  lemma {:induction false} NothingInNoCells(l: Lattice, points: seq<Point>)
    requires l.Valid()
    ensures InCells(l, points, {}) == []
  {
    if points != [] {
      NothingInNoCells(l, points[..|points| - 1]);
    }
  }

  lemma AllNearInCells(l: Lattice, points: seq<Point>, cells: set<Coords>, v: Vec, eps: real)
    requires l.Valid() && eps >= 0.0
    requires forall c :: c in cells <==>
      Between(l.GridCoords(Vec(v.x - eps, v.y - eps, v.z - eps)), c, l.GridCoords(Vec(v.x + eps, v.y + eps, v.z + eps)))
    ensures Scan(InCells(l, points, cells), v, eps) == Scan(points, v, eps)
  {
    forall p | p in points && SqrDist(p.pos, v) < Sq(eps)
      ensures l.GridCoords(p.pos) in cells
    {
      l.NearIsBetween(v, eps, p.pos);
    }
    ScanOfCells(l, points, cells, v, eps);
  }

  /** When a query finds what a linear scan finds. */
  ghost predicate FindsAll(l: Lattice, points: seq<Point>, v: Vec, eps: real)
    requires l.Valid()
  {
    eps >= 0.0 || Scan(points, v, eps) == [] ||
    l.GridCoords(Vec(v.x - eps, v.y - eps, v.z - eps)) == l.GridCoords(Vec(v.x + eps, v.y + eps, v.z + eps))
  }

  /** With a negative eps the corners of the cube change places: either both lie in one cell, which holds all near
      points, or no cell is visited. */
  lemma InvertedCube(l: Lattice, points: seq<Point>, cells: set<Coords>, v: Vec, eps: real)
    requires l.Valid() && eps < 0.0
    requires forall c :: c in cells <==>
      Between(l.GridCoords(Vec(v.x - eps, v.y - eps, v.z - eps)), c, l.GridCoords(Vec(v.x + eps, v.y + eps, v.z + eps)))
    ensures if l.GridCoords(Vec(v.x - eps, v.y - eps, v.z - eps)) == l.GridCoords(Vec(v.x + eps, v.y + eps, v.z + eps))
            then Scan(InCells(l, points, cells), v, eps) == Scan(points, v, eps)
            else Scan(InCells(l, points, cells), v, eps) == []
  {
    var hi, lo := l.GridCoords(Vec(v.x - eps, v.y - eps, v.z - eps)),
      l.GridCoords(Vec(v.x + eps, v.y + eps, v.z + eps));
    l.x.CellMonotone(v.x + eps, v.x - eps);
    l.y.CellMonotone(v.y + eps, v.y - eps);
    l.z.CellMonotone(v.z + eps, v.z - eps);
    assert lo.x <= hi.x && lo.y <= hi.y && lo.z <= hi.z;
    assert Sq(-eps) == Sq(eps);
    if lo == hi {
      forall p | p in points && SqrDist(p.pos, v) < Sq(eps)
        ensures l.GridCoords(p.pos) in cells
      {
        l.NearIsBetween(v, -eps, p.pos);
        hide Lattice.GridCoords;
        assert Between(lo, l.GridCoords(p.pos), hi);
      }
      ScanOfCells(l, points, cells, v, eps);
    } else {
      hide Lattice.GridCoords;
      assert cells == {};
      NoCells(l, points, v, eps);
    }
  }

  lemma FindsAllIff(l: Lattice, points: seq<Point>, cells: set<Coords>, v: Vec, eps: real)
    requires l.Valid()
    requires forall c :: c in cells <==>
      Between(l.GridCoords(Vec(v.x - eps, v.y - eps, v.z - eps)), c, l.GridCoords(Vec(v.x + eps, v.y + eps, v.z + eps)))
    ensures multiset(IdsOf(Scan(InCells(l, points, cells), v, eps))) == multiset(IdsOf(Scan(points, v, eps))) <==>
            FindsAll(l, points, v, eps)
  {
    hide Lattice.GridCoords, Scan, InCells, Between, IdsOf;
    if eps >= 0.0 {
      AllNearInCells(l, points, cells, v, eps);
    } else {
      InvertedCube(l, points, cells, v, eps);
      AsManyIds(Scan(points, v, eps));
      AsManyIds(Scan(InCells(l, points, cells), v, eps));
    }
  }

  lemma {:induction false} AsManyIds(points: seq<Point>)
    ensures |multiset(IdsOf(points))| == |points|
  {
    if points != [] {
      AsManyIds(points[..|points| - 1]);
    }
  }

  /** On the axis from 0 to 10 with two cells, 2 and 8 lie in different cells. */
  lemma TwoCells(next: real -> real)
    requires forall x :: x < next(x) <= x + 0.001
    ensures var a := AxisOf(0.0, next(10.0), 2, next); a.Valid() && a.Cell(2.0) == 0 && a.Cell(8.0) == 1
  {
    var a := AxisOf(0.0, next(10.0), 2, next);
    AxisOfValid(0.0, next(10.0), 2, next);
    assert 10.0 < next(10.0) <= 10.001;
    var delta := next(next(10.0) - 0.0);
    assert 10.0 < delta <= 10.002;
    assert a.step == delta / 2.0 && 5.0 < a.step <= 5.001;
    assert a.step < a.nextStep <= a.step + 0.001;
    QuotientIn(2.0, a.nextStep);
    QuotientIn(8.0, a.nextStep);
  }

  lemma QuotientIn(x: real, s: real)
    requires (x == 2.0 || x == 8.0) && 5.0 < s <= 5.002
    ensures x == 2.0 ==> 0.0 <= x / s < 1.0
    ensures x == 8.0 ==> 1.0 <= x / s < 2.0
  {
    var q := x / s;
    assert q * s == x;
  }

  lemma {:induction false} ScanFinds(points: seq<Point>, k: nat, v: Vec, eps: real)
    requires k < |points| && SqrDist(points[k].pos, v) < Sq(eps)
    ensures points[k] in Scan(points, v, eps)
  {
    if k < |points| - 1 {
      ScanFinds(points[..|points| - 1], k, v, eps);
    }
  }

  /** A grid and a query with a negative eps that misses the very point it is asked at. */
  method MissPoint(next: real -> real) returns (g: Grid, ids: seq<nat>, missed: Point)
    requires forall x :: x < next(x) <= x + 0.001
    ensures g.Valid() && missed in g.points && missed.pos == Vec(5.0, 0.0, 0.0)
    ensures multiset(ids) != multiset(IdsOf(Scan(g.points, Vec(5.0, 0.0, 0.0), -3.0)))
  {
    hide Scan, InCells, IdsOf, AxisOf, Axis.Valid, Axis.Cell;
    var p := new Point(Vec(0.0, 0.0, 0.0), 0);
    var q := new Point(Vec(10.0, 0.0, 0.0), 1);
    missed := new Point(Vec(5.0, 0.0, 0.0), 2);
    var points := [p, q, missed];
    g := new Grid(points, Coords(2, 1, 1), next);
    ThreeOnAxis(points);
    TwoCells(next);
    ScanFinds(points, 2, Vec(5.0, 0.0, 0.0), -3.0);
    ids := g.GetPointsInEpsilonEnvironment(Vec(5.0, 0.0, 0.0), -3.0);
  }

  lemma ThreeOnAxis(points: seq<Point>)
    requires |points| == 3 && points[0].pos == Vec(0.0, 0.0, 0.0) && points[1].pos == Vec(10.0, 0.0, 0.0)
    requires points[2].pos == Vec(5.0, 0.0, 0.0)
    ensures Lower(points) == Vec(0.0, 0.0, 0.0) && Upper(points) == Vec(10.0, 0.0, 0.0)
    ensures SqrDist(points[2].pos, Vec(5.0, 0.0, 0.0)) < Sq(-3.0)
  {
    assert points[..2][..1] == points[..1];
    assert Lower(points[..1]) == Upper(points[..1]) == points[0].pos;
    assert Lower(points[..2]) == points[0].pos && Upper(points[..2]) == points[1].pos;
    assert Sq(-3.0) == 9.0;
    SqrDistSelf(points[2].pos);
  }

  lemma ComponentwiseIsLexicographic(a: Coords, b: Coords)
    requires Below(a, b)
    ensures LexLess(a, b)
  {
  }

  lemma NothingInCells(l: Lattice)
    requires l.Valid()
    ensures forall cells: set<Coords> :: InCells(l, [], cells) == []
  {
  }

  lemma EveryCell(l: Lattice)
    ensures forall c: Coords :: Below(c, l.Steps()) ==> l.Index(c) < l.x.n * l.y.n * l.z.n
  {
    forall c: Coords | Below(c, l.Steps())
      ensures l.Index(c) < l.x.n * l.y.n * l.z.n
    {
      l.IndexInjective(c, c);
    }
  }

  lemma InCellStep(l: Lattice, points: seq<Point>, i: nat, d: Coords)
    requires l.Valid() && i < |points|
    ensures InCells(l, points[..i + 1], {d}) ==
            InCells(l, points[..i], {d}) + if l.GridCoords(points[i].pos) == d then [points[i]] else []
  {
    assert points[..i + 1][..i] == points[..i];
  }
}
