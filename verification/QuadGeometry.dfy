/** Squares, points and distances of the quadtree, with exact real coordinates. */
module QuadGeometry {
  import opened Common
  import opened QuadCells

  /** A point of the plane; id stands for the identity of the pointed-to object. */
  datatype Point = Point(x: real, y: real, id: nat)

  datatype Corner = Corner(x: real, y: real)

  /** The half-open square [ll.x, ur.x) x [ll.y, ur.y). */
  datatype Square = Square(ll: Corner, ur: Corner) {

    predicate Contains(p: Point) {
      ll.x <= p.x < ur.x && ll.y <= p.y < ur.y
    }

    function Side(): real {
      ur.x - ll.x
    }

    predicate Even() {
      ur.x - ll.x == ur.y - ll.y
    }

    function Mid(): Corner {
      Corner(ll.x + (ur.x - ll.x) / 2.0, ll.y + (ur.y - ll.y) / 2.0)
    }

    /** The quarter of the square in the given quadrant. */
    function Part(q: Quadrant): Square {
      match q
      case NE => Square(Mid(), ur)
      case NW => Square(Corner(ll.x, Mid().y), Corner(Mid().x, ur.y))
      case SW => Square(ll, Mid())
      case SE => Square(Corner(Mid().x, ll.y), Corner(ur.x, Mid().y))
    }
  }

  /** The square of cell c when the whole grid is laid over root. */
  function SquareOf(root: Square, c: Cell): Square {
    if c.Root? then root else SquareOf(root, c.father).Part(c.quadrant)
  }

  /** Width of the cells of depth d. */
  function Width(root: Square, d: nat): real {
    root.Side() / Pow2(d) as real
  }

  function GridLine(origin: real, i: nat, width: real): real {
    origin + i as real * width
  }

  /** In arithmetic: the square of the cell in column i and row j of the grid of depth d is shifted by
      i and j times the width side / 2^d. */
  lemma {:induction false} SquareOfArithmetic(root: Square, c: Cell)
    requires root.Even()
    ensures var w := Width(root, Depth(c));
            SquareOf(root, c).ll == Corner(GridLine(root.ll.x, Col(c), w), GridLine(root.ll.y, Row(c), w))
    ensures var w := Width(root, Depth(c));
            SquareOf(root, c).ur == Corner(GridLine(root.ll.x, Col(c) + 1, w), GridLine(root.ll.y, Row(c) + 1, w))
  {
    hide Width, GridLine;
    RootInGrid(root);
    if c.Quarter? {
      SquareOfArithmetic(root, c.father);
      WidthHalves(root, Depth(c));
      HalfIndex(root.ll.x, Col(c.father), Width(root, Depth(c)), Width(root, Depth(c.father)));
      HalfIndex(root.ll.y, Row(c.father), Width(root, Depth(c)), Width(root, Depth(c.father)));
    }
  }

  lemma RootInGrid(root: Square)
    requires root.Even()
    ensures var w := Width(root, 0);
            root.ll == Corner(GridLine(root.ll.x, 0, w), GridLine(root.ll.y, 0, w)) &&
            root.ur == Corner(GridLine(root.ll.x, 1, w), GridLine(root.ll.y, 1, w))
  {
    assert Width(root, 0) == root.Side();
  }

  lemma WidthHalves(root: Square, d: nat)
    requires d > 0
    ensures Width(root, d - 1) == 2.0 * Width(root, d)
  {
    HalfStep(root.Side(), d);
  }

  lemma HalfStep(side: real, d: nat)
    requires d > 0
    ensures side / Pow2(d - 1) as real == 2.0 * (side / Pow2(d) as real)
  {
    var p := Pow2(d - 1) as real;
    assert Pow2(d) as real == 2.0 * p;
    assert side / (2.0 * p) * (2.0 * p) == side;
    assert (2.0 * (side / (2.0 * p))) * p == side;
    assert 2.0 * (side / (2.0 * p)) == side / p;
  }

  /** One axis of a halving: the i-th interval of width t, cut in half. */
  lemma HalfIndex(x0: real, i: nat, s: real, t: real)
    requires t == 2.0 * s
    ensures GridLine(x0, i, t) == GridLine(x0, 2 * i, s)
    ensures GridLine(x0, i + 1, t) == GridLine(x0, 2 * i + 2, s)
    ensures GridLine(x0, i, t) + (GridLine(x0, i + 1, t) - GridLine(x0, i, t)) / 2.0 == GridLine(x0, 2 * i + 1, s)
  {
    var h := i as real;
    assert h * t == 2.0 * h * s;
    assert (h + 1.0) * t == (2.0 * h + 2.0) * s;
  }

  lemma PartContains(sq: Square, p: Point, q: Quadrant)
    ensures sq.Part(q).Contains(p) && sq.Even() ==> sq.Contains(p)
    ensures forall r :: sq.Part(q).Contains(p) && sq.Part(r).Contains(p) ==> q == r
    ensures sq.Even() ==> sq.Part(q).Even() && sq.Part(q).Side() == sq.Side() / 2.0
  {
  }

  /** The four quarters cover the square. */
  function PartWith(sq: Square, p: Point): (q: Quadrant)
    requires sq.Contains(p)
    ensures sq.Part(q).Contains(p)
  {
    if p.x >= sq.Mid().x then (if p.y >= sq.Mid().y then NE else SE) else (if p.y >= sq.Mid().y then NW else SW)
  }

  lemma SquareOfEven(root: Square, c: Cell)
    requires root.Even()
    ensures SquareOf(root, c).Even()
  {
    if c.Quarter? {
      SquareOfEven(root, c.father);
    }
  }

  lemma SquareOfFather(root: Square, c: Cell, p: Point)
    requires root.Even() && c.Quarter? && SquareOf(root, c).Contains(p)
    ensures SquareOf(root, c.father).Contains(p)
  {
    SquareOfEven(root, c.father);
    PartContains(SquareOf(root, c.father), p, c.quadrant);
  }

  lemma {:induction false} SquareOfAncestor(root: Square, c: Cell, top: Cell, p: Point)
    requires root.Even() && Under(c, top) && SquareOf(root, c).Contains(p)
    ensures SquareOf(root, top).Contains(p)
  {
    if c != top {
      SquareOfFather(root, c, p);
      SquareOfAncestor(root, c.father, top, p);
    }
  }

  /** Squares of equal depth are disjoint. */
  lemma {:induction false} SquaresDisjoint(root: Square, a: Cell, b: Cell, p: Point)
    requires root.Even() && Depth(a) == Depth(b)
    requires SquareOf(root, a).Contains(p) && SquareOf(root, b).Contains(p)
    ensures a == b
  {
    if a.Quarter? {
      SquareOfFather(root, a, p);
      SquareOfFather(root, b, p);
      SquaresDisjoint(root, a.father, b.father, p);
      PartContains(SquareOf(root, a.father), p, a.quadrant);
    }
  }

  /** Overlapping squares are nested. */
  lemma {:induction false} SquaresNested(root: Square, a: Cell, b: Cell, p: Point)
    requires root.Even() && SquareOf(root, a).Contains(p) && SquareOf(root, b).Contains(p)
    ensures Under(a, b) || Under(b, a)
    decreases Depth(a) + Depth(b)
  {
    if Depth(a) == Depth(b) {
      SquaresDisjoint(root, a, b, p);
    } else if Depth(a) > Depth(b) {
      SquareOfFather(root, a, p);
      SquaresNested(root, a.father, b, p);
      if Under(b, a.father) {
        UnderIsDeeper(b, a.father);
      }
    } else {
      SquareOfFather(root, b, p);
      SquaresNested(root, a, b.father, p);
      if Under(a, b.father) {
        UnderIsDeeper(a, b.father);
      }
    }
  }

  /** Leaves have disjoint squares, however deep they are. */
  lemma LeavesDisjoint(root: Square, inner: set<Cell>, a: Cell, b: Cell, p: Point)
    requires root.Even() && IsShape(inner) && IsLeaf(inner, a) && IsLeaf(inner, b)
    requires SquareOf(root, a).Contains(p) && SquareOf(root, b).Contains(p)
    ensures a == b
  {
    SquaresNested(root, a, b, p);
    if a != b {
      if Under(a, b) {
        TopInner(inner, a, b);
      } else {
        TopInner(inner, b, a);
      }
    }
  }

  /** Every point of the root square lies in the square of some leaf. */
  lemma {:induction false} LeafAround(root: Square, inner: set<Cell>, c: Cell, p: Point) returns (leaf: Cell)
    requires Exists(inner, c) && SquareOf(root, c).Contains(p)
    ensures IsLeaf(inner, leaf) && Under(leaf, c) && SquareOf(root, leaf).Contains(p)
    decreases set x | x in inner && Depth(x) >= Depth(c)
  {
    leaf := c;
    if c in inner {
      var next := Quarter(c, PartWith(SquareOf(root, c), p));
      ghost var deep := set x | x in inner && Depth(x) >= Depth(c);
      ghost var deeper := set x | x in inner && Depth(x) >= Depth(next);
      assert deeper <= deep && c in deep && c !in deeper;
      leaf := LeafAround(root, inner, next, p);
      QuarterIsUnder(leaf, c, next.quadrant);
    }
  }

  // ---- closeness ----

  function SqrDist(p: Point, q: Point): real {
    (p.x - q.x) * (p.x - q.x) + (p.y - q.y) * (p.y - q.y)
  }

  /** Two points that insertion takes for the same point. */
  predicate Close(p: Point, q: Point) {
    SqrDist(p, q) < EPSILON
  }

  lemma CloseIsSymmetric(p: Point, q: Point)
    ensures Close(p, q) <==> Close(q, p)
    ensures Close(p, p)
  {
    assert (p.x - q.x) * (p.x - q.x) == (q.x - p.x) * (q.x - p.x);
    assert (p.y - q.y) * (p.y - q.y) == (q.y - p.y) * (q.y - p.y);
  }

  lemma CloseInCoordinates(p: Point, q: Point)
    ensures Close(p, q) <==> (p.x - q.x) * (p.x - q.x) + (p.y - q.y) * (p.y - q.y) < EPSILON
  {
  }

  /** The machine epsilon is 2^-52. */
  lemma EpsilonIsPower()
    ensures EPSILON * Pow2(52) as real == 1.0
  {
    hide Pow2;
    Pow2Of26();
    Pow2Sum(26, 26);
  }

  lemma Pow2Of26()
    ensures Pow2(26) == 67108864
  {
    assert Pow2(13) == 8192;
    Pow2Sum(13, 13);
  }

  lemma {:induction false} Pow2Sum(a: nat, b: nat)
    ensures Pow2(a + b) == Pow2(a) * Pow2(b)
  {
    if b > 0 {
      Pow2Sum(a, b - 1);
      assert Pow2(a + b) == 2 * Pow2(a + (b - 1));
    }
  }

  /** Points that differ by 2^-26 or more in x or in y are never close, and points that differ by less than
      2^-27 in both always are. */
  lemma CloseBounds(p: Point, q: Point)
    ensures !(-GAP < p.x - q.x < GAP) || !(-GAP < p.y - q.y < GAP) ==> !Close(p, q)
    ensures -GAP / 2.0 < p.x - q.x < GAP / 2.0 && -GAP / 2.0 < p.y - q.y < GAP / 2.0 ==> Close(p, q)
  {
    var a, b := p.x - q.x, p.y - q.y;
    assert GAP * GAP == EPSILON;
    assert SqrDist(p, q) == a * a + b * b;
    assert a * a >= 0.0 && b * b >= 0.0;
    if !(-GAP < a < GAP) {
      SquareAbove(a, GAP);
    } else if !(-GAP < b < GAP) {
      SquareAbove(b, GAP);
    } else if -GAP / 2.0 < a < GAP / 2.0 && -GAP / 2.0 < b < GAP / 2.0 {
      var half := GAP / 2.0;
      SquareBound(a, half);
      SquareBound(b, half);
      assert half * half == EPSILON / 4.0;
    }
  }

  /** 2^-26. */
  const GAP: real := 1.0 / 67108864.0

  lemma SquareAbove(a: real, side: real)
    requires side > 0.0 && !(-side < a < side)
    ensures a * a >= side * side
  {
    if a >= side {
      assert (a - side) * (a + side) >= 0.0;
    } else {
      assert (-a - side) * (side - a) >= 0.0;
    }
    assert (a - side) * (a + side) == a * a - side * side;
  }

  /** How many times a square of this side can still be halved before all its points are close:
      the measure by which splitting terminates. */
  function Halvings(side: real): nat {
    assert side * side >= 0.0;
    (2.0 * side * side / EPSILON).Floor
  }

  lemma HalvingsDecrease(side: real)
    ensures Halvings(side / 2.0) <= Halvings(side)
    ensures 2.0 * side * side > EPSILON ==> Halvings(side / 2.0) < Halvings(side)
  {
    var half := side / 2.0;
    assert half * half == side * side / 4.0;
    var v := 2.0 * side * side / EPSILON;
    assert 2.0 * half * half / EPSILON == v / 4.0;
  }

  lemma FartherThanSide(a: real, b: real, side: real)
    requires -side < a < side && -side < b < side
    ensures a * a + b * b < 2.0 * side * side
  {
    SquareBound(a, side);
    SquareBound(b, side);
  }

  lemma SquareBound(a: real, side: real)
    requires -side < a < side
    ensures a * a < side * side
  {
    assert (side - a) * (side + a) > 0.0;
    assert (side - a) * (side + a) == side * side - a * a;
  }

  /** Two points that are not close do not fit into an arbitrarily small square. */
  lemma DistinctPointsNeedRoom(sq: Square, p: Point, q: Point)
    requires sq.Even() && sq.Contains(p) && sq.Contains(q) && !Close(p, q)
    ensures 2.0 * sq.Side() * sq.Side() > EPSILON
  {
    FartherThanSide(p.x - q.x, p.y - q.y, sq.Side());
  }
}
