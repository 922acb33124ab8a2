/** Points, boxes and distances in space, with exact real coordinates. */
module Space {

  datatype Vec = Vec(x: real, y: real, z: real)

  /** A point object: its coordinates are fixed, its id can be set. */
  class Point {
    const pos: Vec
    var id: nat

    constructor (pos: Vec, id: nat)
      ensures this.pos == pos && this.id == id
    {
      this.pos := pos;
      this.id := id;
    }
  }

  function SqrDist(a: Vec, b: Vec): real {
    (a.x - b.x) * (a.x - b.x) + (a.y - b.y) * (a.y - b.y) + (a.z - b.z) * (a.z - b.z)
  }

  lemma SqrDistSymmetric(a: Vec, b: Vec)
    ensures SqrDist(a, b) == SqrDist(b, a)
  {
    assert (a.x - b.x) * (a.x - b.x) == (b.x - a.x) * (b.x - a.x);
    assert (a.y - b.y) * (a.y - b.y) == (b.y - a.y) * (b.y - a.y);
    assert (a.z - b.z) * (a.z - b.z) == (b.z - a.z) * (b.z - a.z);
  }

  lemma SqrDistSelf(a: Vec)
    ensures SqrDist(a, a) == 0.0
  {
    var z := a.x - a.x;
    assert z == a.y - a.y == a.z - a.z == 0.0;
  }

  /** The half-open range [min, max). */
  predicate InRange(min: Vec, max: Vec, v: Vec) {
    min.x <= v.x < max.x && min.y <= v.y < max.y && min.z <= v.z < max.z
  }

  /** The half-open box [ll, ur). */
  datatype Box = Box(ll: Vec, ur: Vec) {

    predicate Contains(v: Vec) {
      InRange(ll, ur, v)
    }

    predicate IsCube() {
      ur.x - ll.x == ur.y - ll.y == ur.z - ll.z
    }

    function Side(): real {
      ur.x - ll.x
    }

    function Mid(): Vec {
      Vec((ur.x + ll.x) / 2.0, (ur.y + ll.y) / 2.0, (ur.z + ll.z) / 2.0)
    }

    /** One of the eight octants of the box. */
    function Octant(east: bool, north: bool, upper: bool): Box {
      Box(Vec(if east then Mid().x else ll.x, if north then Mid().y else ll.y, if upper then Mid().z else ll.z),
          Vec(if east then ur.x else Mid().x, if north then ur.y else Mid().y, if upper then ur.z else Mid().z))
    }

    /** The octants in the order the children of a node are stored:
        north east, north west, south west, south east, first lower, then upper. */
    function Part(k: nat): Box
      requires k < 8
    {
      Octant(k % 4 == 0 || k % 4 == 3, k % 4 < 2, k >= 4)
    }

    /** The octant around a point. */
    function PartAround(v: Vec): (k: nat)
      requires Contains(v)
      ensures k < 8 && Part(k).Contains(v)
    {
      (if v.x >= Mid().x then (if v.y >= Mid().y then 0 else 3) else (if v.y >= Mid().y then 1 else 2)) +
      (if v.z >= Mid().z then 4 else 0)
    }

    /** The octants in coordinates, in the order of the children. */
    lemma PartsInCoordinates(v: Vec)
      requires Contains(v)
      ensures var e, n, u := 2.0 * v.x >= ll.x + ur.x, 2.0 * v.y >= ll.y + ur.y, 2.0 * v.z >= ll.z + ur.z;
        (Part(0).Contains(v) <==> e && n && !u) && (Part(1).Contains(v) <==> !e && n && !u) &&
        (Part(2).Contains(v) <==> !e && !n && !u) && (Part(3).Contains(v) <==> e && !n && !u) &&
        (Part(4).Contains(v) <==> e && n && u) && (Part(5).Contains(v) <==> !e && n && u) &&
        (Part(6).Contains(v) <==> !e && !n && u) && (Part(7).Contains(v) <==> e && !n && u)
    {
    }

    /** The octants partition a cube into cubes of half the side. */
    lemma PartsPartition(j: nat, k: nat, v: Vec)
      requires IsCube() && j < 8 && k < 8
      ensures Part(k).IsCube() && Part(k).Side() == Side() / 2.0
      ensures Part(k).Contains(v) ==> Contains(v)
      ensures Part(j).Contains(v) && Part(k).Contains(v) ==> j == k
    {
    }
  }

  // ---- closeness ----

  lemma SquareBound(a: real, e: real)
    requires e >= 0.0 && a * a < e * e
    ensures -e < a < e
  {
    assert a >= e ==> (a - e) * (a + e) >= 0.0;
    assert a <= -e ==> (e - a) * (-e - a) >= 0.0;
    assert (a - e) * (a + e) == a * a - e * e;
  }

  /** Points strictly closer than eps lie in each other's half-open eps-range. */
  lemma CloserIsInRange(a: Vec, b: Vec, eps: real)
    requires eps >= 0.0 && SqrDist(a, b) < Sq(eps)
    ensures InRange(Vec(b.x - eps, b.y - eps, b.z - eps), Vec(b.x + eps, b.y + eps, b.z + eps), a)
  {
    var dx, dy, dz := a.x - b.x, a.y - b.y, a.z - b.z;
    assert dx * dx >= 0.0 && dy * dy >= 0.0 && dz * dz >= 0.0;
    SquareBound(dx, eps);
    SquareBound(dy, eps);
    SquareBound(dz, eps);
  }

  lemma SumOfSquares(a: real, b: real, c: real, e: real)
    requires e > 0.0 && a * a + b * b + c * c <= e * e
    ensures -e <= a <= e && (a == e ==> b == c == 0.0)
  {
    SquareIsZero(b);
    SquareIsZero(c);
    if a < -e || a > e {
      SquareOfLarger(a, e);
    }
  }

  lemma SquareIsZero(a: real)
    ensures a * a >= 0.0 && (a * a == 0.0 ==> a == 0.0)
  {
    SqPositive(a);
    SqPositive(-a);
    assert Sq(-a) == Sq(a);
  }

  lemma SquareOfLarger(a: real, e: real)
    requires e > 0.0 && (a < -e || a > e)
    ensures a * a > e * e
  {
    if a > e {
      assert (a - e) * (a + e) > 0.0;
    } else {
      assert (-a - e) * (e - a) > 0.0;
    }
    assert (a - e) * (a + e) == a * a - e * e;
  }

  lemma SquareOfSmaller(a: real, e: real)
    requires -e < a < e
    ensures a * a < e * e
  {
    assert (e - a) * (e + a) > 0.0;
    assert (e - a) * (e + a) == e * e - a * a;
  }

  /** Two points of a cube are closer than its diagonal. */
  lemma DistanceInCube(box: Box, a: Vec, b: Vec)
    requires box.IsCube() && box.Contains(a) && box.Contains(b)
    ensures SqrDist(a, b) < 3.0 * Sq(box.Side())
  {
    SquareOfSmaller(a.x - b.x, box.Side());
    SquareOfSmaller(a.y - b.y, box.Side());
    SquareOfSmaller(a.z - b.z, box.Side());
  }

  function Sq(x: real): real {
    x * x
  }

  lemma SqPositive(x: real)
    ensures Sq(x) >= 0.0 && (x > 0.0 ==> Sq(x) > 0.0)
  {
    assert x * x >= 0.0;
    var h := x / 2.0;
    assert x > 0.0 ==> x * h > 0.0;
    assert Sq(x) == x * h + x * h;
  }

  /** How many times a cube of this side can still be halved before its diagonal is at most eps: the
      measure by which splitting terminates. */
  function Halvings(side: real, eps: real): nat
    requires eps > 0.0
  {
    SqPositive(side);
    SqPositive(eps);
    QuotientBounds(3.0 * Sq(side), Sq(eps));
    (3.0 * Sq(side) / Sq(eps)).Floor
  }

  lemma HalvingsDecrease(side: real, eps: real)
    requires eps > 0.0
    ensures Halvings(side / 2.0, eps) <= Halvings(side, eps)
    ensures 3.0 * Sq(side) > Sq(eps) ==> Halvings(side / 2.0, eps) < Halvings(side, eps)
  {
    assert 3.0 * Sq(side / 2.0) == 3.0 * Sq(side) / 4.0;
    SqPositive(side);
    SqPositive(eps);
    QuotientBounds(3.0 * Sq(side), Sq(eps));
    QuotientBounds(3.0 * Sq(side / 2.0), Sq(eps));
  }

  lemma QuotientBounds(v: real, e: real)
    requires e > 0.0 && v >= 0.0
    ensures v / e >= 0.0 && (v > e ==> v / e > 1.0) && v / 4.0 / e == v / e / 4.0
  {
    var q := v / e;
    assert q * e == v;
    assert q / 4.0 * e == v / 4.0;
  }
}
