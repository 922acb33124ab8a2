/** Axis aligned bounding boxes: half-open, the upper corner being the next number after the largest coordinate. */
module BoundingBox {
  import opened Space

  function Lower(points: seq<Point>): Vec
    requires |points| > 0
  {
    var v := points[|points| - 1].pos;
    if |points| == 1 then v else
      var m := Lower(points[..|points| - 1]);
      Vec(if v.x < m.x then v.x else m.x, if v.y < m.y then v.y else m.y, if v.z < m.z then v.z else m.z)
  }

  function Upper(points: seq<Point>): Vec
    requires |points| > 0
  {
    var v := points[|points| - 1].pos;
    if |points| == 1 then v else
      var m := Upper(points[..|points| - 1]);
      Vec(if v.x >= m.x then v.x else m.x, if v.y >= m.y then v.y else m.y, if v.z >= m.z then v.z else m.z)
  }

  predicate AtMost(a: Vec, b: Vec) {
    a.x <= b.x && a.y <= b.y && a.z <= b.z
  }

  /** The bounds are bounds of every point. */
  lemma {:induction false} BoundsHold(points: seq<Point>, k: nat)
    requires k < |points|
    ensures AtMost(Lower(points), points[k].pos) && AtMost(points[k].pos, Upper(points))
  {
    if k < |points| - 1 {
      BoundsHold(points[..|points| - 1], k);
    }
  }

  /** Every bound is a coordinate of some point. */
  lemma {:induction false} BoundsAttained(points: seq<Point>)
    requires |points| > 0
    ensures exists k :: 0 <= k < |points| && Lower(points).x == points[k].pos.x
    ensures exists k :: 0 <= k < |points| && Lower(points).y == points[k].pos.y
    ensures exists k :: 0 <= k < |points| && Lower(points).z == points[k].pos.z
    ensures exists k :: 0 <= k < |points| && Upper(points).x == points[k].pos.x
    ensures exists k :: 0 <= k < |points| && Upper(points).y == points[k].pos.y
    ensures exists k :: 0 <= k < |points| && Upper(points).z == points[k].pos.z
  {
    var n := |points| - 1;
    if n > 0 {
      BoundsAttained(points[..n]);
    }
    assert points[n] in points;
  }

  /** The half-open box of some points contains them. */
  lemma BoxHoldsPoints(points: seq<Point>, next: real -> real, min: Vec, max: Vec)
    requires |points| > 0 && forall x :: next(x) > x
    requires min == Lower(points) && max == Vec(next(Upper(points).x), next(Upper(points).y), next(Upper(points).z))
    ensures forall p :: p in points ==> InRange(min, max, p.pos)
  {
    forall p | p in points
      ensures InRange(min, max, p.pos)
    {
      var k :| 0 <= k < |points| && points[k] == p;
      BoundsHold(points, k);
      var u := Upper(points);
      assert next(u.x) > u.x && next(u.y) > u.y && next(u.z) > u.z;
    }
  }

  class Aabb {
    const next: real -> real
    var min: Vec
    var max: Vec

    /** The half-open box. */
    predicate Contains(v: Vec)
      reads this
    {
      InRange(min, max, v)
    }

    constructor (points: seq<Point>, next: real -> real)
      requires |points| > 0
      ensures this.next == next && min == Lower(points)
      ensures var u := Upper(points); max == Vec(next(u.x), next(u.y), next(u.z))
    {
      var first := points[0].pos;
      var lo, hi := first, first;
      for i := 0 to |points|
        invariant i == 0 ==> lo == hi == first
        invariant i > 0 ==> lo == Lower(points[..i]) && hi == Upper(points[..i])
      {
        var p := points[i].pos;
        assert points[..i + 1][..i] == points[..i];
        if p.x < lo.x { lo := lo.(x := p.x); }
        if p.x >= hi.x { hi := hi.(x := p.x); }
        if p.y < lo.y { lo := lo.(y := p.y); }
        if p.y >= hi.y { hi := hi.(y := p.y); }
        if p.z < lo.z { lo := lo.(z := p.z); }
        if p.z >= hi.z { hi := hi.(z := p.z); }
      }
      assert points[..|points|] == points;
      this.next := next;
      min := lo;
      max := Vec(next(hi.x), next(hi.y), next(hi.z));
    }

    /** Extends the box to a point.  A coordinate changes only where the point is not inside. */
    method Update(p: Vec) returns (changed: bool)
      requires forall x :: next(x) > x
      modifies this
      ensures min == ExtendedMin(old(min), p) && max == ExtendedMax(next, old(max), p)
      ensures changed == !old(Contains(p))
      // each coordinate by itself
      ensures min.x == (if p.x < old(min.x) then p.x else old(min.x)) &&
        min.y == (if p.y < old(min.y) then p.y else old(min.y)) && min.z == if p.z < old(min.z) then p.z else old(min.z)
      ensures max.x == (if p.x >= old(max.x) then next(p.x) else old(max.x)) &&
        max.y == (if p.y >= old(max.y) then next(p.y) else old(max.y)) &&
        max.z == if p.z >= old(max.z) then next(p.z) else old(max.z)
      ensures Contains(p) && AtMost(min, old(min)) && AtMost(old(max), max)
      ensures !changed ==> min == old(min) && max == old(max)
    {
      hide AtMost;
      var lox, hix, x0, x1 := Extend(min.x, max.x, p.x);
      var loy, hiy, y0, y1 := Extend(min.y, max.y, p.y);
      var loz, hiz, z0, z1 := Extend(min.z, max.z, p.z);
      var oldMax := max;
      min := Vec(lox, loy, loz);
      max := Vec(if x1 then next(hix) else hix, if y1 then next(hiy) else hiy, if z1 then next(hiz) else hiz);
      BoxGrew(next, old(min), oldMax, p, min, max);
      return x0 || y0 || z0 || x1 || y1 || z1;
    }

    /** One coordinate of the box: the bounds, and which of them moved. */
    static method Extend(lower: real, upper: real, c: real) returns (lo: real, hi: real, below: bool, above: bool)
      ensures lo == Min(c, lower) && below == (c < lower) && above == (c >= upper) && hi == if above then c else upper
    {
      lo, hi, below, above := lower, upper, false, false;
      if c < lo {
        lo := c;
        below := true;
      }
      if c >= hi {
        hi := c;
        above := true;
      }
    }
  }

  lemma BoxGrew(next: real -> real, min: Vec, max: Vec, p: Vec, min': Vec, max': Vec)
    requires forall x :: next(x) > x
    requires min' == ExtendedMin(min, p) && max' == ExtendedMax(next, max, p)
    ensures InRange(min', max', p) && AtMost(min', min) && AtMost(max, max')
  {
    assert next(p.x) > p.x && next(p.y) > p.y && next(p.z) > p.z;
  }

  /** The corners of a box that is extended to a point. */
  function ExtendedMin(min: Vec, p: Vec): Vec {
    Vec(Min(p.x, min.x), Min(p.y, min.y), Min(p.z, min.z))
  }

  function ExtendedMax(next: real -> real, max: Vec, p: Vec): Vec {
    Vec(if p.x < max.x then max.x else next(p.x), if p.y < max.y then max.y else next(p.y),
        if p.z < max.z then max.z else next(p.z))
  }

  function Min(a: real, b: real): real {
    if a < b then a else b
  }
}
