/** The deduplicating octree: half-open cubes, leaves of bounded size, range queries. */
module OctTree {
  import opened Common
  import opened Space

  // ---- the cube of a tree ----

  /** The cube around the box from ll to ur, before it is enlarged. */
  function Equalized(ll: Vec, ur: Vec): Box {
    var dx, dy, dz := ur.x - ll.x, ur.y - ll.y, ur.z - ll.z;
    if dx >= dy && dx >= dz then
      Box(Vec(ll.x, ll.y - (dx - dy) / 2.0, ll.z - (dx - dz) / 2.0),
          Vec(ur.x, ur.y + (dx - dy) / 2.0, ur.z + (dx - dz) / 2.0))
    else if dy >= dx && dy >= dz then
      Box(Vec(ll.x - (dy - dx) / 2.0, ll.y, ll.z - (dy - dz) / 2.0),
          Vec(ur.x + (dy - dx) / 2.0, ur.y, ur.z + (dy - dz) / 2.0))
    else
      Box(Vec(ll.x - (dz - dx) / 2.0, ll.y - (dz - dy) / 2.0, ll.z),
          Vec(ur.x + (dz - dx) / 2.0, ur.y + (dz - dy) / 2.0, ur.z))
  }

  function EnlargedBound(lower: real, upper: real, eps: real): real {
    if upper - lower > 0.0 then upper + (upper - lower) * 0.000001 else upper + eps
  }

  function Enlarged(b: Box, eps: real): Box {
    Box(b.ll,
      Vec(EnlargedBound(b.ll.x, b.ur.x, eps), EnlargedBound(b.ll.y, b.ur.y, eps), EnlargedBound(b.ll.z, b.ur.z, eps)))
  }

  function EffectiveEps(eps: real): real {
    if eps == 0.0 then EPSILON else eps
  }

  /** The cube a tree for the box from ll to ur lives in. */
  function CubeAround(ll: Vec, ur: Vec, eps: real): Box {
    Enlarged(Equalized(ll, ur), EffectiveEps(eps))
  }

  /** It is a cube, and it contains the whole box with its far faces. */
  lemma CubeAroundBox(ll: Vec, ur: Vec, eps: real, v: Vec)
    requires eps >= 0.0
    ensures CubeAround(ll, ur, eps).IsCube()
    ensures ll.x <= v.x <= ur.x && ll.y <= v.y <= ur.y && ll.z <= v.z <= ur.z ==> CubeAround(ll, ur, eps).Contains(v)
  {
    var e := Equalized(ll, ur);
    assert e.ur.x - e.ll.x == e.ur.y - e.ll.y == e.ur.z - e.ll.z;
  }

  function Largest(a: real, b: real, c: real): (m: real)
    ensures m >= a && m >= b && m >= c && (m == a || m == b || m == c)
  {
    if a >= b && a >= c then a else if b >= c then b else c
  }

  /** The interval of a side w around the middle of the one from lower to upper, enlarged at its upper end by a
      millionth of w, or by the tolerance where there is no extent. */
  ghost predicate IsCentred(lo: real, hi: real, lower: real, upper: real, w: real, eps: real) {
    lo + w / 2.0 == (lower + upper) / 2.0 && hi - lo - w == if w > 0.0 then w / 1000000.0 else eps
  }

  /** Each interval of the cube is as long as the longest extent of the box and lies around the middle of the box. */
  lemma CubeIsCentred(ll: Vec, ur: Vec, eps: real)
    ensures var w, b := Largest(ur.x - ll.x, ur.y - ll.y, ur.z - ll.z), CubeAround(ll, ur, eps);
      var e := if eps == 0.0 then EPSILON else eps;
      IsCentred(b.ll.x, b.ur.x, ll.x, ur.x, w, e) && IsCentred(b.ll.y, b.ur.y, ll.y, ur.y, w, e) &&
      IsCentred(b.ll.z, b.ur.z, ll.z, ur.z, w, e)
  {
    var e := Equalized(ll, ur);
    assert e.ur.x - e.ll.x == e.ur.y - e.ll.y == e.ur.z - e.ll.z == Largest(ur.x - ll.x, ur.y - ll.y, ur.z - ll.z);
  }

  // ---- conflicts ----

  /** A stored point q stands in the way of a new point p: it is found in the half-open eps-range
      around p and its distance is at most eps.  It is not symmetric where one point is a step ahead. */
  predicate Conflict(eps: real, q: Vec, p: Vec) {
    InRange(Vec(p.x - eps, p.y - eps, p.z - eps), Vec(p.x + eps, p.y + eps, p.z + eps), q) &&
    SqrDist(q, p) <= Sq(eps)
  }

  /** With a negative tolerance nothing ever conflicts, not even a point with itself. */
  lemma NegativeNeverConflicts(eps: real, q: Vec, p: Vec)
    requires eps < 0.0
    ensures !Conflict(eps, q, p)
  {
  }

  /** q is p moved by eps along one of the axes, towards larger coordinates. */
  predicate StepAhead(eps: real, p: Vec, q: Vec) {
    q == Vec(p.x + eps, p.y, p.z) || q == Vec(p.x, p.y + eps, p.z) || q == Vec(p.x, p.y, p.z + eps)
  }

  /** All points within eps conflict, except those that are a step ahead, which the half-open range leaves out. */
  lemma ConflictIffNear(eps: real, q: Vec, p: Vec)
    requires eps > 0.0
    ensures Conflict(eps, q, p) <==> SqrDist(q, p) <= Sq(eps) && !StepAhead(eps, p, q)
    ensures StepAhead(eps, p, q) ==> SqrDist(q, p) == Sq(eps)
  {
    var dx, dy, dz := q.x - p.x, q.y - p.y, q.z - p.z;
    if SqrDist(q, p) <= Sq(eps) {
      SumOfSquares(dx, dy, dz, eps);
      SumOfSquares(dy, dx, dz, eps);
      SumOfSquares(dz, dx, dy, eps);
    }
    assert StepAhead(eps, p, q) ==>
      (dx == eps && dy == dz == 0.0) || (dy == eps && dx == dz == 0.0) || (dz == eps && dx == dy == 0.0);
  }

  /** Conflict is symmetric unless one of the points is a step ahead of the other. */
  lemma SymmetricIff(eps: real, q: Vec, p: Vec)
    requires eps > 0.0
    ensures (Conflict(eps, q, p) <==> Conflict(eps, p, q)) <==> !StepAhead(eps, p, q) && !StepAhead(eps, q, p)
  {
    ConflictIffNear(eps, q, p);
    ConflictIffNear(eps, p, q);
    SqrDistSymmetric(q, p);
    hide Conflict, SqrDist, Sq;
  }

  lemma NearInCoordinates(eps: real, q: Vec, p: Vec)
    ensures SqrDist(q, p) <= Sq(eps) <==>
      (q.x - p.x) * (q.x - p.x) + (q.y - p.y) * (q.y - p.y) + (q.z - p.z) * (q.z - p.z) <= eps * eps
  {
  }

  /** In coordinates: a point is within eps of p, and not a step ahead. */
  ghost predicate InTheWay(eps: real, q: Vec, p: Vec) {
    (q.x - p.x) * (q.x - p.x) + (q.y - p.y) * (q.y - p.y) + (q.z - p.z) * (q.z - p.z) <= eps * eps &&
    q != Vec(p.x + eps, p.y, p.z) && q != Vec(p.x, p.y + eps, p.z) && q != Vec(p.x, p.y, p.z + eps)
  }

  /** No stored point conflicts with a new one iff all stored ones within eps are a step ahead of it. */
  lemma FreeIff(eps: real, s: set<Point>, p: Point)
    requires eps > 0.0
    ensures (exists q :: q in s && Conflict(eps, q.pos, p.pos)) <==> exists q :: q in s && InTheWay(eps, q.pos, p.pos)
  {
    forall q | q in s
      ensures Conflict(eps, q.pos, p.pos) <==> InTheWay(eps, q.pos, p.pos)
    {
      ConflictIffNear(eps, q.pos, p.pos);
      NearInCoordinates(eps, q.pos, p.pos);
      hide Conflict, SqrDist, Sq;
    }
    hide Conflict, InTheWay;
  }

  /** No two points are strictly closer than eps. */
  ghost predicate Separated(eps: real, s: set<Point>) {
    forall p, q :: p in s && q in s && p != q ==> SqrDist(p.pos, q.pos) >= Sq(eps)
  }

  lemma NoConflictSeparates(eps: real, s: set<Point>, p: Point)
    requires eps > 0.0 && Separated(eps, s) && forall q :: q in s ==> !Conflict(eps, q.pos, p.pos)
    ensures Separated(eps, s + {p})
  {
    forall q | q in s
      ensures SqrDist(q.pos, p.pos) >= Sq(eps) && SqrDist(p.pos, q.pos) >= Sq(eps)
    {
      SqrDistSymmetric(q.pos, p.pos);
      if SqrDist(q.pos, p.pos) < Sq(eps) {
        CloserIsInRange(q.pos, p.pos, eps);
      }
    }
  }

  lemma SeparatedSubset(eps: real, s: set<Point>, t: set<Point>)
    requires Separated(eps, s) && t <= s
    ensures Separated(eps, t)
  {
  }

  /** A cube that holds two separated points can be halved only so often. */
  lemma SplitHalves(box: Box, eps: real, p: Point, pnts: seq<Point>, s: set<Point>)
    requires box.IsCube() && eps > 0.0 && |pnts| > 0 && Holds(s, pnts) && p !in s && Separated(eps, s + {p})
    requires box.Contains(p.pos) && forall q :: q in s ==> box.Contains(q.pos)
    ensures Halvings(box.Side() / 2.0, eps) < Halvings(box.Side(), eps)
  {
    var q := pnts[0];
    assert q in pnts;
    DistanceInCube(box, p.pos, q.pos);
    HalvingsDecrease(box.Side(), eps);
  }

  ghost function InBox(s: set<Point>, b: Box): set<Point> {
    set p | p in s && b.Contains(p.pos)
  }

  ghost function RangeOf(s: set<Point>, min: Vec, max: Vec): set<Point> {
    set p | p in s && InRange(min, max, p.pos)
  }

  ghost predicate Holds(s: set<Point>, pnts: seq<Point>) {
    Distinct(pnts) && (forall p :: p in s ==> p in pnts) && forall p :: p in pnts ==> p in s
  }

  const NO_CHILDREN: seq<OctTree?> := [null, null, null, null, null, null, null, null]

  class OctTree {
    const box: Box
    const eps: real
    const maxPoints: nat
    var children: seq<OctTree?>
    var pnts: seq<Point>
    var isLeaf: bool
    ghost var Content: set<Point>
    ghost var Repr: set<OctTree>

    ghost predicate Valid()
      reads this, Repr
      ensures Valid() ==> this in Repr
      decreases Repr, 0
    {
      this in Repr && eps > 0.0 && maxPoints > 0 && box.IsCube() &&
      (forall p :: p in Content ==> box.Contains(p.pos)) &&
      if isLeaf
      then children == NO_CHILDREN && |pnts| <= maxPoints && Holds(Content, pnts) && Repr == {this}
      else pnts == [] && |Content| > maxPoints && ChildrenHold(Content)
    }

    /** The children are valid trees for the eight octants that hold the points of s between them. */
    ghost predicate ChildrenHold(s: set<Point>)
      reads this, Repr
      decreases Repr, 0, 0
    {
      |children| == 8 &&
      (forall k {:trigger children[k]} :: 0 <= k < 8 ==>
         children[k] != null && children[k] in Repr && children[k].Repr < Repr && this !in children[k].Repr &&
         children[k].IsTreeFor(box.Part(k), eps, maxPoints, InBox(s, box.Part(k)))) &&
      forall j, k {:trigger children[j], children[k]} :: 0 <= j < k < 8 ==> children[j].Repr !! children[k].Repr
    }

    ghost predicate IsTreeFor(box: Box, eps: real, maxPoints: nat, s: set<Point>)
      reads this, Repr
      ensures IsTreeFor(box, eps, maxPoints, s) ==> this in Repr
      decreases Repr, 1
    {
      Valid() && this.box == box && this.eps == eps && this.maxPoints == maxPoints && Content == s
    }

    /** An empty leaf. */
    constructor (box: Box, eps: real, maxPoints: nat)
      requires eps > 0.0 && maxPoints > 0 && box.IsCube()
      ensures Valid() && isLeaf && Content == {} && pnts == [] && Repr == {this}
      ensures this.box == box && this.eps == eps && this.maxPoints == maxPoints
    {
      this.box := box;
      this.eps := eps;
      this.maxPoints := maxPoints;
      children := NO_CHILDREN;
      pnts := [];
      isLeaf := true;
      Content := {};
      Repr := {this};
    }

    static method CreateOctTree(ll: Vec, ur: Vec, eps: real, maxPoints: nat) returns (t: OctTree)
      requires eps >= 0.0 && maxPoints > 0
      ensures t.Valid() && fresh(t.Repr) && t.Content == {}
      ensures t.box == CubeAround(ll, ur, eps) && t.eps == EffectiveEps(eps) && t.maxPoints == maxPoints
      // the cube and the tolerance, written out
      ensures t.eps == if eps == 0.0 then EPSILON else eps
      ensures var w := Largest(ur.x - ll.x, ur.y - ll.y, ur.z - ll.z);
        IsCentred(t.box.ll.x, t.box.ur.x, ll.x, ur.x, w, t.eps) &&
        IsCentred(t.box.ll.y, t.box.ur.y, ll.y, ur.y, w, t.eps) &&
        IsCentred(t.box.ll.z, t.box.ur.z, ll.z, ur.z, w, t.eps)
    {
      CubeIsCentred(ll, ur, eps);
      CubeAroundBox(ll, ur, eps, ll);
      t := new OctTree(CubeAround(ll, ur, eps), EffectiveEps(eps), maxPoints);
    }

    predicate IsOutside(p: Point) {
      (p.pos.x < box.ll.x || p.pos.y < box.ll.y || p.pos.z < box.ll.z) ||
      (p.pos.x >= box.ur.x || p.pos.y >= box.ur.y || p.pos.z >= box.ur.z)
    }

    // ---- range query ----

    /** Appends the points of this leaf in the half-open range [min, max). */
    method LeafPointsInRange(min: Vec, max: Vec, found: seq<Point>) returns (r: seq<Point>)
      requires Holds(Content, pnts)
      ensures multiset(r) == multiset(found) + multiset(RangeOf(Content, min, max)) && found <= r
    {
      r := found;
      ghost var seen: set<Point> := {};
      HoldsNothing(pnts);
      RangeOfNothing(min, max);
      hide RangeOf, Holds;
      for i := 0 to |pnts|
        invariant found <= r && Holds(seen, pnts[..i])
        invariant multiset(r) == multiset(found) + multiset(RangeOf(seen, min, max))
      {
        var p := pnts[i];
        HoldsOneMore(Content, pnts, seen, i);
        RangeOneMore(seen, p, min, max);
        if min.x <= p.pos.x && p.pos.x < max.x && min.y <= p.pos.y && p.pos.y < max.y &&
           min.z <= p.pos.z && p.pos.z < max.z {
          r := r + [p];
        }
        seen := seen + {p};
      }
      HoldsAll(Content, pnts, seen);
    }

    /** Appends the stored points of the half-open range [min, max), each once. */
    method GetPointsInRange(min: Vec, max: Vec, found: seq<Point>) returns (r: seq<Point>)
      requires Valid()
      ensures multiset(r) == multiset(found) + multiset(RangeOf(Content, min, max)) && found <= r
      decreases Repr
    {
      hide Valid, ChildrenHold, IsTreeFor, RangeOf, FirstParts, InBox, Holds, Box.IsCube, Box.Contains, Box.Part;
      InBoxFacts(this);
      r := found;
      if box.ur.x < min.x || box.ur.y < min.y || box.ur.z < min.z {
        NothingInRange(Content, box, min, max);
        return;
      }
      if max.x < box.ll.x || max.y < box.ll.y || max.z < box.ll.z {
        NothingInRange(Content, box, min, max);
        return;
      }
      if isLeaf {
        LeafFacts(this);
        r := LeafPointsInRange(min, max, found);
      } else {
        FirstPartsStart(Content, box, min, max);
        for k := 0 to 8
          invariant found <= r
          invariant multiset(r) == multiset(found) + multiset(RangeOf(FirstParts(Content, box, k), min, max))
        {
          ChildOf(this, k);
          r := children[k].GetPointsInRange(min, max, r);
          RangeOfParts(Content, box, k, min, max);
        }
        AllParts(Content, box);
      }
    }

    // ---- insertion ----

    /** Tries to add the point.  A stored point in conflict with it is returned, if there is one;
        otherwise null for a point outside the tree; otherwise the point itself, now stored. */
    method AddPoint(p: Point) returns (ok: bool, ret: Point?)
      requires Valid() && Separated(eps, Content)
      modifies Repr
      ensures Valid() && fresh(Repr - old(Repr)) && Separated(eps, Content)
      ensures Outcome(eps, box, old(Content), p, ok, ret, Content)
      // acceptance in coordinates
      ensures ok <==>
        box.ll.x <= p.pos.x < box.ur.x && box.ll.y <= p.pos.y < box.ur.y && box.ll.z <= p.pos.z < box.ur.z &&
        forall q :: q in old(Content) ==> !InTheWay(eps, q.pos, p.pos)
    {
      hide Valid, ChildrenHold, IsTreeFor, Separated, RangeOf, SqrDist, Sq, Conflict, InTheWay, Outcome;
      InBoxFacts(this);
      // candidates for a conflict: the points in the eps-range around p
      var min := Vec(p.pos.x - eps, p.pos.y - eps, p.pos.z - eps);
      var max := Vec(p.pos.x + eps, p.pos.y + eps, p.pos.z + eps);
      var query := GetPointsInRange(min, max, []);
      QueryFindsConflicts(eps, Content, p, query);
      for i := 0 to |query|
        invariant forall j :: 0 <= j < i ==> !(SqrDist(query[j].pos, p.pos) <= Sq(eps))
      {
        if SqrDist(query[i].pos, p.pos) <= Sq(eps) {
          assert query[i] in query;
          DuplicateFound(eps, box, Content, p, query[i]);
          return false, query[i];
        }
      }
      NoConflictSeparates(eps, Content, p);
      NoDuplicateFound(eps, box, Content, p);
      // no conflict
      if IsOutside(p) {
        return false, null;
      }
      SelfConflict(eps, p.pos);
      ok, ret := Insert(p);
    }

    method AddPoint_(p: Point) returns (ok: bool, ret: Point?)
      requires Valid() && p !in Content && Separated(eps, Content + {p})
      modifies Repr
      ensures Valid() && fresh(Repr - old(Repr))
      ensures !box.Contains(p.pos) ==> !ok && ret == null && unchanged(old(Repr))
      ensures box.Contains(p.pos) ==> ok && ret == p && Content == old(Content) + {p}
      decreases Halvings(box.Side(), eps), 3 * |Repr| + 3
    {
      if IsOutside(p) {
        return false, null;
      }
      ok, ret := Insert(p);
    }

    /** Adds a point inside the box, below the one child around it or to this leaf. */
    method Insert(p: Point) returns (ok: bool, ret: Point?)
      requires Valid() && p !in Content && Separated(eps, Content + {p}) && box.Contains(p.pos)
      modifies Repr
      ensures Valid() && fresh(Repr - old(Repr)) && ok && ret == p && Content == old(Content) + {p}
      decreases Halvings(box.Side(), eps), 3 * |Repr| + 2
    {
      if !isLeaf {
        ghost var _ := box.PartAround(p.pos);
        for k := 0 to 8
          invariant Valid() && unchanged(old(Repr)) && !isLeaf
          invariant forall j :: 0 <= j < k ==> !box.Part(j).Contains(p.pos)
        {
          ok, ret := InsertBelow(k, p);
          if ok {
            return;
          }
          if ret != null {
            return;
          }
        }
        assert false;
      } else {
        ret := p;
        Take(p);
        ok := true;
      }
    }

    method InsertBelow(k: nat, p: Point) returns (ok: bool, ret: Point?)
      requires Valid() && !isLeaf && k < 8 && p !in Content && Separated(eps, Content + {p}) && box.Contains(p.pos)
      modifies Repr
      ensures !box.Part(k).Contains(p.pos) ==> !ok && ret == null && unchanged(old(Repr))
      ensures box.Part(k).Contains(p.pos) ==>
        ok && ret == p && Content == old(Content) + {p} && Valid() && fresh(Repr - old(Repr))
      decreases Halvings(box.Side(), eps), 3 * |Repr| + 1
    {
      hide Valid, IsTreeFor, ChildrenHold, Separated, Halvings, Box.IsCube, Box.Contains, InBox, Box.Part;
      ChildFacts(this, k, p);
      InnerFacts(this);
      ghost var s := Content;
      ok, ret := children[k].AddPoint_(p);
      if ok {
        Content := Content + {p};
        Repr := Repr + children[k].Repr;
        IsTree(children[k], box.Part(k), eps, maxPoints, InBox(s, box.Part(k)) + {p});
        ChildGrew(this, s, k, p);
        assert |Content| == |s| + 1;
        InnerValid(this);
      }
    }

    method AddPointToChild(p: Point) returns (ok: bool)
      requires Valid() && isLeaf && p !in Content && Separated(eps, Content + {p})
      modifies Repr
      ensures Valid() && fresh(Repr - old(Repr))
      ensures !box.Contains(p.pos) ==> !ok && unchanged(old(Repr))
      ensures box.Contains(p.pos) ==> ok && Content == old(Content) + {p}
      ensures box.Contains(p.pos) && old(|pnts|) < maxPoints ==> isLeaf && |pnts| == old(|pnts|) + 1
      decreases Halvings(box.Side(), eps), 2
    {
      if IsOutside(p) {
        return false;
      }
      Take(p);
      return true;
    }

    /** A leaf takes a point: into its vector while there is room, else by splitting. */
    method Take(p: Point)
      requires Valid() && isLeaf && p !in Content && Separated(eps, Content + {p}) && box.Contains(p.pos)
      modifies Repr
      ensures Valid() && fresh(Repr - old(Repr)) && Content == old(Content) + {p}
      ensures old(|pnts|) < maxPoints ==> isLeaf && |pnts| == old(|pnts|) + 1
      decreases Halvings(box.Side(), eps), 1
    {
      if |pnts| < maxPoints {
        pnts := pnts + [p];
        Content := Content + {p};
      } else {
        SplitNode(p);
        pnts := [];
      }
    }

    /** Creates the eight children and distributes the points of this full leaf and p to them. */
    method SplitNode(p: Point)
      requires Valid() && isLeaf && p !in Content && Separated(eps, Content + {p}) && box.Contains(p.pos)
      requires |pnts| == maxPoints
      modifies this
      ensures this in Repr && fresh(Repr - {this}) && !isLeaf && Content == old(Content) + {p} && ChildrenHold(Content)
      ensures |Content| > maxPoints
      decreases Halvings(box.Side(), eps), 0
    {
      hide Valid, Separated, Halvings, IsSpreading, ChildrenHold, IsTreeFor, Holds, Box.IsCube, Box.Contains, InBox,
        Box.Part;
      LeafFacts(this);
      SplitHalves(box, eps, p, pnts, Content);
      CreateChildren();
      SeparatedSubset(eps, Content + {p}, {} + {p});
      // p goes before the points of this node
      GiveToChild(p, {});
      DistributePoints(p);
      SpreadingFacts(this, Content + {p});
      isLeaf := false;
      Content := Content + {p};
      ChildrenFrom(this, Content);
    }

    /** Gives the points of this node to the children, which already hold p. */
    method DistributePoints(ghost p: Point)
      requires IsSpreading({} + {p}) && Holds(Content, pnts) && |pnts| == maxPoints
      requires p !in Content && Separated(eps, Content + {p}) && forall q :: q in Content ==> box.Contains(q.pos)
      modifies this`Repr, Repr - {this}
      ensures IsSpreading(Content + {p}) && fresh(Repr - old(Repr)) && |Content| == maxPoints
      decreases Halvings(box.Side() / 2.0, eps), 5
    {
      hide Separated, Halvings, IsSpreading, Holds, Box.Contains, Box.IsCube, ChildrenHold, Valid, IsTreeFor, InBox,
        Box.Part;
      ghost var given: set<Point> := {};
      HoldsNothing(pnts);
      for j := 0 to |pnts|
        invariant IsSpreading(given + {p}) && Holds(given, pnts[..j]) && |given| == j && given <= Content
        invariant fresh(Repr - old(Repr))
      {
        HoldsOneMore(Content, pnts, given, j);
        GivenOneMore(given, p, pnts[j]);
        SeparatedSubset(eps, Content + {p}, given + {p} + {pnts[j]});
        GiveToChild(pnts[j], given + {p});
        given := given + {pnts[j]};
      }
      HoldsAll(Content, pnts, given);
    }

    /** The boxes of the eight children, in their order. */
    method ChildBoxes() returns (b: seq<Box>)
      ensures |b| == 8 && forall k {:trigger b[k]} :: 0 <= k < 8 ==> b[k] == box.Part(k)
    {
      var xMid, yMid, zMid := (box.ur.x + box.ll.x) / 2.0, (box.ur.y + box.ll.y) / 2.0, (box.ur.z + box.ll.z) / 2.0;
      var p0 := Vec(xMid, yMid, box.ll.z);
      var p1 := Vec(box.ur.x, box.ur.y, zMid);
      var nel := Box(p0, p1);
      p0 := p0.(x := box.ll.x);
      p1 := p1.(x := xMid);
      var nwl := Box(p0, p1);
      p0 := p0.(y := box.ll.y);
      p1 := p1.(y := yMid);
      var swl := Box(box.ll, p1);
      var neu := Box(p1, box.ur);
      p0 := p0.(x := xMid);
      p1 := p1.(x := box.ur.x);
      var sel := Box(p0, p1);
      p0 := Vec(box.ll.x, yMid, zMid);
      p1 := Vec(xMid, box.ur.y, box.ur.z);
      var nwu := Box(p0, p1);
      p0 := p0.(y := box.ll.y);
      p1 := p1.(y := yMid);
      var swu := Box(p0, p1);
      p0 := p0.(x := xMid);
      p1 := Vec(box.ur.x, yMid, box.ur.z);
      var seu := Box(p0, p1);
      b := [nel, nwl, swl, sel, neu, nwu, swu, seu];
    }

    /** Eight empty leaves for the octants of the box. */
    method CreateChildren()
      requires eps > 0.0 && maxPoints > 0 && box.IsCube() && Repr == {this}
      modifies this`children, this`Repr
      ensures IsSpreading({}) && fresh(Repr - {this})
    {
      var b := ChildBoxes();
      var c: seq<OctTree> := [];
      hide Box.Part, IsTreeFor, Valid, ChildrenHold;
      for k := 0 to 8
        invariant |c| == k && forall j :: 0 <= j < k ==> c[j].IsEmptyTreeFor(box.Part(j), eps, maxPoints) && fresh(c[j])
        invariant forall i, j :: 0 <= i < j < k ==> c[i] != c[j]
      {
        box.PartsPartition(k, k, box.ll);
        var child := new OctTree(b[k], eps, maxPoints);
        IsTree(child, box.Part(k), eps, maxPoints, {});
        c := c + [child];
      }
      children := c;
      Repr := {this} + set j | 0 <= j < 8 :: c[j];
      NewChildrenHold(this, c);
    }

    ghost predicate IsEmptyTreeFor(box: Box, eps: real, maxPoints: nat)
      reads this, Repr
    {
      Repr == {this} && isLeaf && pnts == [] && IsTreeFor(box, eps, maxPoints, {})
    }

    /** The children hold the points given so far; none of them has split before more points were
        given than a leaf can hold. */
    ghost predicate IsSpreading(given: set<Point>)
      reads this, Repr
    {
      this in Repr && eps > 0.0 && maxPoints > 0 && box.IsCube() && ChildrenHold(given) &&
      (|given| <= maxPoints ==>
         forall k {:trigger children[k]} :: 0 <= k < 8 ==> children[k].isLeaf && |children[k].pnts| <= |given|)
    }

    /** Gives a point to the first child that accepts it. */
    method GiveToChild(q: Point, ghost given: set<Point>)
      requires IsSpreading(given) && |given| <= maxPoints
      requires q !in given && Separated(eps, given + {q}) && box.Contains(q.pos)
      modifies this`Repr, Repr - {this}
      ensures IsSpreading(given + {q}) && fresh(Repr - old(Repr))
      decreases Halvings(box.Side() / 2.0, eps), 4
    {
      ghost var _ := box.PartAround(q.pos);
      for k := 0 to 8
        invariant IsSpreading(given) && unchanged(old(Repr))
        invariant forall j :: 0 <= j < k ==> !box.Part(j).Contains(q.pos)
      {
        var ok := GiveTo(k, q, given);
        if ok {
          return;
        }
      }
      assert false;
    }

    method GiveTo(k: nat, q: Point, ghost given: set<Point>) returns (ok: bool)
      requires IsSpreading(given) && |given| <= maxPoints && k < 8
      requires q !in given && Separated(eps, given + {q}) && box.Contains(q.pos)
      modifies this`Repr, Repr - {this}
      ensures ok == box.Part(k).Contains(q.pos)
      ensures !ok ==> unchanged(old(Repr))
      ensures ok ==> IsSpreading(given + {q}) && fresh(Repr - old(Repr))
      decreases Halvings(box.Side() / 2.0, eps), 3
    {
      hide IsSpreading, IsTreeFor, ChildrenHold, Separated, Halvings, Box.IsCube, Box.Contains, InBox, Box.Part, Valid;
      SpreadingFacts(this, given);
      ChildReady(this, k, q, given);
      forall j {:trigger children[j]} | 0 <= j < 8 && j != k
        ensures children[j] !in children[k].Repr && children[j].Repr !! children[k].Repr
      {
      }
      ok := children[k].AddPointToChild(q);
      if ok {
        Repr := Repr + children[k].Repr;
        IsTree(children[k], box.Part(k), eps, maxPoints, InBox(given, box.Part(k)) + {q});
        SpreadingGrew(this, given, k, q);
      }
    }
  }

  /** The three outcomes of an insertion; s and s' are the stored points before and after. */
  ghost predicate Outcome(eps: real, box: Box, s: set<Point>, p: Point, ok: bool, ret: Point?, s': set<Point>) {
    if exists q :: q in s && Conflict(eps, q.pos, p.pos)
    then !ok && ret != null && ret in s && Conflict(eps, ret.pos, p.pos) && s' == s
    else if !box.Contains(p.pos)
    then !ok && ret == null && s' == s
    else ok && ret == p && p !in s && s' == s + {p}
  }

  /** The range around p, as far as the stored points go. */
  ghost function Around(s: set<Point>, v: Vec, eps: real): set<Point> {
    RangeOf(s, Vec(v.x - eps, v.y - eps, v.z - eps), Vec(v.x + eps, v.y + eps, v.z + eps))
  }

  lemma DuplicateFound(eps: real, box: Box, s: set<Point>, p: Point, q: Point)
    requires eps > 0.0 && q in s && Conflict(eps, q.pos, p.pos)
    ensures Outcome(eps, box, s, p, false, q, s) && exists q :: q in s && InTheWay(eps, q.pos, p.pos)
  {
    FreeIff(eps, s, p);
  }

  lemma NoDuplicateFound(eps: real, box: Box, s: set<Point>, p: Point)
    requires eps > 0.0 && forall q :: q in s ==> !Conflict(eps, q.pos, p.pos)
    ensures forall q :: q in s ==> !InTheWay(eps, q.pos, p.pos)
    ensures !box.Contains(p.pos) ==> Outcome(eps, box, s, p, false, null, s)
    ensures box.Contains(p.pos) && p !in s ==> Outcome(eps, box, s, p, true, p, s + {p})
  {
    FreeIff(eps, s, p);
  }

  lemma QueryFindsConflicts(eps: real, s: set<Point>, p: Point, query: seq<Point>)
    requires multiset(query) == multiset(Around(s, p.pos, eps))
    ensures forall q :: q in query ==> q in s && (Conflict(eps, q.pos, p.pos) <==> SqrDist(q.pos, p.pos) <= Sq(eps))
    ensures forall q :: q in s && Conflict(eps, q.pos, p.pos) ==> q in query
  {
    hide Sq, SqrDist;
    forall q | q in query
      ensures q in Around(s, p.pos, eps)
    {
      assert q in multiset(query);
    }
    forall q | q in Around(s, p.pos, eps)
      ensures q in query
    {
      assert q in multiset(query);
    }
  }

  /** A stored point conflicts with itself. */
  lemma SelfConflict(eps: real, v: Vec)
    requires eps > 0.0
    ensures Conflict(eps, v, v)
  {
    SqPositive(eps);
    SqrDistSelf(v);
  }

  lemma ChildOf(t: OctTree, k: nat)
    requires t.Valid() && !t.isLeaf && k < 8
    ensures |t.children| == 8 && t.children[k] != null && t.children[k] in t.Repr && t.children[k].Repr < t.Repr
    ensures t.children[k].Valid() && t.children[k].box == t.box.Part(k) && t.children[k].eps == t.eps
    ensures t.children[k].maxPoints == t.maxPoints && t.children[k].Content == InBox(t.Content, t.box.Part(k))
  {
    assert t.ChildrenHold(t.Content);
    var c := t.children[k];
    assert c.IsTreeFor(t.box.Part(k), t.eps, t.maxPoints, InBox(t.Content, t.box.Part(k)));
  }

  /** What the children of a node satisfy, one by one. */
  lemma ChildrenFacts(t: OctTree, s: set<Point>)
    requires t.ChildrenHold(s)
    ensures |t.children| == 8
    ensures forall j {:trigger t.children[j]} :: 0 <= j < 8 ==>
      t.children[j] != null && t.children[j] in t.Repr && t.children[j].Repr < t.Repr && t !in t.children[j].Repr &&
      t.children[j] in t.children[j].Repr &&
      t.children[j].IsTreeFor(t.box.Part(j), t.eps, t.maxPoints, InBox(s, t.box.Part(j)))
    ensures forall i, j {:trigger t.children[i], t.children[j]} :: 0 <= i < j < 8 ==>
      t.children[i].Repr !! t.children[j].Repr
  {
    hide OctTree.IsTreeFor, InBox, Box.Part;
  }

  lemma LeafFacts(t: OctTree)
    requires t.Valid() && t.isLeaf
    ensures Holds(t.Content, t.pnts) && t.Repr == {t} && t.eps > 0.0 && t.maxPoints > 0 && t.box.IsCube()
    ensures forall p :: p in t.Content ==> t.box.Contains(p.pos)
  {
  }

  lemma InnerFacts(t: OctTree)
    requires t.Valid() && !t.isLeaf
    ensures t in t.Repr && t.eps > 0.0 && t.maxPoints > 0 && t.box.IsCube() && t.pnts == [] && t.ChildrenHold(t.Content)
    ensures |t.Content| > t.maxPoints
    ensures |t.children| == 8 && forall p :: p in t.Content ==> t.box.Contains(p.pos)
    ensures forall j {:trigger t.children[j]} :: 0 <= j < 8 ==>
      t.children[j] != null && t.children[j] in t.Repr && t.children[j].Repr < t.Repr && t !in t.children[j].Repr &&
      t.children[j] in t.children[j].Repr &&
      t.children[j].IsTreeFor(t.box.Part(j), t.eps, t.maxPoints, InBox(t.Content, t.box.Part(j)))
    ensures forall i, j {:trigger t.children[i], t.children[j]} :: 0 <= i < j < 8 ==>
      t.children[i].Repr !! t.children[j].Repr
  {
    ChildrenFacts(t, t.Content);
  }

  lemma InnerValid(t: OctTree)
    requires t in t.Repr && t.eps > 0.0 && t.maxPoints > 0 && t.box.IsCube() && t.pnts == [] &&
      t.ChildrenHold(t.Content)
    requires |t.Content| > t.maxPoints
    requires !t.isLeaf && forall p :: p in t.Content ==> t.box.Contains(p.pos)
    ensures t.Valid()
  {
  }

  lemma SpreadingFacts(t: OctTree, given: set<Point>)
    requires t.IsSpreading(given)
    ensures t in t.Repr && t.eps > 0.0 && t.maxPoints > 0 && t.box.IsCube() && t.ChildrenHold(given) &&
      |t.children| == 8
    ensures forall j {:trigger t.children[j]} :: 0 <= j < 8 ==>
      t.children[j] != null && t.children[j] in t.Repr && t.children[j].Repr < t.Repr && t !in t.children[j].Repr &&
      t.children[j] in t.children[j].Repr &&
      t.children[j].IsTreeFor(t.box.Part(j), t.eps, t.maxPoints, InBox(given, t.box.Part(j))) &&
      (|given| <= t.maxPoints ==> t.children[j].isLeaf && |t.children[j].pnts| <= |given|)
    ensures forall i, j {:trigger t.children[i], t.children[j]} :: 0 <= i < j < 8 ==>
      t.children[i].Repr !! t.children[j].Repr
  {
    ChildrenFacts(t, given);
  }

  lemma GivenOneMore(given: set<Point>, p: Point, q: Point)
    requires p !in given && q !in given && p != q
    ensures given + {p} + {q} == given + {q} + {p} && |given + {p}| == |given| + 1 && |given + {q}| == |given| + 1
  {
  }

  lemma IsTree(t: OctTree, box: Box, eps: real, maxPoints: nat, s: set<Point>)
    requires t.Valid() && t.box == box && t.eps == eps && t.maxPoints == maxPoints && t.Content == s
    ensures t.IsTreeFor(box, eps, maxPoints, s)
  {
  }

  lemma SpreadingGrew(t: OctTree, given: set<Point>, k: nat, q: Point)
    requires t in t.Repr && t.eps > 0.0 && t.maxPoints > 0 && k < 8 && t.box.IsCube() && |t.children| == 8
    requires t.box.Part(k).Contains(q.pos) && q !in given
    requires forall j {:trigger t.children[j]} :: 0 <= j < 8 ==>
      t.children[j] != null && t.children[j] in t.Repr && t.children[j].Repr < t.Repr && t !in t.children[j].Repr &&
      (j != k ==> t.children[j].IsTreeFor(t.box.Part(j), t.eps, t.maxPoints, InBox(given, t.box.Part(j)))) &&
      (|given| < t.maxPoints ==> t.children[j].isLeaf && |t.children[j].pnts| <= |given| + 1)
    requires forall i, j {:trigger t.children[i], t.children[j]} :: 0 <= i < j < 8 ==>
      t.children[i].Repr !! t.children[j].Repr
    requires t.children[k].IsTreeFor(t.box.Part(k), t.eps, t.maxPoints, InBox(given, t.box.Part(k)) + {q})
    ensures t.IsSpreading(given + {q})
  {
    ChildGrew(t, given, k, q);
    hide OctTree.ChildrenHold;
    assert |given + {q}| == |given| + 1;
  }

  lemma ChildrenFrom(t: OctTree, s: set<Point>)
    requires |t.children| == 8
    requires forall j {:trigger t.children[j]} :: 0 <= j < 8 ==>
      t.children[j] != null && t.children[j] in t.Repr && t.children[j].Repr < t.Repr && t !in t.children[j].Repr &&
      t.children[j].IsTreeFor(t.box.Part(j), t.eps, t.maxPoints, InBox(s, t.box.Part(j)))
    requires forall i, j {:trigger t.children[i], t.children[j]} :: 0 <= i < j < 8 ==>
      t.children[i].Repr !! t.children[j].Repr
    ensures t.ChildrenHold(s)
  {
    hide OctTree.IsTreeFor, OctTree.Valid, InBox, Box.Part;
  }

  /** The children hold one point more after the child k took it. */
  lemma ChildGrew(t: OctTree, s: set<Point>, k: nat, p: Point)
    requires k < 8 && t.box.IsCube() && |t.children| == 8 && t.box.Part(k).Contains(p.pos)
    requires forall j {:trigger t.children[j]} :: 0 <= j < 8 ==>
      t.children[j] != null && t.children[j] in t.Repr && t.children[j].Repr < t.Repr && t !in t.children[j].Repr &&
      (j != k ==> t.children[j].IsTreeFor(t.box.Part(j), t.eps, t.maxPoints, InBox(s, t.box.Part(j))))
    requires forall i, j {:trigger t.children[i], t.children[j]} :: 0 <= i < j < 8 ==>
      t.children[i].Repr !! t.children[j].Repr
    requires t.children[k].IsTreeFor(t.box.Part(k), t.eps, t.maxPoints, InBox(s, t.box.Part(k)) + {p})
    ensures t.ChildrenHold(s + {p})
  {
    forall j | 0 <= j < 8
      ensures InBox(s + {p}, t.box.Part(j)) == InBox(s, t.box.Part(j)) + if j == k then {p} else {}
    {
      t.box.PartsPartition(j, k, p.pos);
    }
    hide InBox, Box.Part, Box.Contains, Box.IsCube, OctTree.IsTreeFor, OctTree.Valid;
    ChildrenFrom(t, s + {p});
  }

  lemma NewChildrenHold(t: OctTree, c: seq<OctTree>)
    requires t in t.Repr && t.eps > 0.0 && t.maxPoints > 0 && t.box.IsCube() && |c| == 8 && t.children == c
    requires forall k :: 0 <= k < 8 ==>
      c[k] in t.Repr && t != c[k] && c[k].IsEmptyTreeFor(t.box.Part(k), t.eps, t.maxPoints)
    requires forall j, k :: 0 <= j < k < 8 ==> c[j] != c[k]
    ensures t.IsSpreading({})
  {
    forall k | 0 <= k < 8
      ensures InBox({}, t.box.Part(k)) == {}
    {
    }
    hide OctTree.IsTreeFor, InBox, Box.Part, OctTree.Valid;
    forall k {:trigger t.children[k]} | 0 <= k < 8
      ensures t.children[k] != null && t.children[k] in t.Repr && t.children[k].Repr < t.Repr &&
        t !in t.children[k].Repr
      ensures t.children[k].IsTreeFor(t.box.Part(k), t.eps, t.maxPoints, InBox({}, t.box.Part(k)))
      ensures t.children[k].isLeaf && t.children[k].pnts == []
    {
      assert t.children[k] == c[k];
    }
  }

  lemma ChildReady(t: OctTree, k: nat, q: Point, given: set<Point>)
    requires k < 8 && t.eps > 0.0 && t.box.IsCube() && t.ChildrenHold(given) && q !in given &&
      Separated(t.eps, given + {q})
    ensures |t.children| == 8 && t.children[k] != null && t.children[k].Valid() && t.children[k].box == t.box.Part(k)
    ensures t.children[k].eps == t.eps && t.children[k].maxPoints == t.maxPoints
    ensures t.children[k].Content == InBox(given, t.box.Part(k)) && q !in t.children[k].Content
    ensures Separated(t.eps, t.children[k].Content + {q}) && t.children[k].box.Side() == t.box.Side() / 2.0
  {
    ChildrenFacts(t, given);
    var c := t.children[k];
    assert c.IsTreeFor(t.box.Part(k), t.eps, t.maxPoints, InBox(given, t.box.Part(k)));
    t.box.PartsPartition(k, k, q.pos);
    hide OctTree.Valid, OctTree.ChildrenHold, Separated;
    SeparatedSubset(t.eps, given + {q}, c.Content + {q});
  }

  lemma ProperSubsetSmaller<T>(s: set<T>, t: set<T>)
    requires s < t
    ensures |s| < |t|
  {
    assert t == s + (t - s);
  }

  lemma NotInBox(s: set<Point>, b: Box, p: Point)
    ensures InBox(s, b) <= s && (p !in s ==> p !in InBox(s, b))
  {
  }

  lemma ChildFacts(t: OctTree, k: nat, p: Point)
    requires t.Valid() && !t.isLeaf && k < 8 && Separated(t.eps, t.Content + {p}) && p !in t.Content
    ensures |t.children| == 8 && t.children[k] != null && t.children[k] in t.Repr && t.children[k].Repr < t.Repr
    ensures |t.children[k].Repr| < |t.Repr|
    ensures t.children[k].Valid() && t.children[k].box == t.box.Part(k) && t.children[k].eps == t.eps
    ensures t.children[k].maxPoints == t.maxPoints && t.children[k].Content == InBox(t.Content, t.box.Part(k))
    ensures p !in t.children[k].Content && Separated(t.children[k].eps, t.children[k].Content + {p})
    ensures Halvings(t.children[k].box.Side(), t.children[k].eps) <= Halvings(t.box.Side(), t.eps)
  {
    hide OctTree.Valid, OctTree.ChildrenHold, OctTree.IsTreeFor, Separated, Halvings, InBox, Box.IsCube, Box.Part;
    ChildOf(t, k);
    InnerFacts(t);
    NotInBox(t.Content, t.box.Part(k), p);
    ProperSubsetSmaller(t.children[k].Repr, t.Repr);
    t.box.PartsPartition(k, k, p.pos);
    HalvingsDecrease(t.box.Side(), t.eps);
    SeparatedSubset(t.eps, t.Content + {p}, t.children[k].Content + {p});
  }

  // ---- depth ----

  /** The side of a cube after n halvings. */
  ghost function Shrunk(side: real, n: nat): real
    decreases n
  {
    if n == 0 then side else Shrunk(side / 2.0, n - 1)
  }

  /** There is a node at the end of a path of child positions. */
  ghost predicate HasNode(t: OctTree, path: seq<nat>)
    requires t.Valid()
    reads t, t.Repr
    decreases path
  {
    path == [] || (!t.isLeaf && path[0] < 8 &&
      (ChildOf(t, path[0]); HasNode(t.children[path[0]], path[1..])))
  }

  /** An inner node is larger than eps allows for a leaf: its diagonal exceeds eps. */
  lemma InnerIsLarge(t: OctTree)
    requires t.Valid() && !t.isLeaf && Separated(t.eps, t.Content)
    ensures 3.0 * Sq(t.box.Side()) > Sq(t.eps)
    ensures Halvings(t.box.Side() / 2.0, t.eps) < Halvings(t.box.Side(), t.eps)
  {
    InnerFacts(t);
    hide OctTree.Valid, OctTree.ChildrenHold, OctTree.IsTreeFor, Box.Contains, Box.IsCube, Halvings;
    var p, q := TwoPoints(t.Content);
    DistanceInCube(t.box, p.pos, q.pos);
    HalvingsDecrease(t.box.Side(), t.eps);
  }

  lemma TwoPoints(s: set<Point>) returns (p: Point, q: Point)
    requires |s| > 1
    ensures p in s && q in s && p != q
  {
    p :| p in s;
    assert |s - {p}| > 0;
    q :| q in s - {p};
  }

  /** The depth of every node is bounded: a node at depth n > 0 exists only if the cube n - 1 levels up from it
      has a diagonal longer than eps, and the depth is at most the number of halvings of the root. */
  lemma {:induction false} DepthBound(t: OctTree, path: seq<nat>)
    requires t.Valid() && Separated(t.eps, t.Content) && HasNode(t, path)
    ensures |path| > 0 ==> 3.0 * Sq(Shrunk(t.box.Side(), |path| - 1)) > Sq(t.eps)
    ensures |path| <= Halvings(t.box.Side(), t.eps)
    decreases path
  {
    if path != [] {
      var c := t.children[path[0]];
      ChildOf(t, path[0]);
      InnerIsLarge(t);
      assert t.box.IsCube();
      t.box.PartsPartition(path[0], path[0], t.box.ll);
      hide Halvings, Sq, Box.IsCube, Box.Part;
      DepthBound(c, path[1..]);
    }
  }

  // ---- range queries on sets ----

  lemma InBoxFacts(t: OctTree)
    requires t.Valid()
    ensures t.box.IsCube() && t.eps > 0.0 && forall p :: p in t.Content ==> t.box.Contains(p.pos)
  {
  }

  lemma NothingInRange(s: set<Point>, b: Box, min: Vec, max: Vec)
    requires forall p :: p in s ==> b.Contains(p.pos)
    requires b.ur.x < min.x || b.ur.y < min.y || b.ur.z < min.z || max.x < b.ll.x || max.y < b.ll.y || max.z < b.ll.z
    ensures RangeOf(s, min, max) == {}
  {
  }

  lemma HoldsNothing(pnts: seq<Point>)
    ensures Holds({}, pnts[..0])
  {
  }

  lemma HoldsOneMore(s: set<Point>, pnts: seq<Point>, seen: set<Point>, i: nat)
    requires Holds(s, pnts) && i < |pnts| && Holds(seen, pnts[..i])
    ensures Holds(seen + {pnts[i]}, pnts[..i + 1]) && pnts[i] !in seen && pnts[i] in s
  {
    assert pnts[..i + 1] == pnts[..i] + [pnts[i]];
  }

  lemma HoldsAll(s: set<Point>, pnts: seq<Point>, seen: set<Point>)
    requires Holds(s, pnts) && Holds(seen, pnts[..|pnts|])
    ensures seen == s
  {
    assert pnts[..|pnts|] == pnts;
  }

  lemma RangeOfNothing(min: Vec, max: Vec)
    ensures RangeOf({}, min, max) == {}
  {
  }

  lemma RangeOneMore(seen: set<Point>, p: Point, min: Vec, max: Vec)
    ensures RangeOf(seen + {p}, min, max) == RangeOf(seen, min, max) + (if InRange(min, max, p.pos) then {p} else {})
    ensures p !in seen ==> p !in RangeOf(seen, min, max)
  {
  }

  /** The points of s in the first k octants of the box. */
  ghost function FirstParts(s: set<Point>, b: Box, k: nat): set<Point>
    requires k <= 8
  {
    if k == 0 then {} else FirstParts(s, b, k - 1) + InBox(s, b.Part(k - 1))
  }

  lemma {:induction false} FirstPartsDisjoint(s: set<Point>, b: Box, j: nat, k: nat)
    requires b.IsCube() && j <= k < 8
    ensures FirstParts(s, b, j) !! InBox(s, b.Part(k))
  {
    if j > 0 {
      FirstPartsDisjoint(s, b, j - 1, k);
      forall p | p in InBox(s, b.Part(j - 1))
        ensures p !in InBox(s, b.Part(k))
      {
        b.PartsPartition(j - 1, k, p.pos);
      }
    }
  }

  lemma FirstPartsStart(s: set<Point>, b: Box, min: Vec, max: Vec)
    ensures RangeOf(FirstParts(s, b, 0), min, max) == {}
  {
  }

  lemma RangeOfParts(s: set<Point>, b: Box, k: nat, min: Vec, max: Vec)
    requires b.IsCube() && k < 8
    ensures multiset(RangeOf(FirstParts(s, b, k + 1), min, max)) ==
            multiset(RangeOf(FirstParts(s, b, k), min, max)) + multiset(RangeOf(InBox(s, b.Part(k)), min, max))
  {
    FirstPartsDisjoint(s, b, k, k);
    var done, more := RangeOf(FirstParts(s, b, k), min, max), RangeOf(InBox(s, b.Part(k)), min, max);
    assert RangeOf(FirstParts(s, b, k + 1), min, max) == done + more;
    assert done !! more;
  }

  lemma {:induction false} PartWithin(s: set<Point>, b: Box, j: nat, k: nat)
    requires j < k <= 8
    ensures InBox(s, b.Part(j)) <= FirstParts(s, b, k)
  {
    if j < k - 1 {
      PartWithin(s, b, j, k - 1);
    }
  }

  lemma {:induction false} FirstPartsWithin(s: set<Point>, b: Box, k: nat)
    requires k <= 8
    ensures FirstParts(s, b, k) <= s
  {
    if k > 0 {
      FirstPartsWithin(s, b, k - 1);
    }
  }

  lemma AllParts(s: set<Point>, b: Box)
    requires forall p :: p in s ==> b.Contains(p.pos)
    ensures FirstParts(s, b, 8) == s
  {
    FirstPartsWithin(s, b, 8);
    forall p | p in s
      ensures p in FirstParts(s, b, 8)
    {
      var j := b.PartAround(p.pos);
      PartWithin(s, b, j, 8);
      assert p in InBox(s, b.Part(j));
    }
  }
}
