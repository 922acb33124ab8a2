/** The user of the quadtree: adaptive mesh density fills a tree with points and balances it. */
module MeshDensity {
  import opened Common
  import opened QuadCells
  import opened QuadGeometry
  import opened QuadTree

  /** A point has found its way into the tree, or is outside, or has a close stand-in in its leaf. */
  ghost predicate Settled(square: Square, stored: set<Point>, p: Point) {
    p in stored || !square.Contains(p) ||
    exists q :: q in stored && (q.x - p.x) * (q.x - p.x) + (q.y - p.y) * (q.y - p.y) < EPSILON
  }

  /** Inserting at the root of a valid tree keeps it valid and settles the point. */
  lemma RootInserted(m: NodeMap, s: State, m': NodeMap, s': State, p: Point, ok: bool)
    requires ValidState(m, s) && Inserted(m, s, m', s', Root, p, ok)
    ensures ValidState(m', s') && Stored(s, Root) <= Stored(s', Root) <= Stored(s, Root) + {p}
    ensures Settled(m[Root].square, Stored(s', Root), p)
  {
    forall c | c in m'
      ensures LinksOk(m', s', c) && PointsOk(m', s', c)
    {
      AllUnderRoot(c);
    }
    if !ok && m[Root].square.Contains(p) {
      var c, q :| c in m && Under(c, Root) && m[c].square.Contains(p) && q in s[c].pnts && Close(q, p);
      assert q in Stored(s, Root);
      CloseInCoordinates(q, p);
    }
  }

  /** The leaves of a valid tree hold every stored point exactly once, in the leaf around it. */
  lemma StoredOnce(m: NodeMap, s: State, c: Cell, k: nat, d: Cell, l: nat)
    requires ValidState(m, s) && c in m && d in m && k < |s[c].pnts| && l < |s[d].pnts| && s[c].pnts[k] == s[d].pnts[l]
    ensures c == d && k == l && s[c].isLeaf && m[c].square.Contains(s[c].pnts[k])
  {
    var p := s[c].pnts[k];
    assert p in s[c].pnts && p in s[d].pnts;
    assert PointsOk(m, s, c) && PointsOk(m, s, d) && PlacedAt(m, c) && PlacedAt(m, d);
    ShapeOfTree(m, s);
    LeavesDisjoint(m[Root].square, Shape(s), c, d, p);
    CloseIsSymmetric(p, p);
  }

  /** A tree as it was at some time. */
  datatype Tree = Tree(nodes: NodeMap, state: State) {

    ghost predicate Valid() {
      ValidState(nodes, state)
    }

    /** A valid tree accepts p: p is in the square, and the leaf around it holds no close point. */
    ghost predicate Takes(p: Point) {
      Valid() && Accepts(nodes, state, Root, p)
    }

    ghost function Points(): set<Point> {
      Stored(state, Root)
    }
  }

  /** One tree becomes the other when p is inserted. */
  ghost predicate OneInserted(t: Tree, t': Tree, p: Point) {
    t.Valid() && t'.Valid() && Inserted(t.nodes, t.state, t'.nodes, t'.state, Root, p, t.Takes(p))
  }

  /** The trees before, between and after the insertion of several points. */
  ghost predicate InsertedInTurn(trace: seq<Tree>, pnts: seq<Point>) {
    |trace| == |pnts| + 1 && forall k :: 0 <= k < |pnts| ==> OneInserted(trace[k], trace[k + 1], pnts[k])
  }

  /** The points that are accepted in turn. */
  ghost function TakenInTurn(trace: seq<Tree>, pnts: seq<Point>): set<Point>
    requires |pnts| <= |trace|
  {
    set k | 0 <= k < |pnts| && trace[k].Takes(pnts[k]) :: pnts[k]
  }

  /** Afterwards the tree stores what it stored before, and exactly the points it accepted in turn. */
  lemma {:induction false} StoredInTurn(trace: seq<Tree>, pnts: seq<Point>)
    requires InsertedInTurn(trace, pnts)
    ensures trace[|pnts|].Points() == trace[0].Points() + TakenInTurn(trace, pnts)
    ensures forall p :: p in TakenInTurn(trace, pnts) ==> p in pnts
  {
    hide Tree.Points, Tree.Takes, OneInserted;
    if pnts != [] {
      var n := |pnts| - 1;
      StoredInTurn(trace[..n + 1], pnts[..n]);
      var p := pnts[n];
      OneStored(trace[n], trace[n + 1], p);
      assert TakenInTurn(trace, pnts) == TakenInTurn(trace[..n + 1], pnts[..n]) + if trace[n].Takes(p) then {p} else {};
    }
  }

  lemma OneStored(t: Tree, t': Tree, p: Point)
    requires OneInserted(t, t', p)
    ensures t'.Points() == t.Points() + if t.Takes(p) then {p} else {}
    ensures !t.Takes(p) ==> t' == t
  {
  }

  /** Adds one point to the tree. */
  method AddOne(root: QuadTree, p: Point, ghost m: NodeMap) returns (ghost m': NodeMap)
    requires ValidTree(m) && Names(m, root) && root.cell == Root
    modifies m.Values
    ensures ValidTree(m') && Names(m', root)
    ensures forall c :: c in m' && c !in m ==> fresh(m'[c])
    ensures forall c :: c in m ==> c in m' && m'[c] == m[c]
    ensures OneInserted(Tree(m, old(Snap(m))), Tree(m', Snap(m')), p)
    ensures Settled(root.square, Stored(Snap(m'), Root), p)
  {
    ghost var s := Snap(m);
    var ok;
    ok, m' := root.AddPoint(p, m);
    ghost var s' := Snap(m');
    RootInserted(m, s, m', s', p, ok);
  }

  lemma StillSettled(square: Square, stored: set<Point>, stored': set<Point>, pnts: seq<Point>)
    requires stored <= stored'
    ensures (forall p :: p in pnts ==> Settled(square, stored, p)) ==>
            forall p :: p in pnts ==> Settled(square, stored', p)
  {
  }

  /** One more insertion. */
  lemma OneMoreInTurn(trace: seq<Tree>, pnts: seq<Point>, p: Point, t: Tree)
    requires InsertedInTurn(trace, pnts) && OneInserted(trace[|pnts|], t, p)
    ensures InsertedInTurn(trace + [t], pnts + [p])
    ensures trace[|pnts|].Points() <= t.Points()
  {
    OneStored(trace[|pnts|], t, p);
    hide OneInserted, Tree.Points;
  }

  /** Adds the points to the tree and balances it.  The trace has the trees before and after each insertion. */
  method AddPoints(root: QuadTree, pnts: seq<Point>, ghost m: NodeMap)
    returns (ghost m': NodeMap, ghost trace: seq<Tree>)
    requires ValidTree(m) && Names(m, root) && root.cell == Root
    modifies m.Values
    ensures ValidTree(m') && Names(m', root) && Balanced(Shape(Snap(m')))
    ensures InsertedInTurn(trace, pnts) && trace[0] == Tree(m, old(Snap(m)))
    ensures Stored(Snap(m'), Root) == old(Stored(Snap(m), Root)) + TakenInTurn(trace, pnts)
    ensures forall p :: p in TakenInTurn(trace, pnts) ==> p in pnts
    ensures LeastBalanced(trace[|pnts|].state, Snap(m'))
    ensures forall p :: p in pnts ==> Settled(root.square, Stored(Snap(m'), Root), p)
  {
    hide Settled, Balanced, Stored, ValidTree, ValidState, Snap, OneInserted, InsertedInTurn, TakenInTurn;
    ghost var first := Tree(m, Snap(m));
    m', trace := m, [first];
    NoneInserted(first, pnts);
    for k := 0 to |pnts|
      invariant ValidTree(m') && Names(m', root)
      invariant forall c :: c in m' && c !in m ==> fresh(m'[c])
      invariant forall c :: c in m ==> c in m' && m'[c] == m[c]
      invariant |trace| == k + 1 && trace[0] == first && trace[k] == Tree(m', Snap(m'))
      invariant InsertedInTurn(trace, pnts[..k])
      invariant forall p :: p in pnts[..k] ==> Settled(root.square, Stored(Snap(m'), Root), p)
    {
      ghost var before := Stored(Snap(m'), Root);
      m' := AddOne(root, pnts[k], m');
      OneMoreInTurn(trace, pnts[..k], pnts[k], Tree(m', Snap(m')));
      trace := trace + [Tree(m', Snap(m'))];
      StillSettled(root.square, before, Stored(Snap(m'), Root), pnts[..k]);
      assert pnts[..k + 1] == pnts[..k] + [pnts[k]];
    }
    assert pnts[..|pnts|] == pnts;
    StoredInTurn(trace, pnts);
    m' := root.Balance(m');
  }

  lemma NoneInserted(t: Tree, pnts: seq<Point>)
    ensures InsertedInTurn([t], pnts[..0])
  {
  }

  // ---- building the tree from the bounding box of the points ----

  ghost predicate IsBoundingBox(pnts: seq<Point>, min: Corner, max: Corner) {
    (forall p :: p in pnts ==> min.x <= p.x <= max.x && min.y <= p.y <= max.y) &&
    (exists p :: p in pnts && p.x == min.x) && (exists p :: p in pnts && p.y == min.y) &&
    (exists p :: p in pnts && p.x == max.x) && (exists p :: p in pnts && p.y == max.y)
  }

  method BoundingBox(pnts: seq<Point>) returns (min: Corner, max: Corner)
    requires pnts != []
    ensures IsBoundingBox(pnts, min, max)
  {
    min := Corner(pnts[0].x, pnts[0].y);
    max := Corner(pnts[0].x, pnts[0].y);
    FirstBox(pnts);
    hide IsBoundingBox;
    for k := 1 to |pnts|
      invariant IsBoundingBox(pnts[..k], min, max)
    {
      var p := pnts[k];
      ghost var min0, max0 := min, max;
      if p.x < min.x {
        min := min.(x := p.x);
      }
      if p.y < min.y {
        min := min.(y := p.y);
      }
      if p.x > max.x {
        max := max.(x := p.x);
      }
      if p.y > max.y {
        max := max.(y := p.y);
      }
      BoxOfOneMore(pnts[..k], p, min0, max0, min, max);
      assert pnts[..k + 1] == pnts[..k] + [p];
    }
    assert pnts[..|pnts|] == pnts;
  }

  lemma FirstBox(pnts: seq<Point>)
    requires pnts != []
    ensures IsBoundingBox(pnts[..1], Corner(pnts[0].x, pnts[0].y), Corner(pnts[0].x, pnts[0].y))
  {
    assert pnts[..1] == [pnts[0]] && pnts[0] in pnts[..1];
  }

  lemma BoxOfOneMore(pnts: seq<Point>, p: Point, min: Corner, max: Corner, min': Corner, max': Corner)
    requires IsBoundingBox(pnts, min, max)
    requires min' == Corner(if p.x < min.x then p.x else min.x, if p.y < min.y then p.y else min.y)
    requires max' == Corner(if p.x > max.x then p.x else max.x, if p.y > max.y then p.y else max.y)
    ensures IsBoundingBox(pnts + [p], min', max')
  {
    assert p in pnts + [p] && forall q :: q in pnts ==> q in pnts + [p];
  }

  /** A point on the far border of the longer side of the bounding box. */
  predicate OnFarBorder(min: Corner, max: Corner, p: Point) {
    (max.x - min.x >= max.y - min.y && p.x == max.x) || (max.x - min.x <= max.y - min.y && p.y == max.y)
  }

  /** The half-open root square leaves out exactly the points on the far border. */
  lemma RootSquareMisses(square: Square, pnts: seq<Point>, min: Corner, max: Corner, p: Point)
    requires IsBoundingBox(pnts, min, max) && p in pnts && square.Even() && square.ll == min
    requires square.Side() == if max.x - min.x > max.y - min.y then max.x - min.x else max.y - min.y
    ensures square.Contains(p) <==> !OnFarBorder(min, max, p)
  {
  }

  lemma StoredInSquare(m: NodeMap, s: State, p: Point)
    requires ValidState(m, s) && p in Stored(s, Root)
    ensures m[Root].square.Contains(p)
  {
    var c :| c in m && Under(c, Root) && p in s[c].pnts;
    assert PointsOk(m, s, c) && PlacedAt(m, c) && PlacedAt(m, Root);
    SquareOfAncestor(m[Root].square, c, Root, p);
  }

  /** Builds a balanced tree for the points.  Although the root square is taken from their bounding
      box, the points on its far border -- at least one point, always -- are not stored. */
  method Initialize(pnts: seq<Point>, maxPointsPerLeaf: nat)
    returns (root: QuadTree, ghost m: NodeMap, ghost min: Corner, ghost max: Corner, ghost trace: seq<Tree>)
    requires pnts != [] && maxPointsPerLeaf > 0
    ensures ValidTree(m) && Names(m, root) && root.cell == Root && Balanced(Shape(Snap(m)))
    ensures root.square.ll == min && root.maxPointsPerLeaf == maxPointsPerLeaf
    ensures root.square.Side() == if max.x - min.x > max.y - min.y then max.x - min.x else max.y - min.y
    ensures IsBoundingBox(pnts, min, max)
    ensures InsertedInTurn(trace, pnts) && trace[0].Points() == {}
    ensures LeastBalanced(trace[|pnts|].state, Snap(m))
    ensures forall p :: p in Stored(Snap(m), Root) ==> p in pnts && !OnFarBorder(min, max, p)
    ensures forall p :: p in pnts && !OnFarBorder(min, max, p) ==>
      p in Stored(Snap(m), Root) ||
      exists q :: q in Stored(Snap(m), Root) && (q.x - p.x) * (q.x - p.x) + (q.y - p.y) * (q.y - p.y) < EPSILON
    ensures exists p :: p in pnts && OnFarBorder(min, max, p) && p !in Stored(Snap(m), Root)
  {
    var ll, ur := BoundingBox(pnts);
    min, max := ll, ur;
    root := new QuadTree(ll, ur, maxPointsPerLeaf);
    ghost var m0 := map[Root := root];
    assert PointsOk(m0, Snap(m0), Root) && PlacedAt(m0, Root);
    assert Stored(Snap(m0), Root) == {};
    m, trace := AddPoints(root, pnts, m0);
    forall p | p in pnts
      ensures root.square.Contains(p) <==> !OnFarBorder(min, max, p)
    {
      RootSquareMisses(root.square, pnts, min, max, p);
    }
    forall p | p in Stored(Snap(m), Root)
      ensures root.square.Contains(p)
    {
      StoredInSquare(m, Snap(m), p);
    }
  }

  /** An empty tree. */
  method NewTree(ll: Corner, ur: Corner, maxPointsPerLeaf: nat) returns (root: QuadTree, ghost m: NodeMap)
    requires maxPointsPerLeaf > 0
    ensures ValidTree(m) && Names(m, root) && root.cell == Root && m == map[Root := root] && fresh(root)
    ensures Tree(m, Snap(m)).Points() == {} && root.square.ll == ll
    ensures root.square.Side() == if ur.x - ll.x > ur.y - ll.y then ur.x - ll.x else ur.y - ll.y
  {
    root := new QuadTree(ll, ur, maxPointsPerLeaf);
    m := map[Root := root];
    assert Snap(m)[Root].pnts == [];
  }

  /** Two points above each other in one leaf are both stored. */
  method AddAbove() returns (root: QuadTree, ghost m: NodeMap)
    ensures ValidTree(m) && Names(m, root) && root.cell == Root
    ensures Tree(m, Snap(m)).Points() == {Point(1.0, 1.0, 0), Point(1.0, 9.0, 1)}
  {
    hide OneInserted, ValidTree, Close, Settled, Tree.Points, Snap;
    var p, q := Point(1.0, 1.0, 0), Point(1.0, 9.0, 1);
    root, m := NewTree(Corner(0.0, 0.0), Corner(10.0, 10.0), 4);
    ghost var t0 := Tree(m, Snap(m));
    RootSquareHolds(m, root, p, q);
    m := AddOne(root, p, m);
    ghost var t1 := Tree(m, Snap(m));
    FarTaken(t0, t1, p);
    m := AddOne(root, q, m);
    CloseBounds(p, q);
    FarTaken(t1, Tree(m, Snap(m)), q);
  }

  lemma RootSquareHolds(m: NodeMap, root: QuadTree, p: Point, q: Point)
    requires ValidTree(m) && Names(m, root) && root.cell == Root && root.square.ll == Corner(0.0, 0.0)
    requires root.square.Side() == 10.0 && p == Point(1.0, 1.0, 0) && q == Point(1.0, 9.0, 1)
    ensures root.square.Contains(p) && root.square.Contains(q) && m[Root] == root
  {
  }

  /** A point in the root square that is not close to any stored point is taken. */
  lemma FarTaken(t: Tree, t': Tree, p: Point)
    requires OneInserted(t, t', p) && t.nodes[Root].square.Contains(p) && forall q :: q in t.Points() ==> !Close(q, p)
    ensures t'.Points() == t.Points() + {p} && t'.nodes[Root] == t.nodes[Root]
  {
    forall c, q | c in t.nodes && Under(c, Root) && q in t.state[c].pnts
      ensures !Close(q, p)
    {
      assert q in t.Points();
    }
  }
}
