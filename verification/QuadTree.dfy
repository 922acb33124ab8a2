/** The pointer quadtree: nodes with a father pointer and four child pointers, changed in place.

    A ghost map from cells to nodes says which node stands for which cell; it is handed to every
    operation and only ever grows.  The mutable fields of all nodes together are read off as a value,
    the state, on which the invariants and the effect of every operation are stated. */
module QuadTree {
  import opened Common
  import opened QuadCells
  import opened QuadGeometry

  type NodeMap = map<Cell, QuadTree>

  datatype NodeState = NodeState(isLeaf: bool, children: seq<QuadTree?>, pnts: seq<Point>)

  type State = map<Cell, NodeState>

  function Index(q: Quadrant): nat {
    match q
    case NE => 0
    case NW => 1
    case SW => 2
    case SE => 3
  }

  const QUADRANTS: seq<Quadrant> := [NE, NW, SW, SE]

  // ---- what the node map says ----

  /** The immutable links: every node knows its cell and its father. */
  ghost predicate Fixed(m: NodeMap) {
    Root in m && forall c {:trigger FixedAt(m, c)} :: c in m ==> FixedAt(m, c)
  }

  ghost predicate FixedAt(m: NodeMap, c: Cell)
    requires c in m
  {
    m[c].cell == c && m[c].depth == Depth(c) &&
    if c.Root? then m[c].father == null else c.father in m && m[c].father == m[c.father]
  }

  /** Every node covers the square of its cell and has the tree's capacity. */
  ghost predicate Placed(m: NodeMap) {
    Root in m && m[Root].maxPointsPerLeaf > 0 && m[Root].square.Even() &&
    forall c {:trigger PlacedAt(m, c)} :: c in m ==> PlacedAt(m, c)
  }

  ghost predicate PlacedAt(m: NodeMap, c: Cell)
    requires Root in m && c in m
  {
    m[c].square == SquareOf(m[Root].square, c) && m[c].maxPointsPerLeaf == m[Root].maxPointsPerLeaf
  }

  ghost predicate Names(m: NodeMap, n: QuadTree?) {
    n != null && n.cell in m && m[n.cell] == n
  }

  ghost function Snap(m: NodeMap): (s: State)
    reads m.Values
    ensures s.Keys == m.Keys
  {
    map c | c in m :: NodeState(m[c].isLeaf, m[c].children, m[c].pnts)
  }

  // ---- invariants of a state ----

  ghost predicate HasChildren(m: NodeMap, s: State, c: Cell)
    requires c in s
  {
    |s[c].children| == 4 && forall q :: Quarter(c, q) in m && s[c].children[Index(q)] == m[Quarter(c, q)]
  }

  ghost predicate LinksOk(m: NodeMap, s: State, c: Cell)
    requires c in s
  {
    if s[c].isLeaf
    then s[c].children == [null, null, null, null] && forall q :: Quarter(c, q) !in m
    else HasChildren(m, s, c)
  }

  /** Points of one leaf: inside its square and pairwise not close. */
  ghost predicate GoodPoints(square: Square, pnts: seq<Point>) {
    (forall p :: p in pnts ==> square.Contains(p)) &&
    forall k, l :: 0 <= k < l < |pnts| ==> !Close(pnts[k], pnts[l])
  }

  ghost predicate PointsOk(m: NodeMap, s: State, c: Cell)
    requires c in m && c in s
  {
    if s[c].isLeaf
    then |s[c].pnts| <= m[c].maxPointsPerLeaf && GoodPoints(m[c].square, s[c].pnts)
    else s[c].pnts == []
  }

  ghost predicate ValidUnder(m: NodeMap, s: State, top: Cell) {
    s.Keys == m.Keys &&
    forall c {:trigger LinksOk(m, s, c)} {:trigger PointsOk(m, s, c)} ::
      c in m && Under(c, top) ==> LinksOk(m, s, c) && PointsOk(m, s, c)
  }

  ghost predicate Linked(m: NodeMap, s: State) {
    Fixed(m) && s.Keys == m.Keys && forall c {:trigger LinksOk(m, s, c)} :: c in m ==> LinksOk(m, s, c)
  }

  ghost predicate ValidState(m: NodeMap, s: State) {
    Linked(m, s) && Placed(m) && forall c {:trigger PointsOk(m, s, c)} :: c in m ==> PointsOk(m, s, c)
  }

  ghost predicate ValidTree(m: NodeMap)
    reads m.Values
  {
    ValidState(m, Snap(m))
  }

  /** The set of split cells. */
  ghost function Shape(s: State): set<Cell> {
    set c | c in s && !s[c].isLeaf
  }

  /** All points in a subtree. */
  ghost function Stored(s: State, top: Cell): set<Point> {
    set c, p | c in s.Keys && Under(c, top) && p in s[c].pnts :: p
  }

  /** The points below the four children. */
  ghost function StoredBelow(s: State, top: Cell): set<Point> {
    Stored(s, Quarter(top, NE)) + Stored(s, Quarter(top, NW)) + Stored(s, Quarter(top, SW)) +
      Stored(s, Quarter(top, SE))
  }

  ghost predicate Elements(s: set<Point>, pnts: seq<Point>) {
    forall p :: p in s <==> p in pnts
  }

  /** Insertion of p below top succeeds: p lies in the square and the leaf around p has no close point. */
  ghost predicate Accepts(m: NodeMap, s: State, top: Cell, p: Point)
    requires top in m && s.Keys == m.Keys
  {
    m[top].square.Contains(p) &&
    forall c, q :: c in m && Under(c, top) && m[c].square.Contains(p) && q in s[c].pnts ==> !Close(q, p)
  }

  /** Acceptance in coordinates: p lies in the half-open square, and no point of the leaf around p is closer
      than the square root of the machine epsilon. */
  lemma AcceptsInCoordinates(m: NodeMap, s: State, top: Cell, p: Point)
    requires top in m && s.Keys == m.Keys
    ensures Accepts(m, s, top, p) <==>
      m[top].square.ll.x <= p.x < m[top].square.ur.x && m[top].square.ll.y <= p.y < m[top].square.ur.y &&
      forall c, q :: c in m && Under(c, top) && m[c].square.Contains(p) && q in s[c].pnts ==>
        (q.x - p.x) * (q.x - p.x) + (q.y - p.y) * (q.y - p.y) >= EPSILON
  {
    forall q
      ensures Close(q, p) <==> (q.x - p.x) * (q.x - p.x) + (q.y - p.y) * (q.y - p.y) < EPSILON
    {
      CloseInCoordinates(q, p);
    }
    hide Close;
  }

  /** Insertion of p succeeds below some child of top. */
  ghost predicate ChildAccepts(m: NodeMap, s: State, top: Cell, p: Point)
    requires s.Keys == m.Keys
  {
    exists q :: Quarter(top, q) in m && Accepts(m, s, Quarter(top, q), p)
  }

  /** The four children are leaves with at most bound points each. */
  ghost predicate ShallowChildren(s: State, top: Cell, bound: nat) {
    forall q :: Quarter(top, q) in s ==> s[Quarter(top, q)].isLeaf && |s[Quarter(top, q)].pnts| <= bound
  }

  // ---- effects of operations ----

  /** Nothing but the subtree of top has changed, and nothing but cells below top is new. */
  ghost predicate Grown(m: NodeMap, s: State, m': NodeMap, s': State, top: Cell) {
    m.Keys == s.Keys && m'.Keys == s'.Keys && m.Keys <= m'.Keys &&
    (forall c :: c in m ==> m'[c] == m[c]) &&
    (forall c :: c in m && !Under(c, top) ==> s'[c] == s[c]) &&
    forall c :: c in m' && c !in m ==> Under(c, top) && c != top
  }

  /** The complete effect of inserting p at top. */
  ghost predicate Inserted(m: NodeMap, s: State, m': NodeMap, s': State, top: Cell, p: Point, ok: bool) {
    top in m && Grown(m, s, m', s', top) && Fixed(m') && Placed(m') && ValidUnder(m', s', top) &&
    (ok <==> Accepts(m, s, top, p)) &&
    Stored(s', top) == Stored(s, top) + (if ok then {p} else {}) &&
    (!ok ==> m' == m && s' == s) &&
    (s[top].isLeaf && |s[top].pnts| < m[top].maxPointsPerLeaf ==>
       m' == m && s'[top].isLeaf && |s'[top].pnts| <= |s[top].pnts| + 1)
  }

  /** The complete effect of offering p to the children of top. */
  ghost predicate InsertedBelow(m: NodeMap, s: State, m': NodeMap, s': State, top: Cell, p: Point, ok: bool) {
    top in m && Grown(m, s, m', s', top) && s'[top] == s[top] && Fixed(m') && Placed(m') &&
    (forall q :: ValidUnder(m', s', Quarter(top, q))) &&
    (ok <==> ChildAccepts(m, s, top, p)) &&
    StoredBelow(s', top) == StoredBelow(s, top) + (if ok then {p} else {}) &&
    (!ok ==> m' == m && s' == s) &&
    forall bound: nat :: ShallowChildren(s, top, bound) && bound < m[top].maxPointsPerLeaf ==>
                           m' == m && ShallowChildren(s', top, bound + 1)
  }

  /** The complete effect of splitting the leaf top. */
  ghost predicate SplitInto(m: NodeMap, s: State, m': NodeMap, s': State, top: Cell) {
    top in m && Grown(m, s, m', s', top) && Fixed(m') && Placed(m') && ValidUnder(m', s', top) &&
    !s'[top].isLeaf && Elements(Stored(s', top), s[top].pnts) &&
    (|s[top].pnts| <= m[top].maxPointsPerLeaf ==>
       (forall c :: c in m' <==> c in m || (c.Quarter? && c.father == top)) &&
       forall q :: s'[Quarter(top, q)].isLeaf)
  }

  // ---- the shape of a linked tree ----

  lemma ShapeOfTree(m: NodeMap, s: State)
    requires Linked(m, s)
    ensures IsShape(Shape(s))
    ensures forall c :: c in m <==> Exists(Shape(s), c)
  {
    forall c | c in m
      ensures Exists(Shape(s), c)
    {
      assert FixedAt(m, c);
      if c.Quarter? {
        assert LinksOk(m, s, c.father);
        assert c == Quarter(c.father, c.quadrant);
      }
    }
    forall c | Exists(Shape(s), c)
      ensures c in m
    {
      if c.Quarter? {
        assert LinksOk(m, s, c.father);
        assert c == Quarter(c.father, c.quadrant);
      }
    }
  }

  // ---- what a neighbour query returns ----

  /** The node n a query from cell c returns: null exactly at the border of the root square, otherwise
      the node of the deepest existing cell, not deeper than c, that contains the adjacent cell. */
  ghost predicate NeighbourIs(m: NodeMap, s: State, c: Cell, dir: Direction, n: QuadTree?) {
    if HasAdjacent(c, dir)
    then var r := Covering(Shape(s), Adjacent(c, dir)); r in m && n == m[r]
    else n == null
  }

  /** A father knows which of its children asks. */
  lemma FatherKnowsChild(m: NodeMap, s: State, n: QuadTree)
    requires Linked(m, s) && Names(m, n) && n.father != null
    ensures n.cell.Quarter? && n.father.cell == n.cell.father && n.father.depth < n.depth
    ensures Names(m, n.father) && HasChildren(m, s, n.father.cell) && !s[n.father.cell].isLeaf
    ensures forall q :: Names(m, s[n.father.cell].children[Index(q)])
    ensures forall q :: s[n.father.cell].children[Index(q)] == n <==> q == n.cell.quadrant
  {
    assert FixedAt(m, n.cell);
    assert FixedAt(m, n.cell.father) && LinksOk(m, s, n.cell.father);
    assert n.cell == Quarter(n.cell.father, n.cell.quadrant);
    forall q
      ensures Names(m, s[n.father.cell].children[Index(q)])
      ensures s[n.father.cell].children[Index(q)] == n <==> q == n.cell.quadrant
    {
      assert FixedAt(m, Quarter(n.cell.father, q));
    }
  }

  lemma ChildrenNamed(m: NodeMap, s: State, n: QuadTree)
    requires Linked(m, s) && Names(m, n) && !s[n.cell].isLeaf
    ensures |s[n.cell].children| == 4 && forall q :: Names(m, s[n.cell].children[Index(q)])
  {
    assert LinksOk(m, s, n.cell);
    forall q
      ensures Names(m, s[n.cell].children[Index(q)])
    {
      assert FixedAt(m, Quarter(n.cell, q));
    }
  }

  /** The node a lookup from a child in quadrant q returns when the father's lookup returned up. */
  ghost function FromFather(m: NodeMap, s: State, father: Cell, q: Quadrant, dir: Direction, up: QuadTree?): QuadTree?
    requires father in s && |s[father].children| == 4
    requires up != null ==> up.cell in s && |s[up.cell].children| == 4
  {
    if !OnSide(q, dir) then s[father].children[Index(Mirror(q, dir))]
    else if up == null || s[up.cell].isLeaf then up
    else s[up.cell].children[Index(Mirror(q, dir))]
  }

  /** The father's neighbour decides the neighbour. */
  lemma NeighbourFromFather(m: NodeMap, s: State, n: QuadTree, dir: Direction, up: QuadTree?)
    requires Linked(m, s) && Names(m, n) && n.father != null && Names(m, n.father) && |s[n.father.cell].children| == 4
    requires n.cell.Quarter? && NeighbourIs(m, s, n.father.cell, dir, up)
    ensures up != null ==> up.cell in s && |s[up.cell].children| == 4
    ensures NeighbourIs(m, s, n.cell, dir, FromFather(m, s, n.father.cell, n.cell.quadrant, dir, up))
  {
    FatherKnowsChild(m, s, n);
    ShapeOfTree(m, s);
    CoveringOfAdjacent(Shape(s), n.cell, dir);
    if up != null {
      var u := Covering(Shape(s), Adjacent(n.cell.father, dir));
      assert FixedAt(m, u) && LinksOk(m, s, u);
    }
  }

  ghost function Lookup(m: NodeMap, n: QuadTree, dir: Direction): (r: QuadTree?)
    requires Linked(m, Snap(m)) && Names(m, n)
    reads m.Values
    ensures r == null || Names(m, r)
  {
    match dir
    case North => n.GetNorthNeighbor(m)
    case South => n.GetSouthNeighbor(m)
    case East => n.GetEastNeighbor(m)
    case West => n.GetWestNeighbor(m)
  }

  lemma LookupCases(m: NodeMap, n: QuadTree)
    requires Linked(m, Snap(m)) && Names(m, n)
    ensures Lookup(m, n, North) == n.GetNorthNeighbor(m) && Lookup(m, n, South) == n.GetSouthNeighbor(m)
    ensures Lookup(m, n, East) == n.GetEastNeighbor(m) && Lookup(m, n, West) == n.GetWestNeighbor(m)
  {
  }

  /** All four lookups are the same recursion, mirrored. */
  lemma {:induction false} LookupUnfolds(m: NodeMap, n: QuadTree, q: Quadrant, dir: Direction)
    requires Linked(m, Snap(m)) && Names(m, n) && n.father != null && Names(m, n.father)
    requires |n.father.children| == 4 && forall r :: n.father.children[Index(r)] == n <==> r == q
    ensures var up := Lookup(m, n.father, dir);
            (up != null ==> |up.children| == 4) &&
            Lookup(m, n, dir) == FromFather(m, Snap(m), n.father.cell, q, dir, up)
  {
    assert n.father.IsChild(n, NE) <==> q == NE;
    assert n.father.IsChild(n, NW) <==> q == NW;
    assert n.father.IsChild(n, SW) <==> q == SW;
    assert n.father.IsChild(n, SE) <==> q == SE;
    var up := Lookup(m, n.father, dir);
    assert up != null ==> LinksOk(m, Snap(m), up.cell);
  }

  /** The pointer recursion refines cell arithmetic. */
  lemma {:induction false} LookupFindsNeighbour(m: NodeMap, n: QuadTree, dir: Direction)
    requires Linked(m, Snap(m)) && Names(m, n)
    ensures NeighbourIs(m, Snap(m), n.cell, dir, Lookup(m, n, dir))
    decreases n.depth
  {
    assert FixedAt(m, n.cell);
    if n.father == null {
      assert Lookup(m, n, dir) == null;
    } else {
      FatherKnowsChild(m, Snap(m), n);
      LookupUnfolds(m, n, n.cell.quadrant, dir);
      LookupFindsNeighbour(m, n.father, dir);
      NeighbourFromFather(m, Snap(m), n, dir, Lookup(m, n.father, dir));
    }
  }

  /** A node found by a query is not deeper than the node that asked, and a leaf when it is shallower. */
  lemma ShallowNeighbourIsLeaf(m: NodeMap, n: QuadTree, dir: Direction)
    requires Linked(m, Snap(m)) && Names(m, n)
    ensures var r := Lookup(m, n, dir); r != null ==> r.depth <= n.depth && (r.depth < n.depth ==> r.isLeaf)
  {
    LookupFindsNeighbour(m, n, dir);
    ShapeOfTree(m, Snap(m));
    assert FixedAt(m, n.cell);
    if HasAdjacent(n.cell, dir) {
      var a := Adjacent(n.cell, dir);
      CoveringIsDeepest(Shape(Snap(m)), a);
      UnderIsDeeper(a, Covering(Shape(Snap(m)), a));
      assert FixedAt(m, Covering(Shape(Snap(m)), a));
    }
  }

  /** The node a query finds, in terms of the adjacent cell. */
  lemma LookupLevel(m: NodeMap, n: QuadTree, dir: Direction)
    requires Linked(m, Snap(m)) && Names(m, n) && HasAdjacent(n.cell, dir)
    ensures var r, a := Lookup(m, n, dir), Adjacent(n.cell, dir);
            Names(m, r) && (r.depth == n.depth <==> r.cell == a) && (a in Shape(Snap(m)) <==> r.cell == a && !r.isLeaf)
  {
    var inner, a := Shape(Snap(m)), Adjacent(n.cell, dir);
    LookupFindsNeighbour(m, n, dir);
    ShapeOfTree(m, Snap(m));
    CoveringIsDeepest(inner, a);
    assert FixedAt(m, n.cell) && FixedAt(m, Covering(inner, a));
    assert a in inner ==> Exists(inner, a);
  }

  lemma ChildrenSplit(m: NodeMap, r: QuadTree, q: Quadrant)
    requires Linked(m, Snap(m)) && Names(m, r) && !r.isLeaf
    ensures |r.children| == 4 && Names(m, r.GetChild(q)) &&
      (!r.GetChild(q).isLeaf <==> Quarter(r.cell, q) in Shape(Snap(m)))
  {
    ChildrenNamed(m, Snap(m), r);
    assert LinksOk(m, Snap(m), r.cell);
  }

  lemma DeepBehindIff(m: NodeMap, n: QuadTree, dir: Direction, q1: Quadrant, q2: Quadrant)
    requires Linked(m, Snap(m)) && Names(m, n)
    requires forall q :: OnSide(q, Opposite(dir)) <==> q == q1 || q == q2
    ensures n.IsDeepBehind(Lookup(m, n, dir), q1, q2, m) <==> NeedsRefinementTowards(Shape(Snap(m)), n.cell, dir)
  {
    hide Linked, OnSide, Opposite, HasAdjacent, Adjacent, Lookup, Snap;
    var r := Lookup(m, n, dir);
    if HasAdjacent(n.cell, dir) {
      LookupLevel(m, n, dir);
      if !r.isLeaf {
        ChildrenSplit(m, r, q1);
        ChildrenSplit(m, r, q2);
      }
    } else {
      LookupFindsNeighbour(m, n, dir);
    }
  }

  /** The refinement test on pointers is the refinement test on shapes. */
  lemma NeedToRefineIff(m: NodeMap, n: QuadTree)
    requires Linked(m, Snap(m)) && Names(m, n)
    ensures n.NeedToRefine(m) <==> NeedsRefinement(Shape(Snap(m)), n.cell)
  {
    DeepBehindIff(m, n, North, SW, SE);
    DeepBehindIff(m, n, West, SE, NE);
    DeepBehindIff(m, n, South, NE, NW);
    DeepBehindIff(m, n, East, NW, SW);
  }

  // ---- subtrees ----

  ghost function Subtree(m: NodeMap, top: Cell): set<QuadTree> {
    set c | c in m && Under(c, top) :: m[c]
  }

  ghost function Below(m: NodeMap, top: Cell): set<QuadTree> {
    set c | c in m && Under(c, top) && c != top :: m[c]
  }

  /** A node without children is its whole subtree. */
  lemma {:induction false} NothingBelow(m: NodeMap, top: Cell, c: Cell)
    requires Fixed(m) && c in m && Under(c, top) && forall q :: Quarter(top, q) !in m
    ensures c == top
  {
    if c != top {
      assert FixedAt(m, c);
      assert c == Quarter(c.father, c.quadrant);
      if c.father != top {
        NothingBelow(m, top, c.father);
      }
    }
  }

  /** What a leaf stores and accepts. */
  lemma LeafSubtree(m: NodeMap, s: State, top: Cell, p: Point)
    requires Fixed(m) && s.Keys == m.Keys && top in m && forall q :: Quarter(top, q) !in m
    ensures forall c :: c in m && Under(c, top) <==> c == top
    ensures Elements(Stored(s, top), s[top].pnts)
    ensures Accepts(m, s, top, p) <==> m[top].square.Contains(p) && forall q :: q in s[top].pnts ==> !Close(q, p)
  {
    forall c | c in m && Under(c, top)
      ensures c == top
    {
      NothingBelow(m, top, c);
    }
  }

  lemma StoredInChildren(s: State, top: Cell)
    requires top in s
    ensures forall p :: p in Stored(s, top) <==> p in s[top].pnts || p in StoredBelow(s, top)
  {
    forall p | p in Stored(s, top)
      ensures p in s[top].pnts || p in StoredBelow(s, top)
    {
      var c :| c in s && Under(c, top) && p in s[c].pnts;
      if c != top {
        var q := UnderQuarter(c, top);
        assert p in Stored(s, Quarter(top, q));
        match q { case NE => case NW => case SW => case SE => }
      }
    }
    forall p | p in StoredBelow(s, top)
      ensures p in Stored(s, top)
    {
      var q := if p in Stored(s, Quarter(top, NE)) then NE else if p in Stored(s, Quarter(top, NW)) then NW
               else if p in Stored(s, Quarter(top, SW)) then SW else SE;
      var c :| c in s && Under(c, Quarter(top, q)) && p in s[c].pnts;
      QuarterIsUnder(c, top, q);
    }
  }

  lemma SquareOfChild(m: NodeMap, top: Cell, q: Quadrant)
    requires Root in m && Placed(m) && top in m && Quarter(top, q) in m
    ensures m[Quarter(top, q)].square == m[top].square.Part(q) && m[top].square.Even()
  {
    SquareOfEven(m[Root].square, top);
    assert PlacedAt(m, top) && PlacedAt(m, Quarter(top, q));
  }

  /** Insertion at an inner node is insertion at the one child around the point. */
  lemma AcceptsInChild(m: NodeMap, s: State, top: Cell, p: Point)
    requires Fixed(m) && Placed(m) && s.Keys == m.Keys && top in m && HasChildren(m, s, top) && s[top].pnts == []
    ensures Accepts(m, s, top, p) <==> ChildAccepts(m, s, top, p)
  {
    if Accepts(m, s, top, p) {
      var q := PartWith(m[top].square, p);
      SquareOfChild(m, top, q);
      forall c, r | c in m && Under(c, Quarter(top, q)) && m[c].square.Contains(p) && r in s[c].pnts
        ensures !Close(r, p)
      {
        QuarterIsUnder(c, top, q);
      }
      assert Accepts(m, s, Quarter(top, q), p);
    }
    if q :| Quarter(top, q) in m && Accepts(m, s, Quarter(top, q), p) {
      SquareOfChild(m, top, q);
      PartContains(m[top].square, p, q);
      forall c, r | c in m && Under(c, top) && m[c].square.Contains(p) && r in s[c].pnts
        ensures !Close(r, p)
      {
        var a := UnderQuarter(c, top);
        assert PlacedAt(m, c) && PlacedAt(m, Quarter(top, a));
        SquareOfAncestor(m[Root].square, c, Quarter(top, a), p);
        SquareOfChild(m, top, a);
      }
    }
  }

  /** A change below one cell leaves disjoint subtrees as valid and as full as they were. */
  lemma OtherSubtreeKept(m: NodeMap, s: State, m': NodeMap, s': State, changed: Cell, other: Cell)
    requires Grown(m, s, m', s', changed) && ValidUnder(m, s, other)
    requires forall c :: Under(c, other) ==> !Under(c, changed)
    ensures ValidUnder(m', s', other) && Stored(s', other) == Stored(s, other)
  {
    forall c | c in m' && Under(c, other)
      ensures LinksOk(m', s', c) && PointsOk(m', s', c) && c in m && s'[c] == s[c]
    {
      assert LinksOk(m, s, c) && PointsOk(m, s, c);
      assert forall q :: Under(Quarter(c, q), other);
    }
  }

  lemma SiblingsApart(top: Cell, q: Quadrant, r: Quadrant)
    requires q != r
    ensures forall c :: Under(c, Quarter(top, r)) ==> !Under(c, Quarter(top, q))
  {
    forall c | Under(c, Quarter(top, r)) && Under(c, Quarter(top, q))
      ensures false
    {
      QuartersDisjoint(c, top, q, r);
    }
  }

  lemma BelowQuarter(top: Cell, q: Quadrant)
    ensures forall c :: Under(c, Quarter(top, q)) ==> Under(c, top) && c != top
  {
    forall c | Under(c, Quarter(top, q))
      ensures Under(c, top) && c != top
    {
      QuarterIsUnder(c, top, q);
    }
  }

  lemma NamedOnce(m: NodeMap, n: QuadTree)
    requires Fixed(m) && Names(m, n)
    ensures forall c :: c in m && m[c] == n ==> c == n.cell
  {
    forall c | c in m && m[c] == n
      ensures c == n.cell
    {
      assert FixedAt(m, c);
    }
  }

  // ---- composing effects ----

  /** The other children are untouched when one child takes the point. */
  lemma SiblingKept(m: NodeMap, s: State, m': NodeMap, s': State, top: Cell, q: Quadrant, r: Quadrant)
    requires Grown(m, s, m', s', Quarter(top, q)) && ValidUnder(m, s, Quarter(top, r)) && r != q
    requires Quarter(top, r) in m
    ensures ValidUnder(m', s', Quarter(top, r)) && Stored(s', Quarter(top, r)) == Stored(s, Quarter(top, r))
    ensures s'[Quarter(top, r)] == s[Quarter(top, r)]
  {
    SiblingsApart(top, q, r);
    OtherSubtreeKept(m, s, m', s', Quarter(top, q), Quarter(top, r));
    assert Under(Quarter(top, r), Quarter(top, r));
  }

  lemma GrownHigher(m: NodeMap, s: State, m': NodeMap, s': State, top: Cell, q: Quadrant)
    requires Grown(m, s, m', s', Quarter(top, q)) && top in m
    ensures Grown(m, s, m', s', top) && s'[top] == s[top]
  {
    BelowQuarter(top, q);
    assert !Under(top, Quarter(top, q));
  }

  /** One child took the point. */
  lemma InsertedInChild(m: NodeMap, s: State, m': NodeMap, s': State, top: Cell, q: Quadrant, p: Point)
    requires top in m && Placed(m) && (forall r :: Quarter(top, r) in m)
    requires forall r :: ValidUnder(m, s, Quarter(top, r))
    requires Inserted(m, s, m', s', Quarter(top, q), p, true)
    ensures InsertedBelow(m, s, m', s', top, p, true)
  {
    GrownHigher(m, s, m', s', top, q);
    forall r
      ensures ValidUnder(m', s', Quarter(top, r))
      ensures Stored(s', Quarter(top, r)) == Stored(s, Quarter(top, r)) + (if r == q then {p} else {})
      ensures r != q ==> s'[Quarter(top, r)] == s[Quarter(top, r)]
    {
      if r != q {
        SiblingKept(m, s, m', s', top, q, r);
      }
    }
    StoredOneMore(s, s', top, q, p);
    forall bound: nat | ShallowChildren(s, top, bound) && bound < m[top].maxPointsPerLeaf
      ensures m' == m && ShallowChildren(s', top, bound + 1)
    {
      assert PlacedAt(m, top) && PlacedAt(m, Quarter(top, q));
      ShallowOneMore(s, s', top, q, bound);
    }
  }

  /** What is known about a node of a valid subtree when it is asked to take a point. */
  lemma NodeFacts(m: NodeMap, s: State, n: QuadTree)
    requires Fixed(m) && Placed(m) && Names(m, n) && ValidUnder(m, s, n.cell)
    ensures n in Subtree(m, n.cell) && Below(m, n.cell) <= Subtree(m, n.cell)
    ensures forall c :: c in m && m[c] == n ==> c == n.cell
    ensures n.maxPointsPerLeaf > 0
    ensures !s[n.cell].isLeaf ==> HasChildren(m, s, n.cell) && s[n.cell].pnts == []
    ensures s[n.cell].isLeaf ==>
              |s[n.cell].pnts| <= n.maxPointsPerLeaf && GoodPoints(n.square, s[n.cell].pnts) &&
              s[n.cell].children == [null, null, null, null] && forall q :: Quarter(n.cell, q) !in m
  {
    assert LinksOk(m, s, n.cell) && PointsOk(m, s, n.cell) && PlacedAt(m, n.cell);
    NamedOnce(m, n);
  }

  lemma OutsideRejected(m: NodeMap, s: State, top: Cell, p: Point)
    requires Fixed(m) && Placed(m) && top in m && ValidUnder(m, s, top) && !m[top].square.Contains(p)
    ensures Inserted(m, s, m, s, top, p, false) && !Accepts(m, s, top, p)
  {
  }

  lemma LeafRejected(m: NodeMap, s: State, top: Cell, p: Point)
    requires Fixed(m) && Placed(m) && top in m && ValidUnder(m, s, top) && s[top].isLeaf
    requires m[top].square.Contains(p) && exists q :: q in s[top].pnts && Close(q, p)
    ensures Inserted(m, s, m, s, top, p, false) && !Accepts(m, s, top, p)
  {
  }

  lemma GoodPointsAppend(square: Square, pnts: seq<Point>, p: Point)
    requires GoodPoints(square, pnts) && square.Contains(p) && forall q :: q in pnts ==> !Close(q, p)
    ensures GoodPoints(square, pnts + [p])
  {
  }

  /** A leaf with room takes the point. */
  lemma LeafTaken(m: NodeMap, s: State, s': State, top: Cell, p: Point)
    requires Fixed(m) && Placed(m) && top in m && ValidUnder(m, s, top) && s[top].isLeaf
    requires m[top].square.Contains(p) && forall q :: q in s[top].pnts ==> !Close(q, p)
    requires |s[top].pnts| < m[top].maxPointsPerLeaf
    requires s' == s[top := NodeState(true, s[top].children, s[top].pnts + [p])]
    ensures Inserted(m, s, m, s', top, p, true) && Accepts(m, s, top, p)
  {
    assert LinksOk(m, s, top) && PointsOk(m, s, top);
    LeafSubtree(m, s, top, p);
    LeafSubtree(m, s', top, p);
    GoodPointsAppend(m[top].square, s[top].pnts, p);
    assert LinksOk(m, s', top) && PointsOk(m, s', top);
  }

  /** A full leaf takes the point and splits. */
  lemma LeafSplit(m: NodeMap, s: State, s1: State, m': NodeMap, s': State, top: Cell, p: Point)
    requires Fixed(m) && top in m && ValidUnder(m, s, top) && s[top].isLeaf
    requires m[top].square.Contains(p) && forall q :: q in s[top].pnts ==> !Close(q, p)
    requires |s[top].pnts| == m[top].maxPointsPerLeaf
    requires s1 == s[top := NodeState(true, s[top].children, s[top].pnts + [p])] && SplitInto(m, s1, m', s', top)
    ensures Inserted(m, s, m', s', top, p, true) && Accepts(m, s, top, p)
  {
    assert LinksOk(m, s, top);
    LeafSubtree(m, s, top, p);
  }

  lemma NotInserted(m: NodeMap, s: State, m': NodeMap, s': State, top: Cell, p: Point)
    requires Inserted(m, s, m', s', top, p, false)
    ensures m' == m && s' == s && !Accepts(m, s, top, p)
  {
  }

  /** No child took the point. */
  lemma NoneInserted(m: NodeMap, s: State, top: Cell, p: Point)
    requires Fixed(m) && Placed(m) && s.Keys == m.Keys && top in m && forall q :: ValidUnder(m, s, Quarter(top, q))
    requires forall q :: Quarter(top, q) in m && !Accepts(m, s, Quarter(top, q), p)
    ensures InsertedBelow(m, s, m, s, top, p, false)
  {
  }

  lemma NotBelowItself(m: NodeMap, n: QuadTree)
    requires Fixed(m) && Names(m, n)
    ensures n !in Below(m, n.cell)
  {
    NamedOnce(m, n);
  }

  lemma StoredOneMore(s: State, s': State, top: Cell, q: Quadrant, p: Point)
    requires forall r :: Stored(s', Quarter(top, r)) == Stored(s, Quarter(top, r)) + (if r == q then {p} else {})
    ensures StoredBelow(s', top) == StoredBelow(s, top) + {p}
  {
    UnionOneMore(Stored(s, Quarter(top, NE)), Stored(s, Quarter(top, NW)), Stored(s, Quarter(top, SW)),
      Stored(s, Quarter(top, SE)), q, p);
  }

  lemma UnionOneMore(ne: set<Point>, nw: set<Point>, sw: set<Point>, se: set<Point>, q: Quadrant, p: Point)
    ensures ne + nw + sw + se + {p} ==
            (ne + if NE == q then {p} else {}) + (nw + if NW == q then {p} else {}) +
            (sw + if SW == q then {p} else {}) + (se + if SE == q then {p} else {})
  {
  }

  lemma ShallowOneMore(s: State, s': State, top: Cell, q: Quadrant, bound: nat)
    requires ShallowChildren(s, top, bound) && s.Keys == s'.Keys && Quarter(top, q) in s
    requires forall r :: r != q && Quarter(top, r) in s ==> s'[Quarter(top, r)] == s[Quarter(top, r)]
    requires s'[Quarter(top, q)].isLeaf && |s'[Quarter(top, q)].pnts| <= bound + 1
    ensures ShallowChildren(s', top, bound + 1)
  {
  }

  lemma ValidFromChildren(m: NodeMap, s: State, top: Cell)
    requires s.Keys == m.Keys && top in m && HasChildren(m, s, top) && !s[top].isLeaf && s[top].pnts == []
    requires forall q :: ValidUnder(m, s, Quarter(top, q))
    ensures ValidUnder(m, s, top)
  {
    forall c | c in m && Under(c, top)
      ensures LinksOk(m, s, c) && PointsOk(m, s, c)
    {
      if c != top {
        var q := UnderQuarter(c, top);
        assert ValidUnder(m, s, Quarter(top, q));
      }
    }
  }

  lemma ValidChildren(m: NodeMap, s: State, top: Cell)
    requires ValidUnder(m, s, top)
    ensures forall q :: ValidUnder(m, s, Quarter(top, q))
  {
    forall q
      ensures ValidUnder(m, s, Quarter(top, q))
    {
      BelowQuarter(top, q);
    }
  }

  /** Offering a point to the children is the insertion at an inner node. */
  lemma InnerInserted(m: NodeMap, s: State, m': NodeMap, s': State, top: Cell, p: Point, ok: bool)
    requires Fixed(m) && Placed(m) && top in m && s.Keys == m.Keys && !s[top].isLeaf && ValidUnder(m, s, top)
    requires InsertedBelow(m, s, m', s', top, p, ok)
    ensures Inserted(m, s, m', s', top, p, ok) && (ok <==> Accepts(m, s, top, p))
  {
    assert LinksOk(m, s, top) && PointsOk(m, s, top);
    AcceptsInChild(m, s, top, p);
    ValidFromChildren(m', s', top);
    StoredInChildren(s, top);
    StoredInChildren(s', top);
  }

  // ---- termination of insertion ----

  ghost function CellCount(m: NodeMap, top: Cell): nat {
    |set c | c in m && Under(c, top)|
  }

  /** A leaf with room takes a point at once; any other node may descend or split. */
  ghost function Weight(m: NodeMap, s: State, c: Cell): nat
    requires c in m && c in s
  {
    if s[c].isLeaf && |s[c].pnts| < m[c].maxPointsPerLeaf then 0 else 4 * CellCount(m, c)
  }

  ghost function Max(a: nat, b: nat): nat {
    if a < b then b else a
  }

  ghost function ChildrenWeight(m: NodeMap, s: State, top: Cell): nat
    requires s.Keys == m.Keys && forall q :: Quarter(top, q) in m
  {
    Max(Max(Weight(m, s, Quarter(top, NE)), Weight(m, s, Quarter(top, NW))),
        Max(Weight(m, s, Quarter(top, SW)), Weight(m, s, Quarter(top, SE))))
  }

  lemma ChildHasFewerCells(m: NodeMap, top: Cell, q: Quadrant)
    requires top in m
    ensures CellCount(m, Quarter(top, q)) < CellCount(m, top)
  {
    var all := set c | c in m && Under(c, top);
    var part := set c | c in m && Under(c, Quarter(top, q));
    BelowQuarter(top, q);
    assert top in all;
    assert all == part + (all - part);
    assert top in all - part;
  }

  lemma ChildrenWeighLess(m: NodeMap, s: State, top: Cell)
    requires s.Keys == m.Keys && top in m && HasChildren(m, s, top) && !s[top].isLeaf
    ensures ChildrenWeight(m, s, top) + 1 < Weight(m, s, top)
  {
    ChildHasFewerCells(m, top, NE);
    ChildHasFewerCells(m, top, NW);
    ChildHasFewerCells(m, top, SW);
    ChildHasFewerCells(m, top, SE);
  }

  lemma FullNodeWeighs(m: NodeMap, s: State, c: Cell)
    requires c in m && c in s && !(s[c].isLeaf && |s[c].pnts| < m[c].maxPointsPerLeaf)
    ensures Weight(m, s, c) >= 4
  {
    var all := set x | x in m && Under(x, c);
    assert c in all;
    assert all == {c} + (all - {c});
  }

  // ---- splitting ----

  ghost function Attached(m: NodeMap, c: Cell, ne: QuadTree, nw: QuadTree, sw: QuadTree, se: QuadTree): NodeMap {
    m[Quarter(c, NE) := ne][Quarter(c, NW) := nw][Quarter(c, SW) := sw][Quarter(c, SE) := se]
  }

  ghost predicate NewChild(n: QuadTree, q: Quadrant, x: QuadTree) {
    x.father == n && x.depth == n.depth + 1 && x.maxPointsPerLeaf == n.maxPointsPerLeaf &&
    x.cell == Quarter(n.cell, q) && x.square == n.square.Part(q)
  }

  lemma AttachedIsFixed(m: NodeMap, n: QuadTree, ne: QuadTree, nw: QuadTree, sw: QuadTree, se: QuadTree)
    requires Fixed(m) && Placed(m) && Names(m, n) && forall q :: Quarter(n.cell, q) !in m
    requires NewChild(n, NE, ne) && NewChild(n, NW, nw) && NewChild(n, SW, sw) && NewChild(n, SE, se)
    ensures var m' := Attached(m, n.cell, ne, nw, sw, se); Fixed(m') && Placed(m')
  {
    var m' := Attached(m, n.cell, ne, nw, sw, se);
    assert FixedAt(m, n.cell) && PlacedAt(m, n.cell);
    forall c | c in m'
      ensures FixedAt(m', c)
      ensures PlacedAt(m', c)
    {
      if c in m {
        assert FixedAt(m, c) && PlacedAt(m, c);
      }
    }
  }

  /** How far a splitting node has handed down its points. */
  ghost predicate Distributed(m: NodeMap, s: State, m': NodeMap, s': State, top: Cell, pnts: seq<Point>) {
    top in m && Grown(m, s, m', s', top) && Fixed(m') && Placed(m') && HasChildren(m', s', top) &&
    (forall q :: ValidUnder(m', s', Quarter(top, q))) &&
    Elements(StoredBelow(s', top), pnts)
  }

  /** Four fresh, empty leaves are valid subtrees. */
  lemma AttachedChildren(m: NodeMap, s: State, m': NodeMap, s': State, top: Cell)
    requires Fixed(m) && top in m && (forall q :: Quarter(top, q) !in m)
    requires Grown(m, s, m', s', top) && Fixed(m') && Placed(m') && HasChildren(m', s', top)
    requires forall c :: c in m' ==> c in m || (c.Quarter? && c.father == top)
    requires forall q :: s'[Quarter(top, q)] == NodeState(true, [null, null, null, null], [])
    ensures Distributed(m, s, m', s', top, []) && ShallowChildren(s', top, 0)
  {
    forall q
      ensures ValidUnder(m', s', Quarter(top, q)) && Stored(s', Quarter(top, q)) == {}
    {
      EmptyLeaf(m, m', s', top, q);
    }
  }

  lemma EmptyLeaf(m: NodeMap, m': NodeMap, s': State, top: Cell, q: Quadrant)
    requires Fixed(m) && Fixed(m') && m'.Keys == s'.Keys && (forall r :: Quarter(top, r) !in m)
    requires forall c :: c in m' ==> c in m || (c.Quarter? && c.father == top)
    requires Quarter(top, q) in m' && s'[Quarter(top, q)] == NodeState(true, [null, null, null, null], [])
    ensures ValidUnder(m', s', Quarter(top, q)) && Stored(s', Quarter(top, q)) == {}
  {
    var leaf := Quarter(top, q);
    forall r
      ensures Quarter(leaf, r) !in m'
    {
      assert Depth(leaf) == Depth(top) + 1;
      assert Quarter(leaf, r) in m ==> FixedAt(m, Quarter(leaf, r));
    }
    LeafSubtree(m', s', leaf, Point(0.0, 0.0, 0));
  }

  /** Redistribution never rejects: the points of one leaf are not close to each other. */
  lemma SomeChildAccepts(m: NodeMap, s: State, top: Cell, pnts: seq<Point>, j: nat)
    requires Fixed(m) && Placed(m) && s.Keys == m.Keys && top in m && HasChildren(m, s, top)
    requires j < |pnts| && GoodPoints(m[top].square, pnts) && Elements(StoredBelow(s, top), pnts[..j])
    ensures ChildAccepts(m, s, top, pnts[j])
  {
    var p := pnts[j];
    var q := PartWith(m[top].square, p);
    SquareOfChild(m, top, q);
    forall c, r | c in m && Under(c, Quarter(top, q)) && r in s[c].pnts
      ensures !Close(r, p)
    {
      assert r in Stored(s, Quarter(top, q));
      assert r in pnts[..j];
    }
    assert Accepts(m, s, Quarter(top, q), p);
  }

  /** Handing a point down is less work than the split that asks for it. */
  lemma SplittingTerminates(m: NodeMap, s: State, top: Cell, pnts: seq<Point>, j: nat)
    requires s.Keys == m.Keys && top in m && HasChildren(m, s, top) && j < |pnts| && GoodPoints(m[top].square, pnts)
    requires m[top].square.Even() && m[top].maxPointsPerLeaf > 0
    requires |pnts| <= m[top].maxPointsPerLeaf ==> ShallowChildren(s, top, j)
    requires forall q :: m[Quarter(top, q)].maxPointsPerLeaf == m[top].maxPointsPerLeaf
    ensures var side := m[top].square.Side();
            Halvings(side / 2.0) < Halvings(side) ||
            (Halvings(side / 2.0) == Halvings(side) && ChildrenWeight(m, s, top) == 0)
  {
    HalvingsDecrease(m[top].square.Side());
    if |pnts| > 1 {
      assert pnts[0] in pnts && pnts[1] in pnts;
      DistinctPointsNeedRoom(m[top].square, pnts[0], pnts[1]);
    } else {
      forall q
        ensures Weight(m, s, Quarter(top, q)) == 0
      {
      }
    }
  }

  /** Handing down one more point. */
  lemma DistributedOneMore(m0: NodeMap, s0: State, m: NodeMap, s: State, m': NodeMap, s': State, n: QuadTree,
                           pnts: seq<Point>, j: nat, added: bool)
    requires j < |pnts| && Names(m, n) && Distributed(m0, s0, m, s, n.cell, pnts[..j])
    requires ChildAccepts(m, s, n.cell, pnts[j]) && InsertedBelow(m, s, m', s', n.cell, pnts[j], added)
    ensures Distributed(m0, s0, m', s', n.cell, pnts[..j + 1]) && Names(m', n) && s'[n.cell] == s[n.cell]
    ensures forall c :: c in m ==> c in m' && m'[c] == m[c]
    ensures j < n.maxPointsPerLeaf && ShallowChildren(s, n.cell, j) ==> m' == m && ShallowChildren(s', n.cell, j + 1)
  {
    assert pnts[..j + 1] == pnts[..j] + [pnts[j]];
  }

  /** What a splitting node knows before it hands down its j-th point. */
  lemma ReadyToDistribute(m0: NodeMap, s0: State, m: NodeMap, s: State, n: QuadTree, pnts: seq<Point>, j: nat)
    requires j < |pnts| && Fixed(m0) && Names(m, n) && Distributed(m0, s0, m, s, n.cell, pnts[..j])
    requires (forall q :: Quarter(n.cell, q) !in m0) && GoodPoints(n.square, pnts)
    requires |pnts| <= n.maxPointsPerLeaf ==> ShallowChildren(s, n.cell, j)
    ensures Fixed(m) && Placed(m) && HasChildren(m, s, n.cell) && forall q :: ValidUnder(m, s, Quarter(n.cell, q))
    ensures ChildAccepts(m, s, n.cell, pnts[j])
    ensures forall x :: x in Below(m, n.cell) ==> exists c :: c in m && c !in m0 && m[c] == x
    ensures Halvings(n.square.Side() / 2.0) < Halvings(n.square.Side()) ||
            (Halvings(n.square.Side() / 2.0) == Halvings(n.square.Side()) && ChildrenWeight(m, s, n.cell) == 0)
  {
    var top := n.cell;
    SomeChildAccepts(m, s, top, pnts, j);
    ChildSquares(m, top);
    assert PlacedAt(m, Root) && PlacedAt(m, top);
    SplittingTerminates(m, s, top, pnts, j);
    BelowIsNew(m0, s0, m, s, top);
  }

  lemma AfterDistribution(m0: NodeMap, s0: State, m: NodeMap, s: State, top: Cell, pnts: seq<Point>, n: QuadTree)
    requires Distributed(m0, s0, m, s, top, pnts) && n.cell == top && Names(m, n)
    ensures forall c :: c in m && c != top ==> m[c] != n
  {
    NamedOnce(m, n);
  }

  ghost predicate IsEmptyLeaf(s: State, c: Cell) {
    c in s && s[c] == NodeState(true, [null, null, null, null], [])
  }

  lemma AttachedNodes(m: NodeMap, c: Cell, ne: QuadTree, nw: QuadTree, sw: QuadTree, se: QuadTree)
    requires forall q :: Quarter(c, q) !in m
    ensures var m' := Attached(m, c, ne, nw, sw, se);
            (forall x :: x in m ==> x in m' && m'[x] == m[x]) &&
            Quarter(c, NE) in m' && m'[Quarter(c, NE)] == ne && Quarter(c, NW) in m' && m'[Quarter(c, NW)] == nw &&
            Quarter(c, SW) in m' && m'[Quarter(c, SW)] == sw && Quarter(c, SE) in m' && m'[Quarter(c, SE)] == se &&
            forall x :: x in m' && x !in m ==> m'[x] in {ne, nw, sw, se}
  {
  }

  lemma AttachedReady(m: NodeMap, s: State, n: QuadTree, ne: QuadTree, nw: QuadTree, sw: QuadTree, se: QuadTree,
        s': State)
    requires Fixed(m) && Placed(m) && Names(m, n) && s.Keys == m.Keys && forall q :: Quarter(n.cell, q) !in m
    requires NewChild(n, NE, ne) && NewChild(n, NW, nw) && NewChild(n, SW, sw) && NewChild(n, SE, se)
    requires var m' := Attached(m, n.cell, ne, nw, sw, se);
             s'.Keys == m'.Keys && s'[n.cell].children == [ne, nw, sw, se]
    requires forall c :: c in m && c != n.cell ==> s'[c] == s[c]
    requires IsEmptyLeaf(s', Quarter(n.cell, NE)) && IsEmptyLeaf(s', Quarter(n.cell, NW))
    requires IsEmptyLeaf(s', Quarter(n.cell, SW)) && IsEmptyLeaf(s', Quarter(n.cell, SE))
    ensures var m' := Attached(m, n.cell, ne, nw, sw, se);
            Distributed(m, s, m', s', n.cell, []) && ShallowChildren(s', n.cell, 0) && Names(m', n) &&
            forall c :: c in m' <==> c in m || (c.Quarter? && c.father == n.cell)
  {
    forall q
      ensures IsEmptyLeaf(s', Quarter(n.cell, q))
    {
      match q { case NE => case NW => case SW => case SE => }
    }
    AttachedIsFixed(m, n, ne, nw, sw, se);
    AttachedState(m, s, n, ne, nw, sw, se, s');
    AttachedChildren(m, s, Attached(m, n.cell, ne, nw, sw, se), s', n.cell);
  }

  /** The state right after the children have been attached. */
  lemma AttachedState(m: NodeMap, s: State, n: QuadTree, ne: QuadTree, nw: QuadTree, sw: QuadTree, se: QuadTree,
        s': State)
    requires s.Keys == m.Keys && Names(m, n) && forall q :: Quarter(n.cell, q) !in m
    requires var m' := Attached(m, n.cell, ne, nw, sw, se);
             s'.Keys == m'.Keys && s'[n.cell].children == [ne, nw, sw, se]
    requires forall c :: c in m && c != n.cell ==> s'[c] == s[c]
    requires forall q ::
      Quarter(n.cell, q) in s' && s'[Quarter(n.cell, q)] == NodeState(true, [null, null, null, null], [])
    ensures var m' := Attached(m, n.cell, ne, nw, sw, se);
            Grown(m, s, m', s', n.cell) && HasChildren(m', s', n.cell) &&
            forall c :: c in m' <==> c in m || (c.Quarter? && c.father == n.cell)
  {
    var m' := Attached(m, n.cell, ne, nw, sw, se);
    forall q
      ensures Quarter(n.cell, q) in m' && s'[n.cell].children[Index(q)] == m'[Quarter(n.cell, q)]
    {
      match q { case NE => case NW => case SW => case SE => }
    }
    forall c: Cell | c.Quarter? && c.father == n.cell
      ensures c in m'
    {
      assert c == Quarter(n.cell, c.quadrant);
    }
  }

  lemma ChildSquares(m: NodeMap, top: Cell)
    requires Root in m && Placed(m) && top in m
    ensures m[top].square.Even()
    ensures forall q :: Quarter(top, q) in m ==> m[Quarter(top, q)].maxPointsPerLeaf == m[top].maxPointsPerLeaf
  {
    SquareOfEven(m[Root].square, top);
    assert PlacedAt(m, top);
    assert forall q :: Quarter(top, q) in m ==> PlacedAt(m, Quarter(top, q));
  }

  /** Everything below a splitting leaf is new. */
  lemma BelowIsNew(m: NodeMap, s: State, m': NodeMap, s': State, top: Cell)
    requires Fixed(m) && Grown(m, s, m', s', top) && (forall q :: Quarter(top, q) !in m)
    ensures forall n :: n in Below(m', top) ==> exists c :: c in m' && c !in m && m'[c] == n
  {
    forall n | n in Below(m', top)
      ensures exists c :: c in m' && c !in m && m'[c] == n
    {
      var c :| c in m' && Under(c, top) && c != top && m'[c] == n;
      if c in m {
        NothingBelow(m, top, c);
      }
    }
  }

  lemma ChildFacts(m: NodeMap, s: State, n: QuadTree, q: Quadrant)
    requires Fixed(m) && Placed(m) && Names(m, n) && s.Keys == m.Keys && HasChildren(m, s, n.cell)
    ensures Names(m, s[n.cell].children[Index(q)]) && s[n.cell].children[Index(q)].cell == Quarter(n.cell, q)
    ensures Subtree(m, Quarter(n.cell, q)) <= Below(m, n.cell)
    ensures m[Quarter(n.cell, q)].square.Side() == n.square.Side() / 2.0
    ensures Weight(m, s, Quarter(n.cell, q)) <= ChildrenWeight(m, s, n.cell)
  {
    assert FixedAt(m, Quarter(n.cell, q));
    BelowQuarter(n.cell, q);
    SquareOfChild(m, n.cell, q);
    match q { case NE => case NW => case SW => case SE => }
  }

  /** The node at top has handed its points down and become an inner node. */
  ghost predicate Emptied(s: State, s': State, top: Cell) {
    top in s && s'.Keys == s.Keys && s'[top] == NodeState(false, s[top].children, []) &&
    forall c :: c in s && c != top ==> s'[c] == s[c]
  }

  lemma SplitFinished(m: NodeMap, s: State, attached: NodeMap, m': NodeMap, s1: State, s': State, top: Cell,
        pnts: seq<Point>)
    requires Distributed(m, s, m', s1, top, pnts) && s[top].pnts == pnts
    requires Emptied(s1, s', top)
    requires |pnts| <= m[top].maxPointsPerLeaf ==>
               m' == attached && ShallowChildren(s1, top, |pnts|) &&
               forall c :: c in attached <==> c in m || (c.Quarter? && c.father == top)
    ensures SplitInto(m, s, m', s', top)
  {
    forall q
      ensures ValidUnder(m', s', Quarter(top, q)) && Stored(s', Quarter(top, q)) == Stored(s1, Quarter(top, q))
    {
      UnaffectedBelow(m', s1, s', top, q);
    }
    forall q | |pnts| <= m[top].maxPointsPerLeaf
      ensures s'[Quarter(top, q)].isLeaf
    {
      assert Quarter(top, q) in m' && Depth(Quarter(top, q)) != Depth(top);
    }
    ValidFromChildren(m', s', top);
    StoredInChildren(s', top);
  }

  lemma UnaffectedBelow(m: NodeMap, s: State, s': State, top: Cell, q: Quadrant)
    requires Emptied(s, s', top) && ValidUnder(m, s, Quarter(top, q))
    ensures ValidUnder(m, s', Quarter(top, q)) && Stored(s', Quarter(top, q)) == Stored(s, Quarter(top, q))
  {
    BelowQuarter(top, q);
    forall c | c in m && Under(c, Quarter(top, q))
      ensures LinksOk(m, s', c) && PointsOk(m, s', c) && s'[c] == s[c]
    {
      assert LinksOk(m, s, c) && PointsOk(m, s, c);
    }
  }

  // ---- listing leaves ----

  /** The sequence holds the leaves below top, each once. */
  ghost predicate LeavesOf(m: NodeMap, s: State, top: Cell, leafs: seq<QuadTree>)
    requires s.Keys == m.Keys
  {
    (forall n :: n in leafs ==> Names(m, n) && Under(n.cell, top) && s[n.cell].isLeaf) &&
    (forall c :: c in m && Under(c, top) && s[c].isLeaf ==> m[c] in leafs) &&
    forall k, l :: 0 <= k < l < |leafs| ==> leafs[k] != leafs[l]
  }

  /** The leaves below the first k children. */
  ghost predicate LeavesOfFirst(m: NodeMap, s: State, top: Cell, k: nat, leafs: seq<QuadTree>)
    requires s.Keys == m.Keys
  {
    (forall n :: n in leafs ==>
      Names(m, n) && s[n.cell].isLeaf && exists q :: Index(q) < k && Under(n.cell, Quarter(top, q))) &&
    (forall c, q :: c in m && Index(q) < k && Under(c, Quarter(top, q)) && s[c].isLeaf ==> m[c] in leafs) &&
    forall i, j :: 0 <= i < j < |leafs| ==> leafs[i] != leafs[j]
  }

  lemma ChildIsNamed(m: NodeMap, s: State, n: QuadTree, q: Quadrant)
    requires Linked(m, s) && Names(m, n) && HasChildren(m, s, n.cell)
    ensures Names(m, s[n.cell].children[Index(q)]) && s[n.cell].children[Index(q)].cell == Quarter(n.cell, q)
  {
    assert FixedAt(m, Quarter(n.cell, q));
  }

  lemma NoLeavesYet(m: NodeMap, s: State, top: Cell)
    requires s.Keys == m.Keys
    ensures LeavesOfFirst(m, s, top, 0, [])
  {
  }

  lemma SingleLeaf(m: NodeMap, s: State, n: QuadTree)
    requires Linked(m, s) && Names(m, n) && s[n.cell].isLeaf
    ensures LeavesOf(m, s, n.cell, [n])
  {
    assert LinksOk(m, s, n.cell);
    LeafSubtree(m, s, n.cell, Point(0.0, 0.0, 0));
  }

  lemma LeavesOneMore(m: NodeMap, s: State, top: Cell, k: nat, found: seq<QuadTree>, more: seq<QuadTree>)
    requires s.Keys == m.Keys && k < 4
    requires LeavesOfFirst(m, s, top, k, found) && LeavesOf(m, s, Quarter(top, QUADRANTS[k]), more)
    ensures LeavesOfFirst(m, s, top, k + 1, found + more)
  {
    var q := QUADRANTS[k];
    assert Index(q) == k && forall r :: Index(r) < k + 1 <==> Index(r) < k || r == q;
    forall n | n in found + more
      ensures exists r :: Index(r) < k + 1 && Under(n.cell, Quarter(top, r))
    {
      if n in found {
        var r :| Index(r) < k && Under(n.cell, Quarter(top, r));
        assert Index(r) < k + 1;
      }
    }
    forall c, r | c in m && Index(r) < k + 1 && Under(c, Quarter(top, r)) && s[c].isLeaf
      ensures m[c] in found + more
    {
      assert r == q || Index(r) < k;
    }
    forall n | n in found && n in more
      ensures false
    {
      var r :| Index(r) < k && Under(n.cell, Quarter(top, r));
      QuartersDisjoint(n.cell, top, r, q);
    }
    forall i, j | 0 <= i < |found| <= j < |found| + |more|
      ensures (found + more)[i] != (found + more)[j]
    {
      assert found[i] in found && more[j - |found|] in more;
    }
  }

  lemma AllChildrenLeaves(m: NodeMap, s: State, top: Cell, found: seq<QuadTree>)
    requires s.Keys == m.Keys && top in m && !s[top].isLeaf && LeavesOfFirst(m, s, top, 4, found)
    ensures LeavesOf(m, s, top, found)
  {
    forall c | c in m && s[c].isLeaf && Under(c, top)
      ensures m[c] in found
    {
      var q := UnderQuarter(c, top);
      assert Index(q) < 4;
    }
    forall n | n in found
      ensures Under(n.cell, top)
    {
      var q :| Index(q) < 4 && Under(n.cell, Quarter(top, q));
      QuarterIsUnder(n.cell, top, q);
    }
  }

  // ---- balancing ----

  /** A split leaf of a valid tree: one cell more is split, and the points stay. */
  lemma SplitKeepsTree(m: NodeMap, s: State, m': NodeMap, s': State, c: Cell)
    requires ValidState(m, s) && c in m && s[c].isLeaf && SplitInto(m, s, m', s', c)
    ensures ValidState(m', s') && Shape(s') == Shape(s) + {c}
    ensures IsLeaf(Shape(s), c) && Stored(s', Root) == Stored(s, Root)
  {
    ShapeOfTree(m, s);
    assert LinksOk(m, s, c) && PointsOk(m, s, c);
    forall x | x in m'
      ensures LinksOk(m', s', x) && PointsOk(m', s', x)
    {
      if !Under(x, c) {
        assert LinksOk(m, s, x) && PointsOk(m, s, x);
        assert forall q :: Quarter(x, q) in m' && Quarter(x, q) !in m ==> Under(Quarter(x, q), c) && Quarter(x, q) != c;
      }
    }
    SplitShape(m, s, m', s', c);
    SplitStored(m, s, m', s', c);
  }

  lemma SplitShape(m: NodeMap, s: State, m': NodeMap, s': State, c: Cell)
    requires Fixed(m) && s.Keys == m.Keys && c in m && s[c].isLeaf && SplitInto(m, s, m', s', c) &&
      |s[c].pnts| <= m[c].maxPointsPerLeaf
    requires forall q :: Quarter(c, q) !in m
    ensures Shape(s') == Shape(s) + {c}
  {
    assert s'.Keys == m'.Keys;
    forall x | x in m'
      ensures s'[x].isLeaf <==> (x != c && (x in m ==> s[x].isLeaf))
    {
      if x in m {
        if Under(x, c) {
          NothingBelow(m, c, x);
        }
      } else {
        assert x == Quarter(c, x.quadrant);
      }
    }
  }

  lemma SplitStored(m: NodeMap, s: State, m': NodeMap, s': State, c: Cell)
    requires Fixed(m) && c in m && SplitInto(m, s, m', s', c) && forall q :: Quarter(c, q) !in m
    ensures Stored(s', Root) == Stored(s, Root)
  {
    LeafSubtree(m, s, c, Point(0.0, 0.0, 0));
    forall x: Cell
      ensures Under(x, Root)
    {
      AllUnderRoot(x);
    }
    assert Stored(s', c) == Stored(s, c);
    forall p | p in Stored(s, Root)
      ensures p in Stored(s', Root)
    {
      var x :| x in s && p in s[x].pnts;
      if Under(x, c) {
        assert p in Stored(s', c);
      }
    }
    forall p | p in Stored(s', Root)
      ensures p in Stored(s, Root)
    {
      var x :| x in s' && p in s'[x].pnts;
      if Under(x, c) {
        assert p in Stored(s', c);
      }
    }
  }

  /** What balancing promises about the shape before and after: the result is the least balanced
      shape that extends the given one, it is no deeper, and the points are the same. */
  ghost predicate LeastBalanced(s: State, s': State) {
    Shape(s) <= Shape(s') && IsShape(Shape(s')) && Balanced(Shape(s')) &&
    (forall other :: IsShape(other) && Balanced(other) && Shape(s) <= other ==> Shape(s') <= other) &&
    (forall d :: DepthAtMost(Shape(s), d) ==> DepthAtMost(Shape(s'), d)) &&
    Stored(s', Root) == Stored(s, Root)
  }

  /** What holds during balancing: only forced splits have been made. */
  ghost predicate Refining(s: State, s': State) {
    Shape(s) <= Shape(s') &&
    (forall other :: IsShape(other) && Balanced(other) && Shape(s) <= other ==> Shape(s') <= other) &&
    (forall d :: DepthAtMost(Shape(s), d) ==> DepthAtMost(Shape(s'), d)) &&
    Stored(s', Root) == Stored(s, Root)
  }

  lemma NothingRefined(s: State)
    ensures Refining(s, s)
  {
  }

  lemma RefiningOneMore(s0: State, s: State, s': State, c: Cell)
    requires Refining(s0, s) && IsLeaf(Shape(s), c) && NeedsRefinement(Shape(s), c)
    requires Shape(s') == Shape(s) + {c} && Stored(s', Root) == Stored(s, Root)
    ensures Refining(s0, s')
  {
    forall other | IsShape(other) && Balanced(other) && Shape(s0) <= other
      ensures Shape(s') <= other
    {
      ForcedSplit(Shape(s), c, other);
    }
    forall d | DepthAtMost(Shape(s0), d)
      ensures DepthAtMost(Shape(s'), d)
    {
      RefinementStaysWithinDepth(Shape(s), c, d);
    }
  }

  /** The work list: known nodes, among them every leaf that needs refinement. */
  ghost predicate Pending(m: NodeMap, s: State, todo: seq<QuadTree>) {
    s.Keys == m.Keys && (forall n :: n in todo ==> Names(m, n)) &&
    forall c :: c in m && s[c].isLeaf && NeedsRefinement(Shape(s), c) ==> m[c] in todo
  }

  /** A node that is no leaf, or a leaf that needs no refinement, can be dropped from the work list. */
  lemma DropSettled(m: NodeMap, s: State, todo: seq<QuadTree>)
    requires Fixed(m) && |todo| > 0 && Names(m, todo[0]) && Pending(m, s, todo)
    requires s[todo[0].cell].isLeaf ==> !NeedsRefinement(Shape(s), todo[0].cell)
    ensures Pending(m, s, todo[1..])
  {
    forall c | c in m && s[c].isLeaf && NeedsRefinement(Shape(s), c)
      ensures m[c] in todo[1..]
    {
      assert m[c] in todo && FixedAt(m, c);
    }
  }

  /** The shallower leaf across the edge of c in direction dir, if there is one, is on the work list. */
  ghost predicate NeighbourQueued(m: NodeMap, s: State, c: Cell, dir: Direction, todo: seq<QuadTree>) {
    HasAdjacent(c, dir) ==>
      var nb := Covering(Shape(s), Adjacent(c, dir));
      nb in m && (Depth(nb) < Depth(c) ==> m[nb] in todo)
  }

  lemma QueuedByLookup(m: NodeMap, n: QuadTree, dir: Direction, todo: seq<QuadTree>)
    requires Linked(m, Snap(m)) && Names(m, n)
    requires var r := Lookup(m, n, dir); r != null && r.depth < n.depth && r.isLeaf ==> r in todo
    ensures NeighbourQueued(m, Snap(m), n.cell, dir, todo)
  {
    LookupFindsNeighbour(m, n, dir);
    ShallowNeighbourIsLeaf(m, n, dir);
    assert FixedAt(m, n.cell);
    if HasAdjacent(n.cell, dir) {
      assert FixedAt(m, Covering(Shape(Snap(m)), Adjacent(n.cell, dir)));
    }
  }

  /** A leaf that needs refinement after a split is on the new work list. */
  lemma StillPending(m: NodeMap, s: State, m': NodeMap, s': State, c: Cell, todo: seq<QuadTree>, todo': seq<QuadTree>,
        x: Cell)
    requires Linked(m, s) && Linked(m', s') && c in m && s[c].isLeaf && Shape(s') == Shape(s) + {c}
    requires forall y :: y in m ==> y in m' && m'[y] == m[y]
    requires Pending(m, s, [m[c]] + todo) && forall n :: n in todo ==> n in todo'
    requires forall q :: Quarter(c, q) in m' && m'[Quarter(c, q)] in todo'
    requires forall dir :: NeighbourQueued(m', s', c, dir, todo')
    requires x in m' && s'[x].isLeaf && NeedsRefinement(Shape(s'), x)
    ensures m'[x] in todo'
  {
    ShapeOfTree(m, s);
    ShapeOfTree(m', s');
    SplitDisturbsOnlyNeighbours(Shape(s), c, x);
    hide NeedsRefinement, Covering, HasAdjacent, Adjacent;
    if x.Quarter? && x.father == c {
      assert x == Quarter(c, x.quadrant);
    } else if x != c && IsLeaf(Shape(s), x) && NeedsRefinement(Shape(s), x) {
      assert m[x] in [m[c]] + todo;
      assert FixedAt(m, x) && FixedAt(m, c);
    } else {
      var dir :| HasAdjacent(c, dir) && Covering(Shape(s'), Adjacent(c, dir)) == x;
      assert NeighbourQueued(m', s', c, dir, todo');
    }
  }

  /** One round of balancing. */
  lemma RefinedOnce(m: NodeMap, s: State, m': NodeMap, s': State, s0: State, n: QuadTree, rest: seq<QuadTree>,
                    todo: seq<QuadTree>, maxDepth: nat)
    requires ValidState(m, s) && Names(m, n) && s[n.cell].isLeaf && NeedsRefinement(Shape(s), n.cell)
    requires ValidState(m', s') && Shape(s') == Shape(s) + {n.cell} && Stored(s', Root) == Stored(s, Root)
    requires forall x :: x in m ==> x in m' && m'[x] == m[x]
    requires Pending(m, s, [n] + rest) && forall x :: x in rest ==> x in todo
    requires forall x :: x in todo ==> x in rest || Names(m', x)
    requires forall q :: Quarter(n.cell, q) in m' && m'[Quarter(n.cell, q)] in todo
    requires forall dir :: NeighbourQueued(m', s', n.cell, dir, todo)
    requires Refining(s0, s) && DepthAtMost(Shape(s0), maxDepth)
    ensures Refining(s0, s') && Pending(m', s', todo)
    ensures CellsAbove(maxDepth) - Shape(s') < CellsAbove(maxDepth) - Shape(s)
  {
    ShapeOfTree(m, s);
    forall x | x in todo
      ensures Names(m', x)
    {
      if x in rest {
        assert x in [n] + rest;
      }
    }
    forall x | x in m' && s'[x].isLeaf && NeedsRefinement(Shape(s'), x)
      ensures m'[x] in todo
    {
      StillPending(m, s, m', s', n.cell, rest, todo, x);
    }
    RefiningOneMore(s0, s, s', n.cell);
    RefinementStaysWithinDepth(Shape(s), n.cell, maxDepth);
    InCellsAbove(n.cell, maxDepth);
    assert n.cell in CellsAbove(maxDepth) - Shape(s);
  }

  lemma PendingNames(m: NodeMap, s: State, todo: seq<QuadTree>)
    requires Pending(m, s, todo) && todo != []
    ensures Names(m, todo[0])
  {
    assert todo[0] in todo;
  }

  lemma NothingPending(m: NodeMap, s: State, s0: State)
    requires ValidState(m, s) && Pending(m, s, []) && Refining(s0, s)
    ensures LeastBalanced(s0, s)
  {
    ShapeOfTree(m, s);
    BalancedIffNoLeafNeedsRefinement(Shape(s));
  }

  lemma AllLeavesPending(m: NodeMap, s: State, todo: seq<QuadTree>)
    requires ValidState(m, s) && LeavesOf(m, s, Root, todo)
    ensures Pending(m, s, todo)
  {
    forall c: Cell
      ensures Under(c, Root)
    {
      AllUnderRoot(c);
    }
  }

  lemma AllUnderRoot(c: Cell)
    ensures Under(c, Root)
  {
  }

  lemma DepthBound(inner: set<Cell>) returns (maxDepth: nat)
    ensures DepthAtMost(inner, maxDepth)
    decreases inner
  {
    if inner == {} {
      maxDepth := 0;
    } else {
      var c :| c in inner;
      var d := DepthBound(inner - {c});
      maxDepth := Max(d, Depth(c) + 1);
      assert forall x :: x in inner ==> x == c || x in inner - {c};
    }
  }

  class QuadTree {
    const father: QuadTree?
    var children: seq<QuadTree?>
    const square: Square
    const depth: nat
    var pnts: seq<Point>
    var isLeaf: bool
    const maxPointsPerLeaf: nat
    ghost const cell: Cell

    /** The root of a tree; the given rectangle is widened to a square. */
    constructor (ll: Corner, ur: Corner, maxPointsPerLeaf: nat)
      requires maxPointsPerLeaf > 0
      ensures ValidTree(map[Root := this])
      ensures square.ll == ll && isLeaf && pnts == [] && this.maxPointsPerLeaf == maxPointsPerLeaf && cell == Root
      ensures square.Side() == if ur.x - ll.x > ur.y - ll.y then ur.x - ll.x else ur.y - ll.y
    {
      father := null;
      children := [null, null, null, null];
      square := Square(ll, if ur.x - ll.x > ur.y - ll.y
                           then ur.(y := ll.y + ur.x - ll.x)
                           else ur.(x := ll.x + ur.y - ll.y));
      depth := 0;
      pnts := [];
      isLeaf := true;
      this.maxPointsPerLeaf := maxPointsPerLeaf;
      cell := Root;
    }

    /** A child node. */
    constructor Sub(square: Square, father: QuadTree, depth: nat, maxPointsPerLeaf: nat, ghost cell: Cell)
      ensures this.square == square && this.father == father && this.depth == depth
      ensures this.maxPointsPerLeaf == maxPointsPerLeaf && this.cell == cell
      ensures isLeaf && pnts == [] && children == [null, null, null, null]
    {
      this.father := father;
      children := [null, null, null, null];
      this.square := square;
      this.depth := depth;
      pnts := [];
      isLeaf := true;
      this.maxPointsPerLeaf := maxPointsPerLeaf;
      this.cell := cell;
    }

    // ---- neighbour lookup through the father pointers ----

    predicate IsChild(tree: QuadTree, q: Quadrant)
      requires |children| == 4
      reads this
    {
      children[Index(q)] == tree
    }

    function GetChild(q: Quadrant): QuadTree?
      requires |children| == 4
      reads this
    {
      children[Index(q)]
    }

    function GetNorthNeighbor(ghost m: NodeMap): (n: QuadTree?)
      requires Linked(m, Snap(m)) && Names(m, this)
      reads m.Values
      ensures n == null || Names(m, n)
      decreases depth
    {
      if father == null then
        null
      else (
        FatherKnowsChild(m, Snap(m), this);
        if father.IsChild(this, SW) then father.GetChild(NW)
        else if father.IsChild(this, SE) then father.GetChild(NE)
        else
          var northNeighbour := father.GetNorthNeighbor(m);
          if northNeighbour == null then null
          else if northNeighbour.isLeaf then northNeighbour
          else (
            ChildrenNamed(m, Snap(m), northNeighbour);
            if father.IsChild(this, NW) then northNeighbour.GetChild(SW)
            else northNeighbour.GetChild(SE))
      )
    }

    function GetSouthNeighbor(ghost m: NodeMap): (n: QuadTree?)
      requires Linked(m, Snap(m)) && Names(m, this)
      reads m.Values
      ensures n == null || Names(m, n)
      decreases depth
    {
      if father == null then
        null
      else (
        FatherKnowsChild(m, Snap(m), this);
        if father.IsChild(this, NW) then father.GetChild(SW)
        else if father.IsChild(this, NE) then father.GetChild(SE)
        else
          var southNeighbour := father.GetSouthNeighbor(m);
          if southNeighbour == null then null
          else if southNeighbour.isLeaf then southNeighbour
          else (
            ChildrenNamed(m, Snap(m), southNeighbour);
            if father.IsChild(this, SW) then southNeighbour.GetChild(NW)
            else southNeighbour.GetChild(NE))
      )
    }

    function GetEastNeighbor(ghost m: NodeMap): (n: QuadTree?)
      requires Linked(m, Snap(m)) && Names(m, this)
      reads m.Values
      ensures n == null || Names(m, n)
      decreases depth
    {
      if father == null then
        null
      else (
        FatherKnowsChild(m, Snap(m), this);
        if father.IsChild(this, NW) then father.GetChild(NE)
        else if father.IsChild(this, SW) then father.GetChild(SE)
        else
          var eastNeighbour := father.GetEastNeighbor(m);
          if eastNeighbour == null then null
          else if eastNeighbour.isLeaf then eastNeighbour
          else (
            ChildrenNamed(m, Snap(m), eastNeighbour);
            if father.IsChild(this, SE) then eastNeighbour.GetChild(SW)
            else eastNeighbour.GetChild(NW))
      )
    }

    function GetWestNeighbor(ghost m: NodeMap): (n: QuadTree?)
      requires Linked(m, Snap(m)) && Names(m, this)
      reads m.Values
      ensures n == null || Names(m, n)
      decreases depth
    {
      if father == null then
        null
      else (
        FatherKnowsChild(m, Snap(m), this);
        if father.IsChild(this, NE) then father.GetChild(NW)
        else if father.IsChild(this, SE) then father.GetChild(SW)
        else
          var westNeighbour := father.GetWestNeighbor(m);
          if westNeighbour == null then null
          else if westNeighbour.isLeaf then westNeighbour
          else (
            ChildrenNamed(m, Snap(m), westNeighbour);
            if father.IsChild(this, SW) then westNeighbour.GetChild(SE)
            else westNeighbour.GetChild(NE))
      )
    }

    // ---- refinement test ----

    /** The neighbour is as deep as this node and one of its two children on the shared edge is split. */
    predicate IsDeepBehind(neighbour: QuadTree?, q1: Quadrant, q2: Quadrant, ghost m: NodeMap)
      requires Linked(m, Snap(m)) && (neighbour == null || Names(m, neighbour))
      reads m.Values
    {
      neighbour != null && neighbour.depth == depth && !neighbour.isLeaf &&
      (ChildrenNamed(m, Snap(m), neighbour);
       !neighbour.GetChild(q1).isLeaf || !neighbour.GetChild(q2).isLeaf)
    }

    predicate NeedToRefine(ghost m: NodeMap)
      requires Linked(m, Snap(m)) && Names(m, this)
      reads m.Values
    {
      IsDeepBehind(GetNorthNeighbor(m), SW, SE, m) ||
      IsDeepBehind(GetWestNeighbor(m), SE, NE, m) ||
      IsDeepBehind(GetSouthNeighbor(m), NE, NW, m) ||
      IsDeepBehind(GetEastNeighbor(m), NW, SW, m)
    }

    // ---- insertion ----

    /** Is a close point already in this leaf? */
    method IsInLeaf(p: Point) returns (found: bool)
      ensures found <==> exists q :: q in pnts && Close(q, p)
      ensures found <==> exists q :: q in pnts && (q.x - p.x) * (q.x - p.x) + (q.y - p.y) * (q.y - p.y) < EPSILON
    {
      hide Close;
      found := false;
      var k := 0;
      forall q
        ensures Close(q, p) <==> (q.x - p.x) * (q.x - p.x) + (q.y - p.y) * (q.y - p.y) < EPSILON
      {
        CloseInCoordinates(q, p);
      }
      while k < |pnts| && !found
        invariant 0 <= k <= |pnts|
        invariant !found ==> forall j :: 0 <= j < k ==> !Close(pnts[j], p)
        invariant found ==> exists q :: q in pnts && Close(q, p)
      {
        var v0, v1 := pnts[k].x - p.x, pnts[k].y - p.y;
        var sqrDist := v0 * v0 + v1 * v1;
        if sqrDist < EPSILON {
          found := true;
          assert pnts[k] in pnts;
        }
        k := k + 1;
      }
    }

    method AddPoint(p: Point, ghost m: NodeMap) returns (ok: bool, ghost m': NodeMap)
      requires Fixed(m) && Placed(m) && Names(m, this) && ValidUnder(m, Snap(m), cell)
      modifies Subtree(m, cell)
      ensures Inserted(m, old(Snap(m)), m', Snap(m'), cell, p, ok)
      // acceptance in coordinates
      ensures ok <==>
        square.ll.x <= p.x < square.ur.x && square.ll.y <= p.y < square.ur.y &&
        forall c, q :: c in m && Under(c, cell) && m[c].square.Contains(p) && q in old(Snap(m))[c].pnts ==>
          (q.x - p.x) * (q.x - p.x) + (q.y - p.y) * (q.y - p.y) >= EPSILON
      ensures forall c :: c in m' && c !in m ==> fresh(m'[c])
      decreases Halvings(square.Side()), Weight(m, Snap(m), cell)
    {
      hide Fixed, Placed, ValidUnder, Inserted, InsertedBelow, SplitInto, Accepts, Subtree, Below, GoodPoints, LinksOk,
        HasChildren;
      hide Weight, ChildrenWeight, Halvings;
      ghost var s := Snap(m);
      NodeFacts(m, s, this);
      AcceptsInCoordinates(m, s, cell, p);
      if p.x < square.ll.x {
        OutsideRejected(m, s, cell, p);
        return false, m;
      }
      if p.x >= square.ur.x {
        OutsideRejected(m, s, cell, p);
        return false, m;
      }
      if p.y < square.ll.y {
        OutsideRejected(m, s, cell, p);
        return false, m;
      }
      if p.y >= square.ur.y {
        OutsideRejected(m, s, cell, p);
        return false, m;
      }

      if !isLeaf {
        ChildrenWeighLess(m, s, cell);
        HalvingsDecrease(square.Side());
        ValidChildren(m, s, cell);
        ok, m' := AddPointToChildren(p, m);
        InnerInserted(m, s, m', Snap(m'), cell, p, ok);
        return;
      }

      // one close point in this leaf is enough to reject p
      var inQuadtree := IsInLeaf(p);
      if inQuadtree {
        LeafRejected(m, s, cell, p);
        return false, m;
      }
      if |pnts| == maxPointsPerLeaf {
        FullNodeWeighs(m, s, cell);
      }
      GoodPointsAppend(square, pnts, p);
      pnts := pnts + [p];
      ok := true;
      m' := m;
      ghost var s1 := Snap(m);
      assert s1 == s[cell := NodeState(true, children, pnts)];
      if |pnts| > maxPointsPerLeaf {
        m' := SplitNode(m);
        ghost var s' := Snap(m');
        assert SplitInto(m, s1, m', s', cell);
        LeafSplit(m, s, s1, m', s', cell, p);
      } else {
        LeafTaken(m, s, s1, cell, p);
      }
    }

    /** Offers the point to the children in turn, as an inner node and a splitting node both do. */
    method AddPointToChildren(p: Point, ghost m: NodeMap) returns (ok: bool, ghost m': NodeMap)
      requires Fixed(m) && Placed(m) && Names(m, this) && HasChildren(m, Snap(m), cell)
      requires forall q :: ValidUnder(m, Snap(m), Quarter(cell, q))
      modifies Below(m, cell)
      ensures InsertedBelow(m, old(Snap(m)), m', Snap(m'), cell, p, ok)
      ensures forall c :: c in m' && c !in m ==> fresh(m'[c])
      decreases Halvings(square.Side() / 2.0), ChildrenWeight(m, Snap(m), cell) + 1
    {
      hide Fixed, Placed, ValidUnder, Inserted, InsertedBelow, Accepts, Subtree, Below, Weight, ChildrenWeight,
        Halvings;
      ghost var s := Snap(m);
      m' := m;
      NotBelowItself(m, this);
      for k := 0 to 4
        invariant Snap(m) == s && m' == m
        invariant forall q :: Index(q) < k ==> !Accepts(m, s, Quarter(cell, q), p)
      {
        ghost var q := QUADRANTS[k];
        var child := children[k];
        ChildFacts(m, s, this, q);
        ok, m' := child.AddPoint(p, m);
        ghost var s' := Snap(m');
        assert Inserted(m, s, m', s', Quarter(cell, q), p, ok);
        if ok {
          InsertedInChild(m, s, m', s', cell, q, p);
          return;
        }
        NotInserted(m, s, m', s', Quarter(cell, q), p);
        assert forall r :: Index(r) < k + 1 ==> Index(r) < k || r == q;
      }
      ok := false;
      NoneInserted(m, s, cell, p);
    }

    /** The four empty quarters of this node. */
    method NewQuarters() returns (ne: QuadTree, nw: QuadTree, sw: QuadTree, se: QuadTree)
      ensures fresh({ne, nw, sw, se})
      ensures NewChild(this, NE, ne) && NewChild(this, NW, nw) && NewChild(this, SW, sw) && NewChild(this, SE, se)
      ensures forall x :: x in {ne, nw, sw, se} ==> x.isLeaf && x.children == [null, null, null, null] && x.pnts == []
    {
      var mid := Corner(square.ll.x + (square.ur.x - square.ll.x) / 2.0,
                        square.ll.y + (square.ur.y - square.ll.y) / 2.0);
      assert mid == square.Mid();
      ne := new QuadTree.Sub(Square(mid, square.ur), this, depth + 1, maxPointsPerLeaf, Quarter(cell, NE));
      nw := new QuadTree.Sub(Square(Corner(square.ll.x, mid.y), Corner(mid.x, square.ur.y)), this, depth + 1,
                             maxPointsPerLeaf, Quarter(cell, NW));
      sw := new QuadTree.Sub(Square(square.ll, mid), this, depth + 1, maxPointsPerLeaf, Quarter(cell, SW));
      se := new QuadTree.Sub(Square(Corner(mid.x, square.ll.y), Corner(square.ur.x, mid.y)), this, depth + 1,
                             maxPointsPerLeaf, Quarter(cell, SE));
    }

    /** Creates the four children of a leaf, without giving them points. */
    method CreateChildren(ghost m: NodeMap) returns (ghost m': NodeMap)
      requires Fixed(m) && Placed(m) && Names(m, this)
      requires isLeaf && forall q :: Quarter(cell, q) !in m
      modifies this`children
      ensures var s' := Snap(m');
              Distributed(m, old(Snap(m)), m', s', cell, []) && ShallowChildren(s', cell, 0) && Names(m', this)
      ensures forall c :: c in m' <==> c in m || (c.Quarter? && c.father == cell)
      ensures forall c :: c in m' && c !in m ==> fresh(m'[c])
    {
      hide Fixed, Placed, Distributed, ShallowChildren, Attached, NewChild;
      ghost var s := Snap(m);
      NamedOnce(m, this);
      var ne, nw, sw, se := NewQuarters();
      children := [ne, nw, sw, se];
      m' := Attached(m, cell, ne, nw, sw, se);
      AttachedNodes(m, cell, ne, nw, sw, se);
      ghost var s' := Snap(m');
      assert forall c :: c in m && c != cell ==> s'[c] == s[c];
      AttachedReady(m, s, this, ne, nw, sw, se, s');
    }

    /** Hands the points of a splitting leaf down to its new children. */
    method DistributePoints(ghost m: NodeMap, ghost s: State, ghost attached: NodeMap) returns (ghost m': NodeMap)
      requires Fixed(m) && Names(m, this) && Names(attached, this) && forall q :: Quarter(cell, q) !in m
      requires isLeaf && |pnts| <= maxPointsPerLeaf + 1 && GoodPoints(square, pnts)
      requires Distributed(m, s, attached, Snap(attached), cell, []) && ShallowChildren(Snap(attached), cell, 0)
      requires forall c :: c in attached && c !in m ==> attached[c] != this
      modifies set c | c in attached && c !in m :: attached[c]
      ensures Distributed(m, s, m', Snap(m'), cell, pnts) && Names(m', this)
      ensures forall c :: c in m' && c !in attached ==> fresh(m'[c])
      ensures forall c :: c in attached ==> c in m' && m'[c] == attached[c]
      ensures |pnts| <= maxPointsPerLeaf ==> m' == attached && ShallowChildren(Snap(m'), cell, |pnts|)
      decreases Halvings(square.Side()), 2, 0
    {
      hide Fixed, Placed, ValidUnder, InsertedBelow, Distributed, ChildAccepts, GoodPoints, HasChildren;
      hide ShallowChildren, Below, Weight, ChildrenWeight, Halvings;
      ghost var p0 := pnts;
      m' := attached;
      assert p0[..0] == [];
      for j := 0 to |pnts|
        invariant pnts == p0 && Distributed(m, s, m', Snap(m'), cell, p0[..j])
        invariant Names(m', this) && forall c :: c in attached ==> c in m' && m'[c] == attached[c]
        invariant forall c :: c in m' && c !in attached ==> fresh(m'[c])
        invariant |p0| <= maxPointsPerLeaf ==> m' == attached && ShallowChildren(Snap(m'), cell, j)
      {
        ghost var mj, sj := m', Snap(m');
        ReadyToDistribute(m, s, mj, sj, this, p0, j);
        var added;
        added, m' := AddPointToChildren(pnts[j], mj);
        ghost var s' := Snap(m');
        assert InsertedBelow(mj, sj, m', s', cell, p0[j], added);
        DistributedOneMore(m, s, mj, sj, m', s', this, p0, j, added);
      }
      assert p0[..|p0|] == p0;
    }

    /** Distributes the points, then clears the node. */
    method HandDown(ghost m: NodeMap, ghost s: State, ghost attached: NodeMap) returns (ghost m': NodeMap)
      requires Fixed(m) && Names(m, this) && Names(attached, this) && forall q :: Quarter(cell, q) !in m
      requires isLeaf && |pnts| <= maxPointsPerLeaf + 1 && GoodPoints(square, pnts)
      requires cell in s && s[cell].pnts == pnts
      requires Distributed(m, s, attached, Snap(attached), cell, []) && ShallowChildren(Snap(attached), cell, 0)
      requires forall c :: c in attached && c !in m ==> attached[c] != this
      requires forall c :: c in attached <==> c in m || (c.Quarter? && c.father == cell)
      modifies this`pnts, this`isLeaf, set c | c in attached && c !in m :: attached[c]
      ensures SplitInto(m, s, m', Snap(m'), cell)
      ensures forall c :: c in attached ==> c in m' && m'[c] == attached[c]
      ensures forall c :: c in m' && c !in attached ==> fresh(m'[c])
      decreases Halvings(square.Side()), 2, 1
    {
      hide Fixed, Placed, SplitInto, Distributed, GoodPoints, ShallowChildren, Halvings, Emptied, Snap;
      ghost var p0 := pnts;
      m' := DistributePoints(m, s, attached);
      ghost var s1 := Snap(m');
      AfterDistribution(m, s, m', s1, cell, p0, this);
      BecomeInner(m');
      SplitFinished(m, s, attached, m', s1, Snap(m'), cell, p0);
    }

    /** Turns a leaf, over-full by at most one point, into an inner node and hands its points down. */
    method SplitNode(ghost m: NodeMap) returns (ghost m': NodeMap)
      requires Fixed(m) && Placed(m) && Names(m, this)
      requires isLeaf && forall q :: Quarter(cell, q) !in m
      requires |pnts| <= maxPointsPerLeaf + 1 && GoodPoints(square, pnts)
      modifies this
      ensures SplitInto(m, old(Snap(m)), m', Snap(m'), cell)
      ensures forall c :: c in m' && c !in m ==> fresh(m'[c])
      decreases Halvings(square.Side()), 3
    {
      ghost var s := Snap(m);
      assert s[cell].pnts == pnts;
      hide Fixed, Placed, SplitInto, Distributed, GoodPoints, ShallowChildren, Halvings, Snap;
      ghost var attached := CreateChildren(m);
      m' := HandDown(m, s, attached);
    }

    /** Clears the points of a node whose children have taken them over. */
    method BecomeInner(ghost m: NodeMap)
      requires Names(m, this) && forall c :: c in m && c != cell ==> m[c] != this
      modifies this`pnts, this`isLeaf
      ensures Emptied(old(Snap(m)), Snap(m), cell)
    {
      pnts := [];
      isLeaf := false;
    }

    // ---- balancing ----

    /** Appends all leaves of the subtree to the list, each once. */
    method GetLeafs(leafs: seq<QuadTree>, ghost m: NodeMap) returns (r: seq<QuadTree>)
      requires Linked(m, Snap(m)) && Names(m, this)
      ensures leafs <= r && LeavesOf(m, Snap(m), cell, r[|leafs|..])
      decreases CellCount(m, cell)
    {
      ghost var s := Snap(m);
      assert LinksOk(m, s, cell);
      hide LeavesOf, LeavesOfFirst, Linked, Fixed, CellCount, Under;
      r := leafs;
      if isLeaf {
        r := r + [this];
        SingleLeaf(m, s, this);
        assert r[|leafs|..] == [this];
      } else {
        ghost var found := [];
        NoLeavesYet(m, s, cell);
        for k := 0 to 4
          invariant r == leafs + found && LeavesOfFirst(m, s, cell, k, found)
        {
          ghost var q := QUADRANTS[k];
          ChildIsNamed(m, s, this, q);
          ChildHasFewerCells(m, cell, q);
          ghost var before := r;
          r := children[k].GetLeafs(r, m);
          ghost var more := r[|before|..];
          assert LeavesOf(m, s, Quarter(cell, q), more);
          LeavesOneMore(m, s, cell, k, found, more);
          found := found + more;
        }
        AllChildrenLeaves(m, s, cell, found);
        assert r[|leafs|..] == found;
      }
    }

    /** Appends the neighbour when it is a leaf above the level of this node. */
    method PushIfShallower(todo: seq<QuadTree>, neighbour: QuadTree?) returns (r: seq<QuadTree>)
      ensures forall n :: n in r <==> n in todo || (n == neighbour && n.depth < depth && n.isLeaf)
    {
      r := todo;
      if neighbour != null {
        if neighbour.depth < depth {
          if neighbour.isLeaf {
            r := r + [neighbour];
          }
        }
      }
    }

    /** Splits this leaf and queues its children and every shallower neighbour that is a leaf. */
    method SplitAndQueue(todo: seq<QuadTree>, ghost m: NodeMap) returns (r: seq<QuadTree>, ghost m': NodeMap)
      requires ValidTree(m) && Names(m, this) && isLeaf
      modifies this
      ensures ValidTree(m') && Shape(Snap(m')) == old(Shape(Snap(m))) + {cell}
      ensures Stored(Snap(m'), Root) == old(Stored(Snap(m), Root))
      ensures forall c :: c in m ==> c in m' && m'[c] == m[c]
      ensures forall c :: c in m' && c !in m ==> fresh(m'[c])
      ensures forall n :: n in todo ==> n in r
      ensures forall n :: n in r ==> n in todo || Names(m', n)
      ensures forall q :: Quarter(cell, q) in m' && m'[Quarter(cell, q)] in r
      ensures forall dir :: NeighbourQueued(m', Snap(m'), cell, dir, r)
    {
      m' := SplitKeepingTree(m);
      ChildrenNamed(m', Snap(m'), this);
      assert Linked(m', Snap(m'));
      hide ValidState, Linked, NeighbourQueued, Shape, Stored, Snap, HasChildren;
      r := todo + [GetChild(NE), GetChild(NW), GetChild(SW), GetChild(SE)];
      forall q
        ensures m'[Quarter(cell, q)] in r
      {
        match q { case NE => case NW => case SW => case SE => }
      }
      r := QueueNeighbours(r, m');
    }

    /** Queues the shallower neighbours of this node that are leaves. */
    method QueueNeighbours(todo: seq<QuadTree>, ghost m: NodeMap) returns (r: seq<QuadTree>)
      requires Linked(m, Snap(m)) && Names(m, this)
      ensures forall n :: n in todo ==> n in r
      ensures forall n :: n in r ==> n in todo || Names(m, n)
      ensures forall dir :: NeighbourQueued(m, Snap(m), cell, dir, r)
    {
      LookupCases(m, this);
      hide Linked, NeighbourQueued, Snap, Lookup;
      r := PushIfShallower(todo, GetNorthNeighbor(m));
      r := PushIfShallower(r, GetWestNeighbor(m));
      r := PushIfShallower(r, GetSouthNeighbor(m));
      r := PushIfShallower(r, GetEastNeighbor(m));
      forall dir
        ensures NeighbourQueued(m, Snap(m), cell, dir, r)
      {
        match dir {
          case North => QueuedByLookup(m, this, North, r);
          case South => QueuedByLookup(m, this, South, r);
          case East => QueuedByLookup(m, this, East, r);
          case West => QueuedByLookup(m, this, West, r);
        }
      }
    }

    /** Splits this leaf of a valid tree. */
    method SplitKeepingTree(ghost m: NodeMap) returns (ghost m': NodeMap)
      requires ValidTree(m) && Names(m, this) && isLeaf
      modifies this
      ensures ValidTree(m') && Names(m', this) && !isLeaf && Shape(Snap(m')) == old(Shape(Snap(m))) + {cell}
      ensures Stored(Snap(m'), Root) == old(Stored(Snap(m), Root))
      ensures forall c :: c in m ==> c in m' && m'[c] == m[c]
      ensures forall c :: c in m' && c !in m ==> fresh(m'[c])
      ensures |children| == 4 && forall q :: Quarter(cell, q) in m' && GetChild(q) == m'[Quarter(cell, q)]
    {
      ghost var s := Snap(m);
      assert LinksOk(m, s, cell) && PointsOk(m, s, cell) && PlacedAt(m, cell);
      m' := SplitNode(m);
      ghost var s' := Snap(m');
      SplitKeepsTree(m, s, m', s', cell);
      assert LinksOk(m', s', cell);
    }

    /** Splits leaves until the depths of leaves that share an edge differ by at most one. */
    method Balance(ghost m: NodeMap) returns (ghost m': NodeMap)
      requires ValidTree(m) && Names(m, this) && cell == Root
      modifies m.Values
      ensures ValidTree(m') && LeastBalanced(old(Snap(m)), Snap(m'))
      ensures forall c :: c in m ==> c in m' && m'[c] == m[c]
      ensures forall c :: c in m' && c !in m ==> fresh(m'[c])
    {
      hide Refining, LeastBalanced, Pending, NeedsRefinement, NeighbourQueued, LeavesOf, CellsAbove;
      ghost var s := Snap(m);
      m' := m;
      var leafList := GetLeafs([], m);
      assert leafList[0..] == leafList;
      AllLeavesPending(m, s, leafList);
      NothingRefined(s);
      ghost var maxDepth := DepthBound(Shape(s));

      while leafList != []
        invariant ValidTree(m') && Refining(s, Snap(m')) && Pending(m', Snap(m'), leafList)
        invariant forall c :: c in m ==> c in m' && m'[c] == m[c]
        invariant forall c :: c in m' && c !in m ==> fresh(m'[c])
        decreases CellsAbove(maxDepth) - Shape(Snap(m')), |leafList|
      {
        var node := leafList[0];
        ghost var mj, sj := m', Snap(m');
        assert leafList == [node] + leafList[1..];
        PendingNames(mj, sj, leafList);
        NeedToRefineIff(mj, node);
        if node.isLeaf && node.NeedToRefine(mj) {
          var rest := leafList[1..];
          leafList, m' := node.SplitAndQueue(rest, mj);
          RefinedOnce(mj, sj, m', Snap(m'), s, node, rest, leafList, maxDepth);
        } else {
          DropSettled(mj, sj, leafList);
          leafList := leafList[1..];
        }
      }
      NothingPending(m', Snap(m'), s);
    }
  }
}
