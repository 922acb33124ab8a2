/** The cells behind a quadtree and the integer lattice they form.

    A cell is the root square or a quadrant of its father's cell; a cell of depth d has a column and a
    row in the 2^d x 2^d grid laid over the root square.  The shape of a tree is the set of its split
    (inner) cells.  Everything that balancing is about -- which nodes exist, which node a neighbour
    query finds, which leaves have to be refined, which leaves share an edge -- is stated here on
    shapes, without pointers. */
module QuadCells {

  datatype Quadrant = NE | NW | SW | SE

  datatype Direction = North | South | East | West

  datatype Cell = Root | Quarter(father: Cell, quadrant: Quadrant)

  predicate IsEast(q: Quadrant) {
    q == NE || q == SE
  }

  predicate IsNorth(q: Quadrant) {
    q == NE || q == NW
  }

  // ---- the lattice ----

  function Pow2(n: nat): (r: nat)
    ensures r > 0
  {
    if n == 0 then 1 else 2 * Pow2(n - 1)
  }

  function Depth(c: Cell): nat {
    if c.Root? then 0 else Depth(c.father) + 1
  }

  function Col(c: Cell): (i: nat)
    ensures i < Pow2(Depth(c))
  {
    if c.Root? then 0 else 2 * Col(c.father) + (if IsEast(c.quadrant) then 1 else 0)
  }

  function Row(c: Cell): (j: nat)
    ensures j < Pow2(Depth(c))
  {
    if c.Root? then 0 else 2 * Row(c.father) + (if IsNorth(c.quadrant) then 1 else 0)
  }

  /** The cell in column i and row j of the grid of depth d. */
  function CellAt(d: nat, i: nat, j: nat): (c: Cell)
    requires i < Pow2(d) && j < Pow2(d)
    ensures Depth(c) == d && Col(c) == i && Row(c) == j
  {
    if d == 0 then Root else
      Quarter(CellAt(d - 1, i / 2, j / 2),
              if i % 2 == 1 then (if j % 2 == 1 then NE else SE) else (if j % 2 == 1 then NW else SW))
  }

  /** Depth, column and row determine a cell. */
  lemma {:induction false} CoordinatesDetermineCell(a: Cell, b: Cell)
    requires Depth(a) == Depth(b) && Col(a) == Col(b) && Row(a) == Row(b)
    ensures a == b
  {
    if a.Quarter? {
      CoordinatesDetermineCell(a.father, b.father);
    }
  }

  // ---- ancestors and subtrees ----

  /** The ancestor of c at depth d; c itself when it is not deeper than d. */
  function Ancestor(c: Cell, d: nat): (a: Cell)
    ensures Depth(c) >= d ==> Depth(a) == d
  {
    if Depth(c) <= d then c else Ancestor(c.father, d)
  }

  predicate Under(c: Cell, top: Cell) {
    c == top || (c.Quarter? && Under(c.father, top))
  }

  lemma UnderIsDeeper(c: Cell, top: Cell)
    requires Under(c, top)
    ensures Depth(c) >= Depth(top) && (c != top ==> Depth(c) > Depth(top))
  {
  }

  /** Below a cell, everything is under exactly one of its quarters. */
  lemma {:induction false} UnderQuarter(c: Cell, top: Cell) returns (q: Quadrant)
    requires Under(c, top) && c != top
    ensures Under(c, Quarter(top, q))
  {
    if c.father == top {
      q := c.quadrant;
    } else {
      q := UnderQuarter(c.father, top);
    }
  }

  lemma QuarterIsUnder(c: Cell, top: Cell, q: Quadrant)
    requires Under(c, Quarter(top, q))
    ensures Under(c, top) && c != top
  {
    UnderIsDeeper(c, Quarter(top, q));
    if c != Quarter(top, q) {
      QuarterIsUnder(c.father, top, q);
    }
  }

  lemma {:induction false} QuartersDisjoint(c: Cell, top: Cell, p: Quadrant, q: Quadrant)
    requires Under(c, Quarter(top, p)) && Under(c, Quarter(top, q))
    ensures p == q
  {
    UnderIsDeeper(c, Quarter(top, p));
    UnderIsDeeper(c, Quarter(top, q));
    if Depth(c) > Depth(top) + 1 {
      QuartersDisjoint(c.father, top, p, q);
    }
  }

  // ---- shapes ----

  /** A shape: the father of an inner cell is inner. */
  ghost predicate IsShape(inner: set<Cell>) {
    forall c :: c in inner && c.Quarter? ==> c.father in inner
  }

  predicate Exists(inner: set<Cell>, c: Cell) {
    c.Root? || c.father in inner
  }

  predicate IsLeaf(inner: set<Cell>, c: Cell) {
    Exists(inner, c) && c !in inner
  }

  /** Every proper ancestor of an existing cell is inner. */
  lemma {:induction false} AncestorInner(inner: set<Cell>, c: Cell, d: nat)
    requires IsShape(inner) && Exists(inner, c) && d < Depth(c)
    ensures Ancestor(c, d) in inner
  {
    if d < Depth(c) - 1 {
      AncestorInner(inner, c.father, d);
    }
  }

  lemma {:induction false} TopInner(inner: set<Cell>, c: Cell, top: Cell)
    requires IsShape(inner) && Exists(inner, c) && Under(c, top) && c != top
    ensures top in inner
  {
    if c.father != top {
      TopInner(inner, c.father, top);
    }
  }

  // ---- neighbours ----

  predicate HasAdjacent(c: Cell, dir: Direction) {
    match dir
    case North => Row(c) + 1 < Pow2(Depth(c))
    case South => Row(c) > 0
    case East => Col(c) + 1 < Pow2(Depth(c))
    case West => Col(c) > 0
  }

  /** The cell of the same depth on the other side of the edge in direction dir. */
  function Adjacent(c: Cell, dir: Direction): Cell
    requires HasAdjacent(c, dir)
  {
    match dir
    case North => CellAt(Depth(c), Col(c), Row(c) + 1)
    case South => CellAt(Depth(c), Col(c), Row(c) - 1)
    case East => CellAt(Depth(c), Col(c) + 1, Row(c))
    case West => CellAt(Depth(c), Col(c) - 1, Row(c))
  }

  function Opposite(dir: Direction): Direction {
    match dir
    case North => South
    case South => North
    case East => West
    case West => East
  }

  /** The quadrants of a cell that touch its edge in direction dir. */
  predicate OnSide(q: Quadrant, dir: Direction) {
    match dir
    case North => IsNorth(q)
    case South => !IsNorth(q)
    case East => IsEast(q)
    case West => !IsEast(q)
  }

  /** The quadrant on the other side of a horizontal or vertical line. */
  function Mirror(q: Quadrant, dir: Direction): Quadrant {
    if dir == North || dir == South then
      (match q case NE => SE case NW => SW case SW => NW case SE => NE)
    else
      (match q case NE => NW case NW => NE case SW => SE case SE => SW)
  }

  /** How the adjacent cell of a quarter follows from the father: a sibling when the quarter touches
      the inner line, else a quarter of the father's adjacent cell. */
  lemma {:induction false} AdjacentOfQuarter(c: Cell, dir: Direction)
    requires c.Quarter?
    ensures !OnSide(c.quadrant, dir) ==>
              HasAdjacent(c, dir) && Adjacent(c, dir) == Quarter(c.father, Mirror(c.quadrant, dir))
    ensures OnSide(c.quadrant, dir) ==>
              (HasAdjacent(c, dir) <==> HasAdjacent(c.father, dir)) &&
              (HasAdjacent(c, dir) ==>
                 Adjacent(c, dir) == Quarter(Adjacent(c.father, dir), Mirror(c.quadrant, dir)))
  {
    var m := Mirror(c.quadrant, dir);
    assert Pow2(Depth(c)) == 2 * Pow2(Depth(c.father));
    if !OnSide(c.quadrant, dir) {
      CoordinatesDetermineCell(Adjacent(c, dir), Quarter(c.father, m));
    } else if HasAdjacent(c, dir) {
      CoordinatesDetermineCell(Adjacent(c, dir), Quarter(Adjacent(c.father, dir), m));
    }
  }

  lemma AdjacentBack(c: Cell, dir: Direction)
    requires HasAdjacent(c, dir)
    ensures HasAdjacent(Adjacent(c, dir), Opposite(dir)) && Adjacent(Adjacent(c, dir), Opposite(dir)) == c
  {
    CoordinatesDetermineCell(Adjacent(Adjacent(c, dir), Opposite(dir)), c);
  }

  /** The deepest existing cell that contains c and is not deeper than c. */
  function Covering(inner: set<Cell>, c: Cell): (r: Cell)
    ensures Exists(inner, r) && Under(c, r)
  {
    if Exists(inner, c) then c else Covering(inner, c.father)
  }

  /** A covering cell other than the cell it covers is a leaf, and nothing deeper covers. */
  lemma {:induction false} CoveringIsDeepest(inner: set<Cell>, c: Cell)
    requires IsShape(inner)
    ensures Covering(inner, c) != c ==> IsLeaf(inner, Covering(inner, c)) && Depth(Covering(inner, c)) < Depth(c)
    ensures forall r :: Under(c, r) && Exists(inner, r) ==> Under(Covering(inner, c), r)
  {
    if !Exists(inner, c) {
      CoveringIsDeepest(inner, c.father);
      UnderIsDeeper(c, Covering(inner, c));
    }
  }

  /** One step of a neighbour query: from the neighbour of the father to the neighbour of the quarter. */
  lemma CoveringOfAdjacent(inner: set<Cell>, c: Cell, dir: Direction)
    requires IsShape(inner) && Exists(inner, c) && c.Quarter?
    ensures !OnSide(c.quadrant, dir) ==>
              HasAdjacent(c, dir) && Covering(inner, Adjacent(c, dir)) == Quarter(c.father, Mirror(c.quadrant, dir))
    ensures OnSide(c.quadrant, dir) ==>
              (HasAdjacent(c, dir) <==> HasAdjacent(c.father, dir)) &&
              (HasAdjacent(c, dir) ==>
                 var up := Covering(inner, Adjacent(c.father, dir));
                 Covering(inner, Adjacent(c, dir)) ==
                 if up in inner then Quarter(up, Mirror(c.quadrant, dir)) else up)
  {
    AdjacentOfQuarter(c, dir);
    if OnSide(c.quadrant, dir) && HasAdjacent(c, dir) {
      CoveringIsDeepest(inner, Adjacent(c.father, dir));
    }
  }

  // ---- balance ----

  /** Some equally deep neighbour has a split quarter on the edge shared with c. */
  ghost predicate NeedsRefinementTowards(inner: set<Cell>, c: Cell, dir: Direction) {
    HasAdjacent(c, dir) &&
    Adjacent(c, dir) in inner &&
    exists q :: OnSide(q, Opposite(dir)) && Quarter(Adjacent(c, dir), q) in inner
  }

  ghost predicate NeedsRefinement(inner: set<Cell>, c: Cell) {
    exists dir :: NeedsRefinementTowards(inner, c, dir)
  }

  /** The grid line x of some depth, as a line of the grid k levels deeper: x * 2^k. */
  function Scaled(x: nat, k: nat): nat {
    if k == 0 then x else 2 * Scaled(x, k - 1)
  }

  /** On the lattice: the cell in column ib and row jb, k levels deeper, lies just across the edge in
      direction dir of the cell in column ia and row ja.  In units of the deeper cell's width the edge
      line is the same, and the extent along the edge lies within the shallower cell's. */
  predicate LatticeTouch(ia: nat, ja: nat, k: nat, ib: nat, jb: nat, dir: Direction) {
    match dir
    case North => jb == Scaled(ja + 1, k) && Scaled(ia, k) <= ib < Scaled(ia + 1, k)
    case South => jb + 1 == Scaled(ja, k) && Scaled(ia, k) <= ib < Scaled(ia + 1, k)
    case East => ib == Scaled(ia + 1, k) && Scaled(ja, k) <= jb < Scaled(ja + 1, k)
    case West => ib + 1 == Scaled(ia, k) && Scaled(ja, k) <= jb < Scaled(ja + 1, k)
  }

  /** Cell a, at most as deep as b, has b just across its edge in direction dir. */
  predicate TouchesAcross(a: Cell, b: Cell, dir: Direction)
    requires Depth(a) <= Depth(b)
  {
    LatticeTouch(Col(a), Row(a), Depth(b) - Depth(a), Col(b), Row(b), dir)
  }

  /** One level deeper or shallower on the deeper side; e and n say whether the quarter is east, north. */
  lemma LatticeTouchQuarter(ia: nat, ja: nat, k: nat, ib: nat, jb: nat, e: bool, n: bool, dir: Direction)
    ensures var side := match dir case North => !n case South => n case East => !e case West => e;
            LatticeTouch(ia, ja, k + 1, 2 * ib + (if e then 1 else 0), 2 * jb + (if n then 1 else 0), dir) <==>
            LatticeTouch(ia, ja, k, ib, jb, dir) && side
  {
  }

  ghost predicate ShareEdge(a: Cell, b: Cell) {
    if Depth(a) <= Depth(b) then exists dir :: TouchesAcross(a, b, dir) else exists dir :: TouchesAcross(b, a, dir)
  }

  /** The promise of balancing: the depths of two leaves that share an edge differ by at most one. */
  ghost predicate Balanced(inner: set<Cell>) {
    forall a, b :: IsLeaf(inner, a) && IsLeaf(inner, b) && ShareEdge(a, b) ==> -1 <= Depth(a) - Depth(b) <= 1
  }

  /** Touching across an edge, one level up on the deeper side. */
  lemma {:induction false} TouchesAcrossFather(a: Cell, b: Cell, dir: Direction)
    requires Depth(a) < Depth(b)
    ensures TouchesAcross(a, b, dir) <==> TouchesAcross(a, b.father, dir) && OnSide(b.quadrant, Opposite(dir))
  {
    LatticeTouchQuarter(Col(a), Row(a), Depth(b.father) - Depth(a), Col(b.father), Row(b.father),
                        IsEast(b.quadrant), IsNorth(b.quadrant), dir);
  }

  /** Cells of one depth that touch are adjacent. */
  lemma TouchesAcrossLevel(a: Cell, b: Cell, dir: Direction)
    requires Depth(a) == Depth(b) && TouchesAcross(a, b, dir)
    ensures HasAdjacent(a, dir) && b == Adjacent(a, dir)
  {
    assert Scaled(Col(a), 0) == Col(a) && Scaled(Row(a), 0) == Row(a);
    CoordinatesDetermineCell(b, Adjacent(a, dir));
  }

  /** The deeper cell of a touching pair lies under the adjacent cell of the shallower one. */
  lemma {:induction false} TouchingAncestors(a: Cell, b: Cell, dir: Direction)
    requires Depth(a) <= Depth(b) && TouchesAcross(a, b, dir)
    ensures HasAdjacent(a, dir) && Ancestor(b, Depth(a)) == Adjacent(a, dir)
    ensures Depth(a) < Depth(b) ==>
              var next := Ancestor(b, Depth(a) + 1);
              next.Quarter? && next.father == Adjacent(a, dir) && OnSide(next.quadrant, Opposite(dir))
  {
    hide TouchesAcross, HasAdjacent, Adjacent, OnSide, Opposite;
    if Depth(a) == Depth(b) {
      TouchesAcrossLevel(a, b, dir);
    } else {
      TouchesAcrossFather(a, b, dir);
      TouchingAncestors(a, b.father, dir);
    }
  }

  /** Two leaves more than one level apart across an edge: the shallow one needs refinement. */
  lemma UnbalancedPairNeedsRefinement(inner: set<Cell>, a: Cell, b: Cell, dir: Direction)
    requires IsShape(inner) && IsLeaf(inner, a) && IsLeaf(inner, b)
    requires Depth(a) + 2 <= Depth(b) && TouchesAcross(a, b, dir)
    ensures NeedsRefinement(inner, a)
  {
    TouchingAncestors(a, b, dir);
    AncestorInner(inner, b, Depth(a));
    AncestorInner(inner, b, Depth(a) + 1);
    assert NeedsRefinementTowards(inner, a, dir);
  }

  /** A quadrant that touches the edge looking back from direction dir. */
  function Facing(dir: Direction): (q: Quadrant)
    ensures OnSide(q, Opposite(dir))
  {
    if dir == North then SW else if dir == South then NW else if dir == East then SW else SE
  }

  /** Following split cells along an edge ends in a leaf on that edge. */
  lemma {:induction false} LeafAcross(inner: set<Cell>, a: Cell, c: Cell, dir: Direction) returns (b: Cell)
    requires Depth(a) <= Depth(c) && TouchesAcross(a, c, dir) && Exists(inner, c)
    ensures Depth(c) <= Depth(b) && TouchesAcross(a, b, dir) && IsLeaf(inner, b)
    decreases set x | x in inner && Depth(x) >= Depth(c)
  {
    if c !in inner {
      b := c;
    } else {
      var next := Quarter(c, Facing(dir));
      TouchesAcrossFather(a, next, dir);
      ghost var deep := set x | x in inner && Depth(x) >= Depth(c);
      ghost var deeper := set x | x in inner && Depth(x) >= Depth(next);
      assert deeper <= deep && c in deep && c !in deeper;
      b := LeafAcross(inner, a, next, dir);
    }
  }

  /** A leaf that needs refinement shares an edge with a leaf at least two levels deeper. */
  lemma RefinementHasDeepLeaf(inner: set<Cell>, c: Cell, dir: Direction) returns (b: Cell)
    requires IsShape(inner) && NeedsRefinementTowards(inner, c, dir)
    ensures IsLeaf(inner, b) && Depth(c) + 2 <= Depth(b) && TouchesAcross(c, b, dir)
  {
    var a := Adjacent(c, dir);
    var q :| OnSide(q, Opposite(dir)) && Quarter(a, q) in inner;
    assert TouchesAcross(c, a, dir);
    TouchesAcrossFather(c, Quarter(a, q), dir);
    TouchesAcrossFather(c, Quarter(Quarter(a, q), Facing(dir)), dir);
    b := LeafAcross(inner, c, Quarter(Quarter(a, q), Facing(dir)), dir);
  }

  lemma NoRefinementBalancesPair(inner: set<Cell>, a: Cell, b: Cell)
    requires IsShape(inner) && IsLeaf(inner, a) && IsLeaf(inner, b) && ShareEdge(a, b) && Depth(a) < Depth(b)
    requires !NeedsRefinement(inner, a)
    ensures Depth(b) - Depth(a) <= 1
  {
    if Depth(a) + 2 <= Depth(b) {
      var dir :| TouchesAcross(a, b, dir);
      UnbalancedPairNeedsRefinement(inner, a, b, dir);
    }
  }

  /** Balance, read off the neighbour test: exactly when no leaf needs refinement. */
  lemma BalancedIffNoLeafNeedsRefinement(inner: set<Cell>)
    requires IsShape(inner)
    ensures Balanced(inner) <==> forall c :: IsLeaf(inner, c) ==> !NeedsRefinement(inner, c)
  {
    if forall c :: IsLeaf(inner, c) ==> !NeedsRefinement(inner, c) {
      forall a, b | IsLeaf(inner, a) && IsLeaf(inner, b) && ShareEdge(a, b)
        ensures -1 <= Depth(a) - Depth(b) <= 1
      {
        if Depth(a) < Depth(b) {
          NoRefinementBalancesPair(inner, a, b);
        } else if Depth(b) < Depth(a) {
          NoRefinementBalancesPair(inner, b, a);
        }
      }
    }
    if Balanced(inner) {
      forall c | IsLeaf(inner, c)
        ensures !NeedsRefinement(inner, c)
      {
        if dir :| NeedsRefinementTowards(inner, c, dir) {
          var b := RefinementHasDeepLeaf(inner, c, dir);
          assert ShareEdge(c, b);
        }
      }
    }
  }

  // ---- one balancing step ----

  /** What a split of c can do to another leaf: one that newly needs refinement is the shallower leaf
      that a neighbour query of c returns. */
  lemma SplitDisturbsNeighbour(inner: set<Cell>, c: Cell, leaf: Cell, dir: Direction)
    requires IsShape(inner) && IsLeaf(inner, c) && IsLeaf(inner, leaf) && leaf != c
    requires NeedsRefinementTowards(inner + {c}, leaf, dir) && !NeedsRefinement(inner, leaf)
    ensures Depth(leaf) < Depth(c) && HasAdjacent(c, Opposite(dir))
    ensures Covering(inner + {c}, Adjacent(c, Opposite(dir))) == leaf
  {
    var a := Adjacent(leaf, dir);
    var q :| OnSide(q, Opposite(dir)) && Quarter(a, q) in inner + {c};
    assert c == Quarter(a, q) by {
      if c != Quarter(a, q) {
        assert NeedsRefinementTowards(inner, leaf, dir);
      }
    }
    AdjacentBack(leaf, dir);
    AdjacentOfQuarter(c, Opposite(dir));
    assert Adjacent(c, Opposite(dir)) == Quarter(leaf, Mirror(q, Opposite(dir)));
  }

  /** The leaves a split of c can put in need of refinement: its quarters and the shallower leaves
      found by its neighbour queries; every other one needed refinement before. */
  lemma SplitDisturbsOnlyNeighbours(inner: set<Cell>, c: Cell, leaf: Cell)
    requires IsShape(inner) && IsLeaf(inner, c)
    requires IsLeaf(inner + {c}, leaf) && NeedsRefinement(inner + {c}, leaf)
    ensures || (leaf.Quarter? && leaf.father == c)
            || (leaf != c && IsLeaf(inner, leaf) && NeedsRefinement(inner, leaf))
            || (Depth(leaf) < Depth(c) &&
                exists dir :: HasAdjacent(c, dir) && Covering(inner + {c}, Adjacent(c, dir)) == leaf)
  {
    if !(leaf.Quarter? && leaf.father == c) && !NeedsRefinement(inner, leaf) {
      var dir :| NeedsRefinementTowards(inner + {c}, leaf, dir);
      SplitDisturbsNeighbour(inner, c, leaf, dir);
    }
  }

  /** No split cell is as deep as maxDepth, so no node is deeper than maxDepth. */
  ghost predicate DepthAtMost(inner: set<Cell>, maxDepth: nat) {
    forall c :: c in inner ==> Depth(c) < maxDepth
  }

  /** A leaf that needs refinement has nodes two levels deeper next to it. */
  lemma RefinementStaysWithinDepth(inner: set<Cell>, c: Cell, maxDepth: nat)
    requires NeedsRefinement(inner, c) && DepthAtMost(inner, maxDepth)
    ensures Depth(c) + 1 < maxDepth && DepthAtMost(inner + {c}, maxDepth)
  {
    var dir :| NeedsRefinementTowards(inner, c, dir);
    var q :| OnSide(q, Opposite(dir)) && Quarter(Adjacent(c, dir), q) in inner;
    assert Depth(Quarter(Adjacent(c, dir), q)) == Depth(c) + 1;
  }

  /** A split that is forced in a shape is forced in every balanced shape that extends it. */
  lemma ForcedSplit(inner: set<Cell>, c: Cell, other: set<Cell>)
    requires IsLeaf(inner, c) && NeedsRefinement(inner, c)
    requires IsShape(other) && Balanced(other) && inner <= other
    ensures c in other
  {
    if c !in other {
      BalancedIffNoLeafNeedsRefinement(other);
      assert IsLeaf(other, c);
      var dir :| NeedsRefinementTowards(inner, c, dir);
      assert NeedsRefinementTowards(other, c, dir);
    }
  }

  /** The cells that a tree of the given depth can split: the room left for a terminating refinement. */
  ghost function CellsAbove(maxDepth: nat): set<Cell> {
    if maxDepth == 0 then {} else
      var fathers := CellsAbove(maxDepth - 1);
      {Root} + set c, q: Quadrant | c in fathers :: Quarter(c, q)
  }

  lemma {:induction false} InCellsAbove(c: Cell, maxDepth: nat)
    requires Depth(c) < maxDepth
    ensures c in CellsAbove(maxDepth)
  {
    if c.Quarter? {
      InCellsAbove(c.father, maxDepth - 1);
      assert c == Quarter(c.father, c.quadrant);
    }
  }
}
