/** The vector of unique points: deduplication with an octree, the map from old to new ids, insertion. */
module PointVec {
  import opened Common
  import opened Space
  import opened BoundingBox
  import opened Trees = OctTree

  /** The id of a point that has not been given one. */
  const UNSET: nat := 0xFFFF_FFFF_FFFF_FFFF

  const MAX_POINTS: nat := 16

  // ---- the specification: which points are kept ----

  /** One of the points conflicts with p. */
  ghost predicate Refused(eps: real, points: seq<Point>, p: Point) {
    exists q :: q in points && Conflict(eps, q.pos, p.pos)
  }

  /** The points of a sequence that remain when each point that conflicts with a kept earlier one is dropped. */
  ghost function Unique(eps: real, points: seq<Point>): seq<Point> {
    if points == [] then [] else
      var kept := Unique(eps, points[..|points| - 1]);
      var p := points[|points| - 1];
      if Refused(eps, kept, p) then kept else kept + [p]
  }

  /** No earlier point stands in the way of a later one. */
  ghost predicate Ordered(eps: real, points: seq<Point>) {
    forall i, j :: 0 <= i < j < |points| ==> !Conflict(eps, points[i].pos, points[j].pos)
  }

  lemma {:induction false} UniqueIsOrdered(eps: real, points: seq<Point>)
    ensures Ordered(eps, Unique(eps, points))
    ensures forall p :: p in Unique(eps, points) ==> p in points
  {
    if points != [] {
      UniqueIsOrdered(eps, points[..|points| - 1]);
      var kept := Unique(eps, points[..|points| - 1]);
      forall i, j | 0 <= i < j < |Unique(eps, points)|
        ensures !Conflict(eps, Unique(eps, points)[i].pos, Unique(eps, points)[j].pos)
      {
        assert kept[i] in kept;
      }
    }
  }

  /** Which of two points remain depends on their order iff one is a step ahead of the other. */
  lemma OrderMattersIff(eps: real, a: Point, b: Point)
    requires eps > 0.0 && a != b
    ensures AsSet(Unique(eps, [a, b])) == {a, b} <==> !Conflict(eps, a.pos, b.pos)
    ensures |Unique(eps, [a, b])| != |Unique(eps, [b, a])| <==>
            StepAhead(eps, a.pos, b.pos) || StepAhead(eps, b.pos, a.pos)
  {
    hide Conflict, StepAhead;
    UniqueOfTwo(eps, a, b);
    UniqueOfTwo(eps, b, a);
    SymmetricIff(eps, a.pos, b.pos);
  }

  lemma UniqueOfTwo(eps: real, a: Point, b: Point)
    ensures Unique(eps, [a, b]) == if Conflict(eps, a.pos, b.pos) then [a] else [a, b]
  {
    hide Conflict;
    assert [a, b][..1] == [a] && [a][..0] == [];
    assert Unique(eps, [a]) == [a];
  }

  /** Of two points one unit apart on an axis, the second is dropped in one order and kept in the other. */
  lemma OrderMatters(a: Point, b: Point)
    requires a.pos == Vec(0.0, 0.0, 0.0) && b.pos == Vec(1.0, 0.0, 0.0)
    ensures Unique(1.0, [a, b]) == [a] && Unique(1.0, [b, a]) == [b, a]
  {
    UniqueOfTwo(1.0, a, b);
    UniqueOfTwo(1.0, b, a);
    assert StepAhead(1.0, a.pos, b.pos) && !StepAhead(1.0, b.pos, a.pos);
    ConflictIffNear(1.0, a.pos, b.pos);
    ConflictIffNear(1.0, b.pos, a.pos);
    SqrDistSymmetric(a.pos, b.pos);
  }

  /** In coordinates: exactly those points are kept that no kept earlier one stands in the way of. */
  ghost predicate KeepsFree(eps: real, points: seq<Point>, data: seq<Point>) {
    forall i :: 0 <= i < |points| ==>
      (points[i] in data <==>
         forall j :: 0 <= j < i && points[j] in data ==> !InTheWay(eps, points[j].pos, points[i].pos))
  }

  lemma KeptIffFree(eps: real, points: seq<Point>)
    requires eps > 0.0 && Distinct(points)
    ensures KeepsFree(eps, points, Unique(eps, points))
  {
    hide Conflict, InTheWay, Unique, Distinct;
    forall i | 0 <= i < |points|
      ensures points[i] in Unique(eps, points) <==>
        forall j :: 0 <= j < i && points[j] in Unique(eps, points) ==> !InTheWay(eps, points[j].pos, points[i].pos)
    {
      KeptIff(eps, points, i);
      forall j | 0 <= j < i
        ensures Conflict(eps, points[j].pos, points[i].pos) <==> InTheWay(eps, points[j].pos, points[i].pos)
      {
        FreeIff(eps, {points[j]}, points[i]);
      }
    }
  }

  lemma {:induction false} KeptIff(eps: real, points: seq<Point>, i: nat)
    requires i < |points| && Distinct(points)
    ensures points[i] in Unique(eps, points) <==>
      forall j :: 0 <= j < i && points[j] in Unique(eps, points) ==> !Conflict(eps, points[j].pos, points[i].pos)
  {
    hide Conflict;
    var n := |points| - 1;
    var front, p := points[..n], points[n];
    UniqueIsOrdered(eps, front);
    assert p !in front && forall j :: 0 <= j < n ==> front[j] == points[j] && points[j] != p;
    if i < n {
      KeptIff(eps, front, i);
    } else {
      forall q | q in Unique(eps, front)
        ensures exists j :: 0 <= j < n && points[j] == q
      {
        assert q in front;
      }
    }
  }

  /** The kept points keep their order. */
  lemma {:induction false} UniqueInOrder(eps: real, points: seq<Point>) returns (pos: seq<nat>)
    ensures |pos| == |Unique(eps, points)| && forall i, j :: 0 <= i < j < |pos| ==> pos[i] < pos[j]
    ensures forall i :: 0 <= i < |pos| ==> pos[i] < |points| && Unique(eps, points)[i] == points[pos[i]]
  {
    pos := [];
    if points != [] {
      var n := |points| - 1;
      pos := UniqueInOrder(eps, points[..n]);
      if !Refused(eps, Unique(eps, points[..n]), points[n]) {
        pos := pos + [n];
      }
    }
  }

  lemma {:induction false} UniqueIsDistinct(eps: real, points: seq<Point>)
    requires Distinct(points)
    ensures Distinct(Unique(eps, points))
  {
    if points != [] {
      var front := points[..|points| - 1];
      var p := points[|points| - 1];
      UniqueIsDistinct(eps, front);
      UniqueIsOrdered(eps, front);
      assert p !in front;
    }
  }

  /** Points without conflicts are all kept. */
  lemma {:induction false} OrderedIsUnique(eps: real, points: seq<Point>)
    requires Ordered(eps, points)
    ensures Unique(eps, points) == points
  {
    if points != [] {
      OrderedIsUnique(eps, points[..|points| - 1]);
      assert points[..|points| - 1] + [points[|points| - 1]] == points;
    }
  }

  // ---- removed positions ----

  /** The positions of the removed points of a vector. */
  function Removed(vec: seq<Point?>): seq<nat> {
    if vec == [] then [] else
      Removed(vec[..|vec| - 1]) + if vec[|vec| - 1] == null then [|vec| - 1] else []
  }

  /** The points of a vector that are not removed. */
  function Compacted(vec: seq<Point?>): seq<Point> {
    if vec == [] then [] else
      Compacted(vec[..|vec| - 1]) + if vec[|vec| - 1] == null then [] else [vec[|vec| - 1]]
  }

  /** The number of removed points before a position. */
  function Rank(vec: seq<Point?>, j: nat): nat
    requires j <= |vec|
  {
    |Removed(vec[..j])|
  }

  lemma {:induction false} Counts(vec: seq<Point?>)
    ensures |Removed(vec)| + |Compacted(vec)| == |vec|
  {
    if vec != [] {
      Counts(vec[..|vec| - 1]);
    }
  }

  lemma RankStep(vec: seq<Point?>, j: nat)
    requires j < |vec|
    ensures Rank(vec, j + 1) == Rank(vec, j) + if vec[j] == null then 1 else 0
  {
    assert vec[..j + 1][..j] == vec[..j];
  }

  lemma {:induction false} RankMonotone(vec: seq<Point?>, i: nat, j: nat)
    requires i <= j <= |vec|
    ensures Rank(vec, i) <= Rank(vec, j) && (i < j && vec[i] == null ==> Rank(vec, i) < Rank(vec, j))
    decreases j - i
  {
    if i < j {
      RankMonotone(vec, i, j - 1);
      RankStep(vec, j - 1);
      if i < j - 1 {
        RankMonotone(vec, i, j - 1);
      }
    }
  }

  /** The removed positions are listed in order; the i-th has i removed positions before it. */
  lemma {:induction false} RemovedAt(vec: seq<Point?>, i: nat)
    requires i < |Removed(vec)|
    ensures Removed(vec)[i] < |vec| && vec[Removed(vec)[i]] == null && Rank(vec, Removed(vec)[i]) == i
  {
    var front := vec[..|vec| - 1];
    if i < |Removed(front)| {
      RemovedAt(front, i);
      assert front[..Removed(front)[i]] == vec[..Removed(front)[i]];
    } else {
      assert vec[..|vec| - 1] == front;
    }
  }

  /** A position lies behind the i-th removed one iff its rank is larger than i. */
  lemma RankAgainst(vec: seq<Point?>, i: nat, j: nat)
    requires i < |Removed(vec)| && j <= |vec|
    ensures Removed(vec)[i] < j <==> i < Rank(vec, j)
  {
    RemovedAt(vec, i);
    var r := Removed(vec)[i];
    if r < j {
      RankMonotone(vec, r, j);
    } else {
      RankMonotone(vec, j, r);
    }
  }

  lemma RankBound(vec: seq<Point?>, j: nat)
    requires j <= |vec|
    ensures Rank(vec, j) <= j && Rank(vec, j) <= |Removed(vec)|
  {
    Counts(vec[..j]);
    RankMonotone(vec, j, |vec|);
    assert vec[..|vec|] == vec;
  }

  /** A point that is not removed moves down by the number of removed points before it. */
  lemma {:induction false} CompactedAt(vec: seq<Point?>, j: nat)
    requires j < |vec| && vec[j] != null
    ensures Rank(vec, j) <= j && j - Rank(vec, j) < |Compacted(vec)| && Compacted(vec)[j - Rank(vec, j)] == vec[j]
  {
    RankBound(vec, j);
    var front := vec[..|vec| - 1];
    if j < |vec| - 1 {
      CompactedAt(front, j);
      assert front[..j] == vec[..j];
    } else {
      Counts(front);
    }
  }

  lemma {:induction false} CompactedFrom(vec: seq<Point?>, p: Point) returns (j: nat)
    requires p in Compacted(vec)
    ensures j < |vec| && vec[j] == p
  {
    var front := vec[..|vec| - 1];
    if p in Compacted(front) {
      j := CompactedFrom(front, p);
    } else {
      j := |vec| - 1;
    }
  }

  // ---- the loops of the constructor ----

  /** Gives each point without an id its position; other ids stay. */
  method CorrectIds(points: seq<Point>)
    requires Distinct(points)
    modifies points
    ensures forall k :: 0 <= k < |points| ==>
      points[k].id == if old(points[k].id) == 18446744073709551615 then k else old(points[k].id)
  {
    for k := 0 to |points|
      invariant forall j :: 0 <= j < k ==> points[j].id == if old(points[j].id) == UNSET then j else old(points[j].id)
      invariant forall j :: k <= j < |points| ==> points[j].id == old(points[j].id)
    {
      if points[k].id == UNSET {
        points[k].id := k;
      }
    }
  }

  /** What is known after the first k points were added to the tree. */
  ghost predicate Deduplicated(eps: real, points: seq<Point>, k: nat, idMap: seq<nat>, vec: seq<Point?>) {
    k <= |points| == |idMap| == |vec| &&
    (forall j :: k <= j < |points| ==> idMap[j] == j && vec[j] == points[j]) &&
    (forall j :: 0 <= j < k && vec[j] != null ==> vec[j] == points[j] && idMap[j] == j) &&
    (forall j :: 0 <= j < k && vec[j] == null ==>
       idMap[j] < j && vec[idMap[j]] != null && Conflict(eps, points[idMap[j]].pos, points[j].pos)) &&
    Compacted(vec[..k]) == Unique(eps, points[..k])
  }

  lemma PointKept(eps: real, points: seq<Point>, k: nat, idMap: seq<nat>, vec: seq<Point?>)
    requires k < |points| && Deduplicated(eps, points, k, idMap, vec)
    requires forall q :: q in Unique(eps, points[..k]) ==> !Conflict(eps, q.pos, points[k].pos)
    ensures Deduplicated(eps, points, k + 1, idMap, vec)
    ensures Unique(eps, points[..k + 1]) == Unique(eps, points[..k]) + [points[k]]
  {
    assert vec[..k + 1][..k] == vec[..k];
    assert points[..k + 1][..k] == points[..k];
  }

  lemma PointRemoved(eps: real, points: seq<Point>, k: nat, idMap: seq<nat>, vec: seq<Point?>, q: Point, rep: nat)
    requires k < |points| && Deduplicated(eps, points, k, idMap, vec)
    requires q in Unique(eps, points[..k]) && Conflict(eps, q.pos, points[k].pos)
    requires rep < k && vec[rep] == q
    ensures Deduplicated(eps, points, k + 1, idMap[k := rep], vec[k := null])
    ensures Unique(eps, points[..k + 1]) == Unique(eps, points[..k])
  {
    var vec' := vec[k := null];
    assert vec'[..k + 1][..k] == vec[..k];
    assert points[..k + 1][..k] == points[..k];
  }

  ghost function AsSet(points: seq<Point>): set<Point> {
    set p | p in points
  }

  /** The outcomes of adding a point to a tree that holds the unique ones of the points before. */
  lemma OutcomeDecides(eps: real, box: Box, points: seq<Point>, k: nat, s: set<Point>, ok: bool, ret: Point?,
        s': set<Point>)
    requires k < |points| && s == AsSet(Unique(eps, points[..k])) && box.Contains(points[k].pos)
    requires Outcome(eps, box, s, points[k], ok, ret, s')
    ensures ok ==>
      (forall q :: q in Unique(eps, points[..k]) ==> !Conflict(eps, q.pos, points[k].pos)) && s' == s + {points[k]}
    ensures !ok ==> ret != null && ret in Unique(eps, points[..k]) && Conflict(eps, ret.pos, points[k].pos) && s' == s
  {
  }

  lemma FindRepresentative(eps: real, points: seq<Point>, k: nat, idMap: seq<nat>, vec: seq<Point?>, q: Point)
    returns (rep: nat)
    requires k < |points| && Deduplicated(eps, points, k, idMap, vec) && q in Unique(eps, points[..k])
    ensures rep < k && vec[rep] == q && q == points[rep]
  {
    rep := CompactedFrom(vec[..k], q);
    assert vec[..k][rep] == vec[rep];
  }

  /** Adds all points to the tree and drops those that are refused. */
  method Deduplicate(points: seq<Point>, tree: OctTree) returns (idMap: seq<nat>, rmPos: seq<nat>, vec: seq<Point?>)
    requires Distinct(points) && (forall k :: 0 <= k < |points| ==> points[k].id == k)
    requires tree.Valid() && tree.Content == {} && forall p :: p in points ==> tree.box.Contains(p.pos)
    modifies tree.Repr
    ensures tree.Valid() && fresh(tree.Repr - old(tree.Repr)) && Separated(tree.eps, tree.Content)
    ensures tree.Content == AsSet(Unique(tree.eps, points))
    ensures Deduplicated(tree.eps, points, |points|, idMap, vec) && rmPos == Removed(vec)
  {
    hide OctTree.Valid, Separated, Conflict, Unique, Deduplicated, Removed, Compacted, Outcome, Box.Contains, Distinct,
      AsSet;
    idMap := seq(|points|, k => k);
    vec := points;
    rmPos := [];
    ghost var eps := tree.eps;
    DeduplicationStart(eps, points, idMap, vec);
    for k := 0 to |points|
      invariant tree.Valid() && fresh(tree.Repr - old(tree.Repr)) && Separated(eps, tree.Content)
      invariant tree.Content == AsSet(Unique(eps, points[..k]))
      invariant |vec| == |idMap| == |points|
      invariant Deduplicated(eps, points, k, idMap, vec) && rmPos == Removed(vec[..k])
    {
      var pnt := points[k];
      ghost var before := tree.Content;
      var ok, ret := tree.AddPoint(pnt);
      OutcomeDecides(eps, tree.box, points, k, before, ok, ret, tree.Content);
      if !ok {
        ghost var rep := FindRepresentative(eps, points, k, idMap, vec, ret);
        assert pnt.id == k && ret.id == rep;
        DeduplicatedLengths(eps, points, k, idMap, vec);
        PointRemoved(eps, points, k, idMap, vec, ret, rep);
        RemovedStep(vec[k := null], k);
        assert vec[k := null][..k] == vec[..k];
        idMap := idMap[pnt.id := ret.id];
        rmPos := rmPos + [k];
        vec := vec[k := null];
      } else {
        PointKept(eps, points, k, idMap, vec);
        DeduplicatedLengths(eps, points, k, idMap, vec);
        RemovedStep(vec, k);
        SetOneMore(Unique(eps, points[..k]), pnt);
        assert idMap[k := pnt.id] == idMap;
        idMap := idMap[k := pnt.id];
      }
    }
    DeduplicatedLengths(eps, points, |points|, idMap, vec);
    assert points[..|points|] == points && vec[..|points|] == vec;
  }

  lemma DeduplicationStart(eps: real, points: seq<Point>, idMap: seq<nat>, vec: seq<Point?>)
    requires |idMap| == |points| && vec == points && forall k :: 0 <= k < |points| ==> idMap[k] == k
    ensures Deduplicated(eps, points, 0, idMap, vec) && Removed(vec[..0]) == [] && Separated(eps, {})
    ensures AsSet(Unique(eps, points[..0])) == {}
  {
  }

  lemma DeduplicatedLengths(eps: real, points: seq<Point>, k: nat, idMap: seq<nat>, vec: seq<Point?>)
    requires Deduplicated(eps, points, k, idMap, vec)
    ensures k <= |points| == |idMap| == |vec|
    ensures k < |points| ==> idMap[k] == k && vec[k] != null
  {
  }

  lemma RemovedStep(vec: seq<Point?>, k: nat)
    requires k < |vec|
    ensures Removed(vec[..k + 1]) == Removed(vec[..k]) + if vec[k] == null then [k] else []
  {
    assert vec[..k + 1][..k] == vec[..k];
  }

  lemma SetOneMore(points: seq<Point>, p: Point)
    ensures AsSet(points + [p]) == AsSet(points) + {p}
  {
  }

  // ---- correction of the ids ----

  lemma BetweenRemoved(vec: seq<Point?>, k: nat, j: nat)
    requires k <= |Removed(vec)| && j < |vec|
    requires k > 0 ==> Removed(vec)[k - 1] < j
    requires k < |Removed(vec)| ==> j < Removed(vec)[k]
    ensures vec[j] != null && Rank(vec, j) == k
  {
    RankBound(vec, j);
    RankBound(vec, j + 1);
    RankStep(vec, j);
    if k > 0 {
      RankAgainst(vec, k - 1, j);
    }
    if k < |Removed(vec)| {
      RankAgainst(vec, k, j);
      RankAgainst(vec, k, j + 1);
    }
  }

  /** The kept positions before b have been decremented by the number of removed positions before them. */
  ghost predicate Decremented(vec: seq<Point?>, before: seq<nat>, idMap: seq<nat>, b: int) {
    |idMap| == |before| == |vec| &&
    forall j :: 0 <= j < |vec| ==> idMap[j] == if vec[j] != null && j < b then before[j] - Rank(vec, j) else before[j]
  }

  /** Decrements the kept positions. */
  method DecrementKept(before: seq<nat>, rmPos: seq<nat>, ghost vec: seq<Point?>) returns (idMap: seq<nat>)
    requires rmPos == Removed(vec) && |before| == |vec|
    requires forall j :: 0 <= j < |vec| && vec[j] != null ==> before[j] == j
    ensures Decremented(vec, before, idMap, |vec|)
  {
    hide Decremented, Removed;
    idMap := before;
    FirstKept(vec, before);
    var k := 1;
    // the positions between two removed ones
    while k < |rmPos|
      invariant 1 <= k && (|rmPos| == 0 || k <= |rmPos|)
      invariant Decremented(vec, before, idMap, if |rmPos| == 0 then |vec| else rmPos[k - 1])
    {
      RemovedInOrder(vec, k);
      idMap := DecrementRun(before, idMap, rmPos[k - 1], rmPos[k], k, vec);
      k := k + 1;
    }
    // the positions behind the last removed one
    if |rmPos| > 0 {
      RemovedAt(vec, |rmPos| - 1);
      idMap := DecrementRun(before, idMap, rmPos[|rmPos| - 1], |before|, |rmPos|, vec);
    }
  }

  /** Decrements the positions behind the removed one at lower, up to upper, by k. */
  method DecrementRun(ghost before: seq<nat>, idMap: seq<nat>, lower: nat, upper: nat, k: nat, ghost vec: seq<Point?>)
    returns (r: seq<nat>)
    requires 0 < k <= |Removed(vec)| && Removed(vec)[k - 1] == lower < upper <= |vec| && vec[lower] == null
    requires k < |Removed(vec)| ==> upper <= Removed(vec)[k]
    requires |before| == |vec| && forall j :: 0 <= j < |vec| && vec[j] != null ==> before[j] == j
    requires Decremented(vec, before, idMap, lower)
    ensures Decremented(vec, before, r, upper)
  {
    hide Decremented, Removed, Rank;
    NothingAt(vec, before, idMap, lower);
    r := idMap;
    for j := lower + 1 to upper
      invariant Decremented(vec, before, r, j)
    {
      BetweenRemoved(vec, k, j);
      r := DecrementAt(before, r, j, k, vec);
    }
  }

  method DecrementAt(ghost before: seq<nat>, idMap: seq<nat>, j: nat, k: nat, ghost vec: seq<Point?>)
    returns (r: seq<nat>)
    requires j < |vec| && Decremented(vec, before, idMap, j) && vec[j] != null && before[j] == j && Rank(vec, j) == k
    ensures Decremented(vec, before, r, j + 1)
  {
    RankBound(vec, j);
    r := idMap[j := idMap[j] - k];
  }

  lemma FirstKept(vec: seq<Point?>, before: seq<nat>)
    requires |before| == |vec|
    ensures Decremented(vec, before, before, if |Removed(vec)| == 0 then |vec| else Removed(vec)[0])
  {
    forall j | 0 <= j < |vec| && (|Removed(vec)| > 0 ==> j < Removed(vec)[0])
      ensures Rank(vec, j) == 0
    {
      BetweenRemoved(vec, 0, j);
    }
  }

  lemma FirstRemoved(vec: seq<Point?>, before: seq<nat>)
    requires |before| == |vec| && forall j :: 0 <= j < |vec| && vec[j] == null ==> before[j] < j
    ensures forall j :: 0 <= j < |vec| && vec[j] == null && (|Removed(vec)| > 0 ==> j <= Removed(vec)[0]) ==>
      Rank(vec, before[j]) == 0
  {
    forall j | 0 <= j < |vec| && vec[j] == null && (|Removed(vec)| > 0 ==> j <= Removed(vec)[0])
      ensures Rank(vec, before[j]) == 0
    {
      BetweenRemoved(vec, 0, before[j]);
    }
  }

  lemma NothingAt(vec: seq<Point?>, before: seq<nat>, idMap: seq<nat>, b: nat)
    requires Decremented(vec, before, idMap, b) && b < |vec| && vec[b] == null
    ensures Decremented(vec, before, idMap, b + 1)
  {
  }

  lemma RemovedInOrder(vec: seq<Point?>, k: nat)
    requires 0 < k < |Removed(vec)|
    ensures Removed(vec)[k - 1] < Removed(vec)[k] < |vec| && vec[Removed(vec)[k - 1]] == null
  {
    RemovedAt(vec, k - 1);
    RemovedAt(vec, k);
    RankAgainst(vec, k - 1, Removed(vec)[k]);
  }

  /** Decrements the ids at the removed positions by the number of removed points before the kept one. */
  method DecrementRemoved(before: seq<nat>, idMap: seq<nat>, rmPos: seq<nat>, ghost vec: seq<Point?>)
    returns (r: seq<nat>)
    requires rmPos == Removed(vec) && Decremented(vec, before, idMap, |vec|)
    requires forall j :: 0 <= j < |vec| ==>
      before[j] <= j && (vec[j] == null ==> before[j] < j) && (vec[j] != null ==> before[j] == j)
    ensures |r| == |vec| && forall j :: 0 <= j < |vec| ==> r[j] == before[j] - Rank(vec, before[j])
  {
    hide Removed, Rank;
    r := idMap;
    var k := 1;
    FirstRemoved(vec, before);
    while k < |rmPos|
      invariant 1 <= k && (|rmPos| == 0 || k <= |rmPos|) && |r| == |vec|
      invariant forall j :: 0 <= j < |vec| && vec[j] != null ==> r[j] == idMap[j]
      invariant forall j :: 0 <= j < |vec| && vec[j] == null ==>
        r[j] == if |rmPos| == 0 || j <= rmPos[k - 1] then before[j] - Rank(vec, before[j]) else before[j]
    {
      RemovedInOrder(vec, k);
      RemovedAt(vec, k);
      var id := r[rmPos[k]];
      var cnt := 0;
      while cnt < |rmPos| && id > rmPos[cnt]
        invariant cnt <= |rmPos| && cnt <= Rank(vec, id)
      {
        RankAgainst(vec, cnt, id);
        cnt := cnt + 1;
      }
      RankBound(vec, id);
      if cnt < |rmPos| {
        RankAgainst(vec, cnt, id);
      }
      forall j | rmPos[k - 1] < j < rmPos[k]
        ensures vec[j] != null
      {
        BetweenRemoved(vec, k, j);
      }
      r := r[rmPos[k] := id - cnt];
      k := k + 1;
    }
    forall j | 0 <= j < |vec| && (|rmPos| > 0 ==> rmPos[|rmPos| - 1] < j)
      ensures vec[j] != null
    {
      BetweenRemoved(vec, |rmPos|, j);
    }
  }

  /** The map from old to new ids: each point is mapped to itself if it was kept, else to an earlier
      point that is within eps. */
  ghost predicate Maps(eps: real, points: seq<Point>, data: seq<Point>, idMap: seq<nat>) {
    |idMap| == |points| &&
    forall i :: 0 <= i < |points| ==>
      idMap[i] < |data| &&
      if points[i] in data then data[idMap[i]] == points[i]
      else data[idMap[i]] in points[..i] && Conflict(eps, data[idMap[i]].pos, points[i].pos)
  }

  lemma DeduplicatedFacts(eps: real, points: seq<Point>, before: seq<nat>, vec: seq<Point?>)
    requires Deduplicated(eps, points, |points|, before, vec)
    ensures |before| == |vec| == |points| && Compacted(vec) == Unique(eps, points)
    ensures forall j :: 0 <= j < |vec| ==> before[j] <= j && (vec[j] != null ==> before[j] == j && vec[j] == points[j])
    ensures forall j :: 0 <= j < |vec| && vec[j] == null ==>
      before[j] < j && vec[before[j]] == points[before[j]] && Conflict(eps, points[before[j]].pos, points[j].pos)
  {
    assert vec[..|points|] == vec && points[..|points|] == points;
  }

  lemma KeptIsNotRemoved(points: seq<Point>, vec: seq<Point?>, i: nat)
    requires |vec| == |points| && Distinct(points)
    requires forall j :: 0 <= j < |vec| && vec[j] != null ==> vec[j] == points[j]
    requires i < |points| && points[i] in Compacted(vec)
    ensures vec[i] != null
  {
    var j := CompactedFrom(vec, points[i]);
    assert points[j] == points[i];
  }

  lemma CorrectedIdMaps(eps: real, points: seq<Point>, before: seq<nat>, vec: seq<Point?>, i: nat)
    requires Distinct(points) && Deduplicated(eps, points, |points|, before, vec) && i < |points|
    ensures |before| == |vec| == |points| && before[i] <= i && Rank(vec, before[i]) <= before[i]
    ensures var data, id := Compacted(vec), before[i] - Rank(vec, before[i]);
      id < |data| &&
      if points[i] in data then data[id] == points[i]
      else data[id] in points[..i] && Conflict(eps, data[id].pos, points[i].pos)
  {
    DeduplicatedFacts(eps, points, before, vec);
    hide Deduplicated, Compacted, Rank, Conflict, Distinct;
    CompactedAt(vec, before[i]);
    if points[i] in Compacted(vec) {
      KeptIsNotRemoved(points, vec, i);
    }
    if vec[i] == null {
      assert points[before[i]] == points[..i][before[i]];
    } else {
      assert points[i] == Compacted(vec)[before[i] - Rank(vec, before[i])];
    }
  }

  /** The three loops that turn the positions of the representatives into their new ids. */
  method CorrectIdMap(ghost eps: real, ghost points: seq<Point>, before: seq<nat>, rmPos: seq<nat>,
        ghost vec: seq<Point?>)
    returns (idMap: seq<nat>)
    requires Distinct(points) && Deduplicated(eps, points, |points|, before, vec) && rmPos == Removed(vec)
    ensures Maps(eps, points, Compacted(vec), idMap)
  {
    hide Deduplicated, Compacted, Rank, Conflict, Distinct, Removed;
    DeduplicatedFacts(eps, points, before, vec);
    idMap := DecrementKept(before, rmPos, vec);
    idMap := DecrementRemoved(before, idMap, rmPos, vec);
    forall i | 0 <= i < |points|
      ensures before[i] <= i && Rank(vec, before[i]) <= before[i]
      ensures var data, id := Compacted(vec), before[i] - Rank(vec, before[i]);
        id < |data| &&
        if points[i] in data then data[id] == points[i]
        else data[id] in points[..i] && Conflict(eps, data[id].pos, points[i].pos)
    {
      CorrectedIdMaps(eps, points, before, vec, i);
    }
  }

  // ---- the vector ----

  class PointVec {
    var data: seq<Point>
    var idMap: seq<nat>
    const aabb: Aabb
    const relEps: real
    var tree: OctTree

    ghost predicate Valid()
      reads this, data, aabb, tree, tree.Repr
    {
      tree.Valid() && tree.eps == EffectiveEps(relEps) && tree.maxPoints == MAX_POINTS && relEps >= 0.0 &&
      Separated(tree.eps, tree.Content) &&
      (forall x :: aabb.next(x) > x) &&
      Distinct(data) && (forall k :: 0 <= k < |data| ==> data[k].id == k) &&
      tree.Content <= AsSet(data) &&
      forall i :: 0 <= i < |idMap| ==> idMap[i] < |data|
    }

    /** The tree holds every point of the vector, and no point conflicts with a later one. */
    ghost predicate Complete()
      reads this, tree
    {
      tree.Content == AsSet(data) && Ordered(tree.eps, data)
    }

    /** The bounding box contains every point, and the tree lives in the cube around it. */
    ghost predicate Snug()
      reads this, aabb, tree
    {
      (forall p :: p in data ==> aabb.Contains(p.pos)) && tree.box == CubeAround(aabb.min, aabb.max, relEps)
    }

    constructor (points: seq<Point>, relEps: real, next: real -> real)
      requires |points| > 0 && Distinct(points) && relEps >= 0.0 && forall x :: next(x) > x
      requires forall k :: 0 <= k < |points| ==> points[k].id == UNSET || points[k].id == k
      modifies points
      ensures Valid() && Complete() && fresh(aabb) && fresh(tree.Repr)
      ensures data == Unique(tree.eps, points) && Maps(tree.eps, points, data, idMap)
      ensures Snug() && aabb.min == Lower(points)
      ensures var u := Upper(points); aabb.max == Vec(next(u.x), next(u.y), next(u.z))
      ensures this.relEps == relEps && aabb.next == next
      ensures tree.maxPoints == 16 && tree.eps == if relEps == 0.0 then EPSILON else relEps
    {
      hide Unique, Separated, OctTree.Valid, CubeAround, Ordered, Conflict, Distinct, AsSet, IsCentred, Largest;
      var box := new Aabb(points, next);
      var t := OctTree.CreateOctTree(box.min, box.max, relEps, MAX_POINTS);
      // points without an id get one
      CorrectIds(points);
      AllInside(points, next, box.min, box.max, relEps);
      var kept, corrected := MakeUnique(points, t);
      assert forall p :: p in kept ==> p in points && InRange(box.min, box.max, p.pos);
      data, idMap := kept, corrected;
      aabb := box;
      this.relEps := relEps;
      tree := t;
    }

    /** The state as a value. */
    ghost function Now(): State
      reads this, aabb, tree
    {
      State(data, tree.Content, tree.box, aabb.min, aabb.max)
    }

    /** Inserts a point; its id, or the id of the stored point it duplicates, is recorded and returned. */
    method PushBack(pnt: Point) returns (id: nat)
      requires Valid() && pnt !in data
      modifies this, aabb, tree.Repr, pnt
      ensures Valid() && fresh(tree.Repr - old(tree.Repr))
      ensures idMap == old(idMap) + [id] && id < |data|
      ensures data[id] == pnt || Conflict(tree.eps, data[id].pos, pnt.pos)
      ensures Inserted(aabb.next, relEps, old(Now()), pnt, id, Now())
      // what is complete stays so exactly if nothing is left outside a rebuilt tree, and holds the new point
      ensures old(Complete()) ==> (Complete() <==> old(NothingLost(aabb.next, relEps, Now(), pnt)))
      ensures old(Complete()) && data != old(data) ==> pnt in tree.Content
      // in general the tree may refuse a point that the vector takes
      ensures data != old(data) ==> (pnt in tree.Content <==> old(TreeTakes(aabb.next, relEps, Now(), pnt)))
      ensures old(Complete() && Snug() && (aabb.Contains(pnt.pos) || !tree.box.Contains(pnt.pos))) ==>
        Complete() && Snug()
    {
      hide OctTree.Valid, Separated, Inserted, Conflict, Ordered, AsSet, Box.Contains, CubeAround, InRange,
           NothingLost, TreeTakes;
      ghost var s := Now();
      id := UniqueInsert(pnt);
      idMap := idMap + [id];
      ghost var s' := Now();
      InsertedWithin(aabb.next, relEps, s, pnt, id, s');
      TreeTakesIff(aabb.next, relEps, s, pnt, id, s');
      if IsComplete(relEps, s) {
        CompleteAfter(aabb.next, relEps, s, pnt, id, s');
      }
      if IsSnug(relEps, s) && (InRange(s.min, s.max, pnt.pos) || !s.cube.Contains(pnt.pos)) {
        SnugAfter(aabb.next, relEps, s, pnt, id, s');
      }
    }

    method UniqueInsert(pnt: Point) returns (id: nat)
      requires Valid() && pnt !in data
      modifies this`data, this`tree, aabb, tree.Repr, pnt
      ensures Valid() && fresh(tree.Repr - old(tree.Repr)) && |data| >= |old(data)|
      ensures Inserted(aabb.next, relEps, old(Now()), pnt, id, Now())
    {
      hide OctTree.Valid, Separated, Conflict, Outcome, Inserted, Distinct, AsSet, Box.Contains;
      ghost var s := Now();
      var ok, ret := tree.AddPoint(pnt);
      OutcomeInserted(aabb.next, relEps, s, pnt, ok, ret, tree.Content);
      DataGrew(data, pnt);
      if ok {
        // the id is the position within the vector
        pnt.id := |data|;
        data := data + [pnt];
        return |data| - 1;
      }
      // the point is outside of the tree
      if ret == null {
        Rebuild(pnt);
        // the id is the position within the vector
        pnt.id := |data|;
        data := data + [pnt];
        return |data| - 1;
      }
      return ret.id;
    }

    /** Extends the bounding box and replaces the tree, when a point is outside of it. */
    method Rebuild(pnt: Point)
      requires Valid() && pnt !in data && !tree.box.Contains(pnt.pos)
      requires forall q :: q in tree.Content ==> !Conflict(tree.eps, q.pos, pnt.pos)
      modifies this`tree, aabb
      ensures tree.Valid() && fresh(tree.Repr) && tree.eps == EffectiveEps(relEps) && tree.maxPoints == MAX_POINTS
      ensures Separated(tree.eps, tree.Content) && tree.Content <= AsSet(data + [pnt])
      ensures Inserted(aabb.next, relEps, old(Now()), pnt, |data|, Now().(data := data + [pnt]))
    {
      hide OctTree.Valid, Separated, Conflict, Outcome, Distinct, AsSet, Accepted, Box.Contains, CubeAround;
      var _ := aabb.Update(pnt.pos);
      // an empty tree for the extended box
      tree := OctTree.CreateOctTree(aabb.min, aabb.max, relEps, MAX_POINTS);
      AddAll(data, tree);
      // the outcome for the new point is not looked at
      ghost var s := tree.Content;
      var ok, ret := tree.AddPoint(pnt);
      AcceptedOneMore(tree.eps, tree.box, data, pnt, s, ok, ret, tree.Content);
      AcceptedWithin(tree.eps, tree.box, data + [pnt]);
    }
  }

  // ---- the effect of an insertion ----

  /** The points of a vector, those its tree stores, the cube of the tree, and the corners of the bounding box. */
  datatype State = State(data: seq<Point>, stored: set<Point>, cube: Box, min: Vec, max: Vec)

  ghost predicate IsComplete(relEps: real, s: State) {
    s.stored == AsSet(s.data) && Ordered(EffectiveEps(relEps), s.data)
  }

  ghost predicate IsSnug(relEps: real, s: State) {
    (forall q :: q in s.data ==> InRange(s.min, s.max, q.pos)) && s.cube == CubeAround(s.min, s.max, relEps)
  }

  /** The points a tree for a box accepts when they are added one after the other. */
  ghost function Accepted(eps: real, box: Box, points: seq<Point>): seq<Point> {
    if points == [] then [] else
      var kept := Accepted(eps, box, points[..|points| - 1]);
      var p := points[|points| - 1];
      if Refused(eps, kept, p) || !box.Contains(p.pos) then kept else kept + [p]
  }

  /** A stored point conflicts with p, so that p is a duplicate. */
  ghost predicate Duplicates(relEps: real, s: State, p: Point) {
    exists q :: q in s.stored && Conflict(EffectiveEps(relEps), q.pos, p.pos)
  }

  /** The cube of a tree that is rebuilt for p. */
  ghost function RebuiltCube(next: real -> real, relEps: real, s: State, p: Point): Box {
    CubeAround(ExtendedMin(s.min, p.pos), ExtendedMax(next, s.max, p.pos), relEps)
  }

  /** Inserting p leaves no point outside the tree: p is a duplicate, or the tree need not be rebuilt, or the
      rebuilt cube contains all points. */
  ghost predicate NothingLost(next: real -> real, relEps: real, s: State, p: Point) {
    Duplicates(relEps, s, p) || s.cube.Contains(p.pos) ||
    forall q :: q in s.data ==> RebuiltCube(next, relEps, s, p).Contains(q.pos)
  }

  /** The tree takes p: it need not be rebuilt, or what the rebuilt tree accepts before p does not conflict with p. */
  ghost predicate TreeTakes(next: real -> real, relEps: real, s: State, p: Point) {
    s.cube.Contains(p.pos) ||
    !Refused(EffectiveEps(relEps), Accepted(EffectiveEps(relEps), RebuiltCube(next, relEps, s, p), s.data), p)
  }

  /** The complete effect of inserting p. */
  ghost predicate Inserted(next: real -> real, relEps: real, s: State, p: Point, id: nat, s': State) {
    id < |s'.data| &&
    if Duplicates(relEps, s, p)
    // a duplicate of a stored point
    then s' == s && s.data[id] in s.stored && Conflict(EffectiveEps(relEps), s.data[id].pos, p.pos)
    else
      s'.data == s.data + [p] && id == |s.data| &&
      if s.cube.Contains(p.pos)
      // a new point inside the tree
      then s' == s.(data := s'.data, stored := s.stored + {p})
      // a new point outside: the box is extended to it and the tree is built anew
      else
        s'.min == ExtendedMin(s.min, p.pos) && s'.max == ExtendedMax(next, s.max, p.pos) &&
        s'.cube == RebuiltCube(next, relEps, s, p) &&
        s'.stored == AsSet(Accepted(EffectiveEps(relEps), s'.cube, s'.data))
  }

  /** Adds all points to the tree, removes those that are refused, and corrects the ids. */
  method MakeUnique(points: seq<Point>, tree: OctTree) returns (kept: seq<Point>, idMap: seq<nat>)
    requires Distinct(points) && (forall k :: 0 <= k < |points| ==> points[k].id == k)
    requires tree.Valid() && tree.Content == {} && forall p :: p in points ==> tree.box.Contains(p.pos)
    modifies tree.Repr, points
    ensures tree.Valid() && fresh(tree.Repr - old(tree.Repr)) && Separated(tree.eps, tree.Content)
    ensures tree.Content == AsSet(kept) && kept == Unique(tree.eps, points) && Maps(tree.eps, points, kept, idMap)
    ensures Distinct(kept) && Ordered(tree.eps, kept) && (forall k :: 0 <= k < |kept| ==> kept[k].id == k)
    ensures forall p :: p in kept ==> p in points
  {
    hide Unique, Maps, Deduplicated, Removed, Compacted, Separated, OctTree.Valid, Box.Contains, Ordered, Conflict,
      Distinct, AsSet;
    var ids, rmPos, vec := Deduplicate(points, tree);
    DeduplicatedFacts(tree.eps, points, ids, vec);
    idMap := CorrectIdMap(tree.eps, points, ids, rmPos, vec);
    kept := Compacted(vec);
    UniqueIsOrdered(tree.eps, points);
    UniqueIsDistinct(tree.eps, points);
    // set the ids to the positions
    assert forall k :: 0 <= k < |kept| ==> kept[k] in points;
    SetIds(kept);
  }

  lemma AllInside(points: seq<Point>, next: real -> real, min: Vec, max: Vec, relEps: real)
    requires |points| > 0 && relEps >= 0.0 && forall x :: next(x) > x
    requires min == Lower(points) && max == Vec(next(Upper(points).x), next(Upper(points).y), next(Upper(points).z))
    ensures forall p :: p in points ==> InRange(min, max, p.pos) && CubeAround(min, max, relEps).Contains(p.pos)
  {
    BoxHoldsPoints(points, next, min, max);
    forall p | p in points
      ensures CubeAround(min, max, relEps).Contains(p.pos)
    {
      CubeAroundBox(min, max, relEps, p.pos);
    }
  }

  /** Sets the ids to the positions. */
  method SetIds(points: seq<Point>)
    requires Distinct(points)
    modifies points
    ensures forall k :: 0 <= k < |points| ==> points[k].id == k
  {
    for k := 0 to |points|
      invariant forall j :: 0 <= j < k ==> points[j].id == j
    {
      points[k].id := k;
    }
  }

  lemma OutcomeInserted(next: real -> real, relEps: real, s: State, p: Point, ok: bool, ret: Point?,
        stored': set<Point>)
    requires Outcome(EffectiveEps(relEps), s.cube, s.stored, p, ok, ret, stored') && s.stored <= AsSet(s.data)
    ensures ok ==>
      stored' == s.stored + {p} &&
      Inserted(next, relEps, s, p, |s.data|, s.(data := s.data + [p], stored := stored'))
    ensures !ok ==> stored' == s.stored
    ensures !ok && ret == null ==>
      !s.cube.Contains(p.pos) && forall q :: q in s.stored ==> !Conflict(EffectiveEps(relEps), q.pos, p.pos)
    ensures !ok && ret != null ==>
      ret in s.data && forall id :: 0 <= id < |s.data| && s.data[id] == ret ==> Inserted(next, relEps, s, p, id, s)
  {
    hide Conflict, Box.Contains, CubeAround, Accepted;
  }

  lemma DataGrew(d: seq<Point>, p: Point)
    requires Distinct(d) && p !in d
    ensures Distinct(d + [p]) && AsSet(d + [p]) == AsSet(d) + {p}
  {
  }

  lemma {:induction false} AcceptedWithin(eps: real, box: Box, points: seq<Point>)
    ensures AsSet(Accepted(eps, box, points)) <= AsSet(points)
  {
    if points != [] {
      AcceptedWithin(eps, box, points[..|points| - 1]);
      assert AsSet(points[..|points| - 1]) <= AsSet(points);
    }
  }

  /** Of points without conflicts a tree accepts those inside its box. */
  lemma {:induction false} AcceptedOfOrdered(eps: real, box: Box, points: seq<Point>)
    requires Ordered(eps, points)
    ensures AsSet(Accepted(eps, box, points)) == InBox(AsSet(points), box)
  {
    if points != [] {
      var front, p := points[..|points| - 1], points[|points| - 1];
      AcceptedOfOrdered(eps, box, front);
      AcceptedWithin(eps, box, front);
      forall q | q in Accepted(eps, box, front)
        ensures !Conflict(eps, q.pos, p.pos)
      {
        assert q in AsSet(Accepted(eps, box, front)) && q in AsSet(front);
      }
      SetOneMore(front, p);
      SetOneMore(Accepted(eps, box, front), p);
      assert front + [p] == points;
    }
  }

  /** An insertion into a complete vector stores the new point, and leaves it complete iff nothing is lost. */
  lemma CompleteAfter(next: real -> real, relEps: real, s: State, p: Point, id: nat, s': State)
    requires Inserted(next, relEps, s, p, id, s') && IsComplete(relEps, s) && relEps >= 0.0 && forall x :: next(x) > x
    ensures Ordered(EffectiveEps(relEps), s'.data)
    ensures s'.stored == AsSet(s'.data) <==> NothingLost(next, relEps, s, p)
    ensures s'.data != s.data ==> p in s'.stored
  {
    var eps := EffectiveEps(relEps);
    if !Duplicates(relEps, s, p) {
      assert forall q :: q in s.data ==> q in s.stored;
      assert Ordered(eps, s'.data);
      SetOneMore(s.data, p);
      if !s.cube.Contains(p.pos) {
        BoxGrew(next, s.min, s.max, p.pos, s'.min, s'.max);
        CubeAroundBox(s'.min, s'.max, relEps, p.pos);
        AcceptedOfOrdered(eps, s'.cube, s'.data);
        hide Box.Contains, CubeAround, Conflict;
        assert s'.stored == InBox(AsSet(s.data) + {p}, s'.cube);
        assert p in s'.stored;
        if forall q :: q in s.data ==> s'.cube.Contains(q.pos) {
          assert s'.stored == AsSet(s'.data);
        } else {
          var q :| q in s.data && !s'.cube.Contains(q.pos);
          assert q in AsSet(s'.data) && q !in s'.stored;
        }
      }
    }
  }

  /** A point the vector takes is also in the tree iff the tree takes it. */
  lemma TreeTakesIff(next: real -> real, relEps: real, s: State, p: Point, id: nat, s': State)
    requires Inserted(next, relEps, s, p, id, s') && p !in s.data && relEps >= 0.0 && forall x :: next(x) > x
    ensures s'.data != s.data ==> (p in s'.stored <==> TreeTakes(next, relEps, s, p))
  {
    if !Duplicates(relEps, s, p) && !s.cube.Contains(p.pos) {
      var eps := EffectiveEps(relEps);
      BoxGrew(next, s.min, s.max, p.pos, s'.min, s'.max);
      CubeAroundBox(s'.min, s'.max, relEps, p.pos);
      AcceptedWithin(eps, s'.cube, s.data);
      hide Box.Contains, CubeAround, Conflict, Refused;
      assert s'.data[..|s'.data| - 1] == s.data;
      assert p !in AsSet(s.data);
    }
  }

  /** Without conflicts among the points, the tree takes p iff it need not be rebuilt, or no point inside the
      rebuilt cube conflicts with p. */
  lemma TreeTakesOrdered(next: real -> real, relEps: real, s: State, p: Point)
    requires Ordered(EffectiveEps(relEps), s.data)
    ensures TreeTakes(next, relEps, s, p) <==> s.cube.Contains(p.pos) || forall q ::
      q in s.data && RebuiltCube(next, relEps, s, p).Contains(q.pos) ==> !Conflict(EffectiveEps(relEps), q.pos, p.pos)
  {
    hide Box.Contains, CubeAround, Conflict, Ordered, Accepted;
    var eps, cube := EffectiveEps(relEps), RebuiltCube(next, relEps, s, p);
    AcceptedOfOrdered(eps, cube, s.data);
    var kept := Accepted(eps, cube, s.data);
    assert forall q :: q in kept <==> q in AsSet(kept);
    assert Refused(eps, kept, p) <==> exists q :: q in kept && Conflict(eps, q.pos, p.pos);
  }

  /** A bounding box that contains all points still does after a point inside it, or outside the cube, came in. */
  lemma SnugAfter(next: real -> real, relEps: real, s: State, p: Point, id: nat, s': State)
    requires Inserted(next, relEps, s, p, id, s') && IsSnug(relEps, s) && relEps >= 0.0 && forall x :: next(x) > x
    requires InRange(s.min, s.max, p.pos) || !s.cube.Contains(p.pos)
    ensures IsSnug(relEps, s') && NothingLost(next, relEps, s, p)
  {
    if s'.min != s.min || s'.max != s.max {
      BoxGrew(next, s.min, s.max, p.pos, s'.min, s'.max);
    }
    forall q | q in s.data
      ensures InRange(s'.min, s'.max, q.pos) && s'.cube.Contains(q.pos)
    {
      CubeAroundBox(s'.min, s'.max, relEps, q.pos);
    }
  }

  lemma {:induction false} AcceptedInside(eps: real, box: Box, points: seq<Point>)
    ensures forall q :: q in Accepted(eps, box, points) ==> box.Contains(q.pos)
  {
    if points != [] {
      AcceptedInside(eps, box, points[..|points| - 1]);
    }
  }

  lemma InsertedWithin(next: real -> real, relEps: real, s: State, p: Point, id: nat, s': State)
    requires Inserted(next, relEps, s, p, id, s')
    ensures id < |s'.data| && (s'.data[id] == p || Conflict(EffectiveEps(relEps), s'.data[id].pos, p.pos))
  {
  }

  /** Adds points to an empty tree, ignoring which are refused. */
  method AddAll(points: seq<Point>, tree: OctTree)
    requires tree.Valid() && tree.Content == {}
    modifies tree.Repr
    ensures tree.Valid() && fresh(tree.Repr - old(tree.Repr)) && Separated(tree.eps, tree.Content)
    ensures tree.Content == AsSet(Accepted(tree.eps, tree.box, points))
  {
    hide OctTree.Valid, Separated, Conflict, Accepted, Outcome, Box.Contains, AsSet;
    ghost var eps := tree.eps;
    NothingAccepted(eps, tree.box);
    for k := 0 to |points|
      invariant tree.Valid() && fresh(tree.Repr - old(tree.Repr)) && Separated(eps, tree.Content)
      invariant tree.Content == AsSet(Accepted(eps, tree.box, points[..k]))
    {
      ghost var before := tree.Content;
      var ok, ret := tree.AddPoint(points[k]);
      assert points[..k + 1] == points[..k] + [points[k]];
      AcceptedOneMore(eps, tree.box, points[..k], points[k], before, ok, ret, tree.Content);
    }
    assert points[..|points|] == points;
  }

  lemma NothingAccepted(eps: real, box: Box)
    ensures AsSet(Accepted(eps, box, [])) == {} && Separated(eps, {})
  {
  }

  lemma AcceptedOneMore(eps: real, box: Box, points: seq<Point>, p: Point, s: set<Point>, ok: bool, ret: Point?,
        s': set<Point>)
    requires s == AsSet(Accepted(eps, box, points)) && Outcome(eps, box, s, p, ok, ret, s')
    ensures s' == AsSet(Accepted(eps, box, points + [p]))
  {
    assert (points + [p])[..|points|] == points;
    hide Conflict, Box.Contains;
  }

  // ---- a rebuilt tree can lose points ----

  /** A tree around the corners (0,0,0) and (10,1,1) accepts a point far below them.  The tree that is built
      when a point above it comes in no longer contains that point. */
  lemma CubeMoves(next: real -> real, relEps: real)
    requires 0.0 <= relEps && forall x :: x < next(x) <= x + 0.001
    ensures var before := CubeAround(Vec(0.0, 0.0, 0.0), Vec(next(10.0), next(1.0), next(1.0)), relEps);
      var after := CubeAround(Vec(0.0, 0.0, 0.0), Vec(next(10.0), next(6.0), next(1.0)), relEps);
      before.Contains(Vec(5.0, -4.0, 0.5)) && !before.Contains(Vec(5.0, 6.0, 0.5)) &&
        !after.Contains(Vec(5.0, -4.0, 0.5))
  {
    var x, y, y', z := next(10.0), next(1.0), next(6.0), next(1.0);
    assert 10.0 < x <= 10.001 && 1.0 < y <= 1.001 && 6.0 < y' <= 6.001;
  }

  /** The two points the run starts with. */
  ghost predicate Start(next: real -> real, s: State) {
    |s.data| == 2 && s.data[0].pos == Vec(0.0, 0.0, 0.0) && s.data[1].pos == Vec(10.0, 1.0, 1.0) &&
    s.min == Vec(0.0, 0.0, 0.0) && s.max == Vec(next(10.0), next(1.0), next(1.0)) &&
    s.cube == CubeAround(s.min, s.max, 0.001) && IsComplete(0.001, s)
  }

  /** After a low point, which is accepted, and a point above the cube, which makes the tree be rebuilt: the
      low point is not in the tree any more. */
  ghost predicate AfterLoss(next: real -> real, s: State, low: Point) {
    |s.data| == 4 && s.data[0].pos == Vec(0.0, 0.0, 0.0) && s.data[1].pos == Vec(10.0, 1.0, 1.0) &&
    s.data[2] == low && low.pos == Vec(5.0, -4.0, 0.5) && s.data[3].pos == Vec(5.0, 6.0, 0.5) &&
    s.min == Vec(0.0, 0.0, 0.0) && s.max == Vec(next(10.0), next(6.0), next(1.0)) &&
    s.cube == CubeAround(s.min, s.max, 0.001) && s.stored <= AsSet(s.data) && low !in s.stored &&
    Ordered(EffectiveEps(0.001), s.data)
  }

  /** A point is no duplicate of points that are far from it in x or y. */
  lemma FarPoint(s: State, p: Point)
    requires forall q :: q in s.stored ==>
      !(p.pos.x - 0.001 <= q.pos.x < p.pos.x + 0.001 && p.pos.y - 0.001 <= q.pos.y < p.pos.y + 0.001)
    ensures !Duplicates(0.001, s, p)
  {
  }

  lemma TwoInsertions(next: real -> real, s0: State, low: Point, id: nat, s1: State, above: Point, id': nat, s2: State)
    requires (forall x :: x < next(x) <= x + 0.001) && Start(next, s0)
    requires low.pos == Vec(5.0, -4.0, 0.5) && above.pos == Vec(5.0, 6.0, 0.5)
    requires Inserted(next, 0.001, s0, low, id, s1) && Inserted(next, 0.001, s1, above, id', s2)
    ensures AfterLoss(next, s2, low)
  {
    CubeMoves(next, 0.001);
    assert next(10.0) > 10.0 && 1.0 < next(1.0) <= 1.001;
    FarPoint(s0, low);
    CompleteAfter(next, 0.001, s0, low, id, s1);
    FarPoint(s1, above);
    CompleteAfter(next, 0.001, s1, above, id', s2);
    hide CubeAround, Box.Contains, Conflict, Accepted;
    AcceptedInside(EffectiveEps(0.001), s2.cube, s2.data);
    AcceptedWithin(EffectiveEps(0.001), s2.cube, s2.data);
  }

  /** A run after which a point of the vector is not in the tree any more. */
  method LosePoint(next: real -> real) returns (v: PointVec, lost: Point)
    requires forall x :: x < next(x) <= x + 0.001
    ensures fresh(v) && fresh(v.aabb) && v.Valid() && fresh(v.tree.Repr) && v.aabb.next == next && v.relEps == 0.001
    ensures AfterLoss(next, v.Now(), lost) && lost in v.data && lost !in v.tree.Content
  {
    hide OctTree.Valid, PointVec.Valid, Separated, CubeAround, Accepted, Ordered, Inserted, Maps, Unique, Conflict,
         NothingLost, TreeTakes, AfterLoss, Start;
    v := StartRun(next);
    ghost var s0 := v.Now();
    lost := new Point(Vec(5.0, -4.0, 0.5), UNSET);
    var above := new Point(Vec(5.0, 6.0, 0.5), UNSET);
    var id := v.PushBack(lost);
    ghost var s1 := v.Now();
    FirstInsertion(next, lost, id, s0, s1);
    var id' := v.PushBack(above);
    TwoInsertions(next, s0, lost, id, s1, above, id', v.Now());
    LossMeans(next, v.Now(), lost);
  }

  method StartRun(next: real -> real) returns (v: PointVec)
    requires forall x :: x < next(x) <= x + 0.001
    ensures fresh(v) && fresh(v.aabb) && v.Valid() && fresh(v.tree.Repr) && v.aabb.next == next && v.relEps == 0.001
    ensures Start(next, v.Now())
  {
    hide OctTree.Valid, Separated, CubeAround, Ordered, Maps, Unique, Conflict;
    var p := new Point(Vec(0.0, 0.0, 0.0), 0);
    var q := new Point(Vec(10.0, 1.0, 1.0), 1);
    TwoKept(0.001, p, q);
    v := new PointVec([p, q], 0.001, next);
    EpsOf(v);
  }

  lemma LossMeans(next: real -> real, s: State, low: Point)
    requires AfterLoss(next, s, low)
    ensures low in s.data && low !in s.stored && forall q :: q in s.data ==> q == low || q.pos != low.pos
  {
  }

  lemma EpsOf(v: PointVec)
    requires v.Valid()
    ensures v.tree.eps == EffectiveEps(v.relEps)
  {
  }

  lemma FirstInsertion(next: real -> real, low: Point, id: nat, s: State, s': State)
    requires Inserted(next, 0.001, s, low, id, s')
    ensures forall r :: r in s'.data ==> r in s.data || r == low
  {
  }

  lemma TwoKept(eps: real, p: Point, q: Point)
    requires p.pos == Vec(0.0, 0.0, 0.0) && q.pos == Vec(10.0, 1.0, 1.0) && eps == 0.001
    ensures Unique(eps, [p, q]) == [p, q] && Lower([p, q]) == p.pos && Upper([p, q]) == q.pos
  {
    assert [p, q][..1] == [p] && [p][..0] == [];
    assert Unique(eps, [p]) == [p];
  }

  /** A twin of the lost point is no duplicate for the tree and lies outside it.  The tree is rebuilt, takes the
      lost point back, and therefore refuses the twin. */
  lemma TwinRefused(next: real -> real, s: State, low: Point, twin: Point, id: nat, s': State)
    requires (forall x :: x < next(x) <= x + 0.001) && AfterLoss(next, s, low) && twin !in s.data && twin.pos == low.pos
    requires Inserted(next, 0.001, s, twin, id, s')
    ensures low in s'.data && twin in s'.data && low in s'.stored && twin !in s'.stored
  {
    var eps := EffectiveEps(0.001);
    CubeMoves(next, 0.001);
    assert next(10.0) > 10.0 && 6.0 < next(6.0) && 1.0 < next(1.0);
    FarPoint(s, twin);
    TreeTakesIff(next, 0.001, s, twin, id, s');
    CubeAroundBox(s'.min, s'.max, 0.001, low.pos);
    AcceptedOfOrdered(eps, s'.cube, s.data);
    SelfConflict(eps, low.pos);
    hide CubeAround, Box.Contains, Conflict, Accepted;
    var kept := Accepted(eps, s'.cube, s.data);
    assert low in AsSet(kept) && Refused(eps, kept, twin);
    AcceptedKeeps(eps, s'.cube, s.data, twin);
    assert s'.data == s.data + [twin];
  }

  lemma AcceptedKeeps(eps: real, box: Box, points: seq<Point>, p: Point)
    ensures AsSet(Accepted(eps, box, points)) <= AsSet(Accepted(eps, box, points + [p]))
  {
    assert (points + [p])[..|points|] == points;
  }

  /** A run after which the vector holds two different points at one place, one of them not in the tree. */
  method KeepTwins(next: real -> real) returns (v: PointVec, lost: Point, twin: Point)
    requires forall x :: x < next(x) <= x + 0.001
    ensures v.Valid() && lost in v.data && twin in v.data && lost != twin && lost.pos == twin.pos
    ensures lost in v.tree.Content && twin !in v.tree.Content
  {
    hide OctTree.Valid, PointVec.Valid, AfterLoss, Inserted, Conflict, NothingLost, TreeTakes, Ordered;
    v, lost := LosePoint(next);
    ghost var s := v.Now();
    LossMeans(next, s, lost);
    twin := new Point(lost.pos, UNSET);
    var id := v.PushBack(twin);
    TwinRefused(next, s, lost, twin, id, v.Now());
  }
}
