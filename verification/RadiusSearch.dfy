/** The elements of a mesh that are reached from a start element without leaving a radius. */
module RadiusSearch {
  import opened Common
  import opened Space

  datatype Neighbor = None | Some(id: nat)

  /** An element; its id is its position in the mesh. */
  datatype Element = Element(nodes: seq<Vec>, neighbors: seq<Neighbor>)

  ghost predicate ValidMesh(mesh: seq<Element>) {
    forall e, n :: 0 <= e < |mesh| && 0 <= n < |mesh[e].neighbors| && mesh[e].neighbors[n].Some? ==>
      mesh[e].neighbors[n].id < |mesh|
  }

  // ---- specification ----

  /** Some node of the element is inside the radius of some start node. */
  ghost predicate Near(startNodes: seq<Vec>, radiusSquared: real, e: Element) {
    exists i :: 0 <= i < |e.nodes| && NodeNear(startNodes, radiusSquared, e.nodes[i])
  }

  ghost predicate NodeNear(startNodes: seq<Vec>, radiusSquared: real, v: Vec) {
    exists j :: 0 <= j < |startNodes| && SqrDist(v, startNodes[j]) <= radiusSquared
  }

  predicate Within(v: Vec, w: Vec, radiusSquared: real) {
    (v.x - w.x) * (v.x - w.x) + (v.y - w.y) * (v.y - w.y) + (v.z - w.z) * (v.z - w.z) <= radiusSquared
  }

  lemma NodeNearIff(startNodes: seq<Vec>, radiusSquared: real, v: Vec)
    ensures NodeNear(startNodes, radiusSquared, v) <==> exists w :: w in startNodes && Within(v, w, radiusSquared)
  {
    forall w
      ensures Within(v, w, radiusSquared) <==> SqrDist(v, w) <= radiusSquared
    {
    }
    hide Within, SqrDist;
    if j :| 0 <= j < |startNodes| && SqrDist(v, startNodes[j]) <= radiusSquared {
      assert startNodes[j] in startNodes;
    }
  }

  ghost predicate Linked(mesh: seq<Element>, a: nat, b: nat) {
    a < |mesh| && Some(b) in mesh[a].neighbors
  }

  /** A walk from the start along neighbours, all of which, but for the start, are near. */
  ghost predicate IsWalk(mesh: seq<Element>, start: nat, radiusSquared: real, walk: seq<nat>) {
    start < |mesh| && walk != [] && walk[0] == start && (forall i :: 0 <= i < |walk| ==> walk[i] < |mesh|) &&
    forall i :: 0 < i < |walk| ==>
      Linked(mesh, walk[i - 1], walk[i]) && Near(mesh[start].nodes, radiusSquared, mesh[walk[i]])
  }

  ghost predicate Reached(mesh: seq<Element>, start: nat, radiusSquared: real, e: nat) {
    exists walk :: IsWalk(mesh, start, radiusSquared, walk) && walk[|walk| - 1] == e
  }

  lemma ReachedStart(mesh: seq<Element>, start: nat, radiusSquared: real)
    requires start < |mesh|
    ensures Reached(mesh, start, radiusSquared, start)
  {
    assert IsWalk(mesh, start, radiusSquared, [start]);
  }

  lemma ReachedStep(mesh: seq<Element>, start: nat, radiusSquared: real, a: nat, b: nat)
    requires Reached(mesh, start, radiusSquared, a) && Linked(mesh, a, b) && b < |mesh| && start < |mesh|
    requires Near(mesh[start].nodes, radiusSquared, mesh[b])
    ensures Reached(mesh, start, radiusSquared, b)
  {
    var walk :| IsWalk(mesh, start, radiusSquared, walk) && walk[|walk| - 1] == a;
    assert IsWalk(mesh, start, radiusSquared, walk + [b]);
  }

  /** A set that contains the start and every near neighbour of its members contains all that is reached. */
  lemma {:induction false} ClosedContainsWalk(mesh: seq<Element>, start: nat, radiusSquared: real, s: set<nat>,
        walk: seq<nat>)
    requires IsWalk(mesh, start, radiusSquared, walk) && start in s
    requires forall a: nat, b: nat ::
      a in s && Linked(mesh, a, b) && b < |mesh| && Near(mesh[start].nodes, radiusSquared, mesh[b]) ==> b in s
    ensures walk[|walk| - 1] in s
  {
    if |walk| > 1 {
      var front := walk[..|walk| - 1];
      assert IsWalk(mesh, start, radiusSquared, front);
      ClosedContainsWalk(mesh, start, radiusSquared, s, front);
      assert Linked(mesh, walk[|walk| - 2], walk[|walk| - 1]);
    }
  }

  // ---- the search ----

  method NodeInsideRadius(startNodes: seq<Vec>, radiusSquared: real, v: Vec) returns (inside: bool)
    ensures inside == NodeNear(startNodes, radiusSquared, v)
    // in coordinates
    ensures inside <==> exists w :: w in startNodes && Within(v, w, radiusSquared)
  {
    NodeNearIff(startNodes, radiusSquared, v);
    hide Within;
    for j := 0 to |startNodes|
      invariant forall i :: 0 <= i < j ==> SqrDist(v, startNodes[i]) > radiusSquared
    {
      if SqrDist(v, startNodes[j]) <= radiusSquared {
        return true;
      }
    }
    return false;
  }

  method ElementInRadius(startNodes: seq<Vec>, radiusSquared: real, e: Element) returns (inside: bool)
    ensures inside == Near(startNodes, radiusSquared, e)
    // in coordinates
    ensures inside <==> exists v, w :: v in e.nodes && w in startNodes && Within(v, w, radiusSquared)
  {
    hide Within, NodeNear;
    for i := 0 to |e.nodes|
      invariant forall k :: 0 <= k < i ==> !NodeNear(startNodes, radiusSquared, e.nodes[k])
      invariant forall v, w :: v in e.nodes[..i] && w in startNodes ==> !Within(v, w, radiusSquared)
    {
      var near := NodeInsideRadius(startNodes, radiusSquared, e.nodes[i]);
      NodeNearIff(startNodes, radiusSquared, e.nodes[i]);
      if near {
        assert e.nodes[i] in e.nodes;
        return true;
      }
    }
    return false;
  }

  /** The collections of a running search. */
  datatype Search = Search(found: set<nat>, toVisit: seq<nat>, visited: set<nat>)

  /** Marks an element and puts its neighbours on the list, unless they were visited before.
      Exactly the neighbours that were not visited are pushed, each once. */
  method MarkVisitedAndAddNeighbors(mesh: seq<Element>, e: nat, s: Search) returns (r: Search, ghost more: seq<nat>)
    requires ValidMesh(mesh) && e < |mesh|
    ensures r.found == s.found + {e} && r.toVisit == s.toVisit + more && Distinct(more)
    ensures forall v :: v in r.visited <==> v in s.visited || v == e || v in more
    ensures |r.visited| == |s.visited + {e}| + |more|
    ensures forall b: nat :: b in more <==> Linked(mesh, e, b) && b !in s.visited && b != e
  {
    r, more := Search(s.found + {e}, s.toVisit, s.visited + {e}), [];
    var neighbors := mesh[e].neighbors;
    for n := 0 to |neighbors|
      invariant r.found == s.found + {e} && r.toVisit == s.toVisit + more && Distinct(more)
      invariant forall v :: v in r.visited <==> v in s.visited || v == e || v in more
      invariant |r.visited| == |s.visited + {e}| + |more|
      invariant forall b: nat :: b in more <==> Some(b) in neighbors[..n] && b !in s.visited && b != e
    {
      assert neighbors[..n + 1] == neighbors[..n] + [neighbors[n]];
      if neighbors[n].Some? {
        var id := neighbors[n].id;
        if id !in r.visited {
          r := Search(r.found, r.toVisit + [id], r.visited + {id});
          more := more + [id];
        }
      }
    }
    assert neighbors[..|neighbors|] == neighbors;
  }

  /** What holds between two rounds of the search. */
  ghost predicate Searching(mesh: seq<Element>, start: nat, radiusSquared: real, s: Search) {
    InOrder(mesh, start, s) && Sound(mesh, start, radiusSquared, s) && Covered(mesh, start, radiusSquared, s)
  }

  /** The list holds visited elements that are not found, each once. */
  ghost predicate InOrder(mesh: seq<Element>, start: nat, s: Search) {
    start < |mesh| && start in s.found && s.found <= s.visited && (forall v :: v in s.visited ==> v < |mesh|) &&
    Distinct(s.toVisit) && forall v :: v in s.toVisit ==> v in s.visited && v !in s.found
  }

  /** Only reached elements are found, and only neighbours of found ones are visited. */
  ghost predicate Sound(mesh: seq<Element>, start: nat, radiusSquared: real, s: Search) {
    (forall v :: v in s.found ==> Reached(mesh, start, radiusSquared, v)) &&
    forall v :: v in s.visited && v != start ==> Entered(mesh, s.found, v)
  }

  ghost predicate Entered(mesh: seq<Element>, found: set<nat>, v: nat) {
    exists a :: a in found && Linked(mesh, a, v)
  }

  /** All neighbours of found elements are visited, and what is done with is found or not near. */
  ghost predicate Covered(mesh: seq<Element>, start: nat, radiusSquared: real, s: Search)
    requires InOrder(mesh, start, s)
  {
    (forall a, b :: a in s.found && Linked(mesh, a, b) ==> b in s.visited) &&
    forall v :: v in s.visited && v !in s.found && v !in s.toVisit ==> !Near(mesh[start].nodes, radiusSquared, mesh[v])
  }

  /** The ids of the elements reached from the start, ascending; for radius zero only the start itself.
      pushed lists the elements that were put on the list: none of them twice. */
  method FindElementsWithinRadius(mesh: seq<Element>, start: nat, radiusSquared: real)
    returns (ids: seq<nat>, ghost pushed: seq<nat>)
    requires ValidMesh(mesh) && start < |mesh|
    ensures forall i, j :: 0 <= i < j < |ids| ==> ids[i] < ids[j]
    ensures radiusSquared == 0.0 ==> ids == [start]
    ensures radiusSquared != 0.0 ==> forall e :: e in ids <==> Reached(mesh, start, radiusSquared, e)
    // put on the list are exactly the neighbours of found elements
    ensures Distinct(pushed) && (radiusSquared == 0.0 ==> pushed == [])
    ensures radiusSquared != 0.0 ==> forall e :: e in pushed <==>
      e != start && exists a :: a in ids && Linked(mesh, a, e)
  {
    pushed := [];
    if radiusSquared == 0.0 {
      return [start], [];
    }
    var startNodes := mesh[start].nodes;
    var s;
    s, pushed := MarkVisitedAndAddNeighbors(mesh, start, Search({}, [], {}));
    SearchStarts(mesh, start, radiusSquared, s);
    hide Near, Searching, Reached, Distinct, Linked;
    while s.toVisit != []
      invariant Searching(mesh, start, radiusSquared, s)
      invariant Distinct(pushed) && start !in pushed && |s.visited| == |pushed| + 1
      invariant forall v :: v in s.visited <==> v == start || v in pushed
      decreases |mesh| - |s.visited| + |s.toVisit|
    {
      VisitedBound(mesh, start, radiusSquared, s);
      ghost var more;
      s, more := VisitNext(mesh, start, startNodes, radiusSquared, s);
      DistinctConcat(pushed, more);
      pushed := pushed + more;
      VisitedBound(mesh, start, radiusSquared, s);
    }
    SearchEnds(mesh, start, radiusSquared, s);
    ids := Ascending(s.found, |mesh|);
    PushedAreNeighbours(mesh, start, radiusSquared, s, pushed, ids);
  }

  /** One round of the search: takes the last element off the list. */
  method VisitNext(mesh: seq<Element>, start: nat, startNodes: seq<Vec>, radiusSquared: real, s: Search)
    returns (r: Search, ghost more: seq<nat>)
    requires ValidMesh(mesh) && start < |mesh| && startNodes == mesh[start].nodes
    requires Searching(mesh, start, radiusSquared, s) && s.toVisit != []
    ensures Searching(mesh, start, radiusSquared, r)
    ensures Distinct(more) && (forall v :: v in more ==> v !in s.visited) &&
      (forall v :: v in r.visited <==> v in s.visited || v in more)
    ensures |r.visited| == |s.visited| + |more| && |r.toVisit| == |s.toVisit| - 1 + |more|
  {
    hide Near, Searching, Reached;
    VisitedBound(mesh, start, radiusSquared, s);
    var current := s.toVisit[|s.toVisit| - 1];
    assert current in s.toVisit;
    r, more := s.(toVisit := s.toVisit[..|s.toVisit| - 1]), [];
    var near := ElementInRadius(startNodes, radiusSquared, mesh[current]);
    if near {
      // the search goes on behind a near element
      r, more := MarkVisitedAndAddNeighbors(mesh, current, r);
      SearchContinues(mesh, start, radiusSquared, s, current, more, r);
      assert s.visited + {current} == s.visited;
    } else {
      SearchDrops(mesh, start, radiusSquared, s, current, r);
    }
  }

  /** The elements of a set in ascending order. */
  method Ascending(s: set<nat>, n: nat) returns (ids: seq<nat>)
    requires forall e :: e in s ==> e < n
    ensures (forall i, j :: 0 <= i < j < |ids| ==> ids[i] < ids[j]) && forall e :: e in ids <==> e in s
  {
    ids := [];
    for e := 0 to n
      invariant forall i, j :: 0 <= i < j < |ids| ==> ids[i] < ids[j]
      invariant forall i :: 0 <= i < |ids| ==> ids[i] < e
      invariant forall i: nat :: i in ids <==> i in s && i < e
    {
      if e in s {
        ids := ids + [e];
      }
    }
  }

  lemma SearchStarts(mesh: seq<Element>, start: nat, radiusSquared: real, s: Search)
    requires ValidMesh(mesh) && start < |mesh| && s.found == {start} && Distinct(s.toVisit)
    requires forall v :: v in s.visited <==> v == start || Linked(mesh, start, v)
    requires forall v :: v in s.toVisit <==> Linked(mesh, start, v) && v != start
    ensures Searching(mesh, start, radiusSquared, s)
  {
    ReachedStart(mesh, start, radiusSquared);
    LinksInMesh(mesh);
    hide Reached, Near;
  }

  lemma LinksInMesh(mesh: seq<Element>)
    requires ValidMesh(mesh)
    ensures forall a: nat, b: nat :: Linked(mesh, a, b) ==> b < |mesh|
  {
    forall a: nat, b: nat | Linked(mesh, a, b)
      ensures b < |mesh|
    {
      var k :| 0 <= k < |mesh[a].neighbors| && mesh[a].neighbors[k] == Some(b);
    }
  }

  lemma VisitedBound(mesh: seq<Element>, start: nat, radiusSquared: real, s: Search)
    requires Searching(mesh, start, radiusSquared, s)
    ensures |s.visited| <= |mesh| && (forall v :: v in s.toVisit ==> v < |mesh| && v in s.visited) &&
      start in s.visited && s.found <= s.visited
  {
    WithinRange(s.visited, |mesh|);
  }

  lemma {:induction false} WithinRange(s: set<nat>, n: nat)
    requires forall v :: v in s ==> v < n
    ensures |s| <= n
  {
    if n > 0 {
      WithinRange(s - {n - 1}, n - 1);
    }
  }

  /** A near element was popped: it is found, and its neighbours that were not visited are pushed. */
  lemma SearchContinues(mesh: seq<Element>, start: nat, radiusSquared: real, s: Search, current: nat, more: seq<nat>,
        r: Search)
    requires ValidMesh(mesh) && Searching(mesh, start, radiusSquared, s) && Popped(mesh, s, current)
    requires Near(mesh[start].nodes, radiusSquared, mesh[current]) && Continued(mesh, s, current, more, r)
    ensures Searching(mesh, start, radiusSquared, r) && current in s.visited
  {
    hide Sound, Covered;
    StillInOrder(mesh, start, s, current, more, r);
    StillSound(mesh, start, radiusSquared, s, current, more, r);
    StillCovered(mesh, start, radiusSquared, s, current, more, r);
  }

  /** The element is the last one of the list. */
  ghost predicate Popped(mesh: seq<Element>, s: Search, current: nat) {
    s.toVisit != [] && current == s.toVisit[|s.toVisit| - 1] && current < |mesh|
  }

  /** The search after a near element was taken off the list. */
  ghost predicate Continued(mesh: seq<Element>, s: Search, current: nat, more: seq<nat>, r: Search)
    requires s.toVisit != []
  {
    r.found == s.found + {current} && r.toVisit == s.toVisit[..|s.toVisit| - 1] + more && Distinct(more) &&
    (forall v :: v in r.visited <==> v in s.visited || v == current || v in more) &&
    forall b: nat :: b in more <==> Linked(mesh, current, b) && b !in s.visited && b != current
  }

  lemma StillInOrder(mesh: seq<Element>, start: nat, s: Search, current: nat, more: seq<nat>, r: Search)
    requires ValidMesh(mesh) && InOrder(mesh, start, s) && Popped(mesh, s, current) &&
      Continued(mesh, s, current, more, r)
    ensures InOrder(mesh, start, r) && current in s.visited
  {
    LinksInMesh(mesh);
    var front := s.toVisit[..|s.toVisit| - 1];
    assert s.toVisit == front + [current];
    assert Distinct(front) && current !in front;
    hide Linked, Distinct;
    assert forall v :: v in front ==> v in s.toVisit;
    DistinctConcat(front, more);
  }

  lemma StillSound(mesh: seq<Element>, start: nat, radiusSquared: real, s: Search, current: nat, more: seq<nat>,
        r: Search)
    requires InOrder(mesh, start, s) && Sound(mesh, start, radiusSquared, s) && Popped(mesh, s, current)
    requires Near(mesh[start].nodes, radiusSquared, mesh[current]) && Continued(mesh, s, current, more, r)
    ensures Sound(mesh, start, radiusSquared, r)
  {
    hide Reached, Near, Linked, Distinct;
    assert current in s.toVisit && Entered(mesh, s.found, current);
    var a :| a in s.found && Linked(mesh, a, current);
    ReachedStep(mesh, start, radiusSquared, a, current);
    forall v | v in r.visited && v != start
      ensures Entered(mesh, r.found, v)
    {
      if v in s.visited {
        var b :| b in s.found && Linked(mesh, b, v);
        assert b in r.found;
      } else {
        assert current in r.found && Linked(mesh, current, v);
      }
    }
  }

  lemma StillCovered(mesh: seq<Element>, start: nat, radiusSquared: real, s: Search, current: nat, more: seq<nat>,
        r: Search)
    requires InOrder(mesh, start, s) && Covered(mesh, start, radiusSquared, s) && Popped(mesh, s, current)
    requires Continued(mesh, s, current, more, r) && InOrder(mesh, start, r)
    ensures Covered(mesh, start, radiusSquared, r)
  {
    hide Near, Linked, Distinct;
    var front := s.toVisit[..|s.toVisit| - 1];
    assert s.toVisit == front + [current];
    forall v | v in r.visited && v !in r.found && v !in r.toVisit
      ensures !Near(mesh[start].nodes, radiusSquared, mesh[v])
    {
      assert v !in more && v !in s.toVisit;
    }
  }

  /** An element that is not near was popped. */
  lemma SearchDrops(mesh: seq<Element>, start: nat, radiusSquared: real, s: Search, current: nat, r: Search)
    requires Searching(mesh, start, radiusSquared, s) && Popped(mesh, s, current)
    requires !Near(mesh[start].nodes, radiusSquared, mesh[current]) && r == s.(toVisit := s.toVisit[..|s.toVisit| - 1])
    ensures Searching(mesh, start, radiusSquared, r)
  {
    hide Reached, Near, Linked, Entered;
    assert s.toVisit == r.toVisit + [current];
    assert forall v :: v in r.toVisit ==> v in s.toVisit && v != current;
    forall v | v in r.visited && v !in r.found && v !in r.toVisit
      ensures !Near(mesh[start].nodes, radiusSquared, mesh[v])
    {
      if v != current {
        assert v !in s.toVisit;
      }
    }
  }

  /** What was pushed are the neighbours of the found elements. */
  lemma PushedAreNeighbours(mesh: seq<Element>, start: nat, radiusSquared: real, s: Search, pushed: seq<nat>,
        ids: seq<nat>)
    requires Searching(mesh, start, radiusSquared, s) && s.toVisit == [] && start !in pushed
    requires (forall v :: v in s.visited <==> v == start || v in pushed) && forall v :: v in ids <==> v in s.found
    ensures forall e :: e in pushed <==> e != start && exists a :: a in ids && Linked(mesh, a, e)
  {
    hide Reached, Near, Linked;
    forall e | e in pushed
      ensures exists a :: a in ids && Linked(mesh, a, e)
    {
      assert Entered(mesh, s.found, e);
      var a :| a in s.found && Linked(mesh, a, e);
      assert a in ids;
    }
  }

  /** With nothing left to visit, exactly the reached elements are found. */
  lemma SearchEnds(mesh: seq<Element>, start: nat, radiusSquared: real, s: Search)
    requires Searching(mesh, start, radiusSquared, s) && s.toVisit == []
    ensures forall e :: e in s.found <==> Reached(mesh, start, radiusSquared, e)
    ensures s.found <= s.visited && forall e :: e in s.found ==> e < |mesh|
  {
    forall e | Reached(mesh, start, radiusSquared, e)
      ensures e in s.found
    {
      var walk :| IsWalk(mesh, start, radiusSquared, walk) && walk[|walk| - 1] == e;
      ClosedContainsWalk(mesh, start, radiusSquared, s.found, walk);
    }
  }
}
