/** The status of the elements of a mesh and the node counters that go with it. */
module ElementStatus {

  /** A mesh: its number of nodes, and the ids of the nodes of each element. */
  datatype Mesh = Mesh(nNodes: nat, elements: seq<seq<nat>>) {
    ghost predicate Valid() {
      forall e, i :: 0 <= e < |elements| && 0 <= i < |elements[e]| ==> elements[e][i] < nNodes
    }
  }

  /** The type of the counters: one byte, which wraps around. */
  newtype Byte = x: int | 0 <= x < 256

  function Wrap(x: int): Byte {
    (x % 256) as Byte
  }

  // ---- specification ----

  /** How often a node occurs in an element. */
  ghost function Occurrences(nodes: seq<nat>, node: nat): nat {
    multiset(nodes)[node]
  }

  /** The number of incidences of a node with active elements among the first n. */
  ghost function Incidences(elements: seq<seq<nat>>, active: seq<bool>, node: nat, n: nat): nat
    requires n <= |elements| == |active|
  {
    if n == 0 then 0
    else Incidences(elements, active, node, n - 1) + if active[n - 1] then Occurrences(elements[n - 1], node) else 0
  }

  function Signed(status: bool, n: nat): int {
    if status then n as int else -(n as int)
  }

  ghost function AllActive(n: nat): seq<bool> {
    seq(n, _ => true)
  }

  /** Changing the status of one element changes the incidences by its occurrences. */
  lemma {:induction false} IncidencesChange(elements: seq<seq<nat>>, active: seq<bool>, node: nat, n: nat, i: nat,
        status: bool)
    requires n <= |elements| == |active| && i < |active| && active[i] != status
    ensures Incidences(elements, active[i := status], node, n) ==
            Incidences(elements, active, node, n) as int +
              if i >= n then 0 else Signed(status, Occurrences(elements[i], node))
  {
    if n > 0 {
      IncidencesChange(elements, active, node, n - 1, i, status);
    }
  }

  /** Fewer active elements, fewer incidences. */
  lemma {:induction false} IncidencesMonotone(elements: seq<seq<nat>>, a: seq<bool>, b: seq<bool>, node: nat, n: nat)
    requires n <= |elements| == |a| == |b| && forall i :: 0 <= i < n && a[i] ==> b[i]
    ensures Incidences(elements, a, node, n) <= Incidences(elements, b, node, n)
  {
    if n > 0 {
      IncidencesMonotone(elements, a, b, node, n - 1);
    }
  }

  /** A node has an incidence iff it is a node of an active element. */
  lemma {:induction false} SomeIncidence(elements: seq<seq<nat>>, active: seq<bool>, node: nat, n: nat)
    requires n <= |elements| == |active|
    ensures Incidences(elements, active, node, n) > 0 <==> exists e :: 0 <= e < n && active[e] && node in elements[e]
  {
    if n > 0 {
      SomeIncidence(elements, active, node, n - 1);
      assert node in multiset(elements[n - 1]) <==> node in elements[n - 1];
    }
  }

  // ---- the mesh ----

  /** The elements connected to each node: an element is listed once for each of its nodes. */
  method SetElementsConnectedToNodes(mesh: Mesh) returns (connected: seq<seq<nat>>)
    requires mesh.Valid()
    ensures |connected| == mesh.nNodes
    ensures forall node :: 0 <= node < mesh.nNodes ==>
      |connected[node]| == Incidences(mesh.elements, AllActive(|mesh.elements|), node, |mesh.elements|)
    ensures forall node, e :: 0 <= node < mesh.nNodes && 0 <= e < |mesh.elements| ==>
      multiset(connected[node])[e] == Occurrences(mesh.elements[e], node)
  {
    connected := seq(mesh.nNodes, _ => []);
    for e := 0 to |mesh.elements|
      invariant |connected| == mesh.nNodes
      invariant forall node :: 0 <= node < mesh.nNodes ==>
        |connected[node]| == Incidences(mesh.elements, AllActive(|mesh.elements|), node, e)
      invariant forall node, d :: 0 <= node < mesh.nNodes && 0 <= d < e ==>
        multiset(connected[node])[d] == Occurrences(mesh.elements[d], node)
      invariant forall node, d :: 0 <= node < mesh.nNodes && e <= d ==> multiset(connected[node])[d] == 0
    {
      connected := ConnectElement(connected, e, mesh.elements[e]);
    }
  }

  /** Adds an element to the lists of its nodes. */
  method ConnectElement(connected: seq<seq<nat>>, e: nat, nodes: seq<nat>) returns (r: seq<seq<nat>>)
    requires forall j :: 0 <= j < |nodes| ==> nodes[j] < |connected|
    ensures |r| == |connected|
    ensures forall node :: 0 <= node < |r| ==> |r[node]| == |connected[node]| + Occurrences(nodes, node)
    ensures forall node, d: nat :: 0 <= node < |r| ==>
      multiset(r[node])[d] == multiset(connected[node])[d] + if d == e then Occurrences(nodes, node) else 0
  {
    r := connected;
    for j := 0 to |nodes|
      invariant |r| == |connected|
      invariant forall node :: 0 <= node < |r| ==> |r[node]| == |connected[node]| + Occurrences(nodes[..j], node)
      invariant forall node, d: nat :: 0 <= node < |r| ==>
        multiset(r[node])[d] == multiset(connected[node])[d] + if d == e then Occurrences(nodes[..j], node) else 0
    {
      OccurrencesStep(nodes, j);
      ghost var before := r;
      r := r[nodes[j] := r[nodes[j]] + [e]];
      forall node, d: nat | 0 <= node < |r|
        ensures multiset(r[node])[d] == multiset(before[node])[d] + if d == e && node == nodes[j] then 1 else 0
      {
      }
    }
    assert nodes[..|nodes|] == nodes;
  }

  lemma OccurrencesStep(nodes: seq<nat>, j: nat)
    requires j < |nodes|
    ensures forall node: nat ::
      Occurrences(nodes[..j + 1], node) == Occurrences(nodes[..j], node) + if node == nodes[j] then 1 else 0
  {
    assert nodes[..j + 1] == nodes[..j] + [nodes[j]];
  }

  // ---- the status ----

  class ElementStatus {
    const mesh: Mesh
    const hasAnyInactive: bool
    var elementStatus: seq<bool>
    var activeNodes: seq<Byte>
    var vecActiveElements: seq<nat>
    var vecActiveNodes: seq<nat>

    /** Every counter is the number of incidences with active elements, modulo 256. */
    ghost predicate Valid()
      reads this
    {
      mesh.Valid() && |elementStatus| == |mesh.elements| && |activeNodes| == mesh.nNodes &&
      forall node :: 0 <= node < mesh.nNodes ==> activeNodes[node] == Wrap(Count(node))
    }

    /** The number of incidences of a node with active elements. */
    ghost function Count(node: nat): nat
      reads this
      requires |elementStatus| == |mesh.elements|
    {
      Incidences(mesh.elements, elementStatus, node, |mesh.elements|)
    }

    /** All elements are active. */
    constructor (mesh: Mesh, hasAnyInactive: bool)
      requires mesh.Valid()
      ensures Valid() && this.mesh == mesh && elementStatus == AllActive(|mesh.elements|)
      ensures this.hasAnyInactive == hasAnyInactive && vecActiveElements == vecActiveNodes == []
      ensures !hasAnyInactive ==> Listed()
    {
      var connected := SetElementsConnectedToNodes(mesh);
      this.mesh := mesh;
      this.hasAnyInactive := hasAnyInactive;
      elementStatus := seq(|mesh.elements|, _ => true);
      activeNodes := seq(mesh.nNodes, i requires 0 <= i < |connected| => Wrap(|connected[i]|));
      vecActiveElements := [];
      vecActiveNodes := [];
    }

    /** Sets the status of one element and changes the counters of its nodes. */
    method SetElementStatus(i: nat, status: bool)
      requires Valid() && i < |elementStatus|
      modifies this`elementStatus, this`activeNodes
      ensures Valid() && elementStatus == old(elementStatus)[i := status]
    {
      if elementStatus[i] != status {
        ghost var before, active := activeNodes, elementStatus;
        elementStatus := elementStatus[i := status];
        ChangeCounters(mesh.elements[i], status);
        hide Wrap, Incidences, Occurrences, Signed;
        forall node | 0 <= node < mesh.nNodes
          ensures activeNodes[node] == Wrap(Count(node))
        {
          IncidencesChange(mesh.elements, active, node, |mesh.elements|, i, status);
          WrapTwice(Incidences(mesh.elements, active, node, |mesh.elements|),
            Signed(status, Occurrences(mesh.elements[i], node)));
        }
      }
    }

    /** Changes the counters of some nodes by one, once for each time a node is given. */
    method ChangeCounters(nodes: seq<nat>, status: bool)
      requires forall j :: 0 <= j < |nodes| ==> nodes[j] < |activeNodes|
      modifies this`activeNodes
      ensures |activeNodes| == |old(activeNodes)|
      ensures forall node :: 0 <= node < |activeNodes| ==>
        activeNodes[node] == Wrap(old(activeNodes)[node] as int + Signed(status, Occurrences(nodes, node)))
    {
      hide Wrap, Occurrences;
      var change := if status then 1 else -1;
      ghost var before := activeNodes;
      NoOccurrences(nodes);
      WrapSame(before);
      for j := 0 to |nodes|
        invariant |activeNodes| == |before|
        invariant forall node :: 0 <= node < |before| ==>
          activeNodes[node] == Wrap(before[node] as int + Signed(status, Occurrences(nodes[..j], node)))
      {
        OccurrencesStep(nodes, j);
        var id := nodes[j];
        WrapTwice(before[id] as int + Signed(status, Occurrences(nodes[..j], id)), change);
        activeNodes := activeNodes[id := Wrap(activeNodes[id] as int + change)];
      }
      assert nodes[..|nodes|] == nodes;
    }

    /** Whether the counter of a node is not zero. */
    predicate IsActiveNode(node: nat)
      reads this
      requires Valid() && node < mesh.nNodes
    {
      activeNodes[node] > 0
    }

    /** A counter is the number of incidences with active elements iff that number fits into a byte, and it
        tells whether the node belongs to an active element iff that number is zero or no multiple of 256. */
    lemma CounterRightIff(node: nat)
      requires Valid() && node < mesh.nNodes
      ensures activeNodes[node] as int == Count(node) <==> Count(node) <= 255
      ensures (IsActiveNode(node) <==> InActiveElement(node)) <==> (Count(node) == 0 || Count(node) % 256 != 0)
    {
      SomeIncidence(mesh.elements, elementStatus, node, |mesh.elements|);
    }

    /** Where no node has more than 255 incidences in the whole mesh, every counter is right after any changes. */
    lemma CountersRight(node: nat)
      requires Valid() && node < mesh.nNodes
      requires Incidences(mesh.elements, AllActive(|mesh.elements|), node, |mesh.elements|) <= 255
      ensures activeNodes[node] as int == Count(node)
      ensures IsActiveNode(node) <==> InActiveElement(node)
    {
      IncidencesMonotone(mesh.elements, elementStatus, AllActive(|mesh.elements|), node, |mesh.elements|);
      CounterRightIff(node);
    }

    /** What the getters give out is up to date: the lists hold the active elements and nodes, or nothing is
        inactive, so that the mesh itself is given out. */
    ghost predicate Listed()
      reads this
    {
      Valid() &&
      if hasAnyInactive
      then Ascending(vecActiveElements) && Ascending(vecActiveNodes) && HasElements(vecActiveElements) &&
           forall node: nat :: node in vecActiveNodes <==> node < mesh.nNodes && IsActiveNode(node)
      else elementStatus == AllActive(|mesh.elements|)
    }

    /** These are exactly the active elements. */
    ghost predicate HasElements(list: seq<nat>)
      reads this
      requires Valid()
    {
      forall e: nat :: e in list <==> e < |mesh.elements| && elementStatus[e]
    }

    /** These are exactly the nodes of active elements. */
    ghost predicate HasNodes(list: seq<nat>)
      reads this
      requires Valid()
    {
      forall node: nat :: node in list <==> node < mesh.nNodes && InActiveElement(node)
    }

    ghost predicate InActiveElement(node: nat)
      reads this
      requires Valid()
    {
      exists e :: 0 <= e < |mesh.elements| && elementStatus[e] && node in mesh.elements[e]
    }

    /** The active elements. */
    function GetActiveElements(): (r: seq<nat>)
      reads this
      requires Valid()
      ensures Listed() ==> Ascending(r) && HasElements(r)
    {
      if hasAnyInactive then vecActiveElements else UpTo(|mesh.elements|)
    }

    /** The nodes of active elements, if no node has more than 255 incidences; all nodes where nothing is
        inactive. */
    function GetActiveNodes(): (r: seq<nat>)
      reads this
      requires Valid()
      ensures Listed() ==> Ascending(r)
      ensures !hasAnyInactive ==> forall node: nat :: node in r <==> node < mesh.nNodes
      ensures Listed() && hasAnyInactive && FewIncidences() ==> HasNodes(r)
    {
      AllCountersRight();
      if hasAnyInactive then vecActiveNodes else UpTo(mesh.nNodes)
    }

    /** An object that was announced to have inactive elements but was given none has empty lists, although all
        elements are active.  They are right iff the mesh has no elements, or none with a node. */
    lemma EmptyListsRightIff()
      requires Valid() && hasAnyInactive && vecActiveElements == vecActiveNodes == []
      requires elementStatus == AllActive(|mesh.elements|)
      ensures HasElements(GetActiveElements()) <==> mesh.elements == []
      ensures HasNodes(GetActiveNodes()) <==> forall e :: 0 <= e < |mesh.elements| ==> mesh.elements[e] == []
    {
      if mesh.elements != [] {
        assert elementStatus[0] && !(0 in GetActiveElements());
      }
      if e :| 0 <= e < |mesh.elements| && mesh.elements[e] != [] {
        var node := mesh.elements[e][0];
        assert elementStatus[e] && InActiveElement(node);
        assert node !in GetActiveNodes();
      } else {
        assert forall node: nat :: !InActiveElement(node);
      }
    }

    /** No node has more than 255 incidences in the whole mesh. */
    ghost predicate FewIncidences() {
      forall node :: 0 <= node < mesh.nNodes ==>
        Incidences(mesh.elements, AllActive(|mesh.elements|), node, |mesh.elements|) <= 255
    }

    lemma AllCountersRight()
      requires Valid()
      ensures FewIncidences() ==> forall node :: 0 <= node < mesh.nNodes ==>
        (IsActiveNode(node) <==> InActiveElement(node))
    {
      if FewIncidences() {
        forall node | 0 <= node < mesh.nNodes
          ensures IsActiveNode(node) <==> InActiveElement(node)
        {
          CountersRight(node);
        }
      }
    }

    /** Deactivates the elements of the given materials and lists what remains active.
        Without material ids in the mesh everything stays active. */
    constructor ByMaterial(mesh: Mesh, materialIds: Materials, inactive: seq<int>)
      requires mesh.Valid() && (materialIds.Ids? ==> |materialIds.ids| == |mesh.elements|)
      ensures Valid() && this.mesh == mesh && hasAnyInactive == (inactive != [])
      ensures forall e :: 0 <= e < |mesh.elements| ==>
        (elementStatus[e] <==> materialIds.None? || materialIds.ids[e] !in inactive)
      ensures Ascending(vecActiveElements) && Ascending(vecActiveNodes)
      ensures forall e: nat :: e in vecActiveElements <==> e < |mesh.elements| && elementStatus[e]
      ensures forall node: nat :: node in vecActiveNodes <==> node < mesh.nNodes && IsActiveNode(node)
      ensures Listed()
    {
      var connected := SetElementsConnectedToNodes(mesh);
      this.mesh := mesh;
      this.hasAnyInactive := inactive != [];
      elementStatus := seq(|mesh.elements|, _ => true);
      activeNodes := seq(mesh.nNodes, i requires 0 <= i < |connected| => Wrap(|connected[i]|));
      vecActiveElements := [];
      vecActiveNodes := [];
      new;
      if materialIds.Ids? {
        Deactivate(materialIds.ids, inactive);
      }
      ListActive();
    }

    /** Deactivates the elements of some materials; a material may be given more than once. */
    method Deactivate(ids: seq<int>, inactive: seq<int>)
      requires Valid() && |ids| == |elementStatus|
      modifies this`elementStatus, this`activeNodes
      ensures Valid() && forall e :: 0 <= e < |elementStatus| ==>
        (elementStatus[e] <==> old(elementStatus[e]) && ids[e] !in inactive)
    {
      ghost var before := elementStatus;
      for m := 0 to |inactive|
        invariant Valid()
        invariant forall e :: 0 <= e < |elementStatus| ==> (elementStatus[e] <==> before[e] && ids[e] !in inactive[..m])
      {
        assert inactive[..m + 1] == inactive[..m] + [inactive[m]];
        for e := 0 to |mesh.elements|
          invariant Valid()
          invariant forall d :: 0 <= d < |elementStatus| ==>
            (elementStatus[d] <==> before[d] && ids[d] !in if d < e then inactive[..m + 1] else inactive[..m])
        {
          if ids[e] == inactive[m] {
            SetElementStatus(e, false);
          }
        }
      }
      assert inactive[..|inactive|] == inactive;
    }

    /** Lists the active elements and nodes. */
    method ListActive()
      requires Valid() && vecActiveElements == vecActiveNodes == []
      modifies this`vecActiveElements, this`vecActiveNodes
      ensures Ascending(vecActiveElements) && Ascending(vecActiveNodes)
      ensures forall e: nat :: e in vecActiveElements <==> e < |mesh.elements| && elementStatus[e]
      ensures forall node: nat :: node in vecActiveNodes <==> node < mesh.nNodes && activeNodes[node] > 0
    {
      for i := 0 to |mesh.elements|
        invariant Ascending(vecActiveElements) && vecActiveNodes == []
        invariant forall e: nat :: e in vecActiveElements <==> e < i && elementStatus[e]
      {
        if elementStatus[i] {
          AscendingAppend(vecActiveElements, i);
          vecActiveElements := vecActiveElements + [i];
        }
      }
      for i := 0 to mesh.nNodes
        invariant Ascending(vecActiveNodes)
        invariant forall node: nat :: node in vecActiveNodes <==> node < i && activeNodes[node] > 0
        invariant Ascending(vecActiveElements)
        invariant forall e: nat :: e in vecActiveElements <==> e < |mesh.elements| && elementStatus[e]
      {
        if activeNodes[i] > 0 {
          AscendingAppend(vecActiveNodes, i);
          vecActiveNodes := vecActiveNodes + [i];
        }
      }
    }
  }

  datatype Materials = None | Ids(ids: seq<int>)

  ghost predicate Ascending(s: seq<nat>) {
    forall i, j :: 0 <= i < j < |s| ==> s[i] < s[j]
  }

  /** All ids below n. */
  function UpTo(n: nat): (r: seq<nat>)
    ensures Ascending(r) && forall i: nat :: i in r <==> i < n
  {
    if n == 0 then [] else
      AscendingAppend(UpTo(n - 1), n - 1);
      UpTo(n - 1) + [n - 1]
  }

  lemma AscendingAppend(s: seq<nat>, n: nat)
    requires Ascending(s) && forall i :: i in s ==> i < n
    ensures Ascending(s + [n])
  {
    forall i | 0 <= i < |s|
      ensures s[i] < n
    {
      assert s[i] in s;
    }
  }

  lemma NoOccurrences(nodes: seq<nat>)
    ensures forall node: nat :: Occurrences(nodes[..0], node) == 0
  {
  }

  lemma WrapSame(counters: seq<Byte>)
    ensures forall i :: 0 <= i < |counters| ==> Wrap(counters[i] as int) == counters[i]
  {
  }

  lemma WrapTwice(a: int, b: int)
    ensures Wrap(Wrap(a) as int + b) == Wrap(a + b)
  {
  }

  /** A node of 256 elements is reported inactive although all of them are active. */
  method LostNode() returns (s: ElementStatus)
    ensures s.Valid() && s.mesh.nNodes == 1 && s.elementStatus == AllActive(256)
    ensures s.InActiveElement(0) && !s.IsActiveNode(0)
  {
    var elements := seq(256, _ => [0]);
    s := new ElementStatus(Mesh(1, elements), false);
    LostNodeUpTo(256, 256);
    assert s.mesh.elements == seq(256, _ => [0]);
    assert s.Count(0) == 256;
    assert s.elementStatus[0] && 0 in s.mesh.elements[0];
  }

  /** With the flag set and no list built, a mesh of one element hands out neither the element nor its node. */
  method NothingHandedOut() returns (s: ElementStatus)
    ensures s.Valid() && s.hasAnyInactive && s.mesh == Mesh(1, [[0]]) && s.elementStatus == AllActive(1)
    ensures !s.HasElements(s.GetActiveElements()) && !s.HasNodes(s.GetActiveNodes())
  {
    s := new ElementStatus(Mesh(1, [[0]]), true);
    s.EmptyListsRightIff();
  }

  lemma {:induction false} LostNodeUpTo(n: nat, k: nat)
    requires k <= n
    ensures var elements := seq(n, _ => [0]); Incidences(elements, AllActive(n), 0, k) == k
  {
    if k > 0 {
      LostNodeUpTo(n, k - 1);
    }
  }
}
