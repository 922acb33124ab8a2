/** Polylines over a point vector: the cached lengths, and joining of polylines. */
module Polyline {
  import opened Space
  import opened LineEnds

  // ---- sequences of ids ----

  /** No two adjacent ids are equal. */
  ghost predicate NoRepeats(ids: seq<nat>) {
    forall i :: 0 < i < |ids| ==> ids[i - 1] != ids[i]
  }

  /** An undirected edge. */
  datatype Edge = Edge(a: nat, b: nat)

  function EdgeOf(i: nat, j: nat): Edge {
    if i <= j then Edge(i, j) else Edge(j, i)
  }

  /** The edge between two adjacent ids, if they differ. */
  ghost function Link(i: nat, j: nat): multiset<Edge> {
    if i == j then multiset{} else multiset{EdgeOf(i, j)}
  }

  /** The undirected edges between adjacent different ids, with multiplicity. */
  ghost function Edges(ids: seq<nat>): multiset<Edge> {
    if |ids| < 2 then multiset{} else Edges(ids[..|ids| - 1]) + Link(ids[|ids| - 2], ids[|ids| - 1])
  }

  lemma EdgesAppend(ids: seq<nat>, id: nat)
    ensures Edges(ids + [id]) == Edges(ids) + if ids == [] then multiset{} else Link(ids[|ids| - 1], id)
  {
    assert (ids + [id])[..|ids|] == ids;
  }

  lemma FewEdges(id: nat)
    ensures Edges([]) == Edges([id]) == multiset{}
  {
  }

  /** The ids a and b are adjacent at position k, in either order. */
  predicate Adjacent(ids: seq<nat>, k: int, a: nat, b: nat) {
    0 < k < |ids| && ((ids[k - 1] == a && ids[k] == b) || (ids[k - 1] == b && ids[k] == a))
  }

  /** The edges join adjacent different ids, in either direction, and no edge is counted that is not there. */
  lemma {:induction false} EdgesMean(ids: seq<nat>, a: nat, b: nat)
    requires a < b
    ensures Edge(a, b) in Edges(ids) <==> exists k :: Adjacent(ids, k, a, b)
  {
    if |ids| >= 2 {
      var n := |ids| - 1;
      EdgesMean(ids[..n], a, b);
      LinkMeans(ids[n - 1], ids[n], a, b);
      hide Link, Edges;
      assert Adjacent(ids, n, a, b) <==> Edge(a, b) in Link(ids[n - 1], ids[n]);
      AdjacentInFront(ids, ids[..n], a, b);
      EdgesSplit(ids);
      hide Adjacent;
    }
  }

  lemma AdjacentInFront(ids: seq<nat>, front: seq<nat>, a: nat, b: nat)
    requires |ids| >= 2 && front == ids[..|ids| - 1]
    ensures (exists k :: Adjacent(ids, k, a, b)) <==>
      (exists k :: Adjacent(front, k, a, b)) || Adjacent(ids, |ids| - 1, a, b)
  {
    if k :| Adjacent(front, k, a, b) {
      assert Adjacent(ids, k, a, b);
    }
    if k :| Adjacent(ids, k, a, b) && k < |front| {
      assert Adjacent(front, k, a, b);
    }
  }

  lemma EdgesSplit(ids: seq<nat>)
    requires |ids| >= 2
    ensures Edges(ids) == Edges(ids[..|ids| - 1]) + Link(ids[|ids| - 2], ids[|ids| - 1])
  {
  }

  lemma LinkMeans(i: nat, j: nat, a: nat, b: nat)
    requires a < b
    ensures Edge(a, b) in Link(i, j) <==> (i == a && j == b) || (i == b && j == a)
  {
  }

  /** A line without repeats has one edge less than ids. */
  lemma {:induction false} EdgesCount(ids: seq<nat>)
    requires NoRepeats(ids) && ids != []
    ensures |Edges(ids)| == |ids| - 1
  {
    if |ids| >= 2 {
      EdgesCount(ids[..|ids| - 1]);
    }
  }

  lemma {:induction false} EdgesPrepend(id: nat, ids: seq<nat>)
    ensures Edges([id] + ids) == Edges(ids) + if ids == [] then multiset{} else Link(id, ids[0])
  {
    hide Edges, Link;
    FewEdges(id);
    if ids == [] {
      assert [id] + ids == [id];
    } else {
      var front, last := ids[..|ids| - 1], ids[|ids| - 1];
      assert ids == front + [last];
      EdgesPrepend(id, front);
      EdgesAppend([id] + front, last);
      EdgesAppend(front, last);
      assert [id] + front + [last] == [id] + ids;
    }
  }

  /** What AddPoint does to the ids. */
  function Appended(ids: seq<nat>, id: nat): seq<nat> {
    if ids != [] && ids[|ids| - 1] == id then ids else ids + [id]
  }

  lemma EdgesAppended(ids: seq<nat>, id: nat)
    ensures Edges(Appended(ids, id)) == Edges(ids) + if ids == [] then multiset{} else Link(ids[|ids| - 1], id)
    ensures Appended(ids, id) != [] && Appended(ids, id)[|Appended(ids, id)| - 1] == id
    ensures Appended(ids, id)[0] == if ids == [] then id else ids[0]
  {
    EdgesAppend(ids, id);
  }

  lemma NewNeighbours(ids: seq<nat>, pos: nat, id: nat)
    requires pos < |ids| && ids[pos] != id && (pos > 0 ==> ids[pos - 1] != id)
    ensures NoRepeats(ids) ==> NoRepeats(ids[..pos] + [id] + ids[pos..])
  {
  }

  // ---- polylines ----

  class Polyline {
    const points: seq<Point>
    /** The function that turns a squared distance into a distance. */
    const root: real -> real
    var ids: seq<nat>
    var lengths: seq<real>

    function Dist(i: nat, j: nat): real
      requires i < |points| && j < |points|
    {
      root(SqrDist(points[i].pos, points[j].pos))
    }

    lemma DistSymmetric(i: nat, j: nat)
      requires i < |points| && j < |points|
      ensures Dist(i, j) == Dist(j, i)
    {
      SqrDistSymmetric(points[i].pos, points[j].pos);
    }

    ghost predicate InPoints(s: seq<nat>) {
      forall i :: 0 <= i < |s| ==> s[i] < |points|
    }

    /** The length of the first k segments. */
    ghost function LengthUpTo(s: seq<nat>, k: nat): real
      requires InPoints(s) && k < |s|
    {
      if k == 0 then 0.0 else LengthUpTo(s, k - 1) + Dist(s[k - 1], s[k])
    }

    /** The lengths are the prefix sums of the segment lengths. */
    ghost predicate PrefixSums(s: seq<nat>, l: seq<real>)
      requires InPoints(s)
    {
      if s == [] then l == [0.0] else |l| == |s| && forall k :: 0 <= k < |s| ==> l[k] == LengthUpTo(s, k)
    }

    ghost predicate Valid()
      reads this
    {
      InPoints(ids) && PrefixSums(ids, lengths)
    }

    /** The distance of two points, in coordinates. */
    ghost function Spacing(p: Vec, q: Vec): real {
      root((p.x - q.x) * (p.x - q.x) + (p.y - q.y) * (p.y - q.y) + (p.z - q.z) * (p.z - q.z))
    }

    /** The k-th length exceeds the one before by the distance of the k-th point to the one before. */
    ghost predicate Segment(s: seq<nat>, l: seq<real>, k: nat)
      requires InPoints(s) && 0 < k < |s| == |l|
    {
      l[k] - l[k - 1] == Spacing(points[s[k - 1]].pos, points[s[k]].pos)
    }

    /** All lengths do. */
    ghost predicate Segments(s: seq<nat>, l: seq<real>)
      requires InPoints(s)
    {
      s != [] ==> |l| == |s| && forall k :: 0 < k < |s| ==> Segment(s, l, k)
    }

    lemma DistInCoordinates(i: nat, j: nat)
      requires i < |points| && j < |points|
      ensures Dist(i, j) == Spacing(points[i].pos, points[j].pos)
    {
      RootOfSquares(root, points[i].pos, points[j].pos);
    }

    /** Lengths are prefix sums iff they start at zero and every one exceeds the one before by a distance. */
    lemma {:induction false} PrefixSumsIff(s: seq<nat>, l: seq<real>)
      requires InPoints(s)
      ensures PrefixSums(s, l) <==> |l| > 0 && l[0] == 0.0 && (s == [] ==> |l| == 1) && Segments(s, l)
    {
      if s != [] && |l| == |s| {
        assert LengthUpTo(s, 0) == 0.0;
        forall k | 0 < k < |s|
          ensures Segment(s, l, k) <==> l[k] - l[k - 1] == LengthUpTo(s, k) - LengthUpTo(s, k - 1)
        {
          SegmentIff(s, l, k);
        }
        hide Segment, LengthUpTo;
        if l[0] == 0.0 && Segments(s, l) {
          forall k | 0 <= k < |s|
            ensures l[k] == LengthUpTo(s, k)
          {
            SumOfSegments(s, l, k);
          }
        }
      }
    }

    lemma SegmentIff(s: seq<nat>, l: seq<real>, k: nat)
      requires InPoints(s) && 0 < k < |s| == |l|
      ensures Segment(s, l, k) <==> l[k] - l[k - 1] == LengthUpTo(s, k) - LengthUpTo(s, k - 1)
    {
      DistInCoordinates(s[k - 1], s[k]);
      hide Dist, Spacing;
      assert LengthUpTo(s, k) == LengthUpTo(s, k - 1) + Dist(s[k - 1], s[k]);
    }

    lemma {:induction false} SumOfSegments(s: seq<nat>, l: seq<real>, k: nat)
      requires InPoints(s) && k < |s| == |l| && l[0] == LengthUpTo(s, 0)
      requires forall j :: 0 < j < |s| ==> l[j] - l[j - 1] == LengthUpTo(s, j) - LengthUpTo(s, j - 1)
      ensures l[k] == LengthUpTo(s, k)
    {
      if k > 0 {
        SumOfSegments(s, l, k - 1);
      }
    }

    constructor (points: seq<Point>, root: real -> real)
      ensures Valid() && ids == [] && this.points == points && this.root == root
    {
      this.points := points;
      this.root := root;
      ids := [];
      lengths := [0.0];
    }

    constructor Copy(ply: Polyline)
      requires ply.Valid()
      ensures Valid() && ids == ply.ids && lengths == ply.lengths && points == ply.points && root == ply.root
    {
      points := ply.points;
      root := ply.root;
      ids := ply.ids;
      lengths := ply.lengths;
      new;
      SameLengths(ply, this, ids);
    }

    /** Adds an id at the end, unless it repeats the last one. */
    method AddPoint(id: nat) returns (added: bool)
      requires Valid() && id < |points|
      modifies this
      ensures Valid() && ids == Appended(old(ids), id)
      ensures added == (old(ids) == [] || old(ids)[|old(ids)| - 1] != id)
      ensures if added then ids == old(ids) + [id] else ids == old(ids) && lengths == old(lengths)
      // in coordinates: the new segment and all others
      ensures InPoints(ids) && |lengths| == if ids == [] then 1 else |ids|
      ensures InPoints(ids) && Segments(ids, lengths) && lengths[0] == 0.0
      ensures old(NoRepeats(ids)) ==> NoRepeats(ids)
    {
      hide Segments, PrefixSums, Dist;
      var n := |ids|;
      PrefixSumsIff(ids, lengths);
      SumsCount(ids, lengths);
      if n > 0 && ids[n - 1] == id {
        return false;
      }
      ghost var s, l := ids, lengths;
      ids := ids + [id];
      if n > 0 {
        var actDist := Dist(ids[n - 1], id);
        var distUntilNow := 0.0;
        if n > 1 {
          distUntilNow := lengths[n - 1];
        }
        lengths := lengths + [distUntilNow + actDist];
      }
      AppendedSums(s, l, id, lengths);
      PrefixSumsIff(ids, lengths);
      return true;
    }

    lemma AppendedSums(s: seq<nat>, l: seq<real>, id: nat, l': seq<real>)
      requires InPoints(s) && id < |points| && PrefixSums(s, l)
      requires if s == [] then l' == l else |l| == |s| && l' == l + [l[|s| - 1] + Dist(s[|s| - 1], id)]
      ensures InPoints(s + [id]) && PrefixSums(s + [id], l')
    {
      var t := s + [id];
      assert InPoints(t);
      hide Dist;
      SamePrefix(s, t, |s|);
      assert LengthUpTo(t, 0) == 0.0;
      assert s != [] ==> LengthUpTo(t, |s|) == LengthUpTo(t, |s| - 1) + Dist(t[|s| - 1], t[|s|]);
    }

    lemma SumsCount(s: seq<nat>, l: seq<real>)
      requires InPoints(s) && PrefixSums(s, l)
      ensures |l| == if s == [] then 1 else |s|
    {
    }

    /** Equal beginnings have equal lengths. */
    lemma {:induction false} SamePrefix(s: seq<nat>, t: seq<nat>, n: nat)
      requires InPoints(s) && InPoints(t) && n <= |s| && n <= |t| && s[..n] == t[..n]
      ensures forall k :: 0 <= k < n ==> LengthUpTo(s, k) == LengthUpTo(t, k)
    {
      if n > 0 {
        assert s[..n - 1] == s[..n][..n - 1] && t[..n - 1] == t[..n][..n - 1];
        SamePrefix(s, t, n - 1);
        assert s[n - 1] == s[..n][n - 1] && t[n - 1] == t[..n][n - 1];
        if n > 1 {
          assert s[n - 2] == s[..n][n - 2] && t[n - 2] == t[..n][n - 2];
        }
      }
    }

    /** Equal ends have equal differences of lengths: from position from on, the k-th id of s is the
        (k + shift)-th of t. */
    lemma {:induction false} SameSuffix(s: seq<nat>, t: seq<nat>, from: nat, shift: int, k: nat)
      requires InPoints(s) && InPoints(t) && from <= k < |s| && |t| == |s| + shift && from + shift >= 0
      requires forall i :: from <= i < |s| ==> s[i] == t[i + shift]
      ensures LengthUpTo(t, k + shift) - LengthUpTo(t, from + shift) == LengthUpTo(s, k) - LengthUpTo(s, from)
    {
      hide Dist;
      if k > from {
        SameSuffix(s, t, from, shift, k - 1);
      }
    }

    /** Inserts an id at a position, unless it repeats a neighbour there. */
    method InsertPoint(pos: nat, id: nat) returns (inserted: bool)
      requires Valid() && id < |points| && pos <= |ids|
      modifies this
      ensures Valid()
      ensures inserted == ((pos == 0 || old(ids)[pos - 1] != id) && (pos == |old(ids)| || old(ids)[pos] != id))
      ensures ids == if inserted then old(ids)[..pos] + [id] + old(ids)[pos..] else old(ids)
      ensures old(NoRepeats(ids)) ==> NoRepeats(ids)
      // in coordinates: the two new segments, and all others
      ensures InPoints(ids) && Segments(ids, lengths) && lengths[0] == 0.0
      ensures !inserted ==> lengths == old(lengths)
    {
      hide Segments, PrefixSums;
      PrefixSumsIff(ids, lengths);
      if pos == |ids| {
        inserted := AddPoint(id);
        return;
      }
      if pos == 0 && id == ids[0] {
        return false;
      }
      if pos != 0 {
        if pos == |ids| - 1 && id == ids[pos] {
          return false;
        }
        if id == ids[pos - 1] || id == ids[pos] {
          return false;
        }
      }
      NewNeighbours(ids, pos, id);
      UpdateLengths(pos, id);
      ids := ids[..pos] + [id] + ids[pos..];
      PrefixSumsIff(ids, lengths);
      return true;
    }

    /** The part of InsertPoint that patches the lengths, for an id that goes in front of another one. */
    method UpdateLengths(pos: nat, id: nat)
      requires Valid() && id < |points| && pos < |ids|
      modifies this`lengths
      ensures InPoints(ids[..pos] + [id] + ids[pos..]) && PrefixSums(ids[..pos] + [id] + ids[pos..], lengths)
    {
      ghost var s, l := ids, lengths;
      var t := ids[..pos] + [id] + ids[pos..];
      LengthsFacts(s, l);
      hide PrefixSums, LengthUpTo, Dist;
      if pos == 0 {
        // in front of all others
        var actDist := Dist(t[1], id);
        lengths := lengths[..1] + [actDist] + lengths[1..];
        lengths := AddToLengths(lengths, 2, lengths[1]);
        InsertedFirst(s, t, l, lengths);
      } else {
        // insert between two points: the position behind the last one was handed to AddPoint
        var distUntilNow := 0.0;
        if pos > 1 {
          distUntilNow := lengths[pos - 1];
        }
        var lenSeg0 := Dist(t[pos - 1], id);
        var lenSeg1 := Dist(t[pos + 1], id);
        var updateDist := lenSeg0 + lenSeg1 - (lengths[pos] - distUntilNow);
        lengths := lengths[pos := distUntilNow + lenSeg0];
        lengths := lengths[..pos + 1] + [lengths[pos] + lenSeg1] + lengths[pos + 1..];
        lengths := AddToLengths(lengths, pos + 2, updateDist);
        InsertedBetween(s, t, pos, l, lengths);
      }
    }

    lemma LengthsFacts(s: seq<nat>, l: seq<real>)
      requires InPoints(s) && PrefixSums(s, l) && s != []
      ensures |l| == |s| && l[0] == 0.0
    {
      assert LengthUpTo(s, 0) == 0.0;
    }

    /** Adds d to all lengths from a position on. */
    static method AddToLengths(l: seq<real>, from: nat, d: real) returns (r: seq<real>)
      ensures |r| == |l| && forall k :: 0 <= k < |l| ==> r[k] == if k < from then l[k] else l[k] + d
    {
      r := l;
      var k := from;
      while k < |r|
        invariant from <= k && |r| == |l|
        invariant forall i :: 0 <= i < |l| ==> r[i] == if from <= i < k then l[i] + d else l[i]
      {
        r := r[k := r[k] + d];
        k := k + 1;
      }
    }

    lemma InsertedFirst(s: seq<nat>, t: seq<nat>, l: seq<real>, l': seq<real>)
      requires s != [] && InPoints(s) && PrefixSums(s, l) && InPoints(t) && |t| == |s| + 1 && t[1..] == s
      requires |l'| == |t| && l'[0] == l[0] && l'[1] == Dist(t[1], t[0])
      requires forall k :: 2 <= k < |t| ==> l'[k] == l[k - 1] + l'[1]
      ensures PrefixSums(t, l')
    {
      DistSymmetric(t[0], t[1]);
      forall k | 1 <= k < |t|
        ensures l'[k] == LengthUpTo(t, k)
      {
        SameSuffix(s, t, 0, 1, k - 1);
        assert LengthUpTo(t, 1) == Dist(t[0], t[1]);
      }
    }

    lemma InsertedBetween(s: seq<nat>, t: seq<nat>, pos: nat, l: seq<real>, l': seq<real>)
      requires InPoints(s) && PrefixSums(s, l) && InPoints(t) && 0 < pos < |s| && |t| == |s| + 1 == |l'|
      requires s[..pos] == t[..pos] && s[pos..] == t[pos + 1..]
      requires forall k :: 0 <= k < pos ==> l'[k] == l[k]
      requires l'[pos] == l[pos - 1] + Dist(t[pos - 1], t[pos]) && l'[pos + 1] == l'[pos] + Dist(t[pos + 1], t[pos])
      requires forall k :: pos + 2 <= k < |t| ==> l'[k] == l[k - 1] + l'[pos + 1] - l[pos]
      ensures PrefixSums(t, l')
    {
      SamePrefix(s, t, pos);
      DistSymmetric(t[pos], t[pos + 1]);
      assert LengthUpTo(t, pos) == LengthUpTo(t, pos - 1) + Dist(t[pos - 1], t[pos]);
      assert LengthUpTo(t, pos + 1) == LengthUpTo(t, pos) + Dist(t[pos], t[pos + 1]);
      forall i | pos <= i < |s|
        ensures s[i] == t[i + 1]
      {
        assert s[i] == s[pos..][i - pos] == t[pos + 1..][i - pos];
      }
      forall k | pos + 2 <= k < |t|
        ensures l'[k] == LengthUpTo(t, k)
      {
        SameSuffix(s, t, pos, 1, k - 1);
      }
    }

    /** Removes the id at a position.  The lengths are not rebased when the first one is removed. */
    method RemovePoint(pos: nat)
      requires Valid()
      modifies this
      ensures ids == if pos < |old(ids)| then old(ids)[..pos] + old(ids)[pos + 1..] else old(ids)
      ensures pos >= |old(ids)| ==> lengths == old(lengths)
      ensures pos >= 1 ==> Valid()
      ensures pos == 0 < |old(ids)| ==> lengths == old(lengths)[1..]
      ensures InPoints(ids) && (PrefixSums(ids, lengths) <==> RemovalKeepsLengths(old(ids), pos))
      // in coordinates: the segment that closes the gap, and all others; without the first point they are right, too
      ensures Segments(ids, lengths)
    {
      hide Segments;
      ghost var s, l := ids, lengths;
      PrefixSumsIff(s, l);
      if pos >= |ids| {
        return;
      }
      LengthsFacts(s, l);
      hide LengthUpTo, Dist, RemovalKeepsLengths;
      RemovalFacts(s, pos);
      ids := ids[..pos] + ids[pos + 1..];
      if pos == |ids| {
        lengths := lengths[..pos] + lengths[pos + 1..];
        SamePrefix(s, ids, pos);
        PrefixSumsIff(ids, lengths);
        return;
      }
      if pos == 0 {
        ShiftLengths();
        RemovedFirst(s, ids, l, lengths);
        ShiftedSegments(s, l);
      } else {
        var lenSeg0 := lengths[pos] - lengths[pos - 1];
        var lenSeg1 := lengths[pos + 1] - lengths[pos];
        lengths := lengths[..pos] + lengths[pos + 1..];
        var lenNewSeg := Dist(ids[pos - 1], ids[pos]);
        var diff := lenNewSeg - lenSeg0 - lenSeg1;
        lengths := AddToLengths(lengths, pos, diff);
        RemovedBetween(s, ids, pos, l, lengths);
        PrefixSumsIff(ids, lengths);
      }
    }

    /** The part of RemovePoint that moves the lengths down, for the first of several points. */
    method ShiftLengths()
      requires |ids| > 0 && |lengths| == |ids| + 1 && lengths[0] == 0.0
      modifies this`lengths
      ensures lengths == old(lengths)[1..]
    {
      var segLength := lengths[0];
      var n := |ids|;
      ghost var l := lengths;
      for k := 0 to n
        invariant |lengths| == |l| == n + 1
        invariant forall i :: 0 <= i < k ==> lengths[i] == l[i + 1]
        invariant forall i :: k <= i < |l| ==> lengths[i] == l[i]
      {
        assert lengths[k + 1] - segLength == l[k + 1];
        lengths := lengths[k := lengths[k + 1] - segLength];
      }
      lengths := lengths[..|lengths| - 1];
    }

    /** When the removal of a position leaves the prefix sums: always, except for the first point, where
        the segment that is removed must have no length, and there must be one. */
    ghost predicate RemovalKeepsLengths(s: seq<nat>, pos: nat)
      requires InPoints(s)
    {
      pos >= 1 || s == [] || (|s| >= 2 && Dist(s[0], s[1]) == 0.0)
    }

    lemma RemovalFacts(s: seq<nat>, pos: nat)
      requires InPoints(s) && pos < |s|
      ensures forall l :: Segments([], l)
      ensures pos >= 1 ==> RemovalKeepsLengths(s, pos)
      ensures pos == 0 ==> (RemovalKeepsLengths(s, pos) <==> |s| >= 2 && Dist(s[0], s[1]) == 0.0)
    {
    }

    lemma ShiftedSegments(s: seq<nat>, l: seq<real>)
      requires InPoints(s) && |s| >= 2 && Segments(s, l)
      ensures InPoints(s[1..]) && Segments(s[1..], l[1..])
    {
      hide Spacing;
      var t := s[1..];
      assert InPoints(t);
      forall k | 0 < k < |s| - 1
        ensures Segment(t, l[1..], k)
      {
        assert Segment(s, l, k + 1);
        assert t[k] == s[k + 1] && t[k - 1] == s[k] && l[1..][k] == l[k + 1] && l[1..][k - 1] == l[k];
      }
    }

    lemma RemovedFirst(s: seq<nat>, t: seq<nat>, l: seq<real>, l': seq<real>)
      requires |s| >= 2 && InPoints(s) && PrefixSums(s, l) && t == s[1..] && l' == l[1..]
      ensures InPoints(t) && (PrefixSums(t, l') <==> Dist(s[0], s[1]) == 0.0)
    {
      assert InPoints(t);
      assert LengthUpTo(t, 0) == 0.0;
      assert LengthUpTo(s, 0) == 0.0;
      assert LengthUpTo(s, 1) == Dist(s[0], s[1]);
      hide Dist;
      forall k | 0 <= k < |t|
        ensures LengthUpTo(t, k) == LengthUpTo(s, k + 1) - Dist(s[0], s[1])
      {
        SameSuffix(t, s, 0, 1, k);
      }
      assert l'[0] == l[1];
    }

    lemma RemovedBetween(s: seq<nat>, t: seq<nat>, pos: nat, l: seq<real>, l': seq<real>)
      requires InPoints(s) && PrefixSums(s, l) && 0 < pos < |s| - 1 && t == s[..pos] + s[pos + 1..] && |l'| == |t|
      requires InPoints(t) && forall k :: 0 <= k < pos ==> l'[k] == l[k]
      requires forall k :: pos <= k < |t| ==> l'[k] == l[k + 1] + Dist(t[pos - 1], t[pos]) - (l[pos + 1] - l[pos - 1])
      ensures PrefixSums(t, l')
    {
      assert t[..pos] == s[..pos];
      SamePrefix(s, t, pos);
      forall k | pos <= k < |t|
        ensures l'[k] == LengthUpTo(t, k)
      {
        SameSuffix(t, s, pos, 1, k);
      }
    }
  }

  /** The lengths of two polylines over the same points are computed alike. */
  lemma {:induction false} SameLengths(p: Polyline, q: Polyline, s: seq<nat>)
    requires p.points == q.points && p.root == q.root && p.InPoints(s)
    ensures q.InPoints(s) && forall l :: p.PrefixSums(s, l) <==> q.PrefixSums(s, l)
  {
    forall k | 0 <= k < |s|
      ensures p.LengthUpTo(s, k) == q.LengthUpTo(s, k)
    {
      SameLength(p, q, s, k);
    }
  }

  lemma {:induction false} SameLength(p: Polyline, q: Polyline, s: seq<nat>, k: nat)
    requires p.points == q.points && p.root == q.root && p.InPoints(s) && q.InPoints(s) && k < |s|
    ensures p.LengthUpTo(s, k) == q.LengthUpTo(s, k)
  {
    if k > 0 {
      SameLength(p, q, s, k - 1);
    }
  }

  /** A point that was inserted behind the first one can be removed again: both arrays are as before. */
  method InsertAndRemove(p: Polyline, pos: nat, id: nat) returns (inserted: bool)
    requires p.Valid() && id < |p.points| && 1 <= pos <= |p.ids|
    modifies p
    ensures p.Valid() && p.ids == old(p.ids) && p.lengths == old(p.lengths)
  {
    inserted := p.InsertPoint(pos, id);
    if inserted {
      p.RemovePoint(pos);
      assert p.ids == old(p.ids);
    }
  }

  /** Removing the first of two points at distance two leaves the length two where there should be none. */
  method RemoveFirst(root: real -> real) returns (p: Polyline)
    requires root(4.0) == 2.0
    ensures p.InPoints(p.ids) && !p.Valid() && p.ids == [1] && p.lengths == [2.0]
  {
    var a := new Point(Vec(0.0, 0.0, 0.0), 0);
    var b := new Point(Vec(0.0, 2.0, 0.0), 1);
    p := new Polyline([a, b], root);
    var _ := p.AddPoint(0);
    var _ := p.AddPoint(1);
    assert p.ids == [0, 1] && p.Dist(0, 1) == 2.0;
    assert p.LengthUpTo(p.ids, 0) == 0.0 && p.LengthUpTo(p.ids, 1) == 2.0;
    assert p.lengths == [0.0, 2.0];
    hide Polyline.LengthUpTo, Polyline.Dist, SqrDist, Polyline.Segments;
    p.RemovePoint(0);
  }

  /** After the removal of its only point a polyline has no length left, not even that of its beginning. */
  method RemoveOnly(point: Point, root: real -> real) returns (p: Polyline)
    ensures p.InPoints(p.ids) && !p.Valid() && p.ids == [] && p.lengths == []
  {
    p := new Polyline([point], root);
    var _ := p.AddPoint(0);
    p.RemovePoint(0);
  }

  lemma RootOfSquares(root: real -> real, p: Vec, q: Vec)
    ensures root(SqrDist(p, q)) ==
            root((p.x - q.x) * (p.x - q.x) + (p.y - q.y) * (p.y - q.y) + (p.z - q.z) * (p.z - q.z))
  {
    var d := (p.x - q.x) * (p.x - q.x) + (p.y - q.y) * (p.y - q.y) + (p.z - q.z) * (p.z - q.z);
    assert SqrDist(p, q) == d;
    assert root(SqrDist(p, q)) == root(d);
  }

  // ---- joining polylines ----

  /** All edges of several lines. */
  ghost function AllEdges(lines: seq<seq<nat>>): multiset<Edge> {
    if lines == [] then multiset{} else AllEdges(lines[..|lines| - 1]) + Edges(lines[|lines| - 1])
  }

  lemma {:induction false} TakeOut(lines: seq<seq<nat>>, i: nat)
    requires i < |lines|
    ensures AllEdges(lines) == AllEdges(lines[..i] + lines[i + 1..]) + Edges(lines[i])
  {
    hide Edges;
    var n := |lines| - 1;
    var rest := lines[..i] + lines[i + 1..];
    if i == n {
      assert rest == lines[..n];
    } else {
      TakeOut(lines[..n], i);
      assert rest[..n - 1] == lines[..n][..i] + lines[..n][i + 1..];
      assert rest[n - 1] == lines[n];
    }
  }

  /** Whether two ids stand for the same place; prox is a squared distance. */
  predicate PointsAreIdentical(points: seq<Point>, i: nat, j: nat, prox: real)
    requires i < |points| && j < |points|
  {
    i == j || SqrDist(points[i].pos, points[j].pos) < prox
  }

  lemma IdenticalInCoordinates(points: seq<Point>, i: nat, j: nat, prox: real)
    requires i < |points| && j < |points|
    ensures var p, q := points[i].pos, points[j].pos;
      PointsAreIdentical(points, i, j, prox) <==>
        i == j || (p.x - q.x) * (p.x - q.x) + (p.y - q.y) * (p.y - q.y) + (p.z - q.z) * (p.z - q.z) < prox
  {
  }

  lemma IdenticalIds(points: seq<Point>, i: nat, j: nat)
    requires i < |points| && j < |points|
    ensures PointsAreIdentical(points, i, j, 0.0) <==> i == j
  {
    var a, b := points[i].pos, points[j].pos;
    assert (a.x - b.x) * (a.x - b.x) >= 0.0 && (a.y - b.y) * (a.y - b.y) >= 0.0 && (a.z - b.z) * (a.z - b.z) >= 0.0;
  }

  /** Two lines share an end. */
  ghost predicate Touch(points: seq<Point>, s: seq<nat>, t: seq<nat>, prox: real)
    requires s != [] && t != [] && forall i :: 0 <= i < |s| ==> s[i] < |points|
    requires forall i :: 0 <= i < |t| ==> t[i] < |points|
  {
    PointsAreIdentical(points, s[0], t[0], prox) || PointsAreIdentical(points, s[0], t[|t| - 1], prox) ||
    PointsAreIdentical(points, s[|s| - 1], t[0], prox) || PointsAreIdentical(points, s[|s| - 1], t[|t| - 1], prox)
  }

  // ---- the ends of lines ----

  ghost function EndsOf(line: seq<nat>): Ends {
    if line == [] then Ends(0, 0) else Ends(line[0], line[|line| - 1])
  }

  ghost function EndsOfAll(lines: seq<seq<nat>>): seq<Ends> {
    seq(|lines|, i requires 0 <= i < |lines| => EndsOf(lines[i]))
  }

  /** Whether all lines join does not change when the first one that meets is joined. */
  lemma OneMoreJoined(e: Ends, lines: seq<seq<nat>>, k: nat)
    requires k < |lines| && k == FirstMeeting(e, EndsOfAll(lines))
    ensures AllJoin(e, EndsOfAll(lines)) <==>
            AllJoin(Joined(e, EndsOf(lines[k])), EndsOfAll(lines[..k] + lines[k + 1..]))
  {
    hide EndsOf, Joined;
    assert EndsOfAll(lines[..k] + lines[k + 1..]) == Without(EndsOfAll(lines), k);
    AllJoinStep(e, EndsOfAll(lines), k);
  }

  /** With tolerance zero, lines touch iff they meet. */
  lemma TouchIffMeet(points: seq<Point>, s: seq<nat>, t: seq<nat>)
    requires s != [] && t != [] && forall i :: 0 <= i < |s| ==> s[i] < |points|
    requires forall i :: 0 <= i < |t| ==> t[i] < |points|
    ensures Touch(points, s, t, 0.0) <==> Meet(EndsOf(s), EndsOf(t))
  {
    hide PointsAreIdentical;
    OnlyEqualIds(points, s, t, 0.0);
  }

  /** Adds the ids of a line behind its first one. */
  method AddRest(ply: Polyline, line: seq<nat>)
    requires ply.Valid() && ply.ids != [] && line != [] && ply.InPoints(line)
    modifies ply
    ensures ply.Valid() && ply.ids != []
    ensures old(ply.ids[|ply.ids| - 1]) == line[0] ==> Edges(ply.ids) == old(Edges(ply.ids)) + Edges(line)
    ensures old(ply.ids[|ply.ids| - 1]) == line[0] ==>
      EndsOf(ply.ids) == Ends(old(ply.ids[0]), line[|line| - 1])
    ensures forall id :: id in ply.ids ==> id in old(ply.ids) || id in line
  {
    hide Edges, Appended, Polyline.PrefixSums;
    ghost var s := ply.ids;
    SingleEdges(line);
    for k := 1 to |line|
      invariant ply.Valid() && ply.ids != [] && ply.ids[0] == s[0]
      invariant forall id :: id in ply.ids ==> id in s || id in line
      invariant s[|s| - 1] == line[0] ==>
        ply.ids[|ply.ids| - 1] == line[k - 1] && Edges(ply.ids) == Edges(s) + Edges(line[..k])
    {
      ForwardStep(s, ply.ids, line, k);
      var _ := ply.AddPoint(line[k]);
    }
    assert line[..|line|] == line;
  }

  /** One step of appending a line: t, which ends where the line was left, goes on with its k-th id. */
  lemma ForwardStep(s: seq<nat>, t: seq<nat>, line: seq<nat>, k: nat)
    requires t != [] && 0 < k < |line|
    ensures EndsWith(Appended(t, line[k]), line[k]) && Appended(t, line[k])[0] == t[0]
    ensures EndsWith(t, line[k - 1]) && Edges(t) == Edges(s) + Edges(line[..k]) ==>
      Edges(Appended(t, line[k])) == Edges(s) + Edges(line[..k + 1])
  {
    hide Edges, Link, Appended;
    EdgesAppended(t, line[k]);
    EdgesAppend(line[..k], line[k]);
    assert line[..k + 1] == line[..k] + [line[k]];
  }

  ghost predicate EndsWith(s: seq<nat>, id: nat) {
    s != [] && s[|s| - 1] == id
  }

  lemma BackwardStep(s: seq<nat>, t: seq<nat>, line: seq<nat>, k: nat)
    requires k < |line|
    ensures EndsWith(Appended(t, line[|line| - k - 1]), line[|line| - k - 1])
    ensures Appended(t, line[|line| - k - 1])[0] == if t == [] then line[|line| - k - 1] else t[0]
    ensures k == 0 && t == s == [] ==> Edges(Appended(t, line[|line| - 1])) == Edges(s) + Edges(line[|line| - 1..])
    ensures k > 0 && EndsWith(t, line[|line| - k]) && Edges(t) == Edges(s) + Edges(line[|line| - k..]) ==>
      Edges(Appended(t, line[|line| - k - 1])) == Edges(s) + Edges(line[|line| - k - 1..])
  {
    hide Edges, Link, Appended;
    var n := |line|;
    SingleEdges(line);
    EdgesAppended(t, line[n - k - 1]);
    if k > 0 {
      EdgesPrepend(line[n - k - 1], line[n - k..]);
      assert line[n - k - 1..] == [line[n - k - 1]] + line[n - k..];
      LinkSymmetric(line[n - k - 1], line[n - k]);
    }
  }

  lemma LinkSymmetric(i: nat, j: nat)
    ensures Link(i, j) == Link(j, i)
  {
  }

  lemma SingleEdges(line: seq<nat>)
    requires line != []
    ensures Edges(line[..1]) == multiset{} && Edges(line[|line| - 1..]) == multiset{}
  {
  }

  /** Adds the ids of a line in reverse, all of them or those in front of its last one. */
  method AddReversed(ply: Polyline, line: seq<nat>, from: nat)
    requires ply.Valid() && line != [] && ply.InPoints(line) && from == if ply.ids == [] then 0 else 1
    modifies ply
    ensures ply.Valid() && ply.ids != []
    ensures old(ply.ids == [] || ply.ids[|ply.ids| - 1] == line[|line| - 1]) ==>
      ply.ids[|ply.ids| - 1] == line[0] && Edges(ply.ids) == old(Edges(ply.ids)) + Edges(line)
    ensures ply.ids[0] == if old(ply.ids) == [] then line[|line| - 1] else old(ply.ids)[0]
    ensures forall id :: id in ply.ids ==> id in old(ply.ids) || id in line
  {
    hide Edges, Appended, Polyline.PrefixSums;
    ghost var s := ply.ids;
    var n := |line|;
    SingleEdges(line);
    for k := from to n
      invariant ply.Valid() && (k > 0 ==> ply.ids != []) && (k == 0 ==> ply.ids == s == [])
      invariant k > 0 ==> ply.ids[0] == if s == [] then line[n - 1] else s[0]
      invariant forall id :: id in ply.ids ==> id in s || id in line
      invariant k > 0 && (s == [] || s[|s| - 1] == line[n - 1]) ==>
        ply.ids[|ply.ids| - 1] == line[n - k] && Edges(ply.ids) == Edges(s) + Edges(line[n - k..])
    {
      BackwardStep(s, ply.ids, line, k);
      var _ := ply.AddPoint(line[n - k - 1]);
    }
    assert line[0..] == line;
  }

  lemma NoEdges()
    ensures Edges([]) == multiset{}
  {
  }

  /** Joins a line to an end of another one, if they share an end.  The first may be extended in place. */
  method Join(ply: Polyline, other: Polyline, prox: real) returns (joined: Polyline, found: bool)
    requires ply.Valid() && other.Valid() && ply.points == other.points && ply.ids != [] && other.ids != [] &&
      ply != other
    modifies ply
    ensures found == Touch(ply.points, old(ply.ids), other.ids, prox)
    ensures !found ==> joined == ply && unchanged(ply)
    ensures joined == ply || fresh(joined)
    ensures joined.Valid() && joined.ids != [] && joined.points == ply.points
    ensures found && prox == 0.0 ==> Edges(joined.ids) == old(Edges(ply.ids)) + Edges(other.ids)
    ensures found && prox == 0.0 ==> EndsOf(joined.ids) == Joined(old(EndsOf(ply.ids)), EndsOf(other.ids))
    ensures forall id :: id in joined.ids ==> id in old(ply.ids) || id in other.ids
  {
    hide Edges, PointsAreIdentical;
    var points, s, t := ply.points, ply.ids, other.ids;
    var n := |t|;
    OnlyEqualIds(points, s, t, prox);
    NoEdges();
    joined, found := ply, true;
    if PointsAreIdentical(points, s[0], t[0], prox) {
      joined := new Polyline(other.points, other.root);
      AddReversed(joined, t, 0);
      AddRest(joined, s);
    } else if PointsAreIdentical(points, s[0], t[n - 1], prox) {
      joined := new Polyline.Copy(other);
      AddRest(joined, s);
    } else if PointsAreIdentical(points, s[|s| - 1], t[0], prox) {
      AddRest(ply, t);
    } else if PointsAreIdentical(points, s[|s| - 1], t[n - 1], prox) {
      AddReversed(ply, t, 1);
    } else {
      found := false;
    }
  }

  lemma OnlyEqualIds(points: seq<Point>, s: seq<nat>, t: seq<nat>, prox: real)
    requires s != [] && t != [] && forall i :: 0 <= i < |s| ==> s[i] < |points|
    requires forall i :: 0 <= i < |t| ==> t[i] < |points|
    ensures prox == 0.0 ==> (PointsAreIdentical(points, s[0], t[0], prox) <==> s[0] == t[0])
    ensures prox == 0.0 ==> (PointsAreIdentical(points, s[0], t[|t| - 1], prox) <==> s[0] == t[|t| - 1])
    ensures prox == 0.0 ==> (PointsAreIdentical(points, s[|s| - 1], t[0], prox) <==> s[|s| - 1] == t[0])
    ensures prox == 0.0 ==> (PointsAreIdentical(points, s[|s| - 1], t[|t| - 1], prox) <==> s[|s| - 1] == t[|t| - 1])
  {
    IdenticalIds(points, s[0], t[0]);
    IdenticalIds(points, s[0], t[|t| - 1]);
    IdenticalIds(points, s[|s| - 1], t[0]);
    IdenticalIds(points, s[|s| - 1], t[|t| - 1]);
  }

  /** The ids of the lines that are still to be joined. */
  ghost predicate Pending(local: seq<Polyline>, rest: seq<seq<nat>>)
    reads local
  {
    |local| == |rest| && forall i :: 0 <= i < |local| ==> local[i].Valid() && local[i].ids == rest[i] && rest[i] != []
  }

  /** What is kept while lines are joined: the edges, and whether all lines join. */
  ghost predicate SoFar(lines: seq<seq<nat>>, same: bool, s: seq<nat>, rest: seq<seq<nat>>) {
    Edges(s) + AllEdges(rest) == AllEdges(lines) &&
    (same && lines != [] ==>
       (AllJoin(EndsOf(lines[0]), EndsOfAll(lines[1..])) <==> AllJoin(EndsOf(s), EndsOfAll(rest))))
  }

  lemma JoinedSoFar(lines: seq<seq<nat>>, same: bool, s: seq<nat>, rest: seq<seq<nat>>, k: nat, s': seq<nat>)
    requires SoFar(lines, same, s, rest) && k < |rest| && Edges(s') == Edges(s) + Edges(rest[k])
    requires same ==>
      k == FirstMeeting(EndsOf(s), EndsOfAll(rest)) && EndsOf(s') == Joined(EndsOf(s), EndsOf(rest[k]))
    ensures SoFar(lines, same, s', rest[..k] + rest[k + 1..])
  {
    hide Edges, AllEdges, EndsOf, EndsOfAll, AllJoin, FirstMeeting, Joined;
    TakeOut(rest, k);
    if same {
      OneMoreJoined(EndsOf(s), rest, k);
    }
  }

  lemma NothingJoined(lines: seq<seq<nat>>, same: bool)
    requires lines != []
    ensures SoFar(lines, same, lines[0], lines[1..])
  {
    hide Edges, EndsOf, EndsOfAll, AllJoin;
    TakeOut(lines, 0);
    assert lines[..0] + lines[1..] == lines[1..];
  }

  // ---- the tolerance ----

  /** The tolerance in a round: it is squared at the beginning of every one, not once. */
  function Tolerance(prox: real, round: nat): real {
    if round == 0 then prox else Sq(Tolerance(prox, round - 1))
  }

  /** The squared distances are compared with the square of the tolerance in every round iff that is zero or one. */
  lemma SameToleranceIff(prox: real)
    requires prox >= 0.0
    ensures (forall n: nat :: n > 0 ==> Tolerance(prox, n) == Sq(prox)) <==> prox == 0.0 || prox == 1.0
  {
    hide Sq, Tolerance;
    TwoRounds(prox);
    SqPositive(prox);
    SquareOfItself(prox);
    SquareOfItself(Sq(prox));
    SquareIsOne(prox);
    if prox == 0.0 || prox == 1.0 {
      forall n: nat
        ensures Tolerance(prox, n) == prox
      {
        FixedTolerance(prox, n);
      }
    } else {
      assert Tolerance(prox, 2) != Sq(prox);
    }
  }

  lemma TwoRounds(prox: real)
    ensures Tolerance(prox, 1) == Sq(prox) && Tolerance(prox, 2) == Sq(Sq(prox))
  {
    hide Sq;
    assert Tolerance(prox, 0) == prox && Tolerance(prox, 1) == Sq(prox);
  }

  lemma SquareOfItself(x: real)
    requires x >= 0.0
    ensures Sq(x) == x <==> x == 0.0 || x == 1.0
  {
    assert x > 1.0 ==> x * (x - 1.0) > 0.0;
    assert 0.0 < x < 1.0 ==> x * (1.0 - x) > 0.0;
    assert x * (x - 1.0) == x * x - x;
    assert x * (1.0 - x) == x - x * x;
  }

  lemma SquareIsOne(x: real)
    requires x >= 0.0
    ensures Sq(x) == 1.0 ==> x == 1.0
    ensures Sq(x) == 0.0 ==> x == 0.0
  {
    assert x > 1.0 ==> x * x > 1.0;
    assert 0.0 < x < 1.0 ==> x * x < 1.0;
    SqPositive(x);
  }

  lemma {:induction false} FixedTolerance(prox: real, n: nat)
    requires prox == 0.0 || prox == 1.0
    ensures Tolerance(prox, n) == prox
  {
    if n > 0 {
      FixedTolerance(prox, n - 1);
    }
  }

  /** A line that touches, both having ids of points only. */
  ghost predicate Fits(points: seq<Point>, s: seq<nat>, t: seq<nat>, prox: real) {
    s != [] && t != [] && (forall i :: 0 <= i < |s| ==> s[i] < |points|) &&
    (forall i :: 0 <= i < |t| ==> t[i] < |points|) && Touch(points, s, t, prox)
  }

  /** What was joined in the order it was joined, and the polyline before, between and after. */
  datatype History = History(chains: seq<seq<nat>>, order: seq<seq<nat>>) {

    ghost function Last(): seq<nat> {
      if chains == [] then [] else chains[|chains| - 1]
    }
  }

  ghost predicate IdsOfLines(s: seq<nat>, lines: seq<seq<nat>>) {
    forall id :: id in s ==> exists l :: l in lines && id in l
  }

  /** Every line that was joined touched the polyline within the tolerance of its round, and no id is invented. */
  ghost predicate Joining(points: seq<Point>, prox: real, lines: seq<seq<nat>>, h: History, rest: seq<seq<nat>>) {
    lines != [] && |h.chains| == |h.order| + 1 && h.chains[0] == lines[0] &&
    multiset(h.order) + multiset(rest) == multiset(lines[1..]) &&
    (forall i :: 0 <= i < |h.order| ==> Fits(points, h.chains[i], h.order[i], Tolerance(prox, i + 1))) &&
    forall i :: 0 <= i < |h.chains| ==> IdsOfLines(h.chains[i], [lines[0]] + h.order[..i])
  }

  function Extended(h: History, s: seq<nat>, line: seq<nat>): History {
    History(h.chains + [s], h.order + [line])
  }

  lemma NothingJoinedYet(points: seq<Point>, prox: real, lines: seq<seq<nat>>)
    requires lines != []
    ensures Joining(points, prox, lines, History([lines[0]], []), lines[1..])
  {
    assert [lines[0]] + [][..0] == [lines[0]];
    assert lines[0] in [lines[0]];
  }

  lemma JoinedOneMore(points: seq<Point>, prox: real, lines: seq<seq<nat>>, h: History, rest: seq<seq<nat>>, k: nat,
        s: seq<nat>)
    requires Joining(points, prox, lines, h, rest) && k < |rest|
    requires Fits(points, h.Last(), rest[k], Tolerance(prox, |h.order| + 1))
    requires forall id :: id in s ==> id in h.Last() || id in rest[k]
    ensures Joining(points, prox, lines, Extended(h, s, rest[k]), rest[..k] + rest[k + 1..])
  {
    hide Fits, Tolerance;
    var h' := Extended(h, s, rest[k]);
    var n := |h.order|;
    assert rest == rest[..k] + [rest[k]] + rest[k + 1..];
    assert [lines[0]] + h'.order[..n + 1] == [lines[0]] + h.order[..n] + [rest[k]];
    forall id | id in s
      ensures exists l :: l in [lines[0]] + h'.order[..n + 1] && id in l
    {
      if id in rest[k] {
        assert rest[k] in [lines[0]] + h'.order[..n + 1];
      } else {
        var l :| l in [lines[0]] + h.order[..n] && id in l;
        assert l in [lines[0]] + h'.order[..n + 1];
      }
    }
    forall i | 0 <= i < |h.chains|
      ensures [lines[0]] + h'.order[..i] == [lines[0]] + h.order[..i]
    {
    }
  }

  /** One polyline out of several that are connected at their ends, or null if some are left over.
      With prox zero no edge is lost and none is invented, whichever way the lines are turned, and the
      lines that are left over, if they are over the same points, do not touch what was joined so far.
      Over the same points, the ends of the lines and their order decide whether all of them join.
      With any prox, the history says which line was joined in which round, and within which tolerance. */
  method ConstructPolylineFromSegments(plyVec: seq<Polyline>, prox: real, ghost lines: seq<seq<nat>>)
    returns (r: Polyline?, ghost h: History, ghost left: seq<Polyline>, ghost rest: seq<seq<nat>>)
    requires plyVec != [] && Pending(plyVec, lines)
    ensures Joining(plyVec[0].points, prox, lines, h, rest)
    ensures Pending(left, rest) && forall p :: p in left ==> p in plyVec
    ensures r != null ==> fresh(r) && r.Valid() && r.points == plyVec[0].points && r.ids == h.Last() && left == []
    ensures r == null ==> left != []
    ensures h.Last() != [] && forall i :: 0 <= i < |h.Last()| ==> h.Last()[i] < |plyVec[0].points|
    ensures forall p :: p in left && p.points == plyVec[0].points ==>
      !Touch(plyVec[0].points, h.Last(), p.ids, Tolerance(prox, |h.order| + 1))
    ensures prox == 0.0 ==> Edges(h.Last()) + AllEdges(rest) == AllEdges(lines)
    ensures prox == 0.0 && (forall p :: p in plyVec ==> p.points == plyVec[0].points) ==> JoinsIff(lines, r != null)
  {
    hide Connected, NoJunction, Joining, Tolerance, Progress, Pending, Edges, AllEdges, Touch, Fits, Sq, EndsOf,
      EndsOfAll, AllJoin, FirstMeeting, Joined, JoinsIff, Polyline.Valid, Polyline.PrefixSums, Polyline.InPoints,
      History.Last;
    ghost var points := plyVec[0].points;
    ghost var same := prox == 0.0 && forall p :: p in plyVec ==> p.points == points;
    Erased(plyVec, plyVec, 0, lines);
    h := Start(points, prox, lines, same);
    var newPly := new Polyline.Copy(plyVec[0]);
    var local := plyVec[1..];
    rest := lines[1..];
    var proximity := prox;
    assert plyVec[..0] + plyVec[1..] == plyVec[1..] && lines[..0] + lines[1..] == lines[1..];
    while local != []
      invariant fresh(newPly) && newPly.Valid() && newPly.points == points && newPly.ids == h.Last() != []
      invariant Pending(local, rest) && forall p :: p in local ==> p in plyVec
      invariant proximity == Tolerance(prox, |h.order|) && Progress(points, prox, lines, same, h, rest)
      decreases |local|
    {
      // squared once more in every round
      NextRound(prox, |h.order|);
      proximity := Sq(proximity);
      var plyFound, it;
      newPly, plyFound, it := FindAndJoin(newPly, local, proximity, rest);
      if plyFound {
        Erased(plyVec, local, it, rest);
        Progressed(points, prox, lines, same, h, rest, it, newPly.ids);
        h := Extended(h, newPly.ids, rest[it]);
        local := local[..it] + local[it + 1..];
        rest := rest[..it] + rest[it + 1..];
      } else {
        IdsInPoints(newPly);
        LeftOver(prox, lines, same, newPly, local, rest, h);
        return null, h, local, rest;
      }
    }
    NothingLeftOver(prox, lines, same, newPly, rest, h);
    return newPly, h, [], [];
  }

  /** What is kept while lines are joined, with any tolerance and with tolerance zero. */
  ghost predicate Progress(points: seq<Point>, prox: real, lines: seq<seq<nat>>, same: bool, h: History,
    rest: seq<seq<nat>>)
  {
    Joining(points, prox, lines, h, rest) && (prox == 0.0 ==> SoFar(lines, same, h.Last(), rest))
  }

  lemma Start(points: seq<Point>, prox: real, lines: seq<seq<nat>>, same: bool) returns (h: History)
    requires lines != []
    ensures Progress(points, prox, lines, same, h, lines[1..]) && h.Last() == lines[0]
    ensures Tolerance(prox, |h.order|) == prox
  {
    hide SoFar, Joining;
    h := History([lines[0]], []);
    NothingJoined(lines, same);
    NothingJoinedYet(points, prox, lines);
  }

  lemma NextRound(prox: real, n: nat)
    ensures Tolerance(prox, n + 1) == Sq(Tolerance(prox, n))
    ensures prox == 0.0 ==> Tolerance(prox, n + 1) == 0.0
  {
    if prox == 0.0 {
      FixedTolerance(prox, n + 1);
    }
  }

  lemma Progressed(points: seq<Point>, prox: real, lines: seq<seq<nat>>, same: bool, h: History, rest: seq<seq<nat>>,
        k: nat, s: seq<nat>)
    requires Progress(points, prox, lines, same, h, rest) && k < |rest|
    requires Fits(points, h.Last(), rest[k], Tolerance(prox, |h.order| + 1))
    requires forall id :: id in s ==> id in h.Last() || id in rest[k]
    requires prox == 0.0 ==> Edges(s) == Edges(h.Last()) + Edges(rest[k])
    requires same ==> prox == 0.0 && k == FirstMeeting(EndsOf(h.Last()), EndsOfAll(rest))
    requires same ==> EndsOf(s) == Joined(EndsOf(h.Last()), EndsOf(rest[k]))
    ensures Progress(points, prox, lines, same, Extended(h, s, rest[k]), rest[..k] + rest[k + 1..])
    ensures Extended(h, s, rest[k]).Last() == s && |Extended(h, s, rest[k]).order| == |h.order| + 1
  {
    hide Joining, SoFar, Fits, Edges, EndsOf, EndsOfAll, FirstMeeting, Joined, Tolerance;
    JoinedOneMore(points, prox, lines, h, rest, k, s);
    if prox == 0.0 {
      JoinedSoFar(lines, same, h.Last(), rest, k, s);
    }
  }

  lemma EndsDecide(lines: seq<seq<nat>>)
    requires lines != []
    ensures AllJoin(EndsOf(lines[0]), EndsOfAll(lines[1..])) ==> Connected(EndsOfAll(lines))
    ensures NoJunction(EndsOfAll(lines)) ==>
      (AllJoin(EndsOf(lines[0]), EndsOfAll(lines[1..])) <==> Connected(EndsOfAll(lines)))
  {
    assert EndsOfAll(lines) == [EndsOf(lines[0])] + EndsOfAll(lines[1..]);
    AllJoinIffConnected(EndsOf(lines[0]), EndsOfAll(lines[1..]));
  }

  lemma LeftOver(prox: real, lines: seq<seq<nat>>, same: bool, ply: Polyline, local: seq<Polyline>,
        rest: seq<seq<nat>>, h: History)
    requires Progress(ply.points, prox, lines, same, h, rest) && local != [] && Pending(local, rest)
    requires ply.Valid() && ply.ids == h.Last() != [] && lines != []
    requires forall i :: 0 <= i < |ply.ids| ==> ply.ids[i] < |ply.points|
    requires forall i :: 0 <= i < |local| && local[i].points == ply.points ==>
      !Touch(ply.points, ply.ids, local[i].ids, Tolerance(prox, |h.order| + 1))
    ensures Joining(ply.points, prox, lines, h, rest)
    ensures forall p :: p in local && p.points == ply.points ==>
      !Touch(ply.points, h.Last(), p.ids, Tolerance(prox, |h.order| + 1))
    ensures prox == 0.0 ==> Edges(h.Last()) + AllEdges(rest) == AllEdges(lines)
    ensures same && prox == 0.0 && (forall p :: p in local ==> p.points == ply.points) ==> JoinsIff(lines, false)
  {
    hide Touch, Joining, Edges, EndsOf, EndsOfAll, AllJoin, AllEdges, Polyline.PrefixSums, Connected, NoJunction;
    NextRound(prox, |h.order|);
    hide Tolerance;
    EndsDecide(lines);
    if same && prox == 0.0 && forall p :: p in local ==> p.points == ply.points {
      NoneTouches(ply.points, ply.ids, local, rest);
    }
  }

  lemma NothingLeftOver(prox: real, lines: seq<seq<nat>>, same: bool, ply: Polyline, rest: seq<seq<nat>>, h: History)
    requires Progress(ply.points, prox, lines, same, h, rest) && Pending([], rest) && lines != []
    requires ply.Valid() && ply.ids == h.Last()
    ensures rest == [] && Joining(ply.points, prox, lines, h, [])
    ensures forall i :: 0 <= i < |h.Last()| ==> h.Last()[i] < |ply.points|
    ensures prox == 0.0 ==> Edges(h.Last()) + AllEdges([]) == AllEdges(lines)
    ensures same && prox == 0.0 ==> JoinsIff(lines, true)
  {
    hide Joining, Edges, EndsOf, AllEdges, Polyline.PrefixSums, Connected, NoJunction;
    IdsInPoints(ply);
    EndsDecide(lines);
  }

  /** Whether lines over the same points were joined to one, with tolerance zero: the ends decide. */
  ghost predicate JoinsIff(lines: seq<seq<nat>>, joined: bool)
    requires lines != []
  {
    (joined <==> AllJoin(EndsOf(lines[0]), EndsOfAll(lines[1..]))) &&
    (joined ==> Connected(EndsOfAll(lines))) &&
    (NoJunction(EndsOfAll(lines)) ==> (joined <==> Connected(EndsOfAll(lines))))
  }

  /** Lines none of which touches the polyline are not joined. */
  lemma NoneTouches(points: seq<Point>, s: seq<nat>, local: seq<Polyline>, rest: seq<seq<nat>>)
    requires s != [] && local != [] && Pending(local, rest) && forall i :: 0 <= i < |s| ==> s[i] < |points|
    requires forall i :: 0 <= i < |local| ==> local[i].points == points && !Touch(points, s, local[i].ids, 0.0)
    ensures !AllJoin(EndsOf(s), EndsOfAll(rest))
  {
    hide Touch, EndsOf, Meet, Polyline.PrefixSums;
    forall i | 0 <= i < |rest|
      ensures !Meet(EndsOf(s), EndsOfAll(rest)[i])
    {
      assert local[i].InPoints(rest[i]);
      TouchIffMeet(points, s, rest[i]);
    }
  }

  /** Joins the first line that touches an end of the polyline. */
  method FindAndJoin(ply: Polyline, local: seq<Polyline>, prox: real, ghost rest: seq<seq<nat>>)
    returns (joined: Polyline, found: bool, it: nat)
    requires ply.Valid() && ply.ids != [] && Pending(local, rest) && ply !in local
    modifies ply
    ensures Pending(local, rest) && (joined == ply || fresh(joined))
    ensures joined.Valid() && joined.ids != [] && joined.points == ply.points
    ensures found ==> it < |local| && (prox == 0.0 ==> Edges(joined.ids) == old(Edges(ply.ids)) + Edges(rest[it]))
    ensures found ==> Fits(ply.points, old(ply.ids), rest[it], prox)
    ensures found ==> forall id :: id in joined.ids ==> id in old(ply.ids) || id in rest[it]
    // the first line that meets the polyline
    ensures found && prox == 0.0 && (forall p :: p in local ==> p.points == ply.points) ==>
      EndsOf(joined.ids) == Joined(old(EndsOf(ply.ids)), EndsOf(rest[it])) &&
      it == FirstMeeting(old(EndsOf(ply.ids)), EndsOfAll(rest))
    ensures !found ==>
      joined == ply && unchanged(ply) && forall i :: 0 <= i < |local| && local[i].points == ply.points ==>
      !Touch(ply.points, ply.ids, local[i].ids, prox)
  {
    hide Edges, Touch, Polyline.PrefixSums, EndsOf, EndsOfAll, Joined, FirstMeeting;
    ghost var s := ply.ids;
    IdsInPoints(ply);
    it := 0;
    while it < |local|
      invariant it <= |local| && unchanged(ply)
      invariant forall i :: 0 <= i < it && local[i].points == ply.points ==>
        !Touch(ply.points, ply.ids, local[i].ids, prox)
    {
      assert local[it] in local;
      if ply.points == local[it].points {
        IdsInPoints(local[it]);
        joined, found := Join(ply, local[it], prox);
        if found {
          if prox == 0.0 && forall p :: p in local ==> p.points == ply.points {
            FirstTouching(joined.points, s, rest, it);
          }
          return;
        }
      }
      it := it + 1;
    }
    return ply, false, it;
  }

  /** With tolerance zero, the first line that touches is the first one that meets. */
  lemma FirstTouching(points: seq<Point>, s: seq<nat>, rest: seq<seq<nat>>, it: nat)
    requires s != [] && it < |rest| && forall i :: 0 <= i < |s| ==> s[i] < |points|
    requires forall i :: 0 <= i <= it ==> rest[i] != [] && forall j :: 0 <= j < |rest[i]| ==> rest[i][j] < |points|
    requires Touch(points, s, rest[it], 0.0) && forall i :: 0 <= i < it ==> !Touch(points, s, rest[i], 0.0)
    ensures FirstMeeting(EndsOf(s), EndsOfAll(rest)) == it
  {
    hide Touch, EndsOf, Meet;
    forall i | 0 <= i <= it
      ensures Touch(points, s, rest[i], 0.0) <==> Meet(EndsOf(s), EndsOf(rest[i]))
    {
      TouchIffMeet(points, s, rest[i]);
    }
    var k := FirstMeeting(EndsOf(s), EndsOfAll(rest));
    assert EndsOfAll(rest)[it] == EndsOf(rest[it]) && (k < it ==> EndsOfAll(rest)[k] == EndsOf(rest[k]));
  }

  lemma IdsInPoints(p: Polyline)
    requires p.Valid()
    ensures forall i :: 0 <= i < |p.ids| ==> p.ids[i] < |p.points|
  {
    assert p.InPoints(p.ids);
  }

  lemma Erased(plyVec: seq<Polyline>, local: seq<Polyline>, it: nat, rest: seq<seq<nat>>)
    requires Pending(local, rest) && it < |local| && forall p :: p in local ==> p in plyVec
    ensures |rest| == |local| && local[it].ids == rest[it] && local[it].Valid() && rest[it] != []
    ensures Pending(local[..it] + local[it + 1..], rest[..it] + rest[it + 1..])
    ensures forall p :: p in local[..it] + local[it + 1..] ==> p in plyVec
  {
    hide Polyline.Valid;
  }

  method LineOfTwo(points: seq<Point>, root: real -> real, i: nat, j: nat) returns (p: Polyline)
    requires i < |points| && j < |points| && i != j
    ensures fresh(p) && p.Valid() && p.points == points && p.ids == [i, j]
  {
    p := new Polyline(points, root);
    var _ := p.AddPoint(i);
    var _ := p.AddPoint(j);
  }

  ghost predicate AreSegments(points: seq<Point>, lines: seq<Polyline>, ends: seq<Ends>)
    reads lines
  {
    |lines| == |ends| && forall i :: 0 <= i < |lines| ==>
      lines[i].Valid() && lines[i].points == points && lines[i].ids == [ends[i].first, ends[i].last]
  }

  lemma SegmentsPending(points: seq<Point>, lines: seq<Polyline>, ends: seq<Ends>, ids: seq<seq<nat>>)
    requires AreSegments(points, lines, ends) && |ids| == |ends| > 0
    requires forall i :: 0 <= i < |ids| ==> ids[i] == [ends[i].first, ends[i].last]
    ensures Pending(lines, ids) && EndsOf(ids[0]) == ends[0] && EndsOfAll(ids[1..]) == ends[1..]
    ensures forall p :: p in lines ==> p.points == points
  {
    hide Polyline.Valid;
  }

  /** Joins lines of two points each. */
  method JoinSegments(points: seq<Point>, root: real -> real, ends: seq<Ends>) returns (r: Polyline?)
    requires ends != [] && forall e :: e in ends ==> e.first < |points| && e.last < |points| && e.first != e.last
    ensures r != null <==> AllJoin(ends[0], ends[1..])
  {
    hide Edges, AllEdges, Touch, AllJoin, EndsOfAll, EndsOf, Pending, Polyline.Valid;
    var lines: seq<Polyline> := [];
    for k := 0 to |ends|
      invariant AreSegments(points, lines, ends[..k])
    {
      assert ends[k] in ends;
      var line := LineOfTwo(points, root, ends[k].first, ends[k].last);
      lines := lines + [line];
    }
    assert ends[..|ends|] == ends;
    ghost var ids := seq(|ends|, i requires 0 <= i < |ends| => [ends[i].first, ends[i].last]);
    SegmentsPending(points, lines, ends, ids);
    ghost var h, left, rest;
    hide AreSegments, Joining;
    r, h, left, rest := ConstructPolylineFromSegments(lines, 0.0, ids);
  }

  /** Whether lines that come together at a junction join depends on their order. */
  method JoinAtJunction(points: seq<Point>, root: real -> real) returns (stuck: Polyline?, whole: Polyline?)
    requires |points| == 4
    ensures stuck == null && whole != null
  {
    hide AllJoin;
    var a, b, c, d := Ends(0, 1), Ends(1, 2), Ends(1, 3), Ends(3, 1);
    OrderMatters();
    assert [a, b, c, d][1..] == [b, c, d] && [a, c, d, b][1..] == [c, d, b];
    stuck := JoinSegments(points, root, [a, b, c, d]);
    whole := JoinSegments(points, root, [a, c, d, b]);
  }

  /** Three lines with gaps of 0.4 between them, given in order, are not joined with the tolerance 0.5: it is squared
      again for the second gap. */
  method ToleranceShrinks(root: real -> real) returns (r: Polyline?)
    ensures r == null
  {
    var points := PointsOnAxis();
    var a := LineOfTwo(points, root, 0, 1);
    var b := LineOfTwo(points, root, 2, 3);
    var c := LineOfTwo(points, root, 4, 5);
    ghost var lines := [[0, 1], [2, 3], [4, 5]];
    hide Joining, Edges, AllEdges, JoinsIff, Polyline.Valid, Tolerance, Touch;
    ghost var h, left, rest;
    r, h, left, rest := ConstructPolylineFromSegments([a, b, c], 0.5, lines);
    if r != null {
      TooFar(points, h, rest);
    }
  }

  ghost predicate OnAxis(points: seq<Point>) {
    |points| == 6 && points[0].pos == Vec(0.0, 0.0, 0.0) && points[1].pos == Vec(1.0, 0.0, 0.0) &&
    points[2].pos == Vec(1.4, 0.0, 0.0) && points[3].pos == Vec(2.4, 0.0, 0.0) &&
    points[4].pos == Vec(2.8, 0.0, 0.0) && points[5].pos == Vec(3.8, 0.0, 0.0)
  }

  method PointsOnAxis() returns (points: seq<Point>)
    ensures OnAxis(points)
  {
    var p0 := new Point(Vec(0.0, 0.0, 0.0), 0);
    var p1 := new Point(Vec(1.0, 0.0, 0.0), 1);
    var p2 := new Point(Vec(1.4, 0.0, 0.0), 2);
    var p3 := new Point(Vec(2.4, 0.0, 0.0), 3);
    var p4 := new Point(Vec(2.8, 0.0, 0.0), 4);
    var p5 := new Point(Vec(3.8, 0.0, 0.0), 5);
    points := [p0, p1, p2, p3, p4, p5];
  }

  /** In the second round the tolerance is 0.0625, and no two ends of different lines are that close. */
  lemma TooFar(points: seq<Point>, h: History, rest: seq<seq<nat>>)
    requires OnAxis(points) && Joining(points, 0.5, [[0, 1], [2, 3], [4, 5]], h, rest)
    ensures rest != []
  {
    hide OnAxis, Touch, Tolerance;
    if rest == [] {
      var a, b := SecondRound(points, h);
      hide Joining, Fits;
      forall id | id in h.chains[1]
        ensures id < 6 && id / 2 != b[0] / 2
      {
        var l :| l in [[0, 1], a] && id in l;
      }
      NotTouching(points, h.chains[1], b);
    }
  }

  lemma SecondRound(points: seq<Point>, h: History) returns (a: seq<nat>, b: seq<nat>)
    requires Joining(points, 0.5, [[0, 1], [2, 3], [4, 5]], h, [])
    ensures (a == [2, 3] && b == [4, 5]) || (a == [4, 5] && b == [2, 3])
    ensures |h.chains| == 3 && Fits(points, h.chains[1], b, 0.0625) && IdsOfLines(h.chains[1], [[0, 1], a])
    ensures h.chains[1] != []
  {
    hide Touch, Tolerance, IdsOfLines;
    a, b := BothJoined(h);
    TwoRounds(0.5);
    assert Sq(Sq(0.5)) == 0.0625;
    assert [[0, 1]] + h.order[..1] == [[0, 1], a];
  }

  lemma BothJoined(h: History) returns (a: seq<nat>, b: seq<nat>)
    requires multiset(h.order) == multiset([[0, 1], [2, 3], [4, 5]][1..])
    ensures h.order == [a, b] && ((a == [2, 3] && b == [4, 5]) || (a == [4, 5] && b == [2, 3]))
  {
    assert [[0, 1], [2, 3], [4, 5]][1..] == [[2, 3], [4, 5]];
    assert |multiset(h.order)| == 2;
    a, b := h.order[0], h.order[1];
    assert a in multiset(h.order) && b in multiset(h.order);
    assert h.order == [a, b];
    assert multiset([a, b]) == multiset{a, b};
    assert multiset([[2, 3], [4, 5]])[[2, 3]] == 1 && multiset([[2, 3], [4, 5]])[[4, 5]] == 1;
  }

  lemma Apart(points: seq<Point>, i: nat, j: nat)
    requires OnAxis(points) && i < 6 && j < 6 && i / 2 != j / 2
    ensures !PointsAreIdentical(points, i, j, 0.0625)
  {
    var d := points[i].pos.x - points[j].pos.x;
    assert d <= -0.4 || d >= 0.4;
    SquareAtLeast(d);
    assert SqrDist(points[i].pos, points[j].pos) == d * d;
  }

  lemma SquareAtLeast(d: real)
    requires d <= -0.4 || d >= 0.4
    ensures d * d > 0.0625
  {
  }

  lemma NotTouching(points: seq<Point>, s: seq<nat>, line: seq<nat>)
    requires OnAxis(points) && s != [] && |line| == 2 && line[0] / 2 == line[1] / 2 && line[0] < 6 && line[1] < 6
    requires forall id :: id in s ==> id < 6 && id / 2 != line[0] / 2
    ensures !Fits(points, s, line, 0.0625)
  {
    assert |points| == 6;
    assert s[0] in s && s[|s| - 1] in s;
    hide PointsAreIdentical, OnAxis;
    Apart(points, s[0], line[0]);
    Apart(points, s[0], line[1]);
    Apart(points, s[|s| - 1], line[0]);
    Apart(points, s[|s| - 1], line[1]);
  }
}
