/** Merging geometries: all points go into one vector of unique points, and the ids of polylines and
    triangles are carried over. */
module Merge {
  import opened Common
  import opened Space
  import opened Trees = OctTree
  import opened Vectors = PointVec
  import opened Lines = Polyline

  datatype Triangle = Triangle(a: nat, b: nat, c: nat)

  /** What is registered under a name: nothing, stations, or points with polylines and surfaces over them. */
  datatype Geometry =
    | Missing
    | Stations(stations: seq<Point>)
    | Points(points: seq<Point>, polylines: seq<seq<nat>>, surfaces: seq<seq<Triangle>>)
  {
    /** Ids are ids of points, and a point vector is never empty. */
    ghost predicate Valid() {
      Points? ==>
        points != [] &&
        (forall k, i :: 0 <= k < |polylines| && 0 <= i < |polylines[k]| ==> polylines[k][i] < |points|) &&
        forall k, i :: 0 <= k < |surfaces| && 0 <= i < |surfaces[k]| ==>
          surfaces[k][i].a < |points| && surfaces[k][i].b < |points| && surfaces[k][i].c < |points|
    }
  }

  // ---- offsets ----

  /** The points of the first n geometries one after the other. */
  ghost function AllPoints(geos: seq<Geometry>, n: nat): seq<Point>
    requires n <= |geos|
  {
    if n == 0 then [] else AllPoints(geos, n - 1) + if geos[n - 1].Points? then geos[n - 1].points else []
  }

  /** The offset of a geometry as it is computed: a skipped geometry hands nothing on. */
  ghost function Offset(geos: seq<Geometry>, j: nat): nat
    requires j <= |geos|
  {
    if j > 0 && geos[j - 1].Points? then Offset(geos, j - 1) + |geos[j - 1].points| else 0
  }

  /** No geometry is skipped between two that are merged. */
  ghost predicate Contiguous(geos: seq<Geometry>) {
    forall i, k, j :: 0 <= i < k < j < |geos| && geos[i].Points? && geos[j].Points? ==> geos[k].Points?
  }

  /** The offset is right if it is the number of points in front. */
  ghost predicate OffsetRight(geos: seq<Geometry>, j: nat)
    requires j < |geos|
  {
    geos[j].Points? ==> Offset(geos, j) == |AllPoints(geos, j)|
  }

  lemma {:induction false} NoPointsBefore(geos: seq<Geometry>, j: nat)
    requires j <= |geos| && forall i :: 0 <= i < |geos| ==> geos[i].Valid()
    ensures AllPoints(geos, j) == [] <==> forall i :: 0 <= i < j ==> !geos[i].Points?
  {
    if j > 0 {
      NoPointsBefore(geos, j - 1);
    }
  }

  /** In a contiguous list the offsets are right, even behind the last merged geometry. */
  lemma {:induction false} ContiguousOffsets(geos: seq<Geometry>, j: nat)
    requires j < |geos| && Contiguous(geos) && forall i :: 0 <= i < |geos| ==> geos[i].Valid()
    ensures OffsetRight(geos, j)
  {
    if j > 0 && geos[j].Points? {
      if geos[j - 1].Points? {
        ContiguousOffsets(geos, j - 1);
      } else {
        NoPointsBefore(geos, j);
      }
    }
  }

  /** All offsets are right iff no geometry is skipped between two that are merged. */
  lemma OffsetsRightIff(geos: seq<Geometry>)
    requires forall i :: 0 <= i < |geos| ==> geos[i].Valid()
    ensures (forall j :: 0 <= j < |geos| ==> OffsetRight(geos, j)) <==> Contiguous(geos)
  {
    if Contiguous(geos) {
      forall j | 0 <= j < |geos|
        ensures OffsetRight(geos, j)
      {
        ContiguousOffsets(geos, j);
      }
    } else {
      var i, k, j :| 0 <= i < k < j < |geos| && geos[i].Points? && geos[j].Points? && !geos[k].Points?;
      var first := FirstMergedAfter(geos, k, j);
      NoPointsBefore(geos, first);
      assert !OffsetRight(geos, first);
    }
  }

  lemma {:induction false} FirstMergedAfter(geos: seq<Geometry>, k: nat, j: nat) returns (first: nat)
    requires k < j < |geos| && !geos[k].Points? && geos[j].Points?
    ensures k < first <= j && geos[first].Points? && !geos[first - 1].Points?
    decreases j
  {
    first := j;
    if geos[j - 1].Points? {
      first := FirstMergedAfter(geos, k, j - 1);
    }
  }

  /** The smallest list whose offsets are wrong: points, nothing, points. */
  lemma WrongOffset(p: Point, q: Point)
    ensures var geos := [Points([p], [], []), Missing, Points([q], [], [])];
      Offset(geos, 2) == 0 && |AllPoints(geos, 2)| == 1
  {
    var geos := [Points([p], [], []), Missing, Points([q], [], [])];
    assert AllPoints(geos, 0) == [] && AllPoints(geos, 1) == [p] && AllPoints(geos, 2) == [p];
  }

  // ---- points ----

  /** The ids the copies of the first n geometries' points are given. */
  ghost function CopyIds(geos: seq<Geometry>, n: nat): seq<nat>
    requires n <= |geos|
    ensures |CopyIds(geos, n)| == |AllPoints(geos, n)|
  {
    if n == 0 then [] else
      CopyIds(geos, n - 1) + if geos[n - 1].Points? then seq(|geos[n - 1].points|, k => Offset(geos, n - 1) + k) else []
  }

  /** Copies of points: same places, given ids. */
  ghost predicate Copies(merged: seq<Point>, points: seq<Point>, ids: seq<nat>)
    reads merged
  {
    |merged| == |points| == |ids| && Distinct(merged) &&
    forall i :: 0 <= i < |merged| ==> merged[i].pos == points[i].pos && merged[i].id == ids[i]
  }

  /** Copies the points of all geometries, except stations, and computes the offsets. */
  method CopyPoints(geos: seq<Geometry>) returns (merged: seq<Point>, offsets: seq<nat>)
    ensures Copies(merged, AllPoints(geos, |geos|), CopyIds(geos, |geos|)) && fresh(set p | p in merged)
    ensures |offsets| == |geos| && forall j :: 0 <= j < |geos| ==> offsets[j] == Offset(geos, j)
  {
    var n := |geos|;
    offsets := seq(n, _ => 0);
    merged := [];
    for j := 0 to n
      invariant |offsets| == n && (forall i :: 0 <= i < n && i <= j ==> offsets[i] == Offset(geos, i))
      invariant forall i :: j < i < n ==> offsets[i] == 0
      invariant Copies(merged, AllPoints(geos, j), CopyIds(geos, j)) && fresh(set p | p in merged)
    {
      match geos[j]
      case Missing =>
      case Stations(_) =>
      case Points(points, _, _) =>
        merged := CopyAll(points, offsets[j], merged, AllPoints(geos, j), CopyIds(geos, j));
        if n - 1 > j {
          offsets := offsets[j + 1 := |points| + offsets[j]];
        }
    }
  }

  method CopyAll(points: seq<Point>, offset: nat, before: seq<Point>, ghost p: seq<Point>, ghost ids: seq<nat>)
    returns (merged: seq<Point>)
    requires Copies(before, p, ids)
    ensures Copies(merged, p + points, ids + seq(|points|, k => offset + k))
    ensures forall q :: q in merged ==> q in before || fresh(q)
  {
    merged := before;
    for k := 0 to |points|
      invariant Copies(merged, p + points[..k], ids + seq(k, i => offset + i))
      invariant forall q :: q in merged ==> q in before || fresh(q)
    {
      var q := new Point(points[k].pos, offset + k);
      merged := merged + [q];
    }
    assert points[..|points|] == points;
  }

  lemma {:induction false} ContiguousIds(geos: seq<Geometry>, n: nat)
    requires n <= |geos| && Contiguous(geos) && forall i :: 0 <= i < |geos| ==> geos[i].Valid()
    ensures forall i :: 0 <= i < |CopyIds(geos, n)| ==> CopyIds(geos, n)[i] == i
  {
    if n > 0 {
      ContiguousIds(geos, n - 1);
      ContiguousOffsets(geos, n - 1);
    }
  }

  lemma {:induction false} PointAt(geos: seq<Geometry>, n: nat, j: nat, k: nat)
    requires j < n <= |geos| && geos[j].Points? && k < |geos[j].points|
    ensures |AllPoints(geos, j)| + k < |AllPoints(geos, n)| &&
      AllPoints(geos, n)[|AllPoints(geos, j)| + k] == geos[j].points[k]
  {
    if j < n - 1 {
      PointAt(geos, n - 1, j, k);
    }
  }

  /** Every point of the vector is at the position of a point of some geometry. */
  ghost predicate Stem(geos: seq<Geometry>, data: seq<Point>) {
    forall p :: p in data ==> exists j, k :: IsAt(geos, j, k, p.pos)
  }

  ghost predicate IsAt(geos: seq<Geometry>, j: int, k: int, pos: Vec) {
    0 <= j < |geos| && geos[j].Points? && 0 <= k < |geos[j].points| && geos[j].points[k].pos == pos
  }

  lemma {:induction false} PointFrom(geos: seq<Geometry>, n: nat, i: nat) returns (j: nat, k: nat)
    requires n <= |geos| && i < |AllPoints(geos, n)|
    ensures j < n && geos[j].Points? && k < |geos[j].points| && geos[j].points[k] == AllPoints(geos, n)[i]
  {
    if i < |AllPoints(geos, n - 1)| {
      j, k := PointFrom(geos, n - 1, i);
    } else {
      j, k := n - 1, i - |AllPoints(geos, n - 1)|;
    }
  }

  lemma CopiesStem(geos: seq<Geometry>, merged: seq<Point>, data: seq<Point>)
    requires |merged| == |AllPoints(geos, |geos|)| && forall p :: p in data ==> p in merged
    requires forall i :: 0 <= i < |merged| ==> merged[i].pos == AllPoints(geos, |geos|)[i].pos
    ensures Stem(geos, data)
  {
    forall p | p in data
      ensures exists j, k :: IsAt(geos, j, k, p.pos)
    {
      var i :| 0 <= i < |merged| && merged[i] == p;
      var j, k := PointFrom(geos, |geos|, i);
      assert IsAt(geos, j, k, p.pos);
    }
  }

  /** The id names a point of the vector at the position pos or within eps of it. */
  ghost predicate Names(eps: real, data: seq<Point>, id: nat, pos: Vec) {
    id < |data| && (data[id].pos == pos || Conflict(eps, data[id].pos, pos))
  }

  /** The id map at the offset of a geometry names the points of that geometry. */
  ghost predicate Carries(geos: seq<Geometry>, offsets: seq<nat>, eps: real, data: seq<Point>, idMap: seq<nat>) {
    |offsets| == |geos| &&
    forall j, k :: 0 <= j < |geos| && geos[j].Points? && 0 <= k < |geos[j].points| ==>
      CarriesPoint(geos, offsets, eps, data, idMap, j, k)
  }

  ghost predicate CarriesPoint(geos: seq<Geometry>, offsets: seq<nat>, eps: real, data: seq<Point>, idMap: seq<nat>,
    j: nat, k: nat)
    requires j < |geos| == |offsets| && geos[j].Points? && k < |geos[j].points|
  {
    offsets[j] + k < |idMap| && Names(eps, data, idMap[offsets[j] + k], geos[j].points[k].pos)
  }

  lemma MapsCarry(geos: seq<Geometry>, offsets: seq<nat>, eps: real, merged: seq<Point>, data: seq<Point>,
        idMap: seq<nat>)
    requires (forall i :: 0 <= i < |geos| ==> geos[i].Valid()) && Contiguous(geos)
    requires |offsets| == |geos| && forall j :: 0 <= j < |geos| ==> offsets[j] == Offset(geos, j)
    requires |merged| == |AllPoints(geos, |geos|)|
    requires forall i :: 0 <= i < |merged| ==> merged[i].pos == AllPoints(geos, |geos|)[i].pos
    requires Maps(eps, merged, data, idMap)
    ensures Carries(geos, offsets, eps, data, idMap)
  {
    forall j, k | 0 <= j < |geos| && geos[j].Points? && 0 <= k < |geos[j].points|
      ensures CarriesPoint(geos, offsets, eps, data, idMap, j, k)
    {
      PointAt(geos, |geos|, j, k);
      ContiguousOffsets(geos, j);
      hide Conflict;
      assert merged[offsets[j] + k].pos == geos[j].points[k].pos;
    }
  }

  /** One vector of unique points for all geometries. */
  method MergePoints(geos: seq<Geometry>, relEps: real, next: real -> real) returns (v: PointVec, offsets: seq<nat>)
    requires (forall i :: 0 <= i < |geos| ==> geos[i].Valid()) && Contiguous(geos) &&
      (exists i :: 0 <= i < |geos| && geos[i].Points?)
    requires relEps >= 0.0 && forall x :: next(x) > x
    ensures fresh(v) && v.Valid() && v.Complete() && v.relEps == relEps && v.aabb.next == next
    ensures v.tree.eps == (if relEps == 0.0 then EPSILON else relEps) && v.tree.maxPoints == 16
    ensures |offsets| == |geos| && forall j :: 0 <= j < |geos| ==> offsets[j] == Offset(geos, j)
    ensures Carries(geos, offsets, v.tree.eps, v.data, v.idMap) && Stem(geos, v.data)
  {
    hide Maps, Unique, Conflict, PointVec.Valid, PointVec.Complete, Contiguous, Geometry.Valid, Carries, Stem;
    var merged;
    merged, offsets := CopyPoints(geos);
    ContiguousIds(geos, |geos|);
    NoPointsBefore(geos, |geos|);
    v := new PointVec(merged, relEps, next);
    MapsCarry(geos, offsets, v.tree.eps, merged, v.data, v.idMap);
    UniqueIsOrdered(v.tree.eps, merged);
    CopiesStem(geos, merged, v.data);
  }

  // ---- polylines ----

  /** A sequence of ids in which adjacent repeats are collapsed. */
  ghost function Collapsed(ids: seq<nat>): seq<nat> {
    if ids == [] then [] else Appended(Collapsed(ids[..|ids| - 1]), ids[|ids| - 1])
  }

  /** Collapsing removes all repeats and nothing else: same ends, same ids, same edges. */
  lemma {:induction false} CollapsedMeans(ids: seq<nat>)
    ensures NoRepeats(Collapsed(ids)) && Edges(Collapsed(ids)) == Edges(ids)
    ensures SameEndsAndIds(Collapsed(ids), ids)
    ensures NoRepeats(ids) ==> Collapsed(ids) == ids
  {
    hide Edges, Link, NoRepeats, Appended, SameEndsAndIds;
    if ids != [] {
      var front, last := ids[..|ids| - 1], ids[|ids| - 1];
      CollapsedMeans(front);
      EdgesAppended(Collapsed(front), last);
      EdgesAppend(front, last);
      assert front + [last] == ids;
      AppendedMeans(Collapsed(front), front, last);
    } else {
      NothingCollapsed();
    }
  }

  ghost predicate SameEndsAndIds(c: seq<nat>, ids: seq<nat>) {
    (c == [] <==> ids == []) && (forall i :: i in c <==> i in ids) &&
    (ids != [] ==> c != [] && c[0] == ids[0] && c[|c| - 1] == ids[|ids| - 1])
  }

  lemma NothingCollapsed()
    ensures Edges([]) == multiset{} && NoRepeats([]) && SameEndsAndIds([], [])
  {
  }

  lemma AppendedMeans(c: seq<nat>, front: seq<nat>, last: nat)
    requires NoRepeats(c) && SameEndsAndIds(c, front) && (NoRepeats(front) ==> c == front)
    ensures NoRepeats(Appended(c, last)) && SameEndsAndIds(Appended(c, last), front + [last])
    ensures front != [] ==> c[|c| - 1] == front[|front| - 1]
    ensures c == [] <==> front == []
    ensures NoRepeats(front + [last]) ==> Appended(c, last) == front + [last]
  {
    if NoRepeats(front + [last]) {
      forall i | 0 < i < |front|
        ensures front[i - 1] != front[i]
      {
        assert (front + [last])[i - 1] != (front + [last])[i];
      }
      if front != [] {
        assert (front + [last])[|front| - 1] != (front + [last])[|front|];
      }
    }
  }

  /** The ids of a line in the merged vector. */
  ghost function Carried(idMap: seq<nat>, offset: nat, line: seq<nat>): seq<nat>
    requires forall i :: 0 <= i < |line| ==> offset + line[i] < |idMap|
  {
    seq(|line|, i requires 0 <= i < |line| => idMap[offset + line[i]])
  }

  /** The ids of the polylines of the first n geometries, carried over. */
  ghost function MergedLines(geos: seq<Geometry>, offsets: seq<nat>, idMap: seq<nat>, n: nat): seq<seq<nat>>
    requires n <= |geos| == |offsets| && IdsInMap(geos, offsets, idMap)
  {
    if n == 0 then [] else
      MergedLines(geos, offsets, idMap, n - 1) +
      if geos[n - 1].Points?
      then seq(|geos[n - 1].polylines|, k requires 0 <= k < |geos[n - 1].polylines| =>
                 Collapsed(Carried(idMap, offsets[n - 1], geos[n - 1].polylines[k])))
      else []
  }

  ghost predicate IdsInMap(geos: seq<Geometry>, offsets: seq<nat>, idMap: seq<nat>) {
    |geos| == |offsets| &&
    (forall j, k, i ::
       0 <= j < |geos| && geos[j].Points? && 0 <= k < |geos[j].polylines| && 0 <= i < |geos[j].polylines[k]| ==>
         offsets[j] + geos[j].polylines[k][i] < |idMap|) &&
    forall j, k, i ::
      0 <= j < |geos| && geos[j].Points? && 0 <= k < |geos[j].surfaces| && 0 <= i < |geos[j].surfaces[k]| ==>
        offsets[j] + geos[j].surfaces[k][i].a < |idMap| && offsets[j] + geos[j].surfaces[k][i].b < |idMap| &&
        offsets[j] + geos[j].surfaces[k][i].c < |idMap|
  }

  /** The polylines have these ids. */
  ghost predicate HaveIds(plys: seq<Polyline>, data: seq<Point>, lines: seq<seq<nat>>)
    reads plys
  {
    |plys| == |lines| && forall i :: 0 <= i < |plys| ==>
      plys[i].Valid() && plys[i].points == data && plys[i].ids == lines[i]
  }

  /** Copies the polylines of all geometries with the ids carried over. */
  method MergePolylines(geos: seq<Geometry>, offsets: seq<nat>, data: seq<Point>, idMap: seq<nat>, root: real -> real)
    returns (plys: seq<Polyline>)
    requires IdsInMap(geos, offsets, idMap) && forall i :: 0 <= i < |idMap| ==> idMap[i] < |data|
    ensures HaveIds(plys, data, MergedLines(geos, offsets, idMap, |geos|))
    ensures forall p :: p in plys ==> p.root == root
  {
    plys := [];
    hide HaveIds, CarriedOver;
    NoLines(geos, offsets, data, idMap);
    for j := 0 to |geos|
      invariant HaveIds(plys, data, MergedLines(geos, offsets, idMap, j)) && forall p :: p in plys ==> p.root == root
    {
      SkippedLines(geos, offsets, idMap, j);
      match geos[j]
      case Missing =>
      case Stations(_) =>
      case Points(_, polylines, _) =>
        var more := CarryPolylines(polylines, offsets[j], data, idMap, root);
        MoreLines(geos, offsets, data, idMap, j, plys, more);
        plys := plys + more;
    }
  }

  /** The polyline is the image of a line. */
  ghost predicate CarriedOver(ply: Polyline, line: seq<nat>, offset: nat, data: seq<Point>, idMap: seq<nat>)
    requires forall i :: 0 <= i < |line| ==> offset + line[i] < |idMap|
    reads ply
  {
    ply.Valid() && ply.points == data && ply.ids == Collapsed(Carried(idMap, offset, line))
  }

  lemma NoLines(geos: seq<Geometry>, offsets: seq<nat>, data: seq<Point>, idMap: seq<nat>)
    requires IdsInMap(geos, offsets, idMap)
    ensures HaveIds([], data, MergedLines(geos, offsets, idMap, 0))
  {
  }

  lemma SkippedLines(geos: seq<Geometry>, offsets: seq<nat>, idMap: seq<nat>, j: nat)
    requires IdsInMap(geos, offsets, idMap) && j < |geos|
    ensures !geos[j].Points? ==> MergedLines(geos, offsets, idMap, j + 1) == MergedLines(geos, offsets, idMap, j)
  {
  }

  lemma MoreLines(geos: seq<Geometry>, offsets: seq<nat>, data: seq<Point>, idMap: seq<nat>, j: nat,
        plys: seq<Polyline>, more: seq<Polyline>)
    requires IdsInMap(geos, offsets, idMap) && j < |geos| && HaveIds(plys, data, MergedLines(geos, offsets, idMap, j))
    requires geos[j].Points? && |more| == |geos[j].polylines|
    requires forall k :: 0 <= k < |more| ==> CarriedOver(more[k], geos[j].polylines[k], offsets[j], data, idMap)
    ensures HaveIds(plys + more, data, MergedLines(geos, offsets, idMap, j + 1))
  {
    hide Collapsed, Carried, Polyline.Valid;
    var lines, lines' := MergedLines(geos, offsets, idMap, j), MergedLines(geos, offsets, idMap, j + 1);
    forall i | 0 <= i < |plys + more|
      ensures (plys + more)[i].Valid() && (plys + more)[i].points == data && (plys + more)[i].ids == lines'[i]
    {
      if i >= |plys| {
        assert CarriedOver(more[i - |plys|], geos[j].polylines[i - |plys|], offsets[j], data, idMap);
      }
    }
  }

  method CarryPolylines(lines: seq<seq<nat>>, offset: nat, data: seq<Point>, idMap: seq<nat>, root: real -> real)
    returns (plys: seq<Polyline>)
    requires forall k, i :: 0 <= k < |lines| && 0 <= i < |lines[k]| ==> offset + lines[k][i] < |idMap|
    requires forall i :: 0 <= i < |idMap| ==> idMap[i] < |data|
    ensures |plys| == |lines| && forall p :: p in plys ==> p.root == root
    ensures forall k :: 0 <= k < |plys| ==> CarriedOver(plys[k], lines[k], offset, data, idMap)
  {
    hide Polyline.Valid;
    plys := [];
    for k := 0 to |lines|
      invariant |plys| == k && forall l :: 0 <= l < k ==> CarriedOver(plys[l], lines[l], offset, data, idMap)
      invariant forall p :: p in plys ==> p.root == root
    {
      var ply := CarryPolyline(lines[k], offset, data, idMap, root);
      plys := plys + [ply];
    }
  }

  /** A copy of one polyline. */
  method CarryPolyline(line: seq<nat>, offset: nat, data: seq<Point>, idMap: seq<nat>, root: real -> real)
    returns (ply: Polyline)
    requires forall i :: 0 <= i < |line| ==> offset + line[i] < |idMap|
    requires forall i :: 0 <= i < |idMap| ==> idMap[i] < |data|
    ensures fresh(ply) && CarriedOver(ply, line, offset, data, idMap) && ply.root == root
  {
    hide Appended, Polyline.PrefixSums;
    ply := new Polyline(data, root);
    ghost var all := Carried(idMap, offset, line);
    for i := 0 to |line|
      invariant ply.Valid() && fresh(ply) && ply.points == data && ply.ids == Collapsed(all[..i])
    {
      var _ := ply.AddPoint(idMap[offset + line[i]]);
      assert all[..i + 1][..i] == all[..i];
    }
    assert all[..|line|] == all;
  }

  /** The ids are the ends of a line: as many ids as the line has, each naming the point of the line there, with
      adjacent repeats collapsed. */
  ghost predicate FollowsLine(ids: seq<nat>, line: seq<nat>, points: seq<Point>, eps: real, data: seq<Point>) {
    exists named: seq<nat> :: ids == Collapsed(named) && NamesLine(named, line, points, eps, data)
  }

  ghost predicate NamesLine(named: seq<nat>, line: seq<nat>, points: seq<Point>, eps: real, data: seq<Point>) {
    |named| == |line| &&
    forall i :: 0 <= i < |line| ==> line[i] < |points| && Names(eps, data, named[i], points[line[i]].pos)
  }

  /** The number of polylines in front of a geometry. */
  ghost function LinesBefore(geos: seq<Geometry>, n: nat): nat
    requires n <= |geos|
  {
    if n == 0 then 0 else LinesBefore(geos, n - 1) + if geos[n - 1].Points? then |geos[n - 1].polylines| else 0
  }

  /** Polyline k of geometry j has its copy behind those in front, and the copy follows it. */
  ghost predicate LineFollows(geos: seq<Geometry>, plys: seq<Polyline>, eps: real, data: seq<Point>, j: nat, k: nat)
    reads plys
    requires j < |geos| && geos[j].Points? && k < |geos[j].polylines|
  {
    var i := LinesBefore(geos, j) + k;
    i < |plys| && plys[i].points == data &&
    FollowsLine(plys[i].ids, geos[j].polylines[k], geos[j].points, eps, data)
  }

  ghost predicate LinesFollow(geos: seq<Geometry>, plys: seq<Polyline>, eps: real, data: seq<Point>)
    reads plys
  {
    |plys| == LinesBefore(geos, |geos|) &&
    forall j, k :: 0 <= j < |geos| && geos[j].Points? && 0 <= k < |geos[j].polylines| ==>
      LineFollows(geos, plys, eps, data, j, k)
  }

  lemma {:induction false} MergedLineAt(geos: seq<Geometry>, offsets: seq<nat>, idMap: seq<nat>, n: nat, j: nat, k: nat)
    requires n <= |geos| && IdsInMap(geos, offsets, idMap)
    ensures |MergedLines(geos, offsets, idMap, n)| == LinesBefore(geos, n)
    ensures j < n && geos[j].Points? && k < |geos[j].polylines| ==>
      LinesBefore(geos, j) + k < LinesBefore(geos, n) &&
      MergedLines(geos, offsets, idMap, n)[LinesBefore(geos, j) + k] ==
      Collapsed(Carried(idMap, offsets[j], geos[j].polylines[k]))
  {
    hide Collapsed, Carried;
    if n > 0 {
      MergedLineAt(geos, offsets, idMap, n - 1, j, k);
    }
  }

  lemma CarriedFollows(geos: seq<Geometry>, offsets: seq<nat>, eps: real, data: seq<Point>, idMap: seq<nat>, j: nat,
        line: seq<nat>)
    requires Carries(geos, offsets, eps, data, idMap) && j < |geos| && geos[j].Points?
    requires forall i :: 0 <= i < |line| ==> line[i] < |geos[j].points| && offsets[j] + line[i] < |idMap|
    ensures FollowsLine(Collapsed(Carried(idMap, offsets[j], line)), line, geos[j].points, eps, data)
  {
    hide Collapsed, Names;
    forall i | 0 <= i < |line|
      ensures Names(eps, data, idMap[offsets[j] + line[i]], geos[j].points[line[i]].pos)
    {
      assert CarriesPoint(geos, offsets, eps, data, idMap, j, line[i]);
    }
    assert NamesLine(Carried(idMap, offsets[j], line), line, geos[j].points, eps, data);
  }

  lemma MergedLinesFollow(geos: seq<Geometry>, offsets: seq<nat>, eps: real, data: seq<Point>, idMap: seq<nat>,
        plys: seq<Polyline>)
    requires forall i :: 0 <= i < |geos| ==> geos[i].Valid()
    requires Carries(geos, offsets, eps, data, idMap) && IdsInMap(geos, offsets, idMap)
    requires HaveIds(plys, data, MergedLines(geos, offsets, idMap, |geos|))
    ensures LinesFollow(geos, plys, eps, data)
  {
    hide Collapsed, Carried, FollowsLine, Carries, Polyline.Valid;
    MergedLineAt(geos, offsets, idMap, |geos|, 0, 0);
    forall j, k | 0 <= j < |geos| && geos[j].Points? && 0 <= k < |geos[j].polylines|
      ensures LineFollows(geos, plys, eps, data, j, k)
    {
      assert geos[j].Valid();
      MergedLineAt(geos, offsets, idMap, |geos|, j, k);
      CarriedFollows(geos, offsets, eps, data, idMap, j, geos[j].polylines[k]);
    }
  }

  // ---- surfaces ----

  predicate Proper(t: Triangle) {
    t.a != t.b && t.a != t.c && t.b != t.c
  }

  ghost predicate InMap(t: Triangle, offset: nat, idMap: seq<nat>) {
    offset + t.a < |idMap| && offset + t.b < |idMap| && offset + t.c < |idMap|
  }

  ghost function CarriedTriangle(t: Triangle, offset: nat, idMap: seq<nat>): Triangle
    requires InMap(t, offset, idMap)
  {
    Triangle(idMap[offset + t.a], idMap[offset + t.b], idMap[offset + t.c])
  }

  /** The image of a surface: its triangles with the ids carried over, without those whose corners coincide. */
  ghost function Image(surface: seq<Triangle>, offset: nat, idMap: seq<nat>): seq<Triangle>
    requires forall i :: 0 <= i < |surface| ==> InMap(surface[i], offset, idMap)
  {
    if surface == [] then [] else
      var t := CarriedTriangle(surface[|surface| - 1], offset, idMap);
      Image(surface[..|surface| - 1], offset, idMap) + if Proper(t) then [t] else []
  }

  /** Exactly the proper ones among the carried triangles are in the image. */
  lemma {:induction false} ImageMeans(surface: seq<Triangle>, offset: nat, idMap: seq<nat>, t: Triangle)
    requires forall i :: 0 <= i < |surface| ==> InMap(surface[i], offset, idMap)
    ensures t in Image(surface, offset, idMap) <==>
      Proper(t) && exists k :: 0 <= k < |surface| && CarriedTriangle(surface[k], offset, idMap) == t
    ensures t in Image(surface, offset, idMap) ==> t.a != t.b && t.a != t.c && t.b != t.c
  {
    if surface != [] {
      var front := surface[..|surface| - 1];
      ImageMeans(front, offset, idMap, t);
      var last := CarriedTriangle(surface[|surface| - 1], offset, idMap);
      assert Image(surface, offset, idMap) == Image(front, offset, idMap) + if Proper(last) then [last] else [];
      hide Image, Proper, CarriedTriangle;
      if t in Image(front, offset, idMap) {
        var k :| 0 <= k < |front| && CarriedTriangle(front[k], offset, idMap) == t;
        assert surface[k] == front[k];
      }
      if k :| 0 <= k < |front| && CarriedTriangle(surface[k], offset, idMap) == t {
        assert front[k] == surface[k];
      }
    }
  }

  /** Copies a surface; adding a triangle two of whose ids are identical has no effect. */
  method CarrySurface(surface: seq<Triangle>, offset: nat, idMap: seq<nat>) returns (r: seq<Triangle>)
    requires forall i :: 0 <= i < |surface| ==> InMap(surface[i], offset, idMap)
    ensures r == Image(surface, offset, idMap)
  {
    r := [];
    for k := 0 to |surface|
      invariant r == Image(surface[..k], offset, idMap)
    {
      assert InMap(surface[k], offset, idMap);
      var t := Triangle(idMap[offset + surface[k].a], idMap[offset + surface[k].b], idMap[offset + surface[k].c]);
      assert surface[..k + 1][..k] == surface[..k];
      if t.a == t.b || t.a == t.c || t.b == t.c {
        assert !Proper(t);
      } else {
        r := r + [t];
      }
    }
    assert surface[..|surface|] == surface;
  }

  /** The images of the surfaces of the first n geometries. */
  ghost function MergedSurfaces(geos: seq<Geometry>, offsets: seq<nat>, idMap: seq<nat>, n: nat): seq<seq<Triangle>>
    requires n <= |geos| == |offsets| && IdsInMap(geos, offsets, idMap)
  {
    if n == 0 then [] else
      MergedSurfaces(geos, offsets, idMap, n - 1) +
      if geos[n - 1].Points?
      then seq(|geos[n - 1].surfaces|, k requires 0 <= k < |geos[n - 1].surfaces| =>
                 Image(geos[n - 1].surfaces[k], offsets[n - 1], idMap))
      else []
  }

  /** Copies the surfaces of all geometries with the ids carried over. */
  method MergeSurfaces(geos: seq<Geometry>, offsets: seq<nat>, idMap: seq<nat>) returns (r: seq<seq<Triangle>>)
    requires IdsInMap(geos, offsets, idMap)
    ensures r == MergedSurfaces(geos, offsets, idMap, |geos|)
  {
    r := [];
    for j := 0 to |geos|
      invariant r == MergedSurfaces(geos, offsets, idMap, j)
    {
      match geos[j]
      case Missing =>
      case Stations(_) =>
      case Points(_, _, surfaces) =>
        ghost var before := r;
        for k := 0 to |surfaces|
          invariant r == before + seq(k, l requires 0 <= l < k => Image(surfaces[l], offsets[j], idMap))
        {
          var sfc := CarrySurface(surfaces[k], offsets[j], idMap);
          r := r + [sfc];
        }
    }
  }

  /** The triangles whose corners differ. */
  ghost function ProperOnes(ts: seq<Triangle>): seq<Triangle> {
    if ts == [] then [] else
      var t := ts[|ts| - 1];
      ProperOnes(ts[..|ts| - 1]) + if t.a == t.b || t.b == t.c || t.c == t.a then [] else [t]
  }

  /** The triangles are those of a surface with their corners naming the same points, without those whose
      corners coincide. */
  ghost predicate FollowsSurface(r: seq<Triangle>, surface: seq<Triangle>, points: seq<Point>, eps: real,
    data: seq<Point>)
  {
    exists named: seq<Triangle> :: r == ProperOnes(named) && NamesSurface(named, surface, points, eps, data)
  }

  ghost predicate NamesSurface(named: seq<Triangle>, surface: seq<Triangle>, points: seq<Point>, eps: real,
    data: seq<Point>)
  {
    |named| == |surface| && forall i :: 0 <= i < |surface| ==> NamesCorners(named[i], surface[i], points, eps, data)
  }

  ghost predicate NamesCorners(n: Triangle, t: Triangle, points: seq<Point>, eps: real, data: seq<Point>) {
    t.a < |points| && t.b < |points| && t.c < |points| && Names(eps, data, n.a, points[t.a].pos) &&
    Names(eps, data, n.b, points[t.b].pos) && Names(eps, data, n.c, points[t.c].pos)
  }

  /** The number of surfaces in front of a geometry. */
  ghost function SurfacesBefore(geos: seq<Geometry>, n: nat): nat
    requires n <= |geos|
  {
    if n == 0 then 0 else SurfacesBefore(geos, n - 1) + if geos[n - 1].Points? then |geos[n - 1].surfaces| else 0
  }

  /** Surface k of geometry j has its copy behind those in front, and the copy follows it. */
  ghost predicate SurfaceFollows(geos: seq<Geometry>, r: seq<seq<Triangle>>, eps: real, data: seq<Point>, j: nat,
    k: nat)
    requires j < |geos| && geos[j].Points? && k < |geos[j].surfaces|
  {
    var i := SurfacesBefore(geos, j) + k;
    i < |r| && FollowsSurface(r[i], geos[j].surfaces[k], geos[j].points, eps, data)
  }

  ghost predicate SurfacesFollow(geos: seq<Geometry>, r: seq<seq<Triangle>>, eps: real, data: seq<Point>) {
    |r| == SurfacesBefore(geos, |geos|) &&
    forall j, k :: 0 <= j < |geos| && geos[j].Points? && 0 <= k < |geos[j].surfaces| ==>
      SurfaceFollows(geos, r, eps, data, j, k)
  }

  lemma {:induction false} ImageIsProper(surface: seq<Triangle>, offset: nat, idMap: seq<nat>, named: seq<Triangle>)
    requires forall i :: 0 <= i < |surface| ==> InMap(surface[i], offset, idMap)
    requires |named| == |surface|
    requires forall i :: 0 <= i < |surface| ==> named[i] == CarriedTriangle(surface[i], offset, idMap)
    ensures Image(surface, offset, idMap) == ProperOnes(named)
  {
    if surface != [] {
      ImageIsProper(surface[..|surface| - 1], offset, idMap, named[..|named| - 1]);
    }
  }

  lemma {:induction false} MergedSurfaceAt(geos: seq<Geometry>, offsets: seq<nat>, idMap: seq<nat>, n: nat, j: nat,
        k: nat)
    requires n <= |geos| && IdsInMap(geos, offsets, idMap)
    ensures |MergedSurfaces(geos, offsets, idMap, n)| == SurfacesBefore(geos, n)
    ensures j < n && geos[j].Points? && k < |geos[j].surfaces| ==>
      SurfacesBefore(geos, j) + k < SurfacesBefore(geos, n) &&
      (forall i :: 0 <= i < |geos[j].surfaces[k]| ==> InMap(geos[j].surfaces[k][i], offsets[j], idMap)) &&
      MergedSurfaces(geos, offsets, idMap, n)[SurfacesBefore(geos, j) + k] ==
      Image(geos[j].surfaces[k], offsets[j], idMap)
  {
    hide Image;
    if n > 0 {
      MergedSurfaceAt(geos, offsets, idMap, n - 1, j, k);
    }
  }

  lemma CornersNamed(geos: seq<Geometry>, offsets: seq<nat>, eps: real, data: seq<Point>, idMap: seq<nat>, j: nat,
        t: Triangle)
    requires Carries(geos, offsets, eps, data, idMap) && j < |geos| == |offsets| && geos[j].Points?
    requires InMap(t, offsets[j], idMap) && t.a < |geos[j].points| && t.b < |geos[j].points| && t.c < |geos[j].points|
    ensures NamesCorners(CarriedTriangle(t, offsets[j], idMap), t, geos[j].points, eps, data)
  {
    hide Names;
    assert CarriesPoint(geos, offsets, eps, data, idMap, j, t.a);
    assert CarriesPoint(geos, offsets, eps, data, idMap, j, t.b);
    assert CarriesPoint(geos, offsets, eps, data, idMap, j, t.c);
  }

  lemma ImageFollows(geos: seq<Geometry>, offsets: seq<nat>, eps: real, data: seq<Point>, idMap: seq<nat>, j: nat,
        surface: seq<Triangle>)
    requires Carries(geos, offsets, eps, data, idMap) && j < |geos| == |offsets| && geos[j].Points?
    requires forall i :: 0 <= i < |surface| ==> InMap(surface[i], offsets[j], idMap)
    requires forall i :: 0 <= i < |surface| ==>
      surface[i].a < |geos[j].points| && surface[i].b < |geos[j].points| && surface[i].c < |geos[j].points|
    ensures FollowsSurface(Image(surface, offsets[j], idMap), surface, geos[j].points, eps, data)
  {
    hide NamesCorners, Image, CarriedTriangle, Carries;
    var named := seq(|surface|, i requires 0 <= i < |surface| => CarriedTriangle(surface[i], offsets[j], idMap));
    ImageIsProper(surface, offsets[j], idMap, named);
    forall i | 0 <= i < |surface|
      ensures NamesCorners(named[i], surface[i], geos[j].points, eps, data)
    {
      CornersNamed(geos, offsets, eps, data, idMap, j, surface[i]);
    }
    assert NamesSurface(named, surface, geos[j].points, eps, data);
  }

  lemma MergedSurfacesFollow(geos: seq<Geometry>, offsets: seq<nat>, eps: real, data: seq<Point>, idMap: seq<nat>)
    requires forall i :: 0 <= i < |geos| ==> geos[i].Valid()
    requires Carries(geos, offsets, eps, data, idMap) && IdsInMap(geos, offsets, idMap)
    ensures SurfacesFollow(geos, MergedSurfaces(geos, offsets, idMap, |geos|), eps, data)
  {
    hide Image, FollowsSurface, Carries;
    var r := MergedSurfaces(geos, offsets, idMap, |geos|);
    MergedSurfaceAt(geos, offsets, idMap, |geos|, 0, 0);
    forall j, k | 0 <= j < |geos| && geos[j].Points? && 0 <= k < |geos[j].surfaces|
      ensures SurfaceFollows(geos, r, eps, data, j, k)
    {
      assert geos[j].Valid();
      MergedSurfaceAt(geos, offsets, idMap, |geos|, j, k);
      ImageFollows(geos, offsets, eps, data, idMap, j, geos[j].surfaces[k]);
    }
  }

  // ---- merging ----

  lemma CarriedId(geos: seq<Geometry>, offsets: seq<nat>, eps: real, data: seq<Point>, idMap: seq<nat>, j: nat, p: nat)
    requires Carries(geos, offsets, eps, data, idMap) && j < |geos| && geos[j].Points? && p < |geos[j].points|
    ensures |offsets| == |geos| && offsets[j] + p < |idMap|
  {
    assert CarriesPoint(geos, offsets, eps, data, idMap, j, p);
  }

  lemma CarriedIdsInMap(geos: seq<Geometry>, offsets: seq<nat>, eps: real, data: seq<Point>, idMap: seq<nat>)
    requires (forall i :: 0 <= i < |geos| ==> geos[i].Valid()) && Carries(geos, offsets, eps, data, idMap)
    ensures IdsInMap(geos, offsets, idMap)
  {
    hide Names;
    forall j, k, i | 0 <= j < |geos| && geos[j].Points? && 0 <= k < |geos[j].polylines| &&
      0 <= i < |geos[j].polylines[k]|
      ensures offsets[j] + geos[j].polylines[k][i] < |idMap|
    {
      assert geos[j].Valid();
      CarriedId(geos, offsets, eps, data, idMap, j, geos[j].polylines[k][i]);
    }
    forall j, k, i | 0 <= j < |geos| && geos[j].Points? && 0 <= k < |geos[j].surfaces| && 0 <= i < |geos[j].surfaces[k]|
      ensures offsets[j] + geos[j].surfaces[k][i].a < |idMap| && offsets[j] + geos[j].surfaces[k][i].b < |idMap|
      ensures offsets[j] + geos[j].surfaces[k][i].c < |idMap|
    {
      assert geos[j].Valid();
      CarriedId(geos, offsets, eps, data, idMap, j, geos[j].surfaces[k][i].a);
      CarriedId(geos, offsets, eps, data, idMap, j, geos[j].surfaces[k][i].b);
      CarriedId(geos, offsets, eps, data, idMap, j, geos[j].surfaces[k][i].c);
    }
  }

  /** Merges the points, polylines and surfaces of several geometries; 2 means that there are too few. */
  method MergeGeometries(geos: seq<Geometry>, relEps: real, next: real -> real, root: real -> real)
    returns (code: nat, v: PointVec?, plys: seq<Polyline>, surfaces: seq<seq<Triangle>>, offsets: seq<nat>)
    requires (forall i :: 0 <= i < |geos| ==> geos[i].Valid()) && Contiguous(geos) &&
      (exists i :: 0 <= i < |geos| && geos[i].Points?)
    requires relEps >= 0.0 && forall x :: next(x) > x
    ensures code == 2 <==> |geos| < 2
    ensures code == 0 || code == 2
    ensures code == 0 ==> v != null && v.Valid() && v.Complete() && Carries(geos, offsets, v.tree.eps, v.data, v.idMap)
    ensures code == 0 ==>
      IdsInMap(geos, offsets, v.idMap) && HaveIds(plys, v.data, MergedLines(geos, offsets, v.idMap, |geos|))
    ensures code == 0 ==> surfaces == MergedSurfaces(geos, offsets, v.idMap, |geos|)
    // on the points themselves: none is invented, and polylines and surfaces run through those of their geometry
    ensures code == 0 ==> Stem(geos, v.data) && v.relEps == relEps && v.aabb.next == next
    ensures code == 0 ==> v.tree.eps == (if relEps == 0.0 then EPSILON else relEps) && v.tree.maxPoints == 16
    ensures forall p :: p in plys ==> p.root == root
    ensures code == 0 ==> LinesFollow(geos, plys, v.tree.eps, v.data)
    ensures code == 0 ==> SurfacesFollow(geos, surfaces, v.tree.eps, v.data)
  {
    if |geos| < 2 {
      return 2, null, [], [], [];
    }
    hide PointVec.Complete, Contiguous, Geometry.Valid, Carries, IdsInMap, OctTree.Valid, Separated, Distinct, Stem,
      LinesFollow, SurfacesFollow, HaveIds;
    v, offsets := MergePoints(geos, relEps, next);
    CarriedIdsInMap(geos, offsets, v.tree.eps, v.data, v.idMap);
    plys := MergePolylines(geos, offsets, v.data, v.idMap, root);
    surfaces := MergeSurfaces(geos, offsets, v.idMap);
    MergedLinesFollow(geos, offsets, v.tree.eps, v.data, v.idMap, plys);
    MergedSurfacesFollow(geos, offsets, v.tree.eps, v.data, v.idMap);
    code := 0;
  }
}
