/** When lines can be joined to one: the ends of the lines decide, and the order in which they are given. */
module LineEnds {

  /** The ids at the ends of a line. */
  datatype Ends = Ends(first: nat, last: nat) {

    predicate Has(id: nat) {
      id == first || id == last
    }
  }

  predicate Meet(e: Ends, f: Ends) {
    e.Has(f.first) || e.Has(f.last)
  }

  /** The ends that remain when two lines that meet are joined. */
  function Joined(e: Ends, f: Ends): Ends {
    if e.first == f.first then Ends(f.last, e.last)
    else if e.first == f.last then Ends(f.first, e.last)
    else if e.last == f.first then Ends(e.first, f.last)
    else Ends(e.first, f.first)
  }

  function Without(lines: seq<Ends>, k: nat): seq<Ends>
    requires k < |lines|
  {
    lines[..k] + lines[k + 1..]
  }

  /** The position of the first line that meets e, or the number of lines. */
  function FirstMeeting(e: Ends, lines: seq<Ends>): (k: nat)
    ensures k <= |lines| && forall i :: 0 <= i < k ==> !Meet(e, lines[i])
    ensures k < |lines| ==> Meet(e, lines[k])
  {
    if lines == [] || Meet(e, lines[0]) then 0 else 1 + FirstMeeting(e, lines[1..])
  }

  /** Joining, again and again, the first line that meets what was joined so far uses up all lines. */
  predicate AllJoin(e: Ends, lines: seq<Ends>)
    decreases |lines|
  {
    lines == [] ||
    var k := FirstMeeting(e, lines);
    k < |lines| && AllJoin(Joined(e, lines[k]), Without(lines, k))
  }

  lemma AllJoinStep(e: Ends, lines: seq<Ends>, k: nat)
    requires k < |lines| && Meet(e, lines[k]) && forall i :: 0 <= i < k ==> !Meet(e, lines[i])
    ensures AllJoin(e, lines) <==> AllJoin(Joined(e, lines[k]), Without(lines, k))
  {
    hide Meet, Joined;
    var j := FirstMeeting(e, lines);
    assert j == k;
  }

  // ---- connected lines ----

  /** No line has one end among the ids and the other one outside. */
  ghost predicate Closed(ids: set<nat>, lines: seq<Ends>) {
    forall e :: e in lines ==> (e.first in ids <==> e.last in ids)
  }

  /** All lines are connected: a set of ids that no line leaves meets all lines, or none. */
  ghost predicate Connected(lines: seq<Ends>) {
    forall ids: set<nat>, e, f :: Closed(ids, lines) && e in lines && f in lines ==>
      (e.first in ids <==> f.first in ids)
  }

  /** How often an id is an end of a line, and of several lines. */
  function EndCount(e: Ends, id: nat): nat {
    (if e.first == id then 1 else 0) + (if e.last == id then 1 else 0)
  }

  function EndsAt(lines: seq<Ends>, id: nat): nat {
    if lines == [] then 0 else EndCount(lines[0], id) + EndsAt(lines[1..], id)
  }

  /** Nowhere do more than two ends come together. */
  ghost predicate NoJunction(lines: seq<Ends>) {
    forall id :: EndsAt(lines, id) <= 2
  }

  lemma {:induction false} EndsWithout(lines: seq<Ends>, k: nat, id: nat)
    requires k < |lines|
    ensures EndsAt(lines, id) == EndCount(lines[k], id) + EndsAt(Without(lines, k), id)
  {
    if k > 0 {
      EndsWithout(lines[1..], k - 1, id);
      assert Without(lines, k)[1..] == Without(lines[1..], k - 1);
    } else {
      assert Without(lines, 0) == lines[1..];
    }
  }

  lemma EndsPrepend(e: Ends, lines: seq<Ends>, id: nat)
    ensures EndsAt([e] + lines, id) == EndCount(e, id) + EndsAt(lines, id)
  {
    assert ([e] + lines)[1..] == lines;
  }

  lemma EndsOfMember(lines: seq<Ends>, e: Ends, id: nat)
    requires e in lines && e.Has(id)
    ensures EndsAt(lines, id) > 0
  {
    var k :| 0 <= k < |lines| && lines[k] == e;
    EndsWithout(lines, k, id);
  }

  /** The id at which two lines that meet are joined. */
  function Common(e: Ends, f: Ends): nat {
    if f.Has(e.first) then e.first else e.last
  }

  lemma JoinedEnds(e: Ends, f: Ends, id: nat)
    requires Meet(e, f)
    ensures EndCount(e, id) + EndCount(f, id) ==
            EndCount(Joined(e, f), id) + if id == Common(e, f) then 2 else 0
  {
  }

  /** Joining two lines keeps lines free of junctions, and the common id is an end of no other line. */
  lemma JoinedKeepsNoJunction(e: Ends, lines: seq<Ends>, k: nat)
    requires k < |lines| && Meet(e, lines[k]) && NoJunction([e] + lines)
    ensures NoJunction([Joined(e, lines[k])] + Without(lines, k))
    ensures forall g :: g in [Joined(e, lines[k])] + Without(lines, k) ==> !g.Has(Common(e, lines[k]))
  {
    hide Joined, Common, EndsAt, EndCount, Without, Meet, Ends.Has;
    var j, c, rest := Joined(e, lines[k]), Common(e, lines[k]), Without(lines, k);
    forall id: nat
      ensures EndsAt([e] + lines, id) == EndsAt([j] + rest, id) + if id == c then 2 else 0
    {
      JoinedEnds(e, lines[k], id);
      EndsPrepend(e, lines, id);
      EndsPrepend(j, rest, id);
      EndsWithout(lines, k, id);
    }
    forall g | g in [j] + rest
      ensures !g.Has(c)
    {
      if g.Has(c) {
        EndsOfMember([j] + rest, g, c);
      }
    }
  }

  lemma MembersWithout(e: Ends, lines: seq<Ends>, k: nat)
    requires k < |lines|
    ensures forall g :: g in [e] + lines <==> g == e || g == lines[k] || g in Without(lines, k)
  {
    assert lines == lines[..k] + [lines[k]] + lines[k + 1..];
  }

  /** Lines that are connected after a join were connected before. */
  lemma ConnectedBefore(e: Ends, lines: seq<Ends>, k: nat)
    requires k < |lines| && Meet(e, lines[k]) && Connected([Joined(e, lines[k])] + Without(lines, k))
    ensures Connected([e] + lines)
  {
    var j, rest := Joined(e, lines[k]), Without(lines, k);
    MembersWithout(e, lines, k);
    forall ids: set<nat>, g, h | Closed(ids, [e] + lines) && g in [e] + lines && h in [e] + lines
      ensures g.first in ids <==> h.first in ids
    {
      assert e in [e] + lines && lines[k] in [e] + lines;
      assert Closed(ids, [j] + rest);
      assert j in [j] + rest && forall g :: g in rest ==> g in [j] + rest;
    }
  }

  /** Connected lines are still connected after a join at an id that is an end of no other line. */
  lemma ConnectedAfter(e: Ends, lines: seq<Ends>, k: nat)
    requires k < |lines| && Meet(e, lines[k]) && Connected([e] + lines) && NoJunction([e] + lines)
    ensures Connected([Joined(e, lines[k])] + Without(lines, k))
  {
    var j, rest := Joined(e, lines[k]), Without(lines, k);
    var id := Common(e, lines[k]);
    JoinedKeepsNoJunction(e, lines, k);
    MembersWithout(e, lines, k);
    assert e.Has(id) && lines[k].Has(id);
    hide NoJunction, EndsAt;
    forall ids: set<nat>, g, h | Closed(ids, [j] + rest) && g in [j] + rest && h in [j] + rest
      ensures g.first in ids <==> h.first in ids
    {
      // the common id goes where the joined line is
      var all := if j.first in ids then ids + {id} else ids - {id};
      assert j in [j] + rest && forall g :: g in rest ==> g in [j] + rest;
      assert Closed(all, [e] + lines);
    }
  }

  lemma StuckIsNotConnected(e: Ends, lines: seq<Ends>)
    requires lines != [] && forall f :: f in lines ==> !Meet(e, f)
    ensures !Connected([e] + lines)
  {
    var ids := {e.first, e.last};
    assert e in [e] + lines && lines[0] in [e] + lines;
    assert Closed(ids, [e] + lines);
  }

  lemma OneIsConnected(e: Ends)
    ensures Connected([e] + [])
  {
  }

  /** Lines that all join are connected, and connected lines without a junction all join. */
  lemma {:induction false} AllJoinIffConnected(e: Ends, lines: seq<Ends>)
    ensures AllJoin(e, lines) ==> Connected([e] + lines)
    ensures NoJunction([e] + lines) ==> (AllJoin(e, lines) <==> Connected([e] + lines))
    decreases |lines|
  {
    hide Connected, NoJunction, Meet, Joined;
    var k := FirstMeeting(e, lines);
    if lines == [] {
      OneIsConnected(e);
    } else if k == |lines| {
      StuckIsNotConnected(e, lines);
    } else {
      AllJoinIffConnected(Joined(e, lines[k]), Without(lines, k));
      if Connected([Joined(e, lines[k])] + Without(lines, k)) {
        ConnectedBefore(e, lines, k);
      }
      if NoJunction([e] + lines) {
        JoinedKeepsNoJunction(e, lines, k);
        if Connected([e] + lines) {
          ConnectedAfter(e, lines, k);
        }
      }
    }
  }

  // ---- the order of the lines ----

  lemma TakeOut(lines: seq<Ends>, k: nat)
    requires k < |lines|
    ensures multiset(lines) == multiset{lines[k]} + multiset(Without(lines, k)) && |Without(lines, k)| < |lines|
  {
    assert lines == lines[..k] + [lines[k]] + lines[k + 1..];
  }

  lemma {:induction false} SameEnds(a: seq<Ends>, b: seq<Ends>, id: nat)
    requires multiset(a) == multiset(b)
    ensures EndsAt(a, id) == EndsAt(b, id)
    decreases |a|
  {
    hide Without, EndCount;
    if a == [] {
      assert |multiset(b)| == 0;
    } else {
      assert a[0] in multiset(b);
      var k :| 0 <= k < |b| && b[k] == a[0];
      TakeOut(a, 0);
      TakeOut(b, k);
      assert multiset(Without(a, 0)) == multiset(a) - multiset{a[0]} == multiset(Without(b, k));
      EndsWithout(a, 0, id);
      EndsWithout(b, k, id);
      SameEnds(Without(a, 0), Without(b, k), id);
    }
  }

  /** Without a junction it does not matter in which order the lines are given. */
  lemma OrderIgnored(a: seq<Ends>, b: seq<Ends>)
    requires a != [] && multiset(a) == multiset(b) && NoJunction(a)
    ensures b != [] && (AllJoin(a[0], a[1..]) <==> AllJoin(b[0], b[1..]))
  {
    hide AllJoin, EndsAt, Connected;
    assert a[0] in multiset(b);
    assert a == [a[0]] + a[1..] && b == [b[0]] + b[1..];
    SameConnected(a, b);
    forall id: nat
      ensures EndsAt(a, id) == EndsAt(b, id)
    {
      SameEnds(a, b, id);
    }
    AllJoinIffConnected(a[0], a[1..]);
    AllJoinIffConnected(b[0], b[1..]);
  }

  lemma SameConnected(a: seq<Ends>, b: seq<Ends>)
    requires multiset(a) == multiset(b)
    ensures Connected(a) <==> Connected(b)
  {
    assert forall e :: e in a <==> e in multiset(a);
    assert forall e :: e in b <==> e in multiset(b);
    assert forall ids: set<nat> :: Closed(ids, a) <==> Closed(ids, b);
    hide Closed;
  }

  /** At a junction it does: one order of four lines is stuck, another one joins them all. */
  lemma OrderMatters()
    ensures !AllJoin(Ends(0, 1), [Ends(1, 2), Ends(1, 3), Ends(3, 1)])
    ensures AllJoin(Ends(0, 1), [Ends(1, 3), Ends(3, 1), Ends(1, 2)])
  {
    AllJoinStep(Ends(0, 1), [Ends(1, 2), Ends(1, 3), Ends(3, 1)], 0);
    assert Without([Ends(1, 2), Ends(1, 3), Ends(3, 1)], 0) == [Ends(1, 3), Ends(3, 1)];
    AllJoinStep(Ends(0, 1), [Ends(1, 3), Ends(3, 1), Ends(1, 2)], 0);
    assert Without([Ends(1, 3), Ends(3, 1), Ends(1, 2)], 0) == [Ends(3, 1), Ends(1, 2)];
    AllJoinStep(Ends(0, 3), [Ends(3, 1), Ends(1, 2)], 0);
    assert Without([Ends(3, 1), Ends(1, 2)], 0) == [Ends(1, 2)];
    AllJoinStep(Ends(0, 1), [Ends(1, 2)], 0);
    assert Without([Ends(1, 2)], 0) == [];
  }
}
