/** The memory range list itself, linked and changed in place. */
module MemoryRangeList {
  import opened MemoryRange

  class Node {
    var start: int
    var end: int
    var next: Node?

    constructor (start: int, end: int)
      ensures this.start == start && this.end == end && next == null
    {
      this.start, this.end, next := start, end, null;
    }
  }

  function Replaced<T>(c: seq<T>, lo: nat, hi: nat, mid: seq<T>): (d: seq<T>)
    requires lo <= hi <= |c|
    ensures |d| == |c| - (hi - lo) + |mid|
    ensures forall k :: 0 <= k < lo ==> d[k] == c[k]
    ensures forall k :: lo <= k < lo + |mid| ==> d[k] == mid[k - lo]
    ensures forall k :: lo + |mid| <= k < |d| ==> d[k] == c[k - |mid| + (hi - lo)]
  {
    c[..lo] + mid + c[hi..]
  }

  class RangeList {
    var first: Node?
    var last: Node?
    var objectCount: nat
    ghost var nodes: seq<Node>

    ghost predicate Valid()
      reads this, nodes
    {
      && first == (if nodes == [] then null else nodes[0])
      && last == (if nodes == [] then null else nodes[|nodes| - 1])
      && (forall i :: 0 <= i < |nodes| - 1 ==> nodes[i].next == nodes[i + 1])
      && (nodes != [] ==> nodes[|nodes| - 1].next == null)
      && (forall i, j :: 0 <= i < j < |nodes| ==> nodes[i] != nodes[j])
    }

    ghost function Ranges(): (rs: seq<Interval>)
      reads this, nodes
      ensures |rs| == |nodes|
    {
      seq(|nodes|, i requires 0 <= i < |nodes| reads this, nodes => Interval(nodes[i].start, nodes[i].end))
    }

    constructor ()
      ensures Valid() && Ranges() == [] && objectCount == 0
    {
      first, last, objectCount, nodes := null, null, 0, [];
    }

    /** The first of the nodes nearest to the given range. */
    method FindNearest(t: Interval) returns (min: Node?, minDist: int, ghost k: nat)
      requires Valid()
      ensures min == null <==> nodes == []
      ensures min != null ==> k < |nodes| && min == nodes[k] && k == Nearest(Ranges(), t) && minDist == Dist(Ranges()[k], t)
    {
      var m := first;
      min, minDist, k := null, 0, 0;
      ghost var rs, i := Ranges(), 0;
      while m != null
        invariant 0 <= i <= |nodes|
        invariant i < |nodes| ==> m == nodes[i]
        invariant i == |nodes| ==> m == null
        invariant min == null <==> i == 0
        invariant i > 0 ==> k < i && min == nodes[k] && minDist == Dist(rs[k], t)
        invariant i > 0 ==> forall j :: 0 <= j < i ==> Dist(rs[k], t) <= Dist(rs[j], t)
        invariant i > 0 ==> forall j :: 0 <= j < k ==> Dist(rs[k], t) < Dist(rs[j], t)
        decreases |nodes| - i
      {
        var d := Dist(Interval(m.start, m.end), t);
        assert d == Dist(rs[i], t);
        if min == null {
          min, minDist, k := m, d, i;
        } else if d < minDist {
          min, minDist, k := m, d, i;
          if minDist == 0 { break; }
        }
        m := m.next;
        i := i + 1;
      }
    }

    method AddRange(start: int, end: int)
      requires Valid()
      modifies this, nodes
      ensures Valid() && (forall n :: n in nodes ==> n in old(nodes) || fresh(n))
      ensures Ranges() == Added(old(Ranges()), Interval(start, end))
      ensures AllProper(old(Ranges())) && start <= end ==> TakenIn(old(Ranges()), Ranges(), Interval(start, end))
      ensures objectCount == old(objectCount) + 1
    {
      hide Nearest, InsertSorted, Dist, Extend, AllProper, TakenIn;
      if AllProper(Ranges()) && start <= end { AddedTakesIn(Ranges(), Interval(start, end)); }
      objectCount := objectCount + 1;
      var min, minDist;
      ghost var k;
      min, minDist, k := FindNearest(Interval(start, end));
      assert Ranges() == old(Ranges());
      if min != null && minDist < MAX_DIST {
        ExtendNode(min, start, end, k);
        return;
      }
      var m := new Node(start, end);
      InsertNode(m);
    }

    method ExtendNode(m: Node, start: int, end: int, ghost k: nat)
      requires Valid() && k < |nodes| && m == nodes[k]
      modifies m`start, m`end
      ensures Valid() && Ranges() == old(Ranges())[k := Extend(old(Ranges()[k]), Interval(start, end))]
    {
      if start < m.start { m.start := start; }
      if end > m.end { m.end := end; }
    }

    method InsertNode(m: Node)
      requires Valid() && m !in nodes && m.next == null
      modifies this, nodes, m
      ensures Valid() && objectCount == old(objectCount)
      ensures forall n :: n in nodes <==> n in old(nodes) || n == m
      ensures Ranges() == InsertSorted(old(Ranges()), old(Interval(m.start, m.end)))
    {
      hide InsertSorted, Replaced;
      ghost var rs, t := Ranges(), Interval(m.start, m.end);
      var c: Node?, p: Node? := first, null;
      ghost var i := 0;
      while c != null && m.start > c.start
        invariant 0 <= i <= |nodes|
        invariant i < |nodes| ==> c == nodes[i]
        invariant i == |nodes| ==> c == null
        invariant p == if i == 0 then null else nodes[i - 1]
        invariant forall j :: 0 <= j < i ==> rs[j].start < t.start
        decreases |nodes| - i
      {
        p := c;
        c := c.next;
        i := i + 1;
      }
      InsertSortedIs(rs, t, i);
      Link(p, c, m, i);
    }

    method Link(p: Node?, c: Node?, m: Node, ghost i: nat)
      requires Valid() && m !in nodes && m.next == null && i <= |nodes|
      requires c == if i < |nodes| then nodes[i] else null
      requires p == if i == 0 then null else nodes[i - 1]
      modifies this, nodes`next, m`next
      ensures Valid() && nodes == Replaced(old(nodes), i, i, [m]) && objectCount == old(objectCount)
      ensures Ranges() == Replaced(old(Ranges()), i, i, [old(Interval(m.start, m.end))])
      ensures forall n :: n in nodes <==> n in old(nodes) || n == m
    {
      hide Replaced;
      if c == null {
        if first == null {
          first, last := m, m;
        } else {
          last.next := m;
          last := m;
        }
      } else {
        if p != null { p.next := m; } else { first := m; }
        m.next := c;
      }
      nodes := Replaced(nodes, i, i, [m]);
      ReplacedElements(old(nodes), i, m);
    }

    method Collect()
      requires Valid()
      modifies this, nodes
      ensures Valid() && Ranges() == Collected(old(Ranges())) && objectCount == old(objectCount)
      ensures forall n :: n in nodes ==> n in old(nodes)
    {
      hide Collected, Extend, Dist, Replaced;
      var m := first;
      ghost var i := 0;
      assert Ranges()[..0] + Collected(Ranges()[0..]) == Collected(Ranges());
      while m != null
        invariant 0 <= i <= |nodes| && Valid() && objectCount == old(objectCount)
        invariant i < |nodes| ==> m == nodes[i]
        invariant i == |nodes| ==> m == null
        invariant forall n :: n in nodes ==> n in old(nodes)
        invariant Ranges()[..i] + Collected(Ranges()[i..]) == Collected(old(Ranges()))
        decreases |nodes| - i
      {
        var n := m.next;
        ghost var rs := Ranges();
        CollectStep(rs, i);
        if n != null && Dist(Interval(m.start, m.end), Interval(n.start, n.end)) < MAX_DIST {
          assert m in nodes;
          Absorb(m, n, i);
        } else {
          m := n;
          i := i + 1;
        }
      }
      CollectedNothing(Ranges(), i);
    }

    /** Node m takes over the range of its successor n, which is dropped. */
    method Absorb(m: Node, n: Node, ghost i: nat)
      requires Valid() && i + 1 < |nodes| && m == nodes[i] && n == nodes[i + 1]
      modifies this, m
      ensures Valid() && nodes == Replaced(old(nodes), i, i + 2, [m]) && objectCount == old(objectCount)
      ensures Ranges() == Replaced(old(Ranges()), i, i + 2, [Extend(old(Ranges()[i]), old(Ranges()[i + 1]))])
      ensures forall x :: x in nodes ==> x in old(nodes)
    {
      hide Replaced;
      if n.start < m.start { m.start := n.start; }
      if n.end > m.end { m.end := n.end; }
      m.next := n.next;
      if n == last { last := m; }
      nodes := Replaced(nodes, i, i + 2, [m]);
      ReplacedSubset(old(nodes), i, m);
    }
  }

  lemma ReplacedElements<T>(c: seq<T>, i: nat, m: T)
    requires i <= |c|
    ensures forall x :: x in Replaced(c, i, i, [m]) <==> x in c || x == m
  {
    assert c == c[..i] + c[i..];
  }

  lemma ReplacedSubset<T>(c: seq<T>, i: nat, m: T)
    requires i + 2 <= |c| && m == c[i]
    ensures forall x :: x in Replaced(c, i, i + 2, [m]) ==> x in c
  {}

  lemma {:induction false} InsertSortedIs(rs: seq<Interval>, t: Interval, i: nat)
    requires i <= |rs| && forall j :: 0 <= j < i ==> rs[j].start < t.start
    requires i < |rs| ==> t.start <= rs[i].start
    ensures InsertSorted(rs, t) == Replaced(rs, i, i, [t])
    decreases i
  {
    if i > 0 { InsertSortedIs(rs[1..], t, i - 1); }
  }

  lemma CollectedNothing(rs: seq<Interval>, i: nat)
    requires i == |rs|
    ensures rs[..i] + Collected(rs[i..]) == rs
  {}

  /** One turn of collecting, seen on the ranges. */
  lemma CollectStep(rs: seq<Interval>, i: nat)
    requires i < |rs|
    ensures i + 1 < |rs| && Dist(rs[i], rs[i + 1]) < MAX_DIST ==>
              (var qs := Replaced(rs, i, i + 2, [Extend(rs[i], rs[i + 1])]);
              qs[..i] + Collected(qs[i..]) == rs[..i] + Collected(rs[i..]))
    ensures !(i + 1 < |rs| && Dist(rs[i], rs[i + 1]) < MAX_DIST) ==>
              rs[..i + 1] + Collected(rs[i + 1..]) == rs[..i] + Collected(rs[i..])
  {
    if i + 1 < |rs| && Dist(rs[i], rs[i + 1]) < MAX_DIST { MergeStep(rs, i); } else { MoveStep(rs, i); }
  }

  lemma MergeStep(rs: seq<Interval>, i: nat)
    requires i + 1 < |rs| && Dist(rs[i], rs[i + 1]) < MAX_DIST
    ensures var qs := Replaced(rs, i, i + 2, [Extend(rs[i], rs[i + 1])]);
            qs[..i] + Collected(qs[i..]) == rs[..i] + Collected(rs[i..])
  {
    hide Dist, Extend;
    var qs := Replaced(rs, i, i + 2, [Extend(rs[i], rs[i + 1])]);
    assert qs[..i] == rs[..i];
    assert qs[i..] == [Extend(rs[i..][0], rs[i..][1])] + rs[i..][2..];
  }

  lemma MoveStep(rs: seq<Interval>, i: nat)
    requires i < |rs| && !(i + 1 < |rs| && Dist(rs[i], rs[i + 1]) < MAX_DIST)
    ensures rs[..i + 1] + Collected(rs[i + 1..]) == rs[..i] + Collected(rs[i..])
  {
    hide Dist, Extend;
    assert rs[i..][1..] == rs[i + 1..];
    assert rs[..i + 1] == rs[..i] + [rs[i]];
  }
}
