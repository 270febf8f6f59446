/** The list of memory ranges in use: close ranges are merged as they are added, the rest when the list
    is collected. Addresses are integers. */
module MemoryRange {

  const MAX_DIST := 256

  // ---- specification ---------------------------------------------------------------------

  datatype Interval = Interval(start: int, end: int)

  function Dist(r: Interval, t: Interval): int {
    if t.end < r.start then r.start - t.end
    else if t.start > r.end then t.start - r.end
    else 0
  }

  function Extend(r: Interval, t: Interval): Interval {
    Interval(if t.start < r.start then t.start else r.start, if t.end > r.end then t.end else r.end)
  }

  /** The first of the ranges nearest to t. */
  function Nearest(rs: seq<Interval>, t: Interval): (k: nat)
    requires rs != []
    ensures k < |rs|
    ensures forall i :: 0 <= i < |rs| ==> Dist(rs[k], t) <= Dist(rs[i], t)
    ensures forall i :: 0 <= i < k ==> Dist(rs[k], t) < Dist(rs[i], t)
  {
    if |rs| == 1 then 0
    else
      var k := Nearest(rs[..|rs| - 1], t);
      if Dist(rs[|rs| - 1], t) < Dist(rs[k], t) then |rs| - 1 else k
  }

  function InsertSorted(rs: seq<Interval>, t: Interval): seq<Interval> {
    if rs != [] && t.start > rs[0].start then [rs[0]] + InsertSorted(rs[1..], t) else [t] + rs
  }

  function Added(rs: seq<Interval>, t: Interval): seq<Interval> {
    if rs != [] && Dist(rs[Nearest(rs, t)], t) < MAX_DIST then
      var k := Nearest(rs, t);
      rs[k := Extend(rs[k], t)]
    else InsertSorted(rs, t)
  }

  function Collected(rs: seq<Interval>): seq<Interval>
    decreases |rs|
  {
    if |rs| < 2 then rs
    else if Dist(rs[0], rs[1]) < MAX_DIST then Collected([Extend(rs[0], rs[1])] + rs[2..])
    else [rs[0]] + Collected(rs[1..])
  }

  predicate In(x: int, r: Interval) {
    r.start <= x <= r.end
  }

  predicate Ordered(rs: seq<Interval>) {
    && (forall i :: 0 <= i < |rs| ==> rs[i].start <= rs[i].end)
    && (forall i, j :: 0 <= i < j < |rs| ==> rs[i].start <= rs[j].start)
  }

  predicate InSome(x: int, rs: seq<Interval>) {
    exists i :: 0 <= i < |rs| && In(x, rs[i])
  }

  ghost predicate Covers(rs: seq<Interval>, s: iset<int>) {
    forall x :: x in s ==> InSome(x, rs)
  }

  /** r begins and ends in s, and from any point of r the next point of s is less than MAX_DIST away. */
  ghost predicate Chained(r: Interval, s: iset<int>) {
    && r.start in s
    && r.end in s
    && forall x :: r.start <= x < r.end ==> PointAfter(x, r.end, s)
  }

  ghost predicate PointAfter(x: int, end: int, s: iset<int>) {
    exists y :: y in s && x < y <= end && y < x + MAX_DIST
  }

  /** The ranges hold all of s, and nothing but s and gaps shorter than MAX_DIST. */
  ghost predicate Describes(rs: seq<Interval>, s: iset<int>) {
    Ordered(rs) && Covers(rs, s) && AllChained(rs, s)
  }

  ghost predicate AllChained(rs: seq<Interval>, s: iset<int>) {
    forall i :: 0 <= i < |rs| ==> Chained(rs[i], s)
  }

  predicate Apart(rs: seq<Interval>) {
    forall i :: 0 <= i < |rs| - 1 ==> rs[i].end + MAX_DIST <= rs[i + 1].start
  }

  // ---- adding ------------------------------------------------------------------------------

  lemma ChainedMore(r: Interval, s: iset<int>, u: iset<int>)
    requires Chained(r, s)
    ensures Chained(r, s + u)
  {
    forall x | r.start <= x < r.end ensures PointAfter(x, r.end, s + u) {
      assert PointAfter(x, r.end, s);
      var y :| y in s && x < y <= r.end && y < x + MAX_DIST;
      assert y in s + u;
    }
  }

  ghost function Points(r: Interval): iset<int> {
    iset x: int | In(x, r)
  }

  /** Two chained ranges less than MAX_DIST apart span a chained range. */
  lemma ChainedExtend(r: Interval, t: Interval, s: iset<int>)
    requires r.start <= r.end && t.start <= t.end
    requires Chained(r, s) && Chained(t, s) && Dist(r, t) < MAX_DIST
    ensures Chained(Extend(r, t), s)
  {
    var e := Extend(r, t);
    forall x | e.start <= x < e.end ensures PointAfter(x, e.end, s) {
      if r.start <= x < r.end {
        assert PointAfter(x, r.end, s);
        var y :| y in s && x < y <= r.end && y < x + MAX_DIST;
        assert y in s && x < y <= e.end && y < x + MAX_DIST;
      } else if t.start <= x < t.end {
        assert PointAfter(x, t.end, s);
        var y :| y in s && x < y <= t.end && y < x + MAX_DIST;
        assert y in s && x < y <= e.end && y < x + MAX_DIST;
      } else {
        var y := if x < r.start then r.start else t.start;
        assert y in s && x < y <= e.end && y < x + MAX_DIST;
      }
    }
  }

  lemma ChainedPoints(r: Interval)
    requires r.start <= r.end
    ensures Chained(r, Points(r))
  {
    forall x | r.start <= x < r.end ensures PointAfter(x, r.end, Points(r)) {
      assert x + 1 in Points(r);
    }
  }

  lemma {:induction false} InsertSortedAt(rs: seq<Interval>, t: Interval) returns (k: nat)
    ensures k <= |rs| && InsertSorted(rs, t) == rs[..k] + [t] + rs[k..]
    ensures forall i :: 0 <= i < k ==> rs[i].start < t.start
    ensures k < |rs| ==> t.start <= rs[k].start
    decreases |rs|
  {
    if rs != [] && t.start > rs[0].start {
      k := InsertSortedAt(rs[1..], t);
      k := k + 1;
    } else {
      k := 0;
    }
  }

  lemma AllChainedMore(rs: seq<Interval>, s: iset<int>, u: iset<int>)
    requires AllChained(rs, s)
    ensures AllChained(rs, s + u)
  {
    hide Chained;
    forall i | 0 <= i < |rs| ensures Chained(rs[i], s + u) { ChainedMore(rs[i], s, u); }
  }

  /** If every range of rs lies in some range of qs, then qs covers what rs does. */
  lemma CoversThrough(rs: seq<Interval>, qs: seq<Interval>, s: iset<int>, t: Interval)
    requires Covers(rs, s)
    requires forall x :: InSome(x, rs) || In(x, t) ==> InSome(x, qs)
    ensures Covers(qs, s + Points(t)) && Covers(qs, s)
  {
    hide InSome;
  }

  lemma AddedDescribes(rs: seq<Interval>, t: Interval, s: iset<int>)
    requires Describes(rs, s) && t.start <= t.end
    ensures Describes(Added(rs, t), s + Points(t))
  {
    hide Chained, Covers, Points, InSome, Ordered, AllChained;
    var u := s + Points(t);
    ChainedPoints(t);
    ChainedMore(t, Points(t), s);
    assert u == Points(t) + s;
    AllChainedMore(rs, s, Points(t));
    if rs != [] && Dist(rs[Nearest(rs, t)], t) < MAX_DIST {
      var k := Nearest(rs, t);
      MergedOrdered(rs, t, k);
      MergedChained(rs, t, u, k);
      MergedHolds(rs, t, k);
    } else {
      var k := InsertSortedAt(rs, t);
      InsertedOrdered(rs, t, k);
      InsertedChained(rs, t, u, k);
      InsertedHolds(rs, t, k);
    }
    CoversThrough(rs, Added(rs, t), s, t);
  }

  lemma MergedChained(rs: seq<Interval>, t: Interval, u: iset<int>, k: nat)
    requires k < |rs| && AllChained(rs, u) && Chained(t, u) && Dist(rs[k], t) < MAX_DIST
    requires t.start <= t.end && Ordered(rs)
    ensures AllChained(rs[k := Extend(rs[k], t)], u)
  {
    hide Chained;
    ChainedExtend(rs[k], t, u);
  }

  lemma InsertedChained(rs: seq<Interval>, t: Interval, u: iset<int>, k: nat)
    requires k <= |rs| && AllChained(rs, u) && Chained(t, u)
    ensures AllChained(rs[..k] + [t] + rs[k..], u)
  {
    hide Chained;
  }

  lemma InsertedOrdered(rs: seq<Interval>, t: Interval, k: nat)
    requires Ordered(rs) && t.start <= t.end && k <= |rs|
    requires forall i :: 0 <= i < k ==> rs[i].start < t.start
    requires k < |rs| ==> t.start <= rs[k].start
    ensures Ordered(rs[..k] + [t] + rs[k..])
  {}

  /** Growing the first of the nearest ranges downwards never takes it past the range before. */
  lemma MergedOrdered(rs: seq<Interval>, t: Interval, k: nat)
    requires Ordered(rs) && t.start <= t.end && k < |rs|
    requires forall i :: 0 <= i < k ==> Dist(rs[k], t) < Dist(rs[i], t)
    ensures Ordered(rs[k := Extend(rs[k], t)])
  {}

  lemma MergedHolds(rs: seq<Interval>, t: Interval, k: nat)
    requires k < |rs|
    ensures forall x :: InSome(x, rs) || In(x, t) ==> InSome(x, rs[k := Extend(rs[k], t)])
  {
    var qs := rs[k := Extend(rs[k], t)];
    forall x | InSome(x, rs) || In(x, t) ensures InSome(x, qs) {
      if In(x, t) {
        assert In(x, qs[k]);
      } else {
        var i :| 0 <= i < |rs| && In(x, rs[i]);
        assert In(x, qs[i]);
      }
    }
  }

  lemma InsertedHolds(rs: seq<Interval>, t: Interval, k: nat)
    requires k <= |rs|
    ensures forall x :: InSome(x, rs) || In(x, t) ==> InSome(x, rs[..k] + [t] + rs[k..])
  {
    var qs := rs[..k] + [t] + rs[k..];
    forall x | InSome(x, rs) || In(x, t) ensures InSome(x, qs) {
      if In(x, t) {
        assert In(x, qs[k]);
      } else {
        var i :| 0 <= i < |rs| && In(x, rs[i]);
        assert In(x, qs[if i < k then i else i + 1]);
      }
    }
  }

  // ---- adding, range by range ------------------------------------------------------------------

  /** The addresses between two ranges, as far as they go; 0 or less when they meet. */
  function Gap(r: Interval, t: Interval): int {
    if r.start - t.end >= t.start - r.end then r.start - t.end else t.start - r.end
  }

  /** Fewer than 256 addresses away. */
  predicate Close(r: Interval, t: Interval) {
    r.start - t.end < 256 && t.start - r.end < 256
  }

  /** Range k is the first that no other is nearer than; ranges that meet are all equally near. */
  predicate FirstNearest(rs: seq<Interval>, t: Interval, k: nat)
    requires k < |rs|
  {
    && (forall i :: 0 <= i < |rs| ==> Gap(rs[k], t) <= Gap(rs[i], t) || Gap(rs[k], t) <= 0)
    && (forall i :: 0 <= i < k ==> Gap(rs[k], t) < Gap(rs[i], t) && Gap(rs[i], t) > 0)
  }

  /** Range k alone has become the hull of itself and t. */
  predicate HullAt(before: seq<Interval>, after: seq<Interval>, t: Interval, k: nat) {
    && k < |before| == |after|
    && after[k].start == (if t.start < before[k].start then t.start else before[k].start)
    && after[k].end == (if t.end > before[k].end then t.end else before[k].end)
    && (forall i :: 0 <= i < |before| && i != k ==> after[i] == before[i])
  }

  /** Range t has come in at k, behind all ranges that start before it. */
  predicate PutAt(before: seq<Interval>, after: seq<Interval>, t: Interval, k: nat) {
    && k <= |before| && |after| == |before| + 1 && after[k] == t
    && (forall i :: 0 <= i < k ==> after[i] == before[i] && before[i].start < t.start)
    && (forall i :: k <= i < |before| ==> after[i + 1] == before[i])
    && (k < |before| ==> before[k].start >= t.start)
  }

  /** What adding t must do: if a range is close, the first of the nearest ones takes t in; otherwise t is put
      among the others by its start. */
  predicate TakenIn(before: seq<Interval>, after: seq<Interval>, t: Interval) {
    if exists i :: 0 <= i < |before| && Close(before[i], t) then
      exists k :: 0 <= k < |before| && FirstNearest(before, t, k) && HullAt(before, after, t, k)
    else
      exists k :: 0 <= k <= |before| && PutAt(before, after, t, k)
  }

  predicate AllProper(rs: seq<Interval>) {
    forall i :: 0 <= i < |rs| ==> rs[i].start <= rs[i].end
  }

  lemma DistIsGap(r: Interval, t: Interval)
    requires r.start <= r.end && t.start <= t.end
    ensures Dist(r, t) == if Gap(r, t) > 0 then Gap(r, t) else 0
    ensures Dist(r, t) < MAX_DIST <==> Close(r, t)
  {}

  lemma AddedTakesIn(rs: seq<Interval>, t: Interval)
    requires AllProper(rs) && t.start <= t.end
    ensures TakenIn(rs, Added(rs, t), t)
  {
    hide FirstNearest, HullAt, PutAt, Close, InsertSorted, Dist;
    forall i | 0 <= i < |rs| ensures Dist(rs[i], t) < MAX_DIST <==> Close(rs[i], t) { DistIsGap(rs[i], t); }
    if rs != [] && Dist(rs[Nearest(rs, t)], t) < MAX_DIST {
      NearestIsFirst(rs, t);
      HullThere(rs, t, Nearest(rs, t));
    } else {
      var k := InsertSortedAt(rs, t);
      PutThere(rs, t, k);
    }
  }

  lemma NearestIsFirst(rs: seq<Interval>, t: Interval)
    requires AllProper(rs) && t.start <= t.end && rs != []
    ensures FirstNearest(rs, t, Nearest(rs, t))
  {
    var k := Nearest(rs, t);
    forall i | 0 <= i < |rs| ensures Dist(rs[i], t) == if Gap(rs[i], t) > 0 then Gap(rs[i], t) else 0 {
      DistIsGap(rs[i], t);
    }
    hide Dist, Gap, Nearest;
  }

  lemma HullThere(rs: seq<Interval>, t: Interval, k: nat)
    requires k < |rs|
    ensures HullAt(rs, rs[k := Extend(rs[k], t)], t, k)
  {}

  lemma PutThere(rs: seq<Interval>, t: Interval, k: nat)
    requires k <= |rs| && forall i :: 0 <= i < k ==> rs[i].start < t.start
    requires k < |rs| ==> t.start <= rs[k].start
    ensures PutAt(rs, rs[..k] + [t] + rs[k..], t, k)
  {}

  // ---- collecting ----------------------------------------------------------------------------

  lemma {:induction false} CollectedOrdered(rs: seq<Interval>)
    requires Ordered(rs)
    ensures Ordered(Collected(rs)) && Apart(Collected(rs)) && (rs == [] <==> Collected(rs) == [])
    ensures rs != [] ==> Collected(rs)[0].start == rs[0].start
    decreases |rs|
  {
    if |rs| >= 2 {
      if Dist(rs[0], rs[1]) < MAX_DIST {
        CollectedOrdered([Extend(rs[0], rs[1])] + rs[2..]);
      } else {
        CollectedOrdered(rs[1..]);
        var cs := Collected(rs[1..]);
        assert forall i :: 0 < i < |[rs[0]] + cs| ==> ([rs[0]] + cs)[i] == cs[i - 1];
      }
    }
  }

  lemma {:induction false} CollectedHolds(rs: seq<Interval>, x: int)
    requires InSome(x, rs)
    ensures InSome(x, Collected(rs))
    decreases |rs|
  {
    if |rs| >= 2 {
      var i :| 0 <= i < |rs| && In(x, rs[i]);
      if Dist(rs[0], rs[1]) < MAX_DIST {
        var qs := [Extend(rs[0], rs[1])] + rs[2..];
        assert In(x, qs[if i < 2 then 0 else i - 1]);
        CollectedHolds(qs, x);
      } else if i == 0 {
        assert In(x, Collected(rs)[0]);
      } else {
        assert In(x, rs[1..][i - 1]);
        CollectedHolds(rs[1..], x);
        var j :| 0 <= j < |Collected(rs[1..])| && In(x, Collected(rs[1..])[j]);
        assert In(x, Collected(rs)[j + 1]);
      }
    }
  }

  lemma {:induction false} CollectedChained(rs: seq<Interval>, s: iset<int>)
    requires Ordered(rs) && AllChained(rs, s)
    ensures AllChained(Collected(rs), s)
    decreases |rs|
  {
    hide Chained;
    if |rs| >= 2 {
      if Dist(rs[0], rs[1]) < MAX_DIST {
        ChainedExtend(rs[0], rs[1], s);
        CollectedChained([Extend(rs[0], rs[1])] + rs[2..], s);
      } else {
        CollectedChained(rs[1..], s);
      }
    }
  }

  /** Collecting keeps what the list describes and leaves neighbours at least MAX_DIST apart. */
  lemma CollectedDescribes(rs: seq<Interval>, s: iset<int>)
    requires Describes(rs, s)
    ensures Describes(Collected(rs), s) && Apart(Collected(rs))
  {
    hide Collected, Chained, InSome;
    CollectedOrdered(rs);
    CollectedChained(rs, s);
    forall x | x in s ensures InSome(x, Collected(rs)) { CollectedHolds(rs, x); }
  }

  // ---- the collected list depends on the added points only ---------------------------------------

  lemma RangeOf(rs: seq<Interval>, s: iset<int>, x: int) returns (i: nat)
    requires Covers(rs, s) && x in s
    ensures i < |rs| && In(x, rs[i])
  {
    assert InSome(x, rs);
    i :| 0 <= i < |rs| && In(x, rs[i]);
  }

  lemma NextPoint(r: Interval, s: iset<int>, x: int) returns (y: int)
    requires Chained(r, s) && r.start <= x < r.end
    ensures y in s && x < y <= r.end && y < x + MAX_DIST
  {
    assert PointAfter(x, r.end, s);
    y :| y in s && x < y <= r.end && y < x + MAX_DIST;
  }

  lemma EndsIn(rs: seq<Interval>, s: iset<int>, i: nat)
    requires AllChained(rs, s) && i < |rs|
    ensures rs[i].start in s && rs[i].end in s && Chained(rs[i], s)
  {}

  lemma ApartFromFirst(rs: seq<Interval>, i: nat)
    requires Ordered(rs) && Apart(rs) && 0 < i < |rs|
    ensures rs[i].start >= rs[0].end + MAX_DIST
  {
    assert rs[1].start >= rs[0].end + MAX_DIST;
  }

  lemma FirstStart(a: seq<Interval>, b: seq<Interval>, s: iset<int>)
    requires a != [] && Describes(a, s) && Describes(b, s)
    ensures b != [] && b[0].start <= a[0].start
  {
    hide Covers, AllChained;
    EndsIn(a, s, 0);
    var j := RangeOf(b, s, a[0].start);
  }

  lemma FirstEnd(a: seq<Interval>, b: seq<Interval>, s: iset<int>)
    requires a != [] && b != [] && Describes(a, s) && Apart(a) && Describes(b, s) && a[0].start == b[0].start
    ensures b[0].end <= a[0].end
  {
    hide Covers, AllChained, Chained;
    if a[0].end < b[0].end {
      EndsIn(b, s, 0);
      var y := NextPoint(b[0], s, a[0].end);
      var i := RangeOf(a, s, y);
      if i > 0 { ApartFromFirst(a, i); }
      assert false;
    }
  }

  lemma TailChained(r: Interval, s: iset<int>, s1: iset<int>, lo: int)
    requires Chained(r, s) && lo < r.start <= r.end && s1 == iset x | x in s && x > lo
    ensures Chained(r, s1)
  {
    forall x | r.start <= x < r.end ensures PointAfter(x, r.end, s1) {
      var y := NextPoint(r, s, x);
      assert y in s1;
    }
  }

  lemma TailDescribes(a: seq<Interval>, s: iset<int>)
    requires a != [] && Describes(a, s) && Apart(a)
    ensures Describes(a[1..], iset x | x in s && x > a[0].end) && Apart(a[1..])
  {
    hide AllChained, Chained, InSome;
    var s1 := iset x | x in s && x > a[0].end;
    var qs := a[1..];
    forall i | 0 <= i < |qs| ensures Chained(qs[i], s1) {
      ApartFromFirst(a, i + 1);
      EndsIn(a, s, i + 1);
      TailChained(a[i + 1], s, s1, a[0].end);
    }
    AllChainedIntro(qs, s1);
    forall x | x in s1 ensures InSome(x, qs) {
      var i := RangeOf(a, s, x);
      InSomeIntro(x, qs, i - 1);
    }
  }

  lemma AllChainedIntro(rs: seq<Interval>, s: iset<int>)
    requires forall i :: 0 <= i < |rs| ==> Chained(rs[i], s)
    ensures AllChained(rs, s)
  {}

  lemma InSomeIntro(x: int, rs: seq<Interval>, i: nat)
    requires i < |rs| && In(x, rs[i])
    ensures InSome(x, rs)
  {}

  /** There is only one list of ranges MAX_DIST apart that describes a set of points. */
  lemma {:induction false} CanonicalUnique(a: seq<Interval>, b: seq<Interval>, s: iset<int>)
    requires Describes(a, s) && Apart(a) && Describes(b, s) && Apart(b)
    ensures a == b
    decreases |a|
  {
    hide Covers, AllChained, Apart, Ordered;
    if a == [] {
      if b != [] { FirstStart(b, a, s); }
    } else {
      FirstStart(a, b, s);
      FirstStart(b, a, s);
      FirstEnd(a, b, s);
      FirstEnd(b, a, s);
      TailDescribes(a, s);
      TailDescribes(b, s);
      CanonicalUnique(a[1..], b[1..], iset x | x in s && x > a[0].end);
    }
  }

  // ---- runs ---------------------------------------------------------------------------------------

  datatype Call = AddRange(r: Interval) | Collect

  function Run(calls: seq<Call>): seq<Interval> {
    if calls == [] then []
    else
      var rs := Run(calls[..|calls| - 1]);
      match calls[|calls| - 1]
      case AddRange(r) => Added(rs, r)
      case Collect => Collected(rs)
  }

  ghost function AllPoints(calls: seq<Call>): iset<int> {
    iset x: int | AddedBy(x, calls)
  }

  predicate AddedBy(x: int, calls: seq<Call>) {
    exists i :: 0 <= i < |calls| && calls[i].AddRange? && In(x, calls[i].r)
  }

  predicate Proper(calls: seq<Call>) {
    forall i :: 0 <= i < |calls| && calls[i].AddRange? ==> calls[i].r.start <= calls[i].r.end
  }

  /** Over every run the list stays sorted and holds every address ever added. */
  lemma {:induction false} RunDescribes(calls: seq<Call>)
    requires Proper(calls)
    ensures Describes(Run(calls), AllPoints(calls))
    decreases |calls|
  {
    hide Describes, Added, Collected, AllPoints, Points;
    if calls == [] {
      NothingDescribes();
    } else {
      var n := |calls| - 1;
      var before := calls[..n];
      RunDescribes(before);
      match calls[n]
      case AddRange(r) =>
        AddedDescribes(Run(before), r, AllPoints(before));
        PointsMore(calls);
      case Collect =>
        CollectedDescribes(Run(before), AllPoints(before));
        PointsMore(calls);
        assert AllPoints(before) + iset{} == AllPoints(before);
    }
  }

  lemma NothingDescribes()
    ensures Describes([], AllPoints([]))
  {}

  lemma PointsMore(calls: seq<Call>)
    requires calls != []
    ensures var n := |calls| - 1;
            AllPoints(calls) == AllPoints(calls[..n]) + if calls[n].AddRange? then Points(calls[n].r) else iset{}
  {
    var n := |calls| - 1;
    forall x ensures AddedBy(x, calls) <==> AddedBy(x, calls[..n]) || (calls[n].AddRange? && In(x, calls[n].r)) {
      if AddedBy(x, calls[..n]) {
        var i :| 0 <= i < n && calls[..n][i].AddRange? && In(x, calls[..n][i].r);
        assert calls[i].AddRange? && In(x, calls[i].r);
      }
      if AddedBy(x, calls) {
        var i :| 0 <= i < |calls| && calls[i].AddRange? && In(x, calls[i].r);
        assert i < n ==> calls[..n][i].AddRange? && In(x, calls[..n][i].r);
      }
    }
  }

  /** Whatever the order in which ranges are added, and whenever the list is collected in between,
      collecting at the end gives the same list for the same addresses. */
  lemma OrderIrrelevant(calls: seq<Call>, others: seq<Call>)
    requires Proper(calls) && Proper(others) && AllPoints(calls) == AllPoints(others)
    ensures Collected(Run(calls)) == Collected(Run(others))
  {
    hide Describes, Run, Collected, Apart, AllPoints;
    RunDescribes(calls);
    RunDescribes(others);
    CollectedDescribes(Run(calls), AllPoints(calls));
    CollectedDescribes(Run(others), AllPoints(others));
    CanonicalUnique(Collected(Run(calls)), Collected(Run(others)), AllPoints(calls));
  }
}
