/** Names of at most 32 characters for the objects of a database that is written to a DBC file: a longer name
    keeps its first 27 characters and gets a four-digit number. */
module ShortNames {
  import opened Bits
  import opened Wrappers

  const MAX_LENGTH := 32
  const STEM := MAX_LENGTH - 5
  const COUNTER_END := 10_000
  const UNDERSCORE: uint8 := 95

  type Name = seq<uint8>

  /** The names so far, and the next number. */
  datatype Outcome<Object> = Outcome(names: map<Object, Name>, counter: nat)

  // ---- specification -------------------------------------------------------------------

  predicate Long(s: Name) {
    |s| > MAX_LENGTH
  }

  function Digits(i: nat): (d: Name)
    requires i < COUNTER_END
    ensures |d| == 4 && FourDigits(d[0], d[1], d[2], d[3]) == i
    ensures forall k :: 0 <= k < 4 ==> 48 <= d[k] < 58
  {
    var tens := i / 10;
    var hundreds := tens / 10;
    var thousands := hundreds / 10;
    [48 + thousands, 48 + hundreds % 10, 48 + tens % 10, 48 + i % 10]
  }

  /** The number that a name of 32 characters ends in. */
  function Number(s: Name): int
    requires |s| == MAX_LENGTH
  {
    FourDigits(s[28], s[29], s[30], s[31])
  }

  function FourDigits(a: int, b: int, c: int, d: int): int {
    (a - 48) * 1000 + (b - 48) * 100 + (c - 48) * 10 + (d - 48)
  }

  function Candidate(s: Name, i: nat): (c: Name)
    requires |s| >= STEM && i < COUNTER_END
    ensures |c| == MAX_LENGTH && c[..STEM] == s[..STEM]
  {
    s[..STEM] + [UNDERSCORE] + Digits(i)
  }

  lemma CandidateNumber(s: Name, i: nat)
    requires |s| >= STEM && i < COUNTER_END
    ensures Number(Candidate(s, i)) == i && Candidate(s, i)[STEM] == UNDERSCORE
    ensures forall k :: STEM < k < MAX_LENGTH ==> 48 <= Candidate(s, i)[k] < 58
    ensures var c := Candidate(s, i);
            i == 1000 * (c[28] as int - 48) + 100 * (c[29] as int - 48) + 10 * (c[30] as int - 48) + (c[31] as int - 48)
  {
    var c := Candidate(s, i);
    assert c[28] == Digits(i)[0] && c[29] == Digits(i)[1] && c[30] == Digits(i)[2] && c[31] == Digits(i)[3];
  }

  predicate AllTaken(s: Name, syms: set<Name>, first: nat, end: nat)
    requires |s| >= STEM && end <= COUNTER_END
  {
    forall j: nat :: first <= j < end ==> Candidate(s, j) in syms
  }

  /** The first number from i on that gives a name not among syms, as long as four digits do. */
  function NextFree(s: Name, syms: set<Name>, i: nat): (r: Option<nat>)
    requires |s| >= STEM && i <= COUNTER_END
    ensures r.Some? ==> i <= r.value < COUNTER_END && Candidate(s, r.value) !in syms
    decreases COUNTER_END - i
  {
    hide Candidate;
    if i == COUNTER_END then None
    else if Candidate(s, i) in syms then NextFree(s, syms, i + 1)
    else Some(i)
  }

  lemma {:induction false} NextFreeIsFirst(s: Name, syms: set<Name>, i: nat)
    requires |s| >= STEM && i <= COUNTER_END
    ensures var r := NextFree(s, syms, i); AllTaken(s, syms, i, if r.Some? then r.value else COUNTER_END)
    decreases COUNTER_END - i
  {
    hide Candidate;
    if i < COUNTER_END && Candidate(s, i) in syms { NextFreeIsFirst(s, syms, i + 1); }
  }

  /** Visiting the objects in the given order; None when the numbers run out. */
  function Shortened<Object>(names: map<Object, Name>, syms: set<Name>, order: seq<Object>): (r: Option<Outcome<Object>>)
    requires forall o :: o in order ==> o in names
    ensures r.Some? ==> r.value.counter <= COUNTER_END
  {
    if order == [] then Some(Outcome(names, 0))
    else
      var o := order[|order| - 1];
      var before := Shortened(names, syms, order[..|order| - 1]);
      if before.None? || !Long(names[o]) then before
      else
        var j := NextFree(names[o], syms, before.value.counter);
        if j.None? then None
        else Some(Outcome(before.value.names[o := Candidate(names[o], j.value)], j.value + 1))
  }

  /** `order` visits every object once: the order in which a hash map happens to be walked. */
  ghost predicate Visits<Object(!new)>(order: seq<Object>, names: map<Object, Name>) {
    && (forall o :: o in order <==> o in names)
    && (forall i, j :: 0 <= i < j < |order| ==> order[i] != order[j])
  }

  // ---- the operation -------------------------------------------------------------------

  /** The source formats the number with four digits or more; a fifth would run over its buffer, which is
      the failure here. */
  method ConstructShortSyms<Object(!new)>(names: map<Object, Name>, order: seq<Object>)
    returns (result: Option<map<Object, Name>>)
    requires Visits(order, names)
    ensures var r := Shortened(names, names.Values, order);
            result == if r.Some? then Some(r.value.names) else None
  {
    hide NextFree, Candidate, Long;
    var syms := names.Values;
    var short, i := names, 0;
    for k := 0 to |order|
      invariant 0 <= i <= COUNTER_END
      invariant Shortened(names, syms, order[..k]) == Some(Outcome(short, i))
      invariant short.Keys == names.Keys && forall m :: k <= m < |order| ==> short[order[m]] == names[order[m]]
    {
      var o := order[k];
      assert order[..k + 1][..k] == order[..k];
      if Long(short[o]) {
        var name, next := NextName(short[o], syms, i);
        if name.None? {
          RunsOut(names, syms, order, k);
          return None;
        }
        short, i := short[o := name.value], next;
      }
    }
    assert order[..|order|] == order;
    result := Some(short);
  }

  /** Counts up until a name is not taken. */
  method NextName(original: Name, syms: set<Name>, first: nat) returns (r: Option<Name>, next: nat)
    requires Long(original) && first <= COUNTER_END
    ensures var j := NextFree(original, syms, first);
            if j.Some? then r == Some(Candidate(original, j.value)) && next == j.value + 1 else r == None
  {
    hide Digits;
    var s, i, taken := original, first, true;
    while taken
      invariant |s| >= STEM && s[..STEM] == original[..STEM] && first <= i <= COUNTER_END
      invariant taken ==> NextFree(original, syms, first) == NextFree(original, syms, i)
      invariant !taken ==> i > 0 && NextFree(original, syms, first) == Some(i - 1) && s == Candidate(original, i - 1)
      decreases taken, COUNTER_END - i
    {
      if i == COUNTER_END { return None, i; }
      s := Candidate(s, i);
      i := i + 1;
      taken := s in syms;
    }
    return Some(s), i;
  }

  lemma {:induction false} RunsOut<Object>(names: map<Object, Name>, syms: set<Name>, order: seq<Object>, k: nat)
    requires (forall o :: o in order ==> o in names) && k < |order|
    requires Shortened(names, syms, order[..k + 1]).None?
    ensures Shortened(names, syms, order).None?
    decreases |order|
  {
    hide NextFree, Candidate, Long;
    var n := |order| - 1;
    if k < n {
      assert order[..n][..k + 1] == order[..k + 1];
      RunsOut(names, syms, order[..n], k);
    } else {
      assert order[..k + 1] == order;
    }
  }

  // ---- what the names are --------------------------------------------------------------

  /** What holds of the names once the objects of `order` have been visited. */
  ghost predicate Fresh<Object(!new)>(names: map<Object, Name>, syms: set<Name>, order: seq<Object>, r: Outcome<Object>) {
    && r.names.Keys == names.Keys
    && (forall o :: o in names && (o !in order || !Long(names[o])) ==> r.names[o] == names[o])
    && (forall o :: o in names && o in order && Long(names[o]) ==> Replaces(r.names[o], names[o], syms, r.counter))
    && (forall o, p :: o in names && p in names && o in order && p in order && o != p && Long(names[o]) && Long(names[p]) ==>
          r.names[o] != r.names[p])
  }

  predicate Replaces(t: Name, s: Name, syms: set<Name>, counter: nat)
    requires Long(s)
  {
    && |t| == MAX_LENGTH
    && t[..STEM] == s[..STEM]
    && t[STEM] == UNDERSCORE
    && (forall i :: STEM < i < MAX_LENGTH ==> 48 <= t[i] < 58)
    && 0 <= Number(t) < counter
    && t !in syms
  }

  lemma ReplacesMore(t: Name, s: Name, syms: set<Name>, c: nat, d: nat)
    requires Long(s) && c <= d && Replaces(t, s, syms, c)
    ensures Replaces(t, s, syms, d)
  {}

  lemma NextReplaces(s: Name, syms: set<Name>, i: nat)
    requires Long(s) && i <= COUNTER_END && NextFree(s, syms, i).Some?
    ensures var j := NextFree(s, syms, i).value;
            Replaces(Candidate(s, j), s, syms, j + 1) && Number(Candidate(s, j)) == j >= i
  {
    hide Number, Candidate, Digits;
    CandidateNumber(s, NextFree(s, syms, i).value);
  }

  lemma FreshStart<Object(!new)>(names: map<Object, Name>, syms: set<Name>)
    ensures Fresh(names, syms, [], Outcome(names, 0))
  {}

  lemma FreshSkip<Object(!new)>(names: map<Object, Name>, syms: set<Name>, done: seq<Object>, before: Outcome<Object>,
                                o: Object)
    requires Fresh(names, syms, done, before) && o in names && o !in done && !Long(names[o])
    ensures Fresh(names, syms, done + [o], before)
  {
    hide Replaces, Number;
  }

  lemma FreshStep<Object(!new)>(names: map<Object, Name>, syms: set<Name>, done: seq<Object>, before: Outcome<Object>,
                                o: Object, t: Name, c: nat)
    requires Fresh(names, syms, done, before) && o in names && o !in done && Long(names[o])
    requires Replaces(t, names[o], syms, c) && Number(t) >= before.counter && before.counter <= c
    ensures Fresh(names, syms, done + [o], Outcome(before.names[o := t], c))
  {
    hide Number, Long;
    forall p | p in names && p in done && Long(names[p])
      ensures Replaces(before.names[p], names[p], syms, c) && before.names[p] != t
    {
      ReplacesMore(before.names[p], names[p], syms, before.counter, c);
    }
    hide Replaces;
  }

  lemma {:induction false} ShortenedFresh<Object(!new)>(names: map<Object, Name>, syms: set<Name>, order: seq<Object>)
    requires forall o :: o in order ==> o in names
    requires forall i, j :: 0 <= i < j < |order| ==> order[i] != order[j]
    ensures var r := Shortened(names, syms, order); r.Some? ==> Fresh(names, syms, order, r.value)
    decreases |order|
  {
    hide NextFree, Candidate, Number, Replaces, Fresh;
    if order == [] {
      FreshStart(names, syms);
    } else {
      var n := |order| - 1;
      var o, done := order[n], order[..n];
      ShortenedFresh(names, syms, done);
      assert order == done + [o] && o !in done;
      var before := Shortened(names, syms, done);
      if before.Some? && !Long(names[o]) {
        FreshSkip(names, syms, done, before.value, o);
      } else if before.Some? {
        var j := NextFree(names[o], syms, before.value.counter);
        if j.Some? {
          NextReplaces(names[o], syms, before.value.counter);
          FreshStep(names, syms, done, before.value, o, Candidate(names[o], j.value), j.value + 1);
        }
      }
    }
  }

  /** Names of up to 32 characters stay; each longer one is replaced by its first 27 characters, an underscore and
      four digits, which is none of the original names and no other replacement. */
  lemma ShortSyms<Object(!new)>(names: map<Object, Name>, order: seq<Object>)
    requires Visits(order, names) && Shortened(names, names.Values, order).Some?
    ensures var r := Shortened(names, names.Values, order).value.names;
            && r.Keys == names.Keys
            && (forall o :: o in names && |names[o]| <= 32 ==> r[o] == names[o])
            && (forall o :: o in names && |names[o]| > 32 ==>
                  |r[o]| == 32 && r[o][..27] == names[o][..27] && r[o][27] == 95 && r[o] !in names.Values)
            && (forall o, i :: o in names && |names[o]| > 32 && 28 <= i < 32 ==> 48 <= r[o][i] < 58)
            && (forall o, p :: o in names && p in names && o != p && |names[o]| > 32 && |names[p]| > 32 ==> r[o] != r[p])
  {
    hide Shortened;
    ShortenedFresh(names, names.Values, order);
  }

  ghost predicate Injective<Object(!new)>(names: map<Object, Name>) {
    forall o, p :: o in names && p in names && o != p ==> names[o] != names[p]
  }

  /** The map is one-to-one exactly when no two objects share a name that is short already. */
  lemma InjectiveWhen<Object(!new)>(names: map<Object, Name>, order: seq<Object>)
    requires Visits(order, names) && Shortened(names, names.Values, order).Some?
    ensures Injective(Shortened(names, names.Values, order).value.names) <==>
            forall o, p :: o in names && p in names && o != p && |names[o]| <= 32 ==> names[o] != names[p]
  {
    hide Shortened;
    ShortSyms(names, order);
    var r := Shortened(names, names.Values, order).value.names;
    forall o, p | o in names && p in names && o != p && |names[o]| <= 32 && Injective(r)
      ensures names[o] != names[p]
    {
      assert r[o] != r[p];
    }
  }

  lemma {:induction false} NothingToShorten<Object>(names: map<Object, Name>, syms: set<Name>, order: seq<Object>)
    requires forall o :: o in order ==> o in names && !Long(names[o])
    ensures Shortened(names, syms, order) == Some(Outcome(names, 0))
    decreases |order|
  {
    hide NextFree, Candidate, Long;
    if order != [] { NothingToShorten(names, syms, order[..|order| - 1]); }
  }

  /** Two objects that share a short name keep it, and the map is not injective. */
  lemma SharedNameIsKept()
    ensures var names: map<int, Name> := map[0 := [97], 1 := [97]];
            var r := Shortened(names, names.Values, [0, 1]);
            Visits([0, 1], names) && r.Some? && r.value.names == names && !Injective(names)
  {
    var names: map<int, Name> := map[0 := [97], 1 := [97]];
    hide Shortened;
    NothingToShorten(names, names.Values, [0, 1]);
    assert names[0] == names[1];
  }

  // ---- how far the numbers go ----------------------------------------------------------

  function LongCount<Object>(names: map<Object, Name>, order: seq<Object>): nat
    requires forall o :: o in order ==> o in names
  {
    if order == [] then 0
    else LongCount(names, order[..|order| - 1]) + if Long(names[order[|order| - 1]]) then 1 else 0
  }

  /** The numbers that names of 32 characters already end in. */
  ghost function Numbers(syms: set<Name>): set<int> {
    set s | s in syms && |s| == MAX_LENGTH :: Number(s)
  }

  ghost function Below(t: set<int>, c: int): set<int> {
    set x | x in t && x < c
  }

  function Range(lo: int, hi: int): (r: set<int>)
    requires lo <= hi
    ensures |r| == hi - lo && forall x :: x in r <==> lo <= x < hi
    decreases hi - lo
  {
    if lo == hi then {} else Range(lo, hi - 1) + {hi - 1}
  }

  lemma SubsetSize<T>(a: set<T>, b: set<T>)
    requires a <= b
    ensures |a| <= |b|
  {
    assert b == a + (b - a);
  }

  lemma TakenNumbers(s: Name, syms: set<Name>, lo: nat, hi: nat)
    requires |s| >= STEM && lo <= hi <= COUNTER_END && AllTaken(s, syms, lo, hi)
    ensures var t := Numbers(syms); |Below(t, lo)| + (hi - lo) <= |Below(t, hi)| <= |t|
  {
    hide Candidate, Number;
    var t := Numbers(syms);
    forall x | lo <= x < hi ensures x in t {
      CandidateNumber(s, x);
      assert Candidate(s, x) in syms;
    }
    SubsetSize(Below(t, lo) + Range(lo, hi), Below(t, hi));
    SubsetSize(Below(t, hi), t);
    assert Below(t, lo) !! Range(lo, hi);
  }

  /** The counter is paid for by the long names and by numbers already taken. */
  lemma {:induction false} CounterBound<Object>(names: map<Object, Name>, syms: set<Name>, order: seq<Object>)
    requires forall o :: o in order ==> o in names
    ensures var r, t, n := Shortened(names, syms, order), Numbers(syms), LongCount(names, order);
            if r.Some? then n <= r.value.counter <= n + |Below(t, r.value.counter)| else COUNTER_END < n + |t|
    decreases |order|
  {
    hide Candidate, NextFree, Numbers, Below, Long;
    if order != [] {
      var o, done := order[|order| - 1], order[..|order| - 1];
      CounterBound(names, syms, done);
      var before := Shortened(names, syms, done);
      if before.Some? && Long(names[o]) {
        LongStep(names[o], syms, before.value.counter);
      }
    }
  }

  lemma LongStep(s: Name, syms: set<Name>, c: nat)
    requires Long(s) && c <= COUNTER_END
    ensures var j, t := NextFree(s, syms, c), Numbers(syms);
            if j.Some? then |Below(t, c)| + (j.value - c) <= |Below(t, j.value + 1)|
            else |Below(t, c)| + (COUNTER_END - c) <= |t|
  {
    hide Candidate, NextFree, Numbers;
    var j, t := NextFree(s, syms, c), Numbers(syms);
    NextFreeIsFirst(s, syms, c);
    TakenNumbers(s, syms, c, if j.Some? then j.value else COUNTER_END);
    if j.Some? { SubsetSize(Below(t, j.value), Below(t, j.value + 1)); }
  }

  lemma {:induction false} FewNumbers(syms: set<Name>)
    ensures |Numbers(syms)| <= |syms|
    decreases |syms|
  {
    hide Number;
    if syms != {} {
      var s :| s in syms;
      var others := syms - {s};
      FewNumbers(others);
      if |s| == MAX_LENGTH {
        assert Numbers(syms) == Numbers(others) + {Number(s)};
      } else {
        assert Numbers(syms) == Numbers(others);
      }
    }
  }

  /** The numbers do not run out while long names and distinct original names are 10000 or fewer together, and
      never are more numbers used than there are of those. */
  lemma StepsTaken<Object(!new)>(names: map<Object, Name>, order: seq<Object>)
    requires Visits(order, names)
    ensures var r, n, m := Shortened(names, names.Values, order), LongCount(names, order), |names.Values|;
            && (r.Some? ==> n <= r.value.counter <= n + m)
            && (n + m <= 10_000 ==> r.Some?)
            && (n > 10_000 ==> r.None?)
  {
    hide Numbers, Shortened, LongCount;
    var r := Shortened(names, names.Values, order);
    CounterBound(names, names.Values, order);
    FewNumbers(names.Values);
    if r.Some? { SubsetSize(Below(Numbers(names.Values), r.value.counter), Numbers(names.Values)); }
  }
}
