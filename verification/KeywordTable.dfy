/** The keyword lookup of the DBC lexer: open addressing with linear probing. */
module KeywordTable {
  import opened Bits

  datatype Keyword = Keyword(name: seq<uint8>, token: int)

  datatype Slot = Empty | Used(keyword: Keyword, hashVal: uint32)

  // ---- hash value --------------------------------------------------------------------

  /** One character: double and add, then fold the bits above 24 back in. */
  function HashStep(h: nat, c: uint8): nat {
    var g := h * 2 + c;
    g % 0x100_0000 + g / 0x100_0000 % 0x100
  }

  /** The hash stays just above 24 bits, far below what the table's 32-bit field holds. */
  function HashOf(s: seq<uint8>): (h: uint32)
    ensures h <= 0x100_0001
  {
    if s == [] then 0 else HashStep(HashOf(s[..|s| - 1]), s[|s| - 1])
  }

  method HashValue(s: seq<uint8>) returns (h: nat)
    ensures h == HashOf(s) <= 0x100_0001
  {
    h := 0;
    for i := 0 to |s|
      invariant h == HashOf(s[..i])
    {
      assert s[..i + 1][..i] == s[..i];
      h := h * 2 + s[i];
      h := h % 0x100_0000 + h / 0x100_0000 % 0x100;
    }
    assert s[..|s|] == s;
  }

  // ---- probe sequences -----------------------------------------------------------------

  /** The slot `d` steps after `home`, around the end of the table. */
  function Probe(home: nat, d: nat, size: nat): (i: nat)
    requires home < size && d < size
    ensures i < size
  {
    if home + d < size then home + d else home + d - size
  }

  /** How far slot i lies after `home`. */
  function Distance(home: nat, i: nat, size: nat): (d: nat)
    requires home < size && i < size
    ensures d < size && Probe(home, d, size) == i
  {
    if i >= home then i - home else i + size - home
  }

  function Home(name: seq<uint8>, size: nat): (h: nat)
    requires size > 0
    ensures h < size
  {
    HashOf(name) % size
  }

  function Next(i: nat, size: nat): (j: nat)
    requires i < size
    ensures j == if i + 1 == size then 0 else i + 1
  {
    (i + 1) % size
  }

  /** Slot at[k] holds keyword k, and every slot that a search for it passes before is in use. */
  ghost predicate Placed(t: seq<Slot>, ks: seq<Keyword>, at: seq<nat>) {
    && |t| > 0
    && |at| == |ks|
    && (forall k :: 0 <= k < |ks| ==> at[k] < |t| && t[at[k]] == Used(ks[k], HashOf(ks[k].name)))
    && (forall i :: 0 <= i < |t| && t[i].Used? ==> i in at)
    && (forall k, d :: 0 <= k < |ks| && 0 <= d < Distance(Home(ks[k].name, |t|), at[k], |t|) ==>
          t[Probe(Home(ks[k].name, |t|), d, |t|)].Used?)
  }

  /** Of keywords with one name, the search meets the earlier first. */
  ghost predicate EarlierFirst(size: nat, ks: seq<Keyword>, at: seq<nat>)
    requires size > 0 && |at| == |ks| && forall k :: 0 <= k < |at| ==> at[k] < size
  {
    forall k, m :: 0 <= k < m < |ks| && ks[k].name == ks[m].name ==>
      Distance(Home(ks[k].name, size), at[k], size) < Distance(Home(ks[k].name, size), at[m], size)
  }

  lemma {:induction false} FewInRange(at: seq<nat>, n: nat)
    requires forall i :: 0 <= i < n ==> i in at
    ensures n <= |at|
    decreases n
  {
    if n > 0 {
      assert n - 1 in at;
      var k :| 0 <= k < |at| && at[k] == n - 1;
      var rest := at[..k] + at[k + 1..];
      forall i | 0 <= i < n - 1 ensures i in rest {
        assert i in at;
        var j :| 0 <= j < |at| && at[j] == i;
        assert rest[if j < k then j else j - 1] == i;
      }
      FewInRange(rest, n - 1);
    }
  }

  /** With fewer keywords than slots some slot is empty, so that every search ends. */
  lemma SomeSlotEmpty(t: seq<Slot>, ks: seq<Keyword>, at: seq<nat>)
    requires Placed(t, ks, at) && |ks| < |t|
    ensures exists i :: 0 <= i < |t| && t[i].Empty?
  {
    if forall i :: 0 <= i < |t| ==> t[i].Used? {
      FewInRange(at, |t|);
    }
  }

  // ---- building --------------------------------------------------------------------------

  ghost predicate IsTableOf(t: seq<Slot>, ks: seq<Keyword>) {
    |t| == 2 * |ks| + 1 && exists at :: Placed(t, ks, at) && EarlierFirst(|t|, ks, at)
  }

  method BuildKeywordHashTable(keywords: seq<Keyword>) returns (table: array<Slot>)
    ensures fresh(table) && IsTableOf(table[..], keywords)
  {
    var size := 2 * |keywords| + 1;
    table := new Slot[size](_ => Empty);
    ghost var at: seq<nat> := [];
    var i := 0;
    while i < |keywords|
      invariant 0 <= i <= |keywords|
      invariant Placed(table[..], keywords[..i], at) && EarlierFirst(size, keywords[..i], at)
    {
      at := InsertKeyword(table, keywords[i], keywords[..i], at);
      assert keywords[..i + 1] == keywords[..i] + [keywords[i]];
      i := i + 1;
    }
    assert keywords[..i] == keywords;
  }

  method InsertKeyword(table: array<Slot>, keyword: Keyword, ghost ks: seq<Keyword>, ghost at: seq<nat>)
    returns (ghost at1: seq<nat>)
    requires Placed(table[..], ks, at) && EarlierFirst(table.Length, ks, at) && |ks| < table.Length
    modifies table
    ensures Placed(table[..], ks + [keyword], at1) && EarlierFirst(table.Length, ks + [keyword], at1)
  {
    ghost var t := table[..];
    SomeSlotEmpty(t, ks, at);
    ghost var free :| 0 <= free < |t| && t[free].Empty?;
    var h := HashValue(keyword.name);
    var idx := h % table.Length;
    ghost var d;
    idx, d := FirstFree(table, idx, free);
    table[idx] := Used(keyword, h);
    PlacedMore(t, ks, at, keyword, d);
    OrderKept(t, ks, at, keyword, d);
    assert table[..] == t[idx := Used(keyword, h)];
    at1 := at + [idx];
  }

  method FirstFree(table: array<Slot>, home: nat, ghost free: nat) returns (idx: nat, ghost d: nat)
    requires home < table.Length && free < table.Length && table[free].Empty?
    ensures d < table.Length && idx == Probe(home, d, table.Length) && table[idx].Empty?
    ensures forall e :: 0 <= e < d ==> table[Probe(home, e, table.Length)].Used?
  {
    idx, d := home, 0;
    while table[idx].Used?
      invariant 0 <= d <= Distance(home, free, table.Length) && idx == Probe(home, d, table.Length)
      invariant forall e :: 0 <= e < d ==> table[Probe(home, e, table.Length)].Used?
      decreases Distance(home, free, table.Length) - d
    {
      idx, d := Next(idx, table.Length), d + 1;
    }
  }

  lemma PlacedMore(t: seq<Slot>, ks: seq<Keyword>, at: seq<nat>, kw: Keyword, d: nat)
    requires Placed(t, ks, at) && d < |t|
    requires forall e :: 0 <= e < d ==> t[Probe(Home(kw.name, |t|), e, |t|)].Used?
    requires t[Probe(Home(kw.name, |t|), d, |t|)].Empty?
    ensures var idx := Probe(Home(kw.name, |t|), d, |t|);
            Placed(t[idx := Used(kw, HashOf(kw.name))], ks + [kw], at + [idx])
  {
    var idx := Probe(Home(kw.name, |t|), d, |t|);
    var t1, at1 := t[idx := Used(kw, HashOf(kw.name))], at + [idx];
    forall i | 0 <= i < |t1| && t1[i].Used? ensures i in at1 {
      assert at1[|at|] == idx;
      if i != idx { assert i in at; }
    }
  }

  lemma OrderKept(t: seq<Slot>, ks: seq<Keyword>, at: seq<nat>, kw: Keyword, d: nat)
    requires Placed(t, ks, at) && d < |t| && EarlierFirst(|t|, ks, at)
    requires forall e :: 0 <= e < d ==> t[Probe(Home(kw.name, |t|), e, |t|)].Used?
    requires t[Probe(Home(kw.name, |t|), d, |t|)].Empty?
    ensures EarlierFirst(|t|, ks + [kw], at + [Probe(Home(kw.name, |t|), d, |t|)])
  {
    var home := Home(kw.name, |t|);
    var idx := Probe(home, d, |t|);
    assert Distance(home, idx, |t|) == d;
    hide Home;
    forall k | 0 <= k < |ks| && ks[k].name == kw.name
      ensures Distance(home, at[k], |t|) < d
    {
      assert t[at[k]].Used? && t[idx].Empty?;
    }
  }

  // ---- searching ---------------------------------------------------------------------------

  /** The token of the keyword with this name, 0 if there is none. */
  function LinearSearch(ks: seq<Keyword>, name: seq<uint8>): int {
    if ks == [] then 0 else if ks[0].name == name then ks[0].token else LinearSearch(ks[1..], name)
  }

  predicate FirstWithName(ks: seq<Keyword>, name: seq<uint8>, k: nat) {
    k < |ks| && ks[k].name == name && forall i :: 0 <= i < k ==> ks[i].name != name
  }

  lemma {:induction false} LinearSearchFinds(ks: seq<Keyword>, name: seq<uint8>)
    ensures forall k: nat :: FirstWithName(ks, name, k) ==> LinearSearch(ks, name) == ks[k].token
    ensures (forall k :: 0 <= k < |ks| ==> ks[k].name != name) ==> LinearSearch(ks, name) == 0
    decreases |ks|
  {
    if ks != [] {
      LinearSearchFinds(ks[1..], name);
      assert forall k :: 0 <= k < |ks[1..]| ==> ks[1..][k] == ks[k + 1];
      forall k: nat | FirstWithName(ks, name, k) ensures LinearSearch(ks, name) == ks[k].token {
        if k > 0 { assert FirstWithName(ks[1..], name, k - 1); }
      }
    }
  }

  /** Agrees with a linear search through the keywords on every input, even if they are not distinct; -1 while
      there is no table. */
  method FindToken(table: array?<Slot>, name: seq<uint8>, ghost keywords: seq<Keyword>) returns (token: int)
    requires table != null ==> IsTableOf(table[..], keywords)
    ensures token == if table == null then -1 else LinearSearch(keywords, name)
  {
    if table == null { return -1; }
    ghost var t := table[..];
    ghost var at :| Placed(t, keywords, at) && EarlierFirst(|t|, keywords, at);
    SomeSlotEmpty(t, keywords, at);
    ghost var free :| 0 <= free < |t| && t[free].Empty?;
    var h := HashValue(name);
    ghost var d;
    var idx := h % table.Length;
    idx, d := Search(table, name, h, idx, free);
    SearchResult(t, keywords, at, name, d);
    if table[idx].Empty? { return 0; }
    token := table[idx].keyword.token;
  }

  predicate Matches(slot: Slot, h: nat, name: seq<uint8>) {
    slot.Used? && slot.hashVal == h && slot.keyword.name == name
  }

  method Search(table: array<Slot>, name: seq<uint8>, h: nat, home: nat, ghost free: nat) returns (idx: nat, ghost d: nat)
    requires home < table.Length && free < table.Length && table[free].Empty?
    ensures d < table.Length && idx == Probe(home, d, table.Length)
    ensures table[idx].Empty? || Matches(table[idx], h, name)
    ensures forall e :: 0 <= e < d ==> !Matches(table[Probe(home, e, table.Length)], h, name)
  {
    idx, d := home, 0;
    while table[idx].Used? && (table[idx].hashVal != h || table[idx].keyword.name != name)
      invariant 0 <= d <= Distance(home, free, table.Length) && idx == Probe(home, d, table.Length)
      invariant forall e :: 0 <= e < d ==> !Matches(table[Probe(home, e, table.Length)], h, name)
      decreases Distance(home, free, table.Length) - d
    {
      idx, d := Next(idx, table.Length), d + 1;
    }
  }

  /** A search that reaches an empty slot has missed nothing. */
  lemma MissingKeyword(t: seq<Slot>, ks: seq<Keyword>, at: seq<nat>, name: seq<uint8>, d: nat)
    requires Placed(t, ks, at) && d < |t| && t[Probe(Home(name, |t|), d, |t|)].Empty?
    requires forall e :: 0 <= e < d ==> !Matches(t[Probe(Home(name, |t|), e, |t|)], HashOf(name), name)
    ensures forall k :: 0 <= k < |ks| ==> ks[k].name != name
  {
    forall k | 0 <= k < |ks| ensures ks[k].name != name {
      var e := Distance(Home(ks[k].name, |t|), at[k], |t|);
      assert t[Probe(Home(ks[k].name, |t|), e, |t|)] == t[at[k]];
    }
  }

  lemma SearchResult(t: seq<Slot>, ks: seq<Keyword>, at: seq<nat>, name: seq<uint8>, d: nat)
    requires Placed(t, ks, at) && EarlierFirst(|t|, ks, at) && d < |t|
    requires forall e :: 0 <= e < d ==> !Matches(t[Probe(Home(name, |t|), e, |t|)], HashOf(name), name)
    ensures var slot := t[Probe(Home(name, |t|), d, |t|)];
            && (slot.Empty? ==> LinearSearch(ks, name) == 0)
            && (Matches(slot, HashOf(name), name) ==> LinearSearch(ks, name) == slot.keyword.token)
  {
    LinearSearchFinds(ks, name);
    var idx := Probe(Home(name, |t|), d, |t|);
    if t[idx].Empty? {
      MissingKeyword(t, ks, at, name, d);
    } else if Matches(t[idx], HashOf(name), name) {
      assert idx in at;
      var j :| 0 <= j < |at| && at[j] == idx;
      assert Distance(Home(name, |t|), idx, |t|) == d;
      forall k | 0 <= k < j ensures ks[k].name != name {
        if ks[k].name == name {
          var e := Distance(Home(name, |t|), at[k], |t|);
          assert Matches(t[Probe(Home(name, |t|), e, |t|)], HashOf(name), name);
        }
      }
      assert FirstWithName(ks, name, j);
    }
  }
}
