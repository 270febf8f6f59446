/** The enumeration of an attribute definition: a linked list in which entry k is meant to have value k.
    Gaps are filled with entries called "reserved". */
module Enumeration {
  import opened Bits
  import opened Wrappers
  import opened DbcString

  type Name = seq<uint8>

  const RESERVED: Name := [114, 101, 115, 101, 114, 118, 101, 100]

  datatype AttributeType = Integer | Hex | Float | Enumeration | String | Invalid

  // ---- specification -------------------------------------------------------------------

  /** The list, as names by value, after `name` was added for value v. */
  function WithName(names: seq<Name>, name: Name, v: nat): (r: seq<Name>)
    ensures |r| == (if v < |names| then |names| else v + 1) && r[v] == name
    ensures forall k :: 0 <= k < |names| && k != v ==> r[k] == names[k]
    ensures forall k :: |names| <= k < v ==> r[k] == RESERVED
  {
    if v < |names| then names[v := name] else Padded(names, v) + [name]
  }

  function Padded(names: seq<Name>, n: nat): (r: seq<Name>)
    ensures |r| == (if n < |names| then |names| else n) && names <= r
    ensures forall k :: |names| <= k < n ==> r[k] == RESERVED
  {
    if n <= |names| then names else names + seq(n - |names|, _ => RESERVED)
  }

  /** The padding spells "reserved". */
  lemma ReservedIs()
    ensures |RESERVED| == 8 && forall i :: 0 <= i < 8 ==> RESERVED[i] as char == "reserved"[i]
  {}

  lemma PaddedOnce(names: seq<Name>)
    ensures Padded(names, 1) == if names == [] then [RESERVED] else names
  {}

  lemma PaddedTwice(names: seq<Name>, n: nat)
    ensures Padded(Padded(names, n), n + 1) == Padded(names, n + 1)
  {}

  /** The smallest value of a name, or -1. */
  function ValueOf(names: seq<Name>, name: Name): (v: int)
    ensures v == -1 <==> name !in names
    ensures v != -1 ==> 0 <= v < |names| && names[v] == name && name !in names[..v]
  {
    if name !in names then -1
    else if names[0] == name then 0
    else 1 + ValueOf(names[1..], name)
  }

  function With<T>(c: seq<T>, i: nat, x: T): (d: seq<T>)
    requires i <= |c|
    ensures |d| == (if i < |c| then |c| else i + 1) && d[i] == x
    ensures forall k :: 0 <= k < |d| && k != i ==> k < |c| && d[k] == c[k]
    ensures forall y :: y in d ==> y in c || y == x
  {
    c[..i] + [x] + if i < |c| then c[i + 1..] else []
  }

  class EnumEntry {
    var name: Name
    var value: int
    var next: EnumEntry?

    constructor (name: Name, value: int)
      ensures this.name == name && this.value == value && next == null
    {
      this.name, this.value, next := name, value, null;
    }
  }

  class AttributeDefinition {
    var kind: AttributeType
    var enumEntries: EnumEntry?
    ghost var entries: seq<EnumEntry>

    ghost predicate Valid()
      reads this, entries
    {
      && enumEntries == (if entries == [] then null else entries[0])
      && (forall i :: 0 <= i < |entries| - 1 ==> entries[i].next == entries[i + 1])
      && (entries != [] ==> entries[|entries| - 1].next == null)
      && (forall k :: 0 <= k < |entries| ==> entries[k].value == k)
    }

    /** The names, by value. */
    ghost function Names(): (names: seq<Name>)
      reads this, entries
      ensures |names| == |entries|
    {
      seq(|entries|, i requires 0 <= i < |entries| reads this, entries => entries[i].name)
    }

    constructor (kind: AttributeType)
      ensures Valid() && Names() == [] && this.kind == kind
    {
      this.kind, enumEntries, entries := kind, null, [];
    }

    method GetEnumerationNameByValue(v: int) returns (name: Option<Name>)
      requires Valid()
      ensures name == if kind == Enumeration && 0 <= v < |entries| then Some(Names()[v]) else None
    {
      if kind != Enumeration { return None; }
      var e := enumEntries;
      ghost var i := 0;
      while e != null
        invariant 0 <= i <= |entries|
        invariant e == if i < |entries| then entries[i] else null
        invariant !(0 <= v < i)
        decreases |entries| - i
      {
        if e.value == v { return Some(e.name); }
        e, i := e.next, i + 1;
      }
      return None;
    }

    method GetEnumerationValueByName(name: Name) returns (v: int)
      requires Valid()
      ensures v == if kind == Enumeration then ValueOf(Names(), name) else -1
    {
      if kind != Enumeration { return -1; }
      var e := enumEntries;
      ghost var i := 0;
      while e != null
        invariant 0 <= i <= |entries|
        invariant e == if i < |entries| then entries[i] else null
        invariant forall k :: 0 <= k < i ==> entries[k].name != name
        decreases |entries| - i
      {
        if name == e.name {
          assert Names()[i] == name;
          return e.value;
        }
        e, i := e.next, i + 1;
      }
      return -1;
    }

    method AddEnumeration(name: Option<Name>, value: int) returns (status: int)
      requires Valid()
      modifies this`enumEntries, this`entries, entries`next
      ensures Valid() && forall e :: e in entries ==> e in old(entries) || fresh(e)
      ensures var accepted := kind == Enumeration && name.Some? && value >= 0;
              && status == (if accepted then 0 else -1)
              && Names() == (if accepted then WithName(old(Names()), name.value, value) else old(Names()))
    {
      if kind != Enumeration || name.None? || value < 0 { return -1; }
      if value > 0 {
        var current := WalkTo(value);
        assert current in entries;
        ReplaceNext(current, name.value, value);
      } else {
        ReplaceFirst(name.value);
      }
      return 0;
    }

    /** The entry before the given value, with the gap up to it filled. */
    method WalkTo(value: int) returns (current: EnumEntry)
      requires Valid() && value > 0
      modifies this`enumEntries, this`entries, entries`next
      ensures Valid() && |entries| >= value && current == entries[value - 1]
      ensures forall e :: e in entries ==> e in old(entries) || fresh(e)
      ensures Names() == Padded(old(Names()), value)
    {
      if enumEntries == null {
        enumEntries := new EnumEntry(RESERVED, 0);
        entries := [enumEntries];
      }
      current := enumEntries;
      hide Padded;
      PaddedOnce(old(Names()));
      for i := 1 to value
        invariant Valid() && i <= |entries| && current == entries[i - 1]
        invariant forall e :: e in entries ==> e in old(entries) || fresh(e)
        invariant Names() == Padded(old(Names()), i)
      {
        assert current in entries;
        PaddedTwice(old(Names()), i);
        current := NextPadded(current, i);
      }
    }

    /** The entry after the given one, added if there is none. */
    method NextPadded(current: EnumEntry, i: nat) returns (next: EnumEntry)
      requires Valid() && 0 < i <= |entries| && current == entries[i - 1]
      modifies this`entries, current`next
      ensures Valid() && i < |entries| && next == entries[i]
      ensures forall e :: e in entries ==> e in old(entries) || fresh(e)
      ensures Names() == Padded(old(Names()), i + 1)
    {
      NextOf(i - 1);
      if current.next == null { ReplaceNext(current, RESERVED, i); }
      NextOf(i - 1);
      next := current.next;
    }

    lemma NextOf(i: nat)
      requires Valid() && i < |entries|
      ensures entries[i].next == if i + 1 < |entries| then entries[i + 1] else null
    {}

    method ReplaceNext(current: EnumEntry, name: Name, value: int)
      requires Valid() && 0 < value <= |entries| && current == entries[value - 1]
      modifies this`entries, current`next
      ensures Valid() && forall e :: e in entries ==> e in old(entries) || fresh(e)
      ensures |entries| >= value && entries[value - 1] == current
      ensures Names() == WithName(old(Names()), name, value)
    {
      hide With;
      var nextNext: EnumEntry? := null;
      assert forall i :: 0 <= i < |entries| && i != value - 1 ==> entries[i] != current;
      NextOf(value - 1);
      if current.next != null {
        NextOf(value);
        nextNext := current.next.next;
      }
      var entry := new EnumEntry(name, value);
      current.next := entry;
      entry.next := nextNext;
      entries := With(entries, value, entry);
    }

    method ReplaceFirst(name: Name)
      requires Valid()
      modifies this`enumEntries, this`entries
      ensures Valid() && forall e :: e in entries ==> e in old(entries) || fresh(e)
      ensures Names() == WithName(old(Names()), name, 0)
    {
      hide With;
      var nextNext: EnumEntry? := null;
      if enumEntries != null { nextNext := enumEntries.next; }
      var entry := new EnumEntry(name, 0);
      enumEntries := entry;
      entry.next := nextNext;
      entries := With(entries, 0, entry);
    }
  }
}
