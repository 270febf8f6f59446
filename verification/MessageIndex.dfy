/** The database's messages: a singly linked list and a chained hash index over the same messages. */
module MessageIndex {
  import opened Bits

  class Message {
    var id: uint32
    var extended: bool
    var next: Message?
    var candb: CANdb?

    constructor (id: uint32, extended: bool)
      ensures this.id == id && this.extended == extended && next == null && candb == null
    {
      this.id, this.extended, next, candb := id, extended, null, null;
    }

    /** The identifier with its top bit set for extended frames. */
    function IdAndExt(): uint32
      reads this`id, this`extended
    {
      if extended && id < 0x8000_0000 then id + 0x8000_0000 else id
    }
  }

  /** The top bit is set by a bitwise or. */
  lemma IdAndExtIsOr(m: Message)
    ensures m.IdAndExt() == if m.extended then Or(m.id, 0x8000_0000) else m.id
  {
    assert Pow2(8) == 0x100;
    Pow2Squared(8, 0x100);
    Pow2Squared(16, 0x1_0000);
    assert Pow2(32) == 2 * Pow2(31);
    OrTop(m.id, 31);
  }

  lemma {:induction false} OrTop(x: nat, n: nat)
    requires x < 2 * Pow2(n)
    ensures Or(x, Pow2(n)) == if x < Pow2(n) then x + Pow2(n) else x
    decreases n
  {
    if n > 0 { OrTop(x / 2, n - 1); }
  }

  /** A message is the one looked for when its identifier and its frame format are. */
  lemma IdentifierIs(m: Message, id: uint32)
    requires m.id < 0x8000_0000
    ensures m.IdAndExt() == id <==> m.id == id % 0x8000_0000 && m.extended == (id >= 0x8000_0000)
  {}

  class HashEntry {
    var message: Message?
    var next: HashEntry?

    constructor ()
      ensures message == null && next == null
    {
      message, next := null, null;
    }
  }

  ghost function EntryAt(c: seq<HashEntry>, i: nat): HashEntry? {
    if i < |c| then c[i] else null
  }

  function Without<T>(c: seq<T>, i: nat): (d: seq<T>)
    requires i < |c|
    ensures |d| == |c| - 1
    ensures forall k :: 0 <= k < i ==> d[k] == c[k]
    ensures forall k :: i <= k < |d| ==> d[k] == c[k + 1]
  {
    c[..i] + c[i + 1..]
  }

  function SecondInserted<T>(c: seq<T>, x: T): (d: seq<T>)
    requires c != []
    ensures |d| == |c| + 1 && d[0] == c[0] && d[1] == x
    ensures forall k :: 2 <= k < |d| ==> d[k] == c[k - 1]
    ensures forall y :: y in d ==> y in c || y == x
  {
    [c[0], x] + c[1..]
  }

  /** One bucket of the hash table: an entry embedded in the table, which may be empty, and the entries
      chained to it, which are not. `contents` lists their messages in order. */
  class Bucket {
    const head: HashEntry
    ghost var chain: seq<HashEntry>
    ghost var contents: seq<Message?>
    ghost var Repr: set<object>

    ghost predicate Valid()
      reads this, Repr
      ensures Valid() ==> this in Repr
    {
      && this in Repr
      && (forall e :: e in chain ==> e in Repr)
      && (forall o :: o in Repr ==> !(o is Message))
      && |chain| == |contents| > 0
      && chain[0] == head
      && (forall i :: 0 <= i < |chain| ==> chain[i].message == contents[i])
      && (forall i :: 0 <= i < |chain| - 1 ==> chain[i].next == chain[i + 1])
      && chain[|chain| - 1].next == null
      && (forall i, j :: 0 <= i < j < |chain| ==> chain[i] != chain[j])
      && (forall i :: 0 < i < |chain| ==> contents[i] != null)
    }

    constructor ()
      ensures Valid() && fresh(Repr) && contents == [null]
    {
      head := new HashEntry();
      new;
      chain, contents, Repr := [head], [null], {this, head};
    }

    method Insert(m: Message)
      requires Valid()
      modifies Repr
      ensures Valid() && fresh(Repr - old(Repr))
      ensures contents == Inserted(old(contents), m)
      ensures old(contents)[0] == null ==> contents[0] == m && contents[1..] == old(contents)[1..]
      ensures old(contents)[0] != null ==>
                |contents| == |old(contents)| + 1 && contents[0] == old(contents)[0] && contents[1] == m
                && contents[2..] == old(contents)[1..]
    {
      if head.message == null {
        head.message := m;
        contents := contents[0 := m];
      } else {
        InsertBehindHead(m);
      }
    }

    method InsertBehindHead(m: Message)
      requires Valid() && head.message != null
      modifies this, head`next
      ensures Valid() && fresh(Repr - old(Repr))
      ensures contents == Inserted(old(contents), m)
    {
      var nh := new HashEntry();
      nh.message := m;
      nh.next := head.next;
      head.next := nh;
      chain := SecondInserted(chain, nh);
      contents := SecondInserted(contents, m);
      Repr := Repr + {nh};
    }

    /** Takes the message out: the first entry becomes empty, any other is unlinked. */
    method Remove(m: Message) returns (found: bool)
      requires Valid()
      modifies Repr
      ensures Valid() && Repr == old(Repr)
      ensures found <==> m in old(contents)
      ensures contents == Removed(old(contents), m)
    {
      var h: HashEntry?, ph: HashEntry? := head, null;
      ghost var i := 0;
      while h != null
        invariant 0 <= i <= |chain| && h == EntryAt(chain, i)
        invariant ph == if i == 0 then null else chain[i - 1]
        invariant m !in contents[..i]
        decreases |chain| - i
      {
        if h.message == m {
          RemovedAt(contents, m, i);
          if ph != null {
            Unlink(h, ph, i);
          } else {
            h.message := null;
            contents := contents[0 := null];
          }
          return true;
        }
        ph := h;
        h := h.next;
        i := i + 1;
      }
      NothingRemoved(contents, m);
      found := false;
    }

    method Unlink(h: HashEntry, ph: HashEntry, ghost i: nat)
      requires Valid() && 0 < i < |chain| && h == chain[i] && ph == chain[i - 1]
      modifies Repr
      ensures Valid() && Repr == old(Repr) && contents == Without(old(contents), i)
    {
      hide Without;
      h.message := null;
      ph.next := h.next;
      chain, contents := Without(chain, i), Without(contents, i);
    }

    /** The first message with the given identifier. */
    method Find(id: uint32) returns (m: Message?)
      requires Valid()
      ensures m != null ==> m in contents && m.IdAndExt() == id
      ensures m == null ==> forall k: Message :: k in contents ==> k.IdAndExt() != id
      ensures m != null ==>
                exists i :: 0 <= i < |contents| && contents[i] == m
                            && forall k: Message :: k in contents[..i] ==> k.IdAndExt() != id
    {
      var h: HashEntry? := head;
      ghost var i := 0;
      while h != null
        invariant 0 <= i <= |chain| && h == EntryAt(chain, i)
        invariant forall k: Message :: k in contents[..i] ==> k.IdAndExt() != id
        decreases |chain| - i
      {
        if h.message != null && h.message.IdAndExt() == id {
          assert contents[i] == h.message;
          return h.message;
        }
        assert contents[..i + 1] == contents[..i] + [contents[i]];
        h := h.next;
        i := i + 1;
      }
      m := null;
    }

    method Clear()
      requires Valid()
      modifies Repr
      ensures Valid() && Repr == old(Repr) && contents == [null]
    {
      head.next := null;
      head.message := null;
      chain, contents := [head], [null];
    }
  }

  function Inserted(c: seq<Message?>, m: Message): seq<Message?>
    requires c != []
  {
    if c[0] == null then c[0 := m] else SecondInserted(c, m)
  }

  function Removed(c: seq<Message?>, m: Message): seq<Message?>
  {
    if c != [] && c[0] == m then c[0 := null] else RemovedFrom(c, m)
  }

  function RemovedFrom(c: seq<Message?>, m: Message): seq<Message?> {
    if c == [] then [] else if c[0] == m then c[1..] else [c[0]] + RemovedFrom(c[1..], m)
  }

  lemma {:induction false} RemovedFromAt(c: seq<Message?>, m: Message, i: nat)
    requires i < |c| && c[i] == m && m !in c[..i]
    ensures RemovedFrom(c, m) == Without(c, i)
    decreases i
  {
    if i > 0 {
      assert c[1..][..i - 1] == c[1..i];
      RemovedFromAt(c[1..], m, i - 1);
    }
  }

  lemma RemovedAt(c: seq<Message?>, m: Message, i: nat)
    requires i < |c| && c[i] == m && m !in c[..i]
    ensures Removed(c, m) == if i == 0 then c[0 := null] else Without(c, i)
  {
    RemovedFromAt(c, m, i);
  }

  lemma {:induction false} NothingRemoved(c: seq<Message?>, m: Message)
    requires m !in c
    ensures Removed(c, m) == c == RemovedFrom(c, m)
    decreases |c|
  {
    if c != [] { NothingRemoved(c[1..], m); }
  }

  lemma NothingRemovedIfMissing(c: seq<Message?>, m: Message)
    ensures m !in c ==> Removed(c, m) == c
  {
    if m !in c { NothingRemoved(c, m); }
  }

  // ---- what the operations on one bucket do to its messages ---------------------------------

  ghost function Elements(c: seq<Message?>): set<Message> {
    set m: Message | m in c
  }

  ghost predicate NoDuplicates(c: seq<Message?>) {
    forall i, j :: 0 <= i < j < |c| && c[i] == c[j] ==> c[i] == null
  }

  lemma EmptyBucket()
    ensures Elements([null]) == {} && NoDuplicates([null])
  {}

  lemma InsertedElements(c: seq<Message?>, m: Message)
    requires c != [] && m !in c && NoDuplicates(c)
    ensures Elements(Inserted(c, m)) == Elements(c) + {m} && NoDuplicates(Inserted(c, m))
  {
    var d := Inserted(c, m);
    assert c == [c[0]] + c[1..];
    forall x: Message ensures x in d <==> x in c || x == m {
      assert d == if c[0] == null then [m] + c[1..] else [c[0]] + [m] + c[1..];
    }
  }

  lemma WithoutElements(c: seq<Message?>, i: nat, x: Message)
    requires i < |c|
    ensures NoDuplicates(c) ==> NoDuplicates(Without(c, i))
    ensures NoDuplicates(c) ==> (x in Without(c, i) <==> x in c && x != c[i])
  {
    hide Without;
    var d := Without(c, i);
    assert forall k :: 0 <= k < |d| ==> d[k] == c[if k < i then k else k + 1];
    if x in c && x != c[i] {
      var k :| 0 <= k < |c| && c[k] == x;
      assert d[if k < i then k else k - 1] == x;
    }
  }

  lemma RemovedElements(c: seq<Message?>, m: Message)
    requires NoDuplicates(c)
    ensures Elements(Removed(c, m)) == Elements(c) - {m} && NoDuplicates(Removed(c, m))
  {
    hide Removed, Without;
    if m in c {
      var i :| 0 <= i < |c| && c[i] == m;
      assert m !in c[..i];
      RemovedAt(c, m, i);
      if i > 0 { WithoutElements(c, i, m); }
      forall x: Message ensures x in Removed(c, m) <==> x in c && x != m {
        if i > 0 {
          WithoutElements(c, i, x);
        } else {
          assert c == [m] + c[1..] && Removed(c, m) == [null] + c[1..];
        }
      }
    } else {
      NothingRemoved(c, m);
    }
  }

  // ---- the hash table -----------------------------------------------------------------------

  class HashIndex {
    const table: seq<Bucket>
    ghost var members: set<Message>
    ghost var Repr: set<object>

    function BucketOf(id: uint32): (b: nat)
      requires |table| > 0
      ensures b < |table|
    {
      id % |table|
    }

    ghost predicate Shaped()
      reads this, Repr
    {
      && |table| > 0
      && this in Repr
      && (forall o :: o in Repr ==> !(o is Message))
      && (forall b :: 0 <= b < |table| ==>
            table[b] in Repr && table[b].Repr <= Repr && this !in table[b].Repr && table[b].Valid())
      && (forall b, c :: 0 <= b < |table| && 0 <= c < |table| && b != c ==> table[b].Repr !! table[c].Repr)
    }

    /** Every bucket holds exactly the members that hash to it, each once. */
    ghost predicate Valid()
      reads this, Repr, members`id, members`extended
    {
      && Shaped()
      && forall b :: 0 <= b < |table| ==> Right(b)
    }

    ghost predicate Right(b: nat)
      requires b < |table|
      reads this, table[b], members`id, members`extended
    {
      && Elements(table[b].contents) == HashedTo(members, b, |table|)
      && NoDuplicates(table[b].contents)
    }

    constructor (size: nat)
      requires size > 0
      ensures Valid() && fresh(Repr) && members == {} && |table| == size
    {
      var t: seq<Bucket> := [];
      ghost var r: set<object> := {};
      while |t| < size
        invariant |t| <= size && fresh(r) && (forall o :: o in r ==> !(o is Message))
        invariant forall b :: 0 <= b < |t| ==> t[b] in r && t[b].Repr <= r && t[b].Valid() && t[b].contents == [null]
        invariant forall b, c :: 0 <= b < c < |t| ==> t[b].Repr !! t[c].Repr
      {
        var bucket := new Bucket();
        t := t + [bucket];
        r := r + bucket.Repr;
      }
      table, members := t, {};
      Repr := r + {this};
      new;
      EmptyBucket();
      hide NoDuplicates, Elements;
    }

    /** The operations on one bucket leave the others alone. */
    method InsertAt(b: nat, m: Message)
      requires Shaped() && b < |table|
      modifies Repr
      ensures Shaped() && members == old(members) && fresh(Repr - old(Repr))
      ensures table[b].contents == Inserted(old(table[b].contents), m)
      ensures forall c :: 0 <= c < |table| && c != b ==> table[c].contents == old(table[c].contents)
    {
      table[b].Insert(m);
      Repr := Repr + table[b].Repr;
    }

    method RemoveAt(b: nat, m: Message) returns (found: bool)
      requires Shaped() && b < |table|
      modifies Repr
      ensures Shaped() && members == old(members) && Repr == old(Repr)
      ensures found <==> m in old(table[b].contents)
      ensures table[b].contents == Removed(old(table[b].contents), m)
      ensures forall c :: 0 <= c < |table| && c != b ==> table[c].contents == old(table[c].contents)
    {
      found := table[b].Remove(m);
    }

    method ClearAt(b: nat)
      requires Shaped() && b < |table|
      modifies Repr
      ensures Shaped() && Repr == old(Repr) && table[b].contents == [null]
      ensures forall c :: 0 <= c < |table| && c != b ==> table[c].contents == old(table[c].contents)
    {
      table[b].Clear();
    }

    method Insert(m: Message)
      requires Valid() && m !in members
      modifies Repr
      ensures Valid() && members == old(members) + {m} && fresh(Repr - old(Repr))
    {
      var b := BucketOf(m.IdAndExt());
      assert Right(b);
      assert m !in table[b].contents by { assert m !in Elements(table[b].contents); }
      InsertedElements(table[b].contents, m);
      hide Inserted, NoDuplicates, Elements, HashedTo;
      assert forall c :: 0 <= c < |table| ==> Right(c);
      InsertAt(b, m);
      members := members + {m};
      forall c | 0 <= c < |table| ensures Right(c) {
        HashedToMore(old(members), m, c, |table|);
        assert old(Right(c));
      }
    }

    /** Looks through all buckets for the message. */
    method Remove(m: Message)
      requires Valid()
      modifies Repr
      ensures Valid() && members == old(members) - {m} && Repr == old(Repr)
    {
      var i := 0;
      while i < |table|
        invariant 0 <= i <= |table|
        invariant Valid() && members == old(members) && Repr == old(Repr)
        invariant forall b :: 0 <= b < i ==> m !in table[b].contents
      {
        var found := RemoveFrom(i, m);
        if found { return; }
        i := i + 1;
      }
      ghost var own := BucketOf(m.IdAndExt());
      assert m !in Elements(table[own].contents) && Right(own);
    }

    method RemoveFrom(i: nat, m: Message) returns (found: bool)
      requires Valid() && i < |table|
      modifies Repr
      ensures Valid() && Repr == old(Repr)
      ensures found <==> m in old(table[i].contents)
      ensures members == if found then old(members) - {m} else old(members)
      ensures !found ==> forall b :: 0 <= b < |table| ==> table[b].contents == old(table[b].contents)
    {
      hide Removed, RemovedFrom, NoDuplicates;
      assert Right(i);
      RemovedElements(table[i].contents, m);
      NothingRemovedIfMissing(table[i].contents, m);
      assert forall b :: 0 <= b < |table| ==> Right(b);
      found := RemoveAt(i, m);
      if found {
        members := members - {m};
        assert m in old(Elements(table[i].contents));
        forall b | 0 <= b < |table| ensures Right(b) {
          HashedToLess(old(members), m, b, |table|);
          assert old(Right(b));
        }
      } else {
        assert forall b :: 0 <= b < |table| ==> table[b].contents == old(table[b].contents);
        forall b | 0 <= b < |table| ensures Right(b) { assert old(Right(b)); }
      }
    }

    method Find(id: uint32) returns (m: Message?)
      requires Valid()
      ensures m == null ==> forall k :: k in members ==> k.IdAndExt() != id
      ensures m != null ==> m in members && m.IdAndExt() == id
      ensures (forall k :: k in members ==> k.id < 0x8000_0000) ==>
                && (m != null ==> m.id == id % 0x8000_0000 && m.extended == (id >= 0x8000_0000))
                && (m == null <==>
                      forall k :: k in members ==> k.id != id % 0x8000_0000 || k.extended != (id >= 0x8000_0000))
    {
      forall k | k in members && k.id < 0x8000_0000
        ensures k.IdAndExt() == id <==> k.id == id % 0x8000_0000 && k.extended == (id >= 0x8000_0000)
      {
        IdentifierIs(k, id);
      }
      var b := BucketOf(id);
      assert Right(b);
      m := table[b].Find(id);
      ghost var here := Elements(table[b].contents);
      assert m != null ==> m in here;
      assert m == null ==> forall k :: k in here ==> k.IdAndExt() != id;
      assert here == HashedTo(members, b, |table|);
    }

    method Clear()
      requires Shaped()
      modifies Repr
      ensures Valid() && members == {} && Repr == old(Repr)
    {
      var i := 0;
      while i < |table|
        invariant 0 <= i <= |table|
        invariant Shaped() && Repr == old(Repr)
        invariant forall b :: 0 <= b < i ==> table[b].contents == [null]
      {
        ClearAt(i);
        i := i + 1;
      }
      members := {};
    }
  }

  ghost function HashedTo(ms: set<Message>, b: nat, size: nat): set<Message>
    requires size > 0
    reads ms`id, ms`extended
  {
    set m | m in ms && m.IdAndExt() % size == b
  }

  lemma HashedToMore(ms: set<Message>, m: Message, b: nat, size: nat)
    requires size > 0
    ensures HashedTo(ms + {m}, b, size) == HashedTo(ms, b, size) + if m.IdAndExt() % size == b then {m} else {}
  {}

  lemma HashedToLess(ms: set<Message>, m: Message, b: nat, size: nat)
    requires size > 0
    ensures HashedTo(ms - {m}, b, size) == HashedTo(ms, b, size) - {m}
  {}

  lemma WithoutMembers<T>(c: seq<T>, i: nat)
    requires i < |c| && forall k, m :: 0 <= k < m < |c| ==> c[k] != c[m]
    ensures forall x :: x in Without(c, i) <==> x in c && x != c[i]
  {}

  // ---- the database ---------------------------------------------------------------------------

  class CANdb {
    const index: HashIndex
    var firstMessage: Message?
    var lastMessage: Message?
    var messageCount: int
    ghost var list: seq<Message>

    /** `list` is the linked list of messages. */
    ghost predicate Listed()
      reads this, list
    {
      && messageCount == |list|
      && firstMessage == (if list == [] then null else list[0])
      && lastMessage == (if list == [] then null else list[|list| - 1])
      && (forall i :: 0 <= i < |list| - 1 ==> list[i].next == list[i + 1])
      && (list != [] ==> list[|list| - 1].next == null)
      && (forall i, j :: 0 <= i < j < |list| ==> list[i] != list[j])
    }

    ghost function Messages(): set<Message>
      reads this
    {
      set m | m in list
    }

    /** The index holds exactly the messages of the list, each in the bucket of its identifier. */
    ghost predicate Valid()
      reads this, list, index, index.Repr, index.members
    {
      Listed() && index.Valid() && this !in index.Repr && index.members == Messages()
    }

    constructor ()
      ensures Valid() && list == [] && fresh(index) && fresh(index.Repr)
    {
      index := new HashIndex(2048);
      firstMessage, lastMessage, messageCount, list := null, null, 0, [];
    }

    /** Appends a message to the list and indexes it. A message must not be inserted twice. */
    method InsertMessage(msg: Message?) returns (ret: int)
      requires Valid() && msg !in list
      modifies this, index.Repr, (if msg == null then {} else {msg})`next, (if msg == null then {} else {msg})`candb, list`next
      ensures Valid() && fresh(index.Repr - old(index.Repr))
      ensures ret == if msg == null then -1 else 0
      ensures list == if msg == null then old(list) else old(list) + [msg]
      ensures msg != null ==> msg.candb == this
    {
      if msg == null { return -1; }
      index.Insert(msg);
      Append(msg);
      return 0;
    }

    method Append(msg: Message)
      requires Listed() && msg !in list
      modifies this, msg`next, msg`candb, list`next
      ensures Listed() && list == old(list) + [msg] && msg.candb == this
    {
      msg.next := null;
      if firstMessage == null {
        firstMessage, lastMessage := msg, msg;
      } else {
        lastMessage.next := msg;
        lastMessage := msg;
      }
      msg.candb := this;
      messageCount := messageCount + 1;
      list := list + [msg];
    }

    /** Takes a message out of the index and the list; fails when it is not there. */
    method RemoveMessage(msg: Message) returns (ret: int)
      requires Valid()
      modifies this, index.Repr, msg`candb, list`next
      ensures Valid() && index.Repr == old(index.Repr)
      ensures ret == if msg in old(list) then 0 else -1
      ensures msg !in list
      ensures msg !in old(list) ==> list == old(list)
      ensures forall i :: 0 <= i < |old(list)| && old(list)[i] == msg ==> list == Without(old(list), i)
      ensures msg.candb == if old(msg.candb) == this then null else old(msg.candb)
    {
      if msg.candb == this { msg.candb := null; }
      RemoveFromIndex(msg);
      ret := RemoveFromList(msg);
    }

    /** The list follows the index. */
    method RemoveFromList(msg: Message) returns (ret: int)
      requires Listed() && index.Valid() && this !in index.Repr && index.members == Messages() - {msg}
      modifies this, list`next
      ensures Valid() && index.Repr == old(index.Repr)
      ensures ret == if msg in old(list) then 0 else -1
      ensures msg !in old(list) ==> list == old(list)
      ensures forall i :: 0 <= i < |old(list)| && old(list)[i] == msg ==> list == Without(old(list), i)
    {
      hide Without, HashedTo, Elements, NoDuplicates;
      assert forall m :: m in list ==> (m as object) !in index.Repr;
      ret := Unlink(msg);
    }

    /** The index gives the message up, and the list is as it was. */
    method RemoveFromIndex(msg: Message)
      requires Valid()
      modifies index.Repr
      ensures Listed() && list == old(list) && index.Valid() && index.Repr == old(index.Repr) && this !in index.Repr
      ensures index.members == Messages() - {msg}
    {
      index.Remove(msg);
    }

    method Unlink(msg: Message) returns (ret: int)
      requires Listed()
      modifies this, list`next
      ensures Listed() && Messages() == old(Messages()) - {msg}
      ensures ret == if msg in old(list) then 0 else -1
      ensures msg !in old(list) ==> list == old(list)
      ensures forall i :: 0 <= i < |old(list)| && old(list)[i] == msg ==> list == Without(old(list), i)
    {
      var m: Message?, pm: Message? := firstMessage, null;
      ghost var i := 0;
      while m != null
        invariant 0 <= i <= |list|
        invariant i < |list| ==> m == list[i]
        invariant i == |list| ==> m == null
        invariant pm == if i == 0 then null else list[i - 1]
        invariant msg !in list[..i]
        decreases |list| - i
      {
        if m == msg {
          hide Without;
          if pm != null {
            pm.next := m.next;
            if m == lastMessage { lastMessage := pm; }
          } else {
            firstMessage := m.next;
            if m == lastMessage { lastMessage := null; }
          }
          messageCount := messageCount - 1;
          WithoutMembers(list, i);
          list := Without(list, i);
          return 0;
        }
        pm := m;
        m := m.next;
        i := i + 1;
      }
      ret := -1;
    }

    /** A message of the list with this identifier, or null when there is none. */
    method FindMessageById(id: uint32) returns (m: Message?)
      requires Valid()
      ensures m != null ==> m in list && m.IdAndExt() == id
      ensures m == null <==> forall k :: k in list ==> k.IdAndExt() != id
      ensures (forall k :: k in list ==> k.id < 0x8000_0000) ==>
                && (m != null ==> m.id == id % 0x8000_0000 && m.extended == (id >= 0x8000_0000))
                && (m == null <==>
                      forall k :: k in list ==> k.id != id % 0x8000_0000 || k.extended != (id >= 0x8000_0000))
    {
      m := index.Find(id);
      assert forall k :: k in list <==> k in Messages();
    }

    method ClearHashTable()
      requires Listed() && index.Shaped() && this !in index.Repr
      modifies index.Repr
      ensures Listed() && index.Valid() && index.members == {} && index.Repr == old(index.Repr)
    {
      index.Clear();
    }

    /** Indexes every message of the list again, whatever happened to the identifiers since the table was cleared. */
    method RebuildHashTable()
      requires Listed() && index.Valid() && index.members == {} && this !in index.Repr
      modifies index.Repr
      ensures Valid() && list == old(list) && fresh(index.Repr - old(index.Repr))
    {
      var message := firstMessage;
      ghost var i := 0;
      while message != null
        invariant 0 <= i <= |list|
        invariant i < |list| ==> message == list[i]
        invariant i == |list| ==> message == null
        invariant Listed() && index.Valid() && this !in index.Repr && fresh(index.Repr - old(index.Repr))
        invariant index.members == set m | m in list[..i]
        decreases |list| - i
      {
        index.Insert(message);
        assert list[..i + 1] == list[..i] + [message];
        message := message.next;
        i := i + 1;
      }
      assert list[..i] == list;
    }
  }
}
