/** What an enumeration holds after any run of additions. */
module EnumerationTheorems {
  import opened Wrappers
  import opened Enumeration

  // ---- runs ----------------------------------------------------------------------------

  datatype Call = Add(name: Option<Name>, value: int)

  predicate Adds(call: Call, v: nat) {
    call.name.Some? && call.value == v
  }

  predicate Accepted(call: Call) {
    call.name.Some? && call.value >= 0
  }

  /** The names after a run of calls on a new enumeration. */
  function Run(calls: seq<Call>): seq<Name> {
    if calls == [] then []
    else
      var names, call := Run(calls[..|calls| - 1]), calls[|calls| - 1];
      if Accepted(call) then WithName(names, call.name.value, call.value) else names
  }

  /** The last call that adds a name for v, or -1. */
  function LastAdd(calls: seq<Call>, v: nat): (j: int)
    ensures -1 <= j < |calls|
    ensures j >= 0 ==> Adds(calls[j], v)
    ensures forall i :: j < i < |calls| ==> !Adds(calls[i], v)
  {
    if calls == [] then -1
    else if Adds(calls[|calls| - 1], v) then |calls| - 1
    else LastAdd(calls[..|calls| - 1], v)
  }

  predicate Reached(calls: seq<Call>, v: nat) {
    exists j :: 0 <= j < |calls| && Accepted(calls[j]) && calls[j].value >= v
  }

  /** The list ends at the greatest value ever added. */
  lemma {:induction false} RunLength(calls: seq<Call>, v: nat)
    ensures v < |Run(calls)| <==> Reached(calls, v)
  {
    if calls != [] {
      var n := |calls| - 1;
      RunLength(calls[..n], v);
      assert Reached(calls[..n], v) ==> Reached(calls, v);
      assert Accepted(calls[n]) && calls[n].value >= v ==> Reached(calls, v);
      if Reached(calls, v) && !Reached(calls[..n], v) {
        var j :| 0 <= j < |calls| && Accepted(calls[j]) && calls[j].value >= v;
        assert j < n ==> calls[..n][j] == calls[j];
      }
    }
  }

  /** Each value within the list has the last name added for it, or "reserved" when none was. */
  lemma {:induction false} RunEntries(calls: seq<Call>, v: nat)
    requires v < |Run(calls)|
    ensures Run(calls)[v] ==
            if LastAdd(calls, v) < 0 then RESERVED else calls[LastAdd(calls, v)].name.value
  {
    var n := |calls| - 1;
    var before := calls[..n];
    if v < |Run(before)| {
      RunEntries(before, v);
    } else if LastAdd(before, v) >= 0 {
      assert Accepted(before[LastAdd(before, v)]);
      RunLength(before, v);
      assert Reached(before, v);
    }
  }
}
