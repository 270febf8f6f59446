/** A whole payload: any number of signals stored one after the other. */
module SignalFrames {
  import opened Bits
  import opened SignalLayout
  import opened SignalTheorems

  datatype Assignment = Assignment(signal: Layout, value: nat)

  function StoredAll(data: seq<uint8>, dlc: int, xs: seq<Assignment>): (r: seq<uint8>)
    ensures |r| == |data|
  {
    if xs == [] then data
    else
      var n := |xs| - 1;
      xs[n].signal.Stored(StoredAll(data, dlc, xs[..n]), dlc, xs[n].value)
  }

  /** No two of the signals share a bit. */
  predicate Compatible(xs: seq<Assignment>, n: int) {
    forall k, m :: 0 <= k < m < |xs| ==> Disjoint(xs[k].signal, xs[m].signal, n)
  }

  predicate CoveredBy(xs: seq<Assignment>, k: nat, i: nat, j: nat) {
    k < |xs| && xs[k].signal.Covers(i, j)
  }

  /** A bit of one of the signals comes from that signal's value. */
  lemma {:induction false} CoveredBit(data: seq<uint8>, dlc: int, xs: seq<Assignment>, k: nat, i: nat, j: nat)
    requires Compatible(xs, |data|) && CoveredBy(xs, k, i, j) && i < dlc <= |data| && j < 8
    ensures Bit(StoredAll(data, dlc, xs)[i], j) == Bit(xs[k].value, xs[k].signal.IndexAt(i, j))
    decreases |xs|
  {
    var n := |xs| - 1;
    var before := StoredAll(data, dlc, xs[..n]);
    assert Bit(StoredAll(data, dlc, xs)[i], j) == xs[n].signal.StoredBit(before, dlc, xs[n].value, i, j);
    if k < n {
      assert Disjoint(xs[k].signal, xs[n].signal, |data|);
      CoveredBit(data, dlc, xs[..n], k, i, j);
    }
  }

  /** Every other bit of the payload stays. */
  lemma {:induction false} UncoveredBit(data: seq<uint8>, dlc: int, xs: seq<Assignment>, i: nat, j: nat)
    requires i < |data| && j < 8
    requires i < dlc ==> forall k: nat :: !CoveredBy(xs, k, i, j)
    ensures Bit(StoredAll(data, dlc, xs)[i], j) == Bit(data[i], j)
    decreases |xs|
  {
    if xs != [] {
      var n := |xs| - 1;
      var before := StoredAll(data, dlc, xs[..n]);
      assert Bit(StoredAll(data, dlc, xs)[i], j) == xs[n].signal.StoredBit(before, dlc, xs[n].value, i, j);
      assert i < dlc ==> !CoveredBy(xs, n, i, j);
      forall k: nat | i < dlc ensures !CoveredBy(xs[..n], k, i, j) {
        assert !CoveredBy(xs, k, i, j);
      }
      UncoveredBit(data, dlc, xs[..n], i, j);
    }
  }

  /** However many disjoint signals are stored, and in whatever order, each reads back its own value. */
  lemma {:induction false} AllReadTheirOwn(data: seq<uint8>, dlc: int, xs: seq<Assignment>, k: nat)
    requires Compatible(xs, |data|) && dlc <= |data| && k < |xs| && xs[k].signal.Fits(dlc)
    ensures xs[k].signal.Fits(|data|)
    ensures xs[k].signal.Read(StoredAll(data, dlc, xs)) == xs[k].value % Pow2(xs[k].signal.length)
    decreases |xs|
  {
    var n := |xs| - 1;
    var before := StoredAll(data, dlc, xs[..n]);
    if k == n {
      ReadAfterStore(xs[n].signal, before, dlc, xs[n].value);
    } else {
      AllReadTheirOwn(data, dlc, xs[..n], k);
      DisjointFlips(xs[k].signal, xs[n].signal, |data|, dlc);
      OtherSignalKept(xs[n].signal, xs[k].signal, before, dlc, xs[n].value);
    }
  }

  lemma DisjointFlips(s: Layout, t: Layout, n: int, m: int)
    requires Disjoint(s, t, n) && m <= n
    ensures Disjoint(t, s, m)
  {}

  /** The payload depends on which values are stored in which signals, not on the order of the stores. */
  lemma AnyOrder(data: seq<uint8>, dlc: int, xs: seq<Assignment>, ys: seq<Assignment>)
    requires Compatible(xs, |data|) && Compatible(ys, |data|) && dlc <= |data|
    requires forall x :: x in xs <==> x in ys
    ensures StoredAll(data, dlc, xs) == StoredAll(data, dlc, ys)
  {
    hide Compatible, CoveredBy, StoredAll;
    var a, b := StoredAll(data, dlc, xs), StoredAll(data, dlc, ys);
    forall i: nat, j: nat | i < |data| && j < 8 ensures Bit(a[i], j) == Bit(b[i], j) {
      SameBit(data, dlc, xs, ys, i, j);
    }
    SamePayload(a, b);
  }

  lemma SameElsewhere(xs: seq<Assignment>, ys: seq<Assignment>, k: nat, i: nat, j: nat) returns (m: nat)
    requires k < |xs| && forall x :: x in xs ==> x in ys
    ensures m < |ys| && ys[m] == xs[k] && (CoveredBy(ys, m, i, j) <==> CoveredBy(xs, k, i, j))
  {
    assert xs[k] in ys;
    m :| m < |ys| && ys[m] == xs[k];
  }

  lemma SameBit(data: seq<uint8>, dlc: int, xs: seq<Assignment>, ys: seq<Assignment>, i: nat, j: nat)
    requires Compatible(xs, |data|) && Compatible(ys, |data|) && dlc <= |data| && i < |data| && j < 8
    requires forall x :: x in xs <==> x in ys
    ensures Bit(StoredAll(data, dlc, xs)[i], j) == Bit(StoredAll(data, dlc, ys)[i], j)
  {
    hide Compatible, StoredAll;
    if k: nat :| CoveredBy(xs, k, i, j) && i < dlc {
      var m := SameElsewhere(xs, ys, k, i, j);
      CoveredBit(data, dlc, xs, k, i, j);
      CoveredBit(data, dlc, ys, m, i, j);
    } else {
      forall m: nat | i < dlc ensures !CoveredBy(ys, m, i, j) {
        if CoveredBy(ys, m, i, j) {
          var k := SameElsewhere(ys, xs, m, i, j);
          assert false;
        }
      }
      UncoveredBit(data, dlc, xs, i, j);
      UncoveredBit(data, dlc, ys, i, j);
    }
  }
}
