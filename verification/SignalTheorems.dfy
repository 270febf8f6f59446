/** What storing and reading signals guarantee, over every payload, layout and value. */
module SignalTheorems {
  import opened Bits
  import opened SignalLayout
  import opened SignalCodec
  import opened StartBit

  predicate Disjoint(s: Layout, t: Layout, n: int) {
    forall i: nat, j: nat | i < n && j < 8 :: !(s.Covers(i, j) && t.Covers(i, j))
  }

  // ---- round trips -------------------------------------------------------------------

  /** What was stored is what the signal's bits now are. */
  lemma BitsAfterStore(s: Layout, data: seq<uint8>, dlc: int, value: nat)
    requires dlc <= |data| && s.Fits(dlc)
    ensures s.Fits(|data|)
    ensures s.SignalBits(s.Stored(data, dlc, value), s.length) == ToBits(value, s.length)
  {
    var r := s.Stored(data, dlc, value);
    forall k | 0 <= k < s.length ensures s.SignalBits(r, s.length)[k] == Bit(value, k) {
      IndexOfPosition(s, k);
      assert 0 <= s.ByteAt(k) < dlc;
      assert Bit(r[s.ByteAt(k)], s.BitAt(k)) == s.StoredBit(data, dlc, value, s.ByteAt(k), s.BitAt(k));
    }
  }

  /** A stored value reads back reduced to the signal's length. */
  lemma ReadAfterStore(s: Layout, data: seq<uint8>, dlc: int, value: nat)
    requires dlc <= |data| && s.Fits(dlc)
    ensures s.Fits(|data|)
    ensures s.Read(s.Stored(data, dlc, value)) == value % Pow2(s.length)
  {
    BitsAfterStore(s, data, dlc, value);
    FromToBits(value, s.length);
  }

  /** Every integer that a signed signal can hold, handed over as `uint64_t`, reads back as itself. */
  lemma SignedReadAfterStore(s: Layout, data: seq<uint8>, dlc: int, v: int)
    requires dlc <= |data| && s.Fits(dlc)
    requires -(Pow2(s.length - 1) as int) <= v < Pow2(s.length - 1)
    ensures s.Fits(|data|)
    ensures AsInt64(s.ReadExtended(s.Stored(data, dlc, AsUint64(v)))) == v
  {
    BitsAfterStore(s, data, dlc, AsUint64(v));
    SignExtensionRestores(v, s.length);
  }

  lemma SignExtensionRestores(v: int, n: nat)
    requires 1 <= n <= 64
    requires -(Pow2(n - 1) as int) <= v < Pow2(n - 1)
    ensures FromBits(Extended(ToBits(AsUint64(v), n))) == AsUint64(v) && AsInt64(AsUint64(v)) == v
  {
    WordRange(v, n);
    SignExtendedBits(v, n);
    FromToBits(AsUint64(v), 64);
    Pow2At64();
  }

  lemma WordRange(v: int, n: nat)
    requires 1 <= n <= 64
    requires -(Pow2(n - 1) as int) <= v < Pow2(n - 1)
    ensures Pow2(n - 1) <= Pow2(63) == 0x8000_0000_0000_0000
    ensures AsInt64(AsUint64(v)) == v
  {
    Pow2At64();
    Pow2Monotone(n - 1, 63);
    assert Pow2(64) == 2 * Pow2(63);
  }

  lemma SignExtendedBits(v: int, n: nat)
    requires 1 <= n <= 64
    requires -(Pow2(n - 1) as int) <= v < Pow2(n - 1) <= Pow2(63)
    ensures Extended(ToBits(AsUint64(v), n)) == ToBits(AsUint64(v), 64)
  {
    hide Bit, FromBits, Pow2, AsUint64;
    var e := Extended(ToBits(AsUint64(v), n));
    SignBitsRepeat(v, n, n - 1);
    forall k | 0 <= k < 64 ensures e[k] == Bit(AsUint64(v), k) {
      if k >= n { SignBitsRepeat(v, n, k); }
    }
  }

  /** In two's complement all bits from the sign bit of a small number upwards agree. */
  lemma SignBitsRepeat(v: int, n: nat, k: nat)
    requires 1 <= n <= 64 && n - 1 <= k < 64
    requires -(Pow2(n - 1) as int) <= v < Pow2(n - 1) <= Pow2(63)
    ensures Bit(AsUint64(v), k) == (v < 0)
  {
    hide Bit, Pow2;
    if v >= 0 {
      NonNegativeWord(v);
      HighBits(v, n - 1, k);
    } else {
      var c := -1 - v;
      NegativeWord(v);
      NotBits(c, 64, k);
      HighBits(c, n - 1, k);
    }
  }

  lemma NonNegativeWord(v: nat)
    requires v < Pow2(63)
    ensures AsUint64(v) == v
  {
    Pow2At64();
    assert Pow2(64) == 2 * Pow2(63);
  }

  lemma NegativeWord(v: int)
    requires -(Pow2(63) as int) <= v < 0
    ensures -1 - v < Pow2(64) && AsUint64(v) == Not(-1 - v, 64)
  {
    Pow2At64();
    assert Pow2(64) == 2 * Pow2(63);
  }

  // ---- several signals in one payload --------------------------------------------------

  /** Storing one signal leaves the bits of a disjoint one alone. */
  lemma OtherSignalKept(s: Layout, t: Layout, data: seq<uint8>, dlc: int, value: nat)
    requires dlc <= |data| && t.Fits(dlc) && Disjoint(s, t, dlc)
    ensures t.Fits(|data|)
    ensures t.SignalBits(s.Stored(data, dlc, value), t.length) == t.SignalBits(data, t.length)
    ensures t.Read(s.Stored(data, dlc, value)) == t.Read(data)
    ensures t.ReadExtended(s.Stored(data, dlc, value)) == t.ReadExtended(data)
  {
    var r := s.Stored(data, dlc, value);
    forall k | 0 <= k < t.length ensures t.SignalBits(r, t.length)[k] == t.SignalBits(data, t.length)[k] {
      IndexOfPosition(t, k);
      var i, j := t.ByteAt(k), t.BitAt(k);
      assert 0 <= i < dlc && t.Covers(i, j);
      assert Bit(r[i], j) == s.StoredBit(data, dlc, value, i, j);
    }
    assert t.SignalBits(r, t.length) == t.SignalBits(data, t.length);
  }

  lemma StoresCommute(s: Layout, t: Layout, data: seq<uint8>, dlc: int, v: nat, w: nat)
    requires dlc <= |data| && Disjoint(s, t, |data|)
    ensures t.Stored(s.Stored(data, dlc, v), dlc, w) == s.Stored(t.Stored(data, dlc, w), dlc, v)
  {
    var ds, dt := s.Stored(data, dlc, v), t.Stored(data, dlc, w);
    var dst, dts := t.Stored(ds, dlc, w), s.Stored(dt, dlc, v);
    forall i: nat, j: nat | i < |data| && j < 8 ensures Bit(dst[i], j) == Bit(dts[i], j) {
      assert Bit(dst[i], j) == t.StoredBit(ds, dlc, w, i, j);
      assert Bit(dts[i], j) == s.StoredBit(dt, dlc, v, i, j);
      assert Bit(ds[i], j) == s.StoredBit(data, dlc, v, i, j);
      assert Bit(dt[i], j) == t.StoredBit(data, dlc, w, i, j);
    }
    SamePayload(dst, dts);
  }

  /** Two signals that share a bit do not commute: storing all zeros and all ones shows it. */
  lemma OverlappingStoresClash(s: Layout, t: Layout, data: seq<uint8>, i: nat, j: nat, ones: nat)
    requires i < |data| && j < 8 && s.Covers(i, j) && t.Covers(i, j)
    requires Bit(ones, s.IndexAt(i, j))
    ensures t.Stored(s.Stored(data, |data|, ones), |data|, 0) != s.Stored(t.Stored(data, |data|, 0), |data|, ones)
  {
    var n := |data|;
    var ds, dt := s.Stored(data, n, ones), t.Stored(data, n, 0);
    assert Bit(t.Stored(ds, n, 0)[i], j) == t.StoredBit(ds, n, 0, i, j);
    assert Bit(s.Stored(dt, n, ones)[i], j) == s.StoredBit(dt, n, ones, i, j);
    ZeroBits(t.IndexAt(i, j));
  }

  /** Signals that fit can be stored in either order, whatever the values, exactly when they share no bit. */
  lemma StoreOrderIrrelevant(s: Layout, t: Layout, data: seq<uint8>)
    requires s.Fits(|data|) && t.Fits(|data|)
    ensures Disjoint(s, t, |data|) <==>
            forall v: uint64, w: uint64 ::
              t.Stored(s.Stored(data, |data|, v), |data|, w) == s.Stored(t.Stored(data, |data|, w), |data|, v)
  {
    var n := |data|;
    if Disjoint(s, t, n) {
      forall v: uint64, w: uint64
        ensures t.Stored(s.Stored(data, n, v), n, w) == s.Stored(t.Stored(data, n, w), n, v)
      {
        StoresCommute(s, t, data, n, v, w);
      }
    } else {
      var i: nat, j: nat :| i < n && j < 8 && s.Covers(i, j) && t.Covers(i, j);
      var ones: uint64, zero: uint64 := 0xffff_ffff_ffff_ffff, 0;
      Pow2At64();
      assert ones == Not(0, 64);
      ZeroBits(s.IndexAt(i, j));
      NotBits(0, 64, s.IndexAt(i, j));
      OverlappingStoresClash(s, t, data, i, j, ones);
      assert t.Stored(s.Stored(data, n, ones), n, zero) != s.Stored(t.Stored(data, n, zero), n, ones);
    }
  }

  /** Disjoint signals stored into one payload each read back their own value. */
  lemma EachReadsItsOwn(s: Layout, t: Layout, data: seq<uint8>, dlc: int, v: nat, w: nat)
    requires dlc <= |data| && s.Fits(dlc) && t.Fits(dlc) && Disjoint(s, t, |data|)
    ensures s.Fits(|data|) && t.Fits(|data|)
    ensures var both := t.Stored(s.Stored(data, dlc, v), dlc, w);
            s.Read(both) == v % Pow2(s.length) && t.Read(both) == w % Pow2(t.length)
  {
    StoresCommute(s, t, data, dlc, v, w);
    ReadAfterStore(t, s.Stored(data, dlc, v), dlc, w);
    ReadAfterStore(s, t.Stored(data, dlc, w), dlc, v);
  }

  // ---- the bounds check ---------------------------------------------------------------

  /** The start bit that the check goes by, before it wraps: for a Motorola signal, that of its mirror image. */
  function CheckedStart(s: Layout, len: nat): int {
    if s.motorola then s.startBit - 16 * ByteOf(s.startBit) + 8 * (len - 1) else s.startBit
  }

  lemma CheckedStartWraps(s: Signal, len: nat)
    requires s.motorola && len < 0x1000_0000
    ensures AsInt32(s.startBit - AsInt32(AsInt32(2 * ByteOf(s.startBit) - AsInt32(AsInt32(len) - 1)) * 8)) ==
            AsInt32(CheckedStart(s.Shape(), len))
  {
    hide AsInt32;
    var q := ByteOf(s.startBit);
    QuotientRange(s.startBit);
    AsInt32Near(len);
    AsInt32Near(len - 1);
    AsInt32Near(2 * q - (len - 1));
    WrapTwice(s.startBit, (2 * q - (len - 1)) * 8);
  }

  lemma QuotientRange(x: int32)
    ensures -0x1000_0000 <= ByteOf(x) < 0x1000_0000
  {}

  lemma WrapTwice(a: int, b: int)
    requires -0x1_8000_0000 <= b < 0x1_8000_0000
    ensures AsInt32(a - AsInt32(b)) == AsInt32(a - b)
  {
    hide AsInt32;
    AsInt32Near(b);
    AsInt32Period(a - b);
  }

  /** The sum with the length leaves the range of `int`, wraps to a negative number and is let through. */
  predicate PassesByOverflow(s: Layout, len: nat) {
    0 <= CheckedStart(s, len) <= 0x7FFF_FFFF < CheckedStart(s, len) + s.length
  }

  /** Negative start bits never fit; truncating division lets some of them through. */
  predicate PassesWithNegativeStart(s: Layout, len: nat) {
    && s.motorola
    && ((-7 <= s.startBit <= -1 && s.length <= 8 - s.startBit && len >= 2)
        || (-15 <= s.startBit <= -9 && s.length <= -8 - s.startBit && len >= 1))
  }

  /** The check made before reading refuses exactly the signals whose byte walk would leave the payload,
      although for Motorola signals it works on a mirrored start bit. This holds for all signals but those of
      two families, which it lets through though they do not fit. */
  lemma TooLargeExactly(s: Signal, len: nat)
    requires 1 <= s.length <= 64 && len < 0x1000_0000
    ensures (s.IsSignalTooLarge(len) <==> !s.Shape().Fits(len)) <==>
            !PassesWithNegativeStart(s.Shape(), len) && !PassesByOverflow(s.Shape(), len)
  {
    var l := s.Shape();
    TooLargeIs(s, len);
    if s.startBit >= 0 { FitsByEnd(l, len); }
  }

  /** The check in terms of the start bit before wrapping. */
  lemma TooLargeIs(s: Signal, len: nat)
    requires 1 <= s.length <= 64 && len < 0x1000_0000
    ensures var sb := CheckedStart(s.Shape(), len);
            s.IsSignalTooLarge(len) <==> !(0 <= sb <= 0x7FFF_FFFF && (sb + s.length <= 8 * len || sb + s.length > 0x7FFF_FFFF))
  {
    hide AsInt32;
    var sb := CheckedStart(s.Shape(), len);
    if s.motorola { CheckedStartWraps(s, len); }
    QuotientRange(s.startBit);
    assert -0x1_0000_0000 <= sb < 0x1_8000_0000 by { SmallMirror(s.startBit); }
    AsInt32Near(sb);
    AsInt32Near(len * 8);
    if 0 <= sb <= 0x7FFF_FFFF { AsInt32Near(sb + s.length); }
  }

  lemma SmallMirror(x: int32)
    ensures -0x8000_0000 <= x - 16 * ByteOf(x) <= 0x8000_0000
  {}

  /** A signal of 1 to 64 bits from start bit 0 upwards fits when the mirrored one ends inside the payload; no other
      signal fits. */
  lemma FitsByEnd(l: Layout, len: nat)
    ensures l.Fits(len) <==>
            && l.startBit >= 0 && 1 <= l.length <= 64
            && 0 <= CheckedStart(l, len) && CheckedStart(l, len) + l.length <= 8 * len
  {
    if l.startBit < 0 || !(1 <= l.length <= 64) { return; }
    ByteBounds(l, l.length - 1);
    if 0 <= CheckedStart(l, len) && CheckedStart(l, len) + l.length <= 8 * len {
      forall k | 0 <= k < l.length ensures 0 <= l.ByteAt(k) < len { ByteBounds(l, k); }
    }
    if l.Fits(len) {
      assert 0 <= l.ByteAt(l.length - 1) < len && 0 <= l.ByteAt(0) < len;
    }
  }

  /** Where no sum can leave the range of `int`, from start bit 0 upwards, the check is right. */
  lemma TooLargeIsNotFitting(s: Signal, len: nat)
    requires 0 <= s.startBit && 1 <= s.length <= 64
    requires s.startBit + s.length <= 0x7FFF_FFFF && 8 * len + 64 <= 0x7FFF_FFFF
    ensures s.IsSignalTooLarge(len) <==> !s.Shape().Fits(len)
  {
    TooLargeExactly(s, len);
  }

  /** Each family has members that a DBC file can give: an Intel signal at 2147483647, and a Motorola signal
      at 4294967295. */
  lemma OverflowIsLetThrough(s: Signal)
    requires s.Shape() == Layout(0x7FFF_FFFF, 1, false)
    ensures !s.IsSignalTooLarge(8) && !s.Shape().Fits(8)
  {
    TooLargeExactly(s, 8);
    FitsByEnd(s.Shape(), 8);
  }

  lemma NegativeStartIsLetThrough(s: Signal)
    requires s.Shape() == FromDbc(0xFFFF_FFFF, 1)
    ensures s.startBit == -1 && !s.IsSignalTooLarge(8) && !s.Shape().Fits(8)
  {
    var x := Wrap(Reflect(0xFFFF_FFFF) + 0);
    FromDbcStart(0xFFFF_FFFF, 1, x);
    MirrorTwice(0xFFFF_FFFF);
    TooLargeExactly(s, 8);
  }

  /** Bytes lie between the first and the last one of the signal. */
  lemma ByteBounds(l: Layout, k: nat)
    requires l.startBit >= 0 && k < l.length
    ensures if l.motorola then l.ByteAt(l.length - 1) <= l.ByteAt(k) <= l.ByteAt(0)
            else l.ByteAt(0) <= l.ByteAt(k) <= l.ByteAt(l.length - 1)
    ensures l.ByteAt(0) == l.startBit / 8
  {}

  // ---- DBC start bits --------------------------------------------------------------------

  /** The layout of a Motorola signal read from a DBC file. */
  function FromDbc(p: uint32, len: uint32): Layout {
    Layout(AsInt32(MotorolaForwardMsbToLsb(p, len)), len, true)
  }

  /** `len` consecutive payload bits, each byte taken from its most significant bit down. */
  function SequentialBits(data: seq<uint8>, first: nat, len: nat): (bs: seq<bool>)
    requires first + len <= 8 * |data|
    ensures |bs| == len
  {
    seq(len, k requires 0 <= k < len => Bit(data[(first + k) / 8], 7 - (first + k) % 8))
  }

  /** The integer whose most significant bit comes first. */
  function BigEndian(bs: seq<bool>): nat {
    if bs == [] then 0
    else 2 * BigEndian(bs[..|bs| - 1]) + if bs[|bs| - 1] then 1 else 0
  }

  lemma {:induction false} BigEndianIsReversed(a: seq<bool>, b: seq<bool>)
    requires |a| == |b| && forall k :: 0 <= k < |a| ==> a[k] == b[|b| - 1 - k]
    ensures FromBits(a) == BigEndian(b)
    decreases |a|
  {
    if a != [] {
      BigEndianIsReversed(a[1..], b[..|b| - 1]);
    }
  }

  /** Bit k of a Motorola signal, counted from its least significant bit at sequential position x. */
  lemma MotorolaPosition(l: Layout, x: nat, k: nat)
    requires l.motorola && l.startBit == Mirror(x)
    ensures l.ByteAt(k) == (x - k) / 8
    ensures l.BitAt(k) == 7 - (x - k) % 8
  {
    MirrorValue(x);
    var q, r := x / 8, x % 8;
    var e, f := (7 - r + k) / 8, (7 - r + k) % 8;
    assert l.startBit == 8 * q + (7 - r);
    assert l.startBit / 8 == q && l.startBit % 8 == 7 - r;
    assert x - k == 8 * (q - e) + (7 - f);
  }

  lemma FromDbcStart(p: uint32, len: uint32, x: nat)
    requires 1 <= len <= 64 && x == Wrap(Reflect(p) + len - 1)
    ensures FromDbc(p, len) == Layout(if x < 0x8000_0000 then Mirror(x) else Mirror(x) - 0x1_0000_0000, len, true)
    ensures Mirror(x) < 0x1_0000_0000
    ensures Mirror(x) < 0x8000_0000 <==> x < 0x8000_0000
  {
    hide Reflect, AsInt32;
    MirrorValue(x);
    AsInt32Near(Mirror(x));
  }

  /** A Motorola signal from a DBC file fits exactly when its bits, counted from the top of the first byte
      on, end inside the payload; and it then reads as the big-endian integer of those bits. */
  lemma DbcMotorolaRead(p: uint32, len: uint32, data: seq<uint8>)
    requires 1 <= len <= 64 && |data| < 0x1000_0000
    ensures FromDbc(p, len).Fits(|data|) <==> Reflect(p) + len <= 8 * |data|
    ensures FromDbc(p, len).Fits(|data|) ==>
              FromDbc(p, len).Read(data) == BigEndian(SequentialBits(data, Reflect(p), len))
  {
    hide Reflect;
    var x := Wrap(Reflect(p) + len - 1);
    FromDbcStart(p, len, x);
    if Reflect(p) + len <= 8 * |data| {
      MotorolaRead(FromDbc(p, len), Reflect(p), data);
    }
    if FromDbc(p, len).Fits(|data|) {
      LastBitInside(FromDbc(p, len), x, |data|);
    }
  }

  lemma MotorolaRead(l: Layout, first: nat, data: seq<uint8>)
    requires l.motorola && 1 <= l.length <= 64 && first + l.length <= 8 * |data|
    requires l.startBit == Mirror(first + l.length - 1)
    ensures l.Fits(|data|) && l.Read(data) == BigEndian(SequentialBits(data, first, l.length))
  {
    hide Mirror, FromBits, BigEndian, Bit;
    var a, b := l.SignalBits(data, l.length), SequentialBits(data, first, l.length);
    forall k | 0 <= k < l.length
      ensures 0 <= l.ByteAt(k) < |data| && a[k] == b[l.length - 1 - k]
    {
      MotorolaPosition(l, first + l.length - 1, k);
    }
    BigEndianIsReversed(a, b);
  }

  lemma LastBitInside(l: Layout, x: nat, n: nat)
    requires l.motorola && l.startBit == Mirror(x) && l.Fits(n)
    ensures l.length - 1 <= x < 8 * n
  {
    MotorolaPosition(l, x, 0);
    MotorolaPosition(l, x, l.length - 1);
    assert 0 <= l.ByteAt(0) < n && 0 <= l.ByteAt(l.length - 1) < n;
  }
}
