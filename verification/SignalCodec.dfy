/** The signal packing and unpacking loops, proved against `SignalLayout`. */
module SignalCodec {
  import opened Bits
  import opened SignalLayout

  /** The 64 masks: as many ones as bits remain, at most eight. */
  const BYTE_MASK: seq<uint8> :=
    [0x01, 0x03, 0x07, 0x0f, 0x1f, 0x3f, 0x7f, 0xff] + seq(56, _ => 0xff)

  const SIGN_MASK: seq<uint64> :=
    [0xffffffffffffffff, 0xfffffffffffffffe, 0xfffffffffffffffc, 0xfffffffffffffff8,
     0xfffffffffffffff0, 0xffffffffffffffe0, 0xffffffffffffffc0, 0xffffffffffffff80] +
    [0xffffffffffffff00, 0xfffffffffffffe00, 0xfffffffffffffc00, 0xfffffffffffff800,
     0xfffffffffffff000, 0xffffffffffffe000, 0xffffffffffffc000, 0xffffffffffff8000] +
    [0xffffffffffff0000, 0xfffffffffffe0000, 0xfffffffffffc0000, 0xfffffffffff80000,
     0xfffffffffff00000, 0xffffffffffe00000, 0xffffffffffc00000, 0xffffffffff800000] +
    [0xffffffffff000000, 0xfffffffffe000000, 0xfffffffffc000000, 0xfffffffff8000000,
     0xfffffffff0000000, 0xffffffffe0000000, 0xffffffffc0000000, 0xffffffff80000000] +
    [0xffffffff00000000, 0xfffffffe00000000, 0xfffffffc00000000, 0xfffffff800000000,
     0xfffffff000000000, 0xffffffe000000000, 0xffffffc000000000, 0xffffff8000000000] +
    [0xffffff0000000000, 0xfffffe0000000000, 0xfffffc0000000000, 0xfffff80000000000,
     0xfffff00000000000, 0xffffe00000000000, 0xffffc00000000000, 0xffff800000000000] +
    [0xffff000000000000, 0xfffe000000000000, 0xfffc000000000000, 0xfff8000000000000,
     0xfff0000000000000, 0xffe0000000000000, 0xffc0000000000000, 0xff80000000000000] +
    [0xff00000000000000, 0xfe00000000000000, 0xfc00000000000000, 0xf800000000000000,
     0xf000000000000000, 0xe000000000000000, 0xc000000000000000, 0x8000000000000000]

  /** Division by 8 as C defines it for `int`: the quotient is truncated towards zero. */
  function ByteOf(startBit: int): int {
    if startBit >= 0 then startBit / 8 else -(-startBit / 8)
  }

  function BitOf(startBit: int): int {
    startBit - 8 * ByteOf(startBit)
  }

  /** A `uint64_t` seen as an `int64_t`. */
  function AsInt64(x: uint64): int {
    if x < 0x8000_0000_0000_0000 then x else x - 0x1_0000_0000_0000_0000
  }

  /** An integer converted to `uint64_t`. */
  function AsUint64(v: int): uint64 {
    v % 0x1_0000_0000_0000_0000
  }

  class Signal {
    var startBit: int32
    var length: int32
    var motorola: bool

    constructor (startBit: int32, length: int32, motorola: bool)
      ensures Shape() == Layout(startBit, length, motorola)
    {
      this.startBit, this.length, this.motorola := startBit, length, motorola;
    }

    function Shape(): Layout
      reads this
    {
      Layout(startBit, length, motorola)
    }

    /** C leaves the store undefined when it would shift by a negative start bit within byte 0. */
    predicate StoreDefined(dlc: int)
      reads this
    {
      -8 < startBit < 0 ==> length <= 0 || length > 64 || dlc <= 0
    }

    /** Refuses a start outside the payload or a length over 64. Otherwise the payload becomes exactly
        `Stored`, silently cut off at the edge of the payload. */
    method StoreValueUint(canData: array<uint8>, dlc: int, value: uint64) returns (ret: int)
      requires dlc <= canData.Length
      requires StoreDefined(dlc)
      modifies canData
      ensures ret == if 0 <= ByteOf(startBit) < dlc && length <= 64 then 0 else -1
      ensures ret == 0 ==> canData[..] == Shape().Stored(old(canData[..]), dlc, value)
      ensures ret != 0 ==> canData[..] == old(canData[..])
    {
      var bytePos := ByteOf(startBit);
      if bytePos < 0 || bytePos >= dlc || length > 64 { return -1; }
      if length <= 0 {
        NothingStored(Shape(), canData[..], dlc, value);
        return 0;
      }
      StoreBits(canData, dlc, value);
      return 0;
    }

    method StoreBits(canData: array<uint8>, dlc: int, value: uint64)
      requires startBit >= 0 && ByteOf(startBit) < dlc <= canData.Length && 1 <= length <= 64
      modifies canData
      ensures canData[..] == Shape().Stored(old(canData[..]), dlc, value)
    {
      var len := length;
      var bytePos, bit := ByteOf(startBit), BitOf(startBit);
      ghost var s, data0 := Shape(), canData[..];
      var word: nat := value;
      StoreStart(s, data0, dlc, value);
      hide StoreWalk, ByteOf, BitOf;
      while len > 0
        invariant len >= 0 && (len > 0 ==> 0 <= bytePos < dlc && 0 <= bit < 8)
        invariant StoreWalk(s, data0, dlc, value, canData[..], word, len, bytePos, bit)
        decreases len
      {
        word, len := StoreByte(canData, bytePos, bit, word, len, s, data0, dlc, value);
        bit := 0;
        if motorola {
          bytePos := bytePos - 1;
          if bytePos < 0 { break; }
        } else {
          bytePos := bytePos + 1;
          if bytePos >= dlc { break; }
        }
      }
      StoreCutOff(s, data0, canData[..], dlc, value, word, len, bytePos, bit);
    }

    /** Succeeds exactly when the whole signal lies in the first `dlc` bytes; then `value` is the signal's
        bits as an unsigned integer, or with the sign bit repeated upwards. */
    method GetValueUint(canData: array<uint8>, dlc: int, signExtend: bool) returns (ret: int, value: uint64)
      requires dlc <= canData.Length
      ensures ret == if Shape().Fits(dlc) then 0 else -1
      ensures ret == 0 ==> Shape().Fits(canData.Length)
      ensures ret == 0 && !signExtend ==> value == Shape().Read(canData[..])
      ensures ret == 0 && signExtend ==> value == Shape().ReadExtended(canData[..])
      ensures ret != 0 ==> value == 0
    {
      if startBit < 0 || length < 1 || length > 64 { return -1, 0; }
      ret, value := ReadBits(canData, dlc);
      if signExtend && ret == 0 {
        value := SignExtend(value, length, Shape().SignalBits(canData[..], length));
      }
    }

    method ReadBits(canData: array<uint8>, dlc: int) returns (ret: int, value: uint64)
      requires dlc <= canData.Length
      requires startBit >= 0 && 1 <= length <= 64
      ensures ret == if Shape().Fits(dlc) then 0 else -1
      ensures ret == 0 ==> value == FromBits(Shape().SignalBits(canData[..], length))
      ensures ret != 0 ==> value == 0
    {
      var len := length;
      var bytePos, bit, wpos := ByteOf(startBit), BitOf(startBit), 0;
      ret, value := 0, 0;
      ghost var s := Shape();
      assert ReadSoFar(s, 0, canData[..], dlc, value);
      FirstIndex(s);
      hide ReadSoFar, Bit, FromBits, ByteOf, BitOf, Layout.IndexAt;
      while len > 0
        invariant 0 <= len <= length && wpos == length - len
        invariant len > 0 ==> 0 <= bit < 8 && s.IndexAt(bytePos, bit) == wpos
        invariant ReadSoFar(s, wpos, canData[..], dlc, value)
        decreases len
      {
        if bytePos >= dlc || (motorola && bytePos < 0) {
          LeavesPayload(s, bytePos, bit, wpos, dlc);
          return -1, 0;
        }
        StaysAbove(s, bytePos, bit, wpos);
        value, len, wpos := ReadByte(canData[..], dlc, value, bytePos, bit, len, wpos, s);
        bit := 0;
        if motorola { bytePos := bytePos - 1; } else { bytePos := bytePos + 1; }
      }
      ReadAll(s, canData[..], dlc, value);
    }

    /** The same bits as a two's complement number. */
    method GetValueInt(canData: array<uint8>, dlc: int) returns (ret: int, value: int)
      requires dlc <= canData.Length
      ensures ret == if Shape().Fits(dlc) then 0 else -1
      ensures ret == 0 ==> Shape().Fits(canData.Length) && value == AsInt64(Shape().ReadExtended(canData[..]))
      ensures ret != 0 ==> value == 0
    {
      var uvalue;
      ret, uvalue := GetValueUint(canData, dlc, true);
      value := AsInt64(uvalue);
    }

    /** The bounds check callers make before reading. It mirrors a Motorola start bit into the byte
        where the signal would start if the payload were read backwards. Sums and products that leave the
        range of `int` wrap. */
    predicate IsSignalTooLarge(len: nat)
      reads this
    {
      var sb :=
        if motorola then AsInt32(startBit - AsInt32(AsInt32(2 * ByteOf(startBit) - AsInt32(AsInt32(len) - 1)) * 8))
        else startBit;
      sb < 0 || AsInt32(len * 8) < AsInt32(sb + length)
    }
  }

  /** Of the value, all but the upper `len` bits are stored and `word` holds those; they go on at the given place. */
  ghost predicate StoreWalk(s: Layout, data0: seq<uint8>, dlc: int, value: nat, current: seq<uint8>,
                            word: nat, len: int, bytePos: int, bit: int)
  {
    && 0 <= len <= s.length
    && current == s.(length := s.length - len).Stored(data0, dlc, value)
    && word == Shr(value, s.length - len)
    && (len > 0 ==> 0 <= bit < 8 && s.IndexAt(bytePos, bit) == s.length - len)
  }

  lemma StoreStart(s: Layout, data: seq<uint8>, dlc: int, value: nat)
    requires s.startBit >= 0 && s.length >= 0
    ensures ByteOf(s.startBit) >= 0 && 0 <= BitOf(s.startBit) < 8
    ensures StoreWalk(s, data, dlc, value, data, value, s.length, ByteOf(s.startBit), BitOf(s.startBit))
  {
    FirstIndex(s);
    NothingStored(s.(length := 0), data, dlc, value);
    assert value == Shr(value, 0);
  }

  /** One turn of the store: the next bits of the word, up to the top of the byte, replace the bits of byte
      `bytePos` from `bit` upwards. */
  method StoreByte(canData: array<uint8>, bytePos: nat, bit: nat, word: nat, len: nat,
                   ghost s: Layout, ghost data0: seq<uint8>, ghost dlc: int, ghost value: nat)
    returns (rest: nat, left: nat)
    requires bytePos < dlc <= canData.Length == |data0| && bit < 8 && 0 < len && s.length <= 64
    requires StoreWalk(s, data0, dlc, value, canData[..], word, len, bytePos, bit)
    modifies canData
    ensures left == if len > 8 - bit then len - (8 - bit) else 0
    ensures left < len
    ensures StoreWalk(s, data0, dlc, value, canData[..], rest, left, if s.motorola then bytePos - 1 else bytePos + 1, 0)
  {
    ghost var data1 := canData[..];
    StoreWalkLength(s, data0, dlc, value, data1, word, len, bytePos, bit);
    hide StoreWalk;
    var b, plen;
    b, rest, plen := MergeByte(canData[bytePos], word, bit, len);
    left := len - plen;
    StoreTurn(s, data0, dlc, value, data1, word, len, bytePos, bit, b, plen);
    canData[bytePos] := b;
    assert canData[..] == data1[bytePos := b];
  }

  lemma StoreWalkLength(s: Layout, data0: seq<uint8>, dlc: int, value: nat, current: seq<uint8>,
                        word: nat, len: int, bytePos: int, bit: int)
    requires StoreWalk(s, data0, dlc, value, current, word, len, bytePos, bit)
    ensures 0 <= len <= s.length
  {}

  lemma StoreTurn(s: Layout, data0: seq<uint8>, dlc: int, value: nat, current: seq<uint8>,
                  word: nat, len: nat, bytePos: nat, bit: nat, b: uint8, plen: nat)
    requires StoreWalk(s, data0, dlc, value, current, word, len, bytePos, bit)
    requires bytePos < dlc <= |data0| == |current| && bit < 8 && 0 < len
    requires plen == if 8 - bit > len then len else 8 - bit
    requires forall j: nat :: j < 8 ==>
               (Bit(b, j) == if bit <= j < bit + plen then Bit(word, j - bit) else Bit(current[bytePos], j))
    ensures StoreWalk(s, data0, dlc, value, current[bytePos := b], Shr(word, plen), len - plen,
                      if s.motorola then bytePos - 1 else bytePos + 1, 0)
  {
    var done := s.length - len;
    NextIndex(s, bytePos, bit, plen);
    StoreStep(s.(length := done), data0, current, dlc, value, bytePos, bit, plen, b);
    ShrSum(value, done, plen);
  }

  /** The byte and the remaining word of one such turn. */
  method MergeByte(b: uint8, word: nat, bit: nat, len: nat) returns (r: uint8, rest: nat, plen: nat)
    requires bit < 8 && 1 <= len <= 64
    ensures plen == if 8 - bit > len then len else 8 - bit
    ensures rest == Shr(word, plen)
    ensures forall j: nat :: j < 8 ==>
              (Bit(r, j) == if bit <= j < bit + plen then Bit(word, j - bit) else Bit(b, j))
  {
    MergeBits(b, word, bit, len);
    var mask := BYTE_MASK[len - 1];
    plen := 8 - bit;
    if plen > len { plen := len; }
    mask := And(Shl(mask, bit), 0xff);
    var v := And(Shl(word, bit), 0xff);
    r := Or(And(b, Not(mask, 8)), And(v, mask));
    rest := Shr(word, plen);
  }

  lemma FirstIndex(s: Layout)
    requires s.startBit >= 0
    ensures 0 <= BitOf(s.startBit) < 8 && ByteOf(s.startBit) >= 0
    ensures s.IndexAt(ByteOf(s.startBit), BitOf(s.startBit)) == 0
  {}

  /** After the top of a byte the signal goes on at the bottom of the next. */
  lemma NextIndex(s: Layout, bytePos: int, bit: int, plen: int)
    ensures bit + plen == 8 ==>
              s.IndexAt(if s.motorola then bytePos - 1 else bytePos + 1, 0) == s.IndexAt(bytePos, bit) + plen
  {}

  // ---- masks --------------------------------------------------------------------

  lemma MaskBits(i: nat, k: nat)
    requires i < 64
    ensures Bit(BYTE_MASK[i], k) == (k < 8 && k <= i)
  {
    var w := if i < 8 then i + 1 else 8;
    assert Pow2(1) == 2 && Pow2(2) == 4 && Pow2(3) == 8 && Pow2(4) == 16;
    assert Pow2(5) == 32 && Pow2(6) == 64 && Pow2(7) == 128 && Pow2(8) == 256;
    assert w == 1 || w == 2 || w == 3 || w == 4 || w == 5 || w == 6 || w == 7 || w == 8;
    assert BYTE_MASK[i] == Not(0, w);
    ZeroBits(k);
    NotBits(0, w, k);
  }

  lemma AndByte(x: nat)
    ensures And(x, 0xff) < 0x100
    ensures forall k: nat :: Bit(And(x, 0xff), k) == (k < 8 && Bit(x, k))
  {
    forall k: nat ensures Bit(And(x, 0xff), k) == (k < 8 && Bit(x, k)) {
      AndBits(x, 0xff, k);
      assert BYTE_MASK[7] == 0xff;
      MaskBits(7, k);
    }
    BelowPow2(And(x, 0xff), 8);
  }

  /** One byte of a store: `plen` bits from bit `bit` upwards come from the word, the others stay. */
  lemma MergeBits(b: uint8, word: nat, bit: nat, len: nat)
    requires bit < 8 && 1 <= len <= 64
    ensures var mask := And(Shl(BYTE_MASK[len - 1], bit), 0xff);
            && mask < Pow2(8)
            && var r := Or(And(b, Not(mask, 8)), And(And(Shl(word, bit), 0xff), mask));
            && r < 0x100
            && (forall j: nat :: j < 8 ==>
                  (Bit(r, j) == if bit <= j < bit + len then Bit(word, j - bit) else Bit(b, j)))
  {
    hide Or, And, Shl, Not;
    var m0 := Shl(BYTE_MASK[len - 1], bit);
    var v0 := Shl(word, bit);
    var mask, v := And(m0, 0xff), And(v0, 0xff);
    AndByte(m0);
    AndByte(v0);
    assert Pow2(8) == 0x100;
    var r := Or(And(b, Not(mask, 8)), And(v, mask));
    forall j: nat
      ensures Bit(r, j) == (j < 8 && if bit <= j < bit + len then Bit(word, j - bit) else Bit(b, j))
    {
      OrBits(And(b, Not(mask, 8)), And(v, mask), j);
      AndBits(b, Not(mask, 8), j);
      AndBits(v, mask, j);
      NotBits(mask, 8, j);
      ShlBits(BYTE_MASK[len - 1], bit, j);
      ShlBits(word, bit, j);
      if j >= bit { MaskBits(len - 1, j - bit); }
    }
    BelowPow2(r, 8);
  }

  /** The first `done` bits of the signal lie inside the payload and make up the value. */
  ghost predicate ReadSoFar(s: Layout, done: nat, data: seq<uint8>, dlc: int, value: nat) {
    && (forall k :: 0 <= k < done ==> 0 <= s.ByteAt(k) < dlc)
    && value == FromBits(s.SignalBits(data, done))
  }

  lemma ReadAll(s: Layout, data: seq<uint8>, dlc: int, value: nat)
    requires s.startBit >= 0 && 1 <= s.length <= 64 && ReadSoFar(s, s.length, data, dlc, value)
    ensures s.Fits(dlc) && value == FromBits(s.SignalBits(data, s.length))
  {}

  lemma LeavesPayload(s: Layout, bytePos: int, bit: nat, wpos: nat, dlc: int)
    requires bit < 8 && wpos < s.length && s.IndexAt(bytePos, bit) == wpos && !(0 <= bytePos < dlc)
    ensures !s.Fits(dlc)
  {
    PositionOfIndex(s, bytePos, bit);
  }

  /** An Intel signal does not go below byte 0. */
  lemma StaysAbove(s: Layout, bytePos: int, bit: nat, wpos: nat)
    requires s.startBit >= 0 && bit < 8 && s.IndexAt(bytePos, bit) == wpos
    ensures !s.motorola ==> bytePos >= 0
  {}

  /** One turn of the read: the next `plen` bits, up to the top of the byte, go in at `wpos`. */
  method ReadByte(data: seq<uint8>, ghost dlc: int, value: uint64, bytePos: nat, bit: nat, len: nat, wpos: nat, ghost s: Layout)
    returns (r: uint64, left: nat, next: nat)
    requires bytePos < dlc <= |data| && bit < 8 && 1 <= len && wpos + len == s.length <= 64 && s.startBit >= 0
    requires ReadSoFar(s, wpos, data, dlc, value) && s.IndexAt(bytePos, bit) == wpos
    ensures left == if len > 8 - bit then len - (8 - bit) else 0
    ensures next == s.length - left && ReadSoFar(s, next, data, dlc, r)
    ensures left > 0 ==> s.IndexAt(if s.motorola then bytePos - 1 else bytePos + 1, 0) == next
  {
    var mask := BYTE_MASK[len - 1];
    var plen := 8 - bit;
    if plen > len { plen := len; }
    PickedBits(s, data, bytePos, bit, len, wpos, plen);
    left, next := len - plen, wpos + plen;
    NextIndex(s, bytePos, bit, plen);
    StaysInByte(s, bytePos, bit, plen, wpos);
    WordFits(s.SignalBits(data, wpos + plen));
    r := Or(value, Shl(And(Shr(data[bytePos], bit), mask), wpos));
  }

  method SignExtend(value: uint64, wpos: nat, ghost bs: seq<bool>) returns (r: uint64)
    requires 1 <= wpos == |bs| <= 64 && value == FromBits(bs)
    ensures r == FromBits(Extended(bs))
  {
    ghost var mask := SIGN_MASK[wpos - 1];
    forall k: nat ensures Bit(mask, k) == (wpos - 1 <= k < 64) { SignMaskBits(wpos - 1, k); }
    SignBits(bs, mask);
    WordFits(Extended(bs));
    r := value;
    if And(value, Shl(1, wpos - 1)) != 0 {
      r := Or(value, SIGN_MASK[wpos - 1]);
    }
  }

  // ---- the store, byte by byte -----------------------------------------------------

  lemma {:induction false} ShrSum(x: nat, m: nat, n: nat)
    ensures Shr(Shr(x, m), n) == Shr(x, m + n)
    decreases m
  {
    if m > 0 { ShrSum(x / 2, m - 1, n); }
  }

  lemma NothingStored(s: Layout, data: seq<uint8>, dlc: int, value: nat)
    requires s.length <= 0
    ensures s.Stored(data, dlc, value) == data
  {
    SamePayload(s.Stored(data, dlc, value), data);
  }

  /** Writing the next `plen` bits into byte `bytePos` lengthens the stored part by `plen`. */
  lemma StoreStep(s: Layout, data0: seq<uint8>, data1: seq<uint8>, dlc: int, value: nat,
                  bytePos: nat, bit: nat, plen: nat, b: uint8)
    requires s.length >= 0 && bytePos < dlc <= |data0| && bit < 8 && bit + plen <= 8
    requires data1 == s.Stored(data0, dlc, value)
    requires s.IndexAt(bytePos, bit) == s.length
    requires forall j: nat :: j < 8 ==>
               (Bit(b, j) == if bit <= j < bit + plen then Bit(Shr(value, s.length), j - bit) else Bit(data1[bytePos], j))
    ensures data1[bytePos := b] == s.(length := s.length + plen).Stored(data0, dlc, value)
  {
    var t := s.(length := s.length + plen);
    var data2, r := data1[bytePos := b], t.Stored(data0, dlc, value);
    forall i: nat, j: nat | i < |data0| && j < 8 ensures Bit(data2[i], j) == Bit(r[i], j) {
      assert t.IndexAt(i, j) == s.IndexAt(i, j);
      assert Bit(data1[i], j) == s.StoredBit(data0, dlc, value, i, j);
      if i == bytePos {
        assert s.IndexAt(i, j) == s.length + j - bit;
        if bit <= j { ShrBits(value, s.length, j - bit); }
      }
    }
    SamePayload(data2, r);
  }

  /** At the end of the walk, or once it has left the payload, nothing of the signal remains to be stored. */
  lemma StoreCutOff(s: Layout, data: seq<uint8>, current: seq<uint8>, dlc: int, value: nat,
                    word: nat, len: int, bytePos: int, bit: int)
    requires dlc <= |data|
    requires StoreWalk(s, data, dlc, value, current, word, len, bytePos, bit)
    requires len == 0 || (bit == 0 && if s.motorola then bytePos < 0 else bytePos >= dlc)
    ensures current == s.Stored(data, dlc, value)
  {
    var t := s.(length := s.length - len);
    forall i: nat, j: nat | i < |data| && j < 8
      ensures t.StoredBit(data, dlc, value, i, j) == s.StoredBit(data, dlc, value, i, j)
    {
      assert t.IndexAt(i, j) == s.IndexAt(i, j);
    }
    SamePayload(t.Stored(data, dlc, value), s.Stored(data, dlc, value));
  }

  // ---- the read, byte by byte ------------------------------------------------------

  lemma StaysInByte(s: Layout, bytePos: int, bit: nat, plen: nat, wpos: nat)
    requires s.startBit >= 0 && bit + plen <= 8 && bit < 8 && s.IndexAt(bytePos, bit) == wpos
    ensures forall k :: wpos <= k < wpos + plen ==> s.ByteAt(k) == bytePos && s.BitAt(k) == bit + k - wpos
  {
    forall k | wpos <= k < wpos + plen
      ensures s.ByteAt(k) == bytePos && s.BitAt(k) == bit + k - wpos
    {
      PositionOfIndex(s, bytePos, bit + k - wpos);
    }
  }

  lemma PickedBits(s: Layout, data: seq<uint8>, bytePos: nat, bit: nat, len: nat, wpos: nat, plen: nat)
    requires bytePos < |data| && bit < 8 && 1 <= len <= 64 && s.startBit >= 0
    requires s.IndexAt(bytePos, bit) == wpos && plen == if 8 - bit > len then len else 8 - bit
    ensures Or(FromBits(s.SignalBits(data, wpos)), Shl(And(Shr(data[bytePos], bit), BYTE_MASK[len - 1]), wpos))
         == FromBits(s.SignalBits(data, wpos + plen))
  {
    hide Or, And, Shl, Shr, FromBits;
    var b := data[bytePos];
    var picked := And(Shr(b, bit), BYTE_MASK[len - 1]);
    var low, all := s.SignalBits(data, wpos), s.SignalBits(data, wpos + plen);
    StaysInByte(s, bytePos, bit, plen, wpos);
    assert Pow2(8) == 0x100;
    forall k: nat ensures Bit(Or(FromBits(low), Shl(picked, wpos)), k) == Bit(FromBits(all), k) {
      OrBits(FromBits(low), Shl(picked, wpos), k);
      ShlBits(picked, wpos, k);
      FromBitsBit(low, k);
      FromBitsBit(all, k);
      if k >= wpos {
        AndBits(Shr(b, bit), BYTE_MASK[len - 1], k - wpos);
        ShrBits(b, bit, k - wpos);
        MaskBits(len - 1, k - wpos);
        if k - wpos + bit >= 8 { HighBits(b, 8, k - wpos + bit); }
      }
    }
    SameBits(Or(FromBits(low), Shl(picked, wpos)), FromBits(all));
  }

  // ---- sign extension ----------------------------------------------------------------

  /** Each mask is the one before shifted left by one. */
  lemma SignMaskStep(n: nat)
    requires 0 < n < 64
    ensures (SIGN_MASK[n] as int) == 2 * (SIGN_MASK[n - 1] as int) - 0x1_0000_0000_0000_0000
  {
    if n < 32 { LowSignMaskStep(n); } else { HighSignMaskStep(n); }
  }

  lemma LowSignMaskStep(n: nat)
    requires 0 < n < 32
    ensures (SIGN_MASK[n] as int) == 2 * (SIGN_MASK[n - 1] as int) - 0x1_0000_0000_0000_0000
  {
    if n < 16 {
      if n < 8 {} else {}
    } else {
      if n < 24 {} else {}
    }
  }

  lemma HighSignMaskStep(n: nat)
    requires 32 <= n < 64
    ensures (SIGN_MASK[n] as int) == 2 * (SIGN_MASK[n - 1] as int) - 0x1_0000_0000_0000_0000
  {
    if n < 48 {
      if n < 40 {} else {}
    } else {
      if n < 56 {} else {}
    }
  }

  lemma {:induction false} SignMaskValue(n: nat)
    requires n < 64
    ensures SIGN_MASK[n] == 0x1_0000_0000_0000_0000 - Pow2(n)
    decreases n
  {
    if n > 0 {
      SignMaskValue(n - 1);
      SignMaskStep(n);
    }
  }

  lemma SignMaskBits(n: nat, k: nat)
    requires n < 64
    ensures Bit(SIGN_MASK[n], k) == (n <= k < 64)
  {
    SignMaskValue(n);
    Pow2At64();
    Pow2Monotone(n, 64);
    assert SIGN_MASK[n] == Not(Not(0, n), 64);
    ZeroBits(k);
    NotBits(0, n, k);
    NotBits(Not(0, n), 64, k);
  }

  lemma {:induction false} AndZero(x: nat)
    ensures And(x, 0) == 0
    decreases x
  {
    if x > 0 { AndZero(x / 2); }
  }

  lemma {:induction false} SingleBit(x: nat, n: nat)
    ensures (And(x, Shl(1, n)) != 0) == Bit(x, n)
    decreases n
  {
    if n == 0 {
      AndZero(x / 2);
    } else if x > 0 {
      assert Shl(1, n) / 2 == Shl(1, n - 1);
      SingleBit(x / 2, n - 1);
    } else {
      ZeroBits(n);
    }
  }

  lemma SignBits(bs: seq<bool>, mask: nat)
    requires 1 <= |bs| <= 64
    requires forall k: nat :: Bit(mask, k) == (|bs| - 1 <= k < 64)
    ensures var x, n := FromBits(bs), |bs| - 1;
            FromBits(Extended(bs)) == if And(x, Shl(1, n)) != 0 then Or(x, mask) else x
  {
    var x, n := FromBits(bs), |bs| - 1;
    SingleBit(x, n);
    FromBitsBit(bs, n);
    var y := FromBits(Extended(bs));
    forall k: nat ensures Bit(y, k) == if bs[n] then Bit(Or(x, mask), k) else Bit(x, k) {
      FromBitsBit(bs, k);
      FromBitsBit(Extended(bs), k);
      OrBits(x, mask, k);
    }
    SameBits(y, if bs[n] then Or(x, mask) else x);
  }
}
