/** Where a signal's bits live in a CAN payload, and what storing and reading mean, bit by bit.
    This is the specification that the loops in `SignalCodec` are proved against. */
module SignalLayout {
  import opened Bits

  /** Payloads with the same bits are equal. */
  lemma SamePayload(a: seq<uint8>, b: seq<uint8>)
    requires |a| == |b|
    requires forall i: nat, j: nat :: i < |a| && j < 8 ==> Bit(a[i], j) == Bit(b[i], j)
    ensures a == b
  {
    forall i | 0 <= i < |a| ensures a[i] == b[i] {
      SameByte(a[i], b[i]);
    }
  }

  function ByteFromBits(bs: seq<bool>): (b: uint8)
    requires |bs| == 8
    ensures forall j: nat :: j < 8 ==> Bit(b, j) == bs[j]
  {
    assert Pow2(8) == 0x100;
    assert forall j: nat :: j < 8 ==> Bit(FromBits(bs), j) == bs[j] by {
      forall j: nat | j < 8 ensures Bit(FromBits(bs), j) == bs[j] { FromBitsBit(bs, j); }
    }
    FromBits(bs)
  }

  /** Bit positions are pairs: bit 0..7 of a byte, least significant first. */
  datatype Layout = Layout(startBit: int, length: int, motorola: bool) {

    /** The byte and the bit in it that hold bit k of the value. Intel signals grow towards higher
        bytes. Motorola signals fill a byte from the start bit upwards and go on in the byte below. */
    function ByteAt(k: nat): int {
      if motorola then startBit / 8 - (startBit % 8 + k) / 8 else (startBit + k) / 8
    }

    function BitAt(k: nat): nat {
      (startBit + k) % 8
    }

    /** The value bit held by bit j of byte i; outside [0, length) when that is not part of the signal. */
    function IndexAt(i: int, j: int): int {
      if motorola then 8 * (startBit / 8 - i) + j - startBit % 8 else 8 * i + j - startBit
    }

    predicate Covers(i: int, j: int) {
      0 <= IndexAt(i, j) < length
    }

    /** The whole signal lies inside a payload of `dlc` bytes. */
    predicate Fits(dlc: int) {
      && startBit >= 0
      && 1 <= length <= 64
      && forall k :: 0 <= k < length ==> 0 <= ByteAt(k) < dlc
    }

    /** Bit j of byte i after storing: bit k of `value` goes where the layout puts it as far as the
        first `dlc` bytes reach, and every other bit stays. */
    predicate StoredBit(data: seq<uint8>, dlc: int, value: nat, i: nat, j: nat)
      requires i < |data|
    {
      if Covers(i, j) && i < dlc then Bit(value, IndexAt(i, j)) else Bit(data[i], j)
    }

    function Stored(data: seq<uint8>, dlc: int, value: nat): (r: seq<uint8>)
      ensures |r| == |data|
      ensures forall i: nat, j: nat :: i < |data| && j < 8 ==> Bit(r[i], j) == StoredBit(data, dlc, value, i, j)
    {
      seq(|data|, i requires 0 <= i < |data| =>
        ByteFromBits(seq(8, j requires 0 <= j < 8 => StoredBit(data, dlc, value, i, j))))
    }

    /** Bit k of the value as the payload holds it. */
    predicate SignalBit(data: seq<uint8>, k: nat) {
      0 <= ByteAt(k) < |data| && Bit(data[ByteAt(k)], BitAt(k))
    }

    /** The first n bits of the signal, least significant first. */
    function SignalBits(data: seq<uint8>, n: nat): (bs: seq<bool>)
      ensures |bs| == n
    {
      seq(n, k requires 0 <= k < n => SignalBit(data, k))
    }

    function Read(data: seq<uint8>): (value: uint64)
      requires Fits(|data|)
    {
      WordFits(SignalBits(data, length));
      FromBits(SignalBits(data, length))
    }

    /** The value with its sign bit repeated upwards to fill 64 bits. */
    function ReadExtended(data: seq<uint8>): (value: uint64)
      requires Fits(|data|)
    {
      WordFits(Extended(SignalBits(data, length)));
      FromBits(Extended(SignalBits(data, length)))
    }
  }

  function Extended(bs: seq<bool>): (r: seq<bool>)
    requires 1 <= |bs| <= 64
    ensures |r| == 64
  {
    seq(64, k requires 0 <= k < 64 => bs[if k < |bs| then k else |bs| - 1])
  }

  lemma WordFits(bs: seq<bool>)
    requires |bs| <= 64
    ensures FromBits(bs) < 0x1_0000_0000_0000_0000
  {
    Pow2At64();
    Pow2Monotone(|bs|, 64);
  }

  // ---- the two directions of the layout are inverse ---------------------------------

  lemma IndexOfPosition(s: Layout, k: nat)
    ensures s.IndexAt(s.ByteAt(k), s.BitAt(k)) == k
  {
    var q, r := s.startBit / 8, s.startBit % 8;
    ModUnique(s.startBit + k, 8, q + (r + k) / 8, (r + k) % 8);
  }

  lemma PositionOfIndex(s: Layout, i: int, j: nat)
    requires s.IndexAt(i, j) >= 0 && j < 8
    ensures s.ByteAt(s.IndexAt(i, j)) == i && s.BitAt(s.IndexAt(i, j)) == j
  {
    var q, r, k := s.startBit / 8, s.startBit % 8, s.IndexAt(i, j);
    if s.motorola {
      ModUnique(r + k, 8, q - i, j);
      ModUnique(s.startBit + k, 8, 2 * q - i, j);
    } else {
      ModUnique(s.startBit + k, 8, i, j);
    }
  }
}
