/** DBC files number payload bits in a sawtooth and give a Motorola signal by its most significant
    bit; the library keeps the least significant one. */
module StartBit {
  import opened Bits

  /** `unsigned` sums and differences wrap at 32 bits. */
  function Wrap(x: int): uint32
    requires -0x1_0000_0000 <= x < 0x2_0000_0000
  {
    if x < 0 then x + 0x1_0000_0000
    else if x >= 0x1_0000_0000 then x - 0x1_0000_0000
    else x
  }

  /** Counts the bits of each byte from the other end: the sawtooth position of the bit with
      sequential position i, and back. */
  function Mirror(i: nat): nat {
    if i < 8 then 7 - i else 8 + Mirror(i - 8)
  }

  lemma {:induction false} MirrorValue(i: nat)
    ensures Mirror(i) == 8 * (i / 8) + 7 - i % 8
    decreases i
  {
    if i >= 8 { MirrorValue(i - 8); }
  }

  lemma {:induction false} MirrorTwice(i: nat)
    ensures Mirror(Mirror(i)) == i
    decreases i
  {
    if i >= 8 { MirrorTwice(i - 8); }
  }

  function Reflect(i: uint32): (r: uint32)
    ensures r == Mirror(i)
  {
    ReflectValue(i);
    Or(And(i, 0xffff_fff8), 7 - i % 8)
  }

  function MotorolaForwardMsbToLsb(i: uint32, len: uint32): uint32 {
    Reflect(Wrap(Reflect(i) + len - 1))
  }

  function MotorolaForwardLsbToMsb(i: uint32, len: uint32): uint32 {
    Reflect(Wrap(Reflect(i) + 1 - len))
  }

  /** Reading a DBC start bit and writing it back changes nothing, for all 32-bit inputs. */
  lemma StartBitRoundTrip(p: uint32, len: uint32)
    ensures MotorolaForwardLsbToMsb(MotorolaForwardMsbToLsb(p, len), len) == p
  {
    hide Reflect;
    var x := Wrap(Reflect(p) + len - 1);
    ReflectTwice(p);
    ReflectTwice(x);
    WrapInverse(Reflect(p), len - 1);
  }

  /** Neither does writing a start bit and reading it back. */
  lemma DbcStartBitRoundTrip(p: uint32, len: uint32)
    ensures MotorolaForwardMsbToLsb(MotorolaForwardLsbToMsb(p, len), len) == p
  {
    hide Reflect;
    var x := Wrap(Reflect(p) + 1 - len);
    ReflectTwice(p);
    ReflectTwice(x);
    WrapInverse(Reflect(p), 1 - len);
  }

  lemma ReflectTwice(i: uint32)
    ensures Reflect(Reflect(i)) == i
  {
    MirrorTwice(i);
  }

  lemma WrapInverse(a: uint32, d: int)
    requires -0x1_0000_0000 < d < 0x1_0000_0000
    ensures Wrap(Wrap(a + d) - d) == a
  {}

  lemma {:induction false} AndOnes(x: nat, n: nat)
    requires x < Pow2(n)
    ensures And(x, Pow2(n) - 1) == x
    decreases n
  {
    if n > 0 { AndOnes(x / 2, n - 1); }
  }

  lemma {:induction false} OrZero(x: nat)
    ensures Or(x, 0) == x
    decreases x
  {
    if x > 0 { OrZero(x / 2); }
  }

  lemma AndEven(x: nat, y: nat, z: nat)
    requires z == 2 * y
    ensures And(x, z) == 2 * And(x / 2, y)
  {
    assert z / 2 == y && z % 2 == 0;
  }

  lemma OrEven(z: nat, x: nat, y: nat)
    requires z == 2 * x
    ensures Or(z, y) == y % 2 + 2 * Or(x, y / 2)
  {
    assert z / 2 == x && z % 2 == 0;
  }

  /** Clearing the low three bits and then setting them to r. */
  lemma ClearLowThree(i: nat, m: nat)
    ensures And(i, 8 * m) == 8 * And(i / 8, m)
  {
    AndEven(i, 4 * m, 8 * m);
    AndEven(i / 2, 2 * m, 4 * m);
    AndEven(i / 4, m, 2 * m);
    assert i / 2 / 2 == i / 4 && i / 4 / 2 == i / 8;
  }

  lemma SetLowThree(i: nat, r: nat)
    requires r < 8
    ensures Or(8 * i, r) == 8 * i + r
  {
    hide Or;
    OrEven(8 * i, 4 * i, r);
    OrEven(4 * i, 2 * i, r / 2);
    OrEven(2 * i, i, r / 2 / 2);
    OrZero(i);
  }

  lemma ReflectValue(i: uint32)
    ensures Or(And(i, 0xffff_fff8), 7 - i % 8) == Mirror(i) < 0x1_0000_0000
  {
    hide And, Or, Mirror;
    Pow2At32();
    MirrorValue(i);
    ClearLowThree(i, Pow2(29) - 1);
    AndOnes(i / 8, 29);
    SetLowThree(i / 8, 7 - i % 8);
  }

  lemma Pow2At32()
    ensures Pow2(32) == 8 * Pow2(29) == 0x1_0000_0000
  {
    Pow2Squared(8, 0x100);
    Pow2Squared(16, 0x1_0000);
    assert Pow2(32) == 2 * Pow2(31) && Pow2(31) == 2 * Pow2(30) && Pow2(30) == 2 * Pow2(29);
  }
}
