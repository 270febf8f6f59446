/** Fixed-width words as naturals, and the bitwise operators of C on them.
    A word is described by its bits: `Bit(x, k)` is bit k, least significant first.
    Every operator below is characterised by one lemma about the bits of its result. */
module Bits {

  type uint8 = x: int | 0 <= x < 0x100
  type uint32 = x: int | 0 <= x < 0x1_0000_0000
  type uint64 = x: int | 0 <= x < 0x1_0000_0000_0000_0000

  type int32 = x: int | -0x8000_0000 <= x < 0x8000_0000

  /** A number wrapped into a signed 32-bit word. */
  function AsInt32(x: int): int32 {
    var u := x % 0x1_0000_0000;
    if u < 0x8000_0000 then u else u - 0x1_0000_0000
  }

  lemma AsInt32Near(x: int)
    ensures -0x8000_0000 <= x < 0x8000_0000 ==> AsInt32(x) == x
    ensures 0x8000_0000 <= x < 0x1_8000_0000 ==> AsInt32(x) == x - 0x1_0000_0000
    ensures -0x1_8000_0000 <= x < -0x8000_0000 ==> AsInt32(x) == x + 0x1_0000_0000
  {}

  lemma AsInt32Period(x: int)
    ensures AsInt32(x + 0x1_0000_0000) == AsInt32(x) == AsInt32(x - 0x1_0000_0000)
  {
    var d := 0x1_0000_0000;
    ModUnique(x + d, d, x / d + 1, x % d);
    ModUnique(x - d, d, x / d - 1, x % d);
  }

  function Pow2(n: nat): (p: nat)
    ensures p >= 1
  {
    if n == 0 then 1 else 2 * Pow2(n - 1)
  }

  predicate Bit(x: nat, k: nat)
    decreases k
  {
    if k == 0 then x % 2 == 1 else Bit(x / 2, k - 1)
  }

  function And(x: nat, y: nat): nat
    decreases x
  {
    if x == 0 then 0
    else (if x % 2 == 1 && y % 2 == 1 then 1 else 0) + 2 * And(x / 2, y / 2)
  }

  function Or(x: nat, y: nat): nat
    decreases x
  {
    if x == 0 then y
    else (if x % 2 == 1 || y % 2 == 1 then 1 else 0) + 2 * Or(x / 2, y / 2)
  }

  /** The complement of a `w`-bit word. */
  function Not(x: nat, w: nat): (r: nat)
    requires x < Pow2(w)
  {
    Pow2(w) - 1 - x
  }

  function Shl(x: nat, n: nat): nat
    decreases n
  {
    if n == 0 then x else 2 * Shl(x, n - 1)
  }

  function Shr(x: nat, n: nat): nat
    decreases n
  {
    if n == 0 then x else Shr(x / 2, n - 1)
  }

  // ---- the bits of each operator -----------------------------------------------

  lemma {:induction false} ZeroBits(k: nat)
    ensures !Bit(0, k)
    decreases k
  {
    if k > 0 { ZeroBits(k - 1); }
  }

  lemma {:induction false} AndBits(x: nat, y: nat, k: nat)
    ensures Bit(And(x, y), k) == (Bit(x, k) && Bit(y, k))
    decreases k
  {
    if x == 0 {
      ZeroBits(k);
    } else if k > 0 {
      assert And(x, y) / 2 == And(x / 2, y / 2);
      AndBits(x / 2, y / 2, k - 1);
    }
  }

  lemma {:induction false} OrBits(x: nat, y: nat, k: nat)
    ensures Bit(Or(x, y), k) == (Bit(x, k) || Bit(y, k))
    decreases k
  {
    if x == 0 {
      ZeroBits(k);
    } else if k > 0 {
      assert Or(x, y) / 2 == Or(x / 2, y / 2);
      OrBits(x / 2, y / 2, k - 1);
    }
  }

  lemma NotHalf(x: nat, w: nat)
    requires w > 0 && x < Pow2(w)
    ensures x / 2 < Pow2(w - 1) && Not(x, w) / 2 == Not(x / 2, w - 1) && Not(x, w) % 2 == 1 - x % 2
  {
    assert Pow2(w) == 2 * Pow2(w - 1);
    hide Pow2;
  }

  lemma {:induction false} NotBits(x: nat, w: nat, k: nat)
    requires x < Pow2(w)
    ensures Bit(Not(x, w), k) == (k < w && !Bit(x, k))
    decreases w
  {
    if w == 0 {
      ZeroBits(k);
    } else {
      NotHalf(x, w);
      if k > 0 { NotBits(x / 2, w - 1, k - 1); }
    }
  }

  lemma {:induction false} ShlBits(x: nat, n: nat, k: nat)
    ensures Bit(Shl(x, n), k) == (k >= n && Bit(x, k - n))
    decreases n
  {
    if n > 0 && k > 0 {
      assert Shl(x, n) / 2 == Shl(x, n - 1);
      ShlBits(x, n - 1, k - 1);
    }
  }

  lemma {:induction false} ShrBits(x: nat, n: nat, k: nat)
    ensures Bit(Shr(x, n), k) == Bit(x, k + n)
    decreases n
  {
    if n > 0 { ShrBits(x / 2, n - 1, k); }
  }

  /** A word below 2^w has no bit at or above w, and conversely. */
  lemma {:induction false} HighBits(x: nat, w: nat, k: nat)
    requires x < Pow2(w) && k >= w
    ensures !Bit(x, k)
    decreases w
  {
    if w == 0 {
      ZeroBits(k);
    } else {
      HighBits(x / 2, w - 1, k - 1);
    }
  }

  lemma {:induction false} BelowPow2(x: nat, w: nat)
    requires forall k: nat :: k >= w ==> !Bit(x, k)
    ensures x < Pow2(w)
    decreases x
  {
    if x > 0 {
      if w == 0 {
        forall k: nat ensures !Bit(x / 2, k) { assert !Bit(x, k + 1); }
        BelowPow2(x / 2, 0);
        assert !Bit(x, 0);
      } else {
        forall k: nat | k >= w - 1 ensures !Bit(x / 2, k) { assert !Bit(x, k + 1); }
        BelowPow2(x / 2, w - 1);
      }
    }
  }

  /** Words with the same bits are equal. */
  lemma {:induction false} SameBits(x: nat, y: nat)
    requires forall k: nat :: Bit(x, k) == Bit(y, k)
    ensures x == y
    decreases x + y
  {
    if x + y > 0 {
      assert Bit(x, 0) == Bit(y, 0);
      forall k: nat ensures Bit(x / 2, k) == Bit(y / 2, k) { assert Bit(x, k + 1) == Bit(y, k + 1); }
      SameBits(x / 2, y / 2);
    }
  }

  // ---- bit strings -------------------------------------------------------------

  /** The integer whose bit k is bs[k]. */
  function FromBits(bs: seq<bool>): (x: nat)
    ensures x < Pow2(|bs|)
  {
    if bs == [] then 0 else (if bs[0] then 1 else 0) + 2 * FromBits(bs[1..])
  }

  function ToBits(x: nat, n: nat): seq<bool> {
    seq(n, k requires 0 <= k < n => Bit(x, k))
  }

  lemma {:induction false} FromBitsBit(bs: seq<bool>, k: nat)
    ensures Bit(FromBits(bs), k) == (k < |bs| && bs[k])
    decreases k
  {
    if bs == [] {
      ZeroBits(k);
    } else if k > 0 {
      assert FromBits(bs) / 2 == FromBits(bs[1..]);
      FromBitsBit(bs[1..], k - 1);
    }
  }

  lemma {:induction false} FromToBits(x: nat, n: nat)
    ensures FromBits(ToBits(x, n)) == x % Pow2(n)
    decreases n
  {
    if n > 0 {
      var bs := ToBits(x, n);
      assert bs[0] == (x % 2 == 1);
      assert bs[1..] == ToBits(x / 2, n - 1) by {
        forall k | 0 <= k < n - 1 ensures bs[1..][k] == Bit(x / 2, k) { assert bs[k + 1] == Bit(x, k + 1); }
      }
      FromToBits(x / 2, n - 1);
      ModHalf(x, Pow2(n - 1));
    }
  }

  lemma ModHalf(x: nat, p: nat)
    requires p > 0
    ensures x % (2 * p) == x % 2 + 2 * ((x / 2) % p)
  {
    var q, r := x / 2 / p, (x / 2) % p;
    assert x == 2 * (q * p + r) + x % 2;
    assert x == q * (2 * p) + (2 * r + x % 2);
    ModUnique(x, 2 * p, q, 2 * r + x % 2);
  }

  lemma MulSign(a: int, d: int)
    requires d > 0
    ensures a >= 1 ==> a * d >= d
    ensures a <= -1 ==> a * d <= -d
  {}

  lemma ModUnique(x: int, d: int, q: int, r: int)
    requires 0 <= r < d && x == q * d + r
    ensures x / d == q && x % d == r
  {
    var q', r' := x / d, x % d;
    assert x == q' * d + r';
    assert (q' - q) * d == q' * d - q * d;
    MulSign(q' - q, d);
  }

  lemma DoubleProduct(d: int, a: int, b: int)
    requires d == 2 * a
    ensures d * b == 2 * (a * b)
  {}

  lemma {:induction false} Pow2Sum(a: nat, b: nat)
    ensures Pow2(a + b) == Pow2(a) * Pow2(b)
    decreases a
  {
    if a > 0 {
      Pow2Sum(a - 1, b);
      DoubleProduct(Pow2(a), Pow2(a - 1), Pow2(b));
    }
  }

  lemma Pow2Squared(n: nat, p: nat)
    requires Pow2(n) == p
    ensures Pow2(2 * n) == p * p
  {
    Pow2Sum(n, n);
  }

  lemma Pow2At64()
    ensures Pow2(64) == 0x1_0000_0000_0000_0000
  {
    assert Pow2(8) == 0x100;
    Pow2Squared(8, 0x100);
    Pow2Squared(16, 0x1_0000);
    Pow2Squared(32, 0x1_0000_0000);
  }

  lemma {:induction false} Pow2Monotone(a: nat, b: nat)
    requires a <= b
    ensures Pow2(a) <= Pow2(b)
    decreases b
  {
    if a < b { Pow2Monotone(a, b - 1); }
  }

  /** Bits of a concatenation: low part first. */
  lemma {:induction false} FromBitsConcat(lo: seq<bool>, hi: seq<bool>, w: nat)
    requires w == Pow2(|lo|)
    ensures FromBits(lo + hi) == FromBits(lo) + w * FromBits(hi)
    decreases |lo|
  {
    if lo == [] {
      assert lo + hi == hi;
    } else {
      var u := Pow2(|lo| - 1);
      assert (lo + hi)[1..] == lo[1..] + hi;
      FromBitsConcat(lo[1..], hi, u);
      DoubleProduct(w, u, FromBits(hi));
    }
  }

  /** A byte is determined by its eight bits. */
  lemma SameByte(x: uint8, y: uint8)
    requires forall j :: 0 <= j < 8 ==> Bit(x, j) == Bit(y, j)
    ensures x == y
  {
    forall k: nat ensures Bit(x, k) == Bit(y, k) {
      if k >= 8 {
        HighBits(x, 8, k);
        HighBits(y, 8, k);
      }
    }
    SameBits(x, y);
  }
}
