/** What the checksum is and which errors it detects. The message is a bit string, each byte
    least significant bit first; its first bit is the highest coefficient of a polynomial over GF(2). */
module Crc32Theorems {
  import opened Crc32

  // ---- words as bit strings ----------------------------------------------------------------

  predicate Odd(r: bv32) {
    r & 1 == 1
  }

  function Half(r: bv32): bv32 {
    r >> 1
  }

  predicate BitOf(r: bv32, k: nat)
    decreases k
  {
    if k == 0 then Odd(r) else BitOf(Half(r), k - 1)
  }

  /** The low n bits, lowest first. */
  function WordBits(r: bv32, n: nat): seq<bool> {
    seq(n, k requires 0 <= k < n => BitOf(r, k))
  }

  function MessageBits(data: seq<bv8>): (bits: seq<bool>)
    ensures |bits| == 8 * |data|
  {
    if data == [] then [] else WordBits(Widen(data[0]), 8) + MessageBits(data[1..])
  }

  lemma LowXor(a: bv32, b: bv32)
    ensures ((a ^ b) & 1 == 1) == ((a & 1 == 1) != (b & 1 == 1))
    ensures (a ^ b) >> 1 == (a >> 1) ^ (b >> 1)
  {}

  lemma XorOdd(a: bv32, b: bv32)
    ensures Odd(Xor(a, b)) == (Odd(a) != Odd(b))
    ensures Half(Xor(a, b)) == Xor(Half(a), Half(b))
  {
    LowXor(a, b);
  }

  lemma {:induction false} XorBits(a: bv32, b: bv32, k: nat)
    ensures BitOf(Xor(a, b), k) == (BitOf(a, k) != BitOf(b, k))
    decreases k
  {
    hide Xor, Odd, Half;
    XorOdd(a, b);
    if k > 0 { XorBits(Half(a), Half(b), k - 1); }
  }

  /** What is left of a word above its low n bits. */
  function Above(r: bv32, n: nat): bv32
    decreases n
  {
    if n == 0 then r else Above(Half(r), n - 1)
  }

  lemma {:induction false} BitAbove(r: bv32, n: nat, k: nat)
    ensures BitOf(r, n + k) == BitOf(Above(r, n), k)
    decreases n
  {
    hide Odd, Half;
    if n > 0 { BitAbove(Half(r), n - 1, k); }
  }

  lemma {:induction false} AboveSum(r: bv32, m: nat, n: nat)
    ensures Above(r, m + n) == Above(Above(r, m), n)
    decreases m
  {
    hide Half;
    if m > 0 { AboveSum(Half(r), m - 1, n); }
  }

  lemma Above8(r: bv32)
    ensures Above(r, 8) == r >> 8
  {}

  lemma Above32(r: bv32)
    ensures Above(r, 32) == 0
  {
    hide Above;
    var a := r >> 8;
    var b := a >> 8;
    var c := b >> 8;
    Above8(r);
    Above8(a);
    Above8(b);
    Above8(c);
    AboveSum(r, 8, 24);
    AboveSum(a, 8, 16);
    AboveSum(b, 8, 8);
    FourBytesShiftedOut(r);
  }

  lemma FourBytesShiftedOut(r: bv32)
    ensures (((r >> 8) >> 8) >> 8) >> 8 == 0
  {}

  // ---- feeding bits --------------------------------------------------------------------------

  function FeedBit(r: bv32, b: bool): bv32 {
    Step(Xor(r, if b then 1 else 0))
  }

  function FeedBits(r: bv32, bits: seq<bool>): bv32
    decreases |bits|
  {
    if bits == [] then r else FeedBits(FeedBit(r, bits[0]), bits[1..])
  }

  lemma {:induction false} FeedBitsSplit(r: bv32, a: seq<bool>, b: seq<bool>)
    ensures FeedBits(r, a + b) == FeedBits(FeedBits(r, a), b)
    decreases |a|
  {
    hide FeedBit;
    if a == [] {
      assert a + b == b;
    } else {
      assert (a + b)[1..] == a[1..] + b;
      FeedBitsSplit(FeedBit(r, a[0]), a[1..], b);
    }
  }

  /** Feeding one bit of w and keeping the rest for later is one step on the register with all of w. */
  lemma FeedLowBit(r: bv32, w: bv32)
    ensures Xor(FeedBit(r, Odd(w)), Half(w)) == Step(Xor(r, w))
  {
    hide Xor, Step, Half;
    var low: bv32 := if Odd(w) then 1 else 0;
    EvenStep(w);
    StepXor(Xor(r, low), Xor(w, low));
    LowAndRest(r, w, low);
  }

  lemma EvenStep(w: bv32)
    ensures Step(Xor(w, if Odd(w) then 1 else 0)) == Half(w)
  {
    ClearLow(w);
    if Odd(w) {
      assert Xor(w, 1) & 1 == 0;
      hide POLYNOMIAL;
    } else {
      assert Xor(w, 0) == w;
    }
  }

  lemma ClearLow(w: bv32)
    ensures w ^ 0 == w
    ensures (w ^ 1) >> 1 == w >> 1
    ensures w & 1 == 1 ==> (w ^ 1) & 1 == 0
  {}

  lemma LowAndRest(r: bv32, w: bv32, low: bv32)
    ensures Xor(Xor(r, low), Xor(w, low)) == Xor(r, w)
  {
    hide Xor;
    XorAssoc(Xor(r, low), low, w);
    XorAssoc(r, low, low);
    XorComm(low, w);
    XorSelf(low);
    XorSelf(r);
  }

  /** Feeding the low n bits of a word one by one is n steps on the register with the word added. */
  lemma {:induction false} FeedWord(r: bv32, w: bv32, n: nat)
    ensures Xor(FeedBits(r, WordBits(w, n)), Above(w, n)) == Steps(Xor(r, w), n)
    decreases n
  {
    hide Xor, Odd, Half, Step, FeedBit;
    if n > 0 {
      var bits := WordBits(w, n);
      assert bits[0] == BitOf(w, 0) == Odd(w);
      assert bits[1..] == WordBits(Half(w), n - 1);
      FeedLowBit(r, w);
      FeedWord(FeedBit(r, Odd(w)), Half(w), n - 1);
    }
  }

  lemma FeedByteBits(r: bv32, b: bv8)
    ensures FeedByte(r, b) == FeedBits(r, WordBits(Widen(b), 8))
  {
    hide Xor, Above, Steps, FeedBits, WordBits, Widen;
    FeedWord(r, Widen(b), 8);
    NothingAboveByte(b);
    XorSelf(FeedBits(r, WordBits(Widen(b), 8)));
  }

  lemma NothingAboveByte(b: bv8)
    ensures Above(Widen(b), 8) == 0
  {
    hide Above;
    Above8(Widen(b));
  }

  /** Feeding bytes is feeding their bits. */
  lemma {:induction false} FeedMessageBits(r: bv32, data: seq<bv8>)
    ensures Feed(r, data) == FeedBits(r, MessageBits(data))
    decreases |data|
  {
    hide FeedByte, FeedBit, WordBits, Widen;
    if data != [] {
      FeedByteBits(r, data[0]);
      FeedBitsSplit(r, WordBits(Widen(data[0]), 8), MessageBits(data[1..]));
      FeedMessageBits(FeedByte(r, data[0]), data[1..]);
    }
  }

  // ---- long division ---------------------------------------------------------------------------

  /** The exponents of the generator of section 3.2.9 of IEEE 802.3. */
  const EXPONENTS: set<int> := {32, 26, 23, 22, 16, 12, 11, 10, 8, 7, 5, 4, 2, 1, 0}

  /** The generator's coefficients, that of x^32 first. */
  const GENERATOR: seq<bool> := seq(33, i requires 0 <= i < 33 => 32 - i in EXPONENTS)

  /** Subtracts the generator from the leading coefficients if the first is one; either way the
      leading coefficient is then zero and is dropped. */
  function Reduce(p: seq<bool>): (q: seq<bool>)
    requires |p| > 32
    ensures |q| == |p| - 1
  {
    seq(|p| - 1, i requires 0 <= i < |p| - 1 => p[i + 1] != (p[0] && i < 32 && GENERATOR[i + 1]))
  }

  /** Schoolbook long division: the 32 coefficients of p modulo the generator. */
  function Remainder(p: seq<bool>): (rem: seq<bool>)
    requires |p| >= 32
    ensures |rem| == 32
    decreases |p|
  {
    if |p| == 32 then p else Remainder(Reduce(p))
  }

  function Zeros(n: nat): seq<bool> {
    seq(n, _ => false)
  }

  /** p with its first 32 coefficients changed where `mask` says so. */
  function AddLeading(mask: bv32, p: seq<bool>): (q: seq<bool>)
    requires |p| >= 32
    ensures |q| == |p|
  {
    seq(|p|, i requires 0 <= i < |p| => p[i] != (i < 32 && BitOf(mask, i)))
  }

  lemma NibbleBits(w: bv32)
    ensures BitOf(w, 0) == (w & 1 != 0) && BitOf(w, 1) == (w & 2 != 0)
    ensures BitOf(w, 2) == (w & 4 != 0) && BitOf(w, 3) == (w & 8 != 0)
  {}

  lemma Above4(w: bv32)
    ensures Above(w, 4) == w >> 4
  {}

  lemma NibbleMasks(w: bv32)
    ensures ((w >> 4) & 1 != 0) == (w & 16 != 0) && ((w >> 4) & 2 != 0) == (w & 32 != 0)
    ensures ((w >> 4) & 4 != 0) == (w & 64 != 0) && ((w >> 4) & 8 != 0) == (w & 128 != 0)
  {}

  lemma ByteBits(w: bv32)
    ensures BitOf(w, 0) == (w & 1 != 0) && BitOf(w, 1) == (w & 2 != 0)
    ensures BitOf(w, 2) == (w & 4 != 0) && BitOf(w, 3) == (w & 8 != 0)
    ensures BitOf(w, 4) == (w & 16 != 0) && BitOf(w, 5) == (w & 32 != 0)
    ensures BitOf(w, 6) == (w & 64 != 0) && BitOf(w, 7) == (w & 128 != 0)
  {
    hide BitOf, Above;
    Above4(w);
    NibbleBits(w);
    NibbleBits(w >> 4);
    NibbleMasks(w);
    BitAbove(w, 4, 0);
    BitAbove(w, 4, 1);
    BitAbove(w, 4, 2);
    BitAbove(w, 4, 3);
  }

  /** The constant in the register is the generator without its leading term. */
  lemma PolynomialIsGenerator(i: nat)
    requires i < 32
    ensures BitOf(POLYNOMIAL, i) == GENERATOR[i + 1]
  {
    hide BitOf;
    var p := POLYNOMIAL;
    ByteBits(p);
    ByteBits(p >> 8);
    ByteBits(p >> 16);
    ByteBits(p >> 24);
    Above8(p);
    Above8(p >> 8);
    Above8(p >> 16);
    AboveSum(p, 8, 8);
    AboveSum(p, 16, 8);
    if i >= 24 {
      BitAbove(p, 24, i - 24);
    } else if i >= 16 {
      BitAbove(p, 16, i - 16);
    } else if i >= 8 {
      BitAbove(p, 8, i - 8);
    }
  }

  lemma StepBits(x: bv32, i: nat)
    requires i < 32
    ensures BitOf(Step(x), i) == (BitOf(x, i + 1) != (Odd(x) && GENERATOR[i + 1]))
  {
    hide BitOf, Odd, Half, Xor;
    PolynomialIsGenerator(i);
    StepIs(x);
    XorBits(Half(x), POLYNOMIAL, i);
    BitAbove(x, 1, i);
  }

  lemma StepIs(x: bv32)
    ensures Step(x) == if Odd(x) then Xor(Half(x), POLYNOMIAL) else Half(x)
    ensures Above(x, 1) == Half(x)
  {}

  /** The register after one bit holds what one step of long division leaves to be added. */
  lemma ReduceStep(r: bv32, p: seq<bool>)
    requires |p| > 32
    ensures Reduce(AddLeading(r, p)) == AddLeading(FeedBit(r, p[0]), p[1..])
  {
    hide BitOf, Odd, Half, Xor, Step;
    var b: bv32 := if p[0] then 1 else 0;
    var x := Xor(r, b);
    var q := AddLeading(r, p);
    forall i | 0 <= i < |p| - 1
      ensures Reduce(q)[i] == AddLeading(FeedBit(r, p[0]), p[1..])[i]
    {
      FirstBit(r, p[0]);
      XorBits(r, b, i + 1);
      OnlyFirstBit(p[0], i + 1);
      if i < 32 { StepBits(x, i); }
      if i == 31 { NoBit32(r); }
    }
  }

  lemma NoBit32(r: bv32)
    ensures !BitOf(r, 32)
  {
    Above32(r);
    BitAbove(r, 32, 0);
  }

  lemma FirstBit(r: bv32, b: bool)
    ensures Odd(Xor(r, if b then 1 else 0)) == (BitOf(r, 0) != b)
  {
    XorOdd(r, if b then 1 else 0);
  }

  lemma {:induction false} NoBits(k: nat)
    ensures !BitOf(0, k)
    decreases k
  {
    assert Half(0) == 0;
    if k > 0 { NoBits(k - 1); }
  }

  lemma OnlyFirstBit(b: bool, k: nat)
    requires k > 0
    ensures !BitOf(if b then 1 else 0, k)
  {
    assert Half(1) == 0 && Half(0) == 0;
    NoBits(k - 1);
  }

  /** Dividing the message with the register added to its leading coefficients leaves the register
      after all its bits have been fed. */
  lemma {:induction false} DivisionIsFeeding(r: bv32, bits: seq<bool>)
    ensures Remainder(AddLeading(r, bits + Zeros(32))) == WordBits(FeedBits(r, bits), 32)
    decreases |bits|
  {
    hide BitOf, FeedBit;
    var p := bits + Zeros(32);
    if bits == [] {
      assert AddLeading(r, p) == WordBits(r, 32);
    } else {
      ReduceStep(r, p);
      assert p[1..] == bits[1..] + Zeros(32);
      DivisionIsFeeding(FeedBit(r, bits[0]), bits[1..]);
    }
  }

  /** The checksum is that of section 3.2.9 of IEEE 802.3: complement the first 32 bits of the message,
      multiply by x^32, divide by the generator and complement the remainder, whose highest
      coefficient is the checksum's lowest bit. */
  lemma ChecksumIsDivision(data: seq<bv8>)
    ensures var rem := Remainder(AddLeading(0xFFFF_FFFF, MessageBits(data) + Zeros(32)));
            forall i :: 0 <= i < 32 ==> BitOf(Checksum(data), i) == !rem[i]
  {
    hide BitOf, Xor, Feed, FeedBits, Checksum;
    FeedMessageBits(0xFFFF_FFFF, data);
    DivisionIsFeeding(0xFFFF_FFFF, MessageBits(data));
    ChecksumIsXor(data);
    forall i | 0 <= i < 32 ensures BitOf(Checksum(data), i) == !BitOf(Feed(0xFFFF_FFFF, data), i) {
      XorBits(Feed(0xFFFF_FFFF, data), 0xFFFF_FFFF, i);
      AllOnes(i);
    }
  }

  lemma ChecksumIsXor(data: seq<bv8>)
    ensures Checksum(data) == Xor(Feed(0xFFFF_FFFF, data), 0xFFFF_FFFF)
  {
    hide Feed, Complement, Xor;
    ComplementIsXor(Feed(0xFFFF_FFFF, data));
  }

  lemma ComplementIsXor(r: bv32)
    ensures Complement(r) == Xor(r, 0xFFFF_FFFF)
  {}

  lemma AllOnes(i: nat)
    requires i < 32
    ensures BitOf(0xFFFF_FFFF, i)
  {
    var w: bv32 := 0xFFFF_FFFF;
    ByteBits(w);
    ByteBits(w >> 8);
    ByteBits(w >> 16);
    ByteBits(w >> 24);
    Above8(w);
    Above8(w >> 8);
    Above8(w >> 16);
    AboveSum(w, 8, 8);
    AboveSum(w, 16, 8);
    if i >= 24 {
      BitAbove(w, 24, i - 24);
    } else if i >= 16 {
      BitAbove(w, 16, i - 16);
    } else if i >= 8 {
      BitAbove(w, 8, i - 8);
    }
  }

  // ---- error detection ---------------------------------------------------------------------------

  lemma StepInjective(a: bv32, b: bv32)
    requires Step(a) == Step(b)
    ensures a == b
  {}

  lemma {:induction false} StepsInjective(a: bv32, b: bv32, n: nat)
    requires Steps(a, n) == Steps(b, n)
    ensures a == b
    decreases n
  {
    hide Step;
    if n > 0 {
      StepsInjective(Step(a), Step(b), n - 1);
      StepInjective(a, b);
    }
  }

  lemma XorCancel(a: bv32, b: bv32, c: bv32)
    requires Xor(a, c) == Xor(b, c)
    ensures a == b
  {
    hide Xor;
    XorAssoc(a, c, c);
    XorAssoc(b, c, c);
    XorSelf(a);
    XorSelf(b);
    XorSelf(c);
  }

  /** Different registers stay different whatever bits follow. */
  lemma {:induction false} FeedBitsInjective(r: bv32, q: bv32, bits: seq<bool>)
    requires FeedBits(r, bits) == FeedBits(q, bits)
    ensures r == q
    decreases |bits|
  {
    hide Step, Xor;
    if bits != [] {
      FeedBitsInjective(FeedBit(r, bits[0]), FeedBit(q, bits[0]), bits[1..]);
      var b: bv32 := if bits[0] then 1 else 0;
      StepInjective(Xor(r, b), Xor(q, b));
      XorCancel(r, q, b);
    }
  }

  function Join(b: bool, x: bv32): bv32 {
    if b then (x << 1) | 1 else x << 1
  }

  /** The word with the given low bits. */
  function WordOf(bits: seq<bool>): bv32 {
    if bits == [] then 0 else Join(bits[0], WordOf(bits[1..]))
  }

  lemma JoinBits(b: bool, x: bv32)
    requires x & 0x8000_0000 == 0
    ensures Odd(Join(b, x)) == b && Half(Join(b, x)) == x
  {}

  lemma {:induction false} AboveZero(n: nat)
    ensures Above(0, n) == 0
    decreases n
  {
    assert Half(0) == 0;
    if n > 0 { AboveZero(n - 1); }
  }

  lemma TopBitClear(x: bv32, n: nat)
    requires n <= 31 && Above(x, n) == 0
    ensures x & 0x8000_0000 == 0
  {
    hide Above;
    AboveZero(31 - n);
    AboveSum(x, n, 31 - n);
    var a := x >> 8;
    var b := a >> 8;
    var c := b >> 8;
    Above8(x);
    Above8(a);
    Above8(b);
    AboveSum(x, 8, 23);
    AboveSum(a, 8, 15);
    AboveSum(b, 8, 7);
    Above7(c);
    TopBitLast(x);
  }

  lemma Above7(x: bv32)
    ensures Above(x, 7) == x >> 7
  {}

  lemma TopBitLast(x: bv32)
    ensures (((x >> 8) >> 8) >> 8) >> 7 == 0 ==> x & 0x8000_0000 == 0
  {}

  lemma {:induction false} WordOfBits(bits: seq<bool>)
    requires |bits| <= 32
    ensures WordBits(WordOf(bits), |bits|) == bits && Above(WordOf(bits), |bits|) == 0
    decreases |bits|
  {
    hide Odd, Half, Join;
    if bits != [] {
      var x := WordOf(bits[1..]);
      WordOfBits(bits[1..]);
      TopBitClear(x, |bits| - 1);
      JoinBits(bits[0], x);
      var w := WordOf(bits);
      forall k | 0 <= k < |bits| ensures BitOf(w, k) == bits[k] {
        if k > 0 { assert WordBits(x, |bits| - 1)[k - 1] == bits[1..][k - 1]; }
      }
    }
  }

  /** From one register, different bit strings of at most 32 bits lead to different registers. */
  lemma WindowInjective(r: bv32, u: seq<bool>, v: seq<bool>)
    requires |u| == |v| <= 32
    requires FeedBits(r, u) == FeedBits(r, v)
    ensures u == v
  {
    hide Xor, Above, Steps, FeedBits, WordOf;
    var x, y := WordOf(u), WordOf(v);
    WordOfBits(u);
    WordOfBits(v);
    FeedWord(r, x, |u|);
    FeedWord(r, y, |u|);
    StepsInjective(Xor(r, x), Xor(r, y), |u|);
    XorComm(r, x);
    XorComm(r, y);
    XorCancel(x, y, r);
  }

  lemma ByteWiden(x: bv8, y: bv8)
    requires Widen(x) == Widen(y)
    ensures x == y
  {}

  lemma {:induction false} MessageBitsInjective(a: seq<bv8>, b: seq<bv8>)
    requires |a| == |b| && MessageBits(a) == MessageBits(b)
    ensures a == b
    decreases |a|
  {
    hide FeedBits, Xor, Steps, WordBits, Widen;
    if a != [] {
      var x, y := WordBits(Widen(a[0]), 8), WordBits(Widen(b[0]), 8);
      assert MessageBits(a)[..8] == x && MessageBits(b)[..8] == y;
      assert MessageBits(a)[8..] == MessageBits(a[1..]) && MessageBits(b)[8..] == MessageBits(b[1..]);
      MessageBitsInjective(a[1..], b[1..]);
      FeedByteBits(0, a[0]);
      FeedByteBits(0, b[0]);
      StepsInjective(Xor(0, Widen(a[0])), Xor(0, Widen(b[0])), 8);
      XorSelf(Widen(a[0]));
      XorSelf(Widen(b[0]));
      ByteWiden(a[0], b[0]);
    }
  }

  lemma ComplementInjective(a: bv32, b: bv32)
    requires Complement(a) == Complement(b)
    ensures a == b
  {}

  /** Every error burst is detected: messages of equal length that differ only inside a window of at most
      32 consecutive bits, wherever it starts, never have the same checksum. */
  lemma BurstDetected(a: seq<bv8>, b: seq<bv8>, first: nat, width: nat)
    requires |a| == |b| && a != b && width <= 32
    requires forall k :: 0 <= k < 8 * |a| && !(first <= k < first + width) ==> MessageBits(a)[k] == MessageBits(b)[k]
    ensures Checksum(a) != Checksum(b)
  {
    hide Feed, FeedBits, Complement;
    if Checksum(a) == Checksum(b) {
      var init: bv32 := 0xFFFF_FFFF;
      var u, v := MessageBits(a), MessageBits(b);
      ComplementInjective(Feed(init, a), Feed(init, b));
      FeedMessageBits(init, a);
      FeedMessageBits(init, b);
      SameWindow(init, u, v, if first <= |u| then first else |u|, if first + width <= |u| then first + width else |u|);
      MessageBitsInjective(a, b);
    }
  }

  lemma SameWindow(r: bv32, u: seq<bool>, v: seq<bool>, lo: nat, hi: nat)
    requires lo <= hi <= |u| == |v| && hi - lo <= 32
    requires u[..lo] == v[..lo] && u[hi..] == v[hi..]
    requires FeedBits(r, u) == FeedBits(r, v)
    ensures u == v
  {
    hide FeedBits;
    var q := FeedBits(r, u[..lo]);
    assert u == u[..lo] + u[lo..hi] + u[hi..];
    assert v == v[..lo] + v[lo..hi] + v[hi..];
    FeedBitsSplit(r, u[..lo] + u[lo..hi], u[hi..]);
    FeedBitsSplit(r, v[..lo] + v[lo..hi], v[hi..]);
    FeedBitsSplit(r, u[..lo], u[lo..hi]);
    FeedBitsSplit(r, v[..lo], v[lo..hi]);
    FeedBitsInjective(FeedBits(q, u[lo..hi]), FeedBits(q, v[lo..hi]), u[hi..]);
    WindowInjective(q, u[lo..hi], v[lo..hi]);
  }

  /** The form for bytes: a difference within four consecutive bytes is always detected. */
  lemma FourBytesDetected(a: seq<bv8>, b: seq<bv8>, first: nat)
    requires |a| == |b| && a != b
    requires forall i :: 0 <= i < |a| && !(first <= i < first + 4) ==> a[i] == b[i]
    ensures Checksum(a) != Checksum(b)
  {
    forall k | 0 <= k < 8 * |a| && !(8 * first <= k < 8 * first + 32) ensures MessageBits(a)[k] == MessageBits(b)[k] {
      MessageBitAt(a, k);
      MessageBitAt(b, k);
    }
    BurstDetected(a, b, 8 * first, 32);
  }

  lemma {:induction false} MessageBitAt(data: seq<bv8>, k: nat)
    requires k < 8 * |data|
    ensures MessageBits(data)[k] == BitOf(Widen(data[k / 8]), k % 8)
    decreases |data|
  {
    hide BitOf, Widen;
    if k >= 8 { MessageBitAt(data[1..], k - 8); }
  }

  // ---- a message followed by its checksum ------------------------------------------------------------

  /** A checksum as it is written to the file, lowest byte first. */
  function LittleEndian(w: bv32): (bytes: seq<bv8>)
    ensures |bytes| == 4
  {
    [LowByte(w), LowByte(High(w)), LowByte(High(High(w))), LowByte(High(High(High(w))))]
  }

  function LowByte(w: bv32): bv8 {
    (w & 0xFF) as bv8
  }

  lemma LowByteBits(w: bv32, k: nat)
    requires k < 8
    ensures BitOf(Widen(LowByte(w)), k) == BitOf(w, k)
  {
    hide BitOf;
    ByteBits(w);
    ByteBits(Widen(LowByte(w)));
    LowByteMasks(w);
  }

  lemma LowByteMasks(w: bv32)
    ensures var b := Widen(LowByte(w));
            && b & 1 == w & 1 && b & 2 == w & 2 && b & 4 == w & 4 && b & 8 == w & 8
            && b & 16 == w & 16 && b & 32 == w & 32 && b & 64 == w & 64 && b & 128 == w & 128
  {}

  lemma AboveBytes(w: bv32)
    ensures Above(w, 8) == High(w) && Above(w, 16) == High(High(w)) && Above(w, 24) == High(High(High(w)))
  {
    hide Above, High;
    AboveByte(w);
    AboveByte(High(w));
    AboveByte(High(High(w)));
    AboveSum(w, 8, 8);
    AboveSum(w, 16, 8);
  }

  lemma AboveByte(w: bv32)
    ensures Above(w, 8) == High(w)
  {
    hide Above;
    Above8(w);
  }

  lemma LittleEndianBit(w: bv32, i: nat, j: nat)
    requires i < 4 && j < 8
    ensures BitOf(Widen(LittleEndian(w)[i]), j) == BitOf(w, 8 * i + j)
  {
    hide BitOf, LowByte, Above, High, Widen;
    AboveBytes(w);
    BitAbove(w, 8 * i, j);
    LowByteBits(w, j);
    LowByteBits(High(w), j);
    LowByteBits(High(High(w)), j);
    LowByteBits(High(High(High(w))), j);
    assert i == 0 || i == 1 || i == 2 || i == 3;
  }

  lemma LittleEndianBits(w: bv32)
    ensures MessageBits(LittleEndian(w)) == WordBits(w, 32)
  {
    hide BitOf, LittleEndian, MessageBits, Widen;
    forall k | 0 <= k < 32 ensures MessageBits(LittleEndian(w))[k] == BitOf(w, k) {
      MessageBitAt(LittleEndian(w), k);
      LittleEndianBit(w, k / 8, k % 8);
    }
  }

  lemma {:induction false} StepsSum(r: bv32, m: nat, n: nat)
    ensures Steps(r, m + n) == Steps(Steps(r, m), n)
    decreases m
  {
    hide Step;
    if m > 0 { StepsSum(Step(r), m - 1, n); }
  }

  const RESIDUE: bv32 := 0xDEBB_20E3

  lemma ResidueValue()
    ensures Steps(0xFFFF_FFFF, 32) == RESIDUE
  {
    EightSteps();
    StepsSum(0xFFFF_FFFF, 8, 24);
    StepsSum(0x2DFD_1072, 8, 16);
    StepsSum(0xBE26_ED00, 8, 8);
  }

  lemma EightSteps()
    ensures Steps(0xFFFF_FFFF, 8) == 0x2DFD_1072
    ensures Steps(0x2DFD_1072, 8) == 0xBE26_ED00
    ensures Steps(0xBE26_ED00, 8) == 0x00BE_26ED
    ensures Steps(0x00BE_26ED, 8) == RESIDUE
  {}

  lemma FeedLittleEndian(r: bv32, w: bv32)
    ensures Feed(r, LittleEndian(w)) == Steps(Xor(r, w), 32)
  {
    hide Feed, FeedBits, Steps, Xor, LittleEndian, WordBits;
    FeedMessageBits(r, LittleEndian(w));
    LittleEndianBits(w);
    FeedWord(r, w, 32);
    Above32(w);
    XorSelf(FeedBits(r, WordBits(w, 32)));
  }

  /** A message with four more bytes leaves the residue in the register exactly when those bytes are the
      message's checksum, lowest byte first. */
  lemma ResidueIffChecksum(data: seq<bv8>, tail: seq<bv8>)
    requires |tail| == 4
    ensures Feed(0xFFFF_FFFF, data + tail) == RESIDUE <==> tail == LittleEndian(Checksum(data))
  {
    hide Feed, FeedBits, Steps, Xor, Checksum, LowByte;
    var init: bv32 := 0xFFFF_FFFF;
    var r, own := Feed(init, data), LittleEndian(Checksum(data));
    FeedSplit(init, data, tail);
    FeedSplit(init, data, own);
    ChecksumIsXor(data);
    FeedLittleEndian(r, Checksum(data));
    XorAssoc(r, r, init);
    XorSelf(r);
    XorSelf(init);
    ResidueValue();
    assert Feed(r, own) == RESIDUE;
    if Feed(r, tail) == RESIDUE {
      FeedMessageBits(r, tail);
      FeedMessageBits(r, own);
      WindowInjective(r, MessageBits(tail), MessageBits(own));
      MessageBitsInjective(tail, own);
    }
  }
}
