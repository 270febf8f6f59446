/** CAN bit timing: bitrates become prescaler settings when a configuration is compiled, and prescaler settings
    become bitrates when it is listed. `unsigned long` has 64 bits. */
module BitTiming {
  import opened Bits

  const CAN_SYS_FREQ: nat := 16_000_000
  const PSC_FACTOR: nat := 2
  const TSEG1_MIN := 2
  const TSEG1_MAX := 16
  const TSEG2_MIN := 2
  const TSEG2_MAX := 8
  const SJW_MIN := 1
  const SJW_MAX := 4
  const PSC_MIN := 1
  const PSC_MAX := 255

  datatype Error =
    | BitrateRange
    | Tseg1Range
    | Tseg2Range
    | SjwRange
    | PrescalerRange(psc: nat)

  datatype Result<T> = Ok(value: T) | Err(error: Error)

  /** The numbers of a bus parameter element. */
  datatype BusElement = BusElement(bitrate: uint32, tseg1: uint8, tseg2: uint8, sjw: uint8, silent: uint8)

  datatype Timing = Timing(bitrate: uint32, tseg1: uint8, tseg2: uint8)

  /** The fields of ConfigFileBusParams that hold the timing. */
  datatype Registers = Registers(psc: uint8, prSeg: uint8, phSeg1: uint8, phSeg2: uint8)

  // ---- specification -------------------------------------------------------------------

  /** Both the prescaler for bitrate x and the bitrate for prescaler x, with q time quanta a bit. */
  function Divided(x: nat, q: nat): nat
    requires x > 0 && q > 0
  {
    CAN_SYS_FREQ / (PSC_FACTOR * x * q)
  }

  function Checked(e: BusElement): Result<()> {
    if e.bitrate == 0 then Err(BitrateRange)
    else if !(TSEG1_MIN <= e.tseg1 <= TSEG1_MAX) then Err(Tseg1Range)
    else if !(TSEG2_MIN <= e.tseg2 <= TSEG2_MAX) then Err(Tseg2Range)
    else if !(SJW_MIN <= e.sjw <= SJW_MAX) then Err(SjwRange)
    else Ok(())
  }

  function Encoded(e: BusElement): Result<Registers> {
    if Checked(e).Err? then Err(Checked(e).error)
    else
      var psc := Divided(e.bitrate, 1 + e.tseg1 + e.tseg2);
      if !(PSC_MIN <= psc <= PSC_MAX) then Err(PrescalerRange(psc))
      else Ok(Registers(psc, 1, e.tseg1 - 1, e.tseg2))
  }

  /** The first time segment, in a byte. */
  function Segment1(r: Registers): uint8 {
    (r.prSeg + r.phSeg1) % 0x100
  }

  function Decoded(r: Registers): Result<Timing> {
    if !(TSEG1_MIN <= Segment1(r) <= TSEG1_MAX) then Err(Tseg1Range)
    else if !(TSEG2_MIN <= r.phSeg2 <= TSEG2_MAX) then Err(Tseg2Range)
    else if r.psc == 0 then Err(BitrateRange)
    else
      var q := 1 + Segment1(r) + r.phSeg2;
      DividedSmall(r.psc, q);
      if Divided(r.psc, q) == 0 then Err(BitrateRange)
      else Ok(Timing(Divided(r.psc, q), Segment1(r), r.phSeg2))
  }

  // ---- the operations ------------------------------------------------------------------

  class ConfigFileBusParams {
    var used: uint8
    var psc: uint8
    var prSeg: uint8
    var phSeg1: uint8
    var phSeg2: uint8
    var sjw: uint8
    var samples: uint8
    var silent: uint8

    function Timed(): Registers
      reads this
    {
      Registers(psc, prSeg, phSeg1, phSeg2)
    }
  }

  method GetBusPar(e: BusElement) returns (r: Result<()>)
    ensures r == Checked(e)
  {
    if e.bitrate == 0 { return Err(BitrateRange); }
    if e.tseg1 < TSEG1_MIN || e.tseg1 > TSEG1_MAX { return Err(Tseg1Range); }
    if e.tseg2 < TSEG2_MIN || e.tseg2 > TSEG2_MAX { return Err(Tseg2Range); }
    if e.sjw < SJW_MIN || e.sjw > SJW_MAX { return Err(SjwRange); }
    return Ok(());
  }

  method BitrateToBusParams(e: BusElement, bus: ConfigFileBusParams?) returns (r: Result<uint32>)
    modifies bus
    ensures r == (if Encoded(e).Ok? then Ok(e.bitrate) else Err(Encoded(e).error))
    ensures bus != null ==>
              if r.Ok? then
                && Ok(bus.Timed()) == Encoded(e) && bus.sjw == e.sjw && bus.silent == e.silent
                && bus.used == 1 && bus.samples == 1
              else unchanged(bus)
  {
    var checked := GetBusPar(e);
    if checked.Err? { return Err(checked.error); }
    var psc := CAN_SYS_FREQ / (PSC_FACTOR * e.bitrate * (1 + e.tseg1 + e.tseg2));
    assert psc == Divided(e.bitrate, 1 + e.tseg1 + e.tseg2);
    if psc < PSC_MIN || psc > PSC_MAX { return Err(PrescalerRange(psc)); }
    if bus != null {
      bus.used := 1;
      bus.psc := psc;
      bus.prSeg := 1;
      bus.phSeg1 := e.tseg1 - 1;
      bus.phSeg2 := e.tseg2;
      bus.sjw := e.sjw;
      bus.samples := 1;
      bus.silent := e.silent;
    }
    return Ok(e.bitrate);
  }

  method BusParamsToBitrate(bus: ConfigFileBusParams) returns (r: Result<Timing>)
    ensures r == Decoded(bus.Timed())
  {
    var tseg1: uint8 := (bus.prSeg + bus.phSeg1) % 0x100;
    if tseg1 < TSEG1_MIN || tseg1 > TSEG1_MAX { return Err(Tseg1Range); }
    var tseg2 := bus.phSeg2;
    if tseg2 < TSEG2_MIN || tseg2 > TSEG2_MAX { return Err(Tseg2Range); }
    var tmp: int := PSC_FACTOR * bus.psc * (1 + tseg1 + tseg2);
    var bitrate := 0;
    if tmp != 0 { bitrate := CAN_SYS_FREQ / tmp; }
    if bitrate == 0 { return Err(BitrateRange); }
    DividedSmall(bus.psc, 1 + tseg1 + tseg2);
    return Ok(Timing(bitrate, tseg1, tseg2));
  }

  // ---- division ------------------------------------------------------------------------

  lemma QuotientIs(n: nat, d: nat, k: nat)
    requires d > 0
    ensures k <= n / d <==> k * d <= n
  {
    var f := n / d;
    assert f * d <= n < f * d + d;
    if k <= f {
      assert k * d <= f * d;
    } else {
      assert (f + 1) * d <= k * d;
    }
  }

  lemma DividedIs(x: nat, q: nat, k: nat)
    requires x > 0 && q > 0
    ensures k <= Divided(x, q) <==> k * x * (PSC_FACTOR * q) <= CAN_SYS_FREQ
  {
    QuotientIs(CAN_SYS_FREQ, PSC_FACTOR * x * q, k);
    assert k * (PSC_FACTOR * x * q) == k * x * (PSC_FACTOR * q);
  }

  lemma QuotientSmall(n: nat, d: nat)
    requires d > 0
    ensures n / d <= n
  {
    var f := n / d;
    QuotientIs(n, d, f);
    Grows(f, d);
  }

  lemma Grows(x: nat, d: nat)
    requires d > 0
    ensures x <= x * d
  {
    assert x * d == x + x * (d - 1);
  }

  lemma DividedSmall(x: nat, q: nat)
    requires x > 0 && q > 0
    ensures Divided(x, q) <= CAN_SYS_FREQ
  {
    QuotientSmall(CAN_SYS_FREQ, PSC_FACTOR * x * q);
  }

  lemma FactorKeepsOrder(x: nat, y: nat, m: nat)
    ensures x >= y ==> x * m >= y * m
  {
    if x >= y { assert x * m == y * m + (x - y) * m; }
  }

  /** Prescalers and bitrates form a Galois connection: p does for a bitrate of b or more exactly when b is
      no more than the bitrate p gives. */
  lemma Galois(b: nat, p: nat, q: nat)
    requires b > 0 && p > 0 && q > 0
    ensures p <= Divided(b, q) <==> b <= Divided(p, q)
  {
    DividedIs(b, q, p);
    DividedIs(p, q, b);
    assert p * b == b * p;
  }

  lemma GreaterGivesLess(b: nat, c: nat, q: nat)
    requires 0 < b <= c && q > 0
    ensures Divided(c, q) <= Divided(b, q)
  {
    hide Divided;
    var k := Divided(c, q);
    if k > 0 {
      Galois(c, k, q);
      Galois(b, k, q);
    }
  }

  /** Rounding up and again: a closure. */
  lemma Rounded(b: nat, q: nat)
    requires b > 0 && q > 0 && Divided(b, q) > 0
    ensures var p := Divided(b, q);
            var c := Divided(p, q);
            b <= c && c * p < b * (p + 1) && Divided(c, q) == p
  {
    hide Divided;
    var p := Divided(b, q);
    var c := Divided(p, q);
    Galois(b, p, q);
    Galois(c, p, q);
    GreaterGivesLess(b, c, q);
    DividedIs(b, q, p + 1);
    DividedIs(p, q, c);
    FactorKeepsOrder(c * p, (p + 1) * b, PSC_FACTOR * q);
  }

  // ---- theorems ------------------------------------------------------------------------

  /** Which elements compile, and into what: the prescaler is the quotient of 16 MHz, rounded down. */
  lemma EncodedExactly(e: BusElement)
    ensures var d := 2 * e.bitrate * (1 + e.tseg1 + e.tseg2);
            Encoded(e).Ok? <==>
            && 2 <= e.tseg1 <= 16 && 2 <= e.tseg2 <= 8 && 1 <= e.sjw <= 4
            && 0 < d <= 16_000_000 < 256 * d
    ensures Encoded(e).Ok? ==>
              var r, d := Encoded(e).value, 2 * e.bitrate * (1 + e.tseg1 + e.tseg2);
              && r.psc * d <= 16_000_000 < (r.psc + 1) * d
              && r.prSeg == 1 && r.phSeg1 == e.tseg1 - 1 && r.phSeg2 == e.tseg2
  {
    var q := 1 + e.tseg1 + e.tseg2;
    var d := 2 * e.bitrate * q;
    if e.bitrate > 0 {
      var p := Divided(e.bitrate, q);
      QuotientIs(16_000_000, d, 1);
      QuotientIs(16_000_000, d, 256);
      QuotientIs(16_000_000, d, p);
      QuotientIs(16_000_000, d, p + 1);
      hide Divided;
    }
  }

  /** Which error is reported: the first limit violated, in this order. */
  lemma ErrorIsFirst(e: BusElement)
    ensures Encoded(e) == Err(BitrateRange) <==> e.bitrate == 0
    ensures Encoded(e) == Err(Tseg1Range) <==> e.bitrate > 0 && !(2 <= e.tseg1 <= 16)
    ensures Encoded(e) == Err(Tseg2Range) <==> e.bitrate > 0 && 2 <= e.tseg1 <= 16 && !(2 <= e.tseg2 <= 8)
    ensures Encoded(e) == Err(SjwRange) <==>
            e.bitrate > 0 && 2 <= e.tseg1 <= 16 && 2 <= e.tseg2 <= 8 && !(1 <= e.sjw <= 4)
  {
    hide Divided;
  }

  /** Which registers can be listed, and as what. */
  lemma DecodedExactly(r: Registers)
    ensures var t := (r.prSeg + r.phSeg1) % 256;
            Decoded(r).Ok? <==> 2 <= t <= 16 && 2 <= r.phSeg2 <= 8 && r.psc > 0
    ensures Decoded(r).Ok? ==>
              var t, d := Decoded(r).value, 2 * r.psc * (1 + (r.prSeg + r.phSeg1) % 256 + r.phSeg2);
              && t.tseg1 == (r.prSeg + r.phSeg1) % 256 && t.tseg2 == r.phSeg2
              && t.bitrate * d <= 16_000_000 < (t.bitrate + 1) * d
    ensures Decoded(r) == Err(Tseg1Range) <==> !(2 <= (r.prSeg + r.phSeg1) % 256 <= 16)
    ensures Decoded(r) == Err(Tseg2Range) <==> 2 <= (r.prSeg + r.phSeg1) % 256 <= 16 && !(2 <= r.phSeg2 <= 8)
  {
    var q := 1 + Segment1(r) + r.phSeg2;
    if 2 <= Segment1(r) <= 16 && 2 <= r.phSeg2 <= 8 && r.psc > 0 {
      PrescalerComesBack(r.psc, q);
      var b := Divided(r.psc, q);
      QuotientIs(16_000_000, 2 * r.psc * q, b);
      QuotientIs(16_000_000, 2 * r.psc * q, b + 1);
      hide Divided;
    }
  }

  /** A bitrate is accepted exactly in a range that depends on the number of time quanta only. */
  lemma AcceptedBitrates(e: BusElement)
    requires Checked(e).Ok?
    ensures var d := e.bitrate * (PSC_FACTOR * (1 + e.tseg1 + e.tseg2));
            Encoded(e).Ok? <==> d <= CAN_SYS_FREQ < (PSC_MAX + 1) * d
  {
    var q := 1 + e.tseg1 + e.tseg2;
    DividedIs(e.bitrate, q, 1);
    DividedIs(e.bitrate, q, PSC_MAX + 1);
    assert (PSC_MAX + 1) * e.bitrate * (PSC_FACTOR * q) == (PSC_MAX + 1) * (e.bitrate * (PSC_FACTOR * q));
  }

  /** Compiling and listing: always possible, keeps both segments, rounds the bitrate up by less than one
      prescaler step, and is stable from then on. */
  lemma BitrateRoundTrip(e: BusElement)
    requires Encoded(e).Ok?
    ensures var r := Encoded(e).value;
            && Decoded(r).Ok?
            && var t := Decoded(r).value;
            && t.tseg1 == e.tseg1 && t.tseg2 == e.tseg2
            && e.bitrate <= t.bitrate && t.bitrate * r.psc < e.bitrate * (r.psc + 1)
            && Encoded(e.(bitrate := t.bitrate)) == Ok(r)
  {
    hide Divided;
    Rounded(e.bitrate, 1 + e.tseg1 + e.tseg2);
  }

  /** The bitrate listed is the least one at or above the bitrate asked for that any prescaler gives. */
  lemma RoundsUp(e: BusElement, r: Registers, t: Timing, p: nat)
    requires Encoded(e) == Ok(r) && Decoded(r) == Ok(t) && p > 0
    ensures var q := 1 + e.tseg1 + e.tseg2;
            Divided(p, q) >= e.bitrate ==> Divided(p, q) >= t.bitrate
  {
    hide Divided;
    var q := 1 + e.tseg1 + e.tseg2;
    Galois(e.bitrate, p, q);
    if p <= r.psc { GreaterGivesLess(p, r.psc, q); }
  }

  /** Listing and compiling: every prescaler that can be listed comes back, and the two parts of the first
      segment come back as 1 and the rest. */
  lemma RegisterRoundTrip(r: Registers, sjw: uint8, silent: uint8)
    requires Decoded(r).Ok? && SJW_MIN <= sjw <= SJW_MAX
    ensures var t := Decoded(r).value;
            Encoded(BusElement(t.bitrate, t.tseg1, t.tseg2, sjw, silent)) ==
            Ok(Registers(r.psc, 1, Segment1(r) - 1, r.phSeg2))
  {
    hide Divided;
    PrescalerComesBack(r.psc, 1 + Segment1(r) + r.phSeg2);
  }

  lemma PrescalerComesBack(p: nat, q: nat)
    requires 0 < p <= PSC_MAX && 5 <= q <= 25
    ensures Divided(p, q) > 0 && Divided(Divided(p, q), q) == p
  {
    hide Divided;
    var c, m := Divided(p, q), PSC_FACTOR * q;
    SmallProduct(p, m);
    DividedIs(p, q, p + 1);
    Galois(c, p, q);
    DividedIs(p, q, c + 1);
    DividedIs(c, q, p + 1);
    OneMoreStep(p, c, m);
  }

  lemma SmallProduct(p: nat, m: nat)
    requires p <= PSC_MAX && m <= 50
    ensures (p + 1) * p * m <= CAN_SYS_FREQ
  {
    FactorKeepsOrder(256, p + 1, p);
    FactorKeepsOrder(256 * 255, (p + 1) * p, m);
  }

  lemma OneMoreStep(p: nat, c: nat, m: nat)
    requires p < c
    ensures (p + 1) * c * m >= (c + 1) * p * m
  {
    assert (p + 1) * c == (c + 1) * p + (c - p);
    assert (p + 1) * c * m == (c + 1) * p * m + (c - p) * m;
  }
}
