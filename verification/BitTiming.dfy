/** Bit timing of the CAN controller (components/mcp2515/mcp2515_timing.c). */
module BitTiming {
  import opened Arithmetic
  import opened Bytes

  const MIN_NTQ: nat := 8
  const MAX_NTQ: nat := 25
  const MAX_BRP: nat := 63
  const PREFERRED: nat := 16

  /** `ntq` quanta, each of 2 * (brp + 1) oscillator cycles, make exactly one bit. */
  predicate Realises(oscillator: nat, bitrate: nat, ntq: nat, brp: nat)
  {
    8 <= ntq <= 25 && brp <= 63 && oscillator == 2 * bitrate * (ntq * (brp + 1))
  }

  function Distance(ntq: nat): nat
  {
    if ntq > 16 then ntq - 16 else 16 - ntq
  }

  /** Nearer to sixteen quanta, or as near and shorter. */
  predicate Better(a: nat, b: nat)
  {
    Distance(a) < Distance(b) || (Distance(a) == Distance(b) && a <= b)
  }

  /** What the search tests, in place of the product it is looking for. */
  predicate Tested(target: nat, ntq: nat, brp: nat)
    requires ntq > 0
  {
    target % ntq == 0 && target / ntq == brp + 1 && brp <= MAX_BRP
  }

  lemma TestedIff(oscillator: nat, bitrate: nat, ntq: nat, brp: nat)
    requires bitrate > 0 && MIN_NTQ <= ntq <= MAX_NTQ
    ensures Realises(oscillator, bitrate, ntq, brp) <==>
              oscillator % (2 * bitrate) == 0 && Tested(oscillator / (2 * bitrate), ntq, brp)
  {
    var d := 2 * bitrate;
    var target := oscillator / d;
    DivParts(oscillator, d);
    DivParts(target, ntq);
    if Realises(oscillator, bitrate, ntq, brp) {
      DivUnique(oscillator, d, ntq * (brp + 1), 0);
      DivUnique(target, ntq, brp + 1, 0);
    }
  }

  method FindNtqAndBrp(oscillator: nat, bitrate: nat) returns (found: Option<(nat, nat)>)
    requires oscillator < WORD_LIMIT && bitrate < WORD_LIMIT
    ensures bitrate > 0 ==> (found.Some? <==> exists ntq, brp :: Realises(oscillator, bitrate, ntq, brp))
    ensures found.Some? ==>
              Realises(oscillator, bitrate, found.value.0, found.value.1) &&
              forall ntq, brp :: Realises(oscillator, bitrate, ntq, brp) ==> Better(found.value.0, ntq)
  {
    hide Realises, Better, Tested, Distance;
    var denominator := 2 * bitrate;
    if denominator == 0 {
      return None;
    }
    if oscillator % denominator != 0 {
      forall ntq, brp ensures !Realises(oscillator, bitrate, ntq, brp) {
        if Realises(oscillator, bitrate, ntq, brp) {
          InRange(oscillator, bitrate, ntq, brp);
          TestedIff(oscillator, bitrate, ntq, brp);
        }
      }
      return None;
    }
    var target := oscillator / denominator;
    found := SearchNtq(target);
    forall ntq, brp | Realises(oscillator, bitrate, ntq, brp)
      ensures found.Some? && Better(found.value.0, ntq)
    {
      InRange(oscillator, bitrate, ntq, brp);
      TestedIff(oscillator, bitrate, ntq, brp);
    }
    if found.Some? {
      TestedIff(oscillator, bitrate, found.value.0, found.value.1);
    }
  }

  lemma InRange(oscillator: nat, bitrate: nat, ntq: nat, brp: nat)
    requires Realises(oscillator, bitrate, ntq, brp)
    ensures 8 <= ntq <= 25 && brp <= 63
  {
  }

  method SearchNtq(target: nat) returns (found: Option<(nat, nat)>)
    ensures found.Some? ==> MIN_NTQ <= found.value.0 <= MAX_NTQ && Tested(target, found.value.0, found.value.1)
    ensures forall ntq, brp :: MIN_NTQ <= ntq <= MAX_NTQ && Tested(target, ntq, brp) ==>
              found.Some? && Better(found.value.0, ntq)
  {
    found := None;
    for ntq := MIN_NTQ to MAX_NTQ + 1
      invariant found.Some? ==> MIN_NTQ <= found.value.0 < ntq && Tested(target, found.value.0, found.value.1)
      invariant forall n, brp :: MIN_NTQ <= n < ntq && Tested(target, n, brp) ==> found.Some? && Better(found.value.0, n)
    {
      if target % ntq == 0 {
        var brpPlusOne := target / ntq;
        if brpPlusOne != 0 && brpPlusOne <= MAX_BRP + 1 {
          var distance := if ntq > PREFERRED then ntq - PREFERRED else PREFERRED - ntq;
          if found == None || distance < Distance(found.value.0) {
            found := Some((ntq, brpPlusOne - 1));
          }
        }
      }
    }
  }

  /** Every segment within what the controller takes, and all of them with the sync quantum the whole bit. */
  predicate Legal(ntq: int, prseg: int, phseg1: int, phseg2: int)
  {
    1 <= prseg <= 8 && 1 <= phseg1 <= 8 && 2 <= phseg2 <= 8 && 1 + prseg + phseg1 + phseg2 == ntq
  }

  /** A length for the second phase segment that leaves the other two one they can share. */
  predicate Allowed(ntq: int, phseg2: int)
  {
    2 <= phseg2 <= 8 && 2 <= ntq - 1 - phseg2 <= 16
  }

  /**
   * The bit is sampled as near after three quarters of what follows the sync quantum as a length allowed
   * for the second phase segment has it, or else as little before; what is left is shared evenly.
   */
  ghost predicate SampledAtThreeQuarters(prseg: int, phseg1: int, phseg2: int)
  {
    var ntq := 1 + prseg + phseg1 + phseg2;
    && Allowed(ntq, phseg2) && prseg <= phseg1 <= prseg + 1
    && (4 * phseg2 <= ntq - 1 ==> forall x :: Allowed(ntq, x) && x > phseg2 ==> 4 * x > ntq - 1)
    && (4 * phseg2 > ntq - 1 ==> forall x :: Allowed(ntq, x) ==> x >= phseg2)
  }

  method SplitSegments(ntq: nat) returns (prseg: int, phseg1: int, phseg2: int)
    requires MIN_NTQ <= ntq <= MAX_NTQ
    ensures Legal(ntq, prseg, phseg1, phseg2) && SampledAtThreeQuarters(prseg, phseg1, phseg2)
  {
    var remaining: int := ntq - 1;
    phseg2 := remaining / 4;
    if phseg2 < 2 {
      phseg2 := 2;
    }
    if phseg2 > 8 {
      phseg2 := 8;
    }
    var sum: int := remaining - phseg2;
    if sum > 16 {
      sum := 16;
      phseg2 := remaining - sum;
    }
    prseg := sum / 2;
    if prseg < 1 {
      prseg := 1;
    }
    phseg1 := sum - prseg;
    if phseg1 < 1 {
      phseg1 := 1;
      prseg := sum - phseg1;
    }
  }

  datatype Registers = Registers(cnf1: byte, cnf2: byte, cnf3: byte)

  /** What the controller makes of the registers (section 5.7 of the MCP2515 datasheet). */
  datatype Decoded = Decoded(sjw: nat, brp: nat, byCnf3: bool, prseg: nat, phseg1: nat, phseg2: nat)

  function Decode(r: Registers): Decoded
  {
    Decoded(r.cnf1 / 64 + 1, r.cnf1 % 64, r.cnf2 / 128 == 1, r.cnf2 % 8 + 1, r.cnf2 / 8 % 8 + 1, r.cnf3 % 8 + 1)
  }

  function Encode(brp: nat, prseg: nat, phseg1: nat, phseg2: nat): Registers
    requires brp <= MAX_BRP && 1 <= prseg <= 8 && 1 <= phseg1 <= 8 && 1 <= phseg2 <= 8
  {
    Registers(brp, 0x80 + (phseg1 - 1) * 8 + (prseg - 1), phseg2 - 1)
  }

  lemma EncodedDecodes(brp: nat, prseg: nat, phseg1: nat, phseg2: nat)
    requires brp <= MAX_BRP && 1 <= prseg <= 8 && 1 <= phseg1 <= 8 && 1 <= phseg2 <= 8
    ensures Decode(Encode(brp, prseg, phseg1, phseg2)) == Decoded(1, brp, true, prseg, phseg1, phseg2)
  {
  }

  /** The quanta in a bit as the registers have it. */
  function Quanta(d: Decoded): nat
  {
    1 + d.prseg + d.phseg1 + d.phseg2
  }

  /**
   * Registers are found exactly when some number of quanta and some prescaler give the bit rate
   * exactly, and what they decode to gives it, with the count of quanta nearest sixteen.
   */
  method ComputeBitTiming(oscillator: nat, bitrate: nat) returns (timing: Option<Registers>)
    requires oscillator < WORD_LIMIT && bitrate < WORD_LIMIT
    ensures timing.Some? <==>
              oscillator > 0 && bitrate > 0 && exists ntq, brp :: Realises(oscillator, bitrate, ntq, brp)
    ensures timing.Some? ==>
              var d := Decode(timing.value);
              && Legal(Quanta(d), d.prseg, d.phseg1, d.phseg2) && d.byCnf3 && d.sjw == 1
              && SampledAtThreeQuarters(d.prseg, d.phseg1, d.phseg2)
              && Realises(oscillator, bitrate, Quanta(d), d.brp)
              && forall ntq, brp :: Realises(oscillator, bitrate, ntq, brp) ==> Better(Quanta(d), ntq)
  {
    hide Better, Decode, Encode, Realises, SampledAtThreeQuarters;
    if oscillator == 0 || bitrate == 0 {
      return None;
    }
    var found := FindNtqAndBrp(oscillator, bitrate);
    if found == None {
      return None;
    }
    InRange(oscillator, bitrate, found.value.0, found.value.1);
    var prseg, phseg1, phseg2 := SplitSegments(found.value.0);
    EncodedDecodes(found.value.1, prseg, phseg1, phseg2);
    return Some(Encode(found.value.1, prseg, phseg1, phseg2));
  }
}
