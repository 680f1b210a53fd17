/**
 * CRC-32 as components/crc/crc.c computes it (the reflected algorithm of clause
 * 3.2.9 of IEEE 802.3), with the detection bound the storage formats rely on.
 */
module Crc {
  import opened Arithmetic
  import opened Bytes

  const ONES: nat := 0xFFFF_FFFF
  const POLYNOMIAL: nat := 0xEDB8_8320

  /** One bit of the shift register. */
  function Step(s: nat): nat
  {
    StepBy(s, POLYNOMIAL)
  }

  function StepBy(s: nat, polynomial: nat): nat
  {
    if s % 2 == 1 then Xor(s / 2, polynomial) else s / 2
  }

  function Steps(s: nat, n: nat): nat
  {
    if n == 0 then s else Step(Steps(s, n - 1))
  }

  function Update(s: nat, data: seq<byte>): nat
  {
    if |data| == 0 then s
    else Steps(Xor(Update(s, data[..|data| - 1]), data[|data| - 1]), 8)
  }

  function Crc32(data: seq<byte>): nat
  {
    Xor(Update(ONES, data), ONES)
  }

  method Crc32Update(state: nat, data: seq<byte>) returns (r: nat)
    ensures r == Update(state, data)
  {
    r := state;
    for i := 0 to |data|
      invariant r == Update(state, data[..i])
    {
      assert data[..i + 1][..i] == data[..i];
      r := Xor(r, data[i]);
      ghost var fed := r;
      for bit := 0 to 8
        invariant r == Steps(fed, bit)
      {
        r := if r % 2 == 1 then Xor(r / 2, POLYNOMIAL) else r / 2;
      }
    }
    assert data[..|data|] == data;
  }

  method ComputeCrc32(data: seq<byte>) returns (r: nat)
    ensures r == Crc32(data)
  {
    r := Crc32Update(ONES, data);
    r := Xor(r, ONES);
  }

  // ---- chunking --------------------------------------------------------------

  function UpdateAll(s: nat, pieces: seq<seq<byte>>): nat
    decreases |pieces|
  {
    if |pieces| == 0 then s else UpdateAll(Update(s, pieces[0]), pieces[1..])
  }

  function Flatten(pieces: seq<seq<byte>>): seq<byte>
  {
    if |pieces| == 0 then [] else pieces[0] + Flatten(pieces[1..])
  }

  lemma {:induction false} UpdateConcat(s: nat, a: seq<byte>, b: seq<byte>)
    ensures Update(s, a + b) == Update(Update(s, a), b)
    decreases |b|
  {
    if |b| == 0 {
      assert a + b == a;
    } else {
      UpdateConcat(s, a, b[..|b| - 1]);
      assert (a + b)[..|a + b| - 1] == a + b[..|b| - 1];
    }
  }

  /** However a message is cut, feeding the pieces in turn gives the one-shot checksum. */
  lemma {:induction false} ChunkedEqualsOneShot(s: nat, pieces: seq<seq<byte>>)
    ensures UpdateAll(s, pieces) == Update(s, Flatten(pieces))
    decreases |pieces|
  {
    if |pieces| > 0 {
      ChunkedEqualsOneShot(Update(s, pieces[0]), pieces[1..]);
      UpdateConcat(s, pieces[0], Flatten(pieces[1..]));
    }
  }

  // ---- the register is linear and loses nothing --------------------------------

  lemma PolynomialCancels(a: nat, b: nat)
    ensures Xor(Xor(a, POLYNOMIAL), Xor(b, POLYNOMIAL)) == Xor(a, b)
  {
    XorAssoc(a, POLYNOMIAL, Xor(b, POLYNOMIAL));
    XorComm(b, POLYNOMIAL);
    XorAssoc(POLYNOMIAL, POLYNOMIAL, b);
    XorSelf(POLYNOMIAL);
    XorZero(b);
  }

  lemma StepByLinear(x: nat, y: nat, p: nat)
    requires Xor(Xor(x / 2, p), Xor(y / 2, p)) == Xor(x / 2, y / 2)
    ensures StepBy(Xor(x, y), p) == Xor(StepBy(x, p), StepBy(y, p))
  {
    XorHalf(x, y);
    XorSwap(x / 2, y / 2, p);
    XorAssoc(x / 2, y / 2, p);
    if x % 2 == 1 && y % 2 == 1 {
      assert Xor(x, y) % 2 == 0;
    } else if x % 2 == 1 || y % 2 == 1 {
      assert Xor(x, y) % 2 == 1;
    } else {
      assert Xor(x, y) % 2 == 0;
    }
  }

  lemma StepLinear(x: nat, y: nat)
    ensures Step(Xor(x, y)) == Xor(Step(x), Step(y))
  {
    PolynomialCancels(x / 2, y / 2);
    StepByLinear(x, y, POLYNOMIAL);
  }

  lemma {:induction false} StepsLinear(x: nat, y: nat, n: nat)
    ensures Steps(Xor(x, y), n) == Xor(Steps(x, n), Steps(y, n))
  {
    if n > 0 {
      StepsLinear(x, y, n - 1);
      StepLinear(Steps(x, n - 1), Steps(y, n - 1));
    }
  }

  lemma StepBound(s: nat)
    requires s < WORD_LIMIT
    ensures Step(s) < WORD_LIMIT
  {
    Pow2ThirtyTwo();
    XorBound(s / 2, POLYNOMIAL, 32);
  }

  lemma {:induction false} StepsBound(s: nat, n: nat)
    requires s < WORD_LIMIT
    ensures Steps(s, n) < WORD_LIMIT
  {
    if n > 0 {
      StepsBound(s, n - 1);
      StepBound(Steps(s, n - 1));
    }
  }

  lemma {:induction false} UpdateBound(s: nat, data: seq<byte>)
    requires s < WORD_LIMIT
    ensures Update(s, data) < WORD_LIMIT
    decreases |data|
  {
    if |data| > 0 {
      var p := Update(s, data[..|data| - 1]);
      UpdateBound(s, data[..|data| - 1]);
      Pow2ThirtyTwo();
      XorBound(p, data[|data| - 1], 32);
      StepsBound(Xor(p, data[|data| - 1]), 8);
    }
  }

  lemma Crc32Bound(data: seq<byte>)
    ensures Crc32(data) < WORD_LIMIT
  {
    UpdateBound(ONES, data);
    Pow2ThirtyTwo();
    XorBound(Update(ONES, data), ONES, 32);
  }

  /** The polynomial's top bit is set, so the top bit tells which way a step went. */
  lemma StepInjective(x: nat, y: nat)
    requires x < WORD_LIMIT && y < WORD_LIMIT
    requires Step(x) == Step(y)
    ensures x == y
  {
    Pow2ThirtyTwo();
    XorKeepsTop(x / 2, POLYNOMIAL, 31);
    XorKeepsTop(y / 2, POLYNOMIAL, 31);
    if x % 2 == 1 {
      XorCancel(x / 2, y / 2, POLYNOMIAL);
    }
  }

  lemma {:induction false} StepsInjective(x: nat, y: nat, n: nat)
    requires x < WORD_LIMIT && y < WORD_LIMIT
    requires Steps(x, n) == Steps(y, n)
    ensures x == y
  {
    if n > 0 {
      StepsBound(x, n - 1);
      StepsBound(y, n - 1);
      StepInjective(Steps(x, n - 1), Steps(y, n - 1));
      StepsInjective(x, y, n - 1);
    }
  }

  lemma {:induction false} UpdateInjectiveInState(x: nat, y: nat, data: seq<byte>)
    requires x < WORD_LIMIT && y < WORD_LIMIT
    requires Update(x, data) == Update(y, data)
    ensures x == y
    decreases |data|
  {
    if |data| > 0 {
      var p, b := data[..|data| - 1], data[|data| - 1];
      UpdateBound(x, p);
      UpdateBound(y, p);
      Pow2ThirtyTwo();
      XorBound(Update(x, p), b, 32);
      XorBound(Update(y, p), b, 32);
      StepsInjective(Xor(Update(x, p), b), Xor(Update(y, p), b), 8);
      XorCancel(Update(x, p), Update(y, p), b);
      UpdateInjectiveInState(x, y, p);
    }
  }

  // ---- the checksum as a remainder of the whole message ---------------------------

  lemma {:induction false} StepsAdd(s: nat, m: nat, n: nat)
    ensures Steps(Steps(s, m), n) == Steps(s, m + n)
  {
    if n > 0 {
      StepsAdd(s, m, n - 1);
    }
  }

  /** Bits above those being worked off wait their turn. */
  lemma {:induction false} StepsShift(w: nat, n: nat)
    ensures Steps(Pow2(n) * w, n) == w
    decreases n
  {
    hide Step;
    if n > 0 {
      Doubled(Pow2(n - 1), w);
      StepsShift(2 * w, n - 1);
      EvenStep(w);
    }
  }

  lemma EvenStep(w: nat)
    ensures Step(2 * w) == w
  {
  }

  /**
   * Feeding a message byte by byte is the same as xoring the whole of it, taken as
   * one number, into the register and dividing it out a bit at a time.
   */
  lemma {:induction false} UpdateIsDivision(s: nat, data: seq<byte>)
    ensures Update(s, data) == Steps(Xor(s, BytesNat(data)), 8 * |data|)
    decreases |data|
  {
    hide Xor, Step;
    if |data| == 0 {
      XorZero(s);
    } else {
      var b, rest := data[0], data[1..];
      assert data == [b] + rest;
      UpdateFirst(s, b, rest);
      UpdateIsDivision(Steps(Xor(s, b), 8), rest);
      FirstByteApart(s, b, BytesNat(rest), 8 * |rest|);
    }
  }

  lemma UpdateFirst(s: nat, b: byte, rest: seq<byte>)
    ensures Update(s, [b] + rest) == Update(Steps(Xor(s, b), 8), rest)
  {
    assert [b][..0] == [];
    UpdateConcat(s, [b], rest);
  }

  /** The low byte can be worked off before the number above it is brought in. */
  lemma FirstByteApart(s: nat, b: byte, high: nat, n: nat)
    ensures Steps(Xor(Steps(Xor(s, b), 8), high), n) == Steps(Xor(s, b + 256 * high), 8 + n)
  {
    assert Pow2(8) == 256;
    XorDisjoint(b, high, 8);
    XorAssoc(s, b, 256 * high);
    StepsLinear(Xor(s, b), 256 * high, 8);
    StepsShift(high, 8);
    StepsAdd(Xor(s, b + 256 * high), 8, n);
  }

  /** Four bytes cannot hide behind one another. */
  lemma UpdateInjectiveInWord(s: nat, a: seq<byte>, b: seq<byte>)
    requires s < WORD_LIMIT
    requires |a| == |b| <= 4
    requires Update(s, a) == Update(s, b)
    ensures a == b
  {
    UpdateIsDivision(s, a);
    UpdateIsDivision(s, b);
    var x, y := BytesNat(a), BytesNat(b);
    WordBound(a);
    WordBound(b);
    Pow2ThirtyTwo();
    XorBound(s, x, 32);
    XorBound(s, y, 32);
    StepsInjective(Xor(s, x), Xor(s, y), 8 * |a|);
    XorComm(s, x);
    XorComm(s, y);
    XorCancel(x, y, s);
    BytesNatInjective(a, b);
  }

  lemma WordBound(b: seq<byte>)
    requires |b| <= 4
    ensures BytesNat(b) < WORD_LIMIT
  {
    BytesNatBound(b);
    Pow256Values();
    assert Pow256(3) == 0x100_0000 && Pow256(1) == 256;
  }

  /** Damage confined to four consecutive bytes always changes the register. */
  lemma BurstChangesRegister(s: nat, before: seq<byte>, a: seq<byte>, b: seq<byte>, after: seq<byte>)
    requires s < WORD_LIMIT
    requires |a| == |b| <= 4 && a != b
    ensures Update(s, before + a + after) != Update(s, before + b + after)
  {
    UpdateConcat(s, before + a, after);
    UpdateConcat(s, before + b, after);
    UpdateConcat(s, before, a);
    UpdateConcat(s, before, b);
    var p := Update(s, before);
    UpdateBound(s, before);
    UpdateBound(p, a);
    UpdateBound(p, b);
    if Update(p, a) == Update(p, b) {
      UpdateInjectiveInWord(p, a, b);
    } else if Update(Update(p, a), after) == Update(Update(p, b), after) {
      UpdateInjectiveInState(Update(p, a), Update(p, b), after);
    }
  }

  /** ... and so always changes the checksum. */
  lemma BurstDetected(before: seq<byte>, a: seq<byte>, b: seq<byte>, after: seq<byte>)
    requires |a| == |b| <= 4 && a != b
    ensures Crc32(before + a + after) != Crc32(before + b + after)
  {
    var x, y := Update(ONES, before + a + after), Update(ONES, before + b + after);
    BurstChangesRegister(ONES, before, a, b, after);
    if Xor(x, ONES) == Xor(y, ONES) {
      XorCancel(x, y, ONES);
    }
  }

  // ---- a message that carries its own checksum -------------------------------------

  const RESIDUE: nat := Steps(ONES, 32)

  /**
   * A message followed by four bytes leaves one fixed value in the register exactly
   * when those bytes are its checksum.
   */
  lemma ChecksummedIffResidue(message: seq<byte>, sum: seq<byte>)
    requires |sum| == 4
    ensures BytesNat(sum) == Crc32(message) <==> Update(ONES, message + sum) == RESIDUE
  {
    var p := Update(ONES, message);
    UpdateBound(ONES, message);
    UpdateConcat(ONES, message, sum);
    UpdateIsDivision(p, sum);
    var w := Xor(p, BytesNat(sum));
    Pow2ThirtyTwo();
    WordBound(sum);
    XorBound(p, BytesNat(sum), 32);
    if Steps(w, 32) == RESIDUE {
      StepsInjective(w, ONES, 32);
    }
    // w == ONES exactly when the bytes are p xor ONES
    XorAssoc(p, p, ONES);
    XorSelf(p);
    XorZero(ONES);
    XorAssoc(p, p, BytesNat(sum));
    XorZero(BytesNat(sum));
  }

  /** Damage within four consecutive bytes of message-and-checksum never leaves it valid. */
  lemma ChecksummedBurstRejected(x: seq<byte>, y: seq<byte>, before: seq<byte>, a: seq<byte>, b: seq<byte>, after: seq<byte>)
    requires |a| == |b| <= 4 && a != b
    requires x == before + a + after && y == before + b + after && |x| >= 4
    requires BytesNat(x[|x| - 4..]) == Crc32(x[..|x| - 4])
    ensures BytesNat(y[|y| - 4..]) != Crc32(y[..|y| - 4])
  {
    ChecksummedIffResidue(x[..|x| - 4], x[|x| - 4..]);
    ChecksummedIffResidue(y[..|y| - 4], y[|y| - 4..]);
    assert x == x[..|x| - 4] + x[|x| - 4..];
    assert y == y[..|y| - 4] + y[|y| - 4..];
    BurstChangesRegister(ONES, before, a, b, after);
  }
}
