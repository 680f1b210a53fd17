/**
 * The checksum of components/crc/crc.c against the definition it goes by: clause 3.2.9 of
 * IEEE 802.3, the remainder of the message, as a polynomial over the two-element field, by
 * x^32 + x^26 + x^23 + x^22 + x^16 + x^12 + x^11 + x^10 + x^8 + x^7 + x^5 + x^4 + x^2 + x + 1.
 * A polynomial is the number whose bits are its coefficients.
 */
module CrcDivision {
  import opened Arithmetic
  import opened Bytes
  import opened Crc

  /** The highest term, which no word has room for, and the fourteen below it. */
  function Divisor(): nat
  {
    Pow2(32) + (Pow2(26) + Pow2(23) + Pow2(22) + Pow2(16) + Pow2(12) + Pow2(11) + Pow2(10) + Pow2(8) + Pow2(7) + Pow2(5) + Pow2(4) +
                Pow2(2) + Pow2(1) + Pow2(0))
  }

  /** The low `n` bits of a number the other way about. */
  function Reversed(w: nat, n: nat): nat
  {
    if n == 0 then 0 else (if w % 2 == 1 then Pow2(n - 1) else 0) + Reversed(w / 2, n - 1)
  }

  /** The product of two polynomials. */
  function Product(a: nat, b: nat): nat
  {
    if a == 0 then 0 else Xor(2 * Product(a / 2, b), if a % 2 == 1 then b else 0)
  }

  /** The one number of 32 bits that differs from `m` by a multiple of the divisor. */
  ghost predicate IsRemainder(r: nat, m: nat)
  {
    r < Pow2(32) && exists q :: Divides(q, r, m)
  }

  predicate Divides(q: nat, r: nat, m: nat)
  {
    Xor(Product(q, Divisor()), r) == m
  }

  // ---- long division -----------------------------------------------------------------------

  /** One more bit brought down. */
  function BringDown(r: nat, bit: nat): nat
  {
    if 2 * r + bit < Pow2(32) then 2 * r + bit else Xor(2 * r + bit, Divisor())
  }

  function Remainder(m: nat): nat
  {
    if m == 0 then 0 else BringDown(Remainder(m / 2), m % 2)
  }

  lemma DivisorIs()
    ensures Divisor() == 0x1_04C1_1DB7
  {
    Pow2ThirtyTwo();
    assert Pow2(8) == 256;
    assert Pow2(12) == 4096;
    assert Pow2(16) == 0x1_0000;
    assert Pow2(20) == 0x10_0000;
    assert Pow2(23) == 0x80_0000;
    assert Pow2(26) == 0x400_0000;
  }

  lemma XorDouble(a: nat, b: nat, s: nat, t: nat)
    requires s < 2 && t < 2
    ensures Xor(2 * a + s, 2 * b + t) == 2 * Xor(a, b) + if s == t then 0 else 1
  {
    XorHalf(2 * a + s, 2 * b + t);
  }

  lemma BringDownBound(r: nat, bit: nat)
    requires r < Pow2(32) && bit < 2
    ensures BringDown(r, bit) < Pow2(32)
  {
    hide Xor, Divisor;
    DivisorIs();
    Pow2ThirtyTwo();
    if 2 * r + bit >= Pow2(32) {
      XorDropsTop(2 * r + bit, Divisor(), 32);
    }
  }

  /** A bit both operands have goes. */
  lemma {:induction false} XorDropsTop(a: nat, b: nat, n: nat)
    requires Pow2(n) <= a < 2 * Pow2(n) && Pow2(n) <= b < 2 * Pow2(n)
    ensures Xor(a, b) < Pow2(n)
  {
    if n > 0 {
      XorDropsTop(a / 2, b / 2, n - 1);
    } else {
      assert a == 1 && b == 1;
    }
  }

  lemma {:induction false} RemainderBound(m: nat)
    ensures Remainder(m) < Pow2(32)
  {
    hide BringDown;
    if m > 0 {
      RemainderBound(m / 2);
      BringDownBound(Remainder(m / 2), m % 2);
    } else {
      Pow2ThirtyTwo();
    }
  }

  /** Long division finds a quotient to go with its remainder. */
  lemma {:induction false} Divided(m: nat) returns (q: nat)
    ensures Divides(q, Remainder(m), m)
  {
    hide Xor, Divisor;
    if m == 0 {
      q := 0;
      XorZero(0);
    } else {
      var half := Divided(m / 2);
      var product, r := Product(half, Divisor()), Remainder(m / 2);
      XorDouble(product, r, 0, m % 2);
      if 2 * r + m % 2 < Pow2(32) {
        q := 2 * half;
        XorZero(2 * product);
        TwiceProduct(half, 0);
      } else {
        q := 2 * half + 1;
        TwiceProduct(half, 1);
        Regroup(2 * product, Divisor(), 2 * r + m % 2);
      }
    }
  }

  lemma TwiceProduct(q: nat, bit: nat)
    requires bit < 2
    ensures Product(2 * q + bit, Divisor()) == Xor(2 * Product(q, Divisor()), if bit == 1 then Divisor() else 0)
  {
    hide Xor, Divisor;
    XorZero(0);
  }

  /** The same number twice cancels. */
  lemma Regroup(a: nat, d: nat, r: nat)
    ensures Xor(Xor(a, d), Xor(r, d)) == Xor(a, r)
  {
    XorAssoc(a, d, Xor(r, d));
    XorComm(r, d);
    XorAssoc(d, d, r);
    XorSelf(d);
    XorZero(r);
  }

  /** What is taken off a number of up to 33 bits. */
  function Taken(r: nat): nat
  {
    if r < Pow2(31) then 0 else Divisor()
  }

  lemma BringDownTakes(r: nat, bit: nat)
    requires bit < 2
    ensures BringDown(r, bit) == Xor(2 * r + bit, Taken(r))
  {
    XorZero(2 * r + bit);
  }

  lemma TakenLinear(r: nat, s: nat)
    requires r < Pow2(32) && s < Pow2(32)
    ensures Taken(Xor(r, s)) == Xor(Taken(r), Taken(s))
  {
    hide Xor, Divisor;
    XorZero(Divisor());
    XorSelf(Divisor());
    XorZero(0);
    XorComm(r, s);
    if r < Pow2(31) && s < Pow2(31) {
      XorBound(r, s, 31);
    } else if r < Pow2(31) {
      XorKeepsTop(r, s, 31);
    } else if s < Pow2(31) {
      XorKeepsTop(s, r, 31);
    } else {
      XorDropsTop(r, s, 31);
    }
  }

  lemma XorPairs(a: nat, b: nat, c: nat, d: nat)
    ensures Xor(Xor(a, b), Xor(c, d)) == Xor(Xor(a, c), Xor(b, d))
  {
    XorAssoc(a, b, Xor(c, d));
    XorAssoc(b, c, d);
    XorComm(b, c);
    XorAssoc(c, b, d);
    XorAssoc(a, c, Xor(b, d));
  }

  lemma BringDownLinear(r: nat, s: nat, t: nat, u: nat, v: nat)
    requires r < Pow2(32) && s < Pow2(32) && t < 2 && u < 2 && v == if t == u then 0 else 1
    ensures BringDown(Xor(r, s), v) == Xor(BringDown(r, t), BringDown(s, u))
  {
    hide Xor, Taken, BringDown, Pow2;
    BringDownTakes(Xor(r, s), v);
    BringDownTakes(r, t);
    BringDownTakes(s, u);
    TakenLinear(r, s);
    XorDouble(r, s, t, u);
    XorPairs(2 * r + t, Taken(r), 2 * s + u, Taken(s));
  }

  lemma {:induction false} RemainderLinear(a: nat, b: nat)
    ensures Remainder(Xor(a, b)) == Xor(Remainder(a), Remainder(b))
    decreases a + b
  {
    hide Xor, BringDown;
    if a == 0 || b == 0 {
      XorZero(a);
      XorZero(b);
      XorZero(Remainder(a));
      XorZero(Remainder(b));
    } else {
      RemainderLinear(a / 2, b / 2);
      RemainderBound(a / 2);
      RemainderBound(b / 2);
      XorHalf(a, b);
      BringDownLinear(Remainder(a / 2), Remainder(b / 2), a % 2, b % 2, Xor(a, b) % 2);
      ZeroBroughtDown();
    }
  }

  lemma ZeroBroughtDown()
    ensures BringDown(0, 0) == 0
  {
    Pow2ThirtyTwo();
  }

  lemma Doubling(m: nat, bit: nat)
    requires bit < 2
    ensures Remainder(2 * m + bit) == BringDown(Remainder(m), bit)
  {
    hide BringDown;
    ZeroBroughtDown();
  }

  lemma {:induction false} SmallRemains(m: nat)
    requires m < Pow2(32)
    ensures Remainder(m) == m
  {
    if m > 0 {
      SmallRemains(m / 2);
    }
  }

  lemma NoneOfDivisor()
    ensures Remainder(Divisor()) == 0
  {
    hide Xor, Remainder;
    DivisorIs();
    Pow2ThirtyTwo();
    var half := 0x8260_8EDB;
    SmallRemains(half);
    Doubling(half, 1);
    XorSelf(Divisor());
  }

  lemma {:induction false} MultiplesLeaveNothing(q: nat)
    ensures Remainder(Product(q, Divisor())) == 0
  {
    hide Xor, BringDown, Divisor, Remainder;
    Pow2ThirtyTwo();
    if q > 0 {
      MultiplesLeaveNothing(q / 2);
      NoneOfDivisor();
      Doubling(Product(q / 2, Divisor()), 0);
      ZeroBroughtDown();
      RemainderLinear(2 * Product(q / 2, Divisor()), if q % 2 == 1 then Divisor() else 0);
      XorZero(0);
      SmallRemains(0);
    } else {
      SmallRemains(0);
    }
  }

  /** Long division gives the remainder, and there is no other. */
  lemma RemainderIff(r: nat, m: nat)
    ensures IsRemainder(r, m) <==> r == Remainder(m)
  {
    hide Xor, Divisor, Remainder, Product;
    RemainderBound(m);
    var found := Divided(m);
    if IsRemainder(r, m) {
      var q :| Divides(q, r, m);
      RemainderLinear(Product(q, Divisor()), r);
      MultiplesLeaveNothing(q);
      SmallRemains(r);
      XorZero(r);
    }
  }

  // ---- the register the other way about -----------------------------------------------------

  lemma OneReversed(h: nat, bit: nat, n: nat)
    requires bit < 2
    ensures Reversed(2 * h + bit, n + 1) == (if bit == 1 then Pow2(n) else 0) + Reversed(h, n)
  {
  }

  lemma FourReversed(h: nat, a: nat, b: nat, c: nat, d: nat, n: nat)
    requires a < 2 && b < 2 && c < 2 && d < 2
    ensures Reversed(16 * h + 8 * d + 4 * c + 2 * b + a, n + 4) ==
              (if a == 1 then Pow2(n + 3) else 0) + (if b == 1 then Pow2(n + 2) else 0) + (if c == 1 then Pow2(n + 1) else 0) +
              (if d == 1 then Pow2(n) else 0) + Reversed(h, n)
  {
    hide Reversed, Pow2;
    OneReversed(h, d, n);
    OneReversed(2 * h + d, c, n + 1);
    OneReversed(2 * (2 * h + d) + c, b, n + 2);
    OneReversed(2 * (2 * (2 * h + d) + c) + b, a, n + 3);
  }

  /** The constant in the program is the divisor's low word, reflected. */
  lemma PolynomialIsDivisor()
    ensures POLYNOMIAL < Pow2(32) && Pow2(32) + Reversed(POLYNOMIAL, 32) == Divisor()
  {
    hide Reversed, Pow2;
    Pow2ThirtyTwo();
    NothingReversed(0);
    FourReversed(0x0, 0, 1, 1, 1, 0);
    FourReversed(0xe, 1, 0, 1, 1, 4);
    FourReversed(0xed, 1, 1, 0, 1, 8);
    FourReversed(0xedb, 0, 0, 0, 1, 12);
    FourReversed(0xedb8, 0, 0, 0, 1, 16);
    FourReversed(0xedb88, 1, 1, 0, 0, 20);
    FourReversed(0xedb883, 0, 1, 0, 0, 24);
    FourReversed(0xedb8832, 0, 0, 0, 0, 28);
  }

  lemma NothingReversed(w: nat)
    ensures Reversed(w, 0) == 0
  {
  }

  lemma {:induction false} ReversedBound(a: nat, n: nat)
    ensures Reversed(a, n) < Pow2(n)
  {
    if n > 0 {
      ReversedBound(a / 2, n - 1);
    }
  }

  lemma {:induction false} ReversedLinear(a: nat, b: nat, n: nat)
    ensures Reversed(Xor(a, b), n) == Xor(Reversed(a, n), Reversed(b, n))
  {
    hide Xor;
    if n == 0 {
      XorZero(0);
    } else {
      XorHalf(a, b);
      ReversedLinear(a / 2, b / 2, n - 1);
      ReversedBound(a / 2, n - 1);
      ReversedBound(b / 2, n - 1);
      TopsXored(Reversed(a / 2, n - 1), Reversed(b / 2, n - 1), a % 2, b % 2, n - 1);
    }
  }

  /** Bits put above two numbers too small to reach them. */
  lemma TopsXored(x: nat, y: nat, s: nat, t: nat, n: nat)
    requires x < Pow2(n) && y < Pow2(n) && s < 2 && t < 2
    ensures Xor((if s == 1 then Pow2(n) else 0) + x, (if t == 1 then Pow2(n) else 0) + y) ==
              (if s == t then 0 else Pow2(n)) + Xor(x, y)
  {
    hide Xor, Pow2;
    XorBound(x, y, n);
    var p, q := if s == 1 then Pow2(n) else 0, if t == 1 then Pow2(n) else 0;
    AboveXored(x, s, n);
    AboveXored(y, t, n);
    AboveXored(Xor(x, y), if s == t then 0 else 1, n);
    XorPairs(x, p, y, q);
    XorZero(p);
    XorZero(q);
    XorSelf(p);
  }

  lemma AboveXored(x: nat, bit: nat, n: nat)
    requires x < Pow2(n) && bit < 2
    ensures Xor(x, if bit == 1 then Pow2(n) else 0) == x + if bit == 1 then Pow2(n) else 0
  {
    hide Xor, Pow2;
    XorZero(x);
    if bit == 1 {
      XorDisjoint(x, 1, n);
    }
  }

  lemma {:induction false} ReversedWider(w: nat, n: nat)
    requires w < Pow2(n)
    ensures Reversed(w, n + 1) == 2 * Reversed(w, n)
  {
    if n > 0 {
      ReversedWider(w / 2, n - 1);
    }
  }

  /** One bit of the program's register is one bit of the long division. */
  lemma StepBringsDown(x: nat)
    requires x < Pow2(32)
    ensures Reversed(Step(x), 32) == BringDown(Reversed(x, 32), 0)
  {
    hide Xor, Divisor, Reversed, Pow2;
    var half := Reversed(x / 2, 31);
    Pow2ThirtyTwo();
    OneReversed(x / 2, x % 2, 31);
    ReversedWider(x / 2, 31);
    ReversedBound(x / 2, 31);
    if x % 2 == 1 {
      PolynomialIsDivisor();
      ReversedLinear(x / 2, POLYNOMIAL, 32);
      ReversedBound(POLYNOMIAL, 32);
      TopsXored(2 * half, Reversed(POLYNOMIAL, 32), 1, 1, 32);
    }
  }

  function ZerosDown(r: nat, n: nat): nat
  {
    if n == 0 then r else BringDown(ZerosDown(r, n - 1), 0)
  }

  lemma {:induction false} StepsBringDown(x: nat, n: nat)
    requires x < Pow2(32)
    ensures Reversed(Steps(x, n), 32) == ZerosDown(Reversed(x, 32), n)
  {
    hide Step, BringDown, Reversed;
    if n > 0 {
      StepsBringDown(x, n - 1);
      Pow2ThirtyTwo();
      StepsBound(x, n - 1);
      StepBringsDown(Steps(x, n - 1));
    }
  }

  lemma {:induction false} ZerosBroughtDown(m: nat, n: nat)
    ensures Remainder(Pow2(n) * m) == ZerosDown(Remainder(m), n)
  {
    hide BringDown, Remainder;
    if n > 0 {
      ZerosBroughtDown(m, n - 1);
      Doubling(Pow2(n - 1) * m, 0);
      Doubled(Pow2(n - 1), m);
    }
  }

  // ---- the whole message -------------------------------------------------------------------------

  /** The message's bits in the order they are sent, each byte's lowest first, the first the highest power. */
  function Message(data: seq<byte>): nat
  {
    if |data| == 0 then 0 else 256 * Message(data[..|data| - 1]) + Reversed(data[|data| - 1], 8)
  }

  /** Thirty-two zeros behind the message, and `first` xored into the first thirty-two bits of it all. */
  function Dividend(first: nat, data: seq<byte>): nat
  {
    Xor(Pow2(32) * Message(data), Pow2(8 * |data|) * first)
  }

  lemma {:induction false} XorScaled(a: nat, b: nat, n: nat)
    ensures Pow2(n) * Xor(a, b) == Xor(Pow2(n) * a, Pow2(n) * b)
  {
    hide Xor;
    if n > 0 {
      XorScaled(a, b, n - 1);
      Doubled(Pow2(n - 1), a);
      Doubled(Pow2(n - 1), b);
      Doubled(Pow2(n - 1), Xor(a, b));
      XorDouble(Pow2(n - 1) * a, Pow2(n - 1) * b, 0, 0);
    }
  }

  /** One byte more: eight zeros behind what there was, with the byte reversed where the last of it was. */
  lemma DividendGrows(first: nat, front: seq<byte>, b: byte)
    ensures Dividend(first, front + [b]) == 256 * Xor(Dividend(first, front), 0x100_0000 * Reversed(b, 8))
  {
    hide Xor, Reversed, Message;
    var m, rb, n := Message(front), Reversed(b, 8), 8 * |front|;
    assert (front + [b])[..|front|] == front;
    MessageGrows(front, b);
    ReversedBound(b, 8);
    Powers();
    XorDisjoint(rb, m, 8);
    XorComm(rb, Pow2(8) * m);
    XorScaled(Pow2(8) * m, rb, 32);
    XorScaled(Pow2(32) * m, Pow2(n) * first, 8);
    XorScaled(Dividend(first, front), Pow2(24) * rb, 8);
    PowersAdd(n, first);
    XorSwap(Pow2(8) * (Pow2(32) * m), Pow2(32) * rb, Pow2(n + 8) * first);
  }

  lemma MessageGrows(front: seq<byte>, b: byte)
    ensures Message(front + [b]) == 256 * Message(front) + Reversed(b, 8)
  {
    assert (front + [b])[..|front|] == front;
  }

  lemma Powers()
    ensures Pow2(8) == 256 && Pow2(24) == 0x100_0000 && Pow2(32) == 0x1_0000_0000
  {
    assert Pow2(8) == 256;
    assert Pow2(16) == 0x1_0000;
    assert Pow2(24) == 0x100_0000;
    assert Pow2(28) == 0x1000_0000;
  }

  lemma PowersAdd(n: nat, first: nat)
    ensures Pow2(n + 8) * first == Pow2(8) * (Pow2(n) * first)
  {
    Sixteenfold(n);
    Sixteenfold(n + 4);
    assert Pow2(8) == 256;
  }

  lemma Sixteenfold(n: nat)
    ensures Pow2(n + 4) == 16 * Pow2(n)
  {
    assert Pow2(n + 2) == 4 * Pow2(n);
  }

  lemma ByteReversed(b: byte)
    ensures Reversed(b, 32) == 0x100_0000 * Reversed(b, 8)
  {
    hide Reversed;
    Powers();
    WiderBy(b, 8, 24);
  }

  lemma {:induction false} WiderBy(w: nat, n: nat, k: nat)
    requires w < Pow2(n)
    ensures Reversed(w, n + k) == Pow2(k) * Reversed(w, n) && w < Pow2(n + k)
  {
    hide Reversed;
    if k > 0 {
      WiderBy(w, n, k - 1);
      ReversedWider(w, n + k - 1);
    }
  }

  /** From any register, the bytes fed in leave the remainder of the message with that register over its front. */
  lemma {:induction false} RegisterIsRemainder(s: nat, data: seq<byte>)
    requires s < Pow2(32)
    ensures Update(s, data) < Pow2(32) && Reversed(Update(s, data), 32) == Remainder(Dividend(Reversed(s, 32), data))
    decreases |data|
  {
    hide Xor, Reversed, Remainder, Steps, Dividend, Pow2;
    Pow2ThirtyTwo();
    UpdateBound(s, data);
    if |data| == 0 {
      NothingToDivide(s, data);
    } else {
      var front, b := data[..|data| - 1], data[|data| - 1];
      assert data == front + [b];
      RegisterIsRemainder(s, front);
      OneByteMore(Update(s, front), Dividend(Reversed(s, 32), front), b);
      DividendGrows(Reversed(s, 32), front, b);
    }
  }

  lemma NothingToDivide(s: nat, data: seq<byte>)
    requires |data| == 0 && s < Pow2(32)
    ensures Reversed(s, 32) == Remainder(Dividend(Reversed(s, 32), data))
  {
    hide Xor, Reversed, Remainder;
    ReversedBound(s, 32);
    XorZero(Reversed(s, 32));
    SmallRemains(Reversed(s, 32));
    assert Pow2(0) == 1;
  }

  lemma OneByteMore(u: nat, dividend: nat, b: byte)
    requires u < Pow2(32) && Reversed(u, 32) == Remainder(dividend)
    ensures Reversed(Steps(Xor(u, b), 8), 32) == Remainder(256 * Xor(dividend, 0x100_0000 * Reversed(b, 8)))
  {
    hide Xor, Reversed, Remainder, Steps, Pow2;
    Powers();
    var r := 0x100_0000 * Reversed(b, 8);
    XorBound(u, b, 32);
    StepsBringDown(Xor(u, b), 8);
    ReversedLinear(u, b, 32);
    ByteReversed(b);
    ReversedBound(b, 32);
    SmallRemains(r);
    RemainderLinear(dividend, r);
    ZerosBroughtDown(Xor(dividend, r), 8);
  }

  lemma OnesReversed()
    ensures Reversed(0xFFFF_FFFF, 32) == 0xFFFF_FFFF
  {
    hide Reversed, Pow2;
    Pow2ThirtyTwo();
    Powers();
    AllOnes(0xFFFF_FFFF, 32);
  }

  lemma {:induction false} AllOnes(w: nat, n: nat)
    requires w + 1 == Pow2(n)
    ensures Reversed(w, n) == w
  {
    if n > 0 {
      AllOnes(w / 2, n - 1);
    }
  }

  lemma {:induction false} ReversedInjective(a: nat, b: nat, n: nat)
    requires a < Pow2(n) && b < Pow2(n) && Reversed(a, n) == Reversed(b, n)
    ensures a == b
  {
    if n > 0 {
      ReversedBound(a / 2, n - 1);
      ReversedBound(b / 2, n - 1);
      ReversedInjective(a / 2, b / 2, n - 1);
    }
  }

  /**
   * A word is the checksum of a message exactly when its complement, read as the wire has it, is the
   * remainder of the message with thirty-two zeros behind it and its first thirty-two bits complemented.
   */
  lemma ChecksumIff(data: seq<byte>, w: nat)
    requires w < 0x1_0000_0000
    ensures Crc32(data) == w <==> IsRemainder(Reversed(Xor(w, 0xFFFF_FFFF), 32), Dividend(0xFFFF_FFFF, data))
  {
    hide Xor, Reversed, Remainder, Dividend, Pow2, IsRemainder;
    var u := Update(ONES, data);
    Powers();
    RegisterIsRemainder(ONES, data);
    OnesReversed();
    RemainderIff(Reversed(Xor(w, ONES), 32), Dividend(ONES, data));
    XorAssoc(u, ONES, ONES);
    XorAssoc(w, ONES, ONES);
    XorSelf(ONES);
    XorZero(u);
    XorZero(w);
    XorBound(w, ONES, 32);
    if Reversed(Xor(w, ONES), 32) == Reversed(u, 32) {
      ReversedInjective(Xor(w, ONES), u, 32);
    }
  }
}
