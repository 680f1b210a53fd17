/** Bytes, 32-bit words, their little-endian layout and bitwise operations on them. */
module Bytes {
  import opened Arithmetic

  type byte = x: int | 0 <= x < 256

  const WORD_LIMIT: nat := 0x1_0000_0000

  datatype Option<+T> = None | Some(value: T)

  /** Unsigned 32-bit arithmetic wraps. */
  function U32(x: int): nat
  {
    x % WORD_LIMIT
  }

  // ---- slices -------------------------------------------------------------

  lemma SliceOfSlice(b: seq<byte>, lo: nat, hi: nat, from: nat, to: nat)
    requires lo <= hi <= |b| && from <= to <= hi - lo
    ensures b[lo..hi][from..to] == b[lo + from..lo + to]
  {
    forall i | 0 <= i < to - from ensures b[lo..hi][from..to][i] == b[lo + from..lo + to][i] {
      assert b[lo..hi][from + i] == b[lo + from + i];
    }
  }

  lemma FrontOfConcat(a: seq<byte>, b: seq<byte>, n: nat)
    requires n <= |a|
    ensures (a + b)[..n] == a[..n]
  {
  }

  lemma MiddleOfConcat(a: seq<byte>, b: seq<byte>, c: seq<byte>, n: nat)
    requires n <= |b|
    ensures (a + b + c)[|a|..|a| + n] == b[..n]
  {
  }

  // ---- little-endian numbers -----------------------------------------------

  /** The low `n` bytes of a number, least significant first. */
  function NatBytes(x: nat, n: nat): (b: seq<byte>)
    ensures |b| == n
  {
    if n == 0 then [] else [x % 256] + NatBytes(x / 256, n - 1)
  }

  function BytesNat(b: seq<byte>): nat
  {
    if |b| == 0 then 0 else b[0] + 256 * BytesNat(b[1..])
  }

  function Pow256(n: nat): nat
  {
    if n == 0 then 1 else 256 * Pow256(n - 1)
  }

  lemma Pow256Values()
    ensures Pow256(2) == 0x1_0000
    ensures Pow256(4) == WORD_LIMIT
  {
    assert Pow256(1) == 256;
    assert Pow256(3) == 0x100_0000;
  }

  lemma {:induction false} NatRoundTrip(x: nat, n: nat)
    requires x < Pow256(n)
    ensures BytesNat(NatBytes(x, n)) == x
  {
    if n > 0 {
      NatRoundTrip(x / 256, n - 1);
      assert NatBytes(x, n)[1..] == NatBytes(x / 256, n - 1);
    }
  }

  /** The four bytes from `at` on as the number a little-endian machine reads there. */
  function LittleEndian(b: seq<byte>, at: nat): nat
    requires at + 4 <= |b|
  {
    b[at] as nat + 0x100 * b[at + 1] as nat + 0x1_0000 * b[at + 2] as nat + 0x100_0000 * b[at + 3] as nat
  }

  lemma WordAt(b: seq<byte>, at: nat)
    requires at + 4 <= |b|
    ensures BytesNat(b[at..at + 4]) == LittleEndian(b, at)
  {
    var w := b[at..at + 4];
    assert w[1..][1..] == w[2..] && w[2..][1..] == w[3..] && w[3..][1..] == [];
    assert BytesNat(w[3..]) == w[3] as int;
    assert BytesNat(w[2..]) == w[2] as int + 256 * BytesNat(w[3..]);
    assert BytesNat(w[1..]) == w[1] as int + 256 * BytesNat(w[2..]);
  }

  function Word(x: nat): (b: seq<byte>)
    ensures |b| == 4
  {
    NatBytes(x, 4)
  }

  lemma WordRoundTrip(x: nat)
    requires x < WORD_LIMIT
    ensures BytesNat(Word(x)) == x
  {
    Pow256Values();
    NatRoundTrip(x, 4);
  }

  lemma {:induction false} BytesNatBound(b: seq<byte>)
    ensures BytesNat(b) < Pow256(|b|)
  {
    if |b| > 0 {
      BytesNatBound(b[1..]);
    }
  }

  lemma {:induction false} BytesNatInjective(a: seq<byte>, b: seq<byte>)
    requires |a| == |b|
    requires BytesNat(a) == BytesNat(b)
    ensures a == b
  {
    if |a| > 0 {
      BytesNatInjective(a[1..], b[1..]);
      assert a == [a[0]] + a[1..];
      assert b == [b[0]] + b[1..];
    }
  }

  // ---- bitwise operations ----------------------------------------------------

  function Xor(a: nat, b: nat): nat
    decreases a + b
  {
    if a == 0 && b == 0 then 0 else (if a % 2 == b % 2 then 0 else 1) + 2 * Xor(a / 2, b / 2)
  }

  function And(a: nat, b: nat): (r: nat)
    ensures r <= a && r <= b
    decreases a
  {
    if a == 0 || b == 0 then 0 else (if a % 2 == 1 && b % 2 == 1 then 1 else 0) + 2 * And(a / 2, b / 2)
  }

  lemma {:induction false} XorComm(a: nat, b: nat)
    ensures Xor(a, b) == Xor(b, a)
    decreases a + b
  {
    if a != 0 || b != 0 {
      XorComm(a / 2, b / 2);
    }
  }

  lemma XorHalf(a: nat, b: nat)
    ensures Xor(a, b) / 2 == Xor(a / 2, b / 2)
    ensures Xor(a, b) % 2 == if a % 2 == b % 2 then 0 else 1
  {
  }

  lemma SameHalves(x: nat, y: nat)
    requires x / 2 == y / 2 && x % 2 == y % 2
    ensures x == y
  {
  }

  lemma {:induction false} XorAssoc(a: nat, b: nat, c: nat)
    ensures Xor(Xor(a, b), c) == Xor(a, Xor(b, c))
    decreases a + b + c
  {
    if a != 0 || b != 0 || c != 0 {
      var left, right := Xor(Xor(a, b), c), Xor(a, Xor(b, c));
      assert left / 2 == right / 2 by {
        XorAssoc(a / 2, b / 2, c / 2);
        XorHalf(a, b);
        XorHalf(b, c);
        XorHalf(Xor(a, b), c);
        XorHalf(a, Xor(b, c));
      }
      assert left % 2 == right % 2 by {
        XorHalf(a, b);
        XorHalf(b, c);
        XorHalf(Xor(a, b), c);
        XorHalf(a, Xor(b, c));
      }
      SameHalves(left, right);
    }
  }

  lemma {:induction false} XorZero(a: nat)
    ensures Xor(a, 0) == a && Xor(0, a) == a
  {
    if a > 0 {
      XorZero(a / 2);
    }
  }

  lemma {:induction false} XorSelf(a: nat)
    ensures Xor(a, a) == 0
  {
    if a > 0 {
      XorSelf(a / 2);
    }
  }

  lemma XorCancel(x: nat, y: nat, w: nat)
    requires Xor(x, w) == Xor(y, w)
    ensures x == y
  {
    XorAssoc(x, w, w);
    XorAssoc(y, w, w);
    XorSelf(w);
    XorZero(x);
    XorZero(y);
  }

  lemma XorSwap(a: nat, b: nat, c: nat)
    ensures Xor(Xor(a, b), c) == Xor(Xor(a, c), b)
  {
    XorAssoc(a, b, c);
    XorAssoc(a, c, b);
    XorComm(b, c);
  }

  function Pow2(n: nat): nat
  {
    if n == 0 then 1 else 2 * Pow2(n - 1)
  }

  lemma Pow2ThirtyTwo()
    ensures Pow2(31) == 0x8000_0000
    ensures Pow2(32) == WORD_LIMIT
  {
    assert Pow2(8) == 256;
    assert Pow2(16) == 0x1_0000;
    assert Pow2(24) == 0x100_0000;
  }

  lemma {:induction false} XorBound(a: nat, b: nat, n: nat)
    requires a < Pow2(n) && b < Pow2(n)
    ensures Xor(a, b) < Pow2(n)
  {
    if n > 0 && (a != 0 || b != 0) {
      XorBound(a / 2, b / 2, n - 1);
    }
  }

  /** A bit only one operand has survives. */
  lemma {:induction false} XorKeepsTop(a: nat, b: nat, n: nat)
    requires a < Pow2(n) <= b < 2 * Pow2(n)
    ensures Xor(a, b) >= Pow2(n)
  {
    if n > 0 {
      XorKeepsTop(a / 2, b / 2, n - 1);
    } else {
      assert a == 0 && b == 1;
    }
  }

  /** Numbers that share no bit add without carrying. */
  lemma {:induction false} XorDisjoint(low: nat, high: nat, n: nat)
    requires low < Pow2(n)
    ensures Xor(low, Pow2(n) * high) == low + Pow2(n) * high
    decreases n
  {
    hide Xor;
    if n == 0 {
      XorZero(high);
    } else {
      Doubled(Pow2(n - 1), high);
      XorDisjoint(low / 2, high, n - 1);
      XorEven(low, Pow2(n - 1) * high);
    }
  }

  lemma XorEven(a: nat, h: nat)
    ensures Xor(a, 2 * h) == a % 2 + 2 * Xor(a / 2, h)
  {
  }

  lemma {:induction false} AndSelf(a: nat)
    ensures And(a, a) == a
  {
    if a > 0 {
      AndSelf(a / 2);
    }
  }

  lemma {:induction false} AndComm(a: nat, b: nat)
    ensures And(a, b) == And(b, a)
  {
    if a > 0 && b > 0 {
      AndComm(a / 2, b / 2);
    }
  }

  lemma {:induction false} AndOnes(a: nat, n: nat)
    requires a < Pow2(n)
    ensures And(a, Pow2(n) - 1) == a
  {
    if n > 0 && a > 0 {
      assert (Pow2(n) - 1) / 2 == Pow2(n - 1) - 1;
      AndOnes(a / 2, n - 1);
    }
  }

  /** An erased byte gives way to whatever is programmed over it, and keeps what is under it. */
  lemma AndErased(a: byte)
    ensures And(a, 0xFF) == a && And(0xFF, a) == a
  {
    assert Pow2(8) == 256;
    AndOnes(a, 8);
    AndComm(a, 0xFF);
  }
}
