/** The check value of components/crc/README.md, worked out on machine words. */
module CrcCheckValue {
  import opened Bytes
  import opened Crc

  function Half(x: bv32): bv32
  {
    x >> 1
  }

  function LowBit(x: bv32): nat
  {
    if x & 1 == 1 then 1 else 0
  }

  function Exclusive(a: bv32, b: bv32): bv32
  {
    a ^ b
  }

  /** The number a machine word holds. */
  function NatOf(x: bv32): nat
    decreases x
  {
    if x == 0 then 0 else LowBit(x) + 2 * NatOf(Half(x))
  }

  lemma WordParts(a: bv32)
    ensures NatOf(a) == LowBit(a) + 2 * NatOf(Half(a))
  {
    assert a == 0 ==> Half(a) == 0;
  }

  lemma ZeroWord()
    ensures NatOf(0) == 0
  {
  }

  lemma FourBits(w: bv32, a: bv32, b: bv32, c: bv32, h: bv32)
    requires a == Half(w) && b == Half(a) && c == Half(b) && h == Half(c)
    ensures NatOf(w) == LowBit(w) + 2 * LowBit(a) + 4 * LowBit(b) + 8 * LowBit(c) + 16 * NatOf(h)
  {
    hide NatOf, LowBit, Half;
    WordParts(w);
    WordParts(a);
    WordParts(b);
    WordParts(c);
  }

  // ---- the two exclusive ors -----------------------------------------------------------------

  lemma {:induction false} WordsXored(a: bv32, b: bv32, n: nat)
    requires NatOf(a) + NatOf(b) <= n
    ensures NatOf(Exclusive(a, b)) == Xor(NatOf(a), NatOf(b))
    decreases n
  {
    hide NatOf, Xor, LowBit, Half, Exclusive;
    if NatOf(a) == 0 && NatOf(b) == 0 {
      ZeroWords(a, b);
    } else {
      WordParts(a);
      WordParts(b);
      WordsXored(Half(a), Half(b), n - 1);
      WordParts(Exclusive(a, b));
      BitsXored(a, b);
      XorJoined(NatOf(Half(a)), NatOf(Half(b)), LowBit(a), LowBit(b));
    }
  }

  lemma ZeroWords(a: bv32, b: bv32)
    requires NatOf(a) == 0 && NatOf(b) == 0
    ensures NatOf(Exclusive(a, b)) == Xor(NatOf(a), NatOf(b))
  {
    ZeroIff(a);
    ZeroIff(b);
    ZeroWord();
    XorZero(0);
  }

  lemma ZeroIff(a: bv32)
    ensures NatOf(a) == 0 <==> a == 0
  {
  }

  lemma BitsXored(a: bv32, b: bv32)
    ensures Half(Exclusive(a, b)) == Exclusive(Half(a), Half(b)) && LowBit(a) < 2 && LowBit(b) < 2
    ensures LowBit(Exclusive(a, b)) == if LowBit(a) == LowBit(b) then 0 else 1
  {
  }

  lemma XorJoined(a: nat, b: nat, s: nat, t: nat)
    requires s < 2 && t < 2
    ensures Xor(2 * a + s, 2 * b + t) == 2 * Xor(a, b) + if s == t then 0 else 1
  {
    XorHalf(2 * a + s, 2 * b + t);
  }

  // ---- the register ---------------------------------------------------------------------------

  function WordStep(x: bv32): bv32
  {
    if LowBit(x) == 1 then Exclusive(Half(x), 0xEDB8_8320) else Half(x)
  }

  function WordFed(x: bv32, b: bv32): bv32
  {
    WordStep(WordStep(WordStep(WordStep(WordStep(WordStep(WordStep(WordStep(Exclusive(x, b)))))))))
  }

  lemma PolynomialWord()
    ensures NatOf(0xEDB8_8320) == POLYNOMIAL
  {
    hide NatOf;
    ZeroWord();
    FourBits(0xE, 0x7, 0x3, 0x1, 0x0);
    FourBits(0xED, 0x76, 0x3B, 0x1D, 0xE);
    FourBits(0xEDB, 0x76D, 0x3B6, 0x1DB, 0xED);
    FourBits(0xEDB8, 0x76DC, 0x3B6E, 0x1DB7, 0xEDB);
    FourBits(0xE_DB88, 0x7_6DC4, 0x3_B6E2, 0x1_DB71, 0xEDB8);
    FourBits(0xED_B883, 0x76_DC41, 0x3B_6E20, 0x1D_B710, 0xE_DB88);
    FourBits(0xEDB_8832, 0x76D_C419, 0x3B6_E20C, 0x1DB_7106, 0xED_B883);
    FourBits(0xEDB8_8320, 0x76DC_4190, 0x3B6E_20C8, 0x1DB7_1064, 0xEDB_8832);
  }

  lemma WordStepIs(x: bv32)
    ensures Step(NatOf(x)) == NatOf(WordStep(x))
  {
    hide NatOf, Xor, LowBit, Half, Exclusive;
    LowBitIsBit(x);
    WordParts(x);
    PolynomialWord();
    WordsXored(Half(x), 0xEDB8_8320, NatOf(Half(x)) + NatOf(0xEDB8_8320));
  }

  lemma LowBitIsBit(x: bv32)
    ensures LowBit(x) < 2
  {
  }

  lemma OneStepOn(s: nat, n: nat, x: bv32)
    requires Steps(s, n) == NatOf(x)
    ensures Steps(s, n + 1) == NatOf(WordStep(x))
  {
    hide NatOf, WordStep, Step;
    WordStepIs(x);
  }

  lemma WordFedIs(x: bv32, b: bv32)
    ensures Steps(Xor(NatOf(x), NatOf(b)), 8) == NatOf(WordFed(x, b))
  {
    hide NatOf, Xor, Steps, WordStep, Exclusive;
    WordsXored(x, b, NatOf(x) + NatOf(b));
    var x0 := Exclusive(x, b);
    var s := NatOf(x0);
    NoSteps(s);
    var x1 := WordStep(x0);
    var x2 := WordStep(x1);
    var x3 := WordStep(x2);
    var x4 := WordStep(x3);
    var x5 := WordStep(x4);
    var x6 := WordStep(x5);
    var x7 := WordStep(x6);
    OneStepOn(s, 0, x0);
    OneStepOn(s, 1, x1);
    OneStepOn(s, 2, x2);
    OneStepOn(s, 3, x3);
    OneStepOn(s, 4, x4);
    OneStepOn(s, 5, x5);
    OneStepOn(s, 6, x6);
    OneStepOn(s, 7, x7);
  }

  lemma NoSteps(s: nat)
    ensures Steps(s, 0) == s
  {
  }

  lemma OneFed(data: seq<byte>, k: nat, x: bv32, b: bv32, y: bv32)
    requires k < |data| && Update(ONES, data[..k]) == NatOf(x) && NatOf(b) == data[k] && y == WordFed(x, b)
    ensures Update(ONES, data[..k + 1]) == NatOf(y)
  {
    hide NatOf, Xor, Steps, WordFed;
    WordFedIs(x, b);
    assert data[..k + 1][..k] == data[..k];
  }

  lemma DigitWords()
    ensures NatOf(0x31) == 0x31 && NatOf(0x32) == 0x32 && NatOf(0x33) == 0x33 && NatOf(0x34) == 0x34 && NatOf(0x35) == 0x35
    ensures NatOf(0x36) == 0x36 && NatOf(0x37) == 0x37 && NatOf(0x38) == 0x38 && NatOf(0x39) == 0x39
  {
    hide NatOf;
    ZeroWord();
    FourBits(0x3, 0x1, 0x0, 0x0, 0x0);
    FourBits(0x31, 0x18, 0xC, 0x6, 0x3);
    FourBits(0x32, 0x19, 0xC, 0x6, 0x3);
    FourBits(0x33, 0x19, 0xC, 0x6, 0x3);
    FourBits(0x34, 0x1A, 0xD, 0x6, 0x3);
    FourBits(0x35, 0x1A, 0xD, 0x6, 0x3);
    FourBits(0x36, 0x1B, 0xD, 0x6, 0x3);
    FourBits(0x37, 0x1B, 0xD, 0x6, 0x3);
    FourBits(0x38, 0x1C, 0xE, 0x7, 0x3);
    FourBits(0x39, 0x1C, 0xE, 0x7, 0x3);
  }

  lemma FirstWord()
    ensures NatOf(0xFFFF_FFFF) == 0xFFFF_FFFF
  {
    hide NatOf;
    ZeroWord();
    FourBits(0xF, 0x7, 0x3, 0x1, 0x0);
    FourBits(0xFF, 0x7F, 0x3F, 0x1F, 0xF);
    FourBits(0xFFF, 0x7FF, 0x3FF, 0x1FF, 0xFF);
    FourBits(0xFFFF, 0x7FFF, 0x3FFF, 0x1FFF, 0xFFF);
    FourBits(0xF_FFFF, 0x7_FFFF, 0x3_FFFF, 0x1_FFFF, 0xFFFF);
    FourBits(0xFF_FFFF, 0x7F_FFFF, 0x3F_FFFF, 0x1F_FFFF, 0xF_FFFF);
    FourBits(0xFFF_FFFF, 0x7FF_FFFF, 0x3FF_FFFF, 0x1FF_FFFF, 0xFF_FFFF);
    FourBits(0xFFFF_FFFF, 0x7FFF_FFFF, 0x3FFF_FFFF, 0x1FFF_FFFF, 0xFFF_FFFF);
  }

  lemma LastWord()
    ensures NatOf(0x340B_C6D9) == 0x340B_C6D9
  {
    hide NatOf;
    ZeroWord();
    FourBits(0x3, 0x1, 0x0, 0x0, 0x0);
    FourBits(0x34, 0x1A, 0xD, 0x6, 0x3);
    FourBits(0x340, 0x1A0, 0xD0, 0x68, 0x34);
    FourBits(0x340B, 0x1A05, 0xD02, 0x681, 0x340);
    FourBits(0x3_40BC, 0x1_A05E, 0xD02F, 0x6817, 0x340B);
    FourBits(0x34_0BC6, 0x1A_05E3, 0xD_02F1, 0x6_8178, 0x3_40BC);
    FourBits(0x340_BC6D, 0x1A0_5E36, 0xD0_2F1B, 0x68_178D, 0x34_0BC6);
    FourBits(0x340B_C6D9, 0x1A05_E36C, 0xD02_F1B6, 0x681_78DB, 0x340_BC6D);
  }

  const CHECKED: seq<byte> := [0x31, 0x32, 0x33, 0x34, 0x35, 0x36, 0x37, 0x38, 0x39]

  lemma ThreeFed()
    ensures Update(ONES, CHECKED[..3]) == NatOf(0x77B7_9C2D)
  {
    hide NatOf, Update;
    var data := CHECKED;
    FirstWord();
    DigitWords();
    NothingFed(data);
    OneFed(data, 0, 0xFFFF_FFFF, 0x31, 0x7C23_1048);
    OneFed(data, 1, 0x7C23_1048, 0x32, 0xB0AC_BB32);
    OneFed(data, 2, 0xB0AC_BB32, 0x33, 0x77B7_9C2D);
  }

  lemma SixFed()
    ensures Update(ONES, CHECKED[..6]) == NatOf(0xF68D_2C9E)
  {
    hide NatOf, Update;
    var data := CHECKED;
    DigitWords();
    ThreeFed();
    OneFed(data, 3, 0x77B7_9C2D, 0x34, 0x641C_1F5C);
    OneFed(data, 4, 0x641C_1F5C, 0x35, 0x340A_C5E3);
    OneFed(data, 5, 0x340A_C5E3, 0x36, 0xF68D_2C9E);
  }

  lemma NothingFed(data: seq<byte>)
    ensures Update(ONES, data[..0]) == ONES
  {
  }

  /** The nine characters 1 to 9 have the published check value. */
  lemma CheckValue()
    ensures Crc32([0x31, 0x32, 0x33, 0x34, 0x35, 0x36, 0x37, 0x38, 0x39]) == 0xCBF4_3926
  {
    hide NatOf, Update, Xor;
    var data := CHECKED;
    DigitWords();
    SixFed();
    OneFed(data, 6, 0xF68D_2C9E, 0x37, 0xAFFC_9660);
    OneFed(data, 7, 0xAFFC_9660, 0x38, 0x651F_2550);
    OneFed(data, 8, 0x651F_2550, 0x39, 0x340B_C6D9);
    assert data[..9] == data;
    LastWord();
    LastComplement();
  }

  lemma LastComplement()
    ensures Xor(0x340B_C6D9, ONES) == 0xCBF4_3926
  {
    hide NatOf, Xor;
    FirstWord();
    LastWord();
    WordsXored(0x340B_C6D9, 0xFFFF_FFFF, 0x340B_C6D9 + 0xFFFF_FFFF);
    ZeroWord();
    FourBits(0xC, 0x6, 0x3, 0x1, 0x0);
    FourBits(0xCB, 0x65, 0x32, 0x19, 0xC);
    FourBits(0xCBF, 0x65F, 0x32F, 0x197, 0xCB);
    FourBits(0xCBF4, 0x65FA, 0x32FD, 0x197E, 0xCBF);
    FourBits(0xC_BF43, 0x6_5FA1, 0x3_2FD0, 0x1_97E8, 0xCBF4);
    FourBits(0xCB_F439, 0x65_FA1C, 0x32_FD0E, 0x19_7E87, 0xC_BF43);
    FourBits(0xCBF_4392, 0x65F_A1C9, 0x32F_D0E4, 0x197_E872, 0xCB_F439);
    FourBits(0xCBF4_3926, 0x65FA_1C93, 0x32FD_0E49, 0x197E_8724, 0xCBF_4392);
  }
}
