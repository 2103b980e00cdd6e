/** The residue of the frame check sequence as a number: the shift register run
    on 32-bit words, which agrees with the one on integers. */
module CrcResidue {
  import opened Bytes
  import opened Crc32

  function Half(b: bv32): bv32 { b >> 1 }
  function By2(b: bv32): bv32 { b >> 2 }
  function By4(b: bv32): bv32 { b >> 4 }
  function By8(b: bv32): bv32 { b >> 8 }

  function Mix(x: bv32, y: bv32): bv32 { x ^ y }

  function Digit(b: bv32): nat { if b & 1 == 1 then 1 else 0 }

  /** The number the low n bits of b stand for. */
  function Number(b: bv32, n: nat): nat {
    if n == 0 then 0 else 2 * Number(Half(b), n - 1) + Digit(b)
  }

  function StepWord(b: bv32): bv32 { Mix(Half(b), Mixed(b)) }

  lemma WordXor(x: bv32, y: bv32)
    ensures Half(Mix(x, y)) == Mix(Half(x), Half(y))
    ensures Digit(Mix(x, y)) == if Digit(x) != Digit(y) then 1 else 0
  {
  }

  lemma NumberHalves(b: bv32, n: nat)
    requires n > 0
    ensures Number(b, n) / 2 == Number(Half(b), n - 1) && Number(b, n) % 2 == Digit(b)
  {
    hide Half;
  }

  lemma XorOfZeros()
    ensures Xor(0, 0) == 0
  {
  }

  lemma {:induction false} NumberXor(x: bv32, y: bv32, n: nat)
    ensures Number(Mix(x, y), n) == Xor(Number(x, n), Number(y, n))
    decreases n
  {
    hide Mix;
    hide Half;
    hide Xor;
    hide Digit;
    XorOfZeros();
    if n == 0 {
    } else {
      WordXor(x, y);
      NumberXor(Half(x), Half(y), n - 1);
      NumberHalves(x, n);
      NumberHalves(y, n);
      XorHalves(Number(x, n), Number(y, n));
    }
  }

  lemma {:induction false} NumberOfZero(n: nat)
    ensures Number(0, n) == 0
  {
    if n == 0 {
    } else {
      assert Half(0) == 0;
      NumberOfZero(n - 1);
    }
  }

  /** b has no bits above its low n. */
  predicate Fits(b: bv32, n: nat) {
    if n == 0 then b == 0 else Fits(Half(b), n - 1)
  }

  lemma {:induction false} NoMoreBits(b: bv32, n: nat)
    requires Fits(b, n)
    ensures Number(b, n + 1) == Number(b, n)
    decreases n
  {
    hide Half;
    hide Digit;
    if n == 0 {
      NoDigit();
      assert Number(b, 1) == 2 * Number(Half(b), 0) + Digit(b);
    } else {
      NoMoreBits(Half(b), n - 1);
      assert Number(b, n + 1) == 2 * Number(Half(b), n) + Digit(b);
    }
  }

  lemma NoDigit()
    ensures Digit(0) == 0
  {
  }

  lemma HalfTwice(b: bv32)
    ensures Half(Half(b)) == By2(b)
  {
  }

  lemma TwoTwice(b: bv32)
    ensures By2(By2(b)) == By4(b)
  {
  }

  lemma FourTwice(b: bv32)
    ensures By4(By4(b)) == By8(b)
  {
  }

  lemma EightFourTimes(b: bv32)
    ensures By8(By8(By8(By8(b)))) == 0
  {
  }

  lemma Shifts(b: bv32)
    ensures Half(Half(b)) == By2(b) && By2(By2(b)) == By4(b) && By4(By4(b)) == By8(b)
    ensures By8(By8(By8(By8(b)))) == 0
  {
    hide Half;
    hide By2;
    hide By4;
    hide By8;
    HalfTwice(b);
    TwoTwice(b);
    FourTwice(b);
    EightFourTimes(b);
  }

  lemma FitsTwo(b: bv32, n: nat)
    requires Fits(By2(b), n)
    ensures Fits(b, n + 2)
  {
    hide Half;
    Shifts(b);
    assert Fits(Half(b), n + 1);
  }

  lemma FitsByte(b: bv32, n: nat)
    requires Fits(By8(b), n)
    ensures Fits(b, n + 8)
  {
    hide Fits;
    hide By2;
    hide By4;
    hide By8;
    Shifts(b);
    Shifts(By4(b));
    FitsTwo(By2(By4(b)), n);
    FitsTwo(By4(b), n + 2);
    FitsTwo(By2(b), n + 4);
    FitsTwo(b, n + 6);
  }

  lemma NothingFits()
    ensures Fits(0, 0)
  {
  }

  lemma FitsWord(b: bv32)
    ensures Fits(b, 32)
  {
    hide Fits;
    hide By8;
    Shifts(b);
    NothingFits();
    FitsByte(By8(By8(By8(b))), 0);
    FitsByte(By8(By8(b)), 8);
    FitsByte(By8(b), 16);
    FitsByte(b, 24);
  }

  lemma NumberTwo(b: bv32, n: nat)
    ensures Number(b, n + 2) == 4 * Number(By2(b), n) + 2 * Digit(Half(b)) + Digit(b)
  {
    hide Digit;
    hide Half;
    hide By2;
    Shifts(b);
    assert Number(b, n + 2) == 2 * Number(Half(b), n + 1) + Digit(b);
  }

  function Pair(b: bv32): nat { 2 * Digit(Half(b)) + Digit(b) }

  /** The low byte of a number, and the rest. */
  lemma NumberByte(b: bv32, n: nat)
    ensures Number(b, n + 8) == 256 * Number(By8(b), n) + LowByte(b)
  {
    hide Number;
    hide Digit;
    hide Half;
    hide By2;
    hide By4;
    hide By8;
    Shifts(b);
    Shifts(By4(b));
    NumberTwo(b, n + 6);
    NumberTwo(By2(b), n + 4);
    NumberTwo(By4(b), n + 2);
    NumberTwo(By2(By4(b)), n);
  }

  function LowByte(b: bv32): nat {
    64 * Pair(By2(By4(b))) + 16 * Pair(By4(b)) + 4 * Pair(By2(b)) + Pair(b)
  }

  lemma NoNumber(b: bv32)
    ensures Number(b, 0) == 0
  {
  }

  lemma NumberOfWord(b: bv32)
    ensures Number(b, 32) == LowByte(b) + 256 * LowByte(By8(b)) + 65536 * LowByte(By8(By8(b)))
                             + 0x100_0000 * LowByte(By8(By8(By8(b))))
  {
    hide LowByte;
    hide Number;
    hide By8;
    NumberByte(b, 24);
    NumberByte(By8(b), 16);
    NumberByte(By8(By8(b)), 8);
    NumberByte(By8(By8(By8(b))), 0);
    NoNumber(By8(By8(By8(By8(b)))));
  }

  lemma NumberOfPoly()
    ensures Number(0xEDB8_8320, 32) == POLY
  {
    hide Number;
    NumberOfWord(0xEDB8_8320);
  }

  lemma NumberOfOnes()
    ensures Number(0xFFFF_FFFF, 32) == ONES
  {
    hide Number;
    NumberOfWord(0xFFFF_FFFF);
  }

  lemma NumberOfMagic()
    ensures Number(0xDEBB_20E3, 32) == 0xDEBB_20E3
  {
    hide Number;
    NumberOfWord(0xDEBB_20E3);
  }

  lemma FitsShifted(b: bv32, n: nat)
    requires Fits(b, n + 1)
    ensures Fits(Half(b), n)
  {
    hide Half;
  }

  /** What the step mixes in. */
  function Mixed(b: bv32): bv32 { if b & 1 == 1 then 0xEDB8_8320 else 0 }

  lemma NumberMixed(b: bv32)
    ensures Number(Mixed(b), 32) == if Digit(b) == 1 then POLY else 0
  {
    hide Number;
    NumberOfPoly();
    NumberOfZero(32);
  }

  lemma StepAgrees(b: bv32)
    ensures Number(StepWord(b), 32) == Step(Number(b, 32))
  {
    hide Mix;
    hide Number;
    hide Fits;
    hide Xor;
    hide Half;
    hide Digit;
    hide Mixed;
    NumberMixed(b);
    NumberHalves(b, 32);
    FitsWord(b);
    FitsShifted(b, 31);
    NoMoreBits(Half(b), 31);
    NumberXor(Half(b), Mixed(b), 32);
  }

  function TwoSteps(b: bv32): bv32 { StepWord(StepWord(b)) }

  lemma StepsUnfold(c: nat, n: nat)
    ensures Steps(c, n + 1) == Steps(Step(c), n)
  {
  }

  lemma TwoAgree(b: bv32, n: nat)
    ensures Steps(Number(b, 32), n + 2) == Steps(Number(TwoSteps(b), 32), n)
  {
    hide Number;
    hide Step;
    hide Steps;
    hide StepWord;
    StepAgrees(b);
    StepAgrees(StepWord(b));
    StepsUnfold(Number(b, 32), n + 1);
    StepsUnfold(Number(StepWord(b), 32), n);
  }

  function EightSteps(b: bv32): bv32 { TwoSteps(TwoSteps(TwoSteps(TwoSteps(b)))) }

  lemma EightAgree(b: bv32, n: nat)
    ensures Steps(Number(b, 32), n + 8) == Steps(Number(EightSteps(b), 32), n)
  {
    hide Number;
    hide Steps;
    hide TwoSteps;
    TwoAgree(b, n + 6);
    TwoAgree(TwoSteps(b), n + 4);
    TwoAgree(TwoSteps(TwoSteps(b)), n + 2);
    TwoAgree(TwoSteps(TwoSteps(TwoSteps(b))), n);
  }

  lemma WordRun()
    ensures EightSteps(0xFFFF_FFFF) == 0x2DFD_1072 && EightSteps(0x2DFD_1072) == 0xBE26_ED00
    ensures EightSteps(0xBE26_ED00) == 0x00BE_26ED && EightSteps(0x00BE_26ED) == 0xDEBB_20E3
  {
  }

  lemma NoSteps(c: nat)
    ensures Steps(c, 0) == c
  {
  }

  lemma OnesAfterWord()
    ensures Steps(ONES, 32) == 0xDEBB_20E3
  {
    hide Number;
    hide Steps;
    hide EightSteps;
    NumberOfOnes();
    NumberOfMagic();
    WordRun();
    EightAgree(0xFFFF_FFFF, 24);
    EightAgree(0x2DFD_1072, 16);
    EightAgree(0xBE26_ED00, 8);
    EightAgree(0x00BE_26ED, 0);
    NoSteps(0xDEBB_20E3);
  }

  /** The residue is 2144DF1Ch: the CRC of any block of bytes is that number
      exactly when the last four are the check sequence of the others. */
  lemma ResidueIsMagic(d: seq<byte>, f: seq<byte>)
    requires |f| == 4
    ensures Crc(d + f) == 0x2144_DF1C <==> f == Fcs(d)
  {
    hide Steps;
    hide Crc;
    hide Fcs;
    OnesAfterWord();
    ResidueExact(d, f);
  }
}
