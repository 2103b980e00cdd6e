/** How long the shift register runs before it repeats: exactly 2^32 - 1 steps,
    the polynomial being primitive. What that means for errors of two bits and
    for zeros in front of a frame. */
module CrcPeriod {
  import opened Bytes
  import opened Crc32
  import opened CrcResidue

  /** The register with its top bit set: where the powers of x start. */
  const TOP: word32 := 0x8000_0000

  const PERIOD := 0xFFFF_FFFF

  // ------------------------------------------------- products on integers

  /** k more digits of a multiplier c, least significant first, fed in. */
  function Product(acc: nat, c: nat, b: nat, k: nat): nat
    decreases k
  {
    if k == 0 then acc else Product(Xor(Step(acc), if c % 2 == 1 then b else 0), c / 2, b, k - 1)
  }

  lemma StepZero()
    ensures Step(0) == 0 && Xor(0, 0) == 0
  {
  }

  lemma {:induction false} ZeroStays(n: nat)
    ensures Steps(0, n) == 0
  {
    if n == 0 {
    } else {
      StepZero();
      ZeroStays(n - 1);
    }
  }

  lemma {:induction false} StepsAdd(c: nat, m: nat, n: nat)
    ensures Steps(c, m + n) == Steps(Steps(c, m), n)
    decreases m
  {
    if m == 0 {
    } else {
      StepsAdd(Step(c), m - 1, n);
    }
  }

  lemma LastStep(c: nat, n: nat)
    ensures Steps(Step(c), n) == Step(Steps(c, n))
  {
    StepsAdd(c, 1, n);
    StepsAdd(c, n, 1);
    assert Steps(c, 1) == Step(c) && Steps(Steps(c, n), 1) == Step(Steps(c, n));
  }

  /** Shift steps pass through a product. */
  lemma {:induction false} ProductSteps(acc: nat, c: nat, b: nat, k: nat, n: nat)
    ensures Product(Steps(acc, n), c, Steps(b, n), k) == Steps(Product(acc, c, b, k), n)
    decreases k
  {
    hide Xor;
    hide Step;
    hide Steps;
    if k == 0 {
    } else {
      var m := if c % 2 == 1 then b else 0;
      ZeroStays(n);
      LastStep(acc, n);
      StepsLinear(Step(acc), m, n);
      ProductSteps(Xor(Step(acc), m), c / 2, b, k - 1, n);
    }
  }

  lemma {:induction false} XorNewTop(x: nat, n: nat)
    requires x < Pow2(n)
    ensures Xor(x, Pow2(n)) == x + Pow2(n)
  {
    XorNothing(1);
    hide Xor;
    if n == 0 {
      XorCommutative(0, 1);
    } else {
      var p := Pow2(n - 1);
      HalfBound(x, n);
      hide Pow2;
      XorNewTop(x / 2, n - 1);
      Doubled(p);
      XorHalves(x, 2 * p);
      Reassembled(Xor(x, 2 * p), x, p);
    }
  }

  lemma HalfBound(x: nat, n: nat)
    requires x < Pow2(n) && n > 0
    ensures x / 2 < Pow2(n - 1) && Pow2(n) == 2 * Pow2(n - 1)
  {
  }

  lemma Doubled(p: nat)
    ensures 2 * p / 2 == p && 2 * p % 2 == 0
  {
  }

  lemma Reassembled(r: nat, x: nat, p: nat)
    requires r / 2 == x / 2 + p && r % 2 == x % 2
    ensures r == x + 2 * p
  {
  }

  /** a and k zeros below it. */
  function Lifted(a: nat, k: nat): nat { a * Pow2(k) }

  lemma LiftedHalf(a: nat, k: nat)
    requires k > 0
    ensures Lifted(a, k) == 2 * Lifted(a, k - 1)
  {
    assert a * (2 * Pow2(k - 1)) == 2 * (a * Pow2(k - 1));
  }

  lemma LiftedBound(a: nat, k: nat, m: nat)
    requires a < Pow2(m)
    ensures Lifted(a, k) < Pow2(m + k)
    decreases k
  {
    if k == 0 {
    } else {
      LiftedHalf(a, k);
      LiftedBound(a, k - 1, m);
    }
  }

  lemma {:induction false} LiftedPower(m: nat, k: nat)
    ensures Lifted(Pow2(m), k) == Pow2(m + k)
    decreases k
  {
    if k == 0 {
    } else {
      LiftedHalf(Pow2(m), k);
      LiftedPower(m, k - 1);
    }
  }

  lemma LiftedSum(a: nat, b: nat, k: nat)
    ensures Lifted(a + b, k) == Lifted(a, k) + Lifted(b, k)
  {
  }

  lemma StepEven(x: nat)
    ensures Step(2 * x) == x
  {
  }

  /** One digit fed into what lies at the top of the register. */
  lemma FeedTop(a: nat, k: nat, digit: bool)
    requires 0 < k <= 32 && a < Pow2(32 - k)
    ensures Xor(Step(Lifted(a, k)), if digit then TOP else 0)
            == Lifted(if digit then a + Pow2(32 - k) else a, k - 1)
  {
    TopPower();
    hide Step;
    hide Xor;
    hide Pow2;
    hide Lifted;
    LiftedHalf(a, k);
    StepEven(Lifted(a, k - 1));
    LiftedBound(a, k - 1, 32 - k);
    if digit {
      XorNewTop(Lifted(a, k - 1), 31);
      LiftedPower(32 - k, k - 1);
      LiftedSum(a, Pow2(32 - k), k - 1);
    } else {
      XorNothing(Lifted(a, k - 1));
    }
  }

  lemma TopPower()
    ensures Pow2(31) == TOP
  {
    Pow2Of32();
  }

  lemma {:induction false} ProductOfTop(a: nat, c: nat, k: nat)
    requires k <= 32 && a < Pow2(32 - k) && c < Pow2(k)
    ensures Product(Lifted(a, k), c, TOP, k) == a + Lifted(c, 32 - k)
    decreases k
  {
    hide Xor;
    hide Step;
    hide Lifted;
    if k == 0 {
      LiftedNone(a);
      LiftedNothing(32);
    } else {
      FeedTop(a, k, c % 2 == 1);
      ProductOfTop(if c % 2 == 1 then a + Pow2(32 - k) else a, c / 2, k - 1);
      NextDigit(c, 32 - k);
    }
  }

  lemma LiftedNone(a: nat)
    ensures Lifted(a, 0) == a && Lifted(0, 32) == 0
  {
  }

  lemma LiftedNothing(k: nat)
    ensures Lifted(0, k) == 0
  {
  }

  lemma NextDigit(c: nat, k: nat)
    ensures Lifted(c, k) == (if c % 2 == 1 then Pow2(k) else 0) + Lifted(c / 2, k + 1)
  {
    LiftedHalf(c / 2, k + 1);
    LiftedSum(2 * (c / 2), c % 2, k);
    LiftedSum(c / 2, c / 2, k);
  }

  /** A product by n steps from the top is n steps. */
  lemma ProductIsSteps(c: word32, n: nat)
    ensures Product(0, c, Steps(TOP, n), 32) == Steps(c, n)
  {
    Pow2Of32();
    ZeroStays(n);
    ProductSteps(0, c, TOP, 32, n);
    LiftedNone(0);
    ProductOfTop(0, c, 32);
    LiftedNone(c);
  }

  // ---------------------------------------------------- products on words

  /** x if the lowest bit of d is set, else nothing. */
  function Masked(d: bv32, x: bv32): bv32 { (0 - (d & 1)) & x }

  function Fed(acc: bv32, c: bv32, b: bv32): bv32 {
    Mix(Mix(Half(acc), Masked(acc, 0xEDB8_8320)), Masked(c, b))
  }

  function Fed2(acc: bv32, c: bv32, b: bv32): bv32 { Fed(Fed(acc, c, b), c >> 1, b) }
  function Fed4(acc: bv32, c: bv32, b: bv32): bv32 { Fed2(Fed2(acc, c, b), c >> 2, b) }
  function Fed8(acc: bv32, c: bv32, b: bv32): bv32 { Fed4(Fed4(acc, c, b), c >> 4, b) }
  function Fed16(acc: bv32, c: bv32, b: bv32): bv32 { Fed8(Fed8(acc, c, b), c >> 8, b) }

  function Times(c: bv32, b: bv32): bv32 { Fed16(Fed16(0, c, b), c >> 16, b) }

  lemma MaskedIs(d: bv32, x: bv32)
    ensures Masked(d, x) == if d & 1 == 1 then x else 0
  {
    OneBit(d);
    AllOrNothing(d & 1, x);
  }

  lemma OneBit(x: bv32)
    ensures x & 1 == 0 || x & 1 == 1
  {
  }

  lemma AllOrNothing(e: bv32, x: bv32)
    requires e == 0 || e == 1
    ensures (0 - e) & x == if e == 1 then x else 0
  {
  }

  lemma FedIsStep(acc: bv32, c: bv32, b: bv32)
    ensures Fed(acc, c, b) == Mix(StepWord(acc), Masked(c, b))
  {
    hide Mix;
    hide Half;
    hide Masked;
    MaskedIs(acc, 0xEDB8_8320);
  }

  lemma NumberMasked(c: bv32, b: bv32)
    ensures Number(Masked(c, b), 32) == if Digit(c) == 1 then Number(b, 32) else 0
  {
    hide Number;
    NumberOfZero(32);
    MaskedIs(c, b);
  }

  lemma NumberOfHalf(c: bv32)
    ensures Number(Half(c), 32) == Number(c, 32) / 2 && Number(c, 32) % 2 == Digit(c)
  {
    hide Number;
    hide Fits;
    hide Half;
    hide Digit;
    NumberHalves(c, 32);
    FitsWord(c);
    FitsShifted(c, 31);
    NoMoreBits(Half(c), 31);
  }

  lemma FedAgrees(acc: bv32, c: bv32, b: bv32, n: nat)
    ensures Product(Number(acc, 32), Number(c, 32), Number(b, 32), n + 1)
            == Product(Number(Fed(acc, c, b), 32), Number(c >> 1, 32), Number(b, 32), n)
  {
    hide Number;
    hide Mix;
    hide Step;
    hide Xor;
    hide StepWord;
    hide Digit;
    hide Masked;
    hide Fed;
    FedIsStep(acc, c, b);
    StepAgrees(acc);
    NumberMasked(c, b);
    NumberXor(StepWord(acc), Masked(c, b), 32);
    NumberOfHalf(c);
  }

  lemma Fed2Agrees(acc: bv32, c: bv32, b: bv32, n: nat)
    ensures Product(Number(acc, 32), Number(c, 32), Number(b, 32), n + 2)
            == Product(Number(Fed2(acc, c, b), 32), Number(c >> 2, 32), Number(b, 32), n)
  {
    hide Number;
    hide Product;
    hide Fed;
    FedAgrees(acc, c, b, n + 1);
    FedAgrees(Fed(acc, c, b), c >> 1, b, n);
    assert (c >> 1) >> 1 == c >> 2;
  }

  lemma Fed4Agrees(acc: bv32, c: bv32, b: bv32, n: nat)
    ensures Product(Number(acc, 32), Number(c, 32), Number(b, 32), n + 4)
            == Product(Number(Fed4(acc, c, b), 32), Number(c >> 4, 32), Number(b, 32), n)
  {
    hide Number;
    hide Product;
    hide Fed2;
    Fed2Agrees(acc, c, b, n + 2);
    Fed2Agrees(Fed2(acc, c, b), c >> 2, b, n);
    assert (c >> 2) >> 2 == c >> 4;
  }

  lemma Fed8Agrees(acc: bv32, c: bv32, b: bv32, n: nat)
    ensures Product(Number(acc, 32), Number(c, 32), Number(b, 32), n + 8)
            == Product(Number(Fed8(acc, c, b), 32), Number(c >> 8, 32), Number(b, 32), n)
  {
    hide Number;
    hide Product;
    hide Fed4;
    Fed4Agrees(acc, c, b, n + 4);
    Fed4Agrees(Fed4(acc, c, b), c >> 4, b, n);
    assert (c >> 4) >> 4 == c >> 8;
  }

  lemma Fed16Agrees(acc: bv32, c: bv32, b: bv32, n: nat)
    ensures Product(Number(acc, 32), Number(c, 32), Number(b, 32), n + 16)
            == Product(Number(Fed16(acc, c, b), 32), Number(c >> 16, 32), Number(b, 32), n)
  {
    hide Number;
    hide Product;
    hide Fed8;
    Fed8Agrees(acc, c, b, n + 8);
    Fed8Agrees(Fed8(acc, c, b), c >> 8, b, n);
    assert (c >> 8) >> 8 == c >> 16;
  }

  lemma TimesAgrees(c: bv32, b: bv32)
    ensures Number(Times(c, b), 32) == Product(0, Number(c, 32), Number(b, 32), 32)
  {
    hide Number;
    hide Fed16;
    hide Product;
    NumberOfZero(32);
    Fed16Agrees(0, c, b, 16);
    Fed16Agrees(Fed16(0, c, b), c >> 16, b, 0);
    ProductDone(Number(Times(c, b), 32), Number((c >> 16) >> 16, 32), Number(b, 32));
  }

  lemma ProductDone(acc: nat, c: nat, b: nat)
    ensures Product(acc, c, b, 0) == acc
  {
  }

  // -------------------------------------------------- powers, as literals

  /** n steps from the top lead to w. */
  ghost predicate Leads(n: nat, w: bv32) { Steps(TOP, n) == Number(w, 32) }

  lemma Combined(n: nat, w: bv32, m: nat, v: bv32)
    requires Leads(n, w) && Leads(m, v)
    ensures Leads(n + m, Times(w, v))
  {
    hide Number;
    hide Times;
    hide Product;
    hide Steps;
    TimesAgrees(w, v);
    StepsBound(TOP, n);
    ProductIsSteps(Steps(TOP, n), m);
    StepsAdd(TOP, n, m);
  }

  /** x to the power of 2^j, j from 0 to 31. */
  const SQUARES: seq<bv32> := [
    0x4000_0000, 0x2000_0000, 0x0800_0000, 0x0080_0000,
    0x0000_8000, 0xEDB8_8320, 0xB1E6_B092, 0xA06A_2517,
    0xED62_7DAE, 0x88D1_4467, 0xD7BB_FE6A, 0xEC44_7F11,
    0x8E7E_A170, 0x6427_800E, 0x4D47_BAE0, 0x09FE_548F,
    0x8385_2D0F, 0x3036_2F1A, 0x7B5A_9CC3, 0x31FE_C169,
    0x9FEC_022A, 0x6C8D_EDC4, 0x15D6_874D, 0x5FDE_7A4E,
    0xBAD9_0E37, 0x2E4E_5EEF, 0x4EAB_A214, 0xA8A4_72C0,
    0x429A_969E, 0x148D_302A, 0xC40B_A6D0, 0xC4E2_2C3C]

  lemma Squares0()
    ensures Times(0x4000_0000, 0x4000_0000) == 0x2000_0000
    ensures Times(0x2000_0000, 0x2000_0000) == 0x0800_0000
    ensures Times(0x0800_0000, 0x0800_0000) == 0x0080_0000
    ensures Times(0x0080_0000, 0x0080_0000) == 0x0000_8000
  {
  }

  lemma Squares4()
    ensures Times(0x0000_8000, 0x0000_8000) == 0xEDB8_8320
    ensures Times(0xEDB8_8320, 0xEDB8_8320) == 0xB1E6_B092
  {
  }

  lemma Squares6()
    ensures Times(0xB1E6_B092, 0xB1E6_B092) == 0xA06A_2517
    ensures Times(0xA06A_2517, 0xA06A_2517) == 0xED62_7DAE
  {
  }

  lemma Squares8()
    ensures Times(0xED62_7DAE, 0xED62_7DAE) == 0x88D1_4467
    ensures Times(0x88D1_4467, 0x88D1_4467) == 0xD7BB_FE6A
    ensures Times(0xD7BB_FE6A, 0xD7BB_FE6A) == 0xEC44_7F11
    ensures Times(0xEC44_7F11, 0xEC44_7F11) == 0x8E7E_A170
  {
  }

  lemma Squares12()
    ensures Times(0x8E7E_A170, 0x8E7E_A170) == 0x6427_800E
    ensures Times(0x6427_800E, 0x6427_800E) == 0x4D47_BAE0
    ensures Times(0x4D47_BAE0, 0x4D47_BAE0) == 0x09FE_548F
    ensures Times(0x09FE_548F, 0x09FE_548F) == 0x8385_2D0F
  {
  }

  lemma Squares16()
    ensures Times(0x8385_2D0F, 0x8385_2D0F) == 0x3036_2F1A
    ensures Times(0x3036_2F1A, 0x3036_2F1A) == 0x7B5A_9CC3
    ensures Times(0x7B5A_9CC3, 0x7B5A_9CC3) == 0x31FE_C169
    ensures Times(0x31FE_C169, 0x31FE_C169) == 0x9FEC_022A
  {
  }

  lemma Squares20()
    ensures Times(0x9FEC_022A, 0x9FEC_022A) == 0x6C8D_EDC4
    ensures Times(0x6C8D_EDC4, 0x6C8D_EDC4) == 0x15D6_874D
    ensures Times(0x15D6_874D, 0x15D6_874D) == 0x5FDE_7A4E
    ensures Times(0x5FDE_7A4E, 0x5FDE_7A4E) == 0xBAD9_0E37
  {
  }

  lemma Squares24()
    ensures Times(0xBAD9_0E37, 0xBAD9_0E37) == 0x2E4E_5EEF
    ensures Times(0x2E4E_5EEF, 0x2E4E_5EEF) == 0x4EAB_A214
    ensures Times(0x4EAB_A214, 0x4EAB_A214) == 0xA8A4_72C0
    ensures Times(0xA8A4_72C0, 0xA8A4_72C0) == 0x429A_969E
  {
  }

  lemma Squares28()
    ensures Times(0x429A_969E, 0x429A_969E) == 0x148D_302A
    ensures Times(0x148D_302A, 0x148D_302A) == 0xC40B_A6D0
    ensures Times(0xC40B_A6D0, 0xC40B_A6D0) == 0xC4E2_2C3C
  {
  }

  lemma SquaresFollow(j: nat)
    requires j < 31
    ensures Times(Square(j), Square(j)) == Square(j + 1)
  {
    hide Times;
    Squares0();
    Squares4();
    Squares6();
    Squares8();
    Squares12();
    Squares16();
    Squares20();
    Squares24();
    Squares28();
    if j < 16 {
      assert j in {0, 1, 2, 3, 4, 5, 6, 7, 8, 9, 10, 11, 12, 13, 14, 15};
    } else {
      assert j in {16, 17, 18, 19, 20, 21, 22, 23, 24, 25, 26, 27, 28, 29, 30};
    }
  }

  lemma TopWord()
    ensures Leads(0, 0x8000_0000) && Leads(1, 0x4000_0000)
  {
    hide Number;
    hide Steps;
    NumberOfTop();
    NumberOfNext();
    StepEven(0x4000_0000);
    NoSteps(TOP);
    NoSteps(Step(TOP));
    StepsUnfold(TOP, 0);
    hide Step;
  }

  lemma NumberOfTop()
    ensures Number(0x8000_0000, 32) == 0x8000_0000
  {
    hide Number;
    NumberOfWord(0x8000_0000);
  }

  lemma NumberOfNext()
    ensures Number(0x4000_0000, 32) == 0x4000_0000
  {
    hide Number;
    NumberOfWord(0x4000_0000);
  }

  function Square(j: nat): bv32
    requires j < 32
  {
    SQUARES[j]
  }

  lemma FirstSquare()
    ensures Square(0) == 0x4000_0000 && Pow2(0) == 1
  {
  }

  lemma {:induction false} SquareAt(j: nat)
    requires j < 32
    ensures Leads(Pow2(j), Square(j))
  {
    hide Times;
    hide Leads;
    hide Square;
    if j == 0 {
      TopWord();
      FirstSquare();
    } else {
      SquareAt(j - 1);
      SquaresFollow(j - 1);
      Combined(Pow2(j - 1), Square(j - 1), Pow2(j - 1), Square(j - 1));
    }
  }

  // The powers by which the proper divisors of the period are ruled out: x to
  // multiples of 0101_0101h, of 1111_1111h and of 0001_0001h.

  lemma PowersOfB()
    ensures Times(0x4000_0000, 0xED62_7DAE) == 0x76B1_3ED7 && Times(0x76B1_3ED7, 0x8385_2D0F) == 0xB898_D242
    ensures Times(0xB898_D242, 0xBAD9_0E37) == 0x316B_5BA1
    ensures Times(0x316B_5BA1, 0x316B_5BA1) == 0x5B21_9B1C
    ensures Times(0x5B21_9B1C, 0x5B21_9B1C) == 0xAEBF_57A4
    ensures Times(0xAEBF_57A4, 0xAEBF_57A4) == 0x7DB7_E260
    ensures Times(0x7DB7_E260, 0x7DB7_E260) == 0x0C28_3CA0
  {
  }

  lemma PowersOfA()
    ensures Times(0x0C28_3CA0, 0x316B_5BA1) == 0x3D43_6701
    ensures Times(0x3D43_6701, 0x3D43_6701) == 0xFA75_8C53
    ensures Times(0xFA75_8C53, 0x3D43_6701) == 0x8401_1278
    ensures Times(0xFA75_8C53, 0xFA75_8C53) == 0xBD43_6701
    ensures Times(0xBD43_6701, 0x3D43_6701) == 0xC736_EB52
  {
  }

  lemma PowersOfC()
    ensures Times(0x4000_0000, 0x8385_2D0F) == 0xAC7A_15A7 && Times(0xED62_7DAE, 0xBAD9_0E37) == 0x4630_D51A
  {
  }

  lemma SomePowers()
    ensures Pow2(8) == 0x100 && Pow2(16) == 0x1_0000 && Pow2(24) == 0x100_0000 && Pow2(32) == 0x1_0000_0000
  {
    assert Pow2(8) == 256;
    assert Pow2(16) == 65536;
    assert Pow2(24) == 0x100_0000;
  }

  lemma LeadsB()
    ensures Leads(0x0101_0101, 0x316B_5BA1) && Leads(0x1010_1010, 0x0C28_3CA0)
  {
    hide Times;
    hide Leads;
    PowersOfB();
    SomePowers();
    SquareAt(0);
    SquareAt(8);
    SquareAt(16);
    SquareAt(24);
    Combined(0x1, Square(0), 0x100, Square(8));
    Combined(0x101, 0x76B1_3ED7, 0x1_0000, Square(16));
    Combined(0x1_0101, 0xB898_D242, 0x100_0000, Square(24));
    Combined(0x0101_0101, 0x316B_5BA1, 0x0101_0101, 0x316B_5BA1);
    Combined(0x0202_0202, 0x5B21_9B1C, 0x0202_0202, 0x5B21_9B1C);
    Combined(0x0404_0404, 0xAEBF_57A4, 0x0404_0404, 0xAEBF_57A4);
    Combined(0x0808_0808, 0x7DB7_E260, 0x0808_0808, 0x7DB7_E260);
  }

  lemma LeadsA()
    ensures Leads(0x3333_3333, 0x8401_1278) && Leads(0x5555_5555, 0xC736_EB52)
  {
    hide Times;
    hide Leads;
    PowersOfA();
    LeadsB();
    Combined(0x1010_1010, 0x0C28_3CA0, 0x0101_0101, 0x316B_5BA1);
    Combined(0x1111_1111, 0x3D43_6701, 0x1111_1111, 0x3D43_6701);
    Combined(0x2222_2222, 0xFA75_8C53, 0x1111_1111, 0x3D43_6701);
    Combined(0x2222_2222, 0xFA75_8C53, 0x2222_2222, 0xFA75_8C53);
    Combined(0x4444_4444, 0xBD43_6701, 0x1111_1111, 0x3D43_6701);
  }

  lemma LeadsC()
    ensures Leads(0x1_0001, 0xAC7A_15A7) && Leads(0x100_0100, 0x4630_D51A)
    ensures Leads(0x1, 0x4000_0000) && Leads(0x1_0000, 0x8385_2D0F)
  {
    hide Times;
    hide Leads;
    PowersOfC();
    SomePowers();
    SquareAt(0);
    SquareAt(8);
    SquareAt(16);
    SquareAt(24);
    Combined(0x1, Square(0), 0x1_0000, Square(16));
    Combined(0x100, Square(8), 0x100_0000, Square(24));
  }

  lemma OnesLow()
    ensures Times(0x2000_0000, 0x0800_0000) == 0x0200_0000
    ensures Times(0x0200_0000, 0xEDB8_8320) == 0xEE0E_612C
    ensures Times(0xEE0E_612C, 0xB1E6_B092) == 0x2EF6_2886
    ensures Times(0x2EF6_2886, 0x8E7E_A170) == 0x34FF_12D0
    ensures Times(0x34FF_12D0, 0x09FE_548F) == 0x6D4A_987C
  {
  }

  lemma OnesHigh()
    ensures Times(0x6D4A_987C, 0x7B5A_9CC3) == 0x950C_EB49
    ensures Times(0x950C_EB49, 0x15D6_874D) == 0xFE7A_4550
    ensures Times(0xFE7A_4550, 0xA8A4_72C0) == 0x0834_45B2
    ensures Times(0x0834_45B2, 0x429A_969E) == 0x8CA1_C0B4
    ensures Times(0x8CA1_C0B4, 0x148D_302A) == 0x7092_02C9
    ensures Times(0x7092_02C9, 0xC4E2_2C3C) == 0xFFFF_FFFF
  {
  }

  lemma AllPowers()
    ensures Pow2(1) == 2 && Pow2(2) == 4 && Pow2(5) == 0x20 && Pow2(6) == 0x40 && Pow2(12) == 0x1000
    ensures Pow2(15) == 0x8000 && Pow2(18) == 0x4_0000 && Pow2(22) == 0x40_0000 && Pow2(27) == 0x800_0000
    ensures Pow2(28) == 0x1000_0000 && Pow2(29) == 0x2000_0000 && Pow2(31) == 0x8000_0000
  {
    SomePowers();
    assert Pow2(12) == 0x1000;
    assert Pow2(20) == 0x10_0000;
    assert Pow2(28) == 0x1000_0000;
  }

  /** The register as it starts, all ones, is on the cycle from the top. */
  lemma OnesOnCycle()
    ensures Steps(TOP, 0xB844_9066) == ONES
  {
    hide Times;
    hide Leads;
    hide Pow2;
    AllPowers();
    OnesLow();
    OnesHigh();
    SquareAt(1);
    SquareAt(2);
    SquareAt(5);
    SquareAt(6);
    SquareAt(12);
    SquareAt(15);
    SquareAt(18);
    SquareAt(22);
    SquareAt(27);
    SquareAt(28);
    SquareAt(29);
    SquareAt(31);
    Combined(0x2, 0x2000_0000, 0x4, 0x0800_0000);
    Combined(0x6, 0x0200_0000, 0x20, 0xEDB8_8320);
    Combined(0x26, 0xEE0E_612C, 0x40, 0xB1E6_B092);
    Combined(0x66, 0x2EF6_2886, 0x1000, 0x8E7E_A170);
    Combined(0x1066, 0x34FF_12D0, 0x8000, 0x09FE_548F);
    Combined(0x9066, 0x6D4A_987C, 0x4_0000, 0x7B5A_9CC3);
    Combined(0x4_9066, 0x950C_EB49, 0x40_0000, 0x15D6_874D);
    Combined(0x44_9066, 0xFE7A_4550, 0x800_0000, 0xA8A4_72C0);
    Combined(0x844_9066, 0x0834_45B2, 0x1000_0000, 0x429A_969E);
    Combined(0x1844_9066, 0x8CA1_C0B4, 0x2000_0000, 0x148D_302A);
    Combined(0x3844_9066, 0x7092_02C9, 0x8000_0000, 0xC4E2_2C3C);
    LeadsToOnes();
  }

  lemma LeadsToOnes()
    requires Leads(0xB844_9066, 0xFFFF_FFFF)
    ensures Steps(TOP, 0xB844_9066) == ONES
  {
    hide Number;
    hide Steps;
    NumberOfOnes();
  }

}
