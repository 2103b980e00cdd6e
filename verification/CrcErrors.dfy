/** What the start value and the period of the shift register mean for frames:
    the first four bytes are complemented, zeros in front are noticed, and so
    are any two wrong bits closer together than the period. */
module CrcErrors {
  import opened Bytes
  import opened Crc32
  import opened CrcResidue
  import opened CrcPeriod
  import opened Primes

  // ------------------------------------------------ the first word inverted

  function Complement(d: seq<byte>): (c: seq<byte>)
    ensures |c| == |d|
  {
    seq(|d|, i requires 0 <= i < |d| => 255 - d[i])
  }

  lemma RunAppend(c: nat, a: seq<byte>, b: seq<byte>)
    ensures Run(c, a + b) == Run(Run(c, a), b)
  {
    RunIsBits(c, a + b);
    RunIsBits(c, a);
    RunIsBits(Run(c, a), b);
    AllBitsAppend(a, b);
    RunBitsAppend(c, AllBits(a), AllBits(b));
  }

  lemma RunFour(c: nat, f: seq<byte>)
    requires |f| == 4
    ensures Run(c, f) == Steps(Xor(c, WordValue(f)), 32)
  {
    RunIsBits(c, f);
    BitsMixFirst(c, AllBits(f));
    NumberOfFour(f);
  }

  lemma ComplementedWord(f: seq<byte>)
    requires |f| == 4
    ensures Xor(ONES, WordValue(f)) == Xor(0, WordValue(Complement(f)))
  {
    var w := WordValue(f);
    assert WordValue(Complement(f)) == ONES - w;
    hide WordValue;
    ComplementUnique(w, ONES - w);
    XorAssociative(w, w, ONES - w);
    XorSelf(w);
    XorCommutative(ONES, w);
    hide Xor;
    assert Xor(Xor(w, w), ONES - w) == Xor(w, ONES);
  }

  /** The check sequence is that of a register started at 0 and fed the frame
      with its first 32 bits complemented, itself complemented. */
  lemma FirstWordComplemented(d: seq<byte>)
    requires |d| >= 4
    ensures Crc(d) == ONES - Run(0, Complement(d[..4]) + d[4..])
  {
    hide Run;
    hide Steps;
    hide Xor;
    hide WordValue;
    hide Complement;
    assert d == d[..4] + d[4..];
    RunAppend(ONES, d[..4], d[4..]);
    RunAppend(0, Complement(d[..4]), d[4..]);
    RunFour(ONES, d[..4]);
    RunFour(0, Complement(d[..4]));
    ComplementedWord(d[..4]);
  }

  // -------------------------------------------------------------- the period

  /** n steps lead from the top back to it. */
  predicate Repeats(n: nat) { Steps(TOP, n) == TOP }

  lemma RepeatsAfter(a: nat, b: nat)
    requires Repeats(a)
    ensures Repeats(a + b) <==> Repeats(b)
  {
    StepsAdd(TOP, a, b);
  }

  lemma {:induction false} RepeatsMultiple(a: nat, k: nat)
    requires Repeats(a)
    ensures Repeats(a * k)
    decreases k
  {
    hide Repeats;
    if k == 0 {
      RepeatsNone();
    } else {
      assert a * k == a + a * (k - 1);
      RepeatsMultiple(a, k - 1);
      RepeatsAfter(a, a * (k - 1));
    }
  }

  lemma RepeatsNone()
    ensures Repeats(0)
  {
  }

  lemma RepeatsMod(a: nat, n: nat)
    requires a > 0 && Repeats(a) && Repeats(n)
    ensures Repeats(n % a)
  {
    hide Repeats;
    DivMod(n, a);
    RepeatsMultiple(a, n / a);
    RepeatsAfter(a * (n / a), n % a);
  }

  /** Steps that lead from one word on the cycle to a different one. */
  lemma Apart(a: nat, w: bv32, n: nat, v: bv32)
    requires Leads(a, w) && Leads(a + n, v) && w != v
    ensures !Repeats(n)
  {
    StepsAdd(TOP, n, a);
    NumbersDiffer(w, v);
    hide Number;
  }

  lemma NumbersDiffer(w: bv32, v: bv32)
    requires w != v
    ensures Number(w, 32) != Number(v, 32)
  {
    if Number(w, 32) == Number(v, 32) {
      hide Number;
      hide Fits;
      hide Mix;
      XorSelf(Number(w, 32));
      NumberXor(w, v, 32);
      FitsWord(Mix(w, v));
      NumberZero(Mix(w, v), 32);
      MixZero(w, v);
    }
  }

  lemma MixZero(w: bv32, v: bv32)
    requires Mix(w, v) == 0
    ensures w == v
  {
  }

  lemma {:induction false} NumberZero(x: bv32, n: nat)
    requires Fits(x, n) && Number(x, n) == 0
    ensures x == 0
    decreases n
  {
    hide Half;
    hide Digit;
    if n == 0 {
    } else {
      NumberZero(Half(x), n - 1);
      NothingLeft(x);
    }
  }

  lemma NothingLeft(x: bv32)
    requires Half(x) == 0 && Digit(x) == 0
    ensures x == 0
  {
  }

  lemma PeriodRepeats()
    ensures Repeats(PERIOD)
  {
    hide Number;
    hide Times;
    hide Steps;
    SomePowers();
    hide Pow2;
    TopWord();
    SquareAt(31);
    LastSquare();
    Combined(0x8000_0000, 0xC4E2_2C3C, 0x8000_0000, 0xC4E2_2C3C);
    StepsAdd(TOP, PERIOD, 1);
    StepsBound(TOP, PERIOD);
    StepsInjective(Steps(TOP, PERIOD), TOP, 1);
  }

  lemma LastSquare()
    ensures Square(31) == 0xC4E2_2C3C && Pow2(31) == 0x8000_0000
    ensures Times(0xC4E2_2C3C, 0xC4E2_2C3C) == 0x4000_0000
  {
    AllPowers();
  }

  /** Not after the period divided by any of its prime factors. */
  lemma ProperFactors()
    ensures !Repeats(0xFFFF) && !Repeats(0xFF_00FF) && !Repeats(0x0F0F_0F0F)
    ensures !Repeats(0x3333_3333) && !Repeats(0x5555_5555)
  {
    hide Leads;
    hide Repeats;
    TopWord();
    LeadsA();
    LeadsB();
    LeadsC();
    Apart(0x1, 0x4000_0000, 0xFFFF, 0x8385_2D0F);
    Apart(0x1_0001, 0xAC7A_15A7, 0xFF_00FF, 0x4630_D51A);
    Apart(0x0101_0101, 0x316B_5BA1, 0x0F0F_0F0F, 0x0C28_3CA0);
    Apart(0, 0x8000_0000, 0x3333_3333, 0x8401_1278);
    Apart(0, 0x8000_0000, 0x5555_5555, 0xC736_EB52);
  }

  predicate Divides(g: nat, n: nat) { g > 0 && n % g == 0 }

  /** A common divisor of two numbers of steps that repeat, repeating too. */
  lemma {:induction false} CommonRepeats(a: nat, b: nat) returns (g: nat)
    requires a > 0 && Repeats(a) && Repeats(b)
    ensures Divides(g, a) && Divides(g, b) && Repeats(g)
    decreases b
  {
    hide Repeats;
    if b == 0 {
      QuotientIs(a, a, 1, 0);
      QuotientIs(0, a, 0, 0);
      g := a;
    } else {
      RepeatsMod(b, a);
      g := CommonRepeats(b, a % b);
      DivMod(a, b);
      DividesSum(g, b, a / b, a % b);
    }
  }

  lemma DividesSum(g: nat, b: nat, k: nat, r: nat)
    requires Divides(g, b) && Divides(g, r)
    ensures Divides(g, b * k + r)
  {
    DivMod(b, g);
    DivMod(r, g);
    MulThree(g, b / g, k);
    QuotientIs(b * k + r, g, b / g * k + r / g, 0);
  }

  /** A divisor of the period that repeats is the period. */
  lemma OnlyThePeriod(g: nat)
    requires Divides(g, PERIOD) && Repeats(g)
    ensures g == PERIOD
  {
    hide Repeats;
    var q := PERIOD / g;
    DivMod(PERIOD, g);
    ProperFactors();
    NotAFactor(g, q, 3, 0x5555_5555);
    NotAFactor(g, q, 5, 0x3333_3333);
    NotAFactor(g, q, 17, 0x0F0F_0F0F);
    NotAFactor(g, q, 257, 0xFF_00FF);
    NotAFactor(g, q, 65537, 0xFFFF);
    NoPrimeLeft(q, g);
  }

  lemma NotAFactor(g: nat, q: nat, p: nat, e: nat)
    requires g * q == p * e && p > 0 && Repeats(g) && !Repeats(e)
    ensures q % p != 0
  {
    hide Repeats;
    if q % p == 0 {
      DivMod(q, p);
      RepeatsMultiple(g, q / p);
      MulThree(g, p, q / p);
      MulThree(p, g, q / p);
      SameFactor(p, g * (q / p), e);
    }
  }

  /** The register is back at its top bit after exactly the multiples of the
      period: the polynomial is primitive. */
  lemma PeriodExact(n: nat)
    ensures Steps(TOP, n) == TOP <==> n % PERIOD == 0
  {
    hide Steps;
    PeriodRepeats();
    if Repeats(n) {
      var g := CommonRepeats(PERIOD, n);
      OnlyThePeriod(g);
    } else if n % PERIOD == 0 {
      DivMod(n, PERIOD);
      RepeatsMultiple(PERIOD, n / PERIOD);
    }
  }

  /** And so is any word the top leads to. */
  lemma CycleExact(j: nat, c: word32, n: nat)
    requires Steps(TOP, j) == c
    ensures Steps(c, n) == c <==> n % PERIOD == 0
  {
    hide Steps;
    StepsAdd(TOP, j, n);
    StepsAdd(TOP, n, j);
    StepsBound(TOP, n);
    PeriodExact(n);
    if Steps(c, n) == c { StepsInjective(Steps(TOP, n), TOP, j); }
  }

  // ------------------------------------------------------- zeros in front

  function NoData(k: nat): (z: seq<byte>) { seq(k, _ => 0) }

  lemma {:induction false} RunZeros(c: nat, k: nat)
    ensures Run(c, NoData(k)) == Steps(c, 8 * k)
  {
    hide Steps;
    if k == 0 {
      NoSteps(c);
    } else {
      assert NoData(k)[..k - 1] == NoData(k - 1);
      RunZeros(c, k - 1);
      XorNothing(Steps(c, 8 * (k - 1)));
      StepsAdd(c, 8 * (k - 1), 8);
    }
  }

  lemma RunInjective(a: word32, b: word32, d: seq<byte>)
    requires Run(a, d) == Run(b, d)
    ensures a == b
  {
    RunIsBits(a, d);
    RunIsBits(b, d);
    RunBitsInjective(a, b, AllBits(d));
  }

  lemma EightTimes(k: nat)
    ensures 8 * k % PERIOD == 0 <==> k % PERIOD == 0
  {
    DivMod(k, PERIOD);
    if k % PERIOD == 0 { QuotientIs(8 * k, PERIOD, 8 * (k / PERIOD), 0); }
    if 8 * k % PERIOD == 0 {
      DivMod(8 * k, PERIOD);
      QuotientIs(k, PERIOD, 0x2000_0000 * (8 * k / PERIOD) - k, 0);
    }
  }

  /** Zero bytes put in front of a frame change its check sequence, unless they
      are a multiple of 2^32 - 1: the register does not start at 0. */
  lemma LeadingZeros(k: nat, d: seq<byte>)
    ensures Crc(NoData(k) + d) == Crc(d) <==> k % PERIOD == 0
  {
    hide Run;
    hide Steps;
    hide NoData;
    RunAppend(ONES, NoData(k), d);
    RunZeros(ONES, k);
    StepsBound(ONES, 8 * k);
    RunBound(ONES, d);
    RunBound(Steps(ONES, 8 * k), d);
    if Run(Steps(ONES, 8 * k), d) == Run(ONES, d) { RunInjective(Steps(ONES, 8 * k), ONES, d); }
    OnesOnCycle();
    CycleExact(0xB844_9066, ONES, 8 * k);
    EightTimes(k);
  }

  // ------------------------------------------------------- two wrong bits

  /** A difference of registers goes through the same bits unmixed. */
  lemma {:induction false} DifferenceRuns(c: nat, e: nat, bits: seq<bool>)
    ensures RunBits(Xor(c, e), bits) == Xor(RunBits(c, bits), Steps(e, |bits|))
    decreases bits
  {
    hide Xor;
    hide Step;
    if bits == [] {
    } else {
      var b := AsNat(bits[0]);
      XorAssociative(c, e, b);
      XorCommutative(e, b);
      XorAssociative(c, b, e);
      StepLinear(Xor(c, b), e);
      DifferenceRuns(Step(Xor(c, b)), Step(e), bits[1..]);
    }
  }

  lemma {:induction false} PowerDown(k: nat)
    ensures Steps(Pow2(k), k) == 1
  {
    if k == 0 {
    } else {
      StepEven(Pow2(k - 1));
      PowerDown(k - 1);
    }
  }

  lemma OneOnCycle()
    ensures Steps(TOP, 31) == 1
  {
    TopPower();
    PowerDown(31);
    hide Steps;
    hide Pow2;
  }

  lemma Flipped(c: nat, b: bool)
    ensures Xor(c, AsNat(!b)) == Xor(Xor(c, AsNat(b)), 1)
  {
    XorAssociative(c, AsNat(b), 1);
    assert Xor(AsNat(b), 1) == AsNat(!b);
  }

  lemma FirstBit(c: nat, b: bool, rest: seq<bool>)
    ensures RunBits(c, [b] + rest) == RunBits(Step(Xor(c, AsNat(b))), rest)
  {
    assert ([b] + rest)[1..] == rest;
  }

  lemma LastBit(s: nat, mid: seq<bool>, q: bool)
    ensures RunBits(s, mid + [q]) == Step(Xor(RunBits(s, mid), AsNat(q)))
  {
    RunBitsAppend(s, mid, [q]);
    FirstBit(RunBits(s, mid), q, []);
    assert [q] + [] == [q];
  }

  lemma SameAfterFlip(m: word32, e: word32, q: bool)
    ensures Step(Xor(m, AsNat(q))) == Step(Xor(Xor(m, e), AsNat(!q))) <==> e == 1
  {
    XorSelf(1);
    hide Xor;
    hide Step;
    var a, b := Xor(m, AsNat(q)), Xor(Xor(m, e), AsNat(!q));
    XorWord(m, AsNat(q));
    XorWord(m, e);
    XorWord(Xor(m, e), AsNat(!q));
    Flipped(Xor(m, e), q);
    XorAssociative(m, e, AsNat(q));
    XorCommutative(e, AsNat(q));
    XorAssociative(m, AsNat(q), e);
    XorAssociative(a, e, 1);
    assert b == Xor(a, Xor(e, 1));
    XorNothing(a);
    if Step(a) == Step(b) {
      StepInjective(a, b);
      XorCommutative(a, Xor(e, 1));
      XorCommutative(a, 0);
      XorCancel(Xor(e, 1), 0, a);
      XorCancel(e, 1, 1);
    }
  }

  /** One register, two bits wrong: p, and q behind the bits between. */
  lemma TwoFlips(c: word32, p: bool, mid: seq<bool>, q: bool)
    ensures RunBits(c, [p] + (mid + [q])) == RunBits(c, [!p] + (mid + [!q])) <==> (|mid| + 1) % PERIOD == 0
  {
    hide Xor;
    hide Step;
    hide Steps;
    hide RunBits;
    var s, n := Step(Xor(c, AsNat(p))), |mid|;
    FirstBit(c, p, mid + [q]);
    FirstBit(c, !p, mid + [!q]);
    Flipped(c, p);
    StepLinear(Xor(c, AsNat(p)), 1);
    assert Step(Xor(c, AsNat(!p))) == Xor(s, Step(1));
    LastBit(s, mid, q);
    LastBit(Xor(s, Step(1)), mid, !q);
    DifferenceRuns(s, Step(1), mid);
    StepsUnfold(1, n);
    XorWord(c, AsNat(p));
    StepBound(Xor(c, AsNat(p)));
    RunBitsBound(s, mid);
    StepsBound(1, n + 1);
    SameAfterFlip(RunBits(s, mid), Steps(1, n + 1), q);
    OneOnCycle();
    CycleExact(31, 1, n + 1);
  }

  /** The bits from i to j, both of those two flipped or neither. */
  function Stretch(x: seq<bool>, i: nat, j: nat, wrong: bool): seq<bool>
    requires i < j < |x|
  {
    [x[i] != wrong] + (x[i + 1..j] + [x[j] != wrong])
  }

  lemma StretchOf(x: seq<bool>, y: seq<bool>, i: nat, j: nat)
    requires |x| == |y| && i < j < |x|
    requires forall k :: 0 <= k < |x| ==> (x[k] != y[k] <==> k == i || k == j)
    ensures x == x[..i] + (Stretch(x, i, j, false) + x[j + 1..])
    ensures y == x[..i] + (Stretch(x, i, j, true) + x[j + 1..])
  {
  }

  lemma StretchFlips(c: word32, x: seq<bool>, i: nat, j: nat)
    requires i < j < |x|
    ensures RunBits(c, Stretch(x, i, j, false)) == RunBits(c, Stretch(x, i, j, true)) <==> (j - i) % PERIOD == 0
  {
    hide RunBits;
    TwoFlips(c, x[i], x[i + 1..j], x[j]);
  }

  /** Two wrong bits anywhere in a frame change its check sequence, unless they
      lie a multiple of 2^32 - 1 bits apart. */
  lemma TwoBitErrors(a: seq<byte>, b: seq<byte>, i: nat, j: nat)
    requires |a| == |b| && i < j < 8 * |a|
    requires forall k :: 0 <= k < 8 * |a| ==> (AllBits(a)[k] != AllBits(b)[k] <==> k == i || k == j)
    ensures Crc(a) == Crc(b) <==> (j - i) % PERIOD == 0
  {
    hide AllBits;
    hide RunBits;
    hide Run;
    hide Crc;
    hide Stretch;
    var x := AllBits(a);
    StretchOf(x, AllBits(b), i, j);
    var c, u, v, s := RunBits(ONES, x[..i]), Stretch(x, i, j, false), Stretch(x, i, j, true), x[j + 1..];
    RunBitsBound(ONES, x[..i]);
    StretchFlips(c, x, i, j);
    Through(a, x[..i], u, s);
    Through(b, x[..i], v, s);
    RunBitsBound(c, u);
    RunBitsBound(c, v);
    SameBehind(RunBits(c, u), RunBits(c, v), s);
    SameCrc(a, b);
  }

  lemma SameBehind(r: word32, t: word32, s: seq<bool>)
    ensures RunBits(r, s) == RunBits(t, s) <==> r == t
  {
    if RunBits(r, s) == RunBits(t, s) { RunBitsInjective(r, t, s); }
  }

  lemma SameCrc(a: seq<byte>, b: seq<byte>)
    ensures Crc(a) == Crc(b) <==> Run(ONES, a) == Run(ONES, b)
  {
    RunBound(ONES, a);
    RunBound(ONES, b);
  }

  lemma Through(a: seq<byte>, p: seq<bool>, u: seq<bool>, s: seq<bool>)
    requires AllBits(a) == p + (u + s)
    ensures Run(ONES, a) == RunBits(RunBits(RunBits(ONES, p), u), s)
  {
    RunIsBits(ONES, a);
    RunBitsAppend(ONES, p, u + s);
    RunBitsAppend(RunBits(ONES, p), u, s);
  }
}
