/** The frame check sequence of IEEE Std 802.3, section 3.2.9, computed by the
    controller model with a reflected 32-bit shift register. */
module Crc32 {
  import opened Bytes

  type word32 = x: int | 0 <= x < 0x1_0000_0000

  const POLY: word32 := 0xEDB8_8320
  const ONES: word32 := 0xFFFF_FFFF

  // ------------------------------------------------------- the shift register

  /** One turn of the inner loop. */
  function Step(c: nat): nat {
    Xor(c / 2, if c % 2 == 1 then POLY else 0)
  }

  function Steps(c: nat, n: nat): nat
    decreases n
  {
    if n == 0 then c else Steps(Step(c), n - 1)
  }

  function Run(c: nat, data: seq<byte>): nat {
    if data == [] then c else Steps(Xor(Run(c, data[..|data| - 1]), data[|data| - 1]), 8)
  }

  lemma Pow2Of32()
    ensures Pow2(32) == 0x1_0000_0000 && Pow2(31) == 0x8000_0000 && Pow2(8) == 256
  {
    assert Pow2(8) == 256;
    assert Pow2(16) == 65536;
    assert Pow2(24) == 0x100_0000;
  }

  lemma StepBound(c: word32)
    ensures Step(c) < 0x1_0000_0000
  {
    Pow2Of32();
    XorBound(c / 2, if c % 2 == 1 then POLY else 0, 32);
  }

  lemma {:induction false} StepsBound(c: word32, n: nat)
    ensures Steps(c, n) < 0x1_0000_0000
    decreases n
  {
    if n == 0 {
    } else {
      StepBound(c);
      StepsBound(Step(c), n - 1);
    }
  }

  lemma XorWord(a: word32, b: word32)
    ensures Xor(a, b) < 0x1_0000_0000
  {
    Pow2Of32();
    XorBound(a, b, 32);
  }

  lemma {:induction false} RunBound(c: word32, data: seq<byte>)
    ensures Run(c, data) < 0x1_0000_0000
  {
    if data == [] {
    } else {
      var d := data[..|data| - 1];
      RunBound(c, d);
      XorWord(Run(c, d), data[|data| - 1]);
      StepsBound(Xor(Run(c, d), data[|data| - 1]), 8);
    }
  }

  /** The CRC of every frame followed by its own check sequence. */
  function Residue(): word32 {
    StepsBound(ONES, 32);
    ONES - Steps(ONES, 32)
  }

  function Crc(data: seq<byte>): word32 {
    RunBound(ONES, data);
    ONES - Run(ONES, data)
  }

  /** The word shifted right by k bytes. */
  function ShiftedRight(c: word32, k: nat): word32
    requires k < 4
  {
    if k == 0 then c else if k == 1 then c / 0x100 else if k == 2 then c / 0x1_0000 else c / 0x100_0000
  }

  /** The four bytes the controller appends to a frame: the CRC, low byte first. */
  function Fcs(data: seq<byte>): (f: seq<byte>)
    ensures |f| == 4
  {
    WordBytes(Crc(data))
  }

  function WordBytes(c: word32): (f: seq<byte>)
    ensures |f| == 4
  {
    seq(4, k requires 0 <= k < 4 => ShiftedRight(c, k) % 256)
  }

  lemma MaskedStep(c: nat)
    ensures Xor(c / 2, POLY * (c % 2)) == Step(c)
  {
  }

  /** The loops of the source compute Crc. */
  method ComputeCrc(data: seq<byte>) returns (crc: word32)
    ensures crc == Crc(data)
  {
    hide Xor;
    hide Step;
    crc := ONES;
    var i := 0;
    while i < |data|
      invariant 0 <= i <= |data|
      invariant crc == Run(ONES, data[..i])
    {
      assert data[..i + 1][..i] == data[..i];
      XorWord(crc, data[i]);
      crc := Xor(crc, data[i]);
      ghost var start := crc;
      var b := 0;
      while b < 8
        invariant 0 <= b <= 8
        invariant Steps(crc, 8 - b) == Steps(start, 8)
      {
        StepBound(crc);
        MaskedStep(crc);
        crc := Xor(crc / 2, POLY * (crc % 2));
        b := b + 1;
      }
      i := i + 1;
    }
    assert data[..i] == data;
    crc := ONES - crc;
  }

  // ---------------------------------------------------- linear and injective

  lemma XorFour(a: nat, b: nat, p: nat, q: nat)
    ensures Xor(Xor(a, b), Xor(p, q)) == Xor(Xor(a, p), Xor(b, q))
  {
    XorAssociative(a, b, Xor(p, q));
    XorAssociative(b, p, q);
    XorCommutative(b, p);
    XorAssociative(p, b, q);
    XorAssociative(a, p, Xor(b, q));
  }

  lemma StepLinear(a: nat, b: nat)
    ensures Step(Xor(a, b)) == Xor(Step(a), Step(b))
  {
    XorHalves(a, b);
    var p := if a % 2 == 1 then POLY else 0;
    var q := if b % 2 == 1 then POLY else 0;
    XorSelf(POLY);
    assert Step(Xor(a, b)) == Xor(Xor(a / 2, b / 2), Xor(p, q));
    XorFour(a / 2, b / 2, p, q);
  }

  /** n shift steps are linear over exclusive or. */
  lemma {:induction false} StepsLinear(a: nat, b: nat, n: nat)
    ensures Steps(Xor(a, b), n) == Xor(Steps(a, n), Steps(b, n))
    decreases n
  {
    if n == 0 {
    } else {
      StepLinear(a, b);
      StepsLinear(Step(a), Step(b), n - 1);
    }
  }

  /** A shift step loses nothing: the bit shifted out decides the new top bit. */
  lemma StepInjective(a: word32, b: word32)
    requires Step(a) == Step(b)
    ensures a == b
  {
    if a % 2 == b % 2 {
      XorCancel(a / 2, b / 2, if a % 2 == 1 then POLY else 0);
    } else {
      MixedStep(if a % 2 == 1 then a / 2 else b / 2, if a % 2 == 1 then b / 2 else a / 2);
    }
  }

  lemma MixedStep(x: nat, y: nat)
    requires x < 0x8000_0000 && y < 0x8000_0000
    ensures Xor(x, POLY) != y
  {
    if Xor(x, POLY) == y {
      XorAssociative(x, x, POLY);
      XorSelf(x);
      Pow2Of32();
      XorBound(x, y, 31);
      assert false;
    }
  }

  lemma {:induction false} StepsInjective(a: word32, b: word32, n: nat)
    requires Steps(a, n) == Steps(b, n)
    ensures a == b
    decreases n
  {
    if n == 0 {
    } else {
      StepBound(a);
      StepBound(b);
      StepsInjective(Step(a), Step(b), n - 1);
      StepInjective(a, b);
    }
  }

  // ------------------------------------------------------------- bit by bit

  function AsNat(b: bool): nat { if b then 1 else 0 }

  /** The register after feeding bits one at a time. */
  function RunBits(c: nat, bits: seq<bool>): nat
    decreases bits
  {
    if bits == [] then c else RunBits(Step(Xor(c, AsNat(bits[0]))), bits[1..])
  }

  /** The number whose binary digits, least significant first, are bits. */
  function NumberOf(bits: seq<bool>): (n: nat)
    ensures n < Pow2(|bits|)
  {
    if bits == [] then 0 else 2 * NumberOf(bits[1..]) + AsNat(bits[0])
  }

  /** The n low bits of x, least significant first: the order of the wire. */
  function BitsOf(x: nat, n: nat): (bits: seq<bool>)
    ensures |bits| == n
    decreases n
  {
    if n == 0 then [] else [x % 2 == 1] + BitsOf(x / 2, n - 1)
  }

  function AllBits(data: seq<byte>): (bits: seq<bool>)
    ensures |bits| == 8 * |data|
  {
    if data == [] then [] else AllBits(data[..|data| - 1]) + BitsOf(data[|data| - 1], 8)
  }

  lemma {:induction false} NumberOfBits(x: nat, n: nat)
    requires x < Pow2(n)
    ensures NumberOf(BitsOf(x, n)) == x
    decreases n
  {
    if n == 0 {
    } else {
      NumberOfBits(x / 2, n - 1);
    }
  }

  lemma {:induction false} NumberInjective(u: seq<bool>, v: seq<bool>)
    requires |u| == |v| && NumberOf(u) == NumberOf(v)
    ensures u == v
  {
    if u == [] {
    } else {
      NumberInjective(u[1..], v[1..]);
    }
  }

  lemma XorDouble(p: nat, b: bool)
    ensures Xor(AsNat(b), 2 * p) == 2 * p + AsNat(b)
    ensures Step(2 * p) == p
  {
    assert p != 0 && b ==> Xor(0, p) == p;
  }

  lemma XorNothing(c: nat)
    ensures Xor(c, 0) == c
  {
  }

  /** Feeding bits one at a time equals mixing them all in first: the register
      is long enough to hold back what has not been shifted out yet. */
  lemma {:induction false} BitsMixFirst(c: nat, bits: seq<bool>)
    ensures RunBits(c, bits) == Steps(Xor(c, NumberOf(bits)), |bits|)
    decreases bits
  {
    XorNothing(c);
    hide Xor;
    hide Step;
    if bits == [] {
    } else {
      var b, p := AsNat(bits[0]), NumberOf(bits[1..]);
      BitsMixFirst(Step(Xor(c, b)), bits[1..]);
      XorDouble(p, bits[0]);
      XorAssociative(c, b, 2 * p);
      StepLinear(Xor(c, b), 2 * p);
    }
  }

  lemma {:induction false} RunBitsAppend(c: nat, u: seq<bool>, v: seq<bool>)
    ensures RunBits(c, u + v) == RunBits(RunBits(c, u), v)
    decreases u
  {
    if u == [] {
      assert u + v == v;
    } else {
      assert (u + v)[1..] == u[1..] + v;
      RunBitsAppend(Step(Xor(c, AsNat(u[0]))), u[1..], v);
    }
  }

  /** The byte loop is the bit machine on the bits of the data. */
  lemma {:induction false} RunIsBits(c: nat, data: seq<byte>)
    ensures Run(c, data) == RunBits(c, AllBits(data))
  {
    if data == [] {
    } else {
      var d, x := data[..|data| - 1], data[|data| - 1];
      RunIsBits(c, d);
      RunBitsAppend(c, AllBits(d), BitsOf(x, 8));
      BitsMixFirst(RunBits(c, AllBits(d)), BitsOf(x, 8));
      Pow2Of32();
      NumberOfBits(x, 8);
    }
  }

  lemma {:induction false} RunBitsBound(c: word32, bits: seq<bool>)
    ensures RunBits(c, bits) < 0x1_0000_0000
    decreases bits
  {
    if bits == [] {
    } else {
      XorWord(c, AsNat(bits[0]));
      StepBound(Xor(c, AsNat(bits[0])));
      RunBitsBound(Step(Xor(c, AsNat(bits[0]))), bits[1..]);
    }
  }

  lemma {:induction false} RunBitsInjective(a: word32, b: word32, bits: seq<bool>)
    requires RunBits(a, bits) == RunBits(b, bits)
    ensures a == b
    decreases bits
  {
    if bits == [] {
    } else {
      var w := AsNat(bits[0]);
      XorWord(a, w);
      XorWord(b, w);
      StepBound(Xor(a, w));
      StepBound(Xor(b, w));
      RunBitsInjective(Step(Xor(a, w)), Step(Xor(b, w)), bits[1..]);
      StepInjective(Xor(a, w), Xor(b, w));
      XorCancel(a, b, w);
    }
  }

  /** From one register value, two different runs of at most 32 bits lead to
      two different register values. */
  lemma ShortRunsDiffer(c: word32, u: seq<bool>, v: seq<bool>)
    requires |u| == |v| <= 32 && u != v
    ensures RunBits(c, u) != RunBits(c, v)
  {
    if RunBits(c, u) == RunBits(c, v) {
      BitsMixFirst(c, u);
      BitsMixFirst(c, v);
      ShortNumber(u);
      ShortNumber(v);
      XorWord(c, NumberOf(u));
      XorWord(c, NumberOf(v));
      StepsInjective(Xor(c, NumberOf(u)), Xor(c, NumberOf(v)), |u|);
      XorCommutative(c, NumberOf(u));
      XorCommutative(c, NumberOf(v));
      XorCancel(NumberOf(u), NumberOf(v), c);
      NumberInjective(u, v);
    }
  }

  lemma ShortNumber(u: seq<bool>)
    requires |u| <= 32
    ensures NumberOf(u) < 0x1_0000_0000
  {
    Pow2Grows(|u|, 32);
    Pow2Of32();
  }

  // ------------------------------------------------------------ main results

  lemma {:induction false} AllBitsAppend(a: seq<byte>, b: seq<byte>)
    ensures AllBits(a + b) == AllBits(a) + AllBits(b)
    decreases b
  {
    hide BitsOf;
    if b == [] {
      assert a + b == a;
    } else {
      var d := b[..|b| - 1];
      assert (a + b)[..|a + b| - 1] == a + d;
      AllBitsAppend(a, d);
    }
  }

  lemma {:induction false} AllBitsInjective(a: seq<byte>, b: seq<byte>)
    requires |a| == |b| && AllBits(a) == AllBits(b)
    ensures a == b
  {
    hide BitsOf;
    hide NumberOf;
    if a == [] {
    } else {
      var n := |a| - 1;
      SameEnds(AllBits(a[..n]), BitsOf(a[n], 8), AllBits(b[..n]), BitsOf(b[n], 8));
      AllBitsInjective(a[..n], b[..n]);
      ByteFromBits(a[n]);
      ByteFromBits(b[n]);
      assert a == a[..n] + [a[n]] && b == b[..n] + [b[n]];
    }
  }

  lemma SameEnds<T>(p: seq<T>, q: seq<T>, r: seq<T>, s: seq<T>)
    requires |p| == |r| && p + q == r + s
    ensures p == r && q == s
  {
    assert p == (p + q)[..|p|] && r == (r + s)[..|p|];
    assert q == (p + q)[|p|..] && s == (r + s)[|p|..];
  }

  lemma ByteFromBits(x: byte)
    ensures NumberOf(BitsOf(x, 8)) == x
  {
    Pow2Of32();
    NumberOfBits(x, 8);
  }

  /** Any error burst confined to 32 consecutive bits of the wire, at any bit
      offset, changes the CRC. */
  lemma BurstDetected(a: seq<byte>, b: seq<byte>, lo: nat, hi: nat)
    requires |a| == |b| && a != b
    requires lo <= hi <= 8 * |a| && hi - lo <= 32
    requires AllBits(a)[..lo] == AllBits(b)[..lo] && AllBits(a)[hi..] == AllBits(b)[hi..]
    ensures Crc(a) != Crc(b)
  {
    var x, y := AllBits(a), AllBits(b);
    var u, v := x[lo..hi], y[lo..hi];
    assert x == x[..lo] + u + x[hi..] && y == x[..lo] + v + x[hi..];
    if u == v { AllBitsInjective(a, b); }
    var c := RunBits(ONES, x[..lo]);
    RunBitsBound(ONES, x[..lo]);
    ShortRunsDiffer(c, u, v);
    RunBitsBound(c, u);
    RunBitsBound(c, v);
    RunIsBits(ONES, a);
    RunIsBits(ONES, b);
    RunBitsAppend(ONES, x[..lo] + u, x[hi..]);
    RunBitsAppend(ONES, x[..lo] + v, x[hi..]);
    RunBitsAppend(ONES, x[..lo], u);
    RunBitsAppend(ONES, x[..lo], v);
    if RunBits(RunBits(c, u), x[hi..]) == RunBits(RunBits(c, v), x[hi..]) {
      RunBitsInjective(RunBits(c, u), RunBits(c, v), x[hi..]);
    }
  }

  /** The same for whole bytes: frames that differ only inside four
      consecutive bytes have different check sequences. */
  lemma FourBytesDetected(a: seq<byte>, b: seq<byte>, i: nat)
    requires |a| == |b| && a != b && i <= |a|
    requires a[..i] == b[..i]
    requires i + 4 <= |a| ==> a[i + 4..] == b[i + 4..]
    ensures Crc(a) != Crc(b) && Fcs(a) != Fcs(b)
  {
    var j := if i + 4 <= |a| then i + 4 else |a|;
    assert a[j..] == b[j..];
    Cut(a, i, j);
    Cut(b, i, j);
    BurstDetected(a, b, 8 * i, 8 * j);
    WordValueOfBytes(Crc(a));
    WordValueOfBytes(Crc(b));
  }

  lemma Cut(a: seq<byte>, i: nat, j: nat)
    requires i <= j <= |a|
    ensures AllBits(a)[..8 * i] == AllBits(a[..i]) && AllBits(a)[8 * j..] == AllBits(a[j..])
  {
    hide AllBits;
    CutAt(a, i);
    CutAt(a, j);
  }

  lemma CutAt(a: seq<byte>, i: nat)
    requires i <= |a|
    ensures AllBits(a)[..8 * i] == AllBits(a[..i]) && AllBits(a)[8 * i..] == AllBits(a[i..])
  {
    hide AllBits;
    assert a == a[..i] + a[i..];
    AllBitsAppend(a[..i], a[i..]);
  }

  function WordValue(f: seq<byte>): word32
    requires |f| == 4
  {
    var b0: int, b1: int, b2: int, b3: int := f[0], f[1], f[2], f[3];
    b0 + 0x100 * b1 + 0x1_0000 * b2 + 0x100_0000 * b3
  }

  lemma WordValueOfBytes(c: word32)
    ensures WordValue(WordBytes(c)) == c
  {
    var q1, q2 := c / 0x100, c / 0x1_0000;
    assert q1 / 0x100 == q2 && q2 / 0x100 == c / 0x100_0000;
  }

  lemma BytesOfValue(f: seq<byte>)
    requires |f| == 4
    ensures WordBytes(WordValue(f)) == f
  {
    var c := WordValue(f);
    var b0: int, b1: int, b2: int, b3: int := f[0], f[1], f[2], f[3];
    assert c / 0x100 == b1 + 0x100 * b2 + 0x1_0000 * b3;
    assert c / 0x1_0000 == b2 + 0x100 * b3;
    assert c / 0x100_0000 == b3;
  }

  lemma DoubleProduct(x: nat, p: nat, n: nat)
    ensures 2 * (x + p * n) == 2 * x + (2 * p) * n
  {
  }

  lemma {:induction false} NumberAppend(x: nat, n: nat, v: seq<bool>)
    requires x < Pow2(n)
    ensures NumberOf(BitsOf(x, n) + v) == x + Pow2(n) * NumberOf(v)
    decreases n
  {
    if n == 0 {
      assert BitsOf(x, n) + v == v;
    } else {
      assert (BitsOf(x, n) + v)[1..] == BitsOf(x / 2, n - 1) + v;
      NumberAppend(x / 2, n - 1, v);
      DoubleProduct(x / 2, Pow2(n - 1), NumberOf(v));
    }
  }

  lemma NumberOfByte(x: byte, rest: seq<byte>)
    ensures NumberOf(AllBits([x] + rest)) == x + 256 * NumberOf(AllBits(rest))
  {
    AllBitsAppend([x], rest);
    AllBitsOne(x);
    Pow2Of32();
    NumberAppend(x, 8, AllBits(rest));
  }

  lemma NumberOfFour(f: seq<byte>)
    requires |f| == 4
    ensures NumberOf(AllBits(f)) == WordValue(f)
  {
    assert f == [f[0]] + ([f[1]] + ([f[2]] + ([f[3]] + [])));
    NumberOfByte(f[3], []);
    NumberOfByte(f[2], [f[3]] + []);
    NumberOfByte(f[1], [f[2]] + ([f[3]] + []));
    NumberOfByte(f[0], [f[1]] + ([f[2]] + ([f[3]] + [])));
  }

  lemma AllBitsOne(x: byte)
    ensures AllBits([x]) == BitsOf(x, 8)
  {
    assert AllBits([]) + BitsOf(x, 8) == BitsOf(x, 8);
  }

  lemma {:induction false} XorComplement(x: nat, n: nat)
    requires x < Pow2(n)
    ensures Xor(x, Pow2(n) - 1 - x) == Pow2(n) - 1
    decreases n
  {
    if n == 0 {
    } else {
      XorComplement(x / 2, n - 1);
      XorHalves(x, Pow2(n) - 1 - x);
    }
  }

  lemma ComplementUnique(r: word32, w: word32)
    ensures Xor(r, w) == ONES <==> w == ONES - r
  {
    Pow2Of32();
    XorComplement(r, 32);
    XorCommutative(r, w);
    XorCommutative(r, ONES - r);
    if Xor(r, w) == ONES { XorCancel(w, ONES - r, r); }
  }

  /** The register after a block whose last four bytes are f. */
  lemma RunWithTail(d: seq<byte>, f: seq<byte>)
    requires |f| == 4
    ensures Run(ONES, d + f) == Steps(Xor(Run(ONES, d), WordValue(f)), 32)
  {
    RunIsBits(ONES, d + f);
    RunIsBits(ONES, d);
    AllBitsAppend(d, f);
    RunBitsAppend(ONES, AllBits(d), AllBits(f));
    BitsMixFirst(Run(ONES, d), AllBits(f));
    NumberOfFour(f);
  }

  lemma SameAfterOnes(x: word32)
    ensures Steps(x, 32) == Steps(ONES, 32) <==> x == ONES
  {
    if Steps(x, 32) == Steps(ONES, 32) { StepsInjective(x, ONES, 32); }
  }

  lemma ResidueWord(d: seq<byte>, f: seq<byte>)
    requires |f| == 4
    ensures Crc(d + f) == Residue() <==> WordValue(f) == Crc(d)
  {
    var r, w := Run(ONES, d), WordValue(f);
    RunBound(ONES, d);
    XorWord(r, w);
    RunWithTail(d, f);
    SameAfterOnes(Xor(r, w));
    ComplementUnique(r, w);
  }

  lemma SameWord(f: seq<byte>, c: word32)
    requires |f| == 4
    ensures WordValue(f) == c <==> f == WordBytes(c)
  {
    BytesOfValue(f);
    WordValueOfBytes(c);
  }

  /** A block of bytes ends in the check sequence of the bytes before it
      exactly when the CRC of the whole block is one constant, the residue. */
  lemma ResidueExact(d: seq<byte>, f: seq<byte>)
    requires |f| == 4
    ensures Crc(d + f) == Residue() <==> f == Fcs(d)
  {
    ResidueWord(d, f);
    SameWord(f, Crc(d));
  }
}
