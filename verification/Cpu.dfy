/** The state of the 8051 core as a value, its stack and its byte registers. */
module Cpu {
  import opened Bytes

  type Ram = s: seq<byte> | |s| == 128 witness seq(128, _ => 0)
  type PerLevel = s: seq<byte> | |s| == 2 witness [0, 0]
  type SerialLog = s: seq<byte> | |s| == 18 witness seq(18, _ => 0)

  type LogIndex = i: int | 0 <= i < 18

  datatype Exception =
    | StackFault
    | RetiPswMismatch
    | RetiSpMismatch
    | RetiAccMismatch

  // Special function registers, as offsets from 80h.
  const P0 := 0x00
  const SP := 0x01
  const PCON := 0x07
  const TCON := 0x08
  const TMOD := 0x09
  const TL0 := 0x0A
  const TL1 := 0x0B
  const TH0 := 0x0C
  const TH1 := 0x0D
  const P1 := 0x10
  const SCON := 0x18
  const SBUF := 0x19
  const P2 := 0x20
  const IE := 0x28
  const P3 := 0x30
  const IP := 0x38
  const PSW := 0x50
  const ACC := 0x60

  /** Everything the core keeps but its code memory: the SFRs, the lower and,
      where the part has it, the upper internal RAM, and the bookkeeping of
      interrupts, serial output and exceptions raised. */
  datatype Cpu = Cpu(
    sfr: Ram, lower: Ram, upper: Option<Ram>, pc: word, tickDelay: byte,
    active: byte, intA: PerLevel, intPsw: PerLevel, intSp: PerLevel,
    serialOut: SerialLog, outIdx: LogIndex, remaining: byte, serialIrq: bool,
    raised: seq<Exception>)

  function Set(c: Cpu, r: nat, v: byte): Cpu
    requires r < 128
  {
    c.(sfr := c.sfr[r := v])
  }

  function Raise(c: Cpu, e: Exception): Cpu { c.(raised := c.raised + [e]) }

  const BAD_VALUE: byte := 0x77

  // ------------------------------------------------------------- the stack

  /** A stack byte that has no RAM behind it. */
  predicate Lost(c: Cpu, a: byte) { a > 0x7F && c.upper.None? }

  function ReadIndirect(c: Cpu, a: byte): byte {
    if a <= 0x7F then c.lower[a]
    else if c.upper.Some? then c.upper.value[a - 0x80]
    else BAD_VALUE
  }

  function WriteIndirect(c: Cpu, a: byte, v: byte): Cpu {
    if a <= 0x7F then c.(lower := c.lower[a := v])
    else if c.upper.Some? then c.(upper := Some(c.upper.value[a - 0x80 := v]))
    else c
  }

  function Push(c: Cpu, v: byte): Cpu {
    var sp := Inc(c.sfr[SP]);
    var c := Set(c, SP, sp);
    var c := if Lost(c, sp) then Raise(c, StackFault) else WriteIndirect(c, sp, v);
    if sp == 0 then Raise(c, StackFault) else c
  }

  function Pop(c: Cpu): (Cpu, byte) {
    var sp := c.sfr[SP];
    var v := if Lost(c, sp) then BAD_VALUE else ReadIndirect(c, sp);
    var c := if Lost(c, sp) then Raise(c, StackFault) else c;
    var c := Set(c, SP, Dec(sp));
    (if sp == 0 then Raise(c, StackFault) else c, v)
  }

  function PushAll(c: Cpu, bytes: seq<byte>): Cpu {
    if bytes == [] then c else Push(PushAll(c, bytes[..|bytes| - 1]), bytes[|bytes| - 1])
  }

  /** How many of the stack addresses 1 to n are bad ones: address 0, counting on
      modulo 256, and without upper RAM 80h to FFh. */
  function BadAddresses(hasUpper: bool, n: nat): nat {
    if hasUpper then n / 256 else n / 256 * 129 + if n % 256 > 127 then n % 256 - 127 else 0
  }

  function Faults(k: nat): seq<Exception> { seq(k, _ => StackFault) }

  lemma OneMoreAddress(hasUpper: bool, n: nat)
    ensures BadAddresses(hasUpper, n + 1) ==
            BadAddresses(hasUpper, n) + (if !hasUpper && (n + 1) % 256 > 127 then 1 else 0)
            + (if (n + 1) % 256 == 0 then 1 else 0)
  {
    NextQuotient(n, 256);
  }

  lemma {:induction false} BadGrows(hasUpper: bool, m: nat, n: nat)
    requires m <= n
    ensures BadAddresses(hasUpper, m) <= BadAddresses(hasUpper, n)
    decreases n
  {
    hide BadAddresses;
    if m == n {
    } else {
      BadGrows(hasUpper, m, n - 1);
      OneMoreAddress(hasUpper, n - 1);
    }
  }

  lemma PushRaises(c: Cpu, v: byte)
    ensures var r := Push(c, v);
            && r.sfr[SP] == Inc(c.sfr[SP]) && r.upper.Some? == c.upper.Some?
            && r.raised == c.raised + Faults((if c.upper.None? && r.sfr[SP] > 127 then 1 else 0)
                                             + (if r.sfr[SP] == 0 then 1 else 0))
  {
  }

  /** Any number of pushes: SP goes round modulo 256, and the stack exception is
      raised once for every bad address it comes to. */
  lemma {:induction false} PushesRaise(c: Cpu, bytes: seq<byte>)
    ensures var r := PushAll(c, bytes);
            var from, to := c.sfr[SP], c.sfr[SP] + |bytes|;
            && r.sfr[SP] == to % 256 && r.upper.Some? == c.upper.Some?
            && BadAddresses(c.upper.Some?, from) <= BadAddresses(c.upper.Some?, to)
            && r.raised == c.raised + Faults(BadAddresses(c.upper.Some?, to) - BadAddresses(c.upper.Some?, from))
    decreases bytes
  {
    hide Push;
    hide BadAddresses;
    BadGrows(c.upper.Some?, c.sfr[SP], c.sfr[SP] + |bytes|);
    if bytes == [] {
    } else {
      var n := |bytes| - 1;
      PushesRaise(c, bytes[..n]);
      PushRaises(PushAll(c, bytes[..n]), bytes[n]);
      OneMoreAddress(c.upper.Some?, c.sfr[SP] + n);
      NextQuotient(c.sfr[SP] + n, 256);
      BadGrows(c.upper.Some?, c.sfr[SP], c.sfr[SP] + n);
    }
  }

  /** n pops: the core after them, and the bytes in the order they come. */
  function PopAll(c: Cpu, n: nat): (r: (Cpu, seq<byte>))
    ensures |r.1| == n
    decreases n
  {
    if n == 0 then (c, [])
    else
      var (d, v) := Pop(c);
      var (e, rest) := PopAll(d, n - 1);
      (e, [v] + rest)
  }

  /** The address i places up the stack. */
  function Place(sp: byte, i: nat): byte { (sp as int + i) % 256 }

  /** What a byte pushed to an address comes back as. */
  function Kept(c: Cpu, a: byte, v: byte): byte { if Lost(c, a) then BAD_VALUE else v }

  predicate Stacked(c: Cpu, sp: byte, bytes: seq<byte>) {
    forall i :: 0 <= i < |bytes| ==> ReadIndirect(c, Place(sp, i + 1)) == Kept(c, Place(sp, i + 1), bytes[i])
  }

  lemma PushStores(c: Cpu, v: byte)
    ensures var r := Push(c, v);
            && ReadIndirect(r, Inc(c.sfr[SP])) == Kept(c, Inc(c.sfr[SP]), v)
            && r.upper.Some? == c.upper.Some?
            && forall a: byte :: a != Inc(c.sfr[SP]) ==> ReadIndirect(r, a) == ReadIndirect(c, a)
  {
  }

  lemma PlacesApart(sp: byte, i: nat, j: nat)
    requires i < j < i + 256
    ensures Place(sp, i) != Place(sp, j)
  {
  }

  lemma {:induction false} PushesStack(c: Cpu, bytes: seq<byte>)
    requires |bytes| <= 256
    ensures Stacked(PushAll(c, bytes), c.sfr[SP], bytes)
    decreases bytes
  {
    hide Push;
    hide ReadIndirect;
    hide Lost;
    if bytes == [] {
    } else {
      var n, sp := |bytes| - 1, c.sfr[SP];
      var m := PushAll(c, bytes[..n]);
      PushesStack(c, bytes[..n]);
      PushesRaise(c, bytes[..n]);
      PushStores(m, bytes[n]);
      SameLost(m, Push(m, bytes[n]));
      NextQuotient(sp + n, 256);
      assert Inc(m.sfr[SP]) == Place(sp, n + 1);
      forall i | 0 <= i < n
        ensures ReadIndirect(Push(m, bytes[n]), Place(sp, i + 1)) == Kept(m, Place(sp, i + 1), bytes[i])
      {
        PlacesApart(sp, i + 1, n + 1);
        assert bytes[..n][i] == bytes[i];
      }
    }
  }

  lemma SameLost(c: Cpu, d: Cpu)
    requires d.upper.Some? == c.upper.Some?
    ensures forall a: byte :: Lost(d, a) == Lost(c, a)
  {
  }

  lemma PopTakes(c: Cpu)
    ensures var (r, v) := Pop(c);
            && v == ReadIndirect(c, c.sfr[SP]) && r.sfr[SP] == Dec(c.sfr[SP])
            && r.lower == c.lower && r.upper == c.upper
            && r.raised == c.raised + Faults((if c.upper.None? && c.sfr[SP] > 127 then 1 else 0)
                                             + (if c.sfr[SP] == 0 then 1 else 0))
  {
  }

  /** The bytes read off the stack, last one first. */
  predicate ComesBack(c: Cpu, sp: byte, bytes: seq<byte>, out: seq<byte>) {
    && |out| == |bytes|
    && forall i :: 0 <= i < |bytes| ==> out[|bytes| - 1 - i] == Kept(c, Place(sp, i + 1), bytes[i])
  }

  lemma OneMoreBack(c: Cpu, d: Cpu, sp: byte, bytes: seq<byte>, v: byte, rest: seq<byte>)
    requires bytes != [] && d.upper.Some? == c.upper.Some?
    requires v == Kept(c, Place(sp, |bytes|), bytes[|bytes| - 1])
    requires ComesBack(d, sp, bytes[..|bytes| - 1], rest)
    ensures ComesBack(c, sp, bytes, [v] + rest)
  {
    hide Place;
    SameLost(c, d);
    hide Lost;
    var n := |bytes| - 1;
    forall i | 0 <= i < |bytes| ensures ([v] + rest)[n - i] == Kept(c, Place(sp, i + 1), bytes[i]) {
      if i < n { assert rest[n - 1 - i] == Kept(d, Place(sp, i + 1), bytes[..n][i]); }
    }
  }

  lemma TopOfStack(c: Cpu, d: Cpu, sp: byte, bytes: seq<byte>)
    requires bytes != [] && Stacked(c, sp, bytes) && d.lower == c.lower && d.upper == c.upper
    ensures ReadIndirect(c, Place(sp, |bytes|)) == Kept(c, Place(sp, |bytes|), bytes[|bytes| - 1])
    ensures Stacked(d, sp, bytes[..|bytes| - 1])
  {
    SameMemory(c, d);
    SameLost(c, d);
    hide ReadIndirect;
    hide Lost;
    var n := |bytes| - 1;
    assert ReadIndirect(c, Place(sp, n + 1)) == Kept(c, Place(sp, n + 1), bytes[n]);
  }

  lemma StackDown(sp: byte, n: nat)
    ensures Dec(Place(sp, n + 1)) == Place(sp, n)
  {
    NextQuotient(sp + n, 256);
  }

  lemma {:induction false} PopsStack(c: Cpu, sp: byte, bytes: seq<byte>)
    requires Stacked(c, sp, bytes) && c.sfr[SP] == Place(sp, |bytes|)
    ensures var (r, out) := PopAll(c, |bytes|);
            && r.sfr[SP] == sp && ComesBack(c, sp, bytes, out)
            && BadAddresses(c.upper.Some?, sp) <= BadAddresses(c.upper.Some?, sp + |bytes|)
            && r.raised == c.raised + Faults(BadAddresses(c.upper.Some?, sp + |bytes|)
                                             - BadAddresses(c.upper.Some?, sp))
    decreases bytes
  {
    hide Pop;
    hide Stacked;
    hide ComesBack;
    hide Inc;
    hide Dec;
    hide BadAddresses;
    BadGrows(c.upper.Some?, sp, sp + |bytes|);
    if bytes == [] {
      NothingBack(c, sp);
    } else {
      var n := |bytes| - 1;
      var (d, v) := Pop(c);
      PopTakes(c);
      TopOfStack(c, d, sp, bytes);
      StackDown(sp, n);
      hide ReadIndirect;
      hide Kept;
      hide Place;
      PopsStack(d, sp, bytes[..n]);
      OneMoreBack(c, d, sp, bytes, v, PopAll(d, n).1);
      BadHere(c, sp, n);
      BadGrows(c.upper.Some?, sp, sp + n);
    }
  }

  lemma BadHere(c: Cpu, sp: byte, n: nat)
    ensures BadAddresses(c.upper.Some?, sp + (n + 1)) ==
            BadAddresses(c.upper.Some?, sp + n) + (if c.upper.None? && Place(sp, n + 1) > 127 then 1 else 0)
            + (if Place(sp, n + 1) == 0 then 1 else 0)
  {
    OneMoreAddress(c.upper.Some?, sp + n);
    hide BadAddresses;
  }

  lemma NothingBack(c: Cpu, sp: byte)
    ensures ComesBack(c, sp, [], []) && Place(sp, 0) == sp
  {
  }

  lemma SameMemory(c: Cpu, d: Cpu)
    requires d.lower == c.lower && d.upper == c.upper
    ensures forall a: byte :: ReadIndirect(d, a) == ReadIndirect(c, a)
  {
  }

  /** As many pops as pushes, up to 256: the bytes come back last one first, 77h
      for each that had no RAM; SP is where it was, and every bad address has
      raised the stack exception twice. */
  lemma PopsUndoPushes(c: Cpu, bytes: seq<byte>)
    requires |bytes| <= 256
    ensures var (r, out) := PopAll(PushAll(c, bytes), |bytes|);
            var bad := BadAddresses(c.upper.Some?, c.sfr[SP] + |bytes|) - BadAddresses(c.upper.Some?, c.sfr[SP]);
            && r.sfr[SP] == c.sfr[SP] && ComesBack(c, c.sfr[SP], bytes, out)
            && bad >= 0 && r.raised == c.raised + Faults(2 * bad)
  {
    hide PopAll;
    hide PushAll;
    hide BadAddresses;
    hide Stacked;
    hide ComesBack;
    hide Faults;
    var m, sp := PushAll(c, bytes), c.sfr[SP];
    PushesStack(c, bytes);
    PushesRaise(c, bytes);
    TopPlace(c, bytes);
    hide Place;
    PopsStack(m, sp, bytes);
    SameBack(c, m, sp, bytes, PopAll(m, |bytes|).1);
    TwiceRaised(c.raised, BadAddresses(c.upper.Some?, sp + |bytes|) - BadAddresses(c.upper.Some?, sp));
  }

  lemma TopPlace(c: Cpu, bytes: seq<byte>)
    ensures PushAll(c, bytes).sfr[SP] == Place(c.sfr[SP], |bytes|)
  {
    hide BadAddresses;
    PushesRaise(c, bytes);
    hide PushAll;
  }

  lemma TwiceRaised(before: seq<Exception>, k: nat)
    ensures before + Faults(k) + Faults(k) == before + Faults(2 * k)
  {
  }

  lemma SameBack(c: Cpu, d: Cpu, sp: byte, bytes: seq<byte>, out: seq<byte>)
    requires d.upper.Some? == c.upper.Some?
    ensures ComesBack(d, sp, bytes, out) <==> ComesBack(c, sp, bytes, out)
  {
    SameLost(c, d);
    hide Lost;
    hide Place;
  }

  // ---------------------------------------------------------------- parity

  function Ones(x: nat): nat {
    if x == 0 then 0 else x % 2 + Ones(x / 2)
  }

  lemma OnesHalve(x: nat)
    ensures Ones(x) == x % 2 + Ones(x / 2) && Ones(0) == 0
  {
  }

  lemma OneMoreBit(z: nat, a: nat, b: nat, i: nat, j: nat)
    requires i < 2 && j < 2 && z % 2 == (a + b) % 2
    ensures ((if i != j then 1 else 0) + z) % 2 == (i + a + (j + b)) % 2
  {
  }

  lemma {:induction false} OnesOfXor(x: nat, y: nat)
    ensures Ones(Xor(x, y)) % 2 == (Ones(x) + Ones(y)) % 2
    decreases x + y
  {
    hide Ones;
    hide Xor;
    XorZero();
    OnesHalve(x);
    OnesHalve(y);
    OnesHalve(Xor(x, y));
    if x == 0 && y == 0 {
    } else {
      OnesOfXor(x / 2, y / 2);
      XorHalves(x, y);
      OneMoreBit(Ones(Xor(x / 2, y / 2)), Ones(x / 2), Ones(y / 2), x % 2, y % 2);
    }
  }

  lemma LowHalf(x: nat, p: nat)
    requires p > 0
    ensures x % (2 * p) == 2 * (x / 2 % p) + x % 2
  {
    DivMod(x / 2, p);
    var q := x / 2 / p;
    assert x == 2 * (p * q) + (2 * (x / 2 % p) + x % 2);
    QuotientIs(x, 2 * p, q, 2 * (x / 2 % p) + x % 2);
  }

  lemma LowParts(x: nat, p: nat)
    requires p > 0
    ensures x % (2 * p) % 2 == x % 2 && x % (2 * p) / 2 == x / 2 % p
  {
    LowHalf(x, p);
  }

  lemma {:induction false} OnesSplit(x: nat, q: nat, r: nat, k: nat)
    requires r < Pow2(k) && x == Pow2(k) * q + r
    ensures Ones(x) == Ones(q) + Ones(r)
    decreases k
  {
    hide Ones;
    OnesHalve(x);
    OnesHalve(r);
    if k == 0 {
    } else {
      HalfProduct(Pow2(k - 1), q, r);
      OnesSplit(x / 2, q, r / 2, k - 1);
    }
  }

  lemma HalfProduct(p: nat, q: nat, r: nat)
    ensures (2 * p * q + r) / 2 == p * q + r / 2 && (2 * p * q + r) % 2 == r % 2
  {
    assert 2 * p * q + r == 2 * (p * q) + r;
  }

  lemma XorZero()
    ensures Xor(0, 0) == 0
  {
  }

  lemma {:induction false} XorLow(x: nat, y: nat, k: nat)
    ensures Xor(x, y) % Pow2(k) == Xor(x % Pow2(k), y % Pow2(k))
    decreases k
  {
    hide Xor;
    XorZero();
    if k == 0 {
    } else {
      var p := Pow2(k - 1);
      XorLow(x / 2, y / 2, k - 1);
      LowHalf(Xor(x, y), p);
      LowParts(x, p);
      LowParts(y, p);
      XorHalves(x, y);
      XorHalves(x % Pow2(k), y % Pow2(k));
    }
  }

  lemma NibbleTable(v: nat)
    requires v < 16
    ensures 0x6996 / Pow2(v) % 2 == Ones(v) % 2
  {
    NibblePowers();
    NibbleOnes();
    hide Pow2;
    hide Ones;
    if v < 8 { assert v in {0, 1, 2, 3, 4, 5, 6, 7}; } else { assert v in {8, 9, 10, 11, 12, 13, 14, 15}; }
  }

  lemma NibblePowers()
    ensures Pow2(0) == 1 && Pow2(1) == 2 && Pow2(2) == 4 && Pow2(3) == 8
    ensures Pow2(4) == 16 && Pow2(5) == 32 && Pow2(6) == 64 && Pow2(7) == 128
    ensures Pow2(8) == 256 && Pow2(9) == 512 && Pow2(10) == 1024 && Pow2(11) == 2048
    ensures Pow2(12) == 4096 && Pow2(13) == 8192 && Pow2(14) == 16384 && Pow2(15) == 32768
  {
  }

  lemma NibbleOnes()
    ensures Ones(0) == 0 && Ones(1) == 1 && Ones(2) == 1 && Ones(3) == 2
    ensures Ones(4) == 1 && Ones(5) == 2 && Ones(6) == 2 && Ones(7) == 3
    ensures Ones(8) == 1 && Ones(9) == 2 && Ones(10) == 2 && Ones(11) == 3
    ensures Ones(12) == 2 && Ones(13) == 3 && Ones(14) == 3 && Ones(15) == 4
  {
  }

  /** The core's way to parity: the nibbles of ACC folded by exclusive or, and
      the fold looked up in 6996h. */
  lemma ParityFold(a: byte)
    ensures 0x6996 / Pow2(Xor(a, a / 16) % 16) % 2 == Ones(a) % 2
  {
    hide Xor;
    hide Ones;
    assert Pow2(4) == 16;
    OnesSplit(a, a / 16, a % 16, 4);
    XorLow(a, a / 16, 4);
    OnesOfXor(a % 16, a / 16);
    NibbleTable(Xor(a, a / 16) % 16);
  }

  /** The P flag follows ACC: even parity over the nine bits. */
  predicate ParityOk(c: Cpu) { c.sfr[PSW] % 2 == Ones(c.sfr[ACC]) % 2 }

  function UpdateParity(c: Cpu): (r: Cpu)
    ensures ParityOk(r)
  {
    Set(c, PSW, c.sfr[PSW] - c.sfr[PSW] % 2 + Ones(c.sfr[ACC]) % 2)
  }
}
