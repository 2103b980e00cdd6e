/** When the conditional jumps jump: comparisons against subtraction, bit tests
    against the bits of memory, and the count of a DJNZ loop. */
module JumpConditions {
  import opened Bytes
  import opened Cpu
  import opened CondJumps
  import Arithmetic

  // -------------------------------------------------------- comparisons

  /** A comparison agrees with SUBB on a clear C: it sets C exactly if the
      subtraction borrows, jumps exactly if it leaves something, and keeps the
      other seven bits of PSW and all else. */
  lemma CompareIsSubtraction(c: Cpu, x: byte, y: byte, psw: byte)
    requires !Arithmetic.Carry(psw)
    ensures var (d, taken) := Compare(c, x, y);
            var (z, q) := Arithmetic.Subb(x, psw, y);
            && (Arithmetic.Carry(d.sfr[PSW]) <==> Arithmetic.Carry(q)) && (taken <==> z != 0)
            && d == Set(c, PSW, d.sfr[PSW]) && d.sfr[PSW] % 128 == c.sfr[PSW] % 128
  {
    Arithmetic.SubbByte(x, psw, y);
    hide Arithmetic.Subb;
    hide Arithmetic.Overflow;
    hide Signed;
    CarryPut(c.sfr[PSW], x < y);
    assert Compare(c, x, y).0.sfr[PSW] == c.sfr[PSW] % 128 + (if x < y then 128 else 0);
    assert Arithmetic.Subb(x, psw, y).0 != 0 <==> x != y;
    assert Arithmetic.Carry(Arithmetic.Subb(x, psw, y).1) <==> x < y;
  }

  lemma CarryPut(psw: byte, carry: bool)
    ensures var q := psw % 128 + (if carry then 128 else 0);
            q < 256 && (q >= 128 <==> carry) && q % 128 == psw % 128
  {
  }

  /** CJNE A,#data and then JC or JNC: a branch on not equal, less, not less. */
  lemma CompareAndBranch(p: Ports, c: Cpu, d: byte, any: byte)
    ensures var (r, differs) := Decide(p, c, 0xB4, d);
            && (differs <==> c.sfr[ACC] != d)
            && (Decide(p, r, 0x40, any).1 <==> c.sfr[ACC] < d)
            && (Decide(p, r, 0x50, any).1 <==> c.sfr[ACC] >= d)
            && r.sfr[ACC] == c.sfr[ACC]
  {
    hide TestAndClear;
    hide CompareDirect;
    hide CountDown;
    hide ReadDirect;
  }

  /** SUBB A,#data on a clear C and then JZ, JNZ, JC or JNC: equal, not equal,
      less, not less. */
  lemma SubtractAndBranch(p: Ports, c: Cpu, d: byte, any: byte)
    requires c.sfr[PSW] < 128
    ensures var (z, q) := Arithmetic.Subb(c.sfr[ACC], c.sfr[PSW], d);
            var r := Set(Set(c, ACC, z), PSW, q);
            && (Decide(p, r, 0x60, any).1 <==> c.sfr[ACC] == d) && (Decide(p, r, 0x70, any).1 <==> c.sfr[ACC] != d)
            && (Decide(p, r, 0x40, any).1 <==> c.sfr[ACC] < d) && (Decide(p, r, 0x50, any).1 <==> c.sfr[ACC] >= d)
            && Decide(p, r, 0x60, any).0 == Decide(p, r, 0x70, any).0 == Decide(p, r, 0x40, any).0 == r
            && Decide(p, r, 0x50, any).0 == r
  {
    Arithmetic.SubbByte(c.sfr[ACC], c.sfr[PSW], d);
    hide Arithmetic.Subb;
    hide TestAndClear;
    hide CompareDirect;
    hide CountDown;
    hide ReadDirect;
    hide Compare;
  }

  /** The register forms compare the register n of the bank PSW selects, bytes
      8 * bank + n of the RAM, or what the byte @R0 or @R1 points at. */
  lemma ComparedOperands(p: Ports, c: Cpu, op: byte, d: byte)
    requires 0xB6 <= op <= 0xBF
    ensures var bank := c.sfr[PSW] / 8 % 4;
            var x := if op >= 0xB8 then c.lower[8 * bank + (op - 0xB8)]
                     else ReadIndirect(c, c.lower[8 * bank + (op - 0xB6)]);
            Decide(p, c, op, d) == Compare(c, x, d)
  {
    hide Compare;
    hide ReadIndirect;
    hide TestAndClear;
    hide CompareDirect;
    hide CountDown;
    hide ReadDirect;
  }

  /** The direct forms on RAM: CJNE compares A with the byte, DJNZ counts it. */
  lemma DirectInRam(p: Ports, c: Cpu, a: byte)
    requires a < 128
    ensures Decide(p, c, 0xB5, a) == Compare(c, c.sfr[ACC], c.lower[a])
    ensures Decide(p, c, 0xD5, a) == (c.(lower := c.lower[a := Dec(c.lower[a])]), c.lower[a] != 1)
  {
    hide Compare;
    hide TestAndClear;
  }

  // ---------------------------------------------------------- bit tests

  /** A bit address below 80h: bit n % 8 of the byte 20h + n / 8. */
  predicate RamBit(c: Cpu, n: byte)
    requires n < 128
  {
    Bit(c.lower[0x20 + n / 8], n % 8)
  }

  /** JB and JNB on such an address. */
  lemma TestsBit(p: Ports, c: Cpu, n: byte)
    requires n < 128
    ensures Decide(p, c, 0x20, n) == (c, RamBit(c, n)) && Decide(p, c, 0x30, n) == (c, !RamBit(c, n))
  {
    hide Bit;
  }

  lemma OneCleared(b: byte, k: nat, j: nat)
    requires k < 8 && j < 8
    ensures Bit(AndNotByte(b, Pow2Byte(k)), j) <==> Bit(b, j) && j != k
  {
    AndNotBit(b, Pow2Byte(k), j);
    Pow2Bit(k, j);
    hide Bit;
    hide Pow2;
  }

  /** JBC jumps exactly if JB would have; then JB on that address will not, and
      on every other address below 80h it does as before. */
  lemma JbcTakesBit(p: Ports, c: Cpu, n: byte, m: byte)
    requires n < 128 && m < 128
    ensures var (r, taken) := Decide(p, c, 0x10, n);
            && (taken <==> RamBit(c, n))
            && (RamBit(r, m) <==> RamBit(c, m) && m != n)
            && r == c.(lower := r.lower)
  {
    OneCleared(c.lower[0x20 + n / 8], n % 8, m % 8);
    hide Bit;
    hide AndNotByte;
    hide Pow2Byte;
  }

  /** In an SFR, JBC takes the bit out of the latch and nothing else, before the
      register's callback sees it; if the bit is clear nothing happens at all. */
  lemma JbcTakesLatch(p: Ports, c: Cpu, n: byte, k: nat)
    requires n >= 128 && k < 8
    ensures var (r, taken) := Decide(p, c, 0x10, n);
            var a := n - n % 8 - 0x80;
            && (taken <==> Bit(c.sfr[a], n % 8))
            && (!taken ==> r == c)
            && (taken ==>
                  exists v: byte :: r == SfrWritten(p, Set(c, a, v), n - n % 8)
                                    && (Bit(v, k) <==> Bit(c.sfr[a], k) && k != n % 8))
  {
    OneCleared(c.sfr[n - n % 8 - 0x80], n % 8, k);
    hide Bit;
    hide AndNotByte;
    hide Pow2Byte;
    hide SfrWritten;
  }

  // ------------------------------------------------------------- loops

  /** DJNZ Rn carried out n times. */
  function Looped(p: Ports, c: Cpu, op: byte, n: nat): Cpu
    requires 0xD8 <= op <= 0xDF
  {
    if n == 0 then c else Decide(p, Looped(p, c, op, n - 1), op, 0).0
  }

  /** DJNZ counts its register down modulo 256 and jumps as long as it has not
      reached 0: a loop on it runs as often as the register says, 256 times if it
      says 0. */
  lemma {:induction false} LoopCount(p: Ports, c: Cpu, op: byte, n: nat)
    requires 0xD8 <= op <= 0xDF
    ensures var at := 8 * (c.sfr[PSW] / 8 % 4) + (op - 0xD8);
            var r := Looped(p, c, op, n);
            && r == c.(lower := c.lower[at := r.lower[at]]) && r.lower[at] == (c.lower[at] as int - n) % 256
            && (Decide(p, r, op, 0).1 <==> (c.lower[at] as int - n - 1) % 256 != 0)
  {
    hide Decide;
    DjnzOnce(p, Looped(p, c, op, n), op);
    if n == 0 {
    } else {
      LoopCount(p, c, op, n - 1);
      DjnzOnce(p, Looped(p, c, op, n - 1), op);
      CountedDown(c.lower[8 * (c.sfr[PSW] / 8 % 4) + (op - 0xD8)], n - 1);
    }
    CountedDown(c.lower[8 * (c.sfr[PSW] / 8 % 4) + (op - 0xD8)], n);
  }

  lemma DjnzOnce(p: Ports, c: Cpu, op: byte)
    requires 0xD8 <= op <= 0xDF
    ensures var at := 8 * (c.sfr[PSW] / 8 % 4) + (op - 0xD8);
            Decide(p, c, op, 0) == (c.(lower := c.lower[at := Dec(c.lower[at])]), Dec(c.lower[at]) != 0)
  {
    hide TestAndClear;
    hide CompareDirect;
    hide CountDown;
    hide ReadDirect;
    hide Compare;
  }

  lemma CountedDown(v: byte, n: nat)
    ensures (v as int - n) % 256 == 0 ==> (v as int - n - 1) % 256 == 255
    ensures (v as int - n) % 256 != 0 ==> (v as int - n - 1) % 256 == (v as int - n) % 256 - 1
  {
  }
}
