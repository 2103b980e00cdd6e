/** The conditional jumps of the 8051, and how the instruction-mode stepper
    learns whether one with offset 0 jumped: by running it with offset 1. */
module CondJumps {
  import opened Bytes
  import opened Cpu

  // ------------------------------------------------------- opcodes, lengths

  /** Instruction lengths by high and low nibble of the opcode. */
  const OPLEN: seq<seq<byte>> := [
    [1, 2, 3, 1, 1, 2, 1, 1, 1, 1, 1, 1, 1, 1, 1, 1],
    [3, 2, 3, 1, 1, 2, 1, 1, 1, 1, 1, 1, 1, 1, 1, 1],
    [3, 2, 1, 1, 2, 2, 1, 1, 1, 1, 1, 1, 1, 1, 1, 1],
    [3, 2, 1, 1, 2, 2, 1, 1, 1, 1, 1, 1, 1, 1, 1, 1],
    [2, 2, 2, 3, 2, 2, 1, 1, 1, 1, 1, 1, 1, 1, 1, 1],
    [2, 2, 2, 3, 2, 2, 1, 1, 1, 1, 1, 1, 1, 1, 1, 1],
    [2, 2, 2, 3, 2, 2, 1, 1, 1, 1, 1, 1, 1, 1, 1, 1],
    [2, 2, 2, 1, 2, 3, 2, 2, 2, 2, 2, 2, 2, 2, 2, 2],
    [2, 2, 2, 1, 1, 3, 2, 2, 2, 2, 2, 2, 2, 2, 2, 2],
    [3, 2, 2, 1, 2, 2, 1, 1, 1, 1, 1, 1, 1, 1, 1, 1],
    [2, 2, 2, 1, 1, 1, 2, 2, 2, 2, 2, 2, 2, 2, 2, 2],
    [2, 2, 2, 1, 3, 3, 3, 3, 3, 3, 3, 3, 3, 3, 3, 3],
    [2, 2, 2, 1, 1, 2, 1, 1, 1, 1, 1, 1, 1, 1, 1, 1],
    [2, 2, 2, 1, 1, 3, 1, 1, 2, 2, 2, 2, 2, 2, 2, 2],
    [1, 2, 1, 1, 1, 2, 1, 1, 1, 1, 1, 1, 1, 1, 1, 1],
    [1, 2, 1, 1, 1, 2, 1, 1, 1, 1, 1, 1, 1, 1, 1, 1]]

  function Length(op: byte): byte {
    var row := OPLEN[op / 16];
    row[op % 16]
  }

  /** JBC, JB, JNB, JC, JNC, JZ, JNZ, CJNE, DJNZ: the jumps whose last byte is
      a relative offset taken or not. */
  predicate CondRel(op: byte) {
    (op % 16 == 0 && 0x10 <= op <= 0x70) || 0xB4 <= op <= 0xBF || op == 0xD5 || 0xD8 <= op <= 0xDF
  }

  lemma LengthOfCondRel(op: byte)
    requires CondRel(op)
    ensures Length(op) == if 0x40 <= op <= 0x70 || op >= 0xD8 then 2 else 3
  {
  }

  // ------------------------------------------------------- operand accesses

  /** The SFR callbacks, each a function of the register's address and of the
      CPU as it stands; where none is installed onRead is the plain read. They
      neither see nor set PC, and they do not fit or remove RAM. */
  datatype Ports = Ports(onRead: (Cpu, byte) -> (Cpu, byte), onWrite: (Cpu, byte) -> Cpu)

  function Confined(c: Cpu, r: Cpu): (s: Cpu)
    ensures s.pc == c.pc && s.upper.Some? == c.upper.Some?
  {
    r.(pc := c.pc, upper := if r.upper.Some? == c.upper.Some? then r.upper else c.upper)
  }

  function ReadSfr(p: Ports, c: Cpu, a: byte): (Cpu, byte) {
    var (r, v) := p.onRead(c.(pc := 0), a);
    (Confined(c, r), v)
  }

  function SfrWritten(p: Ports, c: Cpu, a: byte): Cpu {
    Confined(c, p.onWrite(c.(pc := 0), a))
  }

  /** Direct addressing: the lower RAM or, from 80h up, an SFR. */
  function ReadDirect(p: Ports, c: Cpu, a: byte): (Cpu, byte) {
    if a > 0x7F then ReadSfr(p, c, a) else (c, c.lower[a])
  }

  function WriteDirect(p: Ports, c: Cpu, a: byte, v: byte): Cpu {
    if a > 0x7F then SfrWritten(p, Set(c, a - 0x80, v), a) else c.(lower := c.lower[a := v])
  }

  /** The byte a bit address lies in. */
  function BitByte(bit: byte): byte {
    if bit > 0x7F then bit - bit % 8 else 0x20 + bit / 8
  }

  function Bank(c: Cpu): nat { c.sfr[PSW] / 8 % 4 }

  function Register(c: Cpu, op: byte): nat { op % 8 + 8 * Bank(c) }

  // --------------------------------------------------------------- the jumps

  /** CJNE: C tells which operand is smaller; the jump is taken if they differ. */
  function Compare(c: Cpu, x: byte, y: byte): (Cpu, bool) {
    (Set(c, PSW, c.sfr[PSW] % 128 + if x < y then 128 else 0), x != y)
  }

  /** JBC tests the latch, not the pin, and clears the bit it finds set. */
  function TestAndClear(p: Ports, c: Cpu, bit: byte): (Cpu, bool) {
    var a, mask := BitByte(bit), Pow2Byte(bit % 8);
    if bit > 0x7F then
      var latch := c.sfr[a - 0x80];
      if Bit(latch, bit % 8) then (SfrWritten(p, Set(c, a - 0x80, AndNotByte(latch, mask)), a), true) else (c, false)
    else if Bit(c.lower[a], bit % 8) then
      (c.(lower := c.lower[a := AndNotByte(c.lower[a], mask)]), true)
    else (c, false)
  }

  /** CJNE A,direct: A is read after the callback of the operand has run. */
  function CompareDirect(p: Ports, c: Cpu, a: byte): (Cpu, bool) {
    var (c, v) := ReadDirect(p, c, a);
    Compare(c, c.sfr[ACC], v)
  }

  /** DJNZ direct. */
  function CountDown(p: Ports, c: Cpu, a: byte): (Cpu, bool) {
    var (c, v) := ReadDirect(p, c, a);
    (WriteDirect(p, c, a, Dec(v)), Dec(v) != 0)
  }

  /** What a conditional jump changes besides PC, and whether it jumps. */
  function Decide(p: Ports, c: Cpu, op: byte, arg: byte): (Cpu, bool)
    requires CondRel(op)
  {
    if op == 0x10 then TestAndClear(p, c, arg)
    else if op == 0x20 || op == 0x30 then
      var (c, v) := ReadDirect(p, c, BitByte(arg));
      (c, Bit(v, arg % 8) == (op == 0x20))
    else if op == 0x40 || op == 0x50 then (c, (c.sfr[PSW] >= 128) == (op == 0x40))
    else if op == 0x60 || op == 0x70 then (c, (c.sfr[ACC] == 0) == (op == 0x60))
    else if op == 0xB4 then Compare(c, c.sfr[ACC], arg)
    else if op == 0xB5 then CompareDirect(p, c, arg)
    else if op < 0xB8 then Compare(c, ReadIndirect(c, c.lower[op % 2 + 8 * Bank(c)]), arg)
    else if op < 0xC0 then Compare(c, c.lower[Register(c, op)], arg)
    else if op == 0xD5 then CountDown(p, c, arg)
    else
      var v := Dec(c.lower[Register(c, op)]);
      (c.(lower := c.lower[Register(c, op) := v]), v != 0)
  }

  function Target(pc: word, n: byte, rel: byte, taken: bool): word {
    (pc as int + n + if taken then Signed(rel) else 0) % 65536
  }

  // ------------------------------------------------------------ code memory

  /** Code memory holds a power of two of bytes, at most 64K; the program
      counter wraps around it. */
  ghost predicate IsCode(code: seq<byte>) {
    exists k :: 0 <= k <= 16 && |code| == Pow2(k)
  }

  function Fetch(code: seq<byte>, pc: word, i: nat): byte
    requires code != []
  {
    code[(pc + i) % |code|]
  }

  /** The address of the instruction after the one at pc. */
  function Next(code: seq<byte>, pc: word): word
    requires code != []
  {
    (pc as int + Length(Fetch(code, pc, 0))) % 65536
  }

  /** Where the stepper looks for the offset of the jump at pc. */
  function RelAt(code: seq<byte>, pc: word): nat
    requires code != []
  {
    (Next(code, pc) - 1) % |code|
  }

  /** The conditional jump at PC carried out. */
  function Jump(p: Ports, c: Cpu, code: seq<byte>): Cpu
    requires code != [] && CondRel(Fetch(code, c.pc, 0))
  {
    var op := Fetch(code, c.pc, 0);
    var (d, taken) := Decide(p, c, op, Fetch(code, c.pc, 1));
    d.(pc := Target(c.pc, Length(op), Fetch(code, c.pc, Length(op) - 1), taken))
  }

  /** Whether the jump at PC is to be taken. */
  predicate Condition(p: Ports, c: Cpu, code: seq<byte>)
    requires code != [] && CondRel(Fetch(code, c.pc, 0))
  {
    Decide(p, c, Fetch(code, c.pc, 0), Fetch(code, c.pc, 1)).1
  }

  // ---------------------------------------------------- the patched offset

  lemma DecideKeepsPc(p: Ports, c: Cpu, op: byte, arg: byte)
    requires CondRel(op)
    ensures var d := Decide(p, c, op, arg).0; d.pc == c.pc && d.upper.Some? == c.upper.Some?
  {
    hide Bit;
    hide AndNotByte;
    hide BitByte;
    hide Pow2Byte;
  }

  /** Two-byte jumps have no operand but the offset. */
  lemma ShortHasNoArgument(p: Ports, c: Cpu, op: byte, arg: byte, arg': byte)
    requires CondRel(op) && Length(op) == 2
    ensures Decide(p, c, op, arg) == Decide(p, c, op, arg')
  {
    LengthOfCondRel(op);
    hide Length;
  }

  /** Addresses are taken modulo 64K first and modulo the code size then; as
      the size divides 64K, the first makes no difference. */
  lemma WrapTwice(x: int, n: nat)
    requires exists k :: 0 <= k <= 16 && n == Pow2(k)
    requires 0 <= x < 2 * 65536
    ensures n > 0 && (x % 65536 - 1) % n == (x - 1) % n
  {
    var k :| 0 <= k <= 16 && n == Pow2(k);
    PowersMultiply(k, 16 - k);
    SixteenBits();
    hide Pow2;
    WrapByMultiple(x, n, Pow2(16 - k));
  }

  lemma WrapByMultiple(x: int, n: nat, m: nat)
    requires n > 0 && n * m == 65536 && 0 <= x < 2 * 65536
    ensures (x % 65536 - 1) % n == (x - 1) % n
  {
    ModShift(x - 1, n, m);
    Unwrap(x);
  }

  lemma Unwrap(x: int)
    requires 0 <= x < 2 * 65536
    ensures x % 65536 == if x >= 65536 then x - 65536 else x
  {
  }

  lemma SixteenBits()
    ensures Pow2(16) == 65536
  {
    PowersMultiply(8, 8);
    assert Pow2(8) == 256;
  }

  lemma MulMinus(n: int, a: int, b: int)
    ensures n * (a - b) == n * a - n * b
  {
  }

  lemma ModShift(x: int, n: nat, m: int)
    requires n > 0
    ensures (x - n * m) % n == x % n
  {
    DivMod(x, n);
    MulMinus(n, x / n, m);
    QuotientIs(x - n * m, n, x / n - m, x % n);
  }

  lemma {:induction false} PowersMultiply(a: nat, b: nat)
    ensures Pow2(a) * Pow2(b) == Pow2(a + b)
  {
    if a == 0 {
    } else {
      PowersMultiply(a - 1, b);
      assert Pow2(a) * Pow2(b) == 2 * (Pow2(a - 1) * Pow2(b));
    }
  }

  /** The byte looked at is the last byte of the instruction, wherever PC is. */
  lemma RelAtIsLast(code: seq<byte>, pc: word)
    requires IsCode(code) && CondRel(Fetch(code, pc, 0))
    ensures code != [] && RelAt(code, pc) == (pc + Length(Fetch(code, pc, 0)) - 1) % |code|
  {
    var n := Length(Fetch(code, pc, 0));
    LengthOfCondRel(Fetch(code, pc, 0));
    hide Length;
    WrapTwice(pc as int + n, |code|);
  }

  /** The offset byte is neither the opcode nor the operand, when it is 0. */
  lemma NoAlias(code: seq<byte>, pc: word)
    requires IsCode(code) && CondRel(Fetch(code, pc, 0)) && code[RelAt(code, pc)] == 0
    ensures code != []
    ensures var patched := code[RelAt(code, pc) := 1];
            && Fetch(patched, pc, 0) == Fetch(code, pc, 0)
            && (Length(Fetch(code, pc, 0)) == 3 ==> Fetch(patched, pc, 1) == Fetch(code, pc, 1))
            && Fetch(patched, pc, Length(Fetch(code, pc, 0)) - 1) == 1
            && Fetch(code, pc, Length(Fetch(code, pc, 0)) - 1) == 0
  {
    RelAtIsLast(code, pc);
    LengthOfCondRel(Fetch(code, pc, 0));
    hide Length;
    hide RelAt;
    hide IsCode;
    NeighboursDiffer(pc + 1, |code|);
  }

  lemma NeighboursDiffer(x: nat, n: nat)
    requires n > 1
    ensures x % n != (x + 1) % n
  {
    NextQuotient(x, n);
  }

  /** The jump run with its offset patched to 1 if `patch`, and put right. */
  function Stepped(p: Ports, c: Cpu, code: seq<byte>, patch: bool): (Cpu, bool)
    requires IsCode(code) && CondRel(Fetch(code, c.pc, 0))
    requires patch ==> code[RelAt(code, c.pc)] == 0
  {
    var next := Next(code, c.pc);
    if patch then
      NoAlias(code, c.pc);
      var r := Jump(p, c, code[RelAt(code, c.pc) := 1]);
      var taken := r.pc == (next + 1) % 65536;
      (if taken then r.(pc := next) else r, taken)
    else
      var r := Jump(p, c, code);
      (r, r.pc != next)
  }

  /** Where a jump of offset rel ends up, and that nothing else depends on it. */
  lemma JumpShape(p: Ports, c: Cpu, code: seq<byte>, rel: byte)
    requires IsCode(code) && CondRel(Fetch(code, c.pc, 0))
    requires Length(Fetch(code, c.pc, 0)) >= 1 && Fetch(code, c.pc, Length(Fetch(code, c.pc, 0)) - 1) == rel
    ensures code != []
    ensures var r := Jump(p, c, code);
            && r == Decide(p, c, Fetch(code, c.pc, 0), Fetch(code, c.pc, 1)).0.(pc := r.pc)
            && r.pc == (Next(code, c.pc) + if Condition(p, c, code) then Signed(rel) else 0) % 65536
  {
    hide Decide;
    hide IsCode;
    hide CondRel;
    hide Fetch;
    hide Length;
    hide Target;
    CodeNotEmpty(code);
    TargetFromNext(c.pc, Length(Fetch(code, c.pc, 0)), rel, Condition(p, c, code));
  }

  lemma CodeNotEmpty(code: seq<byte>)
    requires IsCode(code)
    ensures code != []
  {
    var k :| 0 <= k <= 16 && |code| == Pow2(k);
  }

  lemma TargetFromNext(pc: word, n: byte, rel: byte, taken: bool)
    ensures Target(pc, n, rel, taken) == ((pc as int + n) % 65536 + if taken then Signed(rel) else 0) % 65536
  {
  }

  lemma PatchedDecide(p: Ports, c: Cpu, code: seq<byte>)
    requires IsCode(code) && CondRel(Fetch(code, c.pc, 0)) && code[RelAt(code, c.pc)] == 0
    ensures code != []
    ensures var patched := code[RelAt(code, c.pc) := 1];
            && Fetch(patched, c.pc, 0) == Fetch(code, c.pc, 0)
            && Length(Fetch(code, c.pc, 0)) >= 1
            && Fetch(patched, c.pc, Length(Fetch(code, c.pc, 0)) - 1) == 1
            && Decide(p, c, Fetch(code, c.pc, 0), Fetch(patched, c.pc, 1))
               == Decide(p, c, Fetch(code, c.pc, 0), Fetch(code, c.pc, 1))
  {
    hide Decide;
    var op := Fetch(code, c.pc, 0);
    LengthOfCondRel(op);
    hide Length;
    NoAlias(code, c.pc);
    hide Fetch;
    hide RelAt;
    if Length(op) == 2 {
      ShortHasNoArgument(p, c, op, Fetch(code[RelAt(code, c.pc) := 1], c.pc, 1), Fetch(code, c.pc, 1));
    }
  }

  /** Whether patched or not, the step has the effect of the jump alone; and it
      reports the jump taken exactly when its condition held, but for a jump of
      offset 0 left unpatched, which it always reports as not taken. */
  lemma SteppedExact(p: Ports, c: Cpu, code: seq<byte>, patch: bool)
    requires IsCode(code) && CondRel(Fetch(code, c.pc, 0))
    requires patch ==> code[RelAt(code, c.pc)] == 0
    ensures code != []
    ensures Stepped(p, c, code, patch) ==
            (Jump(p, c, code), Condition(p, c, code) && (patch || code[RelAt(code, c.pc)] != 0))
  {
    hide Decide;
    hide Jump;
    hide CondRel;
    hide IsCode;
    hide Length;
    RelIsFetched(code, c.pc);
    hide RelAt;
    hide Fetch;
    hide Signed;
    hide Condition;
    JumpShape(p, c, code, code[RelAt(code, c.pc)]);
    Landing(Next(code, c.pc), code[RelAt(code, c.pc)], Condition(p, c, code));
    if patch {
      Landing(Next(code, c.pc), 1, Condition(p, c, code));
      PatchedDecide(p, c, code);
      PatchedIsCode(code, RelAt(code, c.pc));
      JumpShape(p, c, code[RelAt(code, c.pc) := 1], 1);
    }
  }

  /** Where a jump lands tells whether it was taken, unless its offset is 0. */
  lemma Landing(next: word, rel: byte, taken: bool)
    ensures var pc := (next + if taken then Signed(rel) else 0) % 65536;
            && (pc != next <==> taken && rel != 0)
            && (!taken || rel == 0 ==> pc == next)
            && (rel == 1 ==> (pc == (next + 1) % 65536 <==> taken))
  {
  }

  lemma PatchedIsCode(code: seq<byte>, at: nat)
    requires IsCode(code) && at < |code|
    ensures IsCode(code[at := 1])
  {
    var k :| 0 <= k <= 16 && |code| == Pow2(k);
  }

  lemma RelIsFetched(code: seq<byte>, pc: word)
    requires IsCode(code) && CondRel(Fetch(code, pc, 0))
    ensures code != []
    ensures Length(Fetch(code, pc, 0)) >= 1
            && Fetch(code, pc, Length(Fetch(code, pc, 0)) - 1) == code[RelAt(code, pc)]
  {
    RelAtIsLast(code, pc);
    LengthOfCondRel(Fetch(code, pc, 0));
    hide Length;
    hide RelAt;
  }
}
