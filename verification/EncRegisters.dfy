/** Control registers through the SPI: what a read answers, and what it answers
    after a write, a bit set or a bit clear. */
module EncRegisters {
  import opened Bytes
  import opened EncCore
  import opened EncCommands
  import opened EncTx

  /** Where the register a of the selected bank is kept. */
  function At(c: Core, a: byte): (i: nat)
    requires a < 32
    ensures i == if a < 0x1B then 27 * (c.regs[ECON1] % 4) + a else 81 + a
  {
    Slot(Bank(c.regs), a)
  }

  /** The registers read with a dummy byte before the value: everything while
      bank 2 is selected, the station address and MISTAT in bank 3. */
  predicate Delayed(c: Core, a: byte) {
    c.regs[ECON1] % 4 == 2 || (c.regs[ECON1] % 4 == 3 && (a <= 5 || a == 10))
  }

  // ---------------------------------------------------------------- reading

  lemma ReceivedTwo(c: Core, a: byte, x: byte)
    ensures Received(c, [a, x]) == [c.outByte, ByteDone(c, a).outByte]
  {
    hide ByteDone;
    assert [a, x][..1] == [a] && [a][..0] == [];
    assert RunBytes(c, []) == c && Received(c, []) == [];
    assert RunBytes(c, [a]) == ByteDone(c, a);
  }

  lemma ReceivedThree(c: Core, a: byte, x: byte, y: byte)
    ensures Received(c, [a, x, y]) == [c.outByte, ByteDone(c, a).outByte, ByteDone(ByteDone(c, a), x).outByte]
    ensures RunBytes(c, [a, x, y]) == ByteDone(ByteDone(ByteDone(c, a), x), y)
  {
    hide ByteDone;
    ReceivedTwo(c, a, x);
    assert [a, x, y][..2] == [a, x] && [a, x][..1] == [a] && [a][..0] == [];
    assert RunBytes(c, []) == c;
    assert RunBytes(c, [a]) == ByteDone(c, a);
    assert RunBytes(c, [a, x]) == ByteDone(ByteDone(c, a), x);
  }

  lemma ReadOpcode(c: Core, a: byte)
    requires a < 32
    ensures ByteDone(Select(c), OP_RCR + a) ==
            Select(c).(op := OP_RCR, addr := a, lastOpcode := a, byteIndex := 1, needsDummy := Delayed(c, a),
                       outByte := if Delayed(c, a) then 0 else c.regs[At(c, a)])
  {
    hide SoftReset;
    hide Peek;
    hide DataByte;
    hide Slot;
    assert a % 32 == a;
  }

  /** One more byte of a read: the value, if the dummy has just gone out. */
  lemma ReadNext(c: Core, x: byte)
    requires c.byteIndex > 0 && c.op == OP_RCR
    ensures ByteDone(c, x) ==
            c.(byteIndex := c.byteIndex + 1, needsDummy := false,
               outByte := if c.needsDummy then ReadReg(c) else c.outByte)
  {
    hide DecodeOpcode;
    hide ReadReg;
    hide WriteReg;
    hide CommitRead;
    hide CommitWrite;
  }

  /** A register is read with its value in the byte after the opcode, or behind
      a dummy zero where there is one. */
  lemma ReadAnswers(c: Core, a: byte, x: byte, y: byte)
    requires a < 32
    ensures var i := if a < 0x1B then 27 * (c.regs[ECON1] % 4) + a else 81 + a;
            if Delayed(c, a)
            then Received(Select(c), [OP_RCR + a, x, y])[1..] == [0, c.regs[i]]
            else Received(Select(c), [OP_RCR + a, x])[1] == c.regs[i]
  {
    hide ByteDone;
    hide Received;
    hide Delayed;
    hide ReadReg;
    ReceivedTwo(Select(c), OP_RCR + a, x);
    ReceivedThree(Select(c), OP_RCR + a, x, y);
    ReadOpcode(c, a);
    var d := ByteDone(Select(c), OP_RCR + a);
    ReadNext(d, x);
    SameRegister(c, d, a);
  }

  lemma SameRegister(c: Core, d: Core, a: byte)
    requires a < 32 && d.regs == c.regs && d.addr == a
    ensures ReadReg(d) == c.regs[At(c, a)]
  {
    hide Slot;
  }

  /** A read changes no register, buffer byte, pointer, count or log. */
  lemma {:induction false} ReadChangesNothing(c: Core, a: byte, dummies: seq<byte>)
    requires a < 32
    ensures var r := Command(c, [OP_RCR + a] + dummies);
            && r.regs == c.regs && r.buf == c.buf && r.rxWr == c.rxWr && r.log == c.log && r.byteCount == c.byteCount
            && r.op == OP_RCR && r.byteIndex == |dummies| + 1
    decreases dummies
  {
    hide ByteDone;
    hide ReadReg;
    hide Command;
    if dummies == [] {
      assert [OP_RCR + a] + dummies == [] + [OP_RCR + a];
      OneMoreByte(c, [], OP_RCR + a);
      NoBytes(c);
      ReadOpcode(c, a);
    } else {
      var n := |dummies| - 1;
      ReadChangesNothing(c, a, dummies[..n]);
      OneMoreByte(c, [OP_RCR + a] + dummies[..n], dummies[n]);
      assert [OP_RCR + a] + dummies == ([OP_RCR + a] + dummies[..n]) + [dummies[n]];
      ReadNext(Command(c, [OP_RCR + a] + dummies[..n]), dummies[n]);
    }
  }

  lemma NoBytes(c: Core)
    ensures Command(c, []) == Select(c)
  {
  }

  /** What a host gets that knows where the value comes. */
  function Answer(c: Core, a: byte): byte
    requires a < 32
  {
    if Delayed(c, a) then Received(Select(c), [OP_RCR + a, 0, 0])[2] else Received(Select(c), [OP_RCR + a, 0])[1]
  }

  lemma AnswerIsRegister(c: Core, a: byte)
    requires a < 32
    ensures Answer(c, a) == c.regs[At(c, a)]
  {
    ReadAnswers(c, a, 0, 0);
    hide Received;
    hide Delayed;
  }

  // ---------------------------------------------------------------- writing

  /** A register whose write sets nothing off: not ECON1, ECON2 or ERXST. */
  predicate Quiet(c: Core, a: byte) {
    a < 0x1E && !(c.regs[ECON1] % 4 == 0 && (a == 8 || a == 9))
  }

  /** The value one of the three writing commands leaves in a register. */
  predicate Leaves(op: byte, was: byte, v: byte, r: byte) {
    && (op == OP_WCR ==> r == v)
    && (op == OP_BFS ==> forall k :: 0 <= k < 8 ==> (Bit(r, k) <==> Bit(was, k) || Bit(v, k)))
    && (op == OP_BFC ==> forall k :: 0 <= k < 8 ==> (Bit(r, k) <==> Bit(was, k) && !Bit(v, k)))
  }

  lemma WriteOpcodes(c: Core, op: byte, a: byte)
    requires a < 32 && (op == OP_WCR || op == OP_BFS || op == OP_BFC)
    ensures ByteDone(Select(c), op + a) ==
            Select(c).(op := op, addr := a, lastOpcode := op + a, outByte := 0, byteIndex := 1)
  {
    hide SoftReset;
    hide Peek;
    hide DataByte;
    hide Slot;
    assert (op + a) % 32 == a;
  }

  lemma QuietWrite(c: Core, v: byte)
    requires c.addr < 32 && Quiet(c, c.addr)
    ensures WriteReg(c, v) == c.(regs := c.regs[At(c, c.addr) := v])
  {
    hide PacketDone;
    hide SetPair;
    hide Pair;
    hide Transmit;
  }

  lemma MaskedValue(op: byte, was: byte, v: byte)
    ensures Leaves(OP_WCR, was, v, v) && Leaves(OP_BFS, was, v, OrByte(was, v))
            && Leaves(OP_BFC, was, v, AndNotByte(was, v))
  {
    forall k | 0 <= k < 8
      ensures Bit(OrByte(was, v), k) <==> Bit(was, k) || Bit(v, k)
      ensures Bit(AndNotByte(was, v), k) <==> Bit(was, k) && !Bit(v, k)
    {
      OrBit(was, v, k);
      AndNotBit(was, v, k);
    }
    hide Bit;
  }

  lemma WriteData(c: Core, b: byte)
    requires c.byteIndex > 0 && c.addr < 32 && Quiet(c, c.addr)
    requires c.op == OP_WCR || c.op == OP_BFS || c.op == OP_BFC
    ensures var r := ByteDone(c, b);
            && r == c.(regs := r.regs, byteIndex := c.byteIndex + 1)
            && r.regs == c.regs[At(c, c.addr) := r.regs[At(c, c.addr)]]
            && Leaves(c.op, c.regs[At(c, c.addr)], b, r.regs[At(c, c.addr)])
  {
    hide DecodeOpcode;
    hide CommitRead;
    hide CommitWrite;
    hide OrByte;
    hide AndNotByte;
    hide Slot;
    hide Leaves;
    hide Quiet;
    hide WriteReg;
    MaskedValue(c.op, ReadReg(c), b);
    QuietWrite(c, b);
    QuietWrite(c, OrByte(ReadReg(c), b));
    QuietWrite(c, AndNotByte(ReadReg(c), b));
    SameRegister(c, c, c.addr);
  }

  /** WCR, BFS and BFC, in any bank: the register named holds the value, the bits
      set or the bits left, and nothing else of the chip's state is different. */
  lemma WriteRegister(c: Core, op: byte, a: byte, v: byte)
    requires a < 32 && Quiet(c, a) && (op == OP_WCR || op == OP_BFS || op == OP_BFC)
    ensures var r := Command(c, [op + a, v]);
            var i := if a < 0x1B then 27 * (c.regs[ECON1] % 4) + a else 81 + a;
            && Leaves(op, c.regs[i], v, r.regs[i])
            && r.regs == c.regs[i := r.regs[i]]
            && r.buf == c.buf && r.rxWr == c.rxWr && r.log == c.log && r.byteCount == c.byteCount
  {
    hide ByteDone;
    hide Command;
    hide Leaves;
    TwoByteCommand(c, op + a, v);
    WriteOpcodes(c, op, a);
    WriteData(ByteDone(Select(c), op + a), v);
  }

  /** What was written is what is read, and all other registers of the bank read
      as they did. */
  lemma WriteThenRead(c: Core, op: byte, a: byte, v: byte, a': byte)
    requires a < 32 && a' < 32 && Quiet(c, a) && (op == OP_WCR || op == OP_BFS || op == OP_BFC)
    ensures var r := Command(c, [op + a, v]);
            if a' == a then Leaves(op, Answer(c, a), v, Answer(r, a)) else Answer(r, a') == Answer(c, a')
  {
    hide Command;
    hide Answer;
    hide Leaves;
    WriteRegister(c, op, a, v);
    var r := Command(c, [op + a, v]);
    AnswerIsRegister(c, a);
    AnswerIsRegister(c, a');
    AnswerIsRegister(r, a);
    AnswerIsRegister(r, a');
  }

  // ----------------------------------------------------- banks and sending

  /** ECON1 written through any of the three commands: its value, and a frame
      sent if that leaves TXRTS set. */
  lemma WriteEcon1(c: Core, v: byte)
    requires c.addr == REG_ECON1
    ensures var r := WriteReg(c, v);
            && r == c.(regs := r.regs, log := r.log)
            && (if Bit(v, 3)
                then r.log == c.log.Push(TxFrame(c.regs, c.buf))
                     && r.regs == c.regs[ECON1 := AndNotByte(v, 0x08)][EIR := OrByte(c.regs[EIR], 0x08)]
                else r.log == c.log && r.regs == c.regs[ECON1 := v])
  {
    hide PacketDone;
    hide SetPair;
    hide Pair;
    hide TxFrame;
    hide OrByte;
    hide AndNotByte;
    TxFrameIgnoresEcon1(c.regs, v, c.buf);
  }

  /** A bank selected by writing ECON1, nothing being sent. */
  lemma SelectBank(c: Core, bank: byte)
    requires bank < 4
    ensures var r := Command(c, [OP_WCR + REG_ECON1, bank]);
            r.regs == c.regs[ECON1 := bank] && r.buf == c.buf && r.rxWr == c.rxWr && r.log == c.log
  {
    hide Command;
    hide WriteReg;
    hide DecodeOpcode;
    TwoByteCommand(c, OP_WCR + REG_ECON1, bank);
    WriteOpcodes(c, OP_WCR, REG_ECON1);
    WriteEcon1(ByteDone(Select(c), OP_WCR + REG_ECON1), bank);
    assert Bit(bank, 3) == Bit(bank / 2 / 2, 1);
  }

  lemma OneByteCommand(c: Core, a: byte)
    ensures Command(c, [a]) == ByteDone(Select(c), a)
  {
    hide ByteDone;
    assert [a][..0] == [];
    assert RunBytes(Select(c), []) == Select(c);
  }

  /** After a soft reset every register of every bank reads as 0, but for
      ERXFCON (A1h), ESTAT (01h), ECON2 (80h) and the bank in ECON1. */
  lemma ResetAnswers(c: Core, bank: byte, a: byte)
    requires bank < 4 && a < 32
    ensures var r := Command(Command(c, [OP_SOFT_RESET]), [OP_WCR + REG_ECON1, bank]);
            Answer(r, a) == (if a == 0x1F then bank else if a == 0x1E then 0x80 else if a == 0x1D then 0x01
                             else if bank == 1 && a == 0x18 then 0xA1 else 0)
  {
    hide Command;
    hide Answer;
    var d := Command(c, [OP_SOFT_RESET]);
    OneByteCommand(c, OP_SOFT_RESET);
    SelectBank(d, bank);
    AnswerIsRegister(Command(d, [OP_WCR + REG_ECON1, bank]), a);
    hide Peek;
    hide DecodeRegister;
    hide DataByte;
  }

  /** A transmit request: the frame in the window joins the log, TXRTS reads
      back clear, TXIF is set, and not another bit of the registers differs. */
  lemma TransmitCommand(c: Core)
    ensures var r := Command(c, [OP_BFS + REG_ECON1, 0x08]);
            && r.log == c.log.Push(TxFrame(c.regs, c.buf)) && r.buf == c.buf && r.rxWr == c.rxWr
            && (forall i :: 0 <= i < 113 && i != ECON1 && i != EIR ==> r.regs[i] == c.regs[i])
            && (forall k :: 0 <= k < 8 ==> (Bit(r.regs[ECON1], k) <==> Bit(c.regs[ECON1], k) && k != 3))
            && (forall k :: 0 <= k < 8 ==> (Bit(r.regs[EIR], k) <==> Bit(c.regs[EIR], k) || k == 3))
  {
    hide Command;
    hide TxFrame;
    hide WriteReg;
    hide DecodeOpcode;
    hide OrByte;
    hide AndNotByte;
    TwoByteCommand(c, OP_BFS + REG_ECON1, 0x08);
    WriteOpcodes(c, OP_BFS, REG_ECON1);
    var d := ByteDone(Select(c), OP_BFS + REG_ECON1);
    var e := OrByte(c.regs[ECON1], 0x08);
    WriteEcon1(d, e);
    RequestBits(c.regs[ECON1], c.regs[EIR]);
    hide Bit;
  }

  lemma RequestBits(econ1: byte, eir: byte)
    ensures var e := OrByte(econ1, 0x08);
            && Bit(e, 3)
            && (forall k :: 0 <= k < 8 ==> (Bit(AndNotByte(e, 0x08), k) <==> Bit(econ1, k) && k != 3))
            && (forall k :: 0 <= k < 8 ==> (Bit(OrByte(eir, 0x08), k) <==> Bit(eir, k) || k == 3))
  {
    assert Pow2(3) == 8;
    forall k | 0 <= k < 8
      ensures Bit(OrByte(econ1, 0x08), k) <==> Bit(econ1, k) || k == 3
      ensures Bit(AndNotByte(OrByte(econ1, 0x08), 0x08), k) <==> Bit(econ1, k) && k != 3
      ensures Bit(OrByte(eir, 0x08), k) <==> Bit(eir, k) || k == 3
    {
      OrBit(econ1, 0x08, k);
      AndNotBit(OrByte(econ1, 0x08), 0x08, k);
      OrBit(eir, 0x08, k);
      Pow2Bit(3, k);
    }
  }

  /** The dummy comes in front of the shared registers too while bank 2 is
      selected: a host that expects none there reads ECON1 as 0, which it never
      is with that bank. */
  lemma SharedInBankTwo(c: Core, x: byte)
    requires c.regs[ECON1] % 4 == 2
    ensures Received(Select(c), [OP_RCR + REG_ECON1, x])[1] == 0 != c.regs[ECON1]
  {
    ReadAnswers(c, REG_ECON1, x, 0);
    ReceivedTwo(Select(c), OP_RCR + REG_ECON1, x);
    ReceivedThree(Select(c), OP_RCR + REG_ECON1, x, 0);
    hide ByteDone;
    hide Received;
  }
}
