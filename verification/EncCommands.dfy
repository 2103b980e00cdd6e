/** Whole SPI commands: register writes, buffer reads and buffer writes. */
module EncCommands {
  import opened Bytes
  import opened EncCore

  // ------------------------------------------------------- register writes

  lemma TwoByteCommand(c: Core, a: byte, b: byte)
    ensures Command(c, [a, b]) == ByteDone(ByteDone(Select(c), a), b)
  {
    hide ByteDone;
    assert [a, b][..1] == [a] && [a][..0] == [];
    assert RunBytes(Select(c), []) == Select(c);
    assert RunBytes(Select(c), [a]) == ByteDone(Select(c), a);
  }

  lemma WriteOpcode(c: Core, addr: byte)
    requires addr < 32
    ensures ByteDone(Select(c), OP_WCR + addr) ==
            Select(c).(op := OP_WCR, addr := addr, lastOpcode := OP_WCR + addr, outByte := 0, byteIndex := 1)
  {
    hide SoftReset;
    hide Pair;
    hide DataByte;
    assert (OP_WCR + addr) % 32 == addr;
  }

  /** WCR in bank 0, away from the registers that have side effects. */
  lemma WriteCommand(c: Core, addr: byte, value: byte)
    requires Bank(c.regs) == 0 && addr < 0x1B && addr != ERXSTL && addr != ERXSTH
    ensures var c' := Command(c, [OP_WCR + addr, value]);
            c'.regs == c.regs[addr := value] && c'.buf == c.buf && c'.rxWr == c.rxWr
            && c'.log == c.log && c'.byteCount == c.byteCount
  {
    hide PacketDone;
    hide SetPair;
    hide Pair;
    hide Transmit;
    hide DecodeOpcode;
    hide Command;
    WriteOpcode(c, addr);
    TwoByteCommand(c, OP_WCR + addr, value);
  }

  /** Two register writes set one pointer. */
  lemma SetPointer(c: Core, lo: byte, value: word)
    requires Bank(c.regs) == 0 && lo < 0x1A && lo != ERXSTL - 1 && lo != ERXSTL && lo != ERXSTH
    requires value < BUFFER_SIZE
    ensures var c' := Command(Command(c, [OP_WCR + lo, value % 256]), [OP_WCR + lo + 1, value / 256]);
            c'.regs == SetPair(c.regs, 0, lo, value) && c'.buf == c.buf && c'.rxWr == c.rxWr
            && c'.log == c.log && c'.byteCount == c.byteCount
  {
    hide Command;
    WriteCommand(c, lo, value % 256);
    WriteCommand(Command(c, [OP_WCR + lo, value % 256]), lo + 1, value / 256);
  }

  lemma PairOfSet(regs: RegFile, lo: byte, value: word, lo': byte)
    requires lo % 2 == 0 && lo' % 2 == 0 && lo < 0x1A && lo' < 0x1A && value < BUFFER_SIZE
    ensures Pair(SetPair(regs, 0, lo, value), 0, lo') == if lo' == lo then value else Pair(regs, 0, lo')
  {
    PlainSlot(lo);
    PlainSlot(lo + 1);
    PlainSlot(lo');
    PlainSlot(lo' + 1);
    hide Slot;
    HalvesMakeWord(value);
  }

  lemma PlainSlot(a: byte)
    requires a < 0x1B
    ensures Slot(0, a) == a
  {
  }

  lemma HalvesMakeWord(v: word)
    ensures v % 256 + 256 * (v / 256) == v
  {
  }

  lemma SetTwice(regs: RegFile, lo: byte, v: word, w: word)
    requires lo % 2 == 0 && lo < 0x1A
    ensures SetPair(SetPair(regs, 0, lo, v), 0, lo, w) == SetPair(regs, 0, lo, w)
  {
  }

  // --------------------------------------------------- reading the buffer

  /** The byte the chip has ready before each byte of a command, which is the
      byte the host clocks in while it clocks that one out. */
  function Received(c: Core, bytes: seq<byte>): (r: seq<byte>)
    ensures |r| == |bytes|
  {
    if bytes == [] then []
    else
      var before := bytes[..|bytes| - 1];
      Received(c, before) + [RunBytes(c, before).outByte]
  }

  /** The read pointer k bytes on. */
  function ReadPosition(regs: RegFile, p: nat, k: nat): (r: nat)
    requires p < BUFFER_SIZE
    ensures r < BUFFER_SIZE
  {
    if k == 0 then p else NextRead(regs, ReadPosition(regs, p, k - 1))
  }

  /** The chip after READ_BUF_MEM and n data bytes. */
  function ReadState(c: Core, n: nat): Core {
    var pos := ReadPosition(c.regs, Pair(c.regs, 0, ERDPTL), n);
    c.(regs := if n == 0 then c.regs else SetPair(c.regs, 0, ERDPTL, pos),
       byteCount := c.byteCount + n, outByte := c.buf[pos],
       op := OP_RBM, lastOpcode := OP_RBM, byteIndex := n + 1, needsDummy := false)
  }

  lemma ReadStep(c: Core, n: nat, b: byte)
    ensures ByteDone(ReadState(c, n), b) == ReadState(c, n + 1)
  {
    var p := Pair(c.regs, 0, ERDPTL);
    var pos := ReadPosition(c.regs, p, n);
    var r := ReadState(c, n).regs;
    PairOfSet(c.regs, ERDPTL, pos, ERDPTL);
    PairOfSet(c.regs, ERDPTL, pos, ERXNDL);
    PairOfSet(c.regs, ERDPTL, pos, ERXSTL);
    var next := NextRead(c.regs, pos);
    assert NextRead(r, pos) == next;
    SetTwice(c.regs, ERDPTL, pos, next);
    PairOfSet(c.regs, ERDPTL, next, ERDPTL);
    hide SetPair;
    hide Pair;
    hide NextRead;
    hide SoftReset;
    hide DecodeOpcode;
    hide WriteReg;
    hide CommitWrite;
  }

  lemma ReadOpcode(c: Core)
    ensures Command(c, [OP_RBM]) == ReadState(c, 0)
  {
    hide Pair;
    assert [OP_RBM][..0] == [];
    assert RunBytes(Select(c), []) == Select(c);
  }

  lemma OneMoreByte(c: Core, bytes: seq<byte>, b: byte)
    ensures Command(c, bytes + [b]) == ByteDone(Command(c, bytes), b)
    ensures Received(Select(c), bytes + [b]) == Received(Select(c), bytes) + [Command(c, bytes).outByte]
  {
    hide ByteDone;
    assert (bytes + [b])[..|bytes|] == bytes;
  }

  lemma {:induction false} ReadRun(c: Core, dummies: seq<byte>)
    ensures Command(c, [OP_RBM] + dummies) == ReadState(c, |dummies|)
    decreases dummies
  {
    hide ByteDone;
    hide ReadState;
    hide Command;
    if dummies == [] {
      ReadOpcode(c);
      assert [OP_RBM] + dummies == [OP_RBM];
    } else {
      var n := |dummies| - 1;
      ReadRun(c, dummies[..n]);
      ReadStep(c, n, dummies[n]);
      OneMoreByte(c, [OP_RBM] + dummies[..n], dummies[n]);
      assert [OP_RBM] + dummies == ([OP_RBM] + dummies[..n]) + [dummies[n]];
    }
  }

  lemma OneReceived(c: Core)
    ensures |Received(c, [OP_RBM])| == 1
  {
  }

  /** READ_BUF_MEM consumes each byte exactly once: after the opcode and any
      data bytes the host holds the buffer bytes at successive positions, the
      read pointer has moved once per byte, the byte count has grown by as many,
      and nothing else has changed. */
  lemma {:induction false} ReadBuffer(c: Core, dummies: seq<byte>)
    ensures Command(c, [OP_RBM] + dummies) == ReadState(c, |dummies|)
    ensures Received(Select(c), [OP_RBM] + dummies)[1..] ==
            seq(|dummies|, k requires 0 <= k < |dummies| =>
                  c.buf[ReadPosition(c.regs, Pair(c.regs, 0, ERDPTL), k)])
    decreases dummies
  {
    hide Command;
    hide Received;
    hide ReadPosition;
    ReadRun(c, dummies);
    if dummies == [] {
      assert [OP_RBM] + dummies == [OP_RBM];
      OneReceived(Select(c));
    } else {
      var n := |dummies| - 1;
      ReadBuffer(c, dummies[..n]);
      OneMoreByte(c, [OP_RBM] + dummies[..n], dummies[n]);
      assert [OP_RBM] + dummies == ([OP_RBM] + dummies[..n]) + [dummies[n]];
    }
  }

  // --------------------------------------------------- writing the buffer

  function Written(buf: Buffer, p: nat, data: seq<byte>): Buffer {
    if data == [] then buf
    else
      var n := |data| - 1;
      Written(buf, p, data[..n])[(p + n) % BUFFER_SIZE := data[n]]
  }

  /** The chip after WRITE_BUF_MEM and the bytes of data. */
  function WriteState(c: Core, data: seq<byte>): Core {
    var p := Pair(c.regs, 0, EWRPTL);
    c.(buf := Written(c.buf, p, data),
       regs := if data == [] then c.regs else SetPair(c.regs, 0, EWRPTL, (p + |data|) % BUFFER_SIZE),
       byteCount := c.byteCount + |data|, outByte := 0,
       op := OP_WBM, lastOpcode := OP_WBM, byteIndex := |data| + 1, needsDummy := false)
  }

  lemma WriteStatePointer(c: Core, data: seq<byte>)
    ensures var pos := (Pair(c.regs, 0, EWRPTL) + |data|) % BUFFER_SIZE;
            var r := WriteState(c, data).regs;
            Pair(r, 0, EWRPTL) == pos && forall v: word :: SetPair(r, 0, EWRPTL, v) == SetPair(c.regs, 0, EWRPTL, v)
  {
    hide Written;
    var pos := (Pair(c.regs, 0, EWRPTL) + |data|) % BUFFER_SIZE;
    PairOfSet(c.regs, EWRPTL, pos, EWRPTL);
    forall v: word ensures SetPair(WriteState(c, data).regs, 0, EWRPTL, v) == SetPair(c.regs, 0, EWRPTL, v) {
      SetTwice(c.regs, EWRPTL, pos, v);
    }
    hide Pair;
    hide SetPair;
  }

  lemma OneMoreWritten(buf: Buffer, p: nat, data: seq<byte>)
    requires data != []
    ensures var n := |data| - 1;
            Written(buf, p, data) == Written(buf, p, data[..n])[(p + n) % BUFFER_SIZE := data[n]]
  {
  }

  lemma PositionSum(p: nat, n: nat)
    ensures ((p + n) % BUFFER_SIZE + 1) % BUFFER_SIZE == (p + n + 1) % BUFFER_SIZE
  {
  }

  lemma WriteStep(c: Core, data: seq<byte>)
    requires data != []
    ensures ByteDone(WriteState(c, data[..|data| - 1]), data[|data| - 1]) == WriteState(c, data)
  {
    hide Pair;
    hide SetPair;
    hide DecodeOpcode;
    hide WriteReg;
    hide CommitRead;
    hide AndNotByte;
    hide OrByte;
    hide ReadReg;
    hide Peek;
    hide Written;
    WriteStatePointer(c, data[..|data| - 1]);
    OneMoreWritten(c.buf, Pair(c.regs, 0, EWRPTL), data);
    PositionSum(Pair(c.regs, 0, EWRPTL), |data| - 1);
  }

  lemma {:induction false} WriteBuffer(c: Core, data: seq<byte>)
    ensures Command(c, [OP_WBM] + data) == WriteState(c, data)
    decreases data
  {
    var all := [OP_WBM] + data;
    var n := |data|;
    if n == 0 {
      assert all[..0] == [] && all[0] == OP_WBM;
      assert RunBytes(Select(c), []) == Select(c);
    } else {
      assert all[..|all| - 1] == [OP_WBM] + data[..n - 1] && all[n] == data[n - 1];
      WriteBuffer(c, data[..n - 1]);
      WriteStep(c, data);
      hide ByteDone;
    }
  }

  lemma {:induction false} WrittenAt(buf: Buffer, p: nat, data: seq<byte>, k: nat)
    requires k < |data| <= BUFFER_SIZE
    ensures Written(buf, p, data)[(p + k) % BUFFER_SIZE] == data[k]
    decreases data
  {
    var n := |data| - 1;
    if k < n {
      WrittenAt(buf, p, data[..n], k);
    }
  }

  /** How many places after p the position nd lies. */
  function Distance(p: nat, nd: nat): nat
    requires p < BUFFER_SIZE && nd < BUFFER_SIZE
  {
    (nd + BUFFER_SIZE - p) % BUFFER_SIZE
  }

  lemma {:induction false} StraightRead(regs: RegFile, p: nat, k: nat)
    requires p < BUFFER_SIZE && k <= Distance(p, Pair(regs, 0, ERXNDL))
    ensures ReadPosition(regs, p, k) == (p + k) % BUFFER_SIZE
  {
    hide Pair;
    hide NextRead;
    if k == 0 {
    } else {
      StraightRead(regs, p, k - 1);
      NotYetThere(p, Pair(regs, 0, ERXNDL), k - 1);
      NextStraight(regs, (p + k - 1) % BUFFER_SIZE);
      PositionSum(p, k - 1);
    }
  }

  lemma NotYetThere(p: nat, nd: nat, k: nat)
    requires p < BUFFER_SIZE && nd < BUFFER_SIZE && k < Distance(p, nd)
    ensures (p + k) % BUFFER_SIZE != nd
  {
  }

  lemma NextStraight(regs: RegFile, p: nat)
    requires p < BUFFER_SIZE && p != Pair(regs, 0, ERXNDL)
    ensures NextRead(regs, p) == (p + 1) % BUFFER_SIZE
  {
    hide Pair;
  }

  lemma WriteLeaves(c: Core, data: seq<byte>, lo: byte)
    requires lo % 2 == 0 && lo < 0x1A && lo != EWRPTL
    ensures Pair(WriteState(c, data).regs, 0, lo) == Pair(c.regs, 0, lo)
    ensures Bank(WriteState(c, data).regs) == Bank(c.regs)
  {
    PairOfSet(c.regs, EWRPTL, (Pair(c.regs, 0, EWRPTL) + |data|) % BUFFER_SIZE, lo);
    hide Pair;
  }

  /** Reading back what was written at p. */
  lemma ReadsWritten(c: Core, data: seq<byte>, c2: Core, dummies: seq<byte>)
    requires |data| == |dummies| <= BUFFER_SIZE
    requires |data| <= Distance(Pair(c.regs, 0, EWRPTL), Pair(c2.regs, 0, ERXNDL)) + 1
    requires Pair(c2.regs, 0, ERDPTL) == Pair(c.regs, 0, EWRPTL)
    requires c2.buf == Written(c.buf, Pair(c.regs, 0, EWRPTL), data)
    ensures Received(Select(c2), [OP_RBM] + dummies)[1..] == data
  {
    hide Pair;
    hide Received;
    hide ReadState;
    hide ReadPosition;
    hide Written;
    var p := Pair(c.regs, 0, EWRPTL);
    ReadBuffer(c2, dummies);
    forall k | 0 <= k < |data|
      ensures c2.buf[ReadPosition(c2.regs, p, k)] == data[k]
    {
      StraightRead(c2.regs, p, k);
      WrittenAt(c.buf, p, data, k);
    }
  }

  /** Data written with WRITE_BUF_MEM and read back with READ_BUF_MEM, after the
      read pointer is set to where it starts, comes back unchanged as long as
      no byte of it but the last lies at ERXND. */
  lemma BufferRoundTrip(c: Core, data: seq<byte>, dummies: seq<byte>)
    requires Bank(c.regs) == 0 && |data| == |dummies| <= BUFFER_SIZE
    requires |data| <= Distance(Pair(c.regs, 0, EWRPTL), Pair(c.regs, 0, ERXNDL)) + 1
    ensures var p := Pair(c.regs, 0, EWRPTL);
            var c1 := Command(c, [OP_WBM] + data);
            var c2 := Command(Command(c1, [OP_WCR + ERDPTL, p % 256]), [OP_WCR + ERDPTL + 1, p / 256]);
            Received(Select(c2), [OP_RBM] + dummies)[1..] == data
  {
    hide Pair;
    hide SetPair;
    hide Command;
    hide Written;
    hide Received;
    hide Bank;
    var p := Pair(c.regs, 0, EWRPTL);
    var c1 := Command(c, [OP_WBM] + data);
    WriteBuffer(c, data);
    WriteLeaves(c, data, ERXNDL);
    SetPointer(c1, ERDPTL, p);
    PairOfSet(c1.regs, ERDPTL, p, ERDPTL);
    PairOfSet(c1.regs, ERDPTL, p, ERXNDL);
    var c2 := Command(Command(c1, [OP_WCR + ERDPTL, p % 256]), [OP_WCR + ERDPTL + 1, p / 256]);
    ReadsWritten(c, data, c2, dummies);
  }
}
