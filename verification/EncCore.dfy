/** The ENC28J60 controller above its shift register: the banked register
    file, the packet buffer, the SPI commands byte by byte, transmission and
    reception. */
module EncCore {
  import opened Bytes
  import opened Crc32

  const BUFFER_SIZE := 0x2000
  const MAX_FRAME := 1536
  const TX_LOG := 32

  const OP_RCR: byte := 0x00
  const OP_WCR: byte := 0x40
  const OP_BFS: byte := 0x80
  const OP_BFC: byte := 0xA0
  const OP_RBM: byte := 0x3A
  const OP_WBM: byte := 0x7A
  const OP_SOFT_RESET: byte := 0xFF

  // Register addresses within bank 0.
  const ERDPTL: byte := 0x00
  const EWRPTL: byte := 0x02
  const ETXSTL: byte := 0x04
  const ETXNDL: byte := 0x06
  const ERXSTL: byte := 0x08
  const ERXSTH: byte := 0x09
  const ERXNDL: byte := 0x0A
  const ERXRDPTL: byte := 0x0C
  const ERXRDPTH: byte := 0x0D
  const ERXWRPTL: byte := 0x0E
  // Registers shared by all banks.
  const REG_ECON2: byte := 0x1E
  const REG_ECON1: byte := 0x1F

  /** The four banks of 27 registers one after the other, then the five
      registers every bank shares. */
  type RegFile = s: seq<byte> | |s| == 113 witness seq(113, _ => 0)
  type Buffer = s: seq<byte> | |s| == 0x2000 witness seq(0x2000, _ => 0)

  const ERXFCON := 27 + 0x18
  const EPKTCNT := 27 + 0x19
  const MACON3 := 54 + 0x02
  const EIR := 109
  const ESTAT := 110
  const ECON2 := 111
  const ECON1 := 112

  function Slot(bank: int, addr: byte): (i: nat)
    ensures i < 113
  {
    var a := addr % 32;
    if a >= 0x1B then 108 + (a - 0x1B)
    else 27 * (if bank < 0 then 0 else if bank > 3 then 3 else bank) + a
  }

  /** A 13-bit pointer held in two registers, low byte first. */
  function Pair(regs: RegFile, bank: int, lo: byte): (p: nat)
    ensures p < BUFFER_SIZE
  {
    (regs[Slot(bank, lo)] + 256 * regs[Slot(bank, (lo + 1) % 256)]) % BUFFER_SIZE
  }

  function SetPair(regs: RegFile, bank: int, lo: byte, value: word): RegFile {
    regs[Slot(bank, lo) := value % 256][Slot(bank, (lo + 1) % 256) := value / 256]
  }

  function Bank(regs: RegFile): nat { regs[ECON1] % 4 }

  // ------------------------------------------------- log of sent frames

  const STORE_SIZE := 49152

  /** The 32 most recent frames, slot by slot, 1536 bytes each. */
  datatype TxLog = TxLog(count: nat, lens: seq<nat>, store: seq<byte>) {
    predicate Ok() {
      |lens| == TX_LOG && |store| == STORE_SIZE && forall i :: 0 <= i < TX_LOG ==> lens[i] <= MAX_FRAME
    }

    function Push(frame: seq<byte>): (r: TxLog)
      requires Ok() && |frame| <= MAX_FRAME
      ensures r.Ok()
    {
      var slot := count % TX_LOG;
      var b := slot * MAX_FRAME;
      TxLog(count + 1, lens[slot := |frame|], store[..b] + frame + store[b + |frame|..])
    }

    /** What the host reads back for frame number i: None when it is not kept. */
    function Get(i: int): (r: Option<seq<byte>>)
      requires Ok()
    {
      if i < 0 || i >= count || i < count - TX_LOG then None
      else
        var b := i % TX_LOG * MAX_FRAME;
        Some(store[b..b + lens[i % TX_LOG]])
    }
  }

  type Log = l: TxLog | l.Ok() witness TxLog(0, seq(TX_LOG, _ => 0), seq(STORE_SIZE, _ => 0))

  // ------------------------------------------------------------- the state

  datatype Core = Core(
    regs: RegFile, buf: Buffer, byteCount: nat, rxWr: word, log: Log,
    outByte: byte, byteIndex: nat, op: byte, addr: byte, lastOpcode: byte, needsDummy: bool)

  // ------------------------------------------------- buffer memory access

  function Peek(c: Core): byte { c.buf[Pair(c.regs, 0, ERDPTL)] }

  /** Where the read pointer goes next: ERXND leads back to ERXST. */
  function NextRead(regs: RegFile, ptr: nat): (p: nat)
    requires ptr < BUFFER_SIZE
    ensures p < BUFFER_SIZE
  {
    if ptr == Pair(regs, 0, ERXNDL) then Pair(regs, 0, ERXSTL) else (ptr + 1) % BUFFER_SIZE
  }

  function CommitRead(c: Core): Core {
    var ptr := NextRead(c.regs, Pair(c.regs, 0, ERDPTL));
    c.(regs := SetPair(c.regs, 0, ERDPTL, ptr), byteCount := c.byteCount + 1)
  }

  function CommitWrite(c: Core, value: byte): Core {
    var ptr := Pair(c.regs, 0, EWRPTL);
    c.(buf := c.buf[ptr := value],
       regs := SetPair(c.regs, 0, EWRPTL, (ptr + 1) % BUFFER_SIZE),
       byteCount := c.byteCount + 1)
  }

  // ----------------------------------------------------- register effects

  function SoftReset(c: Core): Core {
    c.(regs := seq(113, i => if i == ECON2 then 0x80 else if i == ESTAT then 0x01
                             else if i == ERXFCON then 0xA1 else 0),
       rxWr := 0)
  }

  /** The bytes behind the control byte at st, up to nd, at most 1536. */
  function TxWindow(buf: Buffer, st: nat, nd: nat): (w: seq<byte>)
    ensures |w| == if nd < st then 0 else if nd == st || nd - st > MAX_FRAME then MAX_FRAME else nd - st
  {
    var len := if nd < st then 0 else if nd == st || nd - st > MAX_FRAME then MAX_FRAME else nd - st;
    seq(len, i requires 0 <= i < len => buf[(st + 1 + i) % BUFFER_SIZE])
  }

  /** The frame a transmit request sends: ETXST+1 to ETXND, padded with zeros
      to 60 bytes when MACON3 asks for padding. */
  function TxFrame(regs: RegFile, buf: Buffer): (f: seq<byte>)
    ensures |f| <= MAX_FRAME
  {
    var body := TxWindow(buf, Pair(regs, 0, ETXSTL), Pair(regs, 0, ETXNDL));
    if regs[MACON3] >= 0x20 && |body| < 60 then body + Zeros(60 - |body|) else body
  }

  function Zeros(n: nat): (z: seq<byte>)
    ensures |z| == n && forall i :: 0 <= i < n ==> z[i] == 0
  {
    seq(n, _ => 0)
  }

  function Transmit(c: Core): Core {
    c.(log := c.log.Push(TxFrame(c.regs, c.buf)),
       regs := c.regs[ECON1 := AndNotByte(c.regs[ECON1], 0x08)][EIR := OrByte(c.regs[EIR], 0x08)])
  }

  /** PKTDEC: one packet fewer, the interrupt flag down with the last one. */
  function PacketDone(regs: RegFile): RegFile {
    var n := if regs[EPKTCNT] > 0 then regs[EPKTCNT] - 1 else 0;
    var r := regs[EPKTCNT := n];
    var r' := if n == 0 then r[EIR := AndNotByte(r[EIR], 0x40)] else r;
    r'[ECON2 := AndNotByte(r'[ECON2], 0x40)]
  }

  function AfterWrite(c: Core, bank: nat, addr: byte): Core {
    var a := addr % 32;
    var c1 := if a == REG_ECON1 && Bit(c.regs[ECON1], 3) then Transmit(c) else c;
    var c2 := if a == REG_ECON2 && Bit(c1.regs[ECON2], 6) then c1.(regs := PacketDone(c1.regs)) else c1;
    if bank == 0 && (a == ERXSTL || a == ERXSTH) then
      var st := Pair(c2.regs, 0, ERXSTL);
      c2.(rxWr := st, regs := SetPair(c2.regs, 0, ERXWRPTL, st))
    else c2
  }

  /** A control register written with value, and what that sets off. */
  function WriteReg(c: Core, value: byte): Core {
    var c' := c.(regs := c.regs[Slot(Bank(c.regs), c.addr) := value]);
    AfterWrite(c', Bank(c'.regs), c.addr)
  }

  function ReadReg(c: Core): byte { c.regs[Slot(Bank(c.regs), c.addr)] }

  // ------------------------------------------------------------- commands

  function NeedsDummy(bank: nat, addr: byte): bool {
    bank == 2 || (bank == 3 && (addr <= 0x05 || addr == 0x0A))
  }

  function DecodeOpcode(c: Core, b: byte): (r: Core)
    ensures r.byteIndex == c.byteIndex
  {
    var c := c.(lastOpcode := b);
    if b == OP_SOFT_RESET then SoftReset(c.(op := b)).(outByte := 0)
    else if b == OP_RBM then c.(op := b, outByte := Peek(c))
    else if b == OP_WBM then c.(op := b, outByte := 0)
    else DecodeRegister(c, b)
  }

  /** RCR, WCR, BFS and BFC: three bits of operation, five of address. */
  function DecodeRegister(c: Core, b: byte): (r: Core)
    ensures r.byteIndex == c.byteIndex
  {
    var c := c.(op := b - b % 32, addr := b % 32, needsDummy := false);
    if c.op == OP_RCR then
      var dummy := NeedsDummy(Bank(c.regs), c.addr);
      c.(needsDummy := dummy, outByte := if dummy then 0 else ReadReg(c))
    else c.(outByte := 0)
  }

  function DataByte(c: Core, b: byte): (r: Core)
    ensures r.byteIndex == c.byteIndex
  {
    hide Pair;
    hide SetPair;
    hide TxFrame;
    hide PacketDone;
    if c.op == OP_WCR then WriteReg(c, b)
    else if c.op == OP_BFS then WriteReg(c, OrByte(ReadReg(c), b))
    else if c.op == OP_BFC then WriteReg(c, AndNotByte(ReadReg(c), b))
    else if c.op == OP_RCR then
      if c.needsDummy then c.(outByte := ReadReg(c), needsDummy := false) else c
    else if c.op == OP_RBM then
      var c' := CommitRead(c);
      c'.(outByte := Peek(c'))
    else if c.op == OP_WBM then CommitWrite(c, b)
    else c
  }

  /** One complete byte of a command. */
  function ByteDone(c: Core, b: byte): Core {
    var c' := if c.byteIndex == 0 then DecodeOpcode(c, b) else DataByte(c, b);
    c'.(byteIndex := c.byteIndex + 1)
  }

  function RunBytes(c: Core, bytes: seq<byte>): Core {
    if bytes == [] then c else ByteDone(RunBytes(c, bytes[..|bytes| - 1]), bytes[|bytes| - 1])
  }

  /** Chip select falling: a new command starts. */
  function Select(c: Core): Core { c.(byteIndex := 0, needsDummy := false) }

  /** One whole command under one chip-select run. */
  function Command(c: Core, bytes: seq<byte>): Core { RunBytes(Select(c), bytes) }

  // ------------------------------------------------------------ reception

  datatype RxCode = RxOk | RxDisabled | RxFiltered | RxOverflow | RxBadLength

  predicate Multicast(f: seq<byte>) requires |f| >= 6 { Bit(f[0], 0) && !Broadcast(f) }
  predicate Broadcast(f: seq<byte>) requires |f| >= 6 { forall i :: 0 <= i < 6 ==> f[i] == 0xFF }

  /** The station address registers of bank 3, in the order of the wire. */
  function AddressSlot(i: nat): nat
    requires i < 6
  {
    81 + [0x04, 0x05, 0x02, 0x03, 0x00, 0x01][i]
  }

  predicate Unicast(regs: RegFile, f: seq<byte>)
    requires |f| >= 6
  {
    forall i :: 0 <= i < 6 ==> f[i] == regs[AddressSlot(i)]
  }

  /** The receive filter: the OR, or with ANDOR set the AND, of the enabled
      kinds of match. PMEN, MPEN and HTEN never match. */
  predicate Accepts(regs: RegFile, f: seq<byte>)
    requires |f| >= 6
  {
    var fc := regs[ERXFCON];
    var u, b, m := Unicast(regs, f), Broadcast(f), Multicast(f);
    if fc == 0 then true
    else if Bit(fc, 6) then
      (Bit(fc, 7) ==> u) && (Bit(fc, 0) ==> b) && (Bit(fc, 1) ==> m)
      && !Bit(fc, 2) && !Bit(fc, 3) && !Bit(fc, 4)
    else
      (Bit(fc, 7) && u) || (Bit(fc, 0) && b) || (Bit(fc, 1) && m)
  }

  /** Ring bytes a frame of len bytes takes: header, frame and FCS, made even. */
  function Need(len: nat): (n: nat)
    ensures n % 2 == 0 && len + 10 <= n <= len + 11
  {
    (6 + len + 4 + 1) / 2 * 2
  }

  function Header(next: word, f: seq<byte>): (h: seq<byte>)
    requires 0 < |f| <= MAX_FRAME
    ensures |h| == 6
  {
    var count := |f| + 4;
    [next % 256, next / 256, count % 256, count / 256, 0x80,
     (if Bit(f[0], 0) then 1 else 0) + (if f[0] == 0xFF then 2 else 0)]
  }

  function Packet(next: word, f: seq<byte>): (p: seq<byte>)
    requires 0 < |f| <= MAX_FRAME
    ensures |p| == |f| + 10
  {
    Header(next, f) + f + Fcs(f)
  }

  /** Bytes stored from p on, going from nd back to st; from a position past nd
      they go straight on, as far as the buffer reaches. */
  function Store(buf: Buffer, st: nat, nd: nat, p: nat, bytes: seq<byte>): Buffer
    requires st <= nd < BUFFER_SIZE && (p <= nd || p + |bytes| <= BUFFER_SIZE)
    decreases bytes
  {
    if bytes == [] then buf
    else Store(buf[p := bytes[0]], st, nd, if p == nd then st else p + 1, bytes[1..])
  }

  function RingSize(regs: RegFile): int { Pair(regs, 0, ERXNDL) - Pair(regs, 0, ERXSTL) + 1 }

  function UsedSpace(c: Core): nat
    requires RingSize(c.regs) > 0
  {
    var size := RingSize(c.regs);
    CRem(c.rxWr + size - Pair(c.regs, 0, ERXRDPTL), size) % 65536
  }

  /** The write pointer stays inside a ring that has been set up. */
  predicate WriterInRing(c: Core) {
    Pair(c.regs, 0, ERXSTL) < Pair(c.regs, 0, ERXNDL) ==>
      Pair(c.regs, 0, ERXSTL) <= c.rxWr <= Pair(c.regs, 0, ERXNDL)
  }

  /** A packet of f stored at the write pointer stays inside the buffer. */
  predicate PacketFits(c: Core, f: seq<byte>) {
    c.rxWr <= Pair(c.regs, 0, ERXNDL) || c.rxWr + |f| + 10 <= BUFFER_SIZE
  }

  function NextWriter(c: Core, len: nat): word
    requires RingSize(c.regs) > 0
  {
    var st := Pair(c.regs, 0, ERXSTL);
    (st + CRem(c.rxWr - st + Need(len), RingSize(c.regs))) % 65536
  }

  /** An accepted frame laid into the ring and announced. */
  function TakeIn(c: Core, st: nat, nd: nat, f: seq<byte>, next: word): Core
    requires st <= nd < BUFFER_SIZE && 0 < |f| <= MAX_FRAME
    requires c.rxWr <= nd || c.rxWr + |f| + 10 <= BUFFER_SIZE
  {
    var regs := SetPair(c.regs, 0, ERXWRPTL, next);
    var n := if regs[EPKTCNT] < 0xFF then regs[EPKTCNT] + 1 else 0xFF;
    c.(buf := Store(c.buf, st, nd, c.rxWr, Packet(next, f)),
       rxWr := next,
       regs := regs[EPKTCNT := n][EIR := OrByte(regs[EIR], 0x40)])
  }

  /** Whether an arriving frame is taken in, and if not, why. */
  function Screened(c: Core, f: seq<byte>): RxCode {
    if |f| < 14 || |f| > MAX_FRAME - 4 then RxBadLength
    else if !Bit(c.regs[ECON1], 2) || RingSize(c.regs) <= 1 then RxDisabled
    else if !Accepts(c.regs, f) then RxFiltered
    else if (UsedSpace(c) + Need(|f|)) % 65536 >= RingSize(c.regs) then RxOverflow
    else RxOk
  }

  /** A frame arriving from the wire. */
  function Inject(c: Core, f: seq<byte>): (r: (Core, RxCode))
    requires Screened(c, f) == RxOk ==> PacketFits(c, f)
  {
    var st, nd := Pair(c.regs, 0, ERXSTL), Pair(c.regs, 0, ERXNDL);
    var code := Screened(c, f);
    if code == RxOk then (TakeIn(c, st, nd, f, NextWriter(c, |f|)), RxOk)
    else if code == RxOverflow then
      (c.(regs := c.regs[EIR := OrByte(c.regs[EIR], 0x01)][ESTAT := OrByte(c.regs[ESTAT], 0x40)]), RxOverflow)
    else (c, code)
  }
}
