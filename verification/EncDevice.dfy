/** The controller as the simulator keeps it: one object whose registers,
    buffer and frame log are updated in place by the bus callbacks. */
module EncDevice {
  import opened Bytes
  import opened EncCore
  import opened EncSpi
  import Crc32

  lemma Padded(before: seq<byte>, base: nat, body: seq<byte>, mid: seq<byte>, len: nat)
    requires |body| <= len && base + len <= |before|
    requires mid == before[..base] + body + before[base + |body|..]
    ensures mid[..base + |body|] + Zeros(len - |body|) + mid[base + len..] ==
            before[..base] + (body + Zeros(len - |body|)) + before[base + len..]
    ensures len == |body| ==> body + Zeros(len - |body|) == body
  {
  }

  lemma PacketByte(next: word, f: seq<byte>, i: nat)
    requires 0 < |f| <= MAX_FRAME && i < |f| + 10
    ensures Packet(next, f)[i] == if i < 6 then Header(next, f)[i]
                                  else if i < 6 + |f| then f[i - 6]
                                  else Crc32.ShiftedRight(Crc32.Crc(f), i - 6 - |f|) % 256
  {
    hide Header;
    hide Crc32.Crc;
    hide Crc32.ShiftedRight;
  }

  lemma WindowLength(buf: Buffer, st: nat, nd: nat)
    requires st < BUFFER_SIZE && nd < BUFFER_SIZE
    ensures nd < st ==> TxWindow(buf, st, nd) == []
    ensures nd >= st ==> 0 < |TxWindow(buf, st, nd)| <= MAX_FRAME
  {
  }

  lemma WindowAt(buf: Buffer, st: nat, nd: nat, k: nat)
    requires st < BUFFER_SIZE && nd < BUFFER_SIZE && k < |TxWindow(buf, st, nd)|
    ensures TxWindow(buf, st, nd)[k] == buf[(st + 1 + k) % BUFFER_SIZE]
    ensures (st + 1 + k) % BUFFER_SIZE == nd ==> k + 1 == |TxWindow(buf, st, nd)|
    ensures (st + 1 + k) % BUFFER_SIZE != nd && k + 1 < MAX_FRAME ==> k + 1 < |TxWindow(buf, st, nd)|
    ensures ((st + 1 + k) % BUFFER_SIZE + 1) % BUFFER_SIZE == (st + 1 + k + 1) % BUFFER_SIZE
  {
  }

  class Enc28j60 {
    const regs: array<byte>
    const buffer: array<byte>
    const txLen: array<nat>
    const txFrame: array<byte>
    var byteCount: nat
    var rxWr: word
    var txCount: nat
    var lastCs: bool
    var lastSck: bool
    var shiftIn: byte
    var bitCount: nat
    var outBit: bool
    var outByte: byte
    var byteIndex: nat
    var op: byte
    var addr: byte
    var lastOpcode: byte
    var needsDummy: bool

    ghost predicate Valid()
      reads this, regs, buffer, txLen, txFrame
    {
      && regs.Length == 113 && buffer.Length == BUFFER_SIZE
      && txLen.Length == TX_LOG && txFrame.Length == STORE_SIZE
      && regs != buffer && regs != txFrame && buffer != txFrame
      && txLen as object != regs && txLen as object != buffer && txLen as object != txFrame
      && (forall i :: 0 <= i < TX_LOG ==> txLen[i] <= MAX_FRAME)
      && bitCount < 8 && shiftIn < Pow2(bitCount)
    }

    ghost function CoreState(): Core
      requires Valid()
      reads this, regs, buffer, txLen, txFrame
    {
      Core(regs[..], buffer[..], byteCount, rxWr, TxLog(txCount, txLen[..], txFrame[..]),
           outByte, byteIndex, op, addr, lastOpcode, needsDummy)
    }

    ghost function State(): (d: Chip)
      requires Valid()
      reads this, regs, buffer, txLen, txFrame
      ensures d.Ok()
    {
      Chip(CoreState(), lastCs, lastSck, shiftIn, bitCount, outBit)
    }

    constructor (cs: bool, sck: bool)
      ensures Valid() && fresh(regs) && fresh(buffer) && fresh(txLen) && fresh(txFrame)
      ensures State().lastCs == cs && State().lastSck == sck && bitCount == 0 && shiftIn == 0
      ensures CoreState().regs == SoftReset(CoreState()).regs && rxWr == 0 && txCount == 0 && byteCount == 0
    {
      regs := new byte[113](i => if i == ECON2 then 0x80 else if i == ESTAT then 0x01
                                 else if i == ERXFCON then 0xA1 else 0);
      buffer := new byte[BUFFER_SIZE](_ => 0);
      txLen := new nat[TX_LOG](_ => 0);
      txFrame := new byte[STORE_SIZE](_ => 0);
      byteCount, rxWr, txCount := 0, 0, 0;
      lastCs, lastSck, shiftIn, bitCount, outBit := cs, sck, 0, 0, false;
      outByte, byteIndex, op, addr, lastOpcode, needsDummy := 0, 0, 0, 0, 0, false;
    }

    // -------------------------------------------------------- registers

    function Pointer(lo: byte): (p: nat)
      requires Valid()
      reads this, regs, buffer, txLen, txFrame
      ensures p == Pair(regs[..], 0, lo)
    {
      var l: int, h: int := regs[Slot(0, lo)], regs[Slot(0, (lo + 1) % 256)];
      (l + 256 * h) % BUFFER_SIZE
    }

    method SetPointer(lo: byte, value: word)
      requires Valid()
      modifies regs
      ensures Valid()
      ensures State() == old(State()).(core := old(CoreState()).(regs := SetPair(old(regs[..]), 0, lo, value)))
    {
      regs[Slot(0, lo)] := value % 256;
      regs[Slot(0, (lo + 1) % 256)] := value / 256;
    }

    method PeekReadByte() returns (b: byte)
      requires Valid()
      ensures b == Peek(CoreState())
    {
      b := buffer[Pointer(ERDPTL)];
    }

    method CommitReadByte()
      requires Valid()
      modifies this, regs
      ensures Valid() && State() == old(State()).(core := CommitRead(old(CoreState())))
    {
      var ptr := Pointer(ERDPTL);
      if ptr == Pointer(ERXNDL) {
        ptr := Pointer(ERXSTL);
      } else {
        ptr := (ptr + 1) % BUFFER_SIZE;
      }
      SetPointer(ERDPTL, ptr);
      byteCount := byteCount + 1;
    }

    method CommitWriteByte(value: byte)
      requires Valid()
      modifies this, regs, buffer
      ensures Valid() && State() == old(State()).(core := CommitWrite(old(CoreState()), value))
    {
      var ptr := Pointer(EWRPTL);
      buffer[ptr] := value;
      SetPointer(EWRPTL, (ptr + 1) % BUFFER_SIZE);
      byteCount := byteCount + 1;
    }

    method DoSoftReset()
      requires Valid()
      modifies this, regs
      ensures Valid() && State() == old(State()).(core := SoftReset(old(CoreState())))
    {
      var i := 0;
      while i < 113
        invariant 0 <= i <= 113 && Valid()
        invariant forall k :: 0 <= k < i ==> regs[k] == 0
        invariant State() == old(State()).(core := old(CoreState()).(regs := regs[..]))
      {
        regs[i] := 0;
        i := i + 1;
      }
      regs[ECON2] := 0x80;
      regs[ESTAT] := 0x01;
      regs[ERXFCON] := 0xA1;
      rxWr := 0;
      assert regs[..] == SoftReset(old(CoreState())).regs;
    }

    // ----------------------------------------------------- transmission

    /** The copying loop of a transmission. */
    method CopyWindow(base: nat, st: nat, nd: nat) returns (len: nat)
      requires Valid() && base + MAX_FRAME <= STORE_SIZE && st < BUFFER_SIZE && nd < BUFFER_SIZE
      modifies txFrame
      ensures Valid() && len == |TxWindow(buffer[..], st, nd)|
      ensures txFrame[..] == old(txFrame[..base]) + TxWindow(buffer[..], st, nd) + old(txFrame[base + len..])
    {
      hide TxWindow;
      len := 0;
      var p := (st + 1) % BUFFER_SIZE;
      ghost var body := TxWindow(buffer[..], st, nd);
      WindowLength(buffer[..], st, nd);
      if nd < st { return; }
      while len < MAX_FRAME
        invariant 0 <= len <= |body| <= MAX_FRAME && (len == |body| ==> len == MAX_FRAME)
        invariant p == (st + 1 + len) % BUFFER_SIZE
        invariant forall k :: 0 <= k < STORE_SIZE ==>
                    txFrame[k] == if base <= k < base + len then body[k - base] else old(txFrame[k])
      {
        WindowAt(buffer[..], st, nd, len);
        txFrame[base + len] := buffer[p];
        len := len + 1;
        if p == nd {
          break;
        }
        p := (p + 1) % BUFFER_SIZE;
      }
    }

    /** The padding loop of a transmission, on a frame of n bytes so far. */
    method PadFrame(base: nat, n: nat) returns (len: nat)
      requires Valid() && base + MAX_FRAME <= STORE_SIZE && n <= MAX_FRAME
      modifies txFrame
      ensures Valid() && len == if n < 60 then 60 else n
      ensures txFrame[..] == old(txFrame[..base + n]) + Zeros(len - n) + old(txFrame[base + len..])
    {
      len := n;
      while len < 60
        invariant n <= len && (len <= 60 || len == n)
        invariant base + len <= STORE_SIZE
        invariant txFrame[..] == old(txFrame[..base + n]) + Zeros(len - n) + old(txFrame[base + len..])
      {
        txFrame[base + len] := 0;
        assert Zeros(len + 1 - n) == Zeros(len - n) + [0];
        len := len + 1;
      }
    }

    /** Both loops: the frame of a transmit request in the slot at base. */
    method StoreFrame(base: nat) returns (len: nat)
      requires Valid() && base + MAX_FRAME <= STORE_SIZE
      modifies txFrame
      ensures Valid() && len == |TxFrame(regs[..], buffer[..])|
      ensures txFrame[..] == old(txFrame[..base]) + TxFrame(regs[..], buffer[..]) + old(txFrame[base + len..])
    {
      hide TxWindow;
      hide Pair;
      ghost var before := txFrame[..];
      ghost var body := TxWindow(buffer[..], Pair(regs[..], 0, ETXSTL), Pair(regs[..], 0, ETXNDL));
      len := CopyWindow(base, Pointer(ETXSTL), Pointer(ETXNDL));
      if regs[MACON3] >= 0x20 {
        ghost var mid := txFrame[..];
        len := PadFrame(base, len);
        Padded(before, base, body, mid, len);
      }
    }

    method DoTransmit()
      requires Valid()
      modifies this, regs, txLen, txFrame
      ensures Valid() && State() == old(State()).(core := Transmit(old(CoreState())))
    {
      hide TxFrame;
      hide AndNotByte;
      hide OrByte;
      var slot := txCount % TX_LOG;
      var len := StoreFrame(slot * MAX_FRAME);
      txLen[slot] := len;
      txCount := txCount + 1;
      regs[ECON1] := AndNotByte(regs[ECON1], 0x08);
      regs[EIR] := OrByte(regs[EIR], 0x08);
    }

    // ------------------------------------------------------- commands

    /** PKTDEC. */
    method CountPacketDown()
      requires Valid()
      modifies regs
      ensures regs[..] == PacketDone(old(regs[..]))
    {
      hide AndNotByte;
      if regs[EPKTCNT] > 0 {
        regs[EPKTCNT] := regs[EPKTCNT] - 1;
      }
      if regs[EPKTCNT] == 0 {
        regs[EIR] := AndNotByte(regs[EIR], 0x40);
      }
      regs[ECON2] := AndNotByte(regs[ECON2], 0x40);
    }

    method AfterRegisterWrite(bank: nat, address: byte)
      requires Valid()
      modifies this, regs, txLen, txFrame
      ensures Valid() && State() == old(State()).(core := AfterWrite(old(CoreState()), bank, address))
    {
      hide Transmit;
      hide Pair;
      hide SetPair;
      hide PacketDone;
      hide Bit;
      var a := address % 32;
      if a == REG_ECON1 && Bit(regs[ECON1], 3) {
        DoTransmit();
      }
      if a == REG_ECON2 && Bit(regs[ECON2], 6) {
        CountPacketDown();
      }
      if bank == 0 && (a == ERXSTL || a == ERXSTH) {
        rxWr := Pointer(ERXSTL);
        SetPointer(ERXWRPTL, rxWr);
      }
    }

    function CurrentBank(): (b: nat)
      requires Valid()
      reads this, regs, buffer, txLen, txFrame
      ensures b == Bank(regs[..])
    {
      regs[ECON1] % 4
    }

    /** A register write and what it sets off. */
    method WriteRegister(value: byte)
      requires Valid()
      modifies this, regs, txLen, txFrame
      ensures Valid() && State() == old(State()).(core := WriteReg(old(CoreState()), value))
    {
      hide AfterWrite;
      regs[Slot(CurrentBank(), addr)] := value;
      AfterRegisterWrite(CurrentBank(), addr);
    }

    /** The register an RCR, WCR, BFS or BFC names. */
    function Register(): (b: byte)
      requires Valid()
      reads this, regs, buffer, txLen, txFrame
      ensures b == ReadReg(CoreState())
    {
      regs[Slot(CurrentBank(), addr)]
    }

    method DecodeRegisterOpcode(b: byte)
      requires Valid()
      modifies this
      ensures Valid() && State() == old(State()).(core := DecodeRegister(old(CoreState()), b))
    {
      hide NeedsDummy;
      hide Slot;
      op, addr, needsDummy := b - b % 32, b % 32, false;
      outByte := 0;
      if op == OP_RCR {
        needsDummy := NeedsDummy(CurrentBank(), addr);
        outByte := if needsDummy then 0 else Register();
      }
    }

    method Decode(b: byte)
      requires Valid()
      modifies this, regs
      ensures Valid() && State() == old(State()).(core := DecodeOpcode(old(CoreState()), b))
    {
      hide SoftReset;
      hide Pair;
      hide DecodeRegister;
      lastOpcode := b;
      if b == OP_SOFT_RESET {
        op := OP_SOFT_RESET;
        DoSoftReset();
        outByte := 0;
      } else if b == OP_RBM {
        op := OP_RBM;
        outByte := PeekReadByte();
      } else if b == OP_WBM {
        op := OP_WBM;
        outByte := 0;
      } else {
        DecodeRegisterOpcode(b);
      }
    }

    method OnByteComplete(b: byte)
      requires Valid()
      modifies this, regs, buffer, txLen, txFrame
      ensures Valid()
      ensures State() == old(State()).(core := (if old(byteIndex) == 0 then DecodeOpcode(old(CoreState()), b)
                                                else DataByte(old(CoreState()), b)))
    {
      hide DecodeOpcode;
      hide WriteReg;
      hide CommitRead;
      hide CommitWrite;
      hide Peek;
      if byteIndex == 0 {
        Decode(b);
        return;
      }
      match op
      case 0x40 => WriteRegister(b);
      case 0x80 => WriteRegister(OrByte(Register(), b));
      case 0xA0 => WriteRegister(AndNotByte(Register(), b));
      case 0x00 =>
        if needsDummy {
          outByte := Register();
          needsDummy := false;
        }
      case 0x3A =>
        CommitReadByte();
        outByte := PeekReadByte();
      case 0x7A => CommitWriteByte(b);
      case _ =>
    }

    method FinishByte(b: byte)
      requires Valid() && bitCount == 7
      modifies this, regs, buffer, txLen, txFrame
      ensures Valid()
      ensures State() == old(State()).(core := ByteDone(old(CoreState()), b), shiftIn := 0, bitCount := 0)
    {
      hide DecodeOpcode;
      hide DataByte;
      assert Pow2(0) == 1;
      shiftIn, bitCount := 0, 0;
      OnByteComplete(b);
      byteIndex := byteIndex + 1;
    }

    /** A rising clock edge with chip select low. */
    method OnClockEdge(mosi: bool)
      requires Valid()
      modifies this, regs, buffer, txLen, txFrame
      ensures Valid() && State() == ClockBit(old(State()), mosi)
    {
      hide ByteDone;
      hide OutBit;
      assert Pow2(8) == 256;
      ShiftFits(shiftIn, bitCount, mosi);
      outBit := OutBit(outByte, bitCount);
      var s := 2 * shiftIn + Digit(mosi);
      if bitCount == 7 {
        FinishByte(s);
      } else {
        shiftIn, bitCount := s, bitCount + 1;
      }
    }

    /** The bus callback: one write to a port the controller's pins are on. */
    method OnSpiWrite(cs: bool, sck: bool, mosi: bool)
      requires Valid()
      modifies this, regs, buffer, txLen, txFrame
      ensures Valid() && State() == Spi(old(State()), Pins(cs, sck, mosi))
    {
      hide ClockBit;
      var csFalling, sckRising := !cs && lastCs, sck && !lastSck;
      if csFalling {
        bitCount, shiftIn, byteIndex, needsDummy := 0, 0, 0, false;
      }
      if !cs && sckRising {
        OnClockEdge(mosi);
      }
      lastCs, lastSck := cs, sck;
    }

    // -------------------------------------------------------- reception

    /** The filter's loop over the six address bytes, then its flags. */
    method RxAccept(f: seq<byte>) returns (ok: bool)
      requires Valid() && |f| >= 6
      ensures ok == Accepts(regs[..], f)
    {
      var fc := regs[ERXFCON];
      if fc == 0 { return true; }
      var bcast, ucast, i := true, true, 0;
      while i < 6
        invariant 0 <= i <= 6
        invariant bcast <==> forall k :: 0 <= k < i ==> f[k] == 0xFF
        invariant ucast <==> forall k :: 0 <= k < i ==> f[k] == regs[AddressSlot(k)]
      {
        if f[i] != 0xFF { bcast := false; }
        if f[i] != regs[AddressSlot(i)] { ucast := false; }
        i := i + 1;
      }
      var mcast := Bit(f[0], 0) && !bcast;
      var any, all := false, true;
      if Bit(fc, 7) { any := any || ucast; all := all && ucast; }
      if Bit(fc, 0) { any := any || bcast; all := all && bcast; }
      if Bit(fc, 1) { any := any || mcast; all := all && mcast; }
      if Bit(fc, 2) || Bit(fc, 3) || Bit(fc, 4) { all := false; }
      ok := if Bit(fc, 6) then all else any;
    }

    /** The loop that lays a packet into the ring. */
    method StorePacket(st: nat, nd: nat, f: seq<byte>, next: word)
      requires Valid() && st <= nd < BUFFER_SIZE && 0 < |f| <= MAX_FRAME
      requires rxWr <= nd || rxWr + |f| + 10 <= BUFFER_SIZE
      modifies buffer
      ensures Valid() && buffer[..] == Store(old(buffer[..]), st, nd, rxWr, Packet(next, f))
    {
      hide Packet;
      hide Header;
      hide Crc32.Crc;
      hide Crc32.ShiftedRight;
      var crc := Crc32.ComputeCrc(f);
      var hdr := Header(next, f);
      ghost var packet := Packet(next, f);
      var p, i, total := rxWr, 0, 10 + |f|;
      while i < total
        invariant 0 <= i <= total && 0 <= p && (p <= nd || p + (total - i) <= BUFFER_SIZE)
        invariant Store(buffer[..], st, nd, p, packet[i..]) == Store(old(buffer[..]), st, nd, rxWr, packet)
      {
        var b: byte := if i < 6 then hdr[i]
                 else if i < 6 + |f| then f[i - 6]
                 else Crc32.ShiftedRight(crc, i - 6 - |f|) % 256;
        PacketByte(next, f, i);
        assert packet[i..][1..] == packet[i + 1..];
        ghost var before := buffer[..];
        buffer[p] := b;
        assert buffer[..] == before[p := b];
        p := if p == nd then st else p + 1;
        i := i + 1;
      }
      assert packet[total..] == [];
    }

    /** The last part of an injection: the packet, the pointers, the counter. */
    method TakeFrame(st: nat, nd: nat, f: seq<byte>, next: word)
      requires Valid() && st <= nd < BUFFER_SIZE && 0 < |f| <= MAX_FRAME
      requires rxWr <= nd || rxWr + |f| + 10 <= BUFFER_SIZE
      modifies this, regs, buffer
      ensures Valid() && State() == old(State()).(core := TakeIn(old(CoreState()), st, nd, f, next))
    {
      hide SetPair;
      hide Store;
      hide Packet;
      hide OrByte;
      StorePacket(st, nd, f, next);
      rxWr := next;
      SetPointer(ERXWRPTL, next);
      if regs[EPKTCNT] < 0xFF {
        regs[EPKTCNT] := regs[EPKTCNT] + 1;
      }
      regs[EIR] := OrByte(regs[EIR], 0x40);
    }

    /** A frame injected by the host. */
    method InjectRx(f: seq<byte>) returns (code: RxCode)
      requires Valid() && (Screened(CoreState(), f) == RxOk ==> PacketFits(CoreState(), f))
      modifies this, regs, buffer
      ensures Valid()
      ensures var (core, c) := Inject(old(CoreState()), f);
              State() == old(State()).(core := core) && code == c
    {
      hide Pair;
      hide SetPair;
      hide TakeIn;
      hide Accepts;
      hide OrByte;
      hide Bit;
      var st, nd, rd := Pointer(ERXSTL), Pointer(ERXNDL), Pointer(ERXRDPTL);
      if |f| < 14 || |f| > MAX_FRAME - 4 { return RxBadLength; }
      if !Bit(regs[ECON1], 2) { return RxDisabled; }
      if nd <= st { return RxDisabled; }
      var accepted := RxAccept(f);
      if !accepted { return RxFiltered; }
      var size := nd - st + 1;
      var need := Need(|f|);
      var used := CRem(rxWr + size - rd, size) % 65536;
      if (used + need) % 65536 >= size {
        regs[EIR] := OrByte(regs[EIR], 0x01);
        regs[ESTAT] := OrByte(regs[ESTAT], 0x40);
        return RxOverflow;
      }
      TakeFrame(st, nd, f, (st + CRem(rxWr - st + need, size)) % 65536);
      return RxOk;
    }

    /** What the host reads back of the frames sent: the length of the frame, or
        -1, and as much of it as the host has room for. */
    method GetTxFrame(index: int, max: nat) returns (len: int, copy: seq<byte>)
      requires Valid()
      ensures match CoreState().log.Get(index)
              case None => len == -1 && copy == []
              case Some(f) => len == |f| && copy == f[..if |f| < max then |f| else max]
    {
      if index < 0 || index >= txCount || index < txCount - TX_LOG { return -1, []; }
      var slot := index % TX_LOG;
      len := txLen[slot];
      if len > max { len := max; }
      copy := txFrame[slot * MAX_FRAME..slot * MAX_FRAME + len];
      len := txLen[slot];
    }
  }
}
