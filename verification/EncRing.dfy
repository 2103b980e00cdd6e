/** The receive ring is a first-in first-out queue of frames. */
module EncRing {
  import opened Bytes
  import opened Crc32
  import opened EncCore
  import opened EncCommands
  import CrcResidue

  type Frame = f: seq<byte> | 14 <= |f| <= MAX_FRAME - 4 witness seq(14, _ => 0)

  // --------------------------------------------------------------- one turn

  /** The position n places after p in the ring from st to nd. */
  function Advance(st: nat, nd: nat, p: nat, n: nat): (r: nat)
    requires st <= p <= nd && n <= nd - st + 1
    ensures st <= r <= nd
  {
    if p + n <= nd then p + n else p + n - (nd - st + 1)
  }

  /** The whole ring, read once around from position p. */
  function Turn(buf: Buffer, st: nat, nd: nat, p: nat): (t: seq<byte>)
    requires st <= p <= nd < BUFFER_SIZE
    ensures |t| == nd - st + 1
  {
    buf[p..nd + 1] + buf[st..p]
  }

  lemma TurnRotates(buf: Buffer, st: nat, nd: nat, p: nat, n: nat)
    requires st <= p <= nd < BUFFER_SIZE && n <= nd - st + 1
    ensures var t := Turn(buf, st, nd, p);
            Turn(buf, st, nd, Advance(st, nd, p, n)) == t[n..] + t[..n]
  {
    if p + n <= nd { RotateStraight(buf, st, nd, p, n); } else { RotateWrapped(buf, st, nd, p, n); }
  }

  lemma RotateStraight(buf: Buffer, st: nat, nd: nat, p: nat, n: nat)
    requires st <= p <= nd < BUFFER_SIZE && p + n <= nd
    ensures var t := Turn(buf, st, nd, p); Turn(buf, st, nd, p + n) == t[n..] + t[..n]
  {
    var t := Turn(buf, st, nd, p);
    assert t[n..] == buf[p + n..nd + 1] + buf[st..p];
    assert t[..n] == buf[p..p + n];
    assert buf[st..p] + buf[p..p + n] == buf[st..p + n];
  }

  lemma RotateWrapped(buf: Buffer, st: nat, nd: nat, p: nat, n: nat)
    requires st <= p <= nd < BUFFER_SIZE && p + n > nd && n <= nd - st + 1
    ensures var t := Turn(buf, st, nd, p); Turn(buf, st, nd, p + n - (nd - st + 1)) == t[n..] + t[..n]
  {
    var t := Turn(buf, st, nd, p);
    var m := p + n - (nd - st + 1);
    assert t[n..] == buf[m..p];
    assert t[..n] == buf[p..nd + 1] + buf[st..m];
    assert buf[m..p] + buf[p..nd + 1] == buf[m..nd + 1];
  }

  lemma TurnOfUpdate(buf: Buffer, st: nat, nd: nat, p: nat, b: byte)
    requires st <= p <= nd < BUFFER_SIZE
    ensures Turn(buf[p := b], st, nd, p) == [b] + Turn(buf, st, nd, p)[1..]
  {
  }

  /** What Store writes: the bytes in order, once around the ring from p, and
      nothing else. */
  lemma {:induction false} StoreTurn(buf: Buffer, st: nat, nd: nat, p: nat, bytes: seq<byte>)
    requires st <= p <= nd < BUFFER_SIZE && |bytes| <= nd - st + 1
    ensures var b := Store(buf, st, nd, p, bytes);
            && Turn(b, st, nd, p) == bytes + Turn(buf, st, nd, p)[|bytes|..]
            && b[..st] == buf[..st] && b[nd + 1..] == buf[nd + 1..]
    decreases bytes
  {
    if bytes == [] {
      assert Turn(buf, st, nd, p)[0..] == Turn(buf, st, nd, p);
    } else {
      var buf1 := buf[p := bytes[0]];
      var p1 := Advance(st, nd, p, 1);
      StoreTurn(buf1, st, nd, p1, bytes[1..]);
      assert buf1[..st] == buf[..st] && buf1[nd + 1..] == buf[nd + 1..];
      StoreFirst(buf, st, nd, p, bytes, Store(buf1, st, nd, p1, bytes[1..]));
    }
  }

  /** The turn from p after the first byte was put there and the others behind it. */
  lemma StoreFirst(buf: Buffer, st: nat, nd: nat, p: nat, bytes: seq<byte>, b: Buffer)
    requires st <= p <= nd < BUFFER_SIZE && 0 < |bytes| <= nd - st + 1
    requires var p1 := Advance(st, nd, p, 1);
             Turn(b, st, nd, p1) == bytes[1..] + Turn(buf[p := bytes[0]], st, nd, p1)[|bytes| - 1..]
    ensures Turn(b, st, nd, p) == bytes + Turn(buf, st, nd, p)[|bytes|..]
  {
    var buf1 := buf[p := bytes[0]];
    TurnOfUpdate(buf, st, nd, p, bytes[0]);
    hide Turn;
    hide Advance;
    TurnRotates(buf1, st, nd, p, 1);
    TurnRotates(b, st, nd, p, 1);
    RotateBack(Turn(b, st, nd, p), Turn(buf1, st, nd, p), bytes[1..]);
    SameTail(bytes, Turn(buf, st, nd, p), Turn(buf1, st, nd, p));
  }

  lemma SameTail(bytes: seq<byte>, t: seq<byte>, u: seq<byte>)
    requires 0 < |bytes| <= |t| && u == [bytes[0]] + t[1..]
    ensures u[..1] + bytes[1..] + u[1 + |bytes[1..]|..] == bytes + t[|bytes|..]
  {
  }

  lemma RotateBack(t: seq<byte>, u: seq<byte>, w: seq<byte>)
    requires |t| == |u| && |w| < |t|
    requires t[1..] + t[..1] == w + (u[1..] + u[..1])[|w|..]
    ensures t == u[..1] + w + u[1 + |w|..]
  {
    var v := u[1..] + u[..1];
    var n := |t|;
    assert v[|w|..] == u[1 + |w|..] + u[..1];
    var rot := t[1..] + t[..1];
    assert rot == (w + u[1 + |w|..]) + u[..1];
    SameEnds(t[1..], t[..1], w + u[1 + |w|..], u[..1]);
    assert t == t[..1] + t[1..];
  }

  // -------------------------------------------------------- queue of frames

  function Used(q: seq<Frame>): nat {
    if q == [] then 0 else Need(|q[0]|) + Used(q[1..])
  }

  lemma {:induction false} UsedAppend(q: seq<Frame>, f: Frame)
    ensures Used(q + [f]) == Used(q) + Need(|f|)
    decreases q
  {
    if q == [] {
      assert q + [f] == [f] && [f][1..] == [];
    } else {
      assert (q + [f])[1..] == q[1..] + [f];
      UsedAppend(q[1..], f);
    }
  }

  /** Read from position p on, t begins with the packets of q one behind the
      other, each header pointing at the next. */
  predicate Chain(t: seq<byte>, st: nat, nd: nat, p: nat, q: seq<Frame>)
    requires st <= p <= nd < BUFFER_SIZE && Used(q) <= nd - st + 1
    decreases q
  {
    q == [] ||
    var n, f := Need(|q[0]|), q[0];
    var next := Advance(st, nd, p, n);
    && n <= |t|
    && t[..|f| + 10] == Packet(next, f)
    && Chain(t[n..], st, nd, next, q[1..])
  }

  lemma {:induction false} ChainPrefix(t: seq<byte>, u: seq<byte>, st: nat, nd: nat, p: nat, q: seq<Frame>)
    requires st <= p <= nd < BUFFER_SIZE && Used(q) <= nd - st + 1
    requires Chain(t, st, nd, p, q) && Used(q) <= |t| && Used(q) <= |u| && t[..Used(q)] == u[..Used(q)]
    ensures Chain(u, st, nd, p, q)
    decreases q
  {
    hide Packet;
    hide Need;
    if q == [] {
    } else {
      var n, f := Need(|q[0]|), q[0];
      assert t[..|f| + 10] == t[..Used(q)][..|f| + 10] == u[..|f| + 10];
      assert t[n..][..Used(q[1..])] == t[..Used(q)][n..] == u[..Used(q)][n..] == u[n..][..Used(q[1..])];
      ChainPrefix(t[n..], u[n..], st, nd, Advance(st, nd, p, n), q[1..]);
    }
  }

  lemma {:induction false} ChainAppend(t: seq<byte>, st: nat, nd: nat, p: nat, q: seq<Frame>, f: Frame)
    requires st <= p <= nd < BUFFER_SIZE && Used(q) + Need(|f|) <= nd - st + 1
    requires Chain(t, st, nd, p, q) && Used(q) + Need(|f|) <= |t|
    requires t[Used(q)..][..|f| + 10] == Packet(Advance(st, nd, p, Used(q) + Need(|f|)), f)
    ensures Used(q + [f]) == Used(q) + Need(|f|) && Chain(t, st, nd, p, q + [f])
    decreases q
  {
    hide Packet;
    hide Need;
    UsedAppend(q, f);
    if q == [] {
      assert q + [f] == [f] && [f][1..] == [] && t[0..] == t;
    } else {
      var n := Need(|q[0]|);
      var next := Advance(st, nd, p, n);
      assert (q + [f])[1..] == q[1..] + [f];
      assert t[n..][Used(q[1..])..] == t[Used(q)..];
      ChainAppend(t[n..], st, nd, next, q[1..], f);
    }
  }

  // -------------------------------------------------------------- invariant

  function St(c: Core): nat { Pair(c.regs, 0, ERXSTL) }
  function Nd(c: Core): nat { Pair(c.regs, 0, ERXNDL) }
  function Rd(c: Core): nat { Pair(c.regs, 0, ERXRDPTL) }

  /** ERXST even, ERXND odd, and the two pointers inside the ring. */
  predicate RingSetUp(c: Core) {
    && St(c) < Nd(c) && St(c) % 2 == 0 && Nd(c) % 2 == 1
    && St(c) <= Rd(c) <= Nd(c) && Rd(c) % 2 == 0
  }

  /** The ring of c holds exactly the queue q, its head at ERXRDPT. */
  predicate Holds(c: Core, q: seq<Frame>) {
    && RingSetUp(c)
    && Used(q) < RingSize(c.regs)
    && c.rxWr == Advance(St(c), Nd(c), Rd(c), Used(q))
    && Chain(Turn(c.buf, St(c), Nd(c), Rd(c)), St(c), Nd(c), Rd(c), q)
  }

  /** The packet counter and PKTIF tell the length of the queue. */
  predicate Counted(c: Core, q: seq<Frame>) {
    c.regs[EPKTCNT] == |q| && (Bit(c.regs[EIR], 6) <==> q != [])
  }

  /** The write pointer less the read pointer is the space the packets take. */
  lemma UsedIsOccupied(c: Core, q: seq<Frame>)
    requires Holds(c, q)
    ensures UsedSpace(c) == Used(q)
  {
    hide Chain;
    hide Pair;
    hide Used;
    var size := RingSize(c.regs);
    var d := c.rxWr + size - Rd(c);
    assert d == Used(q) + size || d == Used(q);
    QuotientIs(d, size, if d == Used(q) then 0 else 1, Used(q));
  }

  lemma WriterAdvances(c: Core, len: nat)
    requires RingSetUp(c) && WriterInRing(c) && Need(len) <= RingSize(c.regs)
    ensures NextWriter(c, len) == Advance(St(c), Nd(c), c.rxWr, Need(len))
  {
    hide Pair;
    hide CRem;
    AdvanceIsRem(St(c), Nd(c), c.rxWr, Need(len));
  }

  lemma AdvanceIsRem(st: nat, nd: nat, p: nat, n: nat)
    requires st <= p <= nd && n <= nd - st + 1
    ensures st + CRem(p - st + n, nd - st + 1) == Advance(st, nd, p, n)
  {
    var size, d := nd - st + 1, p - st + n;
    QuotientIs(d, size, if d < size then 0 else 1, if d < size then d else d - size);
  }

  // ----------------------------------------- the writer stays in the ring

  /** A data byte that writes a half of ERXND. */
  predicate WritesRxEnd(c: Core, b: byte) {
    && c.byteIndex != 0 && (c.op == OP_WCR || c.op == OP_BFS || c.op == OP_BFC)
    && Bank(c.regs) == 0 && (c.addr % 32 == ERXNDL || c.addr % 32 == ERXNDL + 1)
  }

  /** None of the bytes of a command writes ERXND. */
  predicate LeavesRxEnd(c: Core, bytes: seq<byte>) {
    bytes != [] ==>
      var before := bytes[..|bytes| - 1];
      LeavesRxEnd(c, before) && !WritesRxEnd(RunBytes(c, before), bytes[|bytes| - 1])
  }

  /** The registers that hold the ring's bounds. */
  predicate SameBounds(r: RegFile, s: RegFile) { r[ERXSTL..ERXNDL + 2] == s[ERXSTL..ERXNDL + 2] }

  lemma BoundsPairs(r: RegFile, s: RegFile)
    requires SameBounds(r, s)
    ensures Pair(r, 0, ERXSTL) == Pair(s, 0, ERXSTL) && Pair(r, 0, ERXNDL) == Pair(s, 0, ERXNDL)
  {
    assert forall i :: ERXSTL <= i < ERXNDL + 2 ==> r[i] == r[ERXSTL..ERXNDL + 2][i - ERXSTL];
    assert forall i :: ERXSTL <= i < ERXNDL + 2 ==> s[i] == s[ERXSTL..ERXNDL + 2][i - ERXSTL];
  }

  /** What a register write sets off leaves the bounds alone; it moves the
      write pointer to ERXST or nowhere. */
  lemma AfterWriteBounds(c: Core, bank: nat, addr: byte)
    ensures var r := AfterWrite(c, bank, addr);
            && SameBounds(c.regs, r.regs)
            && r.rxWr == if bank == 0 && (addr % 32 == ERXSTL || addr % 32 == ERXSTH) then St(c) else c.rxWr
  {
    hide Pair;
    hide Bit;
    hide AndNotByte;
    hide OrByte;
    hide TxFrame;
    var a := addr % 32;
    var c1 := if a == REG_ECON1 && Bit(c.regs[ECON1], 3) then Transmit(c) else c;
    assert SameBounds(c.regs, c1.regs);
    var c2 := if a == REG_ECON2 && Bit(c1.regs[ECON2], 6) then c1.(regs := PacketDone(c1.regs)) else c1;
    assert SameBounds(c1.regs, c2.regs);
    BoundsPairs(c.regs, c2.regs);
  }

  lemma RegisterWriteBounds(c: Core, v: byte)
    ensures var a := c.addr % 32;
            var regs: RegFile := c.regs[Slot(Bank(c.regs), c.addr) := v];
            && (Bank(c.regs) == 0 && (a == ERXSTL || a == ERXSTH) ==> Bank(regs) == 0)
            && (Bank(c.regs) != 0 && (a == ERXSTL || a == ERXSTH) ==> Bank(regs) != 0)
            && (Bank(c.regs) != 0 || !(ERXSTL <= a < ERXNDL + 2) ==> SameBounds(c.regs, regs))
            && (Bank(c.regs) != 0 || !(ERXNDL <= a < ERXNDL + 2) ==> Pair(regs, 0, ERXNDL) == Nd(c))
  {
  }

  lemma WriteKeepsWriter(c: Core, v: byte)
    requires WriterInRing(c)
    requires !(Bank(c.regs) == 0 && (c.addr % 32 == ERXNDL || c.addr % 32 == ERXNDL + 1))
    ensures WriterInRing(WriteReg(c, v))
  {
    hide Pair;
    hide AfterWrite;
    hide Slot;
    hide Bank;
    hide SameBounds;
    RegisterWriteBounds(c, v);
    var regs: RegFile := c.regs[Slot(Bank(c.regs), c.addr) := v];
    var c1 := c.(regs := regs);
    AfterWriteBounds(c1, Bank(regs), c.addr);
    BoundsPairs(c1.regs, WriteReg(c, v).regs);
    var a := c.addr % 32;
    if !(Bank(c.regs) == 0 && (a == ERXSTL || a == ERXSTH)) { BoundsPairs(c.regs, regs); }
  }

  /** Any byte of any command that does not write ERXND keeps the writer in the
      ring; a writer left behind an ERXND lowered below it is the one way out. */
  lemma ByteKeepsWriter(c: Core, b: byte)
    requires WriterInRing(c) && !WritesRxEnd(c, b)
    ensures WriterInRing(ByteDone(c, b))
  {
    hide Pair;
    hide WriteReg;
    hide ReadReg;
    hide AndNotByte;
    hide OrByte;
    hide Bank;
    if c.byteIndex == 0 {
      OpcodeKeepsWriter(c, b);
    } else if c.op == OP_WCR {
      WriteKeepsWriter(c, b);
    } else if c.op == OP_BFS {
      WriteKeepsWriter(c, OrByte(ReadReg(c), b));
    } else if c.op == OP_BFC {
      WriteKeepsWriter(c, AndNotByte(ReadReg(c), b));
    } else {
      PointerMoves(c.regs, ERDPTL, NextRead(c.regs, Pair(c.regs, 0, ERDPTL)));
      PointerMoves(c.regs, EWRPTL, (Pair(c.regs, 0, EWRPTL) + 1) % BUFFER_SIZE);
    }
    hide SetPair;
  }

  lemma PointerMoves(regs: RegFile, lo: byte, v: word)
    requires lo == ERDPTL || lo == EWRPTL
    ensures var r := SetPair(regs, 0, lo, v);
            Pair(r, 0, ERXSTL) == Pair(regs, 0, ERXSTL) && Pair(r, 0, ERXNDL) == Pair(regs, 0, ERXNDL)
  {
    BoundsPairs(regs, SetPair(regs, 0, lo, v));
    hide Pair;
  }

  lemma OpcodeKeepsWriter(c: Core, b: byte)
    requires WriterInRing(c)
    ensures WriterInRing(DecodeOpcode(c, b))
  {
    hide SoftReset;
    hide Pair;
    hide ReadReg;
    AfterReset(c.(lastOpcode := b, op := OP_SOFT_RESET));
    AfterReset(c.(lastOpcode := b));
  }

  lemma AfterReset(c: Core)
    ensures WriterInRing(SoftReset(c))
  {
  }

  lemma {:induction false} CommandKeepsWriter(c: Core, bytes: seq<byte>)
    requires WriterInRing(c) && LeavesRxEnd(c, bytes)
    ensures WriterInRing(RunBytes(c, bytes))
    decreases bytes
  {
    hide ByteDone;
    hide WriterInRing;
    hide WritesRxEnd;
    if bytes == [] {
    } else {
      var before := bytes[..|bytes| - 1];
      CommandKeepsWriter(c, before);
      ByteKeepsWriter(RunBytes(c, before), bytes[|bytes| - 1]);
    }
  }

  /** And so does an arrival, which then stays inside the buffer too. */
  lemma ArrivalKeepsWriter(c: Core, f: seq<byte>)
    requires WriterInRing(c)
    ensures Screened(c, f) == RxOk ==> PacketFits(c, f)
    ensures WriterInRing(Inject(c, f).0)
  {
    hide Pair;
    hide Accepts;
    hide UsedSpace;
    hide Store;
    hide Packet;
    hide OrByte;
    hide SetPair;
    if Screened(c, f) == RxOk {
      NextInRing(c, |f|);
      ArrivalBounds(c.regs, NextWriter(c, |f|));
    } else if Screened(c, f) == RxOverflow {
      OverflowBounds(c.regs);
    }
  }

  lemma NextInRing(c: Core, len: nat)
    requires WriterInRing(c) && RingSize(c.regs) > 1
    ensures St(c) <= NextWriter(c, len) <= Nd(c)
  {
    hide Pair;
    var d, size := c.rxWr - St(c) + Need(len), RingSize(c.regs);
    DivMod(d, size);
  }

  lemma ArrivalBounds(regs: RegFile, next: word)
    ensures var r := SetPair(regs, 0, ERXWRPTL, next);
            var r': RegFile := r[EPKTCNT := if r[EPKTCNT] < 0xFF then r[EPKTCNT] + 1 else 0xFF];
            var s: RegFile := r'[EIR := OrByte(r[EIR], 0x40)];
            Pair(s, 0, ERXSTL) == Pair(regs, 0, ERXSTL) && Pair(s, 0, ERXNDL) == Pair(regs, 0, ERXNDL)
  {
    hide OrByte;
  }

  lemma OverflowBounds(regs: RegFile)
    ensures var r: RegFile := regs[EIR := OrByte(regs[EIR], 0x01)][ESTAT := OrByte(regs[ESTAT], 0x40)];
            Pair(r, 0, ERXSTL) == Pair(regs, 0, ERXSTL) && Pair(r, 0, ERXNDL) == Pair(regs, 0, ERXNDL)
  {
    hide OrByte;
  }

  // ------------------------------------------------------ a frame arriving

  /** Storing the packet of f at the write pointer appends f to the chain. */
  lemma StoreAppends(buf: Buffer, st: nat, nd: nat, rd: nat, q: seq<Frame>, f: Frame)
    requires st <= rd <= nd < BUFFER_SIZE && Used(q) + Need(|f|) <= nd - st + 1
    requires Chain(Turn(buf, st, nd, rd), st, nd, rd, q)
    ensures Used(q + [f]) == Used(q) + Need(|f|)
    ensures var wr := Advance(st, nd, rd, Used(q));
            var next := Advance(st, nd, rd, Used(q) + Need(|f|));
            var b := Store(buf, st, nd, wr, Packet(next, f));
            Chain(Turn(b, st, nd, rd), st, nd, rd, q + [f])
  {
    hide Packet;
    hide Need;
    hide Store;
    var u, wr := Used(q), Advance(st, nd, rd, Used(q));
    var pk := Packet(Advance(st, nd, rd, u + Need(|f|)), f);
    var b := Store(buf, st, nd, wr, pk);
    var t, t' := Turn(buf, st, nd, rd), Turn(b, st, nd, rd);
    StoreTurn(buf, st, nd, wr, pk);
    TurnRotates(buf, st, nd, rd, u);
    TurnRotates(b, st, nd, rd, u);
    hide Turn;
    StoredBehind(t, t', u, pk);
    ChainPrefix(t, t', st, nd, rd, q);
    assert t'[u..][..|f| + 10] == pk;
    ChainAppend(t', st, nd, rd, q, f);
  }

  lemma StoredBehind(t: seq<byte>, t': seq<byte>, u: nat, pk: seq<byte>)
    requires |t| == |t'| && u + |pk| <= |t|
    requires t'[u..] + t'[..u] == pk + (t[u..] + t[..u])[|pk|..]
    ensures t'[..u] == t[..u] && t'[u..][..|pk|] == pk
  {
    assert (t[u..] + t[..u])[|pk|..] == t[u + |pk|..] + t[..u];
    assert t'[u..] + t'[..u] == (pk + t[u + |pk|..]) + t[..u];
    SameEnds(t'[u..], t'[..u], pk + t[u + |pk|..], t[..u]);
  }

  /** Registers a received frame never touches: everything but ERXWRPT,
      EPKTCNT, EIR and ESTAT. */
  predicate RxQuiet(r: RegFile, s: RegFile) {
    forall i :: 0 <= i < 113 && i != ERXWRPTL && i != ERXWRPTL + 1 && i != EPKTCNT && i != EIR && i != ESTAT
      ==> r[i] == s[i]
  }

  lemma RxQuietPairs(r: RegFile, s: RegFile)
    requires RxQuiet(r, s)
    ensures Pair(r, 0, ERXSTL) == Pair(s, 0, ERXSTL) && Pair(r, 0, ERXNDL) == Pair(s, 0, ERXNDL)
    ensures Pair(r, 0, ERXRDPTL) == Pair(s, 0, ERXRDPTL)
    ensures Bank(r) == Bank(s) && Bit(r[ECON1], 2) == Bit(s[ECON1], 2)
    ensures forall f: Frame :: Accepts(r, f) == Accepts(s, f)
  {
    forall f: Frame ensures Accepts(r, f) == Accepts(s, f) {
      assert forall i :: 0 <= i < 6 ==> r[AddressSlot(i)] == s[AddressSlot(i)];
    }
  }

  /** What becomes of a frame that arrives while the queue is q. */
  function Verdict(regs: RegFile, q: seq<Frame>, f: seq<byte>): RxCode {
    if |f| < 14 || |f| > MAX_FRAME - 4 then RxBadLength
    else if !Bit(regs[ECON1], 2) then RxDisabled
    else if !Accepts(regs, f) then RxFiltered
    else if Used(q) + Need(|f|) >= RingSize(regs) then RxOverflow
    else RxOk
  }

  lemma OverflowRegisters(regs: RegFile)
    ensures var r: RegFile := regs[EIR := OrByte(regs[EIR], 0x01)][ESTAT := OrByte(regs[ESTAT], 0x40)];
            RxQuiet(regs, r) && Bit(r[EIR], 0) && Bit(r[ESTAT], 6) && r[EPKTCNT] == regs[EPKTCNT]
            && Bit(r[EIR], 6) == Bit(regs[EIR], 6)
  {
    OrBit(regs[EIR], 0x01, 0);
    OrBit(regs[EIR], 0x01, 6);
    OrBit(regs[ESTAT], 0x40, 6);
    Pow2Bit(0, 0);
    Pow2Bit(0, 6);
    Pow2Bit(6, 6);
    assert Pow2(6) == 0x40;
  }

  lemma ArrivalRegisters(regs: RegFile, next: word)
    ensures var r1 := SetPair(regs, 0, ERXWRPTL, next);
            var n := if r1[EPKTCNT] < 0xFF then r1[EPKTCNT] + 1 else 0xFF;
            var r: RegFile := r1[EPKTCNT := n][EIR := OrByte(r1[EIR], 0x40)];
            && RxQuiet(regs, r) && Bit(r[EIR], 6)
            && r[EPKTCNT] == if regs[EPKTCNT] < 255 then regs[EPKTCNT] + 1 else 255
  {
    hide OrByte;
    SixthBitSet(regs[EIR]);
    hide Bit;
  }

  lemma SixthBitSet(eir: byte)
    ensures Bit(OrByte(eir, 0x40), 6)
  {
    assert Pow2(6) == 0x40;
    OrBit(eir, 0x40, 6);
    Pow2Bit(6, 6);
  }

  /** Taking a frame in appends it to the queue. */
  lemma TakeInRefines(c: Core, q: seq<Frame>, f: Frame)
    requires Holds(c, q) && Used(q) + Need(|f|) < RingSize(c.regs) && WriterInRing(c)
    ensures var c' := TakeIn(c, St(c), Nd(c), f, NextWriter(c, |f|));
            && RxQuiet(c.regs, c'.regs) && Holds(c', q + [f]) && Bit(c'.regs[EIR], 6)
            && c'.regs[EPKTCNT] == if c.regs[EPKTCNT] < 255 then c.regs[EPKTCNT] + 1 else 255
  {
    hide Chain;
    hide Turn;
    hide Packet;
    hide Store;
    hide NextWriter;
    hide Pair;
    hide SetPair;
    hide RxQuiet;
    hide OrByte;
    hide Used;
    hide Need;
    hide Accepts;
    ArrivalRegisters(c.regs, NextWriter(c, |f|));
    WriterAdvances(c, |f|);
    StoreAppends(c.buf, St(c), Nd(c), Rd(c), q, f);
    RxQuietPairs(c.regs, TakeIn(c, St(c), Nd(c), f, NextWriter(c, |f|)).regs);
  }

  /** Arrival refines an append to the queue, or nothing. */
  lemma InjectRefines(c: Core, q: seq<Frame>, f: seq<byte>)
    requires Holds(c, q)
    ensures WriterInRing(c)
    ensures var (c', code) := Inject(c, f);
            && code == Verdict(c.regs, q, f)
            && RxQuiet(c.regs, c'.regs)
            && Holds(c', if code == RxOk then q + [f] else q)
            && (code != RxOk ==> c'.buf == c.buf && c'.rxWr == c.rxWr && c'.regs[EPKTCNT] == c.regs[EPKTCNT]
                                 && Bit(c'.regs[EIR], 6) == Bit(c.regs[EIR], 6))
            && (code == RxOk ==> Bit(c'.regs[EIR], 6)
                                 && c'.regs[EPKTCNT] == if c.regs[EPKTCNT] < 255 then c.regs[EPKTCNT] + 1 else 255)
            && (code == RxOverflow ==> Bit(c'.regs[EIR], 0) && Bit(c'.regs[ESTAT], 6))
            && c' == c.(buf := c'.buf, rxWr := c'.rxWr, regs := c'.regs)
  {
    hide Chain;
    hide Turn;
    hide Packet;
    hide Store;
    hide UsedSpace;
    hide NextWriter;
    hide Pair;
    hide SetPair;
    hide RxQuiet;
    hide OrByte;
    hide Accepts;
    hide Used;
    hide Need;
    HoldsIsSetUp(c, q);
    var (c', code) := Inject(c, f);
    UsedIsOccupied(c, q);
    RxQuietSelf(c.regs);
    if code == RxOk {
      TakeInRefines(c, q, f);
    } else {
      OverflowRegisters(c.regs);
      RxQuietPairs(c.regs, c'.regs);
    }
  }

  /** Ring places whose bytes belong to a queued packet. */
  predicate Unreleased(c: Core, q: seq<Frame>, i: nat)
    requires RingSetUp(c) && Used(q) < RingSize(c.regs)
  {
    exists k :: 0 <= k < Used(q) && i == Advance(St(c), Nd(c), Rd(c), k)
  }

  lemma StoreSpares(buf: Buffer, st: nat, nd: nat, wr: nat, pk: seq<byte>, j: nat)
    requires st <= wr <= nd < BUFFER_SIZE && |pk| <= j < nd - st + 1
    ensures Store(buf, st, nd, wr, pk)[Advance(st, nd, wr, j)] == buf[Advance(st, nd, wr, j)]
  {
    StoreTurn(buf, st, nd, wr, pk);
    TurnAt(buf, st, nd, wr, j);
    TurnAt(Store(buf, st, nd, wr, pk), st, nd, wr, j);
    hide Turn;
  }

  lemma BehindWriter(st: nat, nd: nat, rd: nat, u: nat, k: nat)
    requires st <= rd <= nd && k < u <= nd - st + 1
    ensures Advance(st, nd, Advance(st, nd, rd, u), nd - st + 1 - u + k) == Advance(st, nd, rd, k)
  {
  }

  /** An accepted frame overwrites no byte of a packet not yet released, and
      nothing outside the ring. */
  lemma InjectSparesUnreleased(c: Core, q: seq<Frame>, f: seq<byte>, i: nat)
    requires Holds(c, q) && i < BUFFER_SIZE && (Unreleased(c, q, i) || i < St(c) || i > Nd(c))
    ensures WriterInRing(c) && Inject(c, f).0.buf[i] == c.buf[i]
  {
    hide Chain;
    hide Packet;
    hide Store;
    hide Turn;
    hide UsedSpace;
    hide NextWriter;
    hide Pair;
    hide SetPair;
    hide OrByte;
    hide Accepts;
    hide Used;
    HoldsIsSetUp(c, q);
    UsedIsOccupied(c, q);
    if Inject(c, f).1 == RxOk {
      var st, nd, u := St(c), Nd(c), Used(q);
      var pk := Packet(NextWriter(c, |f|), f);
      if i < st || i > nd {
        StoreTurn(c.buf, st, nd, c.rxWr, pk);
        OutsideSame(c.buf, Store(c.buf, st, nd, c.rxWr, pk), st, nd, i);
      } else {
        var k :| 0 <= k < u && i == Advance(st, nd, Rd(c), k);
        BehindWriter(st, nd, Rd(c), u, k);
        StoreSpares(c.buf, st, nd, c.rxWr, pk, nd - st + 1 - u + k);
      }
    }
  }

  lemma OutsideSame(a: Buffer, b: Buffer, st: nat, nd: nat, i: nat)
    requires st <= nd < BUFFER_SIZE && i < BUFFER_SIZE && (i < st || i > nd)
    requires b[..st] == a[..st] && b[nd + 1..] == a[nd + 1..]
    ensures b[i] == a[i]
  {
    if i < st { assert b[..st][i] == a[..st][i]; } else { assert b[nd + 1..][i - nd - 1] == a[nd + 1..][i - nd - 1]; }
  }

  /** An overflow raises RXERIF and BUFER and changes not a bit besides. */
  lemma OverflowOnlyFlags(c: Core, f: seq<byte>)
    requires Screened(c, f) == RxOverflow
    ensures var r := Inject(c, f).0;
            && r == c.(regs := r.regs)
            && (forall i :: 0 <= i < 113 && i != EIR && i != ESTAT ==> r.regs[i] == c.regs[i])
            && (forall k :: 0 <= k < 8 ==> Bit(r.regs[EIR], k) == (Bit(c.regs[EIR], k) || k == 0))
            && (forall k :: 0 <= k < 8 ==> Bit(r.regs[ESTAT], k) == (Bit(c.regs[ESTAT], k) || k == 6))
  {
    hide Bit;
    hide UsedSpace;
    hide Accepts;
    FlagAdded(c.regs[EIR], 0x01, 0);
    FlagAdded(c.regs[ESTAT], 0x40, 6);
    hide OrByte;
  }

  lemma FlagAdded(flags: byte, mask: byte, b: nat)
    requires (mask == 0x01 && b == 0) || (mask == 0x40 && b == 6)
    ensures forall k :: 0 <= k < 8 ==> Bit(OrByte(flags, mask), k) == (Bit(flags, k) || k == b)
  {
    assert Pow2(0) == 1 && Pow2(6) == 0x40;
    forall k | 0 <= k < 8 ensures Bit(OrByte(flags, mask), k) == (Bit(flags, k) || k == b) {
      OrBit(flags, mask, k);
      Pow2Bit(b, k);
    }
  }

  lemma RxQuietSelf(r: RegFile)
    ensures RxQuiet(r, r)
  {
  }

  // ------------------------------------------------------------- a release

  /** Everything but the read pointer, the receive pointers, the packet counter
      and the flags. */
  predicate SameSetup(r: RegFile, s: RegFile) {
    forall i :: ERDPTL + 2 <= i < 113 && !(ERXRDPTL <= i < ERXWRPTL + 2)
                && i != EPKTCNT && i != EIR && i != ESTAT && i != ECON2
      ==> r[i] == s[i]
  }

  lemma SameVerdict(r: RegFile, s: RegFile, q: seq<Frame>, f: seq<byte>)
    requires SameSetup(r, s)
    ensures Pair(r, 0, ERXSTL) == Pair(s, 0, ERXSTL) && Pair(r, 0, ERXNDL) == Pair(s, 0, ERXNDL)
    ensures Bank(r) == Bank(s) && Verdict(r, q, f) == Verdict(s, q, f)
  {
    hide Used;
    hide Need;
    if |f| >= 6 {
      assert forall i :: 0 <= i < 6 ==> r[AddressSlot(i)] == s[AddressSlot(i)];
      assert Accepts(r, f) == Accepts(s, f);
    }
  }

  /** The next-packet pointer in the header at the head of the ring. */
  function NextPointer(c: Core): word
    requires RingSetUp(c)
  {
    hide Turn;
    hide Pair;
    var t := Turn(c.buf, St(c), Nd(c), Rd(c));
    var lo: int, hi: int := t[0], t[1];
    lo + 256 * hi
  }

  /** The driver gives the head packet back: it writes the next-packet pointer
      to ERXRDPT and sets PKTDEC. */
  function Release(c: Core): Core
    requires RingSetUp(c)
  {
    var next := NextPointer(c);
    var c1 := Command(c, [OP_WCR + ERXRDPTL, next % 256]);
    var c2 := Command(c1, [OP_WCR + ERXRDPTH, next / 256]);
    Command(c2, [OP_BFS + REG_ECON2, 0x40])
  }

  lemma EconBit(e: byte)
    ensures Bit(OrByte(e, 0x40), 6)
  {
    OrBit(e, 0x40, 6);
    Pow2Bit(6, 6);
    assert Pow2(6) == 0x40;
  }

  lemma PacketDoneCommand(c: Core)
    ensures var c' := Command(c, [OP_BFS + REG_ECON2, 0x40]);
            c'.regs == PacketDone(c.regs[ECON2 := OrByte(c.regs[ECON2], 0x40)]) && c'.buf == c.buf
            && c'.rxWr == c.rxWr && c'.log == c.log && c'.byteCount == c.byteCount
  {
    hide PacketDone;
    hide SetPair;
    hide Pair;
    hide Transmit;
    hide SoftReset;
    hide OrByte;
    hide Command;
    hide RunBytes;
    TwoByteCommand(c, OP_BFS + REG_ECON2, 0x40);
    EconBit(c.regs[ECON2]);
  }

  lemma PacketDoneRegisters(regs: RegFile)
    ensures var r := PacketDone(regs[ECON2 := OrByte(regs[ECON2], 0x40)]);
            && (forall i :: 0 <= i < 113 && i != EPKTCNT && i != EIR && i != ECON2 ==> r[i] == regs[i])
            && r[EPKTCNT] == (if regs[EPKTCNT] > 0 then regs[EPKTCNT] - 1 else 0)
            && (r[EPKTCNT] == 0 ==> !Bit(r[EIR], 6)) && (r[EPKTCNT] > 0 ==> r[EIR] == regs[EIR])
  {
    AndNotBit(regs[EIR], 0x40, 6);
    Pow2Bit(6, 6);
    assert Pow2(6) == 0x40;
  }

  lemma ReadPointerSet(regs: RegFile, next: word)
    requires next < BUFFER_SIZE
    ensures var r: RegFile := regs[ERXRDPTL := next % 256][ERXRDPTH := next / 256];
            Pair(r, 0, ERXRDPTL) == next && Bank(r) == Bank(regs)
  {
  }

  lemma ReleaseRegisters(c: Core)
    requires RingSetUp(c) && Bank(c.regs) == 0 && NextPointer(c) < BUFFER_SIZE
    ensures var c' := Release(c);
            && SameSetup(c.regs, c'.regs) && Rd(c') == NextPointer(c)
            && c'.buf == c.buf && c'.rxWr == c.rxWr && c'.log == c.log && c'.byteCount == c.byteCount
            && c'.regs[EPKTCNT] == (if c.regs[EPKTCNT] > 0 then c.regs[EPKTCNT] - 1 else 0)
            && (if c'.regs[EPKTCNT] == 0 then !Bit(c'.regs[EIR], 6) else c'.regs[EIR] == c.regs[EIR])
  {
    hide Command;
    hide PacketDone;
    hide Turn;
    var next := NextPointer(c);
    hide NextPointer;
    var c1 := Command(c, [OP_WCR + ERXRDPTL, next % 256]);
    var c2 := Command(c1, [OP_WCR + ERXRDPTH, next / 256]);
    WriteCommand(c, ERXRDPTL, next % 256);
    WriteCommand(c1, ERXRDPTH, next / 256);
    ReadPointerSet(c.regs, next);
    PacketDoneCommand(c2);
    PacketDoneRegisters(c2.regs);
  }

  lemma HeadPointer(c: Core, q: seq<Frame>)
    requires Holds(c, q) && q != []
    ensures NextPointer(c) == Advance(St(c), Nd(c), Rd(c), Need(|q[0]|))
  {
    hide Pair;
    hide Fcs;
    var t, f := Turn(c.buf, St(c), Nd(c), Rd(c)), q[0];
    hide Turn;
    var next := Advance(St(c), Nd(c), Rd(c), Need(|f|));
    var pk := Packet(next, f);
    assert t[..|f| + 10] == pk;
    assert t[0] == t[..|f| + 10][0] && t[1] == t[..|f| + 10][1];
  }

  /** The ring turned to behind its head packet holds the rest of the queue. */
  lemma ChainTail(buf: Buffer, st: nat, nd: nat, rd: nat, q: seq<Frame>)
    requires st <= rd <= nd < BUFFER_SIZE && Used(q) <= nd - st + 1 && q != []
    requires Chain(Turn(buf, st, nd, rd), st, nd, rd, q)
    ensures var rd' := Advance(st, nd, rd, Need(|q[0]|));
            Chain(Turn(buf, st, nd, rd'), st, nd, rd', q[1..])
  {
    hide Packet;
    var n := Need(|q[0]|);
    hide Need;
    var rd' := Advance(st, nd, rd, n);
    var t := Turn(buf, st, nd, rd);
    TurnRotates(buf, st, nd, rd, n);
    hide Turn;
    assert Chain(t[n..], st, nd, rd', q[1..]);
    ChainPrefix(t[n..], t[n..] + t[..n], st, nd, rd', q[1..]);
  }

  /** A release refines taking the head off the queue. */
  lemma ReleaseRefines(c: Core, q: seq<Frame>)
    requires Holds(c, q) && q != [] && Bank(c.regs) == 0
    ensures var c' := Release(c);
            && Holds(c', q[1..]) && SameSetup(c.regs, c'.regs) && c'.buf == c.buf
            && c'.regs[EPKTCNT] == (if c.regs[EPKTCNT] > 0 then c.regs[EPKTCNT] - 1 else 0)
            && (if c'.regs[EPKTCNT] == 0 then !Bit(c'.regs[EIR], 6) else c'.regs[EIR] == c.regs[EIR])
  {
    hide Release;
    hide SameSetup;
    hide Packet;
    hide Pair;
    hide NextPointer;
    hide Turn;
    hide Bit;
    hide Chain;
    hide Used;
    hide Need;
    UsedHead(q);
    HeadPointer(c, q);
    ChainTail(c.buf, St(c), Nd(c), Rd(c), q);
    ReleaseRegisters(c);
    SameVerdict(c.regs, Release(c).regs, q, []);
  }

  lemma UsedHead(q: seq<Frame>)
    requires q != []
    ensures Used(q) == Need(|q[0]|) + Used(q[1..])
  {
  }

  // ----------------------------------------------------------- whole runs

  /** A frame arrives; the driver reads from the buffer, clocking out any bytes;
      the driver gives the head packet back. */
  datatype RxEvent = Arrive(frame: seq<byte>) | ReadOut(dummies: seq<byte>) | GiveBack

  /** One event on the chip. The driver gives a packet back only when EPKTCNT
      says there is one. */
  function ChipStep(c: Core, ev: RxEvent): (r: (Core, RxCode))
    requires RingSetUp(c) && WriterInRing(c)
  {
    match ev
    case Arrive(f) => Inject(c, f)
    case ReadOut(dummies) => (Command(c, [OP_RBM] + dummies), RxOk)
    case GiveBack => (if c.regs[EPKTCNT] == 0 then c else Release(c), RxOk)
  }

  /** The same event on a plain queue of frames. */
  function QueueStep(regs: RegFile, q: seq<Frame>, ev: RxEvent): (seq<Frame>, RxCode) {
    match ev
    case Arrive(f) =>
      var v := Verdict(regs, q, f);
      (if v == RxOk then q + [f] else q, v)
    case ReadOut(_) => (q, RxOk)
    case GiveBack => (if q == [] then q else q[1..], RxOk)
  }

  function QueueRun(regs: RegFile, q: seq<Frame>, events: seq<RxEvent>): (r: (seq<Frame>, seq<RxCode>))
    decreases events
  {
    if events == [] then (q, [])
    else
      hide *;
      var (q1, v) := QueueStep(regs, q, events[0]);
      var (q2, vs) := QueueRun(regs, q1, events[1..]);
      (q2, [v] + vs)
  }

  /** At no point of the run does the queue outgrow the 8-bit packet counter. */
  predicate WithinCounter(regs: RegFile, q: seq<Frame>, events: seq<RxEvent>)
    decreases events
  {
    |q| <= 255 && (events != [] ==> WithinCounter(regs, QueueStep(regs, q, events[0]).0, events[1..]))
  }

  predicate Tracks(c: Core, q: seq<Frame>) {
    Holds(c, q) && Counted(c, q) && Bank(c.regs) == 0
  }

  lemma HoldsIsSetUp(c: Core, q: seq<Frame>)
    requires Holds(c, q)
    ensures RingSetUp(c) && WriterInRing(c)
  {
    hide Chain;
    hide Pair;
  }

  lemma QuietIsSameSetup(r: RegFile, s: RegFile)
    requires RxQuiet(r, s)
    ensures SameSetup(r, s)
  {
  }

  lemma StepTracks(c: Core, q: seq<Frame>, ev: RxEvent)
    requires Tracks(c, q) && |QueueStep(c.regs, q, ev).0| <= 255
    ensures WriterInRing(c)
    ensures var (c', code) := ChipStep(c, ev);
            var (q', v) := QueueStep(c.regs, q, ev);
            Tracks(c', q') && code == v && SameSetup(c.regs, c'.regs)
  {
    HoldsIsSetUp(c, q);
    hide Holds;
    hide Inject;
    hide Release;
    hide Verdict;
    hide RingSetUp;
    match ev
    case Arrive(f) =>
      InjectRefines(c, q, f);
      var c' := Inject(c, f).0;
      QuietIsSameSetup(c.regs, c'.regs);
      SameVerdict(c.regs, c'.regs, q, f);
    case ReadOut(dummies) =>
      ReadKeepsQueue(c, q, dummies);
    case GiveBack =>
      if q != [] {
        ReleaseRefines(c, q);
        SameVerdict(c.regs, Release(c).regs, q, []);
      }
  }

  lemma ReadLeaves(c: Core, n: nat)
    ensures var r := ReadState(c, n);
            && r.buf == c.buf && r.rxWr == c.rxWr && SameSetup(c.regs, r.regs)
            && Pair(r.regs, 0, ERXRDPTL) == Pair(c.regs, 0, ERXRDPTL)
            && r.regs[EPKTCNT] == c.regs[EPKTCNT] && r.regs[EIR] == c.regs[EIR]
  {
    hide ReadPosition;
    var pos := ReadPosition(c.regs, Pair(c.regs, 0, ERDPTL), n);
    PairOfSet(c.regs, ERDPTL, pos, ERXRDPTL);
    hide Pair;
  }

  /** Reading from the buffer leaves the queue as it is. */
  lemma ReadKeepsQueue(c: Core, q: seq<Frame>, dummies: seq<byte>)
    requires Tracks(c, q)
    ensures var r := Command(c, [OP_RBM] + dummies);
            Tracks(r, q) && SameSetup(c.regs, r.regs)
  {
    hide Command;
    hide ReadState;
    hide SameSetup;
    hide Chain;
    hide Turn;
    hide Pair;
    ReadBuffer(c, dummies);
    ReadLeaves(c, |dummies|);
    SameVerdict(c.regs, ReadState(c, |dummies|).regs, q, []);
  }

  lemma {:induction false} SameQueueRun(r: RegFile, s: RegFile, q: seq<Frame>, events: seq<RxEvent>)
    requires SameSetup(r, s)
    ensures QueueRun(r, q, events) == QueueRun(s, q, events)
    ensures WithinCounter(r, q, events) == WithinCounter(s, q, events)
    decreases events
  {
    hide SameSetup;
    hide Verdict;
    if events == [] {
    } else {
      if events[0].Arrive? { SameVerdict(r, s, q, events[0].frame); }
      SameQueueRun(r, s, QueueStep(r, q, events[0]).0, events[1..]);
    }
  }

  /** The chip over a whole run of arrivals and releases. */
  ghost function ChipRun(c: Core, q: seq<Frame>, events: seq<RxEvent>): (Core, seq<RxCode>)
    requires Tracks(c, q) && WithinCounter(c.regs, q, events)
    decreases events
  {
    if events == [] then (c, [])
    else
      hide Tracks;
      hide QueueStep;
      hide ChipStep;
      hide SameSetup;
      var q1 := QueueStep(c.regs, q, events[0]).0;
      WithinNow(c.regs, q1, events[1..]);
      TracksIsSetUp(c, q);
      StepTracks(c, q, events[0]);
      var (c1, code) := ChipStep(c, events[0]);
      SameQueueRun(c.regs, c1.regs, q1, events[1..]);
      var (c2, codes) := ChipRun(c1, q1, events[1..]);
      (c2, [code] + codes)
  }

  lemma WithinNow(regs: RegFile, q: seq<Frame>, events: seq<RxEvent>)
    requires WithinCounter(regs, q, events)
    ensures |q| <= 255
  {
  }

  lemma TracksIsSetUp(c: Core, q: seq<Frame>)
    requires Tracks(c, q)
    ensures RingSetUp(c) && WriterInRing(c)
  {
    hide Holds;
    HoldsIsSetUp(c, q);
  }

  /** Over every run, across any number of turns of the ring, the chip answers
      as the plain queue does and ends up holding exactly that queue. */
  lemma {:induction false} RingIsFifo(c: Core, q: seq<Frame>, events: seq<RxEvent>)
    requires Tracks(c, q) && WithinCounter(c.regs, q, events)
    ensures var (c', codes) := ChipRun(c, q, events);
            var (q', verdicts) := QueueRun(c.regs, q, events);
            Tracks(c', q') && codes == verdicts && FollowChain(c', |q'|) == q'
    decreases events
  {
    if events == [] {
      FollowIsQueue(c, q);
    } else {
      hide Tracks;
      hide QueueStep;
      hide ChipStep;
      hide SameSetup;
      hide FollowChain;
      var q1 := QueueStep(c.regs, q, events[0]).0;
      WithinNow(c.regs, q1, events[1..]);
      TracksIsSetUp(c, q);
      StepTracks(c, q, events[0]);
      var (c1, code) := ChipStep(c, events[0]);
      SameQueueRun(c.regs, c1.regs, q1, events[1..]);
      RingIsFifo(c1, q1, events[1..]);
    }
  }

  // --------------------------------------------- reading the chain back

  /** n ring bytes from p on, as a reader that goes from nd back to st. */
  function ReadRing(buf: Buffer, st: nat, nd: nat, p: nat, n: nat): (r: seq<byte>)
    requires st <= p <= nd < BUFFER_SIZE
    ensures |r| == n
    decreases n
  {
    if n == 0 then [] else [buf[p]] + ReadRing(buf, st, nd, if p == nd then st else p + 1, n - 1)
  }

  /** n frames, each found through the next-packet pointer of the one before:
      six header bytes, the byte count in them, the frame, its FCS. */
  function Follow(buf: Buffer, st: nat, nd: nat, p: nat, n: nat): seq<seq<byte>>
    requires st <= p <= nd < BUFFER_SIZE
    decreases n
  {
    if n == 0 then []
    else
      var h := ReadRing(buf, st, nd, p, 6);
      var h0: int, h1: int, h2: int, h3: int := h[0], h[1], h[2], h[3];
      var next, count := h0 + 256 * h1, h2 + 256 * h3;
      if count < 4 || !(st <= next <= nd) then []
      else [ReadRing(buf, st, nd, p, 6 + count)[6..2 + count]] + Follow(buf, st, nd, next, n - 1)
  }

  function FollowChain(c: Core, n: nat): seq<seq<byte>> {
    if RingSetUp(c) then Follow(c.buf, St(c), Nd(c), Rd(c), n) else []
  }

  lemma {:induction false} ReadIsTurn(buf: Buffer, st: nat, nd: nat, p: nat, n: nat)
    requires st <= p <= nd < BUFFER_SIZE && n <= nd - st + 1
    ensures ReadRing(buf, st, nd, p, n) == Turn(buf, st, nd, p)[..n]
    decreases n
  {
    if n == 0 {
    } else {
      ReadIsTurn(buf, st, nd, if p == nd then st else p + 1, n - 1);
      TurnRotates(buf, st, nd, p, 1);
      RotatedPrefix(Turn(buf, st, nd, p), n);
    }
  }

  lemma RotatedPrefix(t: seq<byte>, n: nat)
    requires 1 <= n <= |t|
    ensures [t[0]] + (t[1..] + t[..1])[..n - 1] == t[..n]
  {
    assert (t[1..] + t[..1])[..n - 1] == t[1..n];
  }

  lemma PacketFields(next: word, f: Frame, pk: seq<byte>)
    requires pk == Packet(next, f)
    ensures |pk| == |f| + 10
    ensures var b0: int, b1: int, b2: int, b3: int := pk[0], pk[1], pk[2], pk[3];
            b0 + 256 * b1 == next && b2 + 256 * b3 == |f| + 4
    ensures pk[6..|f| + 6] == f && pk[|f| + 6..] == Fcs(f)
  {
    hide Fcs;
  }

  /** The packet at p, as a reader of the ring sees it. */
  lemma PacketRead(buf: Buffer, st: nat, nd: nat, p: nat, f: Frame, next: word)
    requires st <= p <= nd < BUFFER_SIZE && |f| + 10 <= nd - st + 1
    requires Turn(buf, st, nd, p)[..|f| + 10] == Packet(next, f)
    ensures var h := ReadRing(buf, st, nd, p, 6);
            var h0: int, h1: int, h2: int, h3: int := h[0], h[1], h[2], h[3];
            h0 + 256 * h1 == next && h2 + 256 * h3 == |f| + 4
    ensures ReadRing(buf, st, nd, p, |f| + 10)[6..|f| + 6] == f
  {
    hide Packet;
    hide Turn;
    hide ReadRing;
    var pk := Turn(buf, st, nd, p)[..|f| + 10];
    PacketFields(next, f, pk);
    ReadIsTurn(buf, st, nd, p, 6);
    ReadIsTurn(buf, st, nd, p, |f| + 10);
    PrefixAt(Turn(buf, st, nd, p), 6, |f| + 10);
    hide Fcs;
    hide Need;
  }

  lemma PrefixAt(t: seq<byte>, m: nat, n: nat)
    requires m <= n <= |t|
    ensures forall i :: 0 <= i < m ==> t[..m][i] == t[..n][i]
  {
  }

  lemma ChainHead(t: seq<byte>, st: nat, nd: nat, p: nat, q: seq<Frame>)
    requires st <= p <= nd < BUFFER_SIZE && Used(q) <= nd - st + 1 && q != []
    requires |t| == nd - st + 1 && Chain(t, st, nd, p, q)
    ensures Need(|q[0]|) <= nd - st + 1 && |q[0]| + 10 <= nd - st + 1
    ensures t[..|q[0]| + 10] == Packet(Advance(st, nd, p, Need(|q[0]|)), q[0])
  {
    hide Packet;
    hide Advance;
  }

  lemma FollowOne(buf: Buffer, st: nat, nd: nat, p: nat, n: nat, next: nat, count: nat)
    requires st <= p <= nd < BUFFER_SIZE && st <= next <= nd && n > 0 && count >= 4
    requires var h := ReadRing(buf, st, nd, p, 6);
             var h0: int, h1: int, h2: int, h3: int := h[0], h[1], h[2], h[3];
             h0 + 256 * h1 == next && h2 + 256 * h3 == count
    ensures Follow(buf, st, nd, p, n)
            == [ReadRing(buf, st, nd, p, 6 + count)[6..2 + count]] + Follow(buf, st, nd, next, n - 1)
  {
    hide ReadRing;
  }

  lemma {:induction false} FollowTurn(buf: Buffer, st: nat, nd: nat, p: nat, q: seq<Frame>)
    requires st <= p <= nd < BUFFER_SIZE && Used(q) <= nd - st + 1
    requires Chain(Turn(buf, st, nd, p), st, nd, p, q)
    ensures Follow(buf, st, nd, p, |q|) == q
    decreases q
  {
    hide Turn;
    hide Chain;
    hide Packet;
    hide ReadRing;
    hide Need;
    if q == [] { return; }
    var f := q[0];
    ChainHead(Turn(buf, st, nd, p), st, nd, p, q);
    var next := Advance(st, nd, p, Need(|f|));
    hide Advance;
    PacketRead(buf, st, nd, p, f, next);
    ChainTail(buf, st, nd, p, q);
    FollowTurn(buf, st, nd, next, q[1..]);
    FollowOne(buf, st, nd, p, |q|, next, |f| + 4);
  }

  /** Following the next-packet pointers from ERXRDPT decodes exactly the
      queued frames, oldest first. */
  lemma FollowIsQueue(c: Core, q: seq<Frame>)
    requires Tracks(c, q)
    ensures FollowChain(c, |q|) == q
  {
    FollowTurn(c.buf, St(c), Nd(c), Rd(c), q);
  }

  lemma {:induction false} ReadPositionAdvances(c: Core, k: nat)
    requires RingSetUp(c) && k <= RingSize(c.regs)
    ensures ReadPosition(c.regs, Rd(c), k) == Advance(St(c), Nd(c), Rd(c), k)
  {
    hide Pair;
    hide NextRead;
    hide Advance;
    AdvanceStep(c, if k > 0 then k - 1 else 0);
    if k == 0 {
    } else {
      ReadPositionAdvances(c, k - 1);
    }
  }

  lemma AdvanceStep(c: Core, k: nat)
    requires RingSetUp(c) && k < RingSize(c.regs)
    ensures Advance(St(c), Nd(c), Rd(c), 0) == Rd(c)
    ensures NextRead(c.regs, Advance(St(c), Nd(c), Rd(c), k)) == Advance(St(c), Nd(c), Rd(c), k + 1)
  {
    hide Pair;
  }

  lemma TurnAt(buf: Buffer, st: nat, nd: nat, p: nat, k: nat)
    requires st <= p <= nd < BUFFER_SIZE && k < nd - st + 1
    ensures Turn(buf, st, nd, p)[k] == buf[Advance(st, nd, p, k)]
  {
  }

  /** A driver that sets the read pointer to the head and reads header, frame
      and FCS with one READ_BUF_MEM gets exactly the head packet, wherever it
      straddles the end of the ring. */
  lemma DriverReadsHead(c: Core, q: seq<Frame>, dummies: seq<byte>)
    requires Holds(c, q) && q != [] && Pair(c.regs, 0, ERDPTL) == Rd(c) && |dummies| == |q[0]| + 10
    ensures Received(Select(c), [OP_RBM] + dummies)[1..] ==
            Packet(Advance(St(c), Nd(c), Rd(c), Need(|q[0]|)), q[0])
  {
    hide Packet;
    hide Pair;
    hide Received;
    hide ReadState;
    hide Turn;
    hide Need;
    hide ReadPosition;
    var st, nd, p, n := St(c), Nd(c), Rd(c), |q[0]| + 10;
    var t := Turn(c.buf, st, nd, p);
    ReadBuffer(c, dummies);
    forall k | 0 <= k < n ensures c.buf[ReadPosition(c.regs, p, k)] == t[..n][k] {
      ReadPositionAdvances(c, k);
      TurnAt(c.buf, st, nd, p, k);
    }
  }

  lemma PacketDecoded(next: word, f: Frame, pk: seq<byte>)
    requires pk == Packet(next, f)
    ensures |pk| == |f| + 10
    ensures var b0: int, b1: int, b2: int, b3: int := pk[0], pk[1], pk[2], pk[3];
            b0 + 256 * b1 == next && b2 + 256 * b3 == |f| + 4
    ensures pk[4] == 0x80 && pk[5] == if f[0] == 0xFF then 3 else if f[0] % 2 == 1 then 1 else 0
    ensures pk[6..|f| + 6] == f && Crc(pk[6..]) == 0x2144_DF1C
  {
    hide Crc;
    hide Fcs;
    PacketFields(next, f, pk);
    assert pk[6..] == f + Fcs(f);
    CrcResidue.ResidueIsMagic(f, Fcs(f));
  }

  /** What the driver makes of those bytes: the next packet's address, the byte
      count, received OK, the group bit and whether the first address byte is
      FFh, the frame, and a check sequence that leaves the residue. */
  lemma DriverDecodesHead(c: Core, q: seq<Frame>, dummies: seq<byte>)
    requires Holds(c, q) && q != [] && Pair(c.regs, 0, ERDPTL) == Rd(c) && |dummies| == |q[0]| + 10
    ensures var r, f := Received(Select(c), [OP_RBM] + dummies)[1..], q[0];
            var b0: int, b1: int, b2: int, b3: int := r[0], r[1], r[2], r[3];
            && b0 + 256 * b1 == Advance(St(c), Nd(c), Rd(c), Need(|f|)) && b2 + 256 * b3 == |f| + 4
            && r[4] == 0x80 && r[5] == (if f[0] == 0xFF then 3 else if f[0] % 2 == 1 then 1 else 0)
            && r[6..|f| + 6] == f && Crc(r[6..]) == 0x2144_DF1C
  {
    hide Packet;
    hide Pair;
    hide Received;
    hide Crc;
    hide Chain;
    hide Turn;
    DriverReadsHead(c, q, dummies);
    PacketDecoded(Advance(St(c), Nd(c), Rd(c), Need(|q[0]|)), q[0], Received(Select(c), [OP_RBM] + dummies)[1..]);
  }

  // ---------------------------------------------------------- setting it up

  lemma WriteStartCommand(c: Core, addr: byte, value: byte)
    requires Bank(c.regs) == 0 && (addr == ERXSTL || addr == ERXSTH)
    ensures var c' := Command(c, [OP_WCR + addr, value]);
            var r: RegFile := c.regs[addr := value];
            c'.rxWr == Pair(r, 0, ERXSTL) && c'.regs == SetPair(r, 0, ERXWRPTL, c'.rxWr) && c'.buf == c.buf
  {
    hide PacketDone;
    hide SetPair;
    hide Pair;
    hide Transmit;
    hide SoftReset;
    hide RunBytes;
    TwoByteCommand(c, OP_WCR + addr, value);
    hide Command;
    assert (OP_WCR + addr) % 32 == addr;
  }

  lemma ResetCommand(c: Core)
    ensures Command(c, [OP_SOFT_RESET]).regs == SoftReset(c).regs
  {
    assert [OP_SOFT_RESET][..0] == [];
    assert RunBytes(Select(c), []) == Select(c);
  }

  /** The register file after one write of a half of ERXST. */
  function StartWritten(regs: RegFile, addr: byte, value: byte): RegFile
    requires addr == ERXSTL || addr == ERXSTH
  {
    var r: RegFile := regs[addr := value];
    SetPair(r, 0, ERXWRPTL, Pair(r, 0, ERXSTL))
  }

  /** Registers other than the receive pointers are the same. */
  predicate SameElsewhere(r: RegFile, s: RegFile) {
    forall i :: 0 <= i < 113 && !(ERXSTL <= i < ERXWRPTL + 2) ==> r[i] == s[i]
  }

  lemma StartSetUp(regs: RegFile, st: nat)
    requires st < BUFFER_SIZE && Bank(regs) == 0
    ensures var r2 := StartWritten(regs, ERXSTL, st % 256);
            var r4 := StartWritten(r2, ERXSTH, st / 256);
            && Bank(r2) == 0 && Bank(r4) == 0 && SameElsewhere(regs, r4)
            && Pair(r4, 0, ERXSTL) == st && Pair(r2[ERXSTH := st / 256], 0, ERXSTL) == st
  {
  }

  lemma RangeSetUp(regs: RegFile, st: nat, nd: nat)
    requires st < nd < BUFFER_SIZE && Bank(regs) == 0 && Pair(regs, 0, ERXSTL) == st
    ensures var r5 := SetPair(regs, 0, ERXNDL, nd);
            var r6 := SetPair(r5, 0, ERXRDPTL, st);
            && Bank(r5) == 0 && Bank(r6) == 0 && SameElsewhere(regs, r6)
            && Pair(r6, 0, ERXSTL) == st && Pair(r6, 0, ERXNDL) == nd && Pair(r6, 0, ERXRDPTL) == st
  {
    var r5 := SetPair(regs, 0, ERXNDL, nd);
    PairOfSet(regs, ERXNDL, nd, ERXNDL);
    PairOfSet(regs, ERXNDL, nd, ERXSTL);
    PairOfSet(r5, ERXRDPTL, st, ERXNDL);
    PairOfSet(r5, ERXRDPTL, st, ERXSTL);
    PairOfSet(r5, ERXRDPTL, st, ERXRDPTL);
    hide Pair;
  }

  lemma LowTwoBits(x: nat)
    ensures x % 4 == (if Bit(x, 0) then 1 else 0) + (if Bit(x, 1) then 2 else 0)
  {
    Halves(x);
    assert Bit(x, 1) <==> Bit(x / 2, 0);
  }

  lemma Halves(x: nat)
    ensures x % 4 == 2 * (x / 2 % 2) + x % 2
  {
    QuotientIs(x, 4, x / 2 / 2, 2 * (x / 2 % 2) + x % 2);
  }

  lemma EnabledBits(econ1: byte)
    requires !Bit(econ1, 3)
    ensures var e := OrByte(econ1, 0x04); Bit(e, 2) && !Bit(e, 3) && e % 4 == econ1 % 4
  {
    assert Pow2(2) == 4;
    Pow2Bit(2, 0);
    Pow2Bit(2, 1);
    Pow2Bit(2, 2);
    Pow2Bit(2, 3);
    hide Bit;
    hide Or;
    OrBit(econ1, 4, 0);
    OrBit(econ1, 4, 1);
    OrBit(econ1, 4, 2);
    OrBit(econ1, 4, 3);
    LowTwoBits(econ1);
    LowTwoBits(OrByte(econ1, 0x04));
  }

  lemma EnableCommand(c: Core)
    requires !Bit(c.regs[ECON1], 3)
    ensures var c' := Command(c, [OP_BFS + REG_ECON1, 0x04]);
            && c'.regs == c.regs[ECON1 := OrByte(c.regs[ECON1], 0x04)] && c'.buf == c.buf && c'.rxWr == c.rxWr
            && c'.log == c.log && c'.byteCount == c.byteCount
  {
    hide PacketDone;
    hide SetPair;
    hide Pair;
    hide Transmit;
    hide SoftReset;
    hide OrByte;
    hide Bit;
    hide Command;
    hide RunBytes;
    EnabledBits(c.regs[ECON1]);
    TwoByteCommand(c, OP_BFS + REG_ECON1, 0x04);
  }

  /** Switching reception on, no transmission being requested, keeps the queue. */
  lemma EnableKeepsQueue(c: Core, q: seq<Frame>)
    requires Tracks(c, q) && !Bit(c.regs[ECON1], 3)
    ensures var c' := Command(c, [OP_BFS + REG_ECON1, 0x04]);
            && Tracks(c', q) && Bit(c'.regs[ECON1], 2) && St(c') == St(c) && Nd(c') == Nd(c)
            && forall i :: 0 <= i < 113 && i != ECON1 ==> c'.regs[i] == c.regs[i]
  {
    hide Command;
    hide OrByte;
    hide Chain;
    hide Turn;
    hide Bit;
    EnableCommand(c);
    EnabledBits(c.regs[ECON1]);
    var r: RegFile := c.regs[ECON1 := OrByte(c.regs[ECON1], 0x04)];
    BoundsPairs(c.regs, r);
    assert Pair(r, 0, ERXRDPTL) == Pair(c.regs, 0, ERXRDPTL);
    hide Pair;
  }

  /** The driver's set-up: reset, ERXST, ERXND, ERXRDPT. */
  function SetUp(c: Core, st: nat, nd: nat): Core
    requires st < BUFFER_SIZE && nd < BUFFER_SIZE
  {
    var c0 := Command(c, [OP_SOFT_RESET]);
    var c1 := Command(c0, [OP_WCR + ERXSTL, st % 256]);
    var c2 := Command(c1, [OP_WCR + ERXSTH, st / 256]);
    var c3 := Command(Command(c2, [OP_WCR + ERXNDL, nd % 256]), [OP_WCR + ERXNDL + 1, nd / 256]);
    Command(Command(c3, [OP_WCR + ERXRDPTL, st % 256]), [OP_WCR + ERXRDPTL + 1, st / 256])
  }

  lemma ResetFlags(c: Core)
    ensures var r := SoftReset(c).regs;
            && Bank(r) == 0 && r[EPKTCNT] == 0 && !Bit(r[EIR], 6) && !Bit(r[ECON1], 3) && r[ERXFCON] == 0xA1
  {
    ZeroBits(6);
    ZeroBits(3);
  }

  lemma SetUpTracks(c: Core, st: nat, nd: nat)
    requires st < nd < BUFFER_SIZE && st % 2 == 0 && nd % 2 == 1
    ensures var r := SetUp(c, st, nd);
            && Tracks(r, []) && St(r) == st && Nd(r) == nd && !Bit(r.regs[ECON1], 3) && r.regs[ERXFCON] == 0xA1
  {
    ResetCommand(c);
    ResetFlags(c);
    hide SoftReset;
    hide Bit;
    hide Command;
    hide Pair;
    hide SetPair;
    var c0 := Command(c, [OP_SOFT_RESET]);
    var c1 := Command(c0, [OP_WCR + ERXSTL, st % 256]);
    var c2 := Command(c1, [OP_WCR + ERXSTH, st / 256]);
    var c3 := Command(Command(c2, [OP_WCR + ERXNDL, nd % 256]), [OP_WCR + ERXNDL + 1, nd / 256]);
    hide Bank;
    StartSetUp(c0.regs, st);
    WriteStartCommand(c0, ERXSTL, st % 256);
    WriteStartCommand(c1, ERXSTH, st / 256);
    RangeSetUp(c2.regs, st, nd);
    SetPointer(c2, ERXNDL, nd);
    SetPointer(c3, ERXRDPTL, st);
  }

  lemma BroadcastAccepted(regs: RegFile, f: Frame)
    requires regs[ERXFCON] == 0xA1 && Broadcast(f)
    ensures Accepts(regs, f)
  {
    assert Bit(0xA1, 0) && !Bit(0xA1, 6);
  }

  /** After a soft reset, writing ERXST, ERXND and ERXRDPT and then setting RXEN
      leaves an empty queue, ready to track, and a receiver that listens: any
      broadcast frame the empty ring has room for is taken in. */
  lemma RingReady(c: Core, st: nat, nd: nat)
    requires st < nd < BUFFER_SIZE && st % 2 == 0 && nd % 2 == 1
    ensures var r := Command(SetUp(c, st, nd), [OP_BFS + REG_ECON1, 0x04]);
            && Tracks(r, []) && St(r) == st && Nd(r) == nd && Bit(r.regs[ECON1], 2)
            && forall f: Frame :: Broadcast(f) && Need(|f|) < nd - st + 1 ==> Verdict(r.regs, [], f) == RxOk
  {
    hide SetUp;
    hide Command;
    hide Tracks;
    hide Accepts;
    hide Bit;
    hide Need;
    SetUpTracks(c, st, nd);
    EnableKeepsQueue(SetUp(c, st, nd), []);
    var r := Command(SetUp(c, st, nd), [OP_BFS + REG_ECON1, 0x04]);
    forall f: Frame | Broadcast(f) && Need(|f|) < nd - st + 1 ensures Verdict(r.regs, [], f) == RxOk {
      BroadcastAccepted(r.regs, f);
    }
  }
}
