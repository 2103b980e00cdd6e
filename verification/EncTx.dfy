/** Transmission: which frames are sent, and what the host can read back. */
module EncTx {
  import opened Bytes
  import opened EncCore

  // ------------------------------------------------------- log and history

  function PushAll(log: Log, frames: seq<seq<byte>>): (r: Log)
    requires forall f :: f in frames ==> |f| <= MAX_FRAME
  {
    if frames == [] then log
    else PushAll(log, frames[..|frames| - 1]).Push(frames[|frames| - 1])
  }

  lemma PushGet(log: Log, f: seq<byte>, i: int)
    requires |f| <= MAX_FRAME && i != log.count - TX_LOG
    ensures log.Push(f).Get(i) == if i == log.count then Some(f) else log.Get(i)
  {
    var slot := log.count % TX_LOG;
    var b := slot * MAX_FRAME;
    var r := log.Push(f);
    if i == log.count {
      assert r.store[b..b + |f|] == f;
    } else if 0 <= i < log.count && i > log.count - TX_LOG {
      OtherSlot(log.count, i);
      var s := i % TX_LOG;
      var a, n := s * MAX_FRAME, log.lens[s];
      assert r.store[a..a + n] == log.store[a..a + n] by {
        assert a + n <= b || b + |f| <= a;
        StoreOutside(log.store, b, f, a, a + n);
      }
    }
  }

  lemma OtherSlot(n: nat, i: nat)
    requires n - TX_LOG < i < n
    ensures i % TX_LOG != n % TX_LOG
  {
  }

  lemma StoreOutside(store: seq<byte>, b: nat, f: seq<byte>, lo: nat, hi: nat)
    requires b + |f| <= |store| && lo <= hi <= |store| && (hi <= b || b + |f| <= lo)
    ensures (store[..b] + f + store[b + |f|..])[lo..hi] == store[lo..hi]
  {
  }

  lemma {:induction false} PushAllCount(log: Log, frames: seq<seq<byte>>)
    requires forall f :: f in frames ==> |f| <= MAX_FRAME
    ensures PushAll(log, frames).count == log.count + |frames|
    decreases frames
  {
    if frames == [] {
    } else {
      PushAllCount(log, frames[..|frames| - 1]);
    }
  }

  /** From an empty log, whatever has been sent, frame i reads back exactly
      when it is among the last 32, and is then the i-th frame sent. */
  lemma {:induction false} LogIsHistory(log: Log, frames: seq<seq<byte>>, i: int)
    requires log.count == 0 && forall f :: f in frames ==> |f| <= MAX_FRAME
    ensures PushAll(log, frames).Get(i) ==
            if 0 <= i < |frames| && i >= |frames| - TX_LOG then Some(frames[i]) else None
    decreases frames
  {
    PushAllCount(log, frames);
    if frames == [] {
    } else {
      var n := |frames| - 1;
      PushAllCount(log, frames[..n]);
      LogIsHistory(log, frames[..n], i);
      if i != n - TX_LOG { PushGet(PushAll(log, frames[..n]), frames[n], i); }
    }
  }

  // ------------------------------------------------------- frames sent

  /** The value a data byte b writes to a control register, if it writes one. */
  function WrittenValue(c: Core, b: byte): Option<byte> {
    if c.byteIndex == 0 then None
    else if c.op == OP_WCR then Some(b)
    else if c.op == OP_BFS then Some(OrByte(ReadReg(c), b))
    else if c.op == OP_BFC then Some(AndNotByte(ReadReg(c), b))
    else None
  }

  /** The frame that one more byte sends: one when it leaves TXRTS set in
      ECON1, none otherwise. */
  function SentBy(c: Core, b: byte): (s: seq<seq<byte>>)
    ensures forall f :: f in s ==> |f| <= MAX_FRAME
  {
    var v := WrittenValue(c, b);
    if v.Some? && c.addr % 32 == REG_ECON1 && Bit(v.value, 3) then [TxFrame(c.regs, c.buf)] else []
  }

  function Sent(c: Core, bytes: seq<byte>): (s: seq<seq<byte>>)
    ensures forall f :: f in s ==> |f| <= MAX_FRAME
  {
    if bytes == [] then []
    else
      var w := bytes[..|bytes| - 1];
      Sent(c, w) + SentBy(RunBytes(c, w), bytes[|bytes| - 1])
  }

  lemma TxFrameIgnoresEcon1(regs: RegFile, v: byte, buf: Buffer)
    ensures TxFrame(regs[ECON1 := v], buf) == TxFrame(regs, buf)
  {
    hide TxWindow;
    assert Pair(regs[ECON1 := v], 0, ETXSTL) == Pair(regs, 0, ETXSTL);
    assert Pair(regs[ECON1 := v], 0, ETXNDL) == Pair(regs, 0, ETXNDL);
  }

  lemma WindowContents(buf: Buffer, st: nat, nd: nat)
    requires st < nd <= st + MAX_FRAME && nd < BUFFER_SIZE
    ensures TxWindow(buf, st, nd) == buf[st + 1..nd + 1]
  {
  }

  lemma WriteSends(c: Core, v: byte)
    ensures WriteReg(c, v).log ==
            if c.addr % 32 == REG_ECON1 && Bit(v, 3) then c.log.Push(TxFrame(c.regs, c.buf)) else c.log
  {
    hide TxFrame;
    hide PacketDone;
    hide SetPair;
    hide Pair;
    hide AndNotByte;
    hide OrByte;
    TxFrameIgnoresEcon1(c.regs, v, c.buf);
  }

  lemma ByteSends(c: Core, b: byte)
    ensures ByteDone(c, b).log == PushAll(c.log, SentBy(c, b))
  {
    hide TxFrame;
    hide WriteReg;
    hide Pair;
    hide SetPair;
    hide AndNotByte;
    hide OrByte;
    if WrittenValue(c, b).Some? { WriteSends(c, WrittenValue(c, b).value); }
    var s := SentBy(c, b);
    if s != [] { assert s[..0] == []; assert PushAll(c.log, []) == c.log; }
  }

  lemma {:induction false} PushAllAppend(log: Log, a: seq<seq<byte>>, b: seq<seq<byte>>)
    requires forall f :: f in a + b ==> |f| <= MAX_FRAME
    requires forall f :: f in a ==> |f| <= MAX_FRAME
    requires forall f :: f in b ==> |f| <= MAX_FRAME
    ensures PushAll(log, a + b) == PushAll(PushAll(log, a), b)
    decreases b
  {
    if b == [] {
      assert a + b == a;
    } else {
      var n := |b| - 1;
      assert (a + b)[..|a + b| - 1] == a + b[..n];
      PushAllAppend(log, a, b[..n]);
    }
  }

  /** Over the bytes of one command the log grows by what they send. */
  lemma {:induction false} LogFollowsSent(c: Core, bytes: seq<byte>)
    ensures RunBytes(c, bytes).log == PushAll(c.log, Sent(c, bytes))
    decreases bytes
  {
    hide ByteDone;
    hide SentBy;
    if bytes == [] {
    } else {
      var w, b := bytes[..|bytes| - 1], bytes[|bytes| - 1];
      LogFollowsSent(c, w);
      ByteSends(RunBytes(c, w), b);
      PushAllAppend(c.log, Sent(c, w), SentBy(RunBytes(c, w), b));
    }
  }

  // ------------------------------------------------------------ whole runs

  /** The host sends a command, cut short or not, under one chip select; or a
      frame arrives from the wire. */
  datatype Event = Host(bytes: seq<byte>) | Wire(frame: seq<byte>)

  predicate InBounds(c: Core, e: Event) {
    e.Wire? && Screened(c, e.frame) == RxOk ==> PacketFits(c, e.frame)
  }

  function Step(c: Core, e: Event): Core
    requires InBounds(c, e)
  {
    match e
    case Host(bytes) => Command(c, bytes)
    case Wire(f) => Inject(c, f).0
  }

  /** No arrival of the run is stored past the end of the buffer. */
  predicate Runnable(c: Core, events: seq<Event>)
    decreases events
  {
    events != [] ==> InBounds(c, events[0]) && Runnable(Step(c, events[0]), events[1..])
  }

  function RunEvents(c: Core, events: seq<Event>): Core
    requires Runnable(c, events)
    decreases events
  {
    if events == [] then c else RunEvents(Step(c, events[0]), events[1..])
  }

  function SentIn(c: Core, e: Event): (s: seq<seq<byte>>)
    ensures forall f :: f in s ==> |f| <= MAX_FRAME
  {
    if e.Host? then Sent(Select(c), e.bytes) else []
  }

  /** Every frame sent in the run, in order. */
  function History(c: Core, events: seq<Event>): (s: seq<seq<byte>>)
    requires Runnable(c, events)
    ensures forall f :: f in s ==> |f| <= MAX_FRAME
    decreases events
  {
    if events == [] then [] else SentIn(c, events[0]) + History(Step(c, events[0]), events[1..])
  }

  lemma StepSends(c: Core, e: Event)
    requires InBounds(c, e)
    ensures Step(c, e).log == PushAll(c.log, SentIn(c, e))
  {
    hide RunBytes;
    hide Sent;
    match e
    case Host(bytes) => LogFollowsSent(Select(c), bytes);
    case Wire(f) =>
  }

  lemma {:induction false} RunSends(c: Core, events: seq<Event>)
    requires Runnable(c, events)
    ensures RunEvents(c, events).log == PushAll(c.log, History(c, events))
    decreases events
  {
    hide Step;
    hide SentIn;
    if events == [] {
      assert History(c, events) == [];
    } else {
      var d := Step(c, events[0]);
      StepSends(c, events[0]);
      RunSends(d, events[1..]);
      PushAllAppend(c.log, SentIn(c, events[0]), History(d, events[1..]));
    }
  }

  /** The log agrees with the full history: over any run of commands and
      arrivals from an empty log, frame i reads back exactly when it is among
      the last 32 sent, and is then the i-th frame sent in the whole run. */
  lemma LogAgreesWithHistory(c: Core, events: seq<Event>, i: int)
    requires c.log.count == 0 && Runnable(c, events)
    ensures var sent := History(c, events);
            RunEvents(c, events).log.Get(i) ==
            if 0 <= i < |sent| && i >= |sent| - TX_LOG then Some(sent[i]) else None
  {
    hide RunEvents;
    hide History;
    hide PushAll;
    RunSends(c, events);
    LogIsHistory(c.log, History(c, events), i);
  }

  /** A frame from a well-formed transmit window: ETXST+1 to ETXND, then zeros
      up to 60 bytes when padding is on. */
  lemma TxFrameContents(regs: RegFile, buf: Buffer)
    requires var st, nd := Pair(regs, 0, ETXSTL), Pair(regs, 0, ETXNDL); st < nd <= st + MAX_FRAME
    ensures var st, nd := Pair(regs, 0, ETXSTL), Pair(regs, 0, ETXNDL);
            var f := TxFrame(regs, buf);
            && |f| == (if regs[MACON3] >= 0x20 && nd - st < 60 then 60 else nd - st)
            && f[..nd - st] == buf[st + 1..nd + 1]
            && forall i :: nd - st <= i < |f| ==> f[i] == 0
  {
    hide Pair;
    hide TxWindow;
    WindowContents(buf, Pair(regs, 0, ETXSTL), Pair(regs, 0, ETXNDL));
  }

  /** A window that ends before it starts is empty; one that ends where it starts
      or runs on past 1536 bytes gives 1536, around the end of the buffer if it
      comes to that. Padding is as ever. */
  lemma TxFrameOtherwise(regs: RegFile, buf: Buffer)
    requires var st, nd := Pair(regs, 0, ETXSTL), Pair(regs, 0, ETXNDL); !(st < nd <= st + MAX_FRAME)
    ensures var st, nd := Pair(regs, 0, ETXSTL), Pair(regs, 0, ETXNDL);
            var f := TxFrame(regs, buf);
            if nd < st then f == Zeros(if regs[MACON3] >= 0x20 then 60 else 0)
            else |f| == 1536 && forall i :: 0 <= i < 1536 ==> f[i] == buf[(st + 1 + i) % BUFFER_SIZE]
  {
    hide Pair;
  }
}
