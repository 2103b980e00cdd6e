/** The count and the index arithmetic that make of the core's 18-byte ring of
    transmitted bytes a log of the run since reset. */
module UartLog {
  import opened Bytes
  import opened Cpu
  import opened Timers
  import opened Interrupts
  import opened Ticks

  const CAP := 18

  /** What the simulator keeps beside the core's ring. */
  datatype Uart = Uart(count: nat, lastIdx: LogIndex, origin: LogIndex)

  /** After a tick: a moved ring position means one byte more. */
  function Noted(u: Uart, outIdx: LogIndex): Uart {
    if outIdx != u.lastIdx then u.(count := u.count + 1, lastIdx := outIdx) else u
  }

  /** At reset, wherever the ring stands is where byte 0 will land. */
  function Anchored(outIdx: LogIndex): Uart { Uart(0, outIdx, outIdx) }

  /** The i-th byte transmitted, or -1. */
  function TxByte(u: Uart, ring: SerialLog, i: int): int {
    if i < 0 || i >= u.count then -1 else ring[(u.origin + i) % CAP]
  }

  // --------------------------------------------------------- bytes completed

  /** The byte whose last bit this cycle of the timers shifts out, if any. */
  function CompletedBy(c: Cpu): seq<byte> {
    if c.remaining == 1 && TimerTick(c).remaining == 0 then [c.sfr[SBUF]] else []
  }

  /** The byte a tick completes, if any. */
  function Completed(c: Cpu, op: Instruction): seq<byte> {
    if KindOf(c, op) == PowerDown then [] else CompletedBy(BeforeTimers(c, op))
  }

  lemma CycleLogs(c: Cpu)
    ensures var r := TimerTick(c);
            if CompletedBy(c) == [] then r.serialOut == c.serialOut && r.outIdx == c.outIdx
            else r.serialOut == c.serialOut[c.outIdx := CompletedBy(c)[0]] && r.outIdx == (c.outIdx + 1) % CAP
  {
    hide Bit;
    hide Timer0;
    hide Timer1;
    hide Split0;
    Split0Effect(c);
    var c1 := if Mode0(c.sfr) == 3 then Split0(c) else c;
    Timer0Effect(c1);
    Timer1Effect(Timer0(c1));
  }

  /** Instructions, whatever else they do, leave the ring to the hardware. */
  ghost predicate LeavesLog(op: Instruction) {
    forall c: Cpu :: op(c).0.serialOut == c.serialOut && op(c).0.outIdx == c.outIdx
  }

  lemma EntryLeavesLog(c: Cpu)
    ensures HandleInterrupts(c).serialOut == c.serialOut && HandleInterrupts(c).outIdx == c.outIdx
  {
    hide Called;
    hide Winner;
    if Enters(c) { CalledKeeps(c, Winner(c).value.0); }
  }

  lemma TickLogs(c: Cpu, op: Instruction)
    requires LeavesLog(op)
    ensures var r, done := Tick(c, op), Completed(c, op);
            if done == [] then r.serialOut == c.serialOut && r.outIdx == c.outIdx
            else r.serialOut == c.serialOut[c.outIdx := done[0]] && r.outIdx == (c.outIdx + 1) % CAP
  {
    hide HandleInterrupts;
    hide TimerTick;
    hide UpdateParity;
    EntryLeavesLog(c);
    ParityLeavesLog(c);
    ParityLeavesLog(op(c).0.(tickDelay := op(c).1));
    CycleLogs(BeforeTimers(c, op));
  }

  lemma ParityLeavesLog(c: Cpu)
    ensures UpdateParity(c).serialOut == c.serialOut && UpdateParity(c).outIdx == c.outIdx
  {
  }

  // ---------------------------------------------------------------- the run

  /** The core and the log after ticks that ran the given instructions. */
  function RunLogged(c: Cpu, u: Uart, ops: seq<Instruction>): (Cpu, Uart) {
    if ops == [] then (c, u)
    else
      var n := |ops| - 1;
      var (d, v) := RunLogged(c, u, ops[..n]);
      var r := Tick(d, ops[n]);
      (r, Noted(v, r.outIdx))
  }

  /** Every byte completed in those ticks, in order. */
  function History(c: Cpu, u: Uart, ops: seq<Instruction>): seq<byte> {
    if ops == [] then []
    else
      var n := |ops| - 1;
      History(c, u, ops[..n]) + Completed(RunLogged(c, u, ops[..n]).0, ops[n])
  }

  /** The ring and the counts stand for the history h. */
  predicate Logged(c: Cpu, u: Uart, h: seq<byte>) {
    && u.count == |h| && u.lastIdx == c.outIdx && c.outIdx == (u.origin + |h|) % CAP
    && forall i :: 0 <= i < |h| && |h| - CAP <= i ==> c.serialOut[(u.origin + i) % CAP] == h[i]
  }

  lemma SlotsDiffer(o: nat, i: nat, j: nat)
    requires i < j < i + CAP
    ensures (o + i) % CAP != (o + j) % CAP
  {
  }

  lemma OneSlotOn(o: nat, n: nat)
    ensures ((o + n) % CAP + 1) % CAP == (o + (n + 1)) % CAP && ((o + n) % CAP + 1) % CAP != (o + n) % CAP
  {
  }

  lemma AppendLogged(c: Cpu, u: Uart, h: seq<byte>, r: Cpu, b: byte)
    requires Logged(c, u, h)
    requires r.serialOut == c.serialOut[c.outIdx := b] && r.outIdx == (c.outIdx + 1) % CAP
    ensures Logged(r, Noted(u, r.outIdx), h + [b])
  {
    var n := |h|;
    OneSlotOn(u.origin, n);
    forall i | 0 <= i < n + 1 && n + 1 - CAP <= i
      ensures r.serialOut[(u.origin + i) % CAP] == (h + [b])[i]
    {
      if i < n { SlotsDiffer(u.origin, i, n); }
    }
  }

  lemma {:induction false} RunKeepsLog(c: Cpu, ops: seq<Instruction>)
    requires forall k :: 0 <= k < |ops| ==> LeavesLog(ops[k])
    ensures var (d, u) := RunLogged(c, Anchored(c.outIdx), ops);
            Logged(d, u, History(c, Anchored(c.outIdx), ops)) && u.origin == c.outIdx
  {
    hide LeavesLog;
    hide Tick;
    hide Completed;
    if ops == [] {
    } else {
      var n := |ops| - 1;
      RunKeepsLog(c, ops[..n]);
      var (d, u) := RunLogged(c, Anchored(c.outIdx), ops[..n]);
      TickLogs(d, ops[n]);
      var h, done := History(c, Anchored(c.outIdx), ops[..n]), Completed(d, ops[n]);
      if done == [] {
        assert h + done == h;
      } else {
        AtMostOne(d, ops[n]);
        assert done == [done[0]];
        AppendLogged(d, u, h, Tick(d, ops[n]), done[0]);
      }
    }
  }

  lemma AtMostOne(c: Cpu, op: Instruction)
    ensures |Completed(c, op)| <= 1
  {
  }

  /** The last index of the history that shares its ring slot with i. */
  function LastAlias(n: nat, i: nat): nat
    requires i < n
  {
    i + CAP * ((n - 1 - i) / CAP)
  }

  /** After any run from a reset, index i gives the latest transmitted byte
      whose index is congruent to i modulo 18; so exactly the i-th one for the
      last 18 indices, and -1 for an index never transmitted. */
  lemma TxByteExact(c: Cpu, ops: seq<Instruction>, i: int)
    requires forall k :: 0 <= k < |ops| ==> LeavesLog(ops[k])
    ensures var (d, u) := RunLogged(c, Anchored(c.outIdx), ops);
            var h := History(c, Anchored(c.outIdx), ops);
            && (0 <= i < |h| ==> LastAlias(|h|, i) < |h| && TxByte(u, d.serialOut, i) == h[LastAlias(|h|, i)])
            && (0 <= i < |h| && |h| - CAP <= i ==> TxByte(u, d.serialOut, i) == h[i])
            && (!(0 <= i < |h|) ==> TxByte(u, d.serialOut, i) == -1)
  {
    hide LeavesLog;
    hide RunLogged;
    hide History;
    RunKeepsLog(c, ops);
    var (d, u) := RunLogged(c, Anchored(c.outIdx), ops);
    var h := History(c, Anchored(c.outIdx), ops);
    if 0 <= i < |h| {
      var j := LastAlias(|h|, i);
      AliasIsLast(|h|, i, u.origin);
      assert d.serialOut[(u.origin + j) % CAP] == h[j];
    }
  }

  lemma AliasIsLast(n: nat, i: nat, o: nat)
    requires i < n
    ensures var j := LastAlias(n, i); n - CAP <= j < n && (o + j) % CAP == (o + i) % CAP
    ensures n - CAP <= i ==> LastAlias(n, i) == i
  {
    var q := (n - 1 - i) / CAP;
    assert n - 1 - i == CAP * q + (n - 1 - i) % CAP;
    DivMod(o + i, CAP);
    QuotientIs(o + i + CAP * q, CAP, (o + i) / CAP + q, (o + i) % CAP);
  }
}
