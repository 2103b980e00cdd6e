/** Timers by their control registers: TR0, TR1, GATE, C/T and the mode bits say
    which counter moves, how it counts and which flag it raises; and what an
    enabled overflow leads to. */
module TimerControl {
  import opened Bytes
  import opened Cpu
  import opened Interrupts
  import opened InterruptSources
  import opened Timers
  import Ticks

  // ---------------------------------------------------------- running

  /** TR0 (bit 4 of TCON) set, C/T and GATE (bits 2 and 3 of TMOD) clear. */
  predicate Started0(c: Cpu) { Bit(c.sfr[TCON], 4) && !Bit(c.sfr[TMOD], 2) && !Bit(c.sfr[TMOD], 3) }

  /** TR1 (bit 6 of TCON) set, C/T and GATE (bits 6 and 7 of TMOD) clear. */
  predicate Started1(c: Cpu) { Bit(c.sfr[TCON], 6) && !Bit(c.sfr[TMOD], 6) && !Bit(c.sfr[TMOD], 7) }

  function Wide(high: byte, low: byte): nat { 256 * high + low }

  function Narrow(high: byte, low: byte): nat { 32 * high + low % 32 }

  lemma Wrapped(v: nat, m: nat, x: nat, k: nat)
    requires m > 0 && x < m && x + m * k == v
    ensures x == v % m && (k > 0 <==> v >= m)
  {
    QuotientIs(v, m, k, x);
    if k > 0 { MulAtLeast(m, k); }
  }

  /** What n counts of a timer in the given mode leave in TH and TL, and whether
      any of them overflowed. */
  predicate Counted(mode: nat, th: byte, tl: byte, n: nat, h: byte, l: byte, over: bool) {
    && (mode == 0 ==>
          && Narrow(h, l) == (Narrow(th, tl) + n) % 8192 && l / 32 == tl / 32
          && (over <==> Narrow(th, tl) + n >= 8192))
    && (mode == 1 ==> Wide(h, l) == (Wide(th, tl) + n) % 65536 && (over <==> Wide(th, tl) + n >= 65536))
    && (mode == 2 ==>
          && h == th && l == (if tl + n < 256 then tl + n else th + (tl + n - 256) % (256 - th))
          && (over <==> tl + n >= 256))
    && (mode == 3 ==> h == th && l == tl && !over)
  }

  lemma CountsAre(mode: nat, th: byte, tl: byte, n: nat)
    requires mode < 4
    ensures var (h, l, k) := CountN(mode, th, tl, n); Counted(mode, th, tl, n, h, l, k > 0)
  {
    hide CountN;
    var (h, l, k) := CountN(mode, th, tl, n);
    if mode == 0 {
      Mode0Closed(th, tl, n);
      Wrapped(Narrow(th, tl) + n, 8192, Narrow(h, l), k);
    } else if mode == 1 {
      Mode1Closed(th, tl, n);
      Wrapped(Wide(th, tl) + n, 65536, Wide(h, l), k);
    } else if mode == 2 {
      Mode2Closed(th, tl, n);
      SomeOverflow(th, tl, n);
    } else {
      NoCounts(th, tl, n);
    }
  }

  lemma SomeOverflow(th: byte, tl: byte, n: nat)
    ensures Overflows(th, tl, n) > 0 <==> tl + n >= 256
  {
  }

  lemma {:induction false} NoCounts(th: byte, tl: byte, n: nat)
    ensures CountN(3, th, tl, n) == (th, tl, 0)
  {
    if n == 0 {
    } else {
      NoCounts(th, tl, n - 1);
    }
  }

  /** Timer 0 started: the mode in bits 0 and 1 of TMOD counts, TF0 (bit 5 of
      TCON) stays or becomes set exactly if it was or a count overflowed. */
  lemma Timer0Counts(c: Cpu, n: nat)
    requires Started0(c)
    ensures var r := TimerRun(c, n).sfr;
            if c.sfr[TMOD] % 4 == 3
            then r[TL0] == (c.sfr[TL0] + n) % 256
                 && (Bit(r[TCON], 5) <==> Bit(c.sfr[TCON], 5) || c.sfr[TL0] + n >= 256)
            else exists over: bool ::
                   && Counted(c.sfr[TMOD] % 4, c.sfr[TH0], c.sfr[TL0], n, r[TH0], r[TL0], over)
                   && (Bit(r[TCON], 5) <==> Bit(c.sfr[TCON], 5) || over)
  {
    hide Bit;
    hide Counted;
    hide CountN;
    Timer0Run(c, n);
    CountsAre(c.sfr[TMOD] % 4, c.sfr[TH0], c.sfr[TL0], n);
  }

  /** Timer 1 started, timer 0 not in mode 3: the mode in bits 4 and 5 of TMOD
      counts; TF1 (bit 7 of TCON) follows as long as SM1 leaves it alone. */
  lemma Timer1Counts(c: Cpu, n: nat)
    requires Started1(c) && c.sfr[TMOD] % 4 != 3
    ensures var r := TimerRun(c, n).sfr;
            exists over: bool ::
              && Counted(c.sfr[TMOD] / 16 % 4, c.sfr[TH1], c.sfr[TL1], n, r[TH1], r[TL1], over)
              && (!Bit(c.sfr[SCON], 6) ==> (Bit(r[TCON], 7) <==> Bit(c.sfr[TCON], 7) || over))
  {
    hide Bit;
    hide Counted;
    hide CountN;
    Timer1Run(c, n);
    CountsAre(c.sfr[TMOD] / 16 % 4, c.sfr[TH1], c.sfr[TL1], n);
  }

  // -------------------------------------------------------- standing still

  /** What no tick of the timers touches. */
  predicate TimersSpare(c: Cpu, r: Cpu) {
    && r.sfr[TMOD] == c.sfr[TMOD] && r.sfr[IE] == c.sfr[IE] && r.sfr[IP] == c.sfr[IP]
    && r.sfr[SBUF] == c.sfr[SBUF] && r.active == c.active && r.pc == c.pc
    && forall k :: 0 <= k < 8 && k != 5 && k != 7 ==> Bit(r.sfr[TCON], k) == Bit(c.sfr[TCON], k)
  }

  lemma TickSpares(c: Cpu)
    ensures TimersSpare(c, TimerTick(c))
  {
    hide Bit;
    hide Timer0;
    hide Timer1;
    hide Split0;
    Split0Effect(c);
    var c1 := if Mode0(c.sfr) == 3 then Split0(c) else c;
    Timer0Effect(c1);
    Timer1Effect(Timer0(c1));
  }

  lemma {:induction false} RunSpares(c: Cpu, n: nat)
    ensures TimersSpare(c, TimerRun(c, n))
  {
    hide TimerTick;
    hide Bit;
    if n == 0 {
    } else {
      RunSpares(c, n - 1);
      TickSpares(TimerRun(c, n - 1));
    }
  }

  /** TH0, TL0 and TF0 the same; in mode 3, TL0 and TF0. */
  predicate Same0(c: Cpu, r: Cpu) {
    && r.sfr[TL0] == c.sfr[TL0] && Bit(r.sfr[TCON], 5) == Bit(c.sfr[TCON], 5)
    && (c.sfr[TMOD] % 4 != 3 ==> r.sfr[TH0] == c.sfr[TH0])
  }

  /** TH1, TL1, TF1 and the transmitter the same; in mode 3 of timer 0, TH0. */
  predicate Same1(c: Cpu, r: Cpu) {
    && r.sfr[TH1] == c.sfr[TH1] && r.sfr[TL1] == c.sfr[TL1] && Bit(r.sfr[TCON], 7) == Bit(c.sfr[TCON], 7)
    && r.sfr[P3] == c.sfr[P3] && r.sfr[SCON] == c.sfr[SCON]
    && r.remaining == c.remaining && r.serialOut == c.serialOut && r.outIdx == c.outIdx
    && r.serialIrq == c.serialIrq
    && (c.sfr[TMOD] % 4 == 3 ==> r.sfr[TH0] == c.sfr[TH0])
  }

  lemma Tick0Still(c: Cpu)
    requires !Started0(c)
    ensures Same0(c, TimerTick(c))
  {
    hide Bit;
    hide Timer0;
    hide Timer1;
    hide Split0;
    Split0Effect(c);
    var c1 := if Mode0(c.sfr) == 3 then Split0(c) else c;
    Timer0Effect(c1);
    Timer1Effect(Timer0(c1));
  }

  lemma Tick1Still(c: Cpu)
    requires !Started1(c)
    ensures Same1(c, TimerTick(c))
  {
    CountMode3(Split0(c).sfr[TH0], Split0(c).sfr[TL0]);
    hide Bit;
    hide Timer0;
    hide Timer1;
    hide Split0;
    hide Count;
    Split0Effect(c);
    var c1 := if Mode0(c.sfr) == 3 then Split0(c) else c;
    Timer0Effect(c1);
    Timer1Effect(Timer0(c1));
  }

  /** A timer 0 that is stopped, gated or counting a pin does not move, however
      many ticks pass and whatever timer 1 does. */
  lemma {:induction false} Timer0Still(c: Cpu, n: nat)
    requires !Started0(c)
    ensures Same0(c, TimerRun(c, n))
  {
    hide TimerTick;
    hide Bit;
    if n == 0 {
    } else {
      Timer0Still(c, n - 1);
      RunSpares(c, n - 1);
      Tick0Still(TimerRun(c, n - 1));
    }
  }

  /** Nor does such a timer 1, and the transmitter stands still with it. */
  lemma {:induction false} Timer1Still(c: Cpu, n: nat)
    requires !Started1(c)
    ensures Same1(c, TimerRun(c, n))
  {
    hide TimerTick;
    hide Bit;
    if n == 0 {
    } else {
      Timer1Still(c, n - 1);
      RunSpares(c, n - 1);
      Tick1Still(TimerRun(c, n - 1));
    }
  }

  // ------------------------------------------------- overflow to vector

  /** Timer 0 as a 16-bit timer with its interrupt the only one enabled: after n
      ticks the core enters 000Bh, TF0 down again, if the count has passed FFFFh,
      and goes on as it was if not. */
  lemma Timer0Interrupts(c: Cpu, n: nat)
    requires Started0(c) && c.sfr[TMOD] % 4 == 1 && !Bit(c.sfr[TCON], 5) && c.active == 0
    requires Bit(c.sfr[IE], 7) && PerSource(c.sfr[IE]) == [false, true, false, false, false]
    ensures var r := TimerRun(c, n);
            if Wide(c.sfr[TH0], c.sfr[TL0]) + n >= 65536
            then HandleInterrupts(r).pc == 0x000B && !Bit(HandleInterrupts(r).sfr[TCON], 5)
            else HandleInterrupts(r) == r
  {
    hide Bit;
    hide TimerRun;
    hide HandleInterrupts;
    Timer0Counts(c, n);
    RunSpares(c, n);
    var r := TimerRun(c, n);
    OnlyTimer0(c, r);
    if Flags(r)[1] { BestIsServed(r, 1); } else { NothingServed(r); }
  }

  lemma OnlyTimer0(c: Cpu, r: Cpu)
    requires r.sfr[IE] == c.sfr[IE] && PerSource(c.sfr[IE]) == [false, true, false, false, false]
    ensures forall s: Source :: Up(r, s) <==> s == 1 && Flags(r)[1]
  {
    hide Flags;
    hide PerSource;
  }

  // ------------------------------------------------- a count in every tick

  /** Alike in the counters and in what makes them count. */
  predicate SameCounters(c: Cpu, d: Cpu) {
    && d.sfr[TMOD] == c.sfr[TMOD]
    && Bit(d.sfr[TCON], 4) == Bit(c.sfr[TCON], 4) && Bit(d.sfr[TCON], 6) == Bit(c.sfr[TCON], 6)
    && d.sfr[TH0] == c.sfr[TH0] && d.sfr[TL0] == c.sfr[TL0] && d.sfr[TH1] == c.sfr[TH1] && d.sfr[TL1] == c.sfr[TL1]
  }

  /** The counters after a tick, from those before. */
  lemma CountersAfter(c: Cpu)
    ensures var r := TimerTick(c).sfr;
            var (h0, l0, _) := Count(c.sfr[TMOD] % 4, c.sfr[TH0], c.sfr[TL0]);
            var (h1, l1, _) := Count(c.sfr[TMOD] / 16 % 4, c.sfr[TH1], c.sfr[TL1]);
            && SameControl(r, c.sfr)
            && (if c.sfr[TMOD] % 4 == 3
                then r[TL0] == (if Started0(c) then Inc(c.sfr[TL0]) else c.sfr[TL0])
                     && r[TH0] == (if Started1(c) then Inc(c.sfr[TH0]) else c.sfr[TH0])
                else r[TH0] == (if Started0(c) then h0 else c.sfr[TH0])
                     && r[TL0] == (if Started0(c) then l0 else c.sfr[TL0]))
            && r[TH1] == (if Started1(c) then h1 else c.sfr[TH1])
            && r[TL1] == (if Started1(c) then l1 else c.sfr[TL1])
  {
    CountMode3(Split0(c).sfr[TH0], Split0(c).sfr[TL0]);
    hide Bit;
    hide Timer0;
    hide Timer1;
    hide Split0;
    hide Count;
    Split0Effect(c);
    var c1 := if Mode0(c.sfr) == 3 then Split0(c) else c;
    Timer0Effect(c1);
    Timer1Effect(Timer0(c1));
  }

  lemma TickCongruent(c: Cpu, d: Cpu)
    requires SameCounters(c, d)
    ensures SameCounters(TimerTick(c), TimerTick(d))
  {
    hide Bit;
    hide TimerTick;
    hide Count;
    CountersAfter(c);
    CountersAfter(d);
  }

  lemma CalledRegisters(c: Cpu, s: Source)
    ensures forall i :: 0 <= i < 128 && i != SP && i != PCON && i != TCON ==> Called(c, s).sfr[i] == c.sfr[i]
  {
    hide Bit;
    hide AndNotByte;
    hide Push;
    hide Vector;
    var c1 := Set(c, PCON, AndNotByte(c.sfr[PCON], 0x01));
    PushKeeps(c1, c1.pc % 256);
    PushKeeps(Push(c1, c1.pc % 256), c1.pc / 256);
  }

  lemma EntryKeepsCounters(c: Cpu)
    ensures SameCounters(c, HandleInterrupts(c))
  {
    hide Bit;
    hide Winner;
    hide Called;
    hide HandleInterrupts;
    if Enters(c) {
      var s := Winner(c).value.0;
      CalledRegisters(c, s);
      Cleared(c, s);
      EntryShape(c);
    } else {
      EntryShape(c);
    }
  }

  lemma EntryShape(c: Cpu)
    ensures if Enters(c) then HandleInterrupts(c).sfr == Called(c, Winner(c).value.0).sfr else HandleInterrupts(c) == c
  {
    hide Called;
    hide Winner;
  }

  /** An instruction that leaves the timers to themselves. */
  ghost predicate LeavesTimers(op: Ticks.Instruction) {
    forall c: Cpu :: SameCounters(c, op(c).0)
  }

  lemma LeavesHere(op: Ticks.Instruction, c: Cpu)
    requires LeavesTimers(op)
    ensures SameCounters(c, op(c).0)
  {
  }

  lemma BeforeKeepsCounters(c: Cpu, op: Ticks.Instruction)
    requires LeavesTimers(op)
    ensures SameCounters(c, Ticks.BeforeTimers(c, op))
  {
    hide Bit;
    hide Ones;
    hide LeavesTimers;
    hide HandleInterrupts;
    LeavesHere(op, c);
    EntryKeepsCounters(c);
  }

  /** In every tick awake, whether it executes, idles, burns a cycle of debt or
      enters an interrupt, the timers take one count: after any run the counters
      stand where as many ticks of the timers alone would leave them. */
  lemma {:induction false} CountInEveryTick(c: Cpu, ops: seq<Ticks.Instruction>)
    requires Ticks.Awake(c, ops) && forall i :: 0 <= i < |ops| ==> LeavesTimers(ops[i])
    ensures SameCounters(TimerRun(c, |ops|), Ticks.Run(c, ops))
    decreases ops
  {
    hide Bit;
    hide TimerTick;
    hide Ticks.BeforeTimers;
    hide Ticks.KindOf;
    hide LeavesTimers;
    hide SameCounters;
    if ops == [] {
      SameItself(c);
    } else {
      var n := |ops| - 1;
      var m := Ticks.Run(c, ops[..n]);
      CountInEveryTick(c, ops[..n]);
      BeforeKeepsCounters(m, ops[n]);
      Transitive(TimerRun(c, n), m, Ticks.BeforeTimers(m, ops[n]));
      TickCongruent(TimerRun(c, n), Ticks.BeforeTimers(m, ops[n]));
    }
  }

  lemma SameItself(c: Cpu)
    ensures SameCounters(c, c)
  {
  }

  lemma Transitive(a: Cpu, b: Cpu, c: Cpu)
    requires SameCounters(a, b) && SameCounters(b, c)
    ensures SameCounters(a, c)
  {
  }
}
