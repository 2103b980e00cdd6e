/** Timers 0 and 1 and the UART transmitter they clock: one machine cycle, and
    what any number of cycles amounts to. */
module Timers {
  import opened Bytes
  import opened Cpu

  const TF0: byte := 0x20
  const TF1: byte := 0x80

  function Mode0(sfr: Ram): nat { sfr[TMOD] % 4 }
  function Mode1(sfr: Ram): nat { sfr[TMOD] / 16 % 4 }

  /** Timer 0 counts: GATE and C/T clear in TMOD, TR0 set in TCON. */
  predicate Running0(sfr: Ram) { !Bit(sfr[TMOD], 3) && Bit(sfr[TCON], 4) && !Bit(sfr[TMOD], 2) }
  predicate Running1(sfr: Ram) { !Bit(sfr[TMOD], 7) && Bit(sfr[TCON], 6) && !Bit(sfr[TMOD], 6) }

  // ------------------------------------------------------------- one cycle

  /** One count of a timer in mode 0, 1 or 2: the new high and low bytes and
      whether it overflowed. */
  function Count(mode: nat, th: byte, tl: byte): (byte, byte, bool) {
    if mode == 0 then
      if tl % 32 < 31 then (th, tl + 1, false) else (Inc(th), tl - 31, th == 255)
    else if mode == 1 then
      if tl < 255 then (th, tl + 1, false) else (Inc(th), 0, th == 255)
    else if mode == 2 then
      if tl < 255 then (th, tl + 1, false) else (th, th, true)
    else (th, tl, false)
  }

  function SetFlag(c: Cpu, on: bool, flag: byte): Cpu {
    if on then Set(c, TCON, OrByte(c.sfr[TCON], flag)) else c
  }

  /** Timer 0 in mode 3: TL0 counts under TR0 and TH0 under TR1. */
  function Split0(c: Cpu): Cpu {
    var c :=
      if Running0(c.sfr) then
        var v := c.sfr[TL0];
        SetFlag(Set(c, TL0, Inc(v)), v == 255, TF0)
      else c;
    if Running1(c.sfr) then
      var v := c.sfr[TH0];
      SetFlag(Set(c, TH0, Inc(v)), v == 255, TF1)
    else c
  }

  function Timer0(c: Cpu): Cpu {
    if Running0(c.sfr) then
      var (th, tl, carry) := Count(Mode0(c.sfr), c.sfr[TH0], c.sfr[TL0]);
      SetFlag(Set(Set(c, TH0, th), TL0, tl), carry, TF0)
    else c
  }

  /** One bit of the byte in SBUF out on P3.1. */
  function BitOut(c: Cpu): Cpu
    requires c.remaining > 0
  {
    var left := c.remaining - 1;
    var low := AndNotByte(c.sfr[P3], 0x02);
    Set(c.(remaining := left), P3, if c.sfr[SBUF] / Pow2(left) != 0 then OrByte(low, 0x02) else low)
  }

  /** The byte is out: it is logged, TI set and, if enabled, the interrupt
      requested. */
  function ByteOut(c: Cpu): Cpu {
    var irq := c.serialIrq || Bit(c.sfr[IE], 4);
    Set(c.(serialOut := c.serialOut[c.outIdx := c.sfr[SBUF]], outIdx := (c.outIdx + 1) % 18, serialIrq := irq),
        SCON, OrByte(c.sfr[SCON], 0x02))
  }

  function SerialTx(c: Cpu): Cpu {
    if c.remaining == 0 then c
    else
      var c := BitOut(c);
      if c.remaining == 0 then ByteOut(c) else c
  }

  function Timer1(c: Cpu): Cpu {
    if Running1(c.sfr) then
      var (th, tl, carry) := Count(Mode1(c.sfr), c.sfr[TH1], c.sfr[TL1]);
      var c := SetFlag(Set(Set(c, TH1, th), TL1, tl), carry && Mode0(c.sfr) != 3, TF1);
      if Bit(c.sfr[TCON], 7) && Bit(c.sfr[SCON], 6) then
        var c := SerialTx(c);
        Set(c, TCON, AndNotByte(c.sfr[TCON], TF1))
      else c
    else c
  }

  /** One machine cycle of both timers. */
  function TimerTick(c: Cpu): Cpu {
    Timer1(Timer0(if Mode0(c.sfr) == 3 then Split0(c) else c))
  }

  function TimerRun(c: Cpu, n: nat): Cpu {
    if n == 0 then c else TimerTick(TimerRun(c, n - 1))
  }

  // ------------------------------------------------------- n counts at once

  /** n counts: the bytes, and how many times the timer overflowed. */
  function CountN(mode: nat, th: byte, tl: byte, n: nat): (byte, byte, nat) {
    if n == 0 then (th, tl, 0)
    else
      var (h, l, k) := CountN(mode, th, tl, n - 1);
      var (h', l', carry) := Count(mode, h, l);
      (h', l', if carry then k + 1 else k)
  }

  lemma CountMode0(th: byte, tl: byte)
    ensures var (h, l, carry) := Count(0, th, tl);
            32 * h + l % 32 + (if carry then 8192 else 0) == 32 * th + tl % 32 + 1 && l / 32 == tl / 32
  {
    if tl % 32 < 31 {
      assert (tl + 1) % 32 == tl % 32 + 1 && (tl + 1) / 32 == tl / 32;
    } else {
      assert (tl - 31) % 32 == 0 && (tl - 31) / 32 == tl / 32;
    }
  }

  /** Mode 0 is a 13-bit counter; the upper three bits of TL stay. */
  lemma {:induction false} Mode0Closed(th: byte, tl: byte, n: nat)
    ensures var (h, l, k) := CountN(0, th, tl, n);
            var v: int := 32 * th + tl % 32;
            32 * h + l % 32 + 8192 * k == v + n && l / 32 == tl / 32
  {
    hide Count;
    if n == 0 {
    } else {
      Mode0Closed(th, tl, n - 1);
      var (h, l, k) := CountN(0, th, tl, n - 1);
      CountMode0(h, l);
    }
  }

  /** Mode 1 is a 16-bit counter. */
  lemma {:induction false} Mode1Closed(th: byte, tl: byte, n: nat)
    ensures var (h, l, k) := CountN(1, th, tl, n);
            256 * (h as int) + l + 65536 * k == 256 * (th as int) + tl + n
  {
    if n == 0 {
    } else {
      Mode1Closed(th, tl, n - 1);
    }
  }

  /** Where TL stands after n counts in mode 2. */
  function Reloaded(th: byte, tl: byte, n: nat): nat {
    if tl + n < 256 then tl + n else th + (tl + n - 256) % (256 - th)
  }

  lemma ReloadStep(th: byte, tl: byte, n: nat)
    requires n > 0
    ensures var l := Reloaded(th, tl, n - 1);
            && l <= 255
            && Reloaded(th, tl, n) == (if l < 255 then l + 1 else th)
            && Overflows(th, tl, n) == (if l < 255 then Overflows(th, tl, n - 1) else Overflows(th, tl, n - 1) + 1)
  {
    if tl + n == 256 {
      assert 0 % (256 - th) == 0 && 0 / (256 - th) == 0 by { QuotientIs(0, 256 - th, 0, 0); }
    } else if tl + n > 256 {
      NextQuotient(tl + n - 1 - 256, 256 - th);
    }
  }

  /** Mode 2 runs from TL to FFh once and then through periods of 256 - TH. */
  lemma {:induction false} Mode2Closed(th: byte, tl: byte, n: nat)
    ensures var (h, l, k) := CountN(2, th, tl, n);
            h == th && k == Overflows(th, tl, n) && l == Reloaded(th, tl, n)
  {
    if n == 0 { return; }
    hide Overflows;
    hide Reloaded;
    Mode2Closed(th, tl, n - 1);
    ReloadStep(th, tl, n);
  }

  function Overflows(th: byte, tl: byte, n: nat): nat {
    if tl + n < 256 then 0 else 1 + (tl + n - 256) / (256 - th)
  }

  // ---------------------------------------------- what a tick leaves alone

  lemma FlagBits(tcon: byte)
    ensures forall k :: 0 <= k < 8 ==> Bit(OrByte(tcon, TF0), k) == (Bit(tcon, k) || k == 5)
    ensures forall k :: 0 <= k < 8 ==> Bit(OrByte(tcon, TF1), k) == (Bit(tcon, k) || k == 7)
    ensures forall k :: 0 <= k < 8 ==> Bit(AndNotByte(tcon, TF1), k) == (Bit(tcon, k) && k != 7)
  {
    assert Pow2(5) == 0x20 && Pow2(7) == 0x80;
    forall k | 0 <= k < 8
      ensures Bit(OrByte(tcon, TF0), k) == (Bit(tcon, k) || k == 5)
      ensures Bit(OrByte(tcon, TF1), k) == (Bit(tcon, k) || k == 7)
      ensures Bit(AndNotByte(tcon, TF1), k) == (Bit(tcon, k) && k != 7)
    {
      OrBit(tcon, 0x20, k);
      OrBit(tcon, 0x80, k);
      AndNotBit(tcon, 0x80, k);
      Pow2Bit(5, k);
      Pow2Bit(7, k);
    }
  }

  /** TCON flags other than bit b are the same. */
  predicate SameTcon(r: byte, s: byte, b: nat) {
    forall k :: 0 <= k < 8 && k != b ==> Bit(r, k) == Bit(s, k)
  }

  lemma Timer0Effect(c: Cpu)
    ensures var r := Timer0(c);
            var (th, tl, carry) := Count(Mode0(c.sfr), c.sfr[TH0], c.sfr[TL0]);
            && r == c.(sfr := r.sfr)
            && (forall i :: 0 <= i < 128 && i != TH0 && i != TL0 && i != TCON ==> r.sfr[i] == c.sfr[i])
            && SameTcon(r.sfr[TCON], c.sfr[TCON], 5)
            && (if Running0(c.sfr)
                then r.sfr[TH0] == th && r.sfr[TL0] == tl && Bit(r.sfr[TCON], 5) == (Bit(c.sfr[TCON], 5) || carry)
                else r == c)
  {
    hide Bit;
    hide OrByte;
    hide Count;
    FlagBits(c.sfr[TCON]);
  }

  lemma Split0Effect(c: Cpu)
    ensures var r := Split0(c);
            && r == c.(sfr := r.sfr)
            && (forall i :: 0 <= i < 128 && i != TH0 && i != TL0 && i != TCON ==> r.sfr[i] == c.sfr[i])
            && (forall k :: 0 <= k < 8 && k != 5 && k != 7 ==> Bit(r.sfr[TCON], k) == Bit(c.sfr[TCON], k))
            && r.sfr[TL0] == (if Running0(c.sfr) then Inc(c.sfr[TL0]) else c.sfr[TL0])
            && r.sfr[TH0] == (if Running1(c.sfr) then Inc(c.sfr[TH0]) else c.sfr[TH0])
            && Bit(r.sfr[TCON], 5) == (Bit(c.sfr[TCON], 5) || (Running0(c.sfr) && c.sfr[TL0] == 255))
            && Bit(r.sfr[TCON], 7) == (Bit(c.sfr[TCON], 7) || (Running1(c.sfr) && c.sfr[TH0] == 255))
  {
    hide Bit;
    hide OrByte;
    FlagBits(c.sfr[TCON]);
    FlagBits(OrByte(c.sfr[TCON], TF0));
  }

  /** Registers the transmitter may write: P3 and SCON. */
  lemma SerialTxEffect(c: Cpu)
    ensures var r := SerialTx(c);
            && (forall i :: 0 <= i < 128 && i != P3 && i != SCON ==> r.sfr[i] == c.sfr[i])
            && r == c.(sfr := r.sfr, serialOut := r.serialOut, outIdx := r.outIdx, remaining := r.remaining,
                       serialIrq := r.serialIrq)
            && r.remaining == (if c.remaining == 0 then 0 else c.remaining - 1)
            && (if c.remaining == 1
                then r.serialOut == c.serialOut[c.outIdx := c.sfr[SBUF]] && r.outIdx == (c.outIdx + 1) % 18
                     && Bit(r.sfr[SCON], 1) && r.serialIrq == (c.serialIrq || Bit(c.sfr[IE], 4))
                else r.serialOut == c.serialOut && r.outIdx == c.outIdx && r.serialIrq == c.serialIrq
                     && r.sfr[SCON] == c.sfr[SCON])
            && Bit(r.sfr[SCON], 6) == Bit(c.sfr[SCON], 6)
  {
    hide Bit;
    hide OrByte;
    hide AndNotByte;
    ScontTi(c.sfr[SCON]);
  }

  lemma ScontTi(scon: byte)
    ensures Bit(OrByte(scon, 0x02), 1) && Bit(OrByte(scon, 0x02), 6) == Bit(scon, 6)
  {
    assert Pow2(1) == 2;
    OrBit(scon, 2, 1);
    OrBit(scon, 2, 6);
    Pow2Bit(1, 1);
    Pow2Bit(1, 6);
  }

  lemma Timer1Effect(c: Cpu)
    ensures var r := Timer1(c);
            && (forall i :: 0 <= i < 128 && i != TH1 && i != TL1 && i != TCON && i != P3 && i != SCON
                  ==> r.sfr[i] == c.sfr[i])
            && SameTcon(r.sfr[TCON], c.sfr[TCON], 7)
            && r == c.(sfr := r.sfr, serialOut := r.serialOut, outIdx := r.outIdx, remaining := r.remaining,
                       serialIrq := r.serialIrq)
    ensures !Running1(c.sfr) ==> Timer1(c) == c
    ensures Running1(c.sfr) ==>
              var r := Timer1(c);
              var (th, tl, carry) := Count(Mode1(c.sfr), c.sfr[TH1], c.sfr[TL1]);
              var flag := Bit(c.sfr[TCON], 7) || (carry && Mode0(c.sfr) != 3);
              var sends := flag && Bit(c.sfr[SCON], 6);
              && r.sfr[TH1] == th && r.sfr[TL1] == tl
              && Bit(r.sfr[TCON], 7) == (flag && !sends)
              && Bit(r.sfr[SCON], 6) == Bit(c.sfr[SCON], 6)
              && r.remaining == (if sends && c.remaining > 0 then c.remaining - 1 else c.remaining)
              && (if sends && c.remaining == 1
                  then r.serialOut == c.serialOut[c.outIdx := c.sfr[SBUF]] && r.outIdx == (c.outIdx + 1) % 18
                       && Bit(r.sfr[SCON], 1) && r.serialIrq == (c.serialIrq || Bit(c.sfr[IE], 4))
                  else r.serialOut == c.serialOut && r.outIdx == c.outIdx && r.serialIrq == c.serialIrq
                       && r.sfr[SCON] == c.sfr[SCON])
  {
    hide Bit;
    hide OrByte;
    hide AndNotByte;
    hide Count;
    hide SerialTx;
    if Running1(c.sfr) {
      FlagBits(c.sfr[TCON]);
      FlagBits(OrByte(c.sfr[TCON], TF1));
      var (th, tl, carry) := Count(Mode1(c.sfr), c.sfr[TH1], c.sfr[TL1]);
      SerialTxEffect(SetFlag(Set(Set(c, TH1, th), TL1, tl), carry && Mode0(c.sfr) != 3, TF1));
    }
  }

  /** The control bits of the timers never change by themselves. */
  predicate SameControl(r: Ram, s: Ram) {
    r[TMOD] == s[TMOD] && Bit(r[TCON], 4) == Bit(s[TCON], 4) && Bit(r[TCON], 6) == Bit(s[TCON], 6)
  }

  /** The whole effect of a tick on timer 0. */
  lemma TickTimer0(c: Cpu)
    ensures var r := TimerTick(c).sfr;
            SameControl(r, c.sfr) && Running0(r) == Running0(c.sfr) && Running1(r) == Running1(c.sfr)
    ensures Running0(c.sfr) && Mode0(c.sfr) != 3 ==>
              var r := TimerTick(c).sfr;
              var (th, tl, carry) := Count(Mode0(c.sfr), c.sfr[TH0], c.sfr[TL0]);
              r[TH0] == th && r[TL0] == tl && Bit(r[TCON], 5) == (Bit(c.sfr[TCON], 5) || carry)
    ensures Running0(c.sfr) && Mode0(c.sfr) == 3 ==>
              var r := TimerTick(c).sfr;
              r[TL0] == Inc(c.sfr[TL0]) && Bit(r[TCON], 5) == (Bit(c.sfr[TCON], 5) || c.sfr[TL0] == 255)
  {
    hide Bit;
    hide Timer0;
    hide Timer1;
    hide Split0;
    Split0Effect(c);
    var c1 := if Mode0(c.sfr) == 3 then Split0(c) else c;
    Timer0Effect(c1);
    Timer1Effect(Timer0(c1));
  }

  /** And on timer 1 and the transmitter. */
  lemma TickTimer1(c: Cpu)
    requires Running1(c.sfr) && Mode0(c.sfr) != 3
    ensures var r := TimerTick(c);
            var (th, tl, carry) := Count(Mode1(c.sfr), c.sfr[TH1], c.sfr[TL1]);
            var sends := (Bit(c.sfr[TCON], 7) || carry) && Bit(c.sfr[SCON], 6);
            && r.sfr[TH1] == th && r.sfr[TL1] == tl
            && Bit(r.sfr[TCON], 7) == ((Bit(c.sfr[TCON], 7) || carry) && !Bit(c.sfr[SCON], 6))
            && Bit(r.sfr[SCON], 6) == Bit(c.sfr[SCON], 6)
            && r.sfr[SBUF] == c.sfr[SBUF] && r.sfr[IE] == c.sfr[IE]
            && r.remaining == (if sends && c.remaining > 0 then c.remaining - 1 else c.remaining)
            && (if sends && c.remaining == 1
                then r.serialOut == c.serialOut[c.outIdx := c.sfr[SBUF]] && r.outIdx == (c.outIdx + 1) % 18
                     && Bit(r.sfr[SCON], 1) && r.serialIrq == (c.serialIrq || Bit(c.sfr[IE], 4))
                else r.serialOut == c.serialOut && r.outIdx == c.outIdx && r.serialIrq == c.serialIrq
                     && r.sfr[SCON] == c.sfr[SCON])
  {
    hide Bit;
    hide Timer0;
    hide Timer1;
    hide Count;
    Timer0Effect(c);
    Timer1Effect(Timer0(c));
  }

  /** With timer 0 in mode 3 TH0 runs under TR1 and its overflow takes over TF1
      and, with that, the transmitter. */
  lemma TickSplit(c: Cpu)
    requires Running1(c.sfr) && Mode0(c.sfr) == 3
    ensures var r := TimerTick(c);
            var flag := Bit(c.sfr[TCON], 7) || c.sfr[TH0] == 255;
            var sends := flag && Bit(c.sfr[SCON], 6);
            && r.sfr[TH0] == Inc(c.sfr[TH0])
            && Bit(r.sfr[TCON], 7) == (flag && !Bit(c.sfr[SCON], 6))
            && Bit(r.sfr[SCON], 6) == Bit(c.sfr[SCON], 6)
            && r.sfr[SBUF] == c.sfr[SBUF] && r.sfr[IE] == c.sfr[IE]
            && r.remaining == (if sends && c.remaining > 0 then c.remaining - 1 else c.remaining)
            && (if sends && c.remaining == 1
                then r.serialOut == c.serialOut[c.outIdx := c.sfr[SBUF]] && r.outIdx == (c.outIdx + 1) % 18
                     && Bit(r.sfr[SCON], 1) && r.serialIrq == (c.serialIrq || Bit(c.sfr[IE], 4))
                else r.serialOut == c.serialOut && r.outIdx == c.outIdx && r.serialIrq == c.serialIrq
                     && r.sfr[SCON] == c.sfr[SCON])
  {
    CountMode3(c.sfr[TH0], c.sfr[TL0]);
    CountMode3(Split0(c).sfr[TH0], Split0(c).sfr[TL0]);
    hide Bit;
    hide Timer0;
    hide Timer1;
    hide Split0;
    hide Count;
    Split0Effect(c);
    Timer0Effect(Split0(c));
    Timer1Effect(Timer0(Split0(c)));
  }

  lemma CountMode3(th: byte, tl: byte)
    ensures Count(3, th, tl) == (th, tl, false)
  {
  }

  // ------------------------------------------------------------ whole runs

  /** Timer 0 over n cycles in any of its modes: the count, and TF0 set exactly
      when it was set before or an overflow occurred. */
  lemma {:induction false} Timer0Run(c: Cpu, n: nat)
    requires Running0(c.sfr)
    ensures var r := TimerRun(c, n).sfr;
            Running0(r) && r[TMOD] == c.sfr[TMOD]
    ensures Mode0(c.sfr) != 3 ==>
              var r := TimerRun(c, n).sfr;
              var (th, tl, k) := CountN(Mode0(c.sfr), c.sfr[TH0], c.sfr[TL0], n);
              r[TH0] == th && r[TL0] == tl && (Bit(r[TCON], 5) <==> Bit(c.sfr[TCON], 5) || k > 0)
    ensures Mode0(c.sfr) == 3 ==>
              var r := TimerRun(c, n).sfr;
              r[TL0] == (c.sfr[TL0] + n) % 256
              && (Bit(r[TCON], 5) <==> Bit(c.sfr[TCON], 5) || c.sfr[TL0] + n >= 256)
  {
    hide Bit;
    hide Count;
    hide TimerTick;
    hide Running0;
    if n == 0 {
    } else {
      Timer0Run(c, n - 1);
      TickTimer0(TimerRun(c, n - 1));
    }
  }

  lemma NextMod256(x: byte, n: nat)
    requires n > 0
    ensures var v: byte := (x as int + (n - 1)) % 256;
            && Inc(v) == (x as int + n) % 256
            && (x as int + n) / 256 == (x as int + (n - 1)) / 256 + (if v == 255 then 1 else 0)
  {
    NextQuotient(x as int + (n - 1), 256);
  }

  /** The other half of mode 3: TH0 under TR1 over n cycles. TF1 is sticky
      unless SM1 hands it to the transmitter, which then shifts out one bit for
      each time TH0 overflows. */
  lemma {:induction false} SplitRun(c: Cpu, n: nat)
    requires Running1(c.sfr) && Mode0(c.sfr) == 3
    ensures var r := TimerRun(c, n).sfr;
            && Running1(r) && r[TMOD] == c.sfr[TMOD] && Bit(r[SCON], 6) == Bit(c.sfr[SCON], 6)
            && r[TH0] == (c.sfr[TH0] as int + n) % 256 && r[SBUF] == c.sfr[SBUF] && r[IE] == c.sfr[IE]
            && (!Bit(c.sfr[SCON], 6) ==>
                  (Bit(r[TCON], 7) <==> Bit(c.sfr[TCON], 7) || (c.sfr[TH0] as int + n) / 256 > 0))
            && (Bit(c.sfr[SCON], 6) && !Bit(c.sfr[TCON], 7) ==> !Bit(r[TCON], 7))
    ensures Bit(c.sfr[SCON], 6) && !Bit(c.sfr[TCON], 7) && c.remaining == 8 ==>
              Transmitted(c, TimerRun(c, n), (c.sfr[TH0] as int + n) / 256)
  {
    hide Bit;
    hide TimerTick;
    hide Running1;
    if n == 0 {
    } else {
      SplitRun(c, n - 1);
      var d := TimerRun(c, n - 1);
      TickTimer0(d);
      TickSplit(d);
      NextMod256(c.sfr[TH0], n);
    }
  }

  /** Timer 1 over n cycles, timer 0 not in mode 3. */
  lemma {:induction false} Timer1Run(c: Cpu, n: nat)
    requires Running1(c.sfr) && Mode0(c.sfr) != 3
    ensures var r := TimerRun(c, n).sfr;
            var (th, tl, k) := CountN(Mode1(c.sfr), c.sfr[TH1], c.sfr[TL1], n);
            && Running1(r) && r[TMOD] == c.sfr[TMOD] && Bit(r[SCON], 6) == Bit(c.sfr[SCON], 6)
            && r[TH1] == th && r[TL1] == tl && r[SBUF] == c.sfr[SBUF] && r[IE] == c.sfr[IE]
            && (!Bit(c.sfr[SCON], 6) ==> (Bit(r[TCON], 7) <==> Bit(c.sfr[TCON], 7) || k > 0))
            && (Bit(c.sfr[SCON], 6) && !Bit(c.sfr[TCON], 7) ==> !Bit(r[TCON], 7))
  {
    hide Bit;
    hide Count;
    hide TimerTick;
    hide Running1;
    if n == 0 {
    } else {
      Timer1Run(c, n - 1);
      var d := TimerRun(c, n - 1);
      TickTimer0(d);
      TickTimer1(d);
    }
  }

  /** The cycle on which an armed byte is complete. */
  function ByteTime(th: byte, tl: byte): nat { (256 - tl) + 7 * (256 - th) }

  lemma DivAtLeast(x: nat, d: nat, k: nat)
    requires d > 0
    ensures x / d >= k <==> x >= d * k
  {
    DivMod(x, d);
    if x / d >= k {
      MulOrder(d, k, x / d);
    } else {
      MulOrder(d, x / d + 1, k);
    }
  }

  lemma EighthOverflow(th: byte, tl: byte, n: nat)
    ensures Overflows(th, tl, n) >= 8 <==> n >= ByteTime(th, tl)
  {
    if tl + n >= 256 { DivAtLeast(tl + n - 256, 256 - th, 7); }
  }

  lemma MulOrder(d: nat, a: nat, b: nat)
    requires a <= b
    ensures d * a <= d * b
  {
  }

  /** The transmitter after n cycles with k overflows of timer 1 in them. */
  predicate Transmitted(c: Cpu, r: Cpu, k: nat) {
    && r.remaining == (if k < 8 then 8 - k else 0)
    && (if k < 8
        then r.serialOut == c.serialOut && r.outIdx == c.outIdx && r.serialIrq == c.serialIrq
             && r.sfr[SCON] == c.sfr[SCON]
        else r.serialOut == c.serialOut[c.outIdx := c.sfr[SBUF]] && r.outIdx == (c.outIdx + 1) % 18
             && Bit(r.sfr[SCON], 1) && r.serialIrq == (c.serialIrq || Bit(c.sfr[IE], 4)))
  }

  lemma {:induction false} TransmitRun(c: Cpu, n: nat)
    requires Running1(c.sfr) && Mode0(c.sfr) != 3 && Bit(c.sfr[SCON], 6) && !Bit(c.sfr[TCON], 7)
    requires c.remaining == 8
    ensures Transmitted(c, TimerRun(c, n), CountN(Mode1(c.sfr), c.sfr[TH1], c.sfr[TL1], n).2)
  {
    hide Bit;
    hide Count;
    hide TimerTick;
    hide Running1;
    if n == 0 {
    } else {
      TransmitRun(c, n - 1);
      Timer1Run(c, n - 1);
      TickTimer1(TimerRun(c, n - 1));
    }
  }

  /** Exact UART timing: with timer 1 auto-reloading, SM1 set and TF1 clear, an
      armed byte is complete on cycle (256-TL1) + 7*(256-TH1) and not before;
      until then nothing of it shows, and then exactly it is logged. */
  lemma UartTiming(c: Cpu, n: nat)
    requires Running1(c.sfr) && Mode0(c.sfr) != 3 && Mode1(c.sfr) == 2
    requires Bit(c.sfr[SCON], 6) && !Bit(c.sfr[TCON], 7) && c.remaining == 8
    ensures var r := TimerRun(c, n);
            if n < ByteTime(c.sfr[TH1], c.sfr[TL1])
            then r.remaining > 0 && r.serialOut == c.serialOut && r.outIdx == c.outIdx
                 && r.serialIrq == c.serialIrq && r.sfr[SCON] == c.sfr[SCON]
            else r.remaining == 0 && r.serialOut == c.serialOut[c.outIdx := c.sfr[SBUF]]
                 && r.outIdx == (c.outIdx + 1) % 18 && Bit(r.sfr[SCON], 1)
                 && r.serialIrq == (c.serialIrq || Bit(c.sfr[IE], 4))
  {
    hide Bit;
    hide TimerRun;
    hide CountN;
    hide Overflows;
    TransmitRun(c, n);
    Mode2Closed(c.sfr[TH1], c.sfr[TL1], n);
    EighthOverflow(c.sfr[TH1], c.sfr[TL1], n);
  }

  // ------------------------------------------------------ the line P3.1

  lemma LineBits(p3: byte)
    ensures var low := AndNotByte(p3, 0x02);
            && (forall k :: 0 <= k < 8 ==> (Bit(low, k) <==> Bit(p3, k) && k != 1))
            && (forall k :: 0 <= k < 8 ==> (Bit(OrByte(low, 0x02), k) <==> Bit(p3, k) || k == 1))
  {
    assert Pow2(1) == 2;
    forall k | 0 <= k < 8
      ensures Bit(AndNotByte(p3, 0x02), k) <==> Bit(p3, k) && k != 1
      ensures Bit(OrByte(AndNotByte(p3, 0x02), 0x02), k) <==> Bit(p3, k) || k == 1
    {
      AndNotBit(p3, 0x02, k);
      OrBit(AndNotByte(p3, 0x02), 0x02, k);
      Pow2Bit(1, k);
    }
  }

  /** The level of P3.1, and the other bits of P3 as they were. */
  predicate LineShows(was: byte, p3: byte, level: bool) {
    Bit(p3, 1) == level && forall k :: 0 <= k < 8 && k != 1 ==> Bit(p3, k) == Bit(was, k)
  }

  lemma SerialTxLine(c: Cpu)
    ensures var r := SerialTx(c);
            if c.remaining == 0 then r.sfr[P3] == c.sfr[P3]
            else LineShows(c.sfr[P3], r.sfr[P3], c.sfr[SBUF] / Pow2(c.remaining - 1) != 0)
  {
    LineBits(c.sfr[P3]);
    hide Bit;
    hide OrByte;
    hide AndNotByte;
    hide Pow2;
  }

  lemma TickLine(c: Cpu)
    requires Running1(c.sfr) && Mode0(c.sfr) != 3
    ensures var r := TimerTick(c);
            var carry := Count(Mode1(c.sfr), c.sfr[TH1], c.sfr[TL1]).2;
            var sends := (Bit(c.sfr[TCON], 7) || carry) && Bit(c.sfr[SCON], 6);
            if sends && c.remaining > 0
            then LineShows(c.sfr[P3], r.sfr[P3], c.sfr[SBUF] / Pow2(c.remaining - 1) != 0)
            else r.sfr[P3] == c.sfr[P3]
  {
    hide Bit;
    hide Timer0;
    hide OrByte;
    hide AndNotByte;
    hide Count;
    hide SerialTx;
    hide LineShows;
    hide Pow2;
    Timer0Effect(c);
    var d := Timer0(c);
    FlagBits(d.sfr[TCON]);
    var (th, tl, carry) := Count(Mode1(d.sfr), d.sfr[TH1], d.sfr[TL1]);
    SerialTxLine(SetFlag(Set(Set(d, TH1, th), TL1, tl), carry && Mode0(d.sfr) != 3, TF1));
  }

  /** What P3.1 shows while an armed byte goes out: after the k-th overflow of
      timer 1, whether SBUF shifted right 8 - k places is anything but 0. */
  lemma {:induction false} LineLevel(c: Cpu, n: nat)
    requires Running1(c.sfr) && Mode0(c.sfr) != 3 && Bit(c.sfr[SCON], 6) && !Bit(c.sfr[TCON], 7)
    requires c.remaining == 8
    ensures var k := CountN(Mode1(c.sfr), c.sfr[TH1], c.sfr[TL1], n).2;
            var r := TimerRun(c, n);
            if k == 0 then r.sfr[P3] == c.sfr[P3]
            else LineShows(c.sfr[P3], r.sfr[P3], c.sfr[SBUF] / Pow2(if k < 8 then 8 - k else 0) != 0)
  {
    hide Bit;
    hide Count;
    hide TimerTick;
    hide Running1;
    hide Pow2;
    if n == 0 {
    } else {
      LineLevel(c, n - 1);
      Timer1Run(c, n - 1);
      TransmitRun(c, n - 1);
      TickLine(TimerRun(c, n - 1));
    }
  }

  lemma HalvedQuotient(b: nat, j: nat)
    requires j > 0
    ensures b / Pow2(j) == b / 2 / Pow2(j - 1)
  {
    HalveThenDivide(b, Pow2(j - 1));
  }

  /** The lowest n bits of b each say whether anything is left of b from there. */
  predicate Faithful(b: nat, n: nat) { forall j :: 0 <= j < n ==> (Bit(b, j) <==> b / Pow2(j) != 0) }

  lemma {:induction false} FaithfulExact(b: nat, n: nat)
    requires b < Pow2(n)
    ensures Faithful(b, n) <==> exists m :: 0 <= m <= n && b == Pow2(m) - 1
    decreases n
  {
    if n == 0 {
      assert b == Pow2(0) - 1;
    } else {
      FaithfulExact(b / 2, n - 1);
      FaithfulHalf(b, n);
      if m :| 0 <= m <= n - 1 && b / 2 == Pow2(m) - 1 {
        if b % 2 == 1 { assert b == Pow2(m + 1) - 1; } else if b == 0 { assert b == Pow2(0) - 1; }
      }
      if m :| 0 <= m <= n && b == Pow2(m) - 1 {
        if m > 0 { assert b / 2 == Pow2(m - 1) - 1; } else { assert b / 2 == Pow2(0) - 1; }
      }
    }
  }

  lemma FaithfulHalf(b: nat, n: nat)
    requires n > 0
    ensures Faithful(b, n) <==> Faithful(b / 2, n - 1) && (b == 0 || b % 2 == 1)
  {
    hide Pow2;
    forall j | 0 < j < n ensures b / Pow2(j) == b / 2 / Pow2(j - 1) && Bit(b, j) == Bit(b / 2, j - 1) {
      HalvedQuotient(b, j);
    }
    PowerZero();
    if Faithful(b / 2, n - 1) && (b == 0 || b % 2 == 1) {
      forall j | 0 <= j < n ensures Bit(b, j) <==> b / Pow2(j) != 0 {
        if j > 0 { assert Bit(b / 2, j - 1) <==> b / 2 / Pow2(j - 1) != 0; }
      }
    }
    if Faithful(b, n) {
      forall j | 0 <= j < n - 1 ensures Bit(b / 2, j) <==> b / 2 / Pow2(j) != 0 {
        assert Bit(b, j + 1) <==> b / Pow2(j + 1) != 0;
      }
      assert Bit(b, 0) <==> b / Pow2(0) != 0;
    }
  }

  lemma PowerZero()
    ensures Pow2(0) == 1
  {
  }

  /** So at every one of the eight overflows the line shows the bit of SBUF then
      due, most significant first, for exactly nine bytes. */
  lemma LineExact(b: byte)
    ensures Faithful(b, 8) <==> b in {0x00, 0x01, 0x03, 0x07, 0x0F, 0x1F, 0x3F, 0x7F, 0xFF}
  {
    EightPowers();
    hide Faithful;
    hide Pow2;
    FaithfulExact(b, 8);
    if m :| 0 <= m <= 8 && b == Pow2(m) - 1 { assert m in {0, 1, 2, 3, 4, 5, 6, 7, 8}; }
    assert Pow2(0) - 1 == 0x00 && Pow2(1) - 1 == 0x01 && Pow2(2) - 1 == 0x03;
    assert Pow2(3) - 1 == 0x07 && Pow2(4) - 1 == 0x0F && Pow2(5) - 1 == 0x1F;
    assert Pow2(6) - 1 == 0x3F && Pow2(7) - 1 == 0x7F && Pow2(8) - 1 == 0xFF;
  }

  lemma EightPowers()
    ensures Pow2(0) == 1 && Pow2(1) == 2 && Pow2(2) == 4 && Pow2(3) == 8 && Pow2(4) == 16
    ensures Pow2(5) == 32 && Pow2(6) == 64 && Pow2(7) == 128 && Pow2(8) == 256
  {
  }
}
