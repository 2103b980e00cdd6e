/** The interrupt sources by their registers: which bit of which register
    requests, enables and promotes each, where it leads, and what entering it
    clears. */
module InterruptSources {
  import opened Bytes
  import opened Cpu
  import opened Interrupts

  /** IE0 (02h), TF0 (20h), IE1 (08h) and TF1 (80h) of TCON, and the serial
      request. */
  function Flags(c: Cpu): (f: seq<bool>)
    ensures |f| == 5
  {
    var t := c.sfr[TCON];
    [Bit(t, 1), Bit(t, 5), Bit(t, 3), Bit(t, 7), c.serialIrq]
  }

  /** Bits 0 to 4 of IE or IP, one for each source. */
  function PerSource(r: byte): (b: seq<bool>)
    ensures |b| == 5
  {
    [Bit(r, 0), Bit(r, 1), Bit(r, 2), Bit(r, 3), Bit(r, 4)]
  }

  const VECTORS: seq<word> := [0x0003, 0x000B, 0x0013, 0x001B, 0x0023]

  /** Requested and enabled. */
  predicate Up(c: Cpu, s: Source) { Flags(c)[s] && PerSource(c.sfr[IE])[s] }

  predicate Promoted(c: Cpu, s: Source) { PerSource(c.sfr[IP])[s] }

  /** Its level is higher, or the same and it is polled earlier. */
  predicate Beats(c: Cpu, s: Source, t: Source) {
    (Promoted(c, s) && !Promoted(c, t)) || (Promoted(c, s) == Promoted(c, t) && s < t)
  }

  /** No service in hand keeps a request of this source waiting. */
  predicate MayInterrupt(c: Cpu, s: Source) { c.active == 0 || (c.active == 1 && Promoted(c, s)) }

  lemma SourceBits(c: Cpu, s: Source)
    ensures Pending(c, s) <==> Up(c, s)
    ensures HighPriority(c, s) <==> Promoted(c, s)
  {
    hide Bit;
  }

  lemma VectorOf(s: Source)
    ensures Vector(s) == VECTORS[s]
  {
  }

  lemma WinnerIsBest(c: Cpu, s: Source)
    requires Bit(c.sfr[IE], 7) && Up(c, s)
    requires forall t: Source :: t != s && Up(c, t) ==> Beats(c, s, t)
    ensures Winner(c) == Some((s, Promoted(c, s)))
  {
    forall t: Source ensures (Pending(c, t) <==> Up(c, t)) && (HighPriority(c, t) <==> Promoted(c, t)) {
      SourceBits(c, t);
    }
    hide Bit;
    hide Pending;
    hide HighPriority;
    hide Up;
    hide Promoted;
    var high, low := FirstPending(c, true, 0), FirstPending(c, false, 0);
    assert Promoted(c, s) ==> high.Some?;
    assert low.Some?;
  }

  /** What entering a source clears: the flag of a timer or the serial request,
      and not another bit of TCON. */
  lemma Cleared(c: Cpu, s: Source)
    ensures var r := Called(c, s);
            && (forall k :: 0 <= k < 8 ==>
                  (Bit(r.sfr[TCON], k) <==> Bit(c.sfr[TCON], k) && !(s == 1 && k == 5) && !(s == 3 && k == 7)))
            && r.serialIrq == (c.serialIrq && s != SERIAL)
  {
    assert Pow2(5) == 0x20 && Pow2(7) == 0x80;
    forall k | 0 <= k < 8
      ensures Bit(AndNotByte(c.sfr[TCON], 0x20), k) <==> Bit(c.sfr[TCON], k) && k != 5
      ensures Bit(AndNotByte(c.sfr[TCON], 0x80), k) <==> Bit(c.sfr[TCON], k) && k != 7
    {
      AndNotBit(c.sfr[TCON], 0x20, k);
      AndNotBit(c.sfr[TCON], 0x80, k);
      Pow2Bit(5, k);
      Pow2Bit(7, k);
    }
    hide Bit;
    hide AndNotByte;
    hide Push;
    hide Vector;
    var c1 := Set(c, PCON, AndNotByte(c.sfr[PCON], 0x01));
    PushKeeps(c1, c1.pc % 256);
    PushKeeps(Push(c1, c1.pc % 256), c1.pc / 256);
  }

  /** The source that beats every other one requested and enabled is entered, if
      no service in hand prevents it: PC is its vector, its level is in service
      on top of those that were, the return address is below SP, its flag is down if
      the hardware clears it, and every other flag is as it was. */
  lemma BestIsServed(c: Cpu, s: Source)
    requires Bit(c.sfr[IE], 7) && Up(c, s) && MayInterrupt(c, s)
    requires forall t: Source :: t != s && Up(c, t) ==> Beats(c, s, t)
    ensures var r := HandleInterrupts(c);
            && r.pc == VECTORS[s] && r.tickDelay == 1
            && LevelStack(r.active) == LevelStack(c.active) + [if Promoted(c, s) then High else Low]
            && r.sfr[SP] == Inc(Inc(c.sfr[SP]))
            && (forall k :: 0 <= k < 8 ==>
                  (Bit(r.sfr[TCON], k) <==> Bit(c.sfr[TCON], k) && !(s == 1 && k == 5) && !(s == 3 && k == 7)))
            && r.serialIrq == (c.serialIrq && s != SERIAL)
  {
    hide Bit;
    hide Called;
    hide Winner;
    hide Vector;
    hide Promoted;
    hide Up;
    WinnerIsBest(c, s);
    VectorOf(s);
    EnterKeeps(c, s, Promoted(c, s));
    Cleared(c, s);
  }

  /** And nothing is entered when EA is clear or no source both requested and
      enabled may interrupt. */
  lemma NothingServed(c: Cpu)
    requires LevelsOk(c.active)
    requires !Bit(c.sfr[IE], 7) || forall s: Source :: Up(c, s) ==> !MayInterrupt(c, s)
    ensures HandleInterrupts(c) == c
  {
    hide Bit;
    hide Pending;
    hide HighPriority;
    hide Up;
    hide Promoted;
    hide Enter;
    hide Enters;
    forall t: Source ensures (Pending(c, t) <==> Up(c, t)) && (HighPriority(c, t) <==> Promoted(c, t)) {
      SourceBits(c, t);
    }
    EntersExactly(c);
  }

  /** Each source alone, from the registers' values. */
  lemma OneSourceUp(c: Cpu, s: Source)
    requires Bit(c.sfr[IE], 7) && PerSource(c.sfr[IE])[s]
    requires forall t: Source :: Flags(c)[t] <==> t == s
    requires c.active == 0 || (c.active == 1 && Promoted(c, s))
    ensures var r := HandleInterrupts(c);
            r.pc == [0x0003, 0x000B, 0x0013, 0x001B, 0x0023][s] && !r.serialIrq
            && Flags(r) == [s == 0, false, s == 2, false, false]
  {
    hide PerSource;
    BestIsServed(c, s);
    var r := HandleInterrupts(c);
    hide Bit;
    hide HandleInterrupts;
    var f := Flags(c);
    assert f == [f[0], f[1], f[2], f[3], f[4]];
  }

  // -------------------------------------------------------- kept PSW bits

  predicate AlikeButPF0(p: byte, q: byte) {
    forall k :: 0 <= k < 8 && k != 0 && k != 1 && k != 5 ==> Bit(p, k) == Bit(q, k)
  }

  /** The PSW bits whose change RETI reports: not P, F0 and the unused one, so
      OV, RS0, RS1, AC and C. */
  lemma KeptBits(p: byte, q: byte)
    ensures PswKept(p) == PswKept(q) <==> AlikeButPF0(p, q)
  {
    hide Bit;
    hide PswKept;
    if PswKept(p) == PswKept(q) {
      forall k | 0 <= k < 8 && k != 0 && k != 1 && k != 5 ensures Bit(p, k) == Bit(q, k) {
        KeptBit(p, k);
        KeptBit(q, k);
      }
    } else if AlikeButPF0(p, q) {
      EightBits();
      forall k | 0 <= k < 8 ensures Bit(PswKept(p), k) == Bit(PswKept(q), k) {
        KeptBit(p, k);
        KeptBit(q, k);
      }
      BitsDetermine(PswKept(p), PswKept(q), 8);
      assert false;
    }
  }

  lemma EightBits()
    ensures Pow2(8) == 256
  {
  }

  lemma KeptBit(p: byte, k: nat)
    requires k < 8
    ensures Bit(PswKept(p), k) <==> Bit(p, k) && k != 0 && k != 1 && k != 5
  {
    AndNotBit(p, 0x23, k);
    DroppedBits(k);
    hide Bit;
  }

  lemma DroppedBits(k: nat)
    requires k < 8
    ensures Bit(0x23, k) <==> k in {0, 1, 5}
  {
    assert Bit(0x23, 0) && Bit(0x23, 1) && !Bit(0x23, 2) && !Bit(0x23, 3);
    assert !Bit(0x23, 4) && Bit(0x23, 5) && !Bit(0x23, 6) && !Bit(0x23, 7);
    assert k in {0, 1, 2, 3, 4, 5, 6, 7};
    hide Bit;
  }
}
