/** The two-level interrupt controller: polling, entry, return, and nesting. */
module Interrupts {
  import opened Bytes
  import opened Cpu

  // ------------------------------------------------------------- polling

  /** The five sources in polling order: INT0, timer 0, INT1, timer 1, serial. */
  type Source = s: int | 0 <= s < 5

  const SERIAL: Source := 4

  /** 0003h, 000Bh, 0013h, 001Bh, 0023h. */
  function Vector(s: Source): byte { 0x03 + 8 * s }

  /** The TCON bit that requests a source other than the serial port. */
  function RequestBit(s: Source): nat {
    if s == 0 then 1 else if s == 1 then 5 else if s == 2 then 3 else 7
  }

  predicate Requested(c: Cpu, s: Source) {
    if s == SERIAL then c.serialIrq else Bit(c.sfr[TCON], RequestBit(s))
  }

  predicate Pending(c: Cpu, s: Source) { Bit(c.sfr[IE], s) && Requested(c, s) }
  predicate HighPriority(c: Cpu, s: Source) { Bit(c.sfr[IP], s) }

  /** The first source in polling order from k on that is pending, and of high
      priority if only those are asked for. */
  function FirstPending(c: Cpu, highOnly: bool, k: nat): (s: Option<Source>)
    requires k <= 5
    ensures s.None? ==> forall t: Source :: k <= t ==> !(Pending(c, t) && (highOnly ==> HighPriority(c, t)))
    ensures s.Some? ==>
              && k <= s.value && Pending(c, s.value) && (highOnly ==> HighPriority(c, s.value))
              && forall t: Source :: k <= t < s.value ==> !(Pending(c, t) && (highOnly ==> HighPriority(c, t)))
    decreases 5 - k
  {
    if k == 5 then None
    else if Pending(c, k) && (highOnly ==> HighPriority(c, k)) then Some(k)
    else FirstPending(c, highOnly, k + 1)
  }

  /** The source to serve next and its level: the first pending one of high
      priority, or else the first pending one. */
  function Winner(c: Cpu): Option<(Source, bool)> {
    if !Bit(c.sfr[IE], 7) then None
    else
      var high := FirstPending(c, true, 0);
      if high.Some? then Some((high.value, true))
      else
        var low := FirstPending(c, false, 0);
        if low.Some? then Some((low.value, false)) else None
  }

  // ---------------------------------------------------------------- entry

  predicate Enters(c: Cpu) {
    c.active <= 1 && Winner(c).Some? && (c.active == 1 ==> Winner(c).value.1)
  }

  /** The request flag the hardware clears on entry: those of the timers and
      of the serial port. */
  function ClearRequest(c: Cpu, s: Source): Cpu {
    if s == 1 then Set(c, TCON, AndNotByte(c.sfr[TCON], 0x20))
    else if s == 3 then Set(c, TCON, AndNotByte(c.sfr[TCON], 0x80))
    else if s == SERIAL then c.(serialIrq := false)
    else c
  }

  /** The hardware's call of the vector. Its second cycle stays owed, and the
      idle flag, but not the power-down flag, is cleared. */
  function Called(c: Cpu, s: Source): Cpu {
    var c1 := Set(c, PCON, AndNotByte(c.sfr[PCON], 0x01));
    var c2 := Push(Push(c1, c1.pc % 256), c1.pc / 256);
    ClearRequest(c2.(pc := Vector(s), tickDelay := 1), s)
  }

  /** The level is in service, and what RETI will check is remembered. */
  function InService(c: Cpu, high: bool): Cpu
    requires c.active <= 1
  {
    var h := if high then 1 else 0;
    c.(active := if high then c.active % 2 + 2 else 1,
       intA := c.intA[h := c.sfr[ACC]], intPsw := c.intPsw[h := c.sfr[PSW]], intSp := c.intSp[h := c.sfr[SP]])
  }

  function Enter(c: Cpu, s: Source, high: bool): Cpu
    requires c.active <= 1
  {
    CalledKeeps(c, s);
    InService(Called(c, s), high)
  }

  function HandleInterrupts(c: Cpu): Cpu {
    if Enters(c) then Enter(c, Winner(c).value.0, Winner(c).value.1) else c
  }

  // --------------------------------------------------------------- return

  /** PSW bits a handler must keep: OV, RS0, RS1, AC and C. */
  function PswKept(psw: byte): byte { AndNotByte(psw, 0x23) }

  function RaiseIf(c: Cpu, wrong: bool, e: Exception): Cpu { if wrong then Raise(c, e) else c }

  /** What RETI finds changed since the entry of the service it ends. */
  function Mismatches(c: Cpu, h: nat): Cpu
    requires h < 2
  {
    var c := RaiseIf(c, c.intA[h] != c.sfr[ACC], RetiAccMismatch);
    var c := RaiseIf(c, c.intSp[h] != c.sfr[SP], RetiSpMismatch);
    RaiseIf(c, PswKept(c.intPsw[h]) != PswKept(c.sfr[PSW]), RetiPswMismatch)
  }

  /** RETI before its pops: the mismatches it raises, the level it ends. */
  function RetiChecked(c: Cpu): Cpu {
    if c.active == 0 then c
    else
      var h := if c.active > 1 then 1 else 0;
      Mismatches(c, h).(active := if c.active / 2 % 2 == 1 then c.active - 2 else 0)
  }

  function Reti(c: Cpu): Cpu {
    var (c2, hi) := Pop(RetiChecked(c));
    var (c3, lo) := Pop(c2);
    var high: int, low: int := hi, lo;
    c3.(pc := 256 * high + low)
  }

  // ----------------------------------------------------- levels in service

  datatype Level = Low | High

  /** The stack of levels in service that mInterruptActive stands for. */
  function LevelStack(active: byte): seq<Level> {
    if active == 0 then [] else if active == 1 then [Low] else if active == 2 then [High] else [Low, High]
  }

  /** At most one service of each level, the high one on top. */
  predicate LevelsOk(active: byte) { active <= 3 }

  lemma PushKeeps(c: Cpu, v: byte)
    ensures var r := Push(c, v);
            && r == c.(sfr := r.sfr, lower := r.lower, upper := r.upper, raised := r.raised)
            && r.sfr == c.sfr[SP := Inc(c.sfr[SP])] && r.upper.Some? == c.upper.Some?
  {
  }

  lemma PopKeeps(c: Cpu)
    ensures var r := Pop(c).0;
            && r == c.(sfr := r.sfr, raised := r.raised) && r.sfr == c.sfr[SP := Dec(c.sfr[SP])]
  {
  }

  lemma CalledKeeps(c: Cpu, s: Source)
    ensures var r := Called(c, s);
            && r == c.(sfr := r.sfr, lower := r.lower, upper := r.upper, raised := r.raised,
                       pc := Vector(s), tickDelay := 1, serialIrq := r.serialIrq)
            && r.sfr[ACC] == c.sfr[ACC] && r.sfr[PSW] == c.sfr[PSW]
            && r.sfr[SP] == Inc(Inc(c.sfr[SP])) && !Bit(r.sfr[PCON], 0)
            && r.upper.Some? == c.upper.Some?
  {
    hide AndNotByte;
    hide Push;
    hide Vector;
    hide Inc;
    hide Bit;
    var c1 := Set(c, PCON, AndNotByte(c.sfr[PCON], 0x01));
    PushKeeps(c1, c1.pc % 256);
    PushKeeps(Push(c1, c1.pc % 256), c1.pc / 256);
    IdleCleared(c.sfr[PCON]);
  }

  lemma EnterKeeps(c: Cpu, s: Source, high: bool)
    requires c.active <= 1
    ensures var r := Enter(c, s, high);
            && r.active == (if high then c.active + 2 else 1) && r.pc == Vector(s) && r.tickDelay == 1
            && r.sfr[ACC] == c.sfr[ACC] && r.sfr[PSW] == c.sfr[PSW]
            && r.sfr[SP] == Inc(Inc(c.sfr[SP])) && !Bit(r.sfr[PCON], 0)
            && (var h := if high then 1 else 0;
                r.intA == c.intA[h := c.sfr[ACC]] && r.intPsw == c.intPsw[h := c.sfr[PSW]]
                && r.intSp == c.intSp[h := r.sfr[SP]])
            && r.upper.Some? == c.upper.Some?
  {
    hide Called;
    hide Vector;
    hide Inc;
    hide Bit;
    CalledKeeps(c, s);
  }

  lemma IdleCleared(pcon: byte)
    ensures !Bit(AndNotByte(pcon, 0x01), 0)
  {
    AndNotBit(pcon, 1, 0);
  }

  /** Entry pushes one level, always higher than all in service: a high
      service is never interrupted and a low one only by a high one. */
  lemma EntryPushesLevel(c: Cpu)
    requires LevelsOk(c.active)
    ensures var r := HandleInterrupts(c);
            && LevelsOk(r.active)
            && (Enters(c) ==>
                  var level := if Winner(c).value.1 then High else Low;
                  && LevelStack(r.active) == LevelStack(c.active) + [level]
                  && High !in LevelStack(c.active) && (Low in LevelStack(c.active) ==> level == High)
                  && r.pc == Vector(Winner(c).value.0))
            && (!Enters(c) ==> r == c)
  {
    hide Enter;
    hide Winner;
    if Enters(c) { EnterKeeps(c, Winner(c).value.0, Winner(c).value.1); }
  }

  /** An interrupt is entered exactly when one is due: EA set, a source pending,
      no high service active, and a high one pending if a low one is active. */
  lemma EntersExactly(c: Cpu)
    requires LevelsOk(c.active)
    ensures Enters(c) <==>
            && Bit(c.sfr[IE], 7) && High !in LevelStack(c.active)
            && exists s: Source :: Pending(c, s) && (c.active == 1 ==> HighPriority(c, s))
  {
    hide Bit;
    hide Pending;
    var high, low := FirstPending(c, true, 0), FirstPending(c, false, 0);
    if c.active <= 1 && Bit(c.sfr[IE], 7) {
      if high.Some? {
        assert Pending(c, high.value) && HighPriority(c, high.value);
      } else if low.Some? {
        assert Pending(c, low.value);
      }
    }
  }

  /** RETI takes the topmost level out of service. */
  lemma RetiPopsLevel(c: Cpu)
    requires LevelsOk(c.active)
    ensures var r := Reti(c);
            && LevelsOk(r.active)
            && LevelStack(r.active) == if c.active == 0 then [] else LevelStack(c.active)[..|LevelStack(c.active)| - 1]
  {
    hide Pop;
    hide PswKept;
    RetiShape(c);
  }

  lemma MismatchesOnlyRaise(c: Cpu, h: nat)
    requires h < 2
    ensures Mismatches(c, h) == c.(raised := Mismatches(c, h).raised)
  {
    hide PswKept;
  }

  lemma RetiShape(c: Cpu)
    ensures var c1 := RetiChecked(c);
            && c1 == c.(raised := c1.raised, active := c1.active)
            && c1.active == (if c.active / 2 % 2 == 1 then c.active - 2 else 0)
            && Reti(c).active == c1.active
  {
    hide Mismatches;
    hide Pop;
    MismatchesOnlyRaise(c, if c.active > 1 then 1 else 0);
    PopKeeps(RetiChecked(c));
    PopKeeps(Pop(RetiChecked(c)).0);
  }
}
