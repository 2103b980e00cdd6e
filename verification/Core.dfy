/** The 8051 core as the object the program keeps: registers and memories
    changed in place, each method proved against the functions on its state. */
module Core {
  import opened Bytes
  import opened Cpu
  import opened Arithmetic
  import opened Timers
  import opened Interrupts
  import opened CondJumps
  import opened Ticks

  ghost predicate WinnerIs(c: Cpu, dest: int, hi: bool) {
    if Winner(c).None? then dest == -1
    else dest == Vector(Winner(c).value.0) && hi == Winner(c).value.1
  }

  /** What the poll knows after the first k sources. */
  ghost predicate Polled(c: Cpu, k: nat, src: int, hi: bool, lo: bool) {
    && (lo ==> 0 <= src < k && src < 5 && Pending(c, src) && hi == HighPriority(c, src))
    && (!lo ==> !hi)
    && (forall t: Source :: t < k && Pending(c, t) ==> lo && (hi || src <= t))
    && (forall t: Source :: t < k && Pending(c, t) && HighPriority(c, t) ==> hi && src <= t)
  }

  lemma DisabledPoll(c: Cpu)
    requires !Bit(c.sfr[IE], 7)
    ensures WinnerIs(c, -1, false)
  {
  }

  lemma PollingDone(c: Cpu, src: int, dest: int, hi: bool, lo: bool)
    requires Bit(c.sfr[IE], 7) && Polled(c, 5, src, hi, lo) && dest == (if lo then Vector(src) else -1)
    ensures WinnerIs(c, dest, hi)
  {
    hide Pending;
    hide HighPriority;
    hide Bit;
  }

  lemma PopIgnoresPc(c: Cpu, to: word)
    ensures Pop(c.(pc := to)) == (Pop(c).0.(pc := to), Pop(c).1)
  {
  }

  /** A and PSW replaced and PC moved on by n. */
  function Accumulated(c: Cpu, ap: (byte, byte), n: nat): Cpu {
    Set(Set(c, PSW, ap.1), ACC, ap.0).(pc := (c.pc + n) % 65536)
  }

  lemma WinnerMeans(c: Cpu, dest: int, hi: bool)
    requires WinnerIs(c, dest, hi) && c.active <= 1
    ensures Enters(c) <==> dest != -1 && !(c.active == 1 && !hi)
    ensures dest != -1 ==> Winner(c).Some? && dest == Vector(Winner(c).value.0) && hi == Winner(c).value.1
  {
    hide Winner;
  }

  lemma JumpOf(p: Ports, c: Cpu, code: seq<byte>, op: byte, n: byte)
    requires IsCode(code) && Fetch(code, c.pc, 0) == op && CondRel(op)
    requires n == if 0x40 <= op <= 0x70 || op >= 0xD8 then 2 else 3
    ensures code != []
    ensures var (d, taken) := Decide(p, c, op, Fetch(code, c.pc, 1));
            Jump(p, c, code) == d.(pc := Target(c.pc, n, Fetch(code, c.pc, n - 1), taken)) && d.pc == c.pc
  {
    CodeNotEmpty(code);
    hide IsCode;
    hide Decide;
    DecideKeepsPc(p, c, op, Fetch(code, c.pc, 1));
    LengthOfCondRel(op);
    hide Length;
    hide Fetch;
  }

  lemma DecideDirect(p: Ports, c: Cpu, arg: byte)
    ensures Decide(p, c, 0xB5, arg) == CompareDirect(p, c, arg)
    ensures Decide(p, c, 0xD5, arg) == CountDown(p, c, arg)
  {
    hide CompareDirect;
    hide CountDown;
  }

  /** A callback does the same wherever PC is. */
  lemma BlindToPc(p: Ports, c: Cpu, to: word, a: byte)
    ensures SfrWritten(p, c.(pc := to), a) == SfrWritten(p, c, a).(pc := to)
  {
    assert c.(pc := to).(pc := 0) == c.(pc := 0);
  }

  function Zeros(): Ram { seq(128, _ => 0) }

  function WarmReset(c: Cpu): Cpu {
    c.(sfr := Zeros()[SP := 7][P0 := 0xFF][P1 := 0xFF][P2 := 0xFF][P3 := 0xFF],
       pc := 0, tickDelay := 0, active := 0, serialIrq := false, remaining := 0)
  }

  /** A reset that wipes: RAM cleared, the power-off flag set, whatever noise
      finds in SBUF. */
  function ColdReset(c: Cpu, noise: byte): Cpu {
    var w := WarmReset(c);
    w.(sfr := w.sfr[PCON := 0x10][SBUF := noise],
       lower := Zeros(), upper := if c.upper.Some? then Some(Zeros()) else None)
  }

  /** A warm reset clears PCON, so it leaves the power-off flag as it was if and
      only if it was clear. */
  lemma WarmResetClearsPowerFlag(c: Cpu)
    ensures var r := WarmReset(c);
            r.sfr[PCON] == 0 && (Bit(r.sfr[PCON], 4) == Bit(c.sfr[PCON], 4) <==> !Bit(c.sfr[PCON], 4))
  {
    hide Bit;
    ZeroBits(4);
  }

  class Em8051 {
    const sfr: array<byte>
    const lower: array<byte>
    const upper: array?<byte>
    const code: array<byte>
    const serialOut: array<byte>
    const intA: array<byte>
    const intPsw: array<byte>
    const intSp: array<byte>
    var pc: word
    var tickDelay: byte
    var active: byte
    var outIdx: LogIndex
    var remaining: byte
    var serialIrq: bool
    var raised: seq<Exception>

    predicate Valid() {
      && sfr.Length == 128 && lower.Length == 128 && (upper != null ==> upper.Length == 128)
      && serialOut.Length == 18 && intA.Length == 2 && intPsw.Length == 2 && intSp.Length == 2
      && lower != sfr
      && upper != sfr && upper != lower
      && serialOut != sfr && serialOut != lower && serialOut != upper
      && intA != sfr && intA != lower && intA != upper && intA != serialOut
      && intPsw != sfr && intPsw != lower && intPsw != upper && intPsw != serialOut && intPsw != intA
      && intSp != sfr && intSp != lower && intSp != upper && intSp != serialOut && intSp != intA && intSp != intPsw
      && code !in {sfr, lower, serialOut, intA, intPsw, intSp} && code != upper
    }

    /** Everything but code memory. */
    ghost function Parts(): set<object> {
      {this, sfr, lower, serialOut, intA, intPsw, intSp} + if upper == null then {} else {upper}
    }

    function State(): (c: Cpu)
      requires Valid()
      reads Parts()
      ensures c.sfr == sfr[..] && c.lower == lower[..] && (c.upper.Some? <==> upper != null)
      ensures c.pc == pc && c.tickDelay == tickDelay && c.active == active && c.remaining == remaining
    {
      var high: Option<Ram> := if upper == null then None else var bytes: Ram := upper[..]; Some(bytes);
      Cpu(sfr[..], lower[..], high, pc, tickDelay,
          active, intA[..], intPsw[..], intSp[..],
          serialOut[..], outIdx, remaining, serialIrq, raised)
    }

    /** A part with the given code size, as allocated: all zero. */
    constructor (codeSize: nat, hasUpper: bool)
      ensures Valid() && fresh(Parts()) && fresh(code)
      ensures code.Length == codeSize && (upper != null <==> hasUpper)
      ensures forall i :: 0 <= i < codeSize ==> code[i] == 0
      ensures sfr[..] == lower[..] == Zeros() && (hasUpper ==> upper[..] == Zeros())
      ensures pc == 0 && tickDelay == active == remaining == 0 && outIdx == 0 && !serialIrq && raised == []
    {
      sfr := new byte[128](_ => 0);
      lower := new byte[128](_ => 0);
      code := new byte[codeSize](_ => 0);
      serialOut := new byte[18](_ => 0);
      intA := new byte[2](_ => 0);
      intPsw := new byte[2](_ => 0);
      intSp := new byte[2](_ => 0);
      if hasUpper { upper := new byte[128](_ => 0); } else { upper := null; }
      pc, tickDelay, active, outIdx, remaining, serialIrq, raised := 0, 0, 0, 0, 0, false, [];
    }

    method ClearSfr()
      requires Valid()
      modifies sfr
      ensures State() == old(State()).(sfr := Zeros())
    {
      Clear(sfr);
      assert sfr[..] == Zeros();
    }

    /** Zeroes a memory. */
    method Clear(a: array<byte>)
      modifies a
      ensures forall k :: 0 <= k < a.Length ==> a[k] == 0
    {
      var i := 0;
      while i < a.Length
        invariant 0 <= i <= a.Length
        invariant forall k :: 0 <= k < i ==> a[k] == 0
      {
        a[i] := 0;
        i := i + 1;
      }
    }

    method WipeMemory()
      requires Valid()
      modifies Parts(), code
      ensures State() == old(State()).(lower := Zeros(), upper := if upper == null then None else Some(Zeros()))
      ensures forall k :: 0 <= k < code.Length ==> code[k] == 0
    {
      Clear(code);
      Clear(lower);
      assert lower[..] == Zeros();
      if upper != null {
        Clear(upper);
        assert upper[..] == Zeros();
      }
    }

    /** Registers and bookkeeping, not the serial ring's position; memory too if
        wiping, with noise in SBUF then. */
    method Reset(wipe: bool, noise: byte)
      requires Valid()
      modifies Parts(), code
      ensures State() == if wipe then ColdReset(old(State()), noise) else WarmReset(old(State()))
      ensures if wipe then forall k :: 0 <= k < code.Length ==> code[k] == 0 else code[..] == old(code[..])
    {
      hide Zeros;
      if wipe { WipeMemory(); }
      ClearSfr();
      pc, tickDelay := 0, 0;
      sfr[SP] := 7;
      sfr[P0] := 0xFF;
      sfr[P1] := 0xFF;
      sfr[P2] := 0xFF;
      sfr[P3] := 0xFF;
      if wipe {
        sfr[PCON] := 0x10;
        sfr[SBUF] := noise;
      }
      active, serialIrq, remaining := 0, false, 0;
    }

    method SetSfr(r: nat, v: byte)
      requires Valid() && r < 128
      modifies sfr
      ensures State() == Set(old(State()), r, v)
    {
      sfr[r] := v;
    }

    method WriteMemIndir(a: byte, v: byte)
      requires Valid()
      modifies Parts()
      ensures State() == WriteIndirect(old(State()), a, v)
    {
      if a > 0x7F {
        if upper != null { upper[a - 0x80] := v; }
      } else {
        lower[a] := v;
      }
    }

    method ReadMemIndir(a: byte) returns (v: byte)
      requires Valid()
      ensures v == ReadIndirect(State(), a)
    {
      if a > 0x7F {
        if upper != null { return upper[a - 0x80]; }
      } else {
        return lower[a];
      }
      return BAD_VALUE;
    }

    method Except(e: Exception)
      requires Valid()
      modifies `raised
      ensures State() == Raise(old(State()), e)
    {
      raised := raised + [e];
    }

    method PushToStack(v: byte)
      requires Valid()
      modifies Parts()
      ensures State() == Push(old(State()), v)
    {
      SetSfr(SP, Inc(sfr[SP]));
      if sfr[SP] > 0x7F && upper == null {
        Except(StackFault);
      } else {
        WriteMemIndir(sfr[SP], v);
      }
      if sfr[SP] == 0 { Except(StackFault); }
    }

    method PopFromStack() returns (v: byte)
      requires Valid()
      modifies Parts()
      ensures (State(), v) == Pop(old(State()))
    {
      v := BAD_VALUE;
      if sfr[SP] > 0x7F && upper == null {
        Except(StackFault);
      } else {
        v := ReadMemIndir(sfr[SP]);
      }
      SetSfr(SP, Dec(sfr[SP]));
      if sfr[SP] == 0xFF { Except(StackFault); }
    }

    // ---------------------------------------------------------- arithmetic

    method AddSolveFlags(v1: byte, v2: byte, carryIn: bool)
      requires Valid()
      modifies sfr
      ensures State() == Set(old(State()), PSW, AddFlags(old(sfr[PSW]), v1, v2, carryIn))
    {
      hide SetFlags;
      var i: int := if carryIn then 1 else 0;
      var carry := (v1 as int + v2 + i) / 256 != 0;
      var auxcarry := (v1 % 16 + v2 % 16 + i) / 16 != 0;
      var overflow := ((v1 % 128 + v2 % 128 + i) / 128 != 0) != carry;
      sfr[PSW] := SetFlags(sfr[PSW], carry, auxcarry, overflow);
    }

    method SubSolveFlags(v1: byte, v2: byte, carryIn: bool)
      requires Valid()
      modifies sfr
      ensures State() == Set(old(State()), PSW, SubFlags(old(sfr[PSW]), v1, v2, carryIn))
    {
      hide SetFlags;
      var i: int := if carryIn then 1 else 0;
      var carry := v1 as int - v2 - i < 0;
      var auxcarry := v1 % 16 - v2 % 16 - i < 0;
      var overflow := (v1 % 128 - v2 % 128 - i < 0) != carry;
      sfr[PSW] := SetFlags(sfr[PSW], carry, auxcarry, overflow);
    }

    /** ADDC A,#data. */
    method AddcImm() returns (delay: byte)
      requires Valid() && code.Length > 0
      modifies sfr, `pc
      ensures delay == 0
      ensures State() == Accumulated(old(State()), Addc(old(sfr[ACC]), old(sfr[PSW]), Fetch(code[..], old(pc), 1)), 2)
    {
      hide AddFlags;
      var carry := sfr[PSW] >= 128;
      var operand := code[(pc + 1) % code.Length];
      AddSolveFlags(sfr[ACC], operand, carry);
      sfr[ACC] := (sfr[ACC] as int + operand + if carry then 1 else 0) % 256;
      pc := (pc + 2) % 65536;
      return 0;
    }

    /** SUBB A,#data. */
    method SubbImm() returns (delay: byte)
      requires Valid() && code.Length > 0
      modifies sfr, `pc
      ensures delay == 0
      ensures State() == Accumulated(old(State()), Subb(old(sfr[ACC]), old(sfr[PSW]), Fetch(code[..], old(pc), 1)), 2)
    {
      hide SubFlags;
      var carry := sfr[PSW] >= 128;
      var operand := code[(pc + 1) % code.Length];
      SubSolveFlags(sfr[ACC], operand, carry);
      sfr[ACC] := (sfr[ACC] as int - operand - if carry then 1 else 0) % 256;
      pc := (pc + 2) % 65536;
      return 0;
    }

    /** DA A. */
    method DaA() returns (delay: byte)
      requires Valid()
      modifies sfr, `pc
      ensures delay == 0
      ensures State() == Accumulated(old(State()), Da(old(sfr[ACC]), old(sfr[PSW])), 1)
    {
      var result: int := sfr[ACC];
      if result % 16 > 9 || AuxCarry(sfr[PSW]) { result := result + 0x6; }
      if result - result % 16 > 0x90 || Carry(sfr[PSW]) { result := result + 0x60; }
      if result > 0x99 && sfr[PSW] < 128 { sfr[PSW] := sfr[PSW] + 128; }
      sfr[ACC] := result % 256;
      pc := (pc + 1) % 65536;
      return 0;
    }

    // ---------------------------------------------------------------- RETI

    method ReportMismatches(hi: nat)
      requires Valid() && hi < 2
      modifies `raised
      ensures State() == Mismatches(old(State()), hi)
    {
      hide PswKept;
      if intA[hi] != sfr[ACC] { Except(RetiAccMismatch); }
      assert State() == RaiseIf(old(State()), intA[hi] != sfr[ACC], RetiAccMismatch);
      if intSp[hi] != sfr[SP] { Except(RetiSpMismatch); }
      if PswKept(intPsw[hi]) != PswKept(sfr[PSW]) { Except(RetiPswMismatch); }
    }

    /** RETI's checks and the end of the service in hand. */
    method EndService()
      requires Valid()
      modifies `raised, `active
      ensures State() == RetiChecked(old(State()))
    {
      hide Mismatches;
      if active != 0 {
        var hi := if active > 1 then 1 else 0;
        ReportMismatches(hi);
        if active / 2 % 2 == 1 { active := active - 2; } else { active := 0; }
      }
    }

    method RetiOp() returns (delay: byte)
      requires Valid()
      modifies Parts()
      ensures delay == 1 && State() == Reti(old(State()))
    {
      hide Pop;
      hide RetiChecked;
      EndService();
      ghost var c1 := State();
      var high := PopFromStack();
      ghost var c2 := State();
      pc := 256 * (high as int);
      PopIgnoresPc(c2, pc);
      var low := PopFromStack();
      pc := pc + low;
      return 1;
    }

    // -------------------------------------------------------------- timers

    method SerialTxTick()
      requires Valid()
      modifies Parts()
      ensures State() == SerialTx(old(State()))
    {
      hide BitOut;
      hide ByteOut;
      if remaining == 0 { return; }
      ShiftBitOut();
      if remaining == 0 { CompleteByte(); }
    }

    /** One bit of the byte in SBUF out on P3.1. */
    method ShiftBitOut()
      requires Valid() && remaining > 0
      modifies sfr, `remaining
      ensures State() == BitOut(old(State()))
    {
      hide OrByte;
      hide AndNotByte;
      hide Pow2;
      remaining := remaining - 1;
      var txBit := sfr[SBUF] / Pow2(remaining) != 0;
      sfr[P3] := AndNotByte(sfr[P3], 0x02);
      if txBit { sfr[P3] := OrByte(sfr[P3], 0x02); }
    }

    method CompleteByte()
      requires Valid()
      modifies sfr, serialOut, `outIdx, `serialIrq
      ensures State() == ByteOut(old(State()))
    {
      hide OrByte;
      hide Bit;
      serialOut[outIdx] := sfr[SBUF];
      outIdx := (outIdx + 1) % 18;
      sfr[SCON] := OrByte(sfr[SCON], 0x02);
      if Bit(sfr[IE], 4) { serialIrq := true; }
    }

    method RaiseFlag(flag: byte)
      requires Valid()
      modifies sfr
      ensures State() == SetFlag(old(State()), true, flag)
    {
      hide OrByte;
      sfr[TCON] := OrByte(sfr[TCON], flag);
    }

    /** A register counted up by one; whether it wrapped around. */
    method Bump(r: nat) returns (carry: bool)
      requires Valid() && r < 128
      modifies sfr
      ensures State() == Set(old(State()), r, Inc(old(sfr[r]))) && carry == (old(sfr[r]) == 255)
    {
      var v: int := sfr[r];
      v := v + 1;
      sfr[r] := v % 256;
      return v > 0xFF;
    }

    /** Timer 0 in mode 3. */
    method Mode3Tick()
      requires Valid()
      modifies sfr
      ensures State() == Split0(old(State()))
    {
      hide Bit;
      hide OrByte;
      var increment := 0;
      if !Bit(sfr[TMOD], 3) && Bit(sfr[TCON], 4) {
        if Bit(sfr[TMOD], 2) { increment := 0; } else { increment := 1; }
      }
      if increment == 1 {
        var carry := Bump(TL0);
        if carry { RaiseFlag(TF0); }
      }
      increment := 0;
      if !Bit(sfr[TMOD], 7) && Bit(sfr[TCON], 6) {
        if Bit(sfr[TMOD], 6) { increment := 0; } else { increment := 1; }
      }
      if increment == 1 {
        var carry := Bump(TH0);
        if carry { RaiseFlag(TF1); }
      }
    }

    /** One count of the timer in registers th and tl, in mode 0, 1 or 2. */
    method CountUp(mode: nat, th: nat, tl: nat) returns (carry: bool)
      requires Valid() && th < 128 && tl < 128 && th != tl
      modifies sfr
      ensures var (h, l, c) := Count(mode, old(sfr[th]), old(sfr[tl]));
              State() == Set(Set(old(State()), th, h), tl, l) && carry == c
    {
      carry := false;
      if mode == 0 {
        var v := sfr[tl] % 32 + 1;
        sfr[tl] := sfr[tl] - sfr[tl] % 32 + v % 32;
        if v > 0x1F { carry := Bump(th); }
      } else if mode == 1 {
        carry := Bump(tl);
        if carry { carry := Bump(th); }
      } else if mode == 2 {
        carry := Bump(tl);
        if carry { sfr[tl] := sfr[th]; }
      }
    }

    method Timer0Tick()
      requires Valid()
      modifies sfr
      ensures State() == Timer0(old(State()))
    {
      hide Bit;
      hide OrByte;
      hide Count;
      var increment := 0;
      if !Bit(sfr[TMOD], 3) && Bit(sfr[TCON], 4) {
        if Bit(sfr[TMOD], 2) { increment := 0; } else { increment := 1; }
      }
      if increment == 1 {
        var carry := CountUp(sfr[TMOD] % 4, TH0, TL0);
        if carry { RaiseFlag(TF0); }
      }
    }

    method Timer1Tick()
      requires Valid()
      modifies Parts()
      ensures State() == Timer1(old(State()))
    {
      hide Bit;
      hide OrByte;
      hide AndNotByte;
      hide Count;
      hide SerialTx;
      var increment := 0;
      if !Bit(sfr[TMOD], 7) && Bit(sfr[TCON], 6) {
        if Bit(sfr[TMOD], 6) { increment := 0; } else { increment := 1; }
      }
      if increment == 1 {
        var carry := CountUp(sfr[TMOD] / 16 % 4, TH1, TL1);
        if carry && sfr[TMOD] % 4 != 3 { RaiseFlag(TF1); }
        if Bit(sfr[TCON], 7) {
          if Bit(sfr[SCON], 6) {
            SerialTxTick();
            sfr[TCON] := AndNotByte(sfr[TCON], TF1);
          }
        }
      }
    }

    method TimersTick()
      requires Valid()
      modifies Parts()
      ensures State() == TimerTick(old(State()))
    {
      hide Timer0;
      hide Timer1;
      hide Split0;
      if sfr[TMOD] % 4 == 3 { Mode3Tick(); }
      Timer0Tick();
      Timer1Tick();
    }

    // ---------------------------------------------------------- interrupts

    /** Polls the five sources in order: the vector to go to, or -1, and
        whether at high priority. */
    method PollSources() returns (dest: int, hi: bool)
      requires Valid()
      ensures WinnerIs(State(), dest, hi)
    {
      hide Bit;
      hide WinnerIs;
      ghost var c := State();
      ghost var src := -1;
      var lo := false;
      dest, hi := -1, false;
      if Bit(sfr[IE], 7) {
        if Bit(sfr[IE], 0) && Bit(sfr[TCON], 1) {
          dest := 0x03;
          src := 0;
          if Bit(sfr[IP], 0) { hi := true; }
          lo := true;
        }
        assert dest == (if lo then Vector(src) else -1) && Polled(c, 1, src, hi, lo);
        if Bit(sfr[IE], 1) && Bit(sfr[TCON], 5) && !hi {
          if !lo { dest := 0x0B; lo := true; src := 1; }
          if Bit(sfr[IP], 1) { hi := true; dest := 0x0B; src := 1; }
        }
        assert dest == (if lo then Vector(src) else -1) && Polled(c, 2, src, hi, lo);
        if Bit(sfr[IE], 2) && Bit(sfr[TCON], 3) && !hi {
          if !lo { dest := 0x13; lo := true; src := 2; }
          if Bit(sfr[IP], 2) { hi := true; dest := 0x13; src := 2; }
        }
        assert dest == (if lo then Vector(src) else -1) && Polled(c, 3, src, hi, lo);
        if Bit(sfr[IE], 3) && Bit(sfr[TCON], 7) && !hi {
          if !lo { dest := 0x1B; lo := true; src := 3; }
          if Bit(sfr[IP], 3) { hi := true; dest := 0x1B; src := 3; }
        }
        assert dest == (if lo then Vector(src) else -1) && Polled(c, 4, src, hi, lo);
        if Bit(sfr[IE], 4) && serialIrq && !hi {
          if !lo { dest := 0x23; lo := true; src := 4; }
          if Bit(sfr[IP], 4) { hi := true; dest := 0x23; src := 4; }
        }
        assert dest == (if lo then Vector(src) else -1) && Polled(c, 5, src, hi, lo);
        PollingDone(c, src, dest, hi, lo);
      } else {
        DisabledPoll(c);
      }
    }

    /** Enters the interrupt the poll finds, if it may interrupt what runs. */
    method ServeInterrupts()
      requires Valid()
      modifies Parts()
      ensures State() == HandleInterrupts(old(State()))
    {
      hide WinnerIs;
      hide Winner;
      hide Called;
      hide InService;
      hide Vector;
      if active > 1 { return; }
      ghost var c := State();
      var dest, hi := PollSources();
      WinnerMeans(c, dest, hi);
      if dest == -1 { return; }
      if active == 1 && !hi { return; }
      ghost var s := Winner(c).value.0;
      CalledKeeps(c, s);
      Lcall(dest, s);
      assert State() == Called(c, s);
      EnterService(hi);
    }

    /** The hardware's call of the vector. */
    method Lcall(dest: byte, ghost s: Source)
      requires Valid() && dest == Vector(s)
      modifies Parts()
      ensures State() == Called(old(State()), s)
    {
      hide Push;
      hide AndNotByte;
      hide Bit;
      sfr[PCON] := AndNotByte(sfr[PCON], 0x01);
      ghost var c1 := State();
      PushToStack(pc % 256);
      PushKeeps(c1, c1.pc % 256);
      PushToStack(pc / 256);
      pc := dest;
      tickDelay := 1;
      ghost var c3 := State();
      if dest == 0x0B {
        sfr[TCON] := AndNotByte(sfr[TCON], TF0);
      } else if dest == 0x1B {
        sfr[TCON] := AndNotByte(sfr[TCON], TF1);
      } else if dest == 0x23 {
        serialIrq := false;
      }
      assert State() == ClearRequest(c3, s);
    }

    method EnterService(hi: bool)
      requires Valid() && active <= 1
      modifies this, intA, intPsw, intSp
      ensures State() == InService(old(State()), hi)
    {
      var h := 0;
      if hi { h := 1; }
      if hi { active := active % 2 + 2; } else { active := 1; }
      intA[h] := sfr[ACC];
      intPsw[h] := sfr[PSW];
      intSp[h] := sfr[SP];
    }

    // --------------------------------------------------------- one machine cycle

    /** Takes over a state computed by an instruction or a callback. */
    method Load(c: Cpu)
      requires Valid() && (c.upper.Some? <==> upper != null)
      modifies Parts()
      ensures State() == c
    {
      forall i | 0 <= i < 128 { sfr[i] := c.sfr[i]; }
      forall i | 0 <= i < 128 { lower[i] := c.lower[i]; }
      if upper != null {
        forall i | 0 <= i < 128 { upper[i] := c.upper.value[i]; }
      }
      forall i | 0 <= i < 18 { serialOut[i] := c.serialOut[i]; }
      forall i | 0 <= i < 2 { intA[i] := c.intA[i]; }
      forall i | 0 <= i < 2 { intPsw[i] := c.intPsw[i]; }
      forall i | 0 <= i < 2 { intSp[i] := c.intSp[i]; }
      pc, tickDelay, active, outIdx := c.pc, c.tickDelay, c.active, c.outIdx;
      remaining, serialIrq, raised := c.remaining, c.serialIrq, c.raised;
      assert sfr[..] == c.sfr && lower[..] == c.lower && (upper != null ==> upper[..] == c.upper.value);
      assert serialOut[..] == c.serialOut && intA[..] == c.intA && intPsw[..] == c.intPsw && intSp[..] == c.intSp;
    }

    /** P as the fold of ACC looked up in 6996h. */
    method RefreshParity()
      requires Valid()
      modifies sfr
      ensures State() == UpdateParity(old(State()))
    {
      hide Xor;
      hide Ones;
      hide Pow2;
      ParityFold(sfr[ACC]);
      var v := Xor(sfr[ACC], sfr[ACC] / 16) % 16;
      v := 0x6996 / Pow2(v) % 2;
      sfr[PSW] := sfr[PSW] - sfr[PSW] % 2 + v;
    }

    /** One machine cycle; whether it reached the instruction slot. */
    method TickOnce(op: Instruction) returns (ticked: bool)
      requires Valid() && (op(State()).0.upper.Some? <==> upper != null)
      modifies Parts()
      ensures State() == Tick(old(State()), op) && ticked == Ticked(old(State()), op)
    {
      hide Bit;
      hide TimerTick;
      hide UpdateParity;
      hide Enter;
      hide Winner;
      ticked := false;
      if tickDelay != 0 {
        tickDelay := tickDelay - 1;
        TimersTick();
        return false;
      }
      if Bit(sfr[PCON], 1) { return true; }
      ghost var c := State();
      if Enters(c) { EnterKeeps(c, Winner(c).value.0, Winner(c).value.1); }
      ServeInterrupts();
      if tickDelay == 0 {
        var idle := Bit(sfr[PCON], 0);
        if idle {
          tickDelay := 0;
        } else {
          var (r, delay) := op(State());
          Load(r);
          tickDelay := delay;
        }
        ticked := true;
        RefreshParity();
      }
      TimersTick();
    }

    // ---------------------------------------------------- conditional jumps

    function Operand(i: nat): byte
      requires Valid() && code.Length > 0
      reads this, code
      ensures Operand(i) == Fetch(code[..], pc, i)
    {
      code[(pc + i) % code.Length]
    }

    /** Past the n bytes of the instruction, and on by its last byte if taken. */
    method Advance(n: byte, taken: bool)
      requires Valid() && code.Length > 0 && n > 0
      modifies `pc
      ensures State() == old(State()).(pc := Target(old(pc), n, Fetch(code[..], old(pc), n - 1), taken))
    {
      if taken {
        pc := (pc as int + Signed(Operand(n - 1)) + n) % 65536;
      } else {
        pc := (pc as int + n) % 65536;
      }
    }

    method CallSfrRead(p: Ports, a: byte) returns (v: byte)
      requires Valid()
      modifies Parts()
      ensures (State(), v) == ReadSfr(p, old(State()), a) && pc == old(pc)
    {
      var c := State();
      var (r, x) := p.onRead(c.(pc := 0), a);
      Load(Confined(c, r));
      return x;
    }

    method CallSfrWrite(p: Ports, a: byte)
      requires Valid()
      modifies Parts()
      ensures State() == SfrWritten(p, old(State()), a) && pc == old(pc)
    {
      var c := State();
      Load(Confined(c, p.onWrite(c.(pc := 0), a)));
    }

    method ReadMem(p: Ports, a: byte) returns (v: byte)
      requires Valid()
      modifies Parts()
      ensures (State(), v) == ReadDirect(p, old(State()), a) && pc == old(pc)
    {
      hide ReadSfr;
      if a > 0x7F {
        v := CallSfrRead(p, a);
      } else {
        v := lower[a];
      }
    }

    method WriteMem(p: Ports, a: byte, v: byte)
      requires Valid()
      modifies Parts()
      ensures State() == WriteDirect(p, old(State()), a, v) && pc == old(pc)
    {
      hide SfrWritten;
      if a > 0x7F {
        sfr[a - 0x80] := v;
        CallSfrWrite(p, a);
      } else {
        lower[a] := v;
      }
    }

    /** C := x < y, and the jump if they differ. */
    method CompareAndJump(x: byte, y: byte)
      requires Valid() && code.Length > 0
      modifies sfr, `pc
      ensures var (d, taken) := Compare(old(State()), x, y);
              State() == d.(pc := Target(old(pc), 3, Fetch(code[..], old(pc), 2), taken))
    {
      hide Fetch;
      hide Target;
      sfr[PSW] := if x < y then sfr[PSW] % 128 + 128 else sfr[PSW] % 128;
      Advance(3, x != y);
    }

    /** JBC on a bit of an SFR: the latch, cleared before the jump is reported
        to the SFR's callback. */
    method JbcSfr(p: Ports, operand: byte)
      requires Valid() && code.Length > 0 && operand > 0x7F
      modifies Parts()
      ensures var (d, taken) := TestAndClear(p, old(State()), operand);
              State() == d.(pc := Target(old(pc), 3, Fetch(code[..], old(pc), 2), taken))
    {
      hide Fetch;
      hide Bit;
      hide AndNotByte;
      hide Pow2Byte;
      hide SfrWritten;
      hide Target;
      var bit, address := operand % 8, operand - operand % 8;
      var value := sfr[address - 0x80];
      if Bit(value, bit) {
        sfr[address - 0x80] := AndNotByte(value, Pow2Byte(bit));
        ghost var c1 := State();
        Advance(3, true);
        BlindToPc(p, c1, pc, address);
        CallSfrWrite(p, address);
      } else {
        Advance(3, false);
      }
    }

    method JbcRam(p: Ports, operand: byte)
      requires Valid() && code.Length > 0 && operand <= 0x7F
      modifies Parts()
      ensures var (d, taken) := TestAndClear(p, old(State()), operand);
              State() == d.(pc := Target(old(pc), 3, Fetch(code[..], old(pc), 2), taken))
    {
      hide Fetch;
      hide Bit;
      hide AndNotByte;
      hide Pow2Byte;
      hide Target;
      var bit, address := operand % 8, operand / 8 + 0x20;
      if Bit(lower[address], bit) {
        lower[address] := AndNotByte(lower[address], Pow2Byte(bit));
        Advance(3, true);
      } else {
        Advance(3, false);
      }
    }

    method Jbc(p: Ports) returns (delay: byte)
      requires Valid() && IsCode(code[..]) && Fetch(code[..], pc, 0) == 0x10
      modifies Parts()
      ensures delay == 1 && State() == Jump(p, old(State()), code[..])
    {
      hide IsCode;
      hide Fetch;
      hide Length;
      hide TestAndClear;
      JumpOf(p, State(), code[..], 0x10, 3);
      var operand := Operand(1);
      if operand > 0x7F { JbcSfr(p, operand); } else { JbcRam(p, operand); }
      return 1;
    }

    /** JB and JNB. */
    method JumpOnBit(p: Ports, onSet: bool) returns (delay: byte)
      requires Valid() && IsCode(code[..]) && Fetch(code[..], pc, 0) == (if onSet then 0x20 else 0x30)
      modifies Parts()
      ensures delay == 1 && State() == Jump(p, old(State()), code[..])
    {
      hide IsCode;
      hide Fetch;
      hide Length;
      hide Bit;
      hide ReadDirect;
      hide Target;
      JumpOf(p, State(), code[..], if onSet then 0x20 else 0x30, 3);
      var operand := Operand(1);
      var value := ReadMem(p, BitByte(operand));
      Advance(3, Bit(value, operand % 8) == onSet);
      return 1;
    }

    /** JC and JNC. */
    method JumpOnCarry(p: Ports, onSet: bool) returns (delay: byte)
      requires Valid() && IsCode(code[..]) && Fetch(code[..], pc, 0) == (if onSet then 0x40 else 0x50)
      modifies Parts()
      ensures delay == 1 && State() == Jump(p, old(State()), code[..])
    {
      hide IsCode;
      hide Fetch;
      hide Length;
      hide Target;
      JumpOf(p, State(), code[..], if onSet then 0x40 else 0x50, 2);
      Advance(2, (sfr[PSW] >= 128) == onSet);
      return 1;
    }

    /** JZ and JNZ. */
    method JumpOnZero(p: Ports, zero: bool) returns (delay: byte)
      requires Valid() && IsCode(code[..]) && Fetch(code[..], pc, 0) == (if zero then 0x60 else 0x70)
      modifies Parts()
      ensures delay == 1 && State() == Jump(p, old(State()), code[..])
    {
      hide IsCode;
      hide Fetch;
      hide Length;
      hide Target;
      JumpOf(p, State(), code[..], if zero then 0x60 else 0x70, 2);
      Advance(2, (sfr[ACC] == 0) == zero);
      return 1;
    }

    method CjneAImm(p: Ports) returns (delay: byte)
      requires Valid() && IsCode(code[..]) && Fetch(code[..], pc, 0) == 0xB4
      modifies Parts()
      ensures delay == 1 && State() == Jump(p, old(State()), code[..])
    {
      hide IsCode;
      hide Compare;
      hide Fetch;
      hide Length;
      hide Target;
      JumpOf(p, State(), code[..], 0xB4, 3);
      var value := Operand(1);
      CompareAndJump(sfr[ACC], value);
      return 1;
    }

    method CjneADirect(p: Ports) returns (delay: byte)
      requires Valid() && IsCode(code[..]) && Fetch(code[..], pc, 0) == 0xB5
      modifies Parts()
      ensures delay == 1 && State() == Jump(p, old(State()), code[..])
    {
      hide IsCode;
      hide Compare;
      hide Fetch;
      hide Length;
      hide Target;
      hide ReadDirect;
      hide Decide;
      JumpOf(p, State(), code[..], 0xB5, 3);
      DecideDirect(p, State(), Operand(1));
      var value := ReadMem(p, Operand(1));
      CompareAndJump(sfr[ACC], value);
      return 1;
    }

    method CjneIndirect(p: Ports) returns (delay: byte)
      requires Valid() && IsCode(code[..]) && 0xB6 <= Fetch(code[..], pc, 0) <= 0xB7
      modifies Parts()
      ensures delay == 1 && State() == Jump(p, old(State()), code[..])
    {
      hide IsCode;
      hide Compare;
      hide Fetch;
      hide Length;
      hide Target;
      hide ReadIndirect;
      CodeNotEmpty(code[..]);
      JumpOf(p, State(), code[..], Operand(0), 3);
      var value1 := ReadMemIndir(lower[Operand(0) % 2 + 8 * (sfr[PSW] / 8 % 4)]);
      var value2 := Operand(1);
      CompareAndJump(value1, value2);
      return 1;
    }

    method CjneRegister(p: Ports) returns (delay: byte)
      requires Valid() && IsCode(code[..]) && 0xB8 <= Fetch(code[..], pc, 0) <= 0xBF
      modifies Parts()
      ensures delay == 1 && State() == Jump(p, old(State()), code[..])
    {
      hide IsCode;
      hide Compare;
      hide Fetch;
      hide Length;
      hide Target;
      CodeNotEmpty(code[..]);
      JumpOf(p, State(), code[..], Operand(0), 3);
      var rx := Operand(0) % 8 + 8 * (sfr[PSW] / 8 % 4);
      var value := Operand(1);
      CompareAndJump(lower[rx], value);
      return 1;
    }

    method DjnzDirect(p: Ports) returns (delay: byte)
      requires Valid() && IsCode(code[..]) && Fetch(code[..], pc, 0) == 0xD5
      modifies Parts()
      ensures delay == 1 && State() == Jump(p, old(State()), code[..])
    {
      hide IsCode;
      hide Fetch;
      hide Length;
      hide Target;
      hide ReadDirect;
      hide WriteDirect;
      hide Decide;
      JumpOf(p, State(), code[..], 0xD5, 3);
      DecideDirect(p, State(), Operand(1));
      var address := Operand(1);
      var value := ReadMem(p, address);
      value := Dec(value);
      WriteMem(p, address, value);
      Advance(3, value != 0);
      return 1;
    }

    method DjnzRegister(p: Ports) returns (delay: byte)
      requires Valid() && IsCode(code[..]) && 0xD8 <= Fetch(code[..], pc, 0) <= 0xDF
      modifies Parts()
      ensures delay == 1 && State() == Jump(p, old(State()), code[..])
    {
      hide IsCode;
      hide Fetch;
      hide Length;
      hide Target;
      CodeNotEmpty(code[..]);
      JumpOf(p, State(), code[..], Operand(0), 2);
      var rx := Operand(0) % 8 + 8 * (sfr[PSW] / 8 % 4);
      lower[rx] := Dec(lower[rx]);
      Advance(2, lower[rx] != 0);
      return 1;
    }

    /** The handler of the opcode at PC: a conditional jump's, or else what
        `other` says. */
    method RunHandler(p: Ports, other: Instruction) returns (delay: byte)
      requires Valid() && IsCode(code[..]) && code.Length > 0 && (other(State()).0.upper.Some? <==> upper != null)
      modifies Parts()
      ensures if CondRel(Fetch(code[..], old(pc), 0))
              then State() == Jump(p, old(State()), code[..]) && delay == 1
              else (State(), delay) == other(old(State()))
    {
      hide IsCode;
      hide Fetch;
      hide Jump;
      var op := Operand(0);
      if op == 0x10 { delay := Jbc(p); }
      else if op == 0x20 { delay := JumpOnBit(p, true); }
      else if op == 0x30 { delay := JumpOnBit(p, false); }
      else if op == 0x40 { delay := JumpOnCarry(p, true); }
      else if op == 0x50 { delay := JumpOnCarry(p, false); }
      else if op == 0x60 { delay := JumpOnZero(p, true); }
      else if op == 0x70 { delay := JumpOnZero(p, false); }
      else if op == 0xB4 { delay := CjneAImm(p); }
      else if op == 0xB5 { delay := CjneADirect(p); }
      else if 0xB6 <= op <= 0xB7 { delay := CjneIndirect(p); }
      else if 0xB8 <= op <= 0xBF { delay := CjneRegister(p); }
      else if op == 0xD5 { delay := DjnzDirect(p); }
      else if 0xD8 <= op <= 0xDF { delay := DjnzRegister(p); }
      else {
        var (r, d) := other(State());
        Load(r);
        delay := d;
      }
    }
  }
}
