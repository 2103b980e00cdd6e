/** The machine-cycle step of the core: cycle debt, idle and power-down,
    interrupt entry, instruction, parity, timers. */
module Ticks {
  import opened Bytes
  import opened Cpu
  import opened Interrupts
  import opened Timers

  /** The opcode at PC carried out: the new state and the cycles owed beyond
      the current one. */
  type Instruction = Cpu -> (Cpu, byte)

  /** What a tick is spent on. */
  datatype Kind = Burn | PowerDown | Entry | Idle | Execute(extra: byte)

  function KindOf(c: Cpu, op: Instruction): Kind {
    if c.tickDelay > 0 then Burn
    else if Bit(c.sfr[PCON], 1) then PowerDown
    else if Enters(c) then Entry
    else if Bit(c.sfr[PCON], 0) then Idle
    else Execute(op(c).1)
  }

  /** The state a tick hands to the timers. */
  function BeforeTimers(c: Cpu, op: Instruction): Cpu {
    match KindOf(c, op)
    case Burn => c.(tickDelay := c.tickDelay - 1)
    case PowerDown => c
    case Entry => HandleInterrupts(c)
    case Idle => UpdateParity(c)
    case Execute(extra) => UpdateParity(op(c).0.(tickDelay := extra))
  }

  function Tick(c: Cpu, op: Instruction): Cpu {
    if KindOf(c, op) == PowerDown then c else TimerTick(BeforeTimers(c, op))
  }

  /** tick()'s result: whether the cycle reached the instruction slot. */
  predicate Ticked(c: Cpu, op: Instruction) {
    KindOf(c, op) != Burn && KindOf(c, op) != Entry
  }

  // -------------------------------------------------------------- invariants

  lemma TimersKeep(c: Cpu)
    ensures var r := TimerTick(c);
            r.sfr[ACC] == c.sfr[ACC] && r.sfr[PSW] == c.sfr[PSW] && r.sfr[PCON] == c.sfr[PCON]
            && r.sfr[SP] == c.sfr[SP] && r.tickDelay == c.tickDelay && r.pc == c.pc && r.active == c.active
            && r.lower == c.lower && r.upper == c.upper
            && r.intA == c.intA && r.intPsw == c.intPsw && r.intSp == c.intSp && r.raised == c.raised
  {
    hide Bit;
    hide Timer0;
    hide Timer1;
    hide Split0;
    Split0Effect(c);
    var c1 := if Mode0(c.sfr) == 3 then Split0(c) else c;
    Timer0Effect(c1);
    Timer1Effect(Timer0(c1));
  }

  /** Between ticks PSW.P is the parity of ACC, whatever the instruction did. */
  lemma ParityKept(c: Cpu, op: Instruction)
    requires ParityOk(c)
    ensures ParityOk(Tick(c, op))
  {
    hide TimerTick;
    hide Enter;
    hide Ones;
    if KindOf(c, op) == Entry {
      EnterKeeps(c, Winner(c).value.0, Winner(c).value.1);
    }
    TimersKeep(BeforeTimers(c, op));
  }

  /** Machine cycles a tick commits the core to. */
  function Cost(k: Kind): nat {
    match k
    case Burn => 0
    case PowerDown => 0
    case Entry => 2
    case Idle => 1
    case Execute(extra) => 1 + extra
  }

  /** One tick for each of ops, the instruction found at PC in it. */
  function Run(c: Cpu, ops: seq<Instruction>): Cpu {
    if ops == [] then c else Tick(Run(c, ops[..|ops| - 1]), ops[|ops| - 1])
  }

  function TotalCost(c: Cpu, ops: seq<Instruction>): nat {
    if ops == [] then 0
    else
      var before, op := ops[..|ops| - 1], ops[|ops| - 1];
      TotalCost(c, before) + Cost(KindOf(Run(c, before), op))
  }

  predicate Awake(c: Cpu, ops: seq<Instruction>) {
    ops != [] ==>
      var before, op := ops[..|ops| - 1], ops[|ops| - 1];
      Awake(c, before) && KindOf(Run(c, before), op) != PowerDown
  }

  lemma TickDebt(c: Cpu, op: Instruction)
    requires KindOf(c, op) != PowerDown
    ensures Tick(c, op).tickDelay + 1 == c.tickDelay + Cost(KindOf(c, op))
  {
    hide TimerTick;
    hide Enter;
    hide Ones;
    hide Winner;
    hide Bit;
    if KindOf(c, op) == Entry {
      EnterKeeps(c, Winner(c).value.0, Winner(c).value.1);
    }
    TimersKeep(BeforeTimers(c, op));
  }

  /** Cycle conservation: over any run awake, the ticks elapsed and the debt
      left pay for one plus the handler's return per instruction, two per
      interrupt entry and one per idle cycle, exactly. */
  lemma {:induction false} CyclesConserved(c: Cpu, ops: seq<Instruction>)
    requires Awake(c, ops)
    ensures |ops| + Run(c, ops).tickDelay == c.tickDelay + TotalCost(c, ops)
    decreases ops
  {
    hide Tick;
    hide KindOf;
    hide Cost;
    if ops == [] {
    } else {
      CyclesConserved(c, ops[..|ops| - 1]);
      TickDebt(Run(c, ops[..|ops| - 1]), ops[|ops| - 1]);
    }
  }

  /** And P is the parity of ACC after every tick of any run. */
  lemma {:induction false} ParityOverRun(c: Cpu, ops: seq<Instruction>)
    requires ParityOk(c)
    ensures ParityOk(Run(c, ops))
    decreases ops
  {
    hide Tick;
    hide ParityOk;
    if ops == [] {
    } else {
      ParityOverRun(c, ops[..|ops| - 1]);
      ParityKept(Run(c, ops[..|ops| - 1]), ops[|ops| - 1]);
    }
  }

  // ------------------------------------------------------------- sleeping

  /** In power-down (PCON bit 1) nothing at all changes, however long. */
  lemma {:induction false} PowerDownSleeps(c: Cpu, ops: seq<Instruction>)
    requires c.tickDelay == 0 && Bit(c.sfr[PCON], 1)
    ensures Run(c, ops) == c
    decreases ops
  {
    hide Bit;
    hide TimerTick;
    if ops == [] {
    } else {
      PowerDownSleeps(c, ops[..|ops| - 1]);
    }
  }

  predicate NothingDue(c: Cpu, ops: seq<Instruction>) {
    forall i :: 0 <= i < |ops| ==> !Enters(Run(c, ops[..i]))
  }

  /** Idle (PCON bit 0) and not powered down, the core stays at its PC, keeps its
      stack and RAM and remains idle for as long as no interrupt is due, whatever
      instruction lies there; only the timers go on. */
  lemma {:induction false} IdleWaits(c: Cpu, ops: seq<Instruction>)
    requires c.tickDelay == 0 && Bit(c.sfr[PCON], 0) && !Bit(c.sfr[PCON], 1) && NothingDue(c, ops)
    ensures var r := Run(c, ops);
            && r.pc == c.pc && r.sfr[PCON] == c.sfr[PCON] && r.sfr[SP] == c.sfr[SP] && r.sfr[ACC] == c.sfr[ACC]
            && r.lower == c.lower && r.upper == c.upper && r.active == c.active && r.tickDelay == 0
    decreases ops
  {
    hide Bit;
    hide TimerTick;
    hide Ones;
    hide Enters;
    if ops == [] {
    } else {
      var before := ops[..|ops| - 1];
      forall i | 0 <= i < |before| ensures !Enters(Run(c, before[..i])) { assert before[..i] == ops[..i]; }
      IdleWaits(c, before);
      assert !Enters(Run(c, ops[..|before|]));
      TimersKeep(BeforeTimers(Run(c, before), ops[|before|]));
    }
  }

  /** And the interrupt that becomes due ends it. */
  lemma EntryWakes(c: Cpu, op: Instruction)
    requires c.tickDelay == 0 && !Bit(c.sfr[PCON], 1) && Enters(c)
    ensures !Bit(Tick(c, op).sfr[PCON], 0) && Tick(c, op).pc == Vector(Winner(c).value.0)
  {
    hide Bit;
    hide TimerTick;
    hide Enter;
    hide Winner;
    EnterKeeps(c, Winner(c).value.0, Winner(c).value.1);
    TimersKeep(BeforeTimers(c, op));
  }
}
