/** How the simulator steps the core: in ticks, or instruction by instruction
    with a plugin's clock table, and the clock accounts of both modes. */
module Stepping {
  import opened Bytes
  import opened Cpu
  import opened Interrupts
  import opened CondJumps
  import opened Ticks
  import opened UartLog
  import opened Core

  type Table = s: seq<byte> | |s| == 256 witness seq(256, _ => 0)

  /** Clocks per opcode, and per opcode of a jump that is taken (0: the same). */
  datatype Clocks = Clocks(plain: Table, taken: Table)

  /** What the hooks of one step answer: each begin hook a wait in clocks or a
      negative number, each interrupt hook a vector and its clocks or nothing,
      and the after hooks the clocks they make of the opcode, the clocks so far
      and whether a jump was taken. */
  datatype Hooks = Hooks(begins: seq<int>, irqs: seq<Option<(word, nat)>>, afters: seq<(byte, nat, bool) -> nat>)

  function FirstWait(begins: seq<int>): Option<nat> {
    if begins == [] then None
    else if begins[0] >= 0 then Some(begins[0])
    else FirstWait(begins[1..])
  }

  function FirstIrq(irqs: seq<Option<(word, nat)>>): Option<(word, nat)> {
    if irqs == [] then None
    else if irqs[0].Some? then irqs[0]
    else FirstIrq(irqs[1..])
  }

  function Adjusted(afters: seq<(byte, nat, bool) -> nat>, op: byte, clocks: nat, taken: bool): nat {
    if afters == [] then clocks
    else afters[|afters| - 1](op, Adjusted(afters[..|afters| - 1], op, clocks, taken), taken)
  }

  /** An interrupt a plugin enters: the return address pushed, PC the vector. */
  function EnterVector(c: Cpu, vector: word): Cpu {
    Push(Push(c, c.pc % 256), c.pc / 256).(pc := vector)
  }

  /** A return from it finds the interrupted PC and leaves SP as it was, wherever
      both bytes have RAM behind them. */
  lemma VectorReturns(c: Cpu, vector: word)
    requires c.upper.Some? || c.sfr[SP] <= 125
    ensures var r := EnterVector(c, vector);
            var (d, high) := Pop(r);
            var (e, low) := Pop(d);
            r.pc == vector && 256 * (high as int) + low == c.pc && e.sfr[SP] == c.sfr[SP]
  {
  }

  /** The begin hooks and the interrupt hooks are asked in order and the first
      that answers decides. */
  lemma {:induction false} FirstDecides(begins: seq<int>, i: nat)
    requires i < |begins| && begins[i] >= 0 && forall j :: 0 <= j < i ==> begins[j] < 0
    ensures FirstWait(begins) == Some(begins[i])
    decreases i
  {
    if i == 0 {
    } else {
      FirstDecides(begins[1..], i - 1);
    }
  }

  lemma {:induction false} FirstIrqDecides(irqs: seq<Option<(word, nat)>>, i: nat)
    requires i < |irqs| && irqs[i].Some? && forall j :: 0 <= j < i ==> irqs[j].None?
    ensures FirstIrq(irqs) == irqs[i]
    decreases i
  {
    if i == 0 {
    } else {
      FirstIrqDecides(irqs[1..], i - 1);
    }
  }

  /** The after hooks pass the clocks on, the first to the second and so on. */
  lemma {:induction false} FirstAdjustsFirst(f: (byte, nat, bool) -> nat, rest: seq<(byte, nat, bool) -> nat>,
                                             op: byte, clocks: nat, taken: bool)
    ensures Adjusted([f] + rest, op, clocks, taken) == Adjusted(rest, op, f(op, clocks, taken), taken)
    decreases rest
  {
    if rest == [] {
      assert [f] + rest == [f] && [f][..0] == [];
      assert Adjusted([], op, clocks, taken) == clocks;
    } else {
      var n := |rest| - 1;
      assert ([f] + rest)[..n + 1] == [f] + rest[..n];
      FirstAdjustsFirst(f, rest[..n], op, clocks, taken);
    }
  }

  /** Whether the stepper patches the jump at PC. */
  predicate Patches(t: Option<Clocks>, c: Cpu, code: seq<byte>)
    requires code != []
  {
    var op := Fetch(code, c.pc, 0);
    t.Some? && t.value.taken[op] != 0 && CondRel(op) && code[RelAt(code, c.pc)] == 0
  }

  /** The instruction at PC carried out, with whether it jumped and the delay
      its handler returned. */
  function Executed(t: Option<Clocks>, p: Ports, other: Instruction, c: Cpu, code: seq<byte>): (Cpu, bool, byte)
    requires IsCode(code) && code != []
  {
    if CondRel(Fetch(code, c.pc, 0)) then
      var (r, taken) := Stepped(p, c, code, Patches(t, c, code));
      (r, taken, 1)
    else
      var (r, delay) := other(c);
      (r, r.pc != Next(code, c.pc), delay)
  }

  lemma PatchingIsSafe(t: Option<Clocks>, c: Cpu, code: seq<byte>)
    requires IsCode(code) && code != []
    ensures Patches(t, c, code) ==>
              var patched := code[RelAt(code, c.pc) := 1];
              && code[RelAt(code, c.pc)] == 0
              && IsCode(patched) && CondRel(Fetch(code, c.pc, 0)) && Fetch(patched, c.pc, 0) == Fetch(code, c.pc, 0)
  {
    if Patches(t, c, code) {
      NoAlias(code, c.pc);
      PatchedIsCode(code, RelAt(code, c.pc));
    }
    hide IsCode;
    hide RelAt;
  }

  function ClocksFor(t: Option<Clocks>, op: byte, taken: bool, delay: byte): nat {
    if t.None? then 12 * (delay + 1)
    else if taken && t.value.taken[op] != 0 then t.value.taken[op]
    else t.value.plain[op]
  }

  /** The clocks and the effect of a conditional jump depend on its condition
      alone: not on its offset, and so not on whether it had to be patched. The
      report of it being taken is exact too, save that a jump of offset 0 whose
      opcode has no clocks of its own for taken is reported as not taken. */
  lemma JumpClocks(t: Option<Clocks>, p: Ports, other: Instruction, c: Cpu, code: seq<byte>)
    requires IsCode(code) && code != [] && CondRel(Fetch(code, c.pc, 0))
    ensures var op := Fetch(code, c.pc, 0);
            var (r, taken, delay) := Executed(t, p, other, c, code);
            var holds := Condition(p, c, code);
            && r == Jump(p, c, code)
            && ClocksFor(t, op, taken, delay) ==
               (if t.None? then 24
                else if holds && t.value.taken[op] != 0 then t.value.taken[op]
                else t.value.plain[op])
            && (taken <==> holds && (code[RelAt(code, c.pc)] != 0 || (t.Some? && t.value.taken[op] != 0)))
  {
    hide Stepped;
    hide Jump;
    hide Condition;
    hide RelAt;
    hide IsCode;
    hide CondRel;
    SteppedExact(p, c, code, Patches(t, c, code));
  }

  /** The instruction at PC, the parity it leaves and the clocks it takes. */
  function Ran(h: Hooks, t: Option<Clocks>, p: Ports, other: Instruction, c: Cpu, code: seq<byte>): (Cpu, nat)
    requires IsCode(code) && code != []
  {
    var op := Fetch(code, c.pc, 0);
    var (r, taken, delay) := Executed(t, p, other, c, code);
    (UpdateParity(r), Adjusted(h.afters, op, ClocksFor(t, op, taken, delay), taken))
  }

  /** One step in instruction mode: the core after it and its clocks. */
  function InstructionStep(h: Hooks, t: Option<Clocks>, p: Ports, other: Instruction, c: Cpu, code: seq<byte>)
      : (Cpu, nat)
    requires IsCode(code) && code != []
  {
    var wait, irq := FirstWait(h.begins), FirstIrq(h.irqs);
    if wait.Some? then (c, wait.value)
    else if irq.Some? then (EnterVector(c, irq.value.0), irq.value.1)
    else Ran(h, t, p, other, c, code)
  }

  predicate RunsInstruction(h: Hooks) { FirstWait(h.begins).None? && FirstIrq(h.irqs).None? }

  /** An instruction neither fits nor removes RAM. */
  ghost predicate KeepsRam(op: Instruction) {
    forall c: Cpu :: op(c).0.upper.Some? == c.upper.Some?
  }

  /** How many of those ticks reached the instruction slot. */
  function Instructions(c: Cpu, u: Uart, ops: seq<Instruction>): nat {
    if ops == [] then 0
    else
      var n := |ops| - 1;
      Instructions(c, u, ops[..n]) + if Ticked(RunLogged(c, u, ops[..n]).0, ops[n]) then 1 else 0
  }

  lemma RamKept(op: Instruction, c: Cpu)
    requires KeepsRam(op)
    ensures op(c).0.upper.Some? == c.upper.Some?
  {
  }

  lemma RunStarts(c: Cpu, u: Uart, ops: seq<Instruction>)
    ensures RunLogged(c, u, ops[..0]) == (c, u) && Instructions(c, u, ops[..0]) == 0
  {
  }

  lemma RunContinues(c: Cpu, u: Uart, ops: seq<Instruction>, i: nat)
    requires i < |ops|
    ensures var (d, v) := RunLogged(c, u, ops[..i]);
            var r := Tick(d, ops[i]);
            && RunLogged(c, u, ops[..i + 1]) == (r, Noted(v, r.outIdx))
            && Instructions(c, u, ops[..i + 1]) == Instructions(c, u, ops[..i]) + if Ticked(d, ops[i]) then 1 else 0
  {
    hide Tick;
    hide Ticked;
    assert ops[..i + 1][..i] == ops[..i];
  }

  class Sim {
    const cpu: Em8051
    var clockTable: Option<Clocks>
    var totalInstructions: nat
    var totalTicks: nat
    var totalClocks: nat
    var deviceClocks: nat
    var hookRounds: nat
    var uart: Uart

    predicate Valid()
      reads this, cpu.code
    {
      cpu.Valid() && cpu.code.Length > 0
    }

    constructor (core: Em8051)
      requires core.Valid() && core.code.Length > 0
      ensures Valid() && cpu == core && clockTable.None? && uart == Anchored(0)
      ensures totalInstructions == totalTicks == totalClocks == deviceClocks == hookRounds == 0
    {
      cpu := core;
      clockTable, uart := None, Uart(0, 0, 0);
      totalInstructions, totalTicks, totalClocks, deviceClocks, hookRounds := 0, 0, 0, 0, 0;
    }

    /** The tick hooks run once more, and the UART's ring is looked at. */
    method PostTick()
      requires Valid()
      modifies `hookRounds, `uart
      ensures hookRounds == old(hookRounds) + 1 && uart == Noted(old(uart), cpu.outIdx)
    {
      hookRounds := hookRounds + 1;
      if cpu.outIdx != uart.lastIdx {
        uart := uart.(count := uart.count + 1, lastIdx := cpu.outIdx);
      }
    }

    method UartTxByte(index: int) returns (b: int)
      requires Valid()
      ensures b == TxByte(uart, cpu.State().serialOut, index)
    {
      if index < 0 || index >= uart.count { return -1; }
      return cpu.serialOut[(uart.origin + index) % CAP];
    }

    /** The counts start over; the core's ring stays where it stands. */
    method ResetCounts()
      requires Valid()
      modifies `uart, `totalInstructions, `totalTicks, `totalClocks, `deviceClocks
      ensures uart == Anchored(cpu.outIdx)
      ensures totalInstructions == totalTicks == totalClocks == deviceClocks == 0
    {
      uart := Uart(0, cpu.outIdx, cpu.outIdx);
      totalInstructions, totalTicks, totalClocks, deviceClocks := 0, 0, 0, 0;
    }

    /** Clocks spent become rounds of the tick hooks, twelve to a round, and
        what is left of them is kept. */
    method SpendClocks(clocks: nat)
      requires Valid()
      modifies `totalClocks, `deviceClocks, `hookRounds, `uart
      ensures totalClocks == old(totalClocks) + clocks
      ensures deviceClocks < 12
      ensures 12 * hookRounds + deviceClocks == 12 * old(hookRounds) + old(deviceClocks) + clocks
      ensures uart == if hookRounds > old(hookRounds) then Noted(old(uart), cpu.outIdx) else old(uart)
    {
      totalClocks := totalClocks + clocks;
      deviceClocks := deviceClocks + clocks;
      while deviceClocks >= 12
        invariant totalClocks == old(totalClocks) + clocks
        invariant hookRounds >= old(hookRounds)
        invariant 12 * hookRounds + deviceClocks == 12 * old(hookRounds) + old(deviceClocks) + clocks
        invariant uart == if hookRounds > old(hookRounds) then Noted(old(uart), cpu.outIdx) else old(uart)
      {
        deviceClocks := deviceClocks - 12;
        PostTick();
      }
    }

    /** The loops over the begin hooks and over the interrupt hooks. */
    method AskBegin(begins: seq<int>) returns (wait: Option<nat>)
      ensures wait == FirstWait(begins)
    {
      var i := 0;
      while i < |begins|
        invariant 0 <= i <= |begins|
        invariant FirstWait(begins) == FirstWait(begins[i..])
      {
        if begins[i] >= 0 { return Some(begins[i]); }
        i := i + 1;
      }
      return None;
    }

    method AskInterrupts(irqs: seq<Option<(word, nat)>>) returns (irq: Option<(word, nat)>)
      ensures irq == FirstIrq(irqs)
    {
      var i := 0;
      while i < |irqs|
        invariant 0 <= i <= |irqs|
        invariant FirstIrq(irqs) == FirstIrq(irqs[i..])
      {
        if irqs[i].Some? { return irqs[i]; }
        i := i + 1;
      }
      return None;
    }

    method AskAfter(afters: seq<(byte, nat, bool) -> nat>, op: byte, clocks: nat, taken: bool) returns (r: nat)
      ensures r == Adjusted(afters, op, clocks, taken)
    {
      r := clocks;
      var i := 0;
      while i < |afters|
        invariant 0 <= i <= |afters|
        invariant r == Adjusted(afters[..i], op, clocks, taken)
      {
        r := afters[i](op, r, taken);
        i := i + 1;
        assert afters[..i][..i - 1] == afters[..i - 1];
      }
      assert afters[..i] == afters;
    }

    method EnterPluginVector(vector: word)
      requires Valid()
      modifies cpu.Parts()
      ensures cpu.State() == EnterVector(old(cpu.State()), vector)
    {
      hide Push;
      ghost var c := cpu.State();
      cpu.PushToStack(cpu.pc % 256);
      PushKeeps(c, c.pc % 256);
      cpu.PushToStack(cpu.pc / 256);
      cpu.pc := vector;
    }

    /** Patches the offset of the jump at PC if that is what it takes to learn
        whether it jumps. */
    method PatchOffset(relAt: nat) returns (patched: bool)
      requires Valid() && IsCode(cpu.code[..])
      requires relAt < cpu.code.Length && relAt == RelAt(cpu.code[..], cpu.pc)
      modifies cpu.code
      ensures patched == Patches(clockTable, cpu.State(), old(cpu.code[..]))
      ensures cpu.code[..] == if patched then old(cpu.code[..])[relAt := 1] else old(cpu.code[..])
    {
      hide IsCode;
      hide Fetch;
      hide Length;
      hide CondRel;
      hide RelAt;
      patched := false;
      var op := cpu.Operand(0);
      if clockTable.Some? && clockTable.value.taken[op] != 0 && CondRel(op) && cpu.code[relAt] == 0 {
        cpu.code[relAt] := 1;
        patched := true;
      }
    }

    /** Whether the jump was taken. If it ran patched, its offset is 0 again
        and PC is put where the unpatched jump would have left it. */
    method Settle(patched: bool, relAt: nat, next: word) returns (taken: bool)
      requires Valid() && relAt < cpu.code.Length
      modifies cpu`pc, cpu.code
      ensures cpu.code[..] == if patched then old(cpu.code[..])[relAt := 0] else old(cpu.code[..])
      ensures taken == if patched then old(cpu.pc) == (next + 1) % 65536 else old(cpu.pc) != next
      ensures cpu.State() == if patched && taken then old(cpu.State()).(pc := next) else old(cpu.State())
    {
      if patched {
        cpu.code[relAt] := 0;
        taken := cpu.pc == (next + 1) % 65536;
        if taken { cpu.pc := next; }
      } else {
        taken := cpu.pc != next;
      }
    }

    /** The handler run, patched if need be, and everything put right. */
    method RunPatched(p: Ports, other: Instruction) returns (taken: bool, delay: byte)
      requires Valid() && IsCode(cpu.code[..])
      requires other(cpu.State()).0.upper.Some? <==> cpu.upper != null
      modifies cpu.Parts(), cpu.code
      ensures cpu.code[..] == old(cpu.code[..])
      ensures (cpu.State(), taken, delay) == Executed(clockTable, p, other, old(cpu.State()), cpu.code[..])
    {
      hide IsCode;
      hide Fetch;
      hide Length;
      hide Jump;
      hide CondRel;
      hide Patches;
      ghost var before, c := cpu.code[..], cpu.State();
      var next := (cpu.pc as int + Length(cpu.Operand(0))) % 65536;
      var relAt := (next - 1) % cpu.code.Length;
      PatchingIsSafe(clockTable, c, before);
      var patched := PatchOffset(relAt);
      delay := cpu.RunHandler(p, other);
      taken := Settle(patched, relAt, next);
      assert patched ==> before[relAt := 1][relAt := 0] == before;
    }

    method LookUpClocks(op: byte, taken: bool, delay: byte) returns (clocks: nat)
      ensures clocks == ClocksFor(clockTable, op, taken, delay)
    {
      if clockTable.Some? {
        var t := clockTable.value;
        clocks := if taken && t.taken[op] != 0 then t.taken[op] else t.plain[op];
      } else {
        clocks := 12 * (delay as int + 1);
      }
    }

    method RunInstruction(h: Hooks, p: Ports, other: Instruction) returns (clocks: nat)
      requires Valid() && IsCode(cpu.code[..])
      requires other(cpu.State()).0.upper.Some? <==> cpu.upper != null
      modifies `totalInstructions, cpu.Parts(), cpu.code
      ensures cpu.code[..] == old(cpu.code[..])
      ensures (cpu.State(), clocks) == Ran(h, clockTable, p, other, old(cpu.State()), cpu.code[..])
      ensures totalInstructions == old(totalInstructions) + 1
    {
      hide IsCode;
      hide Fetch;
      hide Executed;
      hide UpdateParity;
      hide Adjusted;
      hide ClocksFor;
      var op := cpu.Operand(0);
      var taken, delay := RunPatched(p, other);
      clocks := LookUpClocks(op, taken, delay);
      cpu.RefreshParity();
      clocks := AskAfter(h.afters, op, clocks, taken);
      totalInstructions := totalInstructions + 1;
    }

    /** A wait, an interrupt entry or an instruction. */
    method Proceed(h: Hooks, p: Ports, other: Instruction) returns (clocks: nat)
      requires Valid() && IsCode(cpu.code[..])
      requires other(cpu.State()).0.upper.Some? <==> cpu.upper != null
      modifies `totalInstructions, cpu.Parts(), cpu.code
      ensures cpu.code[..] == old(cpu.code[..])
      ensures (cpu.State(), clocks) == InstructionStep(h, clockTable, p, other, old(cpu.State()), cpu.code[..])
      ensures totalInstructions == old(totalInstructions) + if RunsInstruction(h) then 1 else 0
    {
      hide IsCode;
      hide Fetch;
      hide Ran;
      hide FirstWait;
      hide FirstIrq;
      hide EnterVector;
      var wait := AskBegin(h.begins);
      if wait.Some? { return wait.value; }
      var irq := AskInterrupts(h.irqs);
      if irq.Some? {
        EnterPluginVector(irq.value.0);
        return irq.value.1;
      }
      clocks := RunInstruction(h, p, other);
    }

    /** One step in instruction mode. Code memory is as before, and of the
        clocks spent every twelve go to the tick hooks. */
    method StepInstruction(h: Hooks, p: Ports, other: Instruction) returns (clocks: nat)
      requires Valid() && IsCode(cpu.code[..])
      requires other(cpu.State()).0.upper.Some? <==> cpu.upper != null
      modifies this, cpu.Parts(), cpu.code
      ensures cpu.code[..] == old(cpu.code[..]) && clockTable == old(clockTable)
      ensures (cpu.State(), clocks) == InstructionStep(h, clockTable, p, other, old(cpu.State()), cpu.code[..])
      ensures totalInstructions == old(totalInstructions) + if RunsInstruction(h) then 1 else 0
      ensures totalClocks == old(totalClocks) + clocks && totalTicks == old(totalTicks)
      ensures deviceClocks < 12
      ensures 12 * hookRounds + deviceClocks == 12 * old(hookRounds) + old(deviceClocks) + clocks
      ensures uart == if hookRounds > old(hookRounds) then Noted(old(uart), cpu.outIdx) else old(uart)
    {
      hide IsCode;
      hide InstructionStep;
      hide RunsInstruction;
      clocks := Proceed(h, p, other);
      SpendClocks(clocks);
    }

    /** One step in tick mode. */
    method StepTick(op: Instruction)
      requires Valid() && (op(cpu.State()).0.upper.Some? <==> cpu.upper != null)
      modifies this, cpu.Parts()
      ensures cpu.State() == Tick(old(cpu.State()), op)
      ensures totalInstructions == old(totalInstructions) + if Ticked(old(cpu.State()), op) then 1 else 0
      ensures totalTicks == old(totalTicks) + 1 && totalClocks == old(totalClocks) + 12
      ensures hookRounds == old(hookRounds) + 1 && deviceClocks == old(deviceClocks)
      ensures uart == Noted(old(uart), cpu.outIdx)
    {
      hide Tick;
      hide Ticked;
      var ticked := cpu.TickOnce(op);
      if ticked { totalInstructions := totalInstructions + 1; }
      PostTick();
      totalTicks := totalTicks + 1;
      totalClocks := totalClocks + 12;
    }

    /** n ticks with no step hooks: the loop that keeps the totals for last. */
    method StepTicks(ops: seq<Instruction>) returns (executed: nat)
      requires Valid()
      requires forall k :: 0 <= k < |ops| ==> KeepsRam(ops[k])
      modifies this, cpu.Parts()
      ensures (cpu.State(), uart) == RunLogged(old(cpu.State()), old(uart), ops)
      ensures executed == Instructions(old(cpu.State()), old(uart), ops)
      ensures totalInstructions == old(totalInstructions) + executed
      ensures totalTicks == old(totalTicks) + |ops| && totalClocks == old(totalClocks) + 12 * |ops|
      ensures hookRounds == old(hookRounds) + |ops| && deviceClocks == old(deviceClocks)
    {
      hide Tick;
      hide Ticked;
      hide RunLogged;
      hide Instructions;
      hide KeepsRam;
      RunStarts(cpu.State(), uart, ops);
      var before := totalInstructions;
      var i := 0;
      while i < |ops|
        invariant 0 <= i <= |ops|
        invariant (cpu.State(), uart) == RunLogged(old(cpu.State()), old(uart), ops[..i])
        invariant totalInstructions == before + Instructions(old(cpu.State()), old(uart), ops[..i])
        invariant hookRounds == old(hookRounds) + i
        invariant totalTicks == old(totalTicks) && totalClocks == old(totalClocks) && deviceClocks == old(deviceClocks)
      {
        RunContinues(old(cpu.State()), old(uart), ops, i);
        RamKept(ops[i], cpu.State());
        var ticked := cpu.TickOnce(ops[i]);
        if ticked { totalInstructions := totalInstructions + 1; }
        PostTick();
        i := i + 1;
      }
      assert ops[..i] == ops;
      totalTicks := totalTicks + |ops|;
      totalClocks := totalClocks + 12 * |ops|;
      return totalInstructions - before;
    }
  }
}
