/** Ticks of the core as events of the nesting runs: what the nesting theorems
    say of events they say of the core as it ticks. */
module TickNesting {
  import opened Bytes
  import opened Cpu
  import opened Interrupts
  import opened InterruptRuns
  import opened Timers
  import Ticks

  /** One tick: the instruction at PC in it, and what that instruction does to
      the stack and to the services in hand. */
  datatype Turn = Turn(op: Ticks.Instruction, deeds: seq<Event>)

  /** The events of a tick: an interrupt entry, the deeds of an instruction, or
      nothing of the kind; and then all the rest the tick does. */
  function TickEvents(w: World, t: Turn): seq<Event> {
    Deeds(w, t) + [Work(Ticks.Tick(w.c, t.op))]
  }

  function Deeds(w: World, t: Turn): seq<Event> {
    match Ticks.KindOf(w.c, t.op)
    case Entry => [Poll]
    case Execute(_) => t.deeds
    case _ => []
  }

  /** The tick keeps handlers balanced: an entry has room on the stack, and an
      instruction does legal deeds and besides them leaves live stack bytes and
      interrupt state alone. */
  predicate Balanced(base: byte, w: World, t: Turn) {
    match Ticks.KindOf(w.c, t.op)
    case Entry => |w.live| + 2 <= 256
    case Execute(_) => LegalRun(base, w, t.deeds) && Legal(base, Exec(w, t.deeds), Work(t.op(w.c).0))
    case _ => true
  }

  /** Two states with the same stack and the same interrupt state. */
  predicate SameStack(c: Cpu, r: Cpu) {
    && r.lower == c.lower && r.upper == c.upper && r.sfr[SP] == c.sfr[SP]
    && r.active == c.active && r.intA == c.intA && r.intPsw == c.intPsw && r.intSp == c.intSp
  }

  lemma WorkFollows(base: byte, w: World, c: Cpu, r: Cpu)
    requires Legal(base, w, Work(c)) && SameStack(c, r)
    ensures Legal(base, w, Work(r))
  {
    hide ReadIndirect;
    SameRam(c, r, base, w.live);
  }

  lemma StandingStill(base: byte, w: World)
    requires Nested(base, w)
    ensures Legal(base, w, Work(w.c))
  {
    hide StackHolds;
    hide ServiceOk;
  }

  /** The timers, the parity and the debt leave stack and interrupts alone. */
  lemma TickTail(c: Cpu, op: Ticks.Instruction)
    ensures var r := Ticks.Tick(c, op);
            match Ticks.KindOf(c, op)
            case Entry => SameStack(HandleInterrupts(c), r) && r.pc == HandleInterrupts(c).pc
            case Execute(_) => SameStack(op(c).0, r) && r.pc == op(c).0.pc
            case _ => SameStack(c, r) && r.pc == c.pc
  {
    hide TimerTick;
    hide HandleInterrupts;
    hide Ones;
    Ticks.TimersKeep(Ticks.BeforeTimers(c, op));
  }

  lemma {:induction false} LegalJoin(base: byte, w: World, a: seq<Event>, b: seq<Event>)
    requires LegalRun(base, w, a) && LegalRun(base, Exec(w, a), b)
    ensures LegalRun(base, w, a + b)
    decreases a
  {
    hide Next;
    hide Legal;
    if a == [] {
      assert a + b == b;
    } else {
      assert (a + b)[1..] == a[1..] + b;
      LegalJoin(base, Next(w, a[0]), a[1..], b);
    }
  }

  lemma OneEvent(base: byte, w: World, e: Event)
    ensures Exec(w, [e]) == Next(w, e) && LegalRun(base, w, [e]) == Legal(base, w, e)
  {
    hide Next;
    hide Legal;
    assert [e][1..] == [];
  }

  lemma NoEvents(base: byte, w: World)
    ensures Exec(w, []) == w && LegalRun(base, w, [])
  {
  }

  /** A balanced tick is a legal run of its events, and that run leaves exactly
      the state the tick leaves. */
  lemma TickIsEvents(base: byte, w: World, t: Turn)
    requires Nested(base, w) && Balanced(base, w, t)
    ensures LegalRun(base, w, TickEvents(w, t))
    ensures var r := Exec(w, TickEvents(w, t)); r.c == Ticks.Tick(w.c, t.op) && Nested(base, r)
    ensures var m := Exec(w, Deeds(w, t));
            Exec(w, TickEvents(w, t)) == m.(c := Ticks.Tick(w.c, t.op))
  {
    hide Ticks.Tick;
    hide Nested;
    hide StackHolds;
    hide HandleInterrupts;
    hide Exec;
    hide LegalRun;
    var to := Ticks.Tick(w.c, t.op);
    var m := Exec(w, Deeds(w, t));
    TickTail(w.c, t.op);
    NoEvents(base, w);
    match Ticks.KindOf(w.c, t.op) {
      case Entry =>
        OneEvent(base, w, Poll);
        RunNests(base, w, [Poll]);
        StandingStill(base, m);
        WorkFollows(base, m, HandleInterrupts(w.c), to);
      case Execute(_) =>
        WorkFollows(base, m, t.op(w.c).0, to);
      case _ =>
        StandingStill(base, w);
        WorkFollows(base, w, w.c, to);
    }
    OneEvent(base, m, Work(to));
    LegalJoin(base, w, Deeds(w, t), [Work(to)]);
    ExecAppend(w, Deeds(w, t), [Work(to)]);
    RunNests(base, w, TickEvents(w, t));
  }

  // ------------------------------------------------------------ whole runs

  function Ops(turns: seq<Turn>): (ops: seq<Ticks.Instruction>)
    ensures |ops| == |turns|
  {
    seq(|turns|, i requires 0 <= i < |turns| => turns[i].op)
  }

  function TurnsRun(w: World, turns: seq<Turn>): World {
    if turns == [] then w
    else
      var m := TurnsRun(w, turns[..|turns| - 1]);
      Exec(m, TickEvents(m, turns[|turns| - 1]))
  }

  function AllEvents(w: World, turns: seq<Turn>): seq<Event> {
    if turns == [] then []
    else
      var before := turns[..|turns| - 1];
      AllEvents(w, before) + TickEvents(TurnsRun(w, before), turns[|turns| - 1])
  }

  predicate BalancedRun(base: byte, w: World, turns: seq<Turn>) {
    turns != [] ==>
      var before := turns[..|turns| - 1];
      BalancedRun(base, w, before) && Balanced(base, TurnsRun(w, before), turns[|turns| - 1])
  }

  /** Over any balanced run of ticks the core goes through exactly the states of
      a legal run of events, and nesting is kept. */
  lemma {:induction false} CoreRunNests(base: byte, w: World, turns: seq<Turn>)
    requires Nested(base, w) && BalancedRun(base, w, turns)
    ensures var r := TurnsRun(w, turns);
            && r.c == Ticks.Run(w.c, Ops(turns)) && Nested(base, r)
            && LegalRun(base, w, AllEvents(w, turns)) && Exec(w, AllEvents(w, turns)) == r
    decreases turns
  {
    hide Nested;
    hide Balanced;
    hide TickEvents;
    hide Ticks.Tick;
    hide Exec;
    hide LegalRun;
    NoEvents(base, w);
    if turns == [] {
    } else {
      var n := |turns| - 1;
      CoreRunNests(base, w, turns[..n]);
      var m := TurnsRun(w, turns[..n]);
      TickIsEvents(base, m, turns[n]);
      LegalJoin(base, w, AllEvents(w, turns[..n]), TickEvents(m, turns[n]));
      ExecAppend(w, AllEvents(w, turns[..n]), TickEvents(m, turns[n]));
      assert Ops(turns)[..n] == Ops(turns[..n]);
    }
  }

  /** A tick that executes RETI and nothing else. */
  predicate IsReti(w: World, t: Turn) {
    Ticks.KindOf(w.c, t.op).Execute? && t.op(w.c).0 == Reti(w.c) && t.deeds == [Return]
  }

  /** Everything between the entry of a service and its RETI. */
  function Between(w: World, entry: Turn, body: seq<Turn>): seq<Event> {
    [Work(Ticks.Tick(w.c, entry.op))] + AllEvents(TurnsRun(w, [entry]), body)
  }

  lemma {:induction false} EventsAppend(w: World, a: seq<Turn>, b: seq<Turn>)
    ensures TurnsRun(w, a + b) == TurnsRun(TurnsRun(w, a), b)
    ensures AllEvents(w, a + b) == AllEvents(w, a) + AllEvents(TurnsRun(w, a), b)
    decreases b
  {
    hide TickEvents;
    hide Exec;
    if b == [] {
      assert a + b == a;
    } else {
      assert (a + b)[..|a + b| - 1] == a + b[..|b| - 1];
      EventsAppend(w, a, b[..|b| - 1]);
    }
  }

  lemma OneTurn(w: World, t: Turn)
    ensures AllEvents(w, [t]) == TickEvents(w, t) && TurnsRun(w, [t]) == Exec(w, TickEvents(w, t))
  {
    hide TickEvents;
    hide Exec;
    assert [t][..0] == [];
    assert TurnsRun(w, []) == w && AllEvents(w, []) == [];
  }

  /** Interrupt service as the core ticks: from the tick that enters a service
      to the tick of its own RETI, nested services and timers included, the core
      resumes the address interrupted with the stack pointer, the live stack and
      the levels in service as they were. */
  lemma CoreServiceReturns(base: byte, w: World, entry: Turn, body: seq<Turn>, ret: Turn)
    requires Nested(base, w) && BalancedRun(base, w, [entry] + body + [ret])
    requires Ticks.KindOf(w.c, entry.op) == Ticks.Entry && IsReti(TurnsRun(w, [entry] + body), ret)
    requires StaysAbove(Next(w, Poll), Between(w, entry, body), |w.services| + 1)
    requires |TurnsRun(w, [entry] + body).services| == |w.services| + 1
    ensures var r := Ticks.Run(w.c, Ops([entry] + body + [ret]));
            var s := TurnsRun(w, [entry] + body + [ret]);
            && s.c == r && r.pc == w.c.pc && r.sfr[SP] == w.c.sfr[SP]
            && LevelStack(r.active) == LevelStack(w.c.active) && s.live == w.live && s.services == w.services
  {
    hide Nested;
    hide Balanced;
    hide Legal;
    hide Exec;
    hide LegalRun;
    hide StaysAbove;
    hide Next;
    hide TurnsRun;
    hide AllEvents;
    hide Reti;
    hide HandleInterrupts;
    hide Ticks.Tick;
    var all, mid := [entry] + body + [ret], [entry] + body;
    CoreRunNests(base, w, all);
    assert all[..|all| - 1] == mid;
    BalancedPrefix(base, w, mid, ret);
    CoreRunNests(base, w, mid);
    OneTurn(w, entry);
    EventsAppend(w, [entry], body);
    assert AllEvents(w, mid) == [Poll] + Between(w, entry, body);
    var m := TurnsRun(w, mid);
    EventsAppend(w, mid, [ret]);
    OneTurn(m, ret);
    var to := Ticks.Tick(m.c, ret.op);
    TickIsEvents(base, m, ret);
    ReturnFirst(base, w, [Poll] + Between(w, entry, body), to);
    ServiceReturns(base, w, Between(w, entry, body));
    ExecAppend(w, [Poll] + Between(w, entry, body), [Return]);
    OneEvent(base, m, Return);
    ReturnIsReti(m);
    TickTail(m.c, ret.op);
  }

  lemma BalancedPrefix(base: byte, w: World, mid: seq<Turn>, t: Turn)
    requires BalancedRun(base, w, mid + [t])
    ensures BalancedRun(base, w, mid) && Balanced(base, TurnsRun(w, mid), t)
  {
    hide Balanced;
    hide TurnsRun;
    assert (mid + [t])[..|mid|] == mid;
  }

  lemma ReturnFirst(base: byte, w: World, events: seq<Event>, to: Cpu)
    requires LegalRun(base, w, events + ([Return] + [Work(to)]))
    ensures LegalRun(base, w, events + [Return])
  {
    hide Next;
    hide Legal;
    assert events + ([Return] + [Work(to)]) == (events + [Return]) + [Work(to)];
    LegalAppend(base, w, events + [Return], [Work(to)]);
  }

  lemma ReturnIsReti(w: World)
    ensures Next(w, Return).c == Reti(w.c)
  {
    hide Reti;
  }
}
