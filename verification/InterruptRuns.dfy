/** Nested interrupt service over whole runs, on a part with 256 bytes of
    internal RAM: every RETI resumes what its own entry interrupted. */
module InterruptRuns {
  import opened Bytes
  import opened Cpu
  import opened Interrupts

  // ----------------------------------------------------- the stack in RAM

  /** The address of stack byte i above base. */
  function Address(base: byte, i: nat): byte { (base as int + 1 + i) % 256 }

  /** The stack of c, from base up, holds the bytes live. */
  predicate StackHolds(c: Cpu, base: byte, live: seq<byte>) {
    && c.upper.Some? && |live| <= 256
    && c.sfr[SP] == (base as int + |live|) % 256
    && forall i :: 0 <= i < |live| ==> ReadIndirect(c, Address(base, i)) == live[i]
  }

  lemma AddressesDiffer(base: byte, i: nat, j: nat)
    requires i < j < 256
    ensures Address(base, i) != Address(base, j)
  {
  }

  lemma WriteThenRead(c: Cpu, a: byte, v: byte, b: byte)
    requires c.upper.Some?
    ensures ReadIndirect(WriteIndirect(c, a, v), b) == if b == a then v else ReadIndirect(c, b)
  {
  }

  lemma PushIsWrite(c: Cpu, v: byte)
    requires c.upper.Some?
    ensures var sp := Inc(c.sfr[SP]);
            var r := Push(c, v);
            && r.sfr == c.sfr[SP := sp] && r.upper.Some?
            && (forall b: byte :: ReadIndirect(r, b) == if b == sp then v else ReadIndirect(c, b))
            && r == c.(sfr := r.sfr, lower := r.lower, upper := r.upper, raised := r.raised)
  {
    var sp := Inc(c.sfr[SP]);
    forall b: byte ensures ReadIndirect(Push(c, v), b) == if b == sp then v else ReadIndirect(c, b) {
      WriteThenRead(Set(c, SP, sp), sp, v, b);
    }
  }

  lemma PushHolds(c: Cpu, base: byte, live: seq<byte>, v: byte)
    requires StackHolds(c, base, live) && |live| < 256
    ensures StackHolds(Push(c, v), base, live + [v])
  {
    hide Push;
    hide ReadIndirect;
    PushIsWrite(c, v);
    assert Inc(c.sfr[SP]) == Address(base, |live|);
    forall i | 0 <= i < |live| + 1 ensures ReadIndirect(Push(c, v), Address(base, i)) == (live + [v])[i] {
      if i < |live| { AddressesDiffer(base, i, |live|); }
    }
  }

  lemma PopHolds(c: Cpu, base: byte, live: seq<byte>)
    requires StackHolds(c, base, live) && live != []
    ensures var (r, v) := Pop(c);
            StackHolds(r, base, live[..|live| - 1]) && v == live[|live| - 1]
            && r == c.(sfr := c.sfr[SP := Dec(c.sfr[SP])], raised := r.raised)
  {
    var n := |live| - 1;
    TopAddress(base, n);
    assert c.sfr[SP] == Address(base, n);
    PopReads(c);
    hide Pop;
    hide ReadIndirect;
    hide Address;
    var r := Pop(c).0;
    forall i | 0 <= i < n ensures ReadIndirect(r, Address(base, i)) == live[i] {
      assert ReadIndirect(r, Address(base, i)) == ReadIndirect(c, Address(base, i));
    }
  }

  lemma TopAddress(base: byte, n: nat)
    requires n < 256
    ensures Address(base, n) == (base as int + n + 1) % 256 && Dec(Address(base, n)) == (base as int + n) % 256
  {
  }

  lemma PopReads(c: Cpu)
    requires c.upper.Some?
    ensures var (r, v) := Pop(c);
            && v == ReadIndirect(c, c.sfr[SP])
            && r == c.(sfr := c.sfr[SP := Dec(c.sfr[SP])], raised := r.raised)
            && forall a: byte :: ReadIndirect(r, a) == ReadIndirect(c, a)
  {
  }

  // ------------------------------------------------------ services in hand

  /** One service in hand: its level, where on the stack its return address
      starts, and what it interrupted. */
  datatype Service = Service(level: Level, height: nat, pc: word, a: byte, psw: byte)

  function LevelIndex(level: Level): nat { if level == High then 1 else 0 }

  /** The chip with its stack contents and the services in hand, innermost last. */
  datatype World = World(c: Cpu, live: seq<byte>, services: seq<Service>)

  predicate ServiceOk(c: Cpu, base: byte, live: seq<byte>, s: Service) {
    && s.height + 2 <= |live|
    && live[s.height] == s.pc % 256 && live[s.height + 1] == s.pc / 256
    && c.intA[LevelIndex(s.level)] == s.a && c.intPsw[LevelIndex(s.level)] == s.psw
    && c.intSp[LevelIndex(s.level)] == (base as int + s.height + 2) % 256
  }

  predicate Nested(base: byte, w: World) {
    && LevelsOk(w.c.active)
    && StackHolds(w.c, base, w.live)
    && |w.services| == |LevelStack(w.c.active)|
    && (forall i :: 0 <= i < |w.services| ==>
          w.services[i].level == LevelStack(w.c.active)[i] && ServiceOk(w.c, base, w.live, w.services[i]))
    && (|w.services| == 2 ==> w.services[0].height + 2 <= w.services[1].height)
  }

  /** Where the stack bytes belonging to the innermost service begin. */
  function Floor(w: World): nat {
    if w.services == [] then 0 else w.services[|w.services| - 1].height + 2
  }

  // ---------------------------------------------------------------- events

  /** What a program does between interrupts: stack traffic of its own, any
      other work, and RETI; and the hardware polling for interrupts. */
  datatype Event = Poll | Return | PushByte(v: byte) | PopByte | Work(to: Cpu)

  /** Handlers are balanced: nothing below a service's return address is
      popped, RETI comes when the stack is back at it, other work leaves the
      live stack and the interrupt state alone; and at most 256 bytes live. */
  predicate Legal(base: byte, w: World, ev: Event) {
    match ev
    case Poll => Enters(w.c) ==> |w.live| + 2 <= 256
    case Return => w.services != [] && |w.live| == Floor(w)
    case PushByte(v) => |w.live| < 256
    case PopByte => |w.live| > Floor(w)
    case Work(to) =>
      StackHolds(to, base, w.live) && to.active == w.c.active
      && to.intA == w.c.intA && to.intPsw == w.c.intPsw && to.intSp == w.c.intSp
  }

  function Next(w: World, ev: Event): World {
    match ev
    case Poll =>
      if Enters(w.c) then
        var level := if Winner(w.c).value.1 then High else Low;
        World(HandleInterrupts(w.c), w.live + [w.c.pc % 256, w.c.pc / 256],
              w.services + [Service(level, |w.live|, w.c.pc, w.c.sfr[ACC], w.c.sfr[PSW])])
      else World(HandleInterrupts(w.c), w.live, w.services)
    case Return =>
      if w.services == [] || |w.live| < 2 then w.(c := Reti(w.c))
      else World(Reti(w.c), w.live[..|w.live| - 2], w.services[..|w.services| - 1])
    case PushByte(v) => w.(c := Push(w.c, v), live := w.live + [v])
    case PopByte => if w.live == [] then w.(c := Pop(w.c).0) else w.(c := Pop(w.c).0, live := w.live[..|w.live| - 1])
    case Work(to) => w.(c := to)
  }

  lemma EnterHolds(c: Cpu, base: byte, live: seq<byte>, s: Source, high: bool)
    requires StackHolds(c, base, live) && |live| + 2 <= 256 && c.active <= 1
    ensures StackHolds(Enter(c, s, high), base, live + [c.pc % 256, c.pc / 256])
  {
    hide Push;
    hide ReadIndirect;
    hide AndNotByte;
    hide Vector;
    var c1 := Set(c, PCON, AndNotByte(c.sfr[PCON], 0x01));
    SameRam(c, c1, base, live);
    PushHolds(c1, base, live, c1.pc % 256);
    var c2 := Push(c1, c1.pc % 256);
    PushKeeps(c1, c1.pc % 256);
    PushHolds(c2, base, live + [c.pc % 256], c1.pc / 256);
    assert live + [c.pc % 256] + [c.pc / 256] == live + [c.pc % 256, c.pc / 256];
    var c3 := Push(c2, c1.pc / 256);
    SameRam(c3, Enter(c, s, high), base, live + [c.pc % 256, c.pc / 256]);
  }

  lemma SameRam(c: Cpu, r: Cpu, base: byte, live: seq<byte>)
    requires StackHolds(c, base, live) && r.lower == c.lower && r.upper == c.upper && r.sfr[SP] == c.sfr[SP]
    ensures StackHolds(r, base, live)
  {
    forall i | 0 <= i < |live| ensures ReadIndirect(r, Address(base, i)) == live[i] {
      assert ReadIndirect(r, Address(base, i)) == ReadIndirect(c, Address(base, i));
    }
  }

  lemma EntryNests(base: byte, w: World)
    requires Nested(base, w) && Enters(w.c) && |w.live| + 2 <= 256
    ensures Nested(base, Next(w, Poll))
  {
    hide StackHolds;
    hide Enter;
    hide Winner;
    var (s, high) := Winner(w.c).value;
    EntryPushesLevel(w.c);
    EnterHolds(w.c, base, w.live, s, high);
    EnterKeeps(w.c, s, high);
    EnterSp(w.c, base, w.live, s, high);
    var n := Next(w, Poll);
    assert n.live[|w.live|] == w.c.pc % 256 && n.live[|w.live| + 1] == w.c.pc / 256;
  }

  lemma EnterSp(c: Cpu, base: byte, live: seq<byte>, s: Source, high: bool)
    requires StackHolds(c, base, live) && |live| + 2 <= 256 && c.active <= 1
    ensures Enter(c, s, high).sfr[SP] == (base as int + |live| + 2) % 256
  {
    hide Enter;
    hide ReadIndirect;
    EnterKeeps(c, s, high);
    IncTwice(base, |live|);
  }

  lemma IncTwice(base: byte, n: nat)
    ensures Inc(Inc((base as int + n) % 256)) == (base as int + n + 2) % 256
  {
    var t: int := base as int + n;
    DivMod(t, 256);
    var q, r := t / 256, t % 256;
    if r + 2 < 256 { QuotientIs(t + 2, 256, q, r + 2); } else { QuotientIs(t + 2, 256, q + 1, r + 2 - 256); }
  }

  lemma RetiStack(c: Cpu, base: byte, live: seq<byte>)
    requires StackHolds(c, base, live) && |live| >= 2
    ensures var n := |live|;
            var low: int, high: int := live[n - 2], live[n - 1];
            && Reti(c).pc == 256 * high + low && StackHolds(Reti(c), base, live[..n - 2])
            && Reti(c).intA == c.intA && Reti(c).intPsw == c.intPsw && Reti(c).intSp == c.intSp
  {
    hide PswKept;
    hide ReadIndirect;
    hide StackHolds;
    var n := |live|;
    RetiShape(c);
    var c1 := RetiChecked(c);
    hide RetiChecked;
    SameRam(c, c1, base, live);
    PopHolds(c1, base, live);
    var c2 := Pop(c1).0;
    PopHolds(c2, base, live[..n - 1]);
    hide Pop;
    assert live[..n - 1][..n - 2] == live[..n - 2];
    SameRam(Pop(c2).0, Reti(c), base, live[..n - 2]);
  }

  /** The mismatches RETI raises when the stack pointer is where it should be. */
  lemma RetiRaises(c: Cpu, h: nat)
    requires LevelsOk(c.active) && c.active != 0 && h == (if c.active > 1 then 1 else 0)
    requires c.intSp[h] == c.sfr[SP]
    ensures RetiChecked(c).raised == c.raised
                 + (if c.intA[h] != c.sfr[ACC] then [RetiAccMismatch] else [])
                 + (if PswKept(c.intPsw[h]) != PswKept(c.sfr[PSW]) then [RetiPswMismatch] else [])
  {
    hide PswKept;
  }

  lemma TopService(base: byte, w: World)
    requires Nested(base, w) && w.services != []
    ensures w.c.active != 0
    ensures var s := w.services[|w.services| - 1];
            ServiceOk(w.c, base, w.live, s) && LevelIndex(s.level) == (if w.c.active > 1 then 1 else 0)
  {
    hide StackHolds;
    var k := |w.services| - 1;
    assert w.services[k].level == LevelStack(w.c.active)[k];
  }

  /** RETI at the right moment: it resumes the address its own entry pushed
      and raises a mismatch exactly when A or the kept PSW bits differ from
      what they were at that entry. */
  lemma RetiResumes(base: byte, w: World)
    requires Nested(base, w) && Legal(base, w, Return)
    ensures var s := w.services[|w.services| - 1];
            var r := Reti(w.c);
            && r.pc == s.pc && StackHolds(r, base, w.live[..s.height])
            && RetiChecked(w.c).raised == w.c.raised
                 + (if s.a != w.c.sfr[ACC] then [RetiAccMismatch] else [])
                 + (if PswKept(s.psw) != PswKept(w.c.sfr[PSW]) then [RetiPswMismatch] else [])
            && r.intA == w.c.intA && r.intPsw == w.c.intPsw && r.intSp == w.c.intSp
  {
    hide PswKept;
    hide RetiChecked;
    hide Reti;
    hide ReadIndirect;
    TopService(base, w);
    RetiStack(w.c, base, w.live);
    RetiRaises(w.c, if w.c.active > 1 then 1 else 0);
  }

  lemma ReturnNests(base: byte, w: World)
    requires Nested(base, w) && Legal(base, w, Return)
    ensures Nested(base, Next(w, Return))
  {
    hide StackHolds;
    hide Reti;
    hide RetiChecked;
    hide PswKept;
    TopService(base, w);
    RetiResumes(base, w);
    RetiPopsLevel(w.c);
    var s := w.services[|w.services| - 1];
    assert w.live[..|w.live| - 2] == w.live[..s.height];
  }

  lemma StepNests(base: byte, w: World, ev: Event)
    requires Nested(base, w) && Legal(base, w, ev)
    ensures Nested(base, Next(w, ev))
  {
    match ev
    case Poll =>
      if Enters(w.c) { EntryNests(base, w); }
    case Return => ReturnNests(base, w);
    case PushByte(v) => PushNests(base, w, v);
    case PopByte => PopNests(base, w);
    case Work(to) =>
  }

  lemma PushNests(base: byte, w: World, v: byte)
    requires Nested(base, w) && |w.live| < 256
    ensures Nested(base, Next(w, PushByte(v)))
  {
    hide Push;
    hide StackHolds;
    PushHolds(w.c, base, w.live, v);
    PushKeeps(w.c, v);
  }

  lemma PopNests(base: byte, w: World)
    requires Nested(base, w) && |w.live| > Floor(w)
    ensures Nested(base, Next(w, PopByte))
  {
    hide Pop;
    hide StackHolds;
    PopHolds(w.c, base, w.live);
    PopKeeps(w.c);
  }

  // ------------------------------------------------------------ whole runs

  function Exec(w: World, events: seq<Event>): World
    decreases events
  {
    if events == [] then w else Exec(Next(w, events[0]), events[1..])
  }

  predicate LegalRun(base: byte, w: World, events: seq<Event>)
    decreases events
  {
    events != [] ==> Legal(base, w, events[0]) && LegalRun(base, Next(w, events[0]), events[1..])
  }

  /** The outermost k services stay in hand throughout the run. */
  predicate StaysAbove(w: World, events: seq<Event>, k: nat)
    decreases events
  {
    |w.services| >= k && (events != [] ==> StaysAbove(Next(w, events[0]), events[1..], k))
  }

  /** Nesting is kept over every legal run. */
  lemma {:induction false} RunNests(base: byte, w: World, events: seq<Event>)
    requires Nested(base, w) && LegalRun(base, w, events)
    ensures Nested(base, Exec(w, events))
    decreases events
  {
    hide Nested;
    hide Legal;
    hide Next;
    if events == [] {
    } else {
      StepNests(base, w, events[0]);
      RunNests(base, Next(w, events[0]), events[1..]);
    }
  }

  /** The stack up to and including the return address of service k - 1. */
  function Below(w: World, k: nat): seq<byte>
    requires k > 0 ==> k <= |w.services| && w.services[k - 1].height + 2 <= |w.live|
  {
    if k == 0 then [] else w.live[..w.services[k - 1].height + 2]
  }

  lemma StepKeepsBelow(base: byte, w: World, ev: Event, k: nat)
    requires Nested(base, w) && Legal(base, w, ev)
    requires 0 < k <= |w.services| && k <= |Next(w, ev).services|
    ensures var n := Next(w, ev);
            && n.services[..k] == w.services[..k]
            && n.services[k - 1].height + 2 <= |n.live|
            && Below(n, k) == Below(w, k)
  {
    hide StackHolds;
    hide HandleInterrupts;
    hide Reti;
    hide Push;
    hide Pop;
  }

  lemma {:induction false} RunKeepsBelow(base: byte, w: World, events: seq<Event>, k: nat)
    requires Nested(base, w) && LegalRun(base, w, events) && k > 0 && StaysAbove(w, events, k)
    ensures var n := Exec(w, events);
            && |n.services| >= k && n.services[..k] == w.services[..k]
            && w.services[k - 1].height + 2 <= |w.live| && n.services[k - 1].height + 2 <= |n.live|
            && Below(n, k) == Below(w, k)
    decreases events
  {
    NestedHeight(base, w, k - 1);
    hide Nested;
    hide Legal;
    hide Next;
    if events == [] {
    } else {
      StepNests(base, w, events[0]);
      StaysNow(Next(w, events[0]), events[1..], k);
      StepKeepsBelow(base, w, events[0], k);
      RunKeepsBelow(base, Next(w, events[0]), events[1..], k);
    }
  }

  lemma NestedHeight(base: byte, w: World, k: nat)
    requires Nested(base, w) && k < |w.services|
    ensures w.services[k].height + 2 <= |w.live|
  {
    hide StackHolds;
  }

  lemma StaysNow(w: World, events: seq<Event>, k: nat)
    requires StaysAbove(w, events, k)
    ensures |w.services| >= k
  {
  }

  lemma {:induction false} ExecAppend(w: World, a: seq<Event>, b: seq<Event>)
    ensures Exec(w, a + b) == Exec(Exec(w, a), b)
    decreases a
  {
    hide Next;
    if a == [] {
      assert a + b == b;
    } else {
      assert (a + b)[1..] == a[1..] + b;
      ExecAppend(Next(w, a[0]), a[1..], b);
    }
  }

  lemma {:induction false} LegalAppend(base: byte, w: World, a: seq<Event>, b: seq<Event>)
    requires LegalRun(base, w, a + b)
    ensures LegalRun(base, w, a) && LegalRun(base, Exec(w, a), b)
    decreases a
  {
    hide Next;
    hide Legal;
    if a == [] {
      assert a + b == b;
    } else {
      assert (a + b)[1..] == a[1..] + b;
      LegalAppend(base, Next(w, a[0]), a[1..], b);
    }
  }

  /** A service from entry to its own RETI, whatever runs in between, nested
      interrupts included: execution resumes at the address interrupted, with
      the stack, its pointer and the levels in service as they were. */
  lemma ServiceReturns(base: byte, w: World, body: seq<Event>)
    requires Nested(base, w) && Enters(w.c)
    requires LegalRun(base, w, [Poll] + body + [Return])
    requires StaysAbove(Next(w, Poll), body, |w.services| + 1)
    requires |Exec(w, [Poll] + body).services| == |w.services| + 1
    ensures var r := Exec(w, [Poll] + body + [Return]);
            && r.c.pc == w.c.pc && r.live == w.live && r.services == w.services
            && r.c.sfr[SP] == w.c.sfr[SP] && Nested(base, r)
            && LevelStack(r.c.active) == LevelStack(w.c.active)
  {
    hide Exec;
    hide Next;
    hide Nested;
    hide Legal;
    hide LegalRun;
    hide StaysAbove;
    hide Enters;
    hide Below;
    var k := |w.services| + 1;
    var w1, w2 := Next(w, Poll), Exec(w, [Poll] + body);
    LegalAppend(base, w, [Poll] + body, [Return]);
    ExecAppend(w, [Poll] + body, [Return]);
    RunNests(base, w, [Poll] + body);
    EnteredRun(base, w, body);
    RunKeepsBelow(base, w1, body, k);
    OneStep(base, w2);
    EntryRecord(w);
    assert w2.services == w2.services[..k] && w1.services == w1.services[..k];
    FinishService(base, w, w1, w2);
  }

  lemma EnteredRun(base: byte, w: World, body: seq<Event>)
    requires Nested(base, w) && LegalRun(base, w, [Poll] + body)
    ensures Nested(base, Next(w, Poll)) && LegalRun(base, Next(w, Poll), body)
    ensures Exec(w, [Poll] + body) == Exec(Next(w, Poll), body)
  {
    hide Nested;
    hide Legal;
    hide Next;
    assert ([Poll] + body)[1..] == body && ([Poll] + body)[0] == Poll;
    StepNests(base, w, Poll);
  }

  lemma OneStep(base: byte, w: World)
    requires LegalRun(base, w, [Return])
    ensures Legal(base, w, Return) && Exec(w, [Return]) == Next(w, Return)
  {
    hide Next;
    hide Legal;
    assert [Return][1..] == [];
  }

  lemma EntryRecord(w: World)
    requires Enters(w.c)
    ensures var w1 := Next(w, Poll);
            && w1.live == w.live + [w.c.pc % 256, w.c.pc / 256]
            && |w1.services| == |w.services| + 1 && w1.services[..|w.services|] == w.services
            && w1.services[|w.services|].height == |w.live| && w1.services[|w.services|].pc == w.c.pc
  {
    hide HandleInterrupts;
    hide Winner;
  }

  lemma FinishService(base: byte, w: World, w1: World, w2: World)
    requires Nested(base, w) && Nested(base, w2) && Legal(base, w2, Return)
    requires var k := |w.services|;
             && |w1.services| == k + 1 == |w2.services| && w2.services == w1.services && w1.services[..k] == w.services
             && w1.live == w.live + [w.c.pc % 256, w.c.pc / 256]
             && w1.services[k].height == |w.live| && w1.services[k].pc == w.c.pc
             && w2.services[k].height + 2 <= |w2.live| && Below(w2, k + 1) == Below(w1, k + 1)
    ensures var r := Next(w2, Return);
            && r.c.pc == w.c.pc && r.live == w.live && r.services == w.services
            && r.c.sfr[SP] == w.c.sfr[SP] && Nested(base, r)
            && LevelStack(r.c.active) == LevelStack(w.c.active)
  {
    hide Reti;
    hide RetiChecked;
    hide PswKept;
    hide Nested;
    hide StackHolds;
    hide LevelStack;
    ReturnNests(base, w2);
    RetiResumes(base, w2);
    var r := Next(w2, Return);
    NestedSp(base, w);
    NestedSp(base, r);
    assert w2.live[..|w.live|] == Below(w2, |w.services| + 1)[..|w.live|] == w.live;
    SameLevels(base, r, w);
  }

  lemma NestedSp(base: byte, w: World)
    requires Nested(base, w)
    ensures w.c.sfr[SP] == (base as int + |w.live|) % 256
  {
    hide ReadIndirect;
    hide ServiceOk;
  }

  lemma SameLevels(base: byte, r: World, w: World)
    requires Nested(base, r) && Nested(base, w) && r.services == w.services
    ensures LevelStack(r.c.active) == LevelStack(w.c.active)
  {
    hide StackHolds;
    hide ServiceOk;
  }
}
