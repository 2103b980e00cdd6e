/** The bus between the CPU's SFRs and the devices: composing reads, passing
    subscriptions on, and finding the bus of a CPU. */
module SfrBus {
  import opened Bytes

  // -------------------------------------------------------------- reading

  /** What one read subscriber contributes: the bits it owns and their levels. */
  datatype Claim = Claim(mask: byte, value: byte)

  function Overlay(b: byte, c: Claim): byte {
    OrByte(AndNotByte(b, c.mask), AndByte(c.value, c.mask))
  }

  /** The byte the CPU reads: the stored byte with every claim laid over it. */
  function Compose(latch: byte, claims: seq<Claim>): byte {
    if claims == [] then latch else Overlay(Compose(latch, claims[..|claims| - 1]), claims[|claims| - 1])
  }

  /** The level of bit k: that of the last claimant, or the stored one. */
  predicate BitRead(latch: byte, claims: seq<Claim>, k: nat) {
    if claims == [] then Bit(latch, k)
    else
      var c := claims[|claims| - 1];
      if Bit(c.mask, k) then Bit(c.value, k) else BitRead(latch, claims[..|claims| - 1], k)
  }

  lemma OverlayBit(b: byte, c: Claim, k: nat)
    ensures Bit(Overlay(b, c), k) == if Bit(c.mask, k) then Bit(c.value, k) else Bit(b, k)
  {
    OrBit(AndNotByte(b, c.mask), AndByte(c.value, c.mask), k);
    AndNotBit(b, c.mask, k);
    AndBit(c.value, c.mask, k);
  }

  lemma {:induction false} ComposeBit(latch: byte, claims: seq<Claim>, k: nat)
    ensures Bit(Compose(latch, claims), k) == BitRead(latch, claims, k)
  {
    hide Bit;
    hide Overlay;
    if claims == [] {
    } else {
      ComposeBit(latch, claims[..|claims| - 1], k);
      OverlayBit(Compose(latch, claims[..|claims| - 1]), claims[|claims| - 1], k);
    }
  }

  /** Exactly: the claimant after which no other claims the bit decides it. */
  lemma {:induction false} LastClaimantDecides(latch: byte, claims: seq<Claim>, i: nat, k: nat)
    requires i < |claims| && Bit(claims[i].mask, k)
    requires forall j :: i < j < |claims| ==> !Bit(claims[j].mask, k)
    ensures BitRead(latch, claims, k) == Bit(claims[i].value, k)
  {
    hide Bit;
    if i < |claims| - 1 { LastClaimantDecides(latch, claims[..|claims| - 1], i, k); }
  }

  lemma {:induction false} UnclaimedIsStored(latch: byte, claims: seq<Claim>, k: nat)
    requires forall j :: 0 <= j < |claims| ==> !Bit(claims[j].mask, k)
    ensures BitRead(latch, claims, k) == Bit(latch, k)
  {
    hide Bit;
    if claims == [] {
    } else {
      UnclaimedIsStored(latch, claims[..|claims| - 1], k);
    }
  }

  /** No two subscribers own the same bit. */
  predicate Disjoint(claims: seq<Claim>) {
    forall i, j, k: nat :: 0 <= i < j < |claims| && k < 8 ==> !(Bit(claims[i].mask, k) && Bit(claims[j].mask, k))
  }

  lemma SameBitAnyOrder(latch: byte, a: seq<Claim>, b: seq<Claim>, k: nat)
    requires Disjoint(a) && Disjoint(b) && multiset(a) == multiset(b) && k < 8
    ensures BitRead(latch, a, k) == BitRead(latch, b, k)
  {
    hide Bit;
    hide BitRead;
    if i :| 0 <= i < |a| && Bit(a[i].mask, k) {
      assert a[i] in multiset(a);
      assert a[i] in multiset(b);
      var j :| 0 <= j < |b| && b[j] == a[i];
      LastClaimantDecides(latch, a, i, k);
      LastClaimantDecides(latch, b, j, k);
    } else {
      forall j | 0 <= j < |b| ensures !Bit(b[j].mask, k) {
        assert b[j] in multiset(b);
        assert b[j] in multiset(a);
        var i :| 0 <= i < |a| && a[i] == b[j];
      }
      UnclaimedIsStored(latch, a, k);
      UnclaimedIsStored(latch, b, k);
    }
  }

  /** For subscribers that own different bits the order does not matter. */
  lemma OrderIndependent(latch: byte, a: seq<Claim>, b: seq<Claim>)
    requires Disjoint(a) && Disjoint(b) && multiset(a) == multiset(b)
    ensures Compose(latch, a) == Compose(latch, b)
  {
    hide Bit;
    hide Compose;
    hide Disjoint;
    forall k | 0 <= k < 8 ensures Bit(Compose(latch, a), k) == Bit(Compose(latch, b), k) {
      ComposeBit(latch, a, k);
      ComposeBit(latch, b, k);
      SameBitAnyOrder(latch, a, b, k);
    }
    assert Pow2(8) == 256;
    BitsDetermine(Compose(latch, a), Compose(latch, b), 8);
  }

  // -------------------------------------------------------- the bus object

  const MAX_SUBS := 16
  const REGISTERS := 128

  /** A subscriber: a callback and its user data, by name. */
  datatype Subscriber = Subscriber(fn: nat, user: nat)

  class SimBus {
    /** Where a forwarding bus sends its subscriptions; null on a real one. */
    const target: SimBus?
    const readers: array<seq<Subscriber>>
    const writers: array<seq<Subscriber>>

    ghost predicate Valid()
      reads this, readers, writers
    {
      readers.Length == REGISTERS && writers.Length == REGISTERS && readers != writers
      && (target != null ==> target.target == null && target != this
                             && target.readers.Length == REGISTERS && target.writers.Length == REGISTERS
                             && target.readers != target.writers)
    }

    /** The bus whose lists a subscription ends up in. */
    function Host(): SimBus { if target == null then this else target }

    constructor (target: SimBus?)
      requires target != null ==> target.target == null && target.Valid()
      ensures Valid() && this.target == target && fresh(readers) && fresh(writers)
      ensures forall r :: 0 <= r < REGISTERS ==> readers[r] == [] && writers[r] == []
    {
      this.target := target;
      readers := new seq<Subscriber>[REGISTERS](_ => []);
      writers := new seq<Subscriber>[REGISTERS](_ => []);
    }

    /** Direct or forwarded, a subscription is appended to the same list. */
    method OnRead(register: nat, s: Subscriber)
      requires Valid() && register < REGISTERS && |Host().readers[register]| < MAX_SUBS
      modifies Host().readers
      ensures Valid()
      ensures Host().readers[..] == old(Host().readers[..])[register := old(Host().readers[register]) + [s]]
      decreases target != null
    {
      if target != null {
        target.OnRead(register % REGISTERS, s);
        return;
      }
      readers[register] := readers[register] + [s];
    }

    method OnWrite(register: nat, s: Subscriber)
      requires Valid() && register < REGISTERS && |Host().writers[register]| < MAX_SUBS
      modifies Host().writers
      ensures Valid()
      ensures Host().writers[..] == old(Host().writers[..])[register := old(Host().writers[register]) + [s]]
      decreases target != null
    {
      if target != null {
        target.OnWrite(register % REGISTERS, s);
        return;
      }
      writers[register] := writers[register] + [s];
    }

    /** A CPU read of a register: every subscriber asked in turn. */
    method Read(register: nat, latch: byte, ask: Subscriber -> Claim) returns (result: byte)
      requires Valid() && register < REGISTERS
      ensures var subs := readers[register];
              result == Compose(latch, seq(|subs|, i requires 0 <= i < |subs| => ask(subs[i])))
    {
      var subs := readers[register];
      ghost var claims := seq(|subs|, i requires 0 <= i < |subs| => ask(subs[i]));
      result := latch;
      var i := 0;
      while i < |subs|
        invariant 0 <= i <= |subs| && result == Compose(latch, claims[..i])
      {
        var c := ask(subs[i]);
        assert claims[..i + 1][..i] == claims[..i];
        result := OrByte(AndNotByte(result, c.mask), AndByte(c.value, c.mask));
        i := i + 1;
      }
      assert claims[..i] == claims;
    }
  }

  // ----------------------------------------------------------- the registry

  /** A live bus: which one it is, and the CPU it belongs to. */
  datatype Bus = Bus(id: nat, cpu: nat)

  type Slots = seq<Option<Bus>>

  datatype Registry = Registry(slots: Slots, last: Option<Bus>)

  /** The first registered bus of a CPU. */
  function Search(slots: Slots, cpu: nat): (b: Option<Bus>)
    ensures b.Some? ==> b.value.cpu == cpu && b in slots
  {
    if slots == [] then None
    else if slots[0].Some? && slots[0].value.cpu == cpu then slots[0]
    else Search(slots[1..], cpu)
  }

  function Lookup(r: Registry, cpu: nat): (Registry, Option<Bus>) {
    if r.last.Some? && r.last.value.cpu == cpu then (r, r.last)
    else
      var b := Search(r.slots, cpu);
      if b.Some? then (r.(last := b), b) else (r, None)
  }

  function FirstFree(slots: Slots): (i: nat)
    ensures i <= |slots| && (i < |slots| ==> slots[i].None?)
    ensures forall j :: 0 <= j < i ==> slots[j].Some?
  {
    if slots == [] || slots[0].None? then 0 else 1 + FirstFree(slots[1..])
  }

  function Vacant(n: nat): Slots { seq(n, _ => None) }

  /** A new bus takes the first free slot; a full registry doubles. */
  function Create(r: Registry, b: Bus): Registry {
    var i := FirstFree(r.slots);
    if i < |r.slots| then r.(slots := r.slots[i := Some(b)])
    else
      var n := |r.slots|;
      var cap := if n > 0 then 2 * n else 8;
      r.(slots := r.slots + [Some(b)] + Vacant(cap - n - 1))
  }

  function Cleared(slots: Slots, b: Bus): (s: Slots)
    ensures |s| == |slots|
    ensures forall i :: 0 <= i < |s| ==> s[i] == if slots[i] == Some(b) then None else slots[i]
  {
    seq(|slots|, i requires 0 <= i < |slots| => if slots[i] == Some(b) then None else slots[i])
  }

  predicate NoneLive(slots: Slots) { forall i :: 0 <= i < |slots| ==> slots[i].None? }

  function Destroy(r: Registry, b: Bus): Registry {
    var s := Cleared(r.slots, b);
    Registry(if NoneLive(s) then [] else s, if r.last == Some(b) then None else r.last)
  }

  /** The cached bus is the one a search for its CPU would find. */
  predicate Coherent(r: Registry) {
    r.last.Some? ==> Search(r.slots, r.last.value.cpu) == r.last
  }

  /** The cached lookup answers as the search would, for every CPU. */
  ghost predicate Exact(r: Registry) {
    forall cpu: nat :: Lookup(r, cpu).1 == Search(r.slots, cpu)
  }

  lemma LookupExact(r: Registry)
    ensures Exact(r) <==> Coherent(r)
  {
    hide Search;
    if r.last.Some? && !Coherent(r) {
      assert Lookup(r, r.last.value.cpu).1 != Search(r.slots, r.last.value.cpu);
    }
  }

  datatype Event = Open(bus: Bus) | Close(bus: Bus) | Find(cpu: nat)

  function Next(r: Registry, e: Event): Registry {
    match e
    case Open(b) => Create(r, b)
    case Close(b) => Destroy(r, b)
    case Find(cpu) => Lookup(r, cpu).0
  }

  function Run(r: Registry, events: seq<Event>): Registry {
    if events == [] then r else Next(Run(r, events[..|events| - 1]), events[|events| - 1])
  }

  lemma {:induction false} SearchParts(a: Slots, b: Slots, cpu: nat)
    ensures Search(a + b, cpu) == if Search(a, cpu).Some? then Search(a, cpu) else Search(b, cpu)
    decreases a
  {
    if a == [] {
      assert a + b == b;
    } else {
      assert (a + b)[1..] == a[1..] + b;
      SearchParts(a[1..], b, cpu);
    }
  }

  lemma {:induction false} SearchVacant(n: nat, cpu: nat)
    ensures Search(Vacant(n), cpu) == None
    decreases n
  {
    if n == 0 {
    } else {
      assert Vacant(n)[1..] == Vacant(n - 1);
      SearchVacant(n - 1, cpu);
    }
  }

  /** What a search finds once a bus has been opened: whatever it would find in
      the slots before the first free one, else the new bus if its CPU is asked
      for, else what it found before. */
  lemma SearchAfterCreate(r: Registry, b: Bus, cpu: nat)
    ensures var before := Search(r.slots[..FirstFree(r.slots)], cpu);
            Search(Create(r, b).slots, cpu) ==
            if before.Some? then before else if b.cpu == cpu then Some(b) else Search(r.slots, cpu)
  {
    var i := FirstFree(r.slots);
    if i < |r.slots| {
      SearchReplaced(r.slots, i, b, cpu);
    } else {
      assert r.slots[..i] == r.slots;
      SearchAppended(r.slots, b, |Create(r, b).slots| - i - 1, cpu);
    }
    hide Search;
  }

  lemma SearchReplaced(slots: Slots, i: nat, b: Bus, cpu: nat)
    requires i < |slots| && slots[i] == None
    ensures var before := Search(slots[..i], cpu);
            Search(slots[i := Some(b)], cpu) ==
            if before.Some? then before else if b.cpu == cpu then Some(b) else Search(slots, cpu)
  {
    OneSlot(Some(b), cpu);
    OneSlot(None, cpu);
    hide Search;
    var head, tail := slots[..i], slots[i + 1..];
    SearchParts([Some(b)], tail, cpu);
    SearchParts([None], tail, cpu);
    SearchParts(head, [None] + tail, cpu);
    SearchParts(head, [Some(b)] + tail, cpu);
    assert slots == head + ([None] + tail);
    assert slots[i := Some(b)] == head + ([Some(b)] + tail);
  }

  lemma SearchAppended(slots: Slots, b: Bus, n: nat, cpu: nat)
    ensures var before := Search(slots, cpu);
            Search(slots + [Some(b)] + Vacant(n), cpu) ==
            if before.Some? then before else if b.cpu == cpu then Some(b) else None
  {
    OneSlot(Some(b), cpu);
    hide Search;
    SearchVacant(n, cpu);
    SearchParts([Some(b)], Vacant(n), cpu);
    SearchParts(slots, [Some(b)] + Vacant(n), cpu);
    assert slots + [Some(b)] + Vacant(n) == slots + ([Some(b)] + Vacant(n));
  }

  lemma OneSlot(x: Option<Bus>, cpu: nat)
    ensures Search([x], cpu) == if x.Some? && x.value.cpu == cpu then x else None
  {
  }

  /** A bus not in the table and not cached. */
  predicate IsNew(r: Registry, b: Bus) { Some(b) !in r.slots && r.last != Some(b) }

  /** The one way to a wrong answer: the CPU of the cached bus is given a second
      bus, in a free slot with no bus of that CPU before it. */
  predicate Breaks(r: Registry, e: Event) {
    && e.Open? && r.last.Some? && r.last.value.cpu == e.bus.cpu
    && FirstFree(r.slots) < |r.slots| && Search(r.slots[..FirstFree(r.slots)], e.bus.cpu).None?
  }

  lemma OpenCoherent(r: Registry, b: Bus)
    requires Coherent(r) && IsNew(r, b)
    ensures Coherent(Create(r, b)) <==> !Breaks(r, Open(b))
  {
    hide Search;
    CreateKeepsCache(r, b);
    hide Create;
    if r.last.Some? {
      var cpu, i := r.last.value.cpu, FirstFree(r.slots);
      SearchAfterCreate(r, b, cpu);
      SearchParts(r.slots[..i], r.slots[i..], cpu);
      assert r.slots == r.slots[..i] + r.slots[i..];
      if i == |r.slots| { assert r.slots[..i] == r.slots; }
    }
  }

  lemma CreateKeepsCache(r: Registry, b: Bus)
    ensures Create(r, b).last == r.last
  {
  }

  lemma {:induction false} SearchCleared(slots: Slots, b: Bus, x: Bus)
    requires Search(slots, x.cpu) == Some(x) && x != b
    ensures Search(Cleared(slots, b), x.cpu) == Some(x)
    decreases slots
  {
    var s := Cleared(slots, b);
    assert s[1..] == Cleared(slots[1..], b);
    if slots[0] != Some(x) { SearchCleared(slots[1..], b, x); }
  }

  lemma CloseCoherent(r: Registry, b: Bus)
    requires Coherent(r)
    ensures Coherent(Destroy(r, b))
  {
    if r.last.Some? && r.last != Some(b) {
      SearchCleared(r.slots, b, r.last.value);
      assert r.last in Cleared(r.slots, b);
    }
    hide Search;
    hide Cleared;
  }

  /** From a coherent registry every step leads to a coherent one, unless it is
      the opening of a bus that breaks it. */
  lemma NextCoherent(r: Registry, e: Event)
    requires Coherent(r) && (e.Open? ==> IsNew(r, e.bus))
    ensures Coherent(Next(r, e)) <==> !Breaks(r, e)
  {
    match e
    case Open(b) => OpenCoherent(r, b);
    case Close(b) => CloseCoherent(r, b);
    case Find(cpu) =>
  }

  predicate OpensNew(events: seq<Event>) {
    forall k :: 0 <= k < |events| && events[k].Open? ==> IsNew(Run(Registry([], None), events[..k]), events[k].bus)
  }

  lemma RunNext(r: Registry, events: seq<Event>, k: nat)
    requires k < |events|
    ensures Run(r, events[..k + 1]) == Next(Run(r, events[..k]), events[k])
  {
    hide Next;
    assert events[..k + 1][..k] == events[..k];
  }

  lemma {:induction false} CoherentUpTo(events: seq<Event>, n: nat)
    requires n <= |events| && OpensNew(events)
    requires forall k :: 0 <= k < n ==> !Breaks(Run(Registry([], None), events[..k]), events[k])
    ensures Coherent(Run(Registry([], None), events[..n]))
    decreases n
  {
    hide Coherent;
    hide Breaks;
    hide IsNew;
    if n == 0 {
      NothingCached();
    } else {
      CoherentUpTo(events, n - 1);
      NextCoherent(Run(Registry([], None), events[..n - 1]), events[n - 1]);
      RunNext(Registry([], None), events, n - 1);
    }
  }

  lemma NothingCached()
    ensures Coherent(Run(Registry([], None), []))
  {
  }

  /** Over any run that opens only new buses, the cached lookup answers as the
      search would, for every CPU and at every moment of the run, if and only if
      no step of it breaks the cache. */
  lemma CacheExactOverRun(events: seq<Event>)
    requires OpensNew(events)
    ensures (forall k :: 0 <= k <= |events| ==> Exact(Run(Registry([], None), events[..k])))
            <==> forall k :: 0 <= k < |events| ==> !Breaks(Run(Registry([], None), events[..k]), events[k])
  {
    hide Exact;
    hide Coherent;
    hide Breaks;
    hide Run;
    hide IsNew;
    forall k | 0 <= k <= |events|
      ensures Exact(Run(Registry([], None), events[..k])) <==> Coherent(Run(Registry([], None), events[..k]))
    {
      LookupExact(Run(Registry([], None), events[..k]));
    }
    if k :| 0 <= k < |events| && Breaks(Run(Registry([], None), events[..k]), events[k]) {
      if Coherent(Run(Registry([], None), events[..k])) {
        NextCoherent(Run(Registry([], None), events[..k]), events[k]);
        RunNext(Registry([], None), events, k);
        assert !Exact(Run(Registry([], None), events[..k + 1]));
      } else {
        assert !Exact(Run(Registry([], None), events[..k]));
      }
    } else {
      forall k | 0 <= k <= |events| ensures Exact(Run(Registry([], None), events[..k])) {
        CoherentUpTo(events, k);
      }
    }
  }

  predicate OnePerCpu(slots: Slots) {
    forall i, j :: 0 <= i < j < |slots| && slots[i].Some? && slots[j].Some? ==>
      slots[i].value.cpu != slots[j].value.cpu
  }

  predicate Sound(r: Registry) {
    OnePerCpu(r.slots) && (r.last.Some? ==> r.last in r.slots)
  }

  lemma {:induction false} SearchFinds(slots: Slots, b: Bus)
    requires OnePerCpu(slots) && Some(b) in slots
    ensures Search(slots, b.cpu) == Some(b)
    decreases slots
  {
    if slots[0] != Some(b) {
      assert Some(b) in slots[1..];
      SearchFinds(slots[1..], b);
    }
  }

  lemma SoundIsCoherent(r: Registry)
    requires Sound(r)
    ensures Coherent(r)
  {
    if r.last.Some? { SearchFinds(r.slots, r.last.value); }
  }

  /** A bus is opened only for a CPU that has none open. */
  predicate OneBusEach(r: Registry, events: seq<Event>) {
    events != [] ==>
      var before, e := events[..|events| - 1], events[|events| - 1];
      OneBusEach(r, before) && (e.Open? ==> Search(Run(r, before).slots, e.bus.cpu) == None)
  }

  lemma {:induction false} NoneFound(slots: Slots, cpu: nat, i: nat)
    requires Search(slots, cpu) == None && i < |slots| && slots[i].Some?
    ensures slots[i].value.cpu != cpu
    decreases slots
  {
    if i == 0 {
    } else {
      NoneFound(slots[1..], cpu, i - 1);
    }
  }

  lemma OpenSound(r: Registry, b: Bus)
    requires Sound(r) && Search(r.slots, b.cpu) == None
    ensures Sound(Create(r, b))
  {
    hide Search;
    var n, i := Create(r, b), FirstFree(r.slots);
    forall j | 0 <= j < |r.slots| && r.slots[j].Some? ensures r.slots[j].value.cpu != b.cpu {
      NoneFound(r.slots, b.cpu, j);
    }
    hide FirstFree;
    if r.last.Some? {
      var j :| 0 <= j < |r.slots| && r.slots[j] == r.last;
      assert n.slots[j] == r.last;
    }
  }

  lemma CloseSound(r: Registry, b: Bus)
    requires Sound(r)
    ensures Sound(Destroy(r, b))
  {
    var s := Cleared(r.slots, b);
    hide Cleared;
    if r.last.Some? && r.last != Some(b) {
      var j :| 0 <= j < |r.slots| && r.slots[j] == r.last;
      assert s[j] == r.last;
    }
  }

  lemma {:induction false} RunSound(r: Registry, events: seq<Event>)
    requires Sound(r) && OneBusEach(r, events)
    ensures Sound(Run(r, events))
    decreases events
  {
    hide Sound;
    hide Create;
    hide Destroy;
    if events == [] {
    } else {
      var before, e := events[..|events| - 1], events[|events| - 1];
      RunSound(r, before);
      match e
      case Open(b) => OpenSound(Run(r, before), b);
      case Close(b) => CloseSound(Run(r, before), b);
      case Find(cpu) => FindSound(Run(r, before), cpu);
    }
  }

  lemma FindSound(r: Registry, cpu: nat)
    requires Sound(r)
    ensures Sound(Lookup(r, cpu).0)
  {
  }

  /** Over any run of opening, closing and looking up, with one bus per CPU,
      the cached lookup answers exactly as the linear search. */
  lemma CacheTransparent(events: seq<Event>, cpu: nat)
    requires OneBusEach(Registry([], None), events)
    ensures var r := Run(Registry([], None), events);
            Lookup(r, cpu).1 == Search(r.slots, cpu)
  {
    var r := Run(Registry([], None), events);
    RunSound(Registry([], None), events);
    SoundIsCoherent(r);
    LookupExact(r);
  }

  lemma TwoOpen()
    ensures var r := Create(Create(Registry([], None), Bus(1, 7)), Bus(2, 7));
            |r.slots| == 8 && r.slots[0] == Some(Bus(1, 7)) && r.slots[1] == Some(Bus(2, 7)) && r.last == None
            && forall i :: 2 <= i < 8 ==> r.slots[i].None?
  {
    var r1 := Create(Registry([], None), Bus(1, 7));
    assert FirstFree(r1.slots) == 1;
  }

  lemma SecondFound(s: Slots, b: Bus)
    requires |s| >= 2 && s[0].None? && s[1] == Some(b)
    ensures Search(s, b.cpu) == Some(b) && FirstFree(s) == 0
  {
    assert s[1..][0] == s[1];
  }

  // ------------------------------------------------------------- the object

  class BusRegistry {
    var table: array<Option<Bus>>
    var last: Option<Bus>

    function State(): Registry
      reads this, table
    {
      Registry(table[..], last)
    }

    constructor ()
      ensures State() == Registry([], None) && fresh(table)
    {
      table := new Option<Bus>[0];
      last := None;
    }

    method BusForCpu(cpu: nat) returns (bus: Option<Bus>)
      modifies this
      ensures table == old(table) && (State(), bus) == Lookup(old(State()), cpu)
    {
      if last.Some? && last.value.cpu == cpu { return last; }
      var i := 0;
      while i < table.Length
        invariant 0 <= i <= table.Length && table == old(table) && last == old(last)
        invariant Search(table[..], cpu) == Search(table[i..], cpu)
      {
        assert table[i..][0] == table[i] && table[i..][1..] == table[i + 1..];
        if table[i].Some? && table[i].value.cpu == cpu {
          last := table[i];
          return last;
        }
        i := i + 1;
      }
      return None;
    }

    /** The new bus goes into the first free slot; a table without one is
        replaced by one twice as large. */
    method BusCreate(bus: Bus)
      modifies this, table
      ensures State() == Create(old(State()), bus)
      ensures table == old(table) || fresh(table)
    {
      hide Search;
      var i := 0;
      while i < table.Length
        invariant 0 <= i <= table.Length && table == old(table) && last == old(last)
        invariant table[..] == old(table[..])
        invariant forall j :: 0 <= j < i ==> table[j].Some?
      {
        if table[i].None? {
          FirstFreeIs(table[..], i);
          table[i] := Some(bus);
          return;
        }
        i := i + 1;
      }
      FirstFreeIs(table[..], i);
      var n := table.Length;
      var cap := if n > 0 then 2 * n else 8;
      var grown := new Option<Bus>[cap](_ => None);
      forall j | 0 <= j < n { grown[j] := table[j]; }
      grown[n] := Some(bus);
      table := grown;
      assert table[..] == old(table[..]) + [Some(bus)] + Vacant(cap - n - 1);
    }

    method BusDestroy(bus: Bus)
      modifies this, table
      ensures State() == Destroy(old(State()), bus)
      ensures table == old(table) || fresh(table)
    {
      if last == Some(bus) { last := None; }
      ghost var cleared := Cleared(old(table[..]), bus);
      var i, live := 0, 0;
      while i < table.Length
        invariant 0 <= i <= table.Length && table == old(table)
        invariant last == if old(last) == Some(bus) then None else old(last)
        invariant forall j :: 0 <= j < table.Length ==> table[j] == if j < i then cleared[j] else old(table[j])
        invariant live >= 0 && (live == 0 <==> forall j :: 0 <= j < i ==> cleared[j].None?)
      {
        if table[i] == Some(bus) { table[i] := None; }
        if table[i] != None { live := live + 1; }
        i := i + 1;
      }
      assert table[..] == cleared;
      if live == 0 { table := new Option<Bus>[0]; }
    }
  }

  lemma {:induction false} FirstFreeIs(slots: Slots, i: nat)
    requires i <= |slots| && (i < |slots| ==> slots[i].None?)
    requires forall j :: 0 <= j < i ==> slots[j].Some?
    ensures FirstFree(slots) == i
    decreases i
  {
    if i == 0 {
    } else {
      FirstFreeIs(slots[1..], i - 1);
    }
  }

  /** With two buses on one CPU it need not: the later one, looked up while the
      earlier slot is free, stays cached after that slot is taken again. */
  lemma TwoBusesDisagree()
    ensures var a, b, c := Bus(1, 7), Bus(2, 7), Bus(3, 7);
            var r := Create(Lookup(Destroy(Create(Create(Registry([], None), a), b), a), 7).0, c);
            Lookup(r, 7).1 == Some(b) && Search(r.slots, 7) == Some(c)
  {
    var a, b, c := Bus(1, 7), Bus(2, 7), Bus(3, 7);
    TwoOpen();
    var r2 := Create(Create(Registry([], None), a), b);
    hide Create;
    var r3 := Destroy(r2, a);
    assert r3.slots[1] == Some(b) && r3.slots[0].None?;
    SecondFound(r3.slots, b);
    TakeFirst(Registry(r3.slots, Some(b)), c);
  }

  lemma TakeFirst(r: Registry, c: Bus)
    requires |r.slots| > 0 && FirstFree(r.slots) == 0
    ensures var n := Create(r, c);
            n.last == r.last && Search(n.slots, c.cpu) == Some(c)
  {
    hide FirstFree;
  }
}
