/** STC in-application flash programming: the trigger automaton, the commands,
    and what any sequence of register writes leaves in the flash. */
module IapFlash {
  import opened Bytes

  const SECTOR := 512

  datatype Profile = Profile(trig1: byte, trig2: byte, programIsCode: bool, lo: nat, hi: nat)

  const STC89C52RC := Profile(0x46, 0xB9, false, 0x2000, 0x3000)
  const IAP15 := Profile(0x5A, 0xA5, true, 0x0000, 0xF400)
  const STC12C2052AD := Profile(0x46, 0xB9, false, 0x0800, 0x1800)

  /** What the three profiles share: two different trigger bytes, neither of
      them zero, and a range of whole sectors. */
  predicate Usable(p: Profile) {
    && p.trig1 != p.trig2 && p.trig1 != 0 && p.trig2 != 0
    && p.lo % SECTOR == 0 && p.hi % SECTOR == 0 && p.lo < p.hi <= 0x1_0000
  }

  lemma ProfilesUsable()
    ensures Usable(STC89C52RC) && Usable(IAP15) && Usable(STC12C2052AD)
  {
  }

  function FlashSize(p: Profile): nat
    requires Usable(p)
  {
    if p.programIsCode then 0x1_0000 else p.hi - p.lo
  }

  predicate Writable(p: Profile, a: int) { p.lo <= a < p.hi }

  function IndexOf(p: Profile, a: nat): (i: nat)
    requires Usable(p) && Writable(p, a)
    ensures i < FlashSize(p)
  {
    if p.programIsCode then a else a - p.lo
  }

  // The six registers, as offsets from the profile's base.
  const DATA := 0
  const ADDRH := 1
  const ADDRL := 2
  const CMD := 3
  const TRIG := 4
  const CONTR := 5

  datatype Stats = Stats(readCount: nat, programs: nat, erases: nat, ignored: nat, softResets: nat, ispEntries: nat)

  datatype Iap = Iap(p: Profile, sfr: seq<byte>, flash: seq<byte>, lastTrig: byte,
                     pendingReset: nat, keepContr: byte, stats: Stats) {
    predicate Ok() { Usable(p) && |sfr| == 6 && |flash| == FlashSize(p) }
  }

  function Address(d: Iap): nat
    requires d.Ok()
  {
    var h: int, l: int := d.sfr[ADDRH], d.sfr[ADDRL];
    256 * h + l
  }

  function SectorStart(a: nat): nat { a - a % SECTOR }

  /** The commands: 1 reads, 2 programs, 3 erases; 0 does nothing. */
  function Code(d: Iap): nat
    requires d.Ok()
  {
    d.sfr[CMD] % 4
  }

  predicate Enabled(d: Iap)
    requires d.Ok()
  {
    d.sfr[CONTR] >= 0x80
  }

  function Erased(flash: seq<byte>, start: nat): (f: seq<byte>)
    requires start + SECTOR <= |flash|
    ensures |f| == |flash|
  {
    seq(|flash|, i requires 0 <= i < |flash| => if start <= i < start + SECTOR then 0xFF else flash[i])
  }

  /** A sector that starts in the range ends in it: an erase is never refused
      for its sector alone. */
  lemma SectorInside(p: Profile, a: nat)
    requires Usable(p) && Writable(p, a)
    ensures Writable(p, SectorStart(a)) && Writable(p, SectorStart(a) + SECTOR - 1)
  {
  }

  function RunCommand(d: Iap): (r: Iap)
    requires d.Ok()
    ensures r.Ok()
  {
    var a := Address(d);
    if !Enabled(d) || Code(d) == 0 then d
    else if !Writable(d.p, a) then d.(stats := d.stats.(ignored := d.stats.ignored + 1))
    else if Code(d) == 1 then
      d.(sfr := d.sfr[DATA := d.flash[IndexOf(d.p, a)]], stats := d.stats.(readCount := d.stats.readCount + 1))
    else if Code(d) == 2 then
      var i := IndexOf(d.p, a);
      d.(flash := d.flash[i := AndByte(d.flash[i], d.sfr[DATA])],
         stats := d.stats.(programs := d.stats.programs + 1))
    else if !Writable(d.p, SectorStart(a)) || !Writable(d.p, SectorStart(a) + SECTOR - 1) then
      d.(stats := d.stats.(ignored := d.stats.ignored + 1))
    else
      d.(flash := Erased(d.flash, IndexOf(d.p, SectorStart(a))), stats := d.stats.(erases := d.stats.erases + 1))
  }

  predicate Fires(d: Iap, v: byte) { d.lastTrig == d.p.trig1 && v == d.p.trig2 }

  function OnTrig(d: Iap, v: byte): (r: Iap)
    requires d.Ok()
    ensures r.Ok()
  {
    if Fires(d, v) then RunCommand(d).(lastTrig := 0) else d.(lastTrig := v)
  }

  function OnContr(d: Iap, v: byte): Iap {
    d.(keepContr := v / 64 * 64,
       pendingReset := if Bit(v, 5) then (if Bit(v, 6) then 2 else 1) else d.pendingReset)
  }

  // ---------------------------------------------------------------- events

  /** A write to one of the six registers, the end of a tick, power coming on. */
  datatype Event = Write(offset: nat, value: byte) | PostTick(resetsCpu: bool) | PowerOn

  predicate Resets(d: Iap, e: Event) { e.PostTick? && d.pendingReset != 0 }

  function Next(d: Iap, e: Event): (r: Iap)
    requires d.Ok()
    ensures r.Ok() && r.p == d.p
  {
    match e
    case Write(offset, v) =>
      if offset >= 6 then d
      else
        var d := d.(sfr := d.sfr[offset := v]);
        if offset == TRIG then OnTrig(d, v) else if offset == CONTR then OnContr(d, v) else d
    case PostTick(resetsCpu) =>
      if d.pendingReset == 0 then d
      else
        var s := if d.pendingReset == 2 then d.stats.(ispEntries := d.stats.ispEntries + 1)
                 else d.stats.(softResets := d.stats.softResets + 1);
        var sfr := if resetsCpu then [0, 0, 0, 0, 0, 0] else d.sfr;
        d.(stats := s, pendingReset := 0, sfr := sfr[CONTR := d.keepContr], lastTrig := 0)
    case PowerOn => d.(keepContr := 0, pendingReset := 0, lastTrig := 0)
  }

  function Run(d: Iap, events: seq<Event>): (r: Iap)
    requires d.Ok()
    ensures r.Ok() && r.p == d.p
  {
    if events == [] then d else Next(Run(d, events[..|events| - 1]), events[|events| - 1])
  }

  // ---------------------------------------------------------- flash history

  /** What a command did to the flash. */
  datatype FlashOp = Program(addr: nat, data: byte) | Erase(start: nat)

  /** An event fires a command. */
  predicate FiresOn(d: Iap, e: Event) { e.Write? && e.offset == TRIG && Fires(d, e.value) }

  /** A fired command that is enabled and not code 0. */
  predicate Commands(d: Iap, e: Event)
    requires d.Ok()
  {
    FiresOn(d, e) && Enabled(d) && Code(d) != 0
  }

  function OpsOf(d: Iap, e: Event): seq<FlashOp>
    requires d.Ok()
  {
    if !Commands(d, e) || !Writable(d.p, Address(d)) || Code(d) == 1 then []
    else if Code(d) == 2 then [Program(Address(d), d.sfr[DATA])]
    else [Erase(SectorStart(Address(d)))]
  }

  function Ops(d: Iap, events: seq<Event>): seq<FlashOp>
    requires d.Ok()
  {
    if events == [] then []
    else
      var before := events[..|events| - 1];
      Ops(d, before) + OpsOf(Run(d, before), events[|events| - 1])
  }

  predicate Covers(op: FlashOp, a: nat) { op.Erase? && op.start <= a < op.start + SECTOR }

  predicate WasErased(ops: seq<FlashOp>, a: nat) { exists i :: 0 <= i < |ops| && Covers(ops[i], a) }

  /** The data programmed at a since its sector was last erased. */
  function SinceErase(ops: seq<FlashOp>, a: nat): seq<byte> {
    if ops == [] then []
    else
      var op, before := ops[|ops| - 1], ops[..|ops| - 1];
      if Covers(op, a) then []
      else if op.Program? && op.addr == a then SinceErase(before, a) + [op.data]
      else SinceErase(before, a)
  }

  /** Bit k of a byte of flash: set exactly when it was set to begin with, or
      erased since, and every datum programmed there since has it set. */
  predicate BitShould(initial: byte, ops: seq<FlashOp>, a: nat, k: nat) {
    (WasErased(ops, a) || Bit(initial, k))
    && forall i :: 0 <= i < |SinceErase(ops, a)| ==> Bit(SinceErase(ops, a)[i], k)
  }

  lemma ErasedByLast(ops: seq<FlashOp>, op: FlashOp, a: nat)
    ensures WasErased(ops + [op], a) <==> WasErased(ops, a) || Covers(op, a)
  {
    var all := ops + [op];
    if WasErased(ops, a) {
      var i :| 0 <= i < |ops| && Covers(ops[i], a);
      assert Covers(all[i], a);
    }
    if Covers(op, a) { assert Covers(all[|ops|], a); }
    if WasErased(all, a) {
      var i :| 0 <= i < |all| && Covers(all[i], a);
      assert i < |ops| ==> Covers(ops[i], a);
    }
  }

  lemma AllBitsOfFF(k: nat)
    requires k < 8
    ensures Bit(0xFF, k)
  {
    assert Bit(0xFF, 0) && Bit(0xFF, 1) && Bit(0xFF, 2) && Bit(0xFF, 3);
    assert Bit(0x0F, 0) && Bit(0x0F, 1) && Bit(0x0F, 2) && Bit(0x0F, 3);
    if k >= 4 { FourUp(0xFF, k - 4); }
  }

  lemma FourUp(x: nat, k: nat)
    ensures Bit(x, k + 4) == Bit(x / 2 / 2 / 2 / 2, k)
  {
    assert Bit(x, k + 4) == Bit(x / 2, k + 3);
    assert Bit(x / 2, k + 3) == Bit(x / 2 / 2, k + 2);
    assert Bit(x / 2 / 2, k + 2) == Bit(x / 2 / 2 / 2, k + 1);
  }

  /** One operation on the byte at a. */
  lemma OpBit(initial: byte, ops: seq<FlashOp>, op: FlashOp, a: nat, k: nat, b: byte)
    requires k < 8 && (Bit(b, k) <==> BitShould(initial, ops, a, k))
    ensures var b' := if Covers(op, a) then 0xFF
                      else if op.Program? && op.addr == a then AndByte(b, op.data) else b;
            Bit(b', k) <==> BitShould(initial, ops + [op], a, k)
  {
    hide Bit;
    hide WasErased;
    hide SinceErase;
    ErasedByLast(ops, op, a);
    SinceLast(ops, op, a);
    var s := SinceErase(ops, a);
    if Covers(op, a) {
      AllBitsOfFF(k);
    } else if op.Program? && op.addr == a {
      AndBit(b, op.data, k);
      assert (s + [op.data])[|s|] == op.data;
      assert forall i :: 0 <= i < |s| ==> (s + [op.data])[i] == s[i];
    }
  }

  lemma SinceLast(ops: seq<FlashOp>, op: FlashOp, a: nat)
    ensures SinceErase(ops + [op], a) ==
            if Covers(op, a) then [] else if op.Program? && op.addr == a then SinceErase(ops, a) + [op.data]
            else SinceErase(ops, a)
  {
    assert (ops + [op])[..|ops + [op]| - 1] == ops;
  }

  lemma NextFlash(d: Iap, e: Event, a: nat)
    requires d.Ok() && Writable(d.p, a)
    ensures var i := IndexOf(d.p, a);
            var ops := OpsOf(d, e);
            |ops| <= 1
            && Next(d, e).flash[i] ==
               if ops == [] then d.flash[i]
               else if Covers(ops[0], a) then 0xFF
               else if ops[0].Program? && ops[0].addr == a then AndByte(d.flash[i], ops[0].data)
               else d.flash[i]
  {
    hide Bit;
    hide AndByte;
    if Commands(d, e) && Writable(d.p, Address(d)) { SectorInside(d.p, Address(d)); }
  }

  /** Flash after any events: every writable byte is its initial value, or FFh
      from the last erase of its sector, with all data programmed there since
      ANDed in, bit for bit. */
  lemma {:induction false} FlashClosedForm(d: Iap, events: seq<Event>, a: nat, k: nat)
    requires d.Ok() && Writable(d.p, a) && k < 8
    ensures var i := IndexOf(d.p, a);
            Bit(Run(d, events).flash[i], k) <==> BitShould(d.flash[i], Ops(d, events), a, k)
    decreases events
  {
    hide Bit;
    hide Next;
    hide OpsOf;
    hide BitShould;
    if events == [] {
      NoOps(d.flash[IndexOf(d.p, a)], a, k);
    } else {
      var before, e := events[..|events| - 1], events[|events| - 1];
      var m := Run(d, before);
      FlashClosedForm(d, before, a, k);
      NextFlash(m, e, a);
      var ops := OpsOf(m, e);
      if ops == [] {
        assert Ops(d, before) + [] == Ops(d, before);
      } else {
        assert ops == [ops[0]];
        OpBit(d.flash[IndexOf(d.p, a)], Ops(d, before), ops[0], a, k, m.flash[IndexOf(d.p, a)]);
      }
    }
  }

  lemma NoOps(b: byte, a: nat, k: nat)
    ensures Bit(b, k) <==> BitShould(b, [], a, k)
  {
    hide Bit;
  }

  function AndAll(b: byte, data: seq<byte>): byte {
    if data == [] then b else AndByte(AndAll(b, data[..|data| - 1]), data[|data| - 1])
  }

  lemma AndOneMore(b: byte, data: seq<byte>, x: byte)
    ensures AndAll(b, data + [x]) == AndByte(AndAll(b, data), x)
  {
    hide AndByte;
    assert (data + [x])[..|data|] == data;
  }

  lemma NeverErased(a: nat)
    ensures !WasErased([], a)
  {
  }

  /** The same for whole bytes: the initial value, or FFh once the sector has
      been erased, ANDed with all data programmed there since. */
  lemma {:induction false} FlashIsAndOfData(d: Iap, events: seq<Event>, a: nat)
    requires d.Ok() && Writable(d.p, a)
    ensures var i, ops := IndexOf(d.p, a), Ops(d, events);
            Run(d, events).flash[i] == AndAll(if WasErased(ops, a) then 0xFF else d.flash[i], SinceErase(ops, a))
    decreases events
  {
    hide Next;
    hide OpsOf;
    hide AndByte;
    hide WasErased;
    if events == [] {
      NeverErased(a);
    } else {
      var before, e := events[..|events| - 1], events[|events| - 1];
      var m := Run(d, before);
      FlashIsAndOfData(d, before, a);
      NextFlash(m, e, a);
      var ops, done := OpsOf(m, e), Ops(d, before);
      if ops == [] {
        assert done + [] == done;
      } else {
        assert ops == [ops[0]];
        ErasedByLast(done, ops[0], a);
        SinceLast(done, ops[0], a);
        hide SinceErase;
        if ops[0].Program? {
          var from := if WasErased(done, a) then 0xFF else d.flash[IndexOf(d.p, a)];
          AndOneMore(from, SinceErase(done, a), ops[0].data);
        }
      }
    }
  }

  /** Nothing outside the writable range ever changes. */
  lemma {:induction false} OutsideUnchanged(d: Iap, events: seq<Event>, i: nat)
    requires d.Ok() && d.p.programIsCode && i < FlashSize(d.p) && !Writable(d.p, i)
    ensures Run(d, events).flash[i] == d.flash[i]
    decreases events
  {
    hide Bit;
    hide AndByte;
    if events == [] {
    } else {
      var before, e := events[..|events| - 1], events[|events| - 1];
      OutsideUnchanged(d, before, i);
      NextOutside(Run(d, before), e, i);
    }
  }

  lemma NextOutside(d: Iap, e: Event, i: nat)
    requires d.Ok() && d.p.programIsCode && i < FlashSize(d.p) && !Writable(d.p, i)
    ensures Next(d, e).flash[i] == d.flash[i]
  {
    hide Bit;
    hide AndByte;
    if Commands(d, e) && Writable(d.p, Address(d)) { SectorInside(d.p, Address(d)); }
  }

  // ------------------------------------------------------------- the trigger

  /** The bytes the trigger has seen, a reset or power-on counting as a zero. */
  function TriggerOf(d: Iap, e: Event): seq<byte> {
    if e.Write? && e.offset == TRIG then [e.value]
    else if Resets(d, e) || e.PowerOn? then [0]
    else []
  }

  function Triggers(d: Iap, events: seq<Event>): seq<byte>
    requires d.Ok()
  {
    if events == [] then []
    else
      var before := events[..|events| - 1];
      Triggers(d, before) + TriggerOf(Run(d, before), events[|events| - 1])
  }

  /** Adjacent trig1, trig2 pairs in a sequence of trigger bytes. */
  function Pairs(p: Profile, t: seq<byte>): nat {
    if |t| < 2 then 0
    else Pairs(p, t[..|t| - 1]) + (if t[|t| - 2] == p.trig1 && t[|t| - 1] == p.trig2 then 1 else 0)
  }

  function Fired(d: Iap, events: seq<Event>): nat
    requires d.Ok()
  {
    if events == [] then 0
    else
      var before := events[..|events| - 1];
      Fired(d, before) + (if FiresOn(Run(d, before), events[|events| - 1]) then 1 else 0)
  }

  /** The last trigger byte as the automaton remembers it: a second byte that
      has fired is forgotten. */
  predicate Remembers(d: Iap, t: seq<byte>) {
    t != [] && (d.lastTrig == t[|t| - 1] || (d.lastTrig == 0 && t[|t| - 1] == d.p.trig2))
  }

  lemma PairsAppend(p: Profile, t: seq<byte>, b: byte)
    requires t != []
    ensures Pairs(p, t + [b]) == Pairs(p, t) + (if t[|t| - 1] == p.trig1 && b == p.trig2 then 1 else 0)
  {
    assert (t + [b])[..|t + [b]| - 1] == t;
  }

  lemma NextTrigger(d: Iap, e: Event, t: seq<byte>)
    requires d.Ok() && Remembers(d, t)
    ensures Remembers(Next(d, e), t + TriggerOf(d, e))
    ensures Pairs(d.p, t + TriggerOf(d, e)) == Pairs(d.p, t) + (if FiresOn(d, e) then 1 else 0)
  {
    hide Bit;
    hide AndByte;
    hide Pairs;
    var s := TriggerOf(d, e);
    if s == [] {
      assert t + s == t;
    } else {
      assert s == [s[0]];
      PairsAppend(d.p, t, s[0]);
    }
  }

  /** Commands fire exactly once for each adjacent trig1, trig2 pair written. */
  lemma {:induction false} FiresPerPair(d: Iap, events: seq<Event>)
    requires d.Ok() && d.lastTrig == 0
    ensures Fired(d, events) == Pairs(d.p, [0] + Triggers(d, events))
    ensures Remembers(Run(d, events), [0] + Triggers(d, events))
    decreases events
  {
    hide Next;
    hide FiresOn;
    hide TriggerOf;
    hide Pairs;
    if events == [] {
      assert [0] + [] == [0];
      NoPair(d.p);
    } else {
      var before, e := events[..|events| - 1], events[|events| - 1];
      FiresPerPair(d, before);
      var m := Run(d, before);
      NextTrigger(m, e, [0] + Triggers(d, before));
      assert [0] + (Triggers(d, before) + TriggerOf(m, e)) == [0] + Triggers(d, before) + TriggerOf(m, e);
    }
  }

  lemma NoPair(p: Profile)
    ensures Pairs(p, [0]) == 0
  {
  }

  // ------------------------------------------------------------- the counts

  function CommandCount(d: Iap, events: seq<Event>): nat
    requires d.Ok()
  {
    if events == [] then 0
    else
      var before := events[..|events| - 1];
      CommandCount(d, before) + (if Commands(Run(d, before), events[|events| - 1]) then 1 else 0)
  }

  function Total(s: Stats): nat { s.readCount + s.programs + s.erases + s.ignored }

  lemma NextTotal(d: Iap, e: Event)
    requires d.Ok()
    ensures Total(Next(d, e).stats) == Total(d.stats) + (if Commands(d, e) then 1 else 0)
  {
    hide Bit;
    hide AndByte;
    hide Erased;
    if Commands(d, e) && Writable(d.p, Address(d)) { SectorInside(d.p, Address(d)); }
  }

  /** Every enabled command with a nonzero code is counted exactly once. */
  lemma {:induction false} CountsConserved(d: Iap, events: seq<Event>)
    requires d.Ok()
    ensures Total(Run(d, events).stats) == Total(d.stats) + CommandCount(d, events)
    decreases events
  {
    hide Next;
    hide Commands;
    hide Total;
    if events == [] {
    } else {
      var before, e := events[..|events| - 1], events[|events| - 1];
      CountsConserved(d, before);
      NextTotal(Run(d, before), e);
    }
  }

  // ------------------------------------------------------------- the object

  class IapDevice {
    const p: Profile
    const sfr: array<byte>
    const flash: array<byte>
    var lastTrig: byte
    var pendingReset: nat
    var keepContr: byte
    var stats: Stats

    ghost predicate Valid()
      reads this
    {
      Usable(p) && sfr.Length == 6 && flash.Length == FlashSize(p) && sfr != flash
    }

    ghost function State(): (d: Iap)
      requires Valid()
      reads this, sfr, flash
      ensures d.Ok()
    {
      Iap(p, sfr[..], flash[..], lastTrig, pendingReset, keepContr, stats)
    }

    /** Erased flash reads FFh; nothing is enabled yet. */
    constructor (profile: Profile)
      requires Usable(profile)
      ensures Valid() && fresh(sfr) && fresh(flash) && p == profile
      ensures State() ==
              Iap(profile, seq(6, _ => 0), seq(FlashSize(profile), _ => 0xFF), 0, 0, 0, Stats(0, 0, 0, 0, 0, 0))
    {
      p := profile;
      sfr := new byte[6](_ => 0);
      flash := new byte[FlashSize(profile)](_ => 0xFF);
      lastTrig, pendingReset, keepContr, stats := 0, 0, 0, Stats(0, 0, 0, 0, 0, 0);
    }

    method EraseSector(start: nat)
      requires Valid() && start + SECTOR <= flash.Length
      modifies flash
      ensures flash[..] == Erased(old(flash[..]), start)
    {
      var i := 0;
      while i < SECTOR
        invariant 0 <= i <= SECTOR
        invariant forall k :: 0 <= k < flash.Length ==>
                    flash[k] == if start <= k < start + i then 0xFF else old(flash[k])
      {
        flash[start + i] := 0xFF;
        i := i + 1;
      }
    }

    method Execute()
      requires Valid()
      modifies this, sfr, flash
      ensures Valid() && State() == RunCommand(old(State()))
    {
      hide Erased;
      hide AndByte;
      var contr := sfr[CONTR];
      var h: int, l: int := sfr[ADDRH], sfr[ADDRL];
      var addr := 256 * h + l;
      var cmd := sfr[CMD] % 4;
      if contr < 0x80 { return; }
      if cmd == 0 { return; }
      if !Writable(p, addr) {
        stats := stats.(ignored := stats.ignored + 1);
        return;
      }
      if cmd == 1 {
        sfr[DATA] := flash[IndexOf(p, addr)];
        stats := stats.(readCount := stats.readCount + 1);
      } else if cmd == 2 {
        flash[IndexOf(p, addr)] := AndByte(flash[IndexOf(p, addr)], sfr[DATA]);
        stats := stats.(programs := stats.programs + 1);
      } else {
        var start := SectorStart(addr);
        if !Writable(p, start) || !Writable(p, start + SECTOR - 1) {
          stats := stats.(ignored := stats.ignored + 1);
          return;
        }
        EraseSector(IndexOf(p, start));
        stats := stats.(erases := stats.erases + 1);
      }
    }

    method OnTrigWrite(v: byte)
      requires Valid()
      modifies this, sfr, flash
      ensures Valid() && State() == OnTrig(old(State()), v)
    {
      hide RunCommand;
      if lastTrig == p.trig1 && v == p.trig2 {
        Execute();
        lastTrig := 0;
        return;
      }
      lastTrig := v;
    }

    method OnContrWrite(v: byte)
      requires Valid()
      modifies this
      ensures Valid() && State() == OnContr(old(State()), v)
    {
      hide Bit;
      keepContr := v / 64 * 64;
      if Bit(v, 5) {
        pendingReset := if Bit(v, 6) then 2 else 1;
      }
    }

    /** The CPU writing one of the registers: the byte is stored, then the bus
        tells the model. */
    method WriteSfr(offset: nat, v: byte)
      requires Valid()
      modifies this, sfr, flash
      ensures Valid() && State() == Next(old(State()), Write(offset, v))
    {
      hide OnTrig;
      hide OnContr;
      if offset >= 6 { return; }
      sfr[offset] := v;
      if offset == TRIG { OnTrigWrite(v); }
      if offset == CONTR { OnContrWrite(v); }
    }

    method OnPostTick(resetsCpu: bool)
      requires Valid()
      modifies this, sfr
      ensures Valid() && State() == Next(old(State()), PostTick(resetsCpu))
    {
      if pendingReset == 0 { return; }
      var keep := keepContr;
      if pendingReset == 2 {
        stats := stats.(ispEntries := stats.ispEntries + 1);
      } else {
        stats := stats.(softResets := stats.softResets + 1);
      }
      pendingReset := 0;
      if resetsCpu {
        sfr[DATA], sfr[ADDRH], sfr[ADDRL], sfr[CMD], sfr[TRIG], sfr[CONTR] := 0, 0, 0, 0, 0, 0;
      }
      sfr[CONTR] := keep;
      lastTrig := 0;
    }
  }
}
