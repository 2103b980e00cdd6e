/** The flash as a driver uses it: six register writes carry out one command,
    and erasing, programming and reading a byte gives the byte. */
module IapDriver {
  import opened Bytes
  import opened IapFlash

  /** One command: its code, the address, the data, the two trigger bytes, at the
      offsets of their registers. */
  function Transaction(p: Profile, code: byte, high: byte, low: byte, data: byte): seq<Event> {
    [Write(3, code), Write(1, high), Write(2, low), Write(0, data), Write(4, p.trig1), Write(4, p.trig2)]
  }

  lemma {:induction false} RunSplit(d: Iap, a: seq<Event>, b: seq<Event>)
    requires d.Ok()
    ensures Run(d, a + b) == Run(Run(d, a), b)
    decreases b
  {
    hide Next;
    if b == [] {
      assert a + b == a;
    } else {
      assert (a + b)[..|a + b| - 1] == a + b[..|b| - 1];
      RunSplit(d, a, b[..|b| - 1]);
    }
  }

  lemma RunOne(d: Iap, e: Event)
    requires d.Ok()
    ensures Run(d, [e]) == Next(d, e)
  {
    hide Next;
    assert [e][..0] == [];
  }

  lemma WriteStored(d: Iap, offset: nat, v: byte)
    requires d.Ok() && offset < 4
    ensures Next(d, Write(offset, v)) == d.(sfr := d.sfr[offset := v])
  {
  }

  function Target(high: byte, low: byte): nat { 256 * high + low }

  /** The registers as the first five writes leave them. */
  function Loaded(d: Iap, code: byte, high: byte, low: byte, data: byte): (r: Iap)
    requires d.Ok()
    ensures r.Ok()
  {
    d.(sfr := [data, high, low, code, d.p.trig1, d.sfr[5]], lastTrig := d.p.trig1)
  }

  lemma FirstTrigger(d: Iap)
    requires d.Ok()
    ensures Next(d, Write(4, d.p.trig1)) == d.(sfr := d.sfr[4 := d.p.trig1], lastTrig := d.p.trig1)
  {
    hide RunCommand;
  }

  lemma SecondTrigger(d: Iap)
    requires d.Ok() && d.lastTrig == d.p.trig1
    ensures Next(d, Write(4, d.p.trig2)) == RunCommand(d.(sfr := d.sfr[4 := d.p.trig2])).(lastTrig := 0)
  {
    hide RunCommand;
  }

  /** The device as the second trigger byte finds it. */
  function Armed(d: Iap, code: byte, high: byte, low: byte, data: byte): (r: Iap)
    requires d.Ok()
    ensures r.Ok() && r.p == d.p && r.flash == d.flash && r.stats == d.stats
    ensures r.sfr == [data, high, low, code, d.p.trig2, d.sfr[5]]
    ensures Address(r) == Target(high, low) && Code(r) == code % 4 && (Enabled(r) <==> d.sfr[5] >= 0x80)
  {
    var m := Loaded(d, code, high, low, data);
    m.(sfr := m.sfr[4 := d.p.trig2])
  }

  lemma TransactionRuns(d: Iap, code: byte, high: byte, low: byte, data: byte)
    requires d.Ok()
    ensures Run(d, Transaction(d.p, code, high, low, data)) ==
            RunCommand(Armed(d, code, high, low, data)).(lastTrig := 0)
  {
    hide Next;
    hide Run;
    hide RunCommand;
    var t := Transaction(d.p, code, high, low, data);
    var d1 := Next(d, t[0]);
    var d2 := Next(d1, t[1]);
    var d3 := Next(d2, t[2]);
    var d4 := Next(d3, t[3]);
    WriteStored(d, 3, code);
    WriteStored(d1, 1, high);
    WriteStored(d2, 2, low);
    WriteStored(d3, 0, data);
    FirstTrigger(d4);
    var m := Next(d4, t[4]);
    assert m.sfr == [data, high, low, code, d.p.trig1, d.sfr[5]];
    SecondTrigger(m);
    SixEvents(d, t);
  }

  lemma SixEvents(d: Iap, t: seq<Event>)
    requires d.Ok() && |t| == 6
    ensures Run(d, t) == Next(Next(Next(Next(Next(Next(d, t[0]), t[1]), t[2]), t[3]), t[4]), t[5])
  {
    hide Next;
    assert Run(d, t[..0]) == d;
    assert t[..1][..0] == t[..0] && t[..2][..1] == t[..1] && t[..3][..2] == t[..2];
    assert t[..4][..3] == t[..3] && t[..5][..4] == t[..4] && t[..6] == t;
    assert Run(d, t[..1]) == Next(d, t[0]);
    assert Run(d, t[..2]) == Next(Run(d, t[..1]), t[1]);
    assert Run(d, t[..3]) == Next(Run(d, t[..2]), t[2]);
    assert Run(d, t[..4]) == Next(Run(d, t[..3]), t[3]);
    assert Run(d, t[..5]) == Next(Run(d, t[..4]), t[4]);
  }

  /** A read: the byte at the address is in DATA, the flash is untouched and one
      read counted. */
  lemma ReadTransaction(d: Iap, code: byte, high: byte, low: byte, data: byte)
    requires d.Ok() && d.sfr[5] >= 0x80 && code % 4 == 1 && Writable(d.p, Target(high, low))
    ensures var r := Run(d, Transaction(d.p, code, high, low, data));
            && r.sfr == [d.flash[IndexOf(d.p, Target(high, low))], high, low, code, d.p.trig2, d.sfr[5]]
            && r.flash == d.flash && r.stats == d.stats.(readCount := d.stats.readCount + 1)
  {
    hide Run;
    hide Armed;
    hide Address;
    hide Code;
    hide Enabled;
    hide Transaction;
    TransactionRuns(d, code, high, low, data);
  }

  /** A program command: the data ANDed into the byte at the address and no other. */
  lemma ProgramTransaction(d: Iap, code: byte, high: byte, low: byte, data: byte)
    requires d.Ok() && d.sfr[5] >= 0x80 && code % 4 == 2 && Writable(d.p, Target(high, low))
    ensures var r := Run(d, Transaction(d.p, code, high, low, data));
            var i := IndexOf(d.p, Target(high, low));
            && r.flash == d.flash[i := AndByte(d.flash[i], data)]
            && r.sfr == [data, high, low, code, d.p.trig2, d.sfr[5]]
            && r.stats == d.stats.(programs := d.stats.programs + 1)
  {
    hide Run;
    hide Armed;
    hide Address;
    hide Code;
    hide Enabled;
    hide Transaction;
    TransactionRuns(d, code, high, low, data);
    hide AndByte;
  }

  /** An erase command: the 512 bytes of the address's sector are FFh, every other byte
      as it was. */
  lemma EraseTransaction(d: Iap, code: byte, high: byte, low: byte, data: byte)
    requires d.Ok() && d.sfr[5] >= 0x80 && code % 4 == 3 && Writable(d.p, Target(high, low))
    ensures var r := Run(d, Transaction(d.p, code, high, low, data));
            && (forall a: nat :: Writable(d.p, a) ==>
                  r.flash[IndexOf(d.p, a)] ==
                  if a / 512 == Target(high, low) / 512 then 0xFF else d.flash[IndexOf(d.p, a)])
            && r.sfr == [data, high, low, code, d.p.trig2, d.sfr[5]]
            && r.stats == d.stats.(erases := d.stats.erases + 1)
  {
    hide Run;
    hide Armed;
    hide Address;
    hide Code;
    hide Enabled;
    hide Transaction;
    TransactionRuns(d, code, high, low, data);
    hide AndByte;
    var at := Target(high, low);
    SectorInside(d.p, at);
    forall a: nat | Writable(d.p, a)
      ensures SectorStart(at) <= a < SectorStart(at) + SECTOR <==> a / 512 == at / 512
    {
      SameSector(a, at);
    }
  }

  lemma SameSector(a: nat, b: nat)
    ensures SectorStart(b) <= a < SectorStart(b) + SECTOR <==> a / 512 == b / 512
  {
    DivMod(a, 512);
    DivMod(b, 512);
  }

  /** A command that is disabled or 0 does nothing; one outside the range is
      counted as ignored and does nothing more. */
  lemma RefusedTransaction(d: Iap, code: byte, high: byte, low: byte, data: byte)
    requires d.Ok()
    requires d.sfr[5] < 0x80 || code % 4 == 0 || !Writable(d.p, Target(high, low))
    ensures var r := Run(d, Transaction(d.p, code, high, low, data));
            && r.flash == d.flash && r.sfr == [data, high, low, code, d.p.trig2, d.sfr[5]]
            && r.stats == if d.sfr[5] < 0x80 || code % 4 == 0 then d.stats
                          else d.stats.(ignored := d.stats.ignored + 1)
  {
    hide Run;
    hide Armed;
    hide Address;
    hide Code;
    hide Enabled;
    hide Transaction;
    TransactionRuns(d, code, high, low, data);
    hide AndByte;
    hide Erased;
  }

  lemma AndOfOnes(b: byte)
    ensures AndByte(0xFF, b) == b
  {
    assert Pow2(8) == 256;
    forall k | 0 <= k < 8 ensures Bit(AndByte(0xFF, b), k) == Bit(b, k) {
      AndBit(0xFF, b, k);
      AllBitsOfFF(k);
    }
    hide Bit;
    BitsDetermine(AndByte(0xFF, b), b, 8);
  }

  /** Erase, program and read at one address: the byte programmed comes back. */
  lemma EraseProgramRead(d: Iap, high: byte, low: byte, data: byte, x: byte, y: byte)
    requires d.Ok() && d.sfr[5] >= 0x80 && Writable(d.p, Target(high, low))
    ensures var erase := Transaction(d.p, 3, high, low, x);
            var program := Transaction(d.p, 2, high, low, data);
            var read := Transaction(d.p, 1, high, low, y);
            Run(d, erase + program + read).sfr[0] == data
  {
    hide Run;
    hide AndByte;
    var erase := Transaction(d.p, 3, high, low, x);
    var program := Transaction(d.p, 2, high, low, data);
    var read := Transaction(d.p, 1, high, low, y);
    RunSplit(d, erase + program, read);
    RunSplit(d, erase, program);
    EraseTransaction(d, 3, high, low, x);
    ProgramTransaction(Run(d, erase), 2, high, low, data);
    ReadTransaction(Run(Run(d, erase), program), 1, high, low, y);
    AndOfOnes(data);
  }

  // -------------------------------------------------------------- resets

  /** CONTR with bit 5 set asks for a reset, into the loader if bit 6 is set too;
      the end of the tick carries it out, counts it and keeps bits 6 and 7. */
  lemma ResetAsked(d: Iap, v: byte, resetsCpu: bool)
    requires d.Ok() && d.pendingReset == 0
    ensures var r := Run(d, [Write(5, v), PostTick(resetsCpu)]);
            if v / 32 % 2 == 0 then r == d.(sfr := d.sfr[5 := v], keepContr := v / 64 * 64)
            else
              && r.pendingReset == 0 && r.sfr[5] == v / 64 * 64 && r.flash == d.flash && r.lastTrig == 0
              && (forall i :: 0 <= i < 5 ==> r.sfr[i] == if resetsCpu then 0 else d.sfr[i])
              && r.stats == if v / 64 % 2 == 1 then d.stats.(ispEntries := d.stats.ispEntries + 1)
                            else d.stats.(softResets := d.stats.softResets + 1)
  {
    ResetBits(v);
    hide Bit;
    var t := [Write(5, v), PostTick(resetsCpu)];
    assert t[..1] == [t[0]] && t[..1][..0] == [];
    assert Run(d, []) == d;
    assert Run(d, t[..1]) == Next(d, t[0]);
    hide RunCommand;
  }

  lemma ResetBits(v: byte)
    ensures Bit(v, 5) <==> v / 32 % 2 == 1
    ensures Bit(v, 6) <==> v / 64 % 2 == 1
  {
    assert Pow2(5) == 32 && Pow2(6) == 64;
    hide Bit;
    BitIsQuotient(v, 5);
    BitIsQuotient(v, 6);
  }
}
