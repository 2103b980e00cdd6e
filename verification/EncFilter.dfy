/** The receive filter by what it takes in: which destinations each enable bit
    stands for and how ANDOR combines them, and a driver that sets its station
    address and gets exactly its own frames and broadcasts. */
module EncFilter {
  import opened Bytes
  import opened EncCore
  import opened EncCommands
  import opened EncRegisters
  import opened EncRing

  const ALL_ONES: seq<byte> := [0xFF, 0xFF, 0xFF, 0xFF, 0xFF, 0xFF]

  /** The station address as the six registers of bank 3 hold it: 04h, 05h, 02h,
      03h, 00h, 01h. */
  function Station(regs: RegFile): seq<byte> {
    [regs[85], regs[86], regs[83], regs[84], regs[81], regs[82]]
  }

  lemma FilterBits(fc: byte)
    ensures Bit(fc, 7) == (fc >= 128) && Bit(fc, 6) == (fc / 64 % 2 == 1)
    ensures Bit(fc, 1) == (fc / 2 % 2 == 1) && Bit(fc, 0) == (fc % 2 == 1)
    ensures Bit(fc, 2) == (fc / 4 % 2 == 1) && Bit(fc, 3) == (fc / 8 % 2 == 1) && Bit(fc, 4) == (fc / 16 % 2 == 1)
  {
    hide Bit;
    hide Pow2;
    FilterPowers();
    BitIsQuotient(fc, 0);
    BitIsQuotient(fc, 7);
    BitIsQuotient(fc, 6);
    BitIsQuotient(fc, 4);
    BitIsQuotient(fc, 3);
    BitIsQuotient(fc, 2);
    BitIsQuotient(fc, 1);
  }

  lemma FilterPowers()
    ensures Pow2(0) == 1 && Pow2(1) == 2 && Pow2(2) == 4 && Pow2(3) == 8
    ensures Pow2(4) == 16 && Pow2(6) == 64 && Pow2(7) == 128
  {
  }

  lemma Destinations(regs: RegFile, f: seq<byte>)
    requires |f| >= 6
    ensures Unicast(regs, f) <==> f[..6] == Station(regs)
    ensures Broadcast(f) <==> f[..6] == ALL_ONES
    ensures Multicast(f) <==> f[0] % 2 == 1 && f[..6] != ALL_ONES
  {
    var d := f[..6];
    assert d == [f[0], f[1], f[2], f[3], f[4], f[5]];
    if Unicast(regs, f) {
      assert f[0] == regs[AddressSlot(0)] && f[1] == regs[AddressSlot(1)] && f[2] == regs[AddressSlot(2)];
      assert f[3] == regs[AddressSlot(3)] && f[4] == regs[AddressSlot(4)] && f[5] == regs[AddressSlot(5)];
    }
    if Broadcast(f) {
      assert f[0] == 0xFF && f[1] == 0xFF && f[2] == 0xFF && f[3] == 0xFF && f[4] == 0xFF && f[5] == 0xFF;
    }
    if d == ALL_ONES { forall i | 0 <= i < 6 ensures f[i] == 0xFF { assert f[i] == d[i] == ALL_ONES[i]; } }
    if d == Station(regs) {
      forall i | 0 <= i < 6 ensures f[i] == regs[AddressSlot(i)] { assert f[i] == d[i] == Station(regs)[i]; }
    }
  }

  // --------------------------------------------------------- one bit alone

  lemma OrMode(regs: RegFile, f: seq<byte>)
    requires |f| >= 6 && regs[ERXFCON] != 0 && regs[ERXFCON] / 64 % 2 == 0
    ensures var fc := regs[ERXFCON];
            Accepts(regs, f) <==>
            || (fc >= 128 && f[..6] == Station(regs)) || (fc % 2 == 1 && f[..6] == ALL_ONES)
            || (fc / 2 % 2 == 1 && f[0] % 2 == 1 && f[..6] != ALL_ONES)
  {
    hide Bit;
    hide Unicast;
    hide Broadcast;
    hide Multicast;
    hide Station;
    FilterBits(regs[ERXFCON]);
    Destinations(regs, f);
  }

  /** UCEN alone, OR mode: the station's address, whatever else is in the frame. */
  lemma UnicastAlone(regs: RegFile, f: seq<byte>)
    requires |f| >= 6
    requires var fc := regs[ERXFCON]; fc >= 128 && fc / 64 % 2 == 0 && fc % 4 == 0
    ensures Accepts(regs, f) <==> f[..6] == Station(regs)
  {
    hide Accepts;
    hide Station;
    OrMode(regs, f);
  }

  /** BCEN alone: the address of all ones. */
  lemma BroadcastAlone(regs: RegFile, f: seq<byte>)
    requires |f| >= 6
    requires var fc := regs[ERXFCON]; fc < 128 && fc / 64 % 2 == 0 && fc % 4 == 1
    ensures Accepts(regs, f) <==> f[..6] == ALL_ONES
  {
    hide Accepts;
    hide Station;
    OrMode(regs, f);
  }

  /** MCEN alone: a group address that is not all ones. */
  lemma MulticastAlone(regs: RegFile, f: seq<byte>)
    requires |f| >= 6
    requires var fc := regs[ERXFCON]; fc < 128 && fc / 64 % 2 == 0 && fc % 4 == 2
    ensures Accepts(regs, f) <==> f[0] % 2 == 1 && f[..6] != ALL_ONES
  {
    hide Accepts;
    hide Station;
    OrMode(regs, f);
  }

  // ------------------------------------------------------- bits together

  /** The filter with only the bits of fc. */
  function Only(regs: RegFile, fc: byte): RegFile { regs[ERXFCON := fc] }

  lemma SameStation(regs: RegFile, fc: byte)
    ensures Station(Only(regs, fc)) == Station(regs) && Only(regs, fc)[ERXFCON] == fc
  {
  }

  /** In OR mode, what some enabled bit takes in alone. */
  lemma UnionOfKinds(regs: RegFile, f: seq<byte>)
    requires |f| >= 6 && regs[ERXFCON] != 0 && regs[ERXFCON] / 64 % 2 == 0
    ensures var fc := regs[ERXFCON];
            Accepts(regs, f) <==>
            || (fc >= 128 && Accepts(Only(regs, 0x80), f))
            || (fc % 2 == 1 && Accepts(Only(regs, 0x01), f))
            || (fc / 2 % 2 == 1 && Accepts(Only(regs, 0x02), f))
  {
    hide Accepts;
    hide Only;
    hide Station;
    ThreeKinds(regs, f);
    OrMode(regs, f);
  }

  /** In AND mode, what every enabled bit takes in alone; and nothing if the
      pattern, magic packet or hash filter is on. */
  lemma IntersectionOfKinds(regs: RegFile, f: seq<byte>)
    requires |f| >= 6 && regs[ERXFCON] / 64 % 2 == 1
    ensures var fc := regs[ERXFCON];
            Accepts(regs, f) <==>
            && (fc >= 128 ==> Accepts(Only(regs, 0x80), f))
            && (fc % 2 == 1 ==> Accepts(Only(regs, 0x01), f))
            && (fc / 2 % 2 == 1 ==> Accepts(Only(regs, 0x02), f))
            && fc / 4 % 2 == 0 && fc / 8 % 2 == 0 && fc / 16 % 2 == 0
  {
    ThreeKinds(regs, f);
    FilterBits(regs[ERXFCON]);
    Destinations(regs, f);
    hide Bit;
    hide Unicast;
    hide Only;
  }

  lemma ThreeKinds(regs: RegFile, f: seq<byte>)
    requires |f| >= 6
    ensures Accepts(Only(regs, 0x80), f) <==> f[..6] == Station(regs)
    ensures Accepts(Only(regs, 0x01), f) <==> f[..6] == ALL_ONES
    ensures Accepts(Only(regs, 0x02), f) <==> f[0] % 2 == 1 && f[..6] != ALL_ONES
  {
    hide Accepts;
    SameStation(regs, 0x80);
    SameStation(regs, 0x01);
    SameStation(regs, 0x02);
    UnicastAlone(Only(regs, 0x80), f);
    BroadcastAlone(Only(regs, 0x01), f);
    MulticastAlone(Only(regs, 0x02), f);
  }

  /** No bit at all: everything. */
  lemma Promiscuous(regs: RegFile, f: seq<byte>)
    requires |f| >= 6 && regs[ERXFCON] == 0
    ensures Accepts(regs, f)
  {
  }

  // ------------------------------------------------------------ refusals

  /** Why a frame is refused before the filter is asked: its length, whatever
      state the receiver is in; then RXEN clear or no ring. What the filter and
      the room decide comes after. */
  lemma Refusals(c: Core, f: seq<byte>)
    ensures Screened(c, f) == RxBadLength <==> |f| < 14 || |f| > 1532
    ensures Screened(c, f) == RxDisabled <==>
            14 <= |f| <= 1532 && (!Bit(c.regs[ECON1], 2) || Nd(c) <= St(c))
    ensures Screened(c, f) == RxFiltered <==>
            14 <= |f| <= 1532 && Bit(c.regs[ECON1], 2) && Nd(c) > St(c) && !Accepts(c.regs, f)
    ensures Screened(c, f) in {RxBadLength, RxDisabled, RxFiltered} ==> Inject(c, f) == (c, Screened(c, f))
  {
    hide Bit;
    hide Accepts;
    hide Pair;
    hide UsedSpace;
  }

  // ----------------------------------------------- a station of its own

  /** The station address set: bank 3, its six registers in the order of the
      wire, back to bank 0. */
  function StationSet(c: Core, mac: seq<byte>): Core
    requires |mac| == 6
  {
    var c0 := Command(c, [OP_WCR + REG_ECON1, 3]);
    var c1 := Command(Command(c0, [OP_WCR + 0x04, mac[0]]), [OP_WCR + 0x05, mac[1]]);
    var c2 := Command(Command(c1, [OP_WCR + 0x02, mac[2]]), [OP_WCR + 0x03, mac[3]]);
    var c3 := Command(Command(c2, [OP_WCR + 0x00, mac[4]]), [OP_WCR + 0x01, mac[5]]);
    Command(c3, [OP_WCR + REG_ECON1, 0])
  }

  lemma WriteInBankThree(c: Core, a: byte, v: byte)
    requires c.regs[ECON1] == 3 && a < 6
    ensures var r := Command(c, [OP_WCR + a, v]);
            r.regs == c.regs[81 + a := v] && r.buf == c.buf && r.rxWr == c.rxWr && r.log == c.log
  {
    hide Command;
    WriteRegister(c, OP_WCR, a, v);
  }

  lemma StationRegisters(c: Core, mac: seq<byte>)
    requires |mac| == 6
    ensures var r := StationSet(c, mac);
            && r.buf == c.buf && r.rxWr == c.rxWr && r.log == c.log
            && Station(r.regs) == mac && r.regs[ECON1] == 0
            && forall i :: 0 <= i < 113 && !(81 <= i < 87) && i != ECON1 ==> r.regs[i] == c.regs[i]
  {
    hide Command;
    SelectBank(c, 3);
    var c0 := Command(c, [OP_WCR + REG_ECON1, 3]);
    WriteInBankThree(c0, 4, mac[0]);
    var d0 := Command(c0, [OP_WCR + 0x04, mac[0]]);
    WriteInBankThree(d0, 5, mac[1]);
    var c1 := Command(d0, [OP_WCR + 0x05, mac[1]]);
    WriteInBankThree(c1, 2, mac[2]);
    var d1 := Command(c1, [OP_WCR + 0x02, mac[2]]);
    WriteInBankThree(d1, 3, mac[3]);
    var c2 := Command(d1, [OP_WCR + 0x03, mac[3]]);
    WriteInBankThree(c2, 0, mac[4]);
    var d2 := Command(c2, [OP_WCR + 0x00, mac[4]]);
    WriteInBankThree(d2, 1, mac[5]);
    SelectBank(Command(d2, [OP_WCR + 0x01, mac[5]]), 0);
  }

  /** The registers that matter to the ring are the same. */
  predicate SameRing(c: Core, d: Core) {
    && d.buf == c.buf && d.rxWr == c.rxWr
    && (forall i :: 0 <= i < 27 ==> d.regs[i] == c.regs[i])
    && d.regs[EPKTCNT] == c.regs[EPKTCNT] && d.regs[EIR] == c.regs[EIR]
  }

  lemma SameRingTracks(c: Core, d: Core, q: seq<Frame>)
    requires Tracks(c, q) && SameRing(c, d) && Bank(d.regs) == 0
    ensures Tracks(d, q) && St(d) == St(c) && Nd(d) == Nd(c)
  {
    hide Chain;
    hide Turn;
    hide Used;
    hide Bit;
    hide Pair;
    SamePointers(c, d);
  }

  lemma SamePointers(c: Core, d: Core)
    requires SameRing(c, d)
    ensures St(d) == St(c) && Nd(d) == Nd(c) && Rd(d) == Rd(c)
  {
  }

  /** The whole start of a driver: reset, the ring, the station address, RXEN. */
  function Started(c: Core, st: nat, nd: nat, mac: seq<byte>): Core
    requires st < BUFFER_SIZE && nd < BUFFER_SIZE && |mac| == 6
  {
    Command(StationSet(SetUp(c, st, nd), mac), [OP_BFS + REG_ECON1, 0x04])
  }

  /** The filter as a reset leaves it, A1h: the station's own address and
      broadcasts are taken in as long as there is room, anything else is not. */
  lemma VerdictAfterReset(regs: RegFile, q: seq<Frame>, f: Frame)
    requires regs[ERXFCON] == 0xA1 && Bit(regs[ECON1], 2)
    ensures Verdict(regs, q, f) ==
            if f[..6] != Station(regs) && f[..6] != ALL_ONES then RxFiltered
            else if Used(q) + Need(|f|) >= RingSize(regs) then RxOverflow
            else RxOk
  {
    hide Accepts;
    hide Used;
    hide Need;
    hide RingSize;
    UnionOfKinds(regs, f);
    ThreeKinds(regs, f);
    hide Bit;
  }

  lemma NoTransmission()
    ensures !Bit(0, 3)
  {
    ZeroBits(3);
  }

  /** From whatever state: after that start the ring is empty and tracks, and the
      chip answers RxOk to exactly the frames addressed to the station or to
      everyone that its ring has room for, RxOverflow to the others so
      addressed and RxFiltered to all the rest. */
  lemma StationReady(c: Core, st: nat, nd: nat, mac: seq<byte>)
    requires st < nd < BUFFER_SIZE && st % 2 == 0 && nd % 2 == 1 && |mac| == 6
    ensures var r := Started(c, st, nd, mac);
            && Tracks(r, []) && St(r) == st && Nd(r) == nd && Bit(r.regs[ECON1], 2)
            && forall f: Frame ::
                 Verdict(r.regs, [], f) ==
                 if f[..6] != mac && f[..6] != ALL_ONES then RxFiltered
                 else if Need(|f|) >= nd - st + 1 then RxOverflow
                 else RxOk
  {
    hide SetUp;
    hide StationSet;
    hide Command;
    hide Tracks;
    hide Verdict;
    hide Bit;
    hide Need;
    hide Pair;
    var c1 := SetUp(c, st, nd);
    var c2 := StationSet(c1, mac);
    var r := Started(c, st, nd, mac);
    SetUpTracks(c, st, nd);
    StationRegisters(c1, mac);
    SameRingTracks(c1, c2, []);
    NoTransmission();
    EnableKeepsQueue(c2, []);
    forall f: Frame
      ensures Verdict(r.regs, [], f) ==
              if f[..6] != mac && f[..6] != ALL_ONES then RxFiltered
              else if Need(|f|) >= nd - st + 1 then RxOverflow
              else RxOk
    {
      VerdictAfterReset(r.regs, [], f);
    }
  }
}
