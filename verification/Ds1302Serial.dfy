/** The DS1302's three-wire interface, bit by bit. */
module Ds1302Serial {
  import opened Bytes
  import opened Ds1302Clock

  datatype Phase = Idle | Command | Writing | Reading

  const BURST := 0x1F

  datatype Device = Device(
    regs: Registers, lastCe: bool, lastSclk: bool, phase: Phase, bitcount: nat, curByte: byte,
    addrField: nat, burstIndex: nat, dataByte: byte, readBit: bool, skipNextFalling: bool)

  // ------------------------------------------------------------ the device

  function OnCe(d: Device, ce: bool): Device {
    var d := if ce && !d.lastCe then d.(phase := Command, bitcount := 0, curByte := 0)
             else if !ce && d.lastCe then d.(phase := Idle)
             else d;
    d.(lastCe := ce)
  }

  /** A register, or 0 outside the eight. */
  function RegisterAt(regs: Registers, i: nat): byte { if i < 8 then regs[i] else 0 }

  function DecodeCommand(d: Device): Device {
    var addr := d.curByte / 2 % 32;
    if d.curByte % 2 == 1 then
      var b := RegisterAt(d.regs, if addr == BURST then 0 else addr);
      d.(addrField := addr, burstIndex := 0, phase := Reading, bitcount := 0, dataByte := b,
         readBit := Bit(b, 0), skipNextFalling := true)
    else
      d.(addrField := addr, burstIndex := 0, phase := Writing, bitcount := 0, curByte := 0)
  }

  function StoreByte(d: Device): Device {
    var i := if d.addrField == BURST then d.burstIndex else d.addrField;
    var d := if i < 8 then d.(regs := d.regs[i := d.curByte]) else d;
    if d.addrField == BURST && d.burstIndex < 7 then d.(burstIndex := d.burstIndex + 1, bitcount := 0, curByte := 0)
    else d
  }

  /** SCLK rising with CE up. */
  function Rise(d: Device, io: bool): Device {
    if d.phase == Command || d.phase == Writing then
      var cur := if io && d.bitcount < 8 then OrByte(d.curByte, Pow2Byte(d.bitcount)) else d.curByte;
      var d := d.(curByte := cur, bitcount := d.bitcount + 1);
      if d.bitcount != 8 then d
      else if d.phase == Command then DecodeCommand(d)
      else StoreByte(d)
    else d
  }

  /** SCLK falling with CE up. */
  function Fall(d: Device): Device {
    if d.phase != Reading then d
    else if d.skipNextFalling then d.(skipNextFalling := false)
    else if d.bitcount < 7 then d.(bitcount := d.bitcount + 1, readBit := Bit(d.dataByte, d.bitcount + 1))
    else if d.addrField == BURST && d.burstIndex < 7 then
      var b := RegisterAt(d.regs, d.burstIndex + 1);
      d.(burstIndex := d.burstIndex + 1, dataByte := b, bitcount := 0, readBit := Bit(b, 0))
    else d
  }

  function OnSclk(d: Device, sclk: bool, io: bool): Device {
    var d := if !d.lastCe then d
             else if sclk && !d.lastSclk then Rise(d, io)
             else if !sclk && d.lastSclk then Fall(d)
             else d;
    d.(lastSclk := sclk)
  }

  datatype Pins = Pins(ce: bool, sclk: bool, io: bool)

  /** One write to the port the pins are on: both callbacks run. */
  function PortWrite(d: Device, p: Pins): Device {
    OnSclk(OnCe(d, p.ce), p.sclk, p.io)
  }

  function Wave(d: Device, wave: seq<Pins>): Device
    decreases wave
  {
    if wave == [] then d else Wave(PortWrite(d, wave[0]), wave[1..])
  }

  // ----------------------------------------------------- the wave's edges

  /** What a port write does to the pins. */
  datatype Edge = CeUp | CeDown | ClockUp(io: bool) | ClockDown

  function EdgesOf(ce: bool, sclk: bool, p: Pins): seq<Edge> {
    (if p.ce && !ce then [CeUp] else if !p.ce && ce then [CeDown] else [])
    + (if p.sclk && !sclk then [ClockUp(p.io)] else if !p.sclk && sclk then [ClockDown] else [])
  }

  function Edges(ce: bool, sclk: bool, wave: seq<Pins>): seq<Edge>
    decreases wave
  {
    if wave == [] then []
    else EdgesOf(ce, sclk, wave[0]) + Edges(wave[0].ce, wave[0].sclk, wave[1..])
  }

  function OnEdge(d: Device, e: Edge): Device {
    match e
    case CeUp => OnCe(d, true)
    case CeDown => OnCe(d, false)
    case ClockUp(io) => OnSclk(d, true, io)
    case ClockDown => OnSclk(d, false, false)
  }

  function Run(d: Device, edges: seq<Edge>): Device
    decreases edges
  {
    if edges == [] then d else Run(OnEdge(d, edges[0]), edges[1..])
  }

  /** Traffic on a shared port that changes neither CE nor SCLK does nothing. */
  lemma IdleWrite(d: Device, p: Pins)
    requires p.ce == d.lastCe && p.sclk == d.lastSclk
    ensures PortWrite(d, p) == d
  {
  }

  lemma {:induction false} RunAppend(d: Device, a: seq<Edge>, b: seq<Edge>)
    ensures Run(d, a + b) == Run(Run(d, a), b)
    decreases a
  {
    hide OnEdge;
    if a == [] {
      assert a + b == b;
    } else {
      assert (a + b)[1..] == a[1..] + b;
      RunAppend(OnEdge(d, a[0]), a[1..], b);
    }
  }

  lemma TwoEdges(d: Device, e: Edge, f: Edge)
    ensures Run(d, [e, f]) == OnEdge(OnEdge(d, e), f)
  {
    hide OnEdge;
    assert [e, f][1..] == [f] && [f][1..] == [];
    assert Run(OnEdge(d, e), [f]) == Run(OnEdge(OnEdge(d, e), f), []);
  }

  lemma OneEdge(d: Device, e: Edge)
    ensures Run(d, [e]) == OnEdge(d, e)
  {
    hide OnEdge;
    assert [e][1..] == [];
    assert Run(OnEdge(d, e), []) == OnEdge(d, e);
  }

  lemma WriteIsEdges(d: Device, p: Pins)
    ensures PortWrite(d, p) == Run(d, EdgesOf(d.lastCe, d.lastSclk, p))
    ensures PortWrite(d, p).lastCe == p.ce && PortWrite(d, p).lastSclk == p.sclk
  {
    hide Rise;
    hide Fall;
    hide DecodeCommand;
    hide Run;
    var e := EdgesOf(d.lastCe, d.lastSclk, p);
    if |e| == 2 {
      TwoEdges(d, e[0], e[1]);
      assert e == [e[0], e[1]];
    } else if |e| == 1 {
      OneEdge(d, e[0]);
      assert e == [e[0]];
    } else {
      assert e == [];
      RunNothing(d);
    }
    RisesKeepPins(OnCe(d, p.ce), p.io);
  }

  lemma RunNothing(d: Device)
    ensures Run(d, []) == d
  {
  }

  lemma RisesKeepPins(d: Device, io: bool)
    ensures Rise(d, io).lastCe == d.lastCe && Fall(d).lastCe == d.lastCe
  {
  }

  /** Any port writes at all act on the device exactly as their edges do. */
  lemma {:induction false} WaveIsEdges(d: Device, wave: seq<Pins>)
    ensures Wave(d, wave) == Run(d, Edges(d.lastCe, d.lastSclk, wave))
    decreases wave
  {
    hide PortWrite;
    hide EdgesOf;
    hide OnEdge;
    if wave == [] {
    } else {
      var p := wave[0];
      WriteIsEdges(d, p);
      RunAppend(d, EdgesOf(d.lastCe, d.lastSclk, p), Edges(p.ce, p.sclk, wave[1..]));
      WaveIsEdges(PortWrite(d, p), wave[1..]);
    }
  }

  // ------------------------------------------------------- bytes in and out

  /** The first k bits of b clocked out by the host, least significant first. */
  function Pulses(b: byte, k: nat): seq<Edge> {
    if k == 0 then [] else Pulses(b, k - 1) + [ClockUp(Bit(b, k - 1)), ClockDown]
  }

  /** b with only its k low bits. */
  function LowBits(b: nat, k: nat): (r: nat)
    ensures r < Pow2(k)
    decreases k
  {
    if k == 0 then 0 else 2 * LowBits(b / 2, k - 1) + b % 2
  }

  lemma {:induction false} LowBitsGrow(b: nat, k: nat)
    ensures LowBits(b, k + 1) == (if Bit(b, k) then Or(LowBits(b, k), Pow2(k)) else LowBits(b, k))
    decreases k
  {
    hide Or;
    hide Pow2;
    hide LowBits;
    LowBitsStep(b, k);
    if k == 0 {
      FirstLowBit(b);
    } else {
      LowBitsGrow(b / 2, k - 1);
      LowBitsStep(b, k - 1);
      Pow2Step(k - 1);
      OrDouble(LowBits(b / 2, k - 1), b % 2, Pow2(k - 1));
    }
  }

  lemma LowBitsStep(b: nat, k: nat)
    ensures LowBits(b, k + 1) == 2 * LowBits(b / 2, k) + b % 2
  {
  }

  lemma FirstLowBit(b: nat)
    ensures LowBits(b, 0) == 0 && LowBits(b, 1) == b % 2 && Pow2(0) == 1 && Or(0, 1) == 1
  {
  }

  lemma Pow2Step(k: nat)
    ensures Pow2(k + 1) == 2 * Pow2(k)
  {
  }

  lemma OrDouble(a: nat, p: nat, m: nat)
    requires p <= 1 && m > 0
    ensures Or(2 * a + p, 2 * m) == 2 * Or(a, m) + p
  {
    assert (2 * a + p) / 2 == a && (2 * a + p) % 2 == p;
  }

  lemma {:induction false} LowBitsAll(b: nat, k: nat)
    requires b < Pow2(k)
    ensures LowBits(b, k) == b
    decreases k
  {
    if k == 0 {
    } else {
      LowBitsAll(b / 2, k - 1);
    }
  }

  lemma LowBitsFits(b: byte, k: nat)
    requires k <= 8
    ensures LowBits(b, k) < 256
  {
    assert Pow2(8) == 256;
    Pow2Grows(k, 8);
  }

  predicate TakingByte(d: Device) {
    d.lastCe && !d.lastSclk && (d.phase == Command || d.phase == Writing) && d.bitcount == 0 && d.curByte == 0
  }

  lemma OneBitTaken(d: Device, b: byte, k: nat)
    requires TakingByte(d) && k < 7
    ensures LowBits(b, k) < 256 && LowBits(b, k + 1) < 256
    ensures OnEdge(OnEdge(d.(curByte := LowBits(b, k), bitcount := k), ClockUp(Bit(b, k))), ClockDown)
            == d.(curByte := LowBits(b, k + 1), bitcount := k + 1)
  {
    hide LowBits;
    hide Or;
    LowBitsFits(b, k);
    LowBitsFits(b, k + 1);
    LowBitsGrow(b, k);
  }

  lemma {:induction false} PartialByte(d: Device, b: byte, k: nat)
    requires TakingByte(d) && k <= 7
    ensures LowBits(b, k) < 256
    ensures Run(d, Pulses(b, k)) == d.(curByte := LowBits(b, k), bitcount := k)
  {
    hide LowBits;
    hide OnEdge;
    hide Run;
    if k == 0 {
      FirstLowBit(b);
      RunNothing(d);
    } else {
      PartialByte(d, b, k - 1);
      OneBitTaken(d, b, k - 1);
      RunAppend(d, Pulses(b, k - 1), [ClockUp(Bit(b, k - 1)), ClockDown]);
      TwoEdges(Run(d, Pulses(b, k - 1)), ClockUp(Bit(b, k - 1)), ClockDown);
    }
  }

  /** Eight pulses hand the device the byte; the last clock edge falls after. */
  lemma WholeByte(d: Device, b: byte)
    requires TakingByte(d)
    ensures var full := d.(curByte := b, bitcount := 8);
            Run(d, Pulses(b, 8)) ==
            OnEdge((if d.phase == Command then DecodeCommand(full) else StoreByte(full)).(lastSclk := true), ClockDown)
  {
    PartialByte(d, b, 7);
    LowBitsGrow(b, 7);
    assert Pow2(8) == 256;
    LowBitsAll(b, 8);
    var d1 := Run(d, Pulses(b, 7));
    RunAppend(d, Pulses(b, 7), [ClockUp(Bit(b, 7)), ClockDown]);
    TwoEdges(d1, ClockUp(Bit(b, 7)), ClockDown);
    hide Run;
    hide LowBits;
    hide Or;
    hide DecodeCommand;
    hide StoreByte;
    hide Fall;
  }

  // ----------------------------------------------------------- transactions

  /** A command byte: read or write, a register number or BURST. */
  function CommandByte(addr: nat, read: bool): byte
    requires addr <= BURST
  {
    0x80 + 2 * addr + (if read then 1 else 0)
  }

  predicate AtRest(d: Device) { !d.lastCe && !d.lastSclk }

  function Start(addr: nat, read: bool): seq<Edge>
    requires addr <= BURST
  {
    [CeUp] + Pulses(CommandByte(addr, read), 8)
  }

  function BytePulses(bytes: seq<byte>): seq<Edge> {
    if bytes == [] then [] else BytePulses(bytes[..|bytes| - 1]) + Pulses(bytes[|bytes| - 1], 8)
  }

  lemma CommandBits(addr: nat, read: bool)
    requires addr <= BURST
    ensures var b := CommandByte(addr, read);
            b % 2 == (if read then 1 else 0) && b / 2 % 32 == addr
  {
  }

  /** CE up and the command byte in: ready to write, or the first bit out. */
  lemma Started(d: Device, addr: nat, read: bool)
    requires AtRest(d) && addr <= BURST
    ensures var b := CommandByte(addr, read);
            var r := RegisterAt(d.regs, if addr == BURST then 0 else addr);
            Run(d, Start(addr, read)) ==
            if read then
              d.(lastCe := true, phase := Reading, bitcount := 0, curByte := b, addrField := addr, burstIndex := 0,
                 dataByte := r, readBit := Bit(r, 0), skipNextFalling := false)
            else
              d.(lastCe := true, phase := Writing, bitcount := 0, curByte := 0, addrField := addr, burstIndex := 0)
  {
    hide Run;
    hide Pulses;
    hide Bit;
    hide CommandByte;
    hide StoreByte;
    var b := CommandByte(addr, read);
    CommandBits(addr, read);
    RunAppend(d, [CeUp], Pulses(b, 8));
    OneEdge(d, CeUp);
    WholeByte(OnEdge(d, CeUp), b);
  }

  /** A burst write in hand: i bytes are in the registers. */
  function BurstWriting(d: Device, bytes: seq<byte>): Device
    requires |bytes| <= 8
  {
    var n := |bytes|;
    d.(regs := bytes + d.regs[n..],
       burstIndex := if n == 8 then 7 else n, bitcount := if n == 8 then 8 else 0,
       curByte := if n == 8 then bytes[7] else 0)
  }

  predicate BurstWriteBegun(d: Device) {
    d.lastCe && !d.lastSclk && d.phase == Writing && d.addrField == BURST && d.burstIndex == 0
    && d.bitcount == 0 && d.curByte == 0
  }

  lemma OneMore(bytes: seq<byte>, regs: seq<byte>)
    requires 0 < |bytes| <= |regs|
    ensures var n := |bytes| - 1;
            (bytes[..n] + regs[n..])[n := bytes[n]] == bytes + regs[n + 1..]
  {
    var n := |bytes| - 1;
    assert bytes == bytes[..n] + [bytes[n]];
  }

  lemma {:induction false} BurstWrites(d: Device, bytes: seq<byte>)
    requires BurstWriteBegun(d) && |bytes| <= 8
    ensures Run(d, BytePulses(bytes)) == BurstWriting(d, bytes)
    decreases bytes
  {
    hide Pulses;
    hide Rise;
    hide DecodeCommand;
    if bytes == [] {
      assert [] + d.regs[0..] == d.regs;
    } else {
      var n := |bytes| - 1;
      BurstWrites(d, bytes[..n]);
      RunAppend(d, BytePulses(bytes[..n]), Pulses(bytes[n], 8));
      hide Run;
      var d1 := BurstWriting(d, bytes[..n]);
      WholeByte(d1, bytes[n]);
      OneMore(bytes, d.regs);
    }
  }

  // --------------------------------------------------------------- reading

  /** The bits clocked past by the host: SCLK up, whatever IO is, SCLK down. */
  function ReadPulses(ios: seq<bool>): seq<Edge> {
    if ios == [] then [] else ReadPulses(ios[..|ios| - 1]) + [ClockUp(ios[|ios| - 1]), ClockDown]
  }

  /** What a host sees that looks at IO just before each rising clock edge. */
  function Samples(d: Device, edges: seq<Edge>): seq<bool>
    decreases edges
  {
    if edges == [] then []
    else (if edges[0].ClockUp? then [d.readBit] else []) + Samples(OnEdge(d, edges[0]), edges[1..])
  }

  lemma {:induction false} SamplesAppend(d: Device, a: seq<Edge>, b: seq<Edge>)
    ensures Samples(d, a + b) == Samples(d, a) + Samples(Run(d, a), b)
    decreases a
  {
    hide OnEdge;
    if a == [] {
      assert a + b == b;
    } else {
      assert (a + b)[0] == a[0] && (a + b)[1..] == a[1..] + b;
      SamplesAppend(OnEdge(d, a[0]), a[1..], b);
    }
  }

  /** A read in hand: k bits have gone by. */
  function ReadingAt(d: Device, k: nat): Device
    requires k < 64
  {
    var b := if d.addrField == BURST then d.regs[k / 8] else d.dataByte;
    d.(burstIndex := if d.addrField == BURST then k / 8 else d.burstIndex,
       bitcount := k % 8, dataByte := b, readBit := Bit(b, k % 8))
  }

  predicate ReadBegun(d: Device) {
    && d.lastCe && !d.lastSclk && d.phase == Reading && !d.skipNextFalling
    && d.bitcount == 0 && d.burstIndex == 0 && d.readBit == Bit(d.dataByte, 0)
    && (d.addrField == BURST ==> d.dataByte == d.regs[0])
  }

  lemma ReadOneBit(d: Device, k: nat, io: bool)
    requires ReadBegun(d) && k < (if d.addrField == BURST then 64 else 8)
    ensures Samples(ReadingAt(d, k), [ClockUp(io), ClockDown]) == [ReadingAt(d, k).readBit]
    ensures k + 1 < (if d.addrField == BURST then 64 else 8) ==>
              Run(ReadingAt(d, k), [ClockUp(io), ClockDown]) == ReadingAt(d, k + 1)
    ensures Run(ReadingAt(d, k), [ClockUp(io), ClockDown]).regs == d.regs
  {
    var m := ReadingAt(d, k);
    OneSample(m, io);
    hide Samples;
    hide Run;
    hide Bit;
    hide Rise;
    TwoEdges(m, ClockUp(io), ClockDown);
    RiseWhileReading(m, io);
  }

  lemma OneSample(d: Device, io: bool)
    ensures Samples(d, [ClockUp(io), ClockDown]) == [d.readBit]
  {
    hide OnEdge;
    assert [ClockUp(io), ClockDown][1..] == [ClockDown];
    assert [ClockDown][1..] == [];
  }

  lemma RiseWhileReading(d: Device, io: bool)
    requires d.phase == Reading
    ensures Rise(d, io) == d
  {
  }

  /** How many bits a read gives. */
  function ReadLength(d: Device): nat { if d.addrField == BURST then 64 else 8 }

  lemma {:induction false} ReadsOn(d: Device, ios: seq<bool>)
    requires ReadBegun(d) && |ios| < ReadLength(d)
    ensures Run(d, ReadPulses(ios)) == ReadingAt(d, |ios|)
    decreases ios
  {
    hide Bit;
    hide OnEdge;
    if ios == [] {
    } else {
      var n := |ios| - 1;
      ReadsOn(d, ios[..n]);
      RunAppend(d, ReadPulses(ios[..n]), [ClockUp(ios[n]), ClockDown]);
      ReadOneBit(d, n, ios[n]);
    }
  }

  /** Bytes as bits, least significant first. */
  function LsbBits(bytes: seq<byte>): (bits: seq<bool>)
    ensures |bits| == 8 * |bytes|
  {
    seq(8 * |bytes|, n requires 0 <= n < 8 * |bytes| => Bit(bytes[n / 8], n % 8))
  }

  /** The bytes a read puts on the wire. */
  function BytesOut(d: Device): seq<byte> { if d.addrField == BURST then d.regs else [d.dataByte] }

  lemma {:induction false} ReadBits(d: Device, ios: seq<bool>)
    requires ReadBegun(d) && |ios| <= ReadLength(d)
    ensures Samples(d, ReadPulses(ios)) == LsbBits(BytesOut(d))[..|ios|]
    ensures Run(d, ReadPulses(ios)).regs == d.regs
    decreases ios
  {
    hide Bit;
    hide OnEdge;
    if ios == [] {
    } else {
      ReadBits(d, ios[..|ios| - 1]);
      LastBit(d, ios);
    }
  }

  lemma LastBit(d: Device, ios: seq<bool>)
    requires ReadBegun(d) && 0 < |ios| <= ReadLength(d)
    requires Samples(d, ReadPulses(ios[..|ios| - 1])) == LsbBits(BytesOut(d))[..|ios| - 1]
    ensures Samples(d, ReadPulses(ios)) == LsbBits(BytesOut(d))[..|ios|]
    ensures Run(d, ReadPulses(ios)).regs == d.regs
  {
    hide Bit;
    hide OnEdge;
    hide Samples;
    hide Run;
    hide LsbBits;
    var n := |ios| - 1;
    var p := [ClockUp(ios[n]), ClockDown];
    ReadsOn(d, ios[..n]);
    SamplesAppend(d, ReadPulses(ios[..n]), p);
    RunAppend(d, ReadPulses(ios[..n]), p);
    ReadOneBit(d, n, ios[n]);
    BitOut(d, n);
  }

  lemma BitOut(d: Device, n: nat)
    requires n < ReadLength(d)
    ensures LsbBits(BytesOut(d))[..n] + [ReadingAt(d, n).readBit] == LsbBits(BytesOut(d))[..n + 1]
  {
    hide Bit;
    assert LsbBits(BytesOut(d))[n] == ReadingAt(d, n).readBit;
  }

  // ------------------------------------------------------- the host's view

  /** The same on a wave: IO just before each port write that raises SCLK. */
  function WaveSamples(d: Device, wave: seq<Pins>): seq<bool>
    decreases wave
  {
    if wave == [] then []
    else (if wave[0].sclk && !d.lastSclk then [d.readBit] else []) + WaveSamples(PortWrite(d, wave[0]), wave[1..])
  }

  lemma WriteSamples(d: Device, p: Pins)
    ensures Samples(d, EdgesOf(d.lastCe, d.lastSclk, p)) == if p.sclk && !d.lastSclk then [d.readBit] else []
  {
    var ce := if p.ce && !d.lastCe then [CeUp] else if !p.ce && d.lastCe then [CeDown] else [];
    var clock := if p.sclk && !d.lastSclk then [ClockUp(p.io)] else if !p.sclk && d.lastSclk then [ClockDown] else [];
    SamplesAppend(d, ce, clock);
    RunNothing(d);
    if ce != [] {
      OneEdge(d, ce[0]);
      EdgeSample(d, ce[0]);
    }
    if clock != [] { EdgeSample(Run(d, ce), clock[0]); }
    hide Run;
    hide OnSclk;
  }

  lemma EdgeSample(d: Device, e: Edge)
    ensures Samples(d, [e]) == if e.ClockUp? then [d.readBit] else []
  {
    hide OnEdge;
    assert [e][1..] == [];
  }

  lemma {:induction false} WaveSamplesAreEdges(d: Device, wave: seq<Pins>)
    ensures WaveSamples(d, wave) == Samples(d, Edges(d.lastCe, d.lastSclk, wave))
    decreases wave
  {
    hide PortWrite;
    hide EdgesOf;
    hide OnEdge;
    if wave == [] {
    } else {
      var p := wave[0];
      WriteIsEdges(d, p);
      WriteSamples(d, p);
      SamplesAppend(d, EdgesOf(d.lastCe, d.lastSclk, p), Edges(p.ce, p.sclk, wave[1..]));
      WaveSamplesAreEdges(PortWrite(d, p), wave[1..]);
    }
  }

  // ------------------------------------------------------------ round trips

  /** A burst write leaves exactly the eight bytes in the registers. */
  lemma BurstWriteStores(d: Device, bytes: seq<byte>)
    requires AtRest(d) && |bytes| == 8
    ensures var r := Run(d, Start(BURST, false) + BytePulses(bytes) + [CeDown]);
            r.regs == bytes && AtRest(r) && r.phase == Idle
  {
    hide Run;
    hide BytePulses;
    hide Start;
    RunAppend(d, Start(BURST, false) + BytePulses(bytes), [CeDown]);
    RunAppend(d, Start(BURST, false), BytePulses(bytes));
    Started(d, BURST, false);
    BurstWrites(Run(d, Start(BURST, false)), bytes);
    OneEdge(Run(d, Start(BURST, false) + BytePulses(bytes)), CeDown);
  }

  /** Eight bytes written in one burst come back, least significant bit first,
      in a burst read that follows. */
  lemma BurstRoundTrip(d: Device, bytes: seq<byte>, ios: seq<bool>)
    requires AtRest(d) && |bytes| == 8 && |ios| == 64
    ensures var w := Run(d, Start(BURST, false) + BytePulses(bytes) + [CeDown]);
            var r := Run(w, Start(BURST, true));
            Samples(r, ReadPulses(ios)) == LsbBits(bytes) && Run(r, ReadPulses(ios)).regs == bytes
  {
    hide Run;
    hide BytePulses;
    hide Start;
    hide Samples;
    hide ReadPulses;
    hide Bit;
    BurstWriteStores(d, bytes);
    var w := Run(d, Start(BURST, false) + BytePulses(bytes) + [CeDown]);
    Started(w, BURST, true);
    ReadBits(Run(w, Start(BURST, true)), ios);
    assert LsbBits(bytes)[..64] == LsbBits(bytes);
  }

  lemma SingleWriteStores(d: Device, addr: nat, b: byte)
    requires AtRest(d) && addr < BURST
    ensures var r := Run(d, Start(addr, false) + Pulses(b, 8) + [CeDown]);
            r.regs == (if addr < 8 then d.regs[addr := b] else d.regs) && AtRest(r) && r.phase == Idle
  {
    hide Run;
    hide Pulses;
    hide Start;
    RunAppend(d, Start(addr, false) + Pulses(b, 8), [CeDown]);
    RunAppend(d, Start(addr, false), Pulses(b, 8));
    Started(d, addr, false);
    var d1 := Run(d, Start(addr, false));
    WholeByte(d1, b);
    OneEdge(Run(d, Start(addr, false) + Pulses(b, 8)), CeDown);
  }

  /** The same for one register: only it changes, and it reads back; an address
      with no register behind it takes nothing and reads as 0. */
  lemma SingleRoundTrip(d: Device, addr: nat, b: byte, ios: seq<bool>)
    requires AtRest(d) && addr < BURST && |ios| == 8
    ensures var w := Run(d, Start(addr, false) + Pulses(b, 8) + [CeDown]);
            var r := Run(w, Start(addr, true));
            && w.regs == (if addr < 8 then d.regs[addr := b] else d.regs)
            && Samples(r, ReadPulses(ios)) == LsbBits([if addr < 8 then b else 0])
            && Run(r, ReadPulses(ios)).regs == w.regs
  {
    hide Run;
    hide Pulses;
    hide Start;
    hide Samples;
    hide ReadPulses;
    hide Bit;
    SingleWriteStores(d, addr, b);
    var w := Run(d, Start(addr, false) + Pulses(b, 8) + [CeDown]);
    Started(w, addr, true);
    ReadBits(Run(w, Start(addr, true)), ios);
    var back: byte := if addr < 8 then b else 0;
    assert LsbBits([back])[..8] == LsbBits([back]);
  }

  predicate EndsWith(s: seq<bool>, t: seq<bool>) { |t| <= |s| && s[|s| - |t|..] == t }

  /** A wave that carries three stretches of edges leaves the device they leave,
      and the host's samples of it end in those of the last stretch. */
  lemma WaveInParts(d: Device, wave: seq<Pins>, a: seq<Edge>, b: seq<Edge>, c: seq<Edge>)
    requires AtRest(d) && Edges(false, false, wave) == a + b + c
    ensures var r := Run(Run(d, a), b);
            Wave(d, wave) == Run(r, c) && EndsWith(WaveSamples(d, wave), Samples(r, c))
  {
    hide Run;
    hide Wave;
    hide Edges;
    hide Samples;
    hide WaveSamples;
    WaveIsEdges(d, wave);
    WaveSamplesAreEdges(d, wave);
    RunAppend(d, a + b, c);
    RunAppend(d, a, b);
    SamplesAppend(d, a + b, c);
  }

  /** Whatever port writes carry the edges, on shared ports or not: over one wave
      that burst-writes eight bytes and burst-reads them, the last 64 bits the
      host samples are the bytes, and they are what the registers hold. */
  lemma BurstWaveRoundTrip(d: Device, wave: seq<Pins>, bytes: seq<byte>, ios: seq<bool>)
    requires AtRest(d) && |bytes| == 8 && |ios| == 64
    requires Edges(false, false, wave) ==
             (Start(BURST, false) + BytePulses(bytes) + [CeDown]) + Start(BURST, true) + ReadPulses(ios)
    ensures EndsWith(WaveSamples(d, wave), LsbBits(bytes)) && Wave(d, wave).regs == bytes
  {
    hide Run;
    hide Wave;
    hide Edges;
    hide BytePulses;
    hide Start;
    hide Samples;
    hide WaveSamples;
    hide ReadPulses;
    hide LsbBits;
    hide EndsWith;
    WaveInParts(d, wave, Start(BURST, false) + BytePulses(bytes) + [CeDown], Start(BURST, true), ReadPulses(ios));
    BurstRoundTrip(d, bytes, ios);
  }

  /** And the same for each single register, the others unchanged. */
  lemma SingleWaveRoundTrip(d: Device, wave: seq<Pins>, addr: nat, b: byte, ios: seq<bool>)
    requires AtRest(d) && addr < BURST && |ios| == 8
    requires Edges(false, false, wave) ==
             (Start(addr, false) + Pulses(b, 8) + [CeDown]) + Start(addr, true) + ReadPulses(ios)
    ensures EndsWith(WaveSamples(d, wave), LsbBits([if addr < 8 then b else 0]))
    ensures Wave(d, wave).regs == if addr < 8 then d.regs[addr := b] else d.regs
  {
    hide Run;
    hide Wave;
    hide Edges;
    hide Pulses;
    hide Start;
    hide Samples;
    hide WaveSamples;
    hide ReadPulses;
    hide LsbBits;
    hide EndsWith;
    WaveInParts(d, wave, Start(addr, false) + Pulses(b, 8) + [CeDown], Start(addr, true), ReadPulses(ios));
    SingleRoundTrip(d, addr, b, ios);
  }
}
