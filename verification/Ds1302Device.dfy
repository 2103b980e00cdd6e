/** The DS1302 as the simulator keeps it, updated in place by the bus
    callbacks and once per tick. */
module Ds1302Device {
  import opened Bytes
  import C = Ds1302Clock
  import opened Ds1302Serial

  class Ds1302 {
    const regs: array<byte>
    const hz: nat
    var accum: nat
    var lastCe: bool
    var lastSclk: bool
    var phase: Phase
    var bitcount: nat
    var curByte: byte
    var addrField: nat
    var burstIndex: nat
    var dataByte: byte
    var readBit: bool
    var skipNextFalling: bool

    ghost predicate Valid()
      reads this
    {
      regs.Length == 8 && addrField <= BURST
    }

    ghost function State(): Device
      requires Valid()
      reads this, regs
    {
      Device(regs[..], lastCe, lastSclk, phase, bitcount, curByte, addrField, burstIndex, dataByte, readBit,
             skipNextFalling)
    }

    ghost function ClockState(): C.Clock
      requires Valid()
      reads this, regs
    {
      C.Clock(regs[..], hz, accum)
    }

    constructor (clockHz: nat)
      ensures Valid() && fresh(regs) && hz == clockHz / 12 && accum == 0
      ensures AtRest(State()) && regs[..] == seq(8, _ => 0)
    {
      regs := new byte[8](_ => 0);
      hz := clockHz / 12;
      accum := 0;
      lastCe, lastSclk, phase, bitcount, curByte := false, false, Idle, 0, 0;
      addrField, burstIndex, dataByte, readBit, skipNextFalling := 0, 0, 0, false, false;
    }

    // --------------------------------------------------------- calendar

    method AdvanceOneSecond()
      requires Valid()
      modifies regs
      ensures regs[..] == C.Advance(old(regs[..]))
    {
      hide FromBcd;
      hide C.ToBcd;
      hide C.DaysInMonth;
      var sec, min, hour := FromBcd(regs[0]) + 1, FromBcd(regs[1]), FromBcd(regs[2]);
      var date, month := FromBcd(regs[3]), FromBcd(regs[4]);
      var weekday, year := FromBcd(regs[5]), FromBcd(regs[6]);
      ghost var before: C.Registers := regs[..];
      var dayRolled := false;
      if sec >= 60 { sec := sec - 60; min := min + 1; }
      if min >= 60 { min := min - 60; hour := hour + 1; }
      if hour >= 24 { hour := hour - 24; date := date + 1; dayRolled := true; }
      if dayRolled {
        weekday := weekday + 1;
        if weekday > 7 { weekday := 1; }
        if date > C.DaysInMonth(month, year) {
          date := 1;
          month := month + 1;
          if month > 12 {
            month := 1;
            year := (year + 1) % 100;
          }
        }
      }
      assert C.NextSecond(C.Decode(before)) == C.Moment(sec, min, hour, date, month, weekday, year);
      regs[0] := C.ToBcd(sec);
      regs[1] := C.ToBcd(min);
      regs[2] := C.ToBcd(hour);
      regs[3] := C.ToBcd(date);
      regs[4] := C.ToBcd(month);
      regs[5] := C.ToBcd(weekday);
      regs[6] := C.ToBcd(year);
      assert regs[..] == C.Encode(C.NextSecond(C.Decode(before)), before[7]);
    }

    method Step()
      requires Valid()
      modifies this`accum, regs
      ensures Valid() && ClockState() == C.Step(old(ClockState()))
    {
      hide C.Advance;
      if hz == 0 { return; }
      accum := accum + 1;
      if accum < hz { return; }
      accum := 0;
      AdvanceOneSecond();
    }

    // -------------------------------------------------------- interface

    method OnCeWrite(ce: bool)
      requires Valid()
      modifies this
      ensures Valid() && State() == OnCe(old(State()), ce) && accum == old(accum)
    {
      if ce && !lastCe { phase, bitcount, curByte := Command, 0, 0; }
      if !ce && lastCe { phase := Idle; }
      lastCe := ce;
    }

    method DecodeCommandByte()
      requires Valid()
      modifies this
      ensures Valid() && State() == DecodeCommand(old(State())) && accum == old(accum)
    {
      hide Bit;
      addrField := curByte / 2 % 32;
      burstIndex := 0;
      if curByte % 2 == 1 {
        var i := if addrField == BURST then 0 else addrField;
        phase, bitcount := Reading, 0;
        dataByte := if i < 8 then regs[i] else 0;
        readBit := Bit(dataByte, 0);
        skipNextFalling := true;
      } else {
        phase, bitcount, curByte := Writing, 0, 0;
      }
    }

    /** A rising clock edge while a command or a data byte comes in. */
    method TakeBit(io: bool)
      requires Valid() && (phase == Command || phase == Writing)
      modifies this, regs
      ensures Valid() && State() == Rise(old(State()), io) && accum == old(accum)
    {
      hide DecodeCommand;
      hide OrByte;
      hide Pow2Byte;
      if io && bitcount < 8 { curByte := OrByte(curByte, Pow2Byte(bitcount)); }
      bitcount := bitcount + 1;
      if bitcount == 8 {
        if phase == Command {
          DecodeCommandByte();
        } else {
          var i := if addrField == BURST then burstIndex else addrField;
          if i < 8 { regs[i] := curByte; }
          if addrField == BURST && burstIndex < 7 {
            burstIndex := burstIndex + 1;
            bitcount, curByte := 0, 0;
          }
        }
      }
    }

    /** A falling clock edge while a byte goes out. */
    method NextReadBit()
      requires Valid() && phase == Reading
      modifies this
      ensures Valid() && State() == Fall(old(State())) && accum == old(accum)
    {
      hide Bit;
      if skipNextFalling {
        skipNextFalling := false;
      } else if bitcount < 7 {
        bitcount := bitcount + 1;
        readBit := Bit(dataByte, bitcount);
      } else if addrField == BURST && burstIndex < 7 {
        burstIndex := burstIndex + 1;
        dataByte := regs[burstIndex];
        bitcount := 0;
        readBit := Bit(dataByte, 0);
      }
    }

    method OnSclkWrite(sclk: bool, io: bool)
      requires Valid()
      modifies this, regs
      ensures Valid() && State() == OnSclk(old(State()), sclk, io) && accum == old(accum)
    {
      hide DecodeCommand;
      hide StoreByte;
      hide Bit;
      hide OrByte;
      if lastCe {
        if sclk && !lastSclk && (phase == Command || phase == Writing) {
          TakeBit(io);
        } else if !sclk && lastSclk && phase == Reading {
          NextReadBit();
        }
      }
      lastSclk := sclk;
    }
  }
}
