/** The bit-serial side of the controller: pins, bits, bytes. */
module EncSpi {
  import opened Bytes
  import opened EncCore
  import opened EncCommands

  /** Levels of the three input pins at one write to their port. */
  datatype Pins = Pins(cs: bool, sck: bool, mosi: bool)

  datatype Chip = Chip(core: Core, lastCs: bool, lastSck: bool, shiftIn: byte, bitCount: nat, outBit: bool) {
    predicate Ok() { bitCount < 8 && shiftIn < Pow2(bitCount) }
  }

  function Digit(b: bool): nat { if b then 1 else 0 }

  /** The n-th MISO bit of a byte, most significant first. */
  predicate OutBit(b: byte, n: nat)
    requires n < 8
  {
    Bit(b, 7 - n)
  }

  /** A rising clock edge with chip select low. */
  function ClockBit(d: Chip, mosi: bool): (r: Chip)
    requires d.Ok()
    ensures r.Ok()
  {
    assert Pow2(8) == 256;
    ShiftFits(d.shiftIn, d.bitCount, mosi);
    var s := 2 * d.shiftIn + Digit(mosi);
    var d := d.(outBit := OutBit(d.core.outByte, d.bitCount));
    if d.bitCount == 7 then d.(core := ByteDone(d.core, s), shiftIn := 0, bitCount := 0)
    else d.(shiftIn := s, bitCount := d.bitCount + 1)
  }

  /** One port write. */
  function Spi(d: Chip, p: Pins): (r: Chip)
    requires d.Ok()
    ensures r.Ok()
  {
    var d := if !p.cs && d.lastCs then d.(core := Select(d.core), shiftIn := 0, bitCount := 0) else d;
    var d := if !p.cs && p.sck && !d.lastSck then ClockBit(d, p.mosi) else d;
    d.(lastCs := p.cs, lastSck := p.sck)
  }

  lemma ShiftFits(s: nat, n: nat, b: bool)
    requires s < Pow2(n) && n < 8
    ensures 2 * s + Digit(b) < Pow2(n + 1) <= 256
  {
    assert Pow2(8) == 256;
    Pow2Grows(n + 1, 8);
  }

  function SpiRun(d: Chip, wave: seq<Pins>): (r: Chip)
    requires d.Ok()
    ensures r.Ok()
  {
    if wave == [] then d else Spi(SpiRun(d, wave[..|wave| - 1]), wave[|wave| - 1])
  }

  // --------------------------------------------------- bits on the wire

  predicate Selected(wave: seq<Pins>) { forall i :: 0 <= i < |wave| ==> !wave[i].cs }

  function LastSck(sck: bool, wave: seq<Pins>): bool {
    if wave == [] then sck else wave[|wave| - 1].sck
  }

  /** MOSI at each rising clock edge, SCK being at level sck before. */
  function Sampled(sck: bool, wave: seq<Pins>): seq<bool> {
    if wave == [] then []
    else
      var w, p := wave[..|wave| - 1], wave[|wave| - 1];
      Sampled(sck, w) + (if p.sck && !LastSck(sck, w) then [p.mosi] else [])
  }

  /** MISO as the host samples it after each rising clock edge. */
  function Miso(d: Chip, wave: seq<Pins>): seq<bool>
    requires d.Ok()
  {
    if wave == [] then []
    else
      var w, p := wave[..|wave| - 1], wave[|wave| - 1];
      Miso(d, w) + (if p.sck && !LastSck(d.lastSck, w) then [SpiRun(d, wave).outBit] else [])
  }

  /** The number with the binary digits bits, most significant first. */
  function MsbNumber(bits: seq<bool>): (n: nat)
    ensures n < Pow2(|bits|)
  {
    if bits == [] then 0 else 2 * MsbNumber(bits[..|bits| - 1]) + Digit(bits[|bits| - 1])
  }

  function ByteAt(bits: seq<bool>, k: nat): byte
    requires 8 * k + 8 <= |bits|
  {
    assert Pow2(8) == 256;
    MsbNumber(bits[8 * k..8 * k + 8])
  }

  /** The whole bytes in a stream of bits. */
  function WholeBytes(bits: seq<bool>): (b: seq<byte>)
    ensures |b| == |bits| / 8
  {
    seq(|bits| / 8, k requires 0 <= k < |bits| / 8 => ByteAt(bits, k))
  }

  function Rest(bits: seq<bool>): seq<bool> { bits[|bits| / 8 * 8..] }

  lemma WholeBytesAppend(bits: seq<bool>, b: bool)
    ensures |bits| % 8 < 7 ==> WholeBytes(bits + [b]) == WholeBytes(bits) && Rest(bits + [b]) == Rest(bits) + [b]
    ensures |bits| % 8 == 7 ==>
              && |Rest(bits) + [b]| == 8 && MsbNumber(Rest(bits) + [b]) < 256
              && WholeBytes(bits + [b]) == WholeBytes(bits) + [MsbNumber(Rest(bits) + [b])]
              && Rest(bits + [b]) == []
  {
    assert Pow2(8) == 256;
    var all := bits + [b];
    forall k | 0 <= k < |bits| / 8 ensures all[8 * k..8 * k + 8] == bits[8 * k..8 * k + 8] {
    }
    if |bits| % 8 == 7 {
      var k := |bits| / 8;
      assert all[8 * k..8 * k + 8] == Rest(bits) + [b];
    }
  }

  /** The chip once the stream of bits has been clocked in from core c. */
  predicate Clocked(c: Core, bits: seq<bool>, d: Chip) {
    && d.core == RunBytes(c, WholeBytes(bits))
    && d.bitCount == |bits| % 8
    && d.shiftIn == MsbNumber(Rest(bits))
  }

  lemma ClockOneBit(c: Core, bits: seq<bool>, d: Chip, p: Pins)
    requires d.Ok() && !d.lastCs && !p.cs && Clocked(c, bits, d)
    ensures Clocked(c, if p.sck && !d.lastSck then bits + [p.mosi] else bits, Spi(d, p))
  {
    hide ByteDone;
    hide WholeBytes;
    hide Rest;
    if p.sck && !d.lastSck {
      WholeBytesAppend(bits, p.mosi);
      NumberOneMore(Rest(bits), p.mosi);
      if |bits| % 8 == 7 {
        NumberOfNone();
        BytesOneMore(c, WholeBytes(bits), MsbNumber(Rest(bits) + [p.mosi]));
      }
    }
  }

  lemma NumberOneMore(r: seq<bool>, b: bool)
    ensures MsbNumber(r + [b]) == 2 * MsbNumber(r) + Digit(b)
  {
    assert (r + [b])[..|r|] == r;
  }

  lemma NumberOfNone()
    ensures MsbNumber([]) == 0
  {
  }

  lemma BytesOneMore(c: Core, bytes: seq<byte>, b: byte)
    ensures RunBytes(c, bytes + [b]) == ByteDone(RunBytes(c, bytes), b)
  {
    hide ByteDone;
    assert (bytes + [b])[..|bytes|] == bytes;
  }

  /** Whatever port writes clock them in, the bits sampled at rising edges
      under one chip select act on the chip exactly as the bytes they make up,
      each once and in order; what is left of a byte waits in the shift
      register and has no other effect. */
  lemma {:induction false} BitsAreBytes(d: Chip, wave: seq<Pins>)
    requires d.Ok() && d.lastCs && wave != [] && Selected(wave)
    ensures Clocked(Select(d.core), Sampled(d.lastSck, wave), SpiRun(d, wave))
    ensures SpiRun(d, wave).lastSck == LastSck(d.lastSck, wave) && !SpiRun(d, wave).lastCs
    decreases wave
  {
    hide ByteDone;
    var w, p := wave[..|wave| - 1], wave[|wave| - 1];
    if w == [] {
      var d0 := d.(core := Select(d.core), shiftIn := 0, bitCount := 0, lastCs := false);
      assert Clocked(Select(d.core), [], d0);
      ClockOneBit(Select(d.core), [], d0, p);
      assert SpiRun(d, w) == d;
      assert Spi(d, p) == Spi(d0, p);
      assert Sampled(d.lastSck, w) == [];
    } else {
      BitsAreBytes(d, w);
      hide Clocked;
      var bits := Sampled(d.lastSck, w);
      ClockOneBit(Select(d.core), bits, SpiRun(d, w), p);
      assert bits + [] == bits;
    }
  }

  // ------------------------------------------------------------------ MISO

  /** The byte ready before byte k of a command. */
  function Staged(c: Core, bytes: seq<byte>, k: nat): byte
    requires k <= |bytes|
  {
    RunBytes(c, bytes[..k]).outByte
  }

  /** Bit n of MISO is bit n % 8, most significant first, of the byte that was
      ready before byte n / 8 of the command was clocked. */
  predicate Spells(c: Core, bits: seq<bool>, miso: seq<bool>) {
    && |miso| == |bits|
    && forall n :: 0 <= n < |miso| ==> miso[n] == OutBit(Staged(c, WholeBytes(bits), n / 8), n % 8)
  }

  lemma SpellsAppend(c: Core, bits: seq<bool>, miso: seq<bool>, b: bool, o: bool)
    requires Spells(c, bits, miso)
    requires o == OutBit(RunBytes(c, WholeBytes(bits)).outByte, |bits| % 8)
    ensures Spells(c, bits + [b], miso + [o])
  {
    hide RunBytes;
    hide OutBit;
    WholeBytesAppend(bits, b);
    var w, w' := WholeBytes(bits), WholeBytes(bits + [b]);
    hide WholeBytes;
    forall n | 0 <= n < |miso + [o]|
      ensures (miso + [o])[n] == OutBit(Staged(c, w', n / 8), n % 8)
    {
      assert w'[..n / 8] == w[..n / 8];
      if n == |miso| { assert w[..n / 8] == w; }
    }
  }

  lemma NoWrites(d: Chip)
    requires d.Ok()
    ensures SpiRun(d, []) == d && Sampled(d.lastSck, []) == [] && Miso(d, []) == []
  {
  }

  lemma OneMoreWrite(d: Chip, wave: seq<Pins>)
    requires d.Ok() && wave != []
    ensures var w, p := wave[..|wave| - 1], wave[|wave| - 1];
            var rises := p.sck && !LastSck(d.lastSck, w);
            && SpiRun(d, wave) == Spi(SpiRun(d, w), p)
            && Sampled(d.lastSck, wave) == (if rises then Sampled(d.lastSck, w) + [p.mosi] else Sampled(d.lastSck, w))
            && Miso(d, wave) == (if rises then Miso(d, w) + [SpiRun(d, wave).outBit] else Miso(d, w))
  {
    hide Spi;
    var w := wave[..|wave| - 1];
    assert Sampled(d.lastSck, w) + [] == Sampled(d.lastSck, w);
    assert Miso(d, w) + [] == Miso(d, w);
  }

  /** The MISO bits the host samples spell the bytes the chip had ready. */
  lemma {:induction false} MisoSpellsStaged(d: Chip, wave: seq<Pins>)
    requires d.Ok() && d.lastCs && wave != [] && Selected(wave)
    ensures Spells(Select(d.core), Sampled(d.lastSck, wave), Miso(d, wave))
    decreases wave
  {
    hide ByteDone;
    hide Spells;
    hide Clocked;
    hide SpiRun;
    hide Sampled;
    hide Miso;
    var w, p := wave[..|wave| - 1], wave[|wave| - 1];
    OneMoreWrite(d, wave);
    if w == [] {
      NoWrites(d);
      SpellsNothing(Select(d.core));
      FirstBit(d, p);
      if p.sck && !d.lastSck {
        NoBytes();
        SpellsAppend(Select(d.core), [], [], p.mosi, SpiRun(d, wave).outBit);
      }
    } else {
      MisoSpellsStaged(d, w);
      BitsAreBytes(d, w);
      NextBit(Select(d.core), Sampled(d.lastSck, w), SpiRun(d, w), p);
      if p.sck && !LastSck(d.lastSck, w) {
        SpellsAppend(Select(d.core), Sampled(d.lastSck, w), Miso(d, w), p.mosi, SpiRun(d, wave).outBit);
      }
    }
  }

  lemma NoBytes()
    ensures WholeBytes([]) == []
  {
  }

  lemma SpellsNothing(c: Core)
    ensures Spells(c, [], [])
  {
  }

  lemma FirstBit(d: Chip, p: Pins)
    requires d.Ok() && d.lastCs && !p.cs
    ensures p.sck && !d.lastSck ==>
              Spi(d, p).outBit == OutBit(RunBytes(Select(d.core), WholeBytes([])).outByte, 0)
  {
    hide ByteDone;
    assert WholeBytes([]) == [];
  }

  lemma NextBit(c: Core, bits: seq<bool>, d: Chip, p: Pins)
    requires d.Ok() && !d.lastCs && !p.cs && Clocked(c, bits, d)
    ensures p.sck && !d.lastSck ==>
              Spi(d, p).outBit == OutBit(RunBytes(c, WholeBytes(bits)).outByte, |bits| % 8)
  {
    hide ByteDone;
  }

  // ------------------------------------------------- whole transactions

  /** b shifted right n places. */
  function Shr(b: nat, n: nat): nat
    decreases n
  {
    if n == 0 then b else Shr(b / 2, n - 1)
  }

  lemma {:induction false} ShrBits(b: nat, n: nat)
    ensures Shr(b, n) == 2 * Shr(b, n + 1) + Digit(Bit(b, n))
    decreases n
  {
    if n == 0 {
    } else {
      ShrBits(b / 2, n - 1);
    }
  }

  lemma {:induction false} ShrOut(b: nat, n: nat)
    requires b < Pow2(n)
    ensures Shr(b, n) == 0
    decreases n
  {
    if n == 0 {
    } else {
      ShrOut(b / 2, n - 1);
    }
  }

  /** Bytes as bits on the wire, most significant bit first. */
  function MsbBits(bytes: seq<byte>): (r: seq<bool>)
    ensures |r| == 8 * |bytes|
  {
    seq(8 * |bytes|, n requires 0 <= n < 8 * |bytes| => OutBit(bytes[n / 8], n % 8))
  }

  lemma {:induction false} MsbNumberOfByte(bits: seq<bool>, b: byte, k: nat)
    requires k <= 8 == |bits| && forall i :: 0 <= i < 8 ==> bits[i] == OutBit(b, i)
    ensures MsbNumber(bits[..k]) == Shr(b, 8 - k)
    decreases k
  {
    if k == 0 {
      assert Pow2(8) == 256;
      ShrOut(b, 8);
    } else {
      MsbNumberOfByte(bits, b, k - 1);
      assert bits[..k][..k - 1] == bits[..k - 1];
      ShrBits(b, 8 - k);
    }
  }

  lemma ByteOfBits(bytes: seq<byte>, tail: seq<bool>, k: nat)
    requires k < |bytes|
    ensures ByteAt(MsbBits(bytes) + tail, k) == bytes[k]
  {
    var all := MsbBits(bytes) + tail;
    var bits := all[8 * k..8 * k + 8];
    forall i | 0 <= i < 8 ensures bits[i] == OutBit(bytes[k], i) {
      assert bits[i] == all[8 * k + i];
    }
    MsbNumberOfByte(bits, bytes[k], 8);
    assert bits[..8] == bits;
  }

  lemma BytesOfBits(bytes: seq<byte>, tail: seq<bool>)
    requires |tail| < 8
    ensures WholeBytes(MsbBits(bytes) + tail) == bytes
  {
    hide ByteAt;
    forall k | 0 <= k < |bytes| ensures ByteAt(MsbBits(bytes) + tail, k) == bytes[k] {
      ByteOfBits(bytes, tail, k);
    }
  }

  lemma {:induction false} ReceivedIsStaged(c: Core, bytes: seq<byte>, k: nat)
    requires k < |bytes|
    ensures Received(c, bytes)[k] == Staged(c, bytes, k)
    decreases bytes
  {
    hide RunBytes;
    var w := bytes[..|bytes| - 1];
    if k < |w| {
      ReceivedIsStaged(c, w, k);
      assert w[..k] == bytes[..k];
    }
  }

  /** Port writes that change neither chip select nor clock do nothing. */
  lemma IdleWrite(d: Chip, p: Pins)
    requires d.Ok() && p.cs == d.lastCs && p.sck == d.lastSck
    ensures Spi(d, p) == d
  {
  }

  /** A whole SPI transaction. Clocking the bytes in, most significant bit
      first, by any port writes at all under one chip select is the byte-level
      command; the MISO bits are the bytes of that command's answer; and the
      bits of an unfinished last byte have no effect, nor has anything done to
      the clock once chip select is up again. */
  lemma Transaction(d: Chip, wave: seq<Pins>, bytes: seq<byte>, tail: seq<bool>)
    requires d.Ok() && d.lastCs && wave != [] && Selected(wave)
    requires Sampled(d.lastSck, wave) == MsbBits(bytes) + tail && |tail| < 8
    ensures var d' := SpiRun(d, wave);
            && d'.core == Command(d.core, bytes)
            && (forall p: Pins :: p.cs ==> Spi(d', p).core == d'.core)
    ensures |Miso(d, wave)| == 8 * |bytes| + |tail|
    ensures Miso(d, wave)[..8 * |bytes|] == MsbBits(Received(Select(d.core), bytes))
  {
    hide ByteDone;
    hide SpiRun;
    hide Sampled;
    hide Miso;
    hide RunBytes;
    hide Received;
    BytesOfBits(bytes, tail);
    BitsAreBytes(d, wave);
    MisoSpellsStaged(d, wave);
    hide WholeBytes;
    forall n | 0 <= n < 8 * |bytes|
      ensures Miso(d, wave)[n] == OutBit(Received(Select(d.core), bytes)[n / 8], n % 8)
    {
      ReceivedIsStaged(Select(d.core), bytes, n / 8);
    }
  }
}
