/** The HD44780 character LCD: its command machine, and why driving it four
    bits at a time comes to the same as eight. */
module LcdController {
  import opened Bytes

  type DdRam = s: seq<byte> | |s| == 128 witness seq(128, _ => 0)
  type CgRam = s: seq<byte> | |s| == 64 witness seq(64, _ => 0)

  datatype Lcd = Lcd(
    clockHz: nat, ddram: DdRam, cgram: CgRam, cursor: int, shift: int, dir: int, shiftOnWrite: bool,
    chargen: bool, mode4: bool, second: bool, busy: nat, latched: byte, pending: byte)

  /** The chip and the level E had. */
  datatype Wired = Wired(l: Lcd, e: bool)

  function AccessTime(l: Lcd): nat { 250 * l.clockHz / 12000000 }
  function CommandTime(l: Lcd): nat { 200 * l.clockHz / 12000000 }
  function ClearTime(l: Lcd): nat { 2 * l.clockHz / 12000 }

  /** The address counter moves on after a memory access. */
  function Moved(l: Lcd): Lcd {
    if l.chargen then l.(cursor := l.cursor + 1)
    else l.(cursor := l.cursor + l.dir, shift := if l.shiftOnWrite then l.shift + l.dir else l.shift)
  }

  function Stored(l: Lcd, d: byte): Lcd {
    var m := if l.chargen then l.(cgram := l.cgram[l.cursor % 64 := d]) else l.(ddram := l.ddram[l.cursor % 128 := d]);
    Moved(m).(busy := AccessTime(l))
  }

  function Blank(): DdRam { seq(128, _ => 0x20) }

  /** Instructions 02h to 1Fh: home, entry mode, display control, shifts. */
  function LowCommand(l: Lcd, d: byte): Lcd {
    if d < 4 then l.(cursor := 0, shift := 0)
    else if d < 8 then l.(shiftOnWrite := d % 2 == 1, dir := if d / 2 % 2 == 1 then 1 else -1)
    else if d < 0x10 then l
    else
      var step := if d / 4 % 2 == 1 then 1 else -1;
      if d / 8 % 2 == 1 then l.(cursor := l.cursor + step) else l.(shift := l.shift + step)
  }

  /** Instructions 20h to FFh: function set and the two address sets. */
  function HighCommand(l: Lcd, d: byte): Lcd {
    if d < 0x40 then l.(mode4 := d / 16 % 2 == 0, second := false)
    else if d < 0x80 then l.(chargen := true, cursor := d % 64)
    else l.(chargen := false, cursor := d % 128)
  }

  /** An instruction byte; its topmost set bit tells which. */
  function Command(l: Lcd, d: byte): Lcd {
    if d == 0 then l
    else if d == 1 then l.(ddram := Blank(), cursor := 0, shift := 0, dir := 1, busy := ClearTime(l))
    else (if d < 0x20 then LowCommand(l, d) else HighCommand(l, d)).(busy := CommandTime(l))
  }

  /** A whole byte has arrived; a busy chip ignores it. */
  function Commit(l: Lcd, rs: bool): Lcd {
    if l.busy != 0 then l else if rs then Stored(l, l.latched) else Command(l, l.latched)
  }

  function WriteEdge(l: Lcd, bus: byte, rs: bool): Lcd {
    if !l.mode4 then Commit(l.(latched := bus), rs)
    else if !l.second then l.(latched := l.latched % 16 + bus / 16 * 16, second := true)
    else Commit(l.(latched := l.latched / 16 * 16 + bus / 16, second := false), rs)
  }

  /** What a read fetches into the latch, and for memory the access it is. */
  function Fetched(l: Lcd, rs: bool): Lcd {
    if !rs then
      var a: int := l.cursor % 128;
      l.(latched := if l.busy != 0 then a + 128 else a)
    else if l.busy != 0 then l
    else
      var m := l.(latched := if l.chargen then l.cgram[l.cursor % 64] else l.ddram[l.cursor % 128]);
      if !l.mode4 || l.second then Moved(m).(busy := AccessTime(l)) else m
  }

  function ReadEdge(l: Lcd, rs: bool): Lcd {
    var m := Fetched(l, rs);
    if !l.mode4 then m.(pending := m.latched)
    else if l.second then m.(pending := m.latched % 16 * 16, second := false)
    else m.(pending := m.latched / 16 * 16, second := true)
  }

  /** The E pin written, with the other pins as they stand: a read happens on
      its rising edge and a write on its falling one. */
  function OnE(w: Wired, e: bool, rs: bool, rw: bool, bus: byte): Wired {
    var l1 := if e && !w.e && rw then ReadEdge(w.l, rs) else w.l;
    var l2 := if !e && w.e && !rw then WriteEdge(l1, bus, rs) else l1;
    Wired(l2, e)
  }

  function Tick(l: Lcd): Lcd { if l.busy > 0 then l.(busy := l.busy - 1) else l }

  // --------------------------------------------------------- bus transfers

  /** E up and down once: one transfer of what the bus holds. */
  function Pulse(l: Lcd, rs: bool, rw: bool, bus: byte): Lcd {
    OnE(OnE(Wired(l, false), true, rs, rw, bus), false, rs, rw, bus).l
  }

  /** What the host does: write a byte, read one, let time pass; the low data
      lines carry whatever they carry while a nibble is written. */
  datatype Action = Write(rs: bool, d: byte, j1: byte, j2: byte) | Read(rs: bool) | Wait

  /** One transfer over eight data lines, and the byte the host reads. */
  function Over8(l: Lcd, a: Action): (Lcd, seq<byte>) {
    match a
    case Write(rs, d, _, _) => (Pulse(l, rs, false, d), [])
    case Read(rs) => var m := Pulse(l, rs, true, 0); (m, [m.pending])
    case Wait => (Tick(l), [])
  }

  /** A nibble on the upper data lines, with anything on the lower ones. */
  function OnTop(nibble: nat, junk: byte): byte
    requires nibble < 16
  {
    nibble * 16 + junk % 16
  }

  /** The byte whose nibbles were read on the upper data lines. */
  function Joined(high: byte, low: byte): byte { high / 16 * 16 + low / 16 }

  /** The same over four: high nibble, then low nibble. */
  function Over4(l: Lcd, a: Action): (Lcd, seq<byte>) {
    match a
    case Write(rs, d, j1, j2) =>
      var high, low := OnTop(d / 16, j1), OnTop(d % 16, j2);
      (Pulse(Pulse(l, rs, false, high), rs, false, low), [])
    case Read(rs) =>
      var m1 := Pulse(l, rs, true, 0);
      var m2 := Pulse(m1, rs, true, 0);
      (m2, [Joined(m1.pending, m2.pending)])
    case Wait => (Tick(l), [])
  }

  function Run8(l: Lcd, actions: seq<Action>): (Lcd, seq<byte>) {
    if actions == [] then (l, [])
    else
      var n := |actions| - 1;
      var (m, out) := Run8(l, actions[..n]);
      var (r, o) := Over8(m, actions[n]);
      (r, out + o)
  }

  function Run4(l: Lcd, actions: seq<Action>): (Lcd, seq<byte>) {
    if actions == [] then (l, [])
    else
      var n := |actions| - 1;
      var (m, out) := Run4(l, actions[..n]);
      var (r, o) := Over4(m, actions[n]);
      (r, out + o)
  }

  /** A function-set command the chip would obey: it changes the interface. */
  predicate SetsInterface(l: Lcd, a: Action) {
    a.Write? && !a.rs && 0x20 <= a.d < 0x40 && l.busy == 0
  }

  predicate KeepsInterface(l: Lcd, actions: seq<Action>) {
    forall i :: 0 <= i < |actions| ==> !SetsInterface(Run8(l, actions[..i]).0, actions[i])
  }

  // ---------------------------------------------------------- bisimulation

  /** Equal but for the interface width and what the data pins present. */
  predicate Alike(l: Lcd, f: Lcd) {
    && !l.mode4 && !l.second
    && f == l.(mode4 := true, pending := f.pending)
  }

  lemma CommitAlike(l: Lcd, f: Lcd, rs: bool)
    requires Alike(l, f) && !(!rs && 0x20 <= l.latched < 0x40 && l.busy == 0)
    ensures Alike(Commit(l, rs), Commit(f, rs))
  {
    hide Blank;
  }

  /** E up and down is one edge that counts. */
  lemma PulseIsEdge(l: Lcd, rs: bool, rw: bool, bus: byte)
    ensures Pulse(l, rs, rw, bus) == if rw then ReadEdge(l, rs) else WriteEdge(l, bus, rs)
  {
    hide WriteEdge;
    hide ReadEdge;
  }

  lemma WriteAlike(l: Lcd, f: Lcd, a: Action)
    requires Alike(l, f) && a.Write? && !SetsInterface(l, a)
    ensures Alike(Over8(l, a).0, Over4(f, a).0) && Over8(l, a).1 == Over4(f, a).1
  {
    hide Commit;
    hide Pulse;
    hide OnTop;
    var high, low := OnTop(a.d / 16, a.j1), OnTop(a.d % 16, a.j2);
    PulseIsEdge(l, a.rs, false, a.d);
    PulseIsEdge(f, a.rs, false, high);
    PulseIsEdge(Pulse(f, a.rs, false, high), a.rs, false, low);
    CommitAlike(l.(latched := a.d), f.(latched := a.d), a.rs);
    NibblesMakeByte(f.latched, a.d, a.j1, a.j2);
  }

  lemma NibblesMakeByte(was: byte, d: byte, j1: byte, j2: byte)
    ensures var first: int := was % 16 + OnTop(d / 16, j1) / 16 * 16;
            0 <= first < 256 && first / 16 * 16 + OnTop(d % 16, j2) / 16 == d
  {
  }

  lemma ReadAlike(l: Lcd, f: Lcd, a: Action)
    requires Alike(l, f) && a.Read?
    ensures Alike(Over8(l, a).0, Over4(f, a).0) && Over8(l, a).1 == Over4(f, a).1
  {
    hide Pulse;
    PulseIsEdge(l, a.rs, true, 0);
    PulseIsEdge(f, a.rs, true, 0);
    PulseIsEdge(Pulse(f, a.rs, true, 0), a.rs, true, 0);
  }

  /** Over any transfers that leave the interface width alone, with waits only
      between bytes, the chip driven four bits at a time stays like the one
      driven eight, and the host reads the same bytes. */
  lemma {:induction false} NibblesAreBytes(l: Lcd, f: Lcd, actions: seq<Action>)
    requires Alike(l, f) && KeepsInterface(l, actions)
    ensures Alike(Run8(l, actions).0, Run4(f, actions).0)
    ensures Run8(l, actions).1 == Run4(f, actions).1
    decreases actions
  {
    hide Over8;
    hide Over4;
    hide SetsInterface;
    hide Alike;
    if actions == [] {
    } else {
      var n := |actions| - 1;
      var before, a := actions[..n], actions[n];
      KeepsBefore(l, actions);
      NibblesAreBytes(l, f, before);
      var l1, f1 := Run8(l, before).0, Run4(f, before).0;
      ActionAlike(l1, f1, a);
    }
  }

  lemma KeepsBefore(l: Lcd, actions: seq<Action>)
    requires KeepsInterface(l, actions) && actions != []
    ensures KeepsInterface(l, actions[..|actions| - 1])
    ensures !SetsInterface(Run8(l, actions[..|actions| - 1]).0, actions[|actions| - 1])
  {
    hide Run8;
    hide SetsInterface;
    var before := actions[..|actions| - 1];
    forall i | 0 <= i < |before| ensures !SetsInterface(Run8(l, before[..i]).0, before[i]) {
      assert before[..i] == actions[..i];
    }
  }

  lemma ActionAlike(l: Lcd, f: Lcd, a: Action)
    requires Alike(l, f) && !SetsInterface(l, a)
    ensures Alike(Over8(l, a).0, Over4(f, a).0) && Over8(l, a).1 == Over4(f, a).1
  {
    match a
    case Write(_, _, _, _) => WriteAlike(l, f, a);
    case Read(_) => ReadAlike(l, f, a);
    case Wait =>
  }

  /** Time passing between the nibbles of a written byte might as well have
      passed before it. */
  lemma WaitInsideWrite(f: Lcd, rs: bool, d: byte)
    requires f.mode4 && !f.second
    ensures var high: byte := d / 16 * 16;
            var low: byte := d % 16 * 16;
            Pulse(Tick(Pulse(f, rs, false, high)), rs, false, low)
            == Pulse(Pulse(Tick(f), rs, false, high), rs, false, low)
  {
    hide Commit;
  }

  /** The memory byte the address counter is at. */
  function AtCursor(l: Lcd): byte {
    if l.chargen then l.cgram[l.cursor % 64] else l.ddram[l.cursor % 128]
  }

  /** The chip after the two nibbles of a read, with a tick between them if
      `between`, else before them; and the byte the host puts together. */
  function ReadWithWait(f: Lcd, rs: bool, between: bool): (Lcd, byte) {
    var m1 := Pulse(if between then f else Tick(f), rs, true, 0);
    var m2 := Pulse(if between then Tick(m1) else m1, rs, true, 0);
    (m2, Joined(m1.pending, m2.pending))
  }

  /** A tick between the nibbles of a read leaves the chip as a tick before them
      does, but the host gets the same byte if and only if the tick did not end
      a busy period, or the read is of memory and the byte latched before had
      the same high nibble. */
  lemma WaitInsideRead(f: Lcd, rs: bool)
    requires f.mode4 && !f.second
    ensures ReadWithWait(f, rs, true).0 == ReadWithWait(f, rs, false).0
    ensures ReadWithWait(f, rs, true).1 == ReadWithWait(f, rs, false).1
            <==> f.busy != 1 || (rs && f.latched / 16 == AtCursor(f) / 16)
  {
    hide Pulse;
    PulseIsEdge(f, rs, true, 0);
    PulseIsEdge(Tick(f), rs, true, 0);
    PulseIsEdge(Tick(Pulse(f, rs, true, 0)), rs, true, 0);
    PulseIsEdge(Pulse(Tick(f), rs, true, 0), rs, true, 0);
    hide AccessTime;
  }

  /** A chip on which it matters: just ready, 41h latched and 52h at the cursor,
      it gives the host 42h, a byte that was nowhere. */
  lemma MixedNibbles(f: Lcd)
    requires f.mode4 && !f.second && f.busy == 1 && f.latched == 0x41 && AtCursor(f) == 0x52
    ensures ReadWithWait(f, true, true).1 == 0x42 && ReadWithWait(f, true, false).1 == 0x52
  {
    hide AccessTime;
  }

  // ------------------------------------------------------------- the object

  class Hd44780 {
    const clockHz: nat
    const ddram: array<byte>
    const cgram: array<byte>
    var cursorPos: int
    var shiftOfs: int
    var dir: int
    var shiftOnWrite: bool
    var chargenMode: bool
    var mode4bit: bool
    var nibbleTick: bool
    var busyTicks: nat
    var latchedByte: byte
    var pendingReadValue: byte
    var lastE: bool

    predicate Valid() { ddram.Length == 128 && cgram.Length == 64 && ddram != cgram }

    function State(): Lcd
      requires Valid()
      reads this, ddram, cgram
    {
      Lcd(clockHz, ddram[..], cgram[..], cursorPos, shiftOfs, dir, shiftOnWrite, chargenMode, mode4bit, nibbleTick,
          busyTicks, latchedByte, pendingReadValue)
    }

    /** Power-on: spaces in DDRAM, eight data lines, counting up, not busy. */
    constructor (hz: nat)
      ensures Valid() && fresh(ddram) && fresh(cgram)
      ensures State() == Lcd(hz, Blank(), seq(64, _ => 0), 0, 0, 1, false, false, false, false, 0, 0, 0)
      ensures !lastE
    {
      clockHz := hz;
      ddram := new byte[128](_ => 0x20);
      cgram := new byte[64](_ => 0);
      cursorPos, shiftOfs, dir, shiftOnWrite, chargenMode, mode4bit, nibbleTick := 0, 0, 1, false, false, false, false;
      busyTicks, latchedByte, pendingReadValue, lastE := 0, 0, 0, false;
    }

    method Advance()
      requires Valid()
      modifies `cursorPos, `shiftOfs
      ensures State() == Moved(old(State()))
    {
      if !chargenMode {
        cursorPos := cursorPos + dir;
        if shiftOnWrite { shiftOfs := shiftOfs + dir; }
      } else {
        cursorPos := cursorPos + 1;
      }
    }

    method StoreByte(d: byte)
      requires Valid()
      modifies this, ddram, cgram
      ensures State() == Stored(old(State()), d)
    {
      hide Moved;
      if !chargenMode { ddram[cursorPos % 128] := d; } else { cgram[cursorPos % 64] := d; }
      ghost var m := State();
      Advance();
      MovedTime(m);
      busyTicks := 250 * clockHz / 12000000;
    }

    method ClearDisplay()
      requires Valid()
      modifies ddram
      ensures State() == old(State()).(ddram := Blank())
    {
      var i := 0;
      while i < 128
        invariant 0 <= i <= 128
        invariant forall k :: 0 <= k < i ==> ddram[k] == 0x20
      {
        ddram[i] := 0x20;
        i := i + 1;
      }
      assert ddram[..] == Blank();
    }

    method DecodeLow(d: byte)
      requires Valid()
      modifies `cursorPos, `shiftOfs, `shiftOnWrite, `dir
      ensures State() == LowCommand(old(State()), d)
    {
      if d < 4 {
        cursorPos, shiftOfs := 0, 0;
      } else if d < 8 {
        shiftOnWrite := d % 2 == 1;
        dir := if d / 2 % 2 == 1 then 1 else -1;
      } else if d < 0x10 {
      } else {
        var step := if d / 4 % 2 == 1 then 1 else -1;
        if d / 8 % 2 == 1 { cursorPos := cursorPos + step; } else { shiftOfs := shiftOfs + step; }
      }
    }

    method DecodeHigh(d: byte)
      requires Valid()
      modifies `cursorPos, `chargenMode, `mode4bit, `nibbleTick
      ensures State() == HighCommand(old(State()), d)
    {
      if d < 0x40 {
        mode4bit := d / 16 % 2 == 0;
        nibbleTick := false;
      } else if d < 0x80 {
        chargenMode := true;
        cursorPos := d % 64;
      } else {
        chargenMode := false;
        cursorPos := d % 128;
      }
    }

    method Decode(d: byte)
      requires Valid()
      modifies this, ddram
      ensures State() == Command(old(State()), d)
    {
      hide Blank;
      hide LowCommand;
      hide HighCommand;
      if d == 0 { return; }
      if d == 1 {
        ClearDisplay();
        cursorPos, shiftOfs, dir := 0, 0, 1;
        busyTicks := 2 * clockHz / 12000;
        return;
      }
      if d < 0x20 { DecodeLow(d); } else { DecodeHigh(d); }
      busyTicks := 200 * clockHz / 12000000;
    }

    method CommitWrite(rs: bool)
      requires Valid()
      modifies this, ddram, cgram
      ensures State() == Commit(old(State()), rs)
    {
      hide Stored;
      hide Command;
      if rs {
        if busyTicks != 0 { return; }
        StoreByte(latchedByte);
        return;
      }
      if busyTicks != 0 { return; }
      Decode(latchedByte);
    }

    method HandleWriteEdge(bus: byte, rs: bool)
      requires Valid()
      modifies this, ddram, cgram
      ensures State() == WriteEdge(old(State()), bus, rs)
    {
      hide Commit;
      if !mode4bit {
        latchedByte := bus;
      } else {
        if !nibbleTick {
          latchedByte := latchedByte % 16 + bus / 16 * 16;
        } else {
          latchedByte := latchedByte / 16 * 16 + bus / 16;
        }
        nibbleTick := !nibbleTick;
      }
      if !mode4bit || !nibbleTick { CommitWrite(rs); }
    }

    method Fetch(rs: bool)
      requires Valid()
      modifies this
      ensures State() == Fetched(old(State()), rs)
    {
      hide Moved;
      if rs {
        if busyTicks == 0 {
          if !chargenMode {
            latchedByte := ddram[cursorPos % 128];
          } else {
            latchedByte := cgram[cursorPos % 64];
          }
          if !mode4bit || nibbleTick {
            Advance();
            busyTicks := 250 * clockHz / 12000000;
          }
        }
      } else {
        latchedByte := cursorPos % 128;
        if busyTicks != 0 { latchedByte := latchedByte + 128; }
      }
    }

    method HandleReadEdge(rs: bool)
      requires Valid()
      modifies this
      ensures State() == ReadEdge(old(State()), rs)
    {
      hide Fetched;
      ghost var l := State();
      Fetch(rs);
      FetchedKeepsMode(l, rs);
      if !mode4bit {
        pendingReadValue := latchedByte;
      } else {
        if nibbleTick {
          pendingReadValue := latchedByte % 16 * 16;
        } else {
          pendingReadValue := latchedByte / 16 * 16;
        }
        nibbleTick := !nibbleTick;
      }
    }

    /** The E pin changed, or was written as it was. */
    method OnEWrite(e: bool, rs: bool, rw: bool, bus: byte)
      requires Valid()
      modifies this, ddram, cgram
      ensures Wired(State(), lastE) == OnE(Wired(old(State()), old(lastE)), e, rs, rw, bus)
    {
      hide ReadEdge;
      hide WriteEdge;
      if e && !lastE && rw { HandleReadEdge(rs); }
      if !e && lastE && !rw { HandleWriteEdge(bus, rs); }
      lastE := e;
    }

    method Step()
      requires Valid()
      modifies `busyTicks
      ensures State() == Tick(old(State()))
    {
      if busyTicks > 0 { busyTicks := busyTicks - 1; }
    }
  }

  lemma MovedTime(l: Lcd)
    ensures Moved(l) == l.(cursor := Moved(l).cursor, shift := Moved(l).shift)
  {
  }

  lemma FetchedKeepsMode(l: Lcd, rs: bool)
    ensures Fetched(l, rs).mode4 == l.mode4 && Fetched(l, rs).second == l.second
  {
  }
}
