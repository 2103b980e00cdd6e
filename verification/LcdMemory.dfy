/** What a host sees of the HD44780 through its bus: each instruction by the
    address and the bytes read back after it, and text written and read. */
module LcdMemory {
  import opened Bytes
  import opened LcdController

  /** An eight-bit chip, not busy. */
  predicate Ready(l: Lcd) { !l.mode4 && !l.second && l.busy == 0 }

  // ------------------------------------------------------- letting time pass

  function Waited(l: Lcd, n: nat): Lcd
    decreases n
  {
    if n == 0 then l else Waited(Over8(l, Wait).0, n - 1)
  }

  lemma {:induction false} WaitsOut(l: Lcd, n: nat)
    requires n >= l.busy
    ensures Waited(l, n) == l.(busy := 0)
    decreases n
  {
    if n == 0 {
    } else {
      WaitsOut(Over8(l, Wait).0, n - 1);
    }
  }

  /** One transfer, and then as long a wait as the chip is busy. */
  function Done(l: Lcd, a: Action): Lcd {
    var m := Over8(l, a).0;
    Waited(m, m.busy)
  }

  lemma DoneIs(l: Lcd, a: Action)
    ensures Done(l, a) == Over8(l, a).0.(busy := 0)
  {
    WaitsOut(Over8(l, a).0, Over8(l, a).0.busy);
    hide Over8;
  }

  function Instruct(l: Lcd, d: byte): Lcd { Done(l, Write(false, d, 0, 0)) }
  function Put(l: Lcd, d: byte): Lcd { Done(l, Write(true, d, 0, 0)) }
  function Take(l: Lcd): Lcd { Done(l, Read(true)) }

  /** The status byte and the data byte the host would read now. */
  function Status(l: Lcd): byte { Over8(l, Read(false)).1[0] }
  function Data(l: Lcd): byte { Over8(l, Read(true)).1[0] }

  lemma StatusIs(l: Lcd)
    requires !l.mode4
    ensures Status(l) == l.cursor % 128 + (if l.busy != 0 then 128 else 0)
  {
    hide Pulse;
    PulseIsEdge(l, false, true, 0);
  }

  lemma DataIs(l: Lcd)
    requires Ready(l)
    ensures Data(l) == AtCursor(l)
    ensures Take(l) == Moved(l).(latched := AtCursor(l), pending := AtCursor(l), busy := 0)
  {
    hide Pulse;
    PulseIsEdge(l, true, true, 0);
    DoneIs(l, Read(true));
    hide Done;
  }

  lemma InstructIs(l: Lcd, d: byte)
    requires Ready(l)
    ensures Instruct(l, d) == Command(l.(latched := d), d).(busy := 0)
  {
    hide Pulse;
    hide Command;
    PulseIsEdge(l, false, false, d);
    DoneIs(l, Write(false, d, 0, 0));
    hide Done;
  }

  lemma PutIs(l: Lcd, d: byte)
    requires Ready(l)
    ensures Put(l, d) == Stored(l.(latched := d), d).(busy := 0)
  {
    hide Pulse;
    hide Stored;
    PulseIsEdge(l, true, false, d);
    DoneIs(l, Write(true, d, 0, 0));
    hide Done;
  }

  // ------------------------------------------------------ the instructions

  /** The address read back after an instruction that leaves the interface eight
      bits wide: 80h and up sets the DDRAM address, 40h and up the CGRAM one,
      clear and home go to 0, 18h to 1Fh move the cursor, the others leave it. */
  lemma AddressAfter(l: Lcd, d: byte)
    requires Ready(l) && !(0x20 <= d < 0x30)
    ensures Ready(Instruct(l, d))
    ensures Status(Instruct(l, d)) ==
            if d >= 0x80 then d - 0x80
            else if d >= 0x40 then d - 0x40
            else if 1 <= d <= 3 then 0
            else if 0x18 <= d < 0x1C then (l.cursor - 1) % 128
            else if 0x1C <= d < 0x20 then (l.cursor + 1) % 128
            else l.cursor % 128
  {
    hide Instruct;
    hide Command;
    hide Status;
    InstructIs(l, d);
    AddressSet(l.(latched := d), d);
    StatusIs(Command(l.(latched := d), d).(busy := 0));
  }

  lemma AddressSet(l: Lcd, d: byte)
    requires !l.mode4 && !l.second && !(0x20 <= d < 0x30)
    ensures var r := Command(l, d);
            && !r.mode4 && !r.second
            && r.cursor % 128 ==
               if d >= 0x80 then d - 0x80
               else if d >= 0x40 then d - 0x40
               else if 1 <= d <= 3 then 0
               else if 0x18 <= d < 0x1C then (l.cursor - 1) % 128
               else if 0x1C <= d < 0x20 then (l.cursor + 1) % 128
               else l.cursor % 128
  {
    hide Blank;
    hide CommandTime;
    hide ClearTime;
    hide LowCommand;
    hide HighCommand;
    if d >= 0x20 { HighAddress(l, d); } else if d >= 2 { LowAddress(l, d); }
  }

  lemma HighAddress(l: Lcd, d: byte)
    requires d >= 0x30
    ensures var r := HighCommand(l, d);
            && (!l.mode4 && !l.second ==> !r.mode4 && !r.second)
            && r.cursor % 128 == if d >= 0x80 then d - 0x80 else if d >= 0x40 then d - 0x40 else l.cursor % 128
  {
    assert d >= 0x80 ==> d % 128 == d - 0x80;
    assert 0x40 <= d < 0x80 ==> d % 64 == d - 0x40;
  }

  lemma LowAddress(l: Lcd, d: byte)
    requires 2 <= d < 0x20
    ensures var r := LowCommand(l, d);
            && r.mode4 == l.mode4 && r.second == l.second
            && r.cursor == if d <= 3 then 0
                           else if 0x18 <= d < 0x1C then l.cursor - 1
                           else if 0x1C <= d < 0x20 then l.cursor + 1
                           else l.cursor
  {
  }

  /** Function set: bit 4 is the width, and a nibble begun is forgotten. */
  lemma WidthAfter(l: Lcd, d: byte)
    requires Ready(l) && 0x20 <= d < 0x40
    ensures Instruct(l, d) == l.(latched := d, mode4 := d < 0x30, second := false)
  {
    InstructIs(l, d);
    hide Instruct;
  }

  /** Which memory the next access goes to: CGRAM after 40h to 7Fh, DDRAM after
      80h to FFh, the same as before after anything else, a clear included. */
  lemma MemoryAfter(l: Lcd, d: byte)
    requires Ready(l)
    ensures Instruct(l, d).chargen == if d >= 0x80 then false else if d >= 0x40 then true else l.chargen
    ensures Instruct(l, d).cgram == l.cgram
    ensures Instruct(l, d).ddram == if d == 1 then seq(128, _ => 0x20) else l.ddram
  {
    InstructIs(l, d);
    hide Instruct;
    assert Blank() == seq(128, _ => 0x20);
    hide Blank;
  }

  /** How the display is shifted: clear and home undo it, 10h to 13h shift it
      left, 14h to 17h right, and nothing else shifts it. */
  lemma ShiftAfter(l: Lcd, d: byte)
    requires Ready(l)
    ensures Instruct(l, d).shift ==
            if 1 <= d <= 3 then 0
            else if 0x10 <= d < 0x14 then l.shift - 1
            else if 0x14 <= d < 0x18 then l.shift + 1
            else l.shift
  {
    InstructIs(l, d);
    hide Instruct;
    hide Blank;
  }

  /** The entry mode: 06h and 07h count up, 04h and 05h down, 05h and 07h take
      the display along; a clear counts up again, no other instruction matters. */
  lemma EntryAfter(l: Lcd, d: byte)
    requires Ready(l)
    ensures Instruct(l, d).dir == if d == 1 || 6 <= d <= 7 then 1 else if 4 <= d <= 5 then -1 else l.dir
    ensures Instruct(l, d).shiftOnWrite == if 4 <= d <= 7 then d % 2 == 1 else l.shiftOnWrite
  {
    InstructIs(l, d);
    hide Instruct;
    hide Blank;
  }

  // ------------------------------------------------------------------ text

  function PutAll(l: Lcd, text: seq<byte>): Lcd {
    if text == [] then l else Put(PutAll(l, text[..|text| - 1]), text[|text| - 1])
  }

  /** n data reads: the chip after them, and the bytes. */
  function TakeAll(l: Lcd, n: nat): (Lcd, seq<byte>) {
    if n == 0 then (l, [])
    else
      var (m, bytes) := TakeAll(l, n - 1);
      (Take(m), bytes + [Data(m)])
  }

  /** Displaying characters, the entry mode counting one way or the other. */
  predicate Displaying(l: Lcd) { Ready(l) && !l.chargen && (l.dir == 1 || l.dir == -1) }

  lemma PutOne(l: Lcd, d: byte)
    requires Displaying(l)
    ensures var r := Put(l, d);
            && Displaying(r) && r.ddram == l.ddram[l.cursor % 128 := d] && r.cgram == l.cgram
            && r.cursor == l.cursor + l.dir && r.dir == l.dir && r.shiftOnWrite == l.shiftOnWrite
            && r.shift == l.shift + (if l.shiftOnWrite then l.dir else 0)
  {
    PutIs(l, d);
    hide Put;
  }

  lemma TakeOne(l: Lcd)
    requires Displaying(l)
    ensures var r := Take(l);
            && Displaying(r) && r.ddram == l.ddram && r.cgram == l.cgram
            && r.cursor == l.cursor + l.dir && r.dir == l.dir && r.shiftOnWrite == l.shiftOnWrite
            && Data(l) == l.ddram[l.cursor % 128]
  {
    DataIs(l);
    hide Take;
    hide Data;
  }

  lemma PlacesDiffer(at: int, dir: int, i: nat, j: nat)
    requires (dir == 1 || dir == -1) && i < j < i + 128
    ensures (at + dir * i) % 128 != (at + dir * j) % 128
  {
    var x, y := at + dir * i, at + dir * j;
    if x % 128 == y % 128 {
      assert x - y == 128 * (x / 128 - y / 128);
    }
  }

  /** The place of the i-th character from the cursor on. */
  function Spot(l: Lcd, i: nat): nat { (l.cursor + l.dir * i) % 128 }

  /** The text stands in r from the cursor of l on, and all else is as in l. */
  predicate Stands(l: Lcd, r: Lcd, text: seq<byte>) {
    && (forall i :: 0 <= i < |text| ==> r.ddram[Spot(l, i)] == text[i])
    && (forall a :: 0 <= a < 128 && (forall i :: 0 <= i < |text| ==> Spot(l, i) != a) ==> r.ddram[a] == l.ddram[a])
  }

  lemma OneMoreStands(l: Lcd, m: Lcd, r: Lcd, text: seq<byte>)
    requires 0 < |text| <= 128 && (l.dir == 1 || l.dir == -1)
    requires Stands(l, m, text[..|text| - 1])
    requires r.ddram == m.ddram[Spot(l, |text| - 1) := text[|text| - 1]]
    ensures Stands(l, r, text)
  {
    var n := |text| - 1;
    forall i | 0 <= i < n ensures r.ddram[Spot(l, i)] == text[i] {
      PlacesDiffer(l.cursor, l.dir, i, n);
      assert m.ddram[Spot(l, i)] == text[..n][i];
    }
    hide Spot;
    forall a | 0 <= a < 128 && (forall i :: 0 <= i < |text| ==> Spot(l, i) != a) ensures r.ddram[a] == l.ddram[a] {
      assert Spot(l, n) != a;
    }
  }

  lemma NextSpot(l: Lcd, n: nat)
    ensures l.cursor + l.dir * n + l.dir == l.cursor + l.dir * (n + 1)
    ensures (l.cursor + l.dir * n) % 128 == Spot(l, n)
  {
  }

  /** Up to 128 characters written one behind the other stand at successive
      addresses modulo 128 in the direction of the entry mode; every other byte
      of the memory is as it was. */
  lemma {:induction false} TextStands(l: Lcd, text: seq<byte>)
    requires Displaying(l) && |text| <= 128
    ensures var r := PutAll(l, text);
            && Displaying(r) && r.cursor == l.cursor + l.dir * |text| && r.dir == l.dir && r.cgram == l.cgram
            && r.shiftOnWrite == l.shiftOnWrite
            && r.shift == l.shift + (if l.shiftOnWrite then l.dir * |text| else 0)
            && Stands(l, r, text)
    decreases text
  {
    hide Displaying;
    hide Put;
    hide Spot;
    if text == [] {
    } else {
      hide Stands;
      var n := |text| - 1;
      TextStands(l, text[..n]);
      var m := PutAll(l, text[..n]);
      PutOne(m, text[n]);
      NextSpot(l, n);
      DirectionOf(l);
      OneMoreStands(l, m, Put(m, text[n]), text);
    }
  }

  lemma DirectionOf(l: Lcd)
    requires Displaying(l)
    ensures l.dir == 1 || l.dir == -1
  {
  }

  lemma {:induction false} TextRead(l: Lcd, n: nat)
    requires Displaying(l)
    ensures var (r, bytes) := TakeAll(l, n);
            && Displaying(r) && r.cursor == l.cursor + l.dir * n && r.dir == l.dir && r.ddram == l.ddram
            && |bytes| == n && forall i :: 0 <= i < n ==> bytes[i] == l.ddram[Spot(l, i)]
  {
    hide Displaying;
    hide Take;
    hide Data;
    hide Spot;
    if n == 0 {
    } else {
      TextRead(l, n - 1);
      TakeOne(TakeAll(l, n - 1).0);
      NextSpot(l, n - 1);
    }
  }

  lemma AtAddress(l: Lcd, at: nat)
    requires Ready(l) && (l.dir == 1 || l.dir == -1) && at < 128
    ensures var r := Instruct(l, 0x80 + at);
            Displaying(r) && r.cursor == at && r.dir == l.dir && r.ddram == l.ddram
  {
    InstructIs(l, 0x80 + at);
    hide Instruct;
  }

  /** Set an address, write a text, set the address again and read: the text. */
  lemma TextRoundTrip(l: Lcd, at: nat, text: seq<byte>)
    requires Ready(l) && (l.dir == 1 || l.dir == -1) && at < 128 && |text| <= 128
    ensures TakeAll(Instruct(PutAll(Instruct(l, 0x80 + at), text), 0x80 + at), |text|).1 == text
  {
    hide Instruct;
    hide PutAll;
    hide TakeAll;
    AtAddress(l, at);
    var m := Instruct(l, 0x80 + at);
    TextStands(m, text);
    var w := PutAll(m, text);
    AtAddress(w, at);
    TextRead(Instruct(w, 0x80 + at), |text|);
  }
}
