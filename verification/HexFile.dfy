/** The Intel HEX loader over a sequence of characters, and the printer it
    undoes. */
module HexFile {
  import opened Bytes

  // -------------------------------------------------------------- reading

  /** A stdio stream: what is left, and whether a read has run into its end. */
  datatype Stream = Stream(rest: string, eof: bool)

  function GetC(s: Stream): (Option<char>, Stream) {
    if s.rest == [] then (None, s.(eof := true)) else (Some(s.rest[0]), s.(rest := s.rest[1..]))
  }

  function HexValue(c: Option<char>): (v: Option<nat>)
    ensures v.Some? ==> v.value < 16
  {
    if c.None? then None
    else if '0' <= c.value <= '9' then Some((c.value - '0') as nat)
    else if 'A' <= c.value <= 'F' then Some((c.value - 'A') as nat + 10)
    else if 'a' <= c.value <= 'f' then Some((c.value - 'a') as nat + 10)
    else None
  }

  predicate IsSpace(c: Option<char>) {
    c.Some? && (c.value == ' ' || '\t' <= c.value <= '\r')
  }

  /** strtol, base 16, of a string of two characters: white space and a sign
      may take the place of the first digit. */
  function ParseHex(a: Option<char>, b: Option<char>): (v: int)
    ensures -15 <= v <= 255
  {
    var x, y := HexValue(a), HexValue(b);
    if x.Some? then (if y.Some? then 16 * x.value + y.value else x.value)
    else if y.None? then 0
    else if IsSpace(a) || a == Some('+') then y.value
    else if a == Some('-') then -(y.value as int)
    else 0
  }

  function ReadByte(s: Stream): (r: (int, Stream))
    ensures |r.1.rest| <= |s.rest| && (s.eof ==> r.1.eof)
    ensures s.rest == [] ==> r.1.eof && r.1.rest == []
    ensures s.rest != [] ==> |r.1.rest| < |s.rest|
  {
    var (a, s1) := GetC(s);
    var (b, s2) := GetC(s1);
    (ParseHex(a, b), s2)
  }

  function ReadData(s: Stream, n: int): (r: (seq<int>, Stream))
    ensures |r.1.rest| <= |s.rest| && (s.eof ==> r.1.eof) && (s.rest == [] && s.eof ==> r.1.rest == [])
    ensures |r.0| == if n > 0 then n else 0
    decreases n
  {
    if n <= 0 then ([], s)
    else
      var (v, s1) := ReadByte(s);
      var (vs, s2) := ReadData(s1, n - 1);
      ([v] + vs, s2)
  }

  /** On to behind the next colon, or to the end. */
  function SkipToColon(s: Stream): (r: Stream)
    ensures |r.rest| <= |s.rest| && (s.eof ==> r.eof) && (s.rest == [] ==> r.rest == [])
    decreases |s.rest|
  {
    if s.rest == [] then s.(eof := true)
    else if s.rest[0] == ':' then s.(rest := s.rest[1..])
    else if s.eof then s.(rest := s.rest[1..])
    else SkipToColon(s.(rest := s.rest[1..]))
  }

  /** A result code and the code bytes written, in order. */
  datatype Outcome = Outcome(code: int, writes: seq<(int, byte)>)

  /** (hi << 8) | lo, as C computes it when a byte may have come out negative. */
  function JoinAddress(hi: int, lo: int): int {
    if lo >= 0 then 256 * hi + lo else lo
  }

  function Sum(vs: seq<int>): int {
    if vs == [] then 0 else vs[0] + Sum(vs[1..])
  }

  function WritesAt(address: int, vs: seq<int>): (w: seq<(int, byte)>)
    ensures |w| == |vs|
  {
    seq(|vs|, i requires 0 <= i < |vs| => (address + i, vs[i] % 256))
  }

  /** One record: the load ends there, or goes on behind it. */
  datatype Step = Stop(code: int, writes: seq<(int, byte)>) | GoOn(writes: seq<(int, byte)>, s: Stream)

  function LoadRecord(s: Stream): (r: Step)
    ensures r.GoOn? && !s.eof ==> |r.s.rest| < |s.rest| || (r.s.eof && |r.s.rest| <= |s.rest|)
  {
    var (len, s1) := ReadByte(s);
    var (hi, s2) := ReadByte(s1);
    var (lo, s3) := ReadByte(s2);
    var address := JoinAddress(hi, lo);
    var (kind, s4) := ReadByte(s3);
    if kind == 1 then Stop(0, [])
    else if kind != 0 then Stop(-3, [])
    else
      var (data, s5) := ReadData(s4, len);
      var (check, s6) := ReadByte(s5);
      var sum := (len + address % 256 + address / 256 + Sum(data)) % 256;
      var writes := WritesAt(address, data);
      if check != (256 - sum) % 256 then Stop(-4, writes) else GoOn(writes, SkipToColon(s6))
  }

  /** The loop of the loader: one record after another. */
  function LoadRecords(s: Stream): Outcome
    decreases |s.rest|, if s.eof then 0 else 1
  {
    if s.eof then Outcome(-5, [])
    else
      match LoadRecord(s)
      case Stop(code, writes) => Outcome(code, writes)
      case GoOn(writes, s') =>
        var rest := LoadRecords(s');
        Outcome(rest.code, writes + rest.writes)
  }

  function Load(text: string): Outcome {
    if text == [] || text[0] != ':' then Outcome(-2, [])
    else LoadRecords(Stream(text[1..], false))
  }

  // ------------------------------------------------------------- printing

  function HexDigit(n: nat): char
    requires n < 16
  {
    "0123456789ABCDEF"[n]
  }

  function Hex2(b: byte): string { [HexDigit(b / 16), HexDigit(b % 16)] }

  function HexBytes(data: seq<byte>): string {
    if data == [] then "" else Hex2(data[0]) + HexBytes(data[1..])
  }

  /** A data record with the check byte it carries, right or wrong. */
  datatype Record = Record(address: word, data: seq<byte>, check: byte)

  function SumOf(address: word, data: seq<byte>): int {
    |data| + address % 256 + address / 256 + Sum(data)
  }

  /** The check byte that belongs to a record. */
  function CheckOf(address: word, data: seq<byte>): byte {
    (256 - SumOf(address, data) % 256) % 256
  }

  predicate Printable(r: Record) { |r.data| <= 255 }
  predicate Correct(r: Record) { r.check == CheckOf(r.address, r.data) }

  /** A record after its colon, up to its check byte and up to the next line. */
  function Digits(r: Record): string
    requires Printable(r)
  {
    Hex2(|r.data|) + Hex2(r.address / 256) + Hex2(r.address % 256) + Hex2(0) + HexBytes(r.data) + Hex2(r.check)
  }

  function Body(r: Record): string
    requires Printable(r)
  {
    Digits(r) + "\n"
  }

  const END_BODY := "00000001FF\n"

  predicate AllPrintable(rs: seq<Record>) { forall i :: 0 <= i < |rs| ==> Printable(rs[i]) }

  /** The file after its first colon. */
  function Tail(rs: seq<Record>): string
    requires AllPrintable(rs)
  {
    if rs == [] then END_BODY else Body(rs[0]) + ":" + Tail(rs[1..])
  }

  function Print(rs: seq<Record>): string
    requires AllPrintable(rs)
  {
    ":" + Tail(rs)
  }

  // ---------------------------------------------------- the two together

  lemma HexDigitValue(n: nat)
    requires n < 16
    ensures HexValue(Some(HexDigit(n))) == Some(n)
  {
  }

  lemma ReadHex2(b: byte, rest: string)
    ensures ReadByte(Stream(Hex2(b) + rest, false)) == (b, Stream(rest, false))
  {
    HexDigitValue(b / 16);
    HexDigitValue(b % 16);
    var t := Hex2(b) + rest;
    assert t[0] == HexDigit(b / 16) && t[1..][0] == HexDigit(b % 16) && t[1..][1..] == rest;
    hide HexDigit;
    hide HexValue;
  }

  lemma {:induction false} ReadHexBytes(data: seq<byte>, rest: string)
    ensures ReadData(Stream(HexBytes(data) + rest, false), |data|) == (data, Stream(rest, false))
    decreases data
  {
    hide ReadByte;
    hide Hex2;
    if data == [] {
      assert HexBytes(data) + rest == rest;
    } else {
      assert HexBytes(data) + rest == Hex2(data[0]) + (HexBytes(data[1..]) + rest);
      ReadHex2(data[0], HexBytes(data[1..]) + rest);
      ReadHexBytes(data[1..], rest);
      assert data == [data[0]] + data[1..];
    }
  }

  lemma SkipNewline(rest: string)
    ensures SkipToColon(Stream("\n:" + rest, false)) == Stream(rest, false)
  {
    var t := "\n:" + rest;
    assert t[0] == '\n' && t[1..][0] == ':' && t[1..][1..] == rest;
  }

  function RecordWrites(r: Record): seq<(int, byte)> { WritesAt(r.address, r.data) }

  /** What loading a list of records should give: every write up to the first
      wrong check byte. */
  function Expected(rs: seq<Record>): Outcome {
    if rs == [] then Outcome(0, [])
    else if !Correct(rs[0]) then Outcome(-4, RecordWrites(rs[0]))
    else
      var rest := Expected(rs[1..]);
      Outcome(rest.code, RecordWrites(rs[0]) + rest.writes)
  }

  lemma ReadRecord(r: Record, t: string)
    requires Printable(r)
    ensures var s5 := Hex2(r.check) + t;
            var s4 := HexBytes(r.data) + s5;
            var s3 := Hex2(0) + s4;
            var s2 := Hex2(r.address % 256) + s3;
            var s1 := Hex2(r.address / 256) + s2;
            && ReadByte(Stream(Digits(r) + t, false)) == (|r.data|, Stream(s1, false))
            && ReadByte(Stream(s1, false)) == ((r.address / 256) as int, Stream(s2, false))
            && ReadByte(Stream(s2, false)) == ((r.address % 256) as int, Stream(s3, false))
            && ReadByte(Stream(s3, false)) == (0, Stream(s4, false))
            && ReadData(Stream(s4, false), |r.data|) == (r.data, Stream(s5, false))
            && ReadByte(Stream(s5, false)) == (r.check as int, Stream(t, false))
  {
    hide ReadByte;
    hide ReadData;
    hide Hex2;
    hide HexBytes;
    var s5 := Hex2(r.check) + t;
    var s4 := HexBytes(r.data) + s5;
    var s3 := Hex2(0) + s4;
    var s2 := Hex2(r.address % 256) + s3;
    var s1 := Hex2(r.address / 256) + s2;
    assert Digits(r) + t == Hex2(|r.data|) + s1;
    ReadHex2(|r.data|, s1);
    ReadHex2(r.address / 256, s2);
    ReadHex2(r.address % 256, s3);
    ReadHex2(0, s4);
    ReadHexBytes(r.data, s5);
    ReadHex2(r.check, t);
  }

  /** A printed record with anything behind it: -4 if its check byte is wrong,
      else its writes and on behind the next colon. */
  lemma LoadDigits(r: Record, t: string)
    requires Printable(r)
    ensures LoadRecord(Stream(Digits(r) + t, false)) ==
            if Correct(r) then GoOn(RecordWrites(r), SkipToColon(Stream(t, false))) else Stop(-4, RecordWrites(r))
  {
    hide ReadByte;
    hide ReadData;
    hide SkipToColon;
    hide Hex2;
    hide HexBytes;
    hide Digits;
    hide Sum;
    hide WritesAt;
    ReadRecord(r, t);
    assert JoinAddress(r.address / 256, r.address % 256) == r.address;
  }

  lemma LoadOneRecord(r: Record, rest: string)
    requires Printable(r)
    ensures LoadRecords(Stream(Body(r) + ":" + rest, false)) ==
            if !Correct(r) then Outcome(-4, RecordWrites(r))
            else
              var o := LoadRecords(Stream(rest, false));
              Outcome(o.code, RecordWrites(r) + o.writes)
  {
    hide LoadRecord;
    hide Digits;
    hide RecordWrites;
    hide Correct;
    LoadDigits(r, "\n:" + rest);
    SkipNewline(rest);
    hide SkipToColon;
    assert Body(r) + ":" + rest == Digits(r) + ("\n:" + rest);
  }

  lemma LoadEnd()
    ensures LoadRecords(Stream(END_BODY, false)) == Outcome(0, [])
  {
    var z := Hex2(0) + (Hex2(0) + (Hex2(0) + (Hex2(1) + "FF\n")));
    assert END_BODY == z;
    ReadHex2(0, Hex2(0) + (Hex2(0) + (Hex2(1) + "FF\n")));
    ReadHex2(0, Hex2(0) + (Hex2(1) + "FF\n"));
    ReadHex2(0, Hex2(1) + "FF\n");
    ReadHex2(1, "FF\n");
    hide ReadByte;
    hide Hex2;
  }

  /** Loading a printed file applies its records in order up to the first one
      with a wrong check byte: -4 exactly when there is one, else 0. */
  lemma {:induction false} LoadPrinted(rs: seq<Record>)
    requires AllPrintable(rs)
    ensures Load(Print(rs)) == Expected(rs)
    decreases rs
  {
    hide LoadRecords;
    hide Body;
    hide RecordWrites;
    assert Print(rs)[0] == ':' && Print(rs)[1..] == Tail(rs);
    if rs == [] {
      LoadEnd();
    } else {
      LoadOneRecord(rs[0], Tail(rs[1..]));
      LoadPrinted(rs[1..]);
      assert Print(rs[1..])[1..] == Tail(rs[1..]);
    }
  }

  function AllWrites(rs: seq<Record>): seq<(int, byte)> {
    if rs == [] then [] else RecordWrites(rs[0]) + AllWrites(rs[1..])
  }

  lemma {:induction false} ExpectedCorrect(rs: seq<Record>)
    requires forall i :: 0 <= i < |rs| ==> Correct(rs[i])
    ensures Expected(rs) == Outcome(0, AllWrites(rs))
    decreases rs
  {
    hide RecordWrites;
    hide Correct;
    if rs == [] {
    } else {
      ExpectedCorrect(rs[1..]);
    }
  }

  /** The loader undoes the printer. */
  lemma PrintThenLoad(rs: seq<Record>)
    requires AllPrintable(rs) && forall i :: 0 <= i < |rs| ==> Correct(rs[i])
    ensures Load(Print(rs)) == Outcome(0, AllWrites(rs))
  {
    hide Load;
    hide Print;
    hide Correct;
    LoadPrinted(rs);
    ExpectedCorrect(rs);
  }

  lemma {:induction false} FirstWrong(rs: seq<Record>, k: nat)
    requires k < |rs| && !Correct(rs[k])
    ensures Expected(rs).code == -4
    decreases k
  {
    hide Correct;
    hide RecordWrites;
    if k > 0 && Correct(rs[0]) { FirstWrong(rs[1..], k - 1); }
  }

  lemma {:induction false} SumUpdate(vs: seq<int>, i: nat, v: int)
    requires i < |vs|
    ensures Sum(vs[i := v]) == Sum(vs) - vs[i] + v
    decreases vs
  {
    if i == 0 {
      assert vs[i := v][1..] == vs[1..];
    } else {
      assert vs[i := v][1..] == vs[1..][i - 1 := v];
      SumUpdate(vs[1..], i - 1, v);
    }
  }

  lemma DataChangeShows(r: Record, i: nat, v: byte)
    requires Correct(r) && i < |r.data| && v != r.data[i]
    ensures !Correct(r.(data := r.data[i := v]))
  {
    SumUpdate(r.data, i, v);
    hide Sum;
    var s := SumOf(r.address, r.data);
    var d := v as int - r.data[i];
    CheckDiffers(s, d);
  }

  lemma CheckDiffers(s: int, d: int)
    requires -256 < d < 256 && d != 0
    ensures (256 - s % 256) % 256 != (256 - (s + d) % 256) % 256
  {
  }

  /** Replacing one data byte of a correct file by any other value makes the
      load fail with -4. */
  lemma DataErrorCaught(rs: seq<Record>, k: nat, i: nat, v: byte)
    requires AllPrintable(rs) && k < |rs| && Correct(rs[k]) && i < |rs[k].data| && v != rs[k].data[i]
    ensures var bad := rs[k := rs[k].(data := rs[k].data[i := v])];
            AllPrintable(bad) && Load(Print(bad)).code == -4
  {
    hide Load;
    hide Print;
    hide Correct;
    hide Expected;
    var bad := rs[k := rs[k].(data := rs[k].data[i := v])];
    DataChangeShows(rs[k], i, v);
    LoadPrinted(bad);
    FirstWrong(bad, k);
  }

  /** And so does replacing a check byte. */
  lemma CheckErrorCaught(rs: seq<Record>, k: nat, v: byte)
    requires AllPrintable(rs) && k < |rs| && Correct(rs[k]) && v != rs[k].check
    ensures var bad := rs[k := rs[k].(check := v)];
            AllPrintable(bad) && Load(Print(bad)).code == -4
  {
    hide Load;
    hide Print;
    hide Expected;
    var bad := rs[k := rs[k].(check := v)];
    LoadPrinted(bad);
    FirstWrong(bad, k);
  }

  // ----------------------------------------------------- code memory images

  predicate InRange(writes: seq<(int, byte)>, size: nat) {
    forall i :: 0 <= i < |writes| ==> 0 <= writes[i].0 < size
  }

  /** Code memory after the writes, in order. */
  function Apply(code: seq<byte>, writes: seq<(int, byte)>): (r: seq<byte>)
    requires InRange(writes, |code|)
    ensures |r| == |code|
  {
    if writes == [] then code
    else
      var n := |writes| - 1;
      Apply(code, writes[..n])[writes[n].0 := writes[n].1]
  }

  lemma {:induction false} ApplyAppend(code: seq<byte>, a: seq<(int, byte)>, b: seq<(int, byte)>)
    requires InRange(a, |code|) && InRange(b, |code|)
    ensures InRange(a + b, |code|) && Apply(code, a + b) == Apply(Apply(code, a), b)
    decreases b
  {
    if b == [] {
      assert a + b == a;
    } else {
      var n := |b| - 1;
      assert (a + b)[..|a + b| - 1] == a + b[..n];
      ApplyAppend(code, a, b[..n]);
    }
  }

  lemma {:induction false} ApplyRun(code: seq<byte>, address: nat, data: seq<byte>)
    requires address + |data| <= |code|
    ensures InRange(WritesAt(address, data), |code|)
    ensures Apply(code, WritesAt(address, data)) == code[..address] + data + code[address + |data|..]
    decreases data
  {
    if data == [] {
      assert code == code[..address] + code[address..];
    } else {
      var n := |data| - 1;
      ApplyRun(code, address, data[..n]);
      var w := WritesAt(address, data);
      assert w[..n] == WritesAt(address, data[..n]);
      assert data == data[..n] + [data[n]];
    }
  }

  /** The test printer's records: data from address on, sixteen bytes each. */
  function Chunks(address: nat, data: seq<byte>): (rs: seq<Record>)
    requires address + |data| <= 0x1_0000
    ensures AllPrintable(rs) && forall i :: 0 <= i < |rs| ==> Correct(rs[i])
    decreases |data|
  {
    if data == [] then []
    else
      var n := if |data| < 16 then |data| else 16;
      [Record(address, data[..n], CheckOf(address, data[..n]))] + Chunks(address + n, data[n..])
  }

  lemma {:induction false} ChunksImage(code: seq<byte>, address: nat, data: seq<byte>)
    requires |code| == 0x1_0000 && address + |data| <= 0x1_0000
    ensures InRange(AllWrites(Chunks(address, data)), |code|)
    ensures Apply(code, AllWrites(Chunks(address, data))) == code[..address] + data + code[address + |data|..]
    decreases |data|
  {
    hide WritesAt;
    hide Apply;
    if data == [] {
      NoChunks(code, address);
    } else {
      hide Chunks;
      hide AllWrites;
      var n := if |data| < 16 then |data| else 16;
      var w := WritesAt(address, data[..n]);
      ApplyRun(code, address, data[..n]);
      var code1 := Apply(code, w);
      ChunksImage(code1, address + n, data[n..]);
      ApplyAppend(code, w, AllWrites(Chunks(address + n, data[n..])));
      FirstChunk(address, data);
      ImageJoins(code, address, data, n);
    }
  }

  lemma NoChunks(code: seq<byte>, address: nat)
    requires |code| == 0x1_0000 && address <= 0x1_0000
    ensures AllWrites(Chunks(address, [])) == [] && InRange([], |code|)
    ensures Apply(code, []) == code[..address] + [] + code[address..]
  {
  }

  lemma FirstChunk(address: nat, data: seq<byte>)
    requires data != [] && address + |data| <= 0x1_0000
    ensures var n := if |data| < 16 then |data| else 16;
            AllWrites(Chunks(address, data)) ==
            WritesAt(address, data[..n]) + AllWrites(Chunks(address + n, data[n..]))
  {
    hide CheckOf;
    hide WritesAt;
  }

  lemma ImageJoins(code: seq<byte>, address: nat, data: seq<byte>, n: nat)
    requires n <= |data| && address + |data| <= |code|
    ensures var code1 := code[..address] + data[..n] + code[address + n..];
            code1[..address + n] + data[n..] + code1[address + n + (|data| - n)..] ==
            code[..address] + data + code[address + |data|..]
  {
  }

  /** Printing a memory image and loading it puts exactly that image there. */
  lemma ImageRoundTrip(code: seq<byte>, address: nat, data: seq<byte>)
    requires |code| == 0x1_0000 && address + |data| <= 0x1_0000
    ensures var o := Load(Print(Chunks(address, data)));
            && o.code == 0 && InRange(o.writes, |code|)
            && Apply(code, o.writes) == code[..address] + data + code[address + |data|..]
  {
    hide Load;
    hide Print;
    hide Chunks;
    hide Correct;
    PrintThenLoad(Chunks(address, data));
    ChunksImage(code, address, data);
  }

  // ------------------------------------------------------------ the loader

  /** The stream a reader at position pos of text is in. */
  function StreamAt(text: string, pos: nat, eof: bool): Stream
    requires pos <= |text|
  {
    Stream(text[pos..], eof)
  }

  method FGetC(text: string, pos: nat, eof: bool) returns (c: Option<char>, pos': nat, eof': bool)
    requires pos <= |text|
    ensures pos <= pos' <= |text| && GetC(StreamAt(text, pos, eof)) == (c, StreamAt(text, pos', eof'))
  {
    if pos == |text| {
      return None, pos, true;
    }
    assert text[pos..][1..] == text[pos + 1..];
    return Some(text[pos]), pos + 1, eof;
  }

  method ReadByteAt(text: string, pos: nat, eof: bool) returns (v: int, pos': nat, eof': bool)
    requires pos <= |text|
    ensures pos <= pos' <= |text| && ReadByte(StreamAt(text, pos, eof)) == (v, StreamAt(text, pos', eof'))
  {
    hide GetC;
    hide ParseHex;
    var a, b;
    a, pos', eof' := FGetC(text, pos, eof);
    b, pos', eof' := FGetC(text, pos', eof');
    v := ParseHex(a, b);
  }

  method SkipRest(text: string, pos: nat, eof: bool) returns (pos': nat, eof': bool)
    requires pos <= |text|
    ensures pos <= pos' <= |text| && SkipToColon(StreamAt(text, pos, eof)) == StreamAt(text, pos', eof')
  {
    pos', eof' := pos, eof;
    while true
      invariant pos <= pos' <= |text|
      invariant SkipToColon(StreamAt(text, pos, eof)) == SkipToColon(StreamAt(text, pos', eof'))
      decreases |text| - pos'
    {
      var c;
      c, pos', eof' := FGetC(text, pos', eof');
      if c == Some(':') || eof' { return; }
    }
  }

  lemma ReadDataStep(s: Stream, k: nat, n: int)
    requires k < n
    ensures var (vs, s1) := ReadData(s, k);
            var (v, s2) := ReadByte(s1);
            ReadData(s, k + 1) == (vs + [v], s2)
    decreases k
  {
    hide ReadByte;
    var (x, t) := ReadByte(s);
    if k == 0 {
      assert ReadData(t, 0) == ([], t);
      assert [x] + [] == [] + [x];
    } else {
      ReadDataStep(t, k - 1, n - 1);
      var (vs, t1) := ReadData(t, k - 1);
      var v := ReadByte(t1).0;
      assert [x] + (vs + [v]) == ([x] + vs) + [v];
    }
  }

  lemma WritesStep(address: int, vs: seq<int>, v: int)
    ensures WritesAt(address, vs + [v]) == WritesAt(address, vs) + [(address + |vs|, v % 256)]
  {
  }

  lemma {:induction false} SumAppend(vs: seq<int>, v: int)
    ensures Sum(vs + [v]) == Sum(vs) + v
    decreases vs
  {
    if vs == [] {
      assert vs + [v] == [v] && [v][1..] == [];
    } else {
      assert (vs + [v])[1..] == vs[1..] + [v];
      SumAppend(vs[1..], v);
    }
  }

  /** The data bytes of one record, stored as they are read. */
  method LoadData(text: string, start: nat, startEof: bool, len: int, address: int, code: array<byte>)
    returns (pos: nat, eof: bool, sum: int)
    requires start <= |text|
    requires InRange(WritesAt(address, ReadData(StreamAt(text, start, startEof), len).0), code.Length)
    modifies code
    ensures start <= pos <= |text|
    ensures var (data, s) := ReadData(StreamAt(text, start, startEof), len);
            && s == StreamAt(text, pos, eof) && sum == Sum(data)
            && code[..] == Apply(old(code[..]), WritesAt(address, data))
  {
    hide ReadByte;
    hide Sum;
    hide WritesAt;
    ghost var s0 := StreamAt(text, start, startEof);
    pos, eof, sum := start, startEof, 0;
    var i := 0;
    EmptyData(s0, address);
    while i < len
      invariant 0 <= i && (i <= len || i == 0)
      invariant start <= pos <= |text|
      invariant ReadData(s0, i).1 == StreamAt(text, pos, eof) && sum == Sum(ReadData(s0, i).0)
      invariant InRange(WritesAt(address, ReadData(s0, i).0), code.Length)
      invariant code[..] == Apply(old(code[..]), WritesAt(address, ReadData(s0, i).0))
    {
      ghost var vs := ReadData(s0, i).0;
      ghost var before := code[..];
      var data;
      data, pos, eof := ReadByteAt(text, pos, eof);
      ReadDataStep(s0, i, len);
      NextInRange(s0, i, len, address, code.Length);
      WritesStep(address, vs, data);
      SumAppend(vs, data);
      sum := sum + data;
      var b: byte := data % 256;
      code[address + i] := b;
      assert code[..] == before[address + i := b];
      ghost var w := WritesAt(address, vs + [data]);
      assert w[..|w| - 1] == WritesAt(address, vs);
      i := i + 1;
    }
  }

  lemma EmptyData(s: Stream, address: int)
    ensures WritesAt(address, []) == [] && Sum([]) == 0
    ensures forall n: int :: n <= 0 ==> ReadData(s, n) == ([], s)
  {
  }

  lemma {:induction false} ReadDataPrefix(s: Stream, k: nat, n: nat)
    requires k <= n
    ensures ReadData(s, n).0[..k] == ReadData(s, k).0
    decreases k
  {
    hide ReadByte;
    if k == 0 {
    } else {
      ReadDataPrefix(ReadByte(s).1, k - 1, n - 1);
    }
  }

  lemma NextInRange(s: Stream, k: nat, n: nat, address: int, size: nat)
    requires k < n && InRange(WritesAt(address, ReadData(s, n).0), size)
    ensures InRange(WritesAt(address, ReadData(s, k + 1).0), size) && 0 <= address + k < size
  {
    hide ReadByte;
    var all := ReadData(s, n).0;
    ReadDataPrefix(s, k + 1, n);
    var a, b := WritesAt(address, ReadData(s, k + 1).0), WritesAt(address, all);
    forall i | 0 <= i < k + 1 ensures a[i] == b[i] {
      assert ReadData(s, k + 1).0[i] == all[i];
    }
    assert b[k].0 == address + k;
  }

  lemma {:induction false} InRangeParts(a: seq<(int, byte)>, b: seq<(int, byte)>, size: nat)
    requires InRange(a + b, size)
    ensures InRange(a, size) && InRange(b, size)
  {
    assert forall i :: 0 <= i < |a| ==> a[i] == (a + b)[i];
    assert forall i :: 0 <= i < |b| ==> b[i] == (a + b)[|a| + i];
  }

  /** The body of the loader's loop. */
  method LoadRecordAt(text: string, start: nat, code: array<byte>) returns (pos: nat, eof: bool, stop: bool, rc: int)
    requires start <= |text| && InRange(LoadRecord(StreamAt(text, start, false)).writes, code.Length)
    modifies code
    ensures pos <= |text|
    ensures match LoadRecord(StreamAt(text, start, false))
            case Stop(c, w) => stop && rc == c && code[..] == Apply(old(code[..]), w)
            case GoOn(w, s) => !stop && s == StreamAt(text, pos, eof) && code[..] == Apply(old(code[..]), w)
  {
    hide ReadByte;
    hide ReadData;
    hide SkipToColon;
    hide JoinAddress;
    hide WritesAt;
    hide Sum;
    pos, eof, stop, rc := start, false, true, 0;
    var len, hi, lo, kind, check, sum;
    len, pos, eof := ReadByteAt(text, pos, eof);
    hi, pos, eof := ReadByteAt(text, pos, eof);
    lo, pos, eof := ReadByteAt(text, pos, eof);
    var address := JoinAddress(hi, lo);
    kind, pos, eof := ReadByteAt(text, pos, eof);
    if kind == 1 { rc := 0; return; }
    if kind != 0 { rc := -3; return; }
    pos, eof, sum := LoadData(text, pos, eof, len, address, code);
    check, pos, eof := ReadByteAt(text, pos, eof);
    if check != (256 - (len + address % 256 + address / 256 + sum) % 256) % 256 {
      rc := -4;
      return;
    }
    stop := false;
    pos, eof := SkipRest(text, pos, eof);
  }

  lemma RecordThenRest(s: Stream)
    requires !s.eof
    ensures var r, all := LoadRecord(s), LoadRecords(s);
            match r
            case Stop(code, writes) => all == Outcome(code, writes)
            case GoOn(writes, s') => all == Outcome(LoadRecords(s').code, writes + LoadRecords(s').writes)
  {
    hide LoadRecord;
  }

  lemma NothingAtEnd(s: Stream)
    requires s.eof
    ensures LoadRecords(s) == Outcome(-5, [])
  {
  }

  /** The loader on a text whose records lie within code memory. */
  method LoadObj(text: string, code: array<byte>) returns (rc: int)
    requires InRange(Load(text).writes, code.Length)
    modifies code
    ensures rc == Load(text).code && code[..] == Apply(old(code[..]), Load(text).writes)
  {
    hide LoadRecord;
    hide LoadRecords;
    if text == [] || text[0] != ':' { return -2; }
    var pos, eof := 1, false;
    ghost var done: seq<(int, byte)> := [];
    while !eof
      invariant 0 <= pos <= |text|
      invariant Load(text).code == LoadRecords(StreamAt(text, pos, eof)).code
      invariant Load(text).writes == done + LoadRecords(StreamAt(text, pos, eof)).writes
      invariant InRange(done, code.Length) && code[..] == Apply(old(code[..]), done)
      decreases |text| - pos, if eof then 0 else 1
    {
      ghost var s := StreamAt(text, pos, eof);
      ghost var w := LoadRecord(s).writes;
      ghost var o := LoadRecords(s).writes;
      RecordThenRest(s);
      ghost var rest := o[|w|..];
      assert o == w + rest;
      InRangeParts(done, o, code.Length);
      InRangeParts(w, rest, code.Length);
      var stop;
      pos, eof, stop, rc := LoadRecordAt(text, pos, code);
      ApplyAppend(old(code[..]), done, w);
      if stop { return; }
      assert done + (w + rest) == (done + w) + rest;
      done := done + w;
    }
    NothingAtEnd(StreamAt(text, pos, eof));
    assert done + [] == done;
    return -5;
  }
}
