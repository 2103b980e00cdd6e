/** Other forms of the same file: digits in lower case, and files that end
    otherwise than with an end record. */
module HexForms {
  import opened Bytes
  import opened HexFile

  // ------------------------------------------------------------ lower case

  function LowerChar(c: char): char {
    if 'A' <= c <= 'Z' then ((c - 'A') as int + 'a' as int) as char else c
  }

  function Lower(text: string): (t: string)
    ensures |t| == |text|
  {
    seq(|text|, i requires 0 <= i < |text| => LowerChar(text[i]))
  }

  function LowerStream(s: Stream): Stream { s.(rest := Lower(s.rest)) }

  function LowerOption(c: Option<char>): Option<char> {
    if c.None? then None else Some(LowerChar(c.value))
  }

  lemma LowerDigit(c: Option<char>)
    ensures HexValue(LowerOption(c)) == HexValue(c) && IsSpace(LowerOption(c)) == IsSpace(c)
    ensures (LowerOption(c) == Some('+') <==> c == Some('+')) && (LowerOption(c) == Some('-') <==> c == Some('-'))
  {
  }

  lemma LowerGetC(s: Stream)
    ensures GetC(LowerStream(s)) == (LowerOption(GetC(s).0), LowerStream(GetC(s).1))
  {
    if s.rest != [] { assert Lower(s.rest)[1..] == Lower(s.rest[1..]); }
  }

  lemma LowerReadByte(s: Stream)
    ensures ReadByte(LowerStream(s)) == (ReadByte(s).0, LowerStream(ReadByte(s).1))
  {
    hide GetC;
    hide HexValue;
    hide LowerChar;
    hide IsSpace;
    var (a, s1) := GetC(s);
    LowerGetC(s);
    LowerGetC(s1);
    LowerDigit(a);
    LowerDigit(GetC(s1).0);
    hide LowerStream;
    hide LowerOption;
  }

  lemma {:induction false} LowerReadData(s: Stream, n: int)
    ensures ReadData(LowerStream(s), n) == (ReadData(s, n).0, LowerStream(ReadData(s, n).1))
    decreases n
  {
    hide ReadByte;
    hide LowerStream;
    if n <= 0 {
    } else {
      LowerReadByte(s);
      LowerReadData(ReadByte(s).1, n - 1);
    }
  }

  lemma {:induction false} LowerSkip(s: Stream)
    ensures SkipToColon(LowerStream(s)) == LowerStream(SkipToColon(s))
    decreases |s.rest|
  {
    if s.rest == [] {
      assert Lower([]) == [];
    } else {
      assert Lower(s.rest)[1..] == Lower(s.rest[1..]);
      assert Lower(s.rest)[0] == ':' <==> s.rest[0] == ':';
      LowerSkip(s.(rest := s.rest[1..]));
    }
  }

  lemma LowerRecord(s: Stream)
    ensures LoadRecord(LowerStream(s)) ==
            match LoadRecord(s)
            case Stop(code, writes) => Stop(code, writes)
            case GoOn(writes, s') => GoOn(writes, LowerStream(s'))
  {
    hide ReadByte;
    hide ReadData;
    hide SkipToColon;
    hide LowerStream;
    var (len, s1) := ReadByte(s);
    var (hi, s2) := ReadByte(s1);
    var (lo, s3) := ReadByte(s2);
    var (kind, s4) := ReadByte(s3);
    var (data, s5) := ReadData(s4, len);
    var (check, s6) := ReadByte(s5);
    LowerReadByte(s);
    LowerReadByte(s1);
    LowerReadByte(s2);
    LowerReadByte(s3);
    LowerReadData(s4, len);
    LowerReadByte(s5);
    LowerSkip(s6);
  }

  lemma {:induction false} LowerRecords(s: Stream)
    ensures LoadRecords(LowerStream(s)) == LoadRecords(s)
    decreases |s.rest|, if s.eof then 0 else 1
  {
    hide LoadRecord;
    LowerRecord(s);
    if !s.eof && LoadRecord(s).GoOn? { LowerRecords(LoadRecord(s).s); }
  }

  /** Any text at all, with its letters in lower case, loads to the same code and
      the same writes. */
  lemma LowerCaseLoads(text: string)
    ensures Load(Lower(text)) == Load(text)
  {
    hide LoadRecords;
    if text != [] {
      assert Lower(text)[1..] == Lower(text[1..]);
      LowerRecords(Stream(text[1..], false));
    }
  }

  // --------------------------------------------------------------- endings

  /** How a file of records ends: with an end record, with a record of another
      type and anything behind its type, or just so. */
  datatype Ending = EndRecord | Strange(len: byte, address: word, kind: byte, junk: string) | Nothing

  function EndText(e: Ending): string {
    match e
    case EndRecord => ":" + END_BODY
    case Strange(len, address, kind, junk) =>
      ":" + (Hex2(len) + (Hex2(address / 256) + (Hex2(address % 256) + (Hex2(kind) + junk))))
    case Nothing => ""
  }

  function EndCode(e: Ending): int {
    match e
    case EndRecord => 0
    case Strange(_, _, kind, _) => if kind == 1 then 0 else -3
    case Nothing => -5
  }

  predicate Ends(e: Ending) { e.Strange? ==> e.kind != 0 }

  /** The records and the ending, each record on its line. */
  function Text(rs: seq<Record>, e: Ending): string
    requires AllPrintable(rs)
  {
    if rs == [] then EndText(e) else ":" + Body(rs[0]) + Text(rs[1..], e)
  }

  lemma StartsWithColon(rs: seq<Record>, e: Ending)
    requires AllPrintable(rs)
    ensures Text(rs, e) == "" || (Text(rs, e)[0] == ':' && Text(rs, e) == ":" + Text(rs, e)[1..])
    ensures Text(rs, e) == "" <==> rs == [] && e == Nothing
  {
  }

  /** The end of the file as a record's skip runs into it. */
  lemma SkipToEnd()
    ensures SkipToColon(Stream("\n", false)) == Stream("", true)
  {
    assert "\n"[1..] == "";
  }

  lemma LoadStrange(e: Ending)
    requires e.Strange? && Ends(e)
    ensures LoadRecords(Stream(EndText(e)[1..], false)) == Outcome(EndCode(e), [])
  {
    hide ReadByte;
    hide ReadData;
    hide Hex2;
    var t3 := Hex2(e.kind) + e.junk;
    var t2 := Hex2(e.address % 256) + t3;
    var t1 := Hex2(e.address / 256) + t2;
    assert EndText(e)[1..] == Hex2(e.len) + t1;
    ReadHex2(e.len, t1);
    ReadHex2(e.address / 256, t2);
    ReadHex2(e.address % 256, t3);
    ReadHex2(e.kind, e.junk);
  }

  lemma LoadLast(r: Record)
    requires Printable(r) && Correct(r)
    ensures LoadRecords(Stream(Body(r), false)) == Outcome(-5, RecordWrites(r))
  {
    hide LoadRecord;
    hide Digits;
    hide RecordWrites;
    hide Correct;
    LoadDigits(r, "\n");
    SkipToEnd();
    hide SkipToColon;
  }

  /** Correct records are all applied, and then the ending decides: 0 for an end
      record, -3 for an unknown type, -5 for a file that just ends. */
  lemma {:induction false} LoadEndings(rs: seq<Record>, e: Ending)
    requires AllPrintable(rs) && Ends(e) && (rs == [] ==> e != Nothing)
    requires forall i :: 0 <= i < |rs| ==> Correct(rs[i])
    ensures LoadRecords(Stream(Text(rs, e)[1..], false)) == Outcome(EndCode(e), AllWrites(rs))
    decreases rs
  {
    hide LoadRecords;
    hide Body;
    hide Correct;
    hide RecordWrites;
    StartsWithColon(rs, e);
    if rs == [] {
      if e == EndRecord { LoadEnd(); assert EndText(e)[1..] == END_BODY; } else { LoadStrange(e); }
    } else {
      var rest := Text(rs[1..], e);
      StartsWithColon(rs[1..], e);
      if rest == "" {
        assert Text(rs, e)[1..] == Body(rs[0]);
        LoadLast(rs[0]);
        assert AllWrites(rs) == RecordWrites(rs[0]) + AllWrites([]);
      } else {
        assert Text(rs, e)[1..] == Body(rs[0]) + ":" + rest[1..];
        LoadOneRecord(rs[0], rest[1..]);
        LoadEndings(rs[1..], e);
      }
    }
  }

  /** The same from the first character; and -2 for any text whose first
      character is no colon, or that has none. */
  lemma LoadText(rs: seq<Record>, e: Ending, text: string)
    requires AllPrintable(rs) && Ends(e) && (rs == [] ==> e != Nothing)
    requires forall i :: 0 <= i < |rs| ==> Correct(rs[i])
    ensures Load(Text(rs, e)) == Outcome(EndCode(e), AllWrites(rs))
    ensures (text == [] || text[0] != ':') <==> Load(text).code == -2
  {
    hide Text;
    hide Correct;
    StartsWithColon(rs, e);
    LoadEndings(rs, e);
    if text != [] && text[0] == ':' { NoOtherFormat(Stream(text[1..], false)); }
    hide LoadRecords;
  }

  lemma {:induction false} NoOtherFormat(s: Stream)
    ensures LoadRecords(s).code in {0, -3, -4, -5}
    decreases |s.rest|, if s.eof then 0 else 1
  {
    hide ReadByte;
    hide ReadData;
    hide SkipToColon;
    if !s.eof && LoadRecord(s).GoOn? { NoOtherFormat(LoadRecord(s).s); }
  }
}
