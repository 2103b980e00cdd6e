/** The DS1302's calendar: BCD registers that count seconds. */
module Ds1302Clock {
  import opened Bytes

  type Registers = s: seq<byte> | |s| == 8 witness seq(8, _ => 0)

  /** As the source computes it, for any number at all. */
  function ToBcd(v: nat): byte { (16 * (v / 10) + v % 10) % 256 }

  predicate IsLeapYear(year: int) { year % 4 == 0 }

  function DaysInMonth(month: int, year: int): (n: nat)
    ensures 28 <= n <= 31
  {
    if month == 2 && IsLeapYear(year) then 29
    else if month < 1 || month > 12 then 31
    else [31, 28, 31, 30, 31, 30, 31, 31, 30, 31, 30, 31][month - 1]
  }

  // --------------------------------------------------------- one second on

  /** Time of day and date as numbers. */
  datatype Moment = Moment(sec: nat, min: nat, hour: nat, date: nat, month: nat, weekday: nat, year: nat)

  function Decode(r: Registers): Moment {
    Moment(FromBcd(r[0]), FromBcd(r[1]), FromBcd(r[2]), FromBcd(r[3]), FromBcd(r[4]), FromBcd(r[5]), FromBcd(r[6]))
  }

  predicate InRange(m: Moment) {
    && m.sec < 60 && m.min < 60 && m.hour < 24
    && 1 <= m.month <= 12 && 1 <= m.date <= DaysInMonth(m.month, m.year)
    && 1 <= m.weekday <= 7 && m.year < 100
  }

  function Encode(m: Moment, wp: byte): Registers {
    [ToBcd(m.sec), ToBcd(m.min), ToBcd(m.hour), ToBcd(m.date), ToBcd(m.month), ToBcd(m.weekday), ToBcd(m.year), wp]
  }

  /** Packed decimal registers that hold a date and a time that exist. */
  predicate Valid(r: Registers) {
    InRange(Decode(r)) && r == Encode(Decode(r), r[7])
  }

  function NextDay(m: Moment): Moment {
    var weekday := if m.weekday + 1 > 7 then 1 else m.weekday + 1;
    if m.date + 1 <= DaysInMonth(m.month, m.year) then m.(date := m.date + 1, weekday := weekday)
    else if m.month + 1 <= 12 then m.(date := 1, month := m.month + 1, weekday := weekday)
    else m.(date := 1, month := 1, year := (m.year + 1) % 100, weekday := weekday)
  }

  /** The carries of one second, for any register contents. */
  function NextSecond(m: Moment): Moment {
    var (sec, min) := if m.sec + 1 >= 60 then (m.sec + 1 - 60, m.min + 1) else (m.sec + 1, m.min);
    var (min, hour) := if min >= 60 then (min - 60, m.hour + 1) else (min, m.hour);
    if hour >= 24 then NextDay(m.(sec := sec, min := min, hour := hour - 24))
    else m.(sec := sec, min := min, hour := hour)
  }

  lemma NextInRange(m: Moment)
    requires InRange(m)
    ensures InRange(NextSecond(m))
  {
  }

  lemma BcdRoundTrip(v: nat)
    requires v < 100
    ensures FromBcd(ToBcd(v)) == v
  {
    var t, u := v / 10, v % 10;
    assert 16 * t + u < 256;
    assert (16 * t + u) / 16 == t && (16 * t + u) % 16 == u;
  }

  lemma DecodeEncode(m: Moment, wp: byte)
    requires InRange(m)
    ensures Decode(Encode(m, wp)) == m && Valid(Encode(m, wp))
  {
    BcdRoundTrip(m.sec); BcdRoundTrip(m.min); BcdRoundTrip(m.hour); BcdRoundTrip(m.date);
    BcdRoundTrip(m.month); BcdRoundTrip(m.weekday); BcdRoundTrip(m.year);
    hide ToBcd;
    hide FromBcd;
    hide InRange;
  }

  /** The registers a second later. */
  function Advance(r: Registers): Registers { Encode(NextSecond(Decode(r)), r[7]) }

  lemma AdvanceValid(r: Registers)
    requires Valid(r)
    ensures Valid(Advance(r))
  {
    hide Encode;
    hide NextSecond;
    NextInRange(Decode(r));
    DecodeEncode(NextSecond(Decode(r)), r[7]);
  }

  // ---------------------------------------------------------- absolute time

  function DaysBefore(month: nat, year: nat): (n: nat)
    ensures n <= 31 * month
  {
    if month <= 1 then 0 else DaysBefore(month - 1, year) + DaysInMonth(month - 1, year)
  }

  function YearStart(year: nat): nat { 365 * year + (year + 3) / 4 }

  /** Days since 1 January of year 00; the century has 36525. */
  function DayNumber(m: Moment): int {
    YearStart(m.year) + DaysBefore(m.month, m.year) + m.date - 1
  }

  const CENTURY := 36525
  const DAY := 86400

  function SecondOfDay(m: Moment): nat { m.hour * 3600 + m.min * 60 + m.sec }

  /** Seconds since the start of the century. */
  function Absolute(m: Moment): int { DayNumber(m) * DAY + SecondOfDay(m) }

  lemma YearLength(year: nat)
    ensures DaysBefore(12, year) + 31 == 365 + (if IsLeapYear(year) then 1 else 0)
    ensures YearStart(year + 1) == YearStart(year) + 365 + (if IsLeapYear(year) then 1 else 0)
  {
    assert DaysBefore(2, year) == 31;
    assert DaysBefore(3, year) == 31 + DaysInMonth(2, year);
    assert DaysBefore(5, year) == DaysBefore(3, year) + 61;
    assert DaysBefore(7, year) == DaysBefore(5, year) + 61;
    assert DaysBefore(9, year) == DaysBefore(7, year) + 62;
    assert DaysBefore(11, year) == DaysBefore(9, year) + 61;
    assert DaysBefore(12, year) == DaysBefore(11, year) + 30;
  }

  /** The days before each month by the usual formula, and so the length of each:
      from March on the months take turns of 153 days in five. */
  lemma MonthStarts(month: nat, year: nat)
    requires 1 <= month <= 12
    ensures DaysBefore(month, year) ==
            if month == 1 then 0 else if month == 2 then 31
            else 59 + (if year % 4 == 0 then 1 else 0) + (153 * (month - 3) + 2) / 5
    ensures DaysInMonth(month, year) ==
            if month == 2 then (if year % 4 == 0 then 29 else 28) else 30 + (month + month / 8) % 2
  {
    assert DaysBefore(2, year) == 31;
    assert DaysBefore(3, year) == 31 + DaysInMonth(2, year);
    assert DaysBefore(5, year) == DaysBefore(3, year) + 61;
    assert DaysBefore(7, year) == DaysBefore(5, year) + 61;
    assert DaysBefore(9, year) == DaysBefore(7, year) + 62;
    assert DaysBefore(11, year) == DaysBefore(9, year) + 61;
    assert DaysBefore(12, year) == DaysBefore(11, year) + 30;
    assert month in {1, 2, 3, 4, 5, 6, 7, 8, 9, 10, 11, 12};
  }

  lemma DayAdvances(m: Moment)
    requires InRange(m)
    ensures 0 <= DayNumber(m) < CENTURY
    ensures DayNumber(NextDay(m)) == (DayNumber(m) + 1) % CENTURY
  {
    DayBound(m);
    if m.date + 1 <= DaysInMonth(m.month, m.year) {
      DayBound(NextDay(m));
    } else if m.month < 12 {
      MonthEnds(m);
    } else {
      YearEnds(m);
    }
    hide DayNumber;
    hide NextDay;
  }

  lemma MonthEnds(m: Moment)
    requires InRange(m) && m.date == DaysInMonth(m.month, m.year) && m.month < 12
    ensures InRange(NextDay(m)) && DayNumber(NextDay(m)) == DayNumber(m) + 1 < CENTURY
  {
    hide YearStart;
    hide DaysInMonth;
    DayBound(NextDay(m));
  }

  lemma Centuries(year: nat)
    requires year < 100
    ensures YearStart(year) < CENTURY && YearStart(0) == 0 && YearStart(100) == CENTURY
  {
  }

  lemma December(year: nat)
    ensures DaysInMonth(12, year) == 31 && DaysBefore(1, year) == 0
  {
  }

  lemma YearEnds(m: Moment)
    requires InRange(m) && m.date == DaysInMonth(m.month, m.year) && m.month == 12
    ensures DayNumber(NextDay(m)) == if m.year == 99 then 0 else DayNumber(m) + 1
    ensures DayNumber(m) + 1 == YearStart(m.year + 1) && YearStart(100) == CENTURY
    ensures m.year < 99 ==> DayNumber(m) + 1 < CENTURY
  {
    hide DaysInMonth;
    hide DaysBefore;
    hide YearStart;
    YearLength(m.year);
    December(m.year);
    December((m.year + 1) % 100);
    Centuries((m.year + 1) % 100);
  }

  lemma {:induction false} MonthWithinYear(month: nat, year: nat)
    requires 1 <= month <= 12
    ensures DaysBefore(month, year) + DaysInMonth(month, year) <= DaysBefore(12, year) + 31
    decreases 12 - month
  {
    if month < 12 { MonthWithinYear(month + 1, year); }
  }

  lemma DayBound(m: Moment)
    requires InRange(m)
    ensures YearStart(m.year) <= DayNumber(m) < YearStart(m.year + 1) <= CENTURY
  {
    MonthWithinYear(m.month, m.year);
    YearLength(m.year);
  }

  lemma SecondBound(m: Moment)
    requires InRange(m)
    ensures SecondOfDay(m) < DAY
  {
    hide DaysInMonth;
  }

  /** Whether a second turns the day over. */
  lemma SecondCarries(m: Moment)
    requires InRange(m)
    ensures var n := NextSecond(m);
            if SecondOfDay(m) == DAY - 1 then n == NextDay(m.(sec := 0, min := 0, hour := 0))
            else n == m.(sec := n.sec, min := n.min, hour := n.hour) && SecondOfDay(n) == SecondOfDay(m) + 1
  {
    hide DaysInMonth;
    hide NextDay;
  }

  lemma DayIgnoresTime(m: Moment, n: Moment)
    requires n == m.(sec := n.sec, min := n.min, hour := n.hour)
    ensures DayNumber(n) == DayNumber(m)
  {
    hide DaysBefore;
    hide YearStart;
  }

  lemma NextDayOnly(m: Moment)
    requires InRange(m)
    ensures SecondOfDay(NextDay(m)) == SecondOfDay(m) && NextDay(m).weekday == m.weekday % 7 + 1
  {
    hide DaysInMonth;
  }

  /** Within a day only the time moves; at its last second the day does. */
  lemma SecondWithinDay(m: Moment)
    requires InRange(m)
    ensures SecondOfDay(m) < DAY - 1 ==>
              SecondOfDay(NextSecond(m)) == SecondOfDay(m) + 1 && DayNumber(NextSecond(m)) == DayNumber(m)
              && NextSecond(m).weekday == m.weekday
    ensures SecondOfDay(m) == DAY - 1 ==>
              SecondOfDay(NextSecond(m)) == 0 && DayNumber(NextSecond(m)) == (DayNumber(m) + 1) % CENTURY
              && NextSecond(m).weekday == m.weekday % 7 + 1
  {
    SecondCarries(m);
    hide NextSecond;
    hide DayNumber;
    hide NextDay;
    var m0 := m.(sec := 0, min := 0, hour := 0);
    RangeOfMidnight(m);
    DayAdvances(m0);
    NextDayOnly(m0);
    DayIgnoresTime(m, m0);
    hide InRange;
    if SecondOfDay(m) != DAY - 1 { DayIgnoresTime(m, NextSecond(m)); }
  }

  lemma RangeOfMidnight(m: Moment)
    requires InRange(m)
    ensures InRange(m.(sec := 0, min := 0, hour := 0))
  {
    hide DaysInMonth;
  }

  lemma SecondAdvances(m: Moment)
    requires InRange(m)
    ensures 0 <= Absolute(m) < CENTURY * DAY
    ensures Absolute(NextSecond(m)) == (Absolute(m) + 1) % (CENTURY * DAY)
    ensures SecondOfDay(NextSecond(m)) == (SecondOfDay(m) + 1) % DAY
    ensures NextSecond(m).weekday == if SecondOfDay(m) == DAY - 1 then m.weekday % 7 + 1 else m.weekday
  {
    hide DayNumber;
    hide SecondOfDay;
    hide NextSecond;
    hide InRange;
    SecondWithinDay(m);
    SecondBound(m);
    DayAdvances(m);
    var d, s := DayNumber(m), SecondOfDay(m);
    if s == DAY - 1 && d == CENTURY - 1 {
      QuotientIs(d * DAY + s + 1, CENTURY * DAY, 1, 0);
    } else {
      QuotientIs(d * DAY + s + 1, CENTURY * DAY, 0, d * DAY + s + 1);
    }
  }

  // --------------------------------------------------------------- many on

  function AdvanceN(r: Registers, n: nat): Registers {
    if n == 0 then r else Advance(AdvanceN(r, n - 1))
  }

  lemma ValidInRange(r: Registers)
    requires Valid(r)
    ensures InRange(Decode(r))
  {
  }

  lemma WeekdayOfToday(m: Moment)
    requires InRange(m)
    ensures (m.weekday - 1 + SecondOfDay(m) / DAY) % 7 == m.weekday - 1 && SecondOfDay(m) % DAY == SecondOfDay(m)
  {
    hide DaysInMonth;
    SecondBound(m);
    hide SecondOfDay;
  }

  lemma SuccessorMod(x: nat, d: nat)
    requires d > 0
    ensures (x % d + 1) % d == (x + 1) % d
  {
    NextQuotient(x, d);
    DivMod(x, d);
    if x % d == d - 1 {
      QuotientIs(d, d, 1, 0);
    } else {
      QuotientIs(x % d + 1, d, 0, x % d + 1);
    }
  }

  lemma WeekdayStep(x: nat, w0: nat, w: nat)
    requires w >= 1 && w0 >= 1 && w - 1 == (w0 - 1 + x / DAY) % 7
    ensures (if x % DAY == DAY - 1 then w % 7 + 1 else w) - 1 == (w0 - 1 + (x + 1) / DAY) % 7
    ensures (x % DAY + 1) % DAY == (x + 1) % DAY
  {
    NextQuotient(x, DAY);
  }

  lemma AdvanceOne(r: Registers)
    requires Valid(r)
    ensures var m, m' := Decode(r), Decode(Advance(r));
            && Absolute(m') == (Absolute(m) + 1) % (CENTURY * DAY)
            && SecondOfDay(m') == (SecondOfDay(m) + 1) % DAY
            && m'.weekday == (if SecondOfDay(m) == DAY - 1 then m.weekday % 7 + 1 else m.weekday)
            && m.weekday >= 1 && Advance(r)[7] == r[7]
  {
    hide Absolute;
    hide SecondOfDay;
    hide NextSecond;
    hide DaysInMonth;
    hide Decode;
    ValidInRange(r);
    SecondAdvances(Decode(r));
    NextInRange(Decode(r));
    DecodeEncode(NextSecond(Decode(r)), r[7]);
  }

  /** n seconds move the clock by exactly n seconds in its century, and the
      weekday by one for every midnight passed. */
  lemma {:induction false} AdvanceCounts(r: Registers, n: nat)
    requires Valid(r)
    ensures var m, m' := Decode(r), Decode(AdvanceN(r, n));
            && Valid(AdvanceN(r, n))
            && Absolute(m') == (Absolute(m) + n) % (CENTURY * DAY)
            && SecondOfDay(m') == (SecondOfDay(m) + n) % DAY
            && m'.weekday - 1 == (m.weekday - 1 + (SecondOfDay(m) + n) / DAY) % 7
            && AdvanceN(r, n)[7] == r[7]
  {
    hide Absolute;
    hide SecondOfDay;
    hide Advance;
    hide Decode;
    hide InRange;
    hide Valid;
    ValidInRange(r);
    SecondAdvances(Decode(r));
    SecondBound(Decode(r));
    if n == 0 {
      QuotientIs(Absolute(Decode(r)), CENTURY * DAY, 0, Absolute(Decode(r)));
      WeekdayOfToday(Decode(r));
    } else {
      AdvanceCounts(r, n - 1);
      var s := AdvanceN(r, n - 1);
      AdvanceOne(s);
      AdvanceValid(s);
      SuccessorMod(Absolute(Decode(r)) + n - 1, CENTURY * DAY);
      WeekdayStep(SecondOfDay(Decode(r)) + n - 1, Decode(r).weekday, Decode(s).weekday);
    }
  }

  // ---------------------------------------------------------- ticks of CPU

  function Quotient(x: nat, d: nat): nat
    requires d > 0
  {
    x / d
  }

  /** The clock with its divider: hz ticks make a second. */
  datatype Clock = Clock(regs: Registers, hz: nat, accum: nat)

  function Step(d: Clock): Clock {
    if d.hz == 0 then d
    else if d.accum + 1 < d.hz then d.(accum := d.accum + 1)
    else d.(accum := 0, regs := Advance(d.regs))
  }

  function StepN(d: Clock, n: nat): Clock {
    if n == 0 then d else Step(StepN(d, n - 1))
  }

  lemma {:induction false} StepNDivides(d: Clock, n: nat)
    requires d.accum < d.hz
    ensures StepN(d, n) == Clock(AdvanceN(d.regs, Quotient(d.accum + n, d.hz)), d.hz, (d.accum + n) % d.hz)
  {
    hide Advance;
    if n == 0 {
      QuotientIs(d.accum, d.hz, 0, d.accum);
    } else {
      StepNDivides(d, n - 1);
      NextQuotient(d.accum + n - 1, d.hz);
    }
  }

  /** n ticks advance the calendar by exactly the whole seconds in them, keep
      it valid, and leave the remainder in the divider. */
  lemma ClockKeepsTime(d: Clock, n: nat)
    requires Valid(d.regs) && d.accum < d.hz
    ensures var r := StepN(d, n);
            var seconds := Quotient(d.accum + n, d.hz);
            var m, m' := Decode(d.regs), Decode(r.regs);
            && Valid(r.regs) && r.accum == (d.accum + n) % d.hz && r.hz == d.hz
            && Absolute(m') == (Absolute(m) + seconds) % (CENTURY * DAY)
            && m'.weekday - 1 == (m.weekday - 1 + (SecondOfDay(m) + seconds) / DAY) % 7
            && r.regs[7] == d.regs[7]
  {
    hide Valid;
    hide Absolute;
    hide SecondOfDay;
    hide Decode;
    StepNDivides(d, n);
    AdvanceCounts(d.regs, Quotient(d.accum + n, d.hz));
  }

  // ------------------------------------------------ absolute time is faithful

  lemma {:induction false} MonthsGrow(a: nat, b: nat, year: nat)
    requires 1 <= a < b <= 12
    ensures DaysBefore(a, year) + DaysInMonth(a, year) <= DaysBefore(b, year)
    decreases b
  {
    if a < b - 1 { MonthsGrow(a, b - 1, year); }
  }

  lemma {:induction false} YearsGrow(a: nat, b: nat)
    requires a < b
    ensures YearStart(a + 1) <= YearStart(b)
  {
  }

  lemma DayNumberInjective(m: Moment, n: Moment)
    requires InRange(m) && InRange(n) && DayNumber(m) == DayNumber(n)
    ensures m.year == n.year && m.month == n.month && m.date == n.date
  {
    DayBound(m);
    DayBound(n);
    if m.year < n.year { YearsGrow(m.year, n.year); }
    else if n.year < m.year { YearsGrow(n.year, m.year); }
    else if m.month < n.month { MonthsGrow(m.month, n.month, m.year); }
    else if n.month < m.month { MonthsGrow(n.month, m.month, m.year); }
  }

  /** Two valid register files that show the same absolute time show the same
      time, date, month and year. */
  lemma AbsoluteInjective(r: Registers, s: Registers)
    requires Valid(r) && Valid(s) && Absolute(Decode(r)) == Absolute(Decode(s))
    ensures r[..5] == s[..5] && r[6] == s[6]
  {
    var m, n := Decode(r), Decode(s);
    SplitTime(m, n);
    DayNumberInjective(m, n);
    EncodedRegisters(r);
    EncodedRegisters(s);
    hide Decode;
    hide Valid;
  }

  lemma SplitTime(m: Moment, n: Moment)
    requires InRange(m) && InRange(n) && Absolute(m) == Absolute(n)
    ensures DayNumber(m) == DayNumber(n) && m.hour == n.hour && m.min == n.min && m.sec == n.sec
  {
    hide DayNumber;
    hide DaysInMonth;
    SecondBound(m);
    SecondBound(n);
  }

  lemma EncodedRegisters(r: Registers)
    requires Valid(r)
    ensures var m := Decode(r);
            r[..5] == [ToBcd(m.sec), ToBcd(m.min), ToBcd(m.hour), ToBcd(m.date), ToBcd(m.month)]
            && r[6] == ToBcd(m.year)
  {
    var e := Encode(Decode(r), r[7]);
    assert r[0] == e[0] && r[1] == e[1] && r[2] == e[2] && r[3] == e[3] && r[4] == e[4] && r[6] == e[6];
  }
}
