/** Timestamps as the stores use them: UTC datetimes, the text `datetime.isoformat()` writes
    into SQLite columns, and the comparison SQLite makes on that text. */
module Timestamps {
  import opened Wrappers
  import opened Texts

  /** A UTC `datetime`: years 1 to 9999, microsecond resolution. */
  datatype Time = Time(year: nat, month: nat, day: nat, hour: nat, minute: nat, second: nat, micro: nat) {
    predicate Valid() {
      1 <= year <= 9999 && 1 <= month <= 12 && 1 <= day <= DaysInMonth(year, month)
      && hour < 24 && minute < 60 && second < 60 && micro < 1_000_000
    }
  }

  type Moment = t: Time | t.Valid() witness Time(1, 1, 1, 0, 0, 0, 0)

  predicate Leap(year: nat) {
    year % 4 == 0 && (year % 100 != 0 || year % 400 == 0)
  }

  function DaysInYear(year: nat): nat {
    if Leap(year) then 366 else 365
  }

  function DaysInMonth(year: nat, month: nat): nat {
    if month == 2 then (if Leap(year) then 29 else 28)
    else if month == 4 || month == 6 || month == 9 || month == 11 then 30
    else 31
  }

  /** Days from 1 January of year 1 to 1 January of `year`. */
  function DaysBeforeYear(year: nat): nat {
    if year <= 1 then 0 else DaysBeforeYear(year - 1) + DaysInYear(year - 1)
  }

  function DaysBeforeMonth(year: nat, month: nat): nat {
    if month <= 1 then 0 else DaysBeforeMonth(year, month - 1) + DaysInMonth(year, month - 1)
  }

  function DayNumber(t: Time): nat
    requires t.Valid()
  {
    DaysBeforeYear(t.year) + DaysBeforeMonth(t.year, t.month) + (t.day - 1)
  }

  function MicroOfDay(t: Time): nat {
    ((t.hour * 60 + t.minute) * 60 + t.second) * 1_000_000 + t.micro
  }

  /** Microseconds since the start of year 1: the chronological position of a moment. */
  function Instant(t: Moment): nat {
    DayNumber(t) * 86_400_000_000 + MicroOfDay(t)
  }

  // ----- Chronological order is the order of the fields -----

  lemma {:induction false} DaysBeforeYearMonotone(a: nat, b: nat)
    requires 1 <= a < b
    ensures DaysBeforeYear(a) + DaysInYear(a) <= DaysBeforeYear(b)
  {
    if a + 1 < b { DaysBeforeYearMonotone(a, b - 1); }
  }

  lemma {:induction false} DaysBeforeMonthMonotone(year: nat, a: nat, b: nat)
    requires 1 <= a < b
    ensures DaysBeforeMonth(year, a) + DaysInMonth(year, a) <= DaysBeforeMonth(year, b)
  {
    if a + 1 < b { DaysBeforeMonthMonotone(year, a, b - 1); }
  }

  lemma MonthsFillYear(year: nat)
    ensures DaysBeforeMonth(year, 13) == DaysInYear(year)
  {
    var february := DaysInMonth(year, 2);
    assert DaysBeforeMonth(year, 3) == 31 + february by { assert DaysBeforeMonth(year, 2) == 31; }
    assert DaysBeforeMonth(year, 5) == 92 + february by { assert DaysBeforeMonth(year, 4) == 62 + february; }
    assert DaysBeforeMonth(year, 7) == 153 + february by { assert DaysBeforeMonth(year, 6) == 123 + february; }
    assert DaysBeforeMonth(year, 9) == 215 + february by { assert DaysBeforeMonth(year, 8) == 184 + february; }
    assert DaysBeforeMonth(year, 11) == 276 + february by { assert DaysBeforeMonth(year, 10) == 245 + february; }
    assert DaysBeforeMonth(year, 13) == 337 + february by { assert DaysBeforeMonth(year, 12) == 306 + february; }
  }

  predicate DateLess(a: Time, b: Time) {
    a.year < b.year || (a.year == b.year && (a.month < b.month || (a.month == b.month && a.day < b.day)))
  }

  lemma DateOrder(a: Moment, b: Moment)
    requires DateLess(a, b)
    ensures DayNumber(a) < DayNumber(b)
  {
    if a.year < b.year {
      DaysBeforeYearMonotone(a.year, b.year);
      DaysBeforeMonthMonotone(a.year, a.month, 13);
      MonthsFillYear(a.year);
    } else if a.month < b.month {
      DaysBeforeMonthMonotone(a.year, a.month, b.month);
    }
  }

  /** The date and clock fields in the order in which the text lists them. */
  function Clock(t: Time): seq<nat> {
    [t.year, t.month, t.day, t.hour, t.minute, t.second]
  }

  predicate NumbersLess(a: seq<nat>, b: seq<nat>) {
    b != [] && (a == [] || a[0] < b[0] || (a[0] == b[0] && NumbersLess(a[1..], b[1..])))
  }

  predicate FieldsLess(a: Time, b: Time) {
    NumbersLess(Clock(a), Clock(b)) || (Clock(a) == Clock(b) && a.micro < b.micro)
  }

  lemma HeadOrder(x: nat, y: nat, s: seq<nat>, t: seq<nat>)
    ensures NumbersLess([x] + s, [y] + t) <==> x < y || (x == y && NumbersLess(s, t))
  {
    assert ([x] + s)[1..] == s && ([y] + t)[1..] == t;
  }

  lemma ClockOrder(a: Time, b: Time)
    ensures NumbersLess(Clock(a), Clock(b)) <==>
            DateLess(a, b)
            || (a.year == b.year && a.month == b.month && a.day == b.day
                && (a.hour < b.hour || (a.hour == b.hour
                    && (a.minute < b.minute || (a.minute == b.minute && a.second < b.second)))))
  {
    var a5, b5 := [a.second] + [], [b.second] + [];
    var a4, b4 := [a.minute] + a5, [b.minute] + b5;
    var a3, b3 := [a.hour] + a4, [b.hour] + b4;
    var a2, b2 := [a.day] + a3, [b.day] + b3;
    var a1, b1 := [a.month] + a2, [b.month] + b2;
    HeadOrder(a.second, b.second, [], []);
    HeadOrder(a.minute, b.minute, a5, b5);
    HeadOrder(a.hour, b.hour, a4, b4);
    HeadOrder(a.day, b.day, a3, b3);
    HeadOrder(a.month, b.month, a2, b2);
    HeadOrder(a.year, b.year, a1, b1);
    assert Clock(a) == [a.year] + a1 && Clock(b) == [b.year] + b1;
  }

  lemma FieldsLessIsEarlier(a: Moment, b: Moment)
    requires FieldsLess(a, b)
    ensures Instant(a) < Instant(b)
  {
    ClockOrder(a, b);
    if DateLess(a, b) {
      DateOrder(a, b);
    } else {
      assert Clock(a) == Clock(b) ==> a.year == Clock(b)[0] && a.month == Clock(b)[1] && a.day == Clock(b)[2]
                                      && a.hour == Clock(b)[3] && a.minute == Clock(b)[4] && a.second == Clock(b)[5];
      assert DayNumber(a) == DayNumber(b);
    }
  }

  lemma FieldsTrichotomy(a: Time, b: Time)
    ensures FieldsLess(a, b) || FieldsLess(b, a) || a == b
  {
    ClockOrder(a, b);
    ClockOrder(b, a);
  }

  // ----- The calendar -----

  /** Known dates of the proleptic Gregorian calendar: a year, four years, a century and the cycle of
      four hundred years, and the days before 1 January 1970. */
  lemma KnownYears()
    ensures DaysBeforeYear(2) == 365 && DaysBeforeYear(5) == 1_461
    ensures DaysBeforeYear(101) == 36_524 && DaysBeforeYear(401) == 146_097 && DaysBeforeYear(1970) == 719_162
  {
    DaysInClosedForm(2);
    DaysInClosedForm(5);
    DaysInClosedForm(101);
    DaysInClosedForm(401);
    DaysInClosedForm(1970);
  }

  lemma {:induction false} DaysInClosedForm(year: nat)
    requires year >= 1
    ensures DaysBeforeYear(year) == (year - 1) * 365 + (year - 1) / 4 - (year - 1) / 100 + (year - 1) / 400
  {
    if year > 1 {
      DaysInClosedForm(year - 1);
      LeapDay(year - 1);
      hide Leap;
    }
  }

  lemma LeapDay(year: nat)
    requires year >= 1
    ensures (if Leap(year) then 1 else 0)
            == (year / 4 - (year - 1) / 4) - (year / 100 - (year - 1) / 100) + (year / 400 - (year - 1) / 400)
  {
    Quotients4(year);
    Quotients100(year);
    Quotients400(year);
    Multiples100(year);
    Multiples400(year);
  }

  lemma Multiples100(n: nat)
    ensures n % 100 == 0 ==> n % 4 == 0
  {
    if n % 100 == 0 { TimesFour(n, 25 * (n / 100)); }
  }

  lemma TimesFour(n: nat, k: nat)
    requires n == 4 * k
    ensures n % 4 == 0
  {
  }

  lemma Multiples400(n: nat)
    ensures n % 400 == 0 ==> n % 100 == 0
  {
    if n % 400 == 0 { TimesHundred(n, 4 * (n / 400)); }
  }

  lemma TimesHundred(n: nat, k: nat)
    requires n == 100 * k
    ensures n % 100 == 0
  {
  }

  lemma Quotients4(n: nat)
    requires n >= 1
    ensures n / 4 - (n - 1) / 4 == if n % 4 == 0 then 1 else 0
  {}

  lemma Quotients100(n: nat)
    requires n >= 1
    ensures n / 100 - (n - 1) / 100 == if n % 100 == 0 then 1 else 0
  {}

  lemma Quotients400(n: nat)
    requires n >= 1
    ensures n / 400 - (n - 1) / 400 == if n % 400 == 0 then 1 else 0
  {}

  /** The days before each month, of which a leap year has one more from March on. */
  lemma KnownMonths(year: nat)
    ensures var leap := if Leap(year) then 1 else 0;
            DaysBeforeMonth(year, 1) == 0 && DaysBeforeMonth(year, 2) == 31 && DaysBeforeMonth(year, 3) == 59 + leap
            && DaysBeforeMonth(year, 4) == 90 + leap && DaysBeforeMonth(year, 5) == 120 + leap
            && DaysBeforeMonth(year, 6) == 151 + leap && DaysBeforeMonth(year, 7) == 181 + leap
            && DaysBeforeMonth(year, 8) == 212 + leap && DaysBeforeMonth(year, 9) == 243 + leap
            && DaysBeforeMonth(year, 10) == 273 + leap && DaysBeforeMonth(year, 11) == 304 + leap
            && DaysBeforeMonth(year, 12) == 334 + leap && DaysBeforeMonth(year, 13) == 365 + leap
  {
    hide Leap;
  }

  // ----- Text: what isoformat writes and how SQLite compares it -----

  function Digit(n: nat): char
    requires n < 10
  {
    '0' + n as char
  }

  function Power10(width: nat): nat {
    if width == 0 then 1 else 10 * Power10(width - 1)
  }

  /** `n` in decimal, zero-padded to `width` digits. */
  function Pad(n: nat, width: nat): (s: string)
    requires n < Power10(width)
    ensures |s| == width
  {
    if width == 0 then "" else Pad(n / 10, width - 1) + [Digit(n % 10)]
  }

  function Fraction(micro: nat): string
    requires micro < 1_000_000
  {
    if micro == 0 then "" else "." + Pad6(micro)
  }

  function Pad2(n: nat): (s: string)
    requires n < 100
    ensures |s| == 2
  {
    assert Power10(2) == 100;
    Pad(n, 2)
  }

  function Pad4(n: nat): (s: string)
    requires n < 10_000
    ensures |s| == 4
  {
    assert Power10(2) == 100 && Power10(4) == 10_000;
    Pad(n, 4)
  }

  function Pad6(n: nat): (s: string)
    requires n < 1_000_000
    ensures |s| == 6
  {
    assert Power10(2) == 100 && Power10(4) == 10_000 && Power10(6) == 1_000_000;
    Pad(n, 6)
  }

  /** `YYYY-MM-DDTHH:MM:SS[.ffffff]+00:00`: isoformat omits a zero fraction. */
  function Iso(t: Moment): string {
    Pad4(t.year) + ("-" + (Pad2(t.month) + ("-" + (Pad2(t.day) + ("T" + (Pad2(t.hour)
    + (":" + (Pad2(t.minute) + (":" + (Pad2(t.second) + (Fraction(t.micro) + "+00:00")))))))))))
  }

  lemma Peel(s: string, at: nat, part: string, mark: string, rest: string)
    requires at <= |s| && s[at..] == part + (mark + rest) && |mark| == 1
    ensures at + |part| < |s| && s[at..at + |part|] == part && s[at + |part|] == mark[0] && s[at + |part| + 1..] == rest
  {
    assert s[at..at + |part|] == s[at..][..|part|];
    assert s[at + |part| + 1..] == s[at..][|part| + 1..];
    assert s[at + |part|] == s[at..][|part|];
  }

  lemma FractionShape(s: string, at: nat, micro: nat)
    requires micro < 1_000_000 && at <= |s| && s[at..] == Fraction(micro) + "+00:00"
    ensures if micro == 0 then s[at..] == "+00:00"
            else |s| == at + 13 && s[at] == '.' && s[at + 1..at + 7] == Pad6(micro) && s[at + 7..] == "+00:00"
  {
    hide Pad6;
    if micro == 0 {
      assert "" + "+00:00" == "+00:00";
    } else {
      assert s[at..] == "." + Pad6(micro) + "+00:00";
      assert s[at] == s[at..][0] && s[at + 1..at + 7] == s[at..][1..7] && s[at + 7..] == s[at..][7..];
    }
  }

  lemma DateShape(s: string, year: string, month: string, day: string, rest: string)
    requires |year| == 4 && |month| == 2 && |day| == 2 && s == year + ("-" + (month + ("-" + (day + ("T" + rest)))))
    ensures |s| == 11 + |rest| && s[..4] == year && s[4] == '-' && s[5..7] == month && s[7] == '-' && s[8..10] == day && s[10] == 'T'
    ensures s[11..] == rest
  {
    assert s[0..] == s;
    Peel(s, 0, year, "-", month + ("-" + (day + ("T" + rest))));
    Peel(s, 5, month, "-", day + ("T" + rest));
    Peel(s, 8, day, "T", rest);
  }

  lemma ClockShape(s: string, hour: string, minute: string, second: string, rest: string)
    requires |hour| == 2 && |minute| == 2 && |second| == 2 && |s| >= 11 && s[11..] == hour + (":" + (minute + (":" + (second + rest))))
    ensures |s| == 19 + |rest| && s[11..13] == hour && s[13] == ':' && s[14..16] == minute && s[16] == ':' && s[17..19] == second
    ensures s[19..] == rest
  {
    Peel(s, 11, hour, ":", minute + (":" + (second + rest)));
    Peel(s, 14, minute, ":", second + rest);
    assert s[17..19] == s[17..][..2] && s[19..] == s[17..][2..];
  }

  /** The text has the fields in the order of the extended format of ISO 8601, at fixed places. */
  lemma IsoShape(t: Moment)
    ensures var s := Iso(t);
            |s| == (if t.micro == 0 then 25 else 32)
            && s[..4] == Pad4(t.year) && s[4] == '-' && s[5..7] == Pad2(t.month) && s[7] == '-' && s[8..10] == Pad2(t.day)
            && s[10] == 'T' && s[11..13] == Pad2(t.hour) && s[13] == ':' && s[14..16] == Pad2(t.minute)
            && s[16] == ':' && s[17..19] == Pad2(t.second)
            && (if t.micro == 0 then s[19..] == "+00:00" else s[19] == '.' && s[20..26] == Pad6(t.micro) && s[26..] == "+00:00")
  {
    hide Pad2, Pad4, Pad6, Fraction;
    var rest := Fraction(t.micro) + "+00:00";
    DateShape(Iso(t), Pad4(t.year), Pad2(t.month), Pad2(t.day),
              Pad2(t.hour) + (":" + (Pad2(t.minute) + (":" + (Pad2(t.second) + rest)))));
    hide Iso;
    ClockShape(Iso(t), Pad2(t.hour), Pad2(t.minute), Pad2(t.second), rest);
    FractionShape(Iso(t), 19, t.micro);
  }

  /** Each field is its digits, zero-padded. */
  lemma PaddedValue(n: nat, width: nat)
    requires n < Power10(width)
    ensures Number(Pad(n, width)) == Some(n) && |Pad(n, width)| == width
  {
    NumberOfPad(n, width);
  }

  lemma {:induction false} PadOrder(m: nat, n: nat, width: nat)
    requires m < Power10(width) && n < Power10(width)
    ensures TextLess(Pad(m, width), Pad(n, width)) <==> m < n
    ensures Pad(m, width) == Pad(n, width) <==> m == n
  {
    if width != 0 {
      PadOrder(m / 10, n / 10, width - 1);
      TextLessAppend(Pad(m / 10, width - 1), Pad(n / 10, width - 1), [Digit(m % 10)], [Digit(n % 10)]);
      assert TextLess([Digit(m % 10)], [Digit(n % 10)]) <==> m % 10 < n % 10 by {
        assert !TextLess([Digit(m % 10)][1..], [Digit(n % 10)][1..]);
      }
      var s, t := Pad(m, width), Pad(n, width);
      assert s == t ==> s[..width - 1] == t[..width - 1] && s[width - 1] == t[width - 1];
      assert s[..width - 1] == Pad(m / 10, width - 1) && t[..width - 1] == Pad(n / 10, width - 1);
    }
  }

  /** One zero-padded field and what follows it, compared with another of the same width. */
  lemma FieldOrder(m: nat, n: nat, width: nat, x: string, y: string)
    requires m < Power10(width) && n < Power10(width)
    ensures TextLess(Pad(m, width) + x, Pad(n, width) + y) <==> m < n || (m == n && TextLess(x, y))
  {
    PadOrder(m, n, width);
    TextLessAppend(Pad(m, width), Pad(n, width), x, y);
  }

  lemma SeparatorOrder(separator: char, x: string, y: string)
    ensures TextLess([separator] + x, [separator] + y) <==> TextLess(x, y)
  {
    TextLessAppend([separator], [separator], x, y);
    assert !TextLess([separator], [separator]);
  }

  lemma FractionOrder(m: nat, n: nat)
    requires m < 1_000_000 && n < 1_000_000
    ensures TextLess(Fraction(m) + "+00:00", Fraction(n) + "+00:00") <==> m < n
  {
    var zone := "+00:00";
    assert !TextLess(zone, zone) by { TextIrreflexive(zone); }
    if m == 0 || n == 0 {
      // '+' sorts before '.', so a whole second sorts before its own fractions.
      assert Fraction(0) + zone == zone;
      assert m != 0 ==> (Fraction(m) + zone)[0] == '.';
      assert n != 0 ==> (Fraction(n) + zone)[0] == '.';
    } else {
      assert Power10(2) == 100 && Power10(4) == 10_000 && Power10(6) == 1_000_000;
      FieldOrder(m, n, 6, zone, zone);
      SeparatorOrder('.', Pad6(m) + zone, Pad6(n) + zone);
      assert Fraction(m) + zone == ['.'] + (Pad6(m) + zone);
      assert Fraction(n) + zone == ['.'] + (Pad6(n) + zone);
    }
  }

  lemma IsoOrderIsFieldOrder(a: Moment, b: Moment)
    ensures TextLess(Iso(a), Iso(b)) <==> FieldsLess(a, b)
  {
    assert Power10(2) == 100 && Power10(4) == 10_000;
    var a6, b6 := Fraction(a.micro) + "+00:00", Fraction(b.micro) + "+00:00";
    var a5, b5 := Pad2(a.second) + a6, Pad2(b.second) + b6;
    var a4, b4 := Pad2(a.minute) + (":" + a5), Pad2(b.minute) + (":" + b5);
    var a3, b3 := Pad2(a.hour) + (":" + a4), Pad2(b.hour) + (":" + b4);
    var a2, b2 := Pad2(a.day) + ("T" + a3), Pad2(b.day) + ("T" + b3);
    var a1, b1 := Pad2(a.month) + ("-" + a2), Pad2(b.month) + ("-" + b2);
    FractionOrder(a.micro, b.micro);
    FieldOrder(a.second, b.second, 2, a6, b6);
    SeparatorOrder(':', a5, b5);
    FieldOrder(a.minute, b.minute, 2, ":" + a5, ":" + b5);
    SeparatorOrder(':', a4, b4);
    FieldOrder(a.hour, b.hour, 2, ":" + a4, ":" + b4);
    SeparatorOrder('T', a3, b3);
    FieldOrder(a.day, b.day, 2, "T" + a3, "T" + b3);
    SeparatorOrder('-', a2, b2);
    FieldOrder(a.month, b.month, 2, "-" + a2, "-" + b2);
    SeparatorOrder('-', a1, b1);
    FieldOrder(a.year, b.year, 4, "-" + a1, "-" + b1);
    ClockOrder(a, b);
  }

  /** SQLite's text comparison of two stored timestamps is the chronological comparison. */
  lemma TextOrderIsChronological(a: Moment, b: Moment)
    ensures TextLess(Iso(a), Iso(b)) <==> Instant(a) < Instant(b)
    ensures TextAtMost(Iso(a), Iso(b)) <==> Instant(a) <= Instant(b)
    ensures Iso(a) == Iso(b) <==> Instant(a) == Instant(b)
    ensures Instant(a) == Instant(b) <==> a == b
  {
    IsoOrderIsFieldOrder(a, b);
    IsoOrderIsFieldOrder(b, a);
    FieldsTrichotomy(a, b);
    TextIrreflexive(Iso(a));
    if FieldsLess(a, b) {
      FieldsLessIsEarlier(a, b);
    } else if FieldsLess(b, a) {
      FieldsLessIsEarlier(b, a);
    }
  }

  // ----- Reading text back: datetime.fromisoformat on what isoformat wrote -----

  function DigitValue(c: char): Option<nat> {
    if '0' <= c <= '9' then Some((c - '0') as nat) else None
  }

  function Number(s: string): Option<nat> {
    if s == "" then Some(0)
    else
      match (Number(s[..|s| - 1]), DigitValue(s[|s| - 1]))
      case (Some(high), Some(low)) => Some(10 * high + low)
      case _ => None
  }

  function TakeNumber(s: string, width: nat): Option<(nat, string)> {
    if |s| < width then None
    else
      var n :- Number(s[..width]);
      Some((n, s[width..]))
  }

  function TakeChar(s: string, c: char): Option<string> {
    if s != "" && s[0] == c then Some(s[1..]) else None
  }

  function TakeFraction(s: string): Option<(nat, string)> {
    if s != "" && s[0] == '.' then TakeNumber(s[1..], 6) else Some((0, s))
  }

  function TakeField(s: string, separator: char, width: nat): Option<(nat, string)> {
    var rest :- TakeChar(s, separator);
    TakeNumber(rest, width)
  }

  function TakeDate(s: string): Option<(nat, nat, nat, string)> {
    var (year, s) :- TakeNumber(s, 4);
    var (month, s) :- TakeField(s, '-', 2);
    var (day, s) :- TakeField(s, '-', 2);
    Some((year, month, day, s))
  }

  function TakeClock(s: string): Option<(nat, nat, nat, nat, string)> {
    var (hour, s) :- TakeField(s, 'T', 2);
    var (minute, s) :- TakeField(s, ':', 2);
    var (second, s) :- TakeField(s, ':', 2);
    var (micro, s) :- TakeFraction(s);
    Some((hour, minute, second, micro, s))
  }

  function ParseIso(s: string): Option<Moment> {
    var (year, month, day, rest) :- TakeDate(s);
    var (hour, minute, second, micro, zone) :- TakeClock(rest);
    var t := Time(year, month, day, hour, minute, second, micro);
    if zone == "+00:00" && t.Valid() then Some(t) else None
  }

  lemma {:induction false} NumberOfPad(n: nat, width: nat)
    requires n < Power10(width)
    ensures Number(Pad(n, width)) == Some(n)
  {
    if width != 0 {
      NumberOfPad(n / 10, width - 1);
      var s := Pad(n, width);
      assert s[..width - 1] == Pad(n / 10, width - 1);
      assert s[width - 1] == Digit(n % 10);
    }
  }

  lemma TakeNumberOfPad(n: nat, width: nat, rest: string)
    requires n < Power10(width)
    ensures TakeNumber(Pad(n, width) + rest, width) == Some((n, rest))
  {
    NumberOfPad(n, width);
    var s := Pad(n, width) + rest;
    assert s[..width] == Pad(n, width) && s[width..] == rest;
  }

  lemma TakeFieldOfPad(separator: char, n: nat, width: nat, rest: string)
    requires n < Power10(width)
    ensures TakeField([separator] + (Pad(n, width) + rest), separator, width) == Some((n, rest))
  {
    TakeNumberOfPad(n, width, rest);
    assert ([separator] + (Pad(n, width) + rest))[1..] == Pad(n, width) + rest;
  }

  lemma TakeFractionOfText(micro: nat, rest: string)
    requires micro < 1_000_000 && (rest == "" || rest[0] != '.')
    ensures TakeFraction(Fraction(micro) + rest) == Some((micro, rest))
  {
    assert Power10(2) == 100 && Power10(4) == 10_000 && Power10(6) == 1_000_000;
    TakeNumberOfPad(micro, 6, rest);
    if micro == 0 {
      assert Fraction(micro) + rest == rest;
    } else {
      assert (Fraction(micro) + rest)[1..] == Pad6(micro) + rest;
    }
  }

  lemma TakeDateOfText(year: nat, month: nat, day: nat, rest: string)
    requires year < 10_000 && month < 100 && day < 100
    ensures TakeDate(Pad4(year) + ("-" + (Pad2(month) + ("-" + (Pad2(day) + rest))))) == Some((year, month, day, rest))
  {
    assert Power10(2) == 100 && Power10(4) == 10_000;
    TakeFieldOfPad('-', day, 2, rest);
    TakeFieldOfPad('-', month, 2, "-" + (Pad2(day) + rest));
    TakeNumberOfPad(year, 4, "-" + (Pad2(month) + ("-" + (Pad2(day) + rest))));
  }

  lemma TakeClockOfText(hour: nat, minute: nat, second: nat, micro: nat, rest: string)
    requires hour < 100 && minute < 100 && second < 100 && micro < 1_000_000 && (rest == "" || rest[0] != '.')
    ensures TakeClock("T" + (Pad2(hour) + (":" + (Pad2(minute) + (":" + (Pad2(second) + (Fraction(micro) + rest)))))))
            == Some((hour, minute, second, micro, rest))
  {
    assert Power10(2) == 100;
    TakeFractionOfText(micro, rest);
    var s1 := Fraction(micro) + rest;
    TakeFieldOfPad(':', second, 2, s1);
    var s2 := ":" + (Pad2(second) + s1);
    TakeFieldOfPad(':', minute, 2, s2);
    TakeFieldOfPad('T', hour, 2, ":" + (Pad2(minute) + s2));
  }

  /** Reading a stored timestamp back gives the moment that was written. */
  lemma ParseIsoRoundTrip(t: Moment)
    ensures ParseIso(Iso(t)) == Some(t)
  {
    var clock := "T" + (Pad2(t.hour) + (":" + (Pad2(t.minute) + (":" + (Pad2(t.second) + (Fraction(t.micro) + "+00:00"))))));
    TakeDateOfText(t.year, t.month, t.day, clock);
    TakeClockOfText(t.hour, t.minute, t.second, t.micro, "+00:00");
    assert Iso(t) == Pad4(t.year) + ("-" + (Pad2(t.month) + ("-" + (Pad2(t.day) + clock))));
  }

  // ----- datetime + timedelta -----

  function YearOfDay(days: nat, year: nat): (y: nat)
    requires 1 <= year && DaysBeforeYear(year) <= days < DaysBeforeYear(10_000)
    ensures year <= y && DaysBeforeYear(y) <= days < DaysBeforeYear(y + 1)
    decreases 10_000 - year
  {
    if days < DaysBeforeYear(year + 1) then year
    else
      assert year < 10_000 by {
        if year >= 10_000 { BeforeYearGrows(10_000, year); }
      }
      YearOfDay(days, year + 1)
  }

  lemma BeforeYearGrows(a: nat, b: nat)
    requires 1 <= a <= b
    ensures DaysBeforeYear(a) <= DaysBeforeYear(b)
  {
    if a < b { DaysBeforeYearMonotone(a, b); }
  }

  function MonthOfDay(year: nat, days: nat, month: nat): (m: nat)
    requires 1 <= month <= 12 && DaysBeforeMonth(year, month) <= days < DaysBeforeMonth(year, 13)
    ensures month <= m <= 12 && DaysBeforeMonth(year, m) <= days < DaysBeforeMonth(year, m + 1)
    decreases 12 - month
  {
    if days < DaysBeforeMonth(year, month + 1) then month else MonthOfDay(year, days, month + 1)
  }

  /** The number of microseconds in years 1 to 9999. */
  function EndOfTime(): nat {
    DaysBeforeYear(10_000) * 86_400_000_000
  }

  lemma ClockParts(rest: nat)
    requires rest < 86_400_000_000
    ensures var seconds := rest / 1_000_000;
            seconds / 3600 < 24
            && ((seconds / 3600 * 60 + seconds / 60 % 60) * 60 + seconds % 60) * 1_000_000 + rest % 1_000_000 == rest
  {
    var seconds := rest / 1_000_000;
    var minutes := seconds / 60;
    assert seconds / 3600 == minutes / 60;
  }

  function FromInstant(instant: nat): (t: Moment)
    requires instant < EndOfTime()
    ensures Instant(t) == instant
  {
    var days, rest := instant / 86_400_000_000, instant % 86_400_000_000;
    var year := YearOfDay(days, 1);
    assert year < 10_000 by {
      if year >= 10_000 { BeforeYearGrows(10_000, year); }
    }
    var dayOfYear := days - DaysBeforeYear(year);
    MonthsFillYear(year);
    var month := MonthOfDay(year, dayOfYear, 1);
    var seconds := rest / 1_000_000;
    ClockParts(rest);
    Time(year, month, dayOfYear - DaysBeforeMonth(year, month) + 1,
         seconds / 3600, seconds / 60 % 60, seconds % 60, rest % 1_000_000)
  }

  /** `t + timedelta(microseconds=delta)`, or None where Python raises OverflowError. */
  function Shift(t: Moment, delta: int): (r: Option<Moment>)
    ensures match r
            case Some(shifted) => Instant(shifted) == Instant(t) + delta
            case None => Instant(t) + delta < 0 || Instant(t) + delta >= EndOfTime()
  {
    var instant := Instant(t) + delta;
    if 0 <= instant < EndOfTime() then Some(FromInstant(instant)) else None
  }
}
