/** Calendar dates as the `/edycja` overlay reads and writes them:
    `datetime.strptime(text, '%d.%m.%Y')` followed by `strftime('%Y-%m-%d')`. */
module Dates {
  import opened Wrappers
  import opened Strings

  /** A proleptic Gregorian date, as Python's `datetime.date` holds it. */
  datatype Date = Date(year: int, month: int, day: int)

  predicate IsLeapYear(y: int) {
    y % 4 == 0 && (y % 100 != 0 || y % 400 == 0)
  }

  function DaysInMonth(y: int, m: int): (n: int)
    requires 1 <= m <= 12
    ensures 28 <= n <= 31
  {
    if m == 2 then (if IsLeapYear(y) then 29 else 28)
    else if m == 4 || m == 6 || m == 9 || m == 11 then 30
    else 31
  }

  /** The dates `datetime.date` accepts (years 1 to 9999). */
  predicate ValidDate(d: Date) {
    1 <= d.year <= 9999 && 1 <= d.month <= 12 && 1 <= d.day <= DaysInMonth(d.year, d.month)
  }

  // ---------------------------------------------------------------------
  // strptime(text, '%d.%m.%Y')

  /** What `%d` matches: one or two ASCII digits worth 1 to 31. */
  predicate DayField(p: string) {
    1 <= |p| <= 2 && AllDigits(p) && 1 <= DigitsValue(p) <= 31
  }

  /** What `%m` matches: one or two ASCII digits worth 1 to 12. */
  predicate MonthField(p: string) {
    1 <= |p| <= 2 && AllDigits(p) && 1 <= DigitsValue(p) <= 12
  }

  /** What `%Y` matches: exactly four ASCII digits. */
  predicate YearField(p: string) {
    |p| == 4 && AllDigits(p)
  }

  /** `datetime.strptime(s, '%d.%m.%Y')`: the whole text must be a day, a dot,
      a month, a dot and a four-digit year, naming a real calendar day;
      `None` stands for the ValueError. */
  function ParseDotted(s: string): (r: Option<Date>)
    ensures r.Some? ==> ValidDate(r.value)
  {
    var parts := Split(s, '.');
    if |parts| != 3 then None
    else if !(DayField(parts[0]) && MonthField(parts[1]) && YearField(parts[2])) then None
    else
      var d := Date(DigitsValue(parts[2]), DigitsValue(parts[1]), DigitsValue(parts[0]));
      if ValidDate(d) then Some(d) else None
  }

  /** Three dot-free fields joined by dots parse exactly when each field has
      the shape its directive matches and together they name a real day. */
  lemma ParseFields(dt: string, mt: string, yt: string)
    requires '.' !in dt && '.' !in mt && '.' !in yt
    ensures ParseDotted(dt + "." + mt + "." + yt) ==
            if DayField(dt) && MonthField(mt) && YearField(yt)
               && ValidDate(Date(DigitsValue(yt), DigitsValue(mt), DigitsValue(dt)))
            then Some(Date(DigitsValue(yt), DigitsValue(mt), DigitsValue(dt)))
            else None
  {
    var s := dt + "." + mt + "." + yt;
    assert Split(s, '.') == [dt, mt, yt] by {
      assert s == dt + ['.'] + (mt + ['.'] + yt);
      SplitFirst(dt, '.', mt + ['.'] + yt);
      SplitFirst(mt, '.', yt);
    }
  }

  /** A parsed text is its three fields joined by dots, and the fields are
      the day, month and year that were read. */
  lemma ParsedFields(s: string)
    requires ParseDotted(s).Some?
    ensures var parts := Split(s, '.');
            |parts| == 3 && s == parts[0] + "." + parts[1] + "." + parts[2]
            && DayField(parts[0]) && MonthField(parts[1]) && YearField(parts[2])
            && ParseDotted(s).value == Date(DigitsValue(parts[2]), DigitsValue(parts[1]), DigitsValue(parts[0]))
  {
    var parts := Split(s, '.');
    SplitJoin(s, '.');
    assert parts == [parts[0]] + [parts[1], parts[2]];
    JoinCons(parts[0], [parts[1], parts[2]], '.');
    JoinCons(parts[1], [parts[2]], '.');
  }

  // ---------------------------------------------------------------------
  // strftime('%Y-%m-%d') and its inverse

  /** `date.strftime('%Y-%m-%d')`, with the year padded to four digits. */
  function FormatIso(d: Date): (r: string)
    requires ValidDate(d)
    ensures |r| == 10 && r[4] == '-' && r[7] == '-'
    ensures AllDigits(r[..4]) && DigitsValue(r[..4]) == d.year
    ensures AllDigits(r[5..7]) && DigitsValue(r[5..7]) == d.month
    ensures AllDigits(r[8..]) && DigitsValue(r[8..]) == d.day
  {
    assert Pow10(4) == 10000 && Pow10(2) == 100;
    PaddedWidth(d.year, 4);
    PaddedWidth(d.month, 2);
    PaddedWidth(d.day, 2);
    var y, m, dd := Padded(d.year, 4), Padded(d.month, 2), Padded(d.day, 2);
    JoinedFields(y, '-', m, dd);
    y + "-" + m + "-" + dd
  }

  /** Where the fields of a date text sit. */
  lemma JoinedFields(y: string, sep: char, m: string, d: string)
    requires |y| == 4 && |m| == 2 && |d| == 2
    ensures var r := y + [sep] + m + [sep] + d;
            |r| == 10 && r[4] == sep && r[7] == sep && r[..4] == y && r[5..7] == m && r[8..] == d
  {
  }

  /** `date.strftime('%d.%m.%Y')`: the canonical text `strptime` reads back. */
  function FormatDotted(d: Date): (r: string)
    requires ValidDate(d)
    ensures |r| == 10
  {
    assert Pow10(4) == 10000 && Pow10(2) == 100;
    PaddedWidth(d.year, 4);
    PaddedWidth(d.month, 2);
    PaddedWidth(d.day, 2);
    Padded(d.day, 2) + "." + Padded(d.month, 2) + "." + Padded(d.year, 4)
  }

  /** The padded fields of a valid date have the shapes `%d`, `%m` and `%Y` match. */
  lemma PaddedFields(d: Date)
    requires ValidDate(d)
    ensures DayField(Padded(d.day, 2)) && MonthField(Padded(d.month, 2)) && YearField(Padded(d.year, 4))
  {
    assert Pow10(4) == 10000 && Pow10(2) == 100;
    PaddedWidth(d.year, 4);
    PaddedWidth(d.month, 2);
    PaddedWidth(d.day, 2);
  }

  /** Reading a date written as `%d.%m.%Y` gives the date back. */
  lemma ParseFormatDotted(d: Date)
    requires ValidDate(d)
    ensures ParseDotted(FormatDotted(d)) == Some(d)
  {
    var dt, mt, yt := Padded(d.day, 2), Padded(d.month, 2), Padded(d.year, 4);
    PaddedFields(d);
    ParseFields(dt, mt, yt);
  }

  /** Writing a parsed date as `%d.%m.%Y` gives the text back when the text
      already had two-digit day and month fields. */
  lemma FormatParseDotted(s: string)
    requires ParseDotted(s).Some?
    requires |Split(s, '.')[0]| == 2 && |Split(s, '.')[1]| == 2
    ensures FormatDotted(ParseDotted(s).value) == s
  {
    var parts := Split(s, '.');
    var d := ParseDotted(s).value;
    ParsedFields(s);
    assert Pow10(4) == 10000 && Pow10(2) == 100;
    PaddedWidth(d.year, 4);
    PaddedWidth(d.month, 2);
    PaddedWidth(d.day, 2);
    SameValueSameDigits(Padded(d.day, 2), parts[0]);
    SameValueSameDigits(Padded(d.month, 2), parts[1]);
    SameValueSameDigits(Padded(d.year, 4), parts[2]);
  }

  /** Two numerals of the same length and value are the same text. */
  lemma {:induction false} SameValueSameDigits(a: string, b: string)
    requires AllDigits(a) && AllDigits(b) && |a| == |b| && DigitsValue(a) == DigitsValue(b)
    ensures a == b
  {
    if |a| > 0 {
      var n := |a| - 1;
      var da, db := a[n] as int - '0' as int, b[n] as int - '0' as int;
      assert DigitsValue(a) == DigitsValue(a[..n]) * 10 + da;
      assert DigitsValue(b) == DigitsValue(b[..n]) * 10 + db;
      assert da == db;
      SameValueSameDigits(a[..n], b[..n]);
      assert a == a[..n] + [a[n]] && b == b[..n] + [b[n]];
    }
  }

  /** The value of a numeral of up to four digits, digit by digit. */
  lemma ShortDigitsValue(s: string)
    requires 1 <= |s| <= 4 && AllDigits(s)
    ensures |s| == 1 ==> DigitsValue(s) == Digit(s[0])
    ensures |s| == 2 ==> DigitsValue(s) == 10 * Digit(s[0]) + Digit(s[1])
    ensures |s| == 4 ==> DigitsValue(s) == 1000 * Digit(s[0]) + 100 * Digit(s[1]) + 10 * Digit(s[2]) + Digit(s[3])
  {
    var n := |s|;
    assert DigitsValue(s[..0]) == 0;
    assert DigitsValue(s[..1]) == Digit(s[0]) by { assert s[..1][..0] == s[..0]; }
    if n >= 2 { assert DigitsValue(s[..2]) == 10 * Digit(s[0]) + Digit(s[1]) by { assert s[..2][..1] == s[..1]; } }
    if n >= 3 { assert s[..3][..2] == s[..2]; }
    if n >= 4 { assert s[..4][..3] == s[..3]; assert s[..4] == s; }
    if n == 2 { assert s[..2] == s; }
    if n == 1 { assert s[..1] == s; }
  }

  function Digit(c: char): int {
    c as int - '0' as int
  }

  /** Leading zeros may be left out: "1.2.2024" is the first of February. */
  lemma ParseUnpadded()
    ensures ParseDotted("1.2.2024") == Some(Date(2024, 2, 1))
  {
    assert DigitsValue("1") == 1 by { ShortDigitsValue("1"); }
    assert DigitsValue("2") == 2 by { ShortDigitsValue("2"); }
    assert DigitsValue("2024") == 2024 by { ShortDigitsValue("2024"); }
    assert "1.2.2024" == "1" + "." + "2" + "." + "2024";
    ParseFields("1", "2", "2024");
  }

  /** A day the month does not have is rejected: 2023 is not a leap year,
      so 29.02.2023 raises. */
  lemma ParseRejectsMissingDay()
    ensures ParseDotted("29.02.2023") == None
  {
    assert DigitsValue("29") == 29 by { ShortDigitsValue("29"); }
    assert DigitsValue("02") == 2 by { ShortDigitsValue("02"); }
    assert DigitsValue("2023") == 2023 by { ShortDigitsValue("2023"); }
    assert "29.02.2023" == "29" + "." + "02" + "." + "2023";
    assert DaysInMonth(2023, 2) == 28 by { assert !IsLeapYear(2023); }
    ParseFields("29", "02", "2023");
  }

  /** 29.02.2024 is a leap day. */
  lemma ParseLeapDay()
    ensures ParseDotted("29.02.2024") == Some(Date(2024, 2, 29))
  {
    assert DigitsValue("29") == 29 by { ShortDigitsValue("29"); }
    assert DigitsValue("02") == 2 by { ShortDigitsValue("02"); }
    assert DigitsValue("2024") == 2024 by { ShortDigitsValue("2024"); }
    assert "29.02.2024" == "29" + "." + "02" + "." + "2024";
    assert DaysInMonth(2024, 2) == 29 by { assert IsLeapYear(2024); }
    ParseFields("29", "02", "2024");
  }
}
