/** `formatDate` of static/js/main.js: the DD/MM/YYYY text the page puts in
    the date inputs. */
module MainScript {
  import opened Strings
  import Dates

  /** What `formatDate` reads from a JavaScript `Date`: `getFullYear()`,
      the zero-based `getMonth()` and `getDate()`. */
  datatype JsDate = JsDate(fullYear: int, month: int, date: int)

  /** The values a valid `Date` returns from those getters. */
  predicate ValidJsDate(d: JsDate) {
    0 <= d.month <= 11 && 1 <= d.date <= 31
  }

  /** `formatDate(date)`: day, '/', one-based month, '/', year. */
  function FormatDate(d: JsDate): (r: string)
    requires ValidJsDate(d)
    ensures |r| >= 7 && r[2] == '/' && r[5] == '/'
    ensures AllDigits(r[..2]) && DigitsValue(r[..2]) == d.date
    ensures AllDigits(r[3..5]) && DigitsValue(r[3..5]) == d.month + 1
    ensures r[6..] == IntToString(d.fullYear)
  {
    assert Pow10(2) == 100;
    PaddedWidth(d.date, 2);
    PaddedWidth(d.month + 1, 2);
    var day, month := Padded(d.date, 2), Padded(d.month + 1, 2);
    SlashFields(day, month, IntToString(d.fullYear));
    day + "/" + month + "/" + IntToString(d.fullYear)
  }

  /** Where the three fields of a DD/MM/YYYY text sit. */
  lemma SlashFields(a: string, b: string, c: string)
    requires |a| == 2 && |b| == 2
    ensures var r := a + "/" + b + "/" + c;
            |r| == 6 + |c| && r[2] == '/' && r[5] == '/' && r[..2] == a && r[3..5] == b && r[6..] == c
  {
  }

  /** January is written "01". */
  lemma JanuaryIsOne(year: int, date: int)
    requires 1 <= date <= 31
    ensures FormatDate(JsDate(year, 0, date))[3..5] == "01"
  {
    var r := FormatDate(JsDate(year, 0, date));
    var m := r[3..5];
    assert DigitsValue(m) == 1;
    assert DigitsValue(m) == DigitsValue(m[..1]) * 10 + (m[1] as int - '0' as int);
    assert m[..1][..0] == [];
    assert DigitsValue(m[..1]) == m[0] as int - '0' as int;
  }

  /** For a four-digit year the text is ten characters, DD/MM/YYYY. */
  lemma FourDigitYear(d: JsDate)
    requires ValidJsDate(d) && 1000 <= d.fullYear <= 9999
    ensures |FormatDate(d)| == 10
  {
    assert Pow10(3) == 1000 && Pow10(4) == 10000;
    NatToStringLength(d.fullYear, 4);
  }

  /** The text never contains a dot, so the overlay's `%d.%m.%Y` parse
      rejects it. */
  lemma FormatDateNotDotted(d: JsDate)
    requires ValidJsDate(d)
    ensures '.' !in FormatDate(d)
    ensures Dates.ParseDotted(FormatDate(d)).None?
  {
    var r := FormatDate(d);
    assert forall i :: 0 <= i < |r| ==> r[i] != '.' by {
      forall i | 0 <= i < |r| ensures r[i] != '.' {
        if i < 2 { assert r[i] == r[..2][i]; }
        else if i == 2 || i == 5 { }
        else if i < 5 { assert r[i] == r[3..5][i - 3]; }
        else { assert r[i] == IntToString(d.fullYear)[i - 6]; }
      }
    }
    assert |Split(r, '.')| == 1;
  }
}
