/**
 * Calendar dates as `datetime.strptime(text, "%Y-%m-%d")` reads them and as
 * `strftime("%Y-%m-%d")` writes them back (task_scheduler.py, lines 13 and 24).
 *
 * The grammar is the one the Python library compiles for that format:
 * exactly four year digits, a month of one or two digits (`1[0-2]|0[1-9]|[1-9]`),
 * a day of one or two characters (`3[01]|[12][0-9]|0[1-9]|[1-9]| [1-9]`), two
 * hyphens, and nothing left over. A text that fits the grammar but names no
 * calendar day (year 0, 30 February) raises `ValueError` just like one that
 * does not fit.
 */
module Dates {
  import opened Wrappers

  datatype Date = Date(year: int, month: int, day: int)

  predicate IsLeapYear(y: int) {
    y % 4 == 0 && (y % 100 != 0 || y % 400 == 0)
  }

  function DaysInMonth(y: int, m: int): int
    requires 1 <= m <= 12
  {
    if m == 2 then (if IsLeapYear(y) then 29 else 28)
    else if m == 4 || m == 6 || m == 9 || m == 11 then 30
    else 31
  }

  /** A day that `datetime` can represent: years 1 to 9999, a real calendar day. */
  predicate Valid(d: Date) {
    1 <= d.year <= 9999 && 1 <= d.month <= 12 && 1 <= d.day <= DaysInMonth(d.year, d.month)
  }

  type CalendarDate = d: Date | Valid(d) witness Date(1, 1, 1)

  /** The order `datetime` objects compare in (all parsed dates are at midnight). */
  predicate DateLe(a: Date, b: Date) {
    a.year < b.year
    || (a.year == b.year && (a.month < b.month || (a.month == b.month && a.day <= b.day)))
  }

  // ---------------------------------------------------------------------------
  // Digits

  predicate IsDigit(c: char) { '0' <= c <= '9' }

  predicate AllDigits(s: string) { forall i | 0 <= i < |s| :: IsDigit(s[i]) }

  function DigitValue(c: char): int
    requires IsDigit(c)
  {
    c as int - '0' as int
  }

  function DigitChar(n: int): char
    requires 0 <= n <= 9
  {
    ('0' as int + n) as char
  }

  /** The decimal value of a string of digits, most significant first. */
  function NumberValue(s: string): int
    requires AllDigits(s)
  {
    if s == [] then 0 else NumberValue(s[..|s| - 1]) * 10 + DigitValue(s[|s| - 1])
  }

  function Pow10(w: nat): nat {
    if w == 0 then 1 else 10 * Pow10(w - 1)
  }

  /** `n` written with exactly `w` digits, zero-padded on the left. */
  function Pad(n: nat, w: nat): string {
    if w == 0 then [] else Pad(n / 10, w - 1) + [DigitChar(n % 10)]
  }

  // ---------------------------------------------------------------------------
  // The strptime grammar

  /** The `%m` alternatives: `1[0-2]`, `0[1-9]`, `[1-9]`. */
  predicate MonthField(t: string) {
    (|t| == 1 && '1' <= t[0] <= '9')
    || (|t| == 2 && ((t[0] == '1' && '0' <= t[1] <= '2') || (t[0] == '0' && '1' <= t[1] <= '9')))
  }

  /** The `%d` alternatives: `3[01]`, `[12][0-9]`, `0[1-9]`, `[1-9]`, and a space before `[1-9]`. */
  predicate DayField(t: string) {
    (|t| == 1 && '1' <= t[0] <= '9')
    || (|t| == 2 && ((t[0] == '3' && '0' <= t[1] <= '1')
                    || ('1' <= t[0] <= '2' && IsDigit(t[1]))
                    || (t[0] == '0' && '1' <= t[1] <= '9')
                    || (t[0] == ' ' && '1' <= t[1] <= '9')))
  }

  /** The integer a month or day field converts to; `int()` ignores the leading space. */
  function FieldValue(t: string): int
    requires MonthField(t) || DayField(t)
  {
    if t[0] == ' ' then NumberValue(t[1..]) else NumberValue(t)
  }

  /** The three fields of a text split at its two hyphens fit the format. */
  predicate Fields(y: string, m: string, d: string) {
    |y| == 4 && AllDigits(y) && MonthField(m) && DayField(d)
  }

  function FieldsDate(y: string, m: string, d: string): Date
    requires Fields(y, m, d)
  {
    Date(NumberValue(y), FieldValue(m), FieldValue(d))
  }

  /**
   * `strptime(s, "%Y-%m-%d")`: the date, or `None` where Python raises
   * `ValueError`. The month field ends at the first hyphen after the year, so
   * the second hyphen is at index 6 or 7.
   */
  function Parse(s: string): (r: Option<CalendarDate>)
    ensures r.Some? ==> 8 <= |s| <= 10 && AllDigits(s[..4]) && s[4] == '-'
  {
    if |s| < 8 || !AllDigits(s[..4]) || s[4] != '-' then None
    else
      var sep := if s[6] == '-' then 6 else 7;
      if s[sep] != '-' || !MonthField(s[5..sep]) || !DayField(s[sep + 1..]) then None
      else
        var d := FieldsDate(s[..4], s[5..sep], s[sep + 1..]);
        if Valid(d) then Some(d) else None
  }

  /** `strftime("%Y-%m-%d")`, with the year padded to four digits. */
  function Format(d: CalendarDate): (r: string)
    ensures |r| == 10 && AllDigits(r[..4]) && r[4] == '-' && r[7] == '-' && Canonical(r)
  {
    PadDigits(d.year, 4);
    Pad2(d.month);
    Pad2(d.day);
    Pad(d.year, 4) + "-" + Pad(d.month, 2) + "-" + Pad(d.day, 2)
  }

  /** The form `strftime` produces: ten characters, two-digit month and day. */
  predicate Canonical(s: string) {
    |s| == 10 && s[8] != ' '
  }

  // ---------------------------------------------------------------------------
  // Lemmas

  lemma {:induction false} PadDigits(n: nat, w: nat)
    requires n < Pow10(w)
    ensures |Pad(n, w)| == w && AllDigits(Pad(n, w)) && NumberValue(Pad(n, w)) == n
  {
    if w > 0 {
      PadDigits(n / 10, w - 1);
      var p := Pad(n / 10, w - 1);
      assert Pad(n, w)[..w - 1] == p;
    }
  }

  lemma {:induction false} NumberValuePads(s: string)
    requires AllDigits(s)
    ensures 0 <= NumberValue(s) < Pow10(|s|)
    ensures Pad(NumberValue(s), |s|) == s
  {
    if s != [] {
      var init := s[..|s| - 1];
      NumberValuePads(init);
      var n := NumberValue(s);
      assert n / 10 == NumberValue(init) && n % 10 == DigitValue(s[|s| - 1]);
      assert s == init + [s[|s| - 1]];
    }
  }

  /** Two-digit padding spelled out. */
  lemma Pad2(n: nat)
    requires n < 100
    ensures Pad(n, 2) == [DigitChar(n / 10), DigitChar(n % 10)]
    ensures NumberValue(Pad(n, 2)) == n
  {
    var tens, units := n / 10, n % 10;
    assert tens < 10 && tens % 10 == tens && tens / 10 == 0;
    assert Pad(tens, 1) == [DigitChar(tens)];
    assert Pad(n, 2) == [DigitChar(tens), DigitChar(units)];
    NumberValue2(Pad(n, 2));
    assert 10 * tens + units == n;
  }

  lemma NumberValue2(t: string)
    requires |t| == 2 && AllDigits(t)
    ensures NumberValue(t) == 10 * DigitValue(t[0]) + DigitValue(t[1])
  {
    var init := t[..1];
    assert init == [t[0]] && init[..0] == [];
    assert NumberValue(init) == DigitValue(t[0]);
  }

  lemma NumberValue4(t: string)
    requires |t| == 4 && AllDigits(t)
    ensures NumberValue(t) == 1000 * DigitValue(t[0]) + 100 * DigitValue(t[1]) + 10 * DigitValue(t[2]) + DigitValue(t[3])
  {
    assert t[..3][..2] == t[..2];
    NumberValue2(t[..2]);
  }

  /** Whatever parses fits the grammar: the text splits at two hyphens into fields. */
  lemma ParseSound(s: string) returns (y: string, m: string, d: string)
    requires Parse(s).Some?
    ensures s == y + "-" + m + "-" + d
    ensures Fields(y, m, d) && Parse(s) == Some(FieldsDate(y, m, d))
  {
    var sep := if s[6] == '-' then 6 else 7;
    y, m, d := s[..4], s[5..sep], s[sep + 1..];
    assert s == y + "-" + m + "-" + d;
  }

  /** Whatever fits the grammar parses, exactly when it names a calendar day. */
  lemma ParseComplete(s: string, y: string, m: string, d: string)
    requires s == y + "-" + m + "-" + d && Fields(y, m, d)
    ensures Parse(s) == if Valid(FieldsDate(y, m, d)) then Some(FieldsDate(y, m, d)) else None
  {
    assert s[..4] == y && s[4] == '-';
    if |m| == 1 {
      assert s[6] == '-' && s[5..6] == m && s[7..] == d;
    } else {
      assert s[6] == m[1] && s[7] == '-' && s[5..7] == m && s[8..] == d;
    }
  }

  /** Formatting a date and parsing the text gives the date back. */
  lemma FormatThenParse(d: CalendarDate)
    ensures Parse(Format(d)) == Some(d)
  {
    PadDigits(d.year, 4);
    Pad2(d.month);
    Pad2(d.day);
    var y, m, t := Pad(d.year, 4), Pad(d.month, 2), Pad(d.day, 2);
    ParseComplete(Format(d), y, m, t);
  }

  /**
   * A text that parses is given back by formatting exactly when it is already
   * in canonical form; the one- and two-digit variants strptime also accepts
   * come back zero-padded.
   */
  lemma ParseThenFormat(s: string)
    requires Parse(s).Some?
    ensures Format(Parse(s).value) == s <==> Canonical(s)
  {
    if Canonical(s) {
      CanonicalFormats(s);
    }
  }

  /** A canonical text that parses is reproduced digit for digit by formatting. */
  lemma CanonicalFormats(s: string)
    requires Parse(s).Some? && Canonical(s)
    ensures Format(Parse(s).value) == s
  {
    var y, m, t := ParseSound(s);
    assert |m| == 2 && |t| == 2 && t[0] == s[8];
    NumberValuePads(y);
    NumberValuePads(m);
    NumberValuePads(t);
  }

  // Concrete cases of the grammar.

  lemma ParseAcceptsCanonical()
    ensures Parse("2024-05-10") == Some(Date(2024, 5, 10))
  {
    NumberValue4("2024");
    NumberValue2("05");
    NumberValue2("10");
    ParseComplete("2024-05-10", "2024", "05", "10");
  }

  lemma ParseAcceptsShortFields()
    ensures Parse("2024-5-1") == Some(Date(2024, 5, 1))
    ensures Parse("2024-05- 7") == Some(Date(2024, 5, 7))
  {
    NumberValue4("2024");
    NumberValue2("05");
    ParseComplete("2024-5-1", "2024", "5", "1");
    ParseComplete("2024-05- 7", "2024", "05", " 7");
  }

  lemma ParseAcceptsLeapDay()
    ensures Parse("2024-02-29") == Some(Date(2024, 2, 29))
  {
    NumberValue4("2024");
    NumberValue2("02");
    NumberValue2("29");
    ParseComplete("2024-02-29", "2024", "02", "29");
  }

  lemma ParseRejectsNonLeapDay()
    ensures Parse("2023-02-29") == None
  {
    NumberValue4("2023");
    NumberValue2("02");
    NumberValue2("29");
    ParseComplete("2023-02-29", "2023", "02", "29");
  }

  lemma ParseRejectsYearZero()
    ensures Parse("0000-01-01") == None
  {
    NumberValue4("0000");
    ParseComplete("0000-01-01", "0000", "01", "01");
  }

  lemma ParseRejectsMalformed()
    ensures Parse("bad-date") == None
    ensures Parse("2024-05-10 ") == None
    ensures Parse("24-05-10") == None
  {
  }
}
