/// `datetime.strptime(s, "%Y-%m-%d")`: CPython's `_strptime` matches the
/// format's regular expression from the start of `s`, rejects leftover text,
/// and then builds a `datetime`, which rejects a year below 1 and a day the
/// month does not have.
module Dates {
  import opened Common

  datatype Date = Date(year: int, month: int, day: int)

  predicate IsDigit(c: char) {
    '0' <= c <= '9'
  }

  predicate AllDigits(s: string) {
    forall i :: 0 <= i < |s| ==> IsDigit(s[i])
  }

  /** `int(s)` for a string of ASCII digits. */
  function Number(s: string): (n: nat)
    requires AllDigits(s)
  {
    if s == [] then 0 else 10 * Number(s[..|s| - 1]) + (s[|s| - 1] as int - '0' as int)
  }

  /** `%Y`: exactly four digits. */
  predicate YearField(s: string) {
    |s| == 4 && AllDigits(s)
  }

  /** `%m`: `1[0-2]|0[1-9]|[1-9]`. */
  predicate MonthField(s: string) {
    (|s| == 2 && s[0] == '1' && '0' <= s[1] <= '2')
    || (|s| == 2 && s[0] == '0' && '1' <= s[1] <= '9')
    || (|s| == 1 && '1' <= s[0] <= '9')
  }

  /** `%d`: `3[01]|[12]\d|0[1-9]|[1-9]| [1-9]`. The regular expression takes
      the first alternative that matches, and `strptime` then rejects any
      unconsumed text, so the day text is accepted exactly when it is one of
      these strings in full. */
  predicate DayField(s: string) {
    (|s| == 2 && s[0] == '3' && '0' <= s[1] <= '1')
    || (|s| == 2 && '1' <= s[0] <= '2' && IsDigit(s[1]))
    || (|s| == 2 && s[0] == '0' && '1' <= s[1] <= '9')
    || (|s| == 1 && '1' <= s[0] <= '9')
    || (|s| == 2 && s[0] == ' ' && '1' <= s[1] <= '9')
  }

  /** `int(s)` of an accepted day text (`int` ignores the leading blank). */
  function DayNumber(s: string): nat
    requires DayField(s)
  {
    if s[0] == ' ' then Number(s[1..]) else Number(s)
  }

  predicate IsLeap(y: int) {
    y % 4 == 0 && (y % 100 != 0 || y % 400 == 0)
  }

  function DaysInMonth(y: int, m: int): int
    requires 1 <= m <= 12
  {
    if m == 2 then (if IsLeap(y) then 29 else 28)
    else if m == 4 || m == 6 || m == 9 || m == 11 then 30
    else 31
  }

  /** What `datetime(year, month, day)` accepts (`MINYEAR` is 1, `MAXYEAR` 9999). */
  predicate ValidDate(d: Date) {
    1 <= d.year <= 9999 && 1 <= d.month <= 12 && 1 <= d.day <= DaysInMonth(d.year, d.month)
  }

  /** `datetime.strptime(s, "%Y-%m-%d")`: the date, or `None` where it raises
      `ValueError`. The month text is one character long exactly when the
      character after it is the second `-`. */
  function Strptime(s: string): (r: Option<Date>)
    ensures r.Some? ==> ValidDate(r.value)
  {
    if |s| < 5 || !YearField(s[..4]) || s[4] != '-' then None
    else
      var rest := s[5..];
      var m := if |rest| > 1 && rest[1] == '-' then 1 else 2;
      if |rest| <= m || !MonthField(rest[..m]) || rest[m] != '-' || !DayField(rest[m + 1..]) then None
      else
        var d := Date(Number(s[..4]), Number(rest[..m]), DayNumber(rest[m + 1..]));
        if ValidDate(d) then Some(d) else None
  }

  function Digit(n: nat): char
    requires n < 10
  {
    ('0' as int + n) as char
  }

  /** The canonical `YYYY-MM-DD` text of a date, zero-padded. */
  function Format(d: Date): (s: string)
    requires 0 <= d.year <= 9999 && 0 <= d.month <= 99 && 0 <= d.day <= 99
    ensures |s| == 10 && s[4] == '-' && s[7] == '-'
  {
    [Digit(d.year / 1000), Digit(d.year / 100 % 10), Digit(d.year / 10 % 10), Digit(d.year % 10), '-',
     Digit(d.month / 10), Digit(d.month % 10), '-',
     Digit(d.day / 10), Digit(d.day % 10)]
  }

  lemma NumberOfPadded4(y: nat)
    requires y <= 9999
    ensures AllDigits([Digit(y / 1000), Digit(y / 100 % 10), Digit(y / 10 % 10), Digit(y % 10)])
    ensures Number([Digit(y / 1000), Digit(y / 100 % 10), Digit(y / 10 % 10), Digit(y % 10)]) == y
  {
    var a, b, c, d := y / 1000, y / 100 % 10, y / 10 % 10, y % 10;
    NumberSnoc([], a);
    assert [] + [Digit(a)] == [Digit(a)];
    NumberSnoc([Digit(a)], b);
    assert [Digit(a)] + [Digit(b)] == [Digit(a), Digit(b)];
    NumberSnoc([Digit(a), Digit(b)], c);
    assert [Digit(a), Digit(b)] + [Digit(c)] == [Digit(a), Digit(b), Digit(c)];
    NumberSnoc([Digit(a), Digit(b), Digit(c)], d);
    assert [Digit(a), Digit(b), Digit(c)] + [Digit(d)] == [Digit(a), Digit(b), Digit(c), Digit(d)];
    Decimal4(y);
  }

  /** The four decimal digits of `y` give `y` back. */
  lemma Decimal4(y: nat)
    requires y <= 9999
    ensures 1000 * (y / 1000) + 100 * (y / 100 % 10) + 10 * (y / 10 % 10) + y % 10 == y
  {
    var q1 := y / 10;
    var q2 := q1 / 10;
    var q3 := q2 / 10;
    assert q2 == y / 100;
    assert q3 == y / 1000;
    assert y == 10 * q1 + y % 10;
    assert q1 == 10 * q2 + q1 % 10;
    assert q2 == 10 * q3 + q2 % 10;
  }

  /** Appending a digit: `int(s + d) == 10 * int(s) + d`. */
  lemma NumberSnoc(s: string, d: nat)
    requires AllDigits(s) && d < 10
    ensures AllDigits(s + [Digit(d)])
    ensures Number(s + [Digit(d)]) == 10 * Number(s) + d
  {
    var t := s + [Digit(d)];
    assert t[..|t| - 1] == s;
  }

  lemma NumberOfPadded2(n: nat)
    requires n <= 99
    ensures AllDigits([Digit(n / 10), Digit(n % 10)])
    ensures Number([Digit(n / 10), Digit(n % 10)]) == n
  {
    var s := [Digit(n / 10), Digit(n % 10)];
    assert s[..1][..0] == [] && s[..2][..1] == s[..1] && s[..2] == s;
    assert Number(s[..1]) == n / 10;
  }

  /** `strptime` reads back the canonical text of every date `datetime`
      accepts, and rejects the canonical text of every out-of-calendar date. */
  lemma FormatRoundTrip(d: Date)
    requires 0 <= d.year <= 9999 && 1 <= d.month <= 12 && 1 <= d.day <= 31
    ensures Strptime(Format(d)) == if ValidDate(d) then Some(d) else None
  {
    var s := Format(d);
    NumberOfPadded4(d.year);
    NumberOfPadded2(d.month);
    NumberOfPadded2(d.day);
    assert s[..4] == [Digit(d.year / 1000), Digit(d.year / 100 % 10), Digit(d.year / 10 % 10), Digit(d.year % 10)];
    var rest := s[5..];
    assert rest[..2] == [Digit(d.month / 10), Digit(d.month % 10)];
    assert rest[3..] == [Digit(d.day / 10), Digit(d.day % 10)];
    assert DayField(rest[3..]);
  }

  /** Every date `strptime` accepts has a four-digit year at the front and
      hyphens right after the year and after the month. */
  lemma AcceptedShape(s: string)
    requires Strptime(s).Some?
    ensures 8 <= |s| <= 10 && AllDigits(s[..4]) && s[4] == '-'
    ensures s[6] == '-' || s[7] == '-'
  {
  }
}
