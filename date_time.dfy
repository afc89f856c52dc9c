/**
 * The text an attendance timestamp is stored as: Python's `str(datetime)` of a
 * naive datetime, "YYYY-MM-DD HH:MM:SS" followed by ".ffffff" when the
 * microsecond is not zero, and the reading of that text back into a datetime.
 */
module DateTimes {
  import opened Wrappers
  import opened TextOrder

  datatype DateTime = DateTime(year: int, month: int, day: int,
                               hour: int, minute: int, second: int, microsecond: int)

  predicate IsLeapYear(year: int) {
    year % 4 == 0 && (year % 100 != 0 || year % 400 == 0)
  }

  function DaysInMonth(year: int, month: int): int {
    if month == 2 then (if IsLeapYear(year) then 29 else 28)
    else if month == 4 || month == 6 || month == 9 || month == 11 then 30
    else 31
  }

  /** The values a Python datetime can hold. */
  predicate ValidDateTime(dt: DateTime) {
    && 1 <= dt.year <= 9999
    && 1 <= dt.month <= 12
    && 1 <= dt.day <= DaysInMonth(dt.year, dt.month)
    && 0 <= dt.hour < 24
    && 0 <= dt.minute < 60
    && 0 <= dt.second < 60
    && 0 <= dt.microsecond < 1000000
  }

  /** A datetime as the attendance records carry it. */
  type PyDateTime = dt: DateTime | ValidDateTime(dt) witness DateTime(1, 1, 1, 0, 0, 0, 0)

  /** a is at or before b in time. */
  predicate ChronoLe(a: DateTime, b: DateTime) {
    a.year < b.year || (a.year == b.year &&
    (a.month < b.month || (a.month == b.month &&
    (a.day < b.day || (a.day == b.day &&
    (a.hour < b.hour || (a.hour == b.hour &&
    (a.minute < b.minute || (a.minute == b.minute &&
    (a.second < b.second || (a.second == b.second &&
    a.microsecond <= b.microsecond)))))))))))
  }

  function Pow10(w: nat): nat {
    if w == 0 then 1 else 10 * Pow10(w - 1)
  }

  predicate IsDigit(c: char) { '0' <= c <= '9' }

  predicate AllDigits(s: string) { forall i :: 0 <= i < |s| ==> IsDigit(s[i]) }

  function DigitChar(d: int): char
    requires 0 <= d < 10
  {
    ('0' as int + d) as char
  }

  /** n written in decimal with exactly w digits, zero-padded on the left (`%0wd`). */
  function Digits(n: nat, w: nat): (r: string)
    ensures |r| == w && AllDigits(r)
  {
    if w == 0 then "" else Digits(n / 10, w - 1) + [DigitChar(n % 10)]
  }

  function ParseDigits(s: string): (n: nat)
    requires AllDigits(s)
    ensures n < Pow10(|s|)
  {
    if s == [] then 0
    else ParseDigits(s[..|s| - 1]) * 10 + (s[|s| - 1] as int - '0' as int)
  }

  lemma {:induction false} DigitsRoundTrip(n: nat, w: nat)
    requires n < Pow10(w)
    ensures ParseDigits(Digits(n, w)) == n
  {
    if w > 0 {
      DigitsRoundTrip(n / 10, w - 1);
      var s := Digits(n, w);
      assert s[..|s| - 1] == Digits(n / 10, w - 1);
    }
  }

  /** Zero-padded numbers of one width sort as text exactly as they sort as numbers. */
  lemma {:induction false} DigitsOrder(x: nat, y: nat, w: nat)
    requires x < Pow10(w) && y < Pow10(w)
    ensures TextLe(Digits(x, w), Digits(y, w)) <==> x <= y
  {
    if w > 0 {
      var a1, b1 := Digits(x / 10, w - 1), Digits(y / 10, w - 1);
      var a2, b2 := [DigitChar(x % 10)], [DigitChar(y % 10)];
      TextLeConcat(a1, a2, b1, b2);
      DigitsOrder(x / 10, y / 10, w - 1);
      DigitsRoundTrip(x / 10, w - 1);
      DigitsRoundTrip(y / 10, w - 1);
      assert a1 == b1 <==> x / 10 == y / 10;
      assert TextLe(a2, b2) <==> x % 10 <= y % 10 by {
        assert a2[1..] == [] && b2[1..] == [];
      }
      DecimalOrder(x, y);
    }
  }

  /** Numbers compare by their leading digits, then by their last digit. */
  lemma DecimalOrder(x: nat, y: nat)
    ensures x <= y <==> x / 10 < y / 10 || (x / 10 == y / 10 && x % 10 <= y % 10)
  {
    assert x == 10 * (x / 10) + x % 10;
    assert y == 10 * (y / 10) + y % 10;
  }

  /** The fractional part: empty for a whole second, else "." and six digits. */
  function Fraction(microsecond: int): string
    requires 0 <= microsecond
  {
    if microsecond == 0 then "" else "." + Digits(microsecond, 6)
  }

  function FromSecond(dt: DateTime): string
    requires ValidDateTime(dt)
  {
    Digits(dt.second, 2) + Fraction(dt.microsecond)
  }

  function FromMinute(dt: DateTime): string
    requires ValidDateTime(dt)
  {
    Digits(dt.minute, 2) + ":" + FromSecond(dt)
  }

  function FromHour(dt: DateTime): string
    requires ValidDateTime(dt)
  {
    Digits(dt.hour, 2) + ":" + FromMinute(dt)
  }

  function FromDay(dt: DateTime): string
    requires ValidDateTime(dt)
  {
    Digits(dt.day, 2) + " " + FromHour(dt)
  }

  function FromMonth(dt: DateTime): string
    requires ValidDateTime(dt)
  {
    Digits(dt.month, 2) + "-" + FromDay(dt)
  }

  /** `str(dt)` for a naive datetime (ISO 8601 with a space between date and time). */
  function DateTimeText(dt: DateTime): string
    requires ValidDateTime(dt)
  {
    Digits(dt.year, 4) + "-" + FromMonth(dt)
  }

  /** One field of w digits followed by the separator sep, then the rest. */
  function Field(s: string, w: nat, sep: char): Option<(nat, string)> {
    if |s| > w && AllDigits(s[..w]) && s[w] == sep
    then Some((ParseDigits(s[..w]), s[w + 1..]))
    else None
  }

  /** Seconds, and the microseconds when a fraction follows. */
  function Seconds(s: string): Option<(nat, nat)> {
    if |s| == 2 && AllDigits(s) then Some((ParseDigits(s), 0))
    else if |s| == 9 && AllDigits(s[..2]) && s[2] == '.' && AllDigits(s[3..])
    then Some((ParseDigits(s[..2]), ParseDigits(s[3..])))
    else None
  }

  /** Reads a stored timestamp back into a datetime; None for text of any other shape. */
  function ParseDateTime(s: string): (r: Option<DateTime>)
    ensures r.Some? ==> ValidDateTime(r.value)
  {
    var y := Field(s, 4, '-');
    if y.None? then None else
    var mo := Field(y.value.1, 2, '-');
    if mo.None? then None else
    var d := Field(mo.value.1, 2, ' ');
    if d.None? then None else
    var h := Field(d.value.1, 2, ':');
    if h.None? then None else
    var mi := Field(h.value.1, 2, ':');
    if mi.None? then None else
    var sec := Seconds(mi.value.1);
    if sec.None? then None else
    var dt := DateTime(y.value.0, mo.value.0, d.value.0, h.value.0, mi.value.0, sec.value.0, sec.value.1);
    if ValidDateTime(dt) then Some(dt) else None
  }

  lemma FieldOfDigits(x: nat, w: nat, sep: char, rest: string)
    requires x < Pow10(w)
    ensures Field(Digits(x, w) + [sep] + rest, w, sep) == Some((x, rest))
  {
    var s := Digits(x, w) + [sep] + rest;
    assert s[..w] == Digits(x, w);
    assert s[w + 1..] == rest;
    DigitsRoundTrip(x, w);
  }

  lemma SecondsOfText(dt: DateTime)
    requires ValidDateTime(dt)
    ensures Seconds(FromSecond(dt)) == Some((dt.second, dt.microsecond))
  {
    var s := FromSecond(dt);
    DigitsRoundTrip(dt.second, 2);
    if dt.microsecond == 0 {
      assert s == Digits(dt.second, 2);
    } else {
      assert s[..2] == Digits(dt.second, 2);
      assert s[3..] == Digits(dt.microsecond, 6);
      DigitsRoundTrip(dt.microsecond, 6);
    }
  }

  /** What `str` writes, reading it back gives the same datetime. */
  lemma DateTimeTextRoundTrip(dt: DateTime)
    requires ValidDateTime(dt)
    ensures ParseDateTime(DateTimeText(dt)) == Some(dt)
  {
    FieldOfDigits(dt.year, 4, '-', FromMonth(dt));
    FieldOfDigits(dt.month, 2, '-', FromDay(dt));
    FieldOfDigits(dt.day, 2, ' ', FromHour(dt));
    FieldOfDigits(dt.hour, 2, ':', FromMinute(dt));
    FieldOfDigits(dt.minute, 2, ':', FromSecond(dt));
    SecondsOfText(dt);
  }

  /** Distinct datetimes are stored as distinct texts. */
  lemma DateTimeTextInjective(a: DateTime, b: DateTime)
    requires ValidDateTime(a) && ValidDateTime(b)
    requires DateTimeText(a) == DateTimeText(b)
    ensures a == b
  {
    DateTimeTextRoundTrip(a);
    DateTimeTextRoundTrip(b);
  }

  /** A zero-padded field followed by a one-character separator decides the comparison unless equal. */
  lemma FieldOrder(x: nat, y: nat, w: nat, sep: string, restA: string, restB: string)
    requires x < Pow10(w) && y < Pow10(w)
    ensures TextLe(Digits(x, w) + sep + restA, Digits(y, w) + sep + restB)
        <==> x < y || (x == y && TextLe(restA, restB))
  {
    var a1, b1 := Digits(x, w) + sep, Digits(y, w) + sep;
    TextLeConcat(a1, restA, b1, restB);
    TextLeConcat(Digits(x, w), sep, Digits(y, w), sep);
    TextLeReflexive(sep);
    DigitsOrder(x, y, w);
    DigitsRoundTrip(x, w);
    DigitsRoundTrip(y, w);
    assert a1 == b1 <==> Digits(x, w) == Digits(y, w) by {
      assert a1[..w] == Digits(x, w) && b1[..w] == Digits(y, w);
    }
  }

  lemma FractionOrder(u: nat, v: nat)
    requires u < 1000000 && v < 1000000
    ensures TextLe(Fraction(u), Fraction(v)) <==> u <= v
  {
    if u != 0 && v != 0 {
      TextLeConcat(".", Digits(u, 6), ".", Digits(v, 6));
      DigitsOrder(u, v, 6);
    }
  }

  /**
   * Ordering the stored texts orders the timestamps: one text sorts at or
   * before another exactly when its datetime is at or before the other's.
   */
  lemma TextOrderIsChronological(a: DateTime, b: DateTime)
    requires ValidDateTime(a) && ValidDateTime(b)
    ensures TextLe(DateTimeText(a), DateTimeText(b)) <==> ChronoLe(a, b)
  {
    FieldOrder(a.year, b.year, 4, "-", FromMonth(a), FromMonth(b));
    FieldOrder(a.month, b.month, 2, "-", FromDay(a), FromDay(b));
    FieldOrder(a.day, b.day, 2, " ", FromHour(a), FromHour(b));
    FieldOrder(a.hour, b.hour, 2, ":", FromMinute(a), FromMinute(b));
    FieldOrder(a.minute, b.minute, 2, ":", FromSecond(a), FromSecond(b));
    SecondsOrder(a, b);
  }

  /** The seconds and their fraction sort as text as the seconds, then the microseconds, sort. */
  lemma SecondsOrder(a: DateTime, b: DateTime)
    requires ValidDateTime(a) && ValidDateTime(b)
    ensures TextLe(FromSecond(a), FromSecond(b)) <==>
              a.second < b.second || (a.second == b.second && a.microsecond <= b.microsecond)
  {
    TextLeConcat(Digits(a.second, 2), Fraction(a.microsecond), Digits(b.second, 2), Fraction(b.microsecond));
    DigitsOrder(a.second, b.second, 2);
    DigitsRoundTrip(a.second, 2);
    DigitsRoundTrip(b.second, 2);
    FractionOrder(a.microsecond, b.microsecond);
  }
}
