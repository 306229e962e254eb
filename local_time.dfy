/** Local wall-clock times: the fields a JavaScript `Date` reports through
    its local getters, the fixed-width text `toLocalISOString` makes of them
    (src/utils/calendar.ts), and the reading of that text back into a time
    that `new Date(text)` performs in the upcoming-event filter.

    Time zones are not modelled: a time is its local field tuple, and the
    chronological order of two times is the lexicographic order of their
    tuples. */
module LocalTimes {
  import opened Wrappers
  import opened JsStrings

  /** `getFullYear`, `getMonth` (zero-based), `getDate`, `getHours`,
      `getMinutes` and `getSeconds` of a date. */
  datatype LocalTime = LocalTime(year: int, monthIndex: nat, day: nat, hours: nat, minutes: nat, seconds: nat)

  /** The ranges the local getters of a valid date stay within. */
  predicate Valid(t: LocalTime) {
    t.monthIndex < 12 && 1 <= t.day <= 31 && t.hours < 24 && t.minutes < 60 && t.seconds < 60
  }

  predicate HasFourDigitYear(t: LocalTime) {
    1000 <= t.year <= 9999
  }

  /** Strict chronological order: lexicographic order on the field tuple. */
  predicate Before(a: LocalTime, b: LocalTime) {
    || a.year < b.year
    || (a.year == b.year && a.monthIndex < b.monthIndex)
    || (a.year == b.year && a.monthIndex == b.monthIndex && a.day < b.day)
    || (a.year == b.year && a.monthIndex == b.monthIndex && a.day == b.day && a.hours < b.hours)
    || (a.year == b.year && a.monthIndex == b.monthIndex && a.day == b.day && a.hours == b.hours
        && a.minutes < b.minutes)
    || (a.year == b.year && a.monthIndex == b.monthIndex && a.day == b.day && a.hours == b.hours
        && a.minutes == b.minutes && a.seconds < b.seconds)
  }

  /** A number standing for `getTime()`: it grows with the field tuple, which
      is all the comparisons of the upcoming-event filter and sort use. */
  function Instant(t: LocalTime): int {
    t.year * 32140800 + t.monthIndex * 2678400 + (t.day - 1) * 86400
    + t.hours * 3600 + t.minutes * 60 + t.seconds
  }

  /** The number order of instants is the chronological order of times. */
  lemma InstantOrder(a: LocalTime, b: LocalTime)
    requires Valid(a) && Valid(b)
    ensures Instant(a) < Instant(b) <==> Before(a, b)
    ensures Instant(a) == Instant(b) <==> a == b
  {
  }

  /** `String(n).padStart(2, '0')`. */
  function Pad2(n: nat): string {
    PadStart(NatToString(n), 2, '0')
  }

  /** `toLocalISOString`: `year-MM-DDTHH:MM:SS`, the month index plus one,
      every field after the (unpadded) year padded to two digits. */
  function ToLocalISOString(t: LocalTime): string {
    IntToString(t.year) + ("-" + (Pad2(t.monthIndex + 1) + ("-" + (Pad2(t.day) + ("T"
    + (Pad2(t.hours) + (":" + (Pad2(t.minutes) + (":" + Pad2(t.seconds))))))))))
  }

  /** Below one hundred, the padded form is exactly the tens and units digit. */
  lemma Pad2Digits(n: nat)
    requires n < 100
    ensures Pad2(n) == [DigitChar(n / 10), DigitChar(n % 10)]
  {
    if n >= 10 {
      assert NatToString(n) == NatToString(n / 10) + [DigitChar(n % 10)];
    }
  }

  /** `padStart` never truncates: from one hundred on, all digits stay. */
  lemma Pad2Wide(n: nat)
    requires n >= 100
    ensures Pad2(n) == NatToString(n) && |Pad2(n)| >= 3
  {
    var q := n / 10;
    assert |NatToString(q)| >= 2 by {
      assert q >= 10;
      assert |NatToString(q)| == |NatToString(q / 10)| + 1;
    }
    assert |NatToString(n)| == |NatToString(q)| + 1;
  }

  function TwoDigits(a: nat): string
    requires a < 100
  {
    [DigitChar(a / 10), DigitChar(a % 10)]
  }

  lemma SplitHundred(y: nat)
    ensures (y / 10) / 10 == y / 100 && (y / 10) % 10 == (y % 100) / 10
    ensures y % 10 == (y % 100) % 10
  {
  }

  /** A year from 1000 to 9999 prints as its four digits. */
  lemma YearDigits(y: int)
    requires 1000 <= y <= 9999
    ensures IntToString(y) == TwoDigits(y / 100) + TwoDigits(y % 100)
  {
    SplitHundred(y);
    var c := y / 100;
    assert NatToString(c) == NatToString(c / 10) + [DigitChar(c % 10)];
    assert NatToString(c) == TwoDigits(c);
    assert NatToString(y / 10) == NatToString(c) + [DigitChar((y / 10) % 10)];
    assert NatToString(y) == NatToString(y / 10) + [DigitChar(y % 10)];
  }

  /** The text from the day on. */
  function DayText(t: LocalTime): string
    requires Valid(t)
  {
    TwoDigits(t.day) + ("T" + (TwoDigits(t.hours) + (":" + (TwoDigits(t.minutes) + (":" + TwoDigits(t.seconds))))))
  }

  /** The text of a four-digit-year time, as `IsoChars` splits it. */
  function IsoParts(t: LocalTime): string
    requires Valid(t) && HasFourDigitYear(t)
  {
    IntToString(t.year) + ("-" + MonthText(t))
  }

  /** The text from the month on. */
  function MonthText(t: LocalTime): string
    requires Valid(t)
  {
    TwoDigits(t.monthIndex + 1) + ("-" + DayText(t))
  }

  /** The text of a valid time with a four-digit year, field by field. */
  lemma IsoChars(t: LocalTime)
    requires Valid(t) && HasFourDigitYear(t)
    ensures ToLocalISOString(t) == IsoParts(t)
    ensures IntToString(t.year) == TwoDigits(t.year / 100) + TwoDigits(t.year % 100)
  {
    YearDigits(t.year);
    Pad2Digits(t.monthIndex + 1);
    Pad2Digits(t.day);
    Pad2Digits(t.hours);
    Pad2Digits(t.minutes);
    Pad2Digits(t.seconds);
  }


  predicate DigitAt(s: string, i: nat) {
    i < |s| && IsDigit(s[i])
  }

  function Two(s: string, i: nat): nat
    requires DigitAt(s, i) && DigitAt(s, i + 1)
  {
    10 * DigitValue(s[i]) + DigitValue(s[i + 1])
  }

  /** The shape `DDDD-DD-DDTDD:DD:DD` of the ECMAScript date-time string
      format without a time-zone offset. */
  predicate IsoShape(s: string) {
    && |s| == 19
    && s[4] == '-' && s[7] == '-' && s[10] == 'T' && s[13] == ':' && s[16] == ':'
    && DigitAt(s, 0) && DigitAt(s, 1) && DigitAt(s, 2) && DigitAt(s, 3)
    && DigitAt(s, 5) && DigitAt(s, 6) && DigitAt(s, 8) && DigitAt(s, 9)
    && DigitAt(s, 11) && DigitAt(s, 12) && DigitAt(s, 14) && DigitAt(s, 15)
    && DigitAt(s, 17) && DigitAt(s, 18)
  }

  /** `new Date(s)` on a date-time text without offset, read as local time:
      the fields when the text has the shape and every field is in range,
      and `None` (an invalid date) otherwise. */
  function ParseLocalIso(s: string): (r: Option<LocalTime>)
    ensures r.Some? ==> IsoShape(s) && Valid(r.value) && 0 <= r.value.year <= 9999
    ensures r.Some? ==> r.value.year == 100 * Two(s, 0) + Two(s, 2)
    ensures r.Some? ==> r.value.monthIndex + 1 == Two(s, 5) && r.value.day == Two(s, 8)
    ensures r.Some? ==> r.value.hours == Two(s, 11) && r.value.minutes == Two(s, 14) && r.value.seconds == Two(s, 17)
  {
    if !IsoShape(s) then None
    else
      var year := 100 * Two(s, 0) + Two(s, 2);
      var month := Two(s, 5);
      var day := Two(s, 8);
      var hours := Two(s, 11);
      var minutes := Two(s, 14);
      var seconds := Two(s, 17);
      if 1 <= month <= 12 && 1 <= day <= 31 && hours < 24 && minutes < 60 && seconds < 60 then
        Some(LocalTime(year, month - 1, day, hours, minutes, seconds))
      else
        None
  }

  /** For a four-digit year the text is 19 characters in the fixed shape. */
  lemma IsoIsFixedWidth(t: LocalTime)
    requires Valid(t) && HasFourDigitYear(t)
    ensures |ToLocalISOString(t)| == 19 && IsoShape(ToLocalISOString(t))
  {
    IsoDisplay(t);
    DisplayShape(t);
  }

  lemma TwoOfDigits(s: string, i: nat, a: nat)
    requires a < 100 && i + 1 < |s| && s[i] == DigitChar(a / 10) && s[i + 1] == DigitChar(a % 10)
    ensures DigitAt(s, i) && DigitAt(s, i + 1) && Two(s, i) == a
  {
  }

  /** The time part, from the `T` on, character by character. */
  lemma TimeText(h: nat, mi: nat, sec: nat)
    requires h < 24 && mi < 60 && sec < 60
    ensures "T" + (TwoDigits(h) + (":" + (TwoDigits(mi) + (":" + TwoDigits(sec)))))
         == ['T', DigitChar(h / 10), DigitChar(h % 10), ':', DigitChar(mi / 10), DigitChar(mi % 10),
             ':', DigitChar(sec / 10), DigitChar(sec % 10)]
  {
    var p1 := ":" + TwoDigits(sec);
    assert p1 == [':', DigitChar(sec / 10), DigitChar(sec % 10)];
    var p2 := TwoDigits(mi) + p1;
    assert p2 == [DigitChar(mi / 10), DigitChar(mi % 10)] + p1;
    var p3 := ":" + p2;
    var p4 := TwoDigits(h) + p3;
    assert p4 == [DigitChar(h / 10), DigitChar(h % 10)] + p3;
  }

  /** The date part, up to the `T`, character by character. */
  lemma DateText(y: nat, r: nat, mo: nat, d: nat, tail: string)
    requires y < 100 && r < 100 && mo < 100 && d < 100
    ensures TwoDigits(y) + TwoDigits(r) + ("-" + (TwoDigits(mo) + ("-" + (TwoDigits(d) + tail))))
         == [DigitChar(y / 10), DigitChar(y % 10), DigitChar(r / 10), DigitChar(r % 10), '-',
             DigitChar(mo / 10), DigitChar(mo % 10), '-', DigitChar(d / 10), DigitChar(d % 10)] + tail
  {
    var p6 := TwoDigits(d) + tail;
    assert p6 == [DigitChar(d / 10), DigitChar(d % 10)] + tail;
    var p7 := "-" + p6;
    var p8 := TwoDigits(mo) + p7;
    assert p8 == [DigitChar(mo / 10), DigitChar(mo % 10)] + p7;
    var p9 := "-" + p8;
    assert TwoDigits(y) + TwoDigits(r) + p9
        == [DigitChar(y / 10), DigitChar(y % 10), DigitChar(r / 10), DigitChar(r % 10)] + p9;
  }

  /** The text of a valid time with a four-digit year as a display of its
      nineteen characters. */
  lemma IsoDisplay(t: LocalTime)
    requires Valid(t) && HasFourDigitYear(t)
    ensures ToLocalISOString(t) == Display(t)
  {
    IsoChars(t);
    PartsDisplay(t);
  }

  lemma PartsDisplay(t: LocalTime)
    requires Valid(t) && HasFourDigitYear(t)
    ensures IsoParts(t) == Display(t)
  {
    var y, r := t.year / 100, t.year % 100;
    var mo := t.monthIndex + 1;
    var tail := "T" + (TwoDigits(t.hours) + (":" + (TwoDigits(t.minutes) + (":" + TwoDigits(t.seconds)))));
    YearDigits(t.year);
    assert IsoParts(t) == TwoDigits(y) + TwoDigits(r) + ("-" + (TwoDigits(mo) + ("-" + (TwoDigits(t.day) + tail))));
    TimeText(t.hours, t.minutes, t.seconds);
    DateText(y, r, mo, t.day, tail);
  }

  /** The nineteen characters of a time, as `IsoDisplay` gives them. */
  function Display(t: LocalTime): string
    requires Valid(t) && HasFourDigitYear(t)
  {
    var y, r := t.year / 100, t.year % 100;
    [ DigitChar(y / 10), DigitChar(y % 10), DigitChar(r / 10), DigitChar(r % 10), '-',
      DigitChar((t.monthIndex + 1) / 10), DigitChar((t.monthIndex + 1) % 10), '-',
      DigitChar(t.day / 10), DigitChar(t.day % 10), 'T',
      DigitChar(t.hours / 10), DigitChar(t.hours % 10), ':',
      DigitChar(t.minutes / 10), DigitChar(t.minutes % 10), ':',
      DigitChar(t.seconds / 10), DigitChar(t.seconds % 10)]
  }

  /** The display has the fixed shape, and its two-digit fields are the
      time's. */
  lemma DisplayShape(t: LocalTime)
    requires Valid(t) && HasFourDigitYear(t)
    ensures IsoShape(Display(t))
    ensures Two(Display(t), 0) == t.year / 100 && Two(Display(t), 2) == t.year % 100
    ensures Two(Display(t), 5) == t.monthIndex + 1 && Two(Display(t), 8) == t.day
    ensures Two(Display(t), 11) == t.hours && Two(Display(t), 14) == t.minutes && Two(Display(t), 17) == t.seconds
  {
    var s := Display(t);
    TwoOfDigits(s, 0, t.year / 100);
    TwoOfDigits(s, 2, t.year % 100);
    TwoOfDigits(s, 5, t.monthIndex + 1);
    TwoOfDigits(s, 8, t.day);
    TwoOfDigits(s, 11, t.hours);
    TwoOfDigits(s, 14, t.minutes);
    TwoOfDigits(s, 17, t.seconds);
  }

  lemma ParseDisplay(t: LocalTime)
    requires Valid(t) && HasFourDigitYear(t)
    ensures ParseLocalIso(Display(t)) == Some(t)
  {
    DisplayShape(t);
  }

  /** Reading the fields back returns the time that was printed. */
  lemma IsoRoundTrip(t: LocalTime)
    requires Valid(t) && HasFourDigitYear(t)
    ensures ParseLocalIso(ToLocalISOString(t)) == Some(t)
  {
    IsoDisplay(t);
    ParseDisplay(t);
  }

  /** JavaScript's `<` on strings: lexicographic order of the characters,
      a proper prefix coming first. */
  predicate StrLess(a: string, b: string)
    decreases |a|
  {
    if |b| == 0 then false
    else if |a| == 0 then true
    else if a[0] != b[0] then a[0] < b[0]
    else StrLess(a[1..], b[1..])
  }

  /** Comparing two concatenations whose first parts have equal length
      compares the first parts, and the second parts on a tie. */
  lemma {:induction false} StrLessConcat(x: string, u: string, y: string, v: string)
    requires |x| == |y|
    ensures StrLess(x + u, y + v) <==> StrLess(x, y) || (x == y && StrLess(u, v))
    decreases |x|
  {
    if |x| > 0 {
      assert (x + u)[0] == x[0] && (y + v)[0] == y[0];
      assert (x + u)[1..] == x[1..] + u && (y + v)[1..] == y[1..] + v;
      StrLessConcat(x[1..], u, y[1..], v);
      if x[0] == y[0] && x[1..] == y[1..] {
        assert x == [x[0]] + x[1..] && y == [y[0]] + y[1..];
      }
    } else {
      assert x + u == u && y + v == v;
    }
  }

  lemma TwoDigitsOrder(a: nat, b: nat)
    requires a < 100 && b < 100
    ensures StrLess(TwoDigits(a), TwoDigits(b)) <==> a < b
    ensures TwoDigits(a) == TwoDigits(b) <==> a == b
  {
    var x, y := TwoDigits(a), TwoDigits(b);
    assert StrLess(x, y) <==> x[0] < y[0] || (x[0] == y[0] && StrLess(x[1..], y[1..]));
    assert StrLess(x[1..], y[1..]) <==> x[1] < y[1] by {
      assert x[1..][1..] == [] && y[1..][1..] == [];
    }
    if x == y {
      assert x[0] == y[0] && x[1] == y[1];
    }
  }

  lemma YearOrder(a: int, b: int)
    requires 1000 <= a <= 9999 && 1000 <= b <= 9999
    ensures StrLess(IntToString(a), IntToString(b)) <==> a < b
    ensures IntToString(a) == IntToString(b) <==> a == b
  {
    YearDigits(a);
    YearDigits(b);
    StrLessConcat(TwoDigits(a / 100), TwoDigits(a % 100), TwoDigits(b / 100), TwoDigits(b % 100));
    TwoDigitsOrder(a / 100, b / 100);
    TwoDigitsOrder(a % 100, b % 100);
  }

  lemma {:induction false} StrLessIrreflexive(x: string)
    ensures !StrLess(x, x)
    decreases |x|
  {
    if |x| > 0 {
      StrLessIrreflexive(x[1..]);
    }
  }

  /** Two concatenations whose first parts have equal length are equal
      exactly when both parts are. */
  lemma ConcatEq(x: string, u: string, y: string, v: string)
    requires |x| == |y|
    ensures x + u == y + v <==> x == y && u == v
  {
    if x + u == y + v {
      assert x == (x + u)[..|x|] && y == (y + v)[..|y|];
      assert u == (x + u)[|x|..] && v == (y + v)[|y|..];
    }
  }

  /** One field of the text: two digits, a one-character separator, and the
      rest, compared and matched field first. */
  lemma FieldLayer(sep: string, x: nat, y: nat, u: string, v: string)
    requires |sep| == 1 && x < 100 && y < 100
    ensures StrLess(TwoDigits(x) + (sep + u), TwoDigits(y) + (sep + v)) <==> x < y || (x == y && StrLess(u, v))
    ensures TwoDigits(x) + (sep + u) == TwoDigits(y) + (sep + v) <==> x == y && u == v
  {
    StrLessConcat(TwoDigits(x), sep + u, TwoDigits(y), sep + v);
    StrLessConcat(sep, u, sep, v);
    StrLessIrreflexive(sep);
    TwoDigitsOrder(x, y);
    ConcatEq(TwoDigits(x), sep + u, TwoDigits(y), sep + v);
    ConcatEq(sep, u, sep, v);
  }

  /** From the day on, string order is the order of (day, hours, minutes,
      seconds). */
  lemma DayTextOrder(a: LocalTime, b: LocalTime)
    requires Valid(a) && Valid(b)
    ensures StrLess(DayText(a), DayText(b)) <==>
      || a.day < b.day
      || (a.day == b.day && a.hours < b.hours)
      || (a.day == b.day && a.hours == b.hours && a.minutes < b.minutes)
      || (a.day == b.day && a.hours == b.hours && a.minutes == b.minutes && a.seconds < b.seconds)
    ensures DayText(a) == DayText(b) <==>
      a.day == b.day && a.hours == b.hours && a.minutes == b.minutes && a.seconds == b.seconds
  {
    var s5a, s5b := TwoDigits(a.seconds), TwoDigits(b.seconds);
    var s4a, s4b := TwoDigits(a.minutes) + (":" + s5a), TwoDigits(b.minutes) + (":" + s5b);
    var s3a, s3b := TwoDigits(a.hours) + (":" + s4a), TwoDigits(b.hours) + (":" + s4b);
    TwoDigitsOrder(a.seconds, b.seconds);
    FieldLayer(":", a.minutes, b.minutes, s5a, s5b);
    FieldLayer(":", a.hours, b.hours, s4a, s4b);
    FieldLayer("T", a.day, b.day, s3a, s3b);
  }

  /** For four-digit years, comparing `toLocalISOString` texts as strings
      is comparing the times chronologically. */
  lemma IsoOrderIsChronological(a: LocalTime, b: LocalTime)
    requires Valid(a) && HasFourDigitYear(a) && Valid(b) && HasFourDigitYear(b)
    ensures StrLess(ToLocalISOString(a), ToLocalISOString(b)) <==> Before(a, b)
    ensures ToLocalISOString(a) == ToLocalISOString(b) <==> a == b
  {
    IsoChars(a);
    IsoChars(b);
    IsoPartsOrder(a, b);
  }

  /** From the month on, string order is the order of the remaining
      fields. */
  lemma MonthTextOrder(a: LocalTime, b: LocalTime)
    requires Valid(a) && Valid(b)
    ensures StrLess(MonthText(a), MonthText(b)) <==>
      || a.monthIndex < b.monthIndex
      || (a.monthIndex == b.monthIndex && a.day < b.day)
      || (a.monthIndex == b.monthIndex && a.day == b.day && a.hours < b.hours)
      || (a.monthIndex == b.monthIndex && a.day == b.day && a.hours == b.hours && a.minutes < b.minutes)
      || (a.monthIndex == b.monthIndex && a.day == b.day && a.hours == b.hours && a.minutes == b.minutes
          && a.seconds < b.seconds)
    ensures MonthText(a) == MonthText(b) <==>
      a.monthIndex == b.monthIndex && a.day == b.day && a.hours == b.hours && a.minutes == b.minutes
      && a.seconds == b.seconds
  {
    DayTextOrder(a, b);
    FieldLayer("-", a.monthIndex + 1, b.monthIndex + 1, DayText(a), DayText(b));
  }

  /** The year field: four digits, `-`, and the rest. */
  lemma YearLayer(x: int, y: int, u: string, v: string)
    requires 1000 <= x <= 9999 && 1000 <= y <= 9999
    ensures StrLess(IntToString(x) + ("-" + u), IntToString(y) + ("-" + v)) <==> x < y || (x == y && StrLess(u, v))
    ensures IntToString(x) + ("-" + u) == IntToString(y) + ("-" + v) <==> x == y && u == v
  {
    YearDigits(x);
    YearDigits(y);
    YearOrder(x, y);
    StrLessConcat(IntToString(x), "-" + u, IntToString(y), "-" + v);
    StrLessConcat("-", u, "-", v);
    StrLessIrreflexive("-");
    ConcatEq(IntToString(x), "-" + u, IntToString(y), "-" + v);
    ConcatEq("-", u, "-", v);
  }

  lemma IsoPartsOrder(a: LocalTime, b: LocalTime)
    requires Valid(a) && HasFourDigitYear(a) && Valid(b) && HasFourDigitYear(b)
    ensures StrLess(IsoParts(a), IsoParts(b)) <==> Before(a, b)
    ensures IsoParts(a) == IsoParts(b) <==> a == b
  {
    MonthTextOrder(a, b);
    YearLayer(a.year, b.year, MonthText(a), MonthText(b));
  }
}
