/** The day name the app stores with a service: the weekday table indexed by the
    weekday of the service's `YYYY-MM-DD` date, read at local noon. The date is parsed
    in the ECMA-262 Date Time String Format and its weekday is computed with proleptic
    Gregorian arithmetic; a string that does not parse yields no day (the app's
    `undefined`). */
module Calendar {
  import opened Seqs
  import opened Types

  /** The day-name table, indexed by weekday 0 (Sunday) to 6 (Saturday). */
  const DayNames: seq<ServiceDay> :=
    [Domingo, SegundaFeira, TercaFeira, QuartaFeira, QuintaFeira, SextaFeira, Sabado]

  datatype Date = Date(year: int, month: int, day: int)

  predicate IsLeapYear(y: int)
  {
    y % 4 == 0 && (y % 100 != 0 || y % 400 == 0)
  }

  function DaysInMonth(y: int, m: int): int
  {
    if m == 2 then (if IsLeapYear(y) then 29 else 28)
    else if m == 4 || m == 6 || m == 9 || m == 11 then 30
    else 31
  }

  /** A calendar date the four-digit-year ISO form can denote. */
  predicate ValidDate(d: Date)
  {
    0 <= d.year <= 9999 && 1 <= d.month <= 12 && 1 <= d.day <= DaysInMonth(d.year, d.month)
  }

  predicate IsDigit(c: char)
  {
    '0' <= c <= '9'
  }

  predicate AllDigits(s: string)
  {
    forall i :: 0 <= i < |s| ==> IsDigit(s[i])
  }

  /** The decimal value of a string of digits. */
  function DigitsValue(s: string): nat
    requires AllDigits(s)
  {
    if s == [] then 0 else DigitsValue(s[..|s| - 1]) * 10 + (s[|s| - 1] as int - '0' as int)
  }

  /** Reads `YYYY-MM-DD`; anything else, or a day the month does not have, is None
      (the Invalid Date whose weekday is NaN). */
  function ParseDate(s: string): (r: Option<Date>)
    ensures r.Some? ==> ValidDate(r.value)
    ensures r.Some? ==> |s| == 10 && s[4] == '-' && s[7] == '-'
  {
    if |s| == 10 && s[4] == '-' && s[7] == '-'
       && AllDigits(s[..4]) && AllDigits(s[5..7]) && AllDigits(s[8..])
    then
      var d := Date(DigitsValue(s[..4]), DigitsValue(s[5..7]), DigitsValue(s[8..]));
      if ValidDate(d) then Some(d) else None
    else None
  }

  /** The decimal digit character of `n`. */
  function Digit(n: int): char
    requires 0 <= n < 10
  {
    ('0' as int + n) as char
  }

  /** The two-digit zero-padded decimal form of `n`. */
  function Pad2(n: int): string
    requires 0 <= n < 100
  {
    [Digit(n / 10), Digit(n % 10)]
  }

  /** The four-digit zero-padded decimal form of `n`. */
  function Pad4(n: int): string
    requires 0 <= n < 10000
  {
    [Digit(n / 1000), Digit(n / 100 % 10), Digit(n / 10 % 10), Digit(n % 10)]
  }

  /** The `YYYY-MM-DD` text of a date, as a date input produces it. */
  function FormatDate(d: Date): (s: string)
    requires ValidDate(d)
    ensures |s| == 10
  {
    Pad4(d.year) + "-" + Pad2(d.month) + "-" + Pad2(d.day)
  }

  /** Appending a digit multiplies the value by ten and adds the digit. */
  lemma DigitsSnoc(t: string, n: int)
    requires AllDigits(t) && 0 <= n < 10
    ensures AllDigits(t + [Digit(n)])
    ensures DigitsValue(t + [Digit(n)]) == DigitsValue(t) * 10 + n
  {
    assert (t + [Digit(n)])[..|t|] == t;
  }

  lemma Pad2Value(n: int)
    requires 0 <= n < 100
    ensures AllDigits(Pad2(n)) && DigitsValue(Pad2(n)) == n
  {
    DigitsSnoc([], n / 10);
    DigitsSnoc([Digit(n / 10)], n % 10);
    assert Pad2(n) == [] + [Digit(n / 10)] + [Digit(n % 10)];
  }

  /** Dropping one more decimal digit: `n / k / 10 == n / (10 * k)`. */
  lemma DecimalShift(n: int, k: int)
    requires 0 <= n && (k == 10 || k == 100)
    ensures n / k / 10 == n / (10 * k)
  {
    var q, r := n / (10 * k), n % (10 * k);
    assert n == 10 * k * q + r;
    assert n == k * (10 * q + r / k) + r % k;
    assert n / k == 10 * q + r / k;
  }

  lemma Pad4Value(n: int)
    requires 0 <= n < 10000
    ensures AllDigits(Pad4(n)) && DigitsValue(Pad4(n)) == n
  {
    var a, b, c := n / 1000, n / 100, n / 10;
    DecimalShift(n, 100);
    DecimalShift(n, 10);
    var s1 := [] + [Digit(a)];
    var s2 := s1 + [Digit(b % 10)];
    var s3 := s2 + [Digit(c % 10)];
    var s4 := s3 + [Digit(n % 10)];
    DigitsSnoc([], a);
    DigitsSnoc(s1, b % 10);
    DigitsSnoc(s2, c % 10);
    DigitsSnoc(s3, n % 10);
    assert s4 == Pad4(n);
  }

  /** Parsing the text of a valid date gives that date back. */
  lemma {:induction false} ParseFormatRoundTrip(d: Date)
    requires ValidDate(d)
    ensures ParseDate(FormatDate(d)) == Some(d)
  {
    var s := FormatDate(d);
    Pad4Value(d.year);
    Pad2Value(d.month);
    Pad2Value(d.day);
    assert s[..4] == Pad4(d.year);
    assert s[5..7] == Pad2(d.month);
    assert s[8..] == Pad2(d.day);
  }

  /** A parsed date is the date its text denotes: formatting it gives the text back. */
  lemma {:induction false} FormatParseRoundTrip(s: string)
    requires ParseDate(s).Some?
    ensures FormatDate(ParseDate(s).value) == s
  {
    var d := ParseDate(s).value;
    var y, m, dd := s[..4], s[5..7], s[8..];
    Pad4Value(d.year);
    Pad2Value(d.month);
    Pad2Value(d.day);
    DigitsInjective(Pad4(d.year), y);
    DigitsInjective(Pad2(d.month), m);
    DigitsInjective(Pad2(d.day), dd);
    assert s == y + "-" + m + "-" + dd;
  }

  /** Two digit strings of the same length with the same value are equal. */
  lemma {:induction false} DigitsInjective(a: string, b: string)
    requires AllDigits(a) && AllDigits(b) && |a| == |b|
    requires DigitsValue(a) == DigitsValue(b)
    ensures a == b
  {
    if a != [] {
      var n := |a| - 1;
      var a', b' := a[..n], b[..n];
      assert IsDigit(a[n]) && IsDigit(b[n]);
      assert AllDigits(a') && AllDigits(b');
      var da, db := a[n] as int - '0' as int, b[n] as int - '0' as int;
      assert DigitsValue(a) == DigitsValue(a') * 10 + da;
      assert DigitsValue(b) == DigitsValue(b') * 10 + db;
      LastDigitUnique(DigitsValue(a'), DigitsValue(b'), da, db);
      DigitsInjective(a[..n], b[..n]);
      assert a == a[..n] + [a[n]] && b == b[..n] + [b[n]];
    }
  }

  /** A number's last decimal digit and the number before it are determined by it. */
  lemma LastDigitUnique(p: int, q: int, da: int, db: int)
    requires 0 <= da < 10 && 0 <= db < 10
    requires p * 10 + da == q * 10 + db
    ensures p == q && da == db
  {
  }

  /** Days from 0000-01-01 to January 1 of year `y` (year 0 is a leap year). */
  function DaysBeforeYear(y: int): int
    requires y >= 0
  {
    if y == 0 then 0 else 365 * y + (y - 1) / 4 - (y - 1) / 100 + (y - 1) / 400 + 1
  }

  function DaysInYear(y: int): int
  {
    if IsLeapYear(y) then 366 else 365
  }

  /** Days from January 1 to the first day of month `m` of year `y`. */
  function DaysBeforeMonth(y: int, m: int): int
    requires 1 <= m <= 13
  {
    if m == 1 then 0 else DaysBeforeMonth(y, m - 1) + DaysInMonth(y, m - 1)
  }

  /** Days since 0000-01-01, which was a Saturday. */
  function DayNumber(d: Date): int
    requires ValidDate(d)
  {
    DaysBeforeYear(d.year) + DaysBeforeMonth(d.year, d.month) + d.day - 1
  }

  /** Date.prototype.getDay: 0 for Sunday up to 6 for Saturday. */
  function Weekday(d: Date): (w: int)
    requires ValidDate(d)
    ensures 0 <= w < 7
  {
    (DayNumber(d) + 6) % 7
  }

  /** The day name stored for a date string: DAY_NAMES[weekday], or nothing when the
      string is not a date. */
  function DayOfWeekOf(date: string): (r: Option<ServiceDay>)
    ensures r.Some? <==> ParseDate(date).Some?
  {
    match ParseDate(date)
    case None => None
    case Some(d) => Some(DayNames[Weekday(d)])
  }

  /** The calendar day after `d`. */
  function NextDate(d: Date): Date
    requires ValidDate(d)
  {
    if d.day < DaysInMonth(d.year, d.month) then Date(d.year, d.month, d.day + 1)
    else if d.month < 12 then Date(d.year, d.month + 1, 1)
    else Date(d.year + 1, 1, 1)
  }

  /** The twelve months add up to the length of the year. */
  lemma MonthsFillYear(y: int)
    ensures DaysBeforeMonth(y, 13) == DaysInYear(y)
  {
    var feb := DaysInMonth(y, 2);
    assert DaysBeforeMonth(y, 2) == 31;
    assert DaysBeforeMonth(y, 3) == 31 + feb;
    assert DaysBeforeMonth(y, 4) == 62 + feb;
    assert DaysBeforeMonth(y, 5) == 92 + feb;
    assert DaysBeforeMonth(y, 6) == 123 + feb;
    assert DaysBeforeMonth(y, 7) == 153 + feb;
    assert DaysBeforeMonth(y, 8) == 184 + feb;
    assert DaysBeforeMonth(y, 9) == 215 + feb;
    assert DaysBeforeMonth(y, 10) == 245 + feb;
    assert DaysBeforeMonth(y, 11) == 276 + feb;
    assert DaysBeforeMonth(y, 12) == 306 + feb;
  }

  /** Successive years start one year-length apart. */
  lemma YearLength(y: int)
    requires y >= 0
    ensures DaysBeforeYear(y + 1) == DaysBeforeYear(y) + DaysInYear(y)
  {
    if y > 0 {
      LeapDaysStep(y);
    }
  }

  /** Going from year `y - 1` to `y`, each of the counts of multiples of 4, 100 and
      400 grows by one exactly when `y` is such a multiple. */
  lemma LeapDaysStep(y: int)
    requires y > 0
    ensures y / 4 - (y - 1) / 4 == if y % 4 == 0 then 1 else 0
    ensures y / 100 - (y - 1) / 100 == if y % 100 == 0 then 1 else 0
    ensures y / 400 - (y - 1) / 400 == if y % 400 == 0 then 1 else 0
    ensures y % 100 == 0 ==> y % 4 == 0
    ensures y % 400 == 0 ==> y % 100 == 0
  {
    MultiplesOf4Step(y);
    MultiplesOf100Step(y);
    MultiplesOf400Step(y);
    if y % 100 == 0 {
      assert y == 4 * (25 * (y / 100));
    }
    if y % 400 == 0 {
      assert y == 100 * (4 * (y / 400));
    }
  }

  lemma MultiplesOf4Step(y: int)
    requires y > 0
    ensures y / 4 - (y - 1) / 4 == if y % 4 == 0 then 1 else 0
  {
    var q, r := (y - 1) / 4, (y - 1) % 4;
    assert y - 1 == 4 * q + r;
    if r == 3 { assert y == 4 * (q + 1); } else { assert y == 4 * q + (r + 1); }
  }

  lemma MultiplesOf100Step(y: int)
    requires y > 0
    ensures y / 100 - (y - 1) / 100 == if y % 100 == 0 then 1 else 0
  {
    var q, r := (y - 1) / 100, (y - 1) % 100;
    assert y - 1 == 100 * q + r;
    if r == 99 { assert y == 100 * (q + 1); } else { assert y == 100 * q + (r + 1); }
  }

  lemma MultiplesOf400Step(y: int)
    requires y > 0
    ensures y / 400 - (y - 1) / 400 == if y % 400 == 0 then 1 else 0
  {
    var q, r := (y - 1) / 400, (y - 1) % 400;
    assert y - 1 == 400 * q + r;
    if r == 399 { assert y == 400 * (q + 1); } else { assert y == 400 * q + (r + 1); }
  }

  /** The day after a valid date is valid and has the next day number. */
  lemma NextDayNumber(d: Date)
    requires ValidDate(d) && d.year < 9999
    ensures ValidDate(NextDate(d))
    ensures DayNumber(NextDate(d)) == DayNumber(d) + 1
  {
    var n := NextDate(d);
    if d.day < DaysInMonth(d.year, d.month) {
      assert n == Date(d.year, d.month, d.day + 1);
    } else if d.month < 12 {
      assert n == Date(d.year, d.month + 1, 1);
      assert DaysBeforeMonth(d.year, d.month + 1) == DaysBeforeMonth(d.year, d.month) + d.day;
    } else {
      assert n == Date(d.year + 1, 1, 1);
      YearLength(d.year);
      MonthsFillYear(d.year);
      assert DaysBeforeMonth(d.year, 13) == DaysBeforeMonth(d.year, 12) + d.day;
    }
  }

  /** Consecutive calendar days are consecutive day numbers, so the stored day name
      advances by one each day and wraps from Sábado to Domingo. */
  lemma NextDateAdvancesDay(d: Date)
    requires ValidDate(d) && d.year < 9999
    ensures ValidDate(NextDate(d))
    ensures DayNumber(NextDate(d)) == DayNumber(d) + 1
    ensures Weekday(NextDate(d)) == (Weekday(d) + 1) % 7
    ensures DayNames[Weekday(NextDate(d))] == DayNames[(Weekday(d) + 1) % 7]
  {
    NextDayNumber(d);
    WeekdayStep(DayNumber(d));
  }

  /** The weekday of the next day number is the next weekday, modulo seven. */
  lemma WeekdayStep(k: int)
    ensures (k + 1 + 6) % 7 == ((k + 6) % 7 + 1) % 7
  {
    var q, w := (k + 6) / 7, (k + 6) % 7;
    assert k + 6 == 7 * q + w;
    if w < 6 {
      assert k + 7 == 7 * q + (w + 1);
    } else {
      assert k + 7 == 7 * (q + 1);
    }
  }

  /** The table holds, in weekday order, the day labels the app writes out. */
  lemma DayNamesLabels()
    ensures Map(DayNames, DayLabel) ==
      ["Domingo", "Segunda-feira", "Terça-feira", "Quarta-feira", "Quinta-feira", "Sexta-feira", "Sábado"]
  {
  }

  /** The day-name table names each day exactly once. */
  lemma DayNamesEachOnce()
    ensures |DayNames| == 7
    ensures forall i, j :: 0 <= i < j < 7 ==> DayNames[i] != DayNames[j]
    ensures forall d: ServiceDay :: d in DayNames
  {
    forall d: ServiceDay
      ensures d in DayNames
    {
      match d
      case Domingo => assert DayNames[0] == d;
      case SegundaFeira => assert DayNames[1] == d;
      case TercaFeira => assert DayNames[2] == d;
      case QuartaFeira => assert DayNames[3] == d;
      case QuintaFeira => assert DayNames[4] == d;
      case SextaFeira => assert DayNames[5] == d;
      case Sabado => assert DayNames[6] == d;
    }
  }
}
