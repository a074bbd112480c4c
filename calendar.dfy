/** The proleptic Gregorian calendar of Python's `datetime.date`, and the
    trailing-window start that SurfsUp/app.py computes from a date string. */
module Calendar {
  import opened Outcomes
  import opened Text

  const MinYear := 1
  const MaxYear := 9999
  /** The day number of 9999-12-31. */
  const MaxOrdinal := 3652059
  /** The length of the trailing window, `timedelta(days = 365)`. */
  const WindowDays := 365

  datatype Date = Date(year: int, month: int, day: int)

  predicate IsLeap(year: int)
  {
    year % 4 == 0 && (year % 100 != 0 || year % 400 == 0)
  }

  function DaysInYear(year: int): int
  {
    if IsLeap(year) then 366 else 365
  }

  function DaysInMonth(year: int, month: int): int
    requires 1 <= month <= 12
  {
    if month == 2 then (if IsLeap(year) then 29 else 28)
    else if month == 4 || month == 6 || month == 9 || month == 11 then 30
    else 31
  }

  predicate IsValid(d: Date)
  {
    MinYear <= d.year <= MaxYear && 1 <= d.month <= 12 && 1 <= d.day <= DaysInMonth(d.year, d.month)
  }

  /** Days in the years before `year`. */
  function DaysBeforeYear(year: int): int
    requires year >= 1
  {
    var y := year - 1;
    y * 365 + y / 4 - y / 100 + y / 400
  }

  /** Days in the months of `year` before `month`. */
  function DaysBeforeMonth(year: int, month: int): int
    requires 1 <= month <= 12
  {
    var table := [0, 31, 59, 90, 120, 151, 181, 212, 243, 273, 304, 334];
    table[month - 1] + (if month > 2 && IsLeap(year) then 1 else 0)
  }

  /** `date.toordinal()`: 0001-01-01 is day 1. */
  function ToOrdinal(d: Date): int
    requires IsValid(d)
  {
    DaysBeforeYear(d.year) + DaysBeforeMonth(d.year, d.month) + d.day
  }

  /** Chronological order of dates, field by field. */
  predicate NotAfter(a: Date, b: Date)
  {
    a.year < b.year
    || (a.year == b.year && (a.month < b.month || (a.month == b.month && a.day <= b.day)))
  }

  /* ---------------------------------------------------------------------
     Facts about the month table and the year counts.
     --------------------------------------------------------------------- */

  lemma MonthTable(year: int)
    ensures DaysBeforeMonth(year, 1) == 0
    ensures forall m :: 1 <= m < 12 ==> DaysBeforeMonth(year, m + 1) == DaysBeforeMonth(year, m) + DaysInMonth(year, m)
    ensures DaysBeforeMonth(year, 12) + DaysInMonth(year, 12) == DaysInYear(year)
  {
  }

  lemma {:induction false} DaysBeforeMonthMonotone(year: int, m1: int, m2: int)
    requires 1 <= m1 <= m2 <= 12
    ensures DaysBeforeMonth(year, m1) <= DaysBeforeMonth(year, m2)
    decreases m2 - m1
  {
    if m1 < m2 {
      MonthTable(year);
      DaysBeforeMonthMonotone(year, m1 + 1, m2);
    }
  }

  lemma DaysBeforeYearStep(year: int)
    requires year >= 1
    ensures DaysBeforeYear(year + 1) == DaysBeforeYear(year) + DaysInYear(year)
  {
    NextQuotients(year - 1);
    LeapCounts(year);
  }

  /** A year's length as the three divisibility tests count it. */
  lemma LeapCounts(year: int)
    ensures DaysInYear(year) == 365 + (if year % 4 == 0 then 1 else 0)
                                    - (if year % 100 == 0 then 1 else 0)
                                    + (if year % 400 == 0 then 1 else 0)
  {
    if year % 400 == 0 {
      var k := year / 400;
      assert year == 100 * (4 * k);
    }
    if year % 100 == 0 {
      var k := year / 100;
      assert year == 4 * (25 * k);
    }
  }

  /** Each of the three counts of multiples grows by one exactly when the
      next year is such a multiple. */
  lemma NextQuotients(y: int)
    ensures (y + 1) / 4 == y / 4 + (if (y + 1) % 4 == 0 then 1 else 0)
    ensures (y + 1) / 100 == y / 100 + (if (y + 1) % 100 == 0 then 1 else 0)
    ensures (y + 1) / 400 == y / 400 + (if (y + 1) % 400 == 0 then 1 else 0)
  {
  }

  lemma {:induction false} DaysBeforeYearMonotone(y1: int, y2: int)
    requires 1 <= y1 <= y2
    ensures DaysBeforeYear(y1) + 365 * (y2 - y1) <= DaysBeforeYear(y2)
    decreases y2 - y1
  {
    if y1 < y2 {
      DaysBeforeYearStep(y1);
      DaysBeforeYearMonotone(y1 + 1, y2);
    }
  }

  /** Within a valid date's year, its day lies in 1..DaysInYear. */
  lemma DayOfYearBounds(d: Date)
    requires IsValid(d)
    ensures 1 <= DaysBeforeMonth(d.year, d.month) + d.day <= DaysInYear(d.year)
  {
    MonthTable(d.year);
    DaysBeforeMonthMonotone(d.year, 1, d.month);
    if d.month < 12 {
      DaysBeforeMonthMonotone(d.year, d.month + 1, 12);
    }
  }

  /* ---------------------------------------------------------------------
     `date.fromordinal(n)`: the date whose day number is n.
     --------------------------------------------------------------------- */

  /** The year holding day offset `k` counted from the start of `year`, and
      the offset within that year. */
  function YearOf(year: int, k: int): (r: (int, int))
    requires year >= 1 && k >= 0
    ensures r.0 >= year && 0 <= r.1 < DaysInYear(r.0)
    ensures DaysBeforeYear(r.0) - DaysBeforeYear(year) + r.1 == k
    decreases k
  {
    if k < DaysInYear(year) then (year, k)
    else
      DaysBeforeYearStep(year);
      YearOf(year + 1, k - DaysInYear(year))
  }

  /** The month holding day offset `k` counted from the start of `month`,
      and the offset within that month. */
  function MonthOf(year: int, month: int, k: int): (r: (int, int))
    requires 1 <= month <= 12 && 0 <= k < DaysInYear(year) - DaysBeforeMonth(year, month)
    ensures month <= r.0 <= 12 && 0 <= r.1 < DaysInMonth(year, r.0)
    ensures DaysBeforeMonth(year, r.0) - DaysBeforeMonth(year, month) + r.1 == k
    decreases 12 - month
  {
    MonthTable(year);
    if k < DaysInMonth(year, month) then (month, k)
    else MonthOf(year, month + 1, k - DaysInMonth(year, month))
  }

  function FromOrdinal(n: int): (d: Date)
    requires 1 <= n <= MaxOrdinal
    ensures IsValid(d) && ToOrdinal(d) == n
  {
    var (y, k) := YearOf(MinYear, n - 1);
    if y > MaxYear then
      DaysBeforeYearMonotone(MaxYear + 1, y);
      assert false;
      Date(y, 1, 1)
    else
      MonthTable(y);
      var (m, j) := MonthOf(y, 1, k);
      Date(y, m, j + 1)
  }

  /** The day number grows strictly along the calendar. */
  lemma OrdinalIncreasing(a: Date, b: Date)
    requires IsValid(a) && IsValid(b) && NotAfter(a, b) && a != b
    ensures ToOrdinal(a) < ToOrdinal(b)
  {
    if a.year < b.year {
      DayOfYearBounds(a);
      DaysBeforeYearStep(a.year);
      DaysBeforeYearMonotone(a.year + 1, b.year);
      assert ToOrdinal(a) <= DaysBeforeYear(a.year + 1) <= DaysBeforeYear(b.year);
      assert DaysBeforeYear(b.year) < ToOrdinal(b);
    } else if a.month < b.month {
      MonthTable(a.year);
      DaysBeforeMonthMonotone(a.year, a.month + 1, b.month);
      assert DaysBeforeMonth(a.year, a.month + 1) == DaysBeforeMonth(a.year, a.month) + DaysInMonth(a.year, a.month);
    }
  }

  /** Day-number order is chronological order. */
  lemma OrdinalOrder(a: Date, b: Date)
    requires IsValid(a) && IsValid(b)
    ensures NotAfter(a, b) <==> ToOrdinal(a) <= ToOrdinal(b)
    ensures a == b <==> ToOrdinal(a) == ToOrdinal(b)
  {
    if a != b {
      if NotAfter(a, b) {
        OrdinalIncreasing(a, b);
      } else {
        OrdinalIncreasing(b, a);
      }
    }
  }

  /** `fromordinal` inverts `toordinal`. */
  lemma FromToOrdinal(d: Date)
    requires IsValid(d)
    ensures 1 <= ToOrdinal(d) <= MaxOrdinal && FromOrdinal(ToOrdinal(d)) == d
  {
    DayOfYearBounds(d);
    DaysBeforeYearMonotone(MinYear, d.year);
    DaysBeforeYearStep(d.year);
    DaysBeforeYearMonotone(d.year + 1, MaxYear + 1);
    OrdinalOrder(FromOrdinal(ToOrdinal(d)), d);
  }

  /* ---------------------------------------------------------------------
     `datetime.date(y, m, d)` and `date - timedelta(days = n)`.
     --------------------------------------------------------------------- */

  /** The range of a C `int`, into which the date constructor converts
      each of its arguments before it looks at them. */
  const CIntMin := -0x8000_0000
  const CIntMax := 0x7FFF_FFFF

  predicate FitsCInt(n: int)
  {
    CIntMin <= n <= CIntMax
  }

  /** The date constructor: an OverflowError when an argument does not fit
      a C `int`, and otherwise a ValueError unless the fields name a day of
      the years 1..9999. */
  function MakeDate(year: int, month: int, day: int): (r: Result<Date>)
    ensures r.Ok? <==> IsValid(Date(year, month, day))
    ensures r.Ok? ==> r.value == Date(year, month, day)
    ensures r.Err? ==> r.fault in {NotACInt, BadDate}
    ensures r.Err? ==> (r.fault == NotACInt <==> !(FitsCInt(year) && FitsCInt(month) && FitsCInt(day)))
  {
    if !(FitsCInt(year) && FitsCInt(month) && FitsCInt(day)) then Err(NotACInt)
    else if IsValid(Date(year, month, day)) then Ok(Date(year, month, day))
    else Err(BadDate)
  }

  /** `d - timedelta(days = n)`: an OverflowError unless the day number
      stays in 1..MaxOrdinal. */
  function SubtractDays(d: Date, n: int): (r: Result<Date>)
    requires IsValid(d)
    ensures r.Ok? <==> 1 <= ToOrdinal(d) - n <= MaxOrdinal
    ensures r.Ok? ==> IsValid(r.value) && ToOrdinal(r.value) == ToOrdinal(d) - n
    ensures r.Err? ==> r.fault == OutOfRange
  {
    var o := ToOrdinal(d) - n;
    if 1 <= o <= MaxOrdinal then Ok(FromOrdinal(o)) else Err(OutOfRange)
  }

  /** Whether the year before `d` holds a 29 February: the one of d's own
      year from March on, the one of the previous year in January and
      February. */
  predicate SpansLeapDay(d: Date)
  {
    if d.month >= 3 then IsLeap(d.year) else IsLeap(d.year - 1)
  }

  /** Going back 365 days lands on the same month and day of the previous
      year exactly when that day exists and no 29 February lies between:
      the subtraction is calendar-day arithmetic, not "one year". */
  lemma WindowIsOneYearUnlessLeap(d: Date)
    requires IsValid(d) && d.year > MinYear
    ensures SubtractDays(d, WindowDays) == Ok(Date(d.year - 1, d.month, d.day))
        <==> IsValid(Date(d.year - 1, d.month, d.day)) && !SpansLeapDay(d)
  {
    var back := Date(d.year - 1, d.month, d.day);
    var r := SubtractDays(d, WindowDays);
    if IsValid(back) {
      YearBackDistance(d);
      OrdinalRange(back);
      if SpansLeapDay(d) {
        assert r.Ok? ==> ToOrdinal(r.value) != ToOrdinal(back);
      } else {
        assert r.Ok? && ToOrdinal(r.value) == ToOrdinal(back);
        OrdinalOrder(r.value, back);
      }
    }
  }

  /** The same month and day one year earlier lies 365 days back, or 366
      when a 29 February lies between. */
  lemma YearBackDistance(d: Date)
    requires IsValid(d) && d.year > MinYear && IsValid(Date(d.year - 1, d.month, d.day))
    ensures ToOrdinal(d) - ToOrdinal(Date(d.year - 1, d.month, d.day))
            == WindowDays + (if SpansLeapDay(d) then 1 else 0)
  {
    DaysBeforeYearStep(d.year - 1);
  }

  /** From the dataset's last day, 2017-08-23, the window starts on
      2016-08-23, and from 2017-02-28 on 2016-02-29. From 2016-08-23 it
      starts a day "late", on 2015-08-24, since the 365 days back cross
      29 February 2016. */
  lemma WindowExamples()
    ensures SubtractDays(Date(2017, 8, 23), WindowDays) == Ok(Date(2016, 8, 23))
    ensures SubtractDays(Date(2017, 2, 28), WindowDays) == Ok(Date(2016, 2, 29))
    ensures SubtractDays(Date(2016, 8, 23), WindowDays) == Ok(Date(2015, 8, 24))
  {
    var late, leap, early := Date(2017, 8, 23), Date(2017, 2, 28), Date(2016, 8, 23);
    assert ToOrdinal(late) == 736564 && ToOrdinal(Date(2016, 8, 23)) == 736199;
    assert ToOrdinal(leap) == 736388 && ToOrdinal(Date(2016, 2, 29)) == 736023;
    assert ToOrdinal(Date(2015, 8, 24)) == 735834;
    OrdinalOrder(SubtractDays(late, WindowDays).value, Date(2016, 8, 23));
    OrdinalOrder(SubtractDays(leap, WindowDays).value, Date(2016, 2, 29));
    OrdinalOrder(SubtractDays(early, WindowDays).value, Date(2015, 8, 24));
  }

  /* ---------------------------------------------------------------------
     ISO text: `date.isoformat()` and the parse of line 69.
     --------------------------------------------------------------------- */

  /** `date.isoformat()`, the form in which a date is bound into a query. */
  function IsoFormat(d: Date): (s: string)
    requires IsValid(d)
    ensures |s| == 10
  {
    Pad(d.year as nat, 4) + ("-" + (Pad(d.month as nat, 2) + ("-" + Pad(d.day as nat, 2))))
  }

  /** A string without a '-' has one field only: `int()` of it fails, or
      indexing field 1 does. */
  lemma ParseSingleField(s: string)
    requires '-' !in s
    ensures ParseDate(s) == if ParseInt(s).None? then Err(NotAnInteger) else Err(FieldMissing)
  {
    SplitWithoutSeparator(s, '-');
  }

  /** A first field that is not a numeral fails the parse before anything
      after it is looked at. */
  lemma ParseFirstFieldFirst(x: string, rest: string)
    requires '-' !in x && ParseInt(x).None?
    ensures ParseDate(x + ['-'] + rest) == Err(NotAnInteger)
  {
    SplitAfterField(x, '-', rest);
  }

  /** A zero-padded YYYY-MM-DD string (the full-date of RFC 3339,
      section 5.6); its fields need not name an existing day. */
  predicate IsIsoShape(s: string)
  {
    |s| == 10 && s[4] == '-' && s[7] == '-'
    && AllDigits(s[..4]) && AllDigits(s[5..7]) && AllDigits(s[8..])
  }

  /** Line 69 up to the date constructor: split on '-', `int()` of fields 0,
      1 and 2 in that order (each index is taken only after the field
      before it converted), then `datetime.date`. */
  function ParseDate(s: string): (r: Result<Date>)
    ensures r.Ok? ==> IsValid(r.value)
  {
    var fields := Split(s, '-');
    match ParseInt(fields[0])
    case None => Err(NotAnInteger)
    case Some(year) =>
      if |fields| < 2 then Err(FieldMissing) else
      match ParseInt(fields[1])
      case None => Err(NotAnInteger)
      case Some(month) =>
        if |fields| < 3 then Err(FieldMissing) else
        match ParseInt(fields[2])
        case None => Err(NotAnInteger)
        case Some(day) => MakeDate(year, month, day)
  }

  lemma IsoFields(s: string)
    requires IsIsoShape(s)
    ensures Split(s, '-') == [s[..4], s[5..7], s[8..]]
    ensures s == s[..4] + "-" + s[5..7] + "-" + s[8..]
  {
    assert s == s[..4] + ['-'] + (s[5..7] + ['-'] + s[8..]);
    assert '-' !in s[..4] by { assert !IsDigit('-'); }
    assert '-' !in s[5..7] by { assert !IsDigit('-'); }
    assert '-' !in s[8..] by { assert !IsDigit('-'); }
    SplitAfterField(s[..4], '-', s[5..7] + ['-'] + s[8..]);
    SplitAfterField(s[5..7], '-', s[8..]);
    SplitWithoutSeparator(s[8..], '-');
  }

  /** On a well-formed string the parse reads the three numerals, and it
      succeeds exactly when they name a valid date. */
  lemma ParseIsoShape(s: string)
    requires IsIsoShape(s)
    ensures ParseDate(s) == MakeDate(Value(s[..4]), Value(s[5..7]), Value(s[8..]))
  {
    IsoFields(s);
  }

  /** A well-formed stored date never overflows the constructor: its
      fields have at most four digits, so its only failure is the
      ValueError of a day that does not exist. */
  lemma IsoShapeFault(s: string)
    requires IsIsoShape(s) && ParseDate(s).Err?
    ensures ParseDate(s).fault == BadDate
  {
    ParseIsoShape(s);
    PadOfValue(s[..4]);
    PadOfValue(s[5..7]);
    PadOfValue(s[8..]);
    assert Pow10(4) == 10000;
  }

  /** Three numerals within `int()`'s digit limit, one of which does not
      fit a C `int`, give an OverflowError, whatever the others hold. */
  lemma ParseOverflow(a: string, b: string, c: string)
    requires a != [] && b != [] && c != [] && AllDigits(a) && AllDigits(b) && AllDigits(c)
    requires |a| <= MaxIntDigits && |b| <= MaxIntDigits && |c| <= MaxIntDigits
    requires !(FitsCInt(Value(a)) && FitsCInt(Value(b)) && FitsCInt(Value(c)))
    ensures ParseDate(a + "-" + b + "-" + c) == Err(NotACInt)
  {
    assert '-' !in a && '-' !in b && '-' !in c by {
      assert !IsDigit('-');
    }
    assert a + "-" + b + "-" + c == a + ['-'] + (b + ['-'] + c);
    SplitAfterField(a, '-', b + ['-'] + c);
    SplitAfterField(b, '-', c);
    SplitWithoutSeparator(c, '-');
  }

  /** Only fields 0, 1 and 2 are read: text after a third '-' is ignored. */
  lemma ParseIgnoresSurplus(s: string, rest: string)
    requires IsIsoShape(s)
    ensures ParseDate(s + ['-'] + rest) == ParseDate(s)
  {
    IsoFields(s);
    var a, b, c := s[..4], s[5..7], s[8..];
    assert '-' !in a && '-' !in b && '-' !in c by {
      assert forall i :: 0 <= i < |a| ==> IsDigit(a[i]);
      assert forall i :: 0 <= i < |b| ==> IsDigit(b[i]);
      assert forall i :: 0 <= i < |c| ==> IsDigit(c[i]);
    }
    var t := s + ['-'] + rest;
    assert t == a + ['-'] + (b + ['-'] + (c + ['-'] + rest));
    SplitAfterField(a, '-', b + ['-'] + (c + ['-'] + rest));
    SplitAfterField(b, '-', c + ['-'] + rest);
    SplitAfterField(c, '-', rest);
  }

  /** Formatting a parsed well-formed string reproduces it. */
  lemma FormatParse(s: string)
    requires IsIsoShape(s) && ParseDate(s).Ok?
    ensures IsoFormat(ParseDate(s).value) == s
  {
    IsoFields(s);
    PadOfValue(s[..4]);
    PadOfValue(s[5..7]);
    PadOfValue(s[8..]);
  }

  /** Parsing a formatted valid date gives the date back. */
  lemma ParseFormat(d: Date)
    requires IsValid(d)
    ensures IsIsoShape(IsoFormat(d))
    ensures ParseDate(IsoFormat(d)) == Ok(d)
  {
    var s := IsoFormat(d);
    IsoFormatFields(d);
    ParseIsoShape(s);
    assert FitsCInt(d.year) && FitsCInt(d.month) && FitsCInt(d.day);
    assert MakeDate(d.year, d.month, d.day) == Ok(d);
  }

  /** The three numerals of a formatted valid date read back as its fields. */
  lemma IsoFormatFields(d: Date)
    requires IsValid(d)
    ensures IsIsoShape(IsoFormat(d))
    ensures Value(IsoFormat(d)[..4]) == d.year
    ensures Value(IsoFormat(d)[5..7]) == d.month
    ensures Value(IsoFormat(d)[8..]) == d.day
  {
    var s := IsoFormat(d);
    assert s[..4] == Pad(d.year as nat, 4);
    assert s[5..7] == Pad(d.month as nat, 2);
    assert s[8..] == Pad(d.day as nat, 2);
    ValueOfPad(d.year as nat, 4);
    ValueOfPad(d.month as nat, 2);
    ValueOfPad(d.day as nat, 2);
  }

  /** String order of ISO texts is chronological order: what the `>=` and
      `<=` filters on the date column rely on. */
  lemma IsoOrder(a: Date, b: Date)
    requires IsValid(a) && IsValid(b)
    ensures LexLe(IsoFormat(a), IsoFormat(b)) <==> ToOrdinal(a) <= ToOrdinal(b)
  {
    IsoTextOrder(a, b);
    OrdinalOrder(a, b);
  }

  /** The ISO text compares as the (year, month, day) triple does. */
  lemma IsoTextOrder(a: Date, b: Date)
    requires IsValid(a) && IsValid(b)
    ensures LexLe(IsoFormat(a), IsoFormat(b)) <==> NotAfter(a, b)
  {
    var ya, ma, da := Pad(a.year as nat, 4), Pad(a.month as nat, 2), Pad(a.day as nat, 2);
    var yb, mb, db := Pad(b.year as nat, 4), Pad(b.month as nat, 2), Pad(b.day as nat, 2);
    PadOrder(a.year as nat, b.year as nat, 4);
    PadOrder(a.month as nat, b.month as nat, 2);
    PadOrder(a.day as nat, b.day as nat, 2);
    var ta, tb := "-" + da, "-" + db;
    var sa, sb := ma + ta, mb + tb;
    var ra, rb := "-" + sa, "-" + sb;
    LexLeAppend("-", da, "-", db);
    var dayLe := LexLe(ta, tb);
    assert dayLe <==> a.day <= b.day;
    LexLeAppend(ma, ta, mb, tb);
    assert LexLe(sa, sb) <==> a.month < b.month || (a.month == b.month && dayLe);
    LexLeAppend("-", sa, "-", sb);
    assert LexLe(ra, rb) <==> LexLe(sa, sb);
    LexLeAppend(ya, ra, yb, rb);
    assert IsoFormat(a) == ya + ra && IsoFormat(b) == yb + rb;
  }

  /** The same for well-formed strings that name valid dates. */
  lemma IsoStringOrder(s: string, t: string)
    requires IsIsoShape(s) && ParseDate(s).Ok?
    requires IsIsoShape(t) && ParseDate(t).Ok?
    ensures LexLe(s, t) <==> ToOrdinal(ParseDate(s).value) <= ToOrdinal(ParseDate(t).value)
  {
    FormatParse(s);
    FormatParse(t);
    IsoOrder(ParseDate(s).value, ParseDate(t).value);
  }

  /** Day numbers of valid dates lie in 1..MaxOrdinal, and only those of
      year 1 are at most 365. */
  lemma OrdinalRange(d: Date)
    requires IsValid(d)
    ensures 1 <= ToOrdinal(d) <= MaxOrdinal
    ensures ToOrdinal(d) > WindowDays <==> d.year > MinYear
  {
    FromToOrdinal(d);
    DayOfYearBounds(d);
    if d.year > MinYear {
      DaysBeforeYearMonotone(MinYear + 1, d.year);
    }
  }

  /** The date written in `d` lies in the trailing window ending on the
      date written in `latest`: at most 365 days before it and not after. */
  predicate InTrailingWindow(d: string, latest: string)
  {
    && ParseDate(d).Ok? && ParseDate(latest).Ok?
    && ToOrdinal(ParseDate(latest).value) - WindowDays <= ToOrdinal(ParseDate(d).value)
    && ToOrdinal(ParseDate(d).value) <= ToOrdinal(ParseDate(latest).value)
  }

  /** Lines 69 and 140: the start of the trailing window ending on the
      date written in `recent`, 365 calendar days earlier. */
  function WindowStart(recent: string): (r: Result<Date>)
    ensures r.Ok? ==> ParseDate(recent).Ok? && IsValid(r.value)
    ensures r.Ok? ==> ToOrdinal(r.value) == ToOrdinal(ParseDate(recent).value) - WindowDays
    ensures ParseDate(recent).Err? ==> r == ParseDate(recent)
    ensures ParseDate(recent).Ok? ==> (r.Ok? <==> ParseDate(recent).value.year > MinYear)
    ensures r.Err? && ParseDate(recent).Ok? ==> r.fault == OutOfRange
  {
    match ParseDate(recent)
    case Err(f) => Err(f)
    case Ok(d) =>
      OrdinalRange(d);
      SubtractDays(d, WindowDays)
  }
}
