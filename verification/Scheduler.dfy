/** Pack scheduling: close dates, quiet periods, and how dismissals hold a suggestion back. */
module Scheduler {
  import opened Text
  import opened Calendar

  // ---- JavaScript dates ----

  /** `Date.UTC` reads years 0 to 99 as 1900 to 1999. */
  function JsYear(y: int): int { if 0 <= y <= 99 then 1900 + y else y }

  /** Day number of `Date.UTC(y, month, d)`, months from 0, overflow carried over. */
  function JsDay(y: int, month: int, d: int): int {
    DaysFromCivil(Date(JsYear(y) + month / 12, month % 12 + 1, 1)) + d - 1
  }

  function DaysInMonth(y: int, m: int): int { DateOfDay(JsDay(y, m, 0)).day }

  function DaysBetween(from: Date, to: Date): int {
    JsDay(to.year, to.month - 1, to.day) - JsDay(from.year, from.month - 1, from.day)
  }

  lemma DaysInMonthIs(y: int, m: int)
    requires 1 <= m <= 12
    ensures DaysInMonth(y, m) == MonthLength(JsYear(y), m)
  {
    hide DaysFromCivil, DateOfDay;
    var end := Date(JsYear(y), m, MonthLength(JsYear(y), m));
    NextIsOneMore(end);
    assert Next(end) == Date(JsYear(y) + m / 12, m % 12 + 1, 1);
    OrderAgrees(DateOfDay(JsDay(y, m, 0)), end);
  }

  lemma JsDayIs(d: Date)
    requires 1 <= d.month <= 12
    ensures JsDay(d.year, d.month - 1, d.day) == DaysFromCivil(d.(year := JsYear(d.year)))
  {
  }

  // ---- close dates ----

  datatype FiscalCalendar = FiscalCalendar(closeStartDay: int)

  function Min(a: int, b: int): int { if a <= b then a else b }

  function Clamp(year: int, month: int, cal: FiscalCalendar): Date {
    Date(year, month, Min(cal.closeStartDay, DaysInMonth(year, month)))
  }

  function NextCloseStart(from: Date, cal: FiscalCalendar): Date {
    var thisMonth := Clamp(from.year, from.month, cal);
    if DaysBetween(from, thisMonth) >= 0 then thisMonth
    else if from.month == 12 then Clamp(from.year + 1, 1, cal)
    else Clamp(from.year, from.month + 1, cal)
  }

  /** A close opens on this date: the close day, or the month's last day when it is shorter. */
  predicate IsCloseDate(d: Date, cal: FiscalCalendar) {
    Valid(d) && d.day == Min(cal.closeStartDay, MonthLength(d.year, d.month))
  }

  /** The earliest close date on or after `from`. */
  ghost predicate IsNextClose(r: Date, from: Date, cal: FiscalCalendar) {
    IsCloseDate(r, cal) && !Before(r, from) &&
    forall c :: IsCloseDate(c, cal) && !Before(c, from) ==> !Before(c, r)
  }

  lemma ClampIs(year: int, month: int, cal: FiscalCalendar)
    requires 1 <= month <= 12 && cal.closeStartDay >= 1
    ensures IsCloseDate(Clamp(year, month, cal), cal) <==> !(year == 0 && month == 2 && cal.closeStartDay > 28)
  {
    hide DaysFromCivil, DateOfDay;
    DaysInMonthIs(year, month);
  }

  /** In calendar terms the branch is taken on the day of the month alone. */
  lemma BranchIs(from: Date, cal: FiscalCalendar)
    requires Valid(from) && cal.closeStartDay >= 1
    ensures DaysBetween(from, Clamp(from.year, from.month, cal)) >= 0 <==> from.day <= Clamp(from.year, from.month, cal).day
  {
    hide DaysFromCivil, DateOfDay;
    JsDayIs(from);
    JsDayIs(Clamp(from.year, from.month, cal));
  }

  /** The scheduler returns the earliest close date on or after the given one, across month and
      year ends, for every valid date, save where it must read February of the year 0, which
      it takes for February 1900. */
  lemma NextCloseIsEarliest(from: Date, cal: FiscalCalendar)
    requires Valid(from) && cal.closeStartDay >= 1
    ensures IsNextClose(NextCloseStart(from, cal), from, cal) <==>
            !(cal.closeStartDay > 28 && from.year == 0 && (from.month == 2 || (from.month == 1 && from.day > cal.closeStartDay)))
  {
    hide DaysFromCivil, DateOfDay;
    var r := NextCloseStart(from, cal);
    BranchIs(from, cal);
    ClampIs(from.year, from.month, cal);
    ClampIs(r.year, r.month, cal);
    DaysInMonthIs(from.year, from.month);
    if IsCloseDate(r, cal) && (from.year != 0 || from.month != 2 || cal.closeStartDay <= 28) {
      forall c | IsCloseDate(c, cal) && !Before(c, from) ensures !Before(c, r) {
        if c.year == from.year && c.month == from.month { }
      }
    }
    if from.year == 0 && from.month == 2 && cal.closeStartDay > 28 {
      assert IsCloseDate(Date(0, 2, 29), cal);
    }
  }

  // ---- quiet periods ----

  function YearString(y: int): string { if y < 0 then "-" + Decimal(-y) else Decimal(y) }

  /** `toIsoDate`: month and day padded, the year not. */
  function ToIsoDate(d: Date): string
    requires d.month >= 0 && d.day >= 0
  { YearString(d.year) + "-" + Padded(d.month, 2) + "-" + Padded(d.day, 2) }

  /** A date in the four-digit form that periods are written in. */
  function Iso(d: Date): string
    requires d.year >= 0 && d.month >= 0 && d.day >= 0
  { Padded(d.year, 4) + ("-" + Padded(d.month, 2) + ("-" + Padded(d.day, 2))) }

  predicate IsoShaped(s: string) {
    |s| == 10 && s[4] == '-' && s[7] == '-' && AllDigits(s[..4]) && AllDigits(s[5..7]) && AllDigits(s[8..])
  }

  function IsoFields(s: string): Date
    requires IsoShaped(s)
  { Date(DigitsValue(s[..4]), DigitsValue(s[5..7]), DigitsValue(s[8..])) }

  predicate IsIsoDate(s: string) {
    IsoShaped(s) &&
    var d := IsoFields(s);
    1 <= d.month <= 12 && 1 <= d.day <= DaysInMonth(d.year, d.month)
  }

  datatype QuietPeriod = QuietPeriod(start: string, end: string)

  predicate AtMost(a: string, b: string) { a == b || Less(a, b) }

  predicate Covers(p: QuietPeriod, iso: string) {
    IsIsoDate(p.start) && IsIsoDate(p.end) && AtMost(p.start, p.end) && AtMost(p.start, iso) && AtMost(iso, p.end)
  }

  /** The same test made on calendar dates instead of strings. */
  predicate CoversDate(p: QuietPeriod, d: Date) {
    IsIsoDate(p.start) && IsIsoDate(p.end) &&
    !Before(IsoFields(p.end), IsoFields(p.start)) &&
    !Before(d, IsoFields(p.start)) && !Before(IsoFields(p.end), d)
  }

  lemma {:induction false} DigitsBelow(s: string)
    requires AllDigits(s)
    ensures DigitsValue(s) < Pow10(|s|)
    ensures Padded(DigitsValue(s), |s|) == s
  {
    if s != "" { DigitsBelow(s[..|s| - 1]); }
  }

  lemma PowersOfTen()
    ensures Pow10(2) == 100 && Pow10(4) == 10000
  {
    assert Pow10(3) == 10 * Pow10(2);
  }

  /** The string of an ISO-shaped date is determined by its fields. */
  lemma IsoOf(s: string)
    requires IsoShaped(s)
    ensures Iso(IsoFields(s)) == s
  {
    hide Padded, DigitsValue;
    DigitsBelow(s[..4]); DigitsBelow(s[5..7]); DigitsBelow(s[8..]);
    assert s == s[..4] + ("-" + s[5..7] + ("-" + s[8..]));
  }

  lemma FieldsOf(d: Date)
    requires 0 <= d.year < 10000 && 0 <= d.month < 100 && 0 <= d.day < 100
    ensures IsoShaped(Iso(d)) && IsoFields(Iso(d)) == d
  {
    hide Padded, DigitsValue, Pow10;
    PowersOfTen();
    PaddedValue(d.year, 4); PaddedValue(d.month, 2); PaddedValue(d.day, 2);
    var s := Iso(d);
    assert s[..4] == Padded(d.year, 4) && s[5..7] == Padded(d.month, 2) && s[8..] == Padded(d.day, 2);
  }

  /** String order of four-digit ISO dates is calendar order. */
  lemma IsoOrder(a: Date, b: Date)
    requires 0 <= a.year < 10000 && 0 <= a.month < 100 && 0 <= a.day < 100
    requires 0 <= b.year < 10000 && 0 <= b.month < 100 && 0 <= b.day < 100
    ensures Less(Iso(a), Iso(b)) <==> Before(a, b)
    ensures Iso(a) == Iso(b) <==> a == b
  {
    hide Padded, DigitsValue, Pow10, Less;
    PowersOfTen();
    FieldsOf(a); FieldsOf(b);
    var (ya, yb) := (Padded(a.year, 4), Padded(b.year, 4));
    var (ma, mb) := (Padded(a.month, 2), Padded(b.month, 2));
    var (da, db) := (Padded(a.day, 2), Padded(b.day, 2));
    PaddedOrder(a.year, b.year, 4); PaddedOrder(a.month, b.month, 2); PaddedOrder(a.day, b.day, 2);
    PaddedValue(a.year, 4); PaddedValue(b.year, 4); PaddedValue(a.month, 2); PaddedValue(b.month, 2);
    if ya == yb {
      LessPrefix(ya, "-" + ma + ("-" + da), "-" + mb + ("-" + db));
      MonthDayOrder(ma, mb, da, db);
    } else {
      LessHead(ya, yb, "-" + ma + ("-" + da), "-" + mb + ("-" + db));
    }
  }

  lemma MonthDayOrder(ma: string, mb: string, da: string, db: string)
    requires |ma| == |mb|
    ensures Less("-" + ma + ("-" + da), "-" + mb + ("-" + db)) <==> if ma == mb then Less(da, db) else Less(ma, mb)
  {
    hide Less;
    if ma == mb {
      assert "-" + ma + ("-" + da) == ("-" + ma + "-") + da;
      assert "-" + mb + ("-" + db) == ("-" + ma + "-") + db;
      LessPrefix("-" + ma + "-", da, db);
    } else {
      assert ("-" + ma)[1..] == ma && ("-" + mb)[1..] == mb;
      LessHead("-" + ma, "-" + mb, "-" + da, "-" + db);
      LessPrefix("-", ma, mb);
    }
  }

  lemma FourDigitYear(y: nat)
    requires 1000 <= y < 10000
    ensures Decimal(y) == Padded(y, 4)
  {
    assert Decimal(y / 10) == Decimal(y / 100) + [DigitChar(y / 10 % 10)];
    assert Decimal(y / 100) == Decimal(y / 1000) + [DigitChar(y / 100 % 10)];
    assert Padded(y / 1000, 1) == [DigitChar(y / 1000)] by { assert Padded(0, 0) == ""; }
  }

  /** For four-digit years the string test agrees with the calendar test. */
  lemma QuietTestIsCalendarTest(p: QuietPeriod, d: Date)
    requires Valid(d) && 1000 <= d.year < 10000
    ensures Covers(p, ToIsoDate(d)) <==> CoversDate(p, d)
  {
    hide Less, DaysInMonth, Padded, DigitsValue, Decimal;
    if IsIsoDate(p.start) && IsIsoDate(p.end) {
      FourDigitYear(d.year);
      assert ToIsoDate(d) == Iso(d);
      FieldsInRange(p.start);
      FieldsInRange(p.end);
      var (s, e) := (IsoFields(p.start), IsoFields(p.end));
      IsoOrder(s, e); IsoOrder(s, d); IsoOrder(d, e);
    }
  }

  lemma FieldsInRange(s: string)
    requires IsoShaped(s)
    ensures Iso(IsoFields(s)) == s
    ensures var d := IsoFields(s); 0 <= d.year < 10000 && 0 <= d.month < 100 && 0 <= d.day < 100
  {
    hide DigitsValue, Padded;
    IsoOf(s);
    DigitsBelow(s[..4]); DigitsBelow(s[5..7]); DigitsBelow(s[8..]);
    PowersOfTen();
  }

  lemma IsIso(d: Date)
    requires 0 <= d.year < 10000 && (d.month == 1 || d.month == 12) && 1 <= d.day <= 31
    ensures IsIsoDate(Iso(d)) && IsoFields(Iso(d)) == d
  {
    hide Iso, IsoFields, DaysInMonth;
    FieldsOf(d);
    DaysInMonthIs(d.year, d.month);
  }

  /** The number the first four digits of a year's numeral denote. */
  function Lead(y: nat): (a: nat)
    requires y >= 1000
    ensures 1000 <= a < 10000
  { if y < 10000 then y else Lead(y / 10) }

  lemma {:induction false} LeadDigits(y: nat)
    requires y >= 1000
    ensures |Decimal(y)| >= 4 && Decimal(y)[..4] == Padded(Lead(y), 4)
    ensures |Decimal(y)| >= 5 <==> y >= 10000
  {
    if y < 10000 {
      FourDigitYear(y);
    } else {
      LeadDigits(y / 10);
      assert Decimal(y)[..4] == Decimal(y / 10)[..4];
    }
  }

  lemma {:induction false} FirstDigit(y: nat)
    requires y > 0
    ensures Decimal(y)[0] != '0'
  {
    if y >= 10 { FirstDigit(y / 10); }
  }

  lemma PaddedFirst(y: nat)
    requires y < 1000
    ensures Padded(y, 4)[0] == '0'
  {
    assert Padded(y / 10 / 10 / 10, 1) == [DigitChar(0)];
    assert Padded(y / 10 / 10, 2)[0] == '0';
    assert Padded(y / 10, 3)[0] == '0';
  }

  /** A year before 0 is written with a sign, which sorts below every digit. */
  lemma SignedYearsAgree(p: QuietPeriod, d: Date)
    requires Valid(d) && d.year < 0
    ensures !Covers(p, ToIsoDate(d)) && !CoversDate(p, d)
  {
    hide Decimal, Padded, DaysInMonth, DigitsValue;
    assert ToIsoDate(d)[0] == '-';
    if IsIsoDate(p.start) { assert IsDigit(p.start[..4][0]); }
  }

  /** A longer year beginning 9999 sorts above every date of four-digit years. */
  lemma FarthestYearsAgree(p: QuietPeriod, d: Date)
    requires Valid(d) && d.year >= 10000 && Lead(d.year) == 9999
    ensures !Covers(p, ToIsoDate(d)) && !CoversDate(p, d)
  {
    hide Decimal, Padded, DaysInMonth, DigitsValue, Less, Lead;
    LeadDigits(d.year);
    if IsIsoDate(p.end) {
      FieldsInRange(p.end);
      LessLonger(p.end, ToIsoDate(d), 9999);
      LessTotal(p.end, ToIsoDate(d));
    }
  }

  /** A four-digit date of year a or before sorts below a longer numeral that begins with a. */
  lemma LessLonger(e: string, far: string, a: nat)
    requires IsoShaped(e) && IsoFields(e).year <= a < 10000
    requires |far| > 4 && far[..4] == Padded(a, 4) && IsDigit(far[4])
    ensures Less(e, far)
  {
    hide Padded, DigitsValue, Less;
    PowersOfTen();
    DigitsBelow(e[..4]);
    assert e == e[..4] + e[4..] && far == far[..4] + far[4..];
    PaddedOrder(DigitsValue(e[..4]), a, 4);
    if e[..4] == far[..4] {
      LessPrefix(far[..4], e[4..], far[4..]);
      DashBelow(e[4..], far[4..]);
    } else {
      LessHead(e[..4], far[..4], e[4..], far[4..]);
      SamePadded(DigitsValue(e[..4]), a);
    }
  }

  lemma DashBelow(s: string, t: string)
    requires s != "" && t != "" && s[0] == '-' && IsDigit(t[0])
    ensures Less(s, t)
  {
  }

  lemma SamePadded(a: nat, b: nat)
    requires a < 10000 && b < 10000
    ensures Padded(a, 4) == Padded(b, 4) <==> a == b
  {
    hide Padded, DigitsValue;
    PowersOfTen();
    PaddedValue(a, 4);
    PaddedValue(b, 4);
  }

  function WholeYear(y: nat): QuietPeriod
  { QuietPeriod(Iso(Date(y, 1, 1)), Iso(Date(y, 12, 31))) }

  /** Years are not padded, so every day of a year below 1000 misses a period that covers that
      whole year. */
  lemma ShortYearsMissTheirPeriod(d: Date)
    requires Valid(d) && 0 <= d.year < 1000
    ensures CoversDate(WholeYear(d.year), d) && !Covers(WholeYear(d.year), ToIsoDate(d))
  {
    hide Padded, DigitsValue, Decimal, IsIsoDate, IsoFields;
    IsIso(Date(d.year, 1, 1));
    IsIso(Date(d.year, 12, 31));
    PaddedFirst(d.year);
    if d.year > 0 { FirstDigit(d.year); }
    else { YearZero(d); }
  }

  lemma YearZero(d: Date)
    requires Valid(d) && d.year == 0
    ensures ToIsoDate(d)[..2] == "0-" && Iso(Date(0, 1, 1))[..2] == "00"
    ensures !AtMost(Iso(Date(0, 1, 1)), ToIsoDate(d))
  {
    assert Decimal(0) == "0";
    var (s, iso) := (Iso(Date(0, 1, 1)), ToIsoDate(d));
    assert Padded(0, 2) == Padded(0, 1) + [DigitChar(0)] && Padded(0, 3) == Padded(0, 2) + [DigitChar(0)] && Padded(0, 4) == Padded(0, 3) + [DigitChar(0)];
    assert Padded(0, 1) == [DigitChar(0)];
    hide Padded;
    assert s[0] == '0' && s[1] == '0' && iso[0] == '0' && iso[1] == '-';
    assert s[1..][0] == '0' && iso[1..][0] == '-';
    assert !Less(s[1..], iso[1..]);
    assert s != iso by { assert s[1] != iso[1]; }
  }

  function YearAfter(a: nat): QuietPeriod
  { QuietPeriod(Iso(Date(a, 1, 1)), Iso(Date(a + 1, 1, 1))) }

  /** And a longer year whose numeral begins with a, for any a below 9999, falls inside a period
      that ended on the first day of the year a + 1. */
  lemma FarYearsHitOldPeriods(d: Date)
    requires Valid(d) && d.year >= 10000 && Lead(d.year) < 9999
    ensures Covers(YearAfter(Lead(d.year)), ToIsoDate(d)) && !CoversDate(YearAfter(Lead(d.year)), d)
  {
    hide Padded, DigitsValue, Decimal, IsIsoDate, Iso, Less, Lead;
    var a := Lead(d.year);
    var (s, e) := (Date(a, 1, 1), Date(a + 1, 1, 1));
    IsIso(s);
    IsIso(e);
    LeadDigits(d.year);
    var far := ToIsoDate(d);
    IsShaped(s);
    IsShaped(e);
    LessLonger(Iso(s), far, a);
    LessEarlier(far, Iso(e), a);
    IsoOrder(s, e);
  }

  lemma IsShaped(d: Date)
    requires 0 <= d.year < 10000 && 0 <= d.month < 100 && 0 <= d.day < 100
    ensures IsoShaped(Iso(d)) && IsoFields(Iso(d)) == d && |Iso(d)| == 10 && Iso(d)[..4] == Padded(d.year, 4)
  {
    hide Padded, DigitsValue;
    FieldsOf(d);
  }

  lemma LessEarlier(far: string, e: string, a: nat)
    requires a < 9999 && |far| > 4 && far[..4] == Padded(a, 4) && |e| == 10 && e[..4] == Padded(a + 1, 4)
    ensures Less(far, e)
  {
    hide Padded, Less;
    PowersOfTen();
    SamePadded(a, a + 1);
    PaddedOrder(a, a + 1, 4);
    assert e == e[..4] + e[4..] && far == far[..4] + far[4..];
    LessHead(far[..4], e[..4], far[4..], e[4..]);
  }

  /** The string test in the code is the calendar test, for every period, exactly for days of years
      before 0, of four-digit years, and of longer years whose numeral begins with 9999. */
  lemma QuietTestExactly(d: Date)
    requires Valid(d)
    ensures (forall p :: Covers(p, ToIsoDate(d)) <==> CoversDate(p, d)) <==>
            d.year < 0 || 1000 <= d.year < 10000 || (|YearString(d.year)| >= 5 && YearString(d.year)[..4] == "9999")
  {
    hide Covers, CoversDate, ToIsoDate, Lead, Decimal, Padded, WholeYear, YearAfter;
    if d.year < 0 {
      forall p ensures Covers(p, ToIsoDate(d)) <==> CoversDate(p, d) { SignedYearsAgree(p, d); }
    } else if d.year < 1000 {
      ShortYearsMissTheirPeriod(d);
      ShortNumeral(d.year);
    } else {
      LeadDigits(d.year);
      NinesExactly(Lead(d.year));
      if d.year < 10000 {
        forall p ensures Covers(p, ToIsoDate(d)) <==> CoversDate(p, d) { QuietTestIsCalendarTest(p, d); }
      } else if Lead(d.year) == 9999 {
        forall p ensures Covers(p, ToIsoDate(d)) <==> CoversDate(p, d) { FarthestYearsAgree(p, d); }
      } else {
        FarYearsHitOldPeriods(d);
      }
    }
  }

  lemma ShortNumeral(y: nat)
    requires y < 1000
    ensures |Decimal(y)| < 5
  {
    assert y >= 10 ==> |Decimal(y)| == |Decimal(y / 10)| + 1;
    assert y >= 100 ==> |Decimal(y / 10)| == |Decimal(y / 10 / 10)| + 1;
  }

  lemma NinesExactly(a: nat)
    requires a < 10000
    ensures Padded(a, 4) == "9999" <==> a == 9999
  {
    assert Padded(9, 1) == [DigitChar(9)] && Padded(99, 2) == Padded(9, 1) + [DigitChar(9)];
    assert Padded(999, 3) == Padded(99, 2) + [DigitChar(9)] && Padded(9999, 4) == Padded(999, 3) + [DigitChar(9)];
    SamePadded(a, 9999);
  }

  method ActiveQuietPeriod(date: Date, periods: seq<QuietPeriod>) returns (p: Option<QuietPeriod>)
    requires Valid(date)
    ensures p.None? ==> forall i :: 0 <= i < |periods| ==> !Covers(periods[i], ToIsoDate(date))
    ensures p.Some? ==> exists i :: 0 <= i < |periods| && periods[i] == p.value && Covers(periods[i], ToIsoDate(date)) &&
                                    forall j :: 0 <= j < i ==> !Covers(periods[j], ToIsoDate(date))
  {
    hide Less, IsIsoDate, ToIsoDate;
    var iso := ToIsoDate(date);
    for i := 0 to |periods|
      invariant forall j :: 0 <= j < i ==> !Covers(periods[j], iso)
    {
      var q := periods[i];
      if !IsIsoDate(q.start) || !IsIsoDate(q.end) { continue; }
      if Less(q.end, q.start) {
        LessTotal(q.start, q.end);
        continue;
      }
      LessTotal(q.start, q.end); LessTotal(q.start, iso); LessTotal(iso, q.end);
      if !Less(iso, q.start) && !Less(q.end, iso) { return Some(q); }
    }
    return None;
  }

  /** First ten characters of `toISOString`: years past 9999 are written with a sign. */
  function IsoString10(d: Date): string
    requires d.month >= 0 && d.day >= 0
  {
    if 0 <= d.year < 10000 then Iso(d)
    else ((if d.year < 0 then "-" + Padded(-d.year, 6) else "+" + Padded(d.year, 6)) + "-" + Padded(d.month, 2))[..10]
  }

  function QuietPeriodRelease(p: QuietPeriod): string
    requires IsIsoDate(p.end)
  {
    var d := IsoFields(p.end);
    IsoString10(DateOfDay(JsDay(d.year, d.month - 1, d.day + 1)))
  }

  lemma ReleaseString(p: QuietPeriod)
    requires IsIsoDate(p.end)
    ensures var d := IsoFields(p.end);
            var js := d.(year := JsYear(d.year));
            Valid(js) && QuietPeriodRelease(p) == IsoString10(Next(js))
  {
    hide DaysFromCivil, DateOfDay, IsoFields, IsoString10, DaysInMonth;
    var d := IsoFields(p.end);
    var js := d.(year := JsYear(d.year));
    DaysInMonthIs(d.year, d.month);
    JsDayIs(d);
    NextIsOneMore(js);
    OrderAgrees(DateOfDay(DaysFromCivil(js) + 1), Next(js));
  }

  lemma FourDigits(d: Date)
    requires Valid(d) && 0 <= d.year < 10000
    ensures IsoString10(d) == Iso(d)
  {
  }

  /** The release date is the first day after the period, in the same form, exactly for the
      ends from the year 100 on other than the last four-digit day. */
  lemma ReleaseIsDayAfter(p: QuietPeriod)
    requires IsIsoDate(p.end)
    ensures var d := IsoFields(p.end);
            (Valid(d) && Next(d).year < 10000 && QuietPeriodRelease(p) == Iso(Next(d))) <==>
            (d.year >= 100 && d != Date(9999, 12, 31))
  {
    assert IsoShaped(p.end);
    FieldsInRange(p.end);
    ReleaseString(p);
    ReleaseCases(IsoFields(p.end), QuietPeriodRelease(p));
  }

  lemma ReleaseCases(d: Date, r: string)
    requires 0 <= d.year < 10000 && Valid(d.(year := JsYear(d.year)))
    requires r == IsoString10(Next(d.(year := JsYear(d.year))))
    ensures (Valid(d) && Next(d).year < 10000 && r == Iso(Next(d))) <==> (d.year >= 100 && d != Date(9999, 12, 31))
  {
    hide Iso, IsoString10;
    var js := d.(year := JsYear(d.year));
    var n := Next(js);
    if n.year < 10000 { FourDigits(n); }
    if Valid(d) && d.year < 100 { IsoOrder(n, Next(d)); }
  }
}
