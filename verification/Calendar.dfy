/** The proleptic Gregorian calendar, and the day number the host computes from a date. */
module Calendar {

  datatype Date = Date(year: int, month: int, day: int)

  predicate Leap(y: int) { y % 4 == 0 && (y % 100 != 0 || y % 400 == 0) }

  function MonthLength(y: int, m: int): (n: int)
    ensures 28 <= n <= 31
  {
    if m == 2 then (if Leap(y) then 29 else 28)
    else if m in {4, 6, 9, 11} then 30
    else 31
  }

  predicate Valid(d: Date) { 1 <= d.month <= 12 && 1 <= d.day <= MonthLength(d.year, d.month) }

  const EPOCH := Date(1970, 1, 1)

  /** The day after, by the rules of the calendar. */
  function Next(d: Date): (r: Date)
    requires Valid(d)
    ensures Valid(r)
  {
    if d.day < MonthLength(d.year, d.month) then d.(day := d.day + 1)
    else if d.month < 12 then Date(d.year, d.month + 1, 1)
    else Date(d.year + 1, 1, 1)
  }

  function Prev(d: Date): (r: Date)
    requires Valid(d)
    ensures Valid(r) && Next(r) == d
  {
    if d.day > 1 then d.(day := d.day - 1)
    else if d.month > 1 then Date(d.year, d.month - 1, MonthLength(d.year, d.month - 1))
    else Date(d.year - 1, 12, 31)
  }

  function Advance(d: Date, n: nat): (r: Date)
    requires Valid(d)
    ensures Valid(r)
  { if n == 0 then d else Next(Advance(d, n - 1)) }

  /** Calendar order. */
  predicate Before(a: Date, b: Date) {
    a.year < b.year ||
    (a.year == b.year && (a.month < b.month || (a.month == b.month && a.day < b.day)))
  }

  /** The host's formula: eras of 400 years, years starting in March. */
  function DaysFromCivil(d: Date): int {
    var y := if d.month <= 2 then d.year - 1 else d.year;
    var era := y / 400;
    var yoe := y - era * 400;
    var mp := (d.month + 9) % 12;
    var doy := (153 * mp + 2) / 5 + d.day - 1;
    var doe := yoe * 365 + yoe / 4 - yoe / 100 + doy;
    era * 146097 + doe - 719468
  }

  /** Days before 1 March of year y, counted without eras. */
  function MarchStart(y: int): int { 365 * y + y / 4 - y / 100 + y / 400 - 719468 }

  /** Days from 1 March to the first of month m, as a table. */
  function MonthStart(m: int): int {
    if m == 1 then 306 else if m == 2 then 337 else if m == 3 then 0 else if m == 4 then 31
    else if m == 5 then 61 else if m == 6 then 92 else if m == 7 then 122 else if m == 8 then 153
    else if m == 9 then 184 else if m == 10 then 214 else if m == 11 then 245 else 275
  }

  lemma MonthTable(m: int)
    requires 1 <= m <= 12
    ensures (153 * ((m + 9) % 12) + 2) / 5 == MonthStart(m)
  {
    if m <= 2 { assert (m + 9) % 12 == m + 9; } else { assert (m + 9) % 12 == m - 3; }
  }

  lemma EraFree(d: Date)
    requires Valid(d)
    ensures DaysFromCivil(d) ==
            MarchStart(if d.month <= 2 then d.year - 1 else d.year) + MonthStart(d.month) + d.day - 1
  {
    MonthTable(d.month);
    var y := if d.month <= 2 then d.year - 1 else d.year;
    var era := y / 400;
    var yoe := y - era * 400;
    assert y == 400 * era + yoe && 0 <= yoe < 400;
    assert y / 4 == 100 * era + yoe / 4;
    assert y / 100 == 4 * era + yoe / 100;
  }

  lemma MarchStep(y: int)
    ensures MarchStart(y) - MarchStart(y - 1) == if Leap(y) then 366 else 365
  {
    assert y / 4 - (y - 1) / 4 == if y % 4 == 0 then 1 else 0;
    assert y / 100 - (y - 1) / 100 == if y % 100 == 0 then 1 else 0;
    assert y / 400 - (y - 1) / 400 == if y % 400 == 0 then 1 else 0;
  }

  /** One calendar day is one unit, across month ends, leap days, centuries and eras. */
  lemma NextIsOneMore(d: Date)
    requires Valid(d)
    ensures DaysFromCivil(Next(d)) == DaysFromCivil(d) + 1
  {
    hide DaysFromCivil;
    EraFree(d);
    EraFree(Next(d));
    MarchStep(d.year);
  }

  lemma {:induction false} AdvanceCounts(d: Date, n: nat)
    requires Valid(d)
    ensures DaysFromCivil(Advance(d, n)) == DaysFromCivil(d) + n
  {
    hide DaysFromCivil;
    if n > 0 {
      AdvanceCounts(d, n - 1);
      NextIsOneMore(Advance(d, n - 1));
    }
  }

  /** Offset of a date inside its civil year, counted from 1 January. */
  function YearOffset(d: Date): int
    requires Valid(d)
  {
    (if d.month <= 2 then 31 * (d.month - 1)
     else MonthStart(d.month) + (if Leap(d.year) then 60 else 59)) + d.day - 1
  }

  lemma FromYearStart(d: Date)
    requires Valid(d)
    ensures DaysFromCivil(d) == DaysFromCivil(Date(d.year, 1, 1)) + YearOffset(d)
    ensures 0 <= YearOffset(d) < (if Leap(d.year) then 366 else 365)
  {
    hide DaysFromCivil;
    EraFree(d);
    EraFree(Date(d.year, 1, 1));
    MarchStep(d.year);
  }

  lemma YearStarts(a: int, b: int)
    requires a < b
    ensures DaysFromCivil(Date(a, 1, 1)) + (if Leap(a) then 366 else 365) <= DaysFromCivil(Date(b, 1, 1))
  {
    hide DaysFromCivil;
    EraFree(Date(a, 1, 1));
    EraFree(Date(a + 1, 1, 1));
    EraFree(Date(b, 1, 1));
    MarchStep(a);
  }

  lemma MonthEnds(d: Date, m: int)
    requires Valid(d) && d.month < m <= 12
    ensures YearOffset(d) < YearOffset(Date(d.year, m, 1))
  {
  }

  lemma EarlierIsSmaller(a: Date, b: Date)
    requires Valid(a) && Valid(b) && Before(a, b)
    ensures DaysFromCivil(a) < DaysFromCivil(b)
  {
    hide DaysFromCivil;
    FromYearStart(a);
    FromYearStart(b);
    if a.year < b.year {
      YearStarts(a.year, b.year);
    } else if a.month < b.month {
      MonthEnds(a, b.month);
    }
  }

  /** The day number orders dates exactly as the calendar does. */
  lemma OrderAgrees(a: Date, b: Date)
    requires Valid(a) && Valid(b)
    ensures DaysFromCivil(a) < DaysFromCivil(b) <==> Before(a, b)
    ensures DaysFromCivil(a) == DaysFromCivil(b) <==> a == b
  {
    hide DaysFromCivil;
    if Before(a, b) { EarlierIsSmaller(a, b); }
    else if Before(b, a) { EarlierIsSmaller(b, a); }
    else { assert a == b; }
  }

  /** The date with a given day number, found by counting from the epoch. */
  function DateOfDay(n: int): (d: Date)
    ensures Valid(d) && DaysFromCivil(d) == n
    decreases if n < 0 then -n else n
  {
    if n == 0 then EPOCH
    else if n > 0 then (var p := DateOfDay(n - 1); NextIsOneMore(p); Next(p))
    else (var q := DateOfDay(n + 1); NextIsOneMore(Prev(q)); Prev(q))
  }

  /**
   * The day number counts real days: the epoch is day 0, and of two dates the later one is
   * reached from the earlier by exactly as many calendar days as their numbers differ.
   */
  lemma CountsRealDays(a: Date, b: Date)
    requires Valid(a) && Valid(b) && !Before(b, a)
    ensures DaysFromCivil(EPOCH) == 0
    ensures DaysFromCivil(a) <= DaysFromCivil(b)
    ensures Advance(a, DaysFromCivil(b) - DaysFromCivil(a)) == b
  {
    assert DaysFromCivil(EPOCH) == 0;
    hide DaysFromCivil;
    OrderAgrees(a, b);
    OrderAgrees(b, a);
    var n := DaysFromCivil(b) - DaysFromCivil(a);
    AdvanceCounts(a, n);
    OrderAgrees(Advance(a, n), b);
  }
}
