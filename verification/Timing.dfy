/** When a pack workflow is due, by its cadence. */
module Timing {
  import opened Text
  import opened Calendar
  import opened Scheduler

  datatype Cadence = FiscalMonthly | DateDriven | EventDriven | Weekly | Continuous

  /** A domain pack's timing entry for a cadence; the copy text is left out. */
  datatype Rule = Rule(daysBefore: Option<int>, sameWeekday: bool)

  datatype Watch = Watch(watchedObject: string, leadDays: Option<int>)

  datatype Pack = Pack(fiscalCalendar: bool, rule: Option<Rule>, watches: seq<Watch>)

  datatype PreStage = PreStage(daysBeforeClose: Option<int>, daysBeforeRenewal: Option<int>)

  datatype Signal = Signal(watchedObject: Option<string>, watchedDate: Option<string>, observedDow: Option<int>, runsMatched: Option<int>, runsTested: Option<int>)

  datatype Skip = CalendarNotFiscal | NotDue | NoWatchedDate | WrongWeekday | Unverified

  datatype Surface = PreClose | OnTrigger | SameWeekdayObserved | AfterVerification

  datatype Timing = Due(surface: Surface, reference: Option<string>, daysOut: Option<int>) | Skipped(reason: Skip)

  function OrElse(a: Option<int>, b: Option<int>): Option<int> { if a.Some? then a else b }

  function FindWatch(ws: seq<Watch>, name: Option<string>): Option<Watch> {
    if ws == [] then None
    else if name.Some? && ws[0].watchedObject == name.value then Some(ws[0])
    else FindWatch(ws[1..], name)
  }

  /** `getUTCDay` of a day number: the epoch was a Thursday. */
  function Weekday(day: int): int { (day + 4) % 7 }

  /** `timingFor`. */
  function TimingFor(cadence: Cadence, pack: Pack, pre: PreStage, signal: Signal, today: Date, cal: FiscalCalendar): Timing
    requires Valid(today) && cal.closeStartDay >= 1
  {
    match cadence
    case FiscalMonthly =>
      var lead := OrElse(if pack.rule.Some? then pack.rule.value.daysBefore else None, pre.daysBeforeClose);
      if !pack.fiscalCalendar then Skipped(CalendarNotFiscal)
      else if lead.None? then Skipped(NotDue)
      else
        var close := NextCloseStart(today, cal);
        var out := DaysBetween(today, close);
        if out > lead.value then Skipped(NotDue) else Due(PreClose, Some(CloseText(close)), Some(out))
    case Weekly =>
      if pack.rule.None? then Skipped(NotDue)
      else if pack.rule.value.sameWeekday && signal.observedDow.None? then Skipped(NotDue)
      else if pack.rule.value.sameWeekday && Weekday(JsDay(today.year, today.month - 1, today.day)) != signal.observedDow.value
      then Skipped(WrongWeekday)
      else Due(SameWeekdayObserved, Some(ToIsoDate(today)), Some(0))
    case Continuous =>
      if pack.rule.None? then Skipped(NotDue)
      else if signal.runsMatched.None? || signal.runsTested.None? then Skipped(Unverified)
      else Due(AfterVerification, None, None)
    case _ =>
      var watch := FindWatch(pack.watches, signal.watchedObject);
      var lead := OrElse(if watch.Some? then watch.value.leadDays else None, pre.daysBeforeRenewal);
      if signal.watchedDate.None? || !IsIsoDate(signal.watchedDate.value) then Skipped(NoWatchedDate)
      else if lead.None? then Skipped(NotDue)
      else
        var out := DaysBetween(today, IsoFields(signal.watchedDate.value));
        if out > lead.value then Skipped(NotDue) else Due(OnTrigger, signal.watchedDate, Some(out))
  }

  /** The close date as text, where it has one. */
  function CloseText(d: Date): string { if d.month >= 0 && d.day >= 0 then ToIsoDate(d) else "" }

  ghost predicate CloseWithin(today: Date, cal: FiscalCalendar, lead: int) {
    exists c :: IsCloseDate(c, cal) && !Before(c, today) && DaysFromCivil(c) - DaysFromCivil(today) <= lead
  }

  predicate ReadAsLater(d: Date) { 0 <= d.year <= 99 }

  /** How many days late `Date.UTC` places a day: the years 0 to 99 are read as 1900 to 1999, which
      lack the leap day of the year 0. */
  function Shift(d: Date): int {
    if !ReadAsLater(d) then 0 else if d.year == 0 && d.month <= 2 then 693961 else 693960
  }

  lemma DayRead(d: Date)
    requires Valid(d)
    ensures JsDay(d.year, d.month - 1, d.day) == DaysFromCivil(d) + Shift(d)
  {
    JsDayIs(d);
    if ReadAsLater(d) { YearRead(d); } else { assert d.(year := JsYear(d.year)) == d; }
  }

  lemma YearRead(d: Date)
    requires Valid(d) && ReadAsLater(d)
    ensures DaysFromCivil(d.(year := 1900 + d.year)) == DaysFromCivil(d) + Shift(d)
  {
    hide DaysFromCivil, YearDays, DayOfYear;
    var y := if d.month <= 2 then d.year - 1 else d.year;
    DaysSplit(d);
    DaysSplit(d.(year := 1900 + d.year));
    if y >= 0 { YearsApart(y); } else { BeforeYearZero(); }
  }

  /** The part of a day number that its year, counted from March, contributes. */
  function YearDays(y: int): int {
    var yoe := y - y / 400 * 400;
    y / 400 * 146097 + yoe * 365 + yoe / 4 - yoe / 100 - 719468
  }

  function DayOfYear(month: int, day: int): int { (153 * ((month + 9) % 12) + 2) / 5 + day - 1 }

  lemma DaysSplit(d: Date)
    ensures DaysFromCivil(d) == YearDays(if d.month <= 2 then d.year - 1 else d.year) + DayOfYear(d.month, d.day)
  {
  }

  lemma YearsApart(y: int)
    requires 0 <= y <= 99
    ensures YearDays(y + 1900) == YearDays(y) + 693960
  {
    assert (y + 300) / 4 == y / 4 + 75;
  }

  lemma BeforeYearZero()
    ensures YearDays(1899) == YearDays(-1) + 693961
  {
  }

  /** The days computed between two days are the real ones exactly when neither year is read as
      another, or both are and they stand on the same side of the end of February of the year 0. */
  lemma RealDaysExactly(a: Date, b: Date)
    requires Valid(a) && Valid(b)
    ensures DaysBetween(a, b) == DaysFromCivil(b) - DaysFromCivil(a) <==>
            (!ReadAsLater(a) && !ReadAsLater(b))
            || (ReadAsLater(a) && ReadAsLater(b) && ((a.year == 0 && a.month <= 2) <==> (b.year == 0 && b.month <= 2)))
  {
    hide DaysFromCivil, JsDay;
    DayRead(a);
    DayRead(b);
  }

  lemma ShorterMonths(y: int, m: int)
    requires 1 <= m <= 12
    ensures MonthLength(JsYear(y), m) <= MonthLength(y, m)
  {
    if 0 <= y <= 99 && Leap(1900 + y) { assert (1900 + y) % 100 != 0 && y % 100 != 0; }
  }

  /** The close date used is a day of the calendar, whatever the year is read as. */
  lemma CloseValid(today: Date, cal: FiscalCalendar)
    requires Valid(today) && cal.closeStartDay >= 1
    ensures Valid(NextCloseStart(today, cal))
  {
    hide DaysInMonth, DaysBetween, MonthLength, JsYear;
    var close := NextCloseStart(today, cal);
    DaysInMonthIs(close.year, close.month);
    ShorterMonths(close.year, close.month);
  }

  /** The days out until the date, as they are computed. */
  function DaysOut(today: Date, date: Date): int { DaysFromCivil(date) + Shift(date) - DaysFromCivil(today) - Shift(today) }

  /** The next close, in real days. */
  lemma NextCloseDays(today: Date, cal: FiscalCalendar)
    requires Valid(today) && cal.closeStartDay >= 1
    ensures var close := NextCloseStart(today, cal);
      && Valid(close) && DaysBetween(today, close) == DaysOut(today, close)
      && (IsNextClose(close, today, cal) && Shift(close) == Shift(today) ==>
            0 <= DaysOut(today, close) && Advance(today, DaysOut(today, close)) == close
            && forall c :: IsCloseDate(c, cal) && !Before(c, today) ==> DaysFromCivil(close) <= DaysFromCivil(c))
  {
    hide DaysFromCivil, JsDay, Before, Advance, MonthLength, Clamp, DaysInMonth, NextCloseStart, Shift;
    CloseValid(today, cal);
    var close := NextCloseStart(today, cal);
    DayRead(today);
    DayRead(close);
    if IsNextClose(close, today, cal) {
      CountsRealDays(today, close);
      forall c | IsCloseDate(c, cal) && !Before(c, today) ensures DaysFromCivil(close) <= DaysFromCivil(c) { CountsRealDays(close, c); }
    }
  }

  /** A fiscal workflow is due on exactly the days computed to be at most the lead before the close
      date used. Where both are read alike, and that date is the next close, these are exactly the
      days from which some close date is at most the lead ahead, and the days out it shows are the
      real days until the nearest one. */
  lemma FiscalDueExactly(pack: Pack, pre: PreStage, signal: Signal, today: Date, cal: FiscalCalendar)
    requires Valid(today) && cal.closeStartDay >= 1
    ensures var t := TimingFor(FiscalMonthly, pack, pre, signal, today, cal);
      var lead := OrElse(if pack.rule.Some? then pack.rule.value.daysBefore else None, pre.daysBeforeClose);
      var close := NextCloseStart(today, cal);
      && (t.Due? <==> pack.fiscalCalendar && lead.Some? && DaysOut(today, close) <= lead.value)
      && (IsNextClose(close, today, cal) && Shift(close) == Shift(today) ==>
            && (t.Due? <==> pack.fiscalCalendar && lead.Some? && CloseWithin(today, cal, lead.value))
            && (t.Due? ==> 0 <= t.daysOut.value && Advance(today, t.daysOut.value) == close))
  {
    hide DaysFromCivil, NextCloseStart, JsDay, Before, Advance, DaysBetween, CloseText, IsCloseDate, Shift;
    NextCloseDays(today, cal);
  }

  lemma CloseYear(today: Date, cal: FiscalCalendar)
    requires Valid(today)
    ensures NextCloseStart(today, cal).year == today.year || NextCloseStart(today, cal).year == today.year + 1
  {
    hide DaysInMonth, DaysBetween;
  }

  /** From the year 100 on the close date used is the next close, and both days are read as they are. */
  lemma FiscalFromYear100(today: Date, cal: FiscalCalendar)
    requires Valid(today) && cal.closeStartDay >= 1 && today.year >= 100
    ensures var close := NextCloseStart(today, cal); IsNextClose(close, today, cal) && Shift(close) == Shift(today) == 0
  {
    hide NextCloseStart, IsNextClose;
    NextCloseIsEarliest(today, cal);
    CloseYear(today, cal);
  }

  lemma IsoValid(s: string)
    requires IsIsoDate(s)
    ensures Valid(IsoFields(s))
  {
    hide IsoFields, IsoShaped, DaysInMonth, MonthLength;
    var d := IsoFields(s);
    DaysInMonthIs(d.year, d.month);
    ShorterMonths(d.year, d.month);
  }

  /** A watched date makes its workflow due from the lead days before it on, as days are computed, and
      for ever after: a date that has passed is never too late, unless it is read as a later year and
      today is not. */
  lemma WatchedDateDueExactly(cadence: Cadence, pack: Pack, pre: PreStage, signal: Signal, today: Date, cal: FiscalCalendar)
    requires cadence == DateDriven || cadence == EventDriven
    requires Valid(today) && cal.closeStartDay >= 1
    requires signal.watchedDate.Some? && IsIsoDate(signal.watchedDate.value)
    ensures var t := TimingFor(cadence, pack, pre, signal, today, cal);
      var watch := FindWatch(pack.watches, signal.watchedObject);
      var lead := OrElse(if watch.Some? then watch.value.leadDays else None, pre.daysBeforeRenewal);
      var target := IsoFields(signal.watchedDate.value);
      && (t.Due? <==> lead.Some? && DaysOut(today, target) <= lead.value)
      && (lead.Some? && lead.value >= 0 && !Before(today, target) && Shift(target) <= Shift(today) ==> t.Due?)
  {
    hide DaysFromCivil, IsoFields, IsoShaped, JsDay, Before, FindWatch, Shift;
    var target := IsoFields(signal.watchedDate.value);
    IsoValid(signal.watchedDate.value);
    DayRead(today);
    DayRead(target);
    if !Before(today, target) { CountsRealDays(target, today); }
  }

  /** Two days share the weekday test exactly when the days computed between them are whole weeks:
      a whole number of weeks apart, where both years are read as they are. */
  lemma SameWeekday(a: Date, b: Date)
    requires Valid(a) && Valid(b)
    ensures Weekday(JsDay(a.year, a.month - 1, a.day)) == Weekday(JsDay(b.year, b.month - 1, b.day)) <==>
            DaysOut(a, b) % 7 == 0
    ensures Shift(a) == Shift(b) ==> DaysOut(a, b) == DaysFromCivil(b) - DaysFromCivil(a)
  {
    hide DaysFromCivil, JsDay, Shift;
    DayRead(a);
    DayRead(b);
    Weeks(DaysFromCivil(a) + Shift(a), DaysFromCivil(b) + Shift(b));
  }

  lemma Weeks(x: int, y: int)
    ensures Weekday(x) == Weekday(y) <==> (y - x) % 7 == 0
  {
  }

  /** Weekdays count from Sunday, which is 0; the epoch was a Thursday. */
  lemma WeekdayCounts(day: int)
    ensures Weekday(0) == 4 && 0 <= Weekday(day) < 7
    ensures Weekday(day + 1) == if Weekday(day) == 6 then 0 else Weekday(day) + 1
  {
  }

  /** A weekly workflow is due today exactly if the pack times it so and, where it must be the weekday
      observed, one was observed and today is that weekday; a wrong day is told from no observation. */
  lemma WeeklyExactly(pack: Pack, pre: PreStage, signal: Signal, today: Date, cal: FiscalCalendar)
    requires Valid(today) && cal.closeStartDay >= 1
    ensures var t := TimingFor(Weekly, pack, pre, signal, today, cal);
      var bound := pack.rule.Some? && pack.rule.value.sameWeekday;
      var weekday := Weekday(DaysFromCivil(today) + Shift(today));
      && (t == Due(SameWeekdayObserved, Some(ToIsoDate(today)), Some(0)) <==> pack.rule.Some? && (bound ==> signal.observedDow == Some(weekday)))
      && (t == Skipped(WrongWeekday) <==> bound && signal.observedDow.Some? && signal.observedDow != Some(weekday))
      && (t == Skipped(NotDue) <==> pack.rule.None? || (bound && signal.observedDow.None?))
  {
    hide DaysFromCivil, JsDay, Shift, ToIsoDate;
    DayRead(today);
  }

  /** A continuous workflow is due exactly if the pack times it so and both how many runs matched and how
      many were tested is known. */
  lemma ContinuousExactly(pack: Pack, pre: PreStage, signal: Signal, today: Date, cal: FiscalCalendar)
    requires Valid(today) && cal.closeStartDay >= 1
    ensures var t := TimingFor(Continuous, pack, pre, signal, today, cal);
      var known := signal.runsMatched.Some? && signal.runsTested.Some?;
      && (t == Due(AfterVerification, None, None) <==> pack.rule.Some? && known)
      && (t == Skipped(Unverified) <==> pack.rule.Some? && !known)
      && (t == Skipped(NotDue) <==> pack.rule.None?)
  {
  }

  /** The first watch over the object. */
  ghost predicate FirstWatch(ws: seq<Watch>, name: string, k: nat) {
    k < |ws| && ws[k].watchedObject == name && forall j :: 0 <= j < k ==> ws[j].watchedObject != name
  }

  lemma {:induction false} WatchIs(ws: seq<Watch>, name: Option<string>)
    ensures name.None? ==> FindWatch(ws, name) == None
    ensures name.Some? ==> (FindWatch(ws, name).None? <==> forall k :: 0 <= k < |ws| ==> ws[k].watchedObject != name.value)
    ensures name.Some? ==> forall k: nat :: FirstWatch(ws, name.value, k) ==> FindWatch(ws, name) == Some(ws[k])
  {
    if ws != [] {
      WatchIs(ws[1..], name);
      assert forall k :: 1 <= k < |ws| ==> ws[1..][k - 1] == ws[k];
      if name.Some? {
        forall k: nat | k > 0 && FirstWatch(ws, name.value, k) ensures FirstWatch(ws[1..], name.value, k - 1) { }
      }
    }
  }

  /** How many days ahead the date of a watched object counts: what the first watch over the object
      says, or else what the workflow itself does. */
  ghost predicate LeadIs(pack: Pack, pre: PreStage, signal: Signal, lead: Option<int>) {
    if exists k: nat :: signal.watchedObject.Some? && FirstWatch(pack.watches, signal.watchedObject.value, k) && pack.watches[k].leadDays.Some?
    then exists k: nat :: signal.watchedObject.Some? && FirstWatch(pack.watches, signal.watchedObject.value, k) && lead == pack.watches[k].leadDays
    else lead == pre.daysBeforeRenewal
  }

  /** What a watched date leads to: nothing without one, or without a lead; else it is due from the lead
      on, showing the date and the days until it. */
  lemma WatchedDateIs(cadence: Cadence, pack: Pack, pre: PreStage, signal: Signal, today: Date, cal: FiscalCalendar, lead: Option<int>)
    requires cadence == DateDriven || cadence == EventDriven
    requires Valid(today) && cal.closeStartDay >= 1 && LeadIs(pack, pre, signal, lead)
    ensures var t := TimingFor(cadence, pack, pre, signal, today, cal);
      if signal.watchedDate.None? || !IsIsoDate(signal.watchedDate.value) then t == Skipped(NoWatchedDate)
      else
        var out := DaysBetween(today, IsoFields(signal.watchedDate.value));
        t == if lead.Some? && out <= lead.value then Due(OnTrigger, signal.watchedDate, Some(out)) else Skipped(NotDue)
  {
    hide DaysBetween, IsIsoDate, IsoFields;
    WatchIs(pack.watches, signal.watchedObject);
    if signal.watchedObject.Some? { FirstExists(pack.watches, signal.watchedObject.value, |pack.watches|); }
    hide FindWatch;
  }

  lemma {:induction false} FirstExists(ws: seq<Watch>, name: string, n: nat)
    requires n <= |ws|
    ensures (exists k :: 0 <= k < n && ws[k].watchedObject == name) ==> exists k: nat :: FirstWatch(ws, name, k)
  {
    if n > 0 {
      FirstExists(ws, name, n - 1);
      if !(exists k :: 0 <= k < n - 1 && ws[k].watchedObject == name) && ws[n - 1].watchedObject == name { assert FirstWatch(ws, name, n - 1); }
    }
  }

  /** Of a fiscal workflow the pack's own lead counts before the workflow's, its days are told from
      the close date used, and a pack without a fiscal calendar never is due. */
  lemma FiscalIs(pack: Pack, pre: PreStage, signal: Signal, today: Date, cal: FiscalCalendar)
    requires Valid(today) && cal.closeStartDay >= 1
    ensures var t := TimingFor(FiscalMonthly, pack, pre, signal, today, cal);
      var own := if pack.rule.None? then None else pack.rule.value.daysBefore;
      var lead := if own.Some? then own else pre.daysBeforeClose;
      var close := NextCloseStart(today, cal);
      && (t == Skipped(CalendarNotFiscal) <==> !pack.fiscalCalendar)
      && (t == Due(PreClose, Some(ToIsoDate(close)), Some(DaysOut(today, close))) <==>
            pack.fiscalCalendar && lead.Some? && DaysOut(today, close) <= lead.value)
      && (t == Skipped(NotDue) <==> pack.fiscalCalendar && (lead.None? || DaysOut(today, close) > lead.value))
  {
    hide DaysFromCivil, NextCloseStart, JsDay, DaysBetween, ToIsoDate, Shift;
    NextCloseDays(today, cal);
  }
}
