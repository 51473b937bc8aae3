/** How a history of decisions holds a suggestion back: never, back-off ladder, acceptance. */
module Dismissal {
  import opened Text

  const DAY_MS := 86400000

  datatype Action = Accepted | Snoozed | Dismissed | NeverSuggest | Wrong

  /** One prior decision; `at` is its timestamp's place in string order. */
  datatype Decision = Decision(action: Action, at: int, workflow: Option<string>, pattern: Option<string>)

  /** What Date.parse makes of a timestamp: its instant, or None when unparseable. */
  type Clock = int -> Option<int>

  datatype Scope = Family | Pattern

  /** A domain pack's dismissal settings, and the suggestion asked about. */
  datatype Query = Query(scope: Scope, ladder: seq<nat>, workflow: string, pattern: Option<string>)

  datatype Verdict = Free | NeverAgain(scope: Scope) | BackOff(until: int, rung: nat)

  predicate Relevant(q: Query, d: Decision) {
    if q.scope == Pattern then d.pattern.Some? && d.pattern == q.pattern else d.workflow == Some(q.workflow)
  }

  predicate NotNow(d: Decision) { d.action == Snoozed || d.action == Dismissed }

  function Filter(p: Decision -> bool, s: seq<Decision>): (r: seq<Decision>)
    ensures forall d :: d in r <==> d in s && p(d)
  { if s == [] then [] else Filter(p, s[..|s| - 1]) + (if p(s[|s| - 1]) then [s[|s| - 1]] else []) }

  predicate Sorted(s: seq<Decision>) { forall i, j :: 0 <= i < j < |s| ==> s[i].at <= s[j].at }

  /** Inserted after everything not later than it, which keeps the sort stable. */
  function Insert(s: seq<Decision>, d: Decision): (r: seq<Decision>)
    ensures multiset(r) == multiset(s) + multiset{d}
    ensures r != [] && r[|r| - 1].at == if s != [] && s[|s| - 1].at > d.at then s[|s| - 1].at else d.at
  {
    if s == [] || s[|s| - 1].at <= d.at then s + [d]
    else
      assert s == s[..|s| - 1] + [s[|s| - 1]];
      Insert(s[..|s| - 1], d) + [s[|s| - 1]]
  }

  lemma {:induction false} InsertSorted(s: seq<Decision>, d: Decision)
    requires Sorted(s)
    ensures Sorted(Insert(s, d))
  {
    if s != [] && s[|s| - 1].at > d.at { InsertSorted(s[..|s| - 1], d); }
  }

  function Sort(s: seq<Decision>): (r: seq<Decision>)
    ensures multiset(r) == multiset(s) && Sorted(r)
  {
    if s == [] then []
    else
      assert s == s[..|s| - 1] + [s[|s| - 1]];
      InsertSorted(Sort(s[..|s| - 1]), s[|s| - 1]);
      Insert(Sort(s[..|s| - 1]), s[|s| - 1])
  }

  function IsRelevant(q: Query): Decision -> bool { (d: Decision) => Relevant(q, d) }

  function IsAccepted(): Decision -> bool { (d: Decision) => d.action == Accepted }

  function IsAfter(t: int): Decision -> bool { (d: Decision) => d.at > t }

  /** What follows the last acceptance in a time-ordered history; all of it without one. */
  function Since(relevant: seq<Decision>): seq<Decision> {
    var accepted := Filter(IsAccepted(), relevant);
    if accepted == [] then relevant else Filter(IsAfter(accepted[|accepted| - 1].at), relevant)
  }

  function InOrder(q: Query, history: seq<Decision>): seq<Decision> { Sort(Filter(IsRelevant(q), history)) }

  /** `evaluateDismissal`, over the relevant decisions in time order. */
  function Evaluate(q: Query, history: seq<Decision>, clock: Clock, now: int): Verdict {
    var relevant := InOrder(q, history);
    if exists i :: 0 <= i < |relevant| && relevant[i].action == NeverSuggest then NeverAgain(q.scope)
    else
      var notNows := Filter(NotNow, Since(relevant));
      if q.ladder == [] || notNows == [] then Free
      else
        var rung := (if |notNows| < |q.ladder| then |notNows| else |q.ladder|) - 1;
        match clock(notNows[|notNows| - 1].at)
        case None => Free
        case Some(from) =>
          var until := from + q.ladder[rung] * DAY_MS;
          if now >= until then Free else BackOff(until, rung)
  }

  // ---- the same verdict without any order on the history ----

  predicate SaysNever(q: Query, history: seq<Decision>) {
    exists i :: 0 <= i < |history| && Relevant(q, history[i]) && history[i].action == NeverSuggest
  }

  /** A relevant "not now" later than every relevant acceptance. */
  predicate Counts(q: Query, history: seq<Decision>, d: Decision) {
    Relevant(q, d) && NotNow(d) &&
    forall i :: 0 <= i < |history| && Relevant(q, history[i]) && history[i].action == Accepted ==> d.at > history[i].at
  }

  function IsCounted(q: Query, history: seq<Decision>): Decision -> bool { (d: Decision) => Counts(q, history, d) }

  function Counted(q: Query, history: seq<Decision>): seq<Decision> { Filter(IsCounted(q, history), history) }

  function Latest(s: seq<Decision>): (t: int)
    requires s != []
    ensures (exists i :: 0 <= i < |s| && s[i].at == t) && forall i :: 0 <= i < |s| ==> s[i].at <= t
  {
    var n := |s| - 1;
    if n == 0 then s[0].at
    else
      var t := Latest(s[..n]);
      assert forall i :: 0 <= i < n ==> s[..n][i] == s[i];
      if s[n].at > t then s[n].at else t
  }

  /** The instant the back-off in force ends, if one is: the latest counted "not now" plus
      the rung its count has reached, the last rung from then on. */
  function End(q: Query, history: seq<Decision>, clock: Clock): Option<int> {
    EndAfter(q, Counted(q, history), clock)
  }

  function EndAfter(q: Query, counted: seq<Decision>, clock: Clock): Option<int> {
    if q.ladder == [] || counted == [] then None
    else
      match clock(Latest(counted))
      case None => None
      case Some(from) => Some(from + q.ladder[Rung(q, |counted|)] * DAY_MS)
  }

  function Rung(q: Query, count: nat): nat
    requires q.ladder != [] && count > 0
  { (if count < |q.ladder| then count else |q.ladder|) - 1 }

  lemma {:induction false} FilterCounts(p: Decision -> bool, s: seq<Decision>, d: Decision)
    ensures multiset(Filter(p, s))[d] == if p(d) then multiset(s)[d] else 0
  {
    if s != [] {
      FilterCounts(p, s[..|s| - 1], d);
      assert s == s[..|s| - 1] + [s[|s| - 1]];
    }
  }

  lemma {:induction false} FilterSorted(p: Decision -> bool, s: seq<Decision>)
    requires Sorted(s)
    ensures Sorted(Filter(p, s))
  {
    if s != [] {
      FilterSorted(p, s[..|s| - 1]);
      assert forall d :: d in s[..|s| - 1] ==> d.at <= s[|s| - 1].at;
    }
  }

  lemma SameElements(s: seq<Decision>, t: seq<Decision>)
    requires multiset(s) == multiset(t)
    ensures |s| == |t| && forall d :: d in s <==> d in t
    ensures s != [] ==> Latest(s) == Latest(t)
  {
    assert |multiset(s)| == |s| && |multiset(t)| == |t|;
    forall d ensures d in s <==> d in t { assert d in multiset(s) <==> d in multiset(t); }
    if s != [] {
      var i :| 0 <= i < |s| && s[i].at == Latest(s);
      var j :| 0 <= j < |t| && t[j].at == Latest(t);
      assert s[i] in t && t[j] in s;
    }
  }

  lemma InOrderIs(q: Query, history: seq<Decision>, d: Decision)
    ensures multiset(InOrder(q, history))[d] == if Relevant(q, d) then multiset(history)[d] else 0
    ensures d in InOrder(q, history) <==> d in history && Relevant(q, d)
  {
    hide Sort, Filter;
    FilterCounts(IsRelevant(q), history, d);
    assert d in InOrder(q, history) <==> d in multiset(InOrder(q, history));
  }

  /** d is later than every acceptance in the list. */
  predicate PastAccepts(relevant: seq<Decision>, d: Decision) {
    forall i :: 0 <= i < |relevant| && relevant[i].action == Accepted ==> d.at > relevant[i].at
  }

  lemma LastAcceptanceDecides(relevant: seq<Decision>, d: Decision)
    requires Sorted(relevant) && Filter(IsAccepted(), relevant) != []
    ensures var accepted := Filter(IsAccepted(), relevant);
            d.at > accepted[|accepted| - 1].at <==> PastAccepts(relevant, d)
  {
    hide Filter, Sorted;
    FilterSorted(IsAccepted(), relevant);
    var accepted := Filter(IsAccepted(), relevant);
    var last := accepted[|accepted| - 1];
    assert last in accepted;
    var k :| 0 <= k < |relevant| && relevant[k] == last;
    forall i | 0 <= i < |relevant| && relevant[i].action == Accepted ensures relevant[i].at <= last.at {
      LastIsMax(accepted, relevant[i]);
    }
  }

  lemma LastIsMax(s: seq<Decision>, x: Decision)
    requires Sorted(s) && x in s
    ensures x.at <= s[|s| - 1].at
  {
  }

  /** In a time-ordered list, being past the last acceptance is being past all of them. */
  lemma SinceIs(relevant: seq<Decision>, d: Decision)
    requires Sorted(relevant)
    ensures multiset(Since(relevant))[d] == if PastAccepts(relevant, d) then multiset(relevant)[d] else 0
  {
    hide Filter, PastAccepts;
    var accepted := Filter(IsAccepted(), relevant);
    if accepted != [] {
      LastAcceptanceDecides(relevant, d);
      FilterCounts(IsAfter(accepted[|accepted| - 1].at), relevant, d);
    } else {
      NoAcceptance(relevant, d);
    }
  }

  lemma NoAcceptance(relevant: seq<Decision>, d: Decision)
    requires Filter(IsAccepted(), relevant) == []
    ensures PastAccepts(relevant, d)
  {
    hide Filter;
    assert forall i :: 0 <= i < |relevant| && relevant[i].action == Accepted ==> relevant[i] in Filter(IsAccepted(), relevant);
  }

  lemma CountsIs(q: Query, history: seq<Decision>, d: Decision)
    ensures Counts(q, history, d) <==> Relevant(q, d) && NotNow(d) && PastAccepts(InOrder(q, history), d)
  {
    hide InOrder;
    var r := InOrder(q, history);
    forall x ensures x in r <==> x in history && Relevant(q, x) { InOrderIs(q, history, x); }
    assert forall i :: 0 <= i < |r| ==> r[i] in r;
    assert forall i :: 0 <= i < |history| ==> history[i] in history;
  }

  /** The decisions the code ends up counting are, as a bag, the ones `Counted` names. */
  lemma CodeCounts(q: Query, history: seq<Decision>)
    ensures multiset(Filter(NotNow, Since(InOrder(q, history)))) == multiset(Counted(q, history))
    ensures Sorted(Filter(NotNow, Since(InOrder(q, history))))
  {
    assert Sorted(InOrder(q, history));
    SinceSorted(InOrder(q, history));
    hide Filter, Since, InOrder, Counts, PastAccepts, Relevant, NotNow, Sorted;
    var r := InOrder(q, history);
    FilterSorted(NotNow, Since(r));
    forall d ensures multiset(Filter(NotNow, Since(r)))[d] == multiset(Counted(q, history))[d] {
      FilterCounts(NotNow, Since(r), d);
      FilterCounts(IsCounted(q, history), history, d);
      SinceIs(r, d);
      InOrderIs(q, history, d);
      CountsIs(q, history, d);
    }
  }

  lemma SinceSorted(relevant: seq<Decision>)
    requires Sorted(relevant)
    ensures Sorted(Since(relevant))
  {
    var accepted := Filter(IsAccepted(), relevant);
    if accepted != [] { FilterSorted(IsAfter(accepted[|accepted| - 1].at), relevant); }
  }

  lemma NeverIs(q: Query, history: seq<Decision>)
    ensures var r := InOrder(q, history);
            SaysNever(q, history) <==> exists i :: 0 <= i < |r| && r[i].action == NeverSuggest
  {
    hide InOrder;
    var r := InOrder(q, history);
    forall x ensures x in r <==> x in history && Relevant(q, x) { InOrderIs(q, history, x); }
    if SaysNever(q, history) {
      var i :| 0 <= i < |history| && Relevant(q, history[i]) && history[i].action == NeverSuggest;
      assert history[i] in r;
    }
    if i :| 0 <= i < |r| && r[i].action == NeverSuggest {
      assert r[i] in r && r[i] in history;
    }
  }

  /** Whatever order the history is listed in, the suggestion is held for good exactly when a
      relevant "never" was ever said, and otherwise exactly until `End`. */
  lemma VerdictIs(q: Query, history: seq<Decision>, clock: Clock, now: int)
    ensures var v := Evaluate(q, history, clock, now);
            (v.NeverAgain? <==> SaysNever(q, history)) &&
            (v.NeverAgain? ==> v.scope == q.scope) &&
            (v.BackOff? <==> !SaysNever(q, history) && End(q, history, clock).Some? && now < End(q, history, clock).value) &&
            (v.BackOff? ==> v.until == End(q, history, clock).value && v.rung == Rung(q, |Counted(q, history)|))
  {
    hide Filter, Since, InOrder, Counted, SaysNever;
    NeverIs(q, history);
    var notNows := Filter(NotNow, Since(InOrder(q, history)));
    CodeCounts(q, history);
    SameElements(notNows, Counted(q, history));
    if notNows != [] { assert notNows[|notNows| - 1].at == Latest(notNows); }
  }

  /** A relevant "never" suppresses under every extension of the history, at every time. */
  lemma NeverIsForever(q: Query, history: seq<Decision>, more: seq<Decision>, clock: Clock, now: int)
    requires SaysNever(q, history)
    ensures Evaluate(q, history + more, clock, now) == NeverAgain(q.scope)
    ensures Evaluate(q, more + history, clock, now) == NeverAgain(q.scope)
  {
    var i :| 0 <= i < |history| && Relevant(q, history[i]) && history[i].action == NeverSuggest;
    assert (history + more)[i] == history[i] && (more + history)[|more| + i] == history[i];
    VerdictIs(q, history + more, clock, now);
    VerdictIs(q, more + history, clock, now);
  }

  predicate LatestOf(q: Query, history: seq<Decision>, d: Decision) {
    Relevant(q, d) && forall i :: 0 <= i < |history| && Relevant(q, history[i]) ==> history[i].at < d.at
  }

  lemma CountedAfter(q: Query, history: seq<Decision>, d: Decision)
    requires LatestOf(q, history, d)
    ensures Counted(q, history + [d]) ==
            if d.action == Accepted then [] else Counted(q, history) + (if NotNow(d) then [d] else [])
  {
    var h' := history + [d];
    assert h'[..|history|] == history;
    var before, after := IsCounted(q, history), IsCounted(q, h');
    forall i | 0 <= i < |history| ensures d.action != Accepted ==> after(history[i]) == before(history[i]) {
      if before(history[i]) {
        forall j | 0 <= j < |h'| && Relevant(q, h'[j]) && h'[j].action == Accepted ensures d.action != Accepted ==> history[i].at > h'[j].at {}
      }
      if after(history[i]) {
        forall j | 0 <= j < |history| && Relevant(q, history[j]) && history[j].action == Accepted ensures history[i].at > history[j].at {
          assert h'[j] == history[j];
        }
      }
    }
    if d.action == Accepted {
      assert h'[|history|] == d;
      assert forall i :: 0 <= i < |h'| ==> !after(h'[i]);
      FilterNone(after, h');
    } else {
      FilterSame(after, before, history);
      if NotNow(d) { assert after(d); }
    }
  }

  lemma {:induction false} FilterSame(p: Decision -> bool, r: Decision -> bool, s: seq<Decision>)
    requires forall i :: 0 <= i < |s| ==> p(s[i]) == r(s[i])
    ensures Filter(p, s) == Filter(r, s)
  {
    if s != [] { FilterSame(p, r, s[..|s| - 1]); }
  }

  lemma {:induction false} FilterNone(p: Decision -> bool, s: seq<Decision>)
    requires forall i :: 0 <= i < |s| ==> !p(s[i])
    ensures Filter(p, s) == []
  {
    if s != [] { FilterNone(p, s[..|s| - 1]); }
  }

  /** No relevant refusal in the history is later than d. */
  predicate NoRefusalAfter(q: Query, history: seq<Decision>, d: Decision) {
    forall i :: 0 <= i < |history| && Relevant(q, history[i]) && NotNow(history[i]) ==> history[i].at <= d.at
  }

  /** A relevant acceptance that no refusal is later than, wherever it stands in the history and even
      at the time of the last refusal, lifts the back-off and nothing else. */
  lemma AcceptanceLiftsBackOffOnly(q: Query, history: seq<Decision>, d: Decision, clock: Clock, now: int)
    requires d in history && Relevant(q, d) && d.action == Accepted && NoRefusalAfter(q, history, d)
    ensures Evaluate(q, history, clock, now) == if SaysNever(q, history) then NeverAgain(q.scope) else Free
  {
    VerdictIs(q, history, clock, now);
    var k :| 0 <= k < |history| && history[k] == d;
    FilterNone(IsCounted(q, history), history);
  }

  predicate NonDecreasing(ladder: seq<nat>) { forall i :: 0 <= i < |ladder| - 1 ==> ladder[i] <= ladder[i + 1] }

  lemma {:induction false} LadderClimbs(ladder: seq<nat>, i: nat, j: nat)
    requires NonDecreasing(ladder) && i <= j < |ladder|
    ensures ladder[i] <= ladder[j]
    decreases j
  {
    if i < j { LadderClimbs(ladder, i, j - 1); }
  }

  /** A clock that reads every timestamp and agrees with their order. */
  ghost predicate TellsTime(clock: Clock) {
    forall s, t :: clock(s).Some? && (s < t ==> clock(t).Some? && clock(s).value < clock(t).value)
  }

  /** Appending d, a latest "not now", does not bring the end of the back-off forward. */
  ghost predicate EndHolds(q: Query, history: seq<Decision>, d: Decision, clock: Clock) {
    var e, e' := End(q, history, clock), End(q, history + [d], clock);
    e.Some? ==> e'.Some? && e.value <= e'.value
  }

  lemma LatestBefore(q: Query, history: seq<Decision>, d: Decision)
    requires LatestOf(q, history, d) && Counted(q, history) != []
    ensures Latest(Counted(q, history)) < d.at
  {
    var n := Counted(q, history);
    var i :| 0 <= i < |n| && n[i].at == Latest(n);
    assert n[i] in n && n[i] in history;
  }

  lemma AppendLatest(s: seq<Decision>, d: Decision)
    requires s != [] && Latest(s) < d.at
    ensures Latest(s + [d]) == d.at
  {
    assert (s + [d])[|s|] == d;
    assert forall i :: 0 <= i < |s| ==> (s + [d])[i] == s[i];
  }

  lemma EndGrows(q: Query, n: seq<Decision>, d: Decision, clock: Clock)
    requires NonDecreasing(q.ladder) && TellsTime(clock) && q.ladder != [] && n != [] && Latest(n) < d.at
    ensures var (e, e') := (EndAfter(q, n, clock), EndAfter(q, n + [d], clock)); e.Some? && e'.Some? && e.value <= e'.value
  {
    hide NonDecreasing, Latest;
    AppendLatest(n, d);
    LadderClimbs(q.ladder, Rung(q, |n|), Rung(q, |n| + 1));
    assert q.ladder[Rung(q, |n|)] * DAY_MS <= q.ladder[Rung(q, |n| + 1)] * DAY_MS;
  }

  lemma AnotherNotNowExtends(q: Query, history: seq<Decision>, d: Decision, clock: Clock)
    requires NonDecreasing(q.ladder) && TellsTime(clock)
    requires LatestOf(q, history, d) && NotNow(d)
    ensures EndHolds(q, history, d, clock)
  {
    CountedAfter(q, history, d);
    hide Filter, Counted, LatestOf, NonDecreasing, TellsTime, Latest;
    var n := Counted(q, history);
    if q.ladder != [] && n != [] {
      LatestBefore(q, history, d);
      EndGrows(q, n, d, clock);
    }
  }

  /** Some decision can be about this suggestion: one asked about by pattern needs a pattern. */
  predicate Answerable(q: Query) { q.scope == Family || q.pattern.Some? }

  /** A "not now" about exactly this suggestion. */
  function Nag(q: Query, at: int): Decision { Decision(Snoozed, at, Some(q.workflow), q.pattern) }

  /** n "not now"s, one a millisecond. */
  function Nagged(n: nat, q: Query): (h: seq<Decision>)
    ensures |h| == n && forall i :: 0 <= i < n ==> h[i] == Nag(q, i)
  { seq(n, i => Nag(q, i)) }

  lemma {:induction false} NaggedCounts(q: Query, n: nat)
    requires Answerable(q)
    ensures Counted(q, Nagged(n, q)) == Nagged(n, q)
  {
    if n > 0 {
      NaggedCounts(q, n - 1);
      var h, d := Nagged(n - 1, q), Nag(q, n - 1);
      assert Nagged(n, q) == h + [d];
      CountedAfter(q, h, d);
    }
  }

  /** Never shortening the back-off is exactly the ladder not descending: under it no history
      is shortened, and any descent shortens some history, unless no decision can be about the
      suggestion at all. */
  lemma NeverShortensExactlyWhenLadderClimbs(q: Query)
    ensures NonDecreasing(q.ladder) || !Answerable(q) <==>
            (forall history, d, clock :: TellsTime(clock) && LatestOf(q, history, d) && NotNow(d) ==> EndHolds(q, history, d, clock))
  {
    if NonDecreasing(q.ladder) {
      forall history, d, clock | TellsTime(clock) && LatestOf(q, history, d) && NotNow(d) ensures EndHolds(q, history, d, clock) {
        AnotherNotNowExtends(q, history, d, clock);
      }
    } else if Answerable(q) {
      var i :| 0 <= i < |q.ladder| - 1 && q.ladder[i] > q.ladder[i + 1];
      DescentShortens(q, i);
    }
  }

  function PlainClock(): (clock: Clock)
    ensures forall t :: clock(t) == Some(t)
  { t => Some(t) }

  lemma EndOfNagged(q: Query, n: nat)
    requires Answerable(q) && 0 < n <= |q.ladder|
    ensures End(q, Nagged(n, q), PlainClock()) == Some(n - 1 + q.ladder[n - 1] * DAY_MS)
  {
    hide Counted, Nagged, Latest, PlainClock, Filter, IsCounted, Counts;
    NaggedCounts(q, n);
    NaggedLatest(n, q);
  }

  lemma NaggedLatest(n: nat, q: Query)
    requires n > 0
    ensures Latest(Nagged(n, q)) == n - 1
  {
    hide Nagged;
    var h := Nagged(n, q);
    assert h[n - 1].at == n - 1;
  }

  lemma DescentShortens(q: Query, i: nat)
    requires Answerable(q) && i < |q.ladder| - 1 && q.ladder[i] > q.ladder[i + 1]
    ensures exists history, d, clock :: TellsTime(clock) && LatestOf(q, history, d) && NotNow(d) && !EndHolds(q, history, d, clock)
  {
    var h, d := Nagged(i + 1, q), Nag(q, i + 1);
    assert h + [d] == Nagged(i + 2, q);
    assert LatestOf(q, h, d) && NotNow(d);
    assert TellsTime(PlainClock());
    hide End, LatestOf, Nagged, TellsTime;
    EndOfNagged(q, i + 1);
    EndOfNagged(q, i + 2);
    assert !EndHolds(q, h, d, PlainClock());
  }

  /** Once the end is reached, the same history suppresses nothing from then on. */
  lemma ReleasedStaysReleased(q: Query, history: seq<Decision>, clock: Clock, now: int, later: int)
    requires !SaysNever(q, history) && now <= later
    requires End(q, history, clock).None? || now >= End(q, history, clock).value
    ensures Evaluate(q, history, clock, later) == Free
  {
    VerdictIs(q, history, clock, later);
  }

  // ---- whom a decision is about ----

  /** The decision is about the workflow asked about, or, where only patterns are held back, about
      the very pattern. */
  predicate About(q: Query, d: Decision) {
    match q.scope
    case Family => d.workflow.Some? && d.workflow.value == q.workflow
    case Pattern => d.pattern.Some? && q.pattern.Some? && d.pattern.value == q.pattern.value
  }

  lemma {:induction false} FilterAppend(p: Decision -> bool, a: seq<Decision>, b: seq<Decision>)
    ensures Filter(p, a + b) == Filter(p, a) + Filter(p, b)
  {
    if b == [] {
      assert a + b == a;
    } else {
      assert (a + b)[..|a + b| - 1] == a + b[..|b| - 1];
      FilterAppend(p, a, b[..|b| - 1]);
    }
  }

  lemma FilterOne(p: Decision -> bool, d: Decision)
    ensures Filter(p, [d]) == if p(d) then [d] else []
  {
    assert [d][..0] == [];
  }

  lemma OthersFiltered(q: Query, before: seq<Decision>, d: Decision, after: seq<Decision>)
    requires !About(q, d)
    ensures Filter(IsRelevant(q), before + [d] + after) == Filter(IsRelevant(q), before + after)
  {
    hide Filter;
    var p := IsRelevant(q);
    FilterAppend(p, before + [d], after);
    FilterAppend(p, before, [d]);
    FilterAppend(p, before, after);
    FilterOne(p, d);
    assert Filter(p, before) + [] == Filter(p, before);
  }

  /** A decision about another workflow, or in pattern scope about another pattern or none, changes
      no verdict, wherever it stands in the history. */
  lemma OthersIgnored(q: Query, before: seq<Decision>, d: Decision, after: seq<Decision>, clock: Clock, now: int)
    requires !About(q, d)
    ensures Evaluate(q, before + [d] + after, clock, now) == Evaluate(q, before + after, clock, now)
  {
    hide Sort, Since, Filter, About;
    OthersFiltered(q, before, d, after);
    assert InOrder(q, before + [d] + after) == InOrder(q, before + after);
    hide InOrder;
  }

  /** A suggestion is held back for good exactly when someone said never about it. */
  lemma NeverExactly(q: Query, history: seq<Decision>, clock: Clock, now: int)
    ensures Evaluate(q, history, clock, now).NeverAgain? <==>
      exists i :: 0 <= i < |history| && history[i].action == NeverSuggest && About(q, history[i])
  {
    hide Evaluate, End;
    VerdictIs(q, history, clock, now);
  }

  /** What one decision about the suggestion does: never, the first rung for a snooze or a dismissal
      whose time can be read, nothing for any other. */
  lemma LoneDecision(q: Query, d: Decision, clock: Clock, now: int)
    requires About(q, d)
    ensures Evaluate(q, [d], clock, now) ==
      match d.action
      case NeverSuggest => NeverAgain(q.scope)
      case Snoozed | Dismissed =>
        if q.ladder == [] || clock(d.at).None? then Free
        else
          var until := clock(d.at).value + q.ladder[0] * 24 * 60 * 60 * 1000;
          if now >= until then Free else BackOff(until, 0)
      case _ => Free
  {
    hide Evaluate, Filter, Latest;
    VerdictIs(q, [d], clock, now);
    FilterOne(IsCounted(q, [d]), d);
    assert [d][0] == d;
    assert Counts(q, [d], d) <==> NotNow(d);
    assert SaysNever(q, [d]) <==> d.action == NeverSuggest;
    assert q.ladder != [] ==> Rung(q, 1) == 0;
    LatestOne(d);
  }

  lemma LatestOne(d: Decision)
    ensures Latest([d]) == d.at
  {
  }
}
