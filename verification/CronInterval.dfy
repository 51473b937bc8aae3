/** The validator's estimate of how often a cron schedule fires. */
module CronInterval {
  import opened Text

  // ---- reading the minute field ----

  datatype Minute = Every | Step(n: nat) | Fixed(n: nat) | Listed(values: seq<int>) | Unknown

  predicate Numeral(s: string) { s != "" && AllDigits(s) }

  function Values(pieces: seq<string>): (r: seq<int>)
    requires forall i :: 0 <= i < |pieces| ==> Numeral(pieces[i])
    ensures |r| == |pieces|
  {
    if pieces == [] then []
    else
      assert Numeral(pieces[|pieces| - 1]);
      Values(pieces[..|pieces| - 1]) + [DigitsValue(pieces[|pieces| - 1])]
  }

  function ReadMinute(field: string): (m: Minute)
    ensures m.Listed? ==> |m.values| > 0
  {
    var pieces := Split(field, ',');
    if field == "*" then Every
    else if |field| > 2 && field[..2] == "*/" && AllDigits(field[2..]) then Step(DigitsValue(field[2..]))
    else if Numeral(field) then Fixed(DigitsValue(field))
    else if |pieces| >= 2 && forall i :: 0 <= i < |pieces| ==> Numeral(pieces[i]) then Listed(Values(pieces))
    else Unknown
  }

  /** Maximal runs of characters that are not white space. */
  function Fields(s: string): seq<string> {
    if s == "" then []
    else if IsSpace(s[|s| - 1]) then Fields(s[..|s| - 1])
    else if |s| == 1 || IsSpace(s[|s| - 2]) then Fields(s[..|s| - 1]) + [[s[|s| - 1]]]
    else
      var front := Fields(s[..|s| - 1]);
      if front == [] then [[s[|s| - 1]]] else front[..|front| - 1] + [front[|front| - 1] + [s[|s| - 1]]]
  }

  // ---- the estimate ----

  function Insert(s: seq<int>, v: int): (r: seq<int>)
    ensures multiset(r) == multiset(s) + multiset{v}
    ensures |r| == |s| + 1
  {
    if s == [] || s[|s| - 1] <= v then s + [v]
    else
      assert s == s[..|s| - 1] + [s[|s| - 1]];
      Insert(s[..|s| - 1], v) + [s[|s| - 1]]
  }

  function Sort(s: seq<int>): (r: seq<int>)
    ensures multiset(r) == multiset(s) && |r| == |s|
  {
    if s == [] then []
    else
      assert s == s[..|s| - 1] + [s[|s| - 1]];
      Insert(Sort(s[..|s| - 1]), s[|s| - 1])
  }

  function Smaller(a: int, b: int): int { if a <= b then a else b }

  /** The least difference between neighbours among the first n, starting from `first`. */
  function LeastGap(v: seq<int>, n: nat, first: int): int
    requires 1 <= n <= |v|
  { if n == 1 then first else Smaller(LeastGap(v, n - 1, first), v[n - 1] - v[n - 2]) }

  function Estimate(m: Minute): Option<int>
    requires m.Listed? ==> |m.values| > 0
  {
    match m
    case Every => Some(1)
    case Step(n) => Some(n)
    case Fixed(_) => Some(60)
    case Listed(values) =>
      var v := Sort(values);
      Some(LeastGap(v, |v|, 60 - v[|v| - 1] + v[0]))
    case Unknown => None
  }

  function CronEstimate(cron: string): Option<int> {
    var fields := Fields(cron);
    if |fields| != 5 then None else Estimate(ReadMinute(fields[0]))
  }

  /** `minCronIntervalMinutes`. */
  method MinCronIntervalMinutes(cron: string) returns (r: Option<int>)
    ensures r == CronEstimate(cron)
  {
    hide ReadMinute, Sort, Fields;
    var fields := Fields(cron);
    if |fields| != 5 { return None; }
    var minute := ReadMinute(fields[0]);
    match minute
    case Every => return Some(1);
    case Step(n) => return Some(n);
    case Fixed(_) => return Some(60);
    case Listed(values) =>
      var v := Sort(values);
      var min := 60 - v[|v| - 1] + v[0];
      var i := 1;
      while i < |v|
        invariant 1 <= i <= |v| && min == LeastGap(v, i, 60 - v[|v| - 1] + v[0])
      {
        min := Smaller(min, v[i] - v[i - 1]);
        i := i + 1;
      }
      return Some(min);
    case Unknown => return None;
  }

  // ---- what the schedule really does ----

  /** What is left of m after taking away n as often as possible. */
  function Rest(m: nat, n: nat): (r: nat)
    requires n > 0
    ensures r < n && r <= m
  { if m < n then m else Rest(m - n, n) }

  /** The minutes of an hour at which the field fires, when every hour matches. */
  predicate Fires(f: Minute, m: nat) {
    m < 60 &&
    match f
    case Every => true
    case Step(n) => n > 0 && Rest(m, n) == 0
    case Fixed(n) => m == n
    case Listed(values) => exists i :: 0 <= i < |values| && values[i] == m
    case Unknown => false
  }

  function Later(m: nat, d: nat): nat { (m + d) % 60 }

  /** Firings are at least g minutes apart, across the hour as well. */
  ghost predicate Apart(f: Minute, g: int) {
    forall m: nat, d: nat {:trigger Later(m, d)} :: m < 60 && 1 <= d < g && Fires(f, m) ==> !Fires(f, Later(m, d))
  }

  lemma {:induction false} RestDiffers(a: nat, b: nat, n: nat)
    requires n > 0 && b <= a && Rest(b, n) == 0
    ensures Rest(a - b, n) == Rest(a, n)
  {
    if b >= n { RestDiffers(a - n, b - n, n); }
  }

  /** Two firings of a step less than a step apart: the later one is the top of the hour. */
  lemma CloseFirings(n: nat, m: nat, d: nat)
    requires 1 <= n && Fires(Step(n), m) && 1 <= d < n && d < 60 && Fires(Step(n), Later(m, d))
    ensures m + d == 60 && Rest(60, n) == d
  {
    hide Rest;
    if m + d < 60 {
      RestDiffers(m + d, m, n);
      Short(d, n);
    } else {
      Short(m + d - 60, n);
      RestDiffers(60, m, n);
      Short(d, n);
    }
  }

  /** A step longer than the hour fires at its top only, once an hour. */
  lemma LongStep(n: nat, m: nat)
    requires n > 60
    ensures Fires(Step(n), m) <==> m == 0
  {
  }

  lemma Short(d: nat, n: nat)
    requires n > 0 && d < n
    ensures Rest(d, n) == d
  {
  }

  /** A step that divides the hour is estimated exactly; any other one up to the hour also fires
      closer together, where the hour ends before its last interval does; a longer one fires once an
      hour, whatever the estimate. */
  lemma StepEstimateExactly(n: nat)
    requires 1 <= n
    ensures Estimate(Step(n)) == Some(n as int)
    ensures var r := Rest(60, n);
      if n > 60 then Apart(Step(n), 60) && !Apart(Step(n), 61)
      else if r == 0 then Apart(Step(n), n)
      else r < n && Apart(Step(n), r) && !Apart(Step(n), r + 1)
  {
    var r := Rest(60, n);
    if n > 60 {
      LongStep(n, 0);
      assert Fires(Step(n), 0) && Fires(Step(n), Later(0, 60));
      forall m: nat, d: nat | m < 60 && 1 <= d < 60 && Fires(Step(n), m) ensures !Fires(Step(n), Later(m, d)) {
        LongStep(n, m);
        LongStep(n, Later(m, d));
      }
    } else {
      forall m: nat, d: nat | m < 60 && 1 <= d < (if r == 0 then n else r) && Fires(Step(n), m) ensures !Fires(Step(n), Later(m, d)) {
        if Fires(Step(n), Later(m, d)) { CloseFirings(n, m, d); }
      }
      if r != 0 {
        LastFiring(60, n);
        assert Fires(Step(n), 60 - r) && Fires(Step(n), Later(60 - r, r));
      }
    }
  }

  lemma {:induction false} LastFiring(m: nat, n: nat)
    requires n > 0
    ensures Rest(m - Rest(m, n), n) == 0
  {
    if m >= n {
      LastFiring(m - n, n);
      assert m - n - Rest(m - n, n) == (m - Rest(m, n)) - n;
    }
  }

  /** A step schedule the validator lets through (fifteen minutes or more) still fires within
      fifteen minutes of itself exactly when the hour leaves a remainder shorter than that. */
  lemma AcceptedStepTooClose(n: nat)
    requires 15 <= n
    ensures !Apart(Step(n), 15) <==> 0 < Rest(60, n) < 15
  {
    StepEstimateExactly(n);
    if n > 60 { Short(60, n); }
    hide Rest, Fires, Apart;
    var r := Rest(60, n);
    ApartLess(Step(n), n, 15);
    ApartLess(Step(n), 60, 15);
    ApartLess(Step(n), r, 15);
    ApartLess(Step(n), 15, r + 1);
  }

  lemma ApartLess(f: Minute, g: int, h: int)
    ensures Apart(f, g) && h <= g ==> Apart(f, h)
  {
  }

  // ---- lists ----

  ghost predicate Sorted(v: seq<int>) { forall i, j :: 0 <= i < j < |v| ==> v[i] <= v[j] }

  lemma {:induction false} InsertSorted(s: seq<int>, v: int)
    requires Sorted(s)
    ensures Sorted(Insert(s, v))
  {
    if s != [] && s[|s| - 1] > v {
      var front := s[..|s| - 1];
      InsertSorted(front, v);
      var r := Insert(front, v);
      forall i | 0 <= i < |r| ensures r[i] <= s[|s| - 1] {
        assert r[i] in multiset(r);
        assert r[i] in front || r[i] == v;
      }
    }
  }

  lemma {:induction false} SortSorted(s: seq<int>)
    ensures Sorted(Sort(s))
  {
    if s != [] {
      SortSorted(s[..|s| - 1]);
      InsertSorted(Sort(s[..|s| - 1]), s[|s| - 1]);
    }
  }

  lemma {:induction false} LeastGapBounds(v: seq<int>, n: nat, first: int, k: nat)
    requires 1 <= n <= |v|
    ensures LeastGap(v, n, first) <= first
    ensures 1 <= k < n ==> LeastGap(v, n, first) <= v[k] - v[k - 1]
  {
    if n > 1 { LeastGapBounds(v, n - 1, first, k); }
  }

  /** For a list of minutes the estimate is safe: firings are at least that far apart. */
  lemma ListEstimateSafe(values: seq<int>)
    requires |values| > 0 && forall i :: 0 <= i < |values| ==> 0 <= values[i] < 60
    ensures Apart(Listed(values), Estimate(Listed(values)).value)
  {
    SortSorted(values);
    forall m: nat, d: nat | m < 60 && 1 <= d < Estimate(Listed(values)).value && Fires(Listed(values), m)
      ensures !Fires(Listed(values), Later(m, d))
    {
      if Fires(Listed(values), Later(m, d)) { ListGap(values, m, d); }
    }
  }

  lemma ListGap(values: seq<int>, m: nat, d: nat)
    requires |values| > 0 && Sorted(Sort(values)) && m < 60 && d >= 1
    requires Fires(Listed(values), m) && Fires(Listed(values), Later(m, d))
    ensures Estimate(Listed(values)).value <= d
  {
    hide Sort, Fires, LeastGap, Sorted, Later, Estimate;
    SortedAt(values, m);
    SortedAt(values, Later(m, d));
    EstimateOf(values);
    var v := Sort(values);
    var i: nat :| i < |v| && v[i] == m;
    var j: nat :| j < |v| && v[j] == Later(m, d);
    SortedGap(v, i, j, m, d);
  }

  lemma EstimateOf(values: seq<int>)
    requires |values| > 0
    ensures var v := Sort(values); Estimate(Listed(values)).value == LeastGap(v, |v|, 60 - v[|v| - 1] + v[0])
  {
    hide Sort, LeastGap;
  }

  lemma SortedGap(v: seq<int>, i: nat, j: nat, m: nat, d: nat)
    requires Sorted(v) && i < |v| && j < |v| && v[i] == m < 60 && 1 <= d && v[j] == Later(m, d)
    ensures LeastGap(v, |v|, 60 - v[|v| - 1] + v[0]) <= d
  {
    hide LeastGap;
    var wrap := 60 - v[|v| - 1] + v[0];
    LeastGapBounds(v, |v|, wrap, j);
    if d < 60 { NextAfter(v, i, j, m, d); } else { Whole(v, |v|, wrap, j); }
  }

  lemma Whole(v: seq<int>, n: nat, wrap: int, j: nat)
    requires Sorted(v) && n == |v| > 0 && wrap == 60 - v[n - 1] + v[0]
    ensures LeastGap(v, n, wrap) <= 60
  {
    LeastGapBounds(v, n, wrap, 0);
    assert n > 1 ==> v[0] <= v[n - 1];
  }

  lemma SortedAt(values: seq<int>, m: nat)
    requires Fires(Listed(values), m)
    ensures exists i: nat :: i < |Sort(values)| && Sort(values)[i] == m
  {
    var i :| 0 <= i < |values| && values[i] == m;
    assert m as int in multiset(Sort(values));
  }

  /** Either the later firing is within d of its neighbour below, or the hour wraps. */
  lemma NextAfter(v: seq<int>, i: nat, j: nat, m: nat, d: nat)
    requires Sorted(v) && i < |v| && j < |v| && v[i] == m < 60 && 1 <= d < 60 && v[j] == Later(m, d)
    ensures (j > 0 && v[j] - v[j - 1] <= d) || 60 - v[|v| - 1] + v[0] <= d
  {
    if m + d < 60 {
      SortedBelow(v, i, j);
      SortedBelow(v, i, j - 1);
    } else {
      assert i < |v| - 1 ==> v[i] <= v[|v| - 1];
      assert 0 < j ==> v[0] <= v[j];
    }
  }

  lemma SortedBelow(v: seq<int>, i: nat, j: nat)
    requires Sorted(v) && i < |v| && j < |v|
    ensures v[i] < v[j] ==> i < j
    ensures i <= j ==> v[i] <= v[j]
  {
    if j < i { assert v[j] <= v[i]; }
  }

  // ---- which text gives which estimate ----

  /** A word without white space. */
  predicate Word(s: string) { s != "" && forall i :: 0 <= i < |s| ==> !IsSpace(s[i]) }

  predicate Words(ws: seq<string>) { forall i :: 0 <= i < |ws| ==> Word(ws[i]) }

  predicate Blank(s: string) { forall i :: 0 <= i < |s| ==> IsSpace(s[i]) }

  /** Word by word, each behind some white space: none is needed before the first, nor after the last. */
  function Spaced(ws: seq<string>, gaps: seq<string>): string
    requires |gaps| == |ws| + 1
  { if ws == [] then gaps[0] else Spaced(ws[..|ws| - 1], gaps[..|ws|]) + ws[|ws| - 1] + gaps[|ws|] }

  ghost predicate Gaps(ws: seq<string>, gaps: seq<string>) {
    && |gaps| == |ws| + 1 && (forall i :: 0 <= i < |gaps| ==> Blank(gaps[i]))
    && forall i :: 1 <= i < |ws| ==> gaps[i] != ""
  }

  lemma {:induction false} BlankEnd(s: string, gap: string)
    requires Blank(gap)
    ensures Fields(s + gap) == Fields(s)
  {
    if gap == "" {
      assert s + gap == s;
    } else {
      var front := gap[..|gap| - 1];
      BlankEnd(s, front);
      assert (s + gap)[..|s + gap| - 1] == s + front;
    }
  }

  lemma FieldsGrow(t: string, c: char)
    requires !IsSpace(c)
    ensures Fields(t + [c]) ==
      if t == "" || IsSpace(t[|t| - 1]) || Fields(t) == [] then Fields(t) + [[c]] else Fields(t)[..|Fields(t)| - 1] + [Fields(t)[|Fields(t)| - 1] + [c]]
  {
    var all := t + [c];
    assert all[..|all| - 1] == t;
    if t != "" { assert all[|all| - 2] == t[|t| - 1]; }
  }

  /** A word behind white space, or at the start, is a field of its own. */
  lemma {:induction false} WordEnd(s: string, w: string)
    requires Word(w) && (s == "" || IsSpace(s[|s| - 1]))
    ensures Fields(s + w) == Fields(s) + [w]
  {
    hide Fields, IsSpace;
    var (front, c) := (w[..|w| - 1], w[|w| - 1]);
    assert w == front + [c] && s + w == s + front + [c];
    if front == "" {
      assert s + front == s && [c] == w;
    } else {
      WordEnd(s, front);
      assert (s + front)[|s + front| - 1] == front[|front| - 1];
    }
    FieldsGrow(s + front, c);
  }

  /** The fields of a text are its words, whatever white space stands between and around them. */
  lemma {:induction false} FieldsOfWords(ws: seq<string>, gaps: seq<string>)
    requires Words(ws) && Gaps(ws, gaps)
    ensures Fields(Spaced(ws, gaps)) == ws
  {
    if ws == [] {
      BlankEnd("", gaps[0]);
      assert "" + gaps[0] == gaps[0];
    } else {
      var (front, n) := (ws[..|ws| - 1], |ws|);
      var before := Spaced(front, gaps[..n]);
      FieldsOfWords(front, gaps[..n]);
      SpacedEnd(front, gaps[..n]);
      WordEnd(before, ws[n - 1]);
      BlankEnd(before + ws[n - 1], gaps[n]);
    }
  }

  lemma SpacedEnd(ws: seq<string>, gaps: seq<string>)
    requires |gaps| == |ws| + 1 && (forall i :: 0 <= i < |gaps| ==> Blank(gaps[i])) && (ws == [] || gaps[|ws|] != "")
    ensures var s := Spaced(ws, gaps); s == "" || IsSpace(s[|s| - 1])
  {
  }

  predicate EveryNth(s: string) { "*/" <= s && |s| > 2 && AllDigits(s[2..]) }

  ghost predicate ListOfNumbers(s: string) {
    |Split(s, ',')| > 1 && forall piece :: piece in Split(s, ',') ==> piece != "" && AllDigits(piece)
  }

  /** The estimate of five words is read from the first: every minute, every n minutes, an hour for a
      fixed minute; of any other number of words there is none. */
  lemma EstimateExactly(ws: seq<string>, gaps: seq<string>)
    requires Words(ws) && Gaps(ws, gaps)
    ensures var r := CronEstimate(Spaced(ws, gaps));
      && (|ws| != 5 ==> r == None)
      && (|ws| == 5 && ws[0] == "*" ==> r == Some(1))
      && (|ws| == 5 && EveryNth(ws[0]) ==> r == Some(DigitsValue(ws[0][2..])))
      && (|ws| == 5 && AllDigits(ws[0]) ==> r == Some(60))
      && (|ws| == 5 && r == None <==> |ws| == 5 && ws[0] != "*" && !EveryNth(ws[0]) && !AllDigits(ws[0]) && !ListOfNumbers(ws[0]))
  {
    hide Fields, Spaced, ReadMinute, Sort, LeastGap, EveryNth, ListOfNumbers;
    FieldsOfWords(ws, gaps);
    if |ws| == 5 { MinuteIs(ws[0]); }
  }

  lemma MinuteIs(field: string)
    requires Word(field)
    ensures var m := ReadMinute(field);
      && (field == "*" ==> m == Every)
      && (EveryNth(field) ==> m == Step(DigitsValue(field[2..])))
      && (AllDigits(field) ==> m.Fixed?)
      && (m == Unknown <==> field != "*" && !EveryNth(field) && !AllDigits(field) && !ListOfNumbers(field))
  {
    hide DigitsValue, Split;
    assert AllDigits(field) ==> IsDigit(field[0]);
    var pieces := Split(field, ',');
    assert (forall i :: 0 <= i < |pieces| ==> Numeral(pieces[i])) <==> forall piece :: piece in pieces ==> Numeral(piece);
    assert "*/" <= field <==> |field| >= 2 && field[..2] == "*/";
  }
}
