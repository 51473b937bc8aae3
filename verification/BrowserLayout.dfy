/** The plan of a list of changes, position by position, and why a list is refused. */
module BrowserLayout {
  import opened Text
  import opened BrowserPlan

  // ---- where everything is ----

  predicate Picklist(c: Change) { c.role == Some(Combobox) }

  /** The position at which change i starts: three steps a change, four for a picklist. */
  function Pos(cs: seq<Change>, i: nat): nat
    requires i <= |cs|
  { if i == 0 then 0 else Pos(cs, i - 1) + if Picklist(cs[i - 1]) then 4 else 3 }

  /** The control a change is about: a text box unless it says otherwise. */
  function Control(c: Change): Target { Target(if c.role.None? then Textbox else c.role.value, c.fieldLabel, c.nth) }

  ghost predicate Looks(s: Step, id: string, a: Action, i: nat) { s == Step("c" + Decimal(i) + "-" + id, a, Some(i), false) }

  ghost predicate Sets(s: Step, a: Action, i: nat) { s == Step("c" + Decimal(i) + "-set", a, Some(i), true) }

  /** Change i is carried out on its own control from position p on: shown, set to its new value
      provided the old one is still there, and read back; a picklist is also read first, because
      choosing an option cannot be made to depend on the old value. */
  ghost predicate LaidAt(steps: seq<Step>, c: Change, i: nat, p: nat) {
    var t := Control(c);
    if Picklist(c) then
      && p + 4 <= |steps|
      && Looks(steps[p], "focus", FocusField(t), i) && Looks(steps[p + 1], "before", ReadField(t), i)
      && Sets(steps[p + 2], SelectOption(t, c.to), i) && Looks(steps[p + 3], "verify", ReadField(t), i)
    else
      && p + 3 <= |steps|
      && Looks(steps[p], "focus", FocusField(t), i) && Sets(steps[p + 1], SetValue(t, c.to, c.from), i)
      && Looks(steps[p + 2], "verify", ReadField(t), i)
  }

  ghost predicate Laid(steps: seq<Step>, cs: seq<Change>, i: nat)
    requires i < |cs|
  { LaidAt(steps, cs[i], i, Pos(cs, i)) }

  predicate Saves(save: Option<string>) { save.Some? && Trim(save.value) != "" }

  /** Change i is read once more, i steps after the save. */
  ghost predicate Confirmed(steps: seq<Step>, cs: seq<Change>, end: nat, i: nat)
    requires i < |cs|
  { end + 1 + i < |steps| && Looks(steps[end + 1 + i], "confirm", ReadField(Control(cs[i])), i) }

  /** The whole plan: every change in order, then, if a save control is named, one click on it and
      one read of every change in order; nothing else. */
  ghost predicate LaidOut(steps: seq<Step>, cs: seq<Change>, save: Option<string>) {
    var end := Pos(cs, |cs|);
    && (forall i :: 0 <= i < |cs| ==> Laid(steps, cs, i))
    && if Saves(save)
       then
         && |steps| == end + 1 + |cs|
         && steps[end] == Step("save", ClickControl(Target(Button, save.value, None), save.value), None, true)
         && forall i :: 0 <= i < |cs| ==> Confirmed(steps, cs, end, i)
       else |steps| == end
  }

  // ---- the planner lays out exactly this ----

  lemma {:induction false} PosGrows(cs: seq<Change>, i: nat, j: nat)
    requires i < j <= |cs|
    ensures Pos(cs, i) + (if Picklist(cs[i]) then 4 else 3) <= Pos(cs, j)
  {
    if i < j - 1 { PosGrows(cs, i, j - 1); }
  }

  lemma BlockLaid(before: seq<Step>, c: Change, i: nat, after: seq<Step>)
    ensures LaidAt(before + Block(i, c) + after, c, i, |before|)
    ensures |Block(i, c)| == if Picklist(c) then 4 else 3
  {
    var block := Block(i, c);
    var steps := before + block + after;
    assert forall j :: 0 <= j < |block| ==> steps[|before| + j] == block[j];
  }

  lemma {:induction false} BlocksLaid(cs: seq<Change>, n: nat, after: seq<Step>)
    requires n <= |cs|
    ensures |Blocks(cs, n)| == Pos(cs, n)
    ensures forall i :: 0 <= i < n ==> Laid(Blocks(cs, n) + after, cs, i)
  {
    hide Block, LaidAt;
    if n > 0 {
      BlocksLaid(cs, n - 1, Block(n - 1, cs[n - 1]) + after);
      BlockLaid(Blocks(cs, n - 1), cs[n - 1], n - 1, after);
      assert Blocks(cs, n) + after == Blocks(cs, n - 1) + Block(n - 1, cs[n - 1]) + after;
      assert Blocks(cs, n) + after == Blocks(cs, n - 1) + (Block(n - 1, cs[n - 1]) + after);
    }
  }

  lemma {:induction false} ConfirmsLaid(before: seq<Step>, cs: seq<Change>, n: nat, end: nat, after: seq<Step>)
    requires n <= |cs| && |before| == end + 1
    ensures |Confirms(cs, n)| == n
    ensures forall i :: 0 <= i < n ==> Confirmed(before + Confirms(cs, n) + after, cs, end, i)
  {
    if n > 0 {
      var last := [Step(StepName(n - 1, "confirm"), ReadField(TargetOf(cs[n - 1])), Some(n - 1), false)];
      ConfirmsLaid(before, cs, n - 1, end, last + after);
      assert before + Confirms(cs, n) + after == before + Confirms(cs, n - 1) + (last + after);
      assert (before + Confirms(cs, n - 1) + (last + after))[end + n] == last[0];
    }
  }

  lemma PlanLaid(lower: string -> string, cs: seq<Change>, save: Option<string>)
    requires PlanOf(lower, cs, save).Planned?
    ensures LaidOut(PlanOf(lower, cs, save).steps, cs, save)
  {
    hide Blocks, Confirms, Laid, Confirmed, FirstObjection;
    BlocksLaid(cs, |cs|, Saving(cs, save));
    if Saves(save) {
      var click := [Step("save", ClickControl(Target(Button, save.value, None), save.value), None, true)];
      ConfirmsLaid(Blocks(cs, |cs|) + click, cs, |cs|, Pos(cs, |cs|), []);
      assert Blocks(cs, |cs|) + Saving(cs, save) == Blocks(cs, |cs|) + click + Confirms(cs, |cs|) + [];
    }
  }

  /** The change a position belongs to. */
  lemma {:induction false} ChangeAt(cs: seq<Change>, n: nat, p: nat) returns (i: nat)
    requires n <= |cs| && p < Pos(cs, n)
    ensures i < n && Pos(cs, i) <= p < Pos(cs, i + 1)
  {
    if p >= Pos(cs, n - 1) { i := n - 1; } else { i := ChangeAt(cs, n - 1, p); }
  }

  lemma LaidAlike(a: seq<Step>, b: seq<Step>, c: Change, i: nat, p: nat, k: nat)
    requires LaidAt(a, c, i, p) && LaidAt(b, c, i, p) && p <= k < p + if Picklist(c) then 4 else 3
    ensures k < |a| && k < |b| && a[k] == b[k]
  {
  }

  /** The layout leaves nothing open. */
  lemma LaidOutOnce(a: seq<Step>, b: seq<Step>, cs: seq<Change>, save: Option<string>)
    requires LaidOut(a, cs, save) && LaidOut(b, cs, save)
    ensures a == b
  {
    var end := Pos(cs, |cs|);
    assert |a| == |b|;
    forall p | 0 <= p < |a| ensures a[p] == b[p] {
      if p < end {
        var i := ChangeAt(cs, |cs|, p);
        assert Laid(a, cs, i) && Laid(b, cs, i);
        LaidAlike(a, b, cs[i], i, Pos(cs, i), p);
      } else if p > end {
        assert Confirmed(a, cs, end, p - end - 1) && Confirmed(b, cs, end, p - end - 1);
      }
    }
  }

  /** The planner answers these steps exactly when the changes can be planned and the steps are
      their layout. */
  lemma PlannedExactly(lower: string -> string, cs: seq<Change>, save: Option<string>, steps: seq<Step>)
    ensures PlanOf(lower, cs, save) == Planned(steps) <==> 1 <= |cs| <= 50 && Plannable(lower, cs) && LaidOut(steps, cs, save)
  {
    hide PlanOf, Plannable, LaidOut;
    PlansExactly(lower, cs, save);
    if PlanOf(lower, cs, save).Planned? {
      PlanLaid(lower, cs, save);
      if LaidOut(steps, cs, save) { LaidOutOnce(steps, PlanOf(lower, cs, save).steps, cs, save); }
    }
  }

  // ---- why a list of changes is refused ----

  /** Two changes address one control, as the planner compares them. */
  predicate SameControl(lower: string -> string, a: Change, b: Change) {
    Control(a).role == Control(b).role && lower(Trim(a.fieldLabel)) == lower(Trim(b.fieldLabel)) && a.nth == b.nth
  }

  lemma KeysExactly(lower: string -> string, a: Change, b: Change)
    ensures Key(lower, a) == Key(lower, b) <==> SameControl(lower, a, b)
  {
    if Key(lower, a) == Key(lower, b) {
      var (x, y) := (lower(Trim(a.fieldLabel)), lower(Trim(b.fieldLabel)));
      var (m, n) := (Position(a), Position(b));
      var (s, t) := (RoleName(RoleOf(a)), RoleName(RoleOf(b)));
      assert Key(lower, a) == (s + "|" + x) + "|" + m && Key(lower, b) == (t + "|" + y) + "|" + n;
      LastPiece(s + "|" + x, t + "|" + y, m, n, '|');
      SplitOnceAt(s, '|', x);
      SplitOnceAt(t, '|', y);
      assert s + "|" + x == s + ['|'] + x && t + "|" + y == t + ['|'] + y;
      if a.nth.Some? && b.nth.Some? { DecimalInjective(a.nth.value, b.nth.value); }
    }
  }

  function Position(c: Change): (s: string)
    ensures '|' !in s
  { if c.nth.Some? then Decimal(c.nth.value) else "" }

  ghost predicate ControlTaken(lower: string -> string, cs: seq<Change>, n: nat)
    requires n < |cs|
  { exists j :: 0 <= j < n && SameControl(lower, cs[j], cs[n]) }

  /** Change n is the first that cannot be planned, for this reason. */
  ghost predicate Objects(lower: string -> string, cs: seq<Change>, n: nat, r: Refusal)
    requires n < |cs|
  {
    && Plannable(lower, cs[..n])
    && (if Trim(cs[n].fieldLabel) == "" then r == MissingFieldLabel
        else if cs[n].from == cs[n].to then r == NoChangeNeeded
        else r == DuplicateTarget && ControlTaken(lower, cs, n))
  }

  lemma ObjectionIs(lower: string -> string, cs: seq<Change>, n: nat)
    requires n < |cs| && Plannable(lower, cs[..n]) && Objection(lower, cs, n).Some?
    ensures Objects(lower, cs, n, Objection(lower, cs, n).value)
  {
    hide Key;
    if Objection(lower, cs, n).value == DuplicateTarget {
      var j :| 0 <= j < n && Key(lower, cs[..n][j]) == Key(lower, cs[n]);
      KeysExactly(lower, cs[j], cs[n]);
    }
  }

  lemma {:induction false} FirstObjects(lower: string -> string, cs: seq<Change>, n: nat) returns (k: nat)
    requires n <= |cs| && FirstObjection(lower, cs, n).Some?
    ensures k < n && Objects(lower, cs, k, FirstObjection(lower, cs, n).value)
  {
    hide Objection, Objects;
    if FirstObjection(lower, cs, n - 1).Some? {
      k := FirstObjects(lower, cs, n - 1);
    } else {
      NoObjectionExactly(lower, cs, n - 1);
      k := n - 1;
      ObjectionIs(lower, cs, k);
    }
  }

  /** An empty list, one of more than fifty, or the first change without a label, without a
      difference, or on a control that an earlier change is about. */
  lemma RefusedFor(lower: string -> string, cs: seq<Change>, save: Option<string>) returns (k: nat)
    requires PlanOf(lower, cs, save).NotPlanned?
    ensures var r := PlanOf(lower, cs, save).reason;
      && (r == NoChanges <==> |cs| == 0)
      && (r == TooManyChanges <==> |cs| > 50)
      && (1 <= |cs| <= 50 ==> k < |cs| && Objects(lower, cs, k, r))
  {
    hide Objects, FirstObjection;
    k := 0;
    if 1 <= |cs| <= 50 {
      k := FirstObjects(lower, cs, |cs|);
      NotALength(lower, cs, k, PlanOf(lower, cs, save).reason);
    }
  }

  lemma NotALength(lower: string -> string, cs: seq<Change>, k: nat, r: Refusal)
    requires k < |cs| && Objects(lower, cs, k, r)
    ensures r != NoChanges && r != TooManyChanges
  {
  }
}
