/** Approved changes turned into an ordered list of browser actions, and back again. */
module BrowserPlan {
  import opened Text

  datatype Role = Textbox | Combobox | Checkbox | Button | Link | Cell

  function RoleName(r: Role): string {
    match r
    case Textbox => "textbox" case Combobox => "combobox" case Checkbox => "checkbox"
    case Button => "button" case Link => "link" case Cell => "cell"
  }

  datatype Target = Target(role: Role, name: string, nth: Option<nat>)

  datatype Change = Change(record: string, fieldLabel: string, from: string, to: string, role: Option<Role>, nth: Option<nat>)

  datatype Action =
    | FocusField(target: Target)
    | ReadField(target: Target)
    | SetValue(target: Target, value: string, expectCurrent: string)
    | SelectOption(target: Target, option: string)
    | ClickControl(target: Target, confirmName: string)

  predicate IsWrite(a: Action) { a.SetValue? || a.SelectOption? || a.ClickControl? }

  datatype Step = Step(stepId: string, action: Action, change: Option<nat>, write: bool)

  datatype Refusal = NoChanges | TooManyChanges | MissingFieldLabel | NoChangeNeeded | DuplicateTarget

  datatype Plan = Planned(steps: seq<Step>) | NotPlanned(reason: Refusal)

  const MAX_PLAN_CHANGES := 50

  function RoleOf(c: Change): Role { if c.role.Some? then c.role.value else Textbox }

  function TargetOf(c: Change): Target { Target(RoleOf(c), c.fieldLabel, c.nth) }

  /** The duplicate check compares role, trimmed lower-case label and position. */
  function Key(lower: string -> string, c: Change): string {
    RoleName(RoleOf(c)) + "|" + lower(Trim(c.fieldLabel)) + "|" + if c.nth.Some? then Decimal(c.nth.value) else ""
  }

  function Keys(lower: string -> string, cs: seq<Change>): set<string> { set i | 0 <= i < |cs| :: Key(lower, cs[i]) }

  /** Why change n refuses the plan, seen after the changes before it. */
  function Objection(lower: string -> string, cs: seq<Change>, n: nat): Option<Refusal>
    requires n < |cs|
  {
    if Trim(cs[n].fieldLabel) == "" then Some(MissingFieldLabel)
    else if cs[n].from == cs[n].to then Some(NoChangeNeeded)
    else if Key(lower, cs[n]) in Keys(lower, cs[..n]) then Some(DuplicateTarget)
    else None
  }

  /** The first objection among the first n changes. */
  function FirstObjection(lower: string -> string, cs: seq<Change>, n: nat): Option<Refusal>
    requires n <= |cs|
  {
    if n == 0 then None
    else
      var front := FirstObjection(lower, cs, n - 1);
      if front.Some? then front else Objection(lower, cs, n - 1)
  }

  // ---- the steps of a plan ----

  function StepName(i: nat, what: string): string { "c" + Decimal(i) + "-" + what }

  /** Show the field, read it first if it is a picklist, set it, read it back. */
  function Block(i: nat, c: Change): seq<Step> {
    var t := TargetOf(c);
    [Step(StepName(i, "focus"), FocusField(t), Some(i), false)]
    + (if t.role == Combobox
       then [Step(StepName(i, "before"), ReadField(t), Some(i), false), Step(StepName(i, "set"), SelectOption(t, c.to), Some(i), true)]
       else [Step(StepName(i, "set"), SetValue(t, c.to, c.from), Some(i), true)])
    + [Step(StepName(i, "verify"), ReadField(t), Some(i), false)]
  }

  function Blocks(cs: seq<Change>, n: nat): seq<Step>
    requires n <= |cs|
  { if n == 0 then [] else Blocks(cs, n - 1) + Block(n - 1, cs[n - 1]) }

  function Confirms(cs: seq<Change>, n: nat): seq<Step>
    requires n <= |cs|
  {
    if n == 0 then []
    else Confirms(cs, n - 1) + [Step(StepName(n - 1, "confirm"), ReadField(TargetOf(cs[n - 1])), Some(n - 1), false)]
  }

  function Saving(cs: seq<Change>, save: Option<string>): seq<Step> {
    if save.None? || Trim(save.value) == "" then []
    else [Step("save", ClickControl(Target(Button, save.value, None), save.value), None, true)] + Confirms(cs, |cs|)
  }

  function PlanOf(lower: string -> string, cs: seq<Change>, save: Option<string>): Plan {
    if |cs| == 0 then NotPlanned(NoChanges)
    else if |cs| > MAX_PLAN_CHANGES then NotPlanned(TooManyChanges)
    else
      var o := FirstObjection(lower, cs, |cs|);
      if o.Some? then NotPlanned(o.value) else Planned(Blocks(cs, |cs|) + Saving(cs, save))
  }

  /** `planBrowserWrites`. */
  method PlanBrowserWrites(lower: string -> string, cs: seq<Change>, save: Option<string>) returns (p: Plan)
    ensures p == PlanOf(lower, cs, save)
  {
    hide Block, Key;
    if |cs| == 0 { return NotPlanned(NoChanges); }
    if |cs| > MAX_PLAN_CHANGES { return NotPlanned(TooManyChanges); }
    var refused := Screen(lower, cs);
    if refused.Some? { return NotPlanned(refused.value); }
    var steps: seq<Step> := [];
    var i := 0;
    while i < |cs|
      invariant i <= |cs| && steps == Blocks(cs, i)
    {
      steps := steps + Block(i, cs[i]);
      i := i + 1;
    }
    if save.Some? && Trim(save.value) != "" {
      var tail := [Step("save", ClickControl(Target(Button, save.value, None), save.value), None, true)];
      ghost var head := tail;
      i := 0;
      while i < |cs|
        invariant i <= |cs| && tail == head + Confirms(cs, i)
      {
        tail := tail + [Step(StepName(i, "confirm"), ReadField(TargetOf(cs[i])), Some(i), false)];
        i := i + 1;
      }
      steps := steps + tail;
    }
    return Planned(steps);
  }

  /** The screening loop, with the set of keys seen so far. */
  method Screen(lower: string -> string, cs: seq<Change>) returns (refused: Option<Refusal>)
    ensures refused == FirstObjection(lower, cs, |cs|)
  {
    hide Key;
    var seen: set<string> := {};
    var i := 0;
    while i < |cs|
      invariant i <= |cs| && seen == Keys(lower, cs[..i]) && FirstObjection(lower, cs, i).None?
    {
      var change := cs[i];
      var key := Key(lower, change);
      if Trim(change.fieldLabel) == "" { ObjectionStays(lower, cs, i + 1); return Some(MissingFieldLabel); }
      if change.from == change.to { ObjectionStays(lower, cs, i + 1); return Some(NoChangeNeeded); }
      if key in seen { ObjectionStays(lower, cs, i + 1); return Some(DuplicateTarget); }
      KeysGrow(lower, cs, i);
      seen := seen + {key};
      i := i + 1;
    }
    return None;
  }

  lemma {:induction false} ObjectionStays(lower: string -> string, cs: seq<Change>, n: nat)
    requires n <= |cs| && FirstObjection(lower, cs, n).Some?
    ensures FirstObjection(lower, cs, |cs|) == FirstObjection(lower, cs, n)
    decreases |cs| - n
  {
    hide Objection;
    if n < |cs| { ObjectionStays(lower, cs, n + 1); }
  }

  lemma KeysGrow(lower: string -> string, cs: seq<Change>, n: nat)
    requires n < |cs|
    ensures Keys(lower, cs[..n + 1]) == Keys(lower, cs[..n]) + {Key(lower, cs[n])}
  {
    hide Key;
    var (a, b) := (cs[..n], cs[..n + 1]);
    forall k | k in Keys(lower, a) ensures k in Keys(lower, b) {
      var i :| 0 <= i < n && Key(lower, a[i]) == k;
      assert Key(lower, b[i]) == k;
    }
    assert Key(lower, b[n]) in Keys(lower, b);
    forall k | k in Keys(lower, b) ensures k in Keys(lower, a) + {Key(lower, cs[n])} {
      var i :| 0 <= i <= n && Key(lower, b[i]) == k;
      if i < n { assert Key(lower, a[i]) == k; }
    }
  }

  /** A list of changes the planner accepts, apart from its length. */
  ghost predicate Plannable(lower: string -> string, cs: seq<Change>) {
    && (forall i :: 0 <= i < |cs| ==> Trim(cs[i].fieldLabel) != "" && cs[i].from != cs[i].to)
    && (forall i, j :: 0 <= i < j < |cs| ==> Key(lower, cs[i]) != Key(lower, cs[j]))
  }

  lemma {:induction false} NoObjectionExactly(lower: string -> string, cs: seq<Change>, n: nat)
    requires n <= |cs|
    ensures FirstObjection(lower, cs, n).None? <==> Plannable(lower, cs[..n])
  {
    hide Key;
    if n > 0 {
      NoObjectionExactly(lower, cs, n - 1);
      var (a, b, last) := (cs[..n - 1], cs[..n], cs[n - 1]);
      assert b == a + [last];
      assert Objection(lower, cs, n - 1).None? <==>
             Trim(last.fieldLabel) != "" && last.from != last.to && forall i :: 0 <= i < n - 1 ==> Key(lower, a[i]) != Key(lower, last) by {
        assert forall i :: 0 <= i < n - 1 ==> Key(lower, a[i]) in Keys(lower, a);
      }
      assert forall i :: 0 <= i < n - 1 ==> a[i] == b[i];
    }
  }

  /** The planner produces a plan exactly for one to fifty changes, each labelled, each a real
      change, and no two of one control. */
  lemma PlansExactly(lower: string -> string, cs: seq<Change>, save: Option<string>)
    ensures PlanOf(lower, cs, save).Planned? <==> 1 <= |cs| <= MAX_PLAN_CHANGES && Plannable(lower, cs)
  {
    NoObjectionExactly(lower, cs, |cs|);
    assert cs[..|cs|] == cs;
    hide FirstObjection, Plannable, Blocks, Saving;
  }

  // ---- the plan that puts changes back ----

  datatype Applied = Applied(change: Change, before: Option<string>, wrote: string)

  predicate Restorable(a: Applied) { a.before.Some? && a.before.value != a.wrote }

  function Reversed(a: Applied): Change
    requires Restorable(a)
  { a.change.(from := a.wrote, to := a.before.value) }

  /** The restorable ones, last first, each from what was written to what the page had held. */
  function Reversals(applied: seq<Applied>): seq<Change> {
    if applied == [] then []
    else
      (if Restorable(applied[|applied| - 1]) then [Reversed(applied[|applied| - 1])] else []) + Reversals(applied[..|applied| - 1])
  }

  /** `planRevert`. */
  function PlanRevert(lower: string -> string, applied: seq<Applied>): Plan { PlanOf(lower, Reversals(applied), None) }
}
