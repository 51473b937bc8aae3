/** What the gate lets out, what the page answers, and what counts as verified, check by check. */
module BrowserAnswers {
  import opened Text
  import opened BrowserPlan
  import opened BrowserExecute
  import opened BrowserRevert

  // ---- checks in order ----

  /** The objection of the first check that fails, if one does. */
  function FirstFailing<T>(checks: seq<(bool, T)>): Option<T> {
    if checks == [] then None else if !checks[0].0 then Some(checks[0].1) else FirstFailing(checks[1..])
  }

  lemma {:induction false} AllPassExactly<T>(checks: seq<(bool, T)>)
    ensures FirstFailing(checks) == None <==> forall k :: 0 <= k < |checks| ==> checks[k].0
    ensures forall k :: 0 <= k < |checks| && !checks[k].0 && (forall j :: 0 <= j < k ==> checks[j].0) ==> FirstFailing(checks) == Some(checks[k].1)
  {
    if checks != [] {
      AllPassExactly(checks[1..]);
      assert forall k :: 1 <= k < |checks| ==> checks[1..][k - 1] == checks[k];
      if forall k :: 0 <= k < |checks| ==> checks[k].0 {
        assert checks[0].0 && forall k :: 0 <= k < |checks[1..]| ==> checks[1..][k].0;
      }
    }
  }

  lemma FirstOf<T>(check: (bool, T), rest: seq<(bool, T)>)
    ensures FirstFailing([check] + rest) == if check.0 then FirstFailing(rest) else Some(check.1)
  {
    assert ([check] + rest)[1..] == rest;
  }

  // ---- the gate ----

  /** What an action must pass to be sent at all. */
  function Gate(ctx: Context, token: string, spent: set<string>, windowMs: int): seq<(bool, IssueRefusal)> {
    [(ctx.routedToExtension, WrongSource)] + ([(ctx.origins != [], NoAllowedOrigins)] + ([(|token| >= 32, AuthorizationTooWeak)]
    + ([(token !in spent, AuthorizationReused)] + ([(windowMs <= 2 * 60 * 1000, ExpiryWindowTooLong)] + []))))
  }

  /** What a write must pass besides. */
  function WriteGate(ctx: Context): seq<(bool, IssueRefusal)> {
    [(!ctx.shadow, ShadowRunNeverWrites)] + ([(ctx.allowWrites, PolicyForbidsBrowserWrites)] + ([(ctx.approved, ApprovalMissing)]
    + ([(ctx.present, UserAbsent)] + [])))
  }

  lemma GateIs(ctx: Context, token: string, spent: set<string>, windowMs: int)
    ensures FirstFailing(Gate(ctx, token, spent, windowMs)) ==
      if !ctx.routedToExtension then Some(WrongSource) else if ctx.origins == [] then Some(NoAllowedOrigins)
      else if |token| < 32 then Some(AuthorizationTooWeak) else if token in spent then Some(AuthorizationReused)
      else if windowMs > 120000 then Some(ExpiryWindowTooLong) else None
  {
    hide FirstFailing;
    var e := [(windowMs <= 2 * 60 * 1000, ExpiryWindowTooLong)] + [];
    var d := [(token !in spent, AuthorizationReused)] + e;
    var c := [(|token| >= 32, AuthorizationTooWeak)] + d;
    var b := [(ctx.origins != [], NoAllowedOrigins)] + c;
    FirstOf((ctx.routedToExtension, WrongSource), b);
    FirstOf((ctx.origins != [], NoAllowedOrigins), c);
    FirstOf((|token| >= 32, AuthorizationTooWeak), d);
    FirstOf((token !in spent, AuthorizationReused), e);
    FirstOf((windowMs <= 2 * 60 * 1000, ExpiryWindowTooLong), []);
    AllPassExactly<IssueRefusal>([]);
  }

  lemma WriteGateIs(ctx: Context)
    ensures FirstFailing(WriteGate(ctx)) ==
      if ctx.shadow then Some(ShadowRunNeverWrites) else if !ctx.allowWrites then Some(PolicyForbidsBrowserWrites)
      else if !ctx.approved then Some(ApprovalMissing) else if !ctx.present then Some(UserAbsent) else None
  {
    hide FirstFailing;
    var d := [(ctx.present, UserAbsent)] + [];
    var c := [(ctx.approved, ApprovalMissing)] + d;
    var b := [(ctx.allowWrites, PolicyForbidsBrowserWrites)] + c;
    FirstOf((!ctx.shadow, ShadowRunNeverWrites), b);
    FirstOf((ctx.allowWrites, PolicyForbidsBrowserWrites), c);
    FirstOf((ctx.approved, ApprovalMissing), d);
    FirstOf((ctx.present, UserAbsent), []);
    AllPassExactly<IssueRefusal>([]);
  }

  /** A request is held back for the first check it fails, and sent if it passes all; only writes
      need consent. */
  lemma IssueExactly(ctx: Context, a: Action, token: string, spent: set<string>, windowMs: int)
    ensures AuthorizeIssue(ctx, a, token, spent, windowMs) ==
      var first := FirstFailing(Gate(ctx, token, spent, windowMs));
      if first.Some? || a.FocusField? || a.ReadField? then first else FirstFailing(WriteGate(ctx))
  {
    hide FirstFailing, Gate, WriteGate;
    GateIs(ctx, token, spent, windowMs);
    WriteGateIs(ctx);
  }

  // ---- what the page does and answers ----

  /** A control reads this text. */
  ghost predicate Reads(k: Kind, text: string) {
    match k
    case Field(v) => text == v
    case Picklist(options, selected) => if selected < |options| then text == options[selected].0 else text == ""
    case Tick(checked) => text == if checked then "true" else "false"
  }

  /** The part of a text that is told. */
  ghost predicate Begins(told: string, text: string) { told <= text && |told| == if |text| > 512 then 512 else |text| }

  /** A told text is the beginning of what the control reads. */
  ghost predicate Tells(told: Option<string>, k: Kind) { told.Some? && exists text :: Reads(k, text) && Begins(told.value, text) }

  /** Setting a value: a field takes it, a picklist its first option of that value or none, and a tick
      ignores it. */
  ghost predicate SetTo(k: Kind, v: string, after: Kind) {
    match k
    case Field(_) => after == Field(v)
    case Picklist(options, _) =>
      && after.Picklist? && after.options == options && after.selected <= |options|
      && (after.selected < |options| ==> options[after.selected].1 == v)
      && forall j :: 0 <= j < after.selected ==> options[j].1 != v
    case Tick(_) => after == k
  }

  /** Choosing an option: the first whose text or value it is. */
  ghost predicate ChosenAs(k: Kind, option: string, after: Kind) {
    && k.Picklist? && after.Picklist? && after.options == k.options && after.selected < |k.options|
    && (k.options[after.selected].0 == option || k.options[after.selected].1 == option)
    && forall j :: 0 <= j < after.selected ==> k.options[j].0 != option && k.options[j].1 != option
  }

  ghost predicate Offers(k: Kind, option: string) {
    k.Picklist? && exists j :: 0 <= j < |k.options| && (k.options[j].0 == option || k.options[j].1 == option)
  }

  /** The write is answered: this control is changed as asked and nothing else is, and the answer tells
      its name and what it read before and after. */
  ghost predicate Changed(b: Browser, page: Page, id: nat, after: Kind, q: Page, r: Reply)
    requires id in page
  {
    && q == page[id := Control(after, page[id].secure, page[id].editable)]
    && r.Answered? && r.name == b.nameOf(id) && Tells(r.before, page[id].kind) && Tells(r.after, after)
  }

  ghost predicate SetAs(b: Browser, page: Page, id: nat, v: string, q: Page, r: Reply)
    requires id in page
  { exists k :: SetTo(page[id].kind, v, k) && Changed(b, page, id, k, q, r) }

  ghost predicate Chosen(b: Browser, page: Page, id: nat, option: string, q: Page, r: Reply)
    requires id in page
  { exists k :: ChosenAs(page[id].kind, option, k) && Changed(b, page, id, k, q, r) }

  /** What each action does on the control it names, and for what it is refused instead: a protected
      field is neither set nor told; a value is set only where the expected one stands; an option is
      chosen only where it is offered; a click must name its control; and none of the writes happens on
      a control that cannot be edited. */
  ghost predicate Performed(b: Browser, page: Page, id: nat, a: Action, q: Page, r: Reply)
    requires id in page
  {
    var c := page[id];
    match a
    case FocusField(_) => q == page && r.Answered? && r.name == b.nameOf(id) && r.before == None && (if c.secure then r.after == None else Tells(r.after, c.kind))
    case ReadField(_) => q == page && r.Answered? && r.name == b.nameOf(id) && r.before == None && (if c.secure then r.after == None else Tells(r.after, c.kind))
    case SetValue(_, v, expected) =>
      if c.secure then q == page && r == Refused(SecureField)
      else if !c.editable then q == page && r == Refused(NotEditable)
      else if !Reads(c.kind, expected) then q == page && r == Refused(PreconditionFailed)
      else SetAs(b, page, id, v, q, r)
    case SelectOption(_, option) =>
      if !c.editable then q == page && r == Refused(NotEditable)
      else if !Offers(c.kind, option) then q == page && r == Refused(TargetNotFound)
      else Chosen(b, page, id, option, q, r)
    case ClickControl(_, name) =>
      && q == page
      && if name != b.nameOf(id) then r == Refused(ConfirmNameMismatch)
         else if !c.editable then r == Refused(NotEditable)
         else r == Answered(b.nameOf(id), None, None)
  }

  lemma ClipTells(k: Kind)
    ensures Tells(Some(Clip(Shown(k))), k)
    ensures forall text :: Reads(k, text) <==> text == Shown(k)
  {
    assert Reads(k, Shown(k)) && Begins(Clip(Shown(k)), Shown(k));
  }

  lemma {:induction false} FirstValueIs(options: seq<(string, string)>, v: string)
    ensures var k := FirstValue(options, v);
      (k < |options| ==> options[k].1 == v) && forall j :: 0 <= j < k ==> options[j].1 != v
  {
    if options != [] && options[0].1 != v {
      FirstValueIs(options[1..], v);
      assert forall j :: 1 <= j < |options| ==> options[j] == options[1..][j - 1];
    }
  }

  lemma SetPerforms(b: Browser, page: Page, id: nat, a: Action)
    requires id in page && a.SetValue?
    ensures var (c, r) := OnControl(b, id, page[id], a); Performed(b, page, id, a, page[id := c], r)
  {
    hide Shown, Clip, Tells, Reads, FirstValue;
    var c := page[id];
    var k := SetNative(c.kind, a.value);
    ClipTells(c.kind);
    ClipTells(k);
    assert page[id := c] == page;
    if c.kind.Picklist? { FirstValueIs(c.kind.options, a.value); }
    assert SetTo(c.kind, a.value, k);
  }

  lemma SelectPerforms(b: Browser, page: Page, id: nat, a: Action)
    requires id in page && a.SelectOption?
    ensures var (c, r) := OnControl(b, id, page[id], a); Performed(b, page, id, a, page[id := c], r)
  {
    hide Shown, Clip, Tells, Reads, FirstOption;
    var c := page[id];
    assert page[id := c] == page;
    if c.kind.Picklist? && FirstOption(c.kind.options, a.option) < |c.kind.options| {
      var k := c.kind.(selected := FirstOption(c.kind.options, a.option));
      ClipTells(c.kind);
      ClipTells(k);
      assert ChosenAs(c.kind, a.option, k);
    }
  }

  /** An action on a target that names one control of the page is performed on it; one that names
      none, or several, is refused and changes nothing. */
  lemma PerformedExactly(b: Browser, page: Page, a: Action)
    ensures var (q, r) := Perform(b, page, a);
      match b.find(a.target)
      case Here(id) => if id in page then Performed(b, page, id, a, q, r) else q == page && r == Refused(TargetNotFound)
      case NotFound => q == page && r == Refused(TargetNotFound)
      case Ambiguous => q == page && r == Refused(TargetAmbiguous)
  {
    hide Shown, Clip, Tells, SetAs, Chosen;
    if b.find(a.target).Here? && b.find(a.target).id in page {
      var id := b.find(a.target).id;
      assert page[id := page[id]] == page;
      if a.SetValue? { SetPerforms(b, page, id, a); }
      else if a.SelectOption? { SelectPerforms(b, page, id, a); }
      else { ClipTells(page[id].kind); }
    }
  }

  // ---- what is reported ----

  /** A field counts as written when the page says it reads the value, spaces around it aside; a click
      when the control that answered bears the confirmed name, and it is confirmed by the reads after
      it. */
  lemma VerifiedExactly(b: Browser, a: Action, r: Reply)
    requires r.Answered?
    ensures VerifyWrite(b, a, r) == Verified <==>
      && (a.SetValue? || a.SelectOption?) && r.after.Some?
      && Trim(r.after.value) == Trim(if a.SetValue? then a.value else a.option)
    ensures VerifyWrite(b, a, r) == RequiresIndependentRead <==> a.ClickControl? && b.normal(r.name) == b.normal(a.confirmName)
    ensures VerifyWrite(b, a, r) == NotAWrite <==> a.FocusField? || a.ReadField?
  {
  }

  /** The status a running step ends with. */
  function StatusOf(b: Browser, s: Step, refusal: Option<IssueRefusal>, reply: Option<Reply>): Status {
    if refusal.Some? then NotIssued
    else match reply
      case None => Failed
      case Some(Refused(_)) => RefusedByBrowser
      case Some(Answered(_, _, _)) =>
        if !s.write then Observed
        else if VerifyWrite(b, s.action, reply.value) in {Verified, RequiresIndependentRead} then Status.Applied
        else Unverified
  }

  /** A running step reports itself, its status, and, if the page answered, what the page told; only
      then does the page become what the step left. */
  lemma OutcomeExactly(b: Browser, ctx: Context, r: Run, s: Step, token: string, page: Page, reply: Option<Reply>)
    requires r.haltedAt.None?
    ensures var t := StepWith(b, ctx, r, s, token, page, reply);
      var refusal := AuthorizeIssue(ctx, s.action, token, r.spent, 30 * 1000);
      var told := refusal.None? && reply.Some? && reply.value.Answered?;
      && t.outcomes == r.outcomes + [StepOutcome(s.stepId, StatusOf(b, s, refusal, reply), s.write, s.change,
                                                 if told then reply.value.before else None, if told then reply.value.after else None)]
      && t.page == (if refusal.Some? then r.page else page)
  {
    hide AuthorizeIssue, VerifyWrite;
  }

  /** What a revert starts from: of each applied or unverified write of a field, its change, what the
      page held before, and what was written. */
  lemma ItemExactly(cs: seq<Change>, o: StepOutcome)
    ensures Item(cs, o) ==
      if o.write && (o.status == Status.Applied || o.status == Unverified) && (exists head :: o.stepId == head + "-set")
         && o.change.Some? && o.change.value < |cs|
      then [BrowserPlan.Applied(cs[o.change.value], o.before, cs[o.change.value].to)] else []
  {
    if IsSetStep(o.stepId) { assert o.stepId == o.stepId[..|o.stepId| - 4] + "-set"; }
    if head :| o.stepId == head + "-set" { assert o.stepId[|o.stepId| - 4..] == "-set"; }
  }
}
