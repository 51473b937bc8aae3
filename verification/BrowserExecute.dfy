/** A browser plan carried out step by step against a page, halting at the first doubt. */
module BrowserExecute {
  import opened Text
  import opened BrowserPlan

  // ---- the page, as the in-page script sees it ----

  datatype Kind = Field(value: string) | Picklist(options: seq<(string, string)>, selected: nat) | Tick(checked: bool)

  datatype Control = Control(kind: Kind, secure: bool, editable: bool)

  type Page = map<nat, Control>

  datatype Found = Here(id: nat) | NotFound | Ambiguous

  /** Which control a target names, and every control's accessible name; filling fields changes
      neither. `normal` is the name normalisation of the read-back check. */
  datatype Browser = Browser(find: Target -> Found, nameOf: nat -> string, normal: string -> string)

  const MAX_VALUE := 512

  function Clip(s: string): string { if |s| > MAX_VALUE then s[..MAX_VALUE] else s }

  /** `valueOf`: the text of the selected option, the tick as a word, or the value. */
  function Shown(k: Kind): string {
    match k
    case Field(v) => v
    case Picklist(options, selected) => if selected < |options| then options[selected].0 else ""
    case Tick(checked) => if checked then "true" else "false"
  }

  /** The first option whose text or value is the given one, or the number of options. */
  function FirstOption(options: seq<(string, string)>, wanted: string): (k: nat)
    ensures k <= |options|
    ensures k < |options| ==> options[k].0 == wanted || options[k].1 == wanted
    ensures forall j :: 0 <= j < k ==> options[j].0 != wanted && options[j].1 != wanted
  {
    if options == [] then 0
    else if options[0].0 == wanted || options[0].1 == wanted then 0
    else 1 + FirstOption(options[1..], wanted)
  }

  function FirstValue(options: seq<(string, string)>, wanted: string): (k: nat)
    ensures k <= |options|
  { if options == [] then 0 else if options[0].1 == wanted then 0 else 1 + FirstValue(options[1..], wanted) }

  /** `setNative`: a tick ignores it, a picklist takes an option of that value or none. */
  function SetNative(k: Kind, v: string): Kind {
    match k
    case Field(_) => Field(v)
    case Picklist(options, _) => Picklist(options, FirstValue(options, v))
    case Tick(_) => k
  }

  datatype Reason = TargetNotFound | TargetAmbiguous | SecureField | NotEditable | PreconditionFailed | ConfirmNameMismatch

  datatype Reply = Refused(reason: Reason) | Answered(name: string, before: Option<string>, after: Option<string>)

  function Resolve(b: Browser, page: Page, t: Target): Found {
    match b.find(t)
    case Here(id) => if id in page then Here(id) else NotFound
    case NotFound => NotFound
    case Ambiguous => Ambiguous
  }

  /** What an action does to one control, and the answer; None leaves the control alone. */
  function OnControl(b: Browser, id: nat, c: Control, a: Action): (Control, Reply) {
    match a
    case FocusField(_) => (c, Answered(b.nameOf(id), None, if c.secure then None else Some(Clip(Shown(c.kind)))))
    case ReadField(_) => (c, Answered(b.nameOf(id), None, if c.secure then None else Some(Clip(Shown(c.kind)))))
    case SetValue(_, v, expected) =>
      if c.secure then (c, Refused(SecureField))
      else if !c.editable then (c, Refused(NotEditable))
      else if Shown(c.kind) != expected then (c, Refused(PreconditionFailed))
      else
        var d := c.(kind := SetNative(c.kind, v));
        (d, Answered(b.nameOf(id), Some(Clip(Shown(c.kind))), Some(Clip(Shown(d.kind)))))
    case SelectOption(_, option) =>
      if !c.editable then (c, Refused(NotEditable))
      else if !c.kind.Picklist? || FirstOption(c.kind.options, option) == |c.kind.options| then (c, Refused(TargetNotFound))
      else
        var d := c.(kind := c.kind.(selected := FirstOption(c.kind.options, option)));
        (d, Answered(b.nameOf(id), Some(Clip(Shown(c.kind))), Some(Clip(Shown(d.kind)))))
    case ClickControl(_, confirm) =>
      if b.nameOf(id) != confirm then (c, Refused(ConfirmNameMismatch))
      else if !c.editable then (c, Refused(NotEditable))
      else (c, Answered(b.nameOf(id), None, None))
  }

  /** One action performed in the page. A click leaves the fields as they are. */
  function Perform(b: Browser, page: Page, a: Action): (Page, Reply) {
    match Resolve(b, page, a.target)
    case NotFound => (page, Refused(TargetNotFound))
    case Ambiguous => (page, Refused(TargetAmbiguous))
    case Here(id) =>
      var (c, r) := OnControl(b, id, page[id], a);
      (page[id := c], r)
  }

  /** An answer arrives, or dispatching fails (no relay, a timeout, an answer that breaks the
      contract), before the action is performed or after. */
  datatype Delivery = Delivered | Lost(landed: bool)

  function Deliver(b: Browser, page: Page, a: Action, d: Delivery): (Page, Option<Reply>) {
    match d
    case Delivered => var (p, r) := Perform(b, page, a); (p, Some(r))
    case Lost(landed) => (if landed then Perform(b, page, a).0 else page, None)
  }

  /** The window a plan runs in. */
  class Window {
    const b: Browser
    var page: Page

    constructor (b: Browser, page: Page)
      ensures this.b == b && this.page == page
    { this.b, this.page := b, page; }

    method Dispatch(a: Action, d: Delivery) returns (r: Option<Reply>)
      modifies this
      ensures (page, r) == Deliver(b, old(page), a, d)
    {
      if d == Lost(false) { return None; }
      var done := Perform(b, page, a);
      page := done.0;
      return if d.Delivered? then Some(done.1) else None;
    }
  }

  // ---- the gate and the read-back ----

  datatype Context = Context(routedToExtension: bool, shadow: bool, allowWrites: bool, approved: bool, present: bool, origins: seq<string>)

  datatype IssueRefusal =
    | WrongSource | NoAllowedOrigins | AuthorizationTooWeak | AuthorizationReused | ExpiryWindowTooLong
    | ShadowRunNeverWrites | PolicyForbidsBrowserWrites | ApprovalMissing | UserAbsent

  const MAX_AUTHORIZATION_WINDOW_MS := 120_000
  const REQUEST_WINDOW_MS := if 30_000 < MAX_AUTHORIZATION_WINDOW_MS then 30_000 else MAX_AUTHORIZATION_WINDOW_MS
  const MIN_AUTHORIZATION_LENGTH := 32

  /** `authorizeIssue`: None lets the request go out. */
  function AuthorizeIssue(ctx: Context, a: Action, token: string, spent: set<string>, windowMs: int): Option<IssueRefusal> {
    if !ctx.routedToExtension then Some(WrongSource)
    else if |ctx.origins| == 0 then Some(NoAllowedOrigins)
    else if |token| < MIN_AUTHORIZATION_LENGTH then Some(AuthorizationTooWeak)
    else if token in spent then Some(AuthorizationReused)
    else if windowMs > MAX_AUTHORIZATION_WINDOW_MS then Some(ExpiryWindowTooLong)
    else if !IsWrite(a) then None
    else if ctx.shadow then Some(ShadowRunNeverWrites)
    else if !ctx.allowWrites then Some(PolicyForbidsBrowserWrites)
    else if !ctx.approved then Some(ApprovalMissing)
    else if !ctx.present then Some(UserAbsent)
    else None
  }

  predicate ValuesMatch(expected: string, actual: Option<string>) { actual.Some? && Trim(expected) == Trim(actual.value) }

  datatype Verification = Verified | ValueMismatch | RequiresIndependentRead | NotAWrite

  /** `verifyWrite` of an answered write. */
  function VerifyWrite(b: Browser, a: Action, r: Reply): Verification
    requires r.Answered?
  {
    match a
    case ClickControl(_, confirm) => if b.normal(confirm) == b.normal(r.name) then RequiresIndependentRead else ValueMismatch
    case SetValue(_, v, _) => if ValuesMatch(v, r.after) then Verified else ValueMismatch
    case SelectOption(_, option) => if ValuesMatch(option, r.after) then Verified else ValueMismatch
    case _ => NotAWrite
  }

  // ---- the run ----

  datatype Status = Applied | Observed | RefusedByBrowser | Failed | NotIssued | Unverified | Skipped

  datatype StepOutcome = StepOutcome(stepId: string, status: Status, write: bool, change: Option<nat>, before: Option<string>, after: Option<string>)

  /** The token minted for a step and what becomes of its request. */
  datatype Attempt = Attempt(token: string, delivery: Delivery)

  type Script = nat -> Attempt

  /** Where a run stands: outcomes so far, tokens spent, requests sent in order, and the halt. */
  datatype Run = Run(
    page: Page, outcomes: seq<StepOutcome>, spent: set<string>, sent: seq<(string, string)>,
    haltedAt: Option<string>, writesApplied: nat, allVerified: bool)

  function Start(page: Page): Run { Run(page, [], {}, [], None, 0, true) }

  function Report(s: Step, status: Status, before: Option<string>, after: Option<string>): StepOutcome {
    StepOutcome(s.stepId, status, s.write, s.change, before, after)
  }

  function Halt(r: Run, s: Step, status: Status, before: Option<string>, after: Option<string>): Run {
    r.(outcomes := r.outcomes + [Report(s, status, before, after)], haltedAt := Some(s.stepId), allVerified := r.allVerified && !s.write)
  }

  /** The run after an answer. */
  function OnReply(b: Browser, r: Run, s: Step, reply: Reply): Run {
    if reply.Refused? then Halt(r, s, RefusedByBrowser, None, None)
    else if !s.write then r.(outcomes := r.outcomes + [Report(s, Observed, reply.before, reply.after)])
    else
      var v := VerifyWrite(b, s.action, reply);
      var counted := r.(writesApplied := r.writesApplied + 1);
      if v.Verified? || v.RequiresIndependentRead?
      then counted.(outcomes := r.outcomes + [Report(s, Status.Applied, reply.before, reply.after)])
      else Halt(counted, s, Unverified, reply.before, reply.after).(allVerified := false)
  }

  /** One step, given what the page becomes and what comes back if its request goes out. */
  function StepWith(b: Browser, ctx: Context, r: Run, s: Step, token: string, page: Page, reply: Option<Reply>): Run {
    if r.haltedAt.Some? then r.(outcomes := r.outcomes + [Report(s, Skipped, None, None)])
    else if AuthorizeIssue(ctx, s.action, token, r.spent, REQUEST_WINDOW_MS).Some? then Halt(r, s, NotIssued, None, None)
    else
      var out := r.(page := page, spent := r.spent + {token}, sent := r.sent + [(s.stepId, token)]);
      if reply.None? then Halt(out, s, Failed, None, None) else OnReply(b, out, s, reply.value)
  }

  function RunStep(b: Browser, ctx: Context, r: Run, s: Step, t: Attempt): Run {
    var (page, reply) := Deliver(b, r.page, s.action, t.delivery);
    StepWith(b, ctx, r, s, t.token, page, reply)
  }

  /** The run of the first n steps. */
  function RunTo(b: Browser, ctx: Context, script: Script, steps: seq<Step>, page: Page, n: nat): Run
    requires n <= |steps|
  { if n == 0 then Start(page) else RunStep(b, ctx, RunTo(b, ctx, script, steps, page, n - 1), steps[n - 1], script(n - 1)) }

  function RunAll(b: Browser, ctx: Context, script: Script, steps: seq<Step>, page: Page): Run {
    RunTo(b, ctx, script, steps, page, |steps|)
  }

  datatype ExecuteOutcome = ExecuteOutcome(steps: seq<StepOutcome>, haltedAt: Option<string>, writesApplied: nat, allWritesVerified: bool)

  /** `executeBrowserPlan`. */
  method ExecuteBrowserPlan(steps: seq<Step>, ctx: Context, script: Script, w: Window) returns (out: ExecuteOutcome)
    modifies w
    ensures var r := RunAll(w.b, ctx, script, steps, old(w.page));
      w.page == r.page && out == ExecuteOutcome(r.outcomes, r.haltedAt, r.writesApplied, r.allVerified)
  {
    hide Deliver, AuthorizeIssue, VerifyWrite;
    var outcomes: seq<StepOutcome> := [];
    var spent: set<string> := {};
    ghost var sent: seq<(string, string)> := [];
    var haltedAt: Option<string> := None;
    var writesApplied: nat := 0;
    var allVerified := true;
    var i := 0;
    while i < |steps|
      invariant i <= |steps|
      invariant RunTo(w.b, ctx, script, steps, old(w.page), i) == Run(w.page, outcomes, spent, sent, haltedAt, writesApplied, allVerified)
    {
      var step, attempt := steps[i], script(i);
      i := i + 1;
      if haltedAt.Some? {
        outcomes := outcomes + [Report(step, Skipped, None, None)];
        continue;
      }
      var refusal := AuthorizeIssue(ctx, step.action, attempt.token, spent, REQUEST_WINDOW_MS);
      if refusal.Some? {
        outcomes := outcomes + [Report(step, NotIssued, None, None)];
        haltedAt := Some(step.stepId);
        if step.write { allVerified := false; }
        continue;
      }
      spent := spent + {attempt.token};
      sent := sent + [(step.stepId, attempt.token)];
      var reply := w.Dispatch(step.action, attempt.delivery);
      if reply.None? {
        outcomes := outcomes + [Report(step, Failed, None, None)];
        haltedAt := Some(step.stepId);
        if step.write { allVerified := false; }
        continue;
      }
      if reply.value.Refused? {
        outcomes := outcomes + [Report(step, RefusedByBrowser, None, None)];
        haltedAt := Some(step.stepId);
        if step.write { allVerified := false; }
        continue;
      }
      if !step.write {
        outcomes := outcomes + [Report(step, Observed, reply.value.before, reply.value.after)];
        continue;
      }
      var verification := VerifyWrite(w.b, step.action, reply.value);
      writesApplied := writesApplied + 1;
      if verification.Verified? || verification.RequiresIndependentRead? {
        outcomes := outcomes + [Report(step, Status.Applied, reply.value.before, reply.value.after)];
        continue;
      }
      outcomes := outcomes + [Report(step, Unverified, reply.value.before, reply.value.after)];
      allVerified := false;
      haltedAt := Some(step.stepId);
    }
    out := ExecuteOutcome(outcomes, haltedAt, writesApplied, allVerified);
  }
}
