/** Rule by rule, what the validator reports, and input by input, what is missing. */
module ValidatorRules {
  import opened Text
  import opened AgentSpec
  import opened Validator
  import AgentInputs

  // ---- when each rule is reported ----

  /** The binding breaks the rule. */
  ghost predicate BindingBreaks(u: Rules, spec: Spec, s: Step, b: Binding, rule: Rule) {
    match rule
    case VRef1 => b.AgentInput? && forall i :: 0 <= i < |spec.inputs| ==> spec.inputs[i].key != b.ref
    case VRef2 => b.StepOutput? && forall k :: 0 <= k < |spec.steps| ==> spec.steps[k].outputKey != b.ref
    case VRef3 => b.StepOutput? && exists p: nat :: LastProducer(spec.steps, b.ref, p) && spec.steps[p].order >= s.order
    case VSecret1 => b.Constant? && b.value.Words? && u.secretLike(b.value.s)
    case VUrl1 => b.Constant? && b.value.Words? && u.urlLike(b.value.s)
    case VExec1 => b.Constant? && b.value.Words? && u.codeLike(b.value.s)
    case _ => false
  }

  /** The step breaks the rule by what it calls. */
  ghost predicate CallBreaks(u: Rules, s: Step, rule: Rule) {
    if s.capability !in u.catalog then rule == VCap1
    else
      var c := u.catalog[s.capability];
      match rule
      case VCap2 => c.version != s.version
      case VCap3 => s.mode !in c.modes
      case VCap4 => s.mode == Write && ProposeWrite !in c.modes
      case VRisk1 => s.risk == Prohibited
      case VRisk2 => s.risk == High && !s.approvalRequired
      case _ => false
  }

  ghost predicate StepBreaks(u: Rules, spec: Spec, s: Step, rule: Rule) {
    CallBreaks(u, s, rule) || exists i :: 0 <= i < |s.inputs| && BindingBreaks(u, spec, s, s.inputs[i].1, rule)
  }

  /** The specification as a whole breaks the rule. */
  ghost predicate SpecBreaks(u: Rules, spec: Spec, rule: Rule) {
    match rule
    case VSteps1 => |spec.steps| > 20
    case VSteps2 => !Contiguous(spec.steps)
    case VSteps3 => !DistinctIds(spec.steps)
    case VBudget1 => spec.budgets.maxRuntimeSeconds > 1800
    case VBudget2 => spec.budgets.maxRecordsWritten > 500
    case VSched1 => spec.trigger.Schedule? && u.interval(spec.trigger.cron).Some? && u.interval(spec.trigger.cron).value < 15
    case VSched2 => spec.trigger.Schedule? && u.interval(spec.trigger.cron).None?
    case _ => false
  }

  lemma UnknownProducer(steps: seq<Step>, ref: string)
    ensures ref in ProducerOrders(steps) <==> exists k :: 0 <= k < |steps| && steps[k].outputKey == ref
  {
    ProducerIs(steps, ref);
    if exists k :: 0 <= k < |steps| && steps[k].outputKey == ref { var p := LastOf(steps, ref, |steps|); }
  }

  lemma {:induction false} LastOf(steps: seq<Step>, ref: string, n: nat) returns (p: nat)
    requires n <= |steps| && (exists k :: 0 <= k < n && steps[k].outputKey == ref) && forall k :: n <= k < |steps| ==> steps[k].outputKey != ref
    ensures LastProducer(steps, ref, p)
  {
    if steps[n - 1].outputKey == ref { p := n - 1; } else { p := LastOf(steps, ref, n - 1); }
  }

  lemma BindingReported(u: Rules, spec: Spec, s: Step, b: Binding, rule: Rule, id: string)
    ensures Issue(rule, id) in BindingIssues(u, InputKeys(spec), ProducerOrders(spec.steps), s, b)
      <==> id == s.stepId && BindingBreaks(u, spec, s, b, rule)
  {
    if b.StepOutput? {
      ProducerIs(spec.steps, b.ref);
      UnknownProducer(spec.steps, b.ref);
    }
    hide ProducerOrders, LastProducer;
  }

  lemma {:induction false} BindingsReported(u: Rules, spec: Spec, s: Step, n: nat, rule: Rule, id: string)
    requires n <= |s.inputs|
    ensures Issue(rule, id) in BindingsIssues(u, InputKeys(spec), ProducerOrders(spec.steps), s, n)
      <==> id == s.stepId && exists i :: 0 <= i < n && BindingBreaks(u, spec, s, s.inputs[i].1, rule)
  {
    hide BindingBreaks, BindingIssues;
    if n > 0 {
      BindingsReported(u, spec, s, n - 1, rule, id);
      BindingReported(u, spec, s, s.inputs[n - 1].1, rule, id);
    }
  }

  lemma CallReported(u: Rules, s: Step, rule: Rule, id: string)
    ensures Issue(rule, id) in CapabilityIssues(u, s) <==> id == s.stepId && CallBreaks(u, s, rule)
  {
    hide When;
    forall b: bool, r: Rule ensures Issue(rule, id) in When(b, r, s.stepId) <==> b && r == rule && id == s.stepId { InWhen(b, r, s.stepId, rule, id); }
  }

  lemma InWhen(b: bool, r: Rule, stepId: string, rule: Rule, id: string)
    ensures Issue(rule, id) in When(b, r, stepId) <==> b && r == rule && id == stepId
  {
  }

  lemma {:induction false} StepsReported(u: Rules, spec: Spec, n: nat, rule: Rule, id: string)
    requires n <= |spec.steps|
    ensures Issue(rule, id) in StepsIssues(u, spec, n)
      <==> exists k :: 0 <= k < n && spec.steps[k].stepId == id && StepBreaks(u, spec, spec.steps[k], rule)
  {
    hide BindingBreaks, BindingsIssues, CapabilityIssues, CallBreaks;
    if n > 0 {
      var s := spec.steps[n - 1];
      StepsReported(u, spec, n - 1, rule, id);
      BindingsReported(u, spec, s, |s.inputs|, rule, id);
      CallReported(u, s, rule, id);
    }
  }

  lemma SpecReported(u: Rules, spec: Spec, rule: Rule, id: string)
    ensures Issue(rule, id) in OrderIssues(spec) || Issue(rule, id) in BudgetIssues(spec.budgets) || Issue(rule, id) in ScheduleIssues(u, spec.trigger)
      <==> id == "" && SpecBreaks(u, spec, rule)
  {
    hide ByOrder, CountsUp, Contiguous, DistinctIds;
    SortedCountsUpExactly(spec.steps);
    IdsDistinctExactly(spec.steps);
  }

  /** A rule is reported, of a step or of the whole, exactly if that step or the whole breaks it. */
  lemma ReportedExactly(u: Rules, spec: Spec, rule: Rule, id: string)
    ensures Issue(rule, id) in Issues(u, spec) <==>
      || (id == "" && SpecBreaks(u, spec, rule))
      || exists k :: 0 <= k < |spec.steps| && spec.steps[k].stepId == id && StepBreaks(u, spec, spec.steps[k], rule)
  {
    hide OrderIssues, BudgetIssues, ScheduleIssues, StepsIssues, SpecBreaks, StepBreaks;
    SpecReported(u, spec, rule, id);
    StepsReported(u, spec, |spec.steps|, rule, id);
  }

  // ---- what is missing ----

  /** The input is required and not answered: nothing was supplied, or blank text or an empty list. */
  ghost predicate Unanswered(d: InputDeclaration, v: Value) {
    d.required && (v == Undefined || v == Null || v == List([]) || (v.Str? && Trim(v.s) == ""))
  }

  ghost predicate UnansweredAt(ds: seq<InputDeclaration>, inputs: Values, k: nat)
    requires k < |ds|
  { Unanswered(ds[k], Get(inputs, ds[k].key)) }

  ghost function Lacking(ds: seq<InputDeclaration>, inputs: Values, n: nat): nat
    requires n <= |ds|
  { if n == 0 then 0 else Lacking(ds, inputs, n - 1) + if UnansweredAt(ds, inputs, n - 1) then 1 else 0 }

  lemma GapIs(d: InputDeclaration, v: Value)
    ensures AgentInputs.Gap(d, v) ==
      if Unanswered(d, v) then [AgentInputs.MissingInput(d.key, d.prompt, if v == Undefined || v == Null then AgentInputs.NotSupplied else AgentInputs.Empty)] else []
  {
  }

  /** Every unanswered input is told, in the order declared, by its key and prompt, and whether nothing
      was supplied or something empty; no other is. */
  lemma {:induction false} MissingListed(ds: seq<InputDeclaration>, inputs: Values, n: nat, k: nat)
    requires k < n <= |ds|
    ensures var missing := AgentInputs.Missing(ds[..n], inputs);
      && |missing| == Lacking(ds, inputs, n)
      && (UnansweredAt(ds, inputs, k) ==>
            && Lacking(ds, inputs, k) < |missing|
            && var m := missing[Lacking(ds, inputs, k)];
               m.key == ds[k].key && m.prompt == ds[k].prompt
               && (m.reason == AgentInputs.NotSupplied <==> Get(inputs, ds[k].key) == Undefined || Get(inputs, ds[k].key) == Null))
  {
    hide Unanswered, Get, AgentInputs.Gap;
    assert ds[..n][..n - 1] == ds[..n - 1];
    GapIs(ds[n - 1], Get(inputs, ds[n - 1].key));
    if k < n - 1 { MissingListed(ds, inputs, n - 1, k); } else if n > 1 { MissingListed(ds, inputs, n - 1, 0); }
  }
}
