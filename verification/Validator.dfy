/** Static validation of an agent specification. */
module Validator {
  import opened Text
  import opened AgentSpec

  const MAX_STEPS := 20
  const MAX_RUNTIME_SECONDS := 30 * 60
  const MAX_RECORD_WRITES := 500
  const MIN_SCHEDULE_INTERVAL_MINUTES := 15

  datatype Capability = Capability(version: int, modes: set<Mode>)

  /** What lies outside: the capability catalog, the literal screens and the cron estimate. */
  datatype Rules = Rules(
    catalog: map<string, Capability>,
    secretLike: string -> bool, urlLike: string -> bool, codeLike: string -> bool,
    interval: string -> Option<int>)

  datatype Rule =
    | VSteps1 | VSteps2 | VSteps3 | VRef1 | VRef2 | VRef3 | VSecret1 | VUrl1 | VExec1
    | VCap1 | VCap2 | VCap3 | VCap4 | VRisk1 | VRisk2 | VBudget1 | VBudget2 | VSched1 | VSched2

  /** A broken rule, and the step it names if any. */
  datatype Issue = Issue(rule: Rule, stepId: string)

  function When(b: bool, rule: Rule, stepId: string): seq<Issue> { if b then [Issue(rule, stepId)] else [] }

  /** The map the validator builds over the steps as listed: a later step wins an output key. */
  function ProducerOrders(steps: seq<Step>): map<string, int> {
    if steps == [] then map[]
    else ProducerOrders(steps[..|steps| - 1])[steps[|steps| - 1].outputKey := steps[|steps| - 1].order]
  }

  function InputKeys(spec: Spec): set<string> { set i | 0 <= i < |spec.inputs| :: spec.inputs[i].key }

  function StepIds(steps: seq<Step>): set<string> { set i | 0 <= i < |steps| :: steps[i].stepId }

  function BindingIssues(u: Rules, keys: set<string>, producers: map<string, int>, s: Step, b: Binding): seq<Issue> {
    match b
    case AgentInput(ref) => When(ref !in keys, VRef1, s.stepId)
    case StepOutput(ref) =>
      if ref !in producers then [Issue(VRef2, s.stepId)] else When(producers[ref] >= s.order, VRef3, s.stepId)
    case Constant(l) =>
      if !l.Words? then []
      else When(u.secretLike(l.s), VSecret1, s.stepId) + When(u.urlLike(l.s), VUrl1, s.stepId)
           + When(u.codeLike(l.s), VExec1, s.stepId)
  }

  function BindingsIssues(u: Rules, keys: set<string>, producers: map<string, int>, s: Step, n: nat): seq<Issue>
    requires n <= |s.inputs|
  {
    if n == 0 then []
    else BindingsIssues(u, keys, producers, s, n - 1) + BindingIssues(u, keys, producers, s, s.inputs[n - 1].1)
  }

  function CapabilityIssues(u: Rules, s: Step): seq<Issue> {
    if s.capability !in u.catalog then [Issue(VCap1, s.stepId)]
    else
      var c := u.catalog[s.capability];
      When(c.version != s.version, VCap2, s.stepId) + When(s.mode !in c.modes, VCap3, s.stepId)
      + When(s.mode == Write && ProposeWrite !in c.modes, VCap4, s.stepId)
      + When(s.risk == Prohibited, VRisk1, s.stepId) + When(s.risk == High && !s.approvalRequired, VRisk2, s.stepId)
  }

  function StepsIssues(u: Rules, spec: Spec, n: nat): seq<Issue>
    requires n <= |spec.steps|
  {
    if n == 0 then []
    else
      var s := spec.steps[n - 1];
      StepsIssues(u, spec, n - 1) + BindingsIssues(u, InputKeys(spec), ProducerOrders(spec.steps), s, |s.inputs|)
      + CapabilityIssues(u, s)
  }

  function BudgetIssues(b: Budgets): seq<Issue> {
    When(b.maxRuntimeSeconds > MAX_RUNTIME_SECONDS, VBudget1, "") + When(b.maxRecordsWritten > MAX_RECORD_WRITES, VBudget2, "")
  }

  function ScheduleIssues(u: Rules, t: Trigger): seq<Issue> {
    if !t.Schedule? then []
    else
      match u.interval(t.cron)
      case None => [Issue(VSched2, "")]
      case Some(m) => When(m < MIN_SCHEDULE_INTERVAL_MINUTES, VSched1, "")
  }

  function OrderIssues(spec: Spec): seq<Issue> {
    When(|spec.steps| > MAX_STEPS, VSteps1, "") + When(!CountsUp(ByOrder(spec.steps)), VSteps2, "")
    + When(|StepIds(spec.steps)| != |spec.steps|, VSteps3, "")
  }

  function Issues(u: Rules, spec: Spec): seq<Issue> {
    OrderIssues(spec) + StepsIssues(u, spec, |spec.steps|) + BudgetIssues(spec.budgets) + ScheduleIssues(u, spec.trigger)
  }

  /** `validateAgentSpec` behind the schema layer. */
  method ValidateAgentSpec(u: Rules, spec: Spec) returns (issues: seq<Issue>)
    ensures issues == Issues(u, spec)
  {
    hide OrderIssues, BudgetIssues, ScheduleIssues, CapabilityIssues, BindingsIssues;
    issues := OrderScan(spec);
    var keys, producers := InputKeys(spec), ProducerOrders(spec.steps);
    ghost var before := issues;
    var i := 0;
    while i < |spec.steps|
      invariant i <= |spec.steps| && issues == before + StepsIssues(u, spec, i)
    {
      var own := StepScan(u, keys, producers, spec.steps[i]);
      assert (before + StepsIssues(u, spec, i)) + own == before + (StepsIssues(u, spec, i) + own);
      issues := issues + own;
      i := i + 1;
    }
    var budget := BudgetScan(spec.budgets);
    var schedule := ScheduleScan(u, spec.trigger);
    issues := issues + budget + schedule;
  }

  method OrderScan(spec: Spec) returns (issues: seq<Issue>)
    ensures issues == OrderIssues(spec)
  {
    hide ByOrder, CountsUp, StepIds;
    issues := [];
    if |spec.steps| > MAX_STEPS { issues := issues + [Issue(VSteps1, "")]; }
    if !CountsUp(ByOrder(spec.steps)) { issues := issues + [Issue(VSteps2, "")]; }
    if |StepIds(spec.steps)| != |spec.steps| { issues := issues + [Issue(VSteps3, "")]; }
  }

  method BudgetScan(b: Budgets) returns (issues: seq<Issue>)
    ensures issues == BudgetIssues(b)
  {
    issues := [];
    if b.maxRuntimeSeconds > MAX_RUNTIME_SECONDS { issues := issues + [Issue(VBudget1, "")]; }
    if b.maxRecordsWritten > MAX_RECORD_WRITES { issues := issues + [Issue(VBudget2, "")]; }
  }

  method ScheduleScan(u: Rules, t: Trigger) returns (issues: seq<Issue>)
    ensures issues == ScheduleIssues(u, t)
  {
    issues := [];
    if t.Schedule? {
      var interval := u.interval(t.cron);
      if interval.Some? && interval.value < MIN_SCHEDULE_INTERVAL_MINUTES { issues := issues + [Issue(VSched1, "")]; }
      if interval.None? { issues := issues + [Issue(VSched2, "")]; }
    }
  }

  /** One step of the validator's loop. */
  method StepScan(u: Rules, keys: set<string>, producers: map<string, int>, s: Step) returns (issues: seq<Issue>)
    ensures issues == BindingsIssues(u, keys, producers, s, |s.inputs|) + CapabilityIssues(u, s)
  {
    hide BindingIssues;
    issues := [];
    var i := 0;
    while i < |s.inputs|
      invariant i <= |s.inputs| && issues == BindingsIssues(u, keys, producers, s, i)
    {
      var own := BindingScan(u, keys, producers, s, s.inputs[i].1);
      issues := issues + own;
      i := i + 1;
    }
    if s.capability !in u.catalog { return issues + [Issue(VCap1, s.stepId)]; }
    var c := u.catalog[s.capability];
    issues := issues + (When(c.version != s.version, VCap2, s.stepId) + When(s.mode !in c.modes, VCap3, s.stepId)
      + When(s.mode == Write && ProposeWrite !in c.modes, VCap4, s.stepId)
      + When(s.risk == Prohibited, VRisk1, s.stepId) + When(s.risk == High && !s.approvalRequired, VRisk2, s.stepId));
  }

  method BindingScan(u: Rules, keys: set<string>, producers: map<string, int>, s: Step, b: Binding) returns (issues: seq<Issue>)
    ensures issues == BindingIssues(u, keys, producers, s, b)
  {
    issues := [];
    if b.AgentInput? && b.ref !in keys { issues := [Issue(VRef1, s.stepId)]; }
    if b.StepOutput? {
      if b.ref !in producers {
        issues := [Issue(VRef2, s.stepId)];
      } else if producers[b.ref] >= s.order {
        issues := [Issue(VRef3, s.stepId)];
      }
    }
    if b.Constant? && b.value.Words? {
      if u.secretLike(b.value.s) { issues := issues + [Issue(VSecret1, s.stepId)]; }
      if u.urlLike(b.value.s) { issues := issues + [Issue(VUrl1, s.stepId)]; }
      if u.codeLike(b.value.s) { issues := issues + [Issue(VExec1, s.stepId)]; }
    }
  }

  // ---- what acceptance means ----

  ghost predicate DistinctIds(steps: seq<Step>) { forall i, j :: 0 <= i < j < |steps| ==> steps[i].stepId != steps[j].stepId }

  /** The last listed step with this output key. */
  ghost predicate LastProducer(steps: seq<Step>, ref: string, p: nat) {
    p < |steps| && steps[p].outputKey == ref && forall k :: p < k < |steps| ==> steps[k].outputKey != ref
  }

  /** The binding names a declared input, or an output whose last listed producer comes earlier. */
  ghost predicate BindingSound(spec: Spec, s: Step, b: Binding) {
    match b
    case AgentInput(ref) => exists i :: 0 <= i < |spec.inputs| && spec.inputs[i].key == ref
    case StepOutput(ref) => exists p: nat :: LastProducer(spec.steps, ref, p) && spec.steps[p].order < s.order
    case Constant(_) => true
  }

  predicate LiteralClean(u: Rules, b: Binding) {
    b.Constant? && b.value.Words? ==> !u.secretLike(b.value.s) && !u.urlLike(b.value.s) && !u.codeLike(b.value.s)
  }

  predicate CapabilitySound(u: Rules, s: Step) {
    && s.capability in u.catalog && u.catalog[s.capability].version == s.version && s.mode in u.catalog[s.capability].modes
    && (s.mode == Write ==> ProposeWrite in u.catalog[s.capability].modes)
    && s.risk != Prohibited && (s.risk == High ==> s.approvalRequired)
  }

  ghost predicate StepSound(u: Rules, spec: Spec, s: Step) {
    && (forall i :: 0 <= i < |s.inputs| ==> BindingSound(spec, s, s.inputs[i].1) && LiteralClean(u, s.inputs[i].1))
    && CapabilitySound(u, s)
  }

  /** Declaratively: what a specification has to be. */
  ghost predicate Sound(u: Rules, spec: Spec) {
    && |spec.steps| <= MAX_STEPS && Contiguous(spec.steps) && DistinctIds(spec.steps)
    && (forall i :: 0 <= i < |spec.steps| ==> StepSound(u, spec, spec.steps[i]))
    && spec.budgets.maxRuntimeSeconds <= MAX_RUNTIME_SECONDS && spec.budgets.maxRecordsWritten <= MAX_RECORD_WRITES
    && (spec.trigger.Schedule? ==>
        u.interval(spec.trigger.cron).Some? && u.interval(spec.trigger.cron).value >= MIN_SCHEDULE_INTERVAL_MINUTES)
  }

  lemma {:induction false} ProducerIs(steps: seq<Step>, ref: string)
    ensures ref in ProducerOrders(steps) <==> exists p: nat :: LastProducer(steps, ref, p)
    ensures forall p: nat :: LastProducer(steps, ref, p) ==> ref in ProducerOrders(steps) && ProducerOrders(steps)[ref] == steps[p].order
  {
    if steps != [] {
      var (front, n) := (steps[..|steps| - 1], |steps| - 1);
      ProducerIs(front, ref);
      if steps[n].outputKey == ref {
        assert LastProducer(steps, ref, n);
      } else {
        forall p: nat ensures LastProducer(steps, ref, p) <==> LastProducer(front, ref, p) { }
      }
    }
  }

  lemma IdsGrow(front: seq<Step>, last: Step)
    ensures StepIds(front + [last]) == StepIds(front) + {last.stepId}
    ensures DistinctIds(front + [last]) <==> DistinctIds(front) && last.stepId !in StepIds(front)
  {
    var all := front + [last];
    assert forall i :: 0 <= i < |front| ==> all[i] == front[i];
    assert forall x :: x in StepIds(front) ==> x in StepIds(all) by {
      forall x | x in StepIds(front) ensures x in StepIds(all) {
        var i :| 0 <= i < |front| && front[i].stepId == x;
        assert all[i].stepId == x;
      }
    }
    assert all[|front|].stepId in StepIds(all);
    if DistinctIds(all) {
      forall i, j | 0 <= i < j < |front| ensures front[i].stepId != front[j].stepId { assert all[i].stepId != all[j].stepId; }
      forall i | 0 <= i < |front| ensures front[i].stepId != last.stepId { assert all[i].stepId != all[|front|].stepId; }
    }
  }

  lemma {:induction false} IdsDistinctExactly(steps: seq<Step>)
    ensures |StepIds(steps)| <= |steps|
    ensures |StepIds(steps)| == |steps| <==> DistinctIds(steps)
  {
    if steps == [] {
      assert StepIds(steps) == {};
    } else {
      var (front, last) := (steps[..|steps| - 1], steps[|steps| - 1]);
      IdsDistinctExactly(front);
      assert steps == front + [last];
      IdsGrow(front, last);
      hide StepIds, DistinctIds;
      if last.stepId in StepIds(front) { assert StepIds(front) + {last.stepId} == StepIds(front); }
    }
  }

  lemma BindingIssuesExactly(u: Rules, spec: Spec, s: Step, b: Binding)
    ensures BindingIssues(u, InputKeys(spec), ProducerOrders(spec.steps), s, b) == [] <==> BindingSound(spec, s, b) && LiteralClean(u, b)
  {
    if b.StepOutput? { ProducerIs(spec.steps, b.ref); }
    hide ProducerOrders;
  }

  lemma {:induction false} BindingsIssuesExactly(u: Rules, spec: Spec, s: Step, n: nat)
    requires n <= |s.inputs|
    ensures BindingsIssues(u, InputKeys(spec), ProducerOrders(spec.steps), s, n) == [] <==>
            forall i :: 0 <= i < n ==> BindingSound(spec, s, s.inputs[i].1) && LiteralClean(u, s.inputs[i].1)
  {
    hide BindingSound, LiteralClean, BindingIssues;
    if n > 0 {
      BindingsIssuesExactly(u, spec, s, n - 1);
      BindingIssuesExactly(u, spec, s, s.inputs[n - 1].1);
    }
  }

  lemma CapabilityIssuesExactly(u: Rules, s: Step)
    ensures CapabilityIssues(u, s) == [] <==> CapabilitySound(u, s)
  {
  }

  lemma {:induction false} StepsIssuesExactly(u: Rules, spec: Spec, n: nat)
    requires n <= |spec.steps|
    ensures StepsIssues(u, spec, n) == [] <==> forall i :: 0 <= i < n ==> StepSound(u, spec, spec.steps[i])
  {
    hide BindingSound, LiteralClean, BindingsIssues, ProducerOrders, CapabilityIssues, CapabilitySound;
    if n > 0 {
      CapabilityIssuesExactly(u, spec.steps[n - 1]);
      StepsIssuesExactly(u, spec, n - 1);
      BindingsIssuesExactly(u, spec, spec.steps[n - 1], |spec.steps[n - 1].inputs|);
    }
  }

  /** The validator raises no issue exactly for the sound specifications. */
  lemma AcceptsExactly(u: Rules, spec: Spec)
    ensures Issues(u, spec) == [] <==> Sound(u, spec)
  {
    hide StepSound, StepsIssues, ByOrder, CountsUp, Contiguous, DistinctIds;
    SortedCountsUpExactly(spec.steps);
    IdsDistinctExactly(spec.steps);
    StepsIssuesExactly(u, spec, |spec.steps|);
  }
}
