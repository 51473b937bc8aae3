/** Observed action traces compiled into agent specifications. */
module TraceCompiler {
  import opened Text
  import opened AgentSpec

  datatype ValueBinding = FromStep(step: int, output: string) | RuntimeInput(inputId: string, prompt: string) | LocalConstant(encryptedRef: string) | NoValue

  datatype Target = Target(role: string, name: Option<string>, identifier: Option<string>, menuPath: seq<string>)

  datatype ObservedAction = ObservedAction(
    order: nat, surface: string, origin: Option<string>, operation: string, target: Target, binding: ValueBinding,
    expectCurrentRef: Option<string>)

  datatype Trace = Trace(traceId: string, steps: seq<ObservedAction>)

  predicate Given(o: Option<string>) { o.Some? && o.value != "" }

  // ---- readiness ----

  datatype Problem = DuplicateOrder | ReadsLater(order: nat, from: int) | ReadsMissing(order: nat, from: int)

  function Orders(steps: seq<ObservedAction>): set<int> { set i | 0 <= i < |steps| :: steps[i].order }

  function StepProblem(orders: set<int>, s: ObservedAction): seq<Problem> {
    if !s.binding.FromStep? then []
    else if s.binding.step >= s.order then [ReadsLater(s.order, s.binding.step)]
    else if s.binding.step !in orders then [ReadsMissing(s.order, s.binding.step)]
    else []
  }

  function StepProblems(orders: set<int>, steps: seq<ObservedAction>): seq<Problem> {
    if steps == [] then [] else StepProblems(orders, steps[..|steps| - 1]) + StepProblem(orders, steps[|steps| - 1])
  }

  function Problems(t: Trace): seq<Problem> {
    (if |Orders(t.steps)| != |t.steps| then [DuplicateOrder] else []) + StepProblems(Orders(t.steps), t.steps)
  }

  /** `traceReadiness`: ready when there is no problem. */
  method TraceReadiness(t: Trace) returns (problems: seq<Problem>)
    ensures problems == Problems(t)
  {
    problems := [];
    var orders := Orders(t.steps);
    if |orders| != |t.steps| { problems := [DuplicateOrder]; }
    ghost var before := problems;
    var i := 0;
    while i < |t.steps|
      invariant i <= |t.steps| && problems == before + StepProblems(orders, t.steps[..i])
    {
      assert t.steps[..i + 1][..i] == t.steps[..i];
      var s := t.steps[i];
      if s.binding.FromStep? {
        if s.binding.step >= s.order {
          problems := problems + [ReadsLater(s.order, s.binding.step)];
        } else if s.binding.step !in orders {
          problems := problems + [ReadsMissing(s.order, s.binding.step)];
        }
      }
      i := i + 1;
    }
    assert t.steps[..|t.steps|] == t.steps;
  }

  // ---- the operations the compiler knows ----

  datatype Operation = Operation(capability: string, mode: Mode, write: Option<string>, roles: Option<seq<string>>)

  const FILL_ROLES := ["textbox", "combobox", "checkbox", "input", "textarea", "select"]
  const PRESS_ROLES := ["button", "link", "checkbox", "menuitem", "tab", "a"]

  function Operations(name: string): (o: Option<Operation>)
    ensures o.Some? ==> (o.value.mode == Read && o.value.write.None?) || (o.value.mode == ProposeWrite && o.value.write.Some?)
  {
    if name == "read_field" || name == "list_controls" then Some(Operation("browser.extract_structured_fields", Read, None, None))
    else if name == "set_value" then Some(Operation("browser.propose_form_fill", ProposeWrite, Some("browser.supervised_form_fill"), Some(FILL_ROLES)))
    else if name == "press" then Some(Operation("browser.press_control", ProposeWrite, Some("browser.press_control"), Some(PRESS_ROLES)))
    else None
  }

  predicate Stable(t: Target) { Given(t.identifier) || Given(t.name) || t.menuPath != [] }

  // ---- refusals ----

  datatype Missing =
    | NotReady(problem: Problem)
    | NativeStep(order: nat)
    | NoOrigin
    | UnknownOperation(operation: string)
    | Unavailable(capability: string)
    | UnstableTarget(order: nat)
    | WrongRole(order: nat, role: string)
    | NothingExecutable

  /** Why one action cannot be compiled, if it cannot. */
  function Refusal(available: set<string>, s: ObservedAction): Option<Missing> {
    var o := Operations(s.operation);
    if o.None? then Some(UnknownOperation(s.operation))
    else if o.value.capability !in available || (o.value.write.Some? && o.value.write.value !in available) then
      Some(Unavailable(if o.value.write.Some? && o.value.write.value !in available then o.value.write.value else o.value.capability))
    else if !Stable(s.target) then Some(UnstableTarget(s.order))
    else if o.value.roles.Some? && s.target.role !in o.value.roles.value then Some(WrongRole(s.order, s.target.role))
    else None
  }

  function Refusals(available: set<string>, steps: seq<ObservedAction>): seq<Missing> {
    if steps == [] then []
    else
      var r := Refusal(available, steps[|steps| - 1]);
      Refusals(available, steps[..|steps| - 1]) + if r.Some? then [r.value] else []
  }

  // ---- translation of one action ----

  function Prefix8(id: string): string { if |id| < 8 then id else id[..8] }

  function StepId(traceId: string, order: nat): string { Prefix8(traceId) + "-s" + Decimal(order) }

  function OutputKey(order: int): string { "step_" + if order < 0 then "-" + Decimal(-order) else Decimal(order) }

  /** What the compiler renders as text: the target, as JSON. */
  type Render = Target -> string

  function ValueInputs(b: ValueBinding): Bindings {
    match b
    case RuntimeInput(id, _) => [("value", AgentInput(id))]
    case FromStep(step, output) => [("value", StepOutput(OutputKey(step))), ("value_field", Constant(Words(output)))]
    case LocalConstant(r) => [("value", Constant(Words("encrypted:" + r)))]
    case NoValue => []
  }

  function Inputs(render: Render, s: ObservedAction): Bindings {
    ValueInputs(s.binding) + [("target", Constant(Words(render(s.target))))]
    + if Given(s.expectCurrentRef) then [("expect_current", Constant(Words("encrypted:" + s.expectCurrentRef.value)))] else []
  }

  function WriteInputs(render: Render, s: ObservedAction): Bindings {
    Inputs(render, s) + [("pairs_with", Constant(Words(OutputKey(s.order)))), ("proposal", StepOutput(OutputKey(s.order)))]
  }

  function FirstHalf(render: Render, traceId: string, s: ObservedAction, o: Operation, n: nat): Step {
    Step(StepId(traceId, s.order), n + 1, o.capability, 1, o.mode, Inputs(render, s), OutputKey(s.order),
         if o.mode == Read then Low else Medium, o.mode != Read, false, 0)
  }

  function OtherHalf(render: Render, traceId: string, s: ObservedAction, capability: string, n: nat): Step {
    Step(StepId(traceId, s.order) + "w", n + 1, capability, 1, Write, WriteInputs(render, s), OutputKey(s.order) + "w",
         Medium, true, false, 0)
  }

  /** The steps of one action, numbered after n others: a read, or a proposal and its write. */
  function StepsOf(render: Render, traceId: string, s: ObservedAction, n: nat): seq<Step>
    requires Operations(s.operation).Some?
  {
    var o := Operations(s.operation).value;
    [FirstHalf(render, traceId, s, o, n)] + if o.write.Some? then [OtherHalf(render, traceId, s, o.write.value, n + 1)] else []
  }

  function Emitted(render: Render, available: set<string>, traceId: string, steps: seq<ObservedAction>): seq<Step> {
    if steps == [] then []
    else
      var (front, s) := (Emitted(render, available, traceId, steps[..|steps| - 1]), steps[|steps| - 1]);
      if Refusal(available, s).Some? then front else front + StepsOf(render, traceId, s, |front|)
  }

  predicate Declares(ds: seq<InputDeclaration>, key: string) { exists i :: 0 <= i < |ds| && ds[i].key == key }

  function Declared(available: set<string>, steps: seq<ObservedAction>): seq<InputDeclaration> {
    if steps == [] then []
    else
      var (front, s) := (Declared(available, steps[..|steps| - 1]), steps[|steps| - 1]);
      if Refusal(available, s).None? && s.binding.RuntimeInput? && !Declares(front, s.binding.inputId)
      then front + [InputDeclaration(s.binding.inputId, s.binding.prompt, true)] else front
  }

  function FirstOrigin(steps: seq<ObservedAction>): Option<string> {
    if steps == [] then None else if Given(steps[0].origin) then steps[0].origin else FirstOrigin(steps[1..])
  }

  /** The first native step without a page identity. */
  function FirstNative(steps: seq<ObservedAction>): Option<ObservedAction> {
    if steps == [] then None
    else if steps[0].surface != "browser_dom" && !Given(steps[0].origin) then Some(steps[0])
    else FirstNative(steps[1..])
  }

  function WriteCount(steps: seq<Step>): nat {
    if steps == [] then 0 else WriteCount(steps[..|steps| - 1]) + if steps[|steps| - 1].mode == Write then 1 else 0
  }

  datatype Request = Request(trace: Trace, available: set<string>, agentId: string, versionId: string, render: Render)

  datatype Result = Compiled(spec: Spec) | Refused(missing: seq<Missing>)

  function Build(q: Request, inputs: seq<InputDeclaration>, steps: seq<Step>): Spec {
    var origin := FirstOrigin(q.trace.steps);
    Spec(q.agentId, q.versionId, if origin.Some? then OnContext(origin, 300) else Manual, inputs, steps,
         Budgets(120, if WriteCount(steps) < 1 then 1 else WriteCount(steps)))
  }

  function Compile(q: Request): Result {
    var t := q.trace;
    if Problems(t) != [] then Refused([NotReady(Problems(t)[0])])
    else if FirstNative(t.steps).Some? then Refused([NativeStep(FirstNative(t.steps).value.order)])
    else
      var missing := (if FirstOrigin(t.steps).None? then [NoOrigin] else []) + Refusals(q.available, t.steps);
      var steps := Emitted(q.render, q.available, t.traceId, t.steps);
      if steps == [] then Refused(if missing != [] then missing else [NothingExecutable])
      else if missing != [] then Refused(missing)
      else Compiled(Build(q, Declared(q.available, t.steps), steps))
  }

  /** `compileTraceToAgentSpec`. */
  method CompileTraceToAgentSpec(q: Request) returns (r: Result)
    ensures r == Compile(q)
  {
    hide Problems, Emitted, Refusals, Declared, WriteCount;
    var trace, available := q.trace, q.available;
    var problems := TraceReadiness(trace);
    if problems != [] { return Refused([NotReady(problems[0])]); }
    var native := FirstNative(trace.steps);
    if native.Some? { return Refused([NativeStep(native.value.order)]); }
    var missing: seq<Missing> := [];
    if FirstOrigin(trace.steps).None? { missing := [NoOrigin]; }
    var steps, inputs, refused := Translate(q);
    missing := missing + refused;
    if |steps| == 0 { return Refused(if |missing| > 0 then missing else [NothingExecutable]); }
    if |missing| > 0 { return Refused(missing); }
    return Compiled(Build(q, inputs, steps));
  }

  /** The compiler's loop over the actions as listed. */
  method Translate(q: Request) returns (steps: seq<Step>, inputs: seq<InputDeclaration>, missing: seq<Missing>)
    ensures steps == Emitted(q.render, q.available, q.trace.traceId, q.trace.steps)
    ensures inputs == Declared(q.available, q.trace.steps)
    ensures missing == Refusals(q.available, q.trace.steps)
  {
    hide Refusal, Inputs, WriteInputs, StepId, OutputKey, Operations;
    var actions := q.trace.steps;
    steps, inputs, missing := [], [], [];
    var i := 0;
    while i < |actions|
      invariant i <= |actions|
      invariant steps == Emitted(q.render, q.available, q.trace.traceId, actions[..i])
      invariant inputs == Declared(q.available, actions[..i])
      invariant missing == Refusals(q.available, actions[..i])
    {
      var step := actions[i];
      assert actions[..i + 1][..i] == actions[..i];
      var refusal := Refusal(q.available, step);
      if refusal.Some? {
        missing := missing + [refusal.value];
      } else {
        KnownOperation(q.available, step);
        var mapped := Operations(step.operation).value;
        if step.binding.RuntimeInput? && !Declares(inputs, step.binding.inputId) {
          inputs := inputs + [InputDeclaration(step.binding.inputId, step.binding.prompt, true)];
        }
        ghost var front := steps;
        steps := steps + [FirstHalf(q.render, q.trace.traceId, step, mapped, |steps|)];
        if mapped.write.Some? {
          steps := steps + [OtherHalf(q.render, q.trace.traceId, step, mapped.write.value, |steps|)];
        }
        assert steps == front + StepsOf(q.render, q.trace.traceId, step, |front|);
      }
      i := i + 1;
    }
    assert actions[..|actions|] == actions;
  }

  lemma KnownOperation(available: set<string>, s: ObservedAction)
    requires Refusal(available, s).None?
    ensures Operations(s.operation).Some?
  {
  }
}
