/** What a compiled specification binds, declares and is triggered by, when a trace compiles at all,
    and what a refusal says. */
module CompiledMeaning {
  import opened Text
  import opened AgentSpec
  import opened TraceCompiler
  import opened CompiledTraces

  // ---- which name is bound to what ----

  /** What a step of an action binds a name to, in the read or proposal and in the write. */
  function Meant(render: Render, s: ObservedAction, write: bool, name: string): Option<Binding> {
    match name
    case "value" =>
      (match s.binding
       case RuntimeInput(id, _) => Some(AgentInput(id))
       case FromStep(n, _) => Some(StepOutput("step_" + if n < 0 then "-" + Decimal(-n) else Decimal(n)))
       case LocalConstant(r) => Some(Constant(Words("encrypted:" + r)))
       case NoValue => None)
    case "value_field" => if s.binding.FromStep? then Some(Constant(Words(s.binding.output))) else None
    case "target" => Some(Constant(Words(render(s.target))))
    case "expect_current" =>
      if s.expectCurrentRef.None? || s.expectCurrentRef.value == "" then None
      else Some(Constant(Words("encrypted:" + s.expectCurrentRef.value)))
    case "pairs_with" => if write then Some(Constant(Words("step_" + Decimal(s.order)))) else None
    case "proposal" => if write then Some(StepOutput("step_" + Decimal(s.order))) else None
    case _ => None
  }

  lemma {:induction false} BoundAppend(a: Bindings, b: Bindings, name: string)
    ensures Bound(a + b, name) == if Bound(a, name).Some? then Bound(a, name) else Bound(b, name)
  {
    if a == [] {
      assert a + b == b;
    } else {
      BoundAppend(a[1..], b, name);
      assert (a + b)[1..] == a[1..] + b;
    }
  }

  lemma BoundOne(name: string, b: Binding, other: string)
    ensures Bound([(name, b)], other) == if other == name then Some(b) else None
    ensures Bound([], other) == None
  {
    assert [(name, b)][1..] == [];
  }

  lemma BoundTwo(x: string, b: Binding, y: string, c: Binding, other: string)
    ensures Bound([(x, b), (y, c)], other) == if other == x then Some(b) else if other == y then Some(c) else None
  {
    assert [(x, b), (y, c)] == [(x, b)] + [(y, c)];
    BoundAppend([(x, b)], [(y, c)], other);
    BoundOne(x, b, other);
    BoundOne(y, c, other);
  }

  lemma ValueMeans(s: ObservedAction, name: string)
    ensures Bound(ValueInputs(s.binding), name) ==
      if name == "value" || name == "value_field" then Meant((t: Target) => "", s, false, name) else None
  {
    BoundOne("value", Constant(Words("")), name);
    match s.binding
    case RuntimeInput(id, _) => BoundOne("value", AgentInput(id), name);
    case FromStep(n, output) => BoundTwo("value", StepOutput(OutputKey(n)), "value_field", Constant(Words(output)), name);
    case LocalConstant(r) => BoundOne("value", Constant(Words("encrypted:" + r)), name);
    case NoValue =>
  }

  lemma InputsMean(render: Render, s: ObservedAction, name: string)
    ensures Bound(Inputs(render, s), name) == Meant(render, s, false, name)
    ensures Bound(WriteInputs(render, s), name) == Meant(render, s, true, name)
  {
    hide ValueInputs, Bound;
    ValueMeans(s, name);
    var target: Bindings := [("target", Constant(Words(render(s.target))))];
    var expected: Bindings := if Given(s.expectCurrentRef) then [("expect_current", Constant(Words("encrypted:" + s.expectCurrentRef.value)))] else [];
    BoundAppend(ValueInputs(s.binding) + target, expected, name);
    BoundAppend(ValueInputs(s.binding), target, name);
    BoundOne("target", Constant(Words(render(s.target))), name);
    if Given(s.expectCurrentRef) { BoundOne("expect_current", Constant(Words("encrypted:" + s.expectCurrentRef.value)), name); }
    var pairing: Bindings := [("pairs_with", Constant(Words(OutputKey(s.order)))), ("proposal", StepOutput(OutputKey(s.order)))];
    BoundAppend(Inputs(render, s), pairing, name);
    BoundTwo("pairs_with", Constant(Words(OutputKey(s.order))), "proposal", StepOutput(OutputKey(s.order)), name);
  }

  /** The step at position i, and the write after it if the action has one, bind a name to what the
      action means by it, and are called and keyed after the trace and the action's order. */
  ghost predicate Spells(q: Request, steps: seq<Step>, s: ObservedAction, i: nat, name: string) {
    && i < |steps|
    && Bound(steps[i].inputs, name) == Meant(q.render, s, false, name)
    && steps[i].stepId == (if |q.trace.traceId| > 8 then q.trace.traceId[..8] else q.trace.traceId) + "-s" + Decimal(s.order)
    && steps[i].outputKey == "step_" + Decimal(s.order)
    && (Consequential(s) ==>
        && i + 1 < |steps|
        && Bound(steps[i + 1].inputs, name) == Meant(q.render, s, true, name)
        && steps[i + 1].stepId == steps[i].stepId + "w" && steps[i + 1].outputKey == steps[i].outputKey + "w")
  }

  lemma CarriesSpells(q: Request, spec: Spec, k: nat, i: nat, name: string)
    requires k < |q.trace.steps| && Carries(q, spec, k, i)
    ensures Spells(q, spec.steps, q.trace.steps[k], i, name)
  {
    hide Bound, Meant, Inputs, WriteInputs, Consequential, CapabilitiesOf;
    InputsMean(q.render, q.trace.steps[k], name);
  }

  /** In a compiled specification the step of every action, and its write if it has one, binds each
      name to what the action means by it, and no other name. */
  lemma BindingsExactly(q: Request, k: nat, name: string)
    requires Compile(q).Compiled? && k < |q.trace.steps|
    ensures Spells(q, Compile(q).spec.steps, q.trace.steps[k], At(q, k), name)
  {
    hide Compile, At, Spells, Carries;
    InOrderImage(q, k);
    CarriesSpells(q, Compile(q).spec, k, At(q, k), name);
  }

  // ---- what is wrong with a trace that is not ready ----

  /** The actions that read a value no smaller-numbered action leaves. */
  function Misreads(all: seq<ObservedAction>, n: nat): nat
    requires n <= |all|
  { if n == 0 then 0 else Misreads(all, n - 1) + if ReadsAmiss(all, n - 1) then 1 else 0 }

  predicate ReadsAmiss(all: seq<ObservedAction>, k: nat)
    requires k < |all|
  {
    && all[k].binding.FromStep?
    && (all[k].binding.step >= all[k].order || forall l :: 0 <= l < |all| ==> all[l].order != all[k].binding.step)
  }

  /** Reading from itself or a later action, or from none. */
  function Misread(s: ObservedAction): Problem
    requires s.binding.FromStep?
  { if s.binding.step >= s.order then ReadsLater(s.order, s.binding.step) else ReadsMissing(s.order, s.binding.step) }

  lemma MisreadIs(all: seq<ObservedAction>, k: nat)
    requires k < |all|
    ensures StepProblem(Orders(all), all[k]) == if ReadsAmiss(all, k) then [Misread(all[k])] else []
  {
  }

  lemma {:induction false} MisreadsListed(all: seq<ObservedAction>, n: nat, k: nat)
    requires k < n <= |all|
    ensures |StepProblems(Orders(all), all[..n])| == Misreads(all, n)
    ensures ReadsAmiss(all, k) ==> Misreads(all, k) < Misreads(all, n) && StepProblems(Orders(all), all[..n])[Misreads(all, k)] == Misread(all[k])
  {
    hide StepProblem, ReadsAmiss, Misread, Orders;
    assert all[..n][..n - 1] == all[..n - 1];
    MisreadIs(all, n - 1);
    if k < n - 1 { MisreadsListed(all, n - 1, k); } else if n > 1 { MisreadsListed(all, n - 1, 0); }
  }

  /** The problems of a trace are a repeated order, first, and then every misread value, in order. */
  lemma ProblemsListed(t: Trace, k: nat)
    requires k < |t.steps|
    ensures var first := if DistinctActions(t.steps) then 0 else 1;
      && (first == 1 ==> |Problems(t)| > 0 && Problems(t)[0] == DuplicateOrder)
      && |Problems(t)| == first + Misreads(t.steps, |t.steps|)
      && (ReadsAmiss(t.steps, k) ==> first + Misreads(t.steps, k) < |Problems(t)| && Problems(t)[first + Misreads(t.steps, k)] == Misread(t.steps[k]))
  {
    hide StepProblems, ReadsAmiss, Misread;
    OrdersDistinctExactly(t.steps);
    MisreadsListed(t.steps, |t.steps|, k);
    assert t.steps[..|t.steps|] == t.steps;
    hide Orders, DistinctActions, Misreads;
  }

  // ---- when a trace compiles ----

  predicate Known(s: ObservedAction) { s.operation in ["read_field", "list_controls", "set_value", "press"] }

  /** The capabilities of a known action are there. */
  predicate Offered(available: set<string>, s: ObservedAction) {
    CapabilitiesOf(s).0 in available && (Consequential(s) ==> CapabilitiesOf(s).1 in available)
  }

  /** Something other than its role identifies the control. */
  predicate Addressed(s: ObservedAction) {
    || (s.target.identifier.Some? && s.target.identifier.value != "")
    || (s.target.name.Some? && s.target.name.value != "")
    || |s.target.menuPath| > 0
  }

  /** A control of this role can be filled or pressed. */
  predicate RoleAllowed(s: ObservedAction) {
    && (s.operation == "set_value" ==> s.target.role in ["textbox", "combobox", "checkbox", "input", "textarea", "select"])
    && (s.operation == "press" ==> s.target.role in ["button", "link", "checkbox", "menuitem", "tab", "a"])
  }

  predicate Compilable(available: set<string>, s: ObservedAction) { Known(s) && Offered(available, s) && Addressed(s) && RoleAllowed(s) }

  /** The first thing wrong with an action. */
  function Wrong(available: set<string>, s: ObservedAction): Missing
    requires !Compilable(available, s)
  {
    if !Known(s) then UnknownOperation(s.operation)
    else if Consequential(s) && CapabilitiesOf(s).1 !in available then Unavailable(CapabilitiesOf(s).1)
    else if CapabilitiesOf(s).0 !in available then Unavailable(CapabilitiesOf(s).0)
    else if !Addressed(s) then UnstableTarget(s.order)
    else WrongRole(s.order, s.target.role)
  }

  /** An action is refused exactly when it cannot be compiled, for the first thing wrong with it. */
  lemma RefusalExactly(available: set<string>, s: ObservedAction)
    ensures Refusal(available, s).None? <==> Compilable(available, s)
    ensures !Compilable(available, s) ==> Refusal(available, s) == Some(Wrong(available, s))
  {
    if Known(s) { OperationModes(s); }
    RolesAre(s);
    hide Operations, CapabilitiesOf, Consequential;
  }

  lemma RolesAre(s: ObservedAction)
    ensures Operations(s.operation).Some? <==> Known(s)
    ensures Known(s) ==> (var roles := Operations(s.operation).value.roles; RoleAllowed(s) <==> roles.None? || s.target.role in roles.value)
  {
  }

  /** Every action happened on a page that names itself, or in the browser. */
  ghost predicate OnPages(steps: seq<ObservedAction>) {
    forall k :: 0 <= k < |steps| ==> steps[k].surface == "browser_dom" || Given(steps[k].origin)
  }

  ghost predicate SomeOrigin(steps: seq<ObservedAction>) { exists k :: 0 <= k < |steps| && Given(steps[k].origin) }

  /** The first action off the page. */
  ghost predicate FirstOff(steps: seq<ObservedAction>, s: ObservedAction) {
    exists k :: 0 <= k < |steps| && steps[k] == s && s.surface != "browser_dom" && !Given(s.origin) && OnPages(steps[..k])
  }

  lemma {:induction false} NativeExactly(steps: seq<ObservedAction>)
    ensures FirstNative(steps).None? <==> OnPages(steps)
    ensures FirstNative(steps).Some? ==> FirstOff(steps, FirstNative(steps).value)
  {
    if steps != [] {
      NativeExactly(steps[1..]);
      if FirstNative(steps).Some? {
        var s := FirstNative(steps).value;
        if s == steps[0] && FirstNative([s]).Some? {
          assert OnPages(steps[..0]);
        } else {
          var k :| 0 <= k < |steps[1..]| && steps[1..][k] == s && s.surface != "browser_dom" && !Given(s.origin) && OnPages(steps[1..][..k]);
          assert steps[..k + 1] == [steps[0]] + steps[1..][..k];
          assert steps[k + 1] == s;
        }
      }
      if OnPages(steps[1..]) && FirstNative(steps).None? {
        forall k | 0 <= k < |steps| ensures steps[k].surface == "browser_dom" || Given(steps[k].origin) {
          if k > 0 { assert steps[1..][k - 1] == steps[k]; }
        }
      }
    }
  }

  /** The origin of the first action that has one. */
  ghost predicate FirstGiven(steps: seq<ObservedAction>, origin: Option<string>) {
    exists k :: 0 <= k < |steps| && origin == steps[k].origin && Given(origin) && forall j :: 0 <= j < k ==> !Given(steps[j].origin)
  }

  lemma {:induction false} OriginExactly(steps: seq<ObservedAction>)
    ensures FirstOrigin(steps).Some? <==> SomeOrigin(steps)
    ensures FirstOrigin(steps).Some? ==> FirstGiven(steps, FirstOrigin(steps))
  {
    if steps != [] {
      OriginExactly(steps[1..]);
      if Given(steps[0].origin) {
        assert steps[0].origin == FirstOrigin(steps);
      } else {
        if SomeOrigin(steps) {
          var k :| 0 <= k < |steps| && Given(steps[k].origin);
          assert Given(steps[1..][k - 1].origin);
        }
        if FirstOrigin(steps).Some? {
          var o := FirstOrigin(steps);
          var k :| 0 <= k < |steps[1..]| && o == steps[1..][k].origin && Given(o) && forall j :: 0 <= j < k ==> !Given(steps[1..][j].origin);
          assert steps[k + 1].origin == o;
          forall j | 0 <= j < k + 1 ensures !Given(steps[j].origin) { if j > 0 { assert steps[1..][j - 1] == steps[j]; } }
        }
      }
    }
  }

  /** A trace compiles exactly when its values flow forwards, it is not empty, some action names its
      site, none happened off the page, and every action is one the runtime can carry out on a
      control it can find again. */
  lemma CompilesExactly(q: Request)
    ensures var steps := q.trace.steps;
      Compile(q).Compiled? <==>
        && DistinctActions(steps) && (forall k: nat :: k < |steps| ==> ReadsSmaller(steps, k))
        && SomeOrigin(steps) && OnPages(steps)
        && forall k :: 0 <= k < |steps| ==> Compilable(q.available, steps[k])
  {
    hide Problems, Compilable, Refusal, DistinctActions, ReadsSmaller, OnPages, FirstOff;
    var steps := q.trace.steps;
    ReadyExactly(q.trace);
    NativeExactly(steps);
    OriginExactly(steps);
    RefusalsEmpty(q.available, steps);
    forall k | 0 <= k < |steps| { RefusalExactly(q.available, steps[k]); }
    if NoneRefused(q.available, steps) && SomeOrigin(steps) {
      var k :| 0 <= k < |steps| && Given(steps[k].origin);
      ActionImage(q, k);
    }
    hide Emitted, Refusals;
  }

  // ---- what is declared, when it starts, and what a refusal says ----

  /** The declarations are the runtime inputs, each declared once, required, with the prompt it was
      first seen with, in the order in which they were first seen. */
  ghost predicate DeclaresRuntimeInputs(steps: seq<ObservedAction>, ds: seq<InputDeclaration>, first: seq<nat>) {
    && |first| == |ds|
    && (forall i :: 0 <= i < |ds| ==> FirstSeen(steps, ds[i], first[i]))
    && (forall i, j :: 0 <= i < j < |ds| ==> first[i] < first[j])
    && (forall k :: 0 <= k < |steps| && steps[k].binding.RuntimeInput? ==> DeclaredAs(ds, steps[k].binding.inputId))
  }

  ghost predicate DeclaredAs(ds: seq<InputDeclaration>, key: string) { exists i :: 0 <= i < |ds| && ds[i].key == key }

  ghost predicate FirstSeen(steps: seq<ObservedAction>, d: InputDeclaration, k: nat) {
    && k < |steps| && steps[k].binding == RuntimeInput(d.key, d.prompt) && d.required
    && forall j :: 0 <= j < k ==> !steps[j].binding.RuntimeInput? || steps[j].binding.inputId != d.key
  }

  lemma FirstSeenStays(steps: seq<ObservedAction>, d: InputDeclaration, k: nat)
    requires steps != [] && FirstSeen(steps[..|steps| - 1], d, k)
    ensures FirstSeen(steps, d, k)
  {
    var front := steps[..|steps| - 1];
    assert forall j :: 0 <= j <= k ==> front[j] == steps[j];
  }

  lemma {:induction false} DeclaredExactly(available: set<string>, steps: seq<ObservedAction>) returns (first: seq<nat>)
    requires NoneRefused(available, steps)
    ensures DeclaresRuntimeInputs(steps, Declared(available, steps), first)
  {
    hide Refusal, FirstSeen;
    if steps == [] {
      first := [];
    } else {
      var (front, s) := (steps[..|steps| - 1], steps[|steps| - 1]);
      assert NoneRefused(available, front);
      var before := Declared(available, front);
      var seen := DeclaredExactly(available, front);
      assert DeclaredAs(before, if s.binding.RuntimeInput? then s.binding.inputId else "") <==> Declares(before, if s.binding.RuntimeInput? then s.binding.inputId else "");
      var ds := Declared(available, steps);
      first := seen;
      if s.binding.RuntimeInput? && !Declares(before, s.binding.inputId) {
        first := seen + [|front|];
        NewlySeen(steps, before, s.binding.inputId, s.binding.prompt);
        SeenBefore(front, before, seen);
      }
      forall i | 0 <= i < |before| ensures FirstSeen(steps, ds[i], first[i]) { FirstSeenStays(steps, ds[i], first[i]); }
      StillDeclared(before, ds);
      forall k | 0 <= k < |steps| && steps[k].binding.RuntimeInput? ensures DeclaredAs(ds, steps[k].binding.inputId) {
        if k < |front| { assert front[k] == steps[k]; }
        else if !Declares(before, s.binding.inputId) { assert ds[|before|].key == s.binding.inputId; }
      }
    }
  }

  lemma StillDeclared(a: seq<InputDeclaration>, b: seq<InputDeclaration>)
    requires a <= b
    ensures forall key :: DeclaredAs(a, key) ==> DeclaredAs(b, key)
  {
    forall key | DeclaredAs(a, key) ensures DeclaredAs(b, key) {
      var i :| 0 <= i < |a| && a[i].key == key;
      assert b[i].key == key;
    }
  }

  lemma SeenBefore(steps: seq<ObservedAction>, ds: seq<InputDeclaration>, first: seq<nat>)
    requires DeclaresRuntimeInputs(steps, ds, first)
    ensures forall i :: 0 <= i < |first| ==> first[i] < |steps|
  {
    forall i | 0 <= i < |first| ensures first[i] < |steps| { assert FirstSeen(steps, ds[i], first[i]); }
  }

  lemma NewlySeen(steps: seq<ObservedAction>, before: seq<InputDeclaration>, key: string, prompt: string)
    requires steps != [] && steps[|steps| - 1].binding == RuntimeInput(key, prompt) && !Declares(before, key)
    requires var front := steps[..|steps| - 1];
      forall k :: 0 <= k < |front| && front[k].binding.RuntimeInput? ==> DeclaredAs(before, front[k].binding.inputId)
    ensures FirstSeen(steps, InputDeclaration(key, prompt, true), |steps| - 1)
  {
    var front := steps[..|steps| - 1];
    forall j | 0 <= j < |front| && steps[j].binding.RuntimeInput? ensures steps[j].binding.inputId != key { assert front[j] == steps[j]; }
  }

  /** A compiled specification declares the runtime inputs of its trace, is triggered on the site its
      trace names first with five minutes between firings, may run two minutes, and may write as many
      records as it has writes. */
  lemma FrameExactly(q: Request) returns (first: seq<nat>)
    requires Compile(q).Compiled?
    ensures var spec := Compile(q).spec;
      && DeclaresRuntimeInputs(q.trace.steps, spec.inputs, first)
      && spec.trigger.OnContext? && spec.trigger.cooldownSeconds == 300 && FirstGiven(q.trace.steps, spec.trigger.origin)
      && spec.agentId == q.agentId && spec.versionId == q.versionId && spec.budgets.maxRuntimeSeconds == 120
      && spec.budgets.maxRecordsWritten == var n := Actions(q.trace.steps); if n == 0 then 1 else n
  {
    hide DeclaresRuntimeInputs, FirstGiven, Refusal, Operations, Problems, Consequential, NoneRefused;
    CompiledFacts(q);
    first := DeclaredExactly(q.available, q.trace.steps);
    OriginExactly(q.trace.steps);
    WritesCounted(q.render, q.available, q.trace.traceId, q.trace.steps);
    CompiledHasOrigin(q);
    hide Emitted, WriteCount, Refusals, FirstNative, FirstOrigin;
  }

  lemma CompiledHasOrigin(q: Request)
    requires Compile(q).Compiled?
    ensures FirstOrigin(q.trace.steps).Some?
  {
    hide Problems, FirstOrigin, FirstNative, Emitted, Refusals;
  }

  /** The actions that change something. */
  function Actions(steps: seq<ObservedAction>): nat {
    if steps == [] then 0 else Actions(steps[..|steps| - 1]) + if Consequential(steps[|steps| - 1]) then 1 else 0
  }

  lemma {:induction false} WriteCountAppend(a: seq<Step>, b: seq<Step>)
    ensures WriteCount(a + b) == WriteCount(a) + WriteCount(b)
  {
    if b == [] {
      assert a + b == a;
    } else {
      assert (a + b)[..|a + b| - 1] == a + b[..|b| - 1];
      WriteCountAppend(a, b[..|b| - 1]);
    }
  }

  lemma WritesOfAction(render: Render, id: string, s: ObservedAction, n: nat)
    requires Operations(s.operation).Some?
    ensures WriteCount(StepsOf(render, id, s, n)) == if Consequential(s) then 1 else 0
  {
    OperationModes(s);
    hide Operations, Consequential, Inputs, WriteInputs, StepId, OutputKey;
    var o := Operations(s.operation).value;
    var first := FirstHalf(render, id, s, o, n);
    assert [first][..0] == [] && WriteCount([first]) == 0;
    if o.write.Some? {
      var other := OtherHalf(render, id, s, o.write.value, n + 1);
      assert [other][..0] == [] && WriteCount([other]) == 1;
      assert [first] + [other] == [first, other];
      WriteCountAppend([first], [other]);
    }
  }

  lemma {:induction false} WritesCounted(render: Render, available: set<string>, id: string, steps: seq<ObservedAction>)
    requires NoneRefused(available, steps)
    ensures WriteCount(Emitted(render, available, id, steps)) == Actions(steps)
  {
    hide Refusal, StepsOf, Consequential;
    if steps != [] {
      var (front, s) := (steps[..|steps| - 1], steps[|steps| - 1]);
      assert NoneRefused(available, front) && Refusal(available, s).None?;
      WritesCounted(render, available, id, front);
      KnownOperation(available, s);
      WritesOfAction(render, id, s, |Emitted(render, available, id, front)|);
      WriteCountAppend(Emitted(render, available, id, front), StepsOf(render, id, s, |Emitted(render, available, id, front)|));
    }
  }

  /** How many of these actions cannot be compiled. */
  function Unfit(available: set<string>, steps: seq<ObservedAction>): nat {
    if steps == [] then 0 else Unfit(available, steps[..|steps| - 1]) + if Compilable(available, steps[|steps| - 1]) then 0 else 1
  }

  /** The refusals are the first thing wrong with each action that cannot be compiled, in order. */
  lemma {:induction false} RefusalsAre(available: set<string>, steps: seq<ObservedAction>, k: nat)
    requires k < |steps|
    ensures |Refusals(available, steps)| == Unfit(available, steps)
    ensures !Compilable(available, steps[k]) ==>
      Unfit(available, steps[..k]) < Unfit(available, steps) && Refusals(available, steps)[Unfit(available, steps[..k])] == Wrong(available, steps[k])
  {
    hide Refusal, Compilable, Wrong;
    var (front, n) := (steps[..|steps| - 1], |steps| - 1);
    RefusalExactly(available, steps[n]);
    if k < n {
      assert front[k] == steps[k] && front[..k] == steps[..k];
      RefusalsAre(available, front, k);
    } else {
      if n > 0 { RefusalsAre(available, front, 0); }
    }
  }

  /** A ready trace that does not compile is refused for its first step off the page, or else for its
      missing site followed by what is wrong with its actions; that list is never empty. */
  lemma RefusedFor(q: Request)
    requires Compile(q).Refused? && Problems(q.trace) == []
    ensures var steps := q.trace.steps;
      && Compile(q).missing != []
      && (!OnPages(steps) ==> exists s :: FirstOff(steps, s) && Compile(q).missing == [NativeStep(s.order)])
      && (OnPages(steps) ==> Compile(q).missing == (if SomeOrigin(steps) then [] else [NoOrigin]) + Refusals(q.available, steps))
  {
    hide Problems, Refusal, OnPages, FirstOff;
    var steps := q.trace.steps;
    NativeExactly(steps);
    OriginExactly(steps);
    RefusalsEmpty(q.available, steps);
    if NoneRefused(q.available, steps) && SomeOrigin(steps) {
      var k :| 0 <= k < |steps| && Given(steps[k].origin);
      ActionImage(q, k);
    }
    hide Emitted, Refusals, FirstNative;
  }
}
