/** What every compiled specification is: the in-order image of its trace, sound by the validator's
    order and reference rules, with each write right behind its proposal. */
module CompiledTraces {
  import opened Text
  import opened AgentSpec
  import opened TraceCompiler
  import V = Validator
  import L = LocalRuntime
  import E = RunEngine
  import R = Reconciliation

  // ---- what compiled without refusal means ----

  ghost predicate NoneRefused(available: set<string>, steps: seq<ObservedAction>) {
    forall k :: 0 <= k < |steps| ==> Refusal(available, steps[k]).None?
  }

  ghost predicate DistinctActions(steps: seq<ObservedAction>) { forall i, j :: 0 <= i < j < |steps| ==> steps[i].order != steps[j].order }

  lemma {:induction false} RefusalsEmpty(available: set<string>, steps: seq<ObservedAction>)
    ensures Refusals(available, steps) == [] <==> NoneRefused(available, steps)
  {
    hide Refusal;
    if steps != [] {
      RefusalsEmpty(available, steps[..|steps| - 1]);
      assert forall k :: 0 <= k < |steps| - 1 ==> steps[..|steps| - 1][k] == steps[k];
    }
  }

  lemma OrdersGrow(front: seq<ObservedAction>, last: ObservedAction)
    ensures Orders(front + [last]) == Orders(front) + {last.order}
    ensures DistinctActions(front + [last]) <==> DistinctActions(front) && last.order !in Orders(front)
  {
    var all := front + [last];
    assert forall i :: 0 <= i < |front| ==> all[i] == front[i];
    forall x | x in Orders(front) ensures x in Orders(all) {
      var i :| 0 <= i < |front| && front[i].order == x;
      assert all[i].order == x;
    }
    assert all[|front|].order in Orders(all);
    if DistinctActions(all) {
      forall i, j | 0 <= i < j < |front| ensures front[i].order != front[j].order { assert all[i].order != all[j].order; }
      forall i | 0 <= i < |front| ensures front[i].order != last.order { assert all[i].order != all[|front|].order; }
    }
  }

  lemma {:induction false} OrdersDistinctExactly(steps: seq<ObservedAction>)
    ensures |Orders(steps)| <= |steps|
    ensures |Orders(steps)| == |steps| <==> DistinctActions(steps)
  {
    if steps == [] {
      assert Orders(steps) == {};
    } else {
      var (front, last) := (steps[..|steps| - 1], steps[|steps| - 1]);
      OrdersDistinctExactly(front);
      assert steps == front + [last];
      OrdersGrow(front, last);
      hide Orders, DistinctActions;
      var o: int := last.order;
      if o in Orders(front) { assert Orders(front) + {o} == Orders(front); }
    }
  }

  /** A `from_step` binding names an action of the trace with a smaller order. */
  ghost predicate ReadsSmaller(steps: seq<ObservedAction>, k: nat)
    requires k < |steps|
  {
    steps[k].binding.FromStep? ==>
      steps[k].binding.step < steps[k].order && exists l :: 0 <= l < |steps| && steps[l].order == steps[k].binding.step
  }

  lemma {:induction false} StepProblemsEmpty(orders: set<int>, steps: seq<ObservedAction>)
    ensures StepProblems(orders, steps) == [] <==> forall k :: 0 <= k < |steps| ==> StepProblem(orders, steps[k]) == []
  {
    hide StepProblem;
    if steps != [] {
      StepProblemsEmpty(orders, steps[..|steps| - 1]);
      assert forall k :: 0 <= k < |steps| - 1 ==> steps[..|steps| - 1][k] == steps[k];
    }
  }

  /** A trace is ready exactly when its orders are distinct and every value read from another step
      comes from an existing step of smaller order. */
  lemma ReadyExactly(t: Trace)
    ensures Problems(t) == [] <==>
            DistinctActions(t.steps) && forall k: nat :: k < |t.steps| ==> ReadsSmaller(t.steps, k)
  {
    OrdersDistinctExactly(t.steps);
    StepProblemsEmpty(Orders(t.steps), t.steps);
    hide StepProblems;
    forall k: nat | k < |t.steps| ensures StepProblem(Orders(t.steps), t.steps[k]) == [] <==> ReadsSmaller(t.steps, k) { }
  }

  // ---- the in-order image ----

  /** Where action k starts in the specification. */
  function At(q: Request, k: nat): nat
    requires k <= |q.trace.steps|
  { |Emitted(q.render, q.available, q.trace.traceId, q.trace.steps[..k])| }

  lemma {:induction false} EmittedPrefix(render: Render, available: set<string>, id: string, steps: seq<ObservedAction>, n: nat)
    requires n <= |steps|
    ensures Emitted(render, available, id, steps[..n]) <= Emitted(render, available, id, steps)
    decreases |steps| - n
  {
    hide Refusal, StepsOf;
    if n == |steps| {
      assert steps[..n] == steps;
    } else {
      EmittedPrefix(render, available, id, steps, n + 1);
      assert steps[..n + 1][..n] == steps[..n];
    }
  }

  /** Action k became the steps between At(k) and At(k + 1), and nothing else. */
  lemma ActionImage(q: Request, k: nat)
    requires k < |q.trace.steps| && Refusal(q.available, q.trace.steps[k]).None?
    ensures var all := Emitted(q.render, q.available, q.trace.traceId, q.trace.steps);
      && Operations(q.trace.steps[k].operation).Some?
      && At(q, k) < At(q, k + 1) <= |all|
      && all[At(q, k)..At(q, k + 1)] == StepsOf(q.render, q.trace.traceId, q.trace.steps[k], At(q, k))
  {
    var steps := q.trace.steps;
    KnownOperation(q.available, steps[k]);
    hide Refusal, Operations, FirstHalf, OtherHalf;
    EmittedPrefix(q.render, q.available, q.trace.traceId, steps, k + 1);
    assert steps[..k + 1][..k] == steps[..k];
  }

  /** The action a compiled step came from, and which half of it the step is. */
  lemma {:induction false} Owner(q: Request, n: nat, i: nat) returns (k: nat)
    requires n <= |q.trace.steps| && NoneRefused(q.available, q.trace.steps) && i < At(q, n)
    ensures k < n && At(q, k) <= i < At(q, k + 1)
  {
    hide Emitted, Refusal;
    if n > 0 && i < At(q, n - 1) {
      k := Owner(q, n - 1, i);
    } else {
      if n == 0 { StartsEmpty(q); }
      k := n - 1;
    }
  }

  lemma StartsEmpty(q: Request)
    ensures At(q, 0) == 0
  {
  }

  predicate Consequential(s: ObservedAction) { s.operation == "set_value" || s.operation == "press" }

  /** The capabilities an action is carried out with: a read, or a proposal and its write. */
  function CapabilitiesOf(s: ObservedAction): (string, string) {
    if s.operation == "set_value" then ("browser.propose_form_fill", "browser.supervised_form_fill")
    else if s.operation == "press" then ("browser.press_control", "browser.press_control")
    else ("browser.extract_structured_fields", "")
  }

  /** A compiled step calls the first version of this capability at this risk, and is not retried. */
  predicate Calls(s: Step, capability: string, risk: Risk) {
    s.capability == capability && s.version == 1 && s.risk == risk && !s.retryAllowed
  }

  /** The specification carries action k at position i: one read, or a proposal and the write that
      executes it, each by the action's own capability and with the action's bindings. */
  ghost predicate Carries(q: Request, spec: Spec, k: nat, i: nat)
    requires k < |q.trace.steps|
  {
    var s := q.trace.steps[k];
    && i < |spec.steps|
    && spec.steps[i].stepId == StepId(q.trace.traceId, s.order) && spec.steps[i].outputKey == OutputKey(s.order)
    && spec.steps[i].inputs == Inputs(q.render, s) && spec.steps[i].order == i + 1
    && spec.steps[i].mode == (if Consequential(s) then ProposeWrite else Read)
    && (spec.steps[i].approvalRequired <==> Consequential(s))
    && Calls(spec.steps[i], CapabilitiesOf(s).0, if Consequential(s) then Medium else Low)
    && (Consequential(s) ==>
        && i + 1 < |spec.steps|
        && spec.steps[i + 1].stepId == StepId(q.trace.traceId, s.order) + "w" && spec.steps[i + 1].outputKey == OutputKey(s.order) + "w"
        && spec.steps[i + 1].inputs == WriteInputs(q.render, s) && spec.steps[i + 1].order == i + 2
        && spec.steps[i + 1].mode == Write && spec.steps[i + 1].approvalRequired
        && Calls(spec.steps[i + 1], CapabilitiesOf(s).1, Medium))
  }

  lemma OperationModes(s: ObservedAction)
    requires Operations(s.operation).Some?
    ensures Operations(s.operation).value.mode == (if Consequential(s) then ProposeWrite else Read)
    ensures Operations(s.operation).value.write.Some? <==> Consequential(s)
    ensures Operations(s.operation).value.capability == CapabilitiesOf(s).0
    ensures Consequential(s) ==> Operations(s.operation).value.write == Some(CapabilitiesOf(s).1)
  {
  }

  lemma CompiledFacts(q: Request)
    requires Compile(q).Compiled?
    ensures Problems(q.trace) == [] && NoneRefused(q.available, q.trace.steps)
    ensures Compile(q).spec.steps == Emitted(q.render, q.available, q.trace.traceId, q.trace.steps)
    ensures Compile(q).spec.inputs == Declared(q.available, q.trace.steps)
  {
    RefusalsEmpty(q.available, q.trace.steps);
    hide Problems, Emitted, Refusals, NoneRefused;
  }

  lemma PartCarries(q: Request, spec: Spec, k: nat, i: nat, j: nat)
    requires k < |q.trace.steps| && i <= j <= |spec.steps| && Operations(q.trace.steps[k].operation).Some?
    requires spec.steps[i..j] == StepsOf(q.render, q.trace.traceId, q.trace.steps[k], i)
    ensures Carries(q, spec, k, i) && j == i + if Consequential(q.trace.steps[k]) then 2 else 1
  {
    OperationModes(q.trace.steps[k]);
    hide Operations, Inputs, WriteInputs, StepId, OutputKey, Consequential, CapabilitiesOf;
    var part := spec.steps[i..j];
    assert part[0] == spec.steps[i];
    assert |part| == 2 ==> part[1] == spec.steps[i + 1];
  }

  /** A successful compile is the in-order image of the trace: action k occupies the positions from
      At(k) to At(k + 1), one for a read and two for a proposal with its write, the first action
      starts at 0 and the last one ends the plan, so nothing is dropped and nothing is added. */
  lemma InOrderImage(q: Request, k: nat)
    requires Compile(q).Compiled? && k < |q.trace.steps|
    ensures Carries(q, Compile(q).spec, k, At(q, k))
    ensures At(q, k + 1) == At(q, k) + if Consequential(q.trace.steps[k]) then 2 else 1
    ensures At(q, 0) == 0 && At(q, |q.trace.steps|) == |Compile(q).spec.steps|
  {
    CompiledFacts(q);
    ActionImage(q, k);
    StartsEmpty(q);
    assert q.trace.steps[..|q.trace.steps|] == q.trace.steps;
    hide Compile, Problems, Refusal, Operations, Carries, StepsOf, Emitted;
    PartCarries(q, Compile(q).spec, k, At(q, k), At(q, k + 1));
  }

  // ---- numbering and names ----

  /** The action a position belongs to, and that position's distance from the action's first step. */
  lemma OwnerOf(q: Request, i: nat) returns (k: nat)
    requires Compile(q).Compiled? && i < |Compile(q).spec.steps|
    ensures k < |q.trace.steps| && At(q, k) <= i < At(q, k + 1)
    ensures Carries(q, Compile(q).spec, k, At(q, k)) && (i == At(q, k) || (i == At(q, k) + 1 && Consequential(q.trace.steps[k])))
  {
    CompiledFacts(q);
    assert q.trace.steps[..|q.trace.steps|] == q.trace.steps;
    assert At(q, |q.trace.steps|) == |Compile(q).spec.steps|;
    k := Owner(q, |q.trace.steps|, i);
    hide Compile, At, Carries, Consequential;
    InOrderImage(q, k);
  }

  /** Step numbers count up from one in list order. */
  lemma NumberedInOrder(q: Request)
    requires Compile(q).Compiled?
    ensures CountsUp(Compile(q).spec.steps) && Contiguous(Compile(q).spec.steps) && ByOrder(Compile(q).spec.steps) == Compile(q).spec.steps
  {
    var steps := Compile(q).spec.steps;
    hide Compile, At, ByOrder;
    forall i: nat | i < |steps| ensures steps[i].order == i + 1 { var k := OwnerOf(q, i); }
    ByOrderKeeps(steps);
  }

  /** "" for the first half of an action, "w" for the write. */
  function Tail(q: Request, k: nat, i: nat): string
    requires k < |q.trace.steps|
  { if i == At(q, k) then "" else "w" }

  lemma NamesOf(q: Request, i: nat) returns (k: nat)
    requires Compile(q).Compiled? && i < |Compile(q).spec.steps|
    ensures k < |q.trace.steps| && At(q, k) <= i < At(q, k + 1)
    ensures Compile(q).spec.steps[i].stepId == StepId(q.trace.traceId, q.trace.steps[k].order) + Tail(q, k, i)
    ensures Compile(q).spec.steps[i].outputKey == OutputKey(q.trace.steps[k].order) + Tail(q, k, i)
  {
    hide Compile, At, StepId, OutputKey;
    k := OwnerOf(q, i);
    assert StepId(q.trace.traceId, q.trace.steps[k].order) + "" == StepId(q.trace.traceId, q.trace.steps[k].order);
    assert OutputKey(q.trace.steps[k].order) + "" == OutputKey(q.trace.steps[k].order);
  }

  /** A decimal and an optional "w" after it are both determined. */
  lemma NameSplit(a: nat, b: nat, x: string, y: string)
    requires (x == "" || x == "w") && (y == "" || y == "w") && Decimal(a) + x == Decimal(b) + y
    ensures a == b && x == y
  {
    var (d, e) := (Decimal(a), Decimal(b));
    hide Decimal;
    assert x == "w" ==> (d + x)[|d + x| - 1] == 'w';
    assert y == "w" ==> (e + y)[|e + y| - 1] == 'w';
    assert x == "" ==> d + x == d;
    assert y == "" ==> e + y == e;
    assert x == y;
    assert d == (d + x)[..|d|] && e == (e + y)[..|e|];
    DecimalInjective(a, b);
  }

  /** Two positions of one plan never share a step id or an output key. */
  lemma NamesDistinct(q: Request, i: nat, j: nat)
    requires Compile(q).Compiled? && i < |Compile(q).spec.steps| && j < |Compile(q).spec.steps|
    requires Compile(q).spec.steps[i].stepId == Compile(q).spec.steps[j].stepId
          || Compile(q).spec.steps[i].outputKey == Compile(q).spec.steps[j].outputKey
    ensures i == j
  {
    CompiledFacts(q);
    ReadyExactly(q.trace);
    hide Compile, At, Problems;
    var k := NamesOf(q, i);
    var l := NamesOf(q, j);
    var (a, b) := (q.trace.steps[k].order, q.trace.steps[l].order);
    SharedName(q.trace.traceId, a, b, Tail(q, k, i), Tail(q, l, j));
    assert k == l;
    var m := OwnerOf(q, i);
    var n := OwnerOf(q, j);
    SameAction(q, k, m, i);
    SameAction(q, l, n, j);
  }

  lemma SharedName(id: string, a: nat, b: nat, x: string, y: string)
    requires (x == "" || x == "w") && (y == "" || y == "w")
    requires StepId(id, a) + x == StepId(id, b) + y || OutputKey(a) + x == OutputKey(b) + y
    ensures a == b && x == y
  {
    var p := Prefix8(id) + "-s";
    hide Decimal;
    if StepId(id, a) + x == StepId(id, b) + y {
      assert StepId(id, a) + x == p + (Decimal(a) + x) && StepId(id, b) + y == p + (Decimal(b) + y);
      assert (p + (Decimal(a) + x))[|p|..] == Decimal(a) + x && (p + (Decimal(b) + y))[|p|..] == Decimal(b) + y;
    } else {
      assert OutputKey(a) + x == "step_" + (Decimal(a) + x) && OutputKey(b) + y == "step_" + (Decimal(b) + y);
      assert ("step_" + (Decimal(a) + x))[5..] == Decimal(a) + x && ("step_" + (Decimal(b) + y))[5..] == Decimal(b) + y;
    }
    NameSplit(a, b, x, y);
  }

  lemma {:induction false} AtGrows(q: Request, k: nat, l: nat)
    requires k <= l <= |q.trace.steps| && NoneRefused(q.available, q.trace.steps)
    ensures At(q, k) <= At(q, l)
  {
    hide At, Refusal;
    if k < l {
      AtGrows(q, k, l - 1);
      ActionImage(q, l - 1);
    }
  }

  lemma SameAction(q: Request, k: nat, l: nat, i: nat)
    requires Compile(q).Compiled? && k < |q.trace.steps| && l < |q.trace.steps|
    requires At(q, k) <= i < At(q, k + 1) && At(q, l) <= i < At(q, l + 1)
    ensures k == l
  {
    CompiledFacts(q);
    hide Compile, At, Problems, NoneRefused;
    if k < l { AtGrows(q, k + 1, l); }
    if l < k { AtGrows(q, l + 1, k); }
  }

  lemma StepIdsUnique(q: Request)
    requires Compile(q).Compiled?
    ensures V.DistinctIds(Compile(q).spec.steps)
  {
    var steps := Compile(q).spec.steps;
    hide Compile;
    forall i, j | 0 <= i < j < |steps| ensures steps[i].stepId != steps[j].stepId {
      if steps[i].stepId == steps[j].stepId { NamesDistinct(q, i, j); }
    }
  }

  // ---- references ----

  /** The action reads a value from an action listed before it. */
  ghost predicate ListedEarlier(steps: seq<ObservedAction>, k: nat)
    requires k < |steps|
  { steps[k].binding.FromStep? ==> exists l :: 0 <= l < k && steps[l].order == steps[k].binding.step }

  /** The first step of an action is the one producer of its output key. */
  lemma ProducerAt(q: Request, l: nat, p: nat)
    requires Compile(q).Compiled? && l < |q.trace.steps|
    ensures At(q, l) < |Compile(q).spec.steps|
    ensures V.LastProducer(Compile(q).spec.steps, OutputKey(q.trace.steps[l].order), p) <==> p == At(q, l)
  {
    hide Compile, At, OutputKey;
    InOrderImage(q, l);
    var steps := Compile(q).spec.steps;
    forall j: nat | j < |steps| && steps[j].outputKey == OutputKey(q.trace.steps[l].order) ensures j == At(q, l) {
      NamesDistinct(q, j, At(q, l));
    }
  }

  lemma {:induction false} DeclaredHas(available: set<string>, steps: seq<ObservedAction>, k: nat)
    requires k < |steps| && Refusal(available, steps[k]).None? && steps[k].binding.RuntimeInput?
    ensures Declares(Declared(available, steps), steps[k].binding.inputId)
  {
    hide Refusal;
    var front := steps[..|steps| - 1];
    var (d, all) := (Declared(available, front), Declared(available, steps));
    if k < |front| {
      DeclaredHas(available, front, k);
      var i :| 0 <= i < |d| && d[i].key == steps[k].binding.inputId;
      assert all[i] == d[i];
    } else if !Declares(d, steps[k].binding.inputId) {
      assert all[|d|].key == steps[k].binding.inputId;
    }
  }

  /** The bindings of a compiled step: its action's value, constants, and for a write the output of
      its own proposal. */
  lemma BindingsOf(q: Request, i: nat, n: nat) returns (k: nat)
    requires Compile(q).Compiled? && i < |Compile(q).spec.steps| && n < |Compile(q).spec.steps[i].inputs|
    ensures k < |q.trace.steps| && At(q, k) <= i < At(q, k + 1)
    ensures var (s, b) := (q.trace.steps[k], Compile(q).spec.steps[i].inputs[n].1);
      && (b.AgentInput? ==> s.binding.RuntimeInput? && b.ref == s.binding.inputId)
      && (b.StepOutput? ==> (s.binding.FromStep? && b.ref == OutputKey(s.binding.step))
                            || (i == At(q, k) + 1 && b.ref == OutputKey(s.order)))
  {
    hide Compile, At, OutputKey;
    k := OwnerOf(q, i);
  }

  lemma BackwardSound(q: Request, i: nat, l: nat)
    requires Compile(q).Compiled? && i < |Compile(q).spec.steps| && l < |q.trace.steps| && At(q, l) < i
    ensures V.BindingSound(Compile(q).spec, Compile(q).spec.steps[i], StepOutput(OutputKey(q.trace.steps[l].order)))
  {
    hide Compile, At, OutputKey, Contiguous, ByOrder, V.LastProducer;
    NumberedInOrder(q);
    ProducerAt(q, l, At(q, l));
  }

  lemma BindingIsSound(q: Request, i: nat, n: nat)
    requires Compile(q).Compiled? && i < |Compile(q).spec.steps| && n < |Compile(q).spec.steps[i].inputs|
    requires forall k: nat :: k < |q.trace.steps| ==> ListedEarlier(q.trace.steps, k)
    ensures V.BindingSound(Compile(q).spec, Compile(q).spec.steps[i], Compile(q).spec.steps[i].inputs[n].1)
  {
    CompiledFacts(q);
    hide Compile, At, OutputKey, Problems, Declared, Refusal, V.LastProducer;
    var b := Compile(q).spec.steps[i].inputs[n].1;
    var k := BindingsOf(q, i, n);
    if b.AgentInput? {
      DeclaredHas(q.available, q.trace.steps, k);
    } else if b.StepOutput? {
      hide V.BindingSound;
      if i == At(q, k) + 1 && b.ref == OutputKey(q.trace.steps[k].order) {
        BackwardSound(q, i, k);
      } else {
        assert ListedEarlier(q.trace.steps, k);
        var l :| 0 <= l < k && q.trace.steps[l].order == q.trace.steps[k].binding.step;
        InOrderImage(q, l);
        AtGrows(q, l + 1, k);
        BackwardSound(q, i, l);
      }
    }
  }

  /** Every binding of the plan names a declared input, or an output produced by an earlier step. */
  ghost predicate ReferencesSound(spec: Spec) {
    forall i, n :: 0 <= i < |spec.steps| && 0 <= n < |spec.steps[i].inputs| ==>
      V.BindingSound(spec, spec.steps[i], spec.steps[i].inputs[n].1)
  }

  lemma FromStepFirst(q: Request, k: nat) returns (p: nat)
    requires Compile(q).Compiled? && k < |q.trace.steps| && q.trace.steps[k].binding.FromStep? && ReferencesSound(Compile(q).spec)
    ensures p < At(q, k) && V.LastProducer(Compile(q).spec.steps, OutputKey(q.trace.steps[k].binding.step), p)
  {
    NumberedInOrder(q);
    hide Compile, At, OutputKey, Contiguous, ByOrder;
    InOrderImage(q, k);
    var (spec, s, i) := (Compile(q).spec, q.trace.steps[k], At(q, k));
    assert spec.steps[i].inputs[0].1 == StepOutput(OutputKey(s.binding.step));
    hide Inputs, WriteInputs;
    assert V.BindingSound(spec, spec.steps[i], spec.steps[i].inputs[0].1);
    p :| V.LastProducer(spec.steps, OutputKey(s.binding.step), p) && spec.steps[p].order < i + 1;
  }

  lemma SoundMeansListed(q: Request, k: nat)
    requires Compile(q).Compiled? && k < |q.trace.steps| && ReferencesSound(Compile(q).spec)
    ensures ListedEarlier(q.trace.steps, k)
  {
    hide Compile, At, OutputKey, Problems, ReferencesSound, V.LastProducer;
    CompiledFacts(q);
    ReadyExactly(q.trace);
    if q.trace.steps[k].binding.FromStep? {
      var p := FromStepFirst(q, k);
      assert ReadsSmaller(q.trace.steps, k);
      var l: nat :| l < |q.trace.steps| && q.trace.steps[l].order == q.trace.steps[k].binding.step;
      ProducerAt(q, l, p);
      if k <= l { AtGrows(q, k, l); }
    }
  }

  /** The compiled plan has only backward references exactly when every action that reads a value
      from another one is listed after it. Readiness alone compares the order fields, while plan
      steps are numbered by position in the list. */
  lemma BackwardExactly(q: Request)
    requires Compile(q).Compiled?
    ensures ReferencesSound(Compile(q).spec) <==> forall k: nat :: k < |q.trace.steps| ==> ListedEarlier(q.trace.steps, k)
  {
    hide Compile, ListedEarlier, V.BindingSound;
    var spec := Compile(q).spec;
    if forall k: nat :: k < |q.trace.steps| ==> ListedEarlier(q.trace.steps, k) {
      forall i, n | 0 <= i < |spec.steps| && 0 <= n < |spec.steps[i].inputs|
        ensures V.BindingSound(spec, spec.steps[i], spec.steps[i].inputs[n].1) { BindingIsSound(q, i, n); }
    }
    if ReferencesSound(spec) {
      forall k: nat | k < |q.trace.steps| ensures ListedEarlier(q.trace.steps, k) { SoundMeansListed(q, k); }
    }
  }

  /** A trace listed in increasing order meets that condition. */
  lemma IncreasingOrderSuffices(q: Request)
    requires Compile(q).Compiled? && forall i, j :: 0 <= i < j < |q.trace.steps| ==> q.trace.steps[i].order < q.trace.steps[j].order
    ensures ReferencesSound(Compile(q).spec)
  {
    CompiledFacts(q);
    ReadyExactly(q.trace);
    hide Compile, Problems, ReferencesSound;
    forall k: nat | k < |q.trace.steps| ensures ListedEarlier(q.trace.steps, k) {
      assert ReadsSmaller(q.trace.steps, k);
    }
    BackwardExactly(q);
  }

  /** Two reads listed against their order: the trace is ready and compiles, but the plan refers
      forward and the validator refuses it. */
  function AgainstTheOrder(): seq<ObservedAction> {
    var t := Target("textbox", Some("Phone"), None, []);
    [ObservedAction(2, "browser_dom", Some("https://a.example"), "read_field", t, FromStep(1, "phone"), None),
     ObservedAction(1, "browser_dom", Some("https://a.example"), "read_field", t, NoValue, None)]
  }

  lemma ListedAgainstTheOrder(agentId: string, versionId: string, render: Render)
    ensures var q := Request(Trace("00000000", AgainstTheOrder()), {"browser.extract_structured_fields"}, agentId, versionId, render);
      Compile(q).Compiled? && !ReferencesSound(Compile(q).spec)
  {
    var steps := AgainstTheOrder();
    var q := Request(Trace("00000000", steps), {"browser.extract_structured_fields"}, agentId, versionId, render);
    ReadyExactly(q.trace);
    assert ReadsSmaller(steps, 0) by { assert steps[1].order == 1; }
    assert ReadsSmaller(steps, 1);
    assert NoneRefused(q.available, steps);
    RefusalsEmpty(q.available, steps);
    hide Problems, Refusals;
    assert Emitted(q.render, q.available, q.trace.traceId, steps) != [];
    assert FirstOrigin(steps).Some?;
    assert FirstNative(steps).None? by { assert FirstNative(steps[1..]).None?; }
    assert !ListedEarlier(steps, 0);
    BackwardExactly(q);
  }

  // ---- one write, one proposal: two rules that pick the same one ----

  /** The latest proposing step before position i. */
  function LatestProposer(steps: seq<Step>, i: nat): (p: Option<nat>)
    requires i <= |steps|
    ensures p.Some? ==> p.value < i && steps[p.value].mode == ProposeWrite && forall j :: p.value < j < i ==> steps[j].mode != ProposeWrite
    ensures p.None? ==> forall j :: 0 <= j < i ==> steps[j].mode != ProposeWrite
  {
    if i == 0 then None
    else if steps[i - 1].mode == ProposeWrite then Some(i - 1)
    else LatestProposer(steps, i - 1)
  }

  lemma BoundLast(inputs: Bindings, name: string, b: Binding)
    requires (name, b) in inputs && forall i, j :: 0 <= i < j < |inputs| ==> inputs[i].0 != inputs[j].0
    ensures Bound(inputs, name) == Some(b)
  {
    var r := Bound(inputs, name);
    var k :| 0 <= k < |inputs| && inputs[k] == (name, b);
    var j :| 0 <= j < |inputs| && inputs[j] == (name, r.value);
  }

  lemma PairsWith(render: Render, s: ObservedAction)
    ensures Bound(WriteInputs(render, s), "pairs_with") == Some(Constant(Words(OutputKey(s.order))))
  {
    hide OutputKey;
    var ins := WriteInputs(render, s);
    var n := |Inputs(render, s)|;
    assert ins[n] == ("pairs_with", Constant(Words(OutputKey(s.order))));
    NamedApart(render, s);
    BoundLast(ins, "pairs_with", Constant(Words(OutputKey(s.order))));
  }

  /** Input names by length and first letter. */
  function NameRank(n: string): int {
    if |n| == 5 then 0 else if |n| == 11 then 1 else if |n| == 6 then 2 else if |n| == 14 then 3 else if |n| == 10 then 4 else 5
  }

  lemma NamedApart(render: Render, s: ObservedAction)
    ensures var ins := WriteInputs(render, s); forall i, j :: 0 <= i < j < |ins| ==> ins[i].0 != ins[j].0
  {
    hide OutputKey;
    var ins := WriteInputs(render, s);
    forall i, j | 0 <= i < j < |ins| ensures NameRank(ins[i].0) < NameRank(ins[j].0) { }
  }

  /** On a compiled plan every write stands right behind its own proposal: that proposal is the
      latest one before it, it is the one its `pairs_with` names, and no other step leaves an output
      under that name. */
  lemma WritePairsWithLatest(q: Request, i: nat)
    requires Compile(q).Compiled? && i < |Compile(q).spec.steps| && Compile(q).spec.steps[i].mode == Write
    ensures var steps := Compile(q).spec.steps;
      && i > 0 && LatestProposer(steps, i) == Some(i - 1)
      && Bound(steps[i].inputs, "pairs_with") == Some(Constant(Words(steps[i - 1].outputKey)))
      && forall j :: 0 <= j < |steps| && steps[j].outputKey == steps[i - 1].outputKey ==> j == i - 1
  {
    hide Compile, At, OutputKey, WriteInputs, Inputs;
    var steps := Compile(q).spec.steps;
    var k := OwnerOf(q, i);
    PairsWith(q.render, q.trace.steps[k]);
    forall j | 0 <= j < |steps| && steps[j].outputKey == steps[i - 1].outputKey ensures j == i - 1 { NamesDistinct(q, j, i - 1); }
  }

  /** What step j proposed in a first pass over the plan. */
  function ProposalAt<W>(reg: L.Registry<W>, h: E.Digest, spec: Spec, steps: seq<Step>, j: nat, inputs: Values, ctx: E.Context, st: E.State<W>): Option<R.Diff>
    requires j < |steps|
  {
    var (p, s) := (L.FirstPass(reg, h, spec, steps[..j], inputs, ctx, st), steps[j]);
    if s.capability !in reg then None
    else
      var e := E.Execute(h, spec, s, inputs, ctx, reg[s.capability], None, p.state).1;
      if e.Proposed? then Some(e.diff) else None
  }

  lemma {:induction false} ProposalKept<W>(reg: L.Registry<W>, h: E.Digest, spec: Spec, steps: seq<Step>, n: nat, j: nat, inputs: Values, ctx: E.Context, st: E.State<W>)
    requires j < n <= |steps| && steps[j].mode == ProposeWrite
    requires forall k :: j < k < n ==> steps[k].outputKey != steps[j].outputKey
    requires L.FirstPass(reg, h, spec, steps[..n], inputs, ctx, st).failure.None?
    ensures var p := L.FirstPass(reg, h, spec, steps[..n], inputs, ctx, st);
      && steps[j].outputKey in p.proposals
      && ProposalAt(reg, h, spec, steps, j, inputs, ctx, st) == Some(p.proposals[steps[j].outputKey])
  {
    hide E.Execute;
    assert steps[..n][..n - 1] == steps[..n - 1];
    if n - 1 > j {
      ProposalKept(reg, h, spec, steps, n - 1, j, inputs, ctx, st);
    } else {
      var p := L.FirstPass(reg, h, spec, steps[..j], inputs, ctx, st);
      if steps[j].capability in reg { E.NonWriteCalls(h, spec, steps[j], inputs, ctx, reg[steps[j].capability], None, p.state); }
    }
  }

  lemma NamedSlice(s: Step, proposals: map<string, R.Diff>, merged: R.Diff, key: string)
    requires Bound(s.inputs, "pairs_with") == Some(Constant(Words(key))) && key in proposals
    ensures L.Slice(s, proposals, merged) == Some(proposals[key])
  {
  }

  /** So in the local runtime the slice of every write is what the latest proposing step before it
      proposed in the same pass. */
  lemma SliceIsLatestProposal<W>(q: Request, reg: L.Registry<W>, h: E.Digest, inputs: Values, ctx: E.Context, st: E.State<W>, i: nat, merged: R.Diff)
    requires Compile(q).Compiled? && i < |Compile(q).spec.steps| && Compile(q).spec.steps[i].mode == Write
    requires L.FirstPass(reg, h, Compile(q).spec, ByOrder(Compile(q).spec.steps), inputs, ctx, st).failure.None?
    ensures var spec := Compile(q).spec;
      var p := L.FirstPass(reg, h, spec, ByOrder(spec.steps), inputs, ctx, st);
      var latest := LatestProposer(spec.steps, i);
      && latest.Some? && L.Slice(spec.steps[i], p.proposals, merged).Some?
      && L.Slice(spec.steps[i], p.proposals, merged) == ProposalAt(reg, h, spec, spec.steps, latest.value, inputs, ctx, st)
  {
    hide Compile, L.FirstPass, ProposalAt, ByOrder, Bound, Contiguous, CountsUp, LatestProposer, L.Slice;
    NumberedInOrder(q);
    WritePairsWithLatest(q, i);
    var spec := Compile(q).spec;
    assert spec.steps[..|spec.steps|] == spec.steps;
    ProposalKept(reg, h, spec, spec.steps, |spec.steps|, i - 1, inputs, ctx, st);
    NamedSlice(spec.steps[i], L.FirstPass(reg, h, spec, spec.steps, inputs, ctx, st).proposals, merged, spec.steps[i - 1].outputKey);
  }
}
