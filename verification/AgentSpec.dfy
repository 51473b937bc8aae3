/** The declarative agent specification and the values its steps exchange. */
module AgentSpec {
  import opened Text
  import R = Reconciliation

  datatype Literal = Words(s: string) | Quantity(n: int) | Flag(b: bool)

  datatype Binding = Constant(value: Literal) | AgentInput(ref: string) | StepOutput(ref: string)

  datatype Mode = Read | ProposeWrite | Write

  datatype Risk = Low | Medium | High | Prohibited

  /** Step inputs in declaration order; names are distinct. */
  type Bindings = seq<(string, Binding)>

  datatype Step = Step(
    stepId: string, order: int, capability: string, version: int, mode: Mode, inputs: Bindings,
    outputKey: string, risk: Risk, approvalRequired: bool, retryAllowed: bool, maxAttempts: int)

  datatype InputDeclaration = InputDeclaration(key: string, prompt: string, required: bool)

  datatype Trigger = Manual | Schedule(cron: string) | OnEvent | OnContext(origin: Option<string>, cooldownSeconds: int)

  datatype Budgets = Budgets(maxRuntimeSeconds: int, maxRecordsWritten: int)

  datatype Spec = Spec(
    agentId: string, versionId: string, trigger: Trigger, inputs: seq<InputDeclaration>, steps: seq<Step>, budgets: Budgets)

  /** Values at run time. A missing property reads as undefined, or as what every object inherits. */
  datatype Value = Undefined | Null | Bool(b: bool) | Number(n: int) | Str(s: string) | List(items: seq<Value>)
    | Record(fields: map<string, Value>) | Proposal(diff: R.Diff) | Inherited(name: string)

  type Values = map<string, Value>

  /** A name that every object inherits a property of: reading it never finds nothing. */
  predicate IsInherited(name: string) {
    name in ["constructor", "hasOwnProperty", "isPrototypeOf", "propertyIsEnumerable", "toLocaleString", "toString", "valueOf", "__proto__",
             "__defineGetter__", "__defineSetter__", "__lookupGetter__", "__lookupSetter__"]
  }

  function Get(m: Values, key: string): Value {
    if key in m then m[key] else if IsInherited(key) then Inherited(key) else Undefined
  }

  function LiteralValue(l: Literal): Value {
    match l case Words(s) => Str(s) case Quantity(n) => Number(n) case Flag(b) => Bool(b)
  }

  /** The binding of an input name, if the step declares it. */
  function Bound(inputs: Bindings, name: string): (b: Option<Binding>)
    ensures b.Some? ==> (name, b.value) in inputs
    ensures b.None? ==> forall i :: 0 <= i < |inputs| ==> inputs[i].0 != name
  {
    if inputs == [] then None
    else if inputs[0].0 == name then Some(inputs[0].1)
    else Bound(inputs[1..], name)
  }

  /** The step reads the output under this key. */
  predicate RefersTo(s: Step, ref: string) { exists i :: 0 <= i < |s.inputs| && s.inputs[i].1 == StepOutput(ref) }

  // ---- plan order ----

  function InsertByOrder(steps: seq<Step>, s: Step): (r: seq<Step>)
    ensures |r| == |steps| + 1
    ensures multiset(r) == multiset(steps) + multiset{s}
  {
    if steps == [] || steps[|steps| - 1].order <= s.order then steps + [s]
    else
      assert steps == steps[..|steps| - 1] + [steps[|steps| - 1]];
      InsertByOrder(steps[..|steps| - 1], s) + [steps[|steps| - 1]]
  }

  /** `[...steps].sort((a, b) => a.order - b.order)`: stable. */
  function ByOrder(steps: seq<Step>): (r: seq<Step>)
    ensures |r| == |steps|
    ensures multiset(r) == multiset(steps)
  {
    if steps == [] then []
    else
      assert steps == steps[..|steps| - 1] + [steps[|steps| - 1]];
      InsertByOrder(ByOrder(steps[..|steps| - 1]), steps[|steps| - 1])
  }

  predicate Ascending(steps: seq<Step>) { forall i, j :: 0 <= i < j < |steps| ==> steps[i].order <= steps[j].order }

  lemma {:induction false} InsertAscending(steps: seq<Step>, s: Step)
    requires Ascending(steps)
    ensures Ascending(InsertByOrder(steps, s))
  {
    if steps != [] && steps[|steps| - 1].order > s.order {
      var front := steps[..|steps| - 1];
      InsertAscending(front, s);
      var r := InsertByOrder(front, s);
      forall i | 0 <= i < |r| ensures r[i].order <= steps[|steps| - 1].order {
        assert r[i] in multiset(r);
        assert r[i] in front || r[i] == s;
      }
    }
  }

  lemma {:induction false} ByOrderAscending(steps: seq<Step>)
    ensures Ascending(ByOrder(steps))
  {
    if steps != [] {
      ByOrderAscending(steps[..|steps| - 1]);
      InsertAscending(ByOrder(steps[..|steps| - 1]), steps[|steps| - 1]);
    }
  }

  lemma ByOrderMembers(steps: seq<Step>)
    ensures forall s :: s in ByOrder(steps) <==> s in steps
  {
    forall s ensures s in ByOrder(steps) <==> s in steps {
      assert s in multiset(ByOrder(steps)) <==> s in ByOrder(steps);
      assert s in multiset(steps) <==> s in steps;
    }
  }

  lemma {:induction false} ByOrderKeeps(steps: seq<Step>)
    requires Ascending(steps)
    ensures ByOrder(steps) == steps
  {
    if steps != [] {
      assert steps == steps[..|steps| - 1] + [steps[|steps| - 1]];
      ByOrderKeeps(steps[..|steps| - 1]);
    }
  }

  /** Orders are 1..n, each once. */
  ghost predicate Contiguous(steps: seq<Step>) {
    && (forall i, j :: 0 <= i < j < |steps| ==> steps[i].order != steps[j].order)
    && (forall i :: 0 <= i < |steps| ==> 1 <= steps[i].order <= |steps|)
  }

  /** Checked the way the validator does, after sorting. */
  predicate CountsUp(steps: seq<Step>) { forall i :: 0 <= i < |steps| ==> steps[i].order == i + 1 }

  ghost predicate DistinctOrders(steps: seq<Step>) { forall i, j :: 0 <= i < j < |steps| ==> steps[i].order != steps[j].order }

  lemma CountedTwice(steps: seq<Step>, i: nat, j: nat)
    requires i < j < |steps| && steps[i] == steps[j]
    ensures multiset(steps)[steps[i]] >= 2
  {
    assert steps == steps[..j] + steps[j..];
    assert steps[i] in multiset(steps[..j]) by { assert steps[..j][i] == steps[i]; }
    assert steps[j] in multiset(steps[j..]) by { assert steps[j..][0] == steps[j]; }
  }

  lemma {:induction false} CountedOnce(steps: seq<Step>, s: Step)
    requires DistinctOrders(steps)
    ensures multiset(steps)[s] <= 1
  {
    if steps != [] {
      var (front, last) := (steps[..|steps| - 1], steps[|steps| - 1]);
      CountedOnce(front, s);
      assert steps == front + [last];
      assert forall i :: 0 <= i < |front| ==> front[i] == steps[i] && front[i].order != last.order;
      assert last !in front;
    }
  }

  lemma DistinctCarries(a: seq<Step>, b: seq<Step>)
    requires multiset(a) == multiset(b) && DistinctOrders(a)
    ensures DistinctOrders(b)
  {
    forall i, j | 0 <= i < j < |b| ensures b[i].order != b[j].order {
      assert b[i] in multiset(a) && b[j] in multiset(a);
      var p :| 0 <= p < |a| && a[p] == b[i];
      var q :| 0 <= q < |a| && a[q] == b[j];
      CountedOnce(a, b[i]);
      if b[i] == b[j] { CountedTwice(b, i, j); }
    }
  }

  lemma {:induction false} Climbs(steps: seq<Step>, i: nat)
    requires Ascending(steps) && DistinctOrders(steps) && i < |steps| && steps[0].order >= 1
    ensures steps[i].order >= i + 1
  {
    if i > 0 { Climbs(steps, i - 1); }
  }

  lemma {:induction false} ClimbsTo(steps: seq<Step>, i: nat)
    requires Ascending(steps) && DistinctOrders(steps) && i < |steps| && steps[|steps| - 1].order <= |steps|
    ensures steps[i].order <= i + 1
    decreases |steps| - i
  {
    if i < |steps| - 1 { ClimbsTo(steps, i + 1); }
  }

  /** Sorting and comparing with the position finds exactly the contiguous numberings. */
  lemma SortedCountsUpExactly(steps: seq<Step>)
    ensures CountsUp(ByOrder(steps)) <==> Contiguous(steps)
  {
    var r := ByOrder(steps);
    ByOrderAscending(steps);
    ByOrderMembers(steps);
    if CountsUp(r) {
      DistinctCarries(r, steps);
      forall i | 0 <= i < |steps| ensures 1 <= steps[i].order <= |steps| { assert steps[i] in r; }
    }
    if Contiguous(steps) {
      DistinctCarries(steps, r);
      forall i: nat | i < |r| ensures r[i].order == i + 1 {
        assert r[0] in steps && r[|r| - 1] in steps;
        Climbs(r, i);
        ClimbsTo(r, i);
      }
    }
  }
}
