/** Validated specifications with their inputs supplied do not go wrong at run time. */
module ValidatedRuns {
  import opened Text
  import opened AgentSpec
  import opened RunEngine
  import opened LocalRuntime
  import AgentInputs
  import V = Validator
  import R = Reconciliation

  /** Inputs that are ready leave no step without a required value. */
  lemma ReadyNeverThrows(spec: Spec, inputs: Values, s: Step, outputs: Values)
    requires AgentInputs.Missing(spec.inputs, inputs) == []
    ensures Resolve(spec, s, |s.inputs|, outputs, inputs).Ok?
  {
    AgentInputs.ReadyExactly(spec.inputs, inputs);
    NeverThrows(spec, s, |s.inputs|, outputs, inputs);
  }

  /** A step of the given kind (write or not) among the first n leaves its output under the key. */
  ghost predicate Produces(steps: seq<Step>, n: nat, writes: bool, key: string) {
    exists k :: 0 <= k < n && k < |steps| && (steps[k].mode == Write) == writes && steps[k].outputKey == key
  }

  lemma ProducesStep(front: seq<Step>, s: Step, writes: bool, key: string)
    ensures Produces(front + [s], |front| + 1, writes, key) <==>
            Produces(front, |front|, writes, key) || ((s.mode == Write) == writes && s.outputKey == key)
  {
    var all := front + [s];
    if k :| 0 <= k < |front| && (front[k].mode == Write) == writes && front[k].outputKey == key { assert all[k] == front[k]; }
    if (s.mode == Write) == writes && s.outputKey == key { assert all[|front|] == s; }
  }

  /** After the first pass the outputs are exactly those of the steps that do not write. */
  lemma {:induction false} PassOutputs<W>(reg: Registry<W>, h: Digest, spec: Spec, steps: seq<Step>, inputs: Values, ctx: Context, st: State<W>, key: string)
    ensures var p := FirstPass(reg, h, spec, steps, inputs, ctx, st);
      p.failure.None? ==> (key in p.state.outputs <==> key in st.outputs || Produces(steps, |steps|, false, key))
  {
    hide Execute, Produces;
    if steps == [] {
      NothingProduced(steps, false, key);
    } else {
      var (front, s) := (steps[..|steps| - 1], steps[|steps| - 1]);
      PassOutputs(reg, h, spec, front, inputs, ctx, st, key);
      assert front + [s] == steps;
      ProducesStep(front, s, false, key);
      var p := FirstPass(reg, h, spec, front, inputs, ctx, st);
      if p.failure.None? && s.mode != Write && s.capability in reg {
        NonWriteCalls(h, spec, s, inputs, ctx, reg[s.capability], None, p.state);
      }
    }
  }

  lemma NothingProduced(steps: seq<Step>, writes: bool, key: string)
    requires steps == []
    ensures !Produces(steps, 0, writes, key)
  {
  }

  /** Each write that succeeded adds its own output. */
  lemma {:induction false} WriteOutputs<W>(reg: Registry<W>, h: Digest, spec: Spec, steps: seq<Step>, inputs: Values, ctx: Context,
                                           proposals: map<string, R.Diff>, merged: R.Diff, st: State<W>, key: string)
    ensures var q := SecondPass(reg, h, spec, steps, inputs, ctx, proposals, merged, st);
      q.failure.None? ==> (key in q.state.outputs <==> key in st.outputs || Produces(steps, |steps|, true, key))
  {
    hide Execute, Produces, Slice, Conjoin;
    if steps == [] {
      NothingProduced(steps, true, key);
    } else {
      var (front, s) := (steps[..|steps| - 1], steps[|steps| - 1]);
      WriteOutputs(reg, h, spec, front, inputs, ctx, proposals, merged, st, key);
      assert front + [s] == steps;
      ProducesStep(front, s, true, key);
      var p := SecondPass(reg, h, spec, front, inputs, ctx, proposals, merged, st);
      var slice := Slice(s, proposals, merged);
      if p.failure.None? && s.mode == Write && s.capability in reg && slice.Some? {
        WriteCalls(h, spec, s, inputs, ctx, reg[s.capability], slice.value, h(slice.value), p.state);
      }
    }
  }

  /** In plan order, every output a validated step reads belongs to an earlier step. */
  lemma ReferenceIsEarlier(u: V.Rules, spec: Spec, k: nat, ref: string)
    requires V.Issues(u, spec) == [] && k < |spec.steps| && RefersTo(ByOrder(spec.steps)[k], ref)
    ensures exists j :: 0 <= j < k && ByOrder(spec.steps)[j].outputKey == ref
  {
    hide ByOrder;
    V.AcceptsExactly(u, spec);
    SortedCountsUpExactly(spec.steps);
    ByOrderMembers(spec.steps);
    var ordered := ByOrder(spec.steps);
    var s := ordered[k];
    assert s in spec.steps;
    var at :| 0 <= at < |spec.steps| && spec.steps[at] == s;
    assert V.StepSound(u, spec, spec.steps[at]);
    var i :| 0 <= i < |s.inputs| && s.inputs[i].1 == StepOutput(ref);
    assert V.BindingSound(spec, s, s.inputs[i].1);
    var p: nat :| V.LastProducer(spec.steps, ref, p) && spec.steps[p].order < s.order;
    assert spec.steps[p] in ordered;
    var j :| 0 <= j < |ordered| && ordered[j] == spec.steps[p];
  }

  /** Every output a write of the second pass reads has been produced when it runs. */
  lemma SecondPassReferencesProduced<W>(u: V.Rules, reg: Registry<W>, h: Digest, spec: Spec, inputs: Values, ctx: Context, st: State<W>, k: nat, ref: string)
    requires V.Issues(u, spec) == [] && k < |spec.steps|
    requires var s := ByOrder(spec.steps)[k]; s.mode == Write && RefersTo(s, ref)
    requires var p := FirstPass(reg, h, spec, ByOrder(spec.steps), inputs, ctx, st);
      && p.failure.None? && p.diff.Some?
      && SecondPass(reg, h, spec, ByOrder(spec.steps)[..k], inputs, ctx, p.proposals, p.diff.value, p.state).failure.None?
    ensures var p := FirstPass(reg, h, spec, ByOrder(spec.steps), inputs, ctx, st);
      ref in SecondPass(reg, h, spec, ByOrder(spec.steps)[..k], inputs, ctx, p.proposals, p.diff.value, p.state).state.outputs
  {
    hide ByOrder, FirstPass, SecondPass, V.Issues, RefersTo, Produces;
    ReferenceIsEarlier(u, spec, k, ref);
    var ordered := ByOrder(spec.steps);
    EarlierProduces(ordered, k, ref);
    var p := FirstPass(reg, h, spec, ordered, inputs, ctx, st);
    PassOutputs(reg, h, spec, ordered, inputs, ctx, st, ref);
    WriteOutputs(reg, h, spec, ordered[..k], inputs, ctx, p.proposals, p.diff.value, p.state, ref);
  }

  lemma EarlierProduces(ordered: seq<Step>, k: nat, ref: string)
    requires k <= |ordered| && exists j :: 0 <= j < k && ordered[j].outputKey == ref
    ensures Produces(ordered[..k], k, true, ref) || Produces(ordered, |ordered|, false, ref)
  {
    var j :| 0 <= j < k && ordered[j].outputKey == ref;
    assert ordered[..k][j] == ordered[j];
  }

  /** An output a first-pass step reads has been produced exactly when an earlier step that is not
      a write leaves it; validation guarantees an earlier producer, but it may be a write, and
      writes run only in the second pass. */
  lemma FirstPassReferencesProduced<W>(u: V.Rules, reg: Registry<W>, h: Digest, spec: Spec, inputs: Values, ctx: Context, w: W, log: seq<Call>, k: nat, ref: string)
    requires V.Issues(u, spec) == [] && k < |spec.steps| && RefersTo(ByOrder(spec.steps)[k], ref)
    requires FirstPass(reg, h, spec, ByOrder(spec.steps)[..k], inputs, ctx, State(w, map[], log)).failure.None?
    ensures var ordered := ByOrder(spec.steps);
      && (exists j :: 0 <= j < k && ordered[j].outputKey == ref)
      && (ref in FirstPass(reg, h, spec, ordered[..k], inputs, ctx, State(w, map[], log)).state.outputs
          <==> exists j :: 0 <= j < k && ordered[j].mode != Write && ordered[j].outputKey == ref)
  {
    hide ByOrder, FirstPass, V.Issues, RefersTo, Produces;
    ReferenceIsEarlier(u, spec, k, ref);
    var ordered := ByOrder(spec.steps);
    PassOutputs(reg, h, spec, ordered[..k], inputs, ctx, State(w, map[], log), ref);
    ProducesWithin(ordered, k, ref);
  }

  lemma ProducesWithin(ordered: seq<Step>, k: nat, ref: string)
    requires k <= |ordered|
    ensures Produces(ordered[..k], k, false, ref) <==> exists j :: 0 <= j < k && ordered[j].mode != Write && ordered[j].outputKey == ref
  {
    assert forall j :: 0 <= j < k ==> ordered[..k][j] == ordered[j];
  }

  const WRITER := "salesforce.update_fields"
  const READER := "salesforce.query_records"

  /** The catalog's entries for two capabilities: one that proposes and writes, one that reads. */
  predicate Cataloged(u: V.Rules) {
    WRITER in u.catalog && u.catalog[WRITER] == V.Capability(1, {ProposeWrite, Write}) &&
    READER in u.catalog && u.catalog[READER] == V.Capability(1, {Read})
  }

  /** An approved write, then a read of what the write left. */
  function ReadAfterWrite(): Spec {
    Spec("7f1c2a90-5b3e-4d11-8c6a-0e9f4b2d7a01", "7f1c2a90-5b3e-4d11-8c6a-0e9f4b2d7a02", Manual, [],
         [Step("update", 1, WRITER, 1, Write, [], "written", Medium, true, false, 0),
          Step("recheck", 2, READER, 1, Read, [("value", StepOutput("written"))], "read", Low, false, false, 0)],
         Budgets(60, 1))
  }

  lemma ReadAfterWriteSound(u: V.Rules)
    requires Cataloged(u)
    ensures V.Sound(u, ReadAfterWrite())
  {
    var spec := ReadAfterWrite();
    var (a, b) := (spec.steps[0], spec.steps[1]);
    assert V.DistinctIds(spec.steps) by { assert "update"[0] != "recheck"[0]; }
    assert V.BindingSound(spec, b, StepOutput("written")) by {
      assert "read"[1] != "written"[1];
      assert V.LastProducer(spec.steps, "written", 0);
    }
    assert V.CapabilitySound(u, a) && V.CapabilitySound(u, b);
    hide V.BindingSound, V.CapabilitySound, V.DistinctIds;
    assert V.StepSound(u, spec, a) && V.StepSound(u, spec, b);
  }

  /** The validator accepts that plan, and the read finds nothing: the first pass skips the write. */
  lemma ReadAfterWriteFindsNothing<W>(u: V.Rules, reg: Registry<W>, h: Digest, ctx: Context, w: W, log: seq<Call>)
    requires Cataloged(u)
    ensures var spec := ReadAfterWrite();
      && V.Issues(u, spec) == [] && ByOrder(spec.steps) == spec.steps && RefersTo(spec.steps[1], "written")
      && "written" !in FirstPass(reg, h, spec, spec.steps[..1], map[], ctx, State(w, map[], log)).state.outputs
  {
    var spec := ReadAfterWrite();
    ReadAfterWriteSound(u);
    V.AcceptsExactly(u, spec);
    ByOrderKeeps(spec.steps);
    hide V.Sound, V.Issues, ByOrder, Execute;
    var one := spec.steps[..1];
    PassOutputs(reg, h, spec, one, map[], ctx, State(w, map[], log), "written");
    assert one[0].mode == Write;
    assert one[..0] == [];
    assert spec.steps[1].inputs[0].1 == StepOutput("written");
  }
}
