/** The local runtime: shadow runs, and approved runs in two passes bound to a diff hash. */
module LocalRuntime {
  import opened Text
  import opened AgentSpec
  import opened RunEngine
  import AgentInputs
  import R = Reconciliation
  import V = Validator

  type Registry<!W> = map<string, Adapter<W>>

  // ---- merged proposals ----

  function Sum(a: R.Summary, b: R.Summary): R.Summary {
    R.Summary(a.inputRows + b.inputRows, a.confidentMatches + b.confidentMatches, a.ambiguousSkipped + b.ambiguousSkipped,
              a.missing + b.missing, a.changeCount + b.changeCount,
              if a.accountsAffected < b.accountsAffected then b.accountsAffected else a.accountsAffected)
  }

  /** `mergeDiffs`. */
  function MergeDiffs(a: Option<R.Diff>, b: R.Diff): R.Diff {
    if a.None? then b else R.Diff(Sum(a.value.summary, b.summary), a.value.changes + b.changes)
  }

  // ---- the first pass: reads and proposals ----

  datatype Pass<!W> = Pass(
    state: State<W>, proposals: map<string, R.Diff>, diff: Option<R.Diff>, failure: Option<string>, stepsRun: nat, recordsRead: nat)

  function RecordCount(v: Value): nat { if v.List? then |v.items| else 0 }

  /** One step of the first pass; writes are skipped. */
  function PassStep<W>(reg: Registry<W>, h: Digest, spec: Spec, inputs: Values, ctx: Context, p: Pass<W>, s: Step): Pass<W> {
    if p.failure.Some? || s.mode == Write then p
    else if s.capability !in reg then p.(failure := Some("no adapter"))
    else
      var (st, e) := Execute(h, spec, s, inputs, ctx, reg[s.capability], None, p.state);
      match e
      case Failed(m) => p.(state := st, failure := Some(m))
      case ReadDone(v) => p.(state := st, stepsRun := p.stepsRun + 1, recordsRead := p.recordsRead + RecordCount(v))
      case Proposed(d) =>
        p.(state := st, proposals := p.proposals[s.outputKey := d], diff := Some(MergeDiffs(p.diff, d)), stepsRun := p.stepsRun + 1)
      case _ => p.(state := st, stepsRun := p.stepsRun + 1)
  }

  function FirstPass<W>(reg: Registry<W>, h: Digest, spec: Spec, steps: seq<Step>, inputs: Values, ctx: Context, st: State<W>): Pass<W> {
    if steps == [] then Pass(st, map[], None, None, 0, 0)
    else PassStep(reg, h, spec, inputs, ctx, FirstPass(reg, h, spec, steps[..|steps| - 1], inputs, ctx, st), steps[|steps| - 1])
  }

  // ---- the second pass: the writes ----

  datatype Writes<!W> = Writes(state: State<W>, written: Option<(bool, string)>, failure: Option<string>)

  /** The proposal a write executes: the one it names, or the whole merged diff. */
  function Slice(s: Step, proposals: map<string, R.Diff>, merged: R.Diff): Option<R.Diff> {
    var b := Bound(s.inputs, "pairs_with");
    if b.Some? && b.value.Constant? && b.value.value.Words? then
      if b.value.value.s in proposals then Some(proposals[b.value.value.s]) else None
    else Some(merged)
  }

  /** [a, b].filter(Boolean).join("; ") */
  function JoinDetails(a: string, b: string): string { if a == "" then b else if b == "" then a else a + "; " + b }

  function Conjoin(written: Option<(bool, string)>, verified: bool, detail: string): (bool, string) {
    if written.None? then (verified, detail) else (written.value.0 && verified, JoinDetails(written.value.1, detail))
  }

  /** One step of the second pass; only writes count. */
  function WriteStep<W>(reg: Registry<W>, h: Digest, spec: Spec, inputs: Values, ctx: Context,
                        proposals: map<string, R.Diff>, merged: R.Diff, p: Writes<W>, s: Step): Writes<W>
  {
    if p.failure.Some? || s.mode != Write then p
    else
      var slice := Slice(s, proposals, merged);
      if slice.None? then p.(failure := Some("pairs with a proposal that produced nothing"))
      else if s.capability !in reg then p.(failure := Some("no adapter"))
      else
        var (st, e) := Execute(h, spec, s, inputs, ctx, reg[s.capability], Some((slice.value, h(slice.value))), p.state);
        match e
        case Written(_, _, verified, detail) => Writes(st, Some(Conjoin(p.written, verified, detail)), None)
        case Failed(m) => p.(state := st, failure := Some(m))
        case _ => p.(state := st, failure := Some("the write step returned something else"))
  }

  function SecondPass<W>(reg: Registry<W>, h: Digest, spec: Spec, steps: seq<Step>, inputs: Values, ctx: Context,
                         proposals: map<string, R.Diff>, merged: R.Diff, st: State<W>): Writes<W>
  {
    if steps == [] then Writes(st, None, None)
    else
      WriteStep(reg, h, spec, inputs, ctx, proposals, merged,
                SecondPass(reg, h, spec, steps[..|steps| - 1], inputs, ctx, proposals, merged, st), steps[|steps| - 1])
  }

  // ---- whole runs ----

  datatype ShadowOutcome =
    | ShadowComplete(diff: Option<R.Diff>, stepsRun: nat, recordsRead: nat)
    | ShadowNeedsInput
    | ShadowFailed(detail: string)

  datatype ApprovedOutcome =
    | Completed(diff: R.Diff, verified: bool, detail: string)
    | AbortedStale(approvedSha: string, freshSha: string, freshDiff: Option<R.Diff>)
    | NeedsInput
    | RunFailed(detail: string)

  function ShadowRun<W>(reg: Registry<W>, h: Digest, spec: Spec, inputs: Values, ctx: Context, st: State<W>): (State<W>, ShadowOutcome) {
    if AgentInputs.Missing(spec.inputs, inputs) != [] then (st, ShadowNeedsInput)
    else
      var p := FirstPass(reg, h, spec, ByOrder(spec.steps), inputs, ctx.(mode := Shadow), st);
      (p.state, if p.failure.Some? then ShadowFailed(p.failure.value) else ShadowComplete(p.diff, p.stepsRun, p.recordsRead))
  }

  function ApprovedRun<W>(reg: Registry<W>, h: Digest, spec: Spec, inputs: Values, ctx: Context, approved: string, st: State<W>): (State<W>, ApprovedOutcome) {
    if AgentInputs.Missing(spec.inputs, inputs) != [] then (st, NeedsInput)
    else
      var (run, ordered) := (ctx.(mode := Supervised), ByOrder(spec.steps));
      var p := FirstPass(reg, h, spec, ordered, inputs, run, st);
      if p.failure.Some? then (p.state, RunFailed(p.failure.value))
      else if p.diff.None? || h(p.diff.value) != approved then
        (p.state, AbortedStale(approved, if p.diff.None? then "" else h(p.diff.value), p.diff))
      else
        var q := SecondPass(reg, h, spec, ordered, inputs, run, p.proposals, p.diff.value, p.state);
        (q.state,
         if q.failure.Some? then RunFailed(q.failure.value)
         else if q.written.None? then RunFailed("this agent has no write step to approve")
         else Completed(p.diff.value, q.written.value.0, q.written.value.1))
  }

  // ---- what a runtime can execute ----

  datatype Gap = NotInCatalog(stepId: string) | NoAdapter(stepId: string) | ModeUnsupported(stepId: string)
    | PrerequisiteUnmet(stepId: string, detail: string)

  predicate Implements<W>(a: Adapter<W>, mode: Mode) {
    match mode case Read => a.read.Some? case ProposeWrite => a.propose.Some? case Write => a.write.Some?
  }

  /** What a runtime offers: its adapters, and the capabilities some prerequisite of which is unmet. */
  type Unmet = map<string, string>

  function GapOf<W>(catalog: set<string>, reg: Registry<W>, unmet: Unmet, s: Step): seq<Gap> {
    if s.capability !in catalog then [NotInCatalog(s.stepId)]
    else if s.capability !in reg then [NoAdapter(s.stepId)]
    else if !Implements(reg[s.capability], s.mode) then [ModeUnsupported(s.stepId)]
    else if s.capability in unmet then [PrerequisiteUnmet(s.stepId, unmet[s.capability])]
    else []
  }

  function Gaps<W>(catalog: set<string>, reg: Registry<W>, unmet: Unmet, steps: seq<Step>): seq<Gap> {
    if steps == [] then [] else Gaps(catalog, reg, unmet, steps[..|steps| - 1]) + GapOf(catalog, reg, unmet, steps[|steps| - 1])
  }

  /** `validateRuntimeCapabilities` over the modes the adapters implement. */
  method RuntimeGaps<W>(catalog: set<string>, reg: Registry<W>, unmet: Unmet, spec: Spec) returns (gaps: seq<Gap>)
    ensures gaps == Gaps(catalog, reg, unmet, spec.steps)
  {
    gaps := [];
    var i := 0;
    while i < |spec.steps|
      invariant i <= |spec.steps| && gaps == Gaps(catalog, reg, unmet, spec.steps[..i])
    {
      var step := spec.steps[i];
      assert spec.steps[..i + 1][..i] == spec.steps[..i];
      i := i + 1;
      if step.capability !in catalog { gaps := gaps + [NotInCatalog(step.stepId)]; continue; }
      if step.capability !in reg { gaps := gaps + [NoAdapter(step.stepId)]; continue; }
      if !Implements(reg[step.capability], step.mode) { gaps := gaps + [ModeUnsupported(step.stepId)]; continue; }
      if step.capability in unmet { gaps := gaps + [PrerequisiteUnmet(step.stepId, unmet[step.capability])]; }
    }
    assert spec.steps[..|spec.steps|] == spec.steps;
  }

  datatype RegisteredAgent = RegisteredAgent(spec: Spec, enabled: bool, lastTriggeredMs: Option<int>, lastRunAt: Option<string>)

  class LocalAgentRuntime<W> {
    const registry: Registry<W>
    const h: Digest
    var agents: map<string, RegisteredAgent>

    constructor (registry: Registry<W>, h: Digest)
      ensures this.registry == registry && this.h == h && agents == map[]
    { this.registry, this.h, agents := registry, h, map[]; }

    /** `registerAgent`: a valid specification whose every step this runtime can execute. */
    method RegisterAgent(u: V.Rules, spec: Spec, enabled: bool) returns (done: bool)
      modifies this
      ensures done <==> V.Issues(u, spec) == [] && Gaps(u.catalog.Keys, registry, map[], spec.steps) == []
      ensures agents == if done then old(agents)[spec.agentId := RegisteredAgent(spec, enabled, None, None)] else old(agents)
    {
      hide V.Issues;
      var issues := V.ValidateAgentSpec(u, spec);
      if issues != [] { return false; }
      var gaps := RuntimeGaps(u.catalog.Keys, registry, map[], spec);
      if gaps != [] { return false; }
      agents := agents[spec.agentId := RegisteredAgent(spec, enabled, None, None)];
      return true;
    }

    /** One turn of the loop both kinds of run start with. */
    method ReadOrPropose(spec: Spec, step: Step, inputs: Values, ctx: Context, run: Run<W>,
                         proposals0: map<string, R.Diff>, diff0: Option<R.Diff>, stepsRun0: nat, recordsRead0: nat)
      returns (failure: Option<string>, proposals: map<string, R.Diff>, diff: Option<R.Diff>, stepsRun: nat, recordsRead: nat)
      modifies run
      ensures Pass(run.Now(), proposals, diff, failure, stepsRun, recordsRead)
           == PassStep(registry, h, spec, inputs, ctx, Pass(old(run.Now()), proposals0, diff0, None, stepsRun0, recordsRead0), step)
    {
      hide Execute, MergeDiffs, RecordCount;
      failure, proposals, diff, stepsRun, recordsRead := None, proposals0, diff0, stepsRun0, recordsRead0;
      if step.mode == Write { return; }
      if step.capability !in registry { failure := Some("no adapter"); return; }
      var e := run.ExecuteStep(h, spec, step, inputs, ctx, registry[step.capability], None);
      if e.Failed? { failure := Some(e.message); return; }
      stepsRun := stepsRun + 1;
      if e.ReadDone? { recordsRead := recordsRead + RecordCount(e.output); }
      if e.Proposed? {
        proposals := proposals[step.outputKey := e.diff];
        diff := Some(MergeDiffs(diff, e.diff));
      }
    }

    /** Reads and proposals in plan order, until one fails. */
    method ReadAndPropose(spec: Spec, ordered: seq<Step>, inputs: Values, ctx: Context, run: Run<W>)
      returns (failure: Option<string>, proposals: map<string, R.Diff>, diff: Option<R.Diff>, stepsRun: nat, recordsRead: nat)
      modifies run
      ensures FirstPass(registry, h, spec, ordered, inputs, ctx, old(run.Now()))
           == Pass(run.Now(), proposals, diff, failure, stepsRun, recordsRead)
    {
      hide PassStep;
      failure, proposals, diff, stepsRun, recordsRead := None, map[], None, 0, 0;
      var i := 0;
      while i < |ordered|
        invariant i <= |ordered| && failure.None?
        invariant FirstPass(registry, h, spec, ordered[..i], inputs, ctx, old(run.Now()))
               == Pass(run.Now(), proposals, diff, failure, stepsRun, recordsRead)
      {
        assert ordered[..i + 1][..i] == ordered[..i];
        failure, proposals, diff, stepsRun, recordsRead :=
          ReadOrPropose(spec, ordered[i], inputs, ctx, run, proposals, diff, stepsRun, recordsRead);
        i := i + 1;
        if failure.Some? {
          PassStops(registry, h, spec, ordered, i, inputs, ctx, old(run.Now()));
          return;
        }
      }
      assert ordered[..|ordered|] == ordered;
    }

    /** `runShadow`; `at` is the clock when the run ends. */
    method RunShadow(agentId: string, inputs: Values, ctx: Context, run: Run<W>, at: string) returns (r: ShadowOutcome)
      modifies this, run
      ensures agentId !in old(agents) ==> r.ShadowFailed? && agents == old(agents) && run.Now() == old(run.Now())
      ensures agentId in old(agents) ==> (run.Now(), r) == ShadowRun(registry, h, old(agents)[agentId].spec, inputs, ctx, old(run.Now()))
      ensures agentId in old(agents) ==>
        agents == if r.ShadowComplete? then old(agents)[agentId := old(agents)[agentId].(lastRunAt := Some(at))] else old(agents)
    {
      hide FirstPass;
      if agentId !in agents { return ShadowFailed("no such agent"); }
      var agent := agents[agentId];
      var missing := AgentInputs.ValidateAgentInputs(agent.spec, inputs);
      if missing != [] { return ShadowNeedsInput; }
      var failure, proposals, diff, stepsRun, recordsRead :=
        ReadAndPropose(agent.spec, ByOrder(agent.spec.steps), inputs, ctx.(mode := Shadow), run);
      if failure.Some? { return ShadowFailed(failure.value); }
      agents := agents[agentId := agent.(lastRunAt := Some(at))];
      return ShadowComplete(diff, stepsRun, recordsRead);
    }

    /** `runApproved`. */
    method RunApproved(agentId: string, inputs: Values, ctx: Context, approved: string, run: Run<W>, at: string) returns (r: ApprovedOutcome)
      modifies this, run
      ensures agentId !in old(agents) ==> r.RunFailed? && agents == old(agents) && run.Now() == old(run.Now())
      ensures agentId in old(agents) ==>
        (run.Now(), r) == ApprovedRun(registry, h, old(agents)[agentId].spec, inputs, ctx, approved, old(run.Now()))
      ensures agentId in old(agents) ==>
        agents == if r.Completed? then old(agents)[agentId := old(agents)[agentId].(lastRunAt := Some(at))] else old(agents)
    {
      hide FirstPass, SecondPass;
      if agentId !in agents { return RunFailed("no such agent"); }
      var agent := agents[agentId];
      var missing := AgentInputs.ValidateAgentInputs(agent.spec, inputs);
      if missing != [] { return NeedsInput; }
      var ordered := ByOrder(agent.spec.steps);
      var failure, proposals, diff, stepsRun, recordsRead :=
        ReadAndPropose(agent.spec, ordered, inputs, ctx.(mode := Supervised), run);
      if failure.Some? { return RunFailed(failure.value); }
      var sha := if diff.Some? then h(diff.value) else "";
      if diff.None? || sha != approved { return AbortedStale(approved, sha, diff); }
      var failed, written := ApplyWrites(agent.spec, ordered, inputs, ctx.(mode := Supervised), proposals, diff.value, run);
      if failed.Some? { return RunFailed(failed.value); }
      if written.None? { return RunFailed("this agent has no write step to approve"); }
      agents := agents[agentId := agent.(lastRunAt := Some(at))];
      return Completed(diff.value, written.value.0, written.value.1);
    }

    /** One write of the second pass, bound to its slice. */
    method ApplyWrite(spec: Spec, step: Step, inputs: Values, ctx: Context, proposals: map<string, R.Diff>, merged: R.Diff,
                      run: Run<W>, written0: Option<(bool, string)>) returns (failure: Option<string>, written: Option<(bool, string)>)
      modifies run
      ensures Writes(run.Now(), written, failure)
           == WriteStep(registry, h, spec, inputs, ctx, proposals, merged, Writes(old(run.Now()), written0, None), step)
    {
      hide Execute, Slice, Conjoin;
      failure, written := None, written0;
      if step.mode != Write { return; }
      var slice := Slice(step, proposals, merged);
      if slice.None? { failure := Some("pairs with a proposal that produced nothing"); return; }
      if step.capability !in registry { failure := Some("no adapter"); return; }
      var e := run.ExecuteStep(h, spec, step, inputs, ctx, registry[step.capability], Some((slice.value, h(slice.value))));
      if !e.Written? { failure := Some(if e.Failed? then e.message else "the write step returned something else"); return; }
      written := Some(Conjoin(written, e.verified, e.detail));
    }

    /** The second loop of an approved run. */
    method ApplyWrites(spec: Spec, ordered: seq<Step>, inputs: Values, ctx: Context, proposals: map<string, R.Diff>,
                       merged: R.Diff, run: Run<W>) returns (failure: Option<string>, written: Option<(bool, string)>)
      modifies run
      ensures SecondPass(registry, h, spec, ordered, inputs, ctx, proposals, merged, old(run.Now())) == Writes(run.Now(), written, failure)
    {
      hide WriteStep;
      failure, written := None, None;
      var i := 0;
      while i < |ordered|
        invariant i <= |ordered| && failure.None?
        invariant SecondPass(registry, h, spec, ordered[..i], inputs, ctx, proposals, merged, old(run.Now())) == Writes(run.Now(), written, failure)
      {
        assert ordered[..i + 1][..i] == ordered[..i];
        failure, written := ApplyWrite(spec, ordered[i], inputs, ctx, proposals, merged, run, written);
        i := i + 1;
        if failure.Some? {
          WritesStop(registry, h, spec, ordered, i, inputs, ctx, proposals, merged, old(run.Now()));
          return;
        }
      }
      assert ordered[..|ordered|] == ordered;
    }
  }

  lemma {:induction false} WritesStop<W>(reg: Registry<W>, h: Digest, spec: Spec, steps: seq<Step>, n: nat, inputs: Values, ctx: Context,
                                         proposals: map<string, R.Diff>, merged: R.Diff, st: State<W>)
    requires n <= |steps| && SecondPass(reg, h, spec, steps[..n], inputs, ctx, proposals, merged, st).failure.Some?
    ensures SecondPass(reg, h, spec, steps, inputs, ctx, proposals, merged, st)
         == SecondPass(reg, h, spec, steps[..n], inputs, ctx, proposals, merged, st)
    decreases |steps| - n
  {
    hide Execute, Slice;
    if n < |steps| {
      assert steps[..n + 1][..n] == steps[..n];
      WritesStop(reg, h, spec, steps, n + 1, inputs, ctx, proposals, merged, st);
    } else {
      assert steps[..n] == steps;
    }
  }

  /** Once a pass has failed, the rest of the plan changes nothing. */
  lemma {:induction false} PassStops<W>(reg: Registry<W>, h: Digest, spec: Spec, steps: seq<Step>, n: nat, inputs: Values, ctx: Context, st: State<W>)
    requires n <= |steps| && FirstPass(reg, h, spec, steps[..n], inputs, ctx, st).failure.Some?
    ensures FirstPass(reg, h, spec, steps, inputs, ctx, st) == FirstPass(reg, h, spec, steps[..n], inputs, ctx, st)
    decreases |steps| - n
  {
    hide Execute;
    if n < |steps| {
      assert steps[..n + 1][..n] == steps[..n];
      PassStops(reg, h, spec, steps, n + 1, inputs, ctx, st);
    } else {
      assert steps[..n] == steps;
    }
  }

  // ---- no write before the whole plan was re-proposed and its hash agreed ----

  function WritesOf(log: seq<Call>): (r: seq<Call>) {
    if log == [] then [] else WritesOf(log[..|log| - 1]) + if log[|log| - 1].WriteCall? then [log[|log| - 1]] else []
  }

  lemma {:induction false} WritesOfAppend(a: seq<Call>, b: seq<Call>)
    ensures WritesOf(a + b) == WritesOf(a) + WritesOf(b)
  {
    if b == [] {
      assert a + b == a;
    } else {
      assert (a + b)[..|a + b| - 1] == a + b[..|b| - 1];
      WritesOfAppend(a, b[..|b| - 1]);
    }
  }

  lemma {:induction false} NoWritesOf(log: seq<Call>)
    ensures WritesOf(log) == [] <==> NoWrites(log)
  {
    if log != [] {
      var front := log[..|log| - 1];
      NoWritesOf(front);
      assert NoWrites(log) <==> NoWrites(front) && !log[|log| - 1].WriteCall? by {
        if NoWrites(front) && !log[|log| - 1].WriteCall? {
          forall i | 0 <= i < |log| ensures !log[i].WriteCall? { if i < |front| { assert !front[i].WriteCall?; } }
        }
      }
    }
  }

  /** The step called its read or propose implementation. */
  ghost predicate Called(log: seq<Call>, s: Step) {
    exists i :: 0 <= i < |log| && log[i] == if s.mode == Read then ReadCall(s.stepId) else ProposeCall(s.stepId)
  }

  lemma CalledStays(a: seq<Call>, b: seq<Call>, s: Step)
    requires Called(a, s)
    ensures Called(a + b, s)
  {
    var i :| 0 <= i < |a| && a[i] == if s.mode == Read then ReadCall(s.stepId) else ProposeCall(s.stepId);
    assert (a + b)[i] == a[i];
  }

  /** What the first pass did, from its start: no writes, and unless it failed a call of every
      step that is not a write. */
  ghost predicate PassCalls(steps: seq<Step>, calls: seq<Call>, failed: bool) {
    NoWrites(calls) && (!failed ==> forall k :: 0 <= k < |steps| && steps[k].mode != Write ==> Called(calls, steps[k]))
  }

  lemma {:induction false} FirstPassCalls<W>(reg: Registry<W>, h: Digest, spec: Spec, steps: seq<Step>, inputs: Values, ctx: Context, st: State<W>)
    ensures var p := FirstPass(reg, h, spec, steps, inputs, ctx, st);
      st.log <= p.state.log && PassCalls(steps, Since(st.log, p.state.log), p.failure.Some?)
  {
    hide Execute, Called;
    if steps != [] {
      var (front, s) := (steps[..|steps| - 1], steps[|steps| - 1]);
      FirstPassCalls(reg, h, spec, front, inputs, ctx, st);
      var p := FirstPass(reg, h, spec, front, inputs, ctx, st);
      var q := FirstPass(reg, h, spec, steps, inputs, ctx, st);
      PassStepCalls(reg, h, spec, inputs, ctx, p, s);
      var (a, b) := (Since(st.log, p.state.log), Since(p.state.log, q.state.log));
      assert Since(st.log, q.state.log) == a + b;
      hide FirstPass, PassStep;
      if q.failure.None? {
        forall k | 0 <= k < |steps| && steps[k].mode != Write ensures Called(a + b, steps[k]) {
          if k < |front| {
            assert front[k] == steps[k];
            CalledStays(a, b, steps[k]);
          } else {
            CalledLast(a, b, s);
          }
        }
      }
    }
  }

  lemma CalledLast(a: seq<Call>, b: seq<Call>, s: Step)
    requires Called(b, s)
    ensures Called(a + b, s)
  {
    var i :| 0 <= i < |b| && b[i] == if s.mode == Read then ReadCall(s.stepId) else ProposeCall(s.stepId);
    assert (a + b)[|a| + i] == b[i];
  }

  lemma PassStepCalls<W>(reg: Registry<W>, h: Digest, spec: Spec, inputs: Values, ctx: Context, p: Pass<W>, s: Step)
    ensures var q := PassStep(reg, h, spec, inputs, ctx, p, s);
      && p.state.log <= q.state.log && NoWrites(Since(p.state.log, q.state.log))
      && (q.failure.None? ==> p.failure.None? && (s.mode != Write ==> Called(Since(p.state.log, q.state.log), s)))
  {
    hide Execute;
    if p.failure.None? && s.mode != Write && s.capability in reg {
      NonWriteCalls(h, spec, s, inputs, ctx, reg[s.capability], None, p.state);
      var q := PassStep(reg, h, spec, inputs, ctx, p, s);
      if q.failure.None? { assert Since(p.state.log, q.state.log)[0] == if s.mode == Read then ReadCall(s.stepId) else ProposeCall(s.stepId); }
    }
  }

  /** The write calls the plan calls for: each write step once, with its own slice. */
  function Planned(h: Digest, ctx: Context, spec: Spec, steps: seq<Step>, proposals: map<string, R.Diff>, merged: R.Diff): seq<Call> {
    if steps == [] then []
    else
      var (front, s) := (Planned(h, ctx, spec, steps[..|steps| - 1], proposals, merged), steps[|steps| - 1]);
      var slice := Slice(s, proposals, merged);
      if s.mode == Write && slice.Some?
      then front + [WriteCall(s.stepId, slice.value, IdempotencyKey(ctx, spec, s, h(slice.value)))]
      else front
  }

  function Confirmations(log: seq<Call>): nat {
    if log == [] then 0
    else Confirmations(log[..|log| - 1]) + if log[|log| - 1].VerifyCall? && log[|log| - 1].confirmed then 1 else 0
  }

  lemma {:induction false} ConfirmationsAppend(a: seq<Call>, b: seq<Call>)
    ensures Confirmations(a + b) == Confirmations(a) + Confirmations(b)
  {
    if b == [] {
      assert a + b == a;
    } else {
      assert (a + b)[..|a + b| - 1] == a + b[..|b| - 1];
      ConfirmationsAppend(a, b[..|b| - 1]);
    }
  }

  /** One write of the second pass: at most its planned call; exactly that call if it succeeds,
      confirmed exactly when its own read-back says so. */
  lemma WriteStepCalls<W>(reg: Registry<W>, h: Digest, spec: Spec, inputs: Values, ctx: Context, proposals: map<string, R.Diff>,
                          merged: R.Diff, p: Writes<W>, s: Step)
    requires s.mode == Write && p.failure.None?
    ensures var q := WriteStep(reg, h, spec, inputs, ctx, proposals, merged, p, s);
      var slice := Slice(s, proposals, merged);
      && p.state.log <= q.state.log
      && (slice.None? ==> q.state.log == p.state.log && q.failure.Some?)
      && (slice.Some? ==>
          var call := WriteCall(s.stepId, slice.value, IdempotencyKey(ctx, spec, s, h(slice.value)));
          var calls := Since(p.state.log, q.state.log);
          && WritesOf(calls) <= [call]
          && (q.failure.None? ==> WritesOf(calls) == [call] && Confirmations(calls) <= 1 && q.written.Some?)
          && (q.failure.None? ==> q.written.value.0 == ((p.written.None? || p.written.value.0) && Confirmations(calls) == 1)))
  {
    hide Execute, Slice, IdempotencyKey, WritesOf, Confirmations, JoinDetails;
    NothingWritten();
    assert Since(p.state.log, p.state.log) == [];
    var slice := Slice(s, proposals, merged);
    if slice.Some? && s.capability in reg {
      WriteCalls(h, spec, s, inputs, ctx, reg[s.capability], slice.value, h(slice.value), p.state);
      ShortLogs(WriteCall(s.stepId, slice.value, IdempotencyKey(ctx, spec, s, h(slice.value))), s.stepId);
    }
  }

  lemma OneCall(c: Call)
    ensures WritesOf([c]) == (if c.WriteCall? then [c] else [])
    ensures Confirmations([c]) == (if c.VerifyCall? && c.confirmed then 1 else 0)
  {
    assert [c][..0] == [];
  }

  lemma ShortLogs(c: Call, stepId: string)
    requires c.WriteCall?
    ensures WritesOf([]) == [] && WritesOf([c]) == [c] && Confirmations([c]) == 0
    ensures forall b :: WritesOf([c, VerifyCall(stepId, b)]) == [c] && Confirmations([c, VerifyCall(stepId, b)]) == if b then 1 else 0
  {
    OneCall(c);
    forall b ensures WritesOf([c, VerifyCall(stepId, b)]) == [c] && Confirmations([c, VerifyCall(stepId, b)]) == if b then 1 else 0 {
      var v := VerifyCall(stepId, b);
      assert [c, v] == [c] + [v];
      OneCall(v);
      WritesOfAppend([c], [v]);
      ConfirmationsAppend([c], [v]);
    }
  }

  /** What the second pass did: a prefix of the planned writes, all of them unless it failed, and
      then verified exactly when each was confirmed. */
  ghost predicate PassWrites(calls: seq<Call>, planned: seq<Call>, failed: bool, written: Option<(bool, string)>) {
    && WritesOf(calls) <= planned
    && (!failed ==> WritesOf(calls) == planned && Confirmations(calls) <= |planned|)
    && (!failed ==> (written.None? <==> planned == []))
    && (!failed && written.Some? ==> (written.value.0 <==> Confirmations(calls) == |planned|))
  }

  lemma JoinWrites(a: seq<Call>, b: seq<Call>, planned: seq<Call>, call: Call, failed: bool,
                   before: Option<(bool, string)>, after: Option<(bool, string)>)
    requires PassWrites(a, planned, false, before) && WritesOf(b) <= [call]
    requires !failed ==> WritesOf(b) == [call] && Confirmations(b) <= 1 && after.Some?
    requires !failed ==> after.value.0 == ((before.None? || before.value.0) && Confirmations(b) == 1)
    ensures PassWrites(a + b, planned + [call], failed, after)
  {
    hide WritesOf, Confirmations;
    WritesOfAppend(a, b);
    ConfirmationsAppend(a, b);
    NothingWritten();
  }

  lemma NothingPassed()
    ensures PassWrites([], [], false, None)
  {
  }

  lemma PlanGrows(calls: seq<Call>, planned: seq<Call>, more: seq<Call>, failed: bool, before: Option<(bool, string)>, after: Option<(bool, string)>)
    requires PassWrites(calls, planned, failed, before) && planned <= more
    ensures PassWrites(calls, more, true, after)
  {
    hide WritesOf, Confirmations;
  }

  lemma {:induction false} SecondPassWrites<W>(reg: Registry<W>, h: Digest, spec: Spec, steps: seq<Step>, inputs: Values, ctx: Context,
                                               proposals: map<string, R.Diff>, merged: R.Diff, st: State<W>)
    ensures var q := SecondPass(reg, h, spec, steps, inputs, ctx, proposals, merged, st);
      st.log <= q.state.log
      && PassWrites(Since(st.log, q.state.log), Planned(h, ctx, spec, steps, proposals, merged), q.failure.Some?, q.written)
  {
    hide Slice, IdempotencyKey, WritesOf, Confirmations, Execute, PassWrites;
    if steps == [] {
      assert Since(st.log, st.log) == [];
      NothingPassed();
    } else {
      var (front, s) := (steps[..|steps| - 1], steps[|steps| - 1]);
      SecondPassWrites(reg, h, spec, front, inputs, ctx, proposals, merged, st);
      var p := SecondPass(reg, h, spec, front, inputs, ctx, proposals, merged, st);
      var q := SecondPass(reg, h, spec, steps, inputs, ctx, proposals, merged, st);
      var slice := Slice(s, proposals, merged);
      if p.failure.None? && s.mode == Write && slice.Some? {
        WriteStepCalls(reg, h, spec, inputs, ctx, proposals, merged, p, s);
        hide WriteStep, SecondPass;
        var (a, b) := (Since(st.log, p.state.log), Since(p.state.log, q.state.log));
        assert Since(st.log, q.state.log) == a + b;
        JoinWrites(a, b, Planned(h, ctx, spec, front, proposals, merged),
                   WriteCall(s.stepId, slice.value, IdempotencyKey(ctx, spec, s, h(slice.value))), q.failure.Some?, p.written, q.written);
      } else {
        assert q.state == p.state;
        PlanGrows(Since(st.log, p.state.log), Planned(h, ctx, spec, front, proposals, merged),
                  Planned(h, ctx, spec, steps, proposals, merged), p.failure.Some?, p.written, q.written);
      }
    }
  }

  lemma NothingWritten()
    ensures WritesOf([]) == [] && Confirmations([]) == 0
  {
  }

  /** The calls of an approved run split into a first part without writes and a second part. Any
      write at all means that the first pass succeeded, so that every step that is not a write was
      called, that it proposed something, and that the merged proposal hashed to the approved
      hash; the writes are then a prefix of the planned ones. A completed run made every planned
      write, with its own slice, and is verified exactly when each was confirmed by a read-back. */
  ghost predicate Disciplined<W>(h: Digest, ctx: Context, spec: Spec, approved: string, p: Pass<W>, st: State<W>, end: State<W>, out: ApprovedOutcome)
    requires st.log <= p.state.log
  {
    var ordered := ByOrder(spec.steps);
    && p.state.log <= end.log
    && NoWrites(Since(st.log, p.state.log))
    && (Since(p.state.log, end.log) != [] ==> p.failure.None? && p.diff.Some? && h(p.diff.value) == approved)
    && (p.failure.None? ==> forall k :: 0 <= k < |ordered| && ordered[k].mode != Write ==> Called(Since(st.log, p.state.log), ordered[k]))
    && (p.diff.Some? ==>
        var planned := Planned(h, ctx.(mode := Supervised), spec, ordered, p.proposals, p.diff.value);
        && WritesOf(Since(p.state.log, end.log)) <= planned
        && (out.Completed? ==> out.diff == p.diff.value && WritesOf(Since(p.state.log, end.log)) == planned)
        && (out.Completed? ==> (out.verified <==> Confirmations(Since(p.state.log, end.log)) == |planned|)))
  }

  lemma ApprovedRunDiscipline<W>(reg: Registry<W>, h: Digest, spec: Spec, inputs: Values, ctx: Context, approved: string, st: State<W>)
    requires AgentInputs.Missing(spec.inputs, inputs) == []
    ensures var (end, out) := ApprovedRun(reg, h, spec, inputs, ctx, approved, st);
      var p := FirstPass(reg, h, spec, ByOrder(spec.steps), inputs, ctx.(mode := Supervised), st);
      && st.log <= p.state.log && Disciplined(h, ctx, spec, approved, p, st, end, out)
      && (p.failure.Some? ==> out == RunFailed(p.failure.value) && end == p.state)
      && (out.AbortedStale? <==> p.failure.None? && (p.diff.None? || h(p.diff.value) != approved))
      && (out.AbortedStale? ==> end == p.state && out.freshDiff == p.diff)
      && !out.NeedsInput?
  {
    hide FirstPass, SecondPass, Planned, Called, ByOrder, WritesOf, Confirmations;
    var (run, ordered) := (ctx.(mode := Supervised), ByOrder(spec.steps));
    FirstPassCalls(reg, h, spec, ordered, inputs, run, st);
    NothingWritten();
    var p := FirstPass(reg, h, spec, ordered, inputs, run, st);
    if p.failure.None? && p.diff.Some? && h(p.diff.value) == approved {
      SecondPassWrites(reg, h, spec, ordered, inputs, run, p.proposals, p.diff.value, p.state);
    } else {
      assert Since(p.state.log, p.state.log) == [];
    }
  }

  /** A shadow run calls no write, whatever the plan. */
  lemma ShadowNeverWrites<W>(reg: Registry<W>, h: Digest, spec: Spec, inputs: Values, ctx: Context, st: State<W>)
    ensures var (end, out) := ShadowRun(reg, h, spec, inputs, ctx, st);
      st.log <= end.log && NoWrites(Since(st.log, end.log))
      && (out.ShadowComplete? ==> forall k :: 0 <= k < |spec.steps| && spec.steps[k].mode != Write ==>
            Called(Since(st.log, end.log), spec.steps[k]))
  {
    hide FirstPass, Called, ByOrder;
    FirstPassCalls(reg, h, spec, ByOrder(spec.steps), inputs, ctx.(mode := Shadow), st);
    ByOrderMembers(spec.steps);
    var (end, out) := ShadowRun(reg, h, spec, inputs, ctx, st);
    if out.ShadowComplete? {
      forall k | 0 <= k < |spec.steps| && spec.steps[k].mode != Write ensures Called(Since(st.log, end.log), spec.steps[k]) {
        assert spec.steps[k] in ByOrder(spec.steps);
      }
    }
  }

  // ---- registered agents ----

  /** The runtime can execute the step: a known capability with an adapter of that mode, and nothing
      it needs is unmet. */
  predicate Executable<W>(catalog: set<string>, reg: Registry<W>, unmet: Unmet, s: Step) {
    s.capability in catalog && s.capability in reg && Implements(reg[s.capability], s.mode) && s.capability !in unmet
  }

  /** A specification has no gap exactly when the runtime can execute its every step. */
  lemma {:induction false} NoGapsExactly<W>(catalog: set<string>, reg: Registry<W>, unmet: Unmet, steps: seq<Step>)
    ensures Gaps(catalog, reg, unmet, steps) == [] <==> forall k :: 0 <= k < |steps| ==> Executable(catalog, reg, unmet, steps[k])
  {
    hide Implements;
    if steps != [] {
      var front := steps[..|steps| - 1];
      NoGapsExactly(catalog, reg, unmet, front);
      assert forall k :: 0 <= k < |front| ==> front[k] == steps[k];
    }
  }

  /** With its inputs ready, a step of a registered agent never fails in the first pass before its
      adapter was called: no missing adapter, no missing implementation, no missing input. */
  lemma RegisteredStepsReachAdapters<W>(u: V.Rules, reg: Registry<W>, h: Digest, spec: Spec, inputs: Values, ctx: Context, p: Pass<W>, k: nat)
    requires Gaps(u.catalog.Keys, reg, map[], spec.steps) == [] && AgentInputs.Missing(spec.inputs, inputs) == []
    requires k < |spec.steps| && spec.steps[k].mode != Write && p.failure.None?
    ensures var q := PassStep(reg, h, spec, inputs, ctx, p, spec.steps[k]);
      p.state.log <= q.state.log && Called(Since(p.state.log, q.state.log), spec.steps[k])
  {
    hide Execute, Resolve, Gaps, GapOf, AgentInputs.Missing, AgentInputs.Blank, Implements;
    var s := spec.steps[k];
    NoGapsExactly(u.catalog.Keys, reg, map[], spec.steps);
    assert Executable(u.catalog.Keys, reg, map[], s);
    AgentInputs.ReadyExactly(spec.inputs, inputs);
    NeverThrows(spec, s, |s.inputs|, p.state.outputs, inputs);
    var a := reg[s.capability];
    ReachedAdapter(h, spec, s, inputs, ctx, a, p.state);
    NonWriteCalls(h, spec, s, inputs, ctx, a, None, p.state);
    CallIsFirst(p.state, Execute(h, spec, s, inputs, ctx, a, None, p.state).0, s);
  }

  lemma CallIsFirst<W>(st: State<W>, su: State<W>, s: Step)
    requires st.log <= su.log && |su.log| > |st.log|
    requires forall i :: |st.log| <= i < |su.log| ==> su.log[i] == if s.mode == Read then ReadCall(s.stepId) else ProposeCall(s.stepId)
    ensures Called(Since(st.log, su.log), s)
  {
    assert Since(st.log, su.log)[0] == if s.mode == Read then ReadCall(s.stepId) else ProposeCall(s.stepId);
  }

  lemma ReachedAdapter<W>(h: Digest, spec: Spec, s: Step, inputs: Values, ctx: Context, a: Adapter<W>, st: State<W>)
    requires s.mode != Write && Implements(a, s.mode) && Resolve(spec, s, |s.inputs|, st.outputs, inputs).Ok?
    ensures |Execute(h, spec, s, inputs, ctx, a, None, st).0.log| > |st.log|
  {
    hide Resolve, Attempts;
    var resolved := Resolve(spec, s, |s.inputs|, st.outputs, inputs).value;
    if s.mode == Read {
      AttemptsPositive(MaxAttempts(s), (x: W) => a.read.value(resolved, ctx, x), st.world);
    } else {
      AttemptsPositive(MaxAttempts(s), (x: W) => a.propose.value(resolved, ctx, x), st.world);
    }
  }
}
