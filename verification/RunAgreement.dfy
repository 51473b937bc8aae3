/** A shadow run and the approved run that follows it agree on what is proposed. */
module RunAgreement {
  import opened Text
  import opened AgentSpec
  import opened RunEngine
  import opened LocalRuntime
  import AgentInputs
  import R = Reconciliation

  /** Reads and proposals do not look at the run mode. */
  ghost predicate IgnoresMode<W(!new)>(a: Adapter<W>) {
    && (a.read.Some? ==> forall i, c: Context, m, w :: a.read.value(i, c.(mode := m), w) == a.read.value(i, c, w))
    && (a.propose.Some? ==> forall i, c: Context, m, w :: a.propose.value(i, c.(mode := m), w) == a.propose.value(i, c, w))
  }

  /** Reads and proposals leave the world as it is. */
  ghost predicate OnlyLooks<W(!new)>(a: Adapter<W>) {
    && (a.read.Some? ==> forall i, c, w :: a.read.value(i, c, w).0 == w)
    && (a.propose.Some? ==> forall i, c, w :: a.propose.value(i, c, w).0 == w)
  }

  ghost predicate AllIgnoreMode<W(!new)>(reg: Registry<W>) { forall k :: k in reg ==> IgnoresMode(reg[k]) }

  ghost predicate AllOnlyLook<W(!new)>(reg: Registry<W>) { forall k :: k in reg ==> OnlyLooks(reg[k]) }

  lemma {:induction false} AttemptsSame<W(!new), T>(n: nat, f: W -> (W, Reply<T>), g: W -> (W, Reply<T>), w: W)
    requires n > 0 && forall x :: f(x) == g(x)
    ensures Attempts(n, f, w) == Attempts(n, g, w)
  {
    var (w', r) := f(w);
    if r.Threw? && r.transient && n > 1 { AttemptsSame(n - 1, f, g, w'); }
  }

  lemma {:induction false} AttemptsLook<W(!new), T>(n: nat, f: W -> (W, Reply<T>), w: W)
    requires n > 0 && forall x :: f(x).0 == x
    ensures Attempts(n, f, w).0 == w
  {
    var (w', r) := f(w);
    if r.Threw? && r.transient && n > 1 { AttemptsLook(n - 1, f, w'); }
  }

  /** States alike but for the call log. */
  ghost predicate SameButLog<W(!new)>(a: State<W>, b: State<W>) { a.world == b.world && a.outputs == b.outputs }

  lemma SameStep<W(!new)>(h: Digest, spec: Spec, s: Step, inputs: Values, c: Context, m: RunMode, a: Adapter<W>, st: State<W>, su: State<W>)
    requires s.mode != Write && IgnoresMode(a) && SameButLog(st, su)
    ensures var (x, e) := Execute(h, spec, s, inputs, c, a, None, st);
            var (y, f) := Execute(h, spec, s, inputs, c.(mode := m), a, None, su);
            SameButLog(x, y) && e == f
  {
    hide Resolve, Attempts;
    var d := c.(mode := m);
    match Resolve(spec, s, |s.inputs|, st.outputs, inputs)
    case Threw(_, _) =>
    case Ok(resolved) =>
      if s.mode == Read && a.read.Some? {
        AttemptsSame(MaxAttempts(s), (x: W) => a.read.value(resolved, c, x), (x: W) => a.read.value(resolved, d, x), st.world);
      } else if s.mode == ProposeWrite && a.propose.Some? {
        AttemptsSame(MaxAttempts(s), (x: W) => a.propose.value(resolved, c, x), (x: W) => a.propose.value(resolved, d, x), st.world);
      }
  }

  lemma LookingStep<W(!new)>(h: Digest, spec: Spec, s: Step, inputs: Values, c: Context, a: Adapter<W>, st: State<W>)
    requires s.mode != Write && OnlyLooks(a)
    ensures Execute(h, spec, s, inputs, c, a, None, st).0.world == st.world
  {
    hide Resolve, Attempts;
    match Resolve(spec, s, |s.inputs|, st.outputs, inputs)
    case Threw(_, _) =>
    case Ok(resolved) =>
      if s.mode == Read && a.read.Some? {
        AttemptsLook(MaxAttempts(s), (x: W) => a.read.value(resolved, c, x), st.world);
      } else if s.mode == ProposeWrite && a.propose.Some? {
        AttemptsLook(MaxAttempts(s), (x: W) => a.propose.value(resolved, c, x), st.world);
      }
  }

  ghost predicate SamePass<W(!new)>(p: Pass<W>, q: Pass<W>) {
    SameButLog(p.state, q.state) && p.proposals == q.proposals && p.diff == q.diff && p.failure == q.failure
  }

  /** From the same world the first pass proposes the same thing in either mode. */
  lemma {:induction false} PassesAgree<W(!new)>(reg: Registry<W>, h: Digest, spec: Spec, steps: seq<Step>, inputs: Values,
                                                c: Context, m: RunMode, st: State<W>, su: State<W>)
    requires AllIgnoreMode(reg) && SameButLog(st, su)
    ensures SamePass(FirstPass(reg, h, spec, steps, inputs, c, st), FirstPass(reg, h, spec, steps, inputs, c.(mode := m), su))
  {
    hide Execute, IgnoresMode;
    if steps != [] {
      var (front, s) := (steps[..|steps| - 1], steps[|steps| - 1]);
      PassesAgree(reg, h, spec, front, inputs, c, m, st, su);
      var p := FirstPass(reg, h, spec, front, inputs, c, st);
      var q := FirstPass(reg, h, spec, front, inputs, c.(mode := m), su);
      if s.mode != Write && s.capability in reg {
        SameStep(h, spec, s, inputs, c, m, reg[s.capability], p.state, q.state);
      }
    }
  }

  lemma {:induction false} PassLooks<W(!new)>(reg: Registry<W>, h: Digest, spec: Spec, steps: seq<Step>, inputs: Values, c: Context, st: State<W>)
    requires AllOnlyLook(reg)
    ensures FirstPass(reg, h, spec, steps, inputs, c, st).state.world == st.world
  {
    hide Execute, OnlyLooks;
    if steps != [] {
      var (front, s) := (steps[..|steps| - 1], steps[|steps| - 1]);
      PassLooks(reg, h, spec, front, inputs, c, st);
      var p := FirstPass(reg, h, spec, front, inputs, c, st);
      if s.mode != Write && s.capability in reg { LookingStep(h, spec, s, inputs, c, reg[s.capability], p.state); }
    }
  }

  /** What a shadow run showed the user is never reported as stale by an approved run of the same
      agent on the same inputs, started in the world the shadow run started in. */
  lemma ShadowAgreesWithApproval<W(!new)>(reg: Registry<W>, h: Digest, spec: Spec, inputs: Values, ctx: Context, st: State<W>, su: State<W>)
    requires AllIgnoreMode(reg) && SameButLog(st, su)
    requires var out := ShadowRun(reg, h, spec, inputs, ctx, st).1; out.ShadowComplete? && out.diff.Some?
    ensures var d := ShadowRun(reg, h, spec, inputs, ctx, st).1.diff.value;
      var out := ApprovedRun(reg, h, spec, inputs, ctx, h(d), su).1;
      !out.AbortedStale? && !out.NeedsInput? && (out.Completed? ==> out.diff == d)
  {
    hide FirstPass, SecondPass, ByOrder;
    PassesAgree(reg, h, spec, ByOrder(spec.steps), inputs, ctx.(mode := Shadow), Supervised, st, su);
    assert ctx.(mode := Shadow).(mode := Supervised) == ctx.(mode := Supervised);
  }

  /** When reads and proposals only look, the approved run may simply follow the shadow run. */
  lemma ApprovalMayFollow<W(!new)>(reg: Registry<W>, h: Digest, spec: Spec, inputs: Values, ctx: Context, w: W, log: seq<Call>)
    requires AllIgnoreMode(reg) && AllOnlyLook(reg)
    requires var out := ShadowRun(reg, h, spec, inputs, ctx, State(w, map[], log)).1; out.ShadowComplete? && out.diff.Some?
    ensures var (end, shown) := ShadowRun(reg, h, spec, inputs, ctx, State(w, map[], log));
      !ApprovedRun(reg, h, spec, inputs, ctx, h(shown.diff.value), State(end.world, map[], end.log)).1.AbortedStale?
  {
    hide FirstPass, SecondPass, ByOrder;
    var (end, shown) := ShadowRun(reg, h, spec, inputs, ctx, State(w, map[], log));
    PassLooks(reg, h, spec, ByOrder(spec.steps), inputs, ctx.(mode := Shadow), State(w, map[], log));
    ShadowAgreesWithApproval(reg, h, spec, inputs, ctx, State(w, map[], log), State(end.world, map[], end.log));
  }

  // ---- the merged diff is the whole routine ----

  /** What the proposals of a first pass proposed, in plan order. */
  function Proposed<W>(reg: Registry<W>, h: Digest, spec: Spec, steps: seq<Step>, inputs: Values, c: Context, st: State<W>): seq<R.Diff> {
    if steps == [] then []
    else
      var (front, s) := (steps[..|steps| - 1], steps[|steps| - 1]);
      var before := Proposed(reg, h, spec, front, inputs, c, st);
      if s.mode != ProposeWrite || s.capability !in reg then before
      else
        var e := Execute(h, spec, s, inputs, c, reg[s.capability], None, FirstPass(reg, h, spec, front, inputs, c, st).state).1;
        if e.Proposed? then before + [e.diff] else before
  }

  function AllChanges(ds: seq<R.Diff>): seq<R.Change> {
    if ds == [] then [] else AllChanges(ds[..|ds| - 1]) + ds[|ds| - 1].changes
  }

  function Total(count: R.Summary -> nat, ds: seq<R.Diff>): nat {
    if ds == [] then 0 else Total(count, ds[..|ds| - 1]) + count(ds[|ds| - 1].summary)
  }

  ghost predicate IsProposer(steps: seq<Step>, key: string) {
    exists k :: 0 <= k < |steps| && steps[k].mode == ProposeWrite && steps[k].outputKey == key
  }

  function Proposers(steps: seq<Step>): nat {
    if steps == [] then 0 else Proposers(steps[..|steps| - 1]) + if steps[|steps| - 1].mode == ProposeWrite then 1 else 0
  }

  /** The whole of what was proposed, in one diff: all changes in order, the counts added up, and the
      largest number of accounts affected. */
  ghost predicate Whole(d: R.Diff, ds: seq<R.Diff>) {
    && d.changes == AllChanges(ds)
    && d.summary.inputRows == Total((s: R.Summary) => s.inputRows, ds)
    && d.summary.confidentMatches == Total((s: R.Summary) => s.confidentMatches, ds)
    && d.summary.ambiguousSkipped == Total((s: R.Summary) => s.ambiguousSkipped, ds)
    && d.summary.missing == Total((s: R.Summary) => s.missing, ds)
    && d.summary.changeCount == Total((s: R.Summary) => s.changeCount, ds)
    && (exists k :: 0 <= k < |ds| && ds[k].summary.accountsAffected == d.summary.accountsAffected)
    && (forall k :: 0 <= k < |ds| ==> ds[k].summary.accountsAffected <= d.summary.accountsAffected)
  }

  lemma TotalOne(count: R.Summary -> nat, d: R.Diff)
    ensures Total(count, [d]) == count(d.summary)
  {
    assert [d][..0] == [];
  }

  lemma TotalNext(count: R.Summary -> nat, ds: seq<R.Diff>, d: R.Diff)
    ensures Total(count, ds + [d]) == Total(count, ds) + count(d.summary)
  {
    assert (ds + [d])[..|ds|] == ds;
  }

  lemma FirstWhole(d: R.Diff)
    ensures Whole(d, [d])
  {
    assert [d][..0] == [];
    TotalOne((s: R.Summary) => s.inputRows, d); TotalOne((s: R.Summary) => s.confidentMatches, d);
    TotalOne((s: R.Summary) => s.ambiguousSkipped, d); TotalOne((s: R.Summary) => s.missing, d);
    TotalOne((s: R.Summary) => s.changeCount, d);
  }

  lemma NextWhole(all: R.Diff, ds: seq<R.Diff>, d: R.Diff)
    requires Whole(all, ds)
    ensures Whole(MergeDiffs(Some(all), d), ds + [d])
  {
    var more := ds + [d];
    assert more[..|ds|] == ds && more[|ds|] == d;
    TotalNext((s: R.Summary) => s.inputRows, ds, d); TotalNext((s: R.Summary) => s.confidentMatches, ds, d);
    TotalNext((s: R.Summary) => s.ambiguousSkipped, ds, d); TotalNext((s: R.Summary) => s.missing, ds, d);
    TotalNext((s: R.Summary) => s.changeCount, ds, d);
    var k :| 0 <= k < |ds| && ds[k].summary.accountsAffected == all.summary.accountsAffected;
    assert more[k] == ds[k];
  }

  /** The diff whose hash is approved is the whole of what every proposing step proposed, in plan
      order: never just the last one's. A pass that does not fail has one proposal of each proposing
      step, and knows one under each of their output keys. */
  lemma {:induction false} MergedIsWhole<W(!new)>(reg: Registry<W>, h: Digest, spec: Spec, steps: seq<Step>, inputs: Values, c: Context, st: State<W>)
    ensures var p := FirstPass(reg, h, spec, steps, inputs, c, st);
      var ds := Proposed(reg, h, spec, steps, inputs, c, st);
      p.failure.None? ==>
        && |ds| == Proposers(steps)
        && (forall key :: key in p.proposals <==> IsProposer(steps, key))
        && (p.diff.None? <==> ds == [])
        && (p.diff.Some? ==> Whole(p.diff.value, ds))
  {
    hide Execute, Whole, MergeDiffs;
    if steps != [] {
      var (front, s) := (steps[..|steps| - 1], steps[|steps| - 1]);
      MergedIsWhole(reg, h, spec, front, inputs, c, st);
      var p := FirstPass(reg, h, spec, front, inputs, c, st);
      var q := FirstPass(reg, h, spec, steps, inputs, c, st);
      if q.failure.None? {
        forall key ensures IsProposer(steps, key) <==> IsProposer(front, key) || (s.mode == ProposeWrite && s.outputKey == key) {
          ProposerStep(front, s, key);
          assert front + [s] == steps;
        }
        if s.mode != Write {
          hide IsProposer;
          NonWriteCalls(h, spec, s, inputs, c, reg[s.capability], None, p.state);
          if s.mode == ProposeWrite { MergeStep(p.diff, Proposed(reg, h, spec, front, inputs, c, st), q.proposals[s.outputKey]); }
        }
      }
    }
  }

  lemma MergeStep(diff: Option<R.Diff>, ds: seq<R.Diff>, d: R.Diff)
    requires (diff.None? <==> ds == []) && (diff.Some? ==> Whole(diff.value, ds))
    ensures Whole(MergeDiffs(diff, d), ds + [d])
  {
    hide Whole;
    if diff.None? {
      assert ds + [d] == [d];
      FirstWhole(d);
    } else {
      NextWhole(diff.value, ds, d);
    }
  }

  lemma ProposerStep(front: seq<Step>, s: Step, key: string)
    ensures IsProposer(front + [s], key) <==> IsProposer(front, key) || (s.mode == ProposeWrite && s.outputKey == key)
  {
    var all := front + [s];
    if k :| 0 <= k < |front| && front[k].mode == ProposeWrite && front[k].outputKey == key { assert all[k] == front[k]; }
    if s.mode == ProposeWrite && s.outputKey == key { assert all[|front|] == s; }
  }
}
