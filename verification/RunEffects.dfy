/** What a step hands to its adapter and takes from it, and what a run leaves behind. */
module RunEffects {
  import opened Text
  import opened AgentSpec
  import opened RunEngine
  import opened LocalRuntime
  import AgentInputs
  import R = Reconciliation

  // ---- reads and proposals: the last answer ----

  /** Answer i + 1 was given on the world that answer i left, after a transient error. */
  ghost predicate AskedAgain<W, T>(call: W -> (W, Reply<T>), answers: seq<(W, Reply<T>)>, i: nat)
    requires i + 1 < |answers|
  {
    answers[i].1.Threw? && answers[i].1.transient && answers[i + 1] == call(answers[i].0)
  }

  /** All answers to one request that is made at most n times: only a transient error that was not
      the n-th answer is followed by another one. */
  ghost predicate Answers<W, T>(call: W -> (W, Reply<T>), w: W, n: nat, answers: seq<(W, Reply<T>)>) {
    && 1 <= |answers| <= n
    && answers[0] == call(w)
    && (forall i :: 0 <= i < |answers| - 1 ==> AskedAgain(call, answers, i))
    && (|answers| == n || !(answers[|answers| - 1].1.Threw? && answers[|answers| - 1].1.transient))
  }

  /** Repeating a call ends with the last of its answers and the world that answer left. */
  lemma {:induction false} AttemptsAre<W, T>(n: nat, call: W -> (W, Reply<T>), w: W) returns (answers: seq<(W, Reply<T>)>)
    requires n > 0
    ensures Answers(call, w, n, answers)
    ensures Attempts(n, call, w) == (answers[|answers| - 1].0, answers[|answers| - 1].1, |answers|)
  {
    var first := call(w);
    if first.1.Threw? && first.1.transient && n > 1 {
      var rest := AttemptsAre(n - 1, call, first.0);
      answers := [first] + rest;
      forall i | 0 <= i < |answers| - 1 ensures AskedAgain(call, answers, i) {
        if i > 0 { assert AskedAgain(call, rest, i - 1); }
      }
    } else {
      answers := [first];
    }
  }

  /** The attempts a step is allowed. */
  function Allowed(s: Step): nat { if !s.retryAllowed || s.maxAttempts < 1 then 1 else s.maxAttempts }

  /** A read step returns what its adapter last answered on the resolved inputs, and leaves the world
      of that answer; it fails with the message of that answer if it was an error. */
  lemma ReadIsLastAnswer<W>(h: Digest, spec: Spec, s: Step, agentInputs: Values, ctx: Context, a: Adapter<W>,
                            approved: Option<(R.Diff, string)>, st: State<W>, resolved: Values)
    returns (answers: seq<(W, Reply<Value>)>)
    requires s.mode == Read && a.read.Some? && Resolve(spec, s, |s.inputs|, st.outputs, agentInputs) == Ok(resolved)
    ensures Answers((x: W) => a.read.value(resolved, ctx, x), st.world, Allowed(s), answers)
    ensures var (end, e) := Execute(h, spec, s, agentInputs, ctx, a, approved, st);
      var last := answers[|answers| - 1];
      && end.world == last.0
      && e == (if last.1.Ok? then ReadDone(last.1.value) else Failed(last.1.message))
      && end.outputs == (if last.1.Ok? then st.outputs[s.outputKey := last.1.value] else st.outputs)
  {
    hide Resolve, Attempts;
    answers := AttemptsAre(MaxAttempts(s), (x: W) => a.read.value(resolved, ctx, x), st.world);
  }

  /** Likewise for a proposal. */
  lemma ProposalIsLastAnswer<W>(h: Digest, spec: Spec, s: Step, agentInputs: Values, ctx: Context, a: Adapter<W>,
                                approved: Option<(R.Diff, string)>, st: State<W>, resolved: Values)
    returns (answers: seq<(W, Reply<R.Diff>)>)
    requires s.mode == ProposeWrite && a.propose.Some? && Resolve(spec, s, |s.inputs|, st.outputs, agentInputs) == Ok(resolved)
    ensures Answers((x: W) => a.propose.value(resolved, ctx, x), st.world, Allowed(s), answers)
    ensures var (end, e) := Execute(h, spec, s, agentInputs, ctx, a, approved, st);
      var last := answers[|answers| - 1];
      && end.world == last.0
      && e == (if last.1.Ok? then Execution.Proposed(last.1.value) else Failed(last.1.message))
      && end.outputs == (if last.1.Ok? then st.outputs[s.outputKey := Proposal(last.1.value)] else st.outputs)
  {
    hide Resolve, Attempts;
    answers := AttemptsAre(MaxAttempts(s), (x: W) => a.propose.value(resolved, ctx, x), st.world);
  }

  // ---- writes: what was handed over, what came back ----

  /** The write answered, on the inputs, diff and key given, and so did the read-back of its answer,
      if there is one. */
  ghost predicate WroteAndRead<W>(a: Adapter<W>, inputs: Values, ctx: Context, diff: R.Diff, key: string, from: W, to: W,
                                  output: Value, verified: bool, detail: string)
  {
    && a.write.Some?
    && a.write.value(inputs, diff, ctx, key, from).1 == Ok(output)
    && var landed := a.write.value(inputs, diff, ctx, key, from).0;
       if a.verify.Some?
       then a.verify.value(inputs, output, ctx, landed) == (to, Ok(Verification(verified, detail)))
       else to == landed && !verified && detail == "no verifier"
  }

  /** A write step reports a write exactly when the run is not a shadow run, the hash given is the
      hash of the diff given and not empty, the inputs resolve, and the adapter, handed that diff
      under the key of the run, version, step and hash, answered and was read back. It reports what
      the adapter and the read-back answered, and leaves the world they left. */
  lemma WrittenExactly<W>(h: Digest, spec: Spec, s: Step, agentInputs: Values, ctx: Context, a: Adapter<W>, diff: R.Diff, sha: string,
                          st: State<W>, end: State<W>, output: Value, key: string, verified: bool, detail: string)
    requires s.mode == Write && end == Execute(h, spec, s, agentInputs, ctx, a, Some((diff, sha)), st).0
    ensures Execute(h, spec, s, agentInputs, ctx, a, Some((diff, sha)), st).1 == Written(output, key, verified, detail)
      <==> && ctx.mode != Shadow && sha != "" && h(diff) == sha
           && Resolve(spec, s, |s.inputs|, st.outputs, agentInputs).Ok?
           && key == ctx.runId + ":" + spec.versionId + ":" + s.stepId + ":" + Decimal(if s.version < 0 then 0 else s.version) + ":" + sha
           && WroteAndRead(a, Resolve(spec, s, |s.inputs|, st.outputs, agentInputs).value, ctx, diff, key, st.world, end.world, output, verified, detail)
  {
    hide Resolve;
  }

  // ---- a world that remembers what was handed to writes ----

  type Hand = (R.Diff, string)

  /** Writes add the diff and key they were handed to the record; nothing else touches it. */
  ghost predicate Records<W(!new)>(a: Adapter<W>, kept: W -> seq<Hand>) {
    && (a.read.Some? ==> forall i, c, w :: kept(a.read.value(i, c, w).0) == kept(w))
    && (a.propose.Some? ==> forall i, c, w :: kept(a.propose.value(i, c, w).0) == kept(w))
    && (a.write.Some? ==> forall i, d, c, k, w :: kept(a.write.value(i, d, c, k, w).0) == kept(w) + [(d, k)])
    && (a.verify.Some? ==> forall i, v, c, w :: kept(a.verify.value(i, v, c, w).0) == kept(w))
  }

  ghost predicate AllRecord<W(!new)>(reg: Registry<W>, kept: W -> seq<Hand>) { forall k :: k in reg ==> Records(reg[k], kept) }

  lemma {:induction false} AttemptsKeep<W(!new), T>(n: nat, call: W -> (W, Reply<T>), w: W, kept: W -> seq<Hand>)
    requires n > 0 && forall x :: kept(call(x).0) == kept(x)
    ensures kept(Attempts(n, call, w).0) == kept(w)
  {
    var (w', r) := call(w);
    if r.Threw? && r.transient && n > 1 { AttemptsKeep(n - 1, call, w', kept); }
  }

  lemma LooksAtRecord<W(!new)>(h: Digest, spec: Spec, s: Step, agentInputs: Values, ctx: Context, a: Adapter<W>, st: State<W>, kept: W -> seq<Hand>)
    requires s.mode != Write && Records(a, kept)
    ensures kept(Execute(h, spec, s, agentInputs, ctx, a, None, st).0.world) == kept(st.world)
  {
    hide Resolve, Attempts;
    match Resolve(spec, s, |s.inputs|, st.outputs, agentInputs)
    case Threw(_, _) =>
    case Ok(resolved) =>
      if s.mode == Read && a.read.Some? {
        AttemptsKeep(MaxAttempts(s), (x: W) => a.read.value(resolved, ctx, x), st.world, kept);
      } else if s.mode == ProposeWrite && a.propose.Some? {
        AttemptsKeep(MaxAttempts(s), (x: W) => a.propose.value(resolved, ctx, x), st.world, kept);
      }
  }

  lemma {:induction false} FirstPassKeeps<W(!new)>(reg: Registry<W>, h: Digest, spec: Spec, steps: seq<Step>, inputs: Values, ctx: Context,
                                                   st: State<W>, kept: W -> seq<Hand>)
    requires AllRecord(reg, kept)
    ensures kept(FirstPass(reg, h, spec, steps, inputs, ctx, st).state.world) == kept(st.world)
  {
    hide Execute, Records;
    if steps != [] {
      var (front, s) := (steps[..|steps| - 1], steps[|steps| - 1]);
      FirstPassKeeps(reg, h, spec, front, inputs, ctx, st, kept);
      if s.mode != Write && s.capability in reg {
        LooksAtRecord(h, spec, s, inputs, ctx, reg[s.capability], FirstPass(reg, h, spec, front, inputs, ctx, st).state, kept);
      }
    }
  }

  /** One write hands over the diff it was given under its key, or nothing at all. */
  lemma OneHand<W(!new)>(h: Digest, spec: Spec, s: Step, agentInputs: Values, ctx: Context, a: Adapter<W>, diff: R.Diff, sha: string,
                         st: State<W>, kept: W -> seq<Hand>)
    requires s.mode == Write && Records(a, kept)
    ensures var (end, e) := Execute(h, spec, s, agentInputs, ctx, a, Some((diff, sha)), st);
      || kept(end.world) == kept(st.world) + [(diff, IdempotencyKey(ctx, spec, s, sha))]
      || (kept(end.world) == kept(st.world) && !e.Written?)
  {
    hide Resolve, IdempotencyKey;
  }

  /** The proposal a write is bound to: the one its literal `pairs_with` names, or everything. */
  ghost predicate BoundTo(s: Step, proposals: map<string, R.Diff>, merged: R.Diff, d: R.Diff) {
    if exists key :: Bound(s.inputs, "pairs_with") == Some(Constant(Words(key)))
    then exists key :: Bound(s.inputs, "pairs_with") == Some(Constant(Words(key))) && key in proposals && d == proposals[key]
    else d == merged
  }

  /** The diff a write executes is the one it is bound to; there is none exactly when it names a
      proposal that nothing produced. */
  lemma SliceExactly(s: Step, proposals: map<string, R.Diff>, merged: R.Diff, d: R.Diff)
    ensures Slice(s, proposals, merged) == Some(d) <==> BoundTo(s, proposals, merged, d)
    ensures Slice(s, proposals, merged) == None <==> exists key :: Bound(s.inputs, "pairs_with") == Some(Constant(Words(key))) && key !in proposals
  {
    var b := Bound(s.inputs, "pairs_with");
    if b.Some? && b.value.Constant? && b.value.value.Words? {
      var name := b.value.value.s;
      assert b == Some(Constant(Words(name)));
    }
  }

  function WriteSteps(steps: seq<Step>): (r: seq<Step>)
    ensures forall k :: 0 <= k < |r| ==> r[k].mode == Write
  {
    if steps == [] then []
    else WriteSteps(steps[..|steps| - 1]) + if steps[|steps| - 1].mode == Write then [steps[|steps| - 1]] else []
  }

  /** The k-th thing handed over is what the k-th write is bound to, under that write's key. */
  ghost predicate HandOf(h: Digest, ctx: Context, spec: Spec, s: Step, proposals: map<string, R.Diff>, merged: R.Diff, hand: Hand) {
    BoundTo(s, proposals, merged, hand.0) && hand.1 == IdempotencyKey(ctx, spec, s, h(hand.0))
  }

  ghost predicate HandsOf(h: Digest, ctx: Context, spec: Spec, writes: seq<Step>, proposals: map<string, R.Diff>, merged: R.Diff, hands: seq<Hand>) {
    |hands| <= |writes| && forall k :: 0 <= k < |hands| ==> HandOf(h, ctx, spec, writes[k], proposals, merged, hands[k])
  }

  lemma WriteStepHands<W(!new)>(reg: Registry<W>, h: Digest, spec: Spec, inputs: Values, ctx: Context,
                                proposals: map<string, R.Diff>, merged: R.Diff, p: Writes<W>, s: Step, kept: W -> seq<Hand>)
    returns (more: seq<Hand>)
    requires AllRecord(reg, kept)
    ensures var q := WriteStep(reg, h, spec, inputs, ctx, proposals, merged, p, s);
      && kept(q.state.world) == kept(p.state.world) + more
      && (q.failure.None? ==> p.failure.None? && |more| == if s.mode == Write then 1 else 0)
      && (p.failure.Some? || s.mode != Write ==> more == [])
      && |more| <= 1 && (more != [] ==> HandOf(h, ctx, spec, s, proposals, merged, more[0]))
  {
    hide Execute, Records, Slice, IdempotencyKey, BoundTo, Conjoin;
    var slice := Slice(s, proposals, merged);
    more := [];
    if p.failure.None? && s.mode == Write && slice.Some? && s.capability in reg {
      OneHand(h, spec, s, inputs, ctx, reg[s.capability], slice.value, h(slice.value), p.state, kept);
      SliceExactly(s, proposals, merged, slice.value);
      var end := Execute(h, spec, s, inputs, ctx, reg[s.capability], Some((slice.value, h(slice.value))), p.state).0;
      if kept(end.world) != kept(p.state.world) { more := [(slice.value, IdempotencyKey(ctx, spec, s, h(slice.value)))]; }
    }
  }

  lemma MoreHands(h: Digest, ctx: Context, spec: Spec, writes: seq<Step>, s: Step, proposals: map<string, R.Diff>, merged: R.Diff,
                  before: seq<Hand>, more: seq<Hand>)
    requires HandsOf(h, ctx, spec, writes, proposals, merged, before) && |more| <= 1
    requires more != [] ==> s.mode == Write && |before| == |writes| && HandOf(h, ctx, spec, s, proposals, merged, more[0])
    ensures HandsOf(h, ctx, spec, writes + if s.mode == Write then [s] else [], proposals, merged, before + more)
  {
    hide HandOf;
  }

  lemma {:induction false} SecondPassHands<W(!new)>(reg: Registry<W>, h: Digest, spec: Spec, steps: seq<Step>, inputs: Values, ctx: Context,
                                                    proposals: map<string, R.Diff>, merged: R.Diff, st: State<W>, kept: W -> seq<Hand>)
    returns (hands: seq<Hand>)
    requires AllRecord(reg, kept)
    ensures var q := SecondPass(reg, h, spec, steps, inputs, ctx, proposals, merged, st);
      && kept(q.state.world) == kept(st.world) + hands
      && HandsOf(h, ctx, spec, WriteSteps(steps), proposals, merged, hands)
      && (q.failure.None? ==> |hands| == |WriteSteps(steps)|)
  {
    hide Execute, Records, Slice, IdempotencyKey, BoundTo, Conjoin;
    if steps == [] {
      hands := [];
    } else {
      var (front, s) := (steps[..|steps| - 1], steps[|steps| - 1]);
      var before := SecondPassHands(reg, h, spec, front, inputs, ctx, proposals, merged, st, kept);
      var p := SecondPass(reg, h, spec, front, inputs, ctx, proposals, merged, st);
      var slice := Slice(s, proposals, merged);
      hide SecondPass, HandsOf;
      var more := WriteStepHands(reg, h, spec, inputs, ctx, proposals, merged, p, s, kept);
      hands := before + more;
      MoreHands(h, ctx, spec, WriteSteps(front), s, proposals, merged, before, more);
    }
  }

  /** In a world that remembers what is handed to writes, an approved run leaves, for its writes in
      plan order, what each is bound to under its own key: for all of them if it completes, for the
      first few if it fails among them, and for none unless the whole plan was proposed afresh and
      hashed to what was approved. */
  lemma ApprovedRunHands<W(!new)>(reg: Registry<W>, h: Digest, spec: Spec, inputs: Values, ctx: Context, approved: string, st: State<W>,
                                  kept: W -> seq<Hand>) returns (hands: seq<Hand>)
    requires AllRecord(reg, kept)
    ensures var (end, out) := ApprovedRun(reg, h, spec, inputs, ctx, approved, st);
      var p := FirstPass(reg, h, spec, ByOrder(spec.steps), inputs, ctx.(mode := Supervised), st);
      && kept(end.world) == kept(st.world) + hands
      && (hands != [] ==> p.failure.None? && p.diff.Some? && h(p.diff.value) == approved)
      && (p.diff.Some? ==> HandsOf(h, ctx.(mode := Supervised), spec, WriteSteps(ByOrder(spec.steps)), p.proposals, p.diff.value, hands))
      && (out.Completed? ==> hands != [] && |hands| == |WriteSteps(ByOrder(spec.steps))|)
  {
    hide FirstPass, SecondPass, WriteSteps, ByOrder, Records, IdempotencyKey, BoundTo;
    var (run, ordered) := (ctx.(mode := Supervised), ByOrder(spec.steps));
    hands := [];
    FirstPassKeeps(reg, h, spec, ordered, inputs, run, st, kept);
    var p := FirstPass(reg, h, spec, ordered, inputs, run, st);
    if AgentInputs.Missing(spec.inputs, inputs) == [] && p.failure.None? && p.diff.Some? && h(p.diff.value) == approved {
      hands := SecondPassHands(reg, h, spec, ordered, inputs, run, p.proposals, p.diff.value, p.state, kept);
      WrittenMeansWrites(reg, h, spec, ordered, inputs, run, p.proposals, p.diff.value, p.state);
    }
  }

  lemma {:induction false} WrittenMeansWrites<W>(reg: Registry<W>, h: Digest, spec: Spec, steps: seq<Step>, inputs: Values, ctx: Context,
                                                 proposals: map<string, R.Diff>, merged: R.Diff, st: State<W>)
    ensures var q := SecondPass(reg, h, spec, steps, inputs, ctx, proposals, merged, st);
      q.failure.None? ==> (q.written.Some? <==> WriteSteps(steps) != [])
  {
    hide Execute, Slice;
    if steps != [] { WrittenMeansWrites(reg, h, spec, steps[..|steps| - 1], inputs, ctx, proposals, merged, st); }
  }

  // ---- when a run completes ----

  /** Step k went through on the state the steps before it left, and left the next state. */
  ghost predicate Proposes<W>(reg: Registry<W>, h: Digest, spec: Spec, steps: seq<Step>, inputs: Values, ctx: Context, states: seq<State<W>>, k: nat)
    requires k < |steps| && |states| == |steps| + 1
  {
    if steps[k].mode == Write then states[k + 1] == states[k]
    else
      && steps[k].capability in reg
      && states[k + 1] == Execute(h, spec, steps[k], inputs, ctx, reg[steps[k].capability], None, states[k]).0
      && !Execute(h, spec, steps[k], inputs, ctx, reg[steps[k].capability], None, states[k]).1.Failed?
  }

  /** Every read and proposal went through, in plan order, from the first state to the last. */
  ghost predicate ProposesAll<W>(reg: Registry<W>, h: Digest, spec: Spec, steps: seq<Step>, inputs: Values, ctx: Context, states: seq<State<W>>) {
    |states| == |steps| + 1 && forall k :: 0 <= k < |steps| ==> Proposes(reg, h, spec, steps, inputs, ctx, states, k)
  }

  /** What the write was bound to was written. */
  ghost predicate WritesOne<W>(reg: Registry<W>, h: Digest, spec: Spec, s: Step, inputs: Values, ctx: Context,
                               proposals: map<string, R.Diff>, merged: R.Diff, d: R.Diff, from: State<W>, to: State<W>) {
    && s.capability in reg && BoundTo(s, proposals, merged, d)
    && to == Execute(h, spec, s, inputs, ctx, reg[s.capability], Some((d, h(d))), from).0
    && Execute(h, spec, s, inputs, ctx, reg[s.capability], Some((d, h(d))), from).1.Written?
  }

  ghost predicate WritesSome<W>(reg: Registry<W>, h: Digest, spec: Spec, s: Step, inputs: Values, ctx: Context,
                                proposals: map<string, R.Diff>, merged: R.Diff, from: State<W>, to: State<W>) {
    exists d :: WritesOne(reg, h, spec, s, inputs, ctx, proposals, merged, d, from, to)
  }

  ghost predicate Writing<W>(reg: Registry<W>, h: Digest, spec: Spec, steps: seq<Step>, inputs: Values, ctx: Context,
                             proposals: map<string, R.Diff>, merged: R.Diff, states: seq<State<W>>, k: nat)
    requires k < |steps| && |states| == |steps| + 1
  {
    if steps[k].mode != Write then states[k + 1] == states[k]
    else WritesSome(reg, h, spec, steps[k], inputs, ctx, proposals, merged, states[k], states[k + 1])
  }

  /** Every write was made and read back, in plan order. */
  ghost predicate WritesAll<W>(reg: Registry<W>, h: Digest, spec: Spec, steps: seq<Step>, inputs: Values, ctx: Context,
                               proposals: map<string, R.Diff>, merged: R.Diff, states: seq<State<W>>) {
    |states| == |steps| + 1 && forall k :: 0 <= k < |steps| ==> Writing(reg, h, spec, steps, inputs, ctx, proposals, merged, states, k)
  }

  lemma ProposesPrefix<W>(reg: Registry<W>, h: Digest, spec: Spec, steps: seq<Step>, inputs: Values, ctx: Context, states: seq<State<W>>)
    requires steps != [] && |states| == |steps| + 1
    ensures ProposesAll(reg, h, spec, steps, inputs, ctx, states)
      <==> ProposesAll(reg, h, spec, steps[..|steps| - 1], inputs, ctx, states[..|steps|])
           && Proposes(reg, h, spec, steps, inputs, ctx, states, |steps| - 1)
  {
    hide Execute;
    var front := steps[..|steps| - 1];
    forall k | 0 <= k < |front|
      ensures Proposes(reg, h, spec, steps, inputs, ctx, states, k) == Proposes(reg, h, spec, front, inputs, ctx, states[..|steps|], k)
    {
    }
    hide Proposes;
  }

  lemma WritingPrefix<W>(reg: Registry<W>, h: Digest, spec: Spec, steps: seq<Step>, inputs: Values, ctx: Context,
                         proposals: map<string, R.Diff>, merged: R.Diff, states: seq<State<W>>)
    requires steps != [] && |states| == |steps| + 1
    ensures WritesAll(reg, h, spec, steps, inputs, ctx, proposals, merged, states)
      <==> WritesAll(reg, h, spec, steps[..|steps| - 1], inputs, ctx, proposals, merged, states[..|steps|])
           && Writing(reg, h, spec, steps, inputs, ctx, proposals, merged, states, |steps| - 1)
  {
    hide WritesSome;
    var front := steps[..|steps| - 1];
    forall k | 0 <= k < |front|
      ensures Writing(reg, h, spec, steps, inputs, ctx, proposals, merged, states, k)
           == Writing(reg, h, spec, front, inputs, ctx, proposals, merged, states[..|steps|], k)
    {
    }
    hide Writing;
  }

  /** A first pass that succeeds went through every read and proposal. */
  lemma {:induction false} FirstPassWent<W>(reg: Registry<W>, h: Digest, spec: Spec, steps: seq<Step>, inputs: Values, ctx: Context, st: State<W>)
    returns (states: seq<State<W>>)
    requires FirstPass(reg, h, spec, steps, inputs, ctx, st).failure.None?
    ensures |states| == |steps| + 1 && ProposesAll(reg, h, spec, steps, inputs, ctx, states) && states[0] == st
    ensures FirstPass(reg, h, spec, steps, inputs, ctx, st).state == states[|steps|]
  {
    hide Execute, MergeDiffs;
    if steps == [] {
      states := [st];
    } else {
      var before := FirstPassWent(reg, h, spec, steps[..|steps| - 1], inputs, ctx, st);
      states := before + [FirstPass(reg, h, spec, steps, inputs, ctx, st).state];
      assert states[..|steps|] == before;
      ProposesPrefix(reg, h, spec, steps, inputs, ctx, states);
    }
  }

  lemma {:induction false} FirstPassGoes<W>(reg: Registry<W>, h: Digest, spec: Spec, steps: seq<Step>, inputs: Values, ctx: Context, states: seq<State<W>>)
    requires ProposesAll(reg, h, spec, steps, inputs, ctx, states)
    ensures var p := FirstPass(reg, h, spec, steps, inputs, ctx, states[0]); p.failure.None? && p.state == states[|steps|]
  {
    hide Execute, MergeDiffs;
    if steps != [] {
      ProposesPrefix(reg, h, spec, steps, inputs, ctx, states);
      FirstPassGoes(reg, h, spec, steps[..|steps| - 1], inputs, ctx, states[..|steps|]);
    }
  }

  /** The answer of the latest proposing step under a key, if there is one. */
  ghost predicate Holds<W>(reg: Registry<W>, h: Digest, spec: Spec, steps: seq<Step>, inputs: Values, ctx: Context, states: seq<State<W>>,
                           proposals: map<string, R.Diff>, k: nat)
    requires k < |steps| <= |states|
  {
    && steps[k].capability in reg && steps[k].outputKey in proposals
    && Execute(h, spec, steps[k], inputs, ctx, reg[steps[k].capability], None, states[k]).1 == Execution.Proposed(proposals[steps[k].outputKey])
  }

  ghost predicate Latest(steps: seq<Step>, k: nat)
    requires k < |steps|
  {
    steps[k].mode == ProposeWrite && forall j :: k < j < |steps| ==> steps[j].mode != ProposeWrite || steps[j].outputKey != steps[k].outputKey
  }

  ghost predicate ProposedUnder(steps: seq<Step>, key: string) {
    exists k :: 0 <= k < |steps| && steps[k].mode == ProposeWrite && steps[k].outputKey == key
  }

  lemma ProposedUnderLast(steps: seq<Step>, key: string)
    requires steps != []
    ensures var s := steps[|steps| - 1];
      ProposedUnder(steps, key) <==> ProposedUnder(steps[..|steps| - 1], key) || (s.mode == ProposeWrite && s.outputKey == key)
  {
    var front := steps[..|steps| - 1];
    if ProposedUnder(front, key) {
      var k :| 0 <= k < |front| && front[k].mode == ProposeWrite && front[k].outputKey == key;
      assert steps[k] == front[k];
    }
  }

  lemma NothingProposed()
    ensures forall key :: !ProposedUnder([], key)
  {
  }

  /** The proposals a first pass keeps are those of its proposing steps, the latest under each key. */
  lemma {:induction false} ProposalsAreLatest<W>(reg: Registry<W>, h: Digest, spec: Spec, steps: seq<Step>, inputs: Values, ctx: Context,
                                                 states: seq<State<W>>)
    requires ProposesAll(reg, h, spec, steps, inputs, ctx, states)
    ensures var p := FirstPass(reg, h, spec, steps, inputs, ctx, states[0]);
      && (forall key :: key in p.proposals <==> ProposedUnder(steps, key))
      && (forall k :: 0 <= k < |steps| && Latest(steps, k) ==> Holds(reg, h, spec, steps, inputs, ctx, states, p.proposals, k))
      && (p.diff.Some? <==> exists key :: ProposedUnder(steps, key))
  {
    hide Execute, MergeDiffs, ProposedUnder;
    if steps == [] { assert forall key :: !ProposedUnder(steps, key) by { NothingProposed(); } }
    if steps != [] {
      var (front, n) := (steps[..|steps| - 1], |steps| - 1);
      ProposesPrefix(reg, h, spec, steps, inputs, ctx, states);
      ProposalsAreLatest(reg, h, spec, front, inputs, ctx, states[..|steps|]);
      FirstPassGoes(reg, h, spec, front, inputs, ctx, states[..|steps|]);
      var p := FirstPass(reg, h, spec, front, inputs, ctx, states[0]);
      var q := FirstPass(reg, h, spec, steps, inputs, ctx, states[0]);
      var s := steps[n];
      forall key { ProposedUnderLast(steps, key); }
      if s.mode != Write { NonWriteCalls(h, spec, s, inputs, ctx, reg[s.capability], None, p.state); }
      if s.mode == ProposeWrite { assert ProposedUnder(steps, s.outputKey); }
      assert q == PassStep(reg, h, spec, inputs, ctx, p, s);
      hide ProposesAll;
      forall k | 0 <= k < |steps| && Latest(steps, k) ensures Holds(reg, h, spec, steps, inputs, ctx, states, q.proposals, k) {
        if k < n {
          assert Latest(front, k) && Holds(reg, h, spec, front, inputs, ctx, states[..|steps|], p.proposals, k);
        }
      }
    }
  }

  lemma {:induction false} SecondPassWent<W>(reg: Registry<W>, h: Digest, spec: Spec, steps: seq<Step>, inputs: Values, ctx: Context,
                                             proposals: map<string, R.Diff>, merged: R.Diff, st: State<W>) returns (states: seq<State<W>>)
    requires SecondPass(reg, h, spec, steps, inputs, ctx, proposals, merged, st).failure.None?
    ensures |states| == |steps| + 1 && WritesAll(reg, h, spec, steps, inputs, ctx, proposals, merged, states) && states[0] == st
    ensures SecondPass(reg, h, spec, steps, inputs, ctx, proposals, merged, st).state == states[|steps|]
  {
    hide Execute, Slice, BoundTo, Conjoin;
    if steps == [] {
      states := [st];
    } else {
      var before := SecondPassWent(reg, h, spec, steps[..|steps| - 1], inputs, ctx, proposals, merged, st);
      states := before + [SecondPass(reg, h, spec, steps, inputs, ctx, proposals, merged, st).state];
      assert states[..|steps|] == before;
      var s := steps[|steps| - 1];
      if s.mode == Write {
        var d := Slice(s, proposals, merged).value;
        SliceExactly(s, proposals, merged, d);
        assert WritesOne(reg, h, spec, s, inputs, ctx, proposals, merged, d, states[|steps| - 1], states[|steps|]);
      }
      WritingPrefix(reg, h, spec, steps, inputs, ctx, proposals, merged, states);
    }
  }

  lemma {:induction false} SecondPassGoes<W>(reg: Registry<W>, h: Digest, spec: Spec, steps: seq<Step>, inputs: Values, ctx: Context,
                                             proposals: map<string, R.Diff>, merged: R.Diff, states: seq<State<W>>)
    requires WritesAll(reg, h, spec, steps, inputs, ctx, proposals, merged, states)
    ensures var q := SecondPass(reg, h, spec, steps, inputs, ctx, proposals, merged, states[0]);
      && q.failure.None? && q.state == states[|steps|]
      && (q.written.Some? <==> exists k :: 0 <= k < |steps| && steps[k].mode == Write)
  {
    hide Execute, Slice, BoundTo, Conjoin;
    if steps != [] {
      WritingPrefix(reg, h, spec, steps, inputs, ctx, proposals, merged, states);
      SecondPassGoes(reg, h, spec, steps[..|steps| - 1], inputs, ctx, proposals, merged, states[..|steps|]);
      var s := steps[|steps| - 1];
      if s.mode == Write {
        var d :| WritesOne(reg, h, spec, s, inputs, ctx, proposals, merged, d, states[|steps| - 1], states[|steps|]);
        SliceExactly(s, proposals, merged, d);
      }
    }
  }

  /** The reads and proposals went through and hashed to what was approved, there is a write, and
      every write was made and read back, from the first of these states to the last. */
  ghost predicate WentThrough<W>(reg: Registry<W>, h: Digest, spec: Spec, inputs: Values, ctx: Context, approved: string,
                                 before: seq<State<W>>, after: seq<State<W>>) {
    var ordered := ByOrder(spec.steps);
    && |before| == |after| == |spec.steps| + 1
    && ProposesAll(reg, h, spec, ordered, inputs, ctx, before)
    && (exists k :: 0 <= k < |ordered| && ordered[k].mode == Write)
    && var p := FirstPass(reg, h, spec, ordered, inputs, ctx, before[0]);
       && p.diff.Some? && h(p.diff.value) == approved
       && WritesAll(reg, h, spec, ordered, inputs, ctx, p.proposals, p.diff.value, after)
       && after[0] == before[|ordered|]
  }

  ghost predicate Ends<W>(before: seq<State<W>>, after: seq<State<W>>, st: State<W>, end: State<W>) {
    before != [] && after != [] && before[0] == st && after[|after| - 1] == end
  }

  ghost predicate GoesThrough<W(!new)>(reg: Registry<W>, h: Digest, spec: Spec, inputs: Values, ctx: Context, approved: string, st: State<W>, end: State<W>) {
    exists before, after :: WentThrough(reg, h, spec, inputs, ctx, approved, before, after) && Ends(before, after, st, end)
  }

  lemma GoneThrough<W>(reg: Registry<W>, h: Digest, spec: Spec, inputs: Values, ctx: Context, approved: string,
                       before: seq<State<W>>, after: seq<State<W>>)
    requires AgentInputs.Missing(spec.inputs, inputs) == []
    requires |before| == |after| == |spec.steps| + 1 && WentThrough(reg, h, spec, inputs, ctx.(mode := Supervised), approved, before, after)
    ensures var (end, out) := ApprovedRun(reg, h, spec, inputs, ctx, approved, before[0]); out.Completed? && end == after[|spec.steps|]
  {
    hide FirstPass, SecondPass, ByOrder, ProposesAll, WritesAll;
    var (run, ordered) := (ctx.(mode := Supervised), ByOrder(spec.steps));
    FirstPassGoes(reg, h, spec, ordered, inputs, run, before);
    var p := FirstPass(reg, h, spec, ordered, inputs, run, before[0]);
    SecondPassGoes(reg, h, spec, ordered, inputs, run, p.proposals, p.diff.value, after);
  }

  lemma CompletedWent<W(!new)>(reg: Registry<W>, h: Digest, spec: Spec, inputs: Values, ctx: Context, approved: string, st: State<W>)
    requires ApprovedRun(reg, h, spec, inputs, ctx, approved, st).1.Completed?
    ensures GoesThrough(reg, h, spec, inputs, ctx.(mode := Supervised), approved, st, ApprovedRun(reg, h, spec, inputs, ctx, approved, st).0)
  {
    hide FirstPass, SecondPass, ByOrder, ProposesAll, WritesAll;
    var (run, ordered) := (ctx.(mode := Supervised), ByOrder(spec.steps));
    var before := FirstPassWent(reg, h, spec, ordered, inputs, run, st);
    var p := FirstPass(reg, h, spec, ordered, inputs, run, st);
    var after := SecondPassWent(reg, h, spec, ordered, inputs, run, p.proposals, p.diff.value, p.state);
    SecondPassGoes(reg, h, spec, ordered, inputs, run, p.proposals, p.diff.value, after);
    assert WentThrough(reg, h, spec, inputs, run, approved, before, after);
  }

  /** An approved run completes exactly when its inputs are ready and it goes through; it needs input
      exactly when some is missing, before anything is called; otherwise, unless it is stale, it
      fails. */
  lemma CompletedExactly<W(!new)>(reg: Registry<W>, h: Digest, spec: Spec, inputs: Values, ctx: Context, approved: string, st: State<W>)
    ensures var (end, out) := ApprovedRun(reg, h, spec, inputs, ctx, approved, st);
      var ready := AgentInputs.Missing(spec.inputs, inputs) == [];
      && (out.Completed? <==> ready && GoesThrough(reg, h, spec, inputs, ctx.(mode := Supervised), approved, st, end))
      && (out.NeedsInput? <==> !ready)
      && (out.NeedsInput? ==> end == st)
      && (out.AbortedStale? ==> out.approvedSha == approved && out.freshSha == if out.freshDiff.Some? then h(out.freshDiff.value) else "")
  {
    hide FirstPass, SecondPass, ByOrder, ProposesAll, WritesAll;
    var (end, out) := ApprovedRun(reg, h, spec, inputs, ctx, approved, st);
    var run := ctx.(mode := Supervised);
    if out.Completed? {
      CompletedWent(reg, h, spec, inputs, ctx, approved, st);
    } else if AgentInputs.Missing(spec.inputs, inputs) == [] && GoesThrough(reg, h, spec, inputs, run, approved, st, end) {
      var before, after :| WentThrough(reg, h, spec, inputs, run, approved, before, after) && Ends(before, after, st, end);
      GoneThrough(reg, h, spec, inputs, ctx, approved, before, after);
    }
  }

  // ---- what a finished run reports ----

  /** The pieces that are not empty, with "; " between them. */
  function Joined(pieces: seq<string>): string {
    if pieces == [] then ""
    else
      var rest := Joined(pieces[1..]);
      if pieces[0] == "" then rest else if rest == "" then pieces[0] else pieces[0] + "; " + rest
  }

  lemma {:induction false} JoinedLast(pieces: seq<string>, last: string)
    ensures Joined(pieces + [last]) == JoinDetails(Joined(pieces), last)
    ensures (forall k :: 0 <= k < |pieces| ==> pieces[k] == "") ==> Joined(pieces) == ""
  {
    if pieces == [] {
      assert Joined([last]) == last by { assert [last][1..] == []; }
    } else {
      JoinedLast(pieces[1..], last);
      assert (pieces + [last])[1..] == pieces[1..] + [last];
    }
  }

  /** Whether each write of a pass was confirmed, and what its read-back said. */
  function Reports<W>(reg: Registry<W>, h: Digest, spec: Spec, steps: seq<Step>, inputs: Values, ctx: Context,
                      proposals: map<string, R.Diff>, merged: R.Diff, states: seq<State<W>>): (r: (seq<bool>, seq<string>))
    requires |states| == |steps| + 1
    ensures |r.0| == |r.1|
    decreases |steps|
  {
    if steps == [] then ([], [])
    else
      var (n, s) := (|steps| - 1, steps[|steps| - 1]);
      var before := Reports(reg, h, spec, steps[..n], inputs, ctx, proposals, merged, states[..|steps|]);
      var slice := Slice(s, proposals, merged);
      if s.mode != Write || slice.None? || s.capability !in reg then before
      else
        var e := Execute(h, spec, s, inputs, ctx, reg[s.capability], Some((slice.value, h(slice.value))), states[n]).1;
        if e.Written? then (before.0 + [e.verified], before.1 + [e.detail]) else before
  }

  ghost predicate All(confirmed: seq<bool>) { forall k :: 0 <= k < |confirmed| ==> confirmed[k] }

  lemma AllLast(confirmed: seq<bool>, last: bool)
    ensures All(confirmed + [last]) <==> All(confirmed) && last
  {
    if All(confirmed + [last]) {
      assert (confirmed + [last])[|confirmed|];
      forall k | 0 <= k < |confirmed| ensures confirmed[k] { assert (confirmed + [last])[k]; }
    }
  }

  /** A pass whose writes were all made reports them verified exactly when every one was confirmed,
      with everything their read-backs said, in plan order. */
  lemma {:induction false} ReportIs<W>(reg: Registry<W>, h: Digest, spec: Spec, steps: seq<Step>, inputs: Values, ctx: Context,
                                       proposals: map<string, R.Diff>, merged: R.Diff, states: seq<State<W>>)
    requires |states| == |steps| + 1 && WritesAll(reg, h, spec, steps, inputs, ctx, proposals, merged, states)
    ensures var q := SecondPass(reg, h, spec, steps, inputs, ctx, proposals, merged, states[0]);
      var (confirmed, details) := Reports(reg, h, spec, steps, inputs, ctx, proposals, merged, states);
      q.written == if confirmed == [] then None else Some((All(confirmed), Joined(details)))
  {
    hide Execute, Slice, BoundTo, Joined, JoinDetails, All, WritesAll;
    if steps != [] {
      var (front, s) := (steps[..|steps| - 1], steps[|steps| - 1]);
      WritingPrefix(reg, h, spec, steps, inputs, ctx, proposals, merged, states);
      ReportIs(reg, h, spec, front, inputs, ctx, proposals, merged, states[..|steps|]);
      SecondPassGoes(reg, h, spec, front, inputs, ctx, proposals, merged, states[..|steps|]);
      if s.mode == Write {
        var d :| WritesOne(reg, h, spec, s, inputs, ctx, proposals, merged, d, states[|steps| - 1], states[|steps|]);
        SliceExactly(s, proposals, merged, d);
        var (confirmed, details) := Reports(reg, h, spec, front, inputs, ctx, proposals, merged, states[..|steps|]);
        var e := Execute(h, spec, s, inputs, ctx, reg[s.capability], Some((d, h(d))), states[|steps| - 1]).1;
        AllLast(confirmed, e.verified);
        JoinedLast(details, e.detail);
        if confirmed == [] {
          assert confirmed + [e.verified] == [e.verified] && details + [e.detail] == [e.detail];
          FirstReport(e.verified, e.detail);
        }
      }
    }
  }

  lemma FirstReport(verified: bool, detail: string)
    ensures All([]) && Joined([]) == "" && All([verified]) == verified && Joined([detail]) == detail
  {
    assert [verified][0] == verified;
    assert [detail][1..] == [];
  }

  /** A first pass that succeeds counts every step that is not a write. */
  lemma {:induction false} StepsCounted<W>(reg: Registry<W>, h: Digest, spec: Spec, steps: seq<Step>, inputs: Values, ctx: Context, st: State<W>)
    ensures var p := FirstPass(reg, h, spec, steps, inputs, ctx, st);
      p.failure.None? ==> p.stepsRun == |steps| - |WriteSteps(steps)|
  {
    hide Execute;
    if steps != [] { StepsCounted(reg, h, spec, steps[..|steps| - 1], inputs, ctx, st); }
  }

  /** How many records the reads of a pass answered. */
  function RecordsAnswered<W>(reg: Registry<W>, h: Digest, spec: Spec, steps: seq<Step>, inputs: Values, ctx: Context, states: seq<State<W>>): nat
    requires |states| == |steps| + 1
    decreases |steps|
  {
    if steps == [] then 0
    else
      var (n, s) := (|steps| - 1, steps[|steps| - 1]);
      RecordsAnswered(reg, h, spec, steps[..n], inputs, ctx, states[..|steps|])
      + if s.mode == Write || s.capability !in reg then 0
        else match Execute(h, spec, s, inputs, ctx, reg[s.capability], None, states[n]).1
          case ReadDone(List(items)) => |items|
          case _ => 0
  }

  lemma {:induction false} RecordsCounted<W>(reg: Registry<W>, h: Digest, spec: Spec, steps: seq<Step>, inputs: Values, ctx: Context, states: seq<State<W>>)
    requires |states| == |steps| + 1 && ProposesAll(reg, h, spec, steps, inputs, ctx, states)
    ensures FirstPass(reg, h, spec, steps, inputs, ctx, states[0]).recordsRead == RecordsAnswered(reg, h, spec, steps, inputs, ctx, states)
  {
    hide Execute, ProposesAll, MergeDiffs;
    if steps != [] {
      ProposesPrefix(reg, h, spec, steps, inputs, ctx, states);
      RecordsCounted(reg, h, spec, steps[..|steps| - 1], inputs, ctx, states[..|steps|]);
      FirstPassGoes(reg, h, spec, steps[..|steps| - 1], inputs, ctx, states[..|steps|]);
    }
  }

  // ---- what a runtime lacks ----

  /** The first thing in the way of executing a step. */
  function Lacks<W>(catalog: set<string>, reg: Registry<W>, unmet: Unmet, s: Step): Gap
    requires !Executable(catalog, reg, unmet, s)
  {
    if s.capability !in catalog then NotInCatalog(s.stepId)
    else if s.capability !in reg then NoAdapter(s.stepId)
    else match (s.mode, reg[s.capability])
      case (Read, Adapter(None, _, _, _)) => ModeUnsupported(s.stepId)
      case (ProposeWrite, Adapter(_, None, _, _)) => ModeUnsupported(s.stepId)
      case (Write, Adapter(_, _, None, _)) => ModeUnsupported(s.stepId)
      case _ => PrerequisiteUnmet(s.stepId, unmet[s.capability])
  }

  function Lacking<W>(catalog: set<string>, reg: Registry<W>, unmet: Unmet, steps: seq<Step>): nat {
    if steps == [] then 0
    else Lacking(catalog, reg, unmet, steps[..|steps| - 1]) + if Executable(catalog, reg, unmet, steps[|steps| - 1]) then 0 else 1
  }

  /** The gaps are the first thing in the way of each step that cannot be executed, in order. */
  lemma {:induction false} GapsListed<W>(catalog: set<string>, reg: Registry<W>, unmet: Unmet, steps: seq<Step>, k: nat)
    requires k < |steps|
    ensures |Gaps(catalog, reg, unmet, steps)| == Lacking(catalog, reg, unmet, steps)
    ensures !Executable(catalog, reg, unmet, steps[k]) ==>
      && Lacking(catalog, reg, unmet, steps[..k]) < Lacking(catalog, reg, unmet, steps)
      && Gaps(catalog, reg, unmet, steps)[Lacking(catalog, reg, unmet, steps[..k])] == Lacks(catalog, reg, unmet, steps[k])
  {
    hide Executable, GapOf, Lacks;
    var (front, n) := (steps[..|steps| - 1], |steps| - 1);
    GapIs(catalog, reg, unmet, steps[n]);
    if k < n {
      assert front[k] == steps[k] && front[..k] == steps[..k];
      GapsListed(catalog, reg, unmet, front, k);
    } else {
      if n > 0 { GapsListed(catalog, reg, unmet, front, 0); }
    }
  }

  lemma GapIs<W>(catalog: set<string>, reg: Registry<W>, unmet: Unmet, s: Step)
    ensures GapOf(catalog, reg, unmet, s) == if Executable(catalog, reg, unmet, s) then [] else [Lacks(catalog, reg, unmet, s)]
  {
  }

  // ---- keys across runs ----

  /** Two writes share a key only when they are of one run, agent version, step and hash. */
  lemma KeysName(c: Context, d: Context, f: Spec, g: Spec, s: Step, t: Step, hs: string, ht: string)
    requires ':' !in c.runId && ':' !in d.runId && ':' !in f.versionId && ':' !in g.versionId && ':' !in hs && ':' !in ht
    requires IdempotencyKey(c, f, s, hs) == IdempotencyKey(d, g, t, ht)
    ensures c.runId == d.runId && f.versionId == g.versionId && s.stepId == t.stepId && hs == ht
    ensures s.version >= 0 && t.version >= 0 ==> s.version == t.version
  {
    var vs, vt := Decimal(if s.version < 0 then 0 else s.version), Decimal(if t.version < 0 then 0 else t.version);
    assert ':' !in vs && ':' !in vt;
    var (a, b) := (c.runId + ":" + f.versionId + ":" + s.stepId, d.runId + ":" + g.versionId + ":" + t.stepId);
    LastPiece(a + ":" + vs, b + ":" + vt, hs, ht, ':');
    LastPiece(a, b, vs, vt, ':');
    if s.version >= 0 && t.version >= 0 { DecimalInjective(s.version, t.version); }
    assert a == c.runId + [':'] + (f.versionId + ":" + s.stepId) && b == d.runId + [':'] + (g.versionId + ":" + t.stepId);
    SplitOnceAt(c.runId, ':', f.versionId + ":" + s.stepId);
    SplitOnceAt(d.runId, ':', g.versionId + ":" + t.stepId);
    SplitOnceAt(f.versionId, ':', s.stepId);
    SplitOnceAt(g.versionId, ':', t.stepId);
    assert f.versionId + ":" + s.stepId == f.versionId + [':'] + s.stepId && g.versionId + ":" + t.stepId == g.versionId + [':'] + t.stepId;
  }
}
