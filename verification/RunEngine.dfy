/** The step executor: inputs resolved, one mode dispatched, writes bound to a diff hash. */
module RunEngine {
  import opened Text
  import opened AgentSpec
  import R = Reconciliation

  datatype RunMode = Shadow | Supervised | Active

  datatype Context = Context(runId: string, organizationId: string, ownerId: string, mode: RunMode)

  /** An answer or a thrown error; only transient errors are retried. */
  datatype Reply<T> = Ok(value: T) | Threw(transient: bool, message: string)

  datatype Verification = Verification(verified: bool, detail: string)

  /** Capability implementations over the outside world `W`; each call may change it. */
  datatype Adapter<!W> = Adapter(
    read: Option<(Values, Context, W) -> (W, Reply<Value>)>,
    propose: Option<(Values, Context, W) -> (W, Reply<R.Diff>)>,
    write: Option<(Values, R.Diff, Context, string, W) -> (W, Reply<Value>)>,
    verify: Option<(Values, Value, Context, W) -> (W, Reply<Verification>)>)

  /** Every call that reached an adapter. */
  datatype Call =
    | ReadCall(stepId: string)
    | ProposeCall(stepId: string)
    | WriteCall(stepId: string, diff: R.Diff, key: string)
    | VerifyCall(stepId: string, confirmed: bool)

  datatype State<!W> = State(world: W, outputs: Values, log: seq<Call>)

  type Digest = R.Diff -> string

  datatype Execution =
    | ReadDone(output: Value)
    | Proposed(diff: R.Diff)
    | Written(output: Value, key: string, verified: bool, detail: string)
    | SkippedShadowWrite
    | Failed(message: string)

  // ---- inputs ----

  predicate RequiredInput(spec: Spec, key: string) { exists i :: 0 <= i < |spec.inputs| && spec.inputs[i].key == key && spec.inputs[i].required }

  function Resolve1(b: Binding, outputs: Values, agentInputs: Values): Value {
    match b
    case Constant(l) => LiteralValue(l)
    case StepOutput(ref) => Get(outputs, ref)
    case AgentInput(ref) => Get(agentInputs, ref)
  }

  predicate Unsupplied(spec: Spec, b: Binding, agentInputs: Values) {
    b.AgentInput? && Get(agentInputs, b.ref) == Undefined && RequiredInput(spec, b.ref)
  }

  /** The inputs of the first n bindings, or the throw of the first one whose required input
      nobody supplied. */
  function Resolve(spec: Spec, s: Step, n: nat, outputs: Values, agentInputs: Values): Reply<Values>
    requires n <= |s.inputs|
  {
    if n == 0 then Ok(map[])
    else
      var front := Resolve(spec, s, n - 1, outputs, agentInputs);
      var (name, b) := s.inputs[n - 1];
      if front.Threw? then front
      else if Unsupplied(spec, b, agentInputs) then Threw(false, "input not supplied: " + b.ref)
      else Ok(front.value[name := Resolve1(b, outputs, agentInputs)])
  }

  /** `resolveStepInputs`. */
  method ResolveStepInputs(spec: Spec, s: Step, outputs: Values, agentInputs: Values) returns (r: Reply<Values>)
    ensures r == Resolve(spec, s, |s.inputs|, outputs, agentInputs)
  {
    var resolved: Values := map[];
    var i := 0;
    while i < |s.inputs|
      invariant i <= |s.inputs| && Resolve(spec, s, i, outputs, agentInputs) == Ok(resolved)
    {
      var name, binding := s.inputs[i].0, s.inputs[i].1;
      if binding.Constant? { resolved := resolved[name := LiteralValue(binding.value)]; }
      if binding.StepOutput? { resolved := resolved[name := Get(outputs, binding.ref)]; }
      if binding.AgentInput? {
        var value := Get(agentInputs, binding.ref);
        if value == Undefined && RequiredInput(spec, binding.ref) {
          ThrowStays(spec, s, i + 1, outputs, agentInputs);
          return Threw(false, "input not supplied: " + binding.ref);
        }
        resolved := resolved[name := value];
      }
      i := i + 1;
    }
    return Ok(resolved);
  }

  lemma {:induction false} ThrowStays(spec: Spec, s: Step, n: nat, outputs: Values, agentInputs: Values)
    requires n <= |s.inputs| && Resolve(spec, s, n, outputs, agentInputs).Threw?
    ensures Resolve(spec, s, |s.inputs|, outputs, agentInputs) == Resolve(spec, s, n, outputs, agentInputs)
    decreases |s.inputs| - n
  {
    if n < |s.inputs| { ThrowStays(spec, s, n + 1, outputs, agentInputs); }
  }

  // ---- attempts ----

  /** The call repeated while it throws transient errors, at most n times. */
  function Attempts<W, T>(n: nat, call: W -> (W, Reply<T>), w: W): (W, Reply<T>, nat)
    requires n > 0
  {
    var (w', r) := call(w);
    if r.Threw? && r.transient && n > 1 then
      var (w'', r', k) := Attempts(n - 1, call, w');
      (w'', r', k + 1)
    else (w', r, 1)
  }

  function MaxAttempts(s: Step): (n: nat)
    ensures n > 0
  { if s.retryAllowed && s.maxAttempts > 1 then s.maxAttempts else 1 }

  function Repeat(c: Call, n: nat): (r: seq<Call>)
    ensures |r| == n && forall i :: 0 <= i < n ==> r[i] == c
  { if n == 0 then [] else Repeat(c, n - 1) + [c] }

  // ---- one step ----

  /** Run, agent version, step, capability version and diff hash. */
  function IdempotencyKey(ctx: Context, spec: Spec, s: Step, hash: string): string {
    ctx.runId + ":" + spec.versionId + ":" + s.stepId + ":" + Decimal(if s.version < 0 then 0 else s.version) + ":" + hash
  }

  function RunRead<W>(s: Step, inputs: Values, ctx: Context, a: Adapter<W>, st: State<W>): (State<W>, Execution) {
    if a.read.None? then (st, Failed("no read implementation"))
    else
      var (w, r, n) := Attempts(MaxAttempts(s), (x: W) => a.read.value(inputs, ctx, x), st.world);
      var log := st.log + Repeat(ReadCall(s.stepId), n);
      match r
      case Ok(v) => (State(w, st.outputs[s.outputKey := v], log), ReadDone(v))
      case Threw(_, m) => (State(w, st.outputs, log), Failed(m))
  }

  function RunPropose<W>(s: Step, inputs: Values, ctx: Context, a: Adapter<W>, st: State<W>): (State<W>, Execution) {
    if a.propose.None? then (st, Failed("no proposeWrite implementation"))
    else
      var (w, r, n) := Attempts(MaxAttempts(s), (x: W) => a.propose.value(inputs, ctx, x), st.world);
      var log := st.log + Repeat(ProposeCall(s.stepId), n);
      match r
      case Ok(d) => (State(w, st.outputs[s.outputKey := Proposal(d)], log), Proposed(d))
      case Threw(_, m) => (State(w, st.outputs, log), Failed(m))
  }

  /** One attempt, never retried, then an independent read if the adapter has one. */
  function Dispatch<W>(s: Step, inputs: Values, ctx: Context, a: Adapter<W>, diff: R.Diff, key: string, st: State<W>): (State<W>, Execution)
    requires a.write.Some?
  {
    var (w, r) := a.write.value(inputs, diff, ctx, key, st.world);
    var log := st.log + [WriteCall(s.stepId, diff, key)];
    match r
    case Threw(_, m) => (State(w, st.outputs, log), Failed(m))
    case Ok(output) =>
      var outputs := st.outputs[s.outputKey := output];
      if a.verify.None? then (State(w, outputs, log), Written(output, key, false, "no verifier"))
      else
        var (w', v) := a.verify.value(inputs, output, ctx, w);
        var done := State(w', outputs, log + [VerifyCall(s.stepId, v.Ok? && v.value.verified)]);
        match v
        case Threw(_, m) => (done, Failed(m))
        case Ok(check) => (done, Written(output, key, check.verified, check.detail))
  }

  function RunWrite<W>(h: Digest, spec: Spec, s: Step, inputs: Values, ctx: Context, a: Adapter<W>,
                     approved: Option<(R.Diff, string)>, st: State<W>): (State<W>, Execution)
  {
    if ctx.mode == Shadow then (st, SkippedShadowWrite)
    else if a.write.None? then (st, Failed("no write implementation"))
    else if approved.None? || approved.value.1 == "" then (st, Failed("reached execution without an approved diff"))
    else if h(approved.value.0) != approved.value.1 then (st, Failed("approved diff hash mismatch"))
    else Dispatch(s, inputs, ctx, a, approved.value.0, IdempotencyKey(ctx, spec, s, approved.value.1), st)
  }

  /** `executeStep` as a function of the world. */
  function Execute<W>(h: Digest, spec: Spec, s: Step, agentInputs: Values, ctx: Context, a: Adapter<W>,
                      approved: Option<(R.Diff, string)>, st: State<W>): (State<W>, Execution)
  {
    match Resolve(spec, s, |s.inputs|, st.outputs, agentInputs)
    case Threw(_, m) => (st, Failed(m))
    case Ok(inputs) =>
      match s.mode
      case Read => RunRead(s, inputs, ctx, a, st)
      case ProposeWrite => RunPropose(s, inputs, ctx, a, st)
      case Write => RunWrite(h, spec, s, inputs, ctx, a, approved, st)
  }

  // ---- the executor over mutable state ----

  /** The run state of one run, the world its adapters act on, and the calls made so far. */
  class Run<W> {
    var world: W
    var outputs: Values
    ghost var log: seq<Call>

    constructor (world: W)
      ensures this.world == world && outputs == map[] && log == []
    { this.world, outputs, log := world, map[], []; }

    ghost function Now(): State<W>
      reads this
    { State(world, outputs, log) }

    /** Calls until something other than a transient error comes back, or attempts run out. */
    method Attempt<T>(n: nat, call: W -> (W, Reply<T>)) returns (r: Reply<T>, ghost tries: nat)
      requires n > 0
      modifies `world
      ensures (world, r, tries) == Attempts(n, call, old(world))
    {
      var reply := call(world);
      world, r := reply.0, reply.1;
      tries := 1;
      var i := 1;
      while i < n && r.Threw? && r.transient
        invariant 1 <= i <= n && tries == i
        invariant i == n || !(r.Threw? && r.transient) ==> Attempts(n, call, old(world)) == (world, r, i)
        invariant i < n && r.Threw? && r.transient ==>
                  var rest := Attempts(n - i, call, world); Attempts(n, call, old(world)) == (rest.0, rest.1, rest.2 + i)
      {
        reply := call(world);
        world, r := reply.0, reply.1;
        i, tries := i + 1, tries + 1;
      }
    }

    /** `executeStep`. */
    method ExecuteStep(h: Digest, spec: Spec, s: Step, agentInputs: Values, ctx: Context, a: Adapter<W>,
                       approved: Option<(R.Diff, string)>) returns (e: Execution)
      modifies this
      ensures (Now(), e) == Execute(h, spec, s, agentInputs, ctx, a, approved, old(Now()))
    {
      hide Resolve, IdempotencyKey, Attempts, MaxAttempts;
      var resolved := ResolveStepInputs(spec, s, outputs, agentInputs);
      if resolved.Threw? { return Failed(resolved.message); }
      var inputs := resolved.value;
      if s.mode == Read {
        if a.read.None? { return Failed("no read implementation"); }
        var r, tries := Attempt(MaxAttempts(s), (x: W) => a.read.value(inputs, ctx, x));
        log := log + Repeat(ReadCall(s.stepId), tries);
        if r.Threw? { return Failed(r.message); }
        outputs := outputs[s.outputKey := r.value];
        return ReadDone(r.value);
      }
      if s.mode == ProposeWrite {
        if a.propose.None? { return Failed("no proposeWrite implementation"); }
        var r, tries := Attempt(MaxAttempts(s), (x: W) => a.propose.value(inputs, ctx, x));
        log := log + Repeat(ProposeCall(s.stepId), tries);
        if r.Threw? { return Failed(r.message); }
        outputs := outputs[s.outputKey := Proposal(r.value)];
        return Proposed(r.value);
      }
      if ctx.mode == Shadow { return SkippedShadowWrite; }
      if a.write.None? { return Failed("no write implementation"); }
      if approved.None? || approved.value.1 == "" { return Failed("reached execution without an approved diff"); }
      if h(approved.value.0) != approved.value.1 { return Failed("approved diff hash mismatch"); }
      var key := IdempotencyKey(ctx, spec, s, approved.value.1);
      var written := a.write.value(inputs, approved.value.0, ctx, key, world);
      world := written.0;
      log := log + [WriteCall(s.stepId, approved.value.0, key)];
      if written.1.Threw? { return Failed(written.1.message); }
      var output := written.1.value;
      outputs := outputs[s.outputKey := output];
      if a.verify.None? { return Written(output, key, false, "no verifier"); }
      var checked := a.verify.value(inputs, output, ctx, world);
      world := checked.0;
      log := log + [VerifyCall(s.stepId, checked.1.Ok? && checked.1.value.verified)];
      if checked.1.Threw? { return Failed(checked.1.message); }
      return Written(output, key, checked.1.value.verified, checked.1.value.detail);
    }
  }

  // ---- facts about one step ----

  /** With every required input answered, resolving inputs never throws. */
  lemma {:induction false} NeverThrows(spec: Spec, s: Step, n: nat, outputs: Values, agentInputs: Values)
    requires n <= |s.inputs|
    requires forall i :: 0 <= i < |spec.inputs| && spec.inputs[i].required ==> Get(agentInputs, spec.inputs[i].key) != Undefined
    ensures Resolve(spec, s, n, outputs, agentInputs).Ok?
  {
    if n > 0 { NeverThrows(spec, s, n - 1, outputs, agentInputs); }
  }

  /** The value a declared input must resolve to. */
  ghost predicate ResolvesTo(b: Binding, v: Value, outputs: Values, agentInputs: Values) {
    match b
    case Constant(Words(w)) => v == Str(w)
    case Constant(Quantity(n)) => v == Number(n)
    case Constant(Flag(t)) => v == Bool(t)
    case StepOutput(ref) => v == Get(outputs, ref)
    case AgentInput(ref) => v == Get(agentInputs, ref)
  }

  ghost predicate Declares(s: Step, n: nat, name: string)
    requires n <= |s.inputs|
  { exists i :: 0 <= i < n && s.inputs[i].0 == name }

  lemma {:induction false} ResolvedNames(spec: Spec, s: Step, n: nat, outputs: Values, agentInputs: Values, name: string)
    requires n <= |s.inputs| && Resolve(spec, s, n, outputs, agentInputs).Ok?
    ensures name in Resolve(spec, s, n, outputs, agentInputs).value <==> Declares(s, n, name)
  {
    hide Resolve1, Unsupplied;
    if n > 0 { ResolvedNames(spec, s, n - 1, outputs, agentInputs, name); }
  }

  /** The resolved record holds, under every declared name and no other, the literal itself, the
      output of the step referred to, or the agent input. */
  lemma {:induction false} ResolvedInputs(spec: Spec, s: Step, n: nat, outputs: Values, agentInputs: Values, i: nat)
    requires i < n <= |s.inputs| && Resolve(spec, s, n, outputs, agentInputs).Ok?
    requires forall j, k :: 0 <= j < k < n ==> s.inputs[j].0 != s.inputs[k].0
    ensures var m := Resolve(spec, s, n, outputs, agentInputs).value;
      && (forall name :: name in m <==> Declares(s, n, name))
      && s.inputs[i].0 in m && ResolvesTo(s.inputs[i].1, m[s.inputs[i].0], outputs, agentInputs)
  {
    forall name { ResolvedNames(spec, s, n, outputs, agentInputs, name); }
    hide Unsupplied, Declares;
    if i < n - 1 { ResolvedInputs(spec, s, n - 1, outputs, agentInputs, i); }
  }

  function Since(before: seq<Call>, after: seq<Call>): seq<Call>
    requires before <= after
  { after[|before|..] }

  ghost predicate NoWrites(log: seq<Call>) { forall i :: 0 <= i < |log| ==> !log[i].WriteCall? }

  /** A step that is not a write calls its own read or propose implementation, at least once
      when it succeeds, and never anything else. */
  lemma NonWriteCalls<W>(h: Digest, spec: Spec, s: Step, inputs: Values, ctx: Context, a: Adapter<W>,
                         approved: Option<(R.Diff, string)>, st: State<W>)
    requires s.mode != Write
    ensures var (st', e) := Execute(h, spec, s, inputs, ctx, a, approved, st);
      && st.log <= st'.log
      && (forall i :: |st.log| <= i < |st'.log| ==> st'.log[i] == if s.mode == Read then ReadCall(s.stepId) else ProposeCall(s.stepId))
      && (!e.Failed? ==> |st'.log| > |st.log| && (e.ReadDone? <==> s.mode == Read) && (e.Proposed? <==> s.mode == ProposeWrite)
                         && st'.outputs == st.outputs[s.outputKey := if e.ReadDone? then e.output else Proposal(e.diff)])
  {
    hide Resolve, Attempts;
    match Resolve(spec, s, |s.inputs|, st.outputs, inputs)
    case Threw(_, m) =>
    case Ok(resolved) =>
      if s.mode == Read && a.read.Some? {
        AttemptsPositive(MaxAttempts(s), (x: W) => a.read.value(resolved, ctx, x), st.world);
      } else if s.mode == ProposeWrite && a.propose.Some? {
        AttemptsPositive(MaxAttempts(s), (x: W) => a.propose.value(resolved, ctx, x), st.world);
      }
  }

  /** At most the allowed attempts, and only transient errors lead to another one. */
  lemma {:induction false} AttemptsPositive<W, T>(n: nat, call: W -> (W, Reply<T>), w: W)
    requires n > 0
    ensures 1 <= Attempts(n, call, w).2 <= n
    ensures Attempts(n, call, w).2 < n ==> !(Attempts(n, call, w).1.Threw? && Attempts(n, call, w).1.transient)
  {
    var (w', r) := call(w);
    if r.Threw? && r.transient && n > 1 { AttemptsPositive(n - 1, call, w'); }
  }

  /** A write step makes at most one write call, with the diff it was given and only if that diff
      hashes to the hash it was given; then at most one verification. */
  lemma WriteCalls<W>(h: Digest, spec: Spec, s: Step, inputs: Values, ctx: Context, a: Adapter<W>, diff: R.Diff, sha: string, st: State<W>)
    requires s.mode == Write
    ensures var (st', e) := Execute(h, spec, s, inputs, ctx, a, Some((diff, sha)), st);
      var call := WriteCall(s.stepId, diff, IdempotencyKey(ctx, spec, s, sha));
      && st.log <= st'.log
      && (Since(st.log, st'.log) == []
          || (h(diff) == sha && ctx.mode != Shadow
              && (Since(st.log, st'.log) == [call] || exists b :: Since(st.log, st'.log) == [call, VerifyCall(s.stepId, b)])))
      && (e.Written? ==> Since(st.log, st'.log) == if a.verify.Some? then [call, VerifyCall(s.stepId, e.verified)] else [call])
      && (e.Written? && a.verify.None? ==> !e.verified)
      && (e.Written? ==> st'.outputs == st.outputs[s.outputKey := e.output])
  {
    hide Resolve, IdempotencyKey;
    var call := WriteCall(s.stepId, diff, IdempotencyKey(ctx, spec, s, sha));
    assert forall l: seq<Call> {:trigger l + [call]} :: (l + [call])[|l|..] == [call];
    assert forall l: seq<Call>, c: Call {:trigger l + [call] + [c]} :: (l + [call] + [c])[|l|..] == [call, c];
  }

  /** Two steps of one run never share a key unless they share step id, version and hash. */
  lemma KeysDiffer(ctx: Context, spec: Spec, s: Step, t: Step, hs: string, ht: string)
    requires ':' !in hs && ':' !in ht
    requires IdempotencyKey(ctx, spec, s, hs) == IdempotencyKey(ctx, spec, t, ht)
    ensures s.stepId == t.stepId && hs == ht
  {
    var prefix := ctx.runId + ":" + spec.versionId + ":";
    var vs, vt := Decimal(if s.version < 0 then 0 else s.version), Decimal(if t.version < 0 then 0 else t.version);
    assert ':' !in vs && ':' !in vt;
    assert IdempotencyKey(ctx, spec, s, hs) == (prefix + s.stepId + ":" + vs) + ":" + hs;
    assert IdempotencyKey(ctx, spec, t, ht) == (prefix + t.stepId + ":" + vt) + ":" + ht;
    LastPiece(prefix + s.stepId + ":" + vs, prefix + t.stepId + ":" + vt, hs, ht, ':');
    LastPiece(prefix + s.stepId, prefix + t.stepId, vs, vt, ':');
    assert s.stepId == (prefix + s.stepId)[|prefix|..] && t.stepId == (prefix + t.stepId)[|prefix|..];
  }
}
