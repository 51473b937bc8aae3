/** The durable run: one sequential body and its signal handlers, interleaved at every await. */
module Workflow {
  import opened Text
  import opened AgentSpec
  import AgentInputs
  import R = Reconciliation

  datatype Input = Input(spec: Spec, shadow: bool, inputs: Values)

  function Plan(p: Input): (r: seq<Step>)
    ensures |r| == |p.spec.steps|
  { ByOrder(p.spec.steps) }

  datatype Result = Completed | CompletedWithWarnings | Failed | Cancelled | Expired | PolicyBlocked

  /** Where the body waits: for an activity, for a decision, or for nothing any more. */
  datatype Pc =
    | RecordValidating | Policy
    | RecordRunning(i: nat) | ReadStep(i: nat) | RecordFailedRead(i: nat) | RecordRead(i: nat)
    | RecordSkipped(i: nat)
    | RecordWaiting(i: nat) | CreateApproval(i: nat) | Decision(i: nat)
    | Recheck(i: nat) | RecordApplying(i: nat) | WriteStep(i: nat) | RecordVerifying(i: nat, verified: Option<bool>) | RecordWrite(i: nat)
    | Finalize(result: Result) | Closed(result: Result)
    | Broken

  datatype State = State(
    pc: Pc, pending: Option<(string, string)>, approved: bool, rejected: bool, cancelled: bool,
    lastSha: Option<string>, lastDiff: Option<R.Diff>, proposedChanges: nat, completedWrites: nat, warnings: bool)

  /** What an activity answers. */
  datatype Reply =
    | Ack
    | PolicyDecision(deny: bool)
    | StepResult(failed: bool, sha: string, diff: Option<R.Diff>, changeCount: nat, verified: Option<bool>)

  datatype Event =
    | Answer(reply: Reply)          // the awaited activity completes
    | Throw                         // the awaited activity fails for good
    | Approve(stepId: string, sha: string) | Reject(stepId: string) | Cancel
    | Wake                          // the decision condition holds and the body resumes
    | Timeout                       // the decision timer fires

  function Init(): State { State(RecordValidating, None, false, false, false, None, None, 0, 0, false) }

  function Finish(s: State, r: Result): State { s.(pc := Finalize(r)) }

  /** The head of the loop, for position i of the plan, up to the next await. */
  function Enter(p: Input, s: State, i: nat): State {
    if i >= |Plan(p)| then Finish(s, if s.warnings then CompletedWithWarnings else Completed)
    else if s.cancelled then Finish(s, Cancelled)
    else
      var step := Plan(p)[i];
      if step.mode != Write then s.(pc := RecordRunning(i))
      else if p.shadow then s.(pc := RecordSkipped(i))
      else if s.lastSha.None? then Finish(s, Failed)
      else if step.approvalRequired then
        s.(pc := RecordWaiting(i), pending := Some((step.stepId, s.lastSha.value)), approved := false, rejected := false)
      else s.(pc := Recheck(i))
  }

  predicate Proposing(r: Reply) { r.StepResult? && !r.failed && r.sha != "" }

  function OnStepResult(s: State, r: Reply): State
    requires s.pc.ReadStep? && r.StepResult?
  {
    if r.failed then s.(pc := RecordFailedRead(s.pc.i))
    else if r.sha != "" then
      s.(pc := RecordRead(s.pc.i), lastSha := Some(r.sha), lastDiff := r.diff, proposedChanges := s.proposedChanges + r.changeCount)
    else s.(pc := RecordRead(s.pc.i))
  }

  /** Where an acknowledgement leads, when it does not end a turn of the loop. */
  function AfterAck(pc: Pc): Pc {
    match pc
    case RecordValidating => Policy
    case RecordRunning(i) => ReadStep(i)
    case RecordFailedRead(_) => Finalize(Failed)
    case RecordWaiting(i) => CreateApproval(i)
    case CreateApproval(i) => Decision(i)
    case RecordApplying(i) => WriteStep(i)
    case Finalize(r) => Closed(r)
    case _ => pc
  }

  function OnAck(p: Input, s: State): State {
    match s.pc
    case RecordRead(i) => Enter(p, s, i + 1)
    case RecordSkipped(i) => Enter(p, s, i + 1)
    case RecordWrite(i) => Enter(p, s, i + 1)
    case RecordVerifying(i, verified) =>
      s.(pc := RecordWrite(i), completedWrites := s.completedWrites + 1, warnings := s.warnings || verified == Some(false))
    case _ => s.(pc := AfterAck(s.pc))
  }

  function OnAnswer(p: Input, s: State, r: Reply): State {
    match r
    case Ack => OnAck(p, s)
    case PolicyDecision(deny) =>
      if s.pc.Policy? then
        if deny then Finish(s, PolicyBlocked)
        else if AgentInputs.Missing(p.spec.inputs, p.inputs) != [] then Finish(s, Failed)
        else Enter(p, s, 0)
      else if s.pc.Recheck? then (if deny then Finish(s, PolicyBlocked) else s.(pc := RecordApplying(s.pc.i)))
      else s
    case StepResult(failed, _, _, _, verified) =>
      if s.pc.ReadStep? then OnStepResult(s, r)
      else if s.pc.WriteStep? then (if failed then Finish(s, Failed) else s.(pc := RecordVerifying(s.pc.i, verified)))
      else s
  }

  predicate Decidable(s: State) { s.approved || s.rejected || s.cancelled }

  /** The body resumes from the decision. */
  function Resume(s: State): State
    requires s.pc.Decision?
  {
    var t := s.(pending := None);
    if s.cancelled || s.rejected then Finish(t, Cancelled) else t.(pc := Recheck(s.pc.i))
  }

  function Next(p: Input, s: State, e: Event): State {
    match e
    case Answer(r) => OnAnswer(p, s, r)
    case Throw =>
      if s.pc.ReadStep? || s.pc.WriteStep? then Finish(s, Failed)
      else if s.pc.Decision? || s.pc.Closed? then s
      else s.(pc := Broken)
    case Approve(stepId, sha) => if s.pending == Some((stepId, sha)) then s.(approved := true) else s
    case Reject(stepId) => if s.pending.Some? && s.pending.value.0 == stepId then s.(rejected := true) else s
    case Cancel => s.(cancelled := true)
    case Wake => if s.pc.Decision? && Decidable(s) then Resume(s) else s
    case Timeout => if s.pc.Decision? then Finish(s.(pending := None), Expired) else s
  }

  /** The state after the first n events. */
  function At(p: Input, es: seq<Event>, n: nat): State
    requires n <= |es|
  { if n == 0 then Init() else Next(p, At(p, es, n - 1), es[n - 1]) }

  /** The workflow object: its variables, and the code that runs when something arrives. */
  class AgentRun {
    const p: Input
    var pc: Pc
    var pending: Option<(string, string)>
    var approved: bool
    var rejected: bool
    var cancelled: bool
    var lastSha: Option<string>
    var lastDiff: Option<R.Diff>
    var proposedChanges: nat
    var completedWrites: nat
    var warnings: bool

    function Now(): State
      reads this
    { State(pc, pending, approved, rejected, cancelled, lastSha, lastDiff, proposedChanges, completedWrites, warnings) }

    constructor (p: Input)
      ensures this.p == p && Now() == Init()
    {
      this.p, pc, pending := p, RecordValidating, None;
      approved, rejected, cancelled, lastSha, lastDiff := false, false, false, None, None;
      proposedChanges, completedWrites, warnings := 0, 0, false;
    }

    method OnApprove(stepId: string, sha: string)
      modifies this
      ensures Now() == Next(p, old(Now()), Approve(stepId, sha))
    { if pending.Some? && stepId == pending.value.0 && sha == pending.value.1 { approved := true; } }

    method OnReject(stepId: string)
      modifies this
      ensures Now() == Next(p, old(Now()), Reject(stepId))
    { if pending.Some? && stepId == pending.value.0 { rejected := true; } }

    method OnCancel()
      modifies this
      ensures Now() == Next(p, old(Now()), Cancel)
    { cancelled := true; }

    /** The loop head: everything up to the next await. */
    method RunTo(i: nat)
      modifies this
      ensures Now() == Enter(p, old(Now()), i)
    {
      hide ByOrder;
      if i >= |Plan(p)| { pc := Finalize(if warnings then CompletedWithWarnings else Completed); return; }
      if cancelled { pc := Finalize(Cancelled); return; }
      var step := Plan(p)[i];
      if step.mode != Write { pc := RecordRunning(i); return; }
      if p.shadow { pc := RecordSkipped(i); return; }
      if lastSha.None? { pc := Finalize(Failed); return; }
      if step.approvalRequired {
        pending := Some((step.stepId, lastSha.value));
        approved, rejected := false, false;
        pc := RecordWaiting(i);
      } else {
        pc := Recheck(i);
      }
    }

    method OnAcknowledged()
      modifies this
      ensures Now() == Next(p, old(Now()), Answer(Ack))
    {
      hide Enter;
      match pc
      case RecordValidating => pc := Policy;
      case RecordRunning(i) => pc := ReadStep(i);
      case RecordFailedRead(_) => pc := Finalize(Failed);
      case RecordRead(i) => RunTo(i + 1);
      case RecordSkipped(i) => RunTo(i + 1);
      case RecordWaiting(i) => pc := CreateApproval(i);
      case CreateApproval(i) => pc := Decision(i);
      case RecordApplying(i) => pc := WriteStep(i);
      case RecordVerifying(i, verified) =>
        completedWrites := completedWrites + 1;
        if verified == Some(false) { warnings := true; }
        pc := RecordWrite(i);
      case RecordWrite(i) => RunTo(i + 1);
      case Finalize(r) => pc := Closed(r);
      case _ =>
    }

    method OnPolicy(deny: bool)
      modifies this
      ensures Now() == Next(p, old(Now()), Answer(PolicyDecision(deny)))
    {
      hide Enter;
      if pc.Policy? {
        if deny { pc := Finalize(PolicyBlocked); return; }
        var missing := AgentInputs.ValidateAgentInputs(p.spec, p.inputs);
        if missing != [] { pc := Finalize(Failed); return; }
        RunTo(0);
      } else if pc.Recheck? {
        pc := if deny then Finalize(PolicyBlocked) else RecordApplying(pc.i);
      }
    }

    method OnResult(failed: bool, sha: string, diff: Option<R.Diff>, changeCount: nat, verified: Option<bool>)
      modifies this
      ensures Now() == Next(p, old(Now()), Answer(StepResult(failed, sha, diff, changeCount, verified)))
    {
      if pc.ReadStep? {
        if failed { pc := RecordFailedRead(pc.i); return; }
        if sha != "" {
          lastSha, lastDiff := Some(sha), diff;
          proposedChanges := proposedChanges + changeCount;
        }
        pc := RecordRead(pc.i);
      } else if pc.WriteStep? {
        pc := if failed then Finalize(Failed) else RecordVerifying(pc.i, verified);
      }
    }

    method OnThrow()
      modifies this
      ensures Now() == Next(p, old(Now()), Throw)
    {
      if pc.ReadStep? || pc.WriteStep? { pc := Finalize(Failed); }
      else if !pc.Decision? && !pc.Closed? { pc := Broken; }
    }

    /** The condition resolved: true when something was decided, false when the timer fired. */
    method OnDecision(decided: bool)
      modifies this
      ensures Now() == Next(p, old(Now()), if decided then Wake else Timeout)
    {
      if !pc.Decision? || (decided && !approved && !rejected && !cancelled) { return; }
      pending := None;
      if !decided { pc := Finalize(Expired); return; }
      if cancelled { pc := Finalize(Cancelled); return; }
      if rejected { pc := Finalize(Cancelled); return; }
      pc := Recheck(pc.i);
    }
  }
}
