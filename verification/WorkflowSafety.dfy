/** Safety of the durable run over every interleaving of answers, failures, signals and timers. */
module WorkflowSafety {
  import opened Text
  import opened AgentSpec
  import opened Workflow
  import AgentInputs
  import R = Reconciliation

  predicate Waiting(pc: Pc, i: nat) { pc == RecordWaiting(i) || pc == CreateApproval(i) || pc == Decision(i) }

  predicate InPlan(p: Input, i: nat) { i < |Plan(p)| }

  // ---- where the body is ----

  /** The plan position of a waiting body, if it is in the loop. */
  function Position(pc: Pc): int {
    match pc
    case RecordRunning(i) => i case ReadStep(i) => i case RecordFailedRead(i) => i case RecordRead(i) => i
    case RecordSkipped(i) => i case RecordWaiting(i) => i case CreateApproval(i) => i case Decision(i) => i
    case Recheck(i) => i case RecordApplying(i) => i case WriteStep(i) => i case RecordVerifying(i, _) => i case RecordWrite(i) => i
    case _ => -1
  }

  predicate Writing(pc: Pc) {
    pc.RecordWaiting? || pc.CreateApproval? || pc.Decision? || pc.Recheck? || pc.RecordApplying? || pc.WriteStep?
    || pc.RecordVerifying? || pc.RecordWrite?
  }

  predicate Reading(pc: Pc) { pc.RecordRunning? || pc.ReadStep? || pc.RecordFailedRead? || pc.RecordRead? }

  /** What holds at every await, whatever happened before. */
  ghost predicate Placed(p: Input, s: State) {
    && (Position(s.pc) >= 0 ==> Position(s.pc) < |Plan(p)|)
    && (Writing(s.pc) ==> !p.shadow && Plan(p)[Position(s.pc)].mode == Write && s.lastSha.Some?)
    && (s.pc.RecordSkipped? ==> p.shadow && Plan(p)[Position(s.pc)].mode == Write)
    && (Reading(s.pc) ==> Plan(p)[Position(s.pc)].mode != Write)
    && (s.pc.RecordWaiting? || s.pc.CreateApproval? || s.pc.Decision? ==>
        Plan(p)[Position(s.pc)].approvalRequired && s.pending == Some((Plan(p)[Position(s.pc)].stepId, s.lastSha.value)))
    && (s.pending.Some? ==> s.pc.RecordWaiting? || s.pc.CreateApproval? || s.pc.Decision? || s.pc.Broken?)
  }

  // One step, by what arrives. `Step` gathers what every transition keeps.

  ghost predicate Keeps(p: Input, s: State, t: State, cancel: bool) {
    && Placed(p, t)
    && t.cancelled == (s.cancelled || cancel)
    && (t.pc == s.pc || Over(t.pc) || Ahead(s.pc, t.pc))
    && (Over(s.pc) ==> Over(t.pc))
  }

  predicate Over(pc: Pc) { pc.Finalize? || pc.Closed? || pc.Broken? }

  /** Order of the awaits within one position of the plan. */
  function Stage(pc: Pc): int {
    match pc
    case RecordValidating => 0 case Policy => 1
    case RecordRunning(_) => 2 case ReadStep(_) => 3 case RecordFailedRead(_) => 4 case RecordRead(_) => 5
    case RecordSkipped(_) => 6
    case RecordWaiting(_) => 7 case CreateApproval(_) => 8 case Decision(_) => 9
    case Recheck(_) => 10 case RecordApplying(_) => 11 case WriteStep(_) => 12
    case RecordVerifying(_, _) => 13 case RecordWrite(_) => 14
    case _ => 15
  }

  /** Later in the plan, or at a later await of the same position. */
  predicate Ahead(a: Pc, b: Pc) {
    !Over(a) && (Position(a) < Position(b) || (Position(a) == Position(b) && Stage(a) < Stage(b)))
  }

  lemma EnterPlaced(p: Input, s: State, i: nat)
    requires s.pending.None?
    ensures Placed(p, Enter(p, s, i))
  {
    hide Plan;
  }

  lemma EnterKeeps(p: Input, s: State, i: nat)
    requires Placed(p, s) && s.pending.None? && !Over(s.pc) && Position(s.pc) < i
    ensures Keeps(p, s, Enter(p, s, i), false)
  {
    hide Plan, Placed;
    EnterPlaced(p, s, i);
  }

  lemma MoveKeeps(p: Input, s: State)
    requires Placed(p, s)
    ensures Keeps(p, s, s.(pc := AfterAck(s.pc)), false)
  {
    hide Plan;
  }

  lemma AckKeeps(p: Input, s: State)
    requires Placed(p, s)
    ensures Keeps(p, s, OnAck(p, s), false)
  {
    hide Plan, Enter, AfterAck;
    if s.pc.RecordRead? || s.pc.RecordSkipped? || s.pc.RecordWrite? {
      EnterKeeps(p, s, s.pc.i + 1);
    } else if !s.pc.RecordVerifying? {
      MoveKeeps(p, s);
    }
  }

  lemma PolicyKeeps(p: Input, s: State, deny: bool)
    requires Placed(p, s)
    ensures Keeps(p, s, OnAnswer(p, s, PolicyDecision(deny)), false)
  {
    hide Plan, Enter, OnAck, AgentInputs.Missing;
    if s.pc.Policy? { EnterKeeps(p, s, 0); }
  }

  lemma ResultKeeps(p: Input, s: State, r: Reply)
    requires Placed(p, s) && r.StepResult?
    ensures Keeps(p, s, OnAnswer(p, s, r), false)
  {
    hide Plan, Enter, OnAck, AgentInputs.Missing;
  }

  lemma AnswerKeeps(p: Input, s: State, r: Reply)
    requires Placed(p, s)
    ensures Keeps(p, s, OnAnswer(p, s, r), false)
  {
    if r.PolicyDecision? {
      PolicyKeeps(p, s, r.deny);
    } else if r.StepResult? {
      ResultKeeps(p, s, r);
    } else {
      hide Keeps, Placed, OnAck;
      AckKeeps(p, s);
    }
  }

  lemma SignalKeeps(p: Input, s: State, e: Event)
    requires Placed(p, s) && (e.Approve? || e.Reject? || e.Cancel?)
    ensures Keeps(p, s, Next(p, s, e), e == Cancel)
  {
    hide Plan, OnAnswer;
  }

  lemma EndingKeeps(p: Input, s: State, e: Event)
    requires Placed(p, s) && (e.Throw? || e.Wake? || e.Timeout?)
    ensures Keeps(p, s, Next(p, s, e), false)
  {
    hide Plan, OnAnswer;
  }

  lemma NextKeeps(p: Input, s: State, e: Event)
    requires Placed(p, s)
    ensures Keeps(p, s, Next(p, s, e), e == Cancel)
  {
    hide Keeps, Placed, OnAnswer, Plan, Resume, Decidable;
    match e
    case Answer(r) => AnswerKeeps(p, s, r);
    case Approve(_, _) => SignalKeeps(p, s, e);
    case Reject(_) => SignalKeeps(p, s, e);
    case Cancel => SignalKeeps(p, s, e);
    case _ => EndingKeeps(p, s, e);
  }

  lemma {:induction false} AlwaysPlaced(p: Input, es: seq<Event>, n: nat)
    requires n <= |es|
    ensures Placed(p, At(p, es, n))
  {
    hide Placed, Next;
    if n == 0 {
      InitPlaced(p);
    } else {
      AlwaysPlaced(p, es, n - 1);
      NextKeeps(p, At(p, es, n - 1), es[n - 1]);
    }
  }

  lemma InitPlaced(p: Input)
    ensures Placed(p, Init())
  {
  }

  /** A shadow run never dispatches a write. */
  lemma ShadowNeverDispatches(p: Input, es: seq<Event>, n: nat)
    requires n <= |es| && p.shadow
    ensures !At(p, es, n).pc.WriteStep?
  {
    AlwaysPlaced(p, es, n);
  }

  /** The body is cancelled exactly when a cancel signal has arrived. */
  lemma {:induction false} CancelledExactly(p: Input, es: seq<Event>, n: nat)
    requires n <= |es|
    ensures At(p, es, n).cancelled <==> exists x :: 0 <= x < n && es[x] == Cancel
  {
    hide Placed, Next;
    if n > 0 {
      CancelledExactly(p, es, n - 1);
      AlwaysPlaced(p, es, n - 1);
      NextKeeps(p, At(p, es, n - 1), es[n - 1]);
    }
  }

  // ---- progress ----

  lemma AheadTransitive(a: Pc, b: Pc, c: Pc)
    requires Ahead(a, b) && Ahead(b, c)
    ensures Ahead(a, c)
  {
    hide Position, Stage;
  }

  /** The body only moves forward. */
  lemma {:induction false} Forward(p: Input, es: seq<Event>, m: nat, n: nat)
    requires m <= n <= |es|
    ensures var (s, t) := (At(p, es, m).pc, At(p, es, n).pc);
      (Over(s) ==> Over(t)) && (Over(t) || s == t || Ahead(s, t))
  {
    hide Next, Ahead, Over, Placed;
    if m < n {
      Forward(p, es, m, n - 1);
      AlwaysPlaced(p, es, n - 1);
      NextKeeps(p, At(p, es, n - 1), es[n - 1]);
      var (a, b, c) := (At(p, es, m).pc, At(p, es, n - 1).pc, At(p, es, n).pc);
      if Ahead(a, b) && Ahead(b, c) { AheadTransitive(a, b, c); }
    }
  }

  /** The await at which the write of position i is handed to its activity. */
  ghost predicate Dispatches(p: Input, es: seq<Event>, n: nat, i: nat) {
    n < |es| && At(p, es, n).pc == RecordApplying(i) && At(p, es, n + 1).pc == WriteStep(i)
  }

  /** No write is dispatched twice. */
  lemma DispatchedOnce(p: Input, es: seq<Event>, m: nat, n: nat, i: nat)
    requires Dispatches(p, es, m, i) && Dispatches(p, es, n, i)
    ensures m == n
  {
    hide At;
    if m < n { Forward(p, es, m + 1, n); }
    if n < m { Forward(p, es, n + 1, m); }
  }

  // ---- what led to a dispatch ----

  /** Event x is an approval of position i that matched what was pending when it arrived. */
  ghost predicate ApprovedAt(p: Input, es: seq<Event>, x: nat, i: nat, sha: string) {
    && x < |es| && InPlan(p, i) && es[x] == Approve(Plan(p)[i].stepId, sha)
    && Waiting(At(p, es, x).pc, i) && At(p, es, x).pending == Some((Plan(p)[i].stepId, sha))
  }

  /** From event b, where position i starts to wait, up to d nothing rejected it. */
  ghost predicate Unrejected(p: Input, es: seq<Event>, b: nat, d: nat, i: nat) {
    && b <= d <= |es| && InPlan(p, i)
    && (forall x: nat :: b <= x <= d ==> Waiting(At(p, es, x).pc, i))
    && (b > 0 ==> !Waiting(At(p, es, b - 1).pc, i))
    && (forall x: nat :: b <= x < d ==> es[x] != Reject(Plan(p)[i].stepId))
  }

  /** One step of a waiting body. */
  ghost predicate Waits(p: Input, s: State, t: State, e: Event, i: nat) {
    && i < |Plan(p)|
    && (Waiting(s.pc, i) ==> t.lastSha == s.lastSha && s.lastSha.Some? && s.pending == Some((Plan(p)[i].stepId, s.lastSha.value)))
    && (Waiting(s.pc, i) ==> t.approved == (s.approved || e == Approve(Plan(p)[i].stepId, s.lastSha.value)))
    && (Waiting(s.pc, i) ==> t.rejected == (s.rejected || e == Reject(Plan(p)[i].stepId)))
    && (!Waiting(s.pc, i) ==> !t.approved && !t.rejected)
  }

  lemma WaitingEnter(p: Input, s: State, i: nat, n: nat)
    requires Placed(p, s) && s.pending.None? && Waiting(Enter(p, s, n).pc, i)
    ensures Waits(p, s, Enter(p, s, n), Answer(Ack), i)
  {
    hide Plan;
  }

  lemma WaitingAck(p: Input, s: State, i: nat)
    requires Placed(p, s) && Waiting(OnAck(p, s).pc, i)
    ensures Waits(p, s, OnAck(p, s), Answer(Ack), i)
  {
    hide Plan, Enter;
    if s.pc.RecordRead? || s.pc.RecordSkipped? || s.pc.RecordWrite? { WaitingEnter(p, s, i, s.pc.i + 1); }
  }

  lemma WaitingAnswer(p: Input, s: State, r: Reply, i: nat)
    requires Placed(p, s) && Waiting(OnAnswer(p, s, r).pc, i)
    ensures Waits(p, s, OnAnswer(p, s, r), Answer(r), i)
  {
    hide Plan, AgentInputs.Missing, Enter, OnAck, OnStepResult;
    if r.Ack? {
      WaitingAck(p, s, i);
    } else if r.PolicyDecision? {
      if s.pc.Policy? { WaitingEnter(p, s, i, 0); }
    } else if s.pc.ReadStep? {
      StepResultMoves(s, r);
    }
  }

  lemma StepResultMoves(s: State, r: Reply)
    requires s.pc.ReadStep? && r.StepResult?
    ensures OnStepResult(s, r).pc.RecordFailedRead? || OnStepResult(s, r).pc.RecordRead?
  {
  }

  lemma WaitingStep(p: Input, s: State, e: Event, i: nat)
    requires Placed(p, s) && Waiting(Next(p, s, e).pc, i)
    ensures Waits(p, s, Next(p, s, e), e, i)
  {
    hide Plan, OnAnswer;
    if e.Answer? { WaitingAnswer(p, s, e.reply, i); }
  }

  lemma {:induction false} WaitFrom(p: Input, es: seq<Event>, n: nat, i: nat) returns (b: nat)
    requires n <= |es| && Waiting(At(p, es, n).pc, i) && !At(p, es, n).rejected
    ensures Unrejected(p, es, b, n, i)
  {
    hide Next, Placed;
    var s := At(p, es, n - 1);
    AlwaysPlaced(p, es, n - 1);
    WaitingStep(p, s, es[n - 1], i);
    if Waiting(s.pc, i) {
      b := WaitFrom(p, es, n - 1, i);
    } else {
      b := n;
    }
  }

  lemma {:induction false} ApprovalFrom(p: Input, es: seq<Event>, n: nat, i: nat) returns (b: nat, a: nat)
    requires n <= |es| && Waiting(At(p, es, n).pc, i) && At(p, es, n).approved && !At(p, es, n).rejected
    ensures b <= a < n && Unrejected(p, es, b, n, i)
    ensures At(p, es, n).lastSha.Some? && ApprovedAt(p, es, a, i, At(p, es, n).lastSha.value)
  {
    hide Next, Placed, Waiting;
    var s := At(p, es, n - 1);
    AlwaysPlaced(p, es, n - 1);
    WaitingStep(p, s, es[n - 1], i);
    if s.approved {
      b, a := ApprovalFrom(p, es, n - 1, i);
    } else {
      b := WaitFrom(p, es, n - 1, i);
      a := n - 1;
    }
  }

  // ---- entering the write ----

  predicate SameProposal(s: State, t: State) { t.lastSha == s.lastSha && t.lastDiff == s.lastDiff }

  /** The event carries a proposal: a step answered with a diff hash. */
  predicate Proposes(s: State, e: Event) { s.pc.ReadStep? && e.Answer? && Proposing(e.reply) }

  predicate NewProposal(s: State, t: State, e: Event) {
    if Proposes(s, e) then t.lastSha == Some(e.reply.sha) && t.lastDiff == e.reply.diff else SameProposal(s, t)
  }

  predicate NeedsApproval(p: Input, i: nat) { i < |Plan(p)| && Plan(p)[i].approvalRequired }

  /** How the body comes to the policy recheck, to the write and past it. */
  ghost predicate Comes(p: Input, s: State, t: State, e: Event) {
    && (t.pc.Recheck? && t.pc != s.pc && NeedsApproval(p, t.pc.i) ==>
        s.pc == Decision(t.pc.i) && e == Wake && s.approved && !s.rejected && !s.cancelled)
    && (t.pc.RecordApplying? && t.pc != s.pc ==> s.pc == Recheck(t.pc.i) && e == Answer(PolicyDecision(false)))
    && (t.pc.WriteStep? && t.pc != s.pc ==> s.pc == RecordApplying(t.pc.i) && e == Answer(Ack))
    && NewProposal(s, t, e)
  }

  lemma EnterComes(p: Input, s: State, n: nat, e: Event)
    requires !Proposes(s, e)
    ensures s.pc.Recheck? || s.pc.RecordApplying? || s.pc.WriteStep? || Comes(p, s, Enter(p, s, n), e)
  {
    hide Plan, Proposes;
  }

  lemma AckComes(p: Input, s: State)
    ensures Comes(p, s, OnAck(p, s), Answer(Ack))
  {
    hide Plan, Enter, NeedsApproval;
    if s.pc.RecordRead? || s.pc.RecordSkipped? || s.pc.RecordWrite? { EnterComes(p, s, s.pc.i + 1, Answer(Ack)); }
  }

  lemma AnswerComes(p: Input, s: State, r: Reply)
    ensures Comes(p, s, OnAnswer(p, s, r), Answer(r))
  {
    hide Plan, Enter, OnAck, NeedsApproval, AgentInputs.Missing;
    if r.Ack? { AckComes(p, s); }
    else if r.PolicyDecision? && s.pc.Policy? { EnterComes(p, s, 0, Answer(r)); }
  }

  lemma NextComes(p: Input, s: State, e: Event)
    ensures Comes(p, s, Next(p, s, e), e)
  {
    hide Plan, OnAnswer, NeedsApproval;
    if e.Answer? { AnswerComes(p, s, e.reply); }
  }

  /** Event x is the last proposal before n: its hash and its diff are what the body carries. */
  ghost predicate LatestProposal(p: Input, es: seq<Event>, x: nat, n: nat) {
    && x < n <= |es| && Proposes(At(p, es, x), es[x])
    && (forall y: nat :: x < y < n ==> !Proposes(At(p, es, y), es[y]))
  }

  lemma {:induction false} ProposalFrom(p: Input, es: seq<Event>, n: nat) returns (x: nat)
    requires n <= |es| && At(p, es, n).lastSha.Some?
    ensures LatestProposal(p, es, x, n) && At(p, es, n).lastSha == Some(es[x].reply.sha) && At(p, es, n).lastDiff == es[x].reply.diff
  {
    hide Next, Proposes;
    NextComes(p, At(p, es, n - 1), es[n - 1]);
    if Proposes(At(p, es, n - 1), es[n - 1]) { x := n - 1; } else { x := ProposalFrom(p, es, n - 1); }
  }

  /** Event d is the decision: the body resumed with an approval, no rejection and no cancel. */
  ghost predicate DecidedAt(p: Input, es: seq<Event>, d: nat, i: nat) {
    d < |es| && es[d] == Wake && At(p, es, d).pc == Decision(i) && At(p, es, d).approved && !At(p, es, d).rejected && !At(p, es, d).cancelled
  }

  lemma {:induction false} DecisionFrom(p: Input, es: seq<Event>, n: nat, i: nat) returns (d: nat)
    requires n <= |es| && At(p, es, n).pc == Recheck(i) && NeedsApproval(p, i)
    ensures d < n && DecidedAt(p, es, d, i) && forall y: nat :: d < y <= n ==> At(p, es, y).pc == Recheck(i)
  {
    hide Next, NewProposal, NeedsApproval;
    NextComes(p, At(p, es, n - 1), es[n - 1]);
    if At(p, es, n - 1).pc == Recheck(i) { d := DecisionFrom(p, es, n - 1, i); } else { d := n - 1; }
  }

  lemma {:induction false} RecheckFrom(p: Input, es: seq<Event>, n: nat, i: nat) returns (r: nat)
    requires n <= |es| && At(p, es, n).pc == RecordApplying(i)
    ensures r < n && At(p, es, r).pc == Recheck(i) && es[r] == Answer(PolicyDecision(false))
    ensures forall y: nat :: r < y <= n ==> At(p, es, y).pc == RecordApplying(i)
  {
    hide Next, NewProposal, NeedsApproval;
    NextComes(p, At(p, es, n - 1), es[n - 1]);
    if At(p, es, n - 1).pc == RecordApplying(i) { r := RecheckFrom(p, es, n - 1, i); } else { r := n - 1; }
  }

  /** While position i waits, decides, rechecks and applies, no step answers a proposal. */
  lemma NoProposalSince(p: Input, es: seq<Event>, b: nat, d: nat, r: nat, n: nat, i: nat, x: nat)
    requires LatestProposal(p, es, x, n) && Unrejected(p, es, b, d, i) && d < r < n
    requires forall y: nat :: d < y <= r ==> At(p, es, y).pc == Recheck(i)
    requires forall y: nat :: r < y <= n ==> At(p, es, y).pc == RecordApplying(i)
    ensures x < b
  {
    hide At, Plan;
    assert forall y: nat :: b <= y <= d ==> Waiting(At(p, es, y).pc, i);
  }

  /** Everything that must have happened, in this order, before a write that needs approval is
      handed to its activity at event n: the latest proposal x; the wait for position i from b on;
      an approval a of exactly that step and hash, received while it was pending; the decision d,
      before which no cancel at all and, since b, no rejection of the step had arrived; a policy
      recheck r that did not deny; and no newer proposal until n. */
  ghost predicate Cleared(p: Input, es: seq<Event>, x: nat, b: nat, a: nat, d: nat, r: nat, n: nat, i: nat) {
    && x < b <= a < d < r < n <= |es|
    && LatestProposal(p, es, x, n)
    && Unrejected(p, es, b, d, i)
    && ApprovedAt(p, es, a, i, es[x].reply.sha)
    && DecidedAt(p, es, d, i)
    && (forall y: nat :: y < d ==> es[y] != Cancel)
    && At(p, es, r).pc == Recheck(i) && es[r] == Answer(PolicyDecision(false))
  }

  /** The write is given the hash and the diff of proposal x, and of no other. */
  ghost predicate GivenProposal(p: Input, es: seq<Event>, x: nat, n: nat) {
    x < n < |es| && Proposes(At(p, es, x), es[x])
    && At(p, es, n + 1).lastSha == Some(es[x].reply.sha) && At(p, es, n + 1).lastDiff == es[x].reply.diff
  }

  /** In every interleaving, a write that needs approval is dispatched only when cleared, and the
      hash and diff it is given are those of that one proposal. */
  lemma ApprovedBeforeDispatch(p: Input, es: seq<Event>, n: nat, i: nat)
    requires Dispatches(p, es, n, i) && NeedsApproval(p, i)
    ensures exists x: nat, b: nat, a: nat, d: nat, r: nat :: Cleared(p, es, x, b, a, d, r, n, i) && GivenProposal(p, es, x, n)
  {
    hide At, Next, Plan, Proposes, Waiting, LatestProposal, Unrejected, ApprovedAt, NeedsApproval;
    var r := RecheckFrom(p, es, n, i);
    var d := DecisionFrom(p, es, r, i);
    DecisionWaits(i);
    var b, a := ApprovalFrom(p, es, d, i);
    CancelledExactly(p, es, d);
    AlwaysPlaced(p, es, n);
    ApplyingPlaced(p, At(p, es, n));
    var x := ProposalFrom(p, es, n);
    NoProposalSince(p, es, b, d, r, n, i, x);
    DispatchCarries(p, es, n, i);
    DecisionCarries(p, es, d, r, n, i);
    LatestProposes(p, es, x, n);
    assert Cleared(p, es, x, b, a, d, r, n, i) && GivenProposal(p, es, x, n);
  }

  lemma LatestProposes(p: Input, es: seq<Event>, x: nat, n: nat)
    requires LatestProposal(p, es, x, n)
    ensures x < n && Proposes(At(p, es, x), es[x])
  {
    hide At, Proposes;
  }

  lemma ApplyingPlaced(p: Input, s: State)
    requires Placed(p, s) && s.pc.RecordApplying?
    ensures s.lastSha.Some?
  {
    hide Plan;
  }

  lemma DispatchCarries(p: Input, es: seq<Event>, n: nat, i: nat)
    requires Dispatches(p, es, n, i)
    ensures SameProposal(At(p, es, n), At(p, es, n + 1))
  {
    hide Next;
    NextComes(p, At(p, es, n), es[n]);
  }

  lemma {:induction false} CarriesThrough(p: Input, es: seq<Event>, m: nat, n: nat)
    requires m <= n <= |es| && forall y: nat :: m <= y < n ==> !At(p, es, y).pc.ReadStep?
    ensures SameProposal(At(p, es, m), At(p, es, n))
  {
    hide Next;
    if m < n {
      CarriesThrough(p, es, m, n - 1);
      NextComes(p, At(p, es, n - 1), es[n - 1]);
    }
  }

  lemma DecisionCarries(p: Input, es: seq<Event>, d: nat, r: nat, n: nat, i: nat)
    requires d < r < n <= |es| && At(p, es, d).pc == Decision(i)
    requires forall y: nat :: d < y <= r ==> At(p, es, y).pc == Recheck(i)
    requires forall y: nat :: r < y <= n ==> At(p, es, y).pc == RecordApplying(i)
    ensures SameProposal(At(p, es, d), At(p, es, n))
  {
    hide At, Next;
    CarriesThrough(p, es, d, n);
  }

  lemma DecisionWaits(i: nat)
    ensures Waiting(Decision(i), i)
  {
  }

  // ---- what the result says ----

  /** The acknowledgement that ends a verified, or unverified, write. */
  predicate EndsWrite(s: State, e: Event) { s.pc.RecordVerifying? && e == Answer(Ack) }

  /** How one step changes the tallies, and what a finished run claims about them. */
  ghost predicate Tallies(s: State, t: State, e: Event) {
    && t.completedWrites == s.completedWrites + (if EndsWrite(s, e) then 1 else 0)
    && t.warnings == (s.warnings || (EndsWrite(s, e) && s.pc.verified == Some(false)))
    && t.proposedChanges == s.proposedChanges + (if Proposes(s, e) then e.reply.changeCount else 0)
    && (Honest(s) ==> Honest(t))
  }

  predicate Claims(pc: Pc, r: Result) { pc == Finalize(r) || pc == Closed(r) }

  predicate Honest(s: State) {
    (Claims(s.pc, Completed) ==> !s.warnings) && (Claims(s.pc, CompletedWithWarnings) ==> s.warnings)
  }

  lemma EnterTallies(p: Input, s: State, n: nat, e: Event)
    requires !EndsWrite(s, e) && !Proposes(s, e)
    ensures Tallies(s, Enter(p, s, n), e)
  {
    hide Plan, Proposes;
  }

  lemma AckTallies(p: Input, s: State)
    ensures Tallies(s, OnAck(p, s), Answer(Ack))
  {
    hide Plan, Enter;
    if s.pc.RecordRead? || s.pc.RecordSkipped? || s.pc.RecordWrite? { EnterTallies(p, s, s.pc.i + 1, Answer(Ack)); }
  }

  lemma AnswerTallies(p: Input, s: State, r: Reply)
    ensures Tallies(s, OnAnswer(p, s, r), Answer(r))
  {
    hide Plan, Enter, OnAck, AgentInputs.Missing;
    if r.Ack? { AckTallies(p, s); }
    else if r.PolicyDecision? && s.pc.Policy? { EnterTallies(p, s, 0, Answer(r)); }
  }

  lemma NextTallies(p: Input, s: State, e: Event)
    ensures Tallies(s, Next(p, s, e), e)
  {
    hide Plan, OnAnswer;
    if e.Answer? { AnswerTallies(p, s, e.reply); }
  }

  /** Writes whose end was recorded before n. */
  function WritesEnded(p: Input, es: seq<Event>, n: nat): nat
    requires n <= |es|
  { if n == 0 then 0 else WritesEnded(p, es, n - 1) + if EndsWrite(At(p, es, n - 1), es[n - 1]) then 1 else 0 }

  /** The changes proposed before n. */
  function ChangesProposed(p: Input, es: seq<Event>, n: nat): nat
    requires n <= |es|
  { if n == 0 then 0 else ChangesProposed(p, es, n - 1) + if Proposes(At(p, es, n - 1), es[n - 1]) then es[n - 1].reply.changeCount else 0 }

  /** The result counts exactly the changes proposed and the writes that ended, and a run claims to have completed without
      warnings exactly if none of them came back unverified. */
  lemma {:induction false} ResultIsHonest(p: Input, es: seq<Event>, n: nat)
    requires n <= |es|
    ensures var s := At(p, es, n);
      && s.completedWrites == WritesEnded(p, es, n) && s.proposedChanges == ChangesProposed(p, es, n)
      && (s.warnings <==> exists x: nat :: x < n && EndsWrite(At(p, es, x), es[x]) && At(p, es, x).pc.verified == Some(false))
      && Honest(s)
  {
    hide Next, EndsWrite, Proposes, Honest;
    if n == 0 {
      InitHonest();
    } else {
      ResultIsHonest(p, es, n - 1);
      NextTallies(p, At(p, es, n - 1), es[n - 1]);
    }
  }

  lemma InitHonest()
    ensures Honest(Init())
  {
  }

  // ---- how far a cancel reaches ----

  /** The approval decision of a write lies behind the body, its dispatch still ahead. */
  predicate PastDecision(pc: Pc) { pc.Recheck? || pc.RecordApplying? }

  /** A cancelled body that is not between a decision and the dispatch it leads to. */
  predicate Doomed(s: State) { s.cancelled && !PastDecision(s.pc) }

  /** Cancelled, and bound to dispatch no write but that of position i. */
  predicate OnlyWrites(s: State, i: nat) { Doomed(s) || (s.cancelled && (s.pc == Recheck(i) || s.pc == RecordApplying(i))) }

  lemma EnterStaysDoomed(p: Input, s: State, i: nat)
    requires s.cancelled
    ensures Doomed(Enter(p, s, i))
  {
    hide Plan;
  }

  lemma AnswerStaysDoomed(p: Input, s: State, r: Reply)
    requires Doomed(s)
    ensures Doomed(OnAnswer(p, s, r))
  {
    hide Plan, Enter, AgentInputs.Missing;
    if r.Ack? && (s.pc.RecordRead? || s.pc.RecordSkipped? || s.pc.RecordWrite?) { EnterStaysDoomed(p, s, s.pc.i + 1); }
    else if r.PolicyDecision? && s.pc.Policy? { EnterStaysDoomed(p, s, 0); }
  }

  lemma NextOnlyWrites(p: Input, s: State, e: Event, i: nat)
    requires OnlyWrites(s, i)
    ensures OnlyWrites(Next(p, s, e), i)
  {
    hide Plan, Enter, AgentInputs.Missing;
    if e.Answer? && Doomed(s) {
      hide OnAnswer;
      AnswerStaysDoomed(p, s, e.reply);
    }
  }

  lemma {:induction false} OnlyWritesFrom(p: Input, es: seq<Event>, m: nat, n: nat, i: nat)
    requires m <= n <= |es| && OnlyWrites(At(p, es, m), i)
    ensures OnlyWrites(At(p, es, n), i)
  {
    hide Next, OnlyWrites;
    if m < n {
      OnlyWritesFrom(p, es, m, n - 1, i);
      NextOnlyWrites(p, At(p, es, n - 1), es[n - 1], i);
    }
  }

  /** After a cancel at most one more write is dispatched: that of the position whose decision had
      already been taken when the cancel arrived. */
  lemma CancelLeavesOneWrite(p: Input, es: seq<Event>, x: nat, n: nat, i: nat)
    requires x < n && Dispatches(p, es, n, i) && es[x] == Cancel
    ensures At(p, es, x).pc == Recheck(i) || At(p, es, x).pc == RecordApplying(i)
  {
    hide At, Next, OnlyWrites, Plan, Enter, OnAnswer;
    CancelAt(p, es, x);
    var (s, t) := (At(p, es, x), At(p, es, x + 1));
    var j := if PastDecision(s.pc) then s.pc.i else i + 1;
    assert OnlyWrites(t, j) by { OnlyWritesStarts(s, t, j); }
    OnlyWritesFrom(p, es, x + 1, n, j);
    OnlyWritesThat(At(p, es, n), i, j);
  }

  lemma OnlyWritesStarts(s: State, t: State, j: nat)
    requires t == s.(cancelled := true) && (PastDecision(s.pc) ==> s.pc.i == j)
    ensures OnlyWrites(t, j)
  {
  }

  lemma OnlyWritesThat(s: State, i: nat, j: nat)
    requires OnlyWrites(s, j) && s.pc == RecordApplying(i)
    ensures i == j
  {
  }

  lemma CancelAt(p: Input, es: seq<Event>, x: nat)
    requires x < |es| && es[x] == Cancel
    ensures At(p, es, x + 1) == At(p, es, x).(cancelled := true)
  {
    hide OnAnswer;
  }

  /** A cancel, and then the answers that take the body on to the dispatch. */
  function CancelThenDispatch(pc: Pc): seq<Event> {
    [Cancel] + (if pc.Recheck? then [Answer(PolicyDecision(false))] else []) + [Answer(Ack)]
  }

  /** A cancel that arrives after the decision, during the policy recheck or while the status is
      recorded, does not stop the write of that step. */
  lemma LateCancelStillWrites(p: Input, es: seq<Event>, i: nat)
    requires At(p, es, |es|).pc == Recheck(i) || At(p, es, |es|).pc == RecordApplying(i)
    ensures var more := es + CancelThenDispatch(At(p, es, |es|).pc);
      Dispatches(p, more, |more| - 1, i) && At(p, more, |more|).cancelled
  {
    hide Next, Plan;
    var s := At(p, es, |es|);
    var more := es + CancelThenDispatch(s.pc);
    var n := |es|;
    Prefix(p, es, more, n);
    assert more[n] == Cancel && more[|more| - 1] == Answer(Ack);
    assert At(p, more, n + 1) == Next(p, s, Cancel);
    var a := Next(p, s, Cancel);
    if s.pc.Recheck? {
      assert more[n + 1] == Answer(PolicyDecision(false));
      assert At(p, more, n + 2) == Next(p, a, Answer(PolicyDecision(false)));
      assert At(p, more, n + 3) == Next(p, At(p, more, n + 2), Answer(Ack));
    } else {
      assert At(p, more, n + 2) == Next(p, a, Answer(Ack));
    }
    LateCancelSteps(p, s, i);
  }

  lemma LateCancelSteps(p: Input, s: State, i: nat)
    requires s.pc == Recheck(i) || s.pc == RecordApplying(i)
    ensures var a := Next(p, s, Cancel);
      var b := if s.pc.Recheck? then Next(p, a, Answer(PolicyDecision(false))) else a;
      b.pc == RecordApplying(i) && Next(p, b, Answer(Ack)).pc == WriteStep(i) && Next(p, b, Answer(Ack)).cancelled
  {
    hide Plan, Enter, AgentInputs.Missing;
    var a := Next(p, s, Cancel);
    assert a.cancelled && a.pc == s.pc;
  }

  lemma {:induction false} Prefix(p: Input, es: seq<Event>, more: seq<Event>, n: nat)
    requires es <= more && n <= |es|
    ensures At(p, es, n) == At(p, more, n)
  {
    hide Next;
    if n > 0 { Prefix(p, es, more, n - 1); }
  }

  /** After event x some write is dispatched that had not been dispatched before. */
  ghost predicate WritesAfter(p: Input, es: seq<Event>, x: nat) {
    exists n: nat, i: nat :: x < n && Dispatches(p, es, n, i) && forall m: nat :: m <= x ==> !Dispatches(p, es, m, i)
  }

  /** How far a cancel reaches, for every run and every moment it may arrive at: whatever happens
      next, no further write is dispatched, unless the body was rechecking the policy for a write, or
      recording that it is applied, when the cancel arrived; then one still may be. */
  lemma CancelReachesExactly(p: Input, es: seq<Event>, x: nat)
    requires x < |es| && es[x] == Cancel
    ensures (exists more :: es[..x + 1] <= more && WritesAfter(p, more, x)) <==> PastDecision(At(p, es, x).pc)
  {
    hide Next, Plan, Dispatches;
    var front := es[..x];
    Prefix(p, front, es, x);
    if PastDecision(At(p, es, x).pc) {
      var i := At(p, es, x).pc.i;
      var more := front + CancelThenDispatch(At(p, front, x).pc);
      LateCancelStillWrites(p, front, i);
      forall m: nat | m <= x ensures !Dispatches(p, more, m, i) {
        if Dispatches(p, more, m, i) { DispatchedOnce(p, more, m, |more| - 1, i); }
      }
      assert es[..x + 1] == front + [Cancel] <= more;
      assert WritesAfter(p, more, x);
    }
    forall more | es[..x + 1] <= more && WritesAfter(p, more, x) ensures PastDecision(At(p, es, x).pc) {
      var n: nat, i: nat :| x < n && Dispatches(p, more, n, i);
      assert more[x] == es[..x + 1][x] == Cancel;
      Prefix(p, es[..x + 1], more, x);
      Prefix(p, es[..x + 1], es, x);
      CancelLeavesOneWrite(p, more, x, n, i);
    }
  }
}
