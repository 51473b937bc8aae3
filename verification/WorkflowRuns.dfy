/** Whole durable runs: what every result rests on, and that a run can reach its end. */
module WorkflowRuns {
  import opened Text
  import opened AgentSpec
  import opened Workflow
  import opened WorkflowSafety
  import AgentInputs
  import R = Reconciliation

  // ---- how the body comes to each await ----

  /** A step's activity answers, and did not fail. */
  predicate GoodAnswer(e: Event) { e.Answer? && e.reply.StepResult? && !e.reply.failed }

  predicate InputsReady(p: Input) { AgentInputs.Missing(p.spec.inputs, p.inputs) == [] }

  /** The position after the one whose last await this is, 0 for the first policy check. */
  function NextPosition(pc: Pc): int {
    match pc
    case Policy => 0
    case RecordRead(i) => i + 1 case RecordSkipped(i) => i + 1 case RecordWrite(i) => i + 1
    case _ => -1
  }

  /** The event that ends a position, or lets the run begin, so that position i is next. */
  predicate Turns(p: Input, s: State, e: Event, i: nat) {
    && NextPosition(s.pc) == i
    && (if i == 0 then e == Answer(PolicyDecision(false)) && InputsReady(p) else e == Answer(Ack))
  }

  predicate EndsWell(pc: Pc) { Claims(pc, Completed) || Claims(pc, CompletedWithWarnings) }

  /** Where the body can have come from. */
  ghost predicate Arrives(p: Input, s: State, t: State, e: Event) {
    && (Position(t.pc) >= 0 && Position(t.pc) != Position(s.pc) ==> Turns(p, s, e, Position(t.pc)))
    && (EndsWell(t.pc) && !EndsWell(s.pc) ==> Turns(p, s, e, |Plan(p)|))
    && (t.pc != s.pc ==>
         match t.pc
         case RecordRead(i) => s.pc == ReadStep(i) && GoodAnswer(e)
         case RecordFailedRead(i) => s.pc == ReadStep(i) && e.Answer? && e.reply.StepResult? && e.reply.failed
         case ReadStep(i) => s.pc == RecordRunning(i) && e == Answer(Ack)
         case RecordVerifying(i, v) => s.pc == WriteStep(i) && GoodAnswer(e) && e.reply.verified == v
         case RecordWrite(i) => s.pc.RecordVerifying? && s.pc.i == i && e == Answer(Ack)
         case WriteStep(i) => s.pc == RecordApplying(i) && e == Answer(Ack)
         case Policy => s.pc == RecordValidating && e == Answer(Ack)
         case CreateApproval(i) => s.pc == RecordWaiting(i) && e == Answer(Ack)
         case Decision(i) => s.pc == CreateApproval(i) && e == Answer(Ack)
         case Recheck(i) => Turns(p, s, e, i) || (s.pc == Decision(i) && e == Wake)
         case RecordApplying(i) => s.pc == Recheck(i) && e == Answer(PolicyDecision(false))
         case Closed(r) => s.pc == Finalize(r) && e == Answer(Ack)
         case _ => true)
  }

  lemma EnterArrives(p: Input, s: State, e: Event, i: nat)
    requires Turns(p, s, e, i) && i <= |Plan(p)|
    ensures Arrives(p, s, Enter(p, s, i), e)
  {
    hide Plan, InputsReady;
  }

  lemma AckMoves(p: Input, s: State)
    requires NextPosition(s.pc) < 1
    ensures Arrives(p, s, OnAck(p, s), Answer(Ack))
  {
    hide Plan, Enter, InputsReady, Turns;
  }

  lemma NextInPlan(p: Input, s: State)
    requires Placed(p, s) && NextPosition(s.pc) >= 1
    ensures NextPosition(s.pc) <= |Plan(p)| && Turns(p, s, Answer(Ack), NextPosition(s.pc))
    ensures OnAck(p, s) == Enter(p, s, NextPosition(s.pc))
  {
    hide Plan, Enter, InputsReady;
  }

  lemma AckArrives(p: Input, s: State)
    requires Placed(p, s)
    ensures Arrives(p, s, OnAck(p, s), Answer(Ack))
  {
    hide Plan, Enter, InputsReady, Placed, Arrives, Turns, OnAck;
    if NextPosition(s.pc) >= 1 {
      NextInPlan(p, s);
      EnterArrives(p, s, Answer(Ack), NextPosition(s.pc));
    } else {
      AckMoves(p, s);
    }
  }

  lemma PolicyArrives(p: Input, s: State, deny: bool)
    ensures Arrives(p, s, OnAnswer(p, s, PolicyDecision(deny)), Answer(PolicyDecision(deny)))
  {
    hide Plan, Enter, OnAck, AgentInputs.Missing;
    if s.pc.Policy? && !deny && InputsReady(p) { EnterArrives(p, s, Answer(PolicyDecision(deny)), 0); }
  }

  lemma ResultArrives(p: Input, s: State, r: Reply)
    requires r.StepResult?
    ensures Arrives(p, s, OnAnswer(p, s, r), Answer(r))
  {
    hide Plan, Enter, OnAck, AgentInputs.Missing, Turns;
  }

  lemma AnswerArrives(p: Input, s: State, r: Reply)
    requires Placed(p, s)
    ensures Arrives(p, s, OnAnswer(p, s, r), Answer(r))
  {
    if r.PolicyDecision? {
      PolicyArrives(p, s, r.deny);
    } else if r.StepResult? {
      ResultArrives(p, s, r);
    } else {
      hide Arrives, Placed, OnAck;
      AckArrives(p, s);
    }
  }

  lemma NextArrives(p: Input, s: State, e: Event)
    requires Placed(p, s)
    ensures Arrives(p, s, Next(p, s, e), e)
  {
    hide Plan, OnAnswer, InputsReady, Placed;
    if e.Answer? { AnswerArrives(p, s, e.reply); }
  }

  // ---- every position of the plan is carried out ----

  /** The event that turned the run to position i, or to its end. */
  lemma {:induction false} TurnFrom(p: Input, es: seq<Event>, n: nat, i: nat) returns (x: nat)
    requires n <= |es|
    requires Position(At(p, es, n).pc) == i || (i == |Plan(p)| && EndsWell(At(p, es, n).pc))
    ensures x < n && Turns(p, At(p, es, x), es[x], i)
  {
    hide Next, Placed, Plan, Turns;
    if n == 0 { NothingAtFirst(); }
    AlwaysPlaced(p, es, n - 1);
    NextArrives(p, At(p, es, n - 1), es[n - 1]);
    var s := At(p, es, n - 1);
    if Position(s.pc) == i || (i == |Plan(p)| && EndsWell(s.pc)) { x := TurnFrom(p, es, n - 1, i); } else { x := n - 1; }
  }

  lemma NothingAtFirst()
    ensures Position(Init().pc) < 0 && !EndsWell(Init().pc)
  {
  }

  /** The event at which the body moved to where it stands. */
  lemma {:induction false} MoveFrom(p: Input, es: seq<Event>, n: nat) returns (x: nat)
    requires n <= |es| && At(p, es, n).pc != Init().pc
    ensures x < n && At(p, es, x).pc != At(p, es, n).pc && At(p, es, x + 1).pc == At(p, es, n).pc
  {
    hide Next;
    if At(p, es, n - 1).pc == At(p, es, n).pc { x := MoveFrom(p, es, n - 1); } else { x := n - 1; }
  }

  lemma MoveArrives(p: Input, es: seq<Event>, n: nat) returns (x: nat)
    requires n <= |es| && At(p, es, n).pc != Init().pc
    ensures x < n && At(p, es, x).pc != At(p, es, n).pc && At(p, es, x + 1).pc == At(p, es, n).pc
    ensures Arrives(p, At(p, es, x), At(p, es, x + 1), es[x])
  {
    hide Next, Placed, Arrives;
    x := MoveFrom(p, es, n);
    AlwaysPlaced(p, es, x);
    NextArrives(p, At(p, es, x), es[x]);
  }

  /** Position i was carried out before event n: a read or a proposal answered, and was recorded; a
      write of a shadow run was recorded as skipped; any other write was dispatched, answered,
      recorded as verifying, and recorded. */
  ghost predicate CarriedOut(p: Input, es: seq<Event>, n: nat, i: nat) {
    i < |Plan(p)| && n <= |es| &&
    if Plan(p)[i].mode != Write then exists y: nat, z: nat :: y < z < n && ReadAndRecorded(p, es, y, z, i)
    else if p.shadow then exists z: nat :: z < n && Acknowledged(p, es, z, RecordSkipped(i))
    else exists d: nat, y: nat, v: nat, z: nat :: d < y < v < z < n && WrittenAndRecorded(p, es, d, y, v, z, i)
  }

  ghost predicate Acknowledged(p: Input, es: seq<Event>, z: nat, pc: Pc) { z < |es| && At(p, es, z).pc == pc && es[z] == Answer(Ack) }

  ghost predicate ReadAndRecorded(p: Input, es: seq<Event>, y: nat, z: nat, i: nat) {
    y < |es| && At(p, es, y).pc == ReadStep(i) && GoodAnswer(es[y]) && Acknowledged(p, es, z, RecordRead(i))
  }

  ghost predicate WrittenAndRecorded(p: Input, es: seq<Event>, d: nat, y: nat, v: nat, z: nat, i: nat) {
    && Dispatches(p, es, d, i) && y < |es| && At(p, es, y).pc == WriteStep(i) && GoodAnswer(es[y])
    && Acknowledged(p, es, v, RecordVerifying(i, es[y].reply.verified)) && Acknowledged(p, es, z, RecordWrite(i))
  }

  /** The body waits for a decision only once the run was recorded as waiting and the approval was
      asked for; and it claims a result for good only once that result was recorded. */
  lemma AskedBeforeDecided(p: Input, es: seq<Event>, n: nat) returns (w: nat, c: nat)
    requires n <= |es| && (At(p, es, n).pc.Decision? || At(p, es, n).pc.Closed?)
    ensures At(p, es, n).pc.Decision? ==>
      w < c < n && Acknowledged(p, es, w, RecordWaiting(At(p, es, n).pc.i)) && Acknowledged(p, es, c, CreateApproval(At(p, es, n).pc.i))
    ensures At(p, es, n).pc.Closed? ==> c < n && Acknowledged(p, es, c, Finalize(At(p, es, n).pc.result))
  {
    hide At, Next, Turns;
    w := 0;
    c := MoveArrives(p, es, n);
    if At(p, es, n).pc.Decision? { w := MoveArrives(p, es, c); }
  }

  lemma CarriedRead(p: Input, es: seq<Event>, z: nat, i: nat)
    requires Acknowledged(p, es, z, RecordRead(i))
    ensures CarriedOut(p, es, z + 1, i)
  {
    hide Plan, At, Next, Placed;
    AlwaysPlaced(p, es, z);
    var y := MoveArrives(p, es, z);
    assert ReadAndRecorded(p, es, y, z, i);
    ReadPlace(p, At(p, es, z), i);
  }

  lemma ReadPlace(p: Input, s: State, i: nat)
    requires Placed(p, s) && s.pc == RecordRead(i)
    ensures i < |Plan(p)| && Plan(p)[i].mode != Write
  {
    hide Plan;
  }

  lemma CarriedSkip(p: Input, es: seq<Event>, z: nat, i: nat)
    requires Acknowledged(p, es, z, RecordSkipped(i))
    ensures CarriedOut(p, es, z + 1, i)
  {
    hide Plan, At, Next;
    AlwaysPlaced(p, es, z);
  }

  lemma CarriedWrite(p: Input, es: seq<Event>, z: nat, i: nat)
    requires Acknowledged(p, es, z, RecordWrite(i))
    ensures CarriedOut(p, es, z + 1, i)
  {
    hide Plan, At, Next, Placed;
    AlwaysPlaced(p, es, z);
    WritePlace(p, At(p, es, z), i);
    var v := MoveArrives(p, es, z);
    var y := MoveArrives(p, es, v);
    var d := MoveArrives(p, es, y);
    assert WrittenAndRecorded(p, es, d, y, v, z, i);
  }

  lemma WritePlace(p: Input, s: State, i: nat)
    requires Placed(p, s) && s.pc == RecordWrite(i)
    ensures i < |Plan(p)| && Plan(p)[i].mode == Write && !p.shadow
  {
    hide Plan;
  }

  lemma CarriedLater(p: Input, es: seq<Event>, m: nat, n: nat, i: nat)
    requires m <= n <= |es| && CarriedOut(p, es, m, i)
    ensures CarriedOut(p, es, n, i)
  {
    hide Plan, At;
  }

  lemma TurnCarries(p: Input, es: seq<Event>, x: nat, i: nat)
    requires x < |es| && 0 < i && Turns(p, At(p, es, x), es[x], i)
    ensures CarriedOut(p, es, x + 1, i - 1)
  {
    hide At, Plan, CarriedOut;
    var pc := At(p, es, x).pc;
    if pc.RecordRead? { CarriedRead(p, es, x, i - 1); }
    else if pc.RecordSkipped? { CarriedSkip(p, es, x, i - 1); }
    else { CarriedWrite(p, es, x, i - 1); }
  }

  /** Wherever the run stands in the plan, every position before has been carried out; and a run that
      claims to have completed, with warnings or without, has carried out every position. */
  lemma {:induction false} EverythingBefore(p: Input, es: seq<Event>, n: nat, i: nat, j: nat)
    requires n <= |es| && j < i
    requires Position(At(p, es, n).pc) == i || (i == |Plan(p)| && EndsWell(At(p, es, n).pc))
    ensures CarriedOut(p, es, n, j)
    decreases i
  {
    hide At, Plan, CarriedOut, Next;
    var x := TurnFrom(p, es, n, i);
    if j == i - 1 {
      TurnCarries(p, es, x, i);
      CarriedLater(p, es, x + 1, n, j);
    } else {
      EverythingBefore(p, es, x, i - 1, j);
      CarriedLater(p, es, x, n, j);
    }
  }

  lemma CompletedDidEverything(p: Input, es: seq<Event>, n: nat, j: nat)
    requires n <= |es| && EndsWell(At(p, es, n).pc) && j < |Plan(p)|
    ensures CarriedOut(p, es, n, j)
  {
    hide At, Plan, CarriedOut;
    EverythingBefore(p, es, n, |Plan(p)|, j);
  }

  // ---- the first policy check ----

  /** The first policy decision arrives at event a. */
  ghost predicate PolicyDecidedAt(p: Input, es: seq<Event>, a: nat, deny: bool) {
    a < |es| && At(p, es, a).pc == Policy && es[a] == Answer(PolicyDecision(deny))
  }

  lemma {:induction false} StartFrom(p: Input, es: seq<Event>, n: nat, i: nat) returns (a: nat)
    requires n <= |es|
    requires Position(At(p, es, n).pc) == i || (i == |Plan(p)| && EndsWell(At(p, es, n).pc))
    ensures a < n && PolicyDecidedAt(p, es, a, false) && InputsReady(p)
    decreases i
  {
    hide At, Plan, Next, InputsReady;
    var x := TurnFrom(p, es, n, i);
    if i == 0 { a := x; } else { a := StartFrom(p, es, x, i - 1); }
  }

  /** The body leaves the policy check with the first decision and never returns to it. */
  lemma PolicyOnce(p: Input, es: seq<Event>, a: nat, deny: bool, b: nat, other: bool)
    requires PolicyDecidedAt(p, es, a, deny) && PolicyDecidedAt(p, es, b, other)
    ensures a == b
  {
    hide At, Next, Ahead, Over;
    PolicyLeft(p, es, a, deny);
    PolicyLeft(p, es, b, other);
    if a < b { Forward(p, es, a + 1, b); NotBackToPolicy(At(p, es, a + 1).pc); }
    if b < a { Forward(p, es, b + 1, a); NotBackToPolicy(At(p, es, b + 1).pc); }
  }

  lemma NotBackToPolicy(pc: Pc)
    requires Over(pc) || Position(pc) >= 0
    ensures !Over(Policy) && !Ahead(pc, Policy) && pc != Policy
  {
  }

  lemma PolicyLeft(p: Input, es: seq<Event>, a: nat, deny: bool)
    requires PolicyDecidedAt(p, es, a, deny)
    ensures Over(At(p, es, a + 1).pc) || Position(At(p, es, a + 1).pc) >= 0
  {
    hide Plan, AgentInputs.Missing;
  }

  /** Nothing of the plan is begun, no step is handed to an activity and no completion is claimed,
      unless the first policy decision, the only one of that check, did not deny and every required
      input was there. */
  lemma PolicyFirst(p: Input, es: seq<Event>, n: nat)
    requires n <= |es| && (Position(At(p, es, n).pc) >= 0 || EndsWell(At(p, es, n).pc))
    ensures InputsReady(p)
    ensures exists a: nat :: a < n && PolicyDecidedAt(p, es, a, false) && forall b: nat, d :: PolicyDecidedAt(p, es, b, d) ==> b == a
  {
    hide At, Plan, InputsReady, PolicyDecidedAt;
    var pc := At(p, es, n).pc;
    var a := StartFrom(p, es, n, if Position(pc) >= 0 then Position(pc) else |Plan(p)|);
    forall b: nat, d | PolicyDecidedAt(p, es, b, d) ensures b == a { PolicyOnce(p, es, b, d, a, false); }
  }

  // ---- what each result rests on ----

  /** Why a run that is not over ends with this result: the state it is in, and the event. */
  predicate Cause(p: Input, s: State, e: Event, r: Result) {
    var i := NextPosition(s.pc);
    var turn := i >= 0 && Turns(p, s, e, i);
    match r
    case Completed => turn && i == |Plan(p)| && !s.warnings
    case CompletedWithWarnings => turn && i == |Plan(p)| && s.warnings
    case Cancelled =>
      (turn && i < |Plan(p)| && s.cancelled) || (s.pc.Decision? && e == Wake && (s.cancelled || s.rejected))
    case Failed =>
      (s.pc == Policy && e == Answer(PolicyDecision(false)) && !InputsReady(p))
      || ((s.pc.ReadStep? || s.pc.WriteStep?) && e == Throw)
      || (s.pc.RecordFailedRead? && e == Answer(Ack))
      || (s.pc.WriteStep? && e.Answer? && e.reply.StepResult? && e.reply.failed)
      || (turn && i < |Plan(p)| && !s.cancelled && Plan(p)[i].mode == Write && !p.shadow && s.lastSha.None?)
    case Expired => s.pc.Decision? && e == Timeout
    case PolicyBlocked => (s.pc == Policy || s.pc.Recheck?) && e == Answer(PolicyDecision(true))
  }

  lemma TurnEnds(p: Input, s: State, e: Event, i: nat, r: Result)
    requires Turns(p, s, e, i) && i <= |Plan(p)|
    ensures Enter(p, s, i).pc == Finalize(r) <==> Cause(p, s, e, r)
  {
    hide Plan, InputsReady;
  }

  lemma AckEnds(p: Input, s: State, r: Result)
    requires Placed(p, s) && !Over(s.pc)
    ensures OnAck(p, s).pc == Finalize(r) <==> Cause(p, s, Answer(Ack), r)
  {
    if NextPosition(s.pc) >= 1 {
      hide Plan, Enter, InputsReady, Placed, OnAck, Cause, Turns;
      NextInPlan(p, s);
      TurnEnds(p, s, Answer(Ack), NextPosition(s.pc), r);
    } else {
      hide Plan, Enter, InputsReady, Placed;
    }
  }

  lemma PolicyEnds(p: Input, s: State, deny: bool, r: Result)
    requires !Over(s.pc)
    ensures OnAnswer(p, s, PolicyDecision(deny)).pc == Finalize(r) <==> Cause(p, s, Answer(PolicyDecision(deny)), r)
  {
    hide Plan, Enter, OnAck, AgentInputs.Missing;
    if s.pc.Policy? && !deny && InputsReady(p) { TurnEnds(p, s, Answer(PolicyDecision(deny)), 0, r); }
  }

  lemma AnswerEnds(p: Input, s: State, a: Reply, r: Result)
    requires Placed(p, s) && !Over(s.pc)
    ensures OnAnswer(p, s, a).pc == Finalize(r) <==> Cause(p, s, Answer(a), r)
  {
    if a.Ack? {
      hide OnAck, Cause, Placed;
      AckEnds(p, s, r);
    } else if a.PolicyDecision? {
      PolicyEnds(p, s, a.deny, r);
    } else {
      hide Plan, Enter, OnAck, AgentInputs.Missing, Placed;
    }
  }

  /** A run that is not over comes to finalize a result exactly for one of that result's causes. */
  lemma EndsExactly(p: Input, s: State, e: Event, r: Result)
    requires Placed(p, s) && !Over(s.pc)
    ensures Next(p, s, e).pc == Finalize(r) <==> Cause(p, s, e, r)
  {
    hide Plan, OnAnswer, InputsReady, Placed, Turns;
    if e.Answer? {
      hide Cause;
      AnswerEnds(p, s, e.reply, r);
    } else {
      OtherEnds(p, s, e, r);
    }
  }

  lemma OtherEnds(p: Input, s: State, e: Event, r: Result)
    requires !Over(s.pc) && !e.Answer?
    ensures Next(p, s, e).pc == Finalize(r) <==> Cause(p, s, e, r)
  {
    hide Plan, OnAnswer, InputsReady, Turns;
    if NextPosition(s.pc) >= 0 { NotTurned(p, s, e, NextPosition(s.pc)); }
  }

  lemma NotTurned(p: Input, s: State, e: Event, i: nat)
    requires !e.Answer?
    ensures !Turns(p, s, e, i)
  {
  }

  lemma ResultStays(p: Input, s: State, e: Event, r: Result)
    requires Claims(s.pc, r)
    ensures Claims(Next(p, s, e).pc, r) || Next(p, s, e).pc == Broken
  {
    hide Plan, Enter, AgentInputs.Missing;
  }

  lemma BrokenStays(p: Input, s: State, e: Event)
    requires s.pc == Broken
    ensures Next(p, s, e).pc == Broken
  {
    hide Plan, Enter, AgentInputs.Missing;
  }

  /** A result is claimed only after one of its causes. */
  lemma {:induction false} ResultHasCause(p: Input, es: seq<Event>, n: nat, r: Result) returns (x: nat)
    requires n <= |es| && Claims(At(p, es, n).pc, r)
    ensures x < n && !Over(At(p, es, x).pc) && Cause(p, At(p, es, x), es[x], r)
  {
    hide Next, Cause, Placed;
    AlwaysPlaced(p, es, n - 1);
    var s := At(p, es, n - 1);
    if Over(s.pc) {
      OverClaims(p, s, es[n - 1], r);
      x := ResultHasCause(p, es, n - 1, r);
    } else {
      NotClosed(p, s, es[n - 1], r);
      EndsExactly(p, s, es[n - 1], r);
      x := n - 1;
    }
  }

  lemma OverClaims(p: Input, s: State, e: Event, r: Result)
    requires Over(s.pc) && Claims(Next(p, s, e).pc, r)
    ensures Claims(s.pc, r)
  {
    hide Plan, Enter, AgentInputs.Missing;
  }

  lemma NotClosed(p: Input, s: State, e: Event, r: Result)
    requires !Over(s.pc) && Claims(Next(p, s, e).pc, r)
    ensures Next(p, s, e).pc == Finalize(r)
  {
    hide Plan, Enter, AgentInputs.Missing, OnAck;
    EnterNotClosed(p, s, 0, r);
    AckNotClosed(p, s, r);
  }

  lemma AckNotClosed(p: Input, s: State, r: Result)
    requires !Over(s.pc)
    ensures OnAck(p, s).pc != Closed(r)
  {
    hide Plan, Enter;
    if NextPosition(s.pc) >= 0 { EnterNotClosed(p, s, NextPosition(s.pc), r); }
  }

  lemma EnterNotClosed(p: Input, s: State, i: nat, r: Result)
    requires !Over(s.pc)
    ensures Enter(p, s, i).pc != Closed(r)
  {
    hide Plan;
  }

  /** After a cause no other result is ever claimed: the run claims that one, or broke while it was
      being finalized. */
  lemma {:induction false} CauseDecides(p: Input, es: seq<Event>, x: nat, n: nat, r: Result)
    requires x < n <= |es| && !Over(At(p, es, x).pc) && Cause(p, At(p, es, x), es[x], r)
    ensures Claims(At(p, es, n).pc, r) || At(p, es, n).pc == Broken
  {
    hide Next, Cause, Placed, Over;
    if n == x + 1 {
      AlwaysPlaced(p, es, x);
      EndsExactly(p, At(p, es, x), es[x], r);
    } else {
      CauseDecides(p, es, x, n - 1, r);
      var s := At(p, es, n - 1);
      if s.pc == Broken { BrokenStays(p, s, es[n - 1]); } else { ResultStays(p, s, es[n - 1], r); }
    }
  }

  /** A denial, of the run or of a write, ends the run as policy-blocked and as nothing else. */
  lemma DenialBlocks(p: Input, es: seq<Event>, x: nat, n: nat)
    requires x < n <= |es| && (At(p, es, x).pc == Policy || At(p, es, x).pc.Recheck?) && es[x] == Answer(PolicyDecision(true))
    ensures Claims(At(p, es, n).pc, PolicyBlocked) || At(p, es, n).pc == Broken
  {
    hide At, Plan, Turns;
    CauseDecides(p, es, x, n, PolicyBlocked);
  }
}
