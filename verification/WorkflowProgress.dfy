/** Durable runs come to an end: every answer moves the body on, and a run in which nothing goes wrong
    completes. */
module WorkflowProgress {
  import opened Text
  import opened AgentSpec
  import opened Workflow
  import opened WorkflowSafety
  import opened WorkflowRuns
  import AgentInputs

  // ---- every answer moves the body on ----

  /** The event is what the body waits for: its activity answers, or its decision falls. */
  predicate Answers(s: State, e: Event) {
    match s.pc
    case Policy => e.Answer? && e.reply.PolicyDecision?
    case Recheck(_) => e.Answer? && e.reply.PolicyDecision?
    case ReadStep(_) => e.Answer? && e.reply.StepResult?
    case WriteStep(_) => e.Answer? && e.reply.StepResult?
    case Decision(_) => (e == Wake && (s.approved || s.rejected || s.cancelled)) || e == Timeout
    case Closed(_) => false
    case Broken => false
    case _ => e == Answer(Ack)
  }

  /** How far the body has come. */
  function Rank(p: Input, pc: Pc): int {
    match pc
    case Closed(_) => Last(p) + 1
    case Broken => Last(p) + 2
    case Finalize(_) => Last(p)
    case _ => 15 * (Position(pc) + 1) + Stage(pc)
  }

  function Last(p: Input): nat { 15 * (|Plan(p)| + 1) }

  lemma AnswerMoves(p: Input, s: State, e: Event)
    requires Placed(p, s) && Answers(s, e)
    ensures Next(p, s, e).pc != s.pc
  {
    if NextPosition(s.pc) >= 0 {
      hide Plan, Enter, AgentInputs.Missing;
      EnterElsewhere(p, s, NextPosition(s.pc));
    } else {
      hide Plan, Enter, AgentInputs.Missing, Placed;
    }
  }

  lemma EnterElsewhere(p: Input, s: State, i: nat)
    requires i == NextPosition(s.pc)
    ensures Enter(p, s, i).pc != s.pc
  {
    hide Plan;
  }

  lemma RankGrows(p: Input, s: State, t: State, e: Event)
    requires Placed(p, s) && Placed(p, t) && t == Next(p, s, e)
    ensures Rank(p, t.pc) >= Rank(p, s.pc)
    ensures t.pc != s.pc ==> Rank(p, t.pc) > Rank(p, s.pc)
  {
    hide Next, Placed, Plan;
    NextKeeps(p, s, e);
    assert Position(s.pc) < |Plan(p)| && Position(t.pc) < |Plan(p)| by { PositionBounded(p, s); PositionBounded(p, t); }
    if Over(s.pc) { OverMoves(p, s, e); }
  }

  lemma PositionBounded(p: Input, s: State)
    requires Placed(p, s)
    ensures Position(s.pc) < |Plan(p)|
  {
    hide Plan;
  }

  lemma OverMoves(p: Input, s: State, e: Event)
    requires Over(s.pc)
    ensures Next(p, s, e).pc == s.pc || Next(p, s, e).pc == Broken || (s.pc.Finalize? && Next(p, s, e).pc == Closed(s.pc.result))
    ensures s.pc == Broken ==> Next(p, s, e).pc == Broken
    ensures s.pc.Closed? ==> Next(p, s, e).pc == s.pc
  {
    hide Plan, Enter, AgentInputs.Missing;
  }

  /** The answers that arrived before n. */
  function Answered(p: Input, es: seq<Event>, n: nat): nat
    requires n <= |es|
  { if n == 0 then 0 else Answered(p, es, n - 1) + if Answers(At(p, es, n - 1), es[n - 1]) then 1 else 0 }

  /** With every answer the body is at least one await further, whatever signals come between. */
  lemma {:induction false} AnsweredIsProgress(p: Input, es: seq<Event>, n: nat)
    requires n <= |es|
    ensures Answered(p, es, n) <= Rank(p, At(p, es, n).pc)
  {
    hide Next, Placed, Rank, Answers;
    if n == 0 {
      InitRank(p);
    } else {
      AnsweredIsProgress(p, es, n - 1);
      AlwaysPlaced(p, es, n - 1);
      AlwaysPlaced(p, es, n);
      var s := At(p, es, n - 1);
      RankGrows(p, s, At(p, es, n), es[n - 1]);
      if Answers(s, es[n - 1]) { AnswerMoves(p, s, es[n - 1]); }
    }
  }

  lemma InitRank(p: Input)
    ensures Rank(p, Init().pc) == 0
  {
    hide Plan;
  }

  /** A run is over, closed with its result or broken, once fifteen awaits a step, and fifteen more,
      were answered. */
  lemma AnsweredRunsEnd(p: Input, es: seq<Event>, n: nat)
    requires n <= |es| && Answered(p, es, n) > 15 * (|Plan(p)| + 1)
    ensures At(p, es, n).pc.Closed? || At(p, es, n).pc == Broken
  {
    hide At, Plan, Placed, Answered;
    AnsweredIsProgress(p, es, n);
    AlwaysPlaced(p, es, n);
    PositionBounded(p, At(p, es, n));
  }

  // ---- a run in which nothing goes wrong ----

  /** The event neither fails, denies, stops nor gives up anything; a proposal comes with its hash. */
  predicate Smooth(p: Input, s: State, e: Event) {
    && e != Throw && e != Cancel && !e.Reject? && e != Timeout
    && e != Answer(PolicyDecision(true))
    && (e.Answer? && e.reply.StepResult? ==>
        && !e.reply.failed
        && (s.pc.ReadStep? && s.pc.i < |Plan(p)| && Plan(p)[s.pc.i].mode == ProposeWrite ==> e.reply.sha != ""))
  }

  ghost predicate AllSmooth(p: Input, es: seq<Event>) { forall x :: 0 <= x < |es| ==> Smooth(p, At(p, es, x), es[x]) }

  ghost predicate ProposedBefore(p: Input, i: nat)
    requires i < |Plan(p)|
  { exists j :: 0 <= j < i && Plan(p)[j].mode == ProposeWrite }

  /** Every write of the plan stands behind some proposal. */
  ghost predicate WritesProposed(p: Input) { forall i :: 0 <= i < |Plan(p)| && Plan(p)[i].mode == Write ==> ProposedBefore(p, i) }

  lemma {:induction false} NeverRejected(p: Input, es: seq<Event>, n: nat)
    requires n <= |es| && AllSmooth(p, es)
    ensures !At(p, es, n).rejected && !At(p, es, n).cancelled && At(p, es, n).pc != Broken
  {
    hide Plan, Next, Smooth;
    if n > 0 {
      NeverRejected(p, es, n - 1);
      assert Smooth(p, At(p, es, n - 1), es[n - 1]);
      NotRejected(p, At(p, es, n - 1), es[n - 1]);
    }
  }

  lemma NotRejected(p: Input, s: State, e: Event)
    requires Smooth(p, s, e) && !s.rejected && !s.cancelled && s.pc != Broken
    ensures var t := Next(p, s, e); !t.rejected && !t.cancelled && t.pc != Broken
  {
    hide Plan, AgentInputs.Missing;
  }

  /** A proposal once made stays known. */
  lemma {:induction false} ShaStays(p: Input, es: seq<Event>, m: nat, n: nat)
    requires m <= n <= |es| && At(p, es, m).lastSha.Some?
    ensures At(p, es, n).lastSha.Some?
  {
    hide Next;
    if m < n {
      ShaStays(p, es, m, n - 1);
      NextComes(p, At(p, es, n - 1), es[n - 1]);
    }
  }

  /** A carried-out proposal of a smooth run is known from then on. */
  lemma CarriedProposal(p: Input, es: seq<Event>, x: nat, j: nat)
    requires x < |es| && AllSmooth(p, es) && CarriedOut(p, es, x + 1, j) && Plan(p)[j].mode == ProposeWrite
    ensures At(p, es, x).lastSha.Some?
  {
    hide At, Plan, Next, Placed;
    var y: nat, z: nat :| y < z < x + 1 && ReadAndRecorded(p, es, y, z, j);
    assert Smooth(p, At(p, es, y), es[y]);
    NextComes(p, At(p, es, y), es[y]);
    NextIs(p, es, y);
    ShaStays(p, es, y + 1, x);
  }

  lemma NextIs(p: Input, es: seq<Event>, n: nat)
    requires n < |es|
    ensures At(p, es, n + 1) == Next(p, At(p, es, n), es[n])
  {
  }

  lemma CarriedByTurn(p: Input, es: seq<Event>, x: nat, i: nat, j: nat)
    requires x < |es| && j < i && Turns(p, At(p, es, x), es[x], i)
    ensures CarriedOut(p, es, x + 1, j)
  {
    hide At, Plan, CarriedOut;
    TurnCarries(p, es, x, i - 1 + 1);
    if j < i - 1 {
      TurnPosition(At(p, es, x).pc, i);
      EverythingBefore(p, es, x, i - 1, j);
      CarriedLater(p, es, x, x + 1, j);
    }
  }

  lemma TurnPosition(pc: Pc, i: nat)
    requires NextPosition(pc) == i && i > 0
    ensures Position(pc) == i - 1
  {
  }

  /** When a write of a smooth run is next, something has been proposed. */
  lemma ProposalKnown(p: Input, es: seq<Event>, x: nat, i: nat)
    requires x < |es| && AllSmooth(p, es) && WritesProposed(p) && i < |Plan(p)| && Plan(p)[i].mode == Write
    requires Turns(p, At(p, es, x), es[x], i)
    ensures At(p, es, x).lastSha.Some?
  {
    hide At, Plan, CarriedOut, Turns, AllSmooth;
    assert ProposedBefore(p, i);
    var j :| 0 <= j < i && Plan(p)[j].mode == ProposeWrite;
    CarriedByTurn(p, es, x, i, j);
    CarriedProposal(p, es, x, j);
  }

  /** No cause but completion arises in a smooth run. */
  lemma SmoothCause(p: Input, s: State, e: Event, r: Result)
    requires InputsReady(p) && Smooth(p, s, e) && !s.rejected && !s.cancelled && !s.pc.RecordFailedRead? && Cause(p, s, e, r)
    requires var i := NextPosition(s.pc); i >= 0 && Turns(p, s, e, i) && i < |Plan(p)| && Plan(p)[i].mode == Write ==> s.lastSha.Some?
    ensures r == if s.warnings then CompletedWithWarnings else Completed
  {
    hide Plan, InputsReady, Turns;
  }

  lemma NoFailedRead(p: Input, es: seq<Event>, n: nat)
    requires n <= |es| && AllSmooth(p, es)
    ensures !At(p, es, n).pc.RecordFailedRead?
  {
    hide At, Next, Turns, Plan;
    if At(p, es, n).pc.RecordFailedRead? {
      var x := MoveArrives(p, es, n);
    }
  }

  lemma SmoothClaims(p: Input, es: seq<Event>, n: nat, r: Result)
    requires n <= |es| && InputsReady(p) && WritesProposed(p) && AllSmooth(p, es) && Claims(At(p, es, n).pc, r)
    ensures r == Completed || r == CompletedWithWarnings
  {
    hide At, Plan, InputsReady, WritesProposed, Turns, Claims, Cause;
    var x := ResultHasCause(p, es, n, r);
    var s := At(p, es, x);
    NeverRejected(p, es, x);
    NoFailedRead(p, es, x);
    assert Smooth(p, s, es[x]);
    var i := NextPosition(s.pc);
    if i >= 0 && Turns(p, s, es[x], i) && i < |Plan(p)| && Plan(p)[i].mode == Write { ProposalKnown(p, es, x, i); }
    SmoothCause(p, s, es[x], r);
  }

  /** A run whose inputs are ready, whose every write stands behind a proposal, and in which nothing
      fails, is denied, rejected, cancelled or left to time out, completes once its awaits are
      answered: it closes as completed, with warnings exactly if a write came back unverified, and
      every position of the plan has been carried out. */
  lemma SmoothRunsComplete(p: Input, es: seq<Event>)
    requires InputsReady(p) && WritesProposed(p) && AllSmooth(p, es) && Answered(p, es, |es|) > 15 * (|Plan(p)| + 1)
    ensures var s := At(p, es, |es|);
      s.pc == Closed(if exists x: nat :: x < |es| && EndsWrite(At(p, es, x), es[x]) && At(p, es, x).pc.verified == Some(false)
                     then CompletedWithWarnings else Completed)
    ensures forall j :: 0 <= j < |Plan(p)| ==> CarriedOut(p, es, |es|, j)
  {
    hide At, Plan, InputsReady, WritesProposed, CarriedOut, Answered, AllSmooth, EndsWrite;
    AnsweredRunsEnd(p, es, |es|);
    NeverRejected(p, es, |es|);
    var r := At(p, es, |es|).pc.result;
    SmoothClaims(p, es, |es|, r);
    ResultIsHonest(p, es, |es|);
    forall j: nat | j < |Plan(p)| ensures CarriedOut(p, es, |es|, j) { CompletedDidEverything(p, es, |es|, j); }
  }
}
