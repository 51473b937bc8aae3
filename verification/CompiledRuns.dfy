/** Durable runs of compiled plans: which proposal the workflow hands a write, and that it is the one
    the local runtime pairs with it. */
module CompiledRuns {
  import opened Text
  import opened AgentSpec
  import opened Workflow
  import opened WorkflowSafety
  import opened TraceCompiler
  import C = CompiledTraces
  import L = LocalRuntime
  import E = RunEngine
  import R = Reconciliation

  /** Event y answered the read or proposal of position j, and it did not fail. */
  ghost predicate Answered(p: Input, es: seq<Event>, y: nat, j: int) {
    && y < |es| && At(p, es, y).pc.ReadStep? && At(p, es, y).pc.i == j
    && es[y].Answer? && es[y].reply.StepResult? && !es[y].reply.failed
  }

  /** Event y is the one answer of position j. */
  ghost predicate AnsweredOnly(p: Input, es: seq<Event>, y: nat, j: int) {
    Answered(p, es, y, j) && forall z: nat :: Answered(p, es, z, j) ==> z == y
  }

  /** The body has left position i - 1 behind, or is recording its answer. */
  predicate Past(pc: Pc, i: nat) { Position(pc) == i || (pc.RecordRead? && pc.i + 1 == i) }

  predicate Answers(s: State, e: Event, j: int) {
    s.pc.ReadStep? && s.pc.i == j && e.Answer? && e.reply.StepResult? && !e.reply.failed
  }

  lemma EnterPast(p: Input, s: State, k: nat, i: nat)
    requires Past(Enter(p, s, k).pc, i) && 0 < i && !Over(Enter(p, s, k).pc)
    ensures k == i
  {
    hide Plan;
  }

  lemma AckPast(p: Input, s: State, i: nat)
    requires Placed(p, s) && !p.shadow && 0 < i <= |Plan(p)| && Plan(p)[i - 1].mode != Write && Past(OnAck(p, s).pc, i)
    ensures Past(s.pc, i)
  {
    hide Plan, Enter;
    if s.pc.RecordRead? || s.pc.RecordSkipped? || s.pc.RecordWrite? { EnterPast(p, s, s.pc.i + 1, i); }
  }

  lemma AnswerPast(p: Input, s: State, r: Reply, i: nat)
    requires Placed(p, s) && !p.shadow && 0 < i <= |Plan(p)| && Plan(p)[i - 1].mode != Write && Past(OnAnswer(p, s, r).pc, i)
    ensures Past(s.pc, i) || Answers(s, Answer(r), i - 1)
  {
    hide Plan, Enter, OnAck, AgentInputs.Missing;
    if r.Ack? { AckPast(p, s, i); }
    else if r.PolicyDecision? && s.pc.Policy? && !r.deny && AgentInputs.Missing(p.spec.inputs, p.inputs) == [] { EnterPast(p, s, 0, i); }
  }

  lemma NextPast(p: Input, s: State, e: Event, i: nat)
    requires Placed(p, s) && !p.shadow && 0 < i <= |Plan(p)| && Plan(p)[i - 1].mode != Write && Past(Next(p, s, e).pc, i)
    ensures Past(s.pc, i) || Answers(s, e, i - 1)
  {
    hide Plan, OnAnswer;
    if e.Answer? { AnswerPast(p, s, e.reply, i); }
  }

  /** A body past a position that does not write has had its answer. */
  lemma {:induction false} AnswerFrom(p: Input, es: seq<Event>, n: nat, i: nat) returns (y: nat)
    requires n <= |es| && !p.shadow && 0 < i <= |Plan(p)| && Plan(p)[i - 1].mode != Write && Past(At(p, es, n).pc, i)
    ensures y < n && Answered(p, es, y, i - 1)
  {
    hide Next, Placed, Past, Plan;
    if n == 0 { NotPastAtFirst(i); }
    AlwaysPlaced(p, es, n - 1);
    NextPast(p, At(p, es, n - 1), es[n - 1], i);
    if Past(At(p, es, n - 1).pc, i) { y := AnswerFrom(p, es, n - 1, i); } else { y := n - 1; }
  }

  lemma NotPastAtFirst(i: nat)
    ensures !Past(Init().pc, i)
  {
  }

  lemma AnsweredMoves(p: Input, es: seq<Event>, y: nat, j: nat)
    requires Answered(p, es, y, j)
    ensures At(p, es, y + 1).pc == RecordRead(j)
    ensures Proposes(At(p, es, y), es[y]) <==> es[y].reply.sha != ""
  {
    hide OnAck, Enter;
  }

  /** Whatever still reads position j comes before its answer. */
  lemma NoneAfter(p: Input, es: seq<Event>, y: nat, j: nat, z: nat)
    requires Answered(p, es, y, j) && z < |es| && At(p, es, z).pc == ReadStep(j)
    ensures z <= y
  {
    hide At, Next, Proposes, Ahead, Over;
    AnsweredMoves(p, es, y, j);
    if y < z {
      Forward(p, es, y + 1, z);
      NotBack(j);
    }
  }

  lemma NotBack(j: nat)
    ensures !Ahead(RecordRead(j), ReadStep(j)) && !Over(ReadStep(j))
  {
  }

  lemma AnsweredOnce(p: Input, es: seq<Event>, y: nat, z: nat, j: nat)
    requires Answered(p, es, y, j) && Answered(p, es, z, j)
    ensures y == z
  {
    hide At, Next;
    NoneAfter(p, es, y, j, z);
    NoneAfter(p, es, z, j, y);
  }

  /** Between the answer of the position before a write and its dispatch nothing is read. */
  lemma NothingReadBetween(p: Input, es: seq<Event>, y: nat, x: nat, n: nat, i: nat)
    requires 0 < i && Answered(p, es, y, i - 1) && y < x < n <= |es| && At(p, es, n).pc == RecordApplying(i)
    ensures !At(p, es, x).pc.ReadStep?
  {
    hide At, Next, Plan, Proposes, Ahead, Over, Placed;
    AnsweredMoves(p, es, y, i - 1);
    AlwaysPlaced(p, es, x);
    AlwaysPlaced(p, es, n);
    Forward(p, es, y + 1, x);
    Forward(p, es, x, n);
    if At(p, es, x).pc.ReadStep? { BetweenRead(p, At(p, es, x), At(p, es, n), i); }
  }

  lemma BetweenRead(p: Input, s: State, t: State, i: nat)
    requires 0 < i && s.pc.ReadStep? && t.pc == RecordApplying(i) && Placed(p, s) && Placed(p, t)
    ensures Over(s.pc) || s.pc == RecordRead(i - 1) || Ahead(RecordRead(i - 1), s.pc) ==>
            !Over(t.pc) && s.pc != t.pc && !Ahead(s.pc, t.pc)
  {
    hide Plan;
  }

  lemma WriteAt(p: Input, es: seq<Event>, n: nat, i: nat)
    requires n <= |es| && At(p, es, n).pc == RecordApplying(i)
    ensures i < |Plan(p)| && Plan(p)[i].mode == Write && !p.shadow && At(p, es, n).lastSha.Some?
  {
    hide At, Next, Plan;
    AlwaysPlaced(p, es, n);
  }

  /** A proposal of position j at event x, before a later position is applied. */
  lemma ProposalBefore(p: Input, es: seq<Event>, x: nat, n: nat, i: nat)
    requires x < n <= |es| && At(p, es, x).pc.ReadStep? && At(p, es, n).pc == RecordApplying(i)
    ensures At(p, es, x).pc.i < i
  {
    hide At, Next, Plan, Placed, Ahead;
    AlwaysPlaced(p, es, x);
    AlwaysPlaced(p, es, n);
    Forward(p, es, x, n);
    ReadBefore(p, At(p, es, x), At(p, es, n), i);
  }

  lemma ReadBefore(p: Input, s: State, t: State, i: nat)
    requires s.pc.ReadStep? && t.pc == RecordApplying(i) && Placed(p, s) && Placed(p, t) && Ahead(s.pc, t.pc)
    ensures s.pc.i < i
  {
    hide Plan;
  }

  lemma LatestReads(p: Input, es: seq<Event>, x: nat, n: nat)
    requires LatestProposal(p, es, x, n)
    ensures x < n <= |es| && Answers(At(p, es, x), es[x], At(p, es, x).pc.i) && es[x].reply.sha != ""
  {
    hide At;
  }

  lemma AnsweredHere(p: Input, es: seq<Event>, x: nat, y: nat, j: nat)
    requires x < |es| && Answers(At(p, es, x), es[x], j) && Answered(p, es, y, j)
    ensures x == y
  {
    hide At;
    AnsweredOnce(p, es, x, y, j);
  }

  /** The write right behind position i - 1 is handed that position's proposal exactly when it
      answered with a hash; otherwise it is handed an older one. */
  lemma LatestIsPrevious(p: Input, es: seq<Event>, n: nat, i: nat, x: nat, y: nat)
    requires 0 < i && n <= |es| && At(p, es, n).pc == RecordApplying(i)
    requires LatestProposal(p, es, x, n) && y < n && Answered(p, es, y, i - 1)
    ensures At(p, es, x).pc.ReadStep?
    ensures if es[y].reply.sha != "" then x == y else At(p, es, x).pc.i < i - 1
  {
    hide At, Next, Plan, Proposes, Answered;
    LatestReads(p, es, x, n);
    AnsweredMoves(p, es, y, i - 1);
    if y < x { NothingReadBetween(p, es, y, x, n, i); }
    ProposalBefore(p, es, x, n, i);
    if At(p, es, x).pc.i == i - 1 { AnsweredHere(p, es, x, y, i - 1); }
  }

  // ---- both runtimes select one proposal ----

  /** A run of a compiled plan in which the write of position i is being applied at event n. */
  ghost predicate Applies(q: Request, p: Input, es: seq<Event>, n: nat, i: nat) {
    Compile(q).Compiled? && p.spec == Compile(q).spec && Dispatches(p, es, n, i)
  }

  lemma CompiledPlan(q: Request, p: Input)
    requires Compile(q).Compiled? && p.spec == Compile(q).spec
    ensures Plan(p) == p.spec.steps
  {
    hide Compile, ByOrder, Contiguous;
    C.NumberedInOrder(q);
  }

  lemma PairBefore(q: Request, p: Input, es: seq<Event>, n: nat, i: nat)
    requires Applies(q, p, es, n, i)
    ensures 0 < i < |Plan(p)| && Plan(p) == p.spec.steps && Plan(p)[i - 1].mode != Write && !p.shadow && At(p, es, n).lastSha.Some?
    ensures C.LatestProposer(p.spec.steps, i) == Some(i - 1)
    ensures Bound(p.spec.steps[i].inputs, "pairs_with") == Some(Constant(Words(p.spec.steps[i - 1].outputKey)))
    ensures forall j :: 0 <= j < |p.spec.steps| && p.spec.steps[j].outputKey == p.spec.steps[i - 1].outputKey ==> j == i - 1
  {
    hide At, Next, Plan, Compile, Bound;
    WriteAt(p, es, n, i);
    CompiledPlan(q, p);
    C.WritePairsWithLatest(q, i);
  }

  /** In every interleaving of every run of a compiled plan, a write that is dispatched comes right
      behind the one step its `pairs_with` names, that step has answered exactly once, and the
      proposal the workflow hands the write is that answer exactly when the answer carried a hash.
      When it carried none, the workflow hands the write the proposal of an earlier action. */
  lemma SameProposalSelected(q: Request, p: Input, es: seq<Event>, n: nat, i: nat) returns (x: nat, y: nat)
    requires Applies(q, p, es, n, i)
    ensures LatestProposal(p, es, x, n) && GivenProposal(p, es, x, n)
    ensures 0 < i < |p.spec.steps| && Bound(p.spec.steps[i].inputs, "pairs_with") == Some(Constant(Words(p.spec.steps[i - 1].outputKey)))
    ensures y < n && AnsweredOnly(p, es, y, i - 1)
    ensures At(p, es, x).pc.ReadStep? && (At(p, es, x).pc.i == i - 1 <==> es[y].reply.sha != "")
    ensures if es[y].reply.sha != "" then x == y else At(p, es, x).pc.i < i - 1
  {
    hide At, Next, Plan, Compile, Bound, Proposes, Past;
    PairBefore(q, p, es, n, i);
    PastWrite(i);
    y := AnswerFrom(p, es, n, i);
    x := ProposalFrom(p, es, n);
    LatestProposes(p, es, x, n);
    DispatchCarries(p, es, n, i);
    LatestIsPrevious(p, es, n, i, x, y);
    var j := i - 1;
    forall z: nat | Answered(p, es, z, j) ensures z == y { AnsweredOnce(p, es, z, y, j); }
  }

  lemma PastWrite(i: nat)
    ensures Past(RecordApplying(i), i)
  {
  }

  /** So the diff the workflow hands a write is the slice the local runtime gives it, exactly when
      the paired step answered the workflow with what it proposes in the local runtime. */
  lemma SameDiffExactly<W>(q: Request, reg: L.Registry<W>, h: E.Digest, inputs: Values, ctx: E.Context, st: E.State<W>, merged: R.Diff,
                           p: Input, es: seq<Event>, n: nat, i: nat) returns (y: nat)
    requires Applies(q, p, es, n, i)
    requires L.FirstPass(reg, h, p.spec, ByOrder(p.spec.steps), inputs, ctx, st).failure.None?
    ensures 0 < i < |p.spec.steps| && Answered(p, es, y, i - 1)
    ensures var slice := L.Slice(p.spec.steps[i], L.FirstPass(reg, h, p.spec, ByOrder(p.spec.steps), inputs, ctx, st).proposals, merged);
      es[y].reply.sha != "" ==>
        (At(p, es, n + 1).lastDiff == slice <==> es[y].reply.diff == C.ProposalAt(reg, h, p.spec, p.spec.steps, i - 1, inputs, ctx, st))
  {
    hide At, Next, Plan, Compile, Bound, Proposes, ByOrder, L.FirstPass, L.Slice, C.ProposalAt, LatestProposal;
    var x;
    x, y := SameProposalSelected(q, p, es, n, i);
    PairBefore(q, p, es, n, i);
    WriteAt(p, es, n, i);
    C.SliceIsLatestProposal(q, reg, h, inputs, ctx, st, i, merged);
  }

  // ---- when the paired step answers without a hash ----

  /** What follows an answer without a hash, up to the dispatch of the write behind it. */
  function Unhashed(stepId: string, sha: string): seq<Event> {
    [Answer(StepResult(false, "", None, 0, None)), Answer(Ack), Answer(Ack), Answer(Ack), Approve(stepId, sha), Wake,
     Answer(PolicyDecision(false)), Answer(Ack)]
  }

  /** The state after further events. */
  function After(p: Input, s: State, more: seq<Event>): State
    decreases |more|
  { if more == [] then s else Next(p, After(p, s, more[..|more| - 1]), more[|more| - 1]) }

  lemma {:induction false} AtAfter(p: Input, es: seq<Event>, more: seq<Event>, n: nat)
    requires n <= |more|
    ensures At(p, es + more, |es| + n) == After(p, At(p, es, |es|), more[..n])
  {
    hide Next;
    if n == 0 {
      Prefix(p, es, es + more, |es|);
    } else {
      AtAfter(p, es, more, n - 1);
      assert more[..n][..n - 1] == more[..n - 1];
    }
  }

  /** A write that needs approval, behind a step that is about to answer. */
  predicate AboutToAnswer(p: Input, s: State, i: nat) {
    && 0 < i < |Plan(p)| && Plan(p)[i].mode == Write && Plan(p)[i].approvalRequired && !p.shadow
    && s.pc == ReadStep(i - 1) && !s.cancelled
  }

  lemma UnhashedEnters(p: Input, s: State, i: nat)
    requires AboutToAnswer(p, s, i)
    ensures var t := Next(p, Next(p, s, Answer(StepResult(false, "", None, 0, None))), Answer(Ack));
      if s.lastSha.None? then t.pc == Finalize(Failed)
      else t == s.(pc := RecordWaiting(i), pending := Some((Plan(p)[i].stepId, s.lastSha.value)), approved := false, rejected := false)
  {
    hide Plan;
    var a := Next(p, s, Answer(StepResult(false, "", None, 0, None)));
    assert a == s.(pc := RecordRead(i - 1));
  }

  lemma WaitingDispatches(p: Input, s: State, i: nat, stepId: string, sha: string)
    requires s.pc == RecordWaiting(i) && s.pending == Some((stepId, sha)) && !s.rejected && !s.cancelled
    ensures var b := Next(p, Next(p, s, Answer(Ack)), Answer(Ack));
      var d := Next(p, Next(p, b, Approve(stepId, sha)), Wake);
      var r := Next(p, d, Answer(PolicyDecision(false)));
      && r.pc == RecordApplying(i) && Next(p, r, Answer(Ack)).pc == WriteStep(i)
      && SameProposal(s, r) && SameProposal(s, Next(p, r, Answer(Ack)))
  {
    hide Plan, Enter;
    var a := Next(p, s, Answer(Ack));
    assert a == s.(pc := CreateApproval(i));
    var b := Next(p, a, Answer(Ack));
    assert b == s.(pc := Decision(i));
    var c := Next(p, b, Approve(stepId, sha));
    assert c == b.(approved := true);
    var d := Next(p, c, Wake);
    assert d == c.(pending := None, pc := Recheck(i));
  }

  /** An answer without a hash leaves the older proposal in place: in any run that carries one, the
      write behind the answering step is then dispatched with that older hash and diff, once it is
      approved; in a run that carries none, the run ends as failed. */
  lemma OlderProposalDispatched(p: Input, es: seq<Event>, i: nat)
    requires AboutToAnswer(p, At(p, es, |es|), i)
    ensures var s := At(p, es, |es|);
      if s.lastSha.None? then At(p, es + Unhashed("", "")[..2], |es| + 2).pc == Finalize(Failed)
      else
        var more := es + Unhashed(Plan(p)[i].stepId, s.lastSha.value);
        Dispatches(p, more, |more| - 1, i) && SameProposal(s, At(p, more, |more|))
  {
    hide Next, At, Plan, After;
    var s := At(p, es, |es|);
    UnhashedEnters(p, s, i);
    if s.lastSha.None? {
      var two := Unhashed("", "")[..2];
      AtAfter(p, es, two, 2);
      AfterTwo(p, s, two);
    } else {
      var (id, sha) := (Plan(p)[i].stepId, s.lastSha.value);
      var all := Unhashed(id, sha);
      AtAfter(p, es, all, 7);
      AtAfter(p, es, all, 8);
      AfterAll(p, s, id, sha);
      assert all[..8] == all;
      WaitingDispatches(p, Next(p, Next(p, s, all[0]), all[1]), i, id, sha);
    }
  }

  lemma AfterTwo(p: Input, s: State, two: seq<Event>)
    requires |two| == 2
    ensures After(p, s, two[..2]) == Next(p, Next(p, s, two[0]), two[1])
  {
    hide Next;
    AfterNext(p, s, two, 1);
    AfterNext(p, s, two, 0);
    assert two[..0] == [];
  }

  lemma AfterNext(p: Input, s: State, more: seq<Event>, n: nat)
    requires n < |more|
    ensures After(p, s, more[..n + 1]) == Next(p, After(p, s, more[..n]), more[n])
  {
    hide Next;
    assert more[..n + 1][..n] == more[..n];
  }

  lemma AfterAll(p: Input, s: State, id: string, sha: string)
    ensures var all := Unhashed(id, sha);
      var b := Next(p, Next(p, Next(p, Next(p, s, all[0]), all[1]), all[2]), all[3]);
      var r := Next(p, Next(p, Next(p, b, all[4]), all[5]), all[6]);
      After(p, s, all[..7]) == r && After(p, s, all[..8]) == Next(p, r, all[7])
  {
    hide Next;
    var all := Unhashed(id, sha);
    AfterTwo(p, s, all[..2]);
    assert all[..2][..2] == all[..2];
    AfterNext(p, s, all, 2); AfterNext(p, s, all, 3); AfterNext(p, s, all, 4);
    AfterNext(p, s, all, 5); AfterNext(p, s, all, 6); AfterNext(p, s, all, 7);
  }
}
