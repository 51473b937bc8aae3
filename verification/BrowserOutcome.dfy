/** The shape of every executed plan: what ran, what stopped it, and what that means. */
module BrowserOutcome {
  import opened Text
  import opened BrowserPlan
  import opened BrowserExecute

  /** A step is marked as a write exactly when its action is one. */
  ghost predicate Marked(steps: seq<Step>) { forall k :: 0 <= k < |steps| ==> (steps[k].write <==> IsWrite(steps[k].action)) }

  lemma {:induction false} BlocksMarked(cs: seq<Change>, n: nat)
    requires n <= |cs|
    ensures Marked(Blocks(cs, n))
  {
    hide StepName;
    if n > 0 { BlocksMarked(cs, n - 1); }
  }

  lemma {:induction false} ConfirmsMarked(cs: seq<Change>, n: nat)
    requires n <= |cs|
    ensures Marked(Confirms(cs, n))
  {
    hide StepName;
    if n > 0 { ConfirmsMarked(cs, n - 1); }
  }

  lemma MarkedAppend(x: seq<Step>, y: seq<Step>)
    requires Marked(x) && Marked(y)
    ensures Marked(x + y)
  {
  }

  lemma SavingMarked(cs: seq<Change>, save: Option<string>)
    ensures Marked(Saving(cs, save))
  {
    ConfirmsMarked(cs, |cs|);
    hide Confirms;
    if Saving(cs, save) != [] { MarkedAppend(Saving(cs, save)[..1], Confirms(cs, |cs|)); }
  }

  /** The planner marks the writes, and only them. */
  lemma PlannerMarks(lower: string -> string, cs: seq<Change>, save: Option<string>)
    requires PlanOf(lower, cs, save).Planned?
    ensures Marked(PlanOf(lower, cs, save).steps)
  {
    hide Blocks, Saving, FirstObjection, Marked;
    BlocksMarked(cs, |cs|);
    SavingMarked(cs, save);
    MarkedAppend(Blocks(cs, |cs|), Saving(cs, save));
  }

  predicate Going(s: Step, o: StepOutcome) { o.status == if s.write then Status.Applied else Observed }

  predicate Stopping(s: Step, o: StepOutcome) {
    o.status == RefusedByBrowser || o.status == Failed || o.status == NotIssued || (o.status == Unverified && s.write)
  }

  predicate Names(s: Step, o: StepOutcome) { o.stepId == s.stepId && o.write == s.write && o.change == s.change }

  function Landed(outcomes: seq<StepOutcome>): nat {
    if outcomes == [] then 0
    else
      var o := outcomes[|outcomes| - 1];
      Landed(outcomes[..|outcomes| - 1]) + if o.write && (o.status == Status.Applied || o.status == Unverified) then 1 else 0
  }

  /** The requests sent are those of the first m steps, in order, each with the token minted for it. */
  ghost predicate SentUpTo(steps: seq<Step>, script: Script, r: Run, m: nat) {
    && m <= |steps| && |r.sent| == m
    && (forall k :: 0 <= k < m ==> r.sent[k] == (steps[k].stepId, script(k).token))
    && (forall k :: 0 <= k < m ==> r.sent[k].1 in r.spent)
    && (forall i, j :: 0 <= i < j < m ==> r.sent[i].1 != r.sent[j].1)
    && (forall t :: t in r.spent ==> exists k :: 0 <= k < m && r.sent[k].1 == t)
  }

  /** No halt yet: every step so far went through and was sent. */
  ghost predicate Running(steps: seq<Step>, script: Script, r: Run, n: nat) {
    && n <= |steps| && |r.outcomes| == n && r.haltedAt.None? && r.allVerified
    && (forall k :: 0 <= k < n ==> Names(steps[k], r.outcomes[k]) && Going(steps[k], r.outcomes[k]))
    && SentUpTo(steps, script, r, n)
  }

  /** Halted at step h: everything before went through, h itself stopped the run, everything after
      was skipped and nothing was sent after it. */
  ghost predicate Stopped(steps: seq<Step>, script: Script, r: Run, n: nat, h: nat) {
    && h < n <= |steps| && |r.outcomes| == n && r.haltedAt == Some(steps[h].stepId)
    && (r.allVerified <==> !steps[h].write)
    && (forall k :: 0 <= k < n ==> Names(steps[k], r.outcomes[k]))
    && (forall k :: 0 <= k < h ==> Going(steps[k], r.outcomes[k]))
    && Stopping(steps[h], r.outcomes[h])
    && (forall k :: h < k < n ==> r.outcomes[k].status == Skipped)
    && SentUpTo(steps, script, r, if r.outcomes[h].status == NotIssued then h else h + 1)
  }

  /** One step of a running plan: its outcome is appended; a step the gate holds back is not sent
      and halts; a sent step spends its token and either goes through or halts. */
  ghost predicate Advances(r: Run, t: Run, s: Step, token: string, o: StepOutcome) {
    && t.outcomes == r.outcomes + [o] && Names(s, o)
    && (if o.status == NotIssued then t.sent == r.sent && t.spent == r.spent
        else token !in r.spent && t.sent == r.sent + [(s.stepId, token)] && t.spent == r.spent + {token})
    && (if Going(s, o) then t.haltedAt.None? && t.allVerified == r.allVerified
        else Stopping(s, o) && t.haltedAt == Some(s.stepId) && t.allVerified == (r.allVerified && !s.write))
    && t.writesApplied == r.writesApplied + if o.write && (o.status == Status.Applied || o.status == Unverified) then 1 else 0
  }

  predicate Consents(ctx: Context) { !ctx.shadow && ctx.allowWrites && ctx.approved && ctx.present }

  lemma GateChecksReuse(ctx: Context, a: Action, token: string, spent: set<string>, windowMs: int)
    requires AuthorizeIssue(ctx, a, token, spent, windowMs).None?
    ensures token !in spent && |token| >= MIN_AUTHORIZATION_LENGTH
    ensures IsWrite(a) ==> Consents(ctx)
  {
  }

  lemma StepAdvances(b: Browser, ctx: Context, r: Run, s: Step, token: string, page: Page, reply: Option<Reply>)
    requires r.haltedAt.None? && (s.write <==> IsWrite(s.action))
    ensures var t := StepWith(b, ctx, r, s, token, page, reply); exists o :: Advances(r, t, s, token, o)
    ensures StepWith(b, ctx, r, s, token, page, reply).sent != r.sent && s.write ==> Consents(ctx)
  {
    hide AuthorizeIssue, VerifyWrite;
    var t := StepWith(b, ctx, r, s, token, page, reply);
    if AuthorizeIssue(ctx, s.action, token, r.spent, REQUEST_WINDOW_MS).None? {
      GateChecksReuse(ctx, s.action, token, r.spent, REQUEST_WINDOW_MS);
    }
    assert Advances(r, t, s, token, t.outcomes[|r.outcomes|]);
  }

  lemma SentStep(steps: seq<Step>, script: Script, r: Run, t: Run, n: nat)
    requires n < |steps| && SentUpTo(steps, script, r, n) && script(n).token !in r.spent
    requires t.sent == r.sent + [(steps[n].stepId, script(n).token)] && t.spent == r.spent + {script(n).token}
    ensures SentUpTo(steps, script, t, n + 1)
  {
    assert t.sent[n].1 == script(n).token;
    forall x | x in t.spent ensures exists k :: 0 <= k < n + 1 && t.sent[k].1 == x {
      if x in r.spent {
        var k :| 0 <= k < n && r.sent[k].1 == x;
        assert t.sent[k].1 == x;
      }
    }
  }

  // ---- runs under any answers ----

  /** What each request does to the page and what comes back: any content, told truly or not. */
  type Answers = nat -> (Page, Option<Reply>)

  /** The first n steps under the given answers. */
  function AnyRun(b: Browser, ctx: Context, script: Script, answers: Answers, steps: seq<Step>, page: Page, n: nat): Run
    requires n <= |steps|
  {
    if n == 0 then Start(page)
    else StepWith(b, ctx, AnyRun(b, ctx, script, answers, steps, page, n - 1), steps[n - 1], script(n - 1).token, answers(n - 1).0, answers(n - 1).1)
  }

  /** A write among the first n steps was sent only with consent. */
  ghost predicate Consented(ctx: Context, steps: seq<Step>, r: Run, n: nat) {
    n <= |steps| && |r.sent| <= n && forall k :: 0 <= k < |r.sent| && steps[k].write ==> Consents(ctx)
  }

  lemma StepShape(b: Browser, ctx: Context, script: Script, steps: seq<Step>, r: Run, page: Page, reply: Option<Reply>, n: nat)
    requires n < |steps| && Marked(steps) && Running(steps, script, r, n) && Consented(ctx, steps, r, n)
    ensures var t := StepWith(b, ctx, r, steps[n], script(n).token, page, reply);
      (Running(steps, script, t, n + 1) || Stopped(steps, script, t, n + 1, n)) && Consented(ctx, steps, t, n + 1)
  {
    hide StepWith, Consents, SentUpTo;
    RunningSent(steps, script, r, n);
    var t := StepWith(b, ctx, r, steps[n], script(n).token, page, reply);
    StepAdvances(b, ctx, r, steps[n], script(n).token, page, reply);
    var o :| Advances(r, t, steps[n], script(n).token, o);
    assert t.outcomes[n] == o;
    if o.status != NotIssued { SentStep(steps, script, r, t, n); }
    else { SameSent(steps, script, r, t, n); }
  }

  lemma RunningSent(steps: seq<Step>, script: Script, r: Run, n: nat)
    requires Running(steps, script, r, n)
    ensures |r.sent| == n
  {
  }

  lemma SameSent(steps: seq<Step>, script: Script, r: Run, t: Run, n: nat)
    requires SentUpTo(steps, script, r, n) && t.sent == r.sent && t.spent == r.spent
    ensures SentUpTo(steps, script, t, n)
  {
  }

  lemma SkipShape(b: Browser, ctx: Context, script: Script, steps: seq<Step>, r: Run, page: Page, reply: Option<Reply>, n: nat, h: nat)
    requires n < |steps| && Stopped(steps, script, r, n, h)
    ensures Stopped(steps, script, StepWith(b, ctx, r, steps[n], script(n).token, page, reply), n + 1, h)
  {
    var t := StepWith(b, ctx, r, steps[n], script(n).token, page, reply);
    assert t == r.(outcomes := r.outcomes + [Report(steps[n], Skipped, None, None)]);
    SameSent(steps, script, r, t, if r.outcomes[h].status == NotIssued then h else h + 1);
    hide StepWith, SentUpTo;
  }

  /** Every run of a plan whose writes are marked is still running or stopped at one step. */
  lemma {:induction false} RunShape(b: Browser, ctx: Context, script: Script, answers: Answers, steps: seq<Step>, page: Page, n: nat)
    requires n <= |steps| && Marked(steps)
    ensures var r := AnyRun(b, ctx, script, answers, steps, page, n);
      (Running(steps, script, r, n) || exists h: nat :: Stopped(steps, script, r, n, h)) && Consented(ctx, steps, r, n)
  {
    hide StepWith, Running, Stopped, Marked;
    if n == 0 {
      NothingRan(steps, script, page);
    } else {
      RunShape(b, ctx, script, answers, steps, page, n - 1);
      var r := AnyRun(b, ctx, script, answers, steps, page, n - 1);
      var (q, reply) := answers(n - 1);
      if Running(steps, script, r, n - 1) {
        StepShape(b, ctx, script, steps, r, q, reply, n - 1);
      } else {
        var h: nat :| Stopped(steps, script, r, n - 1, h);
        SkipShape(b, ctx, script, steps, r, q, reply, n - 1, h);
        StoppedHalted(steps, script, r, n - 1, h);
        Skips(b, ctx, r, steps[n - 1], script(n - 1).token, q, reply);
      }
    }
  }

  lemma StoppedHalted(steps: seq<Step>, script: Script, r: Run, n: nat, h: nat)
    requires Stopped(steps, script, r, n, h)
    ensures r.haltedAt.Some?
  {
  }

  lemma NothingRan(steps: seq<Step>, script: Script, page: Page)
    ensures Running(steps, script, Start(page), 0)
  {
  }

  lemma LandedLast(outcomes: seq<StepOutcome>, o: StepOutcome)
    ensures Landed(outcomes + [o]) == Landed(outcomes) + if o.write && (o.status == Status.Applied || o.status == Unverified) then 1 else 0
  {
    assert (outcomes + [o])[..|outcomes|] == outcomes;
  }

  lemma StepCounts(b: Browser, ctx: Context, r: Run, s: Step, token: string, page: Page, reply: Option<Reply>)
    requires (s.write <==> IsWrite(s.action)) && r.writesApplied == Landed(r.outcomes)
    ensures var t := StepWith(b, ctx, r, s, token, page, reply); t.writesApplied == Landed(t.outcomes)
  {
    hide StepWith, Landed;
    if r.haltedAt.None? {
      StepAdvances(b, ctx, r, s, token, page, reply);
      var o :| Advances(r, StepWith(b, ctx, r, s, token, page, reply), s, token, o);
      LandedLast(r.outcomes, o);
    } else {
      Skips(b, ctx, r, s, token, page, reply);
      LandedLast(r.outcomes, Report(s, Skipped, None, None));
    }
  }

  lemma {:induction false} WritesCounted(b: Browser, ctx: Context, script: Script, answers: Answers, steps: seq<Step>, page: Page, n: nat)
    requires n <= |steps| && Marked(steps)
    ensures var r := AnyRun(b, ctx, script, answers, steps, page, n); r.writesApplied == Landed(r.outcomes)
  {
    hide StepWith;
    if n > 0 {
      WritesCounted(b, ctx, script, answers, steps, page, n - 1);
      StepCounts(b, ctx, AnyRun(b, ctx, script, answers, steps, page, n - 1), steps[n - 1], script(n - 1).token, answers(n - 1).0, answers(n - 1).1);
    }
  }

  lemma Skips(b: Browser, ctx: Context, r: Run, s: Step, token: string, page: Page, reply: Option<Reply>)
    requires r.haltedAt.Some?
    ensures StepWith(b, ctx, r, s, token, page, reply) == r.(outcomes := r.outcomes + [Report(s, Skipped, None, None)])
  {
  }

  /** A run of the planned shape. */
  ghost predicate Shaped(steps: seq<Step>, script: Script, r: Run) {
    && (Running(steps, script, r, |steps|) || exists h: nat :: Stopped(steps, script, r, |steps|, h))
    && r.writesApplied == Landed(r.outcomes)
  }

  /** Executing a planner's plan, on any page, under any script and whatever the browser answers: one
      outcome per step; a run of applied and observed outcomes, at most one that stops the run, then
      only skipped ones; nothing is sent after the stop, and no token twice; the count of applied
      writes is that of the applied and unverified outcomes; and all writes are reported verified
      exactly unless the step that stopped the run is a write. */
  lemma ExecutedPlan(lower: string -> string, cs: seq<Change>, save: Option<string>, b: Browser, ctx: Context, script: Script, answers: Answers, page: Page)
    requires PlanOf(lower, cs, save).Planned?
    ensures var steps := PlanOf(lower, cs, save).steps; Shaped(steps, script, AnyRun(b, ctx, script, answers, steps, page, |steps|))
  {
    hide PlanOf, Running, Stopped, AnyRun, Landed, Marked;
    PlannerMarks(lower, cs, save);
    var steps := PlanOf(lower, cs, save).steps;
    RunShape(b, ctx, script, answers, steps, page, |steps|);
    WritesCounted(b, ctx, script, answers, steps, page, |steps|);
  }

  /** The answers an honest browser gives on this page. */
  function Honest(b: Browser, ctx: Context, script: Script, steps: seq<Step>, page: Page): Answers {
    (k: nat) => if k < |steps| then Deliver(b, RunTo(b, ctx, script, steps, page, k).page, steps[k].action, script(k).delivery) else (page, None)
  }

  lemma {:induction false} HonestRun(b: Browser, ctx: Context, script: Script, steps: seq<Step>, page: Page, n: nat)
    requires n <= |steps|
    ensures RunTo(b, ctx, script, steps, page, n) == AnyRun(b, ctx, script, Honest(b, ctx, script, steps, page), steps, page, n)
  {
    hide StepWith, Deliver, Honest, RunStep;
    if n > 0 {
      HonestRun(b, ctx, script, steps, page, n - 1);
      HonestStep(b, ctx, script, steps, page, n - 1);
    }
  }

  lemma HonestStep(b: Browser, ctx: Context, script: Script, steps: seq<Step>, page: Page, k: nat)
    requires k < |steps|
    ensures var r := RunTo(b, ctx, script, steps, page, k); var (q, reply) := Honest(b, ctx, script, steps, page)(k);
      RunStep(b, ctx, r, steps[k], script(k)) == StepWith(b, ctx, r, steps[k], script(k).token, q, reply)
  {
    hide StepWith, Deliver, RunTo;
  }

  /** So it is for every run against the page itself. */
  lemma HonestPlan(lower: string -> string, cs: seq<Change>, save: Option<string>, b: Browser, ctx: Context, script: Script, page: Page)
    requires PlanOf(lower, cs, save).Planned?
    ensures var steps := PlanOf(lower, cs, save).steps; Shaped(steps, script, RunAll(b, ctx, script, steps, page))
  {
    hide PlanOf, Shaped, AnyRun, Honest;
    var steps := PlanOf(lower, cs, save).steps;
    HonestRun(b, ctx, script, steps, page, |steps|);
    ExecutedPlan(lower, cs, save, b, ctx, script, Honest(b, ctx, script, steps, page), page);
  }

  /** Whatever the browser answers, every write a planner's plan sends goes out only in a run that is
      not a shadow run, with the policy, an approval and the user present: its request is that of its
      own step, and the context consents. */
  lemma WritesNeedConsent(lower: string -> string, cs: seq<Change>, save: Option<string>, b: Browser, ctx: Context, script: Script, answers: Answers,
                          page: Page, k: nat)
    requires PlanOf(lower, cs, save).Planned?
    requires var steps := PlanOf(lower, cs, save).steps;
      k < |AnyRun(b, ctx, script, answers, steps, page, |steps|).sent| && k < |steps| && IsWrite(steps[k].action)
    ensures var steps := PlanOf(lower, cs, save).steps;
      AnyRun(b, ctx, script, answers, steps, page, |steps|).sent[k] == (steps[k].stepId, script(k).token) && Consents(ctx)
  {
    hide PlanOf, AnyRun, Landed, Consents;
    PlannerMarks(lower, cs, save);
    var steps := PlanOf(lower, cs, save).steps;
    RunShape(b, ctx, script, answers, steps, page, |steps|);
  }
}
