/** Plan, run, revert: what a run applied can be put back. */
module BrowserRevert {
  import opened Text
  import opened BrowserPlan
  import opened BrowserExecute

  // ---- what a run hands to the revert ----

  predicate IsSetStep(id: string) { |id| >= 4 && id[|id| - 4..] == "-set" }

  /** The change a step outcome applied, with what the page held before. */
  function Item(cs: seq<Change>, o: StepOutcome): seq<BrowserPlan.Applied> {
    if o.write && o.change.Some? && IsSetStep(o.stepId) && (o.status == Status.Applied || o.status == Unverified) && o.change.value < |cs|
    then [BrowserPlan.Applied(cs[o.change.value], o.before, cs[o.change.value].to)] else []
  }

  /** `revertable`: from the outcomes, in order. */
  function Revertable(cs: seq<Change>, outcomes: seq<StepOutcome>): seq<BrowserPlan.Applied> {
    if outcomes == [] then [] else Revertable(cs, outcomes[..|outcomes| - 1]) + Item(cs, outcomes[|outcomes| - 1])
  }

  lemma {:induction false} RevertableAppend(cs: seq<Change>, a: seq<StepOutcome>, c: seq<StepOutcome>)
    ensures Revertable(cs, a + c) == Revertable(cs, a) + Revertable(cs, c)
  {
    hide Item;
    if c == [] {
      assert a + c == a;
    } else {
      assert (a + c)[..|a + c| - 1] == a + c[..|c| - 1];
      RevertableAppend(cs, a, c[..|c| - 1]);
    }
  }

  // ---- runs in pieces ----

  /** Further steps from a given run, the first of them at position `off` of the script. */
  function RunFrom(b: Browser, ctx: Context, script: Script, r: Run, steps: seq<Step>, off: nat): Run
    decreases |steps|
  {
    if steps == [] then r
    else RunFrom(b, ctx, script, RunStep(b, ctx, r, steps[0], script(off)), steps[1..], off + 1)
  }

  lemma {:induction false} RunInPieces(b: Browser, ctx: Context, script: Script, r: Run, x: seq<Step>, y: seq<Step>, off: nat)
    ensures RunFrom(b, ctx, script, r, x + y, off) == RunFrom(b, ctx, script, RunFrom(b, ctx, script, r, x, off), y, off + |x|)
    decreases |x|
  {
    hide RunStep;
    if x == [] {
      assert x + y == y;
    } else {
      assert (x + y)[0] == x[0] && (x + y)[1..] == x[1..] + y;
      RunInPieces(b, ctx, script, RunStep(b, ctx, r, x[0], script(off)), x[1..], y, off + 1);
    }
  }

  lemma {:induction false} RunToFrom(b: Browser, ctx: Context, script: Script, steps: seq<Step>, page: Page, n: nat)
    requires n <= |steps|
    ensures RunTo(b, ctx, script, steps, page, n) == RunFrom(b, ctx, script, Start(page), steps[..n], 0)
  {
    hide RunStep;
    if n > 0 {
      RunToFrom(b, ctx, script, steps, page, n - 1);
      assert steps[..n] == steps[..n - 1] + [steps[n - 1]];
      RunInPieces(b, ctx, script, Start(page), steps[..n - 1], [steps[n - 1]], 0);
      RunOne(b, ctx, script, RunTo(b, ctx, script, steps, page, n - 1), steps[n - 1], n - 1);
    }
  }

  lemma RunOne(b: Browser, ctx: Context, script: Script, r: Run, s: Step, off: nat)
    ensures RunFrom(b, ctx, script, r, [s], off) == RunStep(b, ctx, r, s, script(off))
  {
    assert [s][1..] == [];
  }

  /** After the halt nothing changes but the list of skipped steps. */
  lemma {:induction false} HaltedStays(b: Browser, ctx: Context, script: Script, r: Run, steps: seq<Step>, off: nat, cs: seq<Change>)
    requires r.haltedAt.Some?
    ensures var t := RunFrom(b, ctx, script, r, steps, off);
      t.haltedAt.Some? && t.page == r.page && r.outcomes <= t.outcomes && Revertable(cs, t.outcomes) == Revertable(cs, r.outcomes)
    decreases |steps|
  {
    if steps != [] {
      var s := RunStep(b, ctx, r, steps[0], script(off));
      var skipped := Report(steps[0], Skipped, None, None);
      assert s.outcomes == r.outcomes + [skipped];
      assert s.outcomes[..|s.outcomes| - 1] == r.outcomes;
      HaltedStays(b, ctx, script, s, steps[1..], off + 1, cs);
    }
  }

  // ---- what one change does to the page ----

  predicate Reaches(b: Browser, page: Page, c: Change) { b.find(TargetOf(c)).Here? && b.find(TargetOf(c)).id in page }

  function IdOf(b: Browser, c: Change): nat { if b.find(TargetOf(c)).Here? then b.find(TargetOf(c)).id else 0 }

  function WriteKind(c: Change, k: Kind): Kind {
    if RoleOf(c) != Combobox then SetNative(k, c.to)
    else if k.Picklist? then k.(selected := FirstOption(k.options, c.to)) else k
  }

  function WriteIn(b: Browser, page: Page, c: Change): Page {
    if !Reaches(b, page, c) then page
    else var id := IdOf(b, c); page[id := page[id].(kind := WriteKind(c, page[id].kind))]
  }

  /** The set action of a change. */
  function SetAction(c: Change): Action {
    if RoleOf(c) == Combobox then SelectOption(TargetOf(c), c.to) else SetValue(TargetOf(c), c.to, c.from)
  }

  /** The page takes the write of this change. */
  predicate Takes(b: Browser, page: Page, c: Change) {
    Reaches(b, page, c) && OnControl(b, IdOf(b, c), page[IdOf(b, c)], SetAction(c)).1.Answered?
  }

  lemma SetPerformed(b: Browser, page: Page, c: Change)
    ensures var (p, r) := Perform(b, page, SetAction(c));
      if Takes(b, page, c)
      then p == WriteIn(b, page, c) && r.Answered? && r.before == Some(Clip(Shown(page[IdOf(b, c)].kind)))
           && r.after == Some(Clip(Shown(WriteKind(c, page[IdOf(b, c)].kind))))
      else p == page && r.Refused?
  {
    if Reaches(b, page, c) {
      var id := IdOf(b, c);
      if !Takes(b, page, c) { assert page[id := page[id]] == page; }
    }
  }

  /** Looking at a field or pressing a button leaves the page's fields alone. */
  lemma LookPerformed(b: Browser, page: Page, a: Action)
    requires a.FocusField? || a.ReadField? || a.ClickControl?
    ensures Perform(b, page, a).0 == page
  {
    if Resolve(b, page, a.target).Here? {
      var id := Resolve(b, page, a.target).id;
      assert page[id := page[id]] == page;
    }
  }

  /** A step that is not a field write: the page stays, and nothing becomes revertable. */
  lemma QuietStep(b: Browser, ctx: Context, r: Run, s: Step, a: Attempt, cs: seq<Change>)
    requires r.haltedAt.None? && (s.action.FocusField? || s.action.ReadField? || s.action.ClickControl?)
    requires s.write ==> s.change.None?
    ensures var t := RunStep(b, ctx, r, s, a);
      t.page == r.page && |t.outcomes| == |r.outcomes| + 1 && r.outcomes <= t.outcomes && Revertable(cs, t.outcomes) == Revertable(cs, r.outcomes)
  {
    hide AuthorizeIssue, VerifyWrite, Perform;
    LookPerformed(b, r.page, s.action);
    var t := RunStep(b, ctx, r, s, a);
    assert t.outcomes[..|t.outcomes| - 1] == r.outcomes;
  }

  /** How a field write can end: refused or never sent, applied with an answer, or landed with the
      answer lost. */
  datatype Fate = Untouched | Recorded | Unknown

  function SetPlanStep(i: nat, c: Change): Step { Step(StepName(i, "set"), SetAction(c), Some(i), true) }

  function Recording(b: Browser, page: Page, c: Change): BrowserPlan.Applied {
    BrowserPlan.Applied(c, if Reaches(b, page, c) then Some(Clip(Shown(page[IdOf(b, c)].kind))) else None, c.to)
  }

  ghost predicate Fated(b: Browser, cs: seq<Change>, c: Change, r: Run, t: Run, fate: Fate, d: Delivery) {
    match fate
    case Untouched => t.haltedAt.Some? && t.page == r.page && Revertable(cs, t.outcomes) == Revertable(cs, r.outcomes)
    case Unknown =>
      && t.haltedAt.Some? && Takes(b, r.page, c) && t.page == WriteIn(b, r.page, c) && d == Lost(true)
      && Revertable(cs, t.outcomes) == Revertable(cs, r.outcomes)
    case Recorded =>
      && Takes(b, r.page, c) && t.page == WriteIn(b, r.page, c)
      && Revertable(cs, t.outcomes) == Revertable(cs, r.outcomes) + [Recording(b, r.page, c)]
  }

  /** A step that ends without an answer: held back by the gate, or lost on the way. */
  lemma Unanswered(b: Browser, ctx: Context, r: Run, s: Step, a: Attempt)
    requires r.haltedAt.None?
    requires AuthorizeIssue(ctx, s.action, a.token, r.spent, REQUEST_WINDOW_MS).Some? || a.delivery.Lost?
    ensures var t := RunStep(b, ctx, r, s, a);
      && t.haltedAt.Some? && |t.outcomes| == |r.outcomes| + 1 && t.outcomes[..|r.outcomes|] == r.outcomes
      && (t.outcomes[|r.outcomes|].status == NotIssued || t.outcomes[|r.outcomes|].status == Failed)
      && t.page == if AuthorizeIssue(ctx, s.action, a.token, r.spent, REQUEST_WINDOW_MS).Some? || !a.delivery.landed then r.page
                   else Perform(b, r.page, s.action).0
  {
    hide AuthorizeIssue, Perform;
  }

  lemma AnsweredWrite(b: Browser, ctx: Context, r: Run, s: Step, a: Attempt)
    requires r.haltedAt.None? && s.write && a.delivery.Delivered?
    requires AuthorizeIssue(ctx, s.action, a.token, r.spent, REQUEST_WINDOW_MS).None?
    ensures var (t, reply) := (RunStep(b, ctx, r, s, a), Perform(b, r.page, s.action).1);
      && |t.outcomes| == |r.outcomes| + 1 && t.outcomes[..|r.outcomes|] == r.outcomes && t.page == Perform(b, r.page, s.action).0
      && (if reply.Refused? then t.haltedAt.Some? && t.outcomes[|r.outcomes|].status == RefusedByBrowser
          else var o := t.outcomes[|r.outcomes|];
               (o.status == Status.Applied || o.status == Unverified) && o == Report(s, o.status, reply.before, reply.after))
  {
    hide AuthorizeIssue, Perform, VerifyWrite;
  }

  lemma SetStep(b: Browser, ctx: Context, r: Run, i: nat, cs: seq<Change>, a: Attempt) returns (fate: Fate)
    requires r.haltedAt.None? && i < |cs|
    ensures var t := RunStep(b, ctx, r, SetPlanStep(i, cs[i]), a);
      |t.outcomes| == |r.outcomes| + 1 && Fated(b, cs, cs[i], r, t, fate, a.delivery)
  {
    var s := SetPlanStep(i, cs[i]);
    var t := RunStep(b, ctx, r, s, a);
    SetPerformed(b, r.page, cs[i]);
    SetNamed(i);
    hide AuthorizeIssue, VerifyWrite, Perform, Takes, WriteIn, RunStep, StepName, SetAction;
    if AuthorizeIssue(ctx, s.action, a.token, r.spent, REQUEST_WINDOW_MS).Some? || a.delivery.Lost? {
      Unanswered(b, ctx, r, s, a);
      assert Item(cs, t.outcomes[|r.outcomes|]) == [];
      fate := if AuthorizeIssue(ctx, s.action, a.token, r.spent, REQUEST_WINDOW_MS).None? && a.delivery.landed && Takes(b, r.page, cs[i])
              then Unknown else Untouched;
    } else {
      AnsweredWrite(b, ctx, r, s, a);
      fate := if Takes(b, r.page, cs[i]) then Recorded else Untouched;
    }
  }

  lemma SetNamed(i: nat)
    ensures IsSetStep(StepName(i, "set"))
  {
    hide Decimal;
    var id := StepName(i, "set");
    assert id == ("c" + Decimal(i)) + "-set";
    assert id[|id| - 4..] == "-set";
  }

  // ---- what one run leaves on the page ----

  ghost predicate Quiet(steps: seq<Step>) {
    forall k :: 0 <= k < |steps| ==>
      (steps[k].action.FocusField? || steps[k].action.ReadField? || steps[k].action.ClickControl?) && (steps[k].write ==> steps[k].change.None?)
  }

  predicate SameTrail(cs: seq<Change>, r: Run, t: Run) { t.page == r.page && Revertable(cs, t.outcomes) == Revertable(cs, r.outcomes) }

  lemma {:induction false} QuietRun(b: Browser, ctx: Context, script: Script, r: Run, steps: seq<Step>, off: nat, cs: seq<Change>)
    requires Quiet(steps)
    ensures var t := RunFrom(b, ctx, script, r, steps, off); SameTrail(cs, r, t) && (r.haltedAt.Some? ==> t.haltedAt.Some?)
    decreases |steps|
  {
    hide RunStep, Revertable;
    if r.haltedAt.Some? {
      HaltedStays(b, ctx, script, r, steps, off, cs);
    } else if steps != [] {
      QuietStep(b, ctx, r, steps[0], script(off), cs);
      QuietRun(b, ctx, script, RunStep(b, ctx, r, steps[0], script(off)), steps[1..], off + 1, cs);
    }
  }

  /** The looks before a write, and the read after it. */
  function Looks(i: nat, c: Change): seq<Step> {
    [Step(StepName(i, "focus"), FocusField(TargetOf(c)), Some(i), false)]
    + if RoleOf(c) == Combobox then [Step(StepName(i, "before"), ReadField(TargetOf(c)), Some(i), false)] else []
  }

  function Check(i: nat, c: Change): seq<Step> { [Step(StepName(i, "verify"), ReadField(TargetOf(c)), Some(i), false)] }

  lemma BlockParts(i: nat, c: Change)
    ensures Block(i, c) == Looks(i, c) + [SetPlanStep(i, c)] + Check(i, c)
    ensures Quiet(Looks(i, c)) && Quiet(Check(i, c))
  {
    hide StepName;
  }

  /** One block of the plan: nothing, a recorded write, or a landed write whose answer was lost. */
  lemma BlockRun(b: Browser, ctx: Context, script: Script, r: Run, i: nat, cs: seq<Change>, off: nat) returns (fate: Fate, d: Delivery)
    requires r.haltedAt.None? && i < |cs|
    ensures Fated(b, cs, cs[i], r, RunFrom(b, ctx, script, r, Block(i, cs[i]), off), fate, d)
    ensures fate.Unknown? ==> exists k :: script(k).delivery == Lost(true)
  {
    var (x, y, z) := (Looks(i, cs[i]), [SetPlanStep(i, cs[i])], Check(i, cs[i]));
    BlockParts(i, cs[i]);
    RunInPieces(b, ctx, script, r, x + y, z, off);
    RunInPieces(b, ctx, script, r, x, y, off);
    hide RunStep, Block, Looks, Check, SetPlanStep, Takes, WriteIn, Recording, Revertable;
    var s1 := RunFrom(b, ctx, script, r, x, off);
    var s2 := RunFrom(b, ctx, script, s1, y, off + |x|);
    QuietRun(b, ctx, script, r, x, off, cs);
    QuietRun(b, ctx, script, s2, z, off + |x + y|, cs);
    var a := script(off + |x|);
    d := a.delivery;
    if s1.haltedAt.Some? {
      HaltedStays(b, ctx, script, s1, y, off + |x|, cs);
      fate := Untouched;
    } else {
      RunOne(b, ctx, script, s1, SetPlanStep(i, cs[i]), off + |x|);
      fate := SetStep(b, ctx, s1, i, cs, a);
    }
  }

  /** The page after the writes of the changes listed, in that order. */
  function WriteAll(b: Browser, page: Page, cs: seq<Change>, idx: seq<nat>): Page
    requires forall k :: 0 <= k < |idx| ==> idx[k] < |cs|
  { if idx == [] then page else WriteIn(b, WriteAll(b, page, cs, idx[..|idx| - 1]), cs[idx[|idx| - 1]]) }

  /** What the run reports of them. */
  function Recordings(b: Browser, page: Page, cs: seq<Change>, idx: seq<nat>): seq<BrowserPlan.Applied>
    requires forall k :: 0 <= k < |idx| ==> idx[k] < |cs|
  {
    if idx == [] then []
    else
      var (front, c) := (idx[..|idx| - 1], cs[idx[|idx| - 1]]);
      Recordings(b, page, cs, front) + [Recording(b, WriteAll(b, page, cs, front), c)]
  }

  predicate Rising(idx: seq<nat>, n: nat) {
    (forall k :: 0 <= k < |idx| ==> idx[k] < n) && (forall j, k :: 0 <= j < k < |idx| ==> idx[j] < idx[k])
  }

  /** Each write was taken by the page as it stood after the ones before it. */
  ghost predicate AllTaken(b: Browser, page: Page, cs: seq<Change>, idx: seq<nat>)
    requires forall k :: 0 <= k < |idx| ==> idx[k] < |cs|
  { forall k :: 0 <= k < |idx| ==> Takes(b, WriteAll(b, page, cs, idx[..k]), cs[idx[k]]) }

  /** The trail of a run: the changes recorded in order, and the one whose answer was lost. */
  ghost predicate Trail(b: Browser, cs: seq<Change>, n: nat, p0: Page, r: Run, done: seq<nat>, lost: Option<nat>)
    requires n <= |cs|
  {
    && Rising(done, n)
    && Revertable(cs, r.outcomes) == Recordings(b, p0, cs, done)
    && AllTaken(b, p0, cs, done)
    && (match lost
        case None => r.page == WriteAll(b, p0, cs, done)
        case Some(i) => i < n && (forall k :: 0 <= k < |done| ==> done[k] < i) && r.page == WriteIn(b, WriteAll(b, p0, cs, done), cs[i]))
    && (lost.Some? ==> r.haltedAt.Some?)
  }

  lemma TrailSkip(b: Browser, cs: seq<Change>, n: nat, p0: Page, r: Run, t: Run, done: seq<nat>, lost: Option<nat>)
    requires n < |cs| && Trail(b, cs, n, p0, r, done, lost) && SameTrail(cs, r, t) && (r.haltedAt.Some? ==> t.haltedAt.Some?)
    ensures Trail(b, cs, n + 1, p0, t, done, lost)
  {
    hide WriteIn, WriteAll, Recordings, Takes, Revertable;
  }

  lemma TakenGrows(b: Browser, page: Page, cs: seq<Change>, idx: seq<nat>, n: nat)
    requires n < |cs| && (forall k :: 0 <= k < |idx| ==> idx[k] < |cs|)
    requires AllTaken(b, page, cs, idx) && Takes(b, WriteAll(b, page, cs, idx), cs[n])
    ensures AllTaken(b, page, cs, idx + [n])
  {
    hide Takes, WriteAll;
    var more := idx + [n];
    assert more[..|idx|] == idx;
    forall k | 0 <= k < |more| ensures Takes(b, WriteAll(b, page, cs, more[..k]), cs[more[k]]) {
      if k < |idx| { assert more[..k] == idx[..k]; }
    }
  }

  lemma TrailRecord(b: Browser, cs: seq<Change>, n: nat, p0: Page, r: Run, t: Run, done: seq<nat>, fate: Fate, d: Delivery)
    requires n < |cs| && Trail(b, cs, n, p0, r, done, None) && fate.Recorded? && Fated(b, cs, cs[n], r, t, fate, d)
    ensures Trail(b, cs, n + 1, p0, t, done + [n], None)
  {
    hide WriteIn, Takes, Revertable, Recording, AllTaken;
    assert (done + [n])[..|done|] == done;
    TakenGrows(b, p0, cs, done, n);
  }

  lemma TrailLose(b: Browser, cs: seq<Change>, n: nat, p0: Page, r: Run, t: Run, done: seq<nat>, fate: Fate, d: Delivery)
    requires n < |cs| && Trail(b, cs, n, p0, r, done, None) && fate.Unknown? && Fated(b, cs, cs[n], r, t, fate, d)
    ensures Trail(b, cs, n + 1, p0, t, done, Some(n))
  {
    hide WriteIn, WriteAll, Recordings, Takes, Revertable;
  }

  /** One more block extends the trail. */
  lemma BlockTrail(b: Browser, ctx: Context, script: Script, p0: Page, cs: seq<Change>, n: nat, r: Run, off: nat, done0: seq<nat>, lost0: Option<nat>)
    returns (done: seq<nat>, lost: Option<nat>)
    requires n < |cs| && Trail(b, cs, n, p0, r, done0, lost0)
    ensures Trail(b, cs, n + 1, p0, RunFrom(b, ctx, script, r, Block(n, cs[n]), off), done, lost)
    ensures lost.Some? && lost0.None? ==> exists k :: script(k).delivery == Lost(true)
  {
    hide RunStep, RunFrom, Trail, Block, Fated, Revertable;
    var t := RunFrom(b, ctx, script, r, Block(n, cs[n]), off);
    done, lost := done0, lost0;
    if r.haltedAt.Some? {
      HaltedStays(b, ctx, script, r, Block(n, cs[n]), off, cs);
      TrailSkip(b, cs, n, p0, r, t, done, lost);
    } else {
      LostHalts(b, cs, n, p0, r, done, lost);
      var fate, d := BlockRun(b, ctx, script, r, n, cs, off);
      match fate
      case Untouched =>
        UntouchedSame(b, cs, cs[n], r, t, fate, d);
        TrailSkip(b, cs, n, p0, r, t, done, lost);
      case Recorded =>
        TrailRecord(b, cs, n, p0, r, t, done, fate, d);
        done := done + [n];
      case Unknown =>
        TrailLose(b, cs, n, p0, r, t, done, fate, d);
        lost := Some(n);
    }
  }

  lemma {:induction false} BlocksRun(b: Browser, ctx: Context, script: Script, p0: Page, cs: seq<Change>, n: nat) returns (done: seq<nat>, lost: Option<nat>)
    requires n <= |cs|
    ensures Trail(b, cs, n, p0, RunFrom(b, ctx, script, Start(p0), Blocks(cs, n), 0), done, lost)
    ensures lost.Some? ==> exists k :: script(k).delivery == Lost(true)
  {
    hide RunStep, Trail, Block;
    if n == 0 {
      done, lost := [], None;
      EmptyTrail(b, cs, p0);
    } else {
      var done0, lost0 := BlocksRun(b, ctx, script, p0, cs, n - 1);
      var (x, y) := (Blocks(cs, n - 1), Block(n - 1, cs[n - 1]));
      RunInPieces(b, ctx, script, Start(p0), x, y, 0);
      done, lost := BlockTrail(b, ctx, script, p0, cs, n - 1, RunFrom(b, ctx, script, Start(p0), x, 0), |x|, done0, lost0);
    }
  }

  lemma EmptyTrail(b: Browser, cs: seq<Change>, p0: Page)
    ensures Trail(b, cs, 0, p0, Start(p0), [], None)
  {
  }

  lemma LostHalts(b: Browser, cs: seq<Change>, n: nat, p0: Page, r: Run, done: seq<nat>, lost: Option<nat>)
    requires n <= |cs| && Trail(b, cs, n, p0, r, done, lost) && r.haltedAt.None?
    ensures lost.None?
  {
  }

  lemma UntouchedSame(b: Browser, cs: seq<Change>, c: Change, r: Run, t: Run, fate: Fate, d: Delivery)
    requires fate.Untouched? && Fated(b, cs, c, r, t, fate, d)
    ensures SameTrail(cs, r, t)
  {
  }
}
