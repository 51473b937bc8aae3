/** Where a revert ends, exactly: what every control holds after any run and a revert of it. */
module BrowserReverting {
  import opened Text
  import opened BrowserPlan
  import opened BrowserExecute
  import opened BrowserRevert
  import opened BrowserRoundTrip

  // ---- a plan of writes, every request answered ----

  /** The page after the writes from i on, up to the first that is not taken or does not read back. */
  function Carried(b: Browser, q: Page, us: seq<Change>, i: nat): Page
    requires i <= |us|
    decreases |us| - i
  {
    if i == |us| || !Takes(b, q, us[i]) then q
    else if ReadsBack(b, q, us[i]) then Carried(b, WriteIn(b, q, us[i]), us, i + 1)
    else WriteIn(b, q, us[i])
  }

  function BlocksFrom(us: seq<Change>, i: nat): seq<Step>
    requires i <= |us|
    decreases |us| - i
  { if i == |us| then [] else Block(i, us[i]) + BlocksFrom(us, i + 1) }

  lemma {:induction false} BlocksSplit(us: seq<Change>, i: nat)
    requires i <= |us|
    ensures Blocks(us, |us|) == Blocks(us, i) + BlocksFrom(us, i)
    decreases |us| - i
  {
    hide Block;
    if i < |us| {
      BlocksSplit(us, i + 1);
      assert Blocks(us, i + 1) == Blocks(us, i) + Block(i, us[i]);
    }
  }

  /** Looking at a control that is not there stops the run. */
  lemma LookMissing(b: Browser, ctx: Context, r: Run, s: Step, a: Attempt)
    requires r.haltedAt.None? && a.delivery == Delivered && !(b.find(s.action.target).Here? && b.find(s.action.target).id in r.page)
    ensures var t := RunStep(b, ctx, r, s, a); t.haltedAt.Some? && t.page == r.page
  {
    hide AuthorizeIssue, VerifyWrite;
    assert Perform(b, r.page, s.action).1.Refused? && Perform(b, r.page, s.action).0 == r.page;
  }

  lemma MissingBlock(b: Browser, ctx: Context, script: Script, r: Run, i: nat, c: Change, off: nat)
    requires r.haltedAt.None? && script(off).delivery == Delivered && !Reaches(b, r.page, c)
    ensures var t := RunFrom(b, ctx, script, r, Block(i, c), off); t.haltedAt.Some? && t.page == r.page
  {
    hide RunStep, StepName, Revertable;
    var steps := Block(i, c);
    LookMissing(b, ctx, r, steps[0], script(off));
    HaltedStays(b, ctx, script, RunStep(b, ctx, r, steps[0], script(off)), steps[1..], off + 1, []);
  }

  lemma FailedSet(b: Browser, ctx: Context, script: Script, r: Run, i: nat, c: Change, off: nat)
    requires Smooth(ctx, script) && Unhindered(r, script, off) && !(Takes(b, r.page, c) && ReadsBack(b, r.page, c))
    ensures var t := RunStep(b, ctx, r, SetPlanStep(i, c), script(off));
      t.haltedAt.Some? && t.page == if Takes(b, r.page, c) then WriteIn(b, r.page, c) else r.page
  {
    var s := SetPlanStep(i, c);
    SmoothGate(ctx, script, r, s.action, off);
    SetPerformed(b, r.page, c);
    TakesReaches(b, r.page, c);
    hide Smooth, AuthorizeIssue, Perform, Takes, WriteIn, WriteKind, StepName, Reaches;
    if Takes(b, r.page, c) { assert VerifyWrite(b, s.action, Perform(b, r.page, s.action).1).ValueMismatch?; }
  }

  lemma TakesReaches(b: Browser, page: Page, c: Change)
    ensures Takes(b, page, c) ==> Reaches(b, page, c)
  {
    hide OnControl;
  }

  /** A block whose write is not taken, or does not read back, stops the run. */
  lemma FailedBlock(b: Browser, ctx: Context, script: Script, r: Run, i: nat, c: Change, off: nat)
    requires Smooth(ctx, script) && Unhindered(r, script, off) && !(Takes(b, r.page, c) && ReadsBack(b, r.page, c))
    ensures var t := RunFrom(b, ctx, script, r, Block(i, c), off);
      t.haltedAt.Some? && t.page == if Takes(b, r.page, c) then WriteIn(b, r.page, c) else r.page
  {
    TakesReaches(b, r.page, c);
    if !Reaches(b, r.page, c) {
      MissingBlock(b, ctx, script, r, i, c, off);
    } else {
      var (x, y, z) := (Looks(i, c), [SetPlanStep(i, c)], Check(i, c));
      BlockParts(i, c);
      RunInPieces(b, ctx, script, r, x + y, z, off);
      RunInPieces(b, ctx, script, r, x, y, off);
      SmoothLooks(b, ctx, script, r, x, off, TargetOf(c));
      var s1 := RunFrom(b, ctx, script, r, x, off);
      RunOne(b, ctx, script, s1, SetPlanStep(i, c), off + |x|);
      hide RunStep, Block, SetPlanStep, Smooth, Unhindered, ReadsBack, WriteIn, Takes, Revertable, Check, Looks;
      FailedSet(b, ctx, script, s1, i, c, off + |x|);
      HaltedStays(b, ctx, script, RunFrom(b, ctx, script, s1, y, off + |x|), z, off + |x + y|, []);
    }
  }

  lemma {:induction false} CarriedRun(b: Browser, ctx: Context, script: Script, us: seq<Change>, i: nat, r: Run, off: nat)
    requires Smooth(ctx, script) && Unhindered(r, script, off) && i <= |us|
    ensures RunFrom(b, ctx, script, r, BlocksFrom(us, i), off).page == Carried(b, r.page, us, i)
    decreases |us| - i
  {
    hide RunStep, Smooth, Unhindered, Takes, ReadsBack, WriteIn, Block, Revertable;
    if i < |us| {
      var (x, y) := (Block(i, us[i]), BlocksFrom(us, i + 1));
      RunInPieces(b, ctx, script, r, x, y, off);
      var t := RunFrom(b, ctx, script, r, x, off);
      if Takes(b, r.page, us[i]) && ReadsBack(b, r.page, us[i]) {
        SmoothBlock(b, ctx, script, r, i, us[i], off);
        CarriedRun(b, ctx, script, us, i + 1, t, off + |x|);
      } else {
        FailedBlock(b, ctx, script, r, i, us[i], off);
        HaltedStays(b, ctx, script, t, y, off + |x|, []);
      }
    }
  }

  lemma WritesRun(lower: string -> string, us: seq<Change>, b: Browser, ctx: Context, script: Script, page: Page)
    requires PlanOf(lower, us, None).Planned? && Smooth(ctx, script)
    ensures RunAll(b, ctx, script, PlanOf(lower, us, None).steps, page).page == Carried(b, page, us, 0)
  {
    PlanSteps(lower, us, None);
    assert Saving(us, None) == [] && Blocks(us, |us|) + [] == Blocks(us, |us|);
    hide PlanOf, RunAll, RunFrom, Smooth, Block, Carried;
    BlocksSplit(us, 0);
    assert [] + BlocksFrom(us, 0) == BlocksFrom(us, 0);
    WholeRun(b, ctx, script, Blocks(us, |us|), [], page);
    RunNothing(b, ctx, script, RunFrom(b, ctx, script, Start(page), Blocks(us, |us|), 0), |Blocks(us, |us|)|);
    StartsUnhindered(page, script);
    CarriedRun(b, ctx, script, us, 0, Start(page), 0);
  }

  // ---- what was reported, undone last first ----

  /** The page after the turn of one report: its undo, if there is one and the page takes it. */
  function Turn(b: Browser, q: Page, a: Applied): Page {
    if Restorable(a) && Takes(b, q, Reversed(a)) then WriteIn(b, q, Reversed(a)) else q
  }

  /** The undo of this report stops the revert. */
  predicate Stops(b: Browser, q: Page, a: Applied) {
    Restorable(a) && !(Takes(b, q, Reversed(a)) && ReadsBack(b, q, Reversed(a)))
  }

  function Walk(b: Browser, q: Page, rev: seq<Applied>): Page
    decreases |rev|
  {
    if rev == [] then q
    else
      var (front, a) := (rev[..|rev| - 1], rev[|rev| - 1]);
      if Stops(b, q, a) then Turn(b, q, a) else Walk(b, Turn(b, q, a), front)
  }

  lemma {:induction false} CarriedShift(b: Browser, q: Page, u: Change, us: seq<Change>, i: nat)
    requires i <= |us|
    ensures Carried(b, q, [u] + us, i + 1) == Carried(b, q, us, i)
    decreases |us| - i
  {
    hide Takes, ReadsBack, WriteIn;
    if i < |us| { CarriedShift(b, WriteIn(b, q, us[i]), u, us, i + 1); }
  }

  lemma {:induction false} CarriedWalk(b: Browser, q: Page, rev: seq<Applied>)
    ensures Carried(b, q, Reversals(rev), 0) == Walk(b, q, rev)
    decreases |rev|
  {
    hide Takes, ReadsBack, WriteIn, Reversed, Restorable;
    if rev != [] {
      var (front, a) := (rev[..|rev| - 1], rev[|rev| - 1]);
      CarriedWalk(b, Turn(b, q, a), front);
      if Restorable(a) {
        assert Reversals(rev) == [Reversed(a)] + Reversals(front);
        CarriedShift(b, WriteIn(b, q, Reversed(a)), Reversed(a), Reversals(front), 0);
      } else {
        assert Reversals(rev) == [] + Reversals(front) == Reversals(front);
      }
    }
  }

  /** The page when a run has been reverted, or has turned out to have nothing to revert. */
  function Reverted(b: Browser, ctx: Context, script: Script, q: Page, back: Plan): Page {
    if back.NotPlanned? then q else RunAll(b, ctx, script, back.steps, q).page
  }

  lemma RevertWalks(lower: string -> string, rev: seq<Applied>, b: Browser, ctx: Context, script: Script, q: Page)
    requires Smooth(ctx, script) && (PlanRevert(lower, rev).Planned? || Reversals(rev) == [])
    ensures Reverted(b, ctx, script, q, PlanRevert(lower, rev)) == Walk(b, q, rev)
  {
    CarriedWalk(b, q, rev);
    hide Smooth, RunAll, Walk, Reversals, Blocks, Saving, FirstObjection;
    var us := Reversals(rev);
    if PlanRevert(lower, rev).Planned? { WritesRun(lower, us, b, ctx, script, q); } else { assert Carried(b, q, [], 0) == q; }
  }

  // ---- control by control ----

  /** Every report names a control, and no two the same one. */
  ghost predicate Apart(b: Browser, rev: seq<Applied>) {
    && (forall k :: 0 <= k < |rev| ==> b.find(TargetOf(rev[k].change)).Here?)
    && (forall j, k :: 0 <= j < k < |rev| ==> IdOf(b, rev[j].change) != IdOf(b, rev[k].change))
  }

  function IdAt(b: Browser, rev: seq<Applied>, k: nat): nat
    requires k < |rev|
  { IdOf(b, rev[k].change) }

  lemma TurnElsewhere(b: Browser, q: Page, a: Applied, id: nat)
    ensures Turn(b, q, a).Keys == q.Keys
    ensures id in q && id != IdOf(b, a.change) ==> Turn(b, q, a)[id] == q[id]
  {
    hide Takes, WriteKind;
  }

  /** Only what the control itself holds matters for its turn. */
  lemma TurnLocal(b: Browser, q: Page, t: Page, a: Applied)
    requires var id := IdOf(b, a.change); q.Keys == t.Keys && (id in q ==> q[id] == t[id])
    ensures Stops(b, q, a) == Stops(b, t, a)
    ensures var id := IdOf(b, a.change); id in q ==> Turn(b, q, a)[id] == Turn(b, t, a)[id]
  {
    hide OnControl, WriteKind, ValuesMatch, SetAction;
    if Restorable(a) { assert TargetOf(Reversed(a)) == TargetOf(a.change); }
  }

  ghost predicate StopsAfter(b: Browser, q: Page, rev: seq<Applied>, k: nat) { exists j :: k < j < |rev| && Stops(b, q, rev[j]) }

  lemma {:induction false} WalkElsewhere(b: Browser, q: Page, rev: seq<Applied>, id: nat)
    requires forall k: nat :: k < |rev| ==> IdAt(b, rev, k) != id
    ensures Walk(b, q, rev).Keys == q.Keys && (id in q ==> Walk(b, q, rev)[id] == q[id])
    decreases |rev|
  {
    hide Turn, Stops, IdOf;
    if rev != [] {
      var (front, a) := (rev[..|rev| - 1], rev[|rev| - 1]);
      assert IdAt(b, rev, |rev| - 1) != id;
      TurnElsewhere(b, q, a, id);
      forall k: nat | k < |front| ensures IdAt(b, front, k) != id { assert IdAt(b, front, k) == IdAt(b, rev, k); }
      WalkElsewhere(b, Turn(b, q, a), front, id);
    }
  }

  /** A control is as the run left it if a later report stopped the revert, else as after its own turn. */
  lemma {:induction false} WalkAt(b: Browser, q: Page, rev: seq<Applied>, k: nat)
    requires Apart(b, rev) && k < |rev| && IdAt(b, rev, k) in q
    ensures Walk(b, q, rev).Keys == q.Keys
    ensures var id := IdAt(b, rev, k); Walk(b, q, rev)[id] == if StopsAfter(b, q, rev, k) then q[id] else Turn(b, q, rev[k])[id]
    decreases |rev|
  {
    hide Turn, Stops, IdOf, TargetOf;
    var (n, id) := (|rev| - 1, IdAt(b, rev, k));
    var (front, a) := (rev[..n], rev[n]);
    var t := Turn(b, q, a);
    TurnElsewhere(b, q, a, id);
    assert forall j :: 0 <= j < n ==> front[j] == rev[j];
    if k == n {
      forall j: nat | j < |front| ensures IdAt(b, front, j) != id { }
      WalkElsewhere(b, t, front, id);
    } else if Stops(b, q, a) {
      assert StopsAfter(b, q, rev, k);
    } else {
      WalkAt(b, t, front, k);
      forall j | k <= j < n ensures Stops(b, t, rev[j]) == Stops(b, q, rev[j]) { TurnApart(b, q, rev, j); }
      TurnApart(b, q, rev, k);
      assert StopsAfter(b, t, front, k) <==> StopsAfter(b, q, rev, k);
    }
  }

  lemma TurnApart(b: Browser, q: Page, rev: seq<Applied>, j: nat)
    requires Apart(b, rev) && j + 1 < |rev|
    ensures var t := Turn(b, q, rev[|rev| - 1]);
      Stops(b, t, rev[j]) == Stops(b, q, rev[j]) && t.Keys == q.Keys
      && (IdAt(b, rev, j) in q ==> Turn(b, t, rev[j])[IdAt(b, rev, j)] == Turn(b, q, rev[j])[IdAt(b, rev, j)])
  {
    var t := Turn(b, q, rev[|rev| - 1]);
    hide Turn, Stops, IdOf, TargetOf;
    TurnElsewhere(b, q, rev[|rev| - 1], IdAt(b, rev, j));
    TurnElsewhere(b, t, rev[j], 0);
    TurnElsewhere(b, q, rev[j], 0);
    TurnLocal(b, q, t, rev[j]);
  }

  // ---- one control, from what it held before the run ----

  /** Writing the change leaves the control as it was. */
  predicate Unaltered(c: Change, k: Kind) { WriteKind(c, k) == k }

  /** The report of the change can be undone: it did not write what the page showed anyway. */
  predicate Differs(c: Change, k: Kind) { Clip(Shown(k)) != c.to }

  /** The page takes the undo: the shown text finds an option again, or the field still shows what
      was written. */
  predicate UndoTaken(c: Change, k: Kind) {
    if RoleOf(c) == Combobox then k.Picklist? && FirstOption(k.options, Clip(Shown(k))) < |k.options|
    else Shown(WriteKind(c, k)) == c.to
  }

  /** What the control holds after the write and its undo. */
  function Ends(c: Change, k: Kind): Kind {
    if Differs(c, k) && UndoTaken(c, k) then WriteKind(Back(c, k), WriteKind(c, k)) else WriteKind(c, k)
  }

  predicate Returns(c: Change, k: Kind) { Ends(c, k) == k }

  /** The undo is refused, or does not read back, so the revert stops there. */
  predicate Obstructs(c: Change, k: Kind) {
    Differs(c, k) && !(UndoTaken(c, k) && ValuesMatch(Clip(Shown(k)), Some(Clip(Shown(Ends(c, k))))))
  }

  /** What the control of a change held before the run. */
  function Held(b: Browser, p0: Page, c: Change): Kind { if Reaches(b, p0, c) then p0[IdOf(b, c)].kind else Field("") }

  lemma UndoTakes(b: Browser, id: nat, c: Change, d: Control)
    requires OnControl(b, id, d, SetAction(c)).1.Answered?
    ensures var written := d.(kind := WriteKind(c, d.kind));
      OnControl(b, id, written, SetAction(Back(c, d.kind))).1.Answered? <==> UndoTaken(c, d.kind)
  {
  }

  /** The turn of a recorded change on the page it left. */
  lemma RecordedTurn(b: Browser, p0: Page, q: Page, c: Change)
    requires Takes(b, p0, c) && IdOf(b, c) in q && q[IdOf(b, c)] == p0[IdOf(b, c)].(kind := WriteKind(c, p0[IdOf(b, c)].kind))
    ensures var (id, a, k) := (IdOf(b, c), Recording(b, p0, c), Held(b, p0, c));
      && (Stops(b, q, a) <==> Obstructs(c, k))
      && Turn(b, q, a)[id] == p0[id].(kind := Ends(c, k))
  {
    TakesReaches(b, p0, c);
    var (id, a) := (IdOf(b, c), Recording(b, p0, c));
    UndoTakes(b, id, c, p0[id]);
    assert Restorable(a) <==> Differs(c, p0[id].kind);
    if Restorable(a) { assert Reversed(a) == Back(c, p0[id].kind); }
    hide OnControl, SetAction, WriteKind, ValuesMatch, UndoTaken, Clip, Shown;
  }

  // ---- all controls ----

  /** A later report obstructs the revert before the turn of report k comes. */
  ghost predicate Cut(b: Browser, p0: Page, rev: seq<Applied>, k: nat) {
    exists j :: k < j < |rev| && Obstructs(rev[j].change, Held(b, p0, rev[j].change))
  }

  /** The control of report k ends as it was. */
  ghost predicate ReportRestored(b: Browser, p0: Page, rev: seq<Applied>, k: nat)
    requires k < |rev|
  {
    var (c, held) := (rev[k].change, Held(b, p0, rev[k].change));
    if Cut(b, p0, rev, k) then Unaltered(c, held) else Returns(c, held)
  }

  /** Every reported change, last first, returns its control to what it held, up to the first one
      whose undo obstructs the revert; those before that one had not altered theirs. */
  ghost predicate Restores(b: Browser, p0: Page, rev: seq<Applied>) { forall k: nat :: k < |rev| ==> ReportRestored(b, p0, rev, k) }

  lemma {:induction false} FlatAt(b: Browser, p0: Page, cs: seq<Change>, idx: seq<nat>, k: nat)
    requires Within(idx, cs)
    ensures |Flat(b, p0, cs, idx)| == |idx|
    ensures k < |idx| ==> Flat(b, p0, cs, idx)[k] == Recording(b, p0, cs[idx[k]])
  {
    hide Recording;
    if idx != [] {
      var front := idx[..|idx| - 1];
      assert forall j :: 0 <= j < |front| ==> front[j] == idx[j];
      FlatAt(b, p0, cs, front, k);
    }
  }

  /** A run with its trail, and the reports it hands to the revert. */
  ghost predicate Ran(b: Browser, cs: seq<Change>, p0: Page, r: Run, done: seq<nat>, lost: Option<nat>) {
    Separate(b, cs) && Trail(b, cs, |cs|, p0, r, done, lost) && Within(done, cs) && NoRepeats(done) && TakenFlat(b, p0, cs, done)
  }

  lemma ReportAt(b: Browser, cs: seq<Change>, p0: Page, r: Run, done: seq<nat>, lost: Option<nat>, k: nat)
    requires Ran(b, cs, p0, r, done, lost) && k < |done|
    ensures var (rev, c) := (Flat(b, p0, cs, done), cs[done[k]]);
      && |rev| == |done| && rev[k] == Recording(b, p0, c) && rev[k].change == c && b.find(TargetOf(c)).Here? && Takes(b, p0, c) && Reaches(b, p0, c)
  {
    hide Trail, Separate, NoRepeats, Flat, OnControl;
    FlatAt(b, p0, cs, done, k);
    assert Takes(b, p0, cs[done[k]]);
  }

  lemma ReportsApart(b: Browser, cs: seq<Change>, p0: Page, r: Run, done: seq<nat>, lost: Option<nat>)
    requires Ran(b, cs, p0, r, done, lost)
    ensures Apart(b, Flat(b, p0, cs, done)) && |Flat(b, p0, cs, done)| == |done|
  {
    hide Trail, Flat, Recording, Takes, TakenFlat, TargetOf, Reaches;
    FlatAt(b, p0, cs, done, 0);
    var rev := Flat(b, p0, cs, done);
    forall k | 0 <= k < |rev| ensures b.find(TargetOf(rev[k].change)).Here? && rev[k].change == cs[done[k]] { ReportAt(b, cs, p0, r, done, lost, k); }
    hide Ran;
    forall j, k | 0 <= j < k < |rev| ensures IdOf(b, rev[j].change) != IdOf(b, rev[k].change) {
      assert done[j] != done[k];
      SeparateAt(b, cs, done[j], done[k]);
    }
  }

  lemma ReportTurn(b: Browser, cs: seq<Change>, p0: Page, r: Run, done: seq<nat>, lost: Option<nat>, k: nat)
    requires Ran(b, cs, p0, r, done, lost) && k < |done|
    ensures var rev := Flat(b, p0, cs, done);
      && |rev| == |done| && IdAt(b, rev, k) in p0 && r.page.Keys == p0.Keys
      && var (id, c, held) := (IdAt(b, rev, k), rev[k].change, Held(b, p0, rev[k].change));
         && (Stops(b, r.page, rev[k]) <==> Obstructs(c, held)) && p0[id].kind == held
         && r.page[id] == p0[id].(kind := WriteKind(c, held))
         && Turn(b, r.page, rev[k])[id] == p0[id].(kind := Ends(c, held))
  {
    ReportAt(b, cs, p0, r, done, lost, k);
    var (c, id) := (cs[done[k]], IdOf(b, cs[done[k]]));
    AfterRun(b, cs, p0, r, done, lost, id);
    assert Wrote(b, cs, done, k, id);
    hide Ran, Trail, Flat, Takes, WriteKind, Ends, Obstructs, Stops, Turn, Recording;
    RecordedTurn(b, p0, r.page, c);
  }

  lemma SameKind(d: Control, x: Kind)
    ensures d.(kind := x) == d <==> x == d.kind
  {
  }

  lemma ReportEnds(b: Browser, cs: seq<Change>, p0: Page, r: Run, done: seq<nat>, lost: Option<nat>, k: nat)
    requires Ran(b, cs, p0, r, done, lost) && k < |done|
    ensures var rev := Flat(b, p0, cs, done);
      && |rev| == |done| && IdAt(b, rev, k) in p0 && Walk(b, r.page, rev).Keys == p0.Keys
      && (Walk(b, r.page, rev)[IdAt(b, rev, k)] == p0[IdAt(b, rev, k)] <==> ReportRestored(b, p0, rev, k))
  {
    var rev := Flat(b, p0, cs, done);
    hide Ran, Flat, Walk, Turn, Stops, Obstructs, Ends, WriteKind, Held, Apart;
    ReportsApart(b, cs, p0, r, done, lost);
    ReportTurn(b, cs, p0, r, done, lost, k);
    WalkAt(b, r.page, rev, k);
    forall j: nat | j < |rev| ensures Stops(b, r.page, rev[j]) <==> Obstructs(rev[j].change, Held(b, p0, rev[j].change)) {
      ReportTurn(b, cs, p0, r, done, lost, j);
    }
    assert StopsAfter(b, r.page, rev, k) <==> Cut(b, p0, rev, k);
    var (id, c, held) := (IdAt(b, rev, k), rev[k].change, Held(b, p0, rev[k].change));
    SameKind(p0[id], WriteKind(c, held));
    SameKind(p0[id], Ends(c, held));
  }

  lemma WrittenIsReported(b: Browser, cs: seq<Change>, p0: Page, r: Run, done: seq<nat>, lost: Option<nat>, id: nat)
    requires Ran(b, cs, p0, r, done, lost)
    ensures forall k: nat :: Wrote(b, cs, done, k, id) ==> k < |Flat(b, p0, cs, done)| && IdAt(b, Flat(b, p0, cs, done), k) == id
  {
    hide Flat, Trail, TakenFlat, Takes, Recording, Separate, NoRepeats;
    forall k: nat | Wrote(b, cs, done, k, id) ensures k < |Flat(b, p0, cs, done)| && IdAt(b, Flat(b, p0, cs, done), k) == id {
      ReportAt(b, cs, p0, r, done, lost, k);
    }
  }

  /** The control of the write whose answer was lost ends as that write left it. */
  lemma LostEnds(b: Browser, cs: seq<Change>, p0: Page, r: Run, done: seq<nat>, lost: Option<nat>)
    requires Ran(b, cs, p0, r, done, lost) && lost.Some?
    ensures lost.value < |cs|
    ensures var (c, rev) := (cs[lost.value], Flat(b, p0, cs, done)); var id := IdOf(b, c);
      if Reaches(b, p0, c) then id in Walk(b, r.page, rev) && (Walk(b, r.page, rev)[id] == p0[id] <==> WriteIn(b, p0, c) == p0)
      else WriteIn(b, p0, c) == p0
  {
    var (c, rev) := (cs[lost.value], Flat(b, p0, cs, done));
    if Reaches(b, p0, c) {
      hide Flat, Walk, WriteKind, Takes, AllTaken, Recordings, Revertable, WriteAll, Recording;
      var id := IdOf(b, c);
      ReportsApart(b, cs, p0, r, done, lost);
      AfterRun(b, cs, p0, r, done, lost, id);
      forall k: nat | k < |rev| ensures IdAt(b, rev, k) != id {
        ReportAt(b, cs, p0, r, done, lost, k);
        LostApart(b, cs, done[k], lost.value);
      }
      WalkElsewhere(b, r.page, rev, id);
      WrittenIsReported(b, cs, p0, r, done, lost, id);
      WrittenControl(b, p0, cs, done, id);
      SameKind(p0[id], WriteKind(c, p0[id].kind));
      assert WriteIn(b, p0, c) == p0 <==> WriteIn(b, p0, c)[id] == p0[id];
    }
  }

  lemma OtherEnds(b: Browser, cs: seq<Change>, p0: Page, r: Run, done: seq<nat>, lost: Option<nat>, id: nat)
    requires Ran(b, cs, p0, r, done, lost) && id in p0 && !IsLost(b, cs, lost, id)
    requires forall k: nat :: k < |Flat(b, p0, cs, done)| ==> IdAt(b, Flat(b, p0, cs, done), k) != id
    ensures id in Walk(b, r.page, Flat(b, p0, cs, done)) && Walk(b, r.page, Flat(b, p0, cs, done))[id] == p0[id]
  {
    hide Flat, Walk, WriteKind, Takes, Trail, TakenFlat, Recording;
    AfterRun(b, cs, p0, r, done, lost, id);
    WrittenIsReported(b, cs, p0, r, done, lost, id);
    WalkElsewhere(b, r.page, Flat(b, p0, cs, done), id);
  }

  /** The write whose answer was lost, if one was, changed nothing. */
  predicate LostNothing(b: Browser, cs: seq<Change>, p0: Page, lost: Option<nat>) {
    lost.Some? && lost.value < |cs| ==> WriteIn(b, p0, cs[lost.value]) == p0
  }

  /** What every control of the page holds in the end. */
  lemma ControlEnds(b: Browser, cs: seq<Change>, p0: Page, r: Run, done: seq<nat>, lost: Option<nat>, id: nat)
    requires Ran(b, cs, p0, r, done, lost) && id in p0 && Restores(b, p0, Flat(b, p0, cs, done)) && LostNothing(b, cs, p0, lost)
    ensures id in Walk(b, r.page, Flat(b, p0, cs, done)) && Walk(b, r.page, Flat(b, p0, cs, done))[id] == p0[id]
  {
    var rev := Flat(b, p0, cs, done);
    hide Ran, Flat, Walk, ReportRestored, WriteIn, TargetOf;
    ReportsApart(b, cs, p0, r, done, lost);
    if k: nat :| k < |rev| && IdAt(b, rev, k) == id {
      ReportEnds(b, cs, p0, r, done, lost, k);
      assert ReportRestored(b, p0, rev, k);
    } else if IsLost(b, cs, lost, id) {
      LostEnds(b, cs, p0, r, done, lost);
    } else {
      OtherEnds(b, cs, p0, r, done, lost, id);
    }
  }

  lemma WalkRestoresExactly(b: Browser, cs: seq<Change>, p0: Page, r: Run, done: seq<nat>, lost: Option<nat>)
    requires Ran(b, cs, p0, r, done, lost)
    ensures Walk(b, r.page, Flat(b, p0, cs, done)) == p0 <==> Restores(b, p0, Flat(b, p0, cs, done)) && LostNothing(b, cs, p0, lost)
  {
    var rev := Flat(b, p0, cs, done);
    hide Ran, Flat, Walk, ReportRestored, WriteIn, TargetOf, IdAt;
    var t := Walk(b, r.page, rev);
    ReportsApart(b, cs, p0, r, done, lost);
    RanKeys(b, cs, p0, r, done, lost);
    if t == p0 {
      forall k: nat | k < |rev| ensures ReportRestored(b, p0, rev, k) { ReportEnds(b, cs, p0, r, done, lost, k); }
      if lost.Some? { LostEnds(b, cs, p0, r, done, lost); }
    }
    if Restores(b, p0, rev) && LostNothing(b, cs, p0, lost) {
      forall id | id in p0 ensures t[id] == p0[id] { ControlEnds(b, cs, p0, r, done, lost, id); }
    }
  }

  lemma RanKeys(b: Browser, cs: seq<Change>, p0: Page, r: Run, done: seq<nat>, lost: Option<nat>)
    requires Ran(b, cs, p0, r, done, lost)
    ensures Walk(b, r.page, Flat(b, p0, cs, done)).Keys == p0.Keys
  {
    hide Trail, Separate, TakenFlat, Flat, Walk;
    AfterRun(b, cs, p0, r, done, lost, 0);
    WalkKeys(b, r.page, Flat(b, p0, cs, done));
  }

  lemma {:induction false} WalkKeys(b: Browser, q: Page, rev: seq<Applied>)
    ensures Walk(b, q, rev).Keys == q.Keys
    decreases |rev|
  {
    hide Turn, Stops;
    if rev != [] {
      TurnElsewhere(b, q, rev[|rev| - 1], 0);
      WalkKeys(b, Turn(b, q, rev[|rev| - 1]), rev[..|rev| - 1]);
    }
  }

  // ---- the theorem ----

  /** The undos of what was reported make a plan, unless there are none. */
  lemma UndosPlanned(lower: string -> string, b: Browser, cs: seq<Change>, save: Option<string>, p0: Page, r: Run, done: seq<nat>, lost: Option<nat>)
    requires PlanOf(lower, cs, save).Planned? && Ran(b, cs, p0, r, done, lost)
    ensures var rev := Flat(b, p0, cs, done); PlanRevert(lower, rev).Planned? || Reversals(rev) == []
  {
    hide PlanOf, Trail, Takes, Recording, Restorable, Undo, Plannable, Separate, NoRepeats, Flat, Reversals, Reaches, TakenFlat;
    PlansExactly(lower, cs, save);
    ReversalsAre(b, p0, cs, done);
    var kept := Kept(b, p0, cs, done);
    KeptApart(b, p0, cs, done);
    DoneFew(b, cs, p0, r, done, lost);
    forall i | i in kept ensures Reaches(b, p0, cs[i]) && Restorable(Recording(b, p0, cs[i])) {
      var k :| 0 <= k < |done| && done[k] == i;
      ReportAt(b, cs, p0, r, done, lost, k);
    }
    UndoPlannable(lower, b, p0, cs, kept);
    PlansExactly(lower, Undos(b, p0, cs, kept), None);
  }

  /** The round trip, exactly. Run an accepted plan of separate controls on any page, under any
      consent and any script, halting anywhere; then revert what it reported, every request answered.
      The page is as it was before the run if and only if what was reported restores and a write whose
      answer was lost, if one was, had changed nothing. */
  lemma RestoredExactly(lower: string -> string, cs: seq<Change>, save: Option<string>, b: Browser, ctx: Context, script: Script, p0: Page,
                        again: Context, smooth: Script, done: seq<nat>, lost: Option<nat>)
    requires PlanOf(lower, cs, save).Planned? && Separate(b, cs) && Smooth(again, smooth)
    requires Trail(b, cs, |cs|, p0, RunAll(b, ctx, script, PlanOf(lower, cs, save).steps, p0), done, lost)
    ensures var r := RunAll(b, ctx, script, PlanOf(lower, cs, save).steps, p0);
      var rev := Revertable(cs, r.outcomes);
      Reverted(b, again, smooth, r.page, PlanRevert(lower, rev)) == p0 <==> Restores(b, p0, rev) && LostNothing(b, cs, p0, lost)
  {
    hide PlanOf, RunAll, PlanRevert, Trail, Smooth, Separate, Restores, LostNothing, Walk, Flat, Reverted, NoRepeats, TakenFlat;
    var r := RunAll(b, ctx, script, PlanOf(lower, cs, save).steps, p0);
    FlatTrail(b, cs, p0, r, done, lost);
    UndosPlanned(lower, b, cs, save, p0, r, done, lost);
    RevertWalks(lower, Flat(b, p0, cs, done), b, again, smooth, r.page);
    WalkRestoresExactly(b, cs, p0, r, done, lost);
  }
}
