/** Where the round trip is exact, and the controls on which it cannot be. */
module BrowserLimits {
  import opened Text
  import opened BrowserPlan
  import opened BrowserExecute
  import opened BrowserRevert
  import opened BrowserRoundTrip
  import opened BrowserReverting

  // ---- runs whose answers all arrived ----

  /** When no answer was lost after its write landed, the page is as it was exactly if what was
      reported restores. */
  lemma AnsweredRunsRestoreExactly(lower: string -> string, cs: seq<Change>, save: Option<string>, b: Browser, ctx: Context, script: Script, p0: Page,
                                   again: Context, smooth: Script)
    requires PlanOf(lower, cs, save).Planned? && Separate(b, cs) && Smooth(again, smooth)
    requires forall k :: script(k).delivery != Lost(true)
    ensures var r := RunAll(b, ctx, script, PlanOf(lower, cs, save).steps, p0);
      var rev := Revertable(cs, r.outcomes);
      Reverted(b, again, smooth, r.page, PlanRevert(lower, rev)) == p0 <==> Restores(b, p0, rev)
  {
    hide RunAll, PlanOf, PlanRevert, Separate, Smooth, Trail, Restores, Reverted, Revertable;
    var done, lost := PlanTrail(lower, cs, save, b, ctx, script, p0);
    RestoredExactly(lower, cs, save, b, ctx, script, p0, again, smooth, done, lost);
  }

  // ---- text fields and picklists ----

  /** A text field under a text role, or a picklist showing no more than an observation carries. */
  predicate Ordinary(c: Change, k: Kind) {
    if RoleOf(c) == Combobox then k.Picklist? && |Shown(k)| <= MAX_VALUE else k.Field?
  }

  /** What the page must have held to take the write of a real change. */
  predicate Takeable(c: Change, k: Kind) {
    c.from != c.to &&
    if RoleOf(c) == Combobox then k.Picklist? && FirstOption(k.options, c.to) < |k.options| else Shown(k) == c.from
  }

  /** On such a control the change returns exactly when the control is plain, and a change whose
      undo obstructs the revert does not return. */
  lemma OrdinaryForm(c: Change, k: Kind)
    requires Ordinary(c, k) && Takeable(c, k)
    ensures Returns(c, k) <==> Plain(c, k)
    ensures Obstructs(c, k) ==> !Returns(c, k)
  {
    hide Trim;
    if RoleOf(c) != Combobox { assert |k.value| > MAX_VALUE ==> |Clip(k.value)| == MAX_VALUE; }
  }

  /** The last report that obstructs is itself not cut off. */
  lemma LastObstructs(b: Browser, p0: Page, rev: seq<Applied>, j: nat) returns (l: nat)
    requires j < |rev| && Obstructs(rev[j].change, Held(b, p0, rev[j].change))
    ensures j <= l < |rev| && Obstructs(rev[l].change, Held(b, p0, rev[l].change)) && !Cut(b, p0, rev, l)
    decreases |rev| - j
  {
    hide Obstructs, Held;
    if Cut(b, p0, rev, j) {
      var i :| j < i < |rev| && Obstructs(rev[i].change, Held(b, p0, rev[i].change));
      l := LastObstructs(b, p0, rev, i);
    } else {
      l := j;
    }
  }

  predicate PlainAt(b: Browser, p0: Page, rev: seq<Applied>, k: nat)
    requires k < |rev|
  { Plain(rev[k].change, Held(b, p0, rev[k].change)) }

  lemma RestoresPlain(b: Browser, p0: Page, rev: seq<Applied>)
    requires forall k: nat :: k < |rev| ==>
      var (c, held) := (rev[k].change, Held(b, p0, rev[k].change));
      (Returns(c, held) <==> PlainAt(b, p0, rev, k)) && (Obstructs(c, held) ==> !Returns(c, held))
    ensures Restores(b, p0, rev) <==> forall k: nat :: k < |rev| ==> PlainAt(b, p0, rev, k)
  {
    hide Obstructs, Returns, Held, PlainAt, Unaltered;
    if k: nat :| k < |rev| && Cut(b, p0, rev, k) {
      var j :| k < j < |rev| && Obstructs(rev[j].change, Held(b, p0, rev[j].change));
      var l := LastObstructs(b, p0, rev, j);
      assert !ReportRestored(b, p0, rev, l) && !PlainAt(b, p0, rev, l);
    } else {
      forall k: nat | k < |rev| ensures ReportRestored(b, p0, rev, k) <==> PlainAt(b, p0, rev, k) { }
    }
  }

  /** What was reported was taken by the control as it was at the start. */
  lemma ReportTaken(lower: string -> string, cs: seq<Change>, b: Browser, p0: Page, r: Run, done: seq<nat>, lost: Option<nat>, k: nat)
    requires Plannable(lower, cs) && Ran(b, cs, p0, r, done, lost) && k < |Flat(b, p0, cs, done)|
    ensures var (c, held) := (Flat(b, p0, cs, done)[k].change, Held(b, p0, Flat(b, p0, cs, done)[k].change));
      c in cs && Reaches(b, p0, c) && c.from != c.to && (Ordinary(c, held) || held.Tick? ==> Takeable(c, held))
  {
    hide Plannable, Trail, Separate, TakenFlat, Flat, NoRepeats;
    FlatAt(b, p0, cs, done, k);
    ReportAt(b, cs, p0, r, done, lost, k);
    RealChange(lower, cs, done[k]);
    TakenMeans(b, p0, cs[done[k]]);
  }

  lemma TakenMeans(b: Browser, p0: Page, c: Change)
    requires Takes(b, p0, c)
    ensures var k := Held(b, p0, c);
      if RoleOf(c) == Combobox then k.Picklist? && FirstOption(k.options, c.to) < |k.options| else Shown(k) == c.from
  {
  }

  /** On a page where every control the changes reach is a text field or a picklist of short texts,
      the round trip restores exactly when every reported change was made on a plain control, and a
      write whose answer was lost had changed nothing. */
  lemma OrdinaryRestoredExactly(lower: string -> string, cs: seq<Change>, save: Option<string>, b: Browser, ctx: Context, script: Script, p0: Page,
                                again: Context, smooth: Script, done: seq<nat>, lost: Option<nat>)
    requires PlanOf(lower, cs, save).Planned? && Separate(b, cs) && Smooth(again, smooth)
    requires Trail(b, cs, |cs|, p0, RunAll(b, ctx, script, PlanOf(lower, cs, save).steps, p0), done, lost)
    requires forall c :: c in cs && Reaches(b, p0, c) ==> Ordinary(c, Held(b, p0, c))
    ensures var r := RunAll(b, ctx, script, PlanOf(lower, cs, save).steps, p0);
      var rev := Revertable(cs, r.outcomes);
      Reverted(b, again, smooth, r.page, PlanRevert(lower, rev)) == p0 <==>
        (forall k: nat :: k < |rev| ==> PlainAt(b, p0, rev, k)) && LostNothing(b, cs, p0, lost)
  {
    hide PlanOf, RunAll, PlanRevert, Trail, Smooth, Separate, Restores, LostNothing, Flat, Reverted, NoRepeats, TakenFlat, Plannable, Ordinary, Takeable,
         Returns, Obstructs, Plain, Held, Reaches, Revertable;
    var r := RunAll(b, ctx, script, PlanOf(lower, cs, save).steps, p0);
    PlansExactly(lower, cs, save);
    FlatTrail(b, cs, p0, r, done, lost);
    RestoredExactly(lower, cs, save, b, ctx, script, p0, again, smooth, done, lost);
    var rev := Flat(b, p0, cs, done);
    forall k: nat | k < |rev| ensures
      var (c, held) := (rev[k].change, Held(b, p0, rev[k].change));
      (Returns(c, held) <==> PlainAt(b, p0, rev, k)) && (Obstructs(c, held) ==> !Returns(c, held))
    {
      ReportTaken(lower, cs, b, p0, r, done, lost, k);
      OrdinaryForm(rev[k].change, Held(b, p0, rev[k].change));
    }
    RestoresPlain(b, p0, rev);
  }

  /** A run over text fields, every answer delivered: the revert restores the page exactly when every
      field it wrote held no more than an observation carries. */
  lemma FieldRestoredExactly(lower: string -> string, cs: seq<Change>, save: Option<string>, b: Browser, ctx: Context, script: Script, p0: Page,
                             again: Context, smooth: Script)
    requires PlanOf(lower, cs, save).Planned? && Separate(b, cs) && Smooth(again, smooth) && forall k :: script(k).delivery != Lost(true)
    requires forall c :: c in cs ==> RoleOf(c) != Combobox && Held(b, p0, c).Field?
    ensures var r := RunAll(b, ctx, script, PlanOf(lower, cs, save).steps, p0);
      var rev := Revertable(cs, r.outcomes);
      Reverted(b, again, smooth, r.page, PlanRevert(lower, rev)) == p0 <==>
        forall a :: a in rev ==> Held(b, p0, a.change).Field? && |Held(b, p0, a.change).value| <= MAX_VALUE
  {
    hide PlanOf, RunAll, PlanRevert, Trail, Smooth, Separate, Reverted, Held, Revertable;
    var done, lost := PlanTrail(lower, cs, save, b, ctx, script, p0);
    OrdinaryRestoredExactly(lower, cs, save, b, ctx, script, p0, again, smooth, done, lost);
    ReportsAreChanges(cs, RunAll(b, ctx, script, PlanOf(lower, cs, save).steps, p0).outcomes);
    var rev := Revertable(cs, RunAll(b, ctx, script, PlanOf(lower, cs, save).steps, p0).outcomes);
    FieldsPlain(b, p0, rev);
  }

  lemma FieldsPlain(b: Browser, p0: Page, rev: seq<Applied>)
    requires forall a :: a in rev ==> RoleOf(a.change) != Combobox && Held(b, p0, a.change).Field?
    ensures (forall k: nat :: k < |rev| ==> PlainAt(b, p0, rev, k)) <==> forall a :: a in rev ==> |Held(b, p0, a.change).value| <= MAX_VALUE
  {
    hide Held, RoleOf;
    forall k: nat | k < |rev| ensures PlainAt(b, p0, rev, k) <==> |Held(b, p0, rev[k].change).value| <= MAX_VALUE { assert rev[k] in rev; }
    if forall k: nat :: k < |rev| ==> PlainAt(b, p0, rev, k) {
      forall a | a in rev ensures |Held(b, p0, a.change).value| <= MAX_VALUE {
        var k: nat :| k < |rev| && rev[k] == a;
        assert PlainAt(b, p0, rev, k);
      }
    }
  }

  /** A run over picklists of short texts, every answer delivered: the revert restores the page exactly
      when every picklist it changed had an option selected that its own text finds first; an earlier
      option of the same text or value captures it. */
  lemma PicklistRestoredExactly(lower: string -> string, cs: seq<Change>, save: Option<string>, b: Browser, ctx: Context, script: Script, p0: Page,
                                again: Context, smooth: Script)
    requires PlanOf(lower, cs, save).Planned? && Separate(b, cs) && Smooth(again, smooth) && forall k :: script(k).delivery != Lost(true)
    requires forall c :: c in cs ==>
      RoleOf(c) == Combobox && (Reaches(b, p0, c) ==> Held(b, p0, c).Picklist? && |Shown(Held(b, p0, c))| <= MAX_VALUE)
    ensures var r := RunAll(b, ctx, script, PlanOf(lower, cs, save).steps, p0);
      var rev := Revertable(cs, r.outcomes);
      Reverted(b, again, smooth, r.page, PlanRevert(lower, rev)) == p0 <==> forall a :: a in rev ==> SelectedFirst(Held(b, p0, a.change))
  {
    hide PlanOf, RunAll, PlanRevert, Trail, Smooth, Separate, Reverted, Held, Revertable, Reaches, FirstOption;
    var done, lost := PlanTrail(lower, cs, save, b, ctx, script, p0);
    OrdinaryRestoredExactly(lower, cs, save, b, ctx, script, p0, again, smooth, done, lost);
    var r := RunAll(b, ctx, script, PlanOf(lower, cs, save).steps, p0);
    var rev := Revertable(cs, r.outcomes);
    assert forall k: nat :: k < |rev| ==> rev[k] in rev;
    forall k: nat | k < |rev| ensures PlainAt(b, p0, rev, k) <==> SelectedFirst(Held(b, p0, rev[k].change)) {
      ReportedChange(lower, cs, save, b, p0, r, done, lost, k);
    }
  }

  /** The selected option is the first one its own text finds. */
  predicate SelectedFirst(k: Kind) {
    k.Picklist? && k.selected < |k.options| && FirstOption(k.options, k.options[k.selected].0) == k.selected
  }

  lemma ReportedChange(lower: string -> string, cs: seq<Change>, save: Option<string>, b: Browser, p0: Page, r: Run, done: seq<nat>, lost: Option<nat>, k: nat)
    requires PlanOf(lower, cs, save).Planned? && Separate(b, cs) && Trail(b, cs, |cs|, p0, r, done, lost) && k < |Revertable(cs, r.outcomes)|
    ensures var c := Revertable(cs, r.outcomes)[k].change; c in cs && Reaches(b, p0, c)
  {
    hide PlanOf, Trail, Separate, NoRepeats, TakenFlat, Plannable, Flat, Revertable;
    PlansExactly(lower, cs, save);
    FlatTrail(b, cs, p0, r, done, lost);
    ReportTaken(lower, cs, b, p0, r, done, lost, k);
  }

  lemma {:induction false} ReportsAreChanges(cs: seq<Change>, outcomes: seq<StepOutcome>)
    ensures forall a :: a in Revertable(cs, outcomes) ==> a.change in cs
  {
    if outcomes != [] { ReportsAreChanges(cs, outcomes[..|outcomes| - 1]); }
  }

  // ---- ticks ----

  lemma {:induction false} ReversalsStart(applied: seq<Applied>)
    requires applied != [] && Restorable(applied[|applied| - 1])
    ensures Reversals(applied) != [] && Reversals(applied)[0] == Reversed(applied[|applied| - 1])
  {
  }

  lemma {:induction false} BlocksStart(cs: seq<Change>, n: nat)
    requires 1 <= n <= |cs|
    ensures Block(0, cs[0]) <= Blocks(cs, n)
  {
    hide Block;
    if n > 1 { BlocksStart(cs, n - 1); } else { assert Blocks(cs, 0) == []; }
  }

  /** A plan whose first write the page does not take leaves the page as it is. */
  lemma FirstWriteRefused(lower: string -> string, us: seq<Change>, b: Browser, ctx: Context, script: Script, page: Page)
    requires PlanOf(lower, us, None).Planned? && !Takes(b, page, us[0])
    ensures RunAll(b, ctx, script, PlanOf(lower, us, None).steps, page).page == page
  {
    PlanSteps(lower, us, None);
    PlansExactly(lower, us, None);
    assert Saving(us, None) == [];
    hide RunStep, RunFrom, RunAll, Takes, Block, Blocks, PlanOf, Plannable;
    var steps := Blocks(us, |us|);
    BlocksStart(us, |us|);
    var (x, rest) := (Block(0, us[0]), steps[|Block(0, us[0])|..]);
    assert steps == x + rest;
    WholeRun(b, ctx, script, x, rest, page);
    assert steps + [] == steps;
    var fate, d := BlockRun(b, ctx, script, Start(page), 0, us, 0);
    HaltedStays(b, ctx, script, RunFrom(b, ctx, script, Start(page), x, 0), rest, |x|, us);
  }

  /** A checkbox ignores the value written to it, so its undo expects a value that is not there. A
      run that ends on a checkbox change reports it last, hence it is undone first, is refused, and
      stops the revert: nothing of the run is put back. */
  lemma CheckboxBlocksRevert(lower: string -> string, cs: seq<Change>, save: Option<string>, b: Browser, ctx: Context, script: Script, p0: Page,
                             again: Context, any: Script, i: nat)
    requires PlanOf(lower, cs, save).Planned? && Separate(b, cs)
    requires i < |cs| && RoleOf(cs[i]) != Combobox && Reaches(b, p0, cs[i]) && p0[IdOf(b, cs[i])].kind.Tick?
    requires var rev := Revertable(cs, RunAll(b, ctx, script, PlanOf(lower, cs, save).steps, p0).outcomes);
      rev != [] && rev[|rev| - 1].change == cs[i]
    ensures var r := RunAll(b, ctx, script, PlanOf(lower, cs, save).steps, p0);
      var back := PlanRevert(lower, Revertable(cs, r.outcomes));
      back.Planned? ==> RunAll(b, again, any, back.steps, r.page).page == r.page
  {
    hide PlanOf, RunAll, Trail, Separate, Takes, Recording, Revertable, Reversals, Reversed, Restorable, Reaches, Plannable;
    var r := RunAll(b, ctx, script, PlanOf(lower, cs, save).steps, p0);
    var rev := Revertable(cs, r.outcomes);
    PlansExactly(lower, cs, save);
    var done, lost := PlanTrail(lower, cs, save, b, ctx, script, p0);
    LastTick(lower, cs, b, p0, r, done, lost, i);
    ReversalsStart(rev);
    if PlanRevert(lower, rev).Planned? { FirstWriteRefused(lower, Reversals(rev), b, again, any, r.page); }
  }

  /** On a checkbox the write is ignored, and its undo obstructs the revert. */
  lemma TickForm(c: Change, k: Kind)
    requires RoleOf(c) != Combobox && k.Tick? && Takeable(c, k)
    ensures Unaltered(c, k) && Returns(c, k) && Obstructs(c, k)
  {
    hide Trim;
    assert |Shown(k)| <= 5;
  }

  /** A run whose last report is on a checkbox is restored by a revert exactly when nothing it
      reported had altered its control, and a write whose answer was lost had not either. */
  lemma CheckboxRestoredExactly(lower: string -> string, cs: seq<Change>, save: Option<string>, b: Browser, ctx: Context, script: Script, p0: Page,
                                again: Context, smooth: Script, done: seq<nat>, lost: Option<nat>)
    requires PlanOf(lower, cs, save).Planned? && Separate(b, cs) && Smooth(again, smooth)
    requires Trail(b, cs, |cs|, p0, RunAll(b, ctx, script, PlanOf(lower, cs, save).steps, p0), done, lost)
    requires var rev := Revertable(cs, RunAll(b, ctx, script, PlanOf(lower, cs, save).steps, p0).outcomes);
      rev != [] && RoleOf(rev[|rev| - 1].change) != Combobox && Held(b, p0, rev[|rev| - 1].change).Tick?
    ensures var r := RunAll(b, ctx, script, PlanOf(lower, cs, save).steps, p0);
      var rev := Revertable(cs, r.outcomes);
      Reverted(b, again, smooth, r.page, PlanRevert(lower, rev)) == p0 <==>
        (forall a :: a in rev ==> Unaltered(a.change, Held(b, p0, a.change))) && LostNothing(b, cs, p0, lost)
  {
    hide PlanOf, RunAll, PlanRevert, Trail, Smooth, Separate, LostNothing, Flat, Reverted, NoRepeats, TakenFlat, Plannable, Takeable,
         Returns, Obstructs, Unaltered, Held, Reaches, Revertable;
    var r := RunAll(b, ctx, script, PlanOf(lower, cs, save).steps, p0);
    PlansExactly(lower, cs, save);
    FlatTrail(b, cs, p0, r, done, lost);
    RestoredExactly(lower, cs, save, b, ctx, script, p0, again, smooth, done, lost);
    var rev := Flat(b, p0, cs, done);
    ReportTaken(lower, cs, b, p0, r, done, lost, |rev| - 1);
    TickForm(rev[|rev| - 1].change, Held(b, p0, rev[|rev| - 1].change));
    TickCuts(b, p0, rev);
  }

  lemma TickCuts(b: Browser, p0: Page, rev: seq<Applied>)
    requires rev != []
    requires var (c, held) := (rev[|rev| - 1].change, Held(b, p0, rev[|rev| - 1].change)); Unaltered(c, held) && Returns(c, held) && Obstructs(c, held)
    ensures Restores(b, p0, rev) <==> forall a :: a in rev ==> Unaltered(a.change, Held(b, p0, a.change))
  {
    hide Unaltered, Returns, Obstructs, Held;
    var n: nat := |rev| - 1;
    forall k: nat | k < |rev| ensures ReportRestored(b, p0, rev, k) <==> Unaltered(rev[k].change, Held(b, p0, rev[k].change)) {
      if k < n { assert Cut(b, p0, rev, k); }
    }
    assert forall k: nat :: k < |rev| ==> rev[k] in rev;
    if Restores(b, p0, rev) {
      forall a | a in rev ensures Unaltered(a.change, Held(b, p0, a.change)) {
        var k: nat :| k < |rev| && rev[k] == a;
        assert ReportRestored(b, p0, rev, k);
      }
    }
  }

  lemma LastTick(lower: string -> string, cs: seq<Change>, b: Browser, p0: Page, r: Run, done: seq<nat>, lost: Option<nat>, i: nat)
    requires Plannable(lower, cs) && Separate(b, cs) && Trail(b, cs, |cs|, p0, r, done, lost)
    requires i < |cs| && RoleOf(cs[i]) != Combobox && Reaches(b, p0, cs[i]) && p0[IdOf(b, cs[i])].kind.Tick?
    requires var rev := Revertable(cs, r.outcomes); rev != [] && rev[|rev| - 1].change == cs[i]
    ensures var rev := Revertable(cs, r.outcomes); Restorable(rev[|rev| - 1]) && !Takes(b, r.page, Reversed(rev[|rev| - 1]))
  {
    hide Trail, Separate, Takes, Recording, Revertable, Reversed, Restorable, Reaches, Plannable, TakenFlat, NoRepeats, Flat;
    FlatTrail(b, cs, p0, r, done, lost);
    FlatLast(b, p0, cs, done);
    var n := |done| - 1;
    SameChange(lower, b, p0, cs, done[n], i);
    RealChange(lower, cs, i);
    TickRefused(b, cs, p0, r, done, lost, n);
  }

  lemma {:induction false} FlatLength(b: Browser, p0: Page, cs: seq<Change>, idx: seq<nat>)
    requires Within(idx, cs)
    ensures |Flat(b, p0, cs, idx)| == |idx|
  {
    hide Recording;
    if idx != [] { FlatLength(b, p0, cs, idx[..|idx| - 1]); }
  }

  lemma FlatLast(b: Browser, p0: Page, cs: seq<Change>, idx: seq<nat>)
    requires Within(idx, cs)
    ensures |Flat(b, p0, cs, idx)| == |idx|
    ensures idx != [] ==> Flat(b, p0, cs, idx)[|idx| - 1] == Recording(b, p0, cs[idx[|idx| - 1]])
  {
    hide Recording;
    FlatLength(b, p0, cs, idx);
    if idx != [] { FlatLength(b, p0, cs, idx[..|idx| - 1]); }
  }

  lemma RealChange(lower: string -> string, cs: seq<Change>, i: nat)
    requires Plannable(lower, cs) && i < |cs|
    ensures cs[i].from != cs[i].to
  {
    hide Key;
  }

  lemma SameChange(lower: string -> string, b: Browser, p0: Page, cs: seq<Change>, i: nat, j: nat)
    requires Plannable(lower, cs) && i < |cs| && j < |cs| && Recording(b, p0, cs[i]).change == cs[j]
    ensures i == j
  {
    hide Key;
    if i != j { KeysDiffer(lower, cs, i, j); }
  }

  lemma TickRefused(b: Browser, cs: seq<Change>, p0: Page, r: Run, done: seq<nat>, lost: Option<nat>, n: nat)
    requires Separate(b, cs) && Trail(b, cs, |cs|, p0, r, done, lost) && Within(done, cs) && TakenFlat(b, p0, cs, done)
    requires n < |done|
    requires var c := cs[done[n]]; RoleOf(c) != Combobox && c.from != c.to && Reaches(b, p0, c) && p0[IdOf(b, c)].kind.Tick?
    ensures var rec := Recording(b, p0, cs[done[n]]); Restorable(rec) && !Takes(b, r.page, Reversed(rec))
  {
    var (c, id) := (cs[done[n]], IdOf(b, cs[done[n]]));
    AfterRun(b, cs, p0, r, done, lost, id);
    assert Takes(b, p0, cs[done[n]]);
    assert Wrote(b, cs, done, n, id);
    hide Trail, Separate;
    assert WriteKind(c, p0[id].kind) == p0[id].kind;
    assert r.page[id] == p0[id];
    assert Shown(p0[id].kind) == c.from;
    assert |Shown(p0[id].kind)| <= 5;
  }
}
