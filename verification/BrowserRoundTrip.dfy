/** Plan, run, halt anywhere, revert: the page is as it was. */
module BrowserRoundTrip {
  import opened Text
  import opened BrowserPlan
  import opened BrowserExecute
  import opened BrowserRevert

  // ---- the trail of a whole plan ----

  lemma {:induction false} ConfirmsQuiet(cs: seq<Change>, n: nat)
    requires n <= |cs|
    ensures Quiet(Confirms(cs, n))
  {
    hide StepName;
    if n > 0 { ConfirmsQuiet(cs, n - 1); }
  }

  lemma SavingQuiet(cs: seq<Change>, save: Option<string>)
    ensures Quiet(Saving(cs, save))
  {
    ConfirmsQuiet(cs, |cs|);
    hide Confirms;
  }

  lemma WholeRun(b: Browser, ctx: Context, script: Script, x: seq<Step>, y: seq<Step>, p0: Page)
    ensures RunAll(b, ctx, script, x + y, p0) == RunFrom(b, ctx, script, RunFrom(b, ctx, script, Start(p0), x, 0), y, |x|)
  {
    hide RunStep, RunTo, RunFrom;
    RunToFrom(b, ctx, script, x + y, p0, |x + y|);
    assert (x + y)[..|x + y|] == x + y;
    RunInPieces(b, ctx, script, Start(p0), x, y, 0);
  }

  lemma PlanSteps(lower: string -> string, cs: seq<Change>, save: Option<string>)
    requires PlanOf(lower, cs, save).Planned?
    ensures PlanOf(lower, cs, save).steps == Blocks(cs, |cs|) + Saving(cs, save)
  {
    hide Blocks, Saving, FirstObjection;
  }

  lemma PlanTrail(lower: string -> string, cs: seq<Change>, save: Option<string>, b: Browser, ctx: Context, script: Script, p0: Page)
    returns (done: seq<nat>, lost: Option<nat>)
    requires PlanOf(lower, cs, save).Planned?
    ensures Trail(b, cs, |cs|, p0, RunAll(b, ctx, script, PlanOf(lower, cs, save).steps, p0), done, lost)
    ensures lost.Some? ==> exists k :: script(k).delivery == Lost(true)
  {
    hide PlanOf, Blocks, Saving, RunAll, RunFrom, Trail, SameTrail, Quiet;
    var (x, y) := (Blocks(cs, |cs|), Saving(cs, save));
    PlanSteps(lower, cs, save);
    SavingQuiet(cs, save);
    WholeRun(b, ctx, script, x, y, p0);
    var r := RunFrom(b, ctx, script, Start(p0), x, 0);
    QuietRun(b, ctx, script, r, y, |x|, cs);
    done, lost := BlocksRun(b, ctx, script, p0, cs, |cs|);
    SameTrailKeeps(b, cs, |cs|, p0, r, RunFrom(b, ctx, script, r, y, |x|), done, lost);
  }

  lemma SameTrailKeeps(b: Browser, cs: seq<Change>, n: nat, p0: Page, r: Run, t: Run, done: seq<nat>, lost: Option<nat>)
    requires n <= |cs| && Trail(b, cs, n, p0, r, done, lost) && SameTrail(cs, r, t) && (r.haltedAt.Some? ==> t.haltedAt.Some?)
    ensures Trail(b, cs, n, p0, t, done, lost)
  {
    hide WriteAll, WriteIn, Recordings, AllTaken, Revertable;
  }

  // ---- writes of different controls ----

  /** Different changes of the plan address different controls. */
  ghost predicate Separate(b: Browser, cs: seq<Change>) {
    forall i, j :: 0 <= i < j < |cs| && b.find(TargetOf(cs[i])).Here? && b.find(TargetOf(cs[j])).Here? ==> IdOf(b, cs[i]) != IdOf(b, cs[j])
  }

  predicate Within(idx: seq<nat>, cs: seq<Change>) { forall k :: 0 <= k < |idx| ==> idx[k] < |cs| }

  ghost predicate NoRepeats(idx: seq<nat>) { forall j, k :: 0 <= j < k < |idx| ==> idx[j] != idx[k] }

  /** The change among those listed that addresses the control. */
  ghost predicate Wrote(b: Browser, cs: seq<Change>, idx: seq<nat>, k: nat, id: nat)
    requires Within(idx, cs)
  { k < |idx| && b.find(TargetOf(cs[idx[k]])).Here? && IdOf(b, cs[idx[k]]) == id }

  /** Each control carries its own change, applied to what it held at the start. */
  lemma {:induction false} WrittenControl(b: Browser, page: Page, cs: seq<Change>, idx: seq<nat>, id: nat)
    requires Within(idx, cs) && NoRepeats(idx) && Separate(b, cs)
    ensures WriteAll(b, page, cs, idx).Keys == page.Keys
    ensures id in page && (forall k: nat :: !Wrote(b, cs, idx, k, id)) ==> WriteAll(b, page, cs, idx)[id] == page[id]
    ensures forall k: nat :: Wrote(b, cs, idx, k, id) && id in page ==>
              WriteAll(b, page, cs, idx)[id] == page[id].(kind := WriteKind(cs[idx[k]], page[id].kind))
  {
    hide WriteKind;
    if idx != [] {
      var (front, n) := (idx[..|idx| - 1], |idx| - 1);
      WrittenControl(b, page, cs, front, id);
      forall k: nat | k < n ensures Wrote(b, cs, front, k, id) <==> Wrote(b, cs, idx, k, id) { }
      if Wrote(b, cs, idx, n, id) {
        forall k: nat | k < n ensures !Wrote(b, cs, front, k, id) { assert front[k] == idx[k] != idx[n]; }
      }
    }
  }

  /** So every write was taken by the control as it was at the start, and records what that held. */
  lemma TakenAtStart(b: Browser, page: Page, cs: seq<Change>, idx: seq<nat>, n: nat)
    requires Within(idx, cs) && NoRepeats(idx) && Separate(b, cs) && n < |cs| && n !in idx
    ensures Takes(b, WriteAll(b, page, cs, idx), cs[n]) <==> Takes(b, page, cs[n])
    ensures Recording(b, WriteAll(b, page, cs, idx), cs[n]) == Recording(b, page, cs[n])
  {
    hide OnControl, SetAction, WriteAll;
    var id := IdOf(b, cs[n]);
    WrittenControl(b, page, cs, idx, id);
    if b.find(TargetOf(cs[n])).Here? {
      forall k: nat ensures !Wrote(b, cs, idx, k, id) { }
    }
  }

  /** The recordings, each taken at the start. */
  function Flat(b: Browser, page: Page, cs: seq<Change>, idx: seq<nat>): seq<Applied>
    requires Within(idx, cs)
  { if idx == [] then [] else Flat(b, page, cs, idx[..|idx| - 1]) + [Recording(b, page, cs[idx[|idx| - 1]])] }

  ghost predicate TakenFlat(b: Browser, page: Page, cs: seq<Change>, idx: seq<nat>)
    requires Within(idx, cs)
  { forall k :: 0 <= k < |idx| ==> Takes(b, page, cs[idx[k]]) }

  lemma {:induction false} Flatten(b: Browser, page: Page, cs: seq<Change>, idx: seq<nat>)
    requires Within(idx, cs) && NoRepeats(idx) && Separate(b, cs) && AllTaken(b, page, cs, idx)
    ensures Recordings(b, page, cs, idx) == Flat(b, page, cs, idx) && TakenFlat(b, page, cs, idx)
  {
    hide Takes, Recording, WriteAll;
    if idx != [] {
      var (front, n) := (idx[..|idx| - 1], idx[|idx| - 1]);
      assert AllTaken(b, page, cs, front) by {
        forall k | 0 <= k < |front| ensures Takes(b, WriteAll(b, page, cs, front[..k]), cs[front[k]]) {
          assert front[..k] == idx[..k] && front[k] == idx[k];
        }
      }
      Flatten(b, page, cs, front);
      assert n !in front by { assert forall k :: 0 <= k < |front| ==> front[k] == idx[k] != n; }
      assert Takes(b, WriteAll(b, page, cs, idx[..|idx| - 1]), cs[idx[|idx| - 1]]);
      TakenAtStart(b, page, cs, front, n);
      assert forall k :: 0 <= k < |front| ==> front[k] == idx[k];
    }
  }

  // ---- putting one control back ----

  /** A control that can be put back exactly: a text field of at most 512 characters, or a picklist
      whose selected option is the first one that its own text finds. */
  predicate Plain(c: Change, k: Kind) {
    if RoleOf(c) == Combobox
    then k.Picklist? && k.selected < |k.options| && FirstOption(k.options, k.options[k.selected].0) == k.selected
         && |k.options[k.selected].0| <= MAX_VALUE
    else k.Field? && |k.value| <= MAX_VALUE
  }

  function Back(c: Change, k: Kind): Change { c.(from := c.to, to := Clip(Shown(k))) }

  lemma RestoredKind(b: Browser, id: nat, c: Change, d: Control)
    requires Plain(c, d.kind) && OnControl(b, id, d, SetAction(c)).1.Answered?
    ensures var written := d.(kind := WriteKind(c, d.kind));
      && WriteKind(Back(c, d.kind), written.kind) == d.kind
      && OnControl(b, id, written, SetAction(Back(c, d.kind))).1.Answered?
      && ValuesMatch(Back(c, d.kind).to, Some(Clip(Shown(d.kind))))
    ensures Clip(Shown(d.kind)) == c.to && c.from != c.to ==> WriteKind(c, d.kind) == d.kind
  {
    hide Trim;
  }

  // ---- the reverting plan ----

  /** The changes whose write can be undone, last first. */
  function Kept(b: Browser, p0: Page, cs: seq<Change>, idx: seq<nat>): (r: seq<nat>)
    requires Within(idx, cs)
    ensures Within(r, cs)
    ensures forall i :: i in r <==> i in idx && Restorable(Recording(b, p0, cs[i]))
  {
    if idx == [] then []
    else
      var (front, i) := (idx[..|idx| - 1], idx[|idx| - 1]);
      assert idx == front + [i];
      (if Restorable(Recording(b, p0, cs[i])) then [i] else []) + Kept(b, p0, cs, front)
  }

  function Undo(b: Browser, p0: Page, c: Change): Change {
    if Reaches(b, p0, c) then Back(c, p0[IdOf(b, c)].kind) else c
  }

  function Undos(b: Browser, p0: Page, cs: seq<Change>, kept: seq<nat>): seq<Change>
    requires Within(kept, cs)
  { seq(|kept|, k requires 0 <= k < |kept| => Undo(b, p0, cs[kept[k]])) }

  lemma UndoIs(b: Browser, p0: Page, c: Change)
    requires Takes(b, p0, c) && Restorable(Recording(b, p0, c))
    ensures Reversed(Recording(b, p0, c)) == Undo(b, p0, c)
  {
    hide OnControl, SetAction;
  }

  lemma UndosCons(b: Browser, p0: Page, cs: seq<Change>, i: nat, rest: seq<nat>)
    requires i < |cs| && Within(rest, cs)
    ensures Within([i] + rest, cs) && Undos(b, p0, cs, [i] + rest) == [Undo(b, p0, cs[i])] + Undos(b, p0, cs, rest)
  {
    hide Undo;
  }

  lemma {:induction false} ReversalsAre(b: Browser, p0: Page, cs: seq<Change>, idx: seq<nat>)
    requires Within(idx, cs) && TakenFlat(b, p0, cs, idx)
    ensures Reversals(Flat(b, p0, cs, idx)) == Undos(b, p0, cs, Kept(b, p0, cs, idx))
  {
    hide Takes, Restorable, Recording, Reversed, Undo;
    if idx != [] {
      var (front, i) := (idx[..|idx| - 1], idx[|idx| - 1]);
      assert forall k :: 0 <= k < |front| ==> front[k] == idx[k];
      ReversalsAre(b, p0, cs, front);
      var (flat, rec) := (Flat(b, p0, cs, front), Recording(b, p0, cs[i]));
      assert (flat + [rec])[..|flat|] == flat;
      assert Takes(b, p0, cs[idx[|idx| - 1]]);
      hide Undos, Flat, TakenFlat;
      if Restorable(rec) {
        UndoIs(b, p0, cs[i]);
        UndosCons(b, p0, cs, i, Kept(b, p0, cs, front));
      } else {
        assert [] + Kept(b, p0, cs, front) == Kept(b, p0, cs, front);
      }
    }
  }

  lemma NoRepeatsFront(idx: seq<nat>)
    requires idx != [] && NoRepeats(idx)
    ensures NoRepeats(idx[..|idx| - 1]) && idx[|idx| - 1] !in idx[..|idx| - 1]
  {
    assert forall k :: 0 <= k < |idx| - 1 ==> idx[..|idx| - 1][k] == idx[k];
  }

  lemma NoRepeatsCons(i: nat, rest: seq<nat>)
    requires NoRepeats(rest) && i !in rest
    ensures NoRepeats([i] + rest)
  {
  }

  lemma {:induction false} KeptApart(b: Browser, p0: Page, cs: seq<Change>, idx: seq<nat>)
    requires Within(idx, cs) && NoRepeats(idx)
    ensures NoRepeats(Kept(b, p0, cs, idx)) && |Kept(b, p0, cs, idx)| <= |idx|
  {
    hide Recording, Restorable, NoRepeats;
    if idx == [] {
      NothingRepeats();
    } else {
      var (front, i) := (idx[..|idx| - 1], idx[|idx| - 1]);
      NoRepeatsFront(idx);
      KeptApart(b, p0, cs, front);
      var r := Kept(b, p0, cs, front);
      assert i !in r;
      if Restorable(Recording(b, p0, cs[i])) { NoRepeatsCons(i, r); }
      else { assert [] + r == r; }
    }
  }

  lemma NothingRepeats()
    ensures NoRepeats([])
  {
  }

  /** Undoing addresses the same controls, under the same keys. */
  lemma UndoPlannable(lower: string -> string, b: Browser, p0: Page, cs: seq<Change>, kept: seq<nat>)
    requires Plannable(lower, cs) && Separate(b, cs) && Within(kept, cs) && NoRepeats(kept)
    requires forall i :: i in kept ==> Reaches(b, p0, cs[i]) && Restorable(Recording(b, p0, cs[i]))
    ensures Plannable(lower, Undos(b, p0, cs, kept)) && Separate(b, Undos(b, p0, cs, kept))
  {
    hide Key, Trim;
    var us := Undos(b, p0, cs, kept);
    forall k | 0 <= k < |us| ensures Trim(us[k].fieldLabel) != "" && us[k].from != us[k].to { assert kept[k] in kept; }
    forall j, k | 0 <= j < k < |us| ensures Key(lower, us[j]) != Key(lower, us[k]) {
      SameKey(lower, b, p0, cs[kept[j]]);
      SameKey(lower, b, p0, cs[kept[k]]);
      KeysDiffer(lower, cs, kept[j], kept[k]);
    }
    forall j, k | 0 <= j < k < |us| && b.find(TargetOf(us[j])).Here? && b.find(TargetOf(us[k])).Here? ensures IdOf(b, us[j]) != IdOf(b, us[k]) {
      SeparateAt(b, cs, kept[j], kept[k]);
    }
  }

  lemma SameKey(lower: string -> string, b: Browser, p0: Page, c: Change)
    ensures Key(lower, Undo(b, p0, c)) == Key(lower, c) && TargetOf(Undo(b, p0, c)) == TargetOf(c)
  {
  }

  lemma KeysDiffer(lower: string -> string, cs: seq<Change>, i: nat, j: nat)
    requires Plannable(lower, cs) && i < |cs| && j < |cs| && i != j
    ensures Key(lower, cs[i]) != Key(lower, cs[j])
  {
    hide Key;
  }

  lemma SeparateAt(b: Browser, cs: seq<Change>, i: nat, j: nat)
    requires Separate(b, cs) && i < |cs| && j < |cs| && i != j && b.find(TargetOf(cs[i])).Here? && b.find(TargetOf(cs[j])).Here?
    ensures IdOf(b, cs[i]) != IdOf(b, cs[j])
  {
  }

  // ---- the reverting run ----

  /** A consented run whose requests all go out with tokens of their own and are all answered. */
  ghost predicate Smooth(ctx: Context, script: Script) {
    && ctx.routedToExtension && |ctx.origins| > 0 && !ctx.shadow && ctx.allowWrites && ctx.approved && ctx.present
    && (forall k :: script(k).delivery == Delivered && |script(k).token| >= MIN_AUTHORIZATION_LENGTH)
    && (forall j, k :: j != k ==> script(j).token != script(k).token)
  }

  /** Going, with only the first `off` tokens spent. */
  ghost predicate Unhindered(r: Run, script: Script, off: nat) {
    r.haltedAt.None? && forall t :: t in r.spent ==> exists m: nat :: m < off && script(m).token == t
  }

  lemma SmoothGate(ctx: Context, script: Script, r: Run, a: Action, off: nat)
    requires Smooth(ctx, script) && Unhindered(r, script, off)
    ensures AuthorizeIssue(ctx, a, script(off).token, r.spent, REQUEST_WINDOW_MS).None?
    ensures script(off).delivery == Delivered
  {
    assert |script(off).token| >= MIN_AUTHORIZATION_LENGTH;
  }

  lemma SmoothSpent(script: Script, spent: set<string>, off: nat)
    requires forall t :: t in spent ==> exists m: nat :: m < off && script(m).token == t
    ensures forall t :: t in spent + {script(off).token} ==> exists m: nat :: m < off + 1 && script(m).token == t
  {
    forall t | t in spent + {script(off).token} ensures exists m: nat :: m < off + 1 && script(m).token == t {
      if t in spent {
        var m: nat :| m < off && script(m).token == t;
        assert m < off + 1;
      } else {
        assert script(off).token == t && off < off + 1;
      }
    }
  }

  /** Looking at a control that is there goes through. */
  lemma SmoothLook(b: Browser, ctx: Context, script: Script, r: Run, s: Step, off: nat)
    requires Smooth(ctx, script) && Unhindered(r, script, off) && !s.write && (s.action.FocusField? || s.action.ReadField?)
    requires b.find(s.action.target).Here? && b.find(s.action.target).id in r.page
    ensures var t := RunStep(b, ctx, r, s, script(off)); Unhindered(t, script, off + 1) && t.page == r.page
  {
    SmoothGate(ctx, script, r, s.action, off);
    SmoothSpent(script, r.spent, off);
    LookPerformed(b, r.page, s.action);
    assert Perform(b, r.page, s.action).1.Answered?;
    hide Smooth, AuthorizeIssue, Perform;
  }

  lemma {:induction false} SmoothLooks(b: Browser, ctx: Context, script: Script, r: Run, steps: seq<Step>, off: nat, t: Target)
    requires Smooth(ctx, script) && Unhindered(r, script, off) && b.find(t).Here? && b.find(t).id in r.page
    requires forall k :: 0 <= k < |steps| ==> !steps[k].write && (steps[k].action == FocusField(t) || steps[k].action == ReadField(t))
    ensures var u := RunFrom(b, ctx, script, r, steps, off); Unhindered(u, script, off + |steps|) && u.page == r.page
    decreases |steps|
  {
    hide RunStep, Smooth, Unhindered;
    if steps != [] {
      SmoothLook(b, ctx, script, r, steps[0], off);
      SmoothLooks(b, ctx, script, RunStep(b, ctx, r, steps[0], script(off)), steps[1..], off + 1, t);
    }
  }

  /** The write reads back what was asked for. */
  predicate ReadsBack(b: Browser, page: Page, c: Change) {
    Reaches(b, page, c) && ValuesMatch(c.to, Some(Clip(Shown(WriteKind(c, page[IdOf(b, c)].kind)))))
  }

  lemma SmoothSet(b: Browser, ctx: Context, script: Script, r: Run, i: nat, c: Change, off: nat)
    requires Smooth(ctx, script) && Unhindered(r, script, off) && Takes(b, r.page, c) && ReadsBack(b, r.page, c)
    ensures var t := RunStep(b, ctx, r, SetPlanStep(i, c), script(off)); Unhindered(t, script, off + 1) && t.page == WriteIn(b, r.page, c)
  {
    var s := SetPlanStep(i, c);
    SmoothGate(ctx, script, r, s.action, off);
    SmoothSpent(script, r.spent, off);
    SetPerformed(b, r.page, c);
    hide Smooth, AuthorizeIssue, Perform, Takes, WriteIn, WriteKind;
    assert VerifyWrite(b, s.action, Perform(b, r.page, s.action).1).Verified?;
  }

  lemma WriteReaches(b: Browser, page: Page, c: Change)
    ensures Reaches(b, WriteIn(b, page, c), c) <==> Reaches(b, page, c)
  {
  }

  /** A block whose write the page takes and reads back goes through as a whole. */
  lemma SmoothBlock(b: Browser, ctx: Context, script: Script, r: Run, i: nat, c: Change, off: nat)
    requires Smooth(ctx, script) && Unhindered(r, script, off) && Takes(b, r.page, c) && ReadsBack(b, r.page, c)
    ensures var t := RunFrom(b, ctx, script, r, Block(i, c), off); Unhindered(t, script, off + |Block(i, c)|) && t.page == WriteIn(b, r.page, c)
  {
    var (x, y, z) := (Looks(i, c), [SetPlanStep(i, c)], Check(i, c));
    BlockParts(i, c);
    RunInPieces(b, ctx, script, r, x + y, z, off);
    RunInPieces(b, ctx, script, r, x, y, off);
    WriteReaches(b, r.page, c);
    SmoothLooks(b, ctx, script, r, x, off, TargetOf(c));
    var s1 := RunFrom(b, ctx, script, r, x, off);
    RunOne(b, ctx, script, s1, SetPlanStep(i, c), off + |x|);
    hide RunStep, Block, SetPlanStep, Smooth, Unhindered, ReadsBack, WriteIn;
    SmoothSet(b, ctx, script, s1, i, c, off + |x|);
    var s2 := RunFrom(b, ctx, script, s1, y, off + |x|);
    SmoothLooks(b, ctx, script, s2, z, off + |x| + 1, TargetOf(c));
  }

  function UpTo(n: nat): (r: seq<nat>)
    ensures |r| == n && forall k :: 0 <= k < n ==> r[k] == k
  { if n == 0 then [] else UpTo(n - 1) + [n - 1] }

  lemma UpToFacts(us: seq<Change>, n: nat)
    requires n < |us|
    ensures n !in UpTo(n) && NoRepeats(UpTo(n)) && Within(UpTo(n), us) && Within(UpTo(n + 1), us)
  {
  }

  lemma WriteNext(b: Browser, page: Page, us: seq<Change>, n: nat)
    requires n < |us|
    ensures WriteAll(b, page, us, UpTo(n + 1)) == WriteIn(b, WriteAll(b, page, us, UpTo(n)), us[n])
  {
    hide WriteIn;
    assert UpTo(n + 1)[..n] == UpTo(n) && UpTo(n + 1)[n] == n;
  }

  lemma SmoothNext(b: Browser, ctx: Context, script: Script, page: Page, us: seq<Change>, n: nat, r: Run, off: nat)
    requires Smooth(ctx, script) && Separate(b, us) && n < |us| && Unhindered(r, script, off)
    requires Takes(b, page, us[n]) && ReadsBack(b, page, us[n]) && r.page == WriteAll(b, page, us, UpTo(n))
    ensures var t := RunFrom(b, ctx, script, r, Block(n, us[n]), off);
      Unhindered(t, script, off + |Block(n, us[n])|) && t.page == WriteAll(b, page, us, UpTo(n + 1))
  {
    hide RunFrom, Smooth, Unhindered, Takes, ReadsBack, Block, WriteIn, WriteAll, Separate, UpTo, NoRepeats;
    UpToFacts(us, n);
    TakenAtStart(b, page, us, UpTo(n), n);
    ReadBackAtStart(b, page, us, UpTo(n), n);
    SmoothBlock(b, ctx, script, r, n, us[n], off);
    WriteNext(b, page, us, n);
  }

  /** A plan of separate changes, each of which the page takes and reads back, goes through and
      leaves every one of its writes. */
  lemma {:induction false} SmoothPlan(b: Browser, ctx: Context, script: Script, page: Page, us: seq<Change>, n: nat)
    requires Smooth(ctx, script) && Separate(b, us) && n <= |us|
    requires forall k :: 0 <= k < |us| ==> Takes(b, page, us[k]) && ReadsBack(b, page, us[k])
    ensures var t := RunFrom(b, ctx, script, Start(page), Blocks(us, n), 0);
      Unhindered(t, script, |Blocks(us, n)|) && t.page == WriteAll(b, page, us, UpTo(n))
  {
    hide RunStep, Smooth, Unhindered, Takes, ReadsBack, Block, WriteAll, Separate;
    if n == 0 {
      StartsUnhindered(page, script);
      WriteNone(b, page, us);
    } else {
      SmoothPlan(b, ctx, script, page, us, n - 1);
      var (x, y) := (Blocks(us, n - 1), Block(n - 1, us[n - 1]));
      RunInPieces(b, ctx, script, Start(page), x, y, 0);
      SmoothNext(b, ctx, script, page, us, n - 1, RunFrom(b, ctx, script, Start(page), x, 0), |x|);
    }
  }

  lemma WriteNone(b: Browser, page: Page, us: seq<Change>)
    ensures WriteAll(b, page, us, UpTo(0)) == page
  {
  }

  lemma StartsUnhindered(page: Page, script: Script)
    ensures Unhindered(Start(page), script, 0)
  {
  }

  lemma ReadBackAtStart(b: Browser, page: Page, cs: seq<Change>, idx: seq<nat>, n: nat)
    requires Within(idx, cs) && NoRepeats(idx) && Separate(b, cs) && n < |cs| && n !in idx && ReadsBack(b, page, cs[n])
    ensures ReadsBack(b, WriteAll(b, page, cs, idx), cs[n])
  {
    hide WriteAll, WriteKind, ValuesMatch;
    var id := IdOf(b, cs[n]);
    WrittenControl(b, page, cs, idx, id);
    forall k: nat ensures !Wrote(b, cs, idx, k, id) { }
  }

  // ---- the round trip ----

  /** Every control the changes address can be put back exactly. */
  ghost predicate AllPlain(b: Browser, p0: Page, cs: seq<Change>) {
    forall i :: 0 <= i < |cs| && Reaches(b, p0, cs[i]) ==> Plain(cs[i], p0[IdOf(b, cs[i])].kind)
  }

  /** The control whose write landed unanswered, if there was one. */
  predicate IsLost(b: Browser, cs: seq<Change>, lost: Option<nat>, id: nat) {
    lost.Some? && lost.value < |cs| && b.find(TargetOf(cs[lost.value])).Here? && IdOf(b, cs[lost.value]) == id
  }

  /** The pages agree, except perhaps at that control. */
  ghost predicate SameBut(b: Browser, cs: seq<Change>, p: Page, q: Page, lost: Option<nat>) {
    p.Keys == q.Keys && forall id :: id in q && !IsLost(b, cs, lost, id) ==> p[id] == q[id]
  }

  /** The page after the run: every recorded change on its own control, and the lost one. */
  lemma AfterRun(b: Browser, cs: seq<Change>, p0: Page, r: Run, done: seq<nat>, lost: Option<nat>, id: nat)
    requires Trail(b, cs, |cs|, p0, r, done, lost) && Separate(b, cs)
    ensures r.page.Keys == p0.Keys && Within(done, cs) && NoRepeats(done)
    ensures id in p0 && !IsLost(b, cs, lost, id) && (forall k: nat :: !Wrote(b, cs, done, k, id)) ==> r.page[id] == p0[id]
    ensures forall k: nat :: Wrote(b, cs, done, k, id) && id in p0 ==>
      !IsLost(b, cs, lost, id) && r.page[id] == p0[id].(kind := WriteKind(cs[done[k]], p0[id].kind))
  {
    hide WriteAll, WriteKind, Recordings, Revertable, AllTaken;
    WrittenControl(b, p0, cs, done, id);
    forall k: nat | Wrote(b, cs, done, k, id) ensures !IsLost(b, cs, lost, id) {
      if lost.Some? { LostApart(b, cs, done[k], lost.value); }
    }
  }

  lemma LostApart(b: Browser, cs: seq<Change>, i: nat, j: nat)
    requires Separate(b, cs) && i < |cs| && j < |cs| && i != j
    ensures b.find(TargetOf(cs[i])).Here? && b.find(TargetOf(cs[j])).Here? ==> IdOf(b, cs[i]) != IdOf(b, cs[j])
  {
  }

  /** The setting of a round trip: an accepted plan on a page it can be undone on. */
  ghost predicate Setting(lower: string -> string, cs: seq<Change>, b: Browser, p0: Page) {
    1 <= |cs| <= MAX_PLAN_CHANGES && Plannable(lower, cs) && Separate(b, cs) && AllPlain(b, p0, cs)
  }

  /** What a recorded write left on its control. */
  lemma RecordedControl(lower: string -> string, cs: seq<Change>, b: Browser, p0: Page, r: Run, done: seq<nat>, lost: Option<nat>, k: nat)
    requires Setting(lower, cs, b, p0) && Trail(b, cs, |cs|, p0, r, done, lost) && TakenFlat(b, p0, cs, done) && k < |done|
    ensures var (c, id) := (cs[done[k]], IdOf(b, cs[done[k]]));
      && Takes(b, p0, c) && id in r.page && r.page[id] == p0[id].(kind := WriteKind(c, p0[id].kind))
      && Plain(c, p0[id].kind) && c.from != c.to
  {
    var (c, id) := (cs[done[k]], IdOf(b, cs[done[k]]));
    assert Takes(b, p0, c);
    AfterRun(b, cs, p0, r, done, lost, id);
    assert Wrote(b, cs, done, k, id);
    hide OnControl, Trail, WriteKind, SetAction, Plain;
  }

  /** A recorded write can be undone on the page it left: it is taken, reads back, and leaves the
      control as it was; and a write that recorded no difference left the control as it was. */
  lemma UndoFits(lower: string -> string, cs: seq<Change>, b: Browser, p0: Page, r: Run, done: seq<nat>, lost: Option<nat>, k: nat)
    requires Setting(lower, cs, b, p0) && Trail(b, cs, |cs|, p0, r, done, lost) && TakenFlat(b, p0, cs, done) && k < |done|
    ensures var (c, id) := (cs[done[k]], IdOf(b, cs[done[k]]));
      && Reaches(b, p0, c) && id in r.page
      && (Restorable(Recording(b, p0, c)) ==>
          var u := Undo(b, p0, c);
          Takes(b, r.page, u) && ReadsBack(b, r.page, u) && r.page[id].(kind := WriteKind(u, r.page[id].kind)) == p0[id])
      && (!Restorable(Recording(b, p0, c)) ==> r.page[id] == p0[id])
  {
    var (c, id) := (cs[done[k]], IdOf(b, cs[done[k]]));
    hide Setting, Trail, TakenFlat;
    RecordedControl(lower, cs, b, p0, r, done, lost, k);
    hide OnControl, WriteKind, ValuesMatch, SetAction, Plain;
    RestoredKind(b, id, c, p0[id]);
  }

  /** Every undo of the reverting plan is taken and reads back on the page the run left. */
  lemma UndosFit(lower: string -> string, cs: seq<Change>, b: Browser, p0: Page, r: Run, done: seq<nat>, lost: Option<nat>)
    requires Setting(lower, cs, b, p0) && Trail(b, cs, |cs|, p0, r, done, lost)
    requires Within(done, cs) && NoRepeats(done) && TakenFlat(b, p0, cs, done)
    ensures var us := Undos(b, p0, cs, Kept(b, p0, cs, done));
      && |us| <= |cs| && Plannable(lower, us) && Separate(b, us)
      && forall k :: 0 <= k < |us| ==> Takes(b, r.page, us[k]) && ReadsBack(b, r.page, us[k])
  {
    hide Trail, AllPlain, Takes, ReadsBack, Recording, Restorable, Undo;
    var kept := Kept(b, p0, cs, done);
    var us := Undos(b, p0, cs, kept);
    KeptApart(b, p0, cs, done);
    DoneFew(b, cs, p0, r, done, lost);
    forall i | i in kept ensures Reaches(b, p0, cs[i]) && Restorable(Recording(b, p0, cs[i])) && Takes(b, r.page, Undo(b, p0, cs[i])) && ReadsBack(b, r.page, Undo(b, p0, cs[i])) {
      var k :| 0 <= k < |done| && done[k] == i;
      UndoFits(lower, cs, b, p0, r, done, lost, k);
    }
    UndoPlannable(lower, b, p0, cs, kept);
    forall k | 0 <= k < |us| ensures Takes(b, r.page, us[k]) && ReadsBack(b, r.page, us[k]) { assert kept[k] in kept; }
  }

  lemma {:induction false} RisingFew(idx: seq<nat>, n: nat)
    requires Rising(idx, n)
    ensures |idx| <= n
    decreases n
  {
    if idx != [] {
      var (front, last) := (idx[..|idx| - 1], idx[|idx| - 1]);
      assert forall k :: 0 <= k < |front| ==> front[k] == idx[k] < last;
      RisingFew(front, last);
    }
  }

  lemma DoneFew(b: Browser, cs: seq<Change>, p0: Page, r: Run, done: seq<nat>, lost: Option<nat>)
    requires Trail(b, cs, |cs|, p0, r, done, lost)
    ensures |done| <= |cs|
  {
    RisingFew(done, |cs|);
  }

  /** After all undos the page is the starting one, except perhaps for the lost control. */
  lemma UndosRestore(lower: string -> string, cs: seq<Change>, b: Browser, p0: Page, r: Run, done: seq<nat>, lost: Option<nat>)
    requires Setting(lower, cs, b, p0) && Trail(b, cs, |cs|, p0, r, done, lost)
    requires Within(done, cs) && NoRepeats(done) && TakenFlat(b, p0, cs, done) && r.page.Keys == p0.Keys
    ensures var us := Undos(b, p0, cs, Kept(b, p0, cs, done));
      SameBut(b, cs, WriteAll(b, r.page, us, UpTo(|us|)), p0, lost)
  {
    UndosFit(lower, cs, b, p0, r, done, lost);
    var kept := Kept(b, p0, cs, done);
    var us := Undos(b, p0, cs, kept);
    var t := WriteAll(b, r.page, us, UpTo(|us|));
    WrittenControl(b, r.page, us, UpTo(|us|), 0);
    hide Setting, Trail, WriteAll, Takes, ReadsBack, Recording, Restorable, WriteKind, Undo, Plannable, TakenFlat, NoRepeats;
    forall id | id in p0 && !IsLost(b, cs, lost, id) ensures t[id] == p0[id] {
      RestoredAt(lower, cs, b, p0, r, done, lost, id);
    }
  }

  lemma RestoredAt(lower: string -> string, cs: seq<Change>, b: Browser, p0: Page, r: Run, done: seq<nat>, lost: Option<nat>, id: nat)
    requires Setting(lower, cs, b, p0) && Trail(b, cs, |cs|, p0, r, done, lost)
    requires Within(done, cs) && NoRepeats(done) && TakenFlat(b, p0, cs, done) && r.page.Keys == p0.Keys
    requires id in p0 && !IsLost(b, cs, lost, id) && Separate(b, Undos(b, p0, cs, Kept(b, p0, cs, done)))
    ensures var us := Undos(b, p0, cs, Kept(b, p0, cs, done));
      id in WriteAll(b, r.page, us, UpTo(|us|)) && WriteAll(b, r.page, us, UpTo(|us|))[id] == p0[id]
  {
    var us := Undos(b, p0, cs, Kept(b, p0, cs, done));
    hide Setting, Trail, WriteAll, WriteKind, Undos, TakenFlat, NoRepeats, Separate, Kept;
    AscendingNoRepeats(|us|);
    WrittenControl(b, r.page, us, UpTo(|us|), id);
    if k: nat :| Wrote(b, us, UpTo(|us|), k, id) {
      UndoneControl(lower, cs, b, p0, r, done, lost, k);
    } else {
      NotUndoneControl(lower, cs, b, p0, r, done, lost, id);
    }
  }

  lemma UndoneControl(lower: string -> string, cs: seq<Change>, b: Browser, p0: Page, r: Run, done: seq<nat>, lost: Option<nat>, k: nat)
    requires Setting(lower, cs, b, p0) && Trail(b, cs, |cs|, p0, r, done, lost) && Within(done, cs) && TakenFlat(b, p0, cs, done)
    requires k < |Undos(b, p0, cs, Kept(b, p0, cs, done))|
    ensures var u := Undos(b, p0, cs, Kept(b, p0, cs, done))[k]; var id := IdOf(b, u);
      id in p0 && id in r.page && r.page[id].(kind := WriteKind(u, r.page[id].kind)) == p0[id]
  {
    hide Setting, Trail, Takes, ReadsBack, Recording, Restorable, WriteKind, Undo, TakenFlat;
    var kept := Kept(b, p0, cs, done);
    SameKey(lower, b, p0, cs[kept[k]]);
    assert kept[k] in kept;
    var j :| 0 <= j < |done| && done[j] == kept[k];
    UndoFits(lower, cs, b, p0, r, done, lost, j);
  }

  lemma NotUndoneControl(lower: string -> string, cs: seq<Change>, b: Browser, p0: Page, r: Run, done: seq<nat>, lost: Option<nat>, id: nat)
    requires Setting(lower, cs, b, p0) && Trail(b, cs, |cs|, p0, r, done, lost) && Within(done, cs) && TakenFlat(b, p0, cs, done)
    requires id in p0 && !IsLost(b, cs, lost, id)
    requires var us := Undos(b, p0, cs, Kept(b, p0, cs, done)); forall k: nat :: !Wrote(b, us, UpTo(|us|), k, id)
    ensures id in r.page && r.page[id] == p0[id]
  {
    SettingParts(lower, cs, b, p0);
    AfterRun(b, cs, p0, r, done, lost, id);
    hide Setting, Trail, Takes, ReadsBack, Recording, Restorable, WriteKind, Undo, Undos, Kept, TakenFlat, NoRepeats, Separate;
    if j: nat :| Wrote(b, cs, done, j, id) {
      UndoFits(lower, cs, b, p0, r, done, lost, j);
      if Restorable(Recording(b, p0, cs[done[j]])) { KeptWrites(lower, b, p0, cs, done, j, id); }
    }
  }

  lemma KeptHas(b: Browser, p0: Page, cs: seq<Change>, done: seq<nat>, j: nat)
    requires Within(done, cs) && j < |done| && Restorable(Recording(b, p0, cs[done[j]]))
    ensures exists k: nat :: k < |Kept(b, p0, cs, done)| && Kept(b, p0, cs, done)[k] == done[j]
  {
    assert done[j] in Kept(b, p0, cs, done);
  }

  lemma UndosAt(b: Browser, p0: Page, cs: seq<Change>, kept: seq<nat>, k: nat)
    requires Within(kept, cs) && k < |kept|
    ensures var us := Undos(b, p0, cs, kept);
      |us| == |kept| && TargetOf(us[k]) == TargetOf(cs[kept[k]]) && IdOf(b, us[k]) == IdOf(b, cs[kept[k]])
  {
  }

  lemma KeptWrites(lower: string -> string, b: Browser, p0: Page, cs: seq<Change>, done: seq<nat>, j: nat, id: nat)
    requires Within(done, cs) && Wrote(b, cs, done, j, id) && Restorable(Recording(b, p0, cs[done[j]]))
    ensures var us := Undos(b, p0, cs, Kept(b, p0, cs, done)); exists k: nat :: Wrote(b, us, UpTo(|us|), k, id)
  {
    hide Recording, Restorable, Undos, Kept, TargetOf, IdOf, UpTo;
    KeptHas(b, p0, cs, done, j);
    var kept := Kept(b, p0, cs, done);
    var k: nat :| k < |kept| && kept[k] == done[j];
    UndosAt(b, p0, cs, kept, k);
    assert Wrote(b, Undos(b, p0, cs, kept), UpTo(|kept|), k, id);
  }

  lemma AscendingNoRepeats(n: nat)
    ensures NoRepeats(UpTo(n))
  {
  }

  lemma SettingParts(lower: string -> string, cs: seq<Change>, b: Browser, p0: Page)
    requires Setting(lower, cs, b, p0)
    ensures Separate(b, cs)
  {
    hide Plannable, AllPlain, Separate;
  }

  /** The round trip. Run an accepted plan on any page, under any consent and any script, halting
      anywhere; then revert what it reported, with consent and every request answered. Either there
      is nothing to revert and the page is already as it was, or the reverting plan is accepted,
      goes through without a halt and leaves the page as it was. The one exception is a control
      whose write landed although its answer was lost. */
  lemma RevertRestores(lower: string -> string, cs: seq<Change>, save: Option<string>, b: Browser, ctx: Context, script: Script, p0: Page,
                       again: Context, smooth: Script)
    requires PlanOf(lower, cs, save).Planned? && Separate(b, cs) && AllPlain(b, p0, cs) && Smooth(again, smooth)
    ensures var r := RunAll(b, ctx, script, PlanOf(lower, cs, save).steps, p0);
      var back := PlanRevert(lower, Revertable(cs, r.outcomes));
      exists lost: Option<nat> :: (lost.Some? ==> exists k :: script(k).delivery == Lost(true)) && Undone(lower, cs, b, p0, r, back, again, smooth, lost)
  {
    hide Trail, Smooth, AllPlain, Separate, Plannable, PlanRevert, RunAll, PlanOf, Undone;
    PlansExactly(lower, cs, save);
    var done, lost := PlanTrail(lower, cs, save, b, ctx, script, p0);
    var r := RunAll(b, ctx, script, PlanOf(lower, cs, save).steps, p0);
    UndoneFor(lower, cs, b, p0, r, again, smooth, done, lost);
  }

  /** The revert of a run is refused as having no changes on a page that is as it was, or accepted,
      carried out to the end, and the page is as it was. */
  ghost predicate Undone(lower: string -> string, cs: seq<Change>, b: Browser, p0: Page, r: Run, back: Plan, again: Context, smooth: Script, lost: Option<nat>) {
    if back.NotPlanned? then back.reason == NoChanges && SameBut(b, cs, r.page, p0, lost)
    else
      var t := RunAll(b, again, smooth, back.steps, r.page);
      t.haltedAt.None? && SameBut(b, cs, t.page, p0, lost)
  }

  lemma UndoneFor(lower: string -> string, cs: seq<Change>, b: Browser, p0: Page, r: Run, again: Context, smooth: Script, done: seq<nat>, lost: Option<nat>)
    requires Setting(lower, cs, b, p0) && Trail(b, cs, |cs|, p0, r, done, lost) && Smooth(again, smooth)
    ensures Undone(lower, cs, b, p0, r, PlanRevert(lower, Revertable(cs, r.outcomes)), again, smooth, lost)
  {
    SettingParts(lower, cs, b, p0);
    AfterRun(b, cs, p0, r, done, lost, 0);
    FlatTrail(b, cs, p0, r, done, lost);
    hide Setting, Trail, Smooth, Separate, Takes, ReadsBack, Recordings, TakenFlat, NoRepeats, SameBut, RunFrom, RunTo, WriteAll, Flat, Plannable, Blocks, UpTo;
    ReversalsAre(b, p0, cs, done);
    UndosFit(lower, cs, b, p0, r, done, lost);
    UndosRestore(lower, cs, b, p0, r, done, lost);
    var us := Undos(b, p0, cs, Kept(b, p0, cs, done));
    PlansExactly(lower, us, None);
    FewEnough(lower, cs, b, p0);
    if us == [] {
      WriteNone(b, r.page, us);
    } else {
      PlanSteps(lower, us, None);
      assert Saving(us, None) == [] && Blocks(us, |us|) + [] == Blocks(us, |us|);
      WholeRun(b, again, smooth, Blocks(us, |us|), [], r.page);
      RunNothing(b, again, smooth, RunFrom(b, again, smooth, Start(r.page), Blocks(us, |us|), 0), |Blocks(us, |us|)|);
      SmoothPlan(b, again, smooth, r.page, us, |us|);
    }
  }

  lemma RunNothing(b: Browser, ctx: Context, script: Script, r: Run, off: nat)
    ensures RunFrom(b, ctx, script, r, [], off) == r
  {
  }

  lemma FewEnough(lower: string -> string, cs: seq<Change>, b: Browser, p0: Page)
    requires Setting(lower, cs, b, p0)
    ensures |cs| <= MAX_PLAN_CHANGES
  {
    hide Plannable, AllPlain, Separate;
  }

  lemma FlatTrail(b: Browser, cs: seq<Change>, p0: Page, r: Run, done: seq<nat>, lost: Option<nat>)
    requires Trail(b, cs, |cs|, p0, r, done, lost) && Separate(b, cs)
    ensures Within(done, cs) && NoRepeats(done) && TakenFlat(b, p0, cs, done) && Revertable(cs, r.outcomes) == Flat(b, p0, cs, done)
  {
    hide Revertable, Recordings, WriteAll, AllTaken, Separate, WriteIn;
    Flatten(b, p0, cs, done);
  }
}
