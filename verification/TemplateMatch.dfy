/** Recognising a pack workflow in an episode: an ordered, gap-bounded, greedy match. */
module TemplateMatch {
  import opened Text

  const MAX_NOISE_BETWEEN_STEPS: nat := 5

  datatype Risk = NoRisk | Low | Medium | High | Critical
  datatype PackObject = PackObject(id: string, aliases: seq<string>)
  datatype PackAction = PackAction(id: string, risk: Risk, on: seq<string>)
  datatype Pack = Pack(objects: seq<PackObject>, actions: seq<PackAction>)

  /** One signature tuple of cells; a cell is "*", a name, or names joined by "|". */
  datatype Cells = Cells(action: string, obj: string, role: string)

  datatype Step = Step(domainAction: Option<string>, domainObject: Option<string>, targetRole: Option<string>, eventType: Option<string>)

  function Alternatives(cell: string): seq<string> { NonBlank(Split(cell, '|')) }

  function NonBlank(parts: seq<string>): seq<string> {
    if parts == [] then []
    else (if Trim(parts[0]) == "" then [] else [Trim(parts[0])]) + NonBlank(parts[1..])
  }

  /** Object ids and aliases to ids; a later entry overrides an earlier one. */
  function AliasMap(objects: seq<PackObject>): map<string, string> {
    if objects == [] then map[]
    else
      var o := objects[|objects| - 1];
      WithAliases(AliasMap(objects[..|objects| - 1])[o.id := o.id], o.aliases, o.id)
  }

  function WithAliases(m: map<string, string>, aliases: seq<string>, id: string): map<string, string>
    decreases |aliases|
  {
    if aliases == [] then m else WithAliases(m[aliases[0] := id], aliases[1..], id)
  }

  function Canonical(m: map<string, string>, v: string): string { if v in m then m[v] else v }

  predicate CellMatches(cell: string, value: Option<string>, aliases: map<string, string>) {
    var alts := Alternatives(cell);
    "*" in alts || (value.Some? && exists i :: 0 <= i < |alts| && Canonical(aliases, alts[i]) == Canonical(aliases, value.value))
  }

  predicate IsWriteEvent(t: string) { t in ["value_committed", "record_updated", "paste_semantic", "table_exported"] }

  function FindAction(actions: seq<PackAction>, id: string): Option<PackAction> {
    if actions == [] then None
    else if actions[0].id == id then Some(actions[0]) else FindAction(actions[1..], id)
  }

  predicate ActionPlausible(pack: Pack, id: string, step: Step, aliases: map<string, string>) {
    step.domainObject.Some? && step.eventType.Some? &&
    var a := FindAction(pack.actions, id);
    a.Some? &&
    (a.value.on == [] || "*" in a.value.on || Canonical(aliases, step.domainObject.value) in a.value.on) &&
    (if IsWriteEvent(step.eventType.value) then a.value.risk != NoRisk
     else a.value.risk != High && a.value.risk != Critical)
  }

  predicate StepMatches(pack: Pack, cells: Cells, step: Step) {
    var aliases := AliasMap(pack.objects);
    var alts := Alternatives(cells.action);
    (CellMatches(cells.action, step.domainAction, map[]) ||
     exists i :: 0 <= i < |alts| && alts[i] != "*" && ActionPlausible(pack, alts[i], step, aliases)) &&
    CellMatches(cells.obj, step.domainObject, aliases) &&
    CellMatches(cells.role, step.targetRole, map[])
  }

  /** Which signature step (first argument) is satisfied by which episode step (second). */
  type Hits = (nat, nat) -> bool

  function HitTable(pack: Pack, sig: seq<Cells>, steps: seq<Step>): Hits {
    (k: nat, i: nat) => k < |sig| && i < |steps| && StepMatches(pack, sig[k], steps[i])
  }

  /** Where the search for signature step k starts, given the matches before it. */
  function From(p: seq<nat>, k: nat): nat
    requires k <= |p|
  { if k == 0 then 0 else p[k - 1] + 1 }

  /** Signature step k's place is a hit among n episode steps, after the previous place. */
  predicate InPlace(hit: Hits, n: nat, p: seq<nat>, k: nat)
    requires k < |p|
  { From(p, k) <= p[k] < n && hit(k, p[k]) }

  /** Signature step k's place is its leftmost hit after the previous place. */
  ghost predicate Leftmost(hit: Hits, n: nat, p: seq<nat>, k: nat)
    requires k < |p|
  { InPlace(hit, n, p, k) && forall i: nat :: From(p, k) <= i < p[k] ==> !hit(k, i) }

  predicate GapOk(p: seq<nat>, k: nat)
    requires 0 < k < |p|
  { p[k] - p[k - 1] - 1 <= MAX_NOISE_BETWEEN_STEPS }

  predicate GapBounded(p: seq<nat>) { forall k :: 0 < k < |p| ==> GapOk(p, k) }

  ghost predicate AllLeftmost(hit: Hits, n: nat, p: seq<nat>) {
    forall k :: 0 <= k < |p| ==> Leftmost(hit, n, p, k)
  }

  /** p places the first |p| signature steps greedily among n episode steps. */
  ghost predicate Greedy(hit: Hits, n: nat, p: seq<nat>) { GapBounded(p) && AllLeftmost(hit, n, p) }

  /** All m signature steps have a greedy placement among n episode steps. */
  ghost predicate Aligns(hit: Hits, m: nat, n: nat) { exists p :: |p| == m && Greedy(hit, n, p) }

  ghost predicate Matches(pack: Pack, sig: seq<Cells>, steps: seq<Step>) {
    Aligns(HitTable(pack, sig, steps), |sig|, |steps|)
  }

  /** Leftmost places are forced: two leftmost placements agree as far as both go. */
  lemma {:induction false} LeftmostUnique(hit: Hits, n: nat, p: seq<nat>, q: seq<nat>, k: nat)
    requires k < |p| && k < |q|
    requires AllLeftmost(hit, n, p) && AllLeftmost(hit, n, q)
    ensures p[k] == q[k]
  {
    if k > 0 { LeftmostUnique(hit, n, p, q, k - 1); }
    assert From(p, k) == From(q, k);
    assert Leftmost(hit, n, p, k) && Leftmost(hit, n, q, k);
  }

  lemma GreedyPlace(hit: Hits, n: nat, q: seq<nat>, k: nat)
    requires Greedy(hit, n, q) && k < |q|
    ensures From(q, k) <= q[k] < n && hit(k, q[k])
    ensures k > 0 ==> q[k] - From(q, k) <= MAX_NOISE_BETWEEN_STEPS
  {
    assert Leftmost(hit, n, q, k);
    assert k > 0 ==> GapOk(q, k);
  }

  /** Nothing greedy can come of a prefix whose next signature step has no hit in the first
      six steps after it, or in the rest of the episode. */
  lemma DeadEnd(hit: Hits, m: nat, n: nat, p: seq<nat>, i: nat)
    requires Greedy(hit, n, p) && |p| < m
    requires From(p, |p|) <= i <= n
    requires forall j: nat :: From(p, |p|) <= j < i ==> !hit(|p|, j)
    requires i == n || (|p| > 0 && i - From(p, |p|) > MAX_NOISE_BETWEEN_STEPS)
    ensures !Aligns(hit, m, n)
  {
    if q :| |q| == m && Greedy(hit, n, q) {
      if |p| > 0 { LeftmostUnique(hit, n, p, q, |p| - 1); }
      GreedyPlace(hit, n, q, |p|);
    }
  }

  lemma Extend(hit: Hits, n: nat, p: seq<nat>, i: nat) returns (q: seq<nat>)
    requires Greedy(hit, n, p)
    requires From(p, |p|) <= i < n && hit(|p|, i)
    requires forall j: nat :: From(p, |p|) <= j < i ==> !hit(|p|, j)
    requires p != [] ==> i - From(p, |p|) <= MAX_NOISE_BETWEEN_STEPS
    ensures q == p + [i] && Greedy(hit, n, q)
  {
    q := p + [i];
    forall k | 0 <= k < |q| ensures Leftmost(hit, n, q, k) {
      assert From(q, k) == From(p, k);
      if k < |p| { assert Leftmost(hit, n, p, k); }
    }
    forall k | 0 < k < |q| ensures GapOk(q, k) {
      if k < |p| { assert GapOk(p, k); }
    }
  }

  /** The scan of `matchSignature`: true exactly when the leftmost placement of the whole
      signature exists with every gap within the bound. */
  method Scan(hit: Hits, m: nat, n: nat) returns (matched: bool)
    requires m > 0
    ensures matched <==> Aligns(hit, m, n)
  {
    var signatureIndex := 0;
    var noiseSinceLastMatch := 0;
    var anyMatched := false;
    ghost var p: seq<nat> := [];
    for i := 0 to n
      invariant signatureIndex == |p| < m
      invariant Greedy(hit, n, p)
      invariant anyMatched <==> p != []
      invariant From(p, |p|) <= i
      invariant forall j: nat :: From(p, |p|) <= j < i ==> !hit(|p|, j)
      invariant p != [] ==> noiseSinceLastMatch == i - From(p, |p|) <= MAX_NOISE_BETWEEN_STEPS
    {
      if hit(signatureIndex, i) {
        p := Extend(hit, n, p, i);
        signatureIndex := signatureIndex + 1;
        noiseSinceLastMatch := 0;
        anyMatched := true;
        if signatureIndex == m { return true; }
      } else if anyMatched {
        noiseSinceLastMatch := noiseSinceLastMatch + 1;
        if noiseSinceLastMatch > MAX_NOISE_BETWEEN_STEPS {
          DeadEnd(hit, m, n, p, i + 1);
          return false;
        }
      }
    }
    DeadEnd(hit, m, n, p, n);
    return false;
  }

  method MatchSignature(pack: Pack, sig: seq<Cells>, steps: seq<Step>) returns (matched: bool)
    requires sig != []
    ensures matched <==> Matches(pack, sig, steps)
  {
    matched := Scan(HitTable(pack, sig, steps), |sig|, |steps|);
  }

  /** Any in-order placement of m signature steps among n episode steps, whatever its gaps. */
  predicate Embedding(hit: Hits, m: nat, n: nat, q: seq<nat>) {
    |q| == m && forall k :: 0 <= k < m ==> InPlace(hit, n, q, k)
  }

  /** First hit of signature step k at or after i, known to exist by j. */
  function FirstHit(hit: Hits, k: nat, i: nat, j: nat): (r: nat)
    requires i <= j && hit(k, j)
    ensures i <= r <= j && hit(k, r)
    ensures forall n: nat :: i <= n < r ==> !hit(k, n)
    decreases j - i
  { if hit(k, i) then i else FirstHit(hit, k, i + 1, j) }

  /** The leftmost placement ignoring gaps, which exists whenever some embedding does, and
      which places no step later than that embedding. */
  function Earliest(hit: Hits, m: nat, n: nat, q: seq<nat>, c: nat): (e: seq<nat>)
    requires Embedding(hit, m, n, q) && c <= m
    ensures |e| == c && (forall k :: 0 <= k < c ==> e[k] <= q[k])
    ensures AllLeftmost(hit, n, e)
    decreases c
  {
    if c == 0 then []
    else
      var d := Earliest(hit, m, n, q, c - 1);
      assert InPlace(hit, n, q, c - 1);
      var e := d + [FirstHit(hit, c - 1, From(d, c - 1), q[c - 1])];
      assert forall k :: 0 <= k < c ==> Leftmost(hit, n, e, k) by {
        forall k | 0 <= k < c ensures Leftmost(hit, n, e, k) {
          assert From(e, k) == From(d, k);
          if k < c - 1 { assert Leftmost(hit, n, d, k); }
        }
      }
      e
  }

  /** Soundness and the exact loss: when any in-order embedding exists, the matcher accepts
      exactly if the earliest placement keeps every gap within five. */
  lemma AcceptsExactlyEarliestWithinGaps(hit: Hits, m: nat, n: nat, q: seq<nat>)
    requires Embedding(hit, m, n, q)
    ensures Aligns(hit, m, n) <==> GapBounded(Earliest(hit, m, n, q, m))
  {
    var e := Earliest(hit, m, n, q, m);
    if GapBounded(e) { assert Greedy(hit, n, e); }
    if p :| |p| == m && Greedy(hit, n, p) {
      forall k | 0 <= k < m ensures p[k] == e[k] { LeftmostUnique(hit, n, p, e, k); }
      assert p == e;
    }
  }

  /** A match always rests on an ordered, gap-bounded embedding, and on the earliest one:
      no embedding places any signature step sooner. */
  lemma MatchIsEarliestEmbedding(hit: Hits, m: nat, n: nat) returns (p: seq<nat>)
    requires Aligns(hit, m, n)
    ensures Embedding(hit, m, n, p) && GapBounded(p)
    ensures forall q, k :: Embedding(hit, m, n, q) && 0 <= k < m ==> p[k] <= q[k]
  {
    p :| |p| == m && Greedy(hit, n, p);
    forall k | 0 <= k < m ensures InPlace(hit, n, p, k) { assert Leftmost(hit, n, p, k); }
    forall q, k | Embedding(hit, m, n, q) && 0 <= k < m ensures p[k] <= q[k] {
      LeftmostUnique(hit, n, p, Earliest(hit, m, n, q, m), k);
    }
  }

  /** Later steps never undo a match. */
  lemma MatchSurvivesExtension(pack: Pack, sig: seq<Cells>, steps: seq<Step>, more: seq<Step>)
    requires Matches(pack, sig, steps)
    ensures Matches(pack, sig, steps + more)
  {
    var hit, longer := HitTable(pack, sig, steps), HitTable(pack, sig, steps + more);
    forall k: nat, i: nat | k < |sig| && i < |steps| ensures longer(k, i) == hit(k, i) {
      assert (steps + more)[i] == steps[i];
    }
    SameHits(hit, longer, |sig|, |steps|, |steps| + |more|);
  }

  lemma SameHits(hit: Hits, longer: Hits, m: nat, n: nat, n': nat)
    requires Aligns(hit, m, n) && n <= n'
    requires forall k: nat, i: nat :: k < m && i < n ==> longer(k, i) == hit(k, i)
    ensures Aligns(longer, m, n')
  {
    var p :| |p| == m && Greedy(hit, n, p);
    forall k | 0 <= k < m ensures Leftmost(longer, n', p, k) { assert Leftmost(hit, n, p, k); }
    assert Greedy(longer, n', p);
  }

  /** An episode step that carries only an action. */
  function Doing(action: string): Step { Step(Some(action), None, None, None) }

  /** The matcher is greedy by design: the steps a, six others, a, b hold a tight placement of
      the signature a, b, and are refused. */
  lemma GreedyRefusesTightTail()
    ensures var pack, sig := Pack([], []), [Cells("a", "*", "*"), Cells("b", "*", "*")];
            var n := Doing("n");
            var steps := [Doing("a"), n, n, n, n, n, n, Doing("a"), Doing("b")];
            !Matches(pack, sig, steps) &&
            Embedding(HitTable(pack, sig, steps), 2, 9, [7, 8]) && GapBounded([7, 8])
  {
    var pack, sig := Pack([], []), [Cells("a", "*", "*"), Cells("b", "*", "*")];
    var n := Doing("n");
    var steps := [Doing("a"), n, n, n, n, n, n, Doing("a"), Doing("b")];
    var hit := HitTable(pack, sig, steps);
    PlainCell(pack, "a", "a"); PlainCell(pack, "a", "n"); PlainCell(pack, "b", "b");
    assert Leftmost(hit, 9, [0], 0);
    DeadEnd(hit, 2, 9, [0], 7) by {
      PlainCell(pack, "b", "n");
      assert forall j: nat :: 1 <= j < 7 ==> steps[j] == n;
    }
  }

  lemma PlainCell(pack: Pack, c: string, action: string)
    requires |c| == 1 && !IsSpace(c[0]) && c[0] != '|' && c != "*"
    ensures StepMatches(pack, Cells(c, "*", "*"), Doing(action)) <==> c == action
  {
    SingleAlternative(c);
    SingleAlternative("*");
    assert Alternatives(c)[0] == c;
  }

  lemma SingleAlternative(c: string)
    requires |c| == 1 && !IsSpace(c[0]) && c[0] != '|'
    ensures Alternatives(c) == [c]
  {
    SplitLast(c, '|');
    assert Trim(c) == c;
    assert NonBlank([c][1..]) == [];
  }
}
