/** When an episode step satisfies one tuple of a workflow signature. */
module TemplateCells {
  import opened Text
  import opened TemplateMatch

  // ---- what a cell lists ----

  /** The text from i to j is a piece of the cell: between bars or its ends, without a bar inside. */
  ghost predicate PieceAt(cell: string, i: nat, j: nat) {
    && i <= j <= |cell| && '|' !in cell[i..j]
    && (i == 0 || cell[i - 1] == '|') && (j == |cell| || cell[j] == '|')
  }

  ghost predicate Piece(cell: string, piece: string) { exists i: nat, j: nat :: PieceAt(cell, i, j) && piece == cell[i..j] }

  ghost predicate Later(cell: string, piece: string) { exists i: nat, j: nat :: i >= 1 && PieceAt(cell, i, j) && piece == cell[i..j] }

  /** The cell lists v: some piece of it reads v once trimmed, and v is not blank. */
  ghost predicate Listed(cell: string, v: string) { v != "" && exists piece :: Piece(cell, piece) && Trim(piece) == v }

  /** The head of the first piece. */
  ghost predicate First(cell: string, piece: string) {
    piece <= cell && '|' !in piece && (|piece| == |cell| || cell[|piece|] == '|')
  }

  lemma FirstStays(cell: string, piece: string)
    requires cell != "" && cell[0] != '|'
    ensures First(cell, piece) <==> piece != "" && piece[0] == cell[0] && First(cell[1..], piece[1..])
  {
    if piece != "" {
      assert piece == [piece[0]] + piece[1..] && cell == [cell[0]] + cell[1..];
    }
  }

  lemma LaterPiece(cell: string, piece: string)
    ensures Piece(cell, piece) <==> First(cell, piece) || Later(cell, piece)
  {
    if Piece(cell, piece) && !Later(cell, piece) {
      var i: nat, j: nat :| PieceAt(cell, i, j) && piece == cell[i..j];
      assert i == 0 && cell[0..j] <= cell;
    }
    if First(cell, piece) { assert PieceAt(cell, 0, |piece|) && cell[0..|piece|] == piece; }
  }

  lemma Shifted(cell: string, i: nat, j: nat)
    requires cell != "" && i <= j < |cell| && (i >= 1 || cell[0] == '|')
    ensures cell[1..][i..j] == cell[i + 1..j + 1]
    ensures PieceAt(cell[1..], i, j) <==> PieceAt(cell, i + 1, j + 1)
  {
  }

  /** The pieces that start later are those of the tail, without its first one unless a bar is in
      front of it. */
  lemma TailPieces(cell: string, piece: string)
    requires cell != ""
    ensures Later(cell, piece) <==> if cell[0] == '|' then Piece(cell[1..], piece) else Later(cell[1..], piece)
  {
    var tail := cell[1..];
    if Later(cell, piece) {
      var i: nat, j: nat :| i >= 1 && PieceAt(cell, i, j) && piece == cell[i..j];
      assert cell[0] != '|' ==> i >= 2;
      Shifted(cell, i - 1, j - 1);
    }
    if cell[0] == '|' && Piece(tail, piece) {
      var i: nat, j: nat :| PieceAt(tail, i, j) && piece == tail[i..j];
      Shifted(cell, i, j);
    }
    if Later(tail, piece) {
      var i: nat, j: nat :| i >= 1 && PieceAt(tail, i, j) && piece == tail[i..j];
      Shifted(cell, i, j);
    }
  }

  lemma HeadOrRest(parts: seq<string>, piece: string)
    requires parts != []
    ensures piece in parts <==> piece == parts[0] || piece in parts[1..]
  {
  }

  /** Splitting finds the first piece first and the later ones behind it. */
  lemma {:induction false} SplitExactly(cell: string, piece: string)
    ensures First(cell, piece) <==> piece == Split(cell, '|')[0]
    ensures Later(cell, piece) <==> piece in Split(cell, '|')[1..]
  {
    if cell != "" {
      var (tail, rest) := (cell[1..], Split(cell[1..], '|'));
      SplitExactly(tail, piece);
      TailPieces(cell, piece);
      if cell[0] == '|' {
        LaterPiece(tail, piece);
        HeadOrRest(rest, piece);
        assert Split(cell, '|')[1..] == rest;
      } else {
        FirstStays(cell, piece);
        SplitExactly(tail, if piece == "" then "" else piece[1..]);
        assert Split(cell, '|')[1..] == rest[1..];
        assert piece != "" ==> piece == [piece[0]] + piece[1..];
      }
    }
  }

  lemma SplitPieces(cell: string, piece: string)
    ensures piece in Split(cell, '|') <==> Piece(cell, piece)
  {
    hide Piece, Later, First, Split;
    SplitExactly(cell, piece);
    LaterPiece(cell, piece);
    HeadOrRest(Split(cell, '|'), piece);
  }

  lemma {:induction false} NonBlankExactly(parts: seq<string>, v: string)
    ensures v in NonBlank(parts) <==> v != "" && exists k :: 0 <= k < |parts| && Trim(parts[k]) == v
  {
    if parts != [] {
      NonBlankExactly(parts[1..], v);
      assert forall k :: 0 <= k < |parts| - 1 ==> parts[1..][k] == parts[k + 1];
      if k :| 0 <= k < |parts| && Trim(parts[k]) == v && k > 0 { assert parts[1..][k - 1] == parts[k]; }
    }
  }

  lemma AlternativesExactly(cell: string, v: string)
    ensures v in Alternatives(cell) <==> Listed(cell, v)
  {
    hide Piece, Split, NonBlank, Trim;
    var parts := Split(cell, '|');
    NonBlankExactly(parts, v);
    forall piece { SplitPieces(cell, piece); }
    if v in Alternatives(cell) {
      var k :| 0 <= k < |parts| && Trim(parts[k]) == v;
      assert parts[k] in parts;
    }
    if Listed(cell, v) {
      var piece :| Piece(cell, piece) && Trim(piece) == v;
      var k :| 0 <= k < |parts| && parts[k] == piece;
    }
  }

  // ---- what a name stands for ----

  predicate Names(o: PackObject, v: string) { o.id == v || v in o.aliases }

  ghost predicate LastNaming(objects: seq<PackObject>, v: string, k: nat) {
    k < |objects| && Names(objects[k], v) && forall j :: k < j < |objects| ==> !Names(objects[j], v)
  }

  /** The object a name stands for: the last one declared under it, or itself if there is none. */
  ghost predicate StandsFor(objects: seq<PackObject>, v: string, id: string) {
    if exists k: nat :: LastNaming(objects, v, k) then exists k: nat :: LastNaming(objects, v, k) && objects[k].id == id
    else v == id
  }

  lemma {:induction false} WithAliasesIs(m: map<string, string>, aliases: seq<string>, id: string, v: string)
    ensures var r := WithAliases(m, aliases, id);
      (v in r <==> v in aliases || v in m) && (v in r ==> r[v] == if v in aliases then id else m[v])
    decreases |aliases|
  {
    if aliases != [] {
      WithAliasesIs(m[aliases[0] := id], aliases[1..], id, v);
      assert v in aliases <==> v == aliases[0] || v in aliases[1..];
    }
  }

  lemma LastNamingStep(objects: seq<PackObject>, v: string, k: nat)
    requires objects != []
    ensures var n := |objects| - 1;
      LastNaming(objects, v, k) <==> if Names(objects[n], v) then k == n else LastNaming(objects[..n], v, k)
  {
  }

  lemma {:induction false} AliasesExactly(objects: seq<PackObject>, v: string)
    ensures var m := AliasMap(objects);
      && (v in m <==> exists k: nat :: LastNaming(objects, v, k))
      && (forall k: nat :: LastNaming(objects, v, k) ==> v in m && m[v] == objects[k].id)
  {
    if objects != [] {
      var (n, o) := (|objects| - 1, objects[|objects| - 1]);
      var front := objects[..n];
      AliasesExactly(front, v);
      WithAliasesIs(AliasMap(front)[o.id := o.id], o.aliases, o.id, v);
      forall k: nat { LastNamingStep(objects, v, k); }
      if Names(o, v) {
        assert LastNaming(objects, v, n);
      } else if k: nat :| LastNaming(front, v, k) {
        assert LastNaming(objects, v, k) && front[k] == objects[k];
      }
    }
  }

  lemma CanonicalExactly(objects: seq<PackObject>, v: string, id: string)
    ensures Canonical(AliasMap(objects), v) == id <==> StandsFor(objects, v, id)
  {
    hide AliasMap, LastNaming;
    AliasesExactly(objects, v);
  }

  // ---- when a step satisfies a tuple ----

  ghost predicate SameObject(objects: seq<PackObject>, a: string, b: string) { exists id :: StandsFor(objects, a, id) && StandsFor(objects, b, id) }

  /** The cell admits everything, or lists a name of the same object as the value. */
  ghost predicate Admits(objects: seq<PackObject>, cell: string, value: Option<string>) {
    Listed(cell, "*") || (value.Some? && exists a :: Listed(cell, a) && SameObject(objects, a, value.value))
  }

  /** The first action of the pack with this id is declared for the step's object, and is risky
      enough for a writing event or harmless enough for any other. */
  ghost predicate Plausible(pack: Pack, id: string, step: Step) {
    && step.domainObject.Some? && step.eventType.Some?
    && exists k :: 0 <= k < |pack.actions| && Declares(pack, id, k)
         && OnObject(pack, pack.actions[k].on, step.domainObject.value)
         && if step.eventType.value in {"value_committed", "record_updated", "paste_semantic", "table_exported"}
            then pack.actions[k].risk != NoRisk else pack.actions[k].risk in {NoRisk, Low, Medium}
  }

  ghost predicate Declares(pack: Pack, id: string, k: nat)
    requires k < |pack.actions|
  { pack.actions[k].id == id && forall j :: 0 <= j < k ==> pack.actions[j].id != id }

  ghost predicate OnObject(pack: Pack, on: seq<string>, obj: string) {
    on == [] || "*" in on || exists id :: id in on && StandsFor(pack.objects, obj, id)
  }

  /** The action cell admits everything, lists the step's own action, or lists an action of the pack
      that is plausible for the step. */
  ghost predicate ActionAdmitted(pack: Pack, cell: string, step: Step) {
    || Listed(cell, "*")
    || (step.domainAction.Some? && Listed(cell, step.domainAction.value))
    || exists a :: Listed(cell, a) && a != "*" && Plausible(pack, a, step)
  }

  lemma {:induction false} FindExactly(actions: seq<PackAction>, id: string)
    ensures FindAction(actions, id).None? <==> forall j :: 0 <= j < |actions| ==> actions[j].id != id
    ensures FindAction(actions, id).Some? ==>
      exists k :: 0 <= k < |actions| && actions[k] == FindAction(actions, id).value && actions[k].id == id && forall j :: 0 <= j < k ==> actions[j].id != id
  {
    if actions != [] && actions[0].id != id {
      FindExactly(actions[1..], id);
      assert forall j :: 0 <= j < |actions| - 1 ==> actions[1..][j] == actions[j + 1];
      if FindAction(actions, id).Some? {
        var k :| 0 <= k < |actions[1..]| && actions[1..][k] == FindAction(actions, id).value && actions[1..][k].id == id
                 && forall j :: 0 <= j < k ==> actions[1..][j].id != id;
        assert actions[k + 1] == FindAction(actions, id).value;
        forall j | 0 <= j < k + 1 ensures actions[j].id != id { if j > 0 { assert actions[1..][j - 1].id != id; } }
      } else {
        forall j | 0 <= j < |actions| ensures actions[j].id != id { if j > 0 { assert actions[1..][j - 1].id != id; } }
      }
    }
  }

  lemma PlausibleExactly(pack: Pack, id: string, step: Step)
    ensures ActionPlausible(pack, id, step, AliasMap(pack.objects)) <==> Plausible(pack, id, step)
  {
    hide AliasMap, StandsFor;
    FindExactly(pack.actions, id);
    if step.domainObject.Some? {
      forall x { CanonicalExactly(pack.objects, step.domainObject.value, x); }
      hide Canonical, FindAction;
    }
  }

  lemma SameObjectExactly(objects: seq<PackObject>, a: string, b: string)
    ensures SameObject(objects, a, b) <==> Canonical(AliasMap(objects), a) == Canonical(AliasMap(objects), b)
  {
    hide StandsFor, Canonical;
    forall id { CanonicalExactly(objects, a, id); }
    forall id { CanonicalExactly(objects, b, id); }
    assert StandsFor(objects, a, Canonical(AliasMap(objects), a));
  }

  lemma AdmitsExactly(objects: seq<PackObject>, cell: string, value: Option<string>)
    ensures CellMatches(cell, value, AliasMap(objects)) <==> Admits(objects, cell, value)
  {
    hide Alternatives, Listed, SameObject, AliasMap, Canonical;
    forall v { AlternativesExactly(cell, v); }
    var alts := Alternatives(cell);
    if value.Some? {
      forall v { SameObjectExactly(objects, v, value.value); }
      assert forall i :: 0 <= i < |alts| ==> alts[i] in alts;
    }
  }

  /** Without aliases a cell lists the value itself. */
  lemma PlainExactly(cell: string, value: Option<string>)
    ensures CellMatches(cell, value, map[]) <==> Listed(cell, "*") || (value.Some? && Listed(cell, value.value))
  {
    hide Alternatives, Listed;
    forall v { AlternativesExactly(cell, v); }
    var alts := Alternatives(cell);
    assert forall i :: 0 <= i < |alts| ==> alts[i] in alts;
  }

  /** A step satisfies a tuple exactly when its action, object and role are each admitted. */
  lemma StepExactly(pack: Pack, cells: Cells, step: Step)
    ensures StepMatches(pack, cells, step) <==>
      && ActionAdmitted(pack, cells.action, step)
      && Admits(pack.objects, cells.obj, step.domainObject)
      && (Listed(cells.role, "*") || (step.targetRole.Some? && Listed(cells.role, step.targetRole.value)))
  {
    hide Alternatives, Listed, CellMatches, AliasMap, ActionPlausible, Plausible, Admits;
    PlainExactly(cells.action, step.domainAction);
    PlainExactly(cells.role, step.targetRole);
    AdmitsExactly(pack.objects, cells.obj, step.domainObject);
    var (alts, aliases) := (Alternatives(cells.action), AliasMap(pack.objects));
    forall v { AlternativesExactly(cells.action, v); }
    forall v { PlausibleExactly(pack, v, step); }
    if v :| Listed(cells.action, v) && v != "*" && Plausible(pack, v, step) {
      var i :| 0 <= i < |alts| && alts[i] == v;
      assert alts[i] != "*" && ActionPlausible(pack, alts[i], step, aliases);
    }
    if i :| 0 <= i < |alts| && alts[i] != "*" && ActionPlausible(pack, alts[i], step, aliases) {
      assert alts[i] in alts && Listed(cells.action, alts[i]);
    }
  }
}
