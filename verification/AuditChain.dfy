/** The per-organization audit chain: append under the head lock, verify by scan. */
module AuditChain {
  import opened Text
  import opened AuditJson

  datatype Event = Event(
    id: string, organizationId: string, actorType: string, actorId: string, action: string,
    resourceType: string, resourceId: Option<string>, outcome: string, reasonCode: Option<string>,
    metadata: Metadata, requestId: Option<string>, occurredAt: string)

  /** What a jsonb column reads back as: any JSON value, as no schema is applied to it. */
  type Stored = f: Field | !f.Undefined? witness Meta([])

  /** A row as it is read back: `occurred_at` is an instant, uuid columns and jsonb are in the
      database's own form. */
  datatype Row = Row(
    id: string, organizationId: string, actorType: string, actorId: string, action: string,
    resourceType: string, resourceId: Option<string>, outcome: string, reasonCode: Option<string>,
    metadata: Stored, requestId: Option<string>, instant: int,
    previous: Option<string>, hash: string)

  /** What lies outside the program: the digest and the database's column types. */
  datatype World = World(
    sha: string -> string,            // SHA-256 in hex
    uuid: string -> string,           // text of a uuid column
    instant: string -> int,           // timestamptz input
    iso: int -> string,               // new Date(..).toISOString()
    jsonb: Metadata -> Metadata)      // jsonb round trip

  predicate IsHex(s: string) { forall i :: 0 <= i < |s| ==> IsDigit(s[i]) || 'a' <= s[i] <= 'f' }

  /** The digest is an ideal one: collision free, printed in hex (of whatever length); jsonb
      keeps the entries of an object. */
  ghost predicate Sound(w: World) {
    && (forall x, y :: w.sha(x) == w.sha(y) ==> x == y)
    && (forall x :: w.sha(x) != "" && IsHex(w.sha(x)))
    && (forall m :: Unique(m) ==> Unique(w.jsonb(m)) && SameEntries(m, w.jsonb(m)))
  }

  datatype Key =
    | Id | OrganizationId | ActorType | ActorId | Action | ResourceType | ResourceId | Outcome
    | ReasonCode | Meta_ | RequestId | OccurredAt

  function Name(k: Key): string {
    match k
    case Id => "id" case OrganizationId => "organization_id" case ActorType => "actor_type"
    case ActorId => "actor_id" case Action => "action" case ResourceType => "resource_type"
    case ResourceId => "resource_id" case Outcome => "outcome" case ReasonCode => "reason_code"
    case Meta_ => "metadata" case RequestId => "request_id" case OccurredAt => "occurred_at"
  }

  function Optional(o: Option<string>): Field { if o.Some? then Of(o.value) else Undefined }

  /** The event as the schema parser builds it, in schema order. */
  function AppendProperties(e: Event): seq<(Key, Field)> {
    [(Id, Of(e.id)), (OrganizationId, Of(e.organizationId)), (ActorType, Of(e.actorType)),
     (ActorId, Of(e.actorId)), (Action, Of(e.action)), (ResourceType, Of(e.resourceType)),
     (ResourceId, Optional(e.resourceId)), (Outcome, Of(e.outcome)), (ReasonCode, Optional(e.reasonCode)),
     (Meta_, Meta(e.metadata)), (RequestId, Optional(e.requestId)), (OccurredAt, Of(e.occurredAt))]
  }

  function Present(k: Key, o: Option<string>): seq<(Key, Field)> { if o.None? then [] else [(k, Of(o.value))] }

  /** The event as the verifier rebuilds it from a row, in an order of its own. */
  function RebuiltProperties(w: World, r: Row): seq<(Key, Field)> {
    [(Id, Of(r.id)), (OrganizationId, Of(r.organizationId)), (ActorType, Of(r.actorType)),
     (ActorId, Of(r.actorId)), (Action, Of(r.action)), (ResourceType, Of(r.resourceType)),
     (Outcome, Of(r.outcome)), (Meta_, r.metadata), (OccurredAt, Of(w.iso(r.instant)))]
    + Present(ResourceId, r.resourceId) + Present(ReasonCode, r.reasonCode) + Present(RequestId, r.requestId)
  }

  function Named(ps: seq<(Key, Field)>): Object { seq(|ps|, i requires 0 <= i < |ps| => (Name(ps[i].0), ps[i].1)) }

  function AppendObject(e: Event): Object { Named(AppendProperties(e)) }

  function RebuiltObject(w: World, r: Row): Object { Named(RebuiltProperties(w, r)) }

  /** `hashAuditEvent`. */
  function Hash(w: World, previous: Option<string>, o: Object): string {
    w.sha((if previous.Some? then previous.value else "") + Canonical(o))
  }

  /** The stored metadata reads as the event's: an object, or a list taken for the object of its
      positions, of the same members apart from any named `__proto__`. */
  ghost predicate ShowsMetadata(f: Field, m: Metadata) { Composite(f) && SameEntries(Members(f), Kept(m)) }

  /** Column by column, the row shows the event. */
  ghost predicate Shows(w: World, r: Row, e: Event) {
    && r.id == e.id && r.organizationId == e.organizationId && r.actorType == e.actorType
    && r.actorId == e.actorId && r.action == e.action && r.resourceType == e.resourceType
    && r.resourceId == e.resourceId && r.outcome == e.outcome && r.reasonCode == e.reasonCode
    && ShowsMetadata(r.metadata, e.metadata) && r.requestId == e.requestId && w.iso(r.instant) == e.occurredAt
  }

  // ---- the two objects hash alike exactly when the row shows the event ----

  /** Property names differ in length or in an early letter. */
  lemma NameInjective(k: Key, l: Key)
    requires Name(k) == Name(l)
    ensures k == l
  {
    assert |Name(k)| == |Name(l)| && Name(k)[0] == Name(l)[0] && Name(k)[1] == Name(l)[1];
    assert |Name(k)| > 2 ==> Name(k)[2] == Name(l)[2];
  }

  function EventColumn(e: Event, k: Key): Field {
    match k
    case Id => Of(e.id) case OrganizationId => Of(e.organizationId) case ActorType => Of(e.actorType)
    case ActorId => Of(e.actorId) case Action => Of(e.action) case ResourceType => Of(e.resourceType)
    case ResourceId => Optional(e.resourceId) case Outcome => Of(e.outcome) case ReasonCode => Optional(e.reasonCode)
    case Meta_ => Meta(e.metadata) case RequestId => Optional(e.requestId) case OccurredAt => Of(e.occurredAt)
  }

  function RowColumn(w: World, r: Row, k: Key): Field {
    match k
    case Id => Of(r.id) case OrganizationId => Of(r.organizationId) case ActorType => Of(r.actorType)
    case ActorId => Of(r.actorId) case Action => Of(r.action) case ResourceType => Of(r.resourceType)
    case ResourceId => Optional(r.resourceId) case Outcome => Of(r.outcome) case ReasonCode => Optional(r.reasonCode)
    case Meta_ => r.metadata case RequestId => Optional(r.requestId) case OccurredAt => Of(w.iso(r.instant))
  }

  /** Each key once, with the column's value. */
  ghost predicate Keyed(ps: seq<(Key, Field)>, c: Key -> Field) {
    && (forall i, j :: 0 <= i < j < |ps| ==> ps[i].0 != ps[j].0)
    && (forall i :: 0 <= i < |ps| ==> ps[i].1 == c(ps[i].0))
  }

  ghost predicate Holds(ps: seq<(Key, Field)>, k: Key) { exists i :: 0 <= i < |ps| && ps[i].0 == k }

  /** The list holds exactly the defined columns, each key once. */
  ghost predicate Tabled(ps: seq<(Key, Field)>, c: Key -> Field) {
    && Keyed(ps, c)
    && (forall k :: !c(k).Undefined? ==> (k, c(k)) in ps)
  }

  lemma AppendKeyed(e: Event)
    ensures Keyed(AppendProperties(e), (k: Key) => EventColumn(e, k))
  {
  }

  lemma AppendHolds(e: Event, k: Key)
    ensures Holds(AppendProperties(e), k)
  {
    var at := match k
      case Id => 0 case OrganizationId => 1 case ActorType => 2 case ActorId => 3 case Action => 4
      case ResourceType => 5 case ResourceId => 6 case Outcome => 7 case ReasonCode => 8
      case Meta_ => 9 case RequestId => 10 case OccurredAt => 11;
    assert AppendProperties(e)[at].0 == k;
  }

  lemma AppendTabled(e: Event)
    ensures Tabled(AppendProperties(e), (k: Key) => EventColumn(e, k))
  {
    var c := (k: Key) => EventColumn(e, k);
    AppendKeyed(e);
    hide AppendProperties, Keyed, Holds, EventColumn;
    forall k: Key ensures (k, c(k)) in AppendProperties(e) {
      AppendHolds(e, k);
      HeldIn(AppendProperties(e), c, k);
    }
  }

  lemma PresentKeyed(ps: seq<(Key, Field)>, c: Key -> Field, k: Key, o: Option<string>)
    requires Keyed(ps, c) && !Holds(ps, k) && c(k) == Optional(o)
    ensures Keyed(ps + Present(k, o), c)
    ensures forall l :: Holds(ps + Present(k, o), l) <==> Holds(ps, l) || (l == k && o.Some?)
  {
    var r := ps + Present(k, o);
    forall l ensures Holds(r, l) <==> Holds(ps, l) || (l == k && o.Some?) {
      if i :| 0 <= i < |ps| && ps[i].0 == l { assert r[i].0 == l; }
      if l == k && o.Some? { assert r[|ps|].0 == k; }
    }
  }

  lemma AlwaysHolds(w: World, r: Row, k: Key)
    ensures Holds(RebuiltProperties(w, r)[..9], k) <==> k != ResourceId && k != ReasonCode && k != RequestId
  {
    if k != ResourceId && k != ReasonCode && k != RequestId {
      var at := match k
        case Id => 0 case OrganizationId => 1 case ActorType => 2 case ActorId => 3 case Action => 4
        case ResourceType => 5 case Outcome => 6 case Meta_ => 7 case _ => 8;
      assert RebuiltProperties(w, r)[..9][at].0 == k;
    }
  }

  lemma AlwaysKeyed(w: World, r: Row)
    ensures Keyed(RebuiltProperties(w, r)[..9], (k: Key) => RowColumn(w, r, k))
  {
    hide Present, Optional;
  }

  lemma RebuiltTabled(w: World, r: Row)
    ensures Tabled(RebuiltProperties(w, r), (k: Key) => RowColumn(w, r, k))
  {
    var all := RebuiltProperties(w, r);
    var ps, c := all[..9], (k: Key) => RowColumn(w, r, k);
    assert all == ps + Present(ResourceId, r.resourceId) + Present(ReasonCode, r.reasonCode) + Present(RequestId, r.requestId);
    AlwaysKeyed(w, r);
    forall k: Key { AlwaysHolds(w, r, k); }
    hide RebuiltProperties, Present, Keyed, Holds;
    PresentKeyed(ps, c, ResourceId, r.resourceId);
    var qs := ps + Present(ResourceId, r.resourceId);
    PresentKeyed(qs, c, ReasonCode, r.reasonCode);
    PresentKeyed(qs + Present(ReasonCode, r.reasonCode), c, RequestId, r.requestId);
    forall k: Key | !c(k).Undefined? ensures (k, c(k)) in all { HeldIn(all, c, k); }
  }

  lemma HeldIn(ps: seq<(Key, Field)>, c: Key -> Field, k: Key)
    requires Keyed(ps, c) && Holds(ps, k)
    ensures (k, c(k)) in ps
  {
    var i :| 0 <= i < |ps| && ps[i].0 == k;
    assert ps[i] == (k, c(k));
  }

  lemma TabledWellFormed(ps: seq<(Key, Field)>, c: Key -> Field)
    requires Tabled(ps, c)
    requires forall k :: Distinct(c(k))
    ensures WellFormed(Named(ps))
  {
    hide Name, Unique;
    var o := Named(ps);
    assert Unique(o) by {
      assert forall i, j :: 0 <= i < j < |o| ==> o[i].0 != o[j].0 by {
        forall i, j | 0 <= i < j < |o| ensures o[i].0 != o[j].0 {
          if o[i].0 == o[j].0 { NameInjective(ps[i].0, ps[j].0); }
        }
      }
      UniqueFrom(o);
    }
  }

  lemma UniqueFrom(o: Object)
    requires forall i, j :: 0 <= i < j < |o| ==> o[i].0 != o[j].0
    ensures Unique(o)
  {
  }

  ghost predicate ColumnsWithin(c: Key -> Field, d: Key -> Field) {
    forall k :: !c(k).Undefined? ==> FieldsAgree(c(k), d(k))
  }

  lemma TabledWithin(ps: seq<(Key, Field)>, qs: seq<(Key, Field)>, c: Key -> Field, d: Key -> Field)
    requires Tabled(ps, c) && Tabled(qs, d)
    ensures Within(Named(ps), Named(qs)) <==> ColumnsWithin(c, d)
  {
    hide FieldsAgree, Name;
    var (o, p) := (Named(ps), Named(qs));
    if Within(o, p) {
      forall k: Key | !c(k).Undefined? ensures FieldsAgree(c(k), d(k)) {
        var i :| 0 <= i < |ps| && ps[i] == (k, c(k));
        assert o[i] == (Name(k), c(k));
        var j :| 0 <= j < |p| && p[j].0 == o[i].0 && FieldsAgree(o[i].1, p[j].1);
        NameInjective(k, qs[j].0);
      }
    }
    if ColumnsWithin(c, d) {
      forall i | 0 <= i < |o| && !o[i].1.Undefined?
        ensures exists j :: 0 <= j < |p| && p[j].0 == o[i].0 && FieldsAgree(o[i].1, p[j].1)
      {
        var k := ps[i].0;
        AgreeDefined(c(k), d(k));
        var j :| 0 <= j < |qs| && qs[j] == (k, d(k));
        assert p[j].0 == o[i].0;
      }
    }
  }

  /** The event's metadata is what its schema lets through: distinct names, no nested values. */
  predicate Recordable(e: Event) { Unique(e.metadata) && Flat(e.metadata) }

  /** Two texts agree exactly when the row shows the event in every column. */
  lemma TextsAgree(w: World, r: Row, e: Event)
    requires Distinct(r.metadata) && Recordable(e)
    ensures Canonical(RebuiltObject(w, r)) == Canonical(AppendObject(e)) <==> Shows(w, r, e)
  {
    var (ps, qs) := (RebuiltProperties(w, r), AppendProperties(e));
    var c, d := (k: Key) => RowColumn(w, r, k), (k: Key) => EventColumn(e, k);
    AppendTabled(e);
    RebuiltTabled(w, r);
    ColumnsShow(w, r, e);
    hide AppendProperties, RebuiltProperties, Tabled, Named, ColumnsWithin, Within, Shows, Canonical, WellFormed, Unique;
    assert forall k :: Distinct(c(k)) && Distinct(d(k));
    TabledWellFormed(ps, c);
    TabledWellFormed(qs, d);
    AppendPlain(e);
    CanonicalExactly(Named(ps), Named(qs));
    TabledWithin(ps, qs, c, d);
    TabledWithin(qs, ps, d, c);
  }

  lemma AppendPlain(e: Event)
    requires Recordable(e)
    ensures Plain(AppendObject(e))
  {
    hide Name, Flat;
  }

  lemma ColumnsShow(w: World, r: Row, e: Event)
    ensures var c, d := (k: Key) => RowColumn(w, r, k), (k: Key) => EventColumn(e, k);
            Shows(w, r, e) <==> ColumnsWithin(c, d) && ColumnsWithin(d, c)
  {
    var c, d := (k: Key) => RowColumn(w, r, k), (k: Key) => EventColumn(e, k);
    hide FieldsAgree, Shows, RowColumn, EventColumn;
    if Shows(w, r, e) {
      forall k: Key ensures FieldsAgree(c(k), d(k)) && FieldsAgree(d(k), c(k)) { ShownColumn(w, r, e, k); }
    }
    if ColumnsWithin(c, d) && ColumnsWithin(d, c) {
      forall k: Key ensures FieldsAgree(RowColumn(w, r, k), EventColumn(e, k)) { ColumnBoth(c(k), d(k)); }
      ColumnsShown(w, r, e);
    }
  }

  lemma ColumnBoth(f: Field, g: Field)
    requires !f.Undefined? ==> FieldsAgree(f, g)
    requires !g.Undefined? ==> FieldsAgree(g, f)
    ensures FieldsAgree(f, g)
  {
  }

  lemma ShownColumn(w: World, r: Row, e: Event, k: Key)
    requires Shows(w, r, e)
    ensures FieldsAgree(RowColumn(w, r, k), EventColumn(e, k)) && FieldsAgree(EventColumn(e, k), RowColumn(w, r, k))
  {
  }

  lemma TextAgrees(s: string, t: string)
    ensures FieldsAgree(Of(s), Of(t)) <==> s == t
  {
  }

  lemma OptionalAgrees(s: Option<string>, t: Option<string>)
    ensures FieldsAgree(Optional(s), Optional(t)) <==> s == t
  {
  }

  lemma MetadataAgrees(f: Field, m: Metadata)
    ensures FieldsAgree(f, Meta(m)) <==> ShowsMetadata(f, m)
  {
    hide SameEntries, Kept;
  }

  lemma ColumnsShown(w: World, r: Row, e: Event)
    requires forall k :: FieldsAgree(RowColumn(w, r, k), EventColumn(e, k))
    ensures Shows(w, r, e)
  {
    hide FieldsAgree, ShowsMetadata, Optional;
    TextAgrees(r.id, e.id); TextAgrees(r.organizationId, e.organizationId); TextAgrees(r.actorType, e.actorType);
    TextAgrees(r.actorId, e.actorId); TextAgrees(r.action, e.action); TextAgrees(r.resourceType, e.resourceType);
    TextAgrees(r.outcome, e.outcome); TextAgrees(w.iso(r.instant), e.occurredAt);
    OptionalAgrees(r.resourceId, e.resourceId); OptionalAgrees(r.reasonCode, e.reasonCode); OptionalAgrees(r.requestId, e.requestId);
    MetadataAgrees(r.metadata, e.metadata);
    assert RowColumn(w, r, Id) == Of(r.id) && RowColumn(w, r, OrganizationId) == Of(r.organizationId);
    assert RowColumn(w, r, ActorType) == Of(r.actorType) && RowColumn(w, r, ActorId) == Of(r.actorId);
    assert RowColumn(w, r, Action) == Of(r.action) && RowColumn(w, r, ResourceType) == Of(r.resourceType);
    assert RowColumn(w, r, Outcome) == Of(r.outcome) && RowColumn(w, r, OccurredAt) == Of(w.iso(r.instant));
    assert RowColumn(w, r, ResourceId) == Optional(r.resourceId) && RowColumn(w, r, ReasonCode) == Optional(r.reasonCode);
    assert RowColumn(w, r, RequestId) == Optional(r.requestId) && RowColumn(w, r, Meta_) == r.metadata;
  }

  // ---- appending ----

  /** The row an append inserts, as the columns store it. */
  function RowOf(w: World, e: Event, previous: Option<string>): Row {
    Row(w.uuid(e.id), w.uuid(e.organizationId), e.actorType, e.actorId, e.action, e.resourceType, e.resourceId,
        e.outcome, e.reasonCode, Meta(w.jsonb(e.metadata)), e.requestId, w.instant(e.occurredAt),
        previous, Hash(w, previous, AppendObject(e)))
  }

  function Head(w: World, es: seq<Event>): (h: Option<string>)
    ensures h.None? <==> es == []
  {
    if es == [] then None else Some(Hash(w, Head(w, es[..|es| - 1]), AppendObject(es[|es| - 1])))
  }

  /** The table after appending the events one by one. */
  function Chain(w: World, es: seq<Event>): (r: seq<Row>)
    ensures |r| == |es|
  {
    if es == [] then [] else Chain(w, es[..|es| - 1]) + [RowOf(w, es[|es| - 1], Head(w, es[..|es| - 1]))]
  }

  lemma ChainStep(w: World, es: seq<Event>, e: Event)
    ensures Chain(w, es + [e]) == Chain(w, es) + [RowOf(w, e, Head(w, es))]
    ensures Head(w, es + [e]) == Some(Hash(w, Head(w, es), AppendObject(e)))
  {
    hide Hash, AppendObject;
    assert (es + [e])[..|es|] == es;
  }

  /** The organization's row in `audit_chain_heads`. */
  function HeadRow(w: World, es: seq<Event>): Option<Option<string>> { if es == [] then None else Some(Head(w, es)) }

  // ---- the verifier's query order ----

  predicate RowBefore(a: Row, b: Row) { a.instant < b.instant || (a.instant == b.instant && Less(a.id, b.id)) }

  ghost predicate InOrder(rows: seq<Row>) { forall i, j :: 0 <= i < j < |rows| ==> RowBefore(rows[i], rows[j]) }

  function InsertRow(rows: seq<Row>, x: Row): (r: seq<Row>)
    ensures |r| == |rows| + 1
    ensures forall y :: y in r <==> y in rows || y == x
  {
    if rows == [] || RowBefore(rows[|rows| - 1], x) then rows + [x]
    else
      assert rows == rows[..|rows| - 1] + [rows[|rows| - 1]];
      InsertRow(rows[..|rows| - 1], x) + [rows[|rows| - 1]]
  }

  /** ORDER BY occurred_at, id. */
  function SortRows(rows: seq<Row>): (r: seq<Row>)
    ensures |r| == |rows|
    ensures forall y :: y in r <==> y in rows
  {
    if rows == [] then []
    else
      assert rows == rows[..|rows| - 1] + [rows[|rows| - 1]];
      InsertRow(SortRows(rows[..|rows| - 1]), rows[|rows| - 1])
  }

  lemma RowTransitive(a: Row, b: Row, c: Row)
    requires RowBefore(a, b) && RowBefore(b, c)
    ensures RowBefore(a, c)
  {
    if Less(a.id, b.id) && Less(b.id, c.id) { LessTransitive(a.id, b.id, c.id); }
  }

  ghost predicate DistinctIds(rows: seq<Row>) { forall i, j :: 0 <= i < j < |rows| ==> rows[i].id != rows[j].id }

  lemma {:induction false} InsertInOrder(rows: seq<Row>, x: Row)
    requires InOrder(rows) && forall i :: 0 <= i < |rows| ==> rows[i].id != x.id
    ensures InOrder(InsertRow(rows, x))
  {
    hide RowBefore;
    if rows != [] {
      var z := rows[|rows| - 1];
      if RowBefore(z, x) {
        forall i | 0 <= i < |rows| ensures RowBefore(rows[i], x) {
          if i < |rows| - 1 { RowTransitive(rows[i], z, x); }
        }
      } else {
        InsertInOrder(rows[..|rows| - 1], x);
        RowTotal(z, x);
        var t := InsertRow(rows[..|rows| - 1], x);
        forall i | 0 <= i < |t| ensures RowBefore(t[i], z) {
          assert t[i] in t;
          if t[i] != x { assert t[i] in rows[..|rows| - 1]; }
        }
      }
    }
  }

  lemma RowTotal(a: Row, b: Row)
    requires a.id != b.id
    ensures RowBefore(a, b) || RowBefore(b, a)
  {
    LessTotal(a.id, b.id);
  }

  lemma {:induction false} SortInOrder(rows: seq<Row>)
    requires DistinctIds(rows)
    ensures InOrder(SortRows(rows))
  {
    if rows != [] {
      var p := rows[..|rows| - 1];
      SortInOrder(p);
      forall i | 0 <= i < |SortRows(p)| ensures SortRows(p)[i].id != rows[|rows| - 1].id { assert SortRows(p)[i] in p; }
      InsertInOrder(SortRows(p), rows[|rows| - 1]);
    }
  }

  lemma {:induction false} SortKeepsOrder(rows: seq<Row>)
    requires InOrder(rows)
    ensures SortRows(rows) == rows
  {
    if rows != [] {
      assert rows == rows[..|rows| - 1] + [rows[|rows| - 1]];
      SortKeepsOrder(rows[..|rows| - 1]);
    }
  }

  // ---- verification ----

  datatype Reason = BrokenLink | HashMismatch | MissingHead | HeadMismatch

  datatype Verification =
    | Sealed(eventCount: nat)
    | Rejected(eventCount: nat, firstInvalid: Option<string>, reason: Reason)

  function PreviousOf(rows: seq<Row>, k: nat): Option<string>
    requires k <= |rows|
  { if k == 0 then None else Some(rows[k - 1].hash) }

  predicate LinkOk(rows: seq<Row>, k: nat)
    requires k < |rows|
  { rows[k].previous == PreviousOf(rows, k) }

  predicate HashOk(w: World, rows: seq<Row>, k: nat)
    requires k < |rows|
  { rows[k].hash == Hash(w, PreviousOf(rows, k), RebuiltObject(w, rows[k])) }

  ghost predicate Linked(w: World, rows: seq<Row>, n: nat)
    requires n <= |rows|
  { forall k: nat :: k < n ==> LinkOk(rows, k) && HashOk(w, rows, k) }

  /** What the verifier accepts: every link and hash holds, and the head is the last hash. An
      empty table is accepted whatever the head says. */
  ghost predicate Intact(w: World, rows: seq<Row>, head: Option<Option<string>>) {
    Linked(w, rows, |rows|) && (rows != [] ==> head == Some(PreviousOf(rows, |rows|)))
  }

  ghost predicate FirstFault(w: World, rows: seq<Row>, k: nat) {
    k < |rows| && Linked(w, rows, k) && !(LinkOk(rows, k) && HashOk(w, rows, k))
  }

  /** Row k is the first whose link or hash is wrong, and the link is looked at first. */
  ghost predicate FaultIs(w: World, rows: seq<Row>, k: nat, id: string, reason: Reason) {
    && FirstFault(w, rows, k) && rows[k].id == id
    && reason == (if LinkOk(rows, k) then HashMismatch else BrokenLink)
  }

  ghost predicate Reports(w: World, rows: seq<Row>, head: Option<Option<string>>, v: Verification) {
    && v.eventCount == |rows|
    && (v.Sealed? <==> Intact(w, rows, head))
    && (v.Rejected? && v.firstInvalid.Some? ==> exists k: nat :: FaultIs(w, rows, k, v.firstInvalid.value, v.reason))
    && (v.Rejected? && v.firstInvalid.None? ==>
        Linked(w, rows, |rows|) && v.reason == (if head.None? then MissingHead else HeadMismatch))
  }

  lemma FaultRejects(w: World, rows: seq<Row>, head: Option<Option<string>>, k: nat)
    requires FirstFault(w, rows, k)
    ensures !Intact(w, rows, head)
  {
  }

  /** The table of one organization and its row in `audit_chain_heads`. */
  class AuditLog {
    const w: World
    var rows: seq<Row>
    var head: Option<Option<string>>
    ghost var events: seq<Event>

    /** The table was only ever written by appends. */
    ghost predicate Genuine()
      reads this
    {
      && rows == Chain(w, events) && DistinctIds(rows)
      && head == HeadRow(w, events)
    }

    constructor (w: World)
      ensures Genuine() && rows == [] && events == [] && this.w == w
    {
      this.w, rows, head, events := w, [], None, [];
    }

    /** `appendAuditEventTx`: false is the primary-key violation, which rolls back. */
    method Append(e: Event) returns (done: bool)
      requires Genuine()
      modifies this
      ensures Genuine()
      ensures done <==> forall k :: 0 <= k < |old(rows)| ==> old(rows)[k].id != w.uuid(e.id)
      ensures events == old(events) + if done then [e] else []
    {
      hide Hash, AppendObject, Chain, Head;
      ChainStep(w, events, e);
      var committed := head;
      var previous: Option<string> := None;
      if head.None? { head := Some(None); } else { previous := head.value; }
      if exists k :: 0 <= k < |rows| && rows[k].id == w.uuid(e.id) {
        head := committed;
        return false;
      }
      rows := rows + [RowOf(w, e, previous)];
      head := Some(Some(Hash(w, previous, AppendObject(e))));
      events := events + [e];
      return true;
    }

    /** `verifyAuditChain`, on whatever the table and the head row hold. */
    method Verify() returns (v: Verification)
      ensures Reports(w, SortRows(rows), head, v)
    {
      hide Hash, RebuiltObject, SortRows;
      var list := SortRows(rows);
      var previous: Option<string> := None;
      var i := 0;
      while i < |list|
        invariant i <= |list| && Linked(w, list, i) && previous == PreviousOf(list, i)
      {
        if list[i].previous != previous {
          assert FaultIs(w, list, i, list[i].id, BrokenLink);
          FaultRejects(w, list, head, i);
          return Rejected(|list|, Some(list[i].id), BrokenLink);
        }
        if Hash(w, previous, RebuiltObject(w, list[i])) != list[i].hash {
          assert FaultIs(w, list, i, list[i].id, HashMismatch);
          FaultRejects(w, list, head, i);
          return Rejected(|list|, Some(list[i].id), HashMismatch);
        }
        previous := Some(list[i].hash);
        i := i + 1;
      }
      if |list| > 0 {
        if head.None? { return Rejected(|list|, None, MissingHead); }
        if head.value != previous { return Rejected(|list|, None, HeadMismatch); }
      }
      return Sealed(|list|);
    }
  }

  // ---- tamper evidence ----

  ghost predicate PlainMetadata(es: seq<Event>) { forall i :: 0 <= i < |es| ==> Recordable(es[i]) }

  ghost predicate JsonbMetadata(rows: seq<Row>) { forall i :: 0 <= i < |rows| ==> Distinct(rows[i].metadata) }

  lemma HexNoShorter(g: string, h: string, x: string, y: string)
    requires IsHex(h) && |x| > 0 && x[0] == '{' && g + x == h + y
    ensures |g| >= |h|
  {
    assert (g + x)[|g|] == x[0];
    assert forall k :: 0 <= k < |h| ==> (h + y)[k] == h[k];
  }

  /** Hex never contains the brace every event text starts with. */
  lemma HexSplit(g: string, h: string, x: string, y: string)
    requires IsHex(g) && IsHex(h) && |x| > 0 && |y| > 0 && x[0] == '{' && y[0] == '{'
    requires g + x == h + y
    ensures g == h && x == y
  {
    HexNoShorter(g, h, x, y);
    HexNoShorter(h, g, y, x);
    assert g == (g + x)[..|g|] && h == (h + y)[..|h|] && x == (g + x)[|g|..] && y == (h + y)[|h|..];
  }

  ghost predicate IsDigest(h: Option<string>) { h.Some? ==> h.value != "" && IsHex(h.value) }

  /** One hash fixes the previous hash and the event text. */
  lemma HashFixes(w: World, g: Option<string>, h: Option<string>, o: Object, p: Object)
    requires Sound(w) && IsDigest(g) && IsDigest(h) && Hash(w, g, o) == Hash(w, h, p)
    ensures g == h && Canonical(o) == Canonical(p)
  {
    hide PrintObject, Ordering, SortKeys;
    HexSplit(if g.Some? then g.value else "", if h.Some? then h.value else "", Canonical(o), Canonical(p));
  }

  lemma HeadIsDigest(w: World, es: seq<Event>)
    requires Sound(w)
    ensures IsDigest(Head(w, es))
  {
  }

  lemma LinkedDigest(w: World, rows: seq<Row>, k: nat)
    requires Sound(w) && k <= |rows| && Linked(w, rows, |rows|)
    ensures IsDigest(PreviousOf(rows, k))
  {
    if k > 0 { assert HashOk(w, rows, k - 1); }
  }

  ghost predicate IsRecord(w: World, r: Row, es: seq<Event>, k: nat)
    requires k < |es|
  { Shows(w, r, es[k]) && r.previous == Head(w, es[..k]) && Some(r.hash) == Head(w, es[..k + 1]) }

  /** The last row of a list that verifies up to a head records the last event. */
  lemma LastRecord(w: World, rows: seq<Row>, es: seq<Event>)
    requires Sound(w) && PlainMetadata(es) && JsonbMetadata(rows) && rows != [] && es != []
    requires Linked(w, rows, |rows|) && PreviousOf(rows, |rows|) == Head(w, es)
    ensures Shows(w, rows[|rows| - 1], es[|es| - 1])
    ensures PreviousOf(rows, |rows| - 1) == Head(w, es[..|es| - 1]) == rows[|rows| - 1].previous
  {
    hide Shows, Hash, AppendObject, RebuiltObject;
    var (n, past, e) := (|rows| - 1, es[..|es| - 1], es[|es| - 1]);
    assert LinkOk(rows, n) && HashOk(w, rows, n);
    LinkedDigest(w, rows, n);
    HeadIsDigest(w, past);
    HashFixes(w, PreviousOf(rows, n), Head(w, past), RebuiltObject(w, rows[n]), AppendObject(e));
    TextsAgree(w, rows[n], e);
  }

  lemma LinkedFront(w: World, rows: seq<Row>, n: nat)
    requires n <= |rows| && Linked(w, rows, |rows|)
    ensures Linked(w, rows[..n], n)
  {
    hide Hash, RebuiltObject;
    forall k: nat | k < n ensures LinkOk(rows[..n], k) && HashOk(w, rows[..n], k) {
      assert LinkOk(rows, k) && HashOk(w, rows, k);
      assert PreviousOf(rows[..n], k) == PreviousOf(rows, k);
    }
  }

  /** Rows that verify up to the hash of the appended events show exactly those events, in
      that order: none was removed, inserted or moved, and none was edited beyond what `Shows`
      leaves open. */
  lemma {:induction false} TamperEvident(w: World, rows: seq<Row>, es: seq<Event>)
    requires Sound(w) && PlainMetadata(es) && JsonbMetadata(rows)
    requires Linked(w, rows, |rows|) && PreviousOf(rows, |rows|) == Head(w, es)
    ensures |rows| == |es| && forall k: nat :: k < |es| ==> IsRecord(w, rows[k], es, k)
  {
    hide Shows, Hash, AppendObject, RebuiltObject, Sound;
    if rows != [] {
      var n := |rows| - 1;
      var (front, past) := (rows[..n], es[..|es| - 1]);
      LastRecord(w, rows, es);
      LinkedFront(w, rows, n);
      assert PreviousOf(front, n) == PreviousOf(rows, n);
      hide Linked, Head, PreviousOf;
      TamperEvident(w, front, past);
      assert es[..|es|] == es;
      forall k: nat | k < |es| ensures IsRecord(w, rows[k], es, k) {
        if k < n { RecordOf(w, front[k], past, es, k); }
      }
    }
  }

  lemma RecordOf(w: World, r: Row, past: seq<Event>, es: seq<Event>, k: nat)
    requires k < |past| < |es| && past == es[..|past|] && IsRecord(w, r, past, k)
    ensures IsRecord(w, r, es, k)
  {
    hide Shows, Head;
    assert past[..k] == es[..k] && past[..k + 1] == es[..k + 1];
  }

  lemma RecordHash(w: World, rows: seq<Row>, es: seq<Event>, k: nat)
    requires PlainMetadata(es) && JsonbMetadata(rows) && |rows| == |es| && k < |es|
    requires IsRecord(w, rows[k], es, k) && (k > 0 ==> IsRecord(w, rows[k - 1], es, k - 1))
    ensures LinkOk(rows, k) && HashOk(w, rows, k) && PreviousOf(rows, k + 1) == Head(w, es[..k + 1])
  {
    hide Shows, AppendObject, RebuiltObject;
    assert es[..k + 1][..k] == es[..k] && es[..k + 1][k] == es[k];
    TextsAgree(w, rows[k], es[k]);
  }

  /** What the verifier makes of any rows against the head that the appended events left: it accepts
      exactly those events in order, and an emptied table, as the head is compared only when there
      is a row. */
  lemma IntactExactly(w: World, rows: seq<Row>, es: seq<Event>)
    requires Sound(w) && PlainMetadata(es) && JsonbMetadata(rows)
    ensures Intact(w, rows, HeadRow(w, es)) <==> rows == [] || (|rows| == |es| && forall k: nat :: k < |es| ==> IsRecord(w, rows[k], es, k))
  {
    hide Sound, IsRecord, LinkOk, HashOk, Head;
    if rows != [] && Intact(w, rows, HeadRow(w, es)) {
      TamperEvident(w, rows, es);
    }
    if |rows| == |es| > 0 && forall k: nat :: k < |es| ==> IsRecord(w, rows[k], es, k) {
      forall k: nat | k < |rows| ensures LinkOk(rows, k) && HashOk(w, rows, k) { RecordHash(w, rows, es, k); }
      RecordHash(w, rows, es, |rows| - 1);
      assert es[..|es|] == es;
    }
  }

  // ---- what an edit can hide ----

  /** The verifier reads the same event from both rows. */
  ghost predicate ReadsAlike(w: World, r: Row, q: Row) {
    && q.id == r.id && q.organizationId == r.organizationId && q.actorType == r.actorType
    && q.actorId == r.actorId && q.action == r.action && q.resourceType == r.resourceType
    && q.resourceId == r.resourceId && q.outcome == r.outcome && q.reasonCode == r.reasonCode
    && FieldsAgree(q.metadata, r.metadata) && q.requestId == r.requestId && w.iso(q.instant) == w.iso(r.instant)
  }

  lemma AlikeShows(w: World, r: Row, q: Row, e: Event)
    requires Shows(w, r, e)
    ensures Shows(w, q, e) <==> ReadsAlike(w, r, q)
  {
    hide Members, Kept;
  }

  /** Replacing one row of an accepted table goes unseen exactly when the verifier reads the same
      event from the new row and its links are the old ones. */
  lemma EditUnseenExactly(w: World, rows: seq<Row>, es: seq<Event>, k: nat, q: Row)
    requires Sound(w) && PlainMetadata(es) && JsonbMetadata(rows) && Distinct(q.metadata)
    requires k < |rows| && Intact(w, rows, HeadRow(w, es))
    ensures Intact(w, rows[k := q], HeadRow(w, es)) <==>
            ReadsAlike(w, rows[k], q) && q.previous == rows[k].previous && q.hash == rows[k].hash
  {
    hide Sound, Intact, Shows, ReadsAlike, Head, HeadRow, Recordable, Distinct;
    var edited := rows[k := q];
    IntactExactly(w, rows, es);
    assert IsRecord(w, rows[k], es, k);
    AlikeShows(w, rows[k], q, es[k]);
    IntactExactly(w, edited, es);
    assert Intact(w, edited, HeadRow(w, es)) <==> forall j: nat :: j < |es| ==> IsRecord(w, edited[j], es, j);
    assert forall j: nat :: j < |es| && j != k ==> edited[j] == rows[j] && IsRecord(w, rows[j], es, j);
    assert IsRecord(w, edited[k], es, k) <==> ReadsAlike(w, rows[k], q) && q.previous == rows[k].previous && q.hash == rows[k].hash;
  }

  predicate NamesProto(m: Metadata) { exists i :: 0 <= i < |m| && m[i].0 == PROTO }

  /** Such an edit: any accepted row may gain a metadata property named `__proto__`, of any value. */
  lemma AddedProtoUnseen(w: World, rows: seq<Row>, es: seq<Event>, k: nat, v: Value)
    requires Sound(w) && PlainMetadata(es) && JsonbMetadata(rows)
    requires k < |rows| && Intact(w, rows, HeadRow(w, es)) && rows[k].metadata.Meta? && !NamesProto(rows[k].metadata.entries)
    ensures var edited := rows[k].(metadata := Meta(rows[k].metadata.entries + [(PROTO, v)]));
      edited != rows[k] && Intact(w, rows[k := edited], HeadRow(w, es))
  {
    hide Sound, Intact, HeadRow, Recordable, FieldsAgree, Unique, NamesProto;
    var m := rows[k].metadata.entries;
    assert Distinct(rows[k].metadata);
    AddedProtoAlike(m, v);
    EditUnseenExactly(w, rows, es, k, rows[k].(metadata := Meta(m + [(PROTO, v)])));
  }

  lemma AddedProtoAlike(m: Metadata, v: Value)
    requires Unique(m) && !NamesProto(m)
    ensures var more := m + [(PROTO, v)]; more != m && Unique(more) && FieldsAgree(Meta(more), Meta(m))
  {
    var more := m + [(PROTO, v)];
    assert more[..|m|] == m;
  }

  /** And metadata that is an object of the positions of a list may become that list: the empty
      object an empty list, for one. */
  lemma ListUnseen(w: World, rows: seq<Row>, es: seq<Event>, k: nat, items: seq<Value>)
    requires Sound(w) && PlainMetadata(es) && JsonbMetadata(rows)
    requires k < |rows| && Intact(w, rows, HeadRow(w, es)) && rows[k].metadata == Meta(Indexed(items))
    ensures Intact(w, rows[k := rows[k].(metadata := Items(items))], HeadRow(w, es))
  {
    IndexedUnique(items);
    hide Sound, Intact, Kept, HeadRow, Indexed, Recordable;
    EditUnseenExactly(w, rows, es, k, rows[k].(metadata := Items(items)));
  }

  /** The stored metadata is the event's, not only to the verifier's eye. */
  ghost predicate HoldsMetadata(r: Row, e: Event) { r.metadata.Meta? && SameEntries(r.metadata.entries, e.metadata) }

  /** In an accepted table a row holds its event's metadata exactly when it stores an object, with the
      event's property named `__proto__`, which is none for an event without one. */
  lemma MetadataExactly(w: World, rows: seq<Row>, es: seq<Event>, k: nat)
    requires Sound(w) && PlainMetadata(es) && JsonbMetadata(rows) && k < |rows| && Intact(w, rows, HeadRow(w, es))
    ensures |rows| == |es|
    ensures HoldsMetadata(rows[k], es[k]) <==>
            rows[k].metadata.Meta? && forall v :: (PROTO, v) in rows[k].metadata.entries <==> (PROTO, v) in es[k].metadata
  {
    hide Sound, Intact, Head, HeadRow, Recordable, Kept;
    IntactExactly(w, rows, es);
    assert IsRecord(w, rows[k], es, k);
    MembersFix(rows[k].metadata, es[k].metadata);
  }

  lemma MembersFix(f: Field, m: Metadata)
    requires ShowsMetadata(f, m)
    ensures f.Meta? && SameEntries(f.entries, m) <==> f.Meta? && forall v :: (PROTO, v) in f.entries <==> (PROTO, v) in m
  {
    if f.Meta? && forall v :: (PROTO, v) in f.entries <==> (PROTO, v) in m {
      forall x ensures x in f.entries <==> x in m {
        assert x in Kept(f.entries) <==> x in Kept(m);
        if x.0 == PROTO { assert x == (PROTO, x.1); }
      }
    }
  }

  // ---- when a genuine log verifies ----

  /** The event reads back from its row as it was appended. */
  predicate InNormalForm(w: World, e: Event) {
    && w.uuid(e.id) == e.id && w.uuid(e.organizationId) == e.organizationId
    && w.iso(w.instant(e.occurredAt)) == e.occurredAt
  }

  lemma RowShows(w: World, e: Event, previous: Option<string>)
    requires Sound(w) && Recordable(e)
    ensures Shows(w, RowOf(w, e, previous), e) <==> InNormalForm(w, e)
    ensures Distinct(RowOf(w, e, previous).metadata)
  {
    hide Hash, AppendObject;
  }

  lemma {:induction false} ChainAt(w: World, es: seq<Event>, k: nat)
    requires k < |es|
    ensures Chain(w, es)[k] == RowOf(w, es[k], Head(w, es[..k]))
    ensures PreviousOf(Chain(w, es), k) == Head(w, es[..k])
    ensures Some(Chain(w, es)[k].hash) == Head(w, es[..k + 1])
  {
    hide Hash, AppendObject;
    var past := es[..|es| - 1];
    if k < |past| {
      ChainAt(w, past, k);
      assert past[..k] == es[..k] && past[..k + 1] == es[..k + 1];
    } else {
      assert es[..|es|] == es && es[..k] == past;
      if k > 0 {
        ChainAt(w, past, k - 1);
        assert past[..k] == past;
      }
    }
  }

  lemma ChainMetadata(w: World, es: seq<Event>)
    requires Sound(w) && PlainMetadata(es)
    ensures JsonbMetadata(Chain(w, es))
  {
    hide Sound, Hash, AppendObject;
    var c := Chain(w, es);
    forall k | 0 <= k < |c| ensures Distinct(c[k].metadata) {
      ChainAt(w, es, k);
      RowShows(w, es[k], Head(w, es[..k]));
    }
  }

  /** Appended rows link and hash exactly when every event was in normal form. */
  lemma ChainLinked(w: World, es: seq<Event>)
    requires Sound(w) && PlainMetadata(es) && forall k :: 0 <= k < |es| ==> InNormalForm(w, es[k])
    ensures Linked(w, Chain(w, es), |es|) && (es != [] ==> PreviousOf(Chain(w, es), |es|) == Head(w, es))
  {
    hide Sound, Shows, AppendObject, RebuiltObject, Chain, InNormalForm, Canonical;
    var c := Chain(w, es);
    forall k: nat | k < |es| ensures LinkOk(c, k) && HashOk(w, c, k) {
      ChainAt(w, es, k);
      RowShows(w, es[k], Head(w, es[..k]));
      TextsAgree(w, c[k], es[k]);
    }
    if es != [] {
      ChainAt(w, es, |es| - 1);
      assert es[..|es|] == es;
    }
  }

  /** Two appended rows with one hash carry one event id, hence are one row. */
  lemma HashesDistinct(w: World, es: seq<Event>, i: nat, j: nat)
    requires Sound(w) && PlainMetadata(es) && DistinctIds(Chain(w, es)) && i < |es| && j < |es|
    requires Chain(w, es)[i].hash == Chain(w, es)[j].hash
    ensures i == j
  {
    hide Chain, Head, AppendObject, RebuiltObject, Canonical;
    ChainAt(w, es, i);
    ChainAt(w, es, j);
    HeadIsDigest(w, es[..i]);
    HeadIsDigest(w, es[..j]);
    HashFixes(w, Head(w, es[..i]), Head(w, es[..j]), AppendObject(es[i]), AppendObject(es[j]));
    SameTextSameId(es[i], es[j]);
  }

  lemma SameTextSameId(e: Event, f: Event)
    requires Recordable(e) && Recordable(f) && Canonical(AppendObject(e)) == Canonical(AppendObject(f))
    ensures e.id == f.id
  {
    var c, d := (k: Key) => EventColumn(e, k), (k: Key) => EventColumn(f, k);
    AppendTabled(e);
    AppendTabled(f);
    hide AppendProperties, Tabled, Named, Within, Canonical, WellFormed, Unique;
    assert forall k :: Distinct(c(k)) && Distinct(d(k));
    TabledWellFormed(AppendProperties(e), c);
    TabledWellFormed(AppendProperties(f), d);
    AppendPlain(f);
    CanonicalExactly(AppendObject(e), AppendObject(f));
    TabledWithin(AppendProperties(e), AppendProperties(f), c, d);
    assert FieldsAgree(c(Id), d(Id));
  }

  ghost predicate AllNormal(w: World, es: seq<Event>) { forall k :: 0 <= k < |es| ==> InNormalForm(w, es[k]) }

  /** The verifier's verdict on a log only ever written by appends. */
  ghost predicate Verifies(w: World, es: seq<Event>) { Intact(w, SortRows(Chain(w, es)), HeadRow(w, es)) }

  /** A log only ever written by appends verifies exactly when every event was in normal form
      (canonical uuid text, millisecond UTC timestamp as the verifier prints it) and the events
      were appended in increasing (occurred_at, id) order. */
  lemma GenuineVerifiesExactly(w: World, es: seq<Event>)
    requires Sound(w) && PlainMetadata(es) && DistinctIds(Chain(w, es))
    ensures Verifies(w, es) <==> AllNormal(w, es) && InOrder(Chain(w, es))
  {
    hide Sound, Linked, Head, Chain, SortRows, InOrder, InNormalForm, Shows, RowOf;
    var c := Chain(w, es);
    if AllNormal(w, es) && InOrder(c) {
      SortKeepsOrder(c);
      ChainLinked(w, es);
    }
    if Verifies(w, es) {
      if es != [] { VerifiedIsOrdered(w, es); }
      else { NothingInOrder(c); }
    }
  }

  lemma NothingInOrder(rows: seq<Row>)
    requires rows == []
    ensures InOrder(rows)
  {
  }

  lemma VerifiedIsOrdered(w: World, es: seq<Event>)
    requires Sound(w) && PlainMetadata(es) && DistinctIds(Chain(w, es)) && es != []
    requires Linked(w, SortRows(Chain(w, es)), |es|) && PreviousOf(SortRows(Chain(w, es)), |es|) == Head(w, es)
    ensures (forall k :: 0 <= k < |es| ==> InNormalForm(w, es[k])) && InOrder(Chain(w, es))
  {
    hide Sound, Linked, Head, Chain, SortRows, InOrder, InNormalForm, Shows, RowOf, RowBefore;
    var (c, s) := (Chain(w, es), SortRows(Chain(w, es)));
    ChainMetadata(w, es);
    forall k | 0 <= k < |s| ensures Distinct(s[k].metadata) { assert s[k] in c; }
    TamperEvident(w, s, es);
    SortInOrder(c);
    forall k | 0 <= k < |es| ensures s[k] == c[k] && InNormalForm(w, es[k]) {
      assert IsRecord(w, s[k], es, k);
      ChainAt(w, es, k);
      assert s[k] in c;
      var j :| 0 <= j < |c| && c[j] == s[k];
      HashesDistinct(w, es, j, k);
      RowShows(w, es[k], Head(w, es[..k]));
    }
    assert s == c;
  }

  /** After one more append the log verifies exactly when it did before, the new event is in
      normal form and its row sorts after the last one. */
  lemma AppendKeepsVerifying(w: World, es: seq<Event>, e: Event)
    requires Sound(w) && PlainMetadata(es + [e]) && DistinctIds(Chain(w, es + [e]))
    ensures Verifies(w, es + [e]) <==> Verifies(w, es) && InNormalForm(w, e) && SortsAfter(w, es, e)
  {
    hide Sound, Head, Chain, InOrder, InNormalForm, Verifies, AllNormal, RowOf, PlainMetadata, DistinctIds;
    ChainStep(w, es, e);
    PrefixPlain(es, e);
    PrefixDistinct(Chain(w, es), RowOf(w, e, Head(w, es)));
    GenuineVerifiesExactly(w, es);
    GenuineVerifiesExactly(w, es + [e]);
    InOrderStep(Chain(w, es), RowOf(w, e, Head(w, es)));
    AllNormalStep(w, es, e);
  }

  predicate SortsAfter(w: World, es: seq<Event>, e: Event) {
    es != [] ==> RowBefore(Chain(w, es)[|es| - 1], RowOf(w, e, Head(w, es)))
  }

  lemma PrefixPlain(es: seq<Event>, e: Event)
    requires PlainMetadata(es + [e])
    ensures PlainMetadata(es)
  {
    forall k | 0 <= k < |es| ensures Recordable(es[k]) { assert (es + [e])[k] == es[k]; }
  }

  lemma PrefixDistinct(rows: seq<Row>, x: Row)
    requires DistinctIds(rows + [x])
    ensures DistinctIds(rows)
  {
    assert forall k :: 0 <= k < |rows| ==> (rows + [x])[k] == rows[k];
  }

  lemma AllNormalStep(w: World, es: seq<Event>, e: Event)
    ensures AllNormal(w, es + [e]) <==> AllNormal(w, es) && InNormalForm(w, e)
  {
    assert forall k :: 0 <= k < |es| ==> (es + [e])[k] == es[k];
    assert (es + [e])[|es|] == e;
  }

  lemma InOrderStep(rows: seq<Row>, x: Row)
    ensures InOrder(rows + [x]) <==> InOrder(rows) && (rows != [] ==> RowBefore(rows[|rows| - 1], x))
  {
    hide RowBefore;
    var r := rows + [x];
    assert forall i :: 0 <= i < |rows| ==> r[i] == rows[i];
    if InOrder(r) && rows != [] { assert RowBefore(r[|rows| - 1], r[|rows|]); }
    if InOrder(rows) && rows != [] && RowBefore(rows[|rows| - 1], x) {
      forall i | 0 <= i < |rows| ensures RowBefore(rows[i], x) {
        if i < |rows| - 1 { RowTransitive(rows[i], rows[|rows| - 1], x); }
      }
    }
  }
}
