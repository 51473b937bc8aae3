/** Device-session rows and the enroll and rotate handlers, under every interleaving. */
module DeviceSessions {
  import opened Text

  /** What a signed device token says; it expires a fixed time after it was issued. */
  datatype Claims = Claims(organization: string, user: string, role: string, device: string, family: string, issued: int)

  const TOKEN_TTL_MS := 30 * 24 * 60 * 60 * 1000

  /** A row of `device_sessions` and the claims of the token whose hash it holds. */
  datatype Session = Session(id: string, claims: Claims, hash: string, rotatedFrom: Option<string>, revoked: bool)

  /** Claims to the hash of the signed token. */
  type Fingerprint = Claims -> string

  ghost predicate Injective(fp: Fingerprint) { forall c, d :: fp(c) == fp(d) ==> c == d }

  // ---- row operations ----

  predicate Matches(r: Session, hash: string) { r.hash == hash && !r.revoked }

  /** UPDATE .. SET revoked_at WHERE the hash matches and the row is not revoked. */
  function RevokeRows(rows: seq<Session>, hash: string): (r: seq<Session>)
    ensures |r| == |rows|
  { seq(|rows|, i requires 0 <= i < |rows| => if Matches(rows[i], hash) then rows[i].(revoked := true) else rows[i]) }

  function FirstMatch(rows: seq<Session>, hash: string): (r: Option<Session>)
    ensures r.Some? ==> r.value in rows && Matches(r.value, hash)
    ensures r.None? ==> forall i :: 0 <= i < |rows| ==> !Matches(rows[i], hash)
  {
    if rows == [] then None
    else if Matches(rows[0], hash) then Some(rows[0])
    else FirstMatch(rows[1..], hash)
  }

  /** The UNIQUE constraint on token hashes. */
  ghost predicate OneRowPerHash(rows: seq<Session>) { forall i, j :: 0 <= i < j < |rows| ==> rows[i].hash != rows[j].hash }

  predicate Taken(rows: seq<Session>, id: string, hash: string) {
    exists i :: 0 <= i < |rows| && (rows[i].id == id || rows[i].hash == hash)
  }

  /** The rows of the hash are revoked, and no other row has changed. */
  ghost predicate HashRevoked(before: seq<Session>, after: seq<Session>, hash: string) {
    |after| == |before| &&
    forall i :: 0 <= i < |after| ==> after[i] == if before[i].hash == hash then before[i].(revoked := true) else before[i]
  }

  /** The session is the first one changed, as it was; without one nothing changed. */
  ghost predicate FirstChanged(before: seq<Session>, after: seq<Session>, x: Option<Session>)
    requires |after| == |before|
  {
    if x.None? then after == before
    else exists i :: 0 <= i < |before| && before[i] == x.value && after[i] != before[i] && forall j :: 0 <= j < i ==> after[j] == before[j]
  }

  /** At most one row changed. */
  ghost predicate OneChanged(before: seq<Session>, after: seq<Session>)
    requires |after| == |before|
  { forall i, j :: 0 <= i < j < |before| ==> after[i] == before[i] || after[j] == before[j] }

  lemma {:induction false} FirstMatchAt(rows: seq<Session>, hash: string) returns (i: nat)
    requires FirstMatch(rows, hash).Some?
    ensures i < |rows| && FirstMatch(rows, hash) == Some(rows[i]) && Matches(rows[i], hash) && forall j :: 0 <= j < i ==> !Matches(rows[j], hash)
  {
    if Matches(rows[0], hash) {
      i := 0;
    } else {
      var k := FirstMatchAt(rows[1..], hash);
      i := k + 1;
      forall j | 0 <= j < i ensures !Matches(rows[j], hash) { if j > 0 { assert rows[1..][j - 1] == rows[j]; } }
    }
  }

  lemma RevocationMeans(rows: seq<Session>, hash: string)
    ensures var r := RevokeRows(rows, hash);
      HashRevoked(rows, r, hash) && FirstChanged(rows, r, FirstMatch(rows, hash))
      && (OneRowPerHash(rows) ==> OneRowPerHash(r) && OneChanged(rows, r))
  {
    hide FirstMatch;
    if FirstMatch(rows, hash).Some? { var i := FirstMatchAt(rows, hash); }
  }

  /** Those facts fix both the rows and the answer. */
  lemma RevocationIs(before: seq<Session>, after: seq<Session>, hash: string, x: Option<Session>)
    requires HashRevoked(before, after, hash) && FirstChanged(before, after, x)
    ensures after == RevokeRows(before, hash) && x == FirstMatch(before, hash)
  {
    hide FirstMatch;
    assert after == RevokeRows(before, hash);
    if FirstMatch(before, hash).Some? { var i := FirstMatchAt(before, hash); assert after[i] != before[i]; }
  }

  /** Some session with this token hash is neither revoked nor expired. */
  predicate Live(rows: seq<Session>, hash: string, now: int) {
    exists i :: 0 <= i < |rows| && Matches(rows[i], hash) && now < rows[i].claims.issued + TOKEN_TTL_MS
  }

  /** A token is good for thirty days, to the millisecond, from its issue, unless its session was revoked. */
  lemma LiveExactly(rows: seq<Session>, hash: string, now: int)
    ensures Live(rows, hash, now) <==>
      exists r :: r in rows && r.hash == hash && !r.revoked && now - r.claims.issued < 2_592_000_000
  {
    if Live(rows, hash, now) {
      var i :| 0 <= i < |rows| && Matches(rows[i], hash) && now < rows[i].claims.issued + TOKEN_TTL_MS;
      assert rows[i] in rows;
    }
  }

  /** The table, changed by single statements. */
  class SessionTable {
    var rows: seq<Session>

    constructor ()
      ensures rows == []
    { rows := []; }

    /** `createDeviceSession`: false is a violated key or UNIQUE constraint. */
    method Create(id: string, claims: Claims, hash: string, from: Option<string>) returns (done: bool)
      modifies this
      ensures done <==> !Taken(old(rows), id, hash)
      ensures rows == old(rows) + if done then [Session(id, claims, hash, from, false)] else []
      ensures OneRowPerHash(old(rows)) ==> OneRowPerHash(rows)
    {
      done := !Taken(rows, id, hash);
      if done { rows := rows + [Session(id, claims, hash, from, false)]; }
    }

    /** `revokeDeviceSessionByToken`: afterwards no row of the token hash is live and no other row has
        changed; the hash is unique, so at most one row changed, and it is the one returned, as it
        was; none is returned exactly when nothing changed. */
    method RevokeByToken(hash: string) returns (revoked: Option<Session>)
      modifies this
      ensures HashRevoked(old(rows), rows, hash)
      ensures FirstChanged(old(rows), rows, revoked)
      ensures OneRowPerHash(old(rows)) ==> OneRowPerHash(rows) && OneChanged(old(rows), rows)
    {
      RevocationMeans(rows, hash);
      revoked := FirstMatch(rows, hash);
      rows := RevokeRows(rows, hash);
    }

    /** `deviceSessionActive`. */
    method Active(hash: string, now: int) returns (active: bool)
      ensures active <==> Live(rows, hash, now)
    {
      active := exists i :: 0 <= i < |rows| && Matches(rows[i], hash) && now < rows[i].claims.issued + TOKEN_TTL_MS;
    }
  }

  // ---- the protocol ----

  /** A rotate request between its awaits: authenticated, or holding the session it revoked. */
  datatype Request = Admitted(claims: Claims) | Holding(claims: Claims, from: string, family: string)

  datatype State = State(rows: seq<Session>, requests: map<nat, Request>)

  datatype Event =
    | Enroll(id: string, claims: Claims)
    | Arrive(rid: nat, claims: Claims, now: int)
    | Revoke(rid: nat)
    | Insert(rid: nat, id: string, now: int)
    | Abandon(rid: nat)

  predicate Fresh(s: State, id: string, family: string) {
    forall i :: 0 <= i < |s.rows| ==> s.rows[i].id != id && s.rows[i].claims.family != family
  }

  predicate FreshId(s: State, id: string) { forall i :: 0 <= i < |s.rows| ==> s.rows[i].id != id }

  /** The claims of the token a rotation signs. */
  function Renewed(c: Claims, family: string, now: int): Claims { c.(family := family, issued := now) }

  /** One atomic step. Session and family ids are freshly generated; an event that is not
      enabled changes nothing. */
  function Step(fp: Fingerprint, s: State, e: Event): State {
    match e
    case Enroll(id, claims) =>
      if Fresh(s, id, claims.family) && !Taken(s.rows, id, fp(claims))
      then s.(rows := s.rows + [Session(id, claims, fp(claims), None, false)]) else s
    case Arrive(rid, claims, now) =>
      if rid !in s.requests && Live(s.rows, fp(claims), now) then s.(requests := s.requests[rid := Admitted(claims)]) else s
    case Revoke(rid) =>
      if rid !in s.requests || !s.requests[rid].Admitted? then s
      else
        var c := s.requests[rid].claims;
        var found := FirstMatch(s.rows, fp(c));
        State(RevokeRows(s.rows, fp(c)),
              if found.None? then s.requests - {rid}
              else s.requests[rid := Holding(c, found.value.id, found.value.claims.family)])
    case Insert(rid, id, now) =>
      if rid !in s.requests || !s.requests[rid].Holding? || !FreshId(s, id) then s
      else
        var q := s.requests[rid];
        var claims := Renewed(q.claims, q.family, now);
        State(if Taken(s.rows, id, fp(claims)) then s.rows
              else s.rows + [Session(id, claims, fp(claims), Some(q.from), false)],
              s.requests - {rid})
    case Abandon(rid) => s.(requests := s.requests - {rid})
  }

  function Run(fp: Fingerprint, es: seq<Event>): State {
    if es == [] then State([], map[]) else Step(fp, Run(fp, es[..|es| - 1]), es[|es| - 1])
  }

  // ---- what every reachable state keeps ----

  predicate Kin(a: Session, b: Session) { a.claims.family == b.claims.family }

  /** Row i is the newest of its family. */
  ghost predicate Newest(rows: seq<Session>, i: nat) {
    i < |rows| && forall k :: i < k < |rows| ==> !Kin(rows[i], rows[k])
  }

  /** Row i comes right before row j in their family. */
  ghost predicate Precedes(rows: seq<Session>, i: nat, j: nat) {
    i < j < |rows| && Kin(rows[i], rows[j]) && forall k :: i < k < j ==> !Kin(rows[k], rows[j])
  }

  ghost predicate FirstOfFamily(rows: seq<Session>, j: nat)
    requires j < |rows|
  { forall k :: 0 <= k < j ==> !Kin(rows[k], rows[j]) }

  /** The link column: nothing for a family's first row, the row right before for all others. */
  ghost predicate LinkOk(rows: seq<Session>, j: nat)
    requires j < |rows|
  {
    if rows[j].rotatedFrom.None? then FirstOfFamily(rows, j)
    else exists i: nat :: Precedes(rows, i, j) && rows[i].id == rows[j].rotatedFrom.value
  }

  predicate SameHolder(c: Claims, d: Claims) { c.(issued := 0) == d.(issued := 0) }

  ghost predicate Distinct(rows: seq<Session>) {
    forall i, j :: 0 <= i < j < |rows| ==> rows[i].id != rows[j].id && rows[i].hash != rows[j].hash
  }

  /** All but the newest row of a family are revoked, and a family has one holder. */
  ghost predicate Families(rows: seq<Session>) {
    forall i, j :: 0 <= i < j < |rows| && Kin(rows[i], rows[j]) ==>
      rows[i].revoked && SameHolder(rows[i].claims, rows[j].claims)
  }

  ghost predicate Rows(fp: Fingerprint, rows: seq<Session>) {
    && Distinct(rows) && Families(rows)
    && (forall i :: 0 <= i < |rows| ==> rows[i].hash == fp(rows[i].claims))
    && (forall j: nat :: j < |rows| ==> LinkOk(rows, j))
  }

  ghost predicate IsHeld(rows: seq<Session>, q: Request, i: nat)
    requires q.Holding?
  { Newest(rows, i) && rows[i].id == q.from && rows[i].claims == q.claims && rows[i].revoked }

  /** A request between revoke and insert holds its family's newest row, now revoked. */
  ghost predicate Holds(rows: seq<Session>, q: Request) {
    q.Holding? ==> q.family == q.claims.family && exists i: nat :: IsHeld(rows, q, i)
  }

  predicate Apart(p: Request, q: Request) { p.Holding? && q.Holding? ==> p.family != q.family }

  ghost predicate Requests(s: State) {
    && (forall r :: r in s.requests ==> Holds(s.rows, s.requests[r]))
    && (forall r, t :: r in s.requests && t in s.requests && r != t ==> Apart(s.requests[r], s.requests[t]))
  }

  ghost predicate Inv(fp: Fingerprint, s: State) { Rows(fp, s.rows) && Requests(s) }

  lemma NewestIsOne(rows: seq<Session>, i: nat, j: nat)
    requires Newest(rows, i) && Newest(rows, j) && Kin(rows[i], rows[j])
    ensures i == j
  {
  }

  /** What lets a row join the table. */
  ghost predicate Joins(fp: Fingerprint, rows: seq<Session>, x: Session, i: nat) {
    && !Taken(rows, x.id, x.hash) && x.hash == fp(x.claims)
    && (if x.rotatedFrom.None? then forall k :: 0 <= k < |rows| ==> !Kin(rows[k], x)
        else Newest(rows, i) && rows[i].revoked && Kin(rows[i], x) && SameHolder(rows[i].claims, x.claims)
             && x.rotatedFrom.value == rows[i].id)
  }

  lemma JoinedLinks(fp: Fingerprint, rows: seq<Session>, x: Session, i: nat, j: nat)
    requires Rows(fp, rows) && Joins(fp, rows, x, i) && j <= |rows|
    ensures LinkOk(rows + [x], j)
  {
    var r := rows + [x];
    if j < |rows| {
      assert LinkOk(rows, j) && r[j] == rows[j];
      if rows[j].rotatedFrom.Some? {
        var k: nat :| Precedes(rows, k, j) && rows[k].id == rows[j].rotatedFrom.value;
        assert Precedes(r, k, j);
      }
    } else if x.rotatedFrom.Some? {
      forall k | i < k < |rows| ensures !Kin(r[k], x) { assert !Kin(rows[i], rows[k]); }
      assert Precedes(r, i, j);
    }
  }

  lemma JoinedRows(fp: Fingerprint, rows: seq<Session>, x: Session, i: nat)
    requires Rows(fp, rows) && Joins(fp, rows, x, i)
    ensures Rows(fp, rows + [x])
  {
    var r := rows + [x];
    forall j: nat | j < |r| ensures LinkOk(r, j) { JoinedLinks(fp, rows, x, i, j); }
    hide LinkOk;
    assert forall a, b :: 0 <= a < b < |rows| ==> r[a] == rows[a] && r[b] == rows[b];
    forall a | 0 <= a < |rows| && Kin(rows[a], x) ensures rows[a].revoked && SameHolder(rows[a].claims, x.claims) {
      assert a <= i;
      if a < i { assert Kin(rows[a], rows[i]); }
    }
  }

  lemma JoinedHolds(rows: seq<Session>, x: Session, q: Request)
    requires Holds(rows, q) && (q.Holding? ==> q.family != x.claims.family)
    ensures Holds(rows + [x], q)
  {
    if q.Holding? {
      var i: nat :| IsHeld(rows, q, i);
      assert IsHeld(rows + [x], q, i);
    }
  }

  lemma RevokedLink(rows: seq<Session>, hash: string, j: nat)
    requires j < |rows| && LinkOk(rows, j)
    ensures LinkOk(RevokeRows(rows, hash), j)
  {
    var r := RevokeRows(rows, hash);
    if rows[j].rotatedFrom.Some? {
      var i: nat :| Precedes(rows, i, j) && rows[i].id == rows[j].rotatedFrom.value;
      assert Precedes(r, i, j);
    }
  }

  lemma RevokedRows(fp: Fingerprint, rows: seq<Session>, hash: string)
    requires Rows(fp, rows)
    ensures Rows(fp, RevokeRows(rows, hash))
  {
    hide LinkOk;
    forall j: nat | j < |rows| ensures LinkOk(RevokeRows(rows, hash), j) { RevokedLink(rows, hash, j); }
  }

  lemma RevokedHolds(rows: seq<Session>, hash: string, q: Request)
    requires Holds(rows, q)
    ensures Holds(RevokeRows(rows, hash), q)
  {
    if q.Holding? {
      var i: nat :| IsHeld(rows, q, i);
      assert IsHeld(RevokeRows(rows, hash), q, i);
    }
  }

  /** The session a revoke returns was its family's newest and nobody held it. */
  lemma FoundIsNewest(fp: Fingerprint, rows: seq<Session>, c: Claims) returns (i: nat)
    requires Injective(fp) && Rows(fp, rows) && FirstMatch(rows, fp(c)).Some?
    ensures Newest(rows, i) && rows[i] == FirstMatch(rows, fp(c)).value && rows[i].claims == c && !rows[i].revoked
  {
    var found := FirstMatch(rows, fp(c)).value;
    i :| 0 <= i < |rows| && rows[i] == found;
    forall k | i < k < |rows| ensures !Kin(rows[i], rows[k]) { }
  }

  lemma StepKeeps(fp: Fingerprint, s: State, e: Event)
    requires Injective(fp) && Inv(fp, s)
    ensures Inv(fp, Step(fp, s, e))
  {
    hide Rows, Holds, Taken;
    var t := Step(fp, s, e);
    match e
    case Enroll(id, claims) =>
      var x := Session(id, claims, fp(claims), None, false);
      if t != s {
        JoinedRows(fp, s.rows, x, 0);
        forall r | r in s.requests ensures Holds(t.rows, s.requests[r]) {
          if s.requests[r].Holding? { HeldFamily(s.rows, s.requests[r]); }
          JoinedHolds(s.rows, x, s.requests[r]);
        }
      }
    case Arrive(rid, claims, now) =>
      AdmittedHolds(s.rows, claims);
    case Revoke(rid) =>
      if t != s { RevokeKeeps(fp, s, rid); }
    case Insert(rid, id, now) =>
      if t != s { InsertKeeps(fp, s, rid, id, now); }
    case Abandon(rid) =>
  }

  lemma AdmittedHolds(rows: seq<Session>, c: Claims)
    ensures Holds(rows, Admitted(c))
  {
  }

  lemma HeldFamily(rows: seq<Session>, q: Request)
    requires Holds(rows, q) && q.Holding?
    ensures exists i :: 0 <= i < |rows| && rows[i].claims.family == q.family
  {
    var i: nat :| IsHeld(rows, q, i);
    assert rows[i].claims.family == q.family;
  }

  lemma RevokeKeeps(fp: Fingerprint, s: State, rid: nat)
    requires Injective(fp) && Inv(fp, s) && rid in s.requests && s.requests[rid].Admitted?
    ensures Inv(fp, Step(fp, s, Revoke(rid)))
  {
    var c := s.requests[rid].claims;
    var t := Step(fp, s, Revoke(rid));
    RevokedRows(fp, s.rows, fp(c));
    forall r | r in s.requests ensures Holds(t.rows, s.requests[r]) { RevokedHolds(s.rows, fp(c), s.requests[r]); }
    if FirstMatch(s.rows, fp(c)).Some? {
      var i := FoundIsNewest(fp, s.rows, c);
      hide Rows;
      assert IsHeld(t.rows, t.requests[rid], i);
      forall r | r in s.requests && r != rid ensures Apart(s.requests[r], t.requests[rid]) {
        var q := s.requests[r];
        if q.Holding? && q.family == c.family {
          var j: nat :| IsHeld(s.rows, q, j);
          NewestIsOne(s.rows, i, j);
        }
      }
    }
  }

  lemma InsertKeeps(fp: Fingerprint, s: State, rid: nat, id: string, now: int)
    requires Inv(fp, s) && rid in s.requests && s.requests[rid].Holding?
    ensures Inv(fp, Step(fp, s, Insert(rid, id, now)))
  {
    var q := s.requests[rid];
    var claims := Renewed(q.claims, q.family, now);
    var x := Session(id, claims, fp(claims), Some(q.from), false);
    assert Holds(s.rows, q);
    var i: nat :| IsHeld(s.rows, q, i);
    hide Rows, Holds, Taken;
    if FreshId(s, id) && !Taken(s.rows, id, x.hash) {
      JoinedRows(fp, s.rows, x, i);
      forall r | r in s.requests && r != rid ensures Holds(s.rows + [x], s.requests[r]) {
        assert Apart(s.requests[r], q);
        JoinedHolds(s.rows, x, s.requests[r]);
      }
    }
  }

  lemma {:induction false} ReachableKeeps(fp: Fingerprint, es: seq<Event>)
    requires Injective(fp)
    ensures Inv(fp, Run(fp, es))
  {
    hide Step, Injective;
    if es != [] {
      ReachableKeeps(fp, es[..|es| - 1]);
      StepKeeps(fp, Run(fp, es[..|es| - 1]), es[|es| - 1]);
    }
  }

  // ---- the promises ----

  /** Whatever the interleaving, a token family has at most one unrevoked session, and none
      while a rotation of it stands between its revoke and its insert. */
  lemma AtMostOneLiveSession(fp: Fingerprint, es: seq<Event>, i: nat, j: nat)
    requires Injective(fp) && i < |Run(fp, es).rows| && j < |Run(fp, es).rows|
    requires Kin(Run(fp, es).rows[i], Run(fp, es).rows[j])
    ensures var s := Run(fp, es);
      && (!s.rows[i].revoked && !s.rows[j].revoked ==> i == j)
      && forall r :: r in s.requests && s.requests[r].Holding? && s.requests[r].family == s.rows[i].claims.family ==> s.rows[i].revoked
  {
    hide Step, Run;
    ReachableKeeps(fp, es);
    var s := Run(fp, es);
    forall r | r in s.requests && s.requests[r].Holding? && s.requests[r].family == s.rows[i].claims.family
      ensures s.rows[i].revoked
    {
      assert Holds(s.rows, s.requests[r]);
      var k: nat :| IsHeld(s.rows, s.requests[r], k);
      assert i <= k;
    }
  }

  /** The rotated-from links of a family form one unbranched chain: the first row has none, every
      other row links to the row right before it, and no two rows link to the same one. */
  lemma RotationChain(fp: Fingerprint, es: seq<Event>, j: nat)
    requires Injective(fp) && j < |Run(fp, es).rows|
    ensures var rows := Run(fp, es).rows;
      && LinkOk(rows, j)
      && (rows[j].rotatedFrom.Some? ==> forall k: nat :: k < |rows| && rows[k].rotatedFrom == rows[j].rotatedFrom ==> k == j)
  {
    hide Step, Run;
    ReachableKeeps(fp, es);
    var rows := Run(fp, es).rows;
    assert LinkOk(rows, j);
    if rows[j].rotatedFrom.Some? {
      forall k: nat | k < |rows| && rows[k].rotatedFrom == rows[j].rotatedFrom ensures k == j {
        assert LinkOk(rows, k);
        SameLink(rows, j, k);
      }
    }
  }

  lemma SameLink(rows: seq<Session>, j: nat, k: nat)
    requires Distinct(rows) && j < |rows| && k < |rows| && LinkOk(rows, j) && LinkOk(rows, k)
    requires rows[j].rotatedFrom.Some? && rows[k].rotatedFrom == rows[j].rotatedFrom
    ensures j == k
  {
    var a: nat :| Precedes(rows, a, j) && rows[a].id == rows[j].rotatedFrom.value;
    var b: nat :| Precedes(rows, b, k) && rows[b].id == rows[k].rotatedFrom.value;
    assert a == b;
  }

  ghost predicate HasLive(rows: seq<Session>, family: string) {
    exists i :: 0 <= i < |rows| && rows[i].claims.family == family && !rows[i].revoked
  }

  /** A known family with no unrevoked session and no rotation under way. */
  ghost predicate Dead(s: State, family: string) {
    && (exists i :: 0 <= i < |s.rows| && s.rows[i].claims.family == family)
    && !HasLive(s.rows, family)
    && (forall r :: r in s.requests && s.requests[r].Holding? ==> s.requests[r].family != family)
  }

  /** The insert that ends a rotation leaves the family a live session exactly when no session of
      the family was issued in that very millisecond: the claims, hence the token and its hash,
      would be the same, and the hash column is unique. */
  lemma RotationSucceedsExactly(fp: Fingerprint, es: seq<Event>, rid: nat, id: string, now: int)
    requires Injective(fp) && rid in Run(fp, es).requests && Run(fp, es).requests[rid].Holding? && FreshId(Run(fp, es), id)
    ensures var s := Run(fp, es); var family := s.requests[rid].family; var t := Step(fp, s, Insert(rid, id, now));
      && (HasLive(t.rows, family) <==>
          forall i :: 0 <= i < |s.rows| && s.rows[i].claims.family == family ==> s.rows[i].claims.issued != now)
      && (!HasLive(t.rows, family) ==> Dead(t, family))
  {
    ReachableKeeps(fp, es);
    var s := Run(fp, es);
    hide Run;
    var q := s.requests[rid];
    var claims := Renewed(q.claims, q.family, now);
    assert Holds(s.rows, q);
    var h: nat :| IsHeld(s.rows, q, h);
    SameInstantTaken(fp, s.rows, h, id, now);
    var t := Step(fp, s, Insert(rid, id, now));
    NoneLive(fp, s.rows, h);
    if Taken(s.rows, id, fp(claims)) {
      forall r | r in t.requests && t.requests[r].Holding? ensures t.requests[r].family != q.family {
        assert Apart(s.requests[r], q);
      }
      assert t.rows[h].claims.family == q.family;
    } else {
      assert !t.rows[|s.rows|].revoked && t.rows[|s.rows|].claims.family == q.family;
    }
  }

  lemma NoneLive(fp: Fingerprint, rows: seq<Session>, h: nat)
    requires Rows(fp, rows) && Newest(rows, h) && rows[h].revoked
    ensures !HasLive(rows, rows[h].claims.family)
  {
    hide LinkOk;
    forall i | 0 <= i < |rows| && rows[i].claims.family == rows[h].claims.family ensures rows[i].revoked {
      if i < h { assert Kin(rows[i], rows[h]); }
    }
  }

  lemma SameInstantTaken(fp: Fingerprint, rows: seq<Session>, h: nat, id: string, now: int)
    requires Injective(fp) && Rows(fp, rows) && h < |rows| && forall i :: 0 <= i < |rows| ==> rows[i].id != id
    ensures var c := rows[h].claims;
      Taken(rows, id, fp(Renewed(c, c.family, now))) <==>
      exists i :: 0 <= i < |rows| && rows[i].claims.family == c.family && rows[i].claims.issued == now
  {
    hide LinkOk;
    var c := rows[h].claims;
    if i :| 0 <= i < |rows| && rows[i].claims.family == c.family && rows[i].claims.issued == now {
      assert i < h ==> Kin(rows[i], rows[h]);
      assert h < i ==> Kin(rows[h], rows[i]);
      assert SameHolder(rows[i].claims, c);
      assert rows[i].claims == Renewed(c, c.family, now);
    }
  }

  /** Nothing live appears in the family when rows are only revoked or added to other families. */
  lemma DeadCarries(s: State, t: State, family: string)
    requires Dead(s, family) && |s.rows| <= |t.rows|
    requires forall i :: 0 <= i < |s.rows| ==> t.rows[i].claims == s.rows[i].claims && (s.rows[i].revoked ==> t.rows[i].revoked)
    requires forall i :: |s.rows| <= i < |t.rows| ==> t.rows[i].claims.family != family
    requires forall r :: r in t.requests && t.requests[r].Holding? ==> t.requests[r].family != family
    ensures Dead(t, family)
  {
    var k :| 0 <= k < |s.rows| && s.rows[k].claims.family == family;
    assert t.rows[k].claims.family == family;
  }

  lemma DeadRevoke(fp: Fingerprint, s: State, rid: nat, family: string)
    requires Injective(fp) && Inv(fp, s) && Dead(s, family) && rid in s.requests && s.requests[rid].Admitted?
    ensures Dead(Step(fp, s, Revoke(rid)), family)
  {
    hide Rows, Requests, Injective;
    var c := s.requests[rid].claims;
    if FirstMatch(s.rows, fp(c)).Some? { var i := FoundIsNewest(fp, s.rows, c); }
    DeadCarries(s, Step(fp, s, Revoke(rid)), family);
  }

  lemma DeadStep(fp: Fingerprint, s: State, e: Event, family: string)
    requires Injective(fp) && Inv(fp, s) && Dead(s, family)
    ensures Dead(Step(fp, s, e), family)
  {
    var t := Step(fp, s, e);
    if t != s {
      if e.Revoke? {
        DeadRevoke(fp, s, e.rid, family);
      } else {
        hide Inv, Injective, Taken;
        DeadCarries(s, t, family);
      }
    }
  }

  /** A family that lost its session (a rotation abandoned after its revoke, or an insert in the
      same millisecond) never gets one back: only a new enrolment helps. */
  lemma {:induction false} DeadFamilyStaysDead(fp: Fingerprint, es: seq<Event>, more: seq<Event>, family: string)
    requires Injective(fp) && Dead(Run(fp, es), family)
    ensures Dead(Run(fp, es + more), family)
  {
    hide Step, Injective, Dead;
    if more == [] {
      assert es + more == es;
    } else {
      var past := more[..|more| - 1];
      DeadFamilyStaysDead(fp, es, past, family);
      assert (es + more)[..|es + more| - 1] == es + past;
      ReachableKeeps(fp, es + past);
      DeadStep(fp, Run(fp, es + past), more[|more| - 1], family);
    }
  }

  // ---- the handlers, run without interleaving ----

  datatype Reply = Unauthorized | Conflict | ServerError | Issued(claims: Claims)

  /** A live row of the token was revoked, and behind all rows stands the new session: the same holder
      and device, in the family of that row, issued now, linked to that row. */
  ghost predicate RotatedFrom(fp: Fingerprint, before: seq<Session>, after: seq<Session>, claims: Claims, to: Claims, id: string, now: int, i: nat) {
    && i < |before| && |after| == |before| + 1
    && Matches(before[i], fp(claims)) && after[i] == before[i].(revoked := true)
    && to == Claims(claims.organization, claims.user, claims.role, claims.device, before[i].claims.family, now)
    && after[|before|] == Session(id, to, fp(to), Some(before[i].id), false)
  }

  /** The rotate handler: authenticate, revoke, sign, insert. */
  method Rotate(fp: Fingerprint, table: SessionTable, claims: Claims, id: string, now: int) returns (reply: Reply)
    requires forall i :: 0 <= i < |table.rows| ==> table.rows[i].id != id
    modifies table
    ensures var s := State(old(table.rows), map[]);
      table.rows == Step(fp, Step(fp, Step(fp, s, Arrive(0, claims, now)), Revoke(0)), Insert(0, id, now)).rows
    ensures reply.Unauthorized? <==> !Live(old(table.rows), fp(claims), now)
    ensures reply.Issued? <==> |table.rows| == |old(table.rows)| + 1
    ensures reply.Issued? ==> exists i: nat :: RotatedFrom(fp, old(table.rows), table.rows, claims, reply.claims, id, now, i)
    ensures !reply.Conflict?
  {
    var admitted := table.Active(fp(claims), now);
    if !admitted { return Unauthorized; }
    var revoked := table.RevokeByToken(fp(claims));
    RevocationIs(old(table.rows), table.rows, fp(claims), revoked);
    if revoked.None? { return Conflict; }
    ghost var at := FirstMatchAt(old(table.rows), fp(claims));
    var renewed := Renewed(claims, revoked.value.claims.family, now);
    var done := table.Create(id, renewed, fp(renewed), Some(revoked.value.id));
    if !done { return ServerError; }
    assert RotatedFrom(fp, old(table.rows), table.rows, claims, renewed, id, now, at);
    return Issued(renewed);
  }

  /** The enroll handler: sign for a new family, insert. */
  method EnrollDevice(fp: Fingerprint, table: SessionTable, claims: Claims, id: string) returns (reply: Reply)
    requires Fresh(State(table.rows, map[]), id, claims.family)
    modifies table
    ensures table.rows == Step(fp, State(old(table.rows), map[]), Enroll(id, claims)).rows
    ensures reply == if Taken(old(table.rows), id, fp(claims)) then ServerError else Issued(claims)
  {
    var done := table.Create(id, claims, fp(claims), None);
    return if done then Issued(claims) else ServerError;
  }
}
