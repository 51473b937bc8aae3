/** The reconciliation loop: query, match, propose, apply and verify on a mutable account world. */
module Reconciliation {
  import opened Text

  datatype Field = Owner | EmployeeCount | Website | Segment

  const COMPARED_FIELDS := [Owner, EmployeeCount, Website, Segment]

  function FieldName(f: Field): string {
    match f case Owner => "owner" case EmployeeCount => "employee_count" case Website => "website" case Segment => "segment"
  }

  /** `isSfWritableField`, returning the column it names. */
  function Writable(name: string): (f: Option<Field>)
    ensures f.Some? ==> FieldName(f.value) == name
    ensures forall g :: FieldName(g) == name ==> f == Some(g)
  {
    if name == "owner" then Some(Owner)
    else if name == "employee_count" then Some(EmployeeCount)
    else if name == "website" then Some(Website)
    else if name == "segment" then Some(Segment)
    else None
  }

  /** Values are held as their text: a number column holds the text of its number. */
  datatype Account = Account(id: string, name: string, domain: string, owner: string, employeeCount: string, website: string, segment: string)

  datatype Row = Row(company: string, domain: string, owner: string, employeeCount: string, website: string, segment: string)

  datatype Change = Change(accountId: string, accountName: string, field: string, oldValue: string, newValue: string)

  /** Text of a column of an account, and of a desired row. */
  function Value(a: Account, f: Field): string {
    match f case Owner => a.owner case EmployeeCount => a.employeeCount case Website => a.website case Segment => a.segment
  }

  function Desired(r: Row, f: Field): string {
    match f case Owner => r.owner case EmployeeCount => r.employeeCount case Website => r.website case Segment => r.segment
  }

  function Put(a: Account, f: Field, v: string): (b: Account)
    ensures b.id == a.id && b.name == a.name && b.domain == a.domain
    ensures forall g :: Value(b, g) == if g == f then v else Value(a, g)
  {
    match f
    case Owner => a.(owner := v) case EmployeeCount => a.(employeeCount := v)
    case Website => a.(website := v) case Segment => a.(segment := v)
  }

  /** What lies outside: domain normalisation, and String(Number(s)). */
  datatype Rules = Rules(norm: string -> string, numeral: string -> string)

  // ---- matching ----

  datatype Matched = Matched(row: Row, account: Account)

  datatype MatchResult = MatchResult(matches: seq<Matched>, ambiguous: seq<Row>, missing: seq<Row>)

  function Candidates(u: Rules, accounts: seq<Account>, domain: string): (c: seq<Account>)
    ensures forall a :: a in c <==> a in accounts && u.norm(a.domain) == domain
  {
    if accounts == [] then []
    else
      var (front, last) := (accounts[..|accounts| - 1], accounts[|accounts| - 1]);
      assert accounts == front + [last];
      Candidates(u, front, domain) + if u.norm(last.domain) == domain then [last] else []
  }

  datatype Verdict = Missing | Ambiguous | Confident(account: Account)

  /** No account, several accounts, an account of another name, or the one account of that name. */
  function Judge(u: Rules, accounts: seq<Account>, r: Row): Verdict {
    var c := Candidates(u, accounts, u.norm(r.domain));
    if |c| == 0 then Missing
    else if |c| > 1 || c[0].name != r.company then Ambiguous
    else Confident(c[0])
  }

  function Matches(u: Rules, accounts: seq<Account>, rows: seq<Row>): MatchResult {
    if rows == [] then MatchResult([], [], [])
    else
      var (m, r) := (Matches(u, accounts, rows[..|rows| - 1]), rows[|rows| - 1]);
      match Judge(u, accounts, r)
      case Missing => m.(missing := m.missing + [r])
      case Ambiguous => m.(ambiguous := m.ambiguous + [r])
      case Confident(a) => m.(matches := m.matches + [Matched(r, a)])
  }

  /** `matchAccounts`. */
  method MatchAccounts(u: Rules, rows: seq<Row>, accounts: seq<Account>) returns (m: MatchResult)
    ensures m == Matches(u, accounts, rows)
  {
    m := MatchResult([], [], []);
    var i := 0;
    while i < |rows|
      invariant i <= |rows| && m == Matches(u, accounts, rows[..i])
    {
      assert rows[..i + 1][..i] == rows[..i];
      var row := rows[i];
      var candidates := Candidates(u, accounts, u.norm(row.domain));
      if |candidates| == 0 {
        m := m.(missing := m.missing + [row]);
      } else if |candidates| > 1 {
        m := m.(ambiguous := m.ambiguous + [row]);
      } else if candidates[0].name != row.company {
        m := m.(ambiguous := m.ambiguous + [row]);
      } else {
        m := m.(matches := m.matches + [Matched(row, candidates[0])]);
      }
      i := i + 1;
    }
    assert rows[..|rows|] == rows;
  }

  /** Every row is classified once: the summary's row count is the number of rows. */
  lemma {:induction false} RowsPartitioned(u: Rules, accounts: seq<Account>, rows: seq<Row>)
    ensures var m := Matches(u, accounts, rows);
      multiset(rows) == multiset(m.ambiguous) + multiset(m.missing) + multiset(MatchedRows(m.matches))
      && |rows| == |m.matches| + |m.ambiguous| + |m.missing|
  {
    hide Judge;
    if rows != [] {
      var (front, r) := (rows[..|rows| - 1], rows[|rows| - 1]);
      assert rows == front + [r];
      RowsPartitioned(u, accounts, front);
      var m := Matches(u, accounts, rows);
      if Judge(u, accounts, r).Confident? {
        assert MatchedRows(m.matches) == MatchedRows(Matches(u, accounts, front).matches) + [r];
      }
    }
  }

  function MatchedRows(ms: seq<Matched>): seq<Row> { seq(|ms|, i requires 0 <= i < |ms| => ms[i].row) }

  /** The accounts of `salesforce.query_records`: those in some row's domain. */
  function Query(u: Rules, accounts: seq<Account>, rows: seq<Row>): (q: seq<Account>) {
    if accounts == [] then []
    else
      var (front, last) := (accounts[..|accounts| - 1], accounts[|accounts| - 1]);
      Query(u, front, rows) + if exists i :: 0 <= i < |rows| && u.norm(rows[i].domain) == u.norm(last.domain) then [last] else []
  }

  // ---- the field diff ----

  datatype Summary = Summary(inputRows: nat, confidentMatches: nat, ambiguousSkipped: nat, missing: nat, changeCount: nat, accountsAffected: nat)

  datatype Diff = Diff(summary: Summary, changes: seq<Change>)

  function Difference(m: Matched, f: Field): seq<Change> {
    var (old_, new_) := (Value(m.account, f), Desired(m.row, f));
    if old_ == new_ then [] else [Change(m.account.id, m.account.name, FieldName(f), old_, new_)]
  }

  function Differences(m: Matched, n: nat): seq<Change>
    requires n <= 4
  { if n == 0 then [] else Differences(m, n - 1) + Difference(m, COMPARED_FIELDS[n - 1]) }

  function Changes(ms: seq<Matched>): seq<Change> {
    if ms == [] then [] else Changes(ms[..|ms| - 1]) + Differences(ms[|ms| - 1], 4)
  }

  function ChangedIds(cs: seq<Change>): set<string> { set i | 0 <= i < |cs| :: cs[i].accountId }

  /** `proposeFieldUpdatesFromMatches`. */
  method ProposeFieldUpdates(m: MatchResult) returns (d: Diff)
    ensures d.changes == Changes(m.matches)
    ensures d.summary == Summary(|m.matches| + |m.ambiguous| + |m.missing|, |m.matches|, |m.ambiguous|, |m.missing|,
                                 |d.changes|, |ChangedIds(d.changes)|)
  {
    hide Difference, ChangedIds;
    var changes := [];
    var i := 0;
    while i < |m.matches|
      invariant i <= |m.matches| && changes == Changes(m.matches[..i])
    {
      assert m.matches[..i + 1][..i] == m.matches[..i];
      var j := 0;
      while j < |COMPARED_FIELDS|
        invariant j <= 4 && changes == Changes(m.matches[..i]) + Differences(m.matches[i], j)
      {
        changes := changes + Difference(m.matches[i], COMPARED_FIELDS[j]);
        j := j + 1;
      }
      i := i + 1;
    }
    assert m.matches[..|m.matches|] == m.matches;
    d := Diff(Summary(|m.matches| + |m.ambiguous| + |m.missing|, |m.matches|, |m.ambiguous|, |m.missing|,
                      |changes|, |ChangedIds(changes)|), changes);
  }

  // ---- applying and verifying ----

  function IndexOf(accounts: seq<Account>, id: string): (i: nat)
    ensures i <= |accounts| && (i < |accounts| ==> accounts[i].id == id)
    ensures forall k :: 0 <= k < i ==> accounts[k].id != id
  { if accounts == [] then 0 else if accounts[0].id == id then 0 else 1 + IndexOf(accounts[1..], id) }

  /** What a column keeps of a written value. */
  function Kept(u: Rules, f: Field, v: string): string { if f.EmployeeCount? then u.numeral(v) else v }

  predicate Applies(accounts: seq<Account>, c: Change) {
    IndexOf(accounts, c.accountId) < |accounts| && Writable(c.field).Some?
  }

  function ApplyOne(u: Rules, accounts: seq<Account>, c: Change): (r: seq<Account>)
    ensures |r| == |accounts|
  {
    if !Applies(accounts, c) then accounts
    else
      var (i, f) := (IndexOf(accounts, c.accountId), Writable(c.field).value);
      accounts[i := Put(accounts[i], f, Kept(u, f, c.newValue))]
  }

  function ApplyAll(u: Rules, accounts: seq<Account>, cs: seq<Change>): (r: seq<Account>)
    ensures |r| == |accounts|
  { if cs == [] then accounts else ApplyOne(u, ApplyAll(u, accounts, cs[..|cs| - 1]), cs[|cs| - 1]) }

  function CountApplied(accounts: seq<Account>, cs: seq<Change>): (n: nat)
    ensures n <= |cs|
  {
    if cs == [] then 0
    else CountApplied(accounts, cs[..|cs| - 1]) + if Applies(accounts, cs[|cs| - 1]) then 1 else 0
  }

  predicate Confirmed(accounts: seq<Account>, c: Change) {
    Applies(accounts, c) && Value(accounts[IndexOf(accounts, c.accountId)], Writable(c.field).value) == c.newValue
  }

  function CountConfirmed(accounts: seq<Account>, cs: seq<Change>): (n: nat)
    ensures n <= |cs|
  {
    if cs == [] then 0
    else CountConfirmed(accounts, cs[..|cs| - 1]) + if Confirmed(accounts, cs[|cs| - 1]) then 1 else 0
  }

  datatype Receipt = Receipt(applied: nat, key: string)

  datatype Faults = Faults(transientFailures: int, permanentFailure: bool, rateLimited: bool)

  datatype Failure = Permanent | Transient

  datatype Outcome<T> = Done(value: T) | Failed(failure: Failure)

  /** What a call meets at the guard, and the faults left for the next one. */
  function GuardFailure(f: Faults): Option<Failure> {
    if f.permanentFailure then Some(Permanent)
    else if f.rateLimited || f.transientFailures > 0 then Some(Transient)
    else None
  }

  function FaultsAfter(f: Faults): Faults {
    if !f.permanentFailure && !f.rateLimited && f.transientFailures > 0
    then f.(transientFailures := f.transientFailures - 1) else f
  }

  class DemoSalesforceWorld {
    const u: Rules
    var accounts: seq<Account>
    var applied: map<string, Receipt>
    var requests: seq<string>
    var faults: Faults

    constructor (u: Rules, accounts: seq<Account>)
      ensures this.u == u && this.accounts == accounts && applied == map[] && requests == [] && faults == Faults(0, false, false)
    { this.u, this.accounts, applied, requests, faults := u, accounts, map[], [], Faults(0, false, false); }

    /** `guard`: records the request, then fails as configured. */
    method Guard(capability: string) returns (failure: Option<Failure>)
      modifies `requests, `faults
      ensures requests == old(requests) + [capability]
      ensures failure == GuardFailure(old(faults)) && faults == FaultsAfter(old(faults))
    {
      requests := requests + [capability];
      if faults.permanentFailure { return Some(Permanent); }
      if faults.rateLimited { return Some(Transient); }
      if faults.transientFailures > 0 {
        faults := faults.(transientFailures := faults.transientFailures - 1);
        return Some(Transient);
      }
      return None;
    }

    /** The write of `salesforce.update_fields`: each idempotency key is applied once. */
    method UpdateFields(diff: Diff, key: string) returns (r: Outcome<Receipt>)
      modifies this
      ensures requests == old(requests) + ["salesforce.update_fields"] && faults == FaultsAfter(old(faults))
      ensures (accounts, applied, r) == Updated(u, old(accounts), old(applied), GuardFailure(old(faults)), diff.changes, key)
    {
      hide Value, Put, Kept, Writable, IndexOf;
      var failure := Guard("salesforce.update_fields");
      if failure.Some? { return Failed(failure.value); }
      if key in applied { return Done(applied[key]); }
      var count := 0;
      var i := 0;
      ghost var before := accounts;
      while i < |diff.changes|
        modifies `accounts
        invariant i <= |diff.changes|
        invariant accounts == ApplyAll(u, before, diff.changes[..i]) && count == CountApplied(before, diff.changes[..i])
      {
        var change := diff.changes[i];
        assert diff.changes[..i + 1][..i] == diff.changes[..i];
        AppliesSame(u, before, diff.changes[..i], change);
        var at := IndexOf(accounts, change.accountId);
        var field := Writable(change.field);
        if at < |accounts| && field.Some? {
          accounts := accounts[at := Put(accounts[at], field.value, Kept(u, field.value, change.newValue))];
          count := count + 1;
        }
        i := i + 1;
      }
      assert diff.changes[..|diff.changes|] == diff.changes;
      applied := applied[key := Receipt(count, key)];
      return Done(Receipt(count, key));
    }

    /** The verify of `salesforce.update_fields`: an independent read of every change. */
    method VerifyUpdate(proposal: Diff, output: Receipt) returns (r: Outcome<bool>)
      modifies `requests, `faults
      ensures requests == old(requests) + ["salesforce.update_fields.verify"] && faults == FaultsAfter(old(faults))
      ensures r == match GuardFailure(old(faults))
                   case Some(f) => Failed(f)
                   case None => Done(Verified(accounts, proposal.changes, output.applied))
    {
      hide Value, Writable, IndexOf;
      var failure := Guard("salesforce.update_fields.verify");
      if failure.Some? { return Failed(failure.value); }
      var confirmed := 0;
      var i := 0;
      while i < |proposal.changes|
        invariant i <= |proposal.changes| && confirmed == CountConfirmed(accounts, proposal.changes[..i])
      {
        var change := proposal.changes[i];
        assert proposal.changes[..i + 1][..i] == proposal.changes[..i];
        var field := Writable(change.field);
        var at := IndexOf(accounts, change.accountId);
        if field.Some? && at < |accounts| && Value(accounts[at], field.value) == change.newValue { confirmed := confirmed + 1; }
        i := i + 1;
      }
      assert proposal.changes[..|proposal.changes|] == proposal.changes;
      return Done(confirmed == |proposal.changes| && output.applied == |proposal.changes|);
    }
  }

  function Updated(u: Rules, accounts: seq<Account>, applied: map<string, Receipt>, failure: Option<Failure>,
                   cs: seq<Change>, key: string): (seq<Account>, map<string, Receipt>, Outcome<Receipt>) {
    if failure.Some? then (accounts, applied, Failed(failure.value))
    else if key in applied then (accounts, applied, Done(applied[key]))
    else
      var receipt := Receipt(CountApplied(accounts, cs), key);
      (ApplyAll(u, accounts, cs), applied[key := receipt], Done(receipt))
  }

  predicate Verified(accounts: seq<Account>, cs: seq<Change>, applied: nat) {
    CountConfirmed(accounts, cs) == |cs| && applied == |cs|
  }

  // ---- what applying changes ----

  /** Same accounts up to the writable columns. */
  ghost predicate SameAccounts(a: seq<Account>, b: seq<Account>) {
    |a| == |b| && forall i :: 0 <= i < |a| ==> SameAccount(a[i], b[i])
  }

  predicate SameAccount(a: Account, b: Account) { a.id == b.id && a.name == b.name && a.domain == b.domain }

  lemma SameIndex(a: seq<Account>, b: seq<Account>, id: string)
    requires SameAccounts(a, b)
    ensures IndexOf(a, id) == IndexOf(b, id)
  {
    var (i, j) := (IndexOf(a, id), IndexOf(b, id));
    if i < |a| { assert SameAccount(a[i], b[i]); }
    if j < |b| { assert SameAccount(a[j], b[j]); }
  }

  lemma {:induction false} ApplySame(u: Rules, accounts: seq<Account>, cs: seq<Change>)
    ensures SameAccounts(accounts, ApplyAll(u, accounts, cs))
  {
    if cs != [] { ApplySame(u, accounts, cs[..|cs| - 1]); }
  }

  lemma AppliesSame(u: Rules, accounts: seq<Account>, cs: seq<Change>, c: Change)
    ensures Applies(ApplyAll(u, accounts, cs), c) == Applies(accounts, c)
  {
    ApplySame(u, accounts, cs);
    SameIndex(accounts, ApplyAll(u, accounts, cs), c.accountId);
  }

  /** Text of a column of the account an id finds. */
  function ValueAt(accounts: seq<Account>, id: string, f: Field): Option<string> {
    var i := IndexOf(accounts, id);
    if i < |accounts| then Some(Value(accounts[i], f)) else None
  }

  predicate Hits(c: Change, id: string, f: Field) { c.accountId == id && c.field == FieldName(f) }

  lemma ApplyOneValue(u: Rules, accounts: seq<Account>, c: Change, id: string, f: Field)
    ensures ValueAt(ApplyOne(u, accounts, c), id, f) ==
            if Hits(c, id, f) && ValueAt(accounts, id, f).Some? then Some(Kept(u, f, c.newValue)) else ValueAt(accounts, id, f)
  {
    hide Value, Put, FieldName;
    assert SameAccounts(accounts, ApplyOne(u, accounts, c));
    SameIndex(accounts, ApplyOne(u, accounts, c), id);
  }

  /** The last change that hits a column, or the number of changes. */
  function LastHit(cs: seq<Change>, id: string, f: Field): (k: nat)
    ensures k <= |cs| && (k < |cs| ==> Hits(cs[k], id, f))
    ensures k < |cs| ==> forall j :: k < j < |cs| ==> !Hits(cs[j], id, f)
    ensures k == |cs| ==> forall j :: 0 <= j < |cs| ==> !Hits(cs[j], id, f)
  {
    if cs == [] then 0
    else if Hits(cs[|cs| - 1], id, f) then |cs| - 1
    else
      var (front, k) := (cs[..|cs| - 1], LastHit(cs[..|cs| - 1], id, f));
      if k == |front| then |cs| else k
  }

  /** After applying, a column holds what its last change left there. */
  lemma {:induction false} AppliedValue(u: Rules, accounts: seq<Account>, cs: seq<Change>, id: string, f: Field)
    ensures var k := LastHit(cs, id, f);
      ValueAt(ApplyAll(u, accounts, cs), id, f) ==
      if k < |cs| && ValueAt(accounts, id, f).Some? then Some(Kept(u, f, cs[k].newValue)) else ValueAt(accounts, id, f)
  {
    hide ApplyOne, ValueAt, Hits, Kept;
    if cs != [] {
      var front := cs[..|cs| - 1];
      AppliedValue(u, accounts, front, id, f);
      ApplyOneValue(u, ApplyAll(u, accounts, front), cs[|cs| - 1], id, f);
    }
  }

  /** Accounts no change names are left as they were, and no account changes id, name or domain. */
  lemma {:induction false} UntouchedAccounts(u: Rules, accounts: seq<Account>, cs: seq<Change>, i: nat)
    requires i < |accounts|
    ensures SameAccount(accounts[i], ApplyAll(u, accounts, cs)[i])
    ensures (forall k :: 0 <= k < |cs| ==> cs[k].accountId != accounts[i].id) ==> ApplyAll(u, accounts, cs)[i] == accounts[i]
  {
    hide Put;
    if cs != [] { UntouchedAccounts(u, accounts, cs[..|cs| - 1], i); }
  }

  // ---- when verification succeeds ----

  lemma {:induction false} AllApplied(accounts: seq<Account>, cs: seq<Change>)
    ensures CountApplied(accounts, cs) == |cs| <==> forall k :: 0 <= k < |cs| ==> Applies(accounts, cs[k])
  {
    hide Applies;
    if cs != [] { AllApplied(accounts, cs[..|cs| - 1]); }
  }

  lemma {:induction false} AllConfirmed(accounts: seq<Account>, cs: seq<Change>)
    ensures CountConfirmed(accounts, cs) == |cs| <==> forall k :: 0 <= k < |cs| ==> Confirmed(accounts, cs[k])
  {
    hide Confirmed;
    if cs != [] { AllConfirmed(accounts, cs[..|cs| - 1]); }
  }

  /** The change reaches a writable column of a known account, which keeps its value as given. */
  predicate Lands(u: Rules, accounts: seq<Account>, c: Change) {
    Applies(accounts, c) && Kept(u, Writable(c.field).value, c.newValue) == c.newValue
  }

  predicate Clash(c: Change, d: Change) { c.accountId == d.accountId && c.field == d.field && c.newValue != d.newValue }

  ghost predicate ClashFree(cs: seq<Change>) { forall i, j :: 0 <= i < |cs| && 0 <= j < |cs| ==> !Clash(cs[i], cs[j]) }

  lemma ConfirmedIs(u: Rules, accounts: seq<Account>, cs: seq<Change>, k: nat)
    requires k < |cs| && Applies(accounts, cs[k])
    ensures var f := Writable(cs[k].field).value; var last := LastHit(cs, cs[k].accountId, f);
      k <= last < |cs|
      && (Confirmed(ApplyAll(u, accounts, cs), cs[k]) <==> Kept(u, f, cs[last].newValue) == cs[k].newValue)
  {
    var c := cs[k];
    var f := Writable(c.field).value;
    AppliedValue(u, accounts, cs, c.accountId, f);
    AppliesSame(u, accounts, cs, c);
    assert Hits(c, c.accountId, f);
  }

  /** Writing an approved diff and verifying it: success exactly when every change lands and no two
      changes give one column different values. */
  lemma VerifiesExactly(u: Rules, accounts: seq<Account>, cs: seq<Change>)
    ensures Verified(ApplyAll(u, accounts, cs), cs, CountApplied(accounts, cs)) <==>
            (forall k :: 0 <= k < |cs| ==> Lands(u, accounts, cs[k])) && ClashFree(cs)
  {
    hide ApplyAll, Kept, Confirmed;
    var after := ApplyAll(u, accounts, cs);
    AllApplied(accounts, cs);
    AllConfirmed(after, cs);
    if Verified(after, cs, CountApplied(accounts, cs)) {
      forall k | 0 <= k < |cs| ensures Lands(u, accounts, cs[k]) { LandsWhenConfirmed(u, accounts, cs, k); }
      forall i, j | 0 <= i < |cs| && 0 <= j < |cs| ensures !Clash(cs[i], cs[j]) {
        ConfirmedIs(u, accounts, cs, i);
        ConfirmedIs(u, accounts, cs, j);
      }
    }
    if (forall k :: 0 <= k < |cs| ==> Lands(u, accounts, cs[k])) && ClashFree(cs) {
      forall k | 0 <= k < |cs| ensures Confirmed(after, cs[k]) {
        ConfirmedIs(u, accounts, cs, k);
        var last := LastHit(cs, cs[k].accountId, Writable(cs[k].field).value);
        assert !Clash(cs[k], cs[last]);
      }
    }
  }

  lemma LandsWhenConfirmed(u: Rules, accounts: seq<Account>, cs: seq<Change>, k: nat)
    requires k < |cs| && forall j :: 0 <= j < |cs| ==> Applies(accounts, cs[j]) && Confirmed(ApplyAll(u, accounts, cs), cs[j])
    ensures Lands(u, accounts, cs[k])
  {
    hide ApplyAll, Kept, Confirmed;
    ConfirmedIs(u, accounts, cs, k);
    var f := Writable(cs[k].field).value;
    var last := LastHit(cs, cs[k].accountId, f);
    ConfirmedIs(u, accounts, cs, last);
    assert LastHit(cs, cs[last].accountId, Writable(cs[last].field).value) == last;
  }

  // ---- what a match means ----

  ghost predicate OnlyOne(u: Rules, accounts: seq<Account>, domain: string, i: nat) {
    && i < |accounts| && u.norm(accounts[i].domain) == domain
    && forall j :: 0 <= j < |accounts| && j != i ==> u.norm(accounts[j].domain) != domain
  }

  ghost predicate NoneIn(u: Rules, accounts: seq<Account>, domain: string) {
    forall j :: 0 <= j < |accounts| ==> u.norm(accounts[j].domain) != domain
  }

  lemma {:induction false} NoCandidateExactly(u: Rules, accounts: seq<Account>, domain: string)
    ensures Candidates(u, accounts, domain) == [] <==> NoneIn(u, accounts, domain)
  {
    if accounts != [] {
      NoCandidateExactly(u, accounts[..|accounts| - 1], domain);
      assert forall j :: 0 <= j < |accounts| - 1 ==> accounts[..|accounts| - 1][j] == accounts[j];
    }
  }

  lemma OnlyOneLast(u: Rules, accounts: seq<Account>, domain: string, i: nat)
    requires accounts != []
    ensures var (front, n) := (accounts[..|accounts| - 1], |accounts| - 1);
      OnlyOne(u, accounts, domain, i) <==>
        if u.norm(accounts[n].domain) == domain then i == n && NoneIn(u, front, domain) else OnlyOne(u, front, domain, i)
  {
    var (front, n) := (accounts[..|accounts| - 1], |accounts| - 1);
    assert forall j :: 0 <= j < n ==> front[j] == accounts[j];
    if OnlyOne(u, accounts, domain, i) && i == n {
      forall j | 0 <= j < n ensures u.norm(front[j].domain) != domain { assert u.norm(accounts[j].domain) != domain; }
    }
  }

  /** There is one candidate exactly when one account alone is in the domain, and it is that one. */
  lemma {:induction false} OneCandidateExactly(u: Rules, accounts: seq<Account>, domain: string)
    ensures |Candidates(u, accounts, domain)| == 1 <==> exists i: nat :: OnlyOne(u, accounts, domain, i)
    ensures forall i: nat :: OnlyOne(u, accounts, domain, i) ==> Candidates(u, accounts, domain) == [accounts[i]]
  {
    if accounts != [] {
      var (front, n) := (accounts[..|accounts| - 1], |accounts| - 1);
      OneCandidateExactly(u, front, domain);
      NoCandidateExactly(u, front, domain);
      forall i: nat { OnlyOneLast(u, accounts, domain, i); }
      hide NoneIn;
      if u.norm(accounts[n].domain) == domain && NoneIn(u, front, domain) { assert OnlyOne(u, accounts, domain, n); }
      if u.norm(accounts[n].domain) != domain {
        assert Candidates(u, accounts, domain) == Candidates(u, front, domain);
        if i: nat :| OnlyOne(u, front, domain, i) { assert OnlyOne(u, accounts, domain, i) && front[i] == accounts[i]; }
      }
    }
  }

  /** A row is matched to an account exactly when that account alone has the row's domain and bears
      the company's name; it is missing exactly when no account has the domain; nothing is guessed. */
  lemma MatchedExactly(u: Rules, accounts: seq<Account>, r: Row)
    ensures Judge(u, accounts, r).Missing? <==> forall j :: 0 <= j < |accounts| ==> u.norm(accounts[j].domain) != u.norm(r.domain)
    ensures Judge(u, accounts, r).Confident? <==>
            exists i: nat :: OnlyOne(u, accounts, u.norm(r.domain), i) && accounts[i].name == r.company
    ensures forall i: nat :: OnlyOne(u, accounts, u.norm(r.domain), i) && accounts[i].name == r.company ==>
              Judge(u, accounts, r) == Confident(accounts[i])
  {
    OneCandidateExactly(u, accounts, u.norm(r.domain));
    NoCandidateExactly(u, accounts, u.norm(r.domain));
    hide Candidates;
  }

  // ---- repeated writes ----

  /** Repeated calls with one key, each meeting its own fault. */
  function Retried(u: Rules, accounts: seq<Account>, applied: map<string, Receipt>, failures: seq<Option<Failure>>,
                   cs: seq<Change>, key: string): (seq<Account>, map<string, Receipt>)
  {
    if failures == [] then (accounts, applied)
    else
      var past := Retried(u, accounts, applied, failures[..|failures| - 1], cs, key);
      var r := Updated(u, past.0, past.1, failures[|failures| - 1], cs, key);
      (r.0, r.1)
  }

  /** However often a write is retried under its key, the changes are applied exactly once if any
      call got past the guard, and not at all otherwise. */
  lemma {:induction false} AppliedAtMostOnce(u: Rules, accounts: seq<Account>, applied: map<string, Receipt>,
                                             failures: seq<Option<Failure>>, cs: seq<Change>, key: string)
    requires key !in applied
    ensures Retried(u, accounts, applied, failures, cs, key) ==
            if forall i :: 0 <= i < |failures| ==> failures[i].Some? then (accounts, applied)
            else (ApplyAll(u, accounts, cs), applied[key := Receipt(CountApplied(accounts, cs), key)])
  {
    hide ApplyAll, CountApplied;
    if failures != [] {
      var front := failures[..|failures| - 1];
      AppliedAtMostOnce(u, accounts, applied, front, cs, key);
      assert failures == front + [failures[|failures| - 1]];
      assert (forall i :: 0 <= i < |failures| ==> failures[i].Some?) <==>
             (forall i :: 0 <= i < |front| ==> front[i].Some?) && failures[|failures| - 1].Some?;
    }
  }

  // ---- convergence ----

  /** Query, then match: what one run of the recipe pairs. */
  function Paired(u: Rules, accounts: seq<Account>, rows: seq<Row>): MatchResult {
    Matches(u, Query(u, accounts, rows), rows)
  }

  lemma {:induction false} QueryKeepsCandidates(u: Rules, accounts: seq<Account>, rows: seq<Row>, r: Row)
    requires r in rows
    ensures Candidates(u, Query(u, accounts, rows), u.norm(r.domain)) == Candidates(u, accounts, u.norm(r.domain))
  {
    if accounts != [] {
      var (front, last, d) := (accounts[..|accounts| - 1], accounts[|accounts| - 1], u.norm(r.domain));
      QueryKeepsCandidates(u, front, rows, r);
      var (q, asked) := (Query(u, front, rows), exists i :: 0 <= i < |rows| && u.norm(rows[i].domain) == u.norm(last.domain));
      if asked { assert (q + [last])[..|q|] == q; } else { assert q + [] == q; }
    }
  }

  lemma {:induction false} MatchedIs(u: Rules, accounts: seq<Account>, rows: seq<Row>, m: Matched)
    ensures m in Matches(u, accounts, rows).matches <==> m.row in rows && Judge(u, accounts, m.row) == Confident(m.account)
  {
    hide Judge;
    if rows != [] {
      assert rows == rows[..|rows| - 1] + [rows[|rows| - 1]];
      MatchedIs(u, accounts, rows[..|rows| - 1], m);
    }
  }

  lemma PairedIs(u: Rules, accounts: seq<Account>, rows: seq<Row>, m: Matched)
    ensures m in Paired(u, accounts, rows).matches <==> m.row in rows && Judge(u, accounts, m.row) == Confident(m.account)
  {
    hide Candidates, Matches;
    MatchedIs(u, Query(u, accounts, rows), rows, m);
    if m.row in rows { QueryKeepsCandidates(u, accounts, rows, m.row); }
  }

  lemma {:induction false} SameCandidates(u: Rules, a: seq<Account>, b: seq<Account>, domain: string)
    requires SameAccounts(a, b)
    ensures SameAccounts(Candidates(u, a, domain), Candidates(u, b, domain))
  {
    if a != [] {
      assert SameAccount(a[|a| - 1], b[|b| - 1]);
      SameCandidates(u, a[..|a| - 1], b[..|b| - 1], domain);
    }
  }

  /** Changing writable columns changes no verdict, only the account record it carries. */
  lemma SameJudgement(u: Rules, a: seq<Account>, b: seq<Account>, r: Row)
    requires SameAccounts(a, b)
    ensures Judge(u, a, r).Confident? <==> Judge(u, b, r).Confident?
    ensures Judge(u, a, r).Confident? ==> SameAccount(Judge(u, a, r).account, Judge(u, b, r).account)
    ensures Judge(u, a, r).Confident? ==> Judge(u, a, r).account in a && Judge(u, b, r).account in b
  {
    SameCandidates(u, a, b, u.norm(r.domain));
    var (c, d) := (Candidates(u, a, u.norm(r.domain)), Candidates(u, b, u.norm(r.domain)));
    hide Candidates;
    assert |c| == |d|;
    if |c| == 1 { assert SameAccount(c[0], d[0]) && c[0] in c && d[0] in d; }
  }

  ghost predicate UniqueIds(accounts: seq<Account>) { forall i, j :: 0 <= i < j < |accounts| ==> accounts[i].id != accounts[j].id }

  lemma FoundById(accounts: seq<Account>, a: Account, f: Field)
    requires UniqueIds(accounts) && a in accounts
    ensures IndexOf(accounts, a.id) < |accounts| && accounts[IndexOf(accounts, a.id)] == a
    ensures ValueAt(accounts, a.id, f) == Some(Value(a, f))
  {
    var i :| 0 <= i < |accounts| && accounts[i] == a;
  }

  predicate IsDifference(m: Matched, f: Field, c: Change) {
    Value(m.account, f) != Desired(m.row, f) && c == Change(m.account.id, m.account.name, FieldName(f), Value(m.account, f), Desired(m.row, f))
  }

  lemma DifferencesAre(m: Matched, c: Change)
    ensures c in Differences(m, 4) <==> exists f :: IsDifference(m, f, c)
  {
    assert Differences(m, 4) == Difference(m, Owner) + Difference(m, EmployeeCount) + Difference(m, Website) + Difference(m, Segment) by {
      assert Differences(m, 1) == Difference(m, Owner);
      assert Differences(m, 2) == Differences(m, 1) + Difference(m, EmployeeCount);
      assert Differences(m, 3) == Differences(m, 2) + Difference(m, Website);
    }
    hide Differences;
    forall f ensures c in Difference(m, f) <==> IsDifference(m, f, c) { }
    if c in Differences(m, 4) {
      assert c in Difference(m, Owner) || c in Difference(m, EmployeeCount) || c in Difference(m, Website) || c in Difference(m, Segment);
    }
    if f :| IsDifference(m, f, c) { assert c in Difference(m, f); }
  }

  /** The diff holds exactly the differing columns of the matched pairs. */
  lemma {:induction false} ChangesAre(ms: seq<Matched>, c: Change)
    ensures c in Changes(ms) <==> exists m, f :: m in ms && IsDifference(m, f, c)
  {
    hide Differences, IsDifference;
    if ms != [] {
      var (front, last) := (ms[..|ms| - 1], ms[|ms| - 1]);
      assert ms == front + [last];
      ChangesAre(front, c);
      DifferencesAre(last, c);
      if m, f :| m in ms && IsDifference(m, f, c) { assert m in front || m == last; }
      if m, f :| m in front && IsDifference(m, f, c) { assert m in ms; }
      if f :| IsDifference(last, f, c) { assert last in ms; }
    }
  }

  /** Rows paired with one account want the same values. */
  ghost predicate Agreeing(ms: seq<Matched>) {
    forall m, n, f :: m in ms && n in ms && m.account.id == n.account.id ==> Desired(m.row, f) == Desired(n.row, f)
  }

  ghost predicate PlainCounts(u: Rules, rows: seq<Row>) {
    forall r :: r in rows ==> u.numeral(r.employeeCount) == r.employeeCount
  }

  /** One pass of the recipe over the world: the proposed changes, and the world they leave. */
  function Proposed(u: Rules, accounts: seq<Account>, rows: seq<Row>): seq<Change> { Changes(Paired(u, accounts, rows).matches) }

  function AfterPass(u: Rules, accounts: seq<Account>, rows: seq<Row>): seq<Account> {
    ApplyAll(u, accounts, Proposed(u, accounts, rows))
  }

  lemma PairedAccount(u: Rules, accounts: seq<Account>, rows: seq<Row>, m: Matched)
    requires m in Paired(u, accounts, rows).matches
    ensures m.account in accounts && m.row in rows && u.norm(m.account.domain) == u.norm(m.row.domain)
  {
    PairedIs(u, accounts, rows, m);
    var c := Candidates(u, accounts, u.norm(m.row.domain));
    hide Candidates, Paired;
    assert c[0] in c;
  }

  /** Proposed changes name accounts, columns and values the world takes as they are. */
  lemma ProposedLand(u: Rules, accounts: seq<Account>, rows: seq<Row>, c: Change)
    requires UniqueIds(accounts) && PlainCounts(u, rows) && c in Proposed(u, accounts, rows)
    ensures Lands(u, accounts, c)
  {
    hide Paired;
    var ms := Paired(u, accounts, rows).matches;
    ChangesAre(ms, c);
    var m, f :| m in ms && IsDifference(m, f, c);
    PairedAccount(u, accounts, rows, m);
    FoundById(accounts, m.account, f);
    assert Writable(FieldName(f)) == Some(f);
  }

  /** Where the rows of an account agree on a column, the pass leaves their value there. */
  lemma AgreedValueStands(u: Rules, accounts: seq<Account>, rows: seq<Row>, m: Matched, f: Field)
    requires UniqueIds(accounts) && PlainCounts(u, rows) && m in Paired(u, accounts, rows).matches
    requires forall n :: n in Paired(u, accounts, rows).matches && n.account.id == m.account.id ==> Desired(n.row, f) == Desired(m.row, f)
    ensures ValueAt(AfterPass(u, accounts, rows), m.account.id, f) == Some(Desired(m.row, f))
  {
    hide Paired, Value, Desired, Changes;
    var (ms, cs) := (Paired(u, accounts, rows).matches, Proposed(u, accounts, rows));
    PairedAccount(u, accounts, rows, m);
    FoundById(accounts, m.account, f);
    var c := Change(m.account.id, m.account.name, FieldName(f), Value(m.account, f), Desired(m.row, f));
    ChangesAre(ms, c);
    assert Value(m.account, f) != Desired(m.row, f) ==> IsDifference(m, f, c);
    if c in cs { HitFound(cs, c, m.account.id, f); }
    AppliedValue(u, accounts, cs, m.account.id, f);
    var k := LastHit(cs, m.account.id, f);
    if k < |cs| {
      HitIsDesired(ms, cs[k], m.account.id, f);
      ProposedLand(u, accounts, rows, cs[k]);
    }
  }

  lemma HitFound(cs: seq<Change>, c: Change, id: string, f: Field)
    requires c in cs && Hits(c, id, f)
    ensures LastHit(cs, id, f) < |cs|
  {
    var j :| 0 <= j < |cs| && cs[j] == c;
    assert Hits(cs[j], id, f);
  }

  lemma HitIsDesired(ms: seq<Matched>, c: Change, id: string, f: Field)
    requires c in Changes(ms) && Hits(c, id, f)
    ensures exists n :: n in ms && n.account.id == id && Desired(n.row, f) == c.newValue
  {
    hide Changes, Value, Desired;
    ChangesAre(ms, c);
    var n, g :| n in ms && IsDifference(n, g, c);
    assert Writable(FieldName(f)) == Some(f) && Writable(FieldName(g)) == Some(g);
  }

  lemma UniqueAfter(u: Rules, accounts: seq<Account>, cs: seq<Change>)
    requires UniqueIds(accounts)
    ensures UniqueIds(ApplyAll(u, accounts, cs))
  {
    hide ApplyAll;
    ApplySame(u, accounts, cs);
    var r := ApplyAll(u, accounts, cs);
    forall i, j | 0 <= i < j < |r| ensures r[i].id != r[j].id { assert SameAccount(accounts[i], r[i]) && SameAccount(accounts[j], r[j]); }
  }

  /** The second pass pairs the same rows with the same accounts. */
  lemma PairedAgain(u: Rules, accounts: seq<Account>, rows: seq<Row>, r: Row) returns (m: Matched, n: Matched)
    requires r in rows && Judge(u, accounts, r).Confident?
    ensures m.row == n.row == r && m.account.id == n.account.id
    ensures m in Paired(u, accounts, rows).matches && n in Paired(u, AfterPass(u, accounts, rows), rows).matches
  {
    hide Judge, Paired, Proposed, ApplyAll;
    var after := AfterPass(u, accounts, rows);
    ApplySame(u, accounts, Proposed(u, accounts, rows));
    SameJudgement(u, accounts, after, r);
    m, n := Matched(r, Judge(u, accounts, r).account), Matched(r, Judge(u, after, r).account);
    PairedIs(u, accounts, rows, m);
    PairedIs(u, after, rows, n);
  }

  /** A second pass proposes nothing exactly when the rows paired with one account agree. */
  lemma SecondPassIsEmptyExactly(u: Rules, accounts: seq<Account>, rows: seq<Row>)
    requires UniqueIds(accounts) && PlainCounts(u, rows)
    ensures Proposed(u, AfterPass(u, accounts, rows), rows) == [] <==> Agreeing(Paired(u, accounts, rows).matches)
  {
    var (ms, after) := (Paired(u, accounts, rows).matches, AfterPass(u, accounts, rows));
    var again := Paired(u, after, rows).matches;
    UniqueAfter(u, accounts, Proposed(u, accounts, rows));
    hide Paired, Judge, AfterPass, Changes, UniqueIds, PlainCounts, Desired, Value;
    if Proposed(u, after, rows) == [] {
      forall m, f | m in ms ensures ValueAt(after, m.account.id, f) == Some(Desired(m.row, f)) {
        SettledValue(u, accounts, rows, m, f);
      }
    }
    if Agreeing(ms) {
      forall c ensures c !in Proposed(u, after, rows) {
        ChangesAre(again, c);
        if n, f :| n in again && IsDifference(n, f, c) { NothingLeft(u, accounts, rows, n, f); }
      }
      var p := Proposed(u, after, rows);
      if p != [] { NonemptyHas(p); }
    }
  }

  lemma NonemptyHas(cs: seq<Change>)
    requires cs != []
    ensures exists c :: c in cs
  {
    assert cs[0] in cs;
  }

  lemma SettledValue(u: Rules, accounts: seq<Account>, rows: seq<Row>, m: Matched, f: Field)
    requires UniqueIds(AfterPass(u, accounts, rows)) && Proposed(u, AfterPass(u, accounts, rows), rows) == []
    requires m in Paired(u, accounts, rows).matches
    ensures ValueAt(AfterPass(u, accounts, rows), m.account.id, f) == Some(Desired(m.row, f))
  {
    var after := AfterPass(u, accounts, rows);
    PairedIs(u, accounts, rows, m);
    hide Judge, Changes, UniqueIds, Desired, Value, AfterPass, Paired;
    var p, n := PairedAgain(u, accounts, rows, m.row);
    PairedIs(u, accounts, rows, p);
    PairedAccount(u, after, rows, n);
    FoundById(after, n.account, f);
    var c := Change(n.account.id, n.account.name, FieldName(f), Value(n.account, f), Desired(n.row, f));
    assert Value(n.account, f) != Desired(n.row, f) ==> IsDifference(n, f, c);
    ChangesAre(Paired(u, after, rows).matches, c);
  }

  lemma NothingLeft(u: Rules, accounts: seq<Account>, rows: seq<Row>, n: Matched, f: Field)
    requires UniqueIds(accounts) && PlainCounts(u, rows) && UniqueIds(AfterPass(u, accounts, rows))
    requires Agreeing(Paired(u, accounts, rows).matches) && n in Paired(u, AfterPass(u, accounts, rows), rows).matches
    ensures Value(n.account, f) == Desired(n.row, f)
  {
    var after := AfterPass(u, accounts, rows);
    PairedIs(u, after, rows, n);
    ApplySame(u, accounts, Proposed(u, accounts, rows));
    SameJudgement(u, accounts, after, n.row);
    hide Judge, Changes, UniqueIds, Desired, Value, AfterPass, Paired;
    var m, p := PairedAgain(u, accounts, rows, n.row);
    PairedIs(u, after, rows, p);
    PairedAccount(u, after, rows, n);
    FoundById(after, n.account, f);
    AgreedValueStands(u, accounts, rows, m, f);
  }

  /** Verification after one pass succeeds exactly when no two changes clash. */
  lemma PassVerifiesExactly(u: Rules, accounts: seq<Account>, rows: seq<Row>)
    requires UniqueIds(accounts) && PlainCounts(u, rows)
    ensures var cs := Proposed(u, accounts, rows);
      Verified(AfterPass(u, accounts, rows), cs, CountApplied(accounts, cs)) <==> ClashFree(cs)
  {
    hide Changes, ApplyAll, Paired, Lands;
    var cs := Proposed(u, accounts, rows);
    VerifiesExactly(u, accounts, cs);
    forall k | 0 <= k < |cs| ensures Lands(u, accounts, cs[k]) { ProposedLand(u, accounts, rows, cs[k]); }
  }

  ghost predicate DistinctDomains(u: Rules, rows: seq<Row>) {
    forall i, j :: 0 <= i < j < |rows| ==> u.norm(rows[i].domain) != u.norm(rows[j].domain)
  }

  lemma OneRowPerAccount(u: Rules, accounts: seq<Account>, rows: seq<Row>, m: Matched, n: Matched)
    requires UniqueIds(accounts) && DistinctDomains(u, rows)
    requires m in Paired(u, accounts, rows).matches && n in Paired(u, accounts, rows).matches && m.account.id == n.account.id
    ensures m.row == n.row
  {
    hide Paired;
    PairedAccount(u, accounts, rows, m);
    PairedAccount(u, accounts, rows, n);
    FoundById(accounts, m.account, Owner);
    FoundById(accounts, n.account, Owner);
    var i :| 0 <= i < |rows| && rows[i] == m.row;
    var j :| 0 <= j < |rows| && rows[j] == n.row;
  }

  /** With unique account ids and rows of pairwise distinct domain the loop converges in one pass:
      the write verifies and a second pass has nothing to propose. */
  lemma Converges(u: Rules, accounts: seq<Account>, rows: seq<Row>)
    requires UniqueIds(accounts) && PlainCounts(u, rows) && DistinctDomains(u, rows)
    ensures var cs := Proposed(u, accounts, rows);
      && Verified(AfterPass(u, accounts, rows), cs, CountApplied(accounts, cs))
      && Proposed(u, AfterPass(u, accounts, rows), rows) == []
  {
    hide Changes, ApplyAll, Paired, UniqueIds, PlainCounts, DistinctDomains, Desired, Verified;
    var (ms, cs) := (Paired(u, accounts, rows).matches, Proposed(u, accounts, rows));
    forall m, n, f | m in ms && n in ms && m.account.id == n.account.id ensures Desired(m.row, f) == Desired(n.row, f) {
      OneRowPerAccount(u, accounts, rows, m, n);
    }
    forall i, j | 0 <= i < |cs| && 0 <= j < |cs| ensures !Clash(cs[i], cs[j]) {
      if cs[i].accountId == cs[j].accountId && cs[i].field == cs[j].field {
        ProposedLand(u, accounts, rows, cs[i]);
        var f := Writable(cs[i].field).value;
        HitIsDesired(ms, cs[i], cs[i].accountId, f);
        HitIsDesired(ms, cs[j], cs[i].accountId, f);
      }
    }
    PassVerifiesExactly(u, accounts, rows);
    SecondPassIsEmptyExactly(u, accounts, rows);
  }
}
