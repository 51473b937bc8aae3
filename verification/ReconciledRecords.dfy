/** The reconciliation loop in the columns of its records: what is proposed, and what a pass leaves. */
module ReconciledRecords {
  import opened Text
  import opened Reconciliation

  // ---- rows in order ----

  /** The rows at these positions, in order. */
  ghost predicate RowsAt(rows: seq<Row>, at: seq<nat>, listed: seq<Row>) {
    && |listed| == |at| && Climbing(at)
    && forall i :: 0 <= i < |at| ==> at[i] < |rows| && rows[at[i]] == listed[i]
  }

  lemma RowAdded(rows: seq<Row>, at: seq<nat>, listed: seq<Row>)
    requires rows != [] && RowsAt(rows[..|rows| - 1], at, listed)
    ensures RowsAt(rows, at, listed) && RowsAt(rows, at + [|rows| - 1], listed + [rows[|rows| - 1]])
  {
  }

  /** Matched, ambiguous and missing rows are each listed in the order of the rows. */
  lemma {:induction false} ListedInOrder(u: Rules, accounts: seq<Account>, rows: seq<Row>) returns (matched: seq<nat>, ambiguous: seq<nat>, missing: seq<nat>)
    ensures var m := Matches(u, accounts, rows);
      && RowsAt(rows, matched, MatchedRows(m.matches)) && RowsAt(rows, ambiguous, m.ambiguous) && RowsAt(rows, missing, m.missing)
  {
    hide Judge, RowsAt;
    if rows == [] {
      matched, ambiguous, missing := [], [], [];
      assert MatchedRows([]) == [];
      NoRows();
    } else {
      var (front, n) := (rows[..|rows| - 1], |rows| - 1);
      matched, ambiguous, missing := ListedInOrder(u, accounts, front);
      var m := Matches(u, accounts, front);
      RowAdded(rows, matched, MatchedRows(m.matches));
      RowAdded(rows, ambiguous, m.ambiguous);
      RowAdded(rows, missing, m.missing);
      match Judge(u, accounts, rows[n])
      case Missing => missing := missing + [n];
      case Ambiguous => ambiguous := ambiguous + [n];
      case Confident(a) =>
        assert MatchedRows(m.matches + [Matched(rows[n], a)]) == MatchedRows(m.matches) + [rows[n]];
        matched := matched + [n];
    }
  }

  lemma NoRows()
    ensures RowsAt([], [], [])
  {
  }

  /** The queried accounts are those in some row's domain, as often as they occur. */
  lemma {:induction false} QueryExactly(u: Rules, accounts: seq<Account>, rows: seq<Row>, a: Account)
    ensures multiset(Query(u, accounts, rows))[a] ==
      if exists r :: r in rows && u.norm(r.domain) == u.norm(a.domain) then multiset(accounts)[a] else 0
  {
    if accounts != [] {
      var (front, last) := (accounts[..|accounts| - 1], accounts[|accounts| - 1]);
      QueryExactly(u, front, rows, a);
      assert accounts == front + [last];
      assert (exists i :: 0 <= i < |rows| && u.norm(rows[i].domain) == u.norm(last.domain)) <==> exists r :: r in rows && u.norm(r.domain) == u.norm(last.domain);
    }
  }

  // ---- how faults pass ----

  /** The faults left after k calls. */
  function FaultsLeft(f: Faults, k: nat): Faults { if k == 0 then f else FaultsAfter(FaultsLeft(f, k - 1)) }

  /** A world that fails for good always does; one that is rate-limited stays so; otherwise exactly as
      many calls fail, and can be retried, as transient failures were due. */
  lemma {:induction false} FaultsPass(f: Faults, k: nat)
    ensures f.permanentFailure ==> GuardFailure(FaultsLeft(f, k)) == Some(Permanent)
    ensures !f.permanentFailure && f.rateLimited ==> GuardFailure(FaultsLeft(f, k)) == Some(Transient)
    ensures !f.permanentFailure && !f.rateLimited ==> GuardFailure(FaultsLeft(f, k)) == if k < f.transientFailures then Some(Transient) else None
  {
    FaultsAre(f, k);
  }

  lemma {:induction false} FaultsAre(f: Faults, k: nat)
    ensures FaultsLeft(f, k) ==
      if f.permanentFailure || f.rateLimited || f.transientFailures <= 0 then f
      else f.(transientFailures := if k < f.transientFailures then f.transientFailures - k else 0)
  {
    if k > 0 { FaultsAre(f, k - 1); }
  }

  // ---- what is proposed ----

  /** Column n of the pair differs and c brings it to the row's value. */
  ghost predicate ColumnChange(m: Matched, n: nat, c: Change) {
    && c.accountId == m.account.id && c.accountName == m.account.name
    && c.oldValue != c.newValue
    && match n
       case 0 => c.field == "owner" && c.oldValue == m.account.owner && c.newValue == m.row.owner
       case 1 => c.field == "employee_count" && c.oldValue == m.account.employeeCount && c.newValue == m.row.employeeCount
       case 2 => c.field == "website" && c.oldValue == m.account.website && c.newValue == m.row.website
       case 3 => c.field == "segment" && c.oldValue == m.account.segment && c.newValue == m.row.segment
       case _ => false
  }

  ghost predicate ColumnDiffers(m: Matched, n: nat) {
    match n
    case 0 => m.account.owner != m.row.owner
    case 1 => m.account.employeeCount != m.row.employeeCount
    case 2 => m.account.website != m.row.website
    case 3 => m.account.segment != m.row.segment
    case _ => false
  }

  /** Change i is about column at[i] % 4 of pair at[i] / 4. */
  ghost predicate Brings(ms: seq<Matched>, cs: seq<Change>, at: seq<nat>, i: nat)
    requires i < |cs| == |at|
  { at[i] / 4 < |ms| && ColumnChange(ms[at[i] / 4], at[i] % 4, cs[i]) }

  ghost predicate Climbing(at: seq<nat>) { forall i, j :: 0 <= i < j < |at| ==> at[i] < at[j] }

  /** The changes are those of the differing columns, pair by pair and column by column, each once. */
  ghost predicate ListsDifferences(ms: seq<Matched>, cs: seq<Change>, at: seq<nat>) {
    && |cs| == |at| && Climbing(at)
    && (forall i :: 0 <= i < |cs| ==> Brings(ms, cs, at, i))
    && (forall k, n :: 0 <= k < |ms| && 0 <= n < 4 && ColumnDiffers(ms[k], n) ==> 4 * k + n in at)
  }

  lemma ColumnIs(m: Matched, n: nat)
    requires n < 4
    ensures |Difference(m, COMPARED_FIELDS[n])| <= 1
    ensures ColumnDiffers(m, n) <==> |Difference(m, COMPARED_FIELDS[n])| == 1
    ensures ColumnDiffers(m, n) ==> ColumnChange(m, n, Difference(m, COMPARED_FIELDS[n])[0])
  {
  }

  /** The list is right up to, and not including, column n of pair k. */
  ghost predicate ListedTo(ms: seq<Matched>, cs: seq<Change>, at: seq<nat>, k: nat, n: nat)
    requires k < |ms| && n <= 4
  {
    && |at| == |cs| && Climbing(at) && (forall i :: 0 <= i < |cs| ==> Brings(ms, cs, at, i))
    && (forall i :: 0 <= i < |at| ==> at[i] < 4 * k + n)
  }

  lemma OneColumn(ms: seq<Matched>, cs: seq<Change>, at: seq<nat>, k: nat, n: nat, more: seq<Change>)
    requires k < |ms| && n < 4 && ListedTo(ms, cs, at, k, n)
    requires more == [] || (|more| == 1 && ColumnChange(ms[k], n, more[0]))
    ensures ListedTo(ms, cs + more, if more == [] then at else at + [4 * k + n], k, n + 1)
  {
    hide ColumnChange;
    var all := if more == [] then at else at + [4 * k + n];
    assert (4 * k + n) / 4 == k && (4 * k + n) % 4 == n;
    forall i | 0 <= i < |cs + more| ensures Brings(ms, cs + more, all, i) {
      if i < |cs| { assert Brings(ms, cs, at, i); }
    }
  }

  lemma PairStarts(ms: seq<Matched>, before: seq<Change>, at: seq<nat>)
    requires ms != [] && ListsDifferences(ms[..|ms| - 1], before, at)
    ensures ListedTo(ms, before, at, |ms| - 1, 0)
  {
    hide ColumnChange, ColumnDiffers;
    var (front, k) := (ms[..|ms| - 1], |ms| - 1);
    forall i | 0 <= i < |before| ensures Brings(ms, before, at, i) && at[i] < 4 * k {
      assert Brings(front, before, at, i);
      assert front[at[i] / 4] == ms[at[i] / 4];
    }
  }

  /** The changes of one pair, up to column n, after those of the pairs before it. */
  lemma {:induction false} PairDifferences(ms: seq<Matched>, before: seq<Change>, at: seq<nat>, n: nat) returns (all: seq<nat>)
    requires ms != [] && n <= 4 && ListsDifferences(ms[..|ms| - 1], before, at)
    ensures var k := |ms| - 1;
      && ListedTo(ms, before + Differences(ms[k], n), all, k, n)
      && (forall x :: x in at ==> x in all)
      && (forall j :: 0 <= j < n && ColumnDiffers(ms[k], j) ==> 4 * k + j in all)
  {
    hide Difference, ColumnChange, ColumnDiffers, ListedTo, ListsDifferences;
    var k := |ms| - 1;
    if n == 0 {
      all := at;
      PairStarts(ms, before, at);
      assert before + Differences(ms[k], 0) == before;
    } else {
      var less := PairDifferences(ms, before, at, n - 1);
      var (cs, more) := (before + Differences(ms[k], n - 1), Difference(ms[k], COMPARED_FIELDS[n - 1]));
      ColumnIs(ms[k], n - 1);
      OneColumn(ms, cs, less, k, n - 1, more);
      assert before + Differences(ms[k], n) == cs + more;
      all := if more == [] then less else less + [4 * k + (n - 1)];
    }
  }

  /** The proposed changes are exactly the differing columns of the matched pairs, each once, in the
      order of the pairs and of the columns owner, employee count, website, segment. */
  lemma {:induction false} ChangesListed(ms: seq<Matched>) returns (at: seq<nat>)
    ensures ListsDifferences(ms, Changes(ms), at)
  {
    hide Differences, ColumnDiffers, Brings;
    at := [];
    if ms != [] {
      var (front, n) := (ms[..|ms| - 1], |ms| - 1);
      var before := ChangesListed(front);
      at := PairDifferences(ms, Changes(front), before, 4);
      forall k, j | 0 <= k < |ms| && 0 <= j < 4 && ColumnDiffers(ms[k], j) ensures 4 * k + j in at {
        if k < n { assert front[k] == ms[k]; }
      }
    }
  }

  // ---- what applying changes writes ----

  /** The last change of a column of an account. */
  ghost predicate LastChange(cs: seq<Change>, id: string, field: string, k: nat) {
    && k < |cs| && cs[k].accountId == id && cs[k].field == field
    && forall j :: k < j < |cs| ==> cs[j].accountId != id || cs[j].field != field
  }

  ghost predicate Unchanged(cs: seq<Change>, id: string, field: string) {
    forall j :: 0 <= j < |cs| ==> cs[j].accountId != id || cs[j].field != field
  }

  lemma ColumnWritten(u: Rules, accounts: seq<Account>, cs: seq<Change>, i: nat, f: Field)
    requires i < |accounts| && forall j :: 0 <= j < i ==> accounts[j].id != accounts[i].id
    ensures var b := ApplyAll(u, accounts, cs)[i]; var id := accounts[i].id;
      && (Unchanged(cs, id, FieldName(f)) ==> Value(b, f) == Value(accounts[i], f))
      && (forall k: nat :: LastChange(cs, id, FieldName(f), k) ==> Value(b, f) == Kept(u, f, cs[k].newValue))
  {
    hide Value, Kept, FieldName, ApplyAll;
    var id := accounts[i].id;
    ApplySame(u, accounts, cs);
    SameIndex(accounts, ApplyAll(u, accounts, cs), id);
    assert IndexOf(accounts, id) == i;
    AppliedValue(u, accounts, cs, id, f);
    var last := LastHit(cs, id, f);
    assert forall j :: 0 <= j < |cs| ==> (Hits(cs[j], id, f) <==> cs[j].accountId == id && cs[j].field == FieldName(f));
    forall k: nat | LastChange(cs, id, FieldName(f), k) ensures k == last { assert Hits(cs[k], id, f); }
    if last < |cs| { assert LastChange(cs, id, FieldName(f), last); }
  }

  /** The column holds what the last change of it says, or else what it held. */
  ghost predicate Holds(cs: seq<Change>, id: string, field: string, before: string, after: string, kept: string -> string) {
    && (Unchanged(cs, id, field) ==> after == before)
    && (forall k: nat :: LastChange(cs, id, field, k) ==> after == kept(cs[k].newValue))
  }

  /** After applying changes, each writable column of an account holds what the last change naming
      the account and that column says, a count as the numeral it reads as, or else what it held. */
  lemma AppliedColumns(u: Rules, accounts: seq<Account>, cs: seq<Change>, i: nat)
    requires i < |accounts| && forall j :: 0 <= j < i ==> accounts[j].id != accounts[i].id
    ensures var (a, b) := (accounts[i], ApplyAll(u, accounts, cs)[i]);
      && Holds(cs, a.id, "owner", a.owner, b.owner, (v: string) => v)
      && Holds(cs, a.id, "employee_count", a.employeeCount, b.employeeCount, u.numeral)
      && Holds(cs, a.id, "website", a.website, b.website, (v: string) => v)
      && Holds(cs, a.id, "segment", a.segment, b.segment, (v: string) => v)
      && b.id == a.id && b.name == a.name && b.domain == a.domain
  {
    hide ApplyAll, LastChange, Unchanged;
    ColumnWritten(u, accounts, cs, i, Owner);
    ColumnWritten(u, accounts, cs, i, EmployeeCount);
    ColumnWritten(u, accounts, cs, i, Website);
    ColumnWritten(u, accounts, cs, i, Segment);
    UntouchedAccounts(u, accounts, cs, i);
  }

  // ---- what a pass leaves ----

  /** The row is matched to account i: it alone is in the row's domain, and it bears its name. */
  ghost predicate MatchedTo(u: Rules, accounts: seq<Account>, r: Row, i: nat) {
    OnlyOne(u, accounts, u.norm(r.domain), i) && accounts[i].name == r.company
  }

  lemma RowIsPaired(u: Rules, accounts: seq<Account>, rows: seq<Row>, r: Row, i: nat)
    requires r in rows && MatchedTo(u, accounts, r, i)
    ensures Matched(r, accounts[i]) in Paired(u, accounts, rows).matches
  {
    hide Judge, Paired;
    MatchedExactly(u, accounts, r);
    PairedIs(u, accounts, rows, Matched(r, accounts[i]));
  }

  lemma ColumnStands(u: Rules, accounts: seq<Account>, rows: seq<Row>, r: Row, i: nat, f: Field)
    requires UniqueIds(accounts) && PlainCounts(u, rows) && DistinctDomains(u, rows) && r in rows && MatchedTo(u, accounts, r, i)
    ensures i < |AfterPass(u, accounts, rows)| && Value(AfterPass(u, accounts, rows)[i], f) == Desired(r, f)
  {
    hide Paired, Proposed, ApplyAll, Value, Desired, PlainCounts, DistinctDomains;
    var m := Matched(r, accounts[i]);
    RowIsPaired(u, accounts, rows, r, i);
    forall n | n in Paired(u, accounts, rows).matches && n.account.id == m.account.id ensures Desired(n.row, f) == Desired(m.row, f) {
      OneRowPerAccount(u, accounts, rows, m, n);
    }
    AgreedValueStands(u, accounts, rows, m, f);
    ApplySame(u, accounts, Proposed(u, accounts, rows));
    SameIndex(accounts, AfterPass(u, accounts, rows), accounts[i].id);
    assert IndexOf(accounts, accounts[i].id) == i;
  }

  /** With unique account ids and rows of pairwise distinct domain, one pass leaves the account of
      every matched row with the row's owner, employee count, website and segment, and every other
      account as it was. */
  lemma PassExactly(u: Rules, accounts: seq<Account>, rows: seq<Row>, i: nat)
    requires UniqueIds(accounts) && PlainCounts(u, rows) && DistinctDomains(u, rows) && i < |accounts|
    ensures forall r :: r in rows && MatchedTo(u, accounts, r, i) ==>
      AfterPass(u, accounts, rows)[i] == accounts[i].(owner := r.owner, employeeCount := r.employeeCount, website := r.website, segment := r.segment)
    ensures (forall r :: r in rows ==> !MatchedTo(u, accounts, r, i)) ==> AfterPass(u, accounts, rows)[i] == accounts[i]
  {
    hide Proposed, ApplyAll, UniqueIds, PlainCounts, DistinctDomains, OnlyOne;
    UntouchedAccounts(u, accounts, Proposed(u, accounts, rows), i);
    forall r | r in rows && MatchedTo(u, accounts, r, i)
      ensures AfterPass(u, accounts, rows)[i] == accounts[i].(owner := r.owner, employeeCount := r.employeeCount, website := r.website, segment := r.segment)
    {
      ColumnStands(u, accounts, rows, r, i, Owner);
      ColumnStands(u, accounts, rows, r, i, EmployeeCount);
      ColumnStands(u, accounts, rows, r, i, Website);
      ColumnStands(u, accounts, rows, r, i, Segment);
    }
    if forall r :: r in rows ==> !MatchedTo(u, accounts, r, i) { NotNamed(u, accounts, rows, i); }
  }

  lemma NotNamed(u: Rules, accounts: seq<Account>, rows: seq<Row>, i: nat)
    requires UniqueIds(accounts) && i < |accounts| && forall r :: r in rows ==> !MatchedTo(u, accounts, r, i)
    ensures forall k :: 0 <= k < |Proposed(u, accounts, rows)| ==> Proposed(u, accounts, rows)[k].accountId != accounts[i].id
  {
    hide Paired, Judge, Changes;
    var (ms, cs) := (Paired(u, accounts, rows).matches, Proposed(u, accounts, rows));
    forall k | 0 <= k < |cs| ensures cs[k].accountId != accounts[i].id {
      ChangesAre(ms, cs[k]);
      var m, f :| m in ms && IsDifference(m, f, cs[k]);
      PairedAccount(u, accounts, rows, m);
      PairedIs(u, accounts, rows, m);
      MatchedExactly(u, accounts, m.row);
      var j: nat :| OnlyOne(u, accounts, u.norm(m.row.domain), j) && accounts[j].name == m.row.company;
      assert MatchedTo(u, accounts, m.row, j) && m.account == accounts[j];
    }
  }
}
