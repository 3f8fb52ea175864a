/**
 * The two company deduplications on values. Both redirect the references held
 * by some tables and delete the duplicates; references of any other table go
 * with the deleted row, by the delete rule of their foreign key. Milestones and
 * impact reports forbid to delete their proposal: the `pinned` proposals, and
 * with them their companies, cannot be deleted.
 */
module CompanyMerge {
  import opened Common

  datatype Table = Signals | Programs | Targets | EsgProfiles | Profiles | KeyPersons | Proposals

  datatype Ref = Ref(table: Table, row: nat)

  /** `meta` holds the contact columns that are not null. */
  datatype Company = Company(
    name: string, ticker: Option<string>, kind: string, created: int, meta: map<string, string>)

  datatype Db = Db(companies: map<nat, Company>, refs: map<Ref, nat>)

  /** The updates of some tables: their references to a duplicate go to its master. */
  function Moved(refs: map<Ref, nat>, to: map<nat, nat>, tables: set<Table>): map<Ref, nat> {
    map r | r in refs :: if r.table in tables && refs[r] in to then to[refs[r]] else refs[r]
  }

  /** Deleting companies also drops the references to them that are left. */
  function Deleted(db: Db, ids: set<nat>): Db {
    Db(map id | id in db.companies && id !in ids :: db.companies[id],
       map r | r in db.refs && db.refs[r] !in ids :: db.refs[r])
  }

  /** Redirect references to duplicates in the moved tables, then delete the duplicates. */
  function Redirected(db: Db, to: map<nat, nat>, moved: set<Table>): Db {
    Deleted(Db(db.companies, Moved(db.refs, to, moved)), to.Keys)
  }

  /** The companies whose deletion a pinned proposal refuses. */
  function Holding(refs: map<Ref, nat>, pinned: set<nat>): set<nat> {
    set r | r in refs && r.table == Proposals && r.row in pinned :: refs[r]
  }

  /** No duplicate is another duplicate's master. */
  ghost predicate OneHop(to: map<nat, nat>) {
    forall id :: id in to ==> to[id] !in to
  }

  /** Moving table after table is moving them together. */
  lemma {:induction false} MovedInTurn(refs: map<Ref, nat>, to: map<nat, nat>, a: set<Table>, b: set<Table>)
    requires OneHop(to)
    ensures Moved(Moved(refs, to, a), to, b) == Moved(refs, to, a + b)
  {
  }

  /** Redirection loses exactly the references of unmoved tables to a duplicate. */
  lemma {:induction false} RedirectionConserves(db: Db, to: map<nat, nat>, moved: set<Table>)
    requires OneHop(to)
    ensures forall r :: r in db.refs ==>
      (r !in Redirected(db, to, moved).refs <==> r.table !in moved && db.refs[r] in to)
    ensures |Redirected(db, to, moved).refs| <= |db.refs|
    ensures |Redirected(db, to, moved).refs| == |db.refs| <==>
            forall r :: r in db.refs && db.refs[r] in to ==> r.table in moved
  {
    var after := Redirected(db, to, moved).refs;
    assert after.Keys <= db.refs.Keys;
    SubsetSize(after.Keys, db.refs.Keys);
    if |after| == |db.refs| {
      forall r | r in db.refs && db.refs[r] in to ensures r.table in moved {
        assert r in after.Keys;
      }
    } else {
      assert after.Keys != db.refs.Keys;
    }
  }

  // ---------------------------------------------------------------- the admin merge

  const ADMIN_MOVED: set<Table> := {Signals, Programs, Targets, EsgProfiles}

  function Rank(c: Company): int {
    (if c.ticker.Some? && c.ticker.value != "" then 2 else 0)
    + (if c.kind == "SWASTA_TBK" || c.kind == "BUMN" then 1 else 0)
  }

  /** c comes no later than d in the ranking: higher rank, then older. */
  predicate Leads(c: Company, d: Company) {
    Rank(c) > Rank(d) || (Rank(c) == Rank(d) && c.created <= d.created)
  }

  /** A choice of first rows, one for each normalized name; ties may fall either way. */
  ghost predicate Masters(cs: map<nat, Company>, first: map<string, nat>, norm: string -> string) {
    && (forall id :: id in cs ==> norm(cs[id].name) in first)
    && (forall n :: n in first ==> first[n] in cs && norm(cs[first[n]].name) == n)
    && (forall id :: id in cs ==> Leads(cs[first[norm(cs[id].name)]], cs[id]))
  }

  /** The temporary table of rows that are not their name's master. */
  function Bad(cs: map<nat, Company>, first: map<string, nat>, norm: string -> string): map<nat, nat>
    requires forall id :: id in cs ==> norm(cs[id].name) in first
  {
    map id | id in cs && first[norm(cs[id].name)] != id :: first[norm(cs[id].name)]
  }

  ghost function Deduplicated(db: Db, first: map<string, nat>, norm: string -> string): Db
    requires Masters(db.companies, first, norm)
  {
    Redirected(db, Bad(db.companies, first, norm), ADMIN_MOVED)
  }

  /** A moved reference keeps pointing at a live company of the same name, and
      none is lost; unmoved tables keep only references to masters. */
  lemma {:induction false} AdminMergeConserves(db: Db, first: map<string, nat>, norm: string -> string, r: Ref)
    requires Masters(db.companies, first, norm) && r in db.refs && db.refs[r] in db.companies
    ensures
      var db' := Deduplicated(db, first, norm);
      && (r.table in ADMIN_MOVED ==> r in db'.refs)
      && (r !in db'.refs <==> r.table !in ADMIN_MOVED && db.refs[r] !in db'.companies)
      && (r in db'.refs ==>
            && db'.refs[r] in db'.companies
            && norm(db'.companies[db'.refs[r]].name) == norm(db.companies[db.refs[r]].name)
            && Leads(db'.companies[db'.refs[r]], db.companies[db.refs[r]]))
  {
  }

  /** Exactly one row per name survives, and it is a best-ranked one. */
  lemma {:induction false} AdminMergeKeepsBest(db: Db, first: map<string, nat>, norm: string -> string)
    requires Masters(db.companies, first, norm)
    ensures
      var cs' := Deduplicated(db, first, norm).companies;
      && (forall i, j :: i in cs' && j in cs' && norm(cs'[i].name) == norm(cs'[j].name) ==> i == j)
      && (forall i :: i in cs' ==> i in db.companies && cs'[i] == db.companies[i])
      && (forall i :: i in db.companies ==>
            exists k :: k in cs' && norm(cs'[k].name) == norm(db.companies[i].name) && Leads(cs'[k], db.companies[i]))
  {
    var cs' := Deduplicated(db, first, norm).companies;
    forall i | i in db.companies
      ensures exists k :: k in cs' && norm(cs'[k].name) == norm(db.companies[i].name) && Leads(cs'[k], db.companies[i])
    {
      var k := first[norm(db.companies[i].name)];
      assert k in cs';
    }
  }

  predicate HasTicker(c: Company) { c.ticker.Some? && c.ticker.value != "" }

  predicate IsListedKind(c: Company) { c.kind == "SWASTA_TBK" || c.kind == "BUMN" }

  /** Of the rows of one name the script keeps one with a ticker if any has one,
      among those one that is listed or state-owned, and among those the oldest. */
  lemma {:induction false} AdminMergeKeepsListed(db: Db, first: map<string, nat>, norm: string -> string,
                                                 i: nat, k: nat)
    requires Masters(db.companies, first, norm)
    requires i in db.companies && k in Deduplicated(db, first, norm).companies && k in db.companies
    requires norm(db.companies[i].name) == norm(db.companies[k].name)
    ensures var c, d := db.companies[k], db.companies[i];
      && (HasTicker(d) ==> HasTicker(c))
      && (HasTicker(d) == HasTicker(c) && IsListedKind(d) ==> IsListedKind(c))
      && (HasTicker(d) == HasTicker(c) && IsListedKind(d) == IsListedKind(c) ==> c.created <= d.created)
  {
    assert k == first[norm(db.companies[k].name)];
  }

  /** References of signals, programs, targets and ESG profiles all survive the script;
      of the other tables exactly those survive whose company does. */
  lemma {:induction false} AdminMergeMoves(db: Db, first: map<string, nat>, norm: string -> string, r: Ref)
    requires Masters(db.companies, first, norm) && r in db.refs && db.refs[r] in db.companies
    ensures
      var db' := Deduplicated(db, first, norm);
      if r.table in {Signals, Programs, Targets, EsgProfiles}
      then r in db'.refs && db'.refs[r] == first[norm(db.companies[db.refs[r]].name)]
      else r in db'.refs <==> db.refs[r] in db'.companies
  {
  }

  /** Two ESG profiles of one company for one year: the table's unique constraint refuses them. */
  predicate Clash(refs: map<Ref, nat>, r: Ref, q: Ref, year: nat -> int) {
    && r in refs && q in refs && r != q && r.table == EsgProfiles && q.table == EsgProfiles
    && refs[r] == refs[q] && year(r.row) == year(q.row)
  }

  ghost predicate YearsUnique(refs: map<Ref, nat>, year: nat -> int) {
    forall r, q :: !Clash(refs, r, q, year)
  }

  /** Every reference has its company. */
  ghost predicate RefsValid(db: Db) {
    forall r :: r in db.refs ==> db.refs[r] in db.companies
  }

  /** No two ESG profiles of one year belong to companies of the same normalized name. */
  ghost predicate YearsApart(db: Db, norm: string -> string, year: nat -> int)
    requires RefsValid(db)
  {
    forall r, q :: r in db.refs && q in db.refs && r != q && r.table == EsgProfiles && q.table == EsgProfiles
      && norm(db.companies[db.refs[r]].name) == norm(db.companies[db.refs[q]].name)
      ==> year(r.row) != year(q.row)
  }

  /** A moved reference ends at the master of its company's name. */
  lemma {:induction false} MovedToMaster(db: Db, first: map<string, nat>, norm: string -> string, r: Ref)
    requires Masters(db.companies, first, norm) && RefsValid(db) && r in db.refs && r.table in ADMIN_MOVED
    ensures norm(db.companies[db.refs[r]].name) in first
    ensures Moved(db.refs, Bad(db.companies, first, norm), ADMIN_MOVED)[r] == first[norm(db.companies[db.refs[r]].name)]
  {
  }

  /** The script's updates pass the unique constraint exactly when same-named
      companies have no ESG profiles for the same year. */
  lemma {:induction false} AdminMovePassesIff(db: Db, first: map<string, nat>, norm: string -> string,
                                                  year: nat -> int)
    requires Masters(db.companies, first, norm) && RefsValid(db)
    ensures YearsUnique(Moved(db.refs, Bad(db.companies, first, norm), ADMIN_MOVED), year)
            <==> YearsApart(db, norm, year)
  {
    var refs' := Moved(db.refs, Bad(db.companies, first, norm), ADMIN_MOVED);
    forall r, q | r in db.refs && q in db.refs && r != q && r.table == EsgProfiles && q.table == EsgProfiles
      ensures Clash(refs', r, q, year) <==>
        norm(db.companies[db.refs[r]].name) == norm(db.companies[db.refs[q]].name) && year(r.row) == year(q.row)
    {
      MovedToMaster(db, first, norm, r);
      MovedToMaster(db, first, norm, q);
    }
  }

  /** Every statement of the script passes: the updates, and then the delete. */
  ghost predicate ScriptPasses(db: Db, to: map<nat, nat>, year: nat -> int, pinned: set<nat>) {
    var refs' := Moved(db.refs, to, ADMIN_MOVED);
    YearsUnique(refs', year) && to.Keys !! Holding(refs', pinned)
  }

  /** Proposals are not moved. */
  lemma {:induction false} HoldingUnmoved(refs: map<Ref, nat>, to: map<nat, nat>, tables: set<Table>, pinned: set<nat>)
    requires Proposals !in tables
    ensures Holding(Moved(refs, to, tables), pinned) == Holding(refs, pinned)
  {
  }

  /** The script completes exactly when same-named companies have no ESG profiles
      for the same year and no duplicate has a pinned proposal. */
  lemma {:induction false} AdminMergeCompletesIff(db: Db, first: map<string, nat>, norm: string -> string,
                                                  year: nat -> int, pinned: set<nat>)
    requires Masters(db.companies, first, norm) && RefsValid(db)
    ensures ScriptPasses(db, Bad(db.companies, first, norm), year, pinned) <==>
            YearsApart(db, norm, year) && Bad(db.companies, first, norm).Keys !! Holding(db.refs, pinned)
  {
    AdminMovePassesIff(db, first, norm, year);
    HoldingUnmoved(db.refs, Bad(db.companies, first, norm), ADMIN_MOVED, pinned);
  }

  /** Two companies "A", the second younger, and two references to look at. */
  function TwoAs(table: Table): Db {
    Db(map[0 := Company("A", None, "", 0, map[]), 1 := Company("A", None, "", 1, map[])],
       map[Ref(table, 0) := 0, Ref(table, 1) := 1])
  }

  lemma {:induction false} TwoAsShareYear(norm: string -> string, year: nat -> int)
    requires year(0) == year(1)
    ensures RefsValid(TwoAs(EsgProfiles)) && !YearsApart(TwoAs(EsgProfiles), norm, year)
  {
    var db, r, q := TwoAs(EsgProfiles), Ref(EsgProfiles, 0), Ref(EsgProfiles, 1);
    assert r in db.refs && q in db.refs && r != q;
  }

  /** With an ESG profile each for 2024 the script fails, whatever it chooses. */
  lemma {:induction false} SameYearStopsTheScript(first: map<string, nat>, norm: string -> string, year: nat -> int,
                                                  pinned: set<nat>)
    requires Masters(TwoAs(EsgProfiles).companies, first, norm) && year(0) == 2024 && year(1) == 2024
    ensures !ScriptPasses(TwoAs(EsgProfiles), Bad(TwoAs(EsgProfiles).companies, first, norm), year, pinned)
  {
    TwoAsShareYear(norm, year);
    AdminMergeCompletesIff(TwoAs(EsgProfiles), first, norm, year, pinned);
  }

  lemma {:induction false} YoungerIsBad(table: Table, first: map<string, nat>, norm: string -> string)
    requires Masters(TwoAs(table).companies, first, norm)
    ensures 1 in Bad(TwoAs(table).companies, first, norm)
  {
    var cs := TwoAs(table).companies;
    assert 0 in cs && 1 in cs;
    assert Leads(cs[first[norm("A")]], cs[0]);
  }

  lemma {:induction false} NoProfilesNoClash(norm: string -> string, year: nat -> int)
    ensures RefsValid(TwoAs(Proposals)) && YearsApart(TwoAs(Proposals), norm, year)
  {
    assert forall r :: r in TwoAs(Proposals).refs ==> r.table == Proposals;
  }

  /** With a pinned proposal of the younger one it fails too, although the years are apart. */
  lemma {:induction false} PinnedProposalStopsTheScript(first: map<string, nat>, norm: string -> string,
                                                        year: nat -> int)
    requires Masters(TwoAs(Proposals).companies, first, norm)
    ensures RefsValid(TwoAs(Proposals)) && YearsApart(TwoAs(Proposals), norm, year)
    ensures !ScriptPasses(TwoAs(Proposals), Bad(TwoAs(Proposals).companies, first, norm), year, {1})
  {
    var db := TwoAs(Proposals);
    NoProfilesNoClash(norm, year);
    YoungerIsBad(Proposals, first, norm);
    assert 1 in Holding(db.refs, {1}) by { assert Ref(Proposals, 1) in db.refs; }
    AdminMergeCompletesIff(db, first, norm, year, {1});
  }

  /** A second run, whatever ties it breaks, changes nothing. */
  lemma {:induction false} AdminMergeIsIdempotent(db: Db, first: map<string, nat>, again: map<string, nat>,
                                                  norm: string -> string)
    requires Masters(db.companies, first, norm)
    requires Masters(Deduplicated(db, first, norm).companies, again, norm)
    ensures Deduplicated(Deduplicated(db, first, norm), again, norm) == Deduplicated(db, first, norm)
  {
    AdminMergeKeepsBest(db, first, norm);
    NothingBad(Deduplicated(db, first, norm).companies, again, norm);
    NothingRedirected(Deduplicated(db, first, norm), ADMIN_MOVED);
  }

  lemma {:induction false} NothingBad(cs: map<nat, Company>, first: map<string, nat>, norm: string -> string)
    requires Masters(cs, first, norm)
    requires forall i, j :: i in cs && j in cs && norm(cs[i].name) == norm(cs[j].name) ==> i == j
    ensures Bad(cs, first, norm) == map[]
  {
  }

  lemma {:induction false} NothingRedirected(db: Db, moved: set<Table>)
    ensures Redirected(db, map[], moved) == db
  {
    assert Redirected(db, map[], moved).companies == db.companies;
    assert Redirected(db, map[], moved).refs == db.refs;
  }

  // ---------------------------------------------------------------- the dot merge

  const DOT_MOVED: set<Table> := {Targets, Signals, Profiles, Programs, KeyPersons}

  predicate Dotted(name: string) { name != "" && name[|name| - 1] == '.' }

  function Stem(name: string): (s: string)
    ensures !Dotted(s)
  {
    if Dotted(name) then Stem(name[..|name| - 1]) else name
  }

  datatype Pair = Pair(canonical: nat, duplicate: nat)

  /** The rows the pair query joins. */
  predicate Qualifies(cs: map<nat, Company>, lower: string -> string, p: Pair) {
    && p.canonical in cs && p.duplicate in cs && p.canonical != p.duplicate
    && lower(Stem(cs[p.canonical].name)) == lower(Stem(cs[p.duplicate].name))
    && cs[p.canonical].created <= cs[p.duplicate].created
    && !Dotted(cs[p.canonical].name) && Dotted(cs[p.duplicate].name)
  }

  const TICKER: string := "ticker"

  /** The value of a column that the merge fills; None stands for NULL. */
  function ValueOf(c: Company, column: string): Option<string> {
    if column == TICKER then c.ticker else if column in c.meta then Some(c.meta[column]) else None
  }

  /** A row's nulls take another row's values. */
  function FilledRow(c: Company, d: Company): Company {
    c.(ticker := if c.ticker.Some? then c.ticker else d.ticker, meta := d.meta + c.meta)
  }

  /** The canonical row's nulls take the duplicate's values. */
  function Filled(cs: map<nat, Company>, p: Pair): map<nat, Company> {
    if p.canonical in cs && p.duplicate in cs
    then cs[p.canonical := FilledRow(cs[p.canonical], cs[p.duplicate])]
    else cs
  }

  lemma {:induction false} FilledRowKeeps(c: Company, d: Company, column: string)
    ensures ValueOf(c, column).Some? ==> ValueOf(FilledRow(c, d), column) == ValueOf(c, column)
    ensures ValueOf(c, column).None? ==> ValueOf(FilledRow(c, d), column) == ValueOf(d, column)
  {
  }

  /** One pair's transaction: redirect, fill the canonical row's nulls, delete. */
  function MergePair(db: Db, p: Pair): Db {
    Redirected(Db(Filled(db.companies, p), db.refs), map[p.duplicate := p.canonical], DOT_MOVED)
  }

  /** `failed` names the pairs whose transaction was rolled back. */
  function MergeAll(db: Db, pairs: seq<Pair>, failed: set<nat>): Db {
    if pairs == [] then db
    else
      var n := |pairs| - 1;
      var before := MergeAll(db, pairs[..n], failed);
      if n in failed then before else MergePair(before, pairs[n])
  }

  /** The pairs come from the query, which ran once, before the merging. */
  ghost predicate FromQuery(cs: map<nat, Company>, lower: string -> string, pairs: seq<Pair>) {
    forall i :: 0 <= i < |pairs| ==> Qualifies(cs, lower, pairs[i])
  }

  ghost predicate Committed(pairs: seq<Pair>, failed: set<nat>, duplicate: nat) {
    exists i: nat :: i < |pairs| && i !in failed && pairs[i].duplicate == duplicate
  }

  lemma {:induction false} CommittedSnoc(pairs: seq<Pair>, failed: set<nat>, duplicate: nat)
    requires pairs != []
    ensures Committed(pairs, failed, duplicate) <==>
      Committed(pairs[..|pairs| - 1], failed, duplicate)
      || (|pairs| - 1 !in failed && pairs[|pairs| - 1].duplicate == duplicate)
  {
    var n := |pairs| - 1;
    if Committed(pairs[..n], failed, duplicate) {
      var i: nat :| i < n && i !in failed && pairs[..n][i].duplicate == duplicate;
      assert pairs[i].duplicate == duplicate;
    }
    if Committed(pairs, failed, duplicate) {
      var i: nat :| i < |pairs| && i !in failed && pairs[i].duplicate == duplicate;
      if i < n { assert pairs[..n][i].duplicate == duplicate; }
    }
  }

  /** One transaction deletes the duplicate; survivors keep name, age and every filled column. */
  lemma {:induction false} PairDeletes(db: Db, p: Pair)
    requires p.canonical in db.companies && p.canonical != p.duplicate
    ensures
      var cs' := MergePair(db, p).companies;
      && (forall id :: id in cs' <==> id in db.companies && id != p.duplicate)
      && (forall id :: id in cs' ==> Survives(db.companies[id], cs'[id]))
  {
    forall column ensures p.duplicate in db.companies ==>
      ValueOf(db.companies[p.canonical], column).Some? ==>
        ValueOf(FilledRow(db.companies[p.canonical], db.companies[p.duplicate]), column)
        == ValueOf(db.companies[p.canonical], column)
    {
      if p.duplicate in db.companies { FilledRowKeeps(db.companies[p.canonical], db.companies[p.duplicate], column); }
    }
  }

  ghost predicate Survives(before: Company, after: Company) {
    && after.name == before.name && after.created == before.created
    && forall column :: ValueOf(before, column).Some? ==> ValueOf(after, column) == ValueOf(before, column)
  }

  /** Exactly the duplicates of committed pairs are gone, never a canonical row;
      survivors keep their name and every filled column. */
  lemma {:induction false} DotMergeDeletes(db: Db, lower: string -> string, pairs: seq<Pair>, failed: set<nat>)
    requires FromQuery(db.companies, lower, pairs)
    ensures
      var cs' := MergeAll(db, pairs, failed).companies;
      && (forall id :: id in cs' <==> id in db.companies && !Committed(pairs, failed, id))
      && (forall i :: 0 <= i < |pairs| ==> pairs[i].canonical in cs')
      && (forall id :: id in cs' ==> Survives(db.companies[id], cs'[id]))
  {
    if pairs != [] {
      var n := |pairs| - 1;
      var before := MergeAll(db, pairs[..n], failed);
      DotMergeDeletes(db, lower, pairs[..n], failed);
      CanonicalStays(db, lower, pairs, failed);
      assert !Committed(pairs[..n], failed, pairs[n].canonical) by { CommittedSnoc(pairs, failed, pairs[n].canonical); }
      PairDeletes(before, pairs[n]);
      forall id ensures Committed(pairs, failed, id) <==>
        Committed(pairs[..n], failed, id) || (n !in failed && pairs[n].duplicate == id)
      {
        CommittedSnoc(pairs, failed, id);
      }
    }
  }

  lemma {:induction false} CanonicalStays(db: Db, lower: string -> string, pairs: seq<Pair>, failed: set<nat>)
    requires FromQuery(db.companies, lower, pairs)
    ensures forall i :: 0 <= i < |pairs| ==>
      pairs[i].canonical in db.companies && pairs[i].duplicate in db.companies
      && pairs[i].canonical != pairs[i].duplicate && !Committed(pairs, failed, pairs[i].canonical)
  {
    forall i | 0 <= i < |pairs|
      ensures pairs[i].canonical in db.companies && pairs[i].duplicate in db.companies
      ensures pairs[i].canonical != pairs[i].duplicate && !Committed(pairs, failed, pairs[i].canonical)
    {
      assert Qualifies(db.companies, lower, pairs[i]);
    }
  }

  /** A committed pair of `duplicate` whose canonical row ended up with the column filled. */
  ghost predicate FilledFrom(cs: map<nat, Company>, pairs: seq<Pair>, failed: set<nat>, duplicate: nat,
                             column: string)
  {
    exists i: nat :: i < |pairs| && i !in failed && pairs[i].duplicate == duplicate
      && pairs[i].canonical in cs && ValueOf(cs[pairs[i].canonical], column).Some?
  }

  lemma {:induction false} PairFills(db: Db, p: Pair, column: string)
    requires p.canonical in db.companies && p.duplicate in db.companies && p.canonical != p.duplicate
    requires ValueOf(db.companies[p.duplicate], column).Some?
    ensures p.canonical in MergePair(db, p).companies
    ensures ValueOf(MergePair(db, p).companies[p.canonical], column).Some?
  {
    FilledRowKeeps(db.companies[p.canonical], db.companies[p.duplicate], column);
  }

  /** What is left after the last pair was there before it, and survives it. */
  lemma {:induction false} SurvivesLast(db: Db, lower: string -> string, pairs: seq<Pair>, failed: set<nat>, id: nat)
    requires FromQuery(db.companies, lower, pairs) && pairs != []
    requires id in MergeAll(db, pairs, failed).companies
    ensures id in MergeAll(db, pairs[..|pairs| - 1], failed).companies
    ensures Survives(MergeAll(db, pairs[..|pairs| - 1], failed).companies[id],
                     MergeAll(db, pairs, failed).companies[id])
  {
    var n := |pairs| - 1;
    if n !in failed {
      var before := MergeAll(db, pairs[..n], failed);
      DotMergeDeletes(db, lower, pairs[..n], failed);
      CanonicalStays(db, lower, pairs, failed);
      CommittedSnoc(pairs, failed, pairs[n].canonical);
      PairDeletes(before, pairs[n]);
    }
  }

  /** Further pairs keep what is filled in a canonical row. */
  lemma {:induction false} FilledFromSnoc(db: Db, lower: string -> string, pairs: seq<Pair>, failed: set<nat>,
                                          d: nat, column: string)
    requires FromQuery(db.companies, lower, pairs) && pairs != []
    requires FilledFrom(MergeAll(db, pairs[..|pairs| - 1], failed).companies, pairs[..|pairs| - 1], failed, d, column)
    ensures FilledFrom(MergeAll(db, pairs, failed).companies, pairs, failed, d, column)
  {
    var n := |pairs| - 1;
    var before := MergeAll(db, pairs[..n], failed).companies;
    var i: nat :| i < n && i !in failed && pairs[..n][i].duplicate == d
                  && pairs[..n][i].canonical in before && ValueOf(before[pairs[..n][i].canonical], column).Some?;
    assert pairs[..n][i] == pairs[i];
    DotMergeDeletes(db, lower, pairs, failed);
    SurvivesLast(db, lower, pairs, failed, pairs[i].canonical);
  }

  /** No column filled in a removed duplicate is lost: a canonical row of its has it filled. */
  lemma {:induction false} DotMergeFills(db: Db, lower: string -> string, pairs: seq<Pair>, failed: set<nat>,
                                         d: nat, column: string)
    requires FromQuery(db.companies, lower, pairs) && Committed(pairs, failed, d)
    requires d in db.companies && ValueOf(db.companies[d], column).Some?
    ensures FilledFrom(MergeAll(db, pairs, failed).companies, pairs, failed, d, column)
  {
    var n := |pairs| - 1;
    var before := MergeAll(db, pairs[..n], failed);
    CommittedSnoc(pairs, failed, d);
    if Committed(pairs[..n], failed, d) {
      DotMergeFills(db, lower, pairs[..n], failed, d, column);
      FilledFromSnoc(db, lower, pairs, failed, d, column);
    } else {
      DotMergeDeletes(db, lower, pairs[..n], failed);
      assert Survives(db.companies[d], before.companies[d]);
      CanonicalStays(db, lower, pairs, failed);
      CommittedSnoc(pairs, failed, pairs[n].canonical);
      PairFills(before, pairs[n], column);
    }
  }

  // ---------------------------------------------------------------- what the dot merge means

  function Dots(n: nat): string { seq(n, _ => '.') }

  /** A stem is the name without its trailing dots. */
  lemma {:induction false} StemIs(name: string) returns (n: nat)
    ensures name == Stem(name) + Dots(n)
    ensures Stem(name) == "" || Stem(name)[|Stem(name)| - 1] != '.'
  {
    if name != "" && name[|name| - 1] == '.' {
      n := StemIs(name[..|name| - 1]);
      n := n + 1;
      assert Dots(n) == Dots(n - 1) + ".";
      assert name == name[..|name| - 1] + ".";
    } else {
      n := 0;
      assert name == Stem(name) + Dots(0);
    }
  }

  predicate EndsInDot(c: Company) { c.name != "" && c.name[|c.name| - 1] == '.' }

  /** Same name but for case and trailing dots, only d has them, and it is not older. */
  predicate IsDottedCopy(c: Company, d: Company, lower: string -> string) {
    && lower(Stem(c.name)) == lower(Stem(d.name)) && !EndsInDot(c) && EndsInDot(d) && c.created <= d.created
  }

  /** A company disappears only as the dotted copy of one that stays. */
  lemma {:induction false} OnlyCopiesVanish(db: Db, lower: string -> string, pairs: seq<Pair>,
                                            failed: set<nat>, id: nat)
    requires FromQuery(db.companies, lower, pairs) && id in db.companies
    requires id !in MergeAll(db, pairs, failed).companies
    ensures exists k :: k in MergeAll(db, pairs, failed).companies && k in db.companies
              && IsDottedCopy(db.companies[k], db.companies[id], lower)
  {
    DotMergeDeletes(db, lower, pairs, failed);
    var i: nat :| i < |pairs| && i !in failed && pairs[i].duplicate == id;
    assert Qualifies(db.companies, lower, pairs[i]);
    assert IsDottedCopy(db.companies[pairs[i].canonical], db.companies[id], lower);
  }

  /** When the query found every pair and no transaction failed, no dotted copy is left. */
  lemma {:induction false} NoCopyIsLeft(db: Db, lower: string -> string, pairs: seq<Pair>, i: nat, k: nat)
    requires IsQueryAnswer(db.companies, lower, pairs)
    requires i in MergeAll(db, pairs, {}).companies && k in MergeAll(db, pairs, {}).companies
    ensures !IsDottedCopy(MergeAll(db, pairs, {}).companies[k], MergeAll(db, pairs, {}).companies[i], lower)
  {
    DotMergeLeavesNoPair(db, lower, pairs, Pair(k, i));
  }

  /** One merged pair: the canonical row keeps its columns and takes the
      duplicate's for those it has not; every other row is as before. */
  lemma {:induction false} PairMerges(db: Db, p: Pair, column: string, id: nat)
    requires p.canonical in db.companies && p.duplicate in db.companies && p.canonical != p.duplicate
    requires id in db.companies && id != p.canonical && id != p.duplicate
    ensures var c, d, cs' := db.companies[p.canonical], db.companies[p.duplicate], MergePair(db, p).companies;
      && p.canonical in cs' && p.duplicate !in cs' && id in cs' && cs'[id] == db.companies[id]
      && ValueOf(cs'[p.canonical], column)
         == (if ValueOf(c, column).Some? then ValueOf(c, column) else ValueOf(d, column))
      && cs'[p.canonical].name == c.name && cs'[p.canonical].created == c.created && cs'[p.canonical].kind == c.kind
  {
    FilledRowKeeps(db.companies[p.canonical], db.companies[p.duplicate], column);
  }

  /** References of targets, signals, profiles, programs and key persons move to
      the canonical row; those of the other tables go with the duplicate. */
  lemma {:induction false} PairMoves(db: Db, p: Pair, r: Ref)
    requires p.canonical != p.duplicate && r in db.refs
    ensures
      var refs' := MergePair(db, p).refs;
      if db.refs[r] != p.duplicate then r in refs' && refs'[r] == db.refs[r]
      else if r.table in {Targets, Signals, Profiles, Programs, KeyPersons} then r in refs' && refs'[r] == p.canonical
      else r !in refs'
  {
  }

  /** In a merge of `p`, a live moved reference stays, except that it leaves the duplicate. */
  lemma {:induction false} PairConserves(db: Db, p: Pair, r: Ref)
    requires p.canonical != p.duplicate && r in db.refs && r.table in DOT_MOVED
    ensures r in MergePair(db, p).refs
    ensures MergePair(db, p).refs[r] == if db.refs[r] == p.duplicate then p.canonical else db.refs[r]
  {
  }

  /** References of the moved tables: none lost, each to a live company of the same name. */
  lemma {:induction false} DotMergeConserves(db: Db, lower: string -> string, pairs: seq<Pair>,
                                             failed: set<nat>, r: Ref)
    requires FromQuery(db.companies, lower, pairs)
    requires r in db.refs && db.refs[r] in db.companies && r.table in DOT_MOVED
    ensures
      var db' := MergeAll(db, pairs, failed);
      && r in db'.refs && db'.refs[r] in db'.companies
      && db'.refs[r] in db.companies
      && lower(Stem(db.companies[db'.refs[r]].name)) == lower(Stem(db.companies[db.refs[r]].name))
      && db'.companies[db'.refs[r]].name == db.companies[db'.refs[r]].name
  {
    DotMergeDeletes(db, lower, pairs, failed);
    if pairs != [] {
      var n := |pairs| - 1;
      DotMergeConserves(db, lower, pairs[..n], failed, r);
      var before := MergeAll(db, pairs[..n], failed);
      if n !in failed {
        assert Qualifies(db.companies, lower, pairs[n]);
        PairConserves(before, pairs[n], r);
        var id := before.refs[r];
        if id != pairs[n].duplicate {
          assert id in MergePair(before, pairs[n]).companies;
        }
      }
    }
  }

  /** Running the query again finds exactly the pairs whose duplicate no transaction has removed. */
  lemma {:induction false} PairsLeftAre(db: Db, lower: string -> string, pairs: seq<Pair>, failed: set<nat>, p: Pair)
    requires FromQuery(db.companies, lower, pairs)
    requires forall q :: Qualifies(db.companies, lower, q) ==> q in pairs
    ensures Qualifies(MergeAll(db, pairs, failed).companies, lower, p) <==>
            Qualifies(db.companies, lower, p) && !Committed(pairs, failed, p.duplicate)
  {
    var cs, cs' := db.companies, MergeAll(db, pairs, failed).companies;
    DotMergeDeletes(db, lower, pairs, failed);
    assert forall id :: id in cs' ==> Survives(cs[id], cs'[id]);
    if Qualifies(cs, lower, p) {
      var i :| 0 <= i < |pairs| && pairs[i] == p;
      assert pairs[i].canonical in cs';
    }
  }

  /** When no transaction fails and the query found every pair, running it again finds none. */
  lemma {:induction false} DotMergeLeavesNoPair(db: Db, lower: string -> string, pairs: seq<Pair>, p: Pair)
    requires FromQuery(db.companies, lower, pairs)
    requires forall q :: Qualifies(db.companies, lower, q) ==> q in pairs
    ensures !Qualifies(MergeAll(db, pairs, {}).companies, lower, p)
  {
    PairsLeftAre(db, lower, pairs, {}, p);
    if Qualifies(db.companies, lower, p) {
      var i: nat :| i < |pairs| && pairs[i] == p;
      assert Committed(pairs, {}, p.duplicate);
    }
  }

  /** How many transactions the loop counts as merged. */
  function MergedCount(pairs: seq<Pair>, failed: set<nat>): nat {
    if pairs == [] then 0
    else MergedCount(pairs[..|pairs| - 1], failed) + if |pairs| - 1 in failed then 0 else 1
  }

  /** No duplicate is committed twice. */
  ghost predicate EachOnce(pairs: seq<Pair>, failed: set<nat>) {
    forall i: nat, j: nat :: i < j < |pairs| && i !in failed && j !in failed
      ==> pairs[i].duplicate != pairs[j].duplicate
  }

  ghost function Removed(pairs: seq<Pair>, failed: set<nat>): set<nat> {
    set i: nat | i < |pairs| && i !in failed :: pairs[i].duplicate
  }

  lemma {:induction false} RemovedSnoc(pairs: seq<Pair>, failed: set<nat>)
    requires pairs != []
    ensures var n: nat := |pairs| - 1;
      Removed(pairs, failed) == Removed(pairs[..n], failed) + if n in failed then {} else {pairs[n].duplicate}
  {
    var n: nat := |pairs| - 1;
    assert forall i :: 0 <= i < n ==> pairs[..n][i] == pairs[i];
  }

  lemma {:induction false} OnceSnoc(pairs: seq<Pair>, failed: set<nat>)
    requires pairs != []
    ensures var n: nat := |pairs| - 1;
      EachOnce(pairs, failed) <==>
        EachOnce(pairs[..n], failed) && (n in failed || pairs[n].duplicate !in Removed(pairs[..n], failed))
  {
    var n: nat := |pairs| - 1;
    assert forall i :: 0 <= i < n ==> pairs[..n][i] == pairs[i];
  }

  lemma {:induction false} CountIsExactIfOnce(pairs: seq<Pair>, failed: set<nat>)
    ensures |Removed(pairs, failed)| <= MergedCount(pairs, failed)
    ensures |Removed(pairs, failed)| == MergedCount(pairs, failed) <==> EachOnce(pairs, failed)
  {
    if pairs != [] {
      CountIsExactIfOnce(pairs[..|pairs| - 1], failed);
      RemovedSnoc(pairs, failed);
      OnceSnoc(pairs, failed);
    }
  }

  /** How many companies the merge took away. */
  function Vanished(db: Db, pairs: seq<Pair>, failed: set<nat>): int {
    |db.companies| - |MergeAll(db, pairs, failed).companies|
  }

  lemma {:induction false} RemovedIsCommitted(pairs: seq<Pair>, failed: set<nat>, id: nat)
    ensures id in Removed(pairs, failed) <==> Committed(pairs, failed, id)
  {
  }

  lemma {:induction false} VanishedAreRemoved(db: Db, lower: string -> string, pairs: seq<Pair>, failed: set<nat>)
    requires FromQuery(db.companies, lower, pairs)
    ensures Vanished(db, pairs, failed) == |Removed(pairs, failed)|
  {
    var all, left, removed := db.companies.Keys, MergeAll(db, pairs, failed).companies.Keys, Removed(pairs, failed);
    DotMergeDeletes(db, lower, pairs, failed);
    CanonicalStays(db, lower, pairs, failed);
    forall id ensures id in left <==> id in all && id !in removed { RemovedIsCommitted(pairs, failed, id); }
    assert left == all - removed;
    assert removed <= all;
  }

  /** The query's whole answer: every qualifying pair, once. */
  ghost predicate IsQueryAnswer(cs: map<nat, Company>, lower: string -> string, pairs: seq<Pair>) {
    && FromQuery(cs, lower, pairs)
    && (forall p :: Qualifies(cs, lower, p) ==> p in pairs)
    && (forall i, j :: 0 <= i < j < |pairs| ==> pairs[i] != pairs[j])
  }

  /** No dotted row has two undotted rows to be merged into. */
  ghost predicate OneCanonicalEach(cs: map<nat, Company>, lower: string -> string) {
    forall p, q :: Qualifies(cs, lower, p) && Qualifies(cs, lower, q) && p.duplicate == q.duplicate ==> p == q
  }

  /** When no transaction fails, the count the program reports is the number of
      companies that vanished exactly when no dotted row had two canonical rows;
      otherwise it is too large. */
  lemma {:induction false} ReportedCountIsExactIff(db: Db, lower: string -> string, pairs: seq<Pair>)
    requires IsQueryAnswer(db.companies, lower, pairs)
    ensures Vanished(db, pairs, {}) <= MergedCount(pairs, {})
    ensures Vanished(db, pairs, {}) == MergedCount(pairs, {}) <==> OneCanonicalEach(db.companies, lower)
  {
    VanishedAreRemoved(db, lower, pairs, {});
    CountIsExactIfOnce(pairs, {});
    if EachOnce(pairs, {}) { OnceIsOneCanonical(db, lower, pairs); }
    if OneCanonicalEach(db.companies, lower) { OneCanonicalIsOnce(db, lower, pairs, {}); }
  }

  lemma {:induction false} OnceIsOneCanonical(db: Db, lower: string -> string, pairs: seq<Pair>)
    requires IsQueryAnswer(db.companies, lower, pairs) && EachOnce(pairs, {})
    ensures OneCanonicalEach(db.companies, lower)
  {
    forall p, q | Qualifies(db.companies, lower, p) && Qualifies(db.companies, lower, q) && p.duplicate == q.duplicate
      ensures p == q
    {
      var i: nat :| i < |pairs| && pairs[i] == p;
      var j: nat :| j < |pairs| && pairs[j] == q;
    }
  }

  lemma {:induction false} OneCanonicalIsOnce(db: Db, lower: string -> string, pairs: seq<Pair>, failed: set<nat>)
    requires IsQueryAnswer(db.companies, lower, pairs) && OneCanonicalEach(db.companies, lower)
    ensures EachOnce(pairs, failed)
  {
    forall i: nat, j: nat | i < j < |pairs| ensures pairs[i].duplicate != pairs[j].duplicate {
      assert Qualifies(db.companies, lower, pairs[i]) && Qualifies(db.companies, lower, pairs[j]);
    }
  }

  /** Whichever transactions fail, the report is never too small, and exact on such tables. */
  lemma {:induction false} ReportedCountWithFailures(db: Db, lower: string -> string, pairs: seq<Pair>,
                                                     failed: set<nat>)
    requires IsQueryAnswer(db.companies, lower, pairs)
    ensures Vanished(db, pairs, failed) <= MergedCount(pairs, failed)
    ensures OneCanonicalEach(db.companies, lower) ==> Vanished(db, pairs, failed) == MergedCount(pairs, failed)
  {
    VanishedAreRemoved(db, lower, pairs, failed);
    CountIsExactIfOnce(pairs, failed);
    if OneCanonicalEach(db.companies, lower) { OneCanonicalIsOnce(db, lower, pairs, failed); }
  }

  function ThreeRows(): Db {
    var a := Company("A", None, "", 0, map[]);
    Db(map[0 := a, 1 := a, 2 := Company("A.", None, "", 1, map[])], map[])
  }

  lemma {:induction false} ThreeRowsQueried(lower: string -> string)
    ensures IsQueryAnswer(ThreeRows().companies, lower, [Pair(0, 2), Pair(1, 2)])
  {
    var cs, pairs := ThreeRows().companies, [Pair(0, 2), Pair(1, 2)];
    assert "A."[..1] == "A";
    assert Stem("A.") == Stem("A");
    forall p ensures Qualifies(cs, lower, p) <==> p == pairs[0] || p == pairs[1] {}
    forall p | Qualifies(cs, lower, p) ensures p in pairs {
      assert p == pairs[0] || p == pairs[1];
    }
  }

  /** Two rows "A" and one "A.": the program reports two merged companies, and one is gone. */
  lemma {:induction false} ReportedCountCanBeTooLarge(lower: string -> string)
    ensures IsQueryAnswer(ThreeRows().companies, lower, [Pair(0, 2), Pair(1, 2)])
    ensures MergedCount([Pair(0, 2), Pair(1, 2)], {}) == 2
    ensures Vanished(ThreeRows(), [Pair(0, 2), Pair(1, 2)], {}) == 1
  {
    var pairs := [Pair(0, 2), Pair(1, 2)];
    ThreeRowsQueried(lower);
    assert pairs[..1] == [Pair(0, 2)] && pairs[..1][..0] == [];
    VanishedAreRemoved(ThreeRows(), lower, pairs, {});
    assert Removed(pairs, {}) == {2} by { assert pairs[0].duplicate == 2; }
  }
}
