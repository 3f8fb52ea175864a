/** The two merges as programs over the company tables. */
module CompanyMergers {
  import opened CompanyMerge
  import opened CompanyMergeFailures

  ghost function TableSet(tables: seq<Table>): set<Table> {
    set t | t in tables
  }

  class CompanyStore {
    var companies: map<nat, Company>
    var refs: map<Ref, nat>

    constructor (companies: map<nat, Company>, refs: map<Ref, nat>)
      ensures View() == Db(companies, refs)
    {
      this.companies, this.refs := companies, refs;
    }

    function View(): Db
      reads this
    {
      Db(companies, refs)
    }

    /** UPDATE table SET company_id = master_id FROM the duplicates. */
    method MoveReferences(table: Table, to: map<nat, nat>)
      modifies this`refs
      ensures refs == Moved(old(refs), to, {table})
    {
      refs := map r | r in refs :: if r.table == table && refs[r] in to then to[refs[r]] else refs[r];
    }

    /** The updates one after the other. */
    method MoveInTurn(tables: seq<Table>, to: map<nat, nat>)
      requires OneHop(to)
      modifies this`refs
      ensures refs == Moved(old(refs), to, TableSet(tables))
    {
      for k := 0 to |tables|
        invariant refs == Moved(old(refs), to, TableSet(tables[..k]))
      {
        MoveReferences(tables[k], to);
        MovedInTurn(old(refs), to, TableSet(tables[..k]), {tables[k]});
        assert tables[..k + 1] == tables[..k] + [tables[k]];
        assert TableSet(tables[..k + 1]) == TableSet(tables[..k]) + {tables[k]};
      }
      assert tables[..|tables|] == tables;
    }

    method DeleteCompanies(ids: set<nat>)
      modifies this
      ensures View() == Deleted(old(View()), ids)
    {
      companies := map id | id in companies && id !in ids :: companies[id];
      refs := map r | r in refs && refs[r] !in ids :: refs[r];
    }

    /** The first row of every name's partition. */
    method FirstValues(norm: string -> string) returns (first: map<string, nat>)
      ensures Masters(companies, first, norm)
    {
      first := map[];
      var todo := companies.Keys;
      while todo != {}
        invariant todo <= companies.Keys
        invariant forall n :: n in first ==> first[n] in companies && norm(companies[first[n]].name) == n
        invariant forall id :: id in companies && id !in todo ==>
          norm(companies[id].name) in first && Leads(companies[first[norm(companies[id].name)]], companies[id])
        decreases |todo|
      {
        var id :| id in todo;
        todo := todo - {id};
        var n := norm(companies[id].name);
        if n !in first || !Leads(companies[first[n]], companies[id]) {
          first := first[n := id];
        }
      }
    }

    /** What the database checks on the way: the unique years, and the delete of `ids`. */
    method Passes(year: nat -> int, ids: set<nat>, pinned: set<nat>) returns (passes: bool)
      ensures passes <==> YearsUnique(refs, year) && ids !! Holding(refs, pinned)
    {
      var clash := exists r | r in refs :: exists q | q in refs :: Clash(refs, r, q, year);
      passes := !clash && forall id | id in ids :: id !in Holding(refs, pinned);
    }

    /** The admin's deduplication script; `first` is the choice its ranking made,
        `year` the reporting year of an ESG profile. The unique constraint on
        company and year, or a proposal that must not go, undoes the whole script. */
    method TriggerDeduplication(norm: string -> string, year: nat -> int, pinned: set<nat>)
      returns (ok: bool, first: map<string, nat>)
      requires RefsValid(View())
      modifies this
      ensures Masters(old(companies), first, norm)
      ensures ok <==>
        YearsApart(old(View()), norm, year) && Bad(old(companies), first, norm).Keys !! Holding(old(refs), pinned)
      ensures View() == if ok then Deduplicated(old(View()), first, norm) else old(View())
    {
      var begun := View();
      first := FirstValues(norm);
      var bad := Bad(companies, first, norm);
      assert TableSet([Signals, Programs, Targets, EsgProfiles]) == ADMIN_MOVED;
      MoveInTurn([Signals, Programs, Targets, EsgProfiles], bad);
      ok := Passes(year, bad.Keys, pinned);
      AdminMergeCompletesIff(begun, first, norm, year, pinned);
      assert ok <==> ScriptPasses(begun, bad, year, pinned);
      if ok {
        DeleteCompanies(bad.Keys);
      } else {
        companies, refs := begun.companies, begun.refs;
      }
    }

    method FillNulls(p: Pair)
      modifies this`companies
      ensures companies == Filled(old(companies), p)
    {
      if p.canonical in companies && p.duplicate in companies {
        var c, d := companies[p.canonical], companies[p.duplicate];
        companies := companies[p.canonical := c.(ticker := if c.ticker.Some? then c.ticker else d.ticker,
                                                 meta := d.meta + c.meta)];
      }
    }

    method ProfilesClash() returns (clash: bool)
      ensures clash <==> !ProfilesUnique(refs)
    {
      clash := exists r | r in refs :: exists q | q in refs ::
        r != q && r.table == Profiles && q.table == Profiles && refs[r] == refs[q];
    }

    /** One pair's transaction of the dot merge: an error of any statement rolls it back. */
    method MergeOne(p: Pair, fault: bool, pinned: set<nat>) returns (ok: bool)
      requires p.canonical != p.duplicate && ProfilesUnique(refs)
      modifies this
      ensures ok <==> !fault && !Refused(old(View()), p, pinned)
      ensures View() == if ok then MergePair(old(View()), p) else old(View())
      ensures ProfilesUnique(refs)
    {
      var begun := View();
      var to := map[p.duplicate := p.canonical];
      assert TableSet([Targets, Signals, Profiles, Programs, KeyPersons]) == DOT_MOVED;
      MoveInTurn([Targets, Signals, Profiles, Programs, KeyPersons], to);
      FillNulls(p);
      DotMovePassesIff(begun.refs, p);
      HoldingUnmoved(begun.refs, to, DOT_MOVED, pinned);
      var clash := ProfilesClash();
      if fault || clash || p.duplicate in Holding(refs, pinned) {
        companies, refs := begun.companies, begun.refs;
        return false;
      }
      DeleteCompanies({p.duplicate});
      assert to.Keys == {p.duplicate};
      ok := true;
    }

    /** The loop over the queried pairs; a failed transaction leaves no trace and is not counted. */
    method MergeDuplicates(pairs: seq<Pair>, faults: set<nat>, pinned: set<nat>) returns (mergedCount: nat)
      requires forall i :: 0 <= i < |pairs| ==> pairs[i].canonical != pairs[i].duplicate
      requires ProfilesUnique(refs)
      modifies this
      ensures View() == MergeAll(old(View()), pairs, Failures(old(View()), pairs, faults, pinned))
      ensures mergedCount == MergedCount(pairs, Failures(old(View()), pairs, faults, pinned))
    {
      mergedCount := 0;
      for n := 0 to |pairs|
        invariant ProfilesUnique(refs)
        invariant View() == MergeAll(old(View()), pairs[..n], Failures(old(View()), pairs[..n], faults, pinned))
        invariant mergedCount == MergedCount(pairs[..n], Failures(old(View()), pairs[..n], faults, pinned))
      {
        assert pairs[..n + 1][..n] == pairs[..n];
        MergeNext(old(View()), pairs[..n + 1], faults, pinned);
        var ok := MergeOne(pairs[n], n in faults, pinned);
        if ok {
          mergedCount := mergedCount + 1;
        }
      }
      assert pairs[..|pairs|] == pairs;
    }
  }

  /** The updates of a pair break the unique constraint exactly when both companies have a profile. */
  lemma {:induction false} DotMovePassesIff(refs: map<Ref, nat>, p: Pair)
    requires p.canonical != p.duplicate && ProfilesUnique(refs)
    ensures ProfilesUnique(Moved(refs, map[p.duplicate := p.canonical], DOT_MOVED)) <==> !BothProfiled(refs, p)
  {
    var refs' := Moved(refs, map[p.duplicate := p.canonical], DOT_MOVED);
    if BothProfiled(refs, p) {
      var r :| r in refs && r.table == Profiles && refs[r] == p.canonical;
      var q :| q in refs && q.table == Profiles && refs[q] == p.duplicate;
      assert r != q && refs'[r] == refs'[q];
    }
  }
}
