/** Which transactions of the dot merge the tables themselves make fail. */
module CompanyMergeFailures {
  import opened Common
  import opened CompanyMerge

  /** Each company has at most one CSR profile: a unique constraint. */
  ghost predicate ProfilesUnique(refs: map<Ref, nat>) {
    forall r, q :: r in refs && q in refs && r != q && r.table == Profiles && q.table == Profiles ==> refs[r] != refs[q]
  }

  /** Both companies have a profile. */
  predicate BothProfiled(refs: map<Ref, nat>, p: Pair) {
    (exists r | r in refs :: r.table == Profiles && refs[r] == p.canonical)
    && (exists q | q in refs :: q.table == Profiles && refs[q] == p.duplicate)
  }

  /** What makes the database roll a pair's transaction back. */
  predicate Refused(db: Db, p: Pair, pinned: set<nat>) {
    BothProfiled(db.refs, p) || p.duplicate in Holding(db.refs, pinned)
  }

  /** The pairs that fail: by a fault from outside, or because the tables refuse them at that point. */
  function Failures(db: Db, pairs: seq<Pair>, faults: set<nat>, pinned: set<nat>): set<nat> {
    if pairs == [] then {}
    else
      var n := |pairs| - 1;
      var before := Failures(db, pairs[..n], faults, pinned);
      if n in faults || Refused(MergeAll(db, pairs[..n], before), pairs[n], pinned) then before + {n} else before
  }

  lemma {:induction false} FailuresInRange(db: Db, pairs: seq<Pair>, faults: set<nat>, pinned: set<nat>)
    ensures forall i :: i in Failures(db, pairs, faults, pinned) ==> i < |pairs|
  {
    if pairs != [] { FailuresInRange(db, pairs[..|pairs| - 1], faults, pinned); }
  }

  lemma {:induction false} MergeAllAgrees(db: Db, pairs: seq<Pair>, f: set<nat>, g: set<nat>)
    requires forall i: nat :: i < |pairs| ==> (i in f <==> i in g)
    ensures MergeAll(db, pairs, f) == MergeAll(db, pairs, g)
    ensures MergedCount(pairs, f) == MergedCount(pairs, g)
  {
    if pairs != [] { MergeAllAgrees(db, pairs[..|pairs| - 1], f, g); }
  }

  /** One more pair: it fails, or it is merged. */
  lemma {:induction false} MergeNext(db: Db, pairs: seq<Pair>, faults: set<nat>, pinned: set<nat>)
    requires pairs != []
    ensures
      var n, p := |pairs| - 1, pairs[|pairs| - 1];
      var f, f' := Failures(db, pairs[..n], faults, pinned), Failures(db, pairs, faults, pinned);
      var before, fails := MergeAll(db, pairs[..n], f), n in faults || Refused(MergeAll(db, pairs[..n], f), p, pinned);
      && f' == (if fails then f + {n} else f) && n !in f
      && MergeAll(db, pairs, f') == (if fails then before else MergePair(before, p))
      && MergedCount(pairs, f') == MergedCount(pairs[..n], f) + if fails then 0 else 1
  {
    var n := |pairs| - 1;
    FailuresInRange(db, pairs[..n], faults, pinned);
    MergeAllAgrees(db, pairs[..n], Failures(db, pairs[..n], faults, pinned), Failures(db, pairs, faults, pinned));
  }

  /** Where the references of a company go when every pair is merged. */
  function Root(pairs: seq<Pair>, id: nat): nat {
    if pairs == [] then id
    else
      var n := |pairs| - 1;
      var before := Root(pairs[..n], id);
      if before == pairs[n].duplicate then pairs[n].canonical else before
  }

  /** No two CSR profiles end at one company. */
  ghost predicate ProfilesApart(refs: map<Ref, nat>, pairs: seq<Pair>) {
    forall r, q :: r in refs && q in refs && r != q && r.table == Profiles && q.table == Profiles
      ==> Root(pairs, refs[r]) != Root(pairs, refs[q])
  }

  /** No duplicate is one of the companies `held`. */
  ghost predicate Spares(pairs: seq<Pair>, held: set<nat>) {
    forall i :: 0 <= i < |pairs| ==> pairs[i].duplicate !in held
  }

  lemma {:induction false} RefsFollowRoot(db: Db, pairs: seq<Pair>, r: Ref)
    requires forall i :: 0 <= i < |pairs| ==> pairs[i].canonical != pairs[i].duplicate
    ensures r in MergeAll(db, pairs, {}).refs ==> r in db.refs
    ensures r in db.refs && r.table in DOT_MOVED ==>
      r in MergeAll(db, pairs, {}).refs && MergeAll(db, pairs, {}).refs[r] == Root(pairs, db.refs[r])
  {
    if pairs != [] {
      var n := |pairs| - 1;
      RefsFollowRoot(db, pairs[..n], r);
      if r in db.refs && r.table in DOT_MOVED {
        PairConserves(MergeAll(db, pairs[..n], {}), pairs[n], r);
      }
    }
  }

  lemma {:induction false} PairKeepsProposal(db: Db, p: Pair, r: Ref)
    requires r.table == Proposals
    ensures r in MergePair(db, p).refs <==> r in db.refs && db.refs[r] != p.duplicate
    ensures r in MergePair(db, p).refs ==> MergePair(db, p).refs[r] == db.refs[r]
  {
  }

  ghost predicate Removes(pairs: seq<Pair>, id: nat) {
    exists i :: 0 <= i < |pairs| && pairs[i].duplicate == id
  }

  lemma {:induction false} RemovesSnoc(pairs: seq<Pair>, id: nat)
    requires pairs != []
    ensures Removes(pairs, id) <==> Removes(pairs[..|pairs| - 1], id) || pairs[|pairs| - 1].duplicate == id
  {
    assert forall i :: 0 <= i < |pairs| - 1 ==> pairs[..|pairs| - 1][i] == pairs[i];
  }

  /** Proposals stay as they are as long as their company is not merged. */
  lemma {:induction false} ProposalsStay(db: Db, pairs: seq<Pair>, r: Ref)
    requires r.table == Proposals
    ensures r in MergeAll(db, pairs, {}).refs <==> r in db.refs && !Removes(pairs, db.refs[r])
    ensures r in MergeAll(db, pairs, {}).refs ==> MergeAll(db, pairs, {}).refs[r] == db.refs[r]
  {
    if pairs != [] {
      var n := |pairs| - 1;
      ProposalsStay(db, pairs[..n], r);
      PairKeepsProposal(MergeAll(db, pairs[..n], {}), pairs[n], r);
      if r in db.refs { RemovesSnoc(pairs, db.refs[r]); }
    }
  }

  /** The next pair meets no two profiles exactly when it brings no two together. */
  lemma {:induction false} ProfilesApartSnoc(db: Db, pairs: seq<Pair>)
    requires pairs != [] && forall i :: 0 <= i < |pairs| ==> pairs[i].canonical != pairs[i].duplicate
    requires ProfilesApart(db.refs, pairs[..|pairs| - 1])
    ensures ProfilesApart(db.refs, pairs) <==>
            !BothProfiled(MergeAll(db, pairs[..|pairs| - 1], {}).refs, pairs[|pairs| - 1])
  {
    var n := |pairs| - 1;
    var before, p := MergeAll(db, pairs[..n], {}).refs, pairs[n];
    forall r ensures r in before && r.table == Profiles <==> r in db.refs && r.table == Profiles
      ensures r in before && r.table == Profiles ==> before[r] == Root(pairs[..n], db.refs[r])
    {
      RefsFollowRoot(db, pairs[..n], r);
    }
    if BothProfiled(before, p) {
      var r :| r in before && r.table == Profiles && before[r] == p.canonical;
      var q :| q in before && q.table == Profiles && before[q] == p.duplicate;
      assert r != q && Root(pairs, db.refs[r]) == Root(pairs, db.refs[q]);
    }
  }

  /** A company that is not merged holds what it held from the start. */
  lemma {:induction false} HoldingKept(db: Db, pairs: seq<Pair>, pinned: set<nat>, id: nat)
    ensures id in Holding(MergeAll(db, pairs, {}).refs, pinned) <==>
            id in Holding(db.refs, pinned) && !Removes(pairs, id)
  {
    var refs' := MergeAll(db, pairs, {}).refs;
    if id in Holding(refs', pinned) {
      var r :| r in refs' && r.table == Proposals && r.row in pinned && refs'[r] == id;
      ProposalsStay(db, pairs, r);
    }
    if id in Holding(db.refs, pinned) && !Removes(pairs, id) {
      var r :| r in db.refs && r.table == Proposals && r.row in pinned && db.refs[r] == id;
      ProposalsStay(db, pairs, r);
    }
  }

  lemma {:induction false} SparesSnoc(pairs: seq<Pair>, held: set<nat>)
    requires pairs != [] && Spares(pairs[..|pairs| - 1], held)
    ensures Spares(pairs, held) <==> pairs[|pairs| - 1].duplicate !in held
    ensures pairs[|pairs| - 1].duplicate in held ==> !Removes(pairs[..|pairs| - 1], pairs[|pairs| - 1].duplicate)
  {
    assert forall i :: 0 <= i < |pairs| - 1 ==> pairs[..|pairs| - 1][i] == pairs[i];
  }

  lemma {:induction false} ApartPrefix(refs: map<Ref, nat>, pairs: seq<Pair>)
    requires pairs != [] && ProfilesApart(refs, pairs)
    ensures ProfilesApart(refs, pairs[..|pairs| - 1])
  {
  }

  /** Without faults from outside, no transaction fails exactly when the tables
      let none of them fail: no two CSR profiles meet, and no duplicate has a
      pinned proposal. */
  lemma {:induction false} NoFailuresIff(db: Db, pairs: seq<Pair>, pinned: set<nat>)
    requires forall i :: 0 <= i < |pairs| ==> pairs[i].canonical != pairs[i].duplicate
    requires ProfilesUnique(db.refs)
    ensures Failures(db, pairs, {}, pinned) == {} <==>
            ProfilesApart(db.refs, pairs) && Spares(pairs, Holding(db.refs, pinned))
  {
    if pairs == [] {
      assert ProfilesApart(db.refs, pairs);
    } else {
      var n := |pairs| - 1;
      assert forall i :: 0 <= i < n ==> pairs[..n][i] == pairs[i];
      NoFailuresIff(db, pairs[..n], pinned);
      if ProfilesApart(db.refs, pairs) { ApartPrefix(db.refs, pairs); }
      if Spares(pairs, Holding(db.refs, pinned)) { assert Spares(pairs[..n], Holding(db.refs, pinned)); }
      if Failures(db, pairs[..n], {}, pinned) == {} {
        ProfilesApartSnoc(db, pairs);
        HoldingKept(db, pairs[..n], pinned, pairs[n].duplicate);
        SparesSnoc(pairs, Holding(db.refs, pinned));
      }
    }
  }

  /** "A" and "A." with a CSR profile each. */
  function TwoProfiled(): Db {
    Db(map[0 := Company("A", None, "", 0, map[]), 1 := Company("A.", None, "", 1, map[])],
       map[Ref(Profiles, 0) := 0, Ref(Profiles, 1) := 1])
  }

  /** Their pair is never merged: the one transaction fails on every run. */
  lemma {:induction false} ProfiledPairStays(lower: string -> string, faults: set<nat>, pinned: set<nat>)
    ensures Qualifies(TwoProfiled().companies, lower, Pair(0, 1))
    ensures Failures(TwoProfiled(), [Pair(0, 1)], faults, pinned) == {0}
    ensures MergeAll(TwoProfiled(), [Pair(0, 1)], {0}) == TwoProfiled()
  {
    var db, p := TwoProfiled(), Pair(0, 1);
    assert "A."[..1] == "A" && Stem("A.") == Stem("A");
    assert Ref(Profiles, 0) in db.refs && Ref(Profiles, 1) in db.refs;
    assert BothProfiled(db.refs, p);
    assert [p][..0] == [];
  }
}
