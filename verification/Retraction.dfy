/**
 * The retraction cascade: a loop of batches that skip locked rows, alone and
 * with several workers at once.
 */
module Retraction {
  import opened Common

  const BATCH_SIZE: nat := 100

  datatype Signal = Signal(contentHash: string, summary: string, retracted: bool, relevance: string, alert: bool)

  function Retract(s: Signal): Signal {
    s.(retracted := true, relevance := "LOW", alert := false)
  }

  /** The rows a batch may take: they match the claim, are not retracted, and nobody else holds them. */
  function Available(rows: map<nat, Signal>, hit: (string, string) -> bool, locked: set<nat>): set<nat> {
    set id | id in rows && id !in locked && hit(rows[id].contentHash, rows[id].summary) && !rows[id].retracted
  }

  function RetractAll(rows: map<nat, Signal>, ids: set<nat>): map<nat, Signal> {
    map id | id in rows :: if id in ids then Retract(rows[id]) else rows[id]
  }

  predicate IsBatch(available: set<nat>, batch: set<nat>) {
    batch <= available && |batch| == if |available| < BATCH_SIZE then |available| else BATCH_SIZE
  }

  class SignalStore {
    var rows: map<nat, Signal>

    constructor (rows: map<nat, Signal>)
      ensures this.rows == rows
    {
      this.rows := rows;
    }

    /** SELECT ... LIMIT 100: some available rows, as many as there are up to the limit. */
    method SelectBatch(available: set<nat>) returns (batch: set<nat>)
      ensures IsBatch(available, batch)
    {
      batch := {};
      while |batch| < BATCH_SIZE && batch < available
        invariant batch <= available && |batch| <= BATCH_SIZE
        decreases |available - batch|
      {
        assert (forall id :: id !in available - batch) ==> available <= batch;
        var id :| id in available - batch;
        assert available - (batch + {id}) == (available - batch) - {id};
        batch := batch + {id};
      }
      SubsetSize(batch, available);
    }

    /** One transaction: select a batch, update it, answer its size. */
    method RetractBatch(hit: (string, string) -> bool, locked: set<nat>) returns (batch: set<nat>)
      modifies this
      ensures IsBatch(Available(old(rows), hit, locked), batch)
      ensures rows == RetractAll(old(rows), batch)
      ensures Available(rows, hit, locked) == Available(old(rows), hit, locked) - batch
    {
      batch := SelectBatch(Available(rows, hit, locked));
      rows := RetractAll(rows, batch);
    }

    /** The loop of one worker while others keep `locked` to themselves. Batch
        number `faultAt` fails in the database, if the loop gets that far: until
        then every batch was full. Otherwise it retracts exactly the available
        rows. Either way it answers the number it has retracted. */
    method ProcessRetractionCascade(hit: (string, string) -> bool, locked: set<nat>, faultAt: Option<nat>)
      returns (totalProcessed: nat, ok: bool)
      modifies this
      ensures var done := NewlyRetracted(old(rows), rows);
        && done <= Available(old(rows), hit, locked) && rows == RetractAll(old(rows), done)
        && totalProcessed == |done|
        && (ok ==> done == Available(old(rows), hit, locked))
        && (!ok ==> faultAt.Some? && totalProcessed == faultAt.value * BATCH_SIZE)
      ensures OnlyLowered(old(rows), rows, NewlyRetracted(old(rows), rows))
      ensures ok ==> AreMatches(old(rows), hit, locked, NewlyRetracted(old(rows), rows))
      ensures !ok ==> totalProcessed == faultAt.value * 100
      ensures ok <==> faultAt.None? || |Available(old(rows), hit, locked)| < faultAt.value * BATCH_SIZE
      ensures ok ==> Available(rows, hit, locked) == {}
    {
      totalProcessed, ok := 0, false;
      ghost var done: set<nat> := {};
      var batches: nat := 0;
      RetractNone(rows);
      while true
        invariant done <= Available(old(rows), hit, locked) && rows == RetractAll(old(rows), done)
        invariant totalProcessed == |done| == batches * BATCH_SIZE
        invariant faultAt.Some? ==> batches <= faultAt.value
        decreases |Available(rows, hit, locked)|
      {
        RetractedSoFar(old(rows), hit, locked, done);
        RetractionMeans(old(rows), hit, locked, done);
        if faultAt == Some(batches) {
          return;
        }
        var batch := RetractBatch(hit, locked);
        BatchRetracted(old(rows), hit, locked, done, batch);
        totalProcessed := totalProcessed + |batch|;
        done := done + batch;
        if |batch| < BATCH_SIZE {
          break;
        }
        batches := batches + 1;
      }
      RetractedSoFar(old(rows), hit, locked, done);
      RetractionMeans(old(rows), hit, locked, done);
      ok := true;
    }
  }

  /** A retracted signal counts for little, raises no alert, and is otherwise as it was. */
  ghost predicate LowValue(before: Signal, after: Signal) {
    && after.retracted && after.relevance == "LOW" && !after.alert
    && after.contentHash == before.contentHash && after.summary == before.summary
  }

  /** These rows were lowered, and every other row is as before. */
  ghost predicate OnlyLowered(before: map<nat, Signal>, after: map<nat, Signal>, done: set<nat>) {
    && before.Keys == after.Keys && done <= before.Keys
    && (forall id :: id in done ==> LowValue(before[id], after[id]))
    && (forall id :: id in before && id !in done ==> after[id] == before[id])
  }

  /** Exactly the rows that match, were not retracted, and nobody else holds. */
  ghost predicate AreMatches(rows: map<nat, Signal>, hit: (string, string) -> bool, locked: set<nat>, done: set<nat>) {
    forall id :: id in rows ==>
      (id in done <==> id !in locked && !rows[id].retracted && hit(rows[id].contentHash, rows[id].summary))
  }

  lemma {:induction false} RetractionMeans(rows: map<nat, Signal>, hit: (string, string) -> bool, locked: set<nat>,
                                           done: set<nat>)
    requires done <= Available(rows, hit, locked)
    ensures OnlyLowered(rows, RetractAll(rows, done), done)
    ensures done == Available(rows, hit, locked) ==> AreMatches(rows, hit, locked, done)
  {
  }

  /** The rows that were not retracted before and are now. */
  function NewlyRetracted(before: map<nat, Signal>, after: map<nat, Signal>): set<nat> {
    set id | id in before && id in after && !before[id].retracted && after[id].retracted
  }

  lemma {:induction false} RetractNone(rows: map<nat, Signal>)
    ensures RetractAll(rows, {}) == rows
  {
  }

  lemma {:induction false} RetractTwice(rows: map<nat, Signal>, a: set<nat>, b: set<nat>)
    ensures RetractAll(RetractAll(rows, a), b) == RetractAll(rows, a + b)
  {
  }

  /** A full batch leaves fewer rows; a short one leaves none. */
  lemma {:induction false} BatchShrinks(all: set<nat>, done: set<nat>, batch: set<nat>)
    requires done <= all && IsBatch(all - done, batch)
    ensures all - done - batch == all - (done + batch) && done + batch <= all
    ensures |done + batch| == |done| + |batch|
    ensures |all - (done + batch)| == |all - done| - |batch|
    ensures |batch| < BATCH_SIZE ==> done + batch == all
  {
    SubsetSize(batch, all - done);
    assert all - (done + batch) == (all - done) - batch;
  }

  /** What the loop knows when it has retracted `done`. */
  lemma {:induction false} RetractedSoFar(rows: map<nat, Signal>, hit: (string, string) -> bool, locked: set<nat>,
                                          done: set<nat>)
    requires done <= Available(rows, hit, locked)
    ensures Available(RetractAll(rows, done), hit, locked) == Available(rows, hit, locked) - done
    ensures NewlyRetracted(rows, RetractAll(rows, done)) == done
    ensures |done| <= |Available(rows, hit, locked)|
  {
    SubsetSize(done, Available(rows, hit, locked));
  }

  /** What one more batch does. */
  lemma {:induction false} BatchRetracted(rows: map<nat, Signal>, hit: (string, string) -> bool, locked: set<nat>,
                                          done: set<nat>, batch: set<nat>)
    requires done <= Available(rows, hit, locked)
    requires IsBatch(Available(RetractAll(rows, done), hit, locked), batch)
    ensures RetractAll(RetractAll(rows, done), batch) == RetractAll(rows, done + batch)
    ensures done + batch <= Available(rows, hit, locked) && |done + batch| == |done| + |batch|
    ensures |batch| < BATCH_SIZE ==> done + batch == Available(rows, hit, locked)
    ensures |Available(RetractAll(rows, done + batch), hit, locked)|
         == |Available(RetractAll(rows, done), hit, locked)| - |batch|
  {
    var all := Available(rows, hit, locked);
    RetractedSoFar(rows, hit, locked, done);
    RetractTwice(rows, done, batch);
    BatchShrinks(all, done, batch);
    RetractedSoFar(rows, hit, locked, done + batch);
  }

  // ---------------------------------------------------------------- several workers

  datatype Worker =
    | Idle(total: nat)
    | Holding(batch: set<nat>, total: nat)
    | Done(total: nat)
    | Failed(total: nat)

  /** `open` are the matching rows not yet retracted; `owner` says who retracted the others. */
  datatype State = State(open: set<nat>, owner: map<nat, nat>, workers: seq<Worker>)

  datatype Event = Begin(worker: nat, batch: set<nat>) | Commit(worker: nat) | Abort(worker: nat)

  function Recorded(owner: map<nat, nat>, batch: set<nat>, worker: nat): map<nat, nat> {
    owner + map id | id in batch :: worker
  }

  ghost function Held(ws: seq<Worker>): set<nat> {
    set i, id | 0 <= i < |ws| && ws[i].Holding? && id in ws[i].batch :: id
  }

  ghost predicate Enabled(s: State, e: Event) {
    && e.worker < |s.workers|
    && match e
       case Begin(w, batch) => s.workers[w].Idle? && IsBatch(s.open - Held(s.workers), batch)
       case Commit(w) => s.workers[w].Holding?
       case Abort(w) => s.workers[w].Holding?
  }

  ghost function Step(s: State, e: Event): State
    requires Enabled(s, e)
  {
    var w := s.workers[e.worker];
    match e
    case Begin(i, batch) => s.(workers := s.workers[i := Holding(batch, w.total)])
    case Abort(i) => s.(workers := s.workers[i := Failed(w.total)])
    case Commit(i) =>
      State(s.open - w.batch,
            Recorded(s.owner, w.batch, i),
            s.workers[i := if |w.batch| < BATCH_SIZE then Done(w.total + |w.batch|) else Idle(w.total + |w.batch|)])
  }

  ghost predicate Reaches(s: State, es: seq<Event>, t: State)
    decreases |es|
  {
    if es == [] then s == t else Enabled(s, es[0]) && Reaches(Step(s, es[0]), es[1..], t)
  }

  function Start(matching: set<nat>, n: nat): State {
    State(matching, map[], seq(n, _ => Idle(0)))
  }

  function Owned(owner: map<nat, nat>, w: nat): set<nat> {
    set id | id in owner && owner[id] == w
  }

  function Totals(ws: seq<Worker>): nat {
    if ws == [] then 0 else Totals(ws[..|ws| - 1]) + ws[|ws| - 1].total
  }

  /** Rows are open or owned, held batches are open and disjoint, totals count owned rows. */
  ghost predicate Consistent(s: State, matching: set<nat>) {
    && s.open + s.owner.Keys == matching && s.open !! s.owner.Keys
    && (forall id :: id in s.owner ==> s.owner[id] < |s.workers|)
    && (forall i :: 0 <= i < |s.workers| && s.workers[i].Holding? ==> s.workers[i].batch <= s.open)
    && (forall i, j :: 0 <= i < j < |s.workers| && s.workers[i].Holding? && s.workers[j].Holding? ==>
          s.workers[i].batch !! s.workers[j].batch)
    && (forall i :: 0 <= i < |s.workers| ==> s.workers[i].total == |Owned(s.owner, i)|)
  }

  lemma {:induction false} OwnedAfterCommit(owner: map<nat, nat>, batch: set<nat>, w: nat, k: nat)
    requires owner.Keys !! batch
    ensures Owned(Recorded(owner, batch, w), k) == if k == w then Owned(owner, k) + batch else Owned(owner, k)
  {
  }

  lemma {:induction false} CommitCounts(s: State, matching: set<nat>, i: nat, k: nat)
    requires Consistent(s, matching) && Enabled(s, Commit(i)) && k < |s.workers|
    ensures Step(s, Commit(i)).workers[k].total == |Owned(Step(s, Commit(i)).owner, k)|
  {
    OwnedAfterCommit(s.owner, s.workers[i].batch, i, k);
    assert Owned(s.owner, k) !! s.workers[i].batch;
  }

  lemma {:induction false} BatchChangesHands(open: set<nat>, owner: map<nat, nat>, batch: set<nat>, w: nat, n: nat)
    requires open !! owner.Keys && batch <= open && w < n
    requires forall id :: id in owner ==> owner[id] < n
    ensures open - batch + Recorded(owner, batch, w).Keys == open + owner.Keys
    ensures (open - batch) !! Recorded(owner, batch, w).Keys
    ensures forall id :: id in Recorded(owner, batch, w) ==> Recorded(owner, batch, w)[id] < n
  {
  }

  lemma {:induction false} CommitStaysConsistent(s: State, matching: set<nat>, i: nat)
    requires Consistent(s, matching) && Enabled(s, Commit(i))
    ensures Consistent(Step(s, Commit(i)), matching)
  {
    var s' := Step(s, Commit(i));
    BatchChangesHands(s.open, s.owner, s.workers[i].batch, i, |s.workers|);
    forall k: nat | k < |s'.workers| ensures s'.workers[k].total == |Owned(s'.owner, k)| {
      CommitCounts(s, matching, i, k);
    }
    forall k | 0 <= k < |s'.workers| && s'.workers[k].Holding?
      ensures s'.workers[k] == s.workers[k] && s'.workers[k].batch <= s'.open
    {
      assert k != i && s.workers[k].batch !! s.workers[i].batch;
    }
  }

  lemma {:induction false} BeginStaysConsistent(s: State, matching: set<nat>, i: nat, batch: set<nat>)
    requires Consistent(s, matching) && Enabled(s, Begin(i, batch))
    ensures Consistent(Step(s, Begin(i, batch)), matching)
  {
    forall k | 0 <= k < |s.workers| && s.workers[k].Holding? ensures s.workers[k].batch !! batch {
      assert s.workers[k].batch <= Held(s.workers);
    }
  }

  lemma {:induction false} StepStaysConsistent(s: State, matching: set<nat>, e: Event)
    requires Consistent(s, matching) && Enabled(s, e)
    ensures Consistent(Step(s, e), matching)
  {
    match e {
      case Begin(i, batch) => BeginStaysConsistent(s, matching, i, batch);
      case Commit(i) => CommitStaysConsistent(s, matching, i);
      case Abort(_) =>
    }
  }

  function OwnedBelow(owner: map<nat, nat>, n: nat): set<nat> {
    set id | id in owner && owner[id] < n
  }

  /** The rows that somebody owns are counted once each by the totals. */
  lemma {:induction false} TotalsCountOwned(ws: seq<Worker>, owner: map<nat, nat>)
    requires forall i :: 0 <= i < |ws| ==> ws[i].total == |Owned(owner, i)|
    ensures Totals(ws) == |OwnedBelow(owner, |ws|)|
  {
    if ws != [] {
      var n := |ws| - 1;
      TotalsCountOwned(ws[..n], owner);
      assert OwnedBelow(owner, |ws|) == OwnedBelow(owner, n) + Owned(owner, n);
    }
  }

  /** Over every interleaving: each retracted row has one owner, and the totals
      the workers have counted add up to the number of rows retracted. */
  lemma {:induction false} TotalsAddUp(s: State, matching: set<nat>, es: seq<Event>, t: State)
    requires Consistent(s, matching) && Reaches(s, es, t)
    ensures Consistent(t, matching)
    ensures Totals(t.workers) == |t.owner.Keys| && t.owner.Keys == matching - t.open
    decreases |es|
  {
    if es == [] {
      TotalsCountOwned(t.workers, t.owner);
      assert t.owner.Keys == OwnedBelow(t.owner, |t.workers|);
    } else {
      StepStaysConsistent(s, matching, es[0]);
      TotalsAddUp(Step(s, es[0]), matching, es[1..], t);
    }
  }

  lemma {:induction false} StartIsConsistent(matching: set<nat>, n: nat)
    ensures Consistent(Start(matching, n), matching)
  {
    assert forall i :: Owned(map[], i) == {};
  }

  /** An owner, once recorded, is never replaced. */
  lemma {:induction false} OwnersAreFinal(s: State, matching: set<nat>, es: seq<Event>, t: State, id: nat)
    requires Consistent(s, matching) && Reaches(s, es, t) && id in s.owner
    ensures id in t.owner && t.owner[id] == s.owner[id]
    decreases |es|
  {
    if es != [] {
      StepStaysConsistent(s, matching, es[0]);
      OwnersAreFinal(Step(s, es[0]), matching, es[1..], t, id);
    }
  }

  ghost predicate NoneHolding(s: State) {
    forall i :: 0 <= i < |s.workers| ==> !s.workers[i].Holding?
  }

  /** The rows of the batches that are rolled back from event number `from` on. */
  ghost function Abandoned(s: State, es: seq<Event>, t: State, from: nat): set<nat>
    requires Reaches(s, es, t)
    decreases |es|
  {
    if es == [] then {}
    else
      (if from == 0 && es[0].Abort? then s.workers[es[0].worker].batch else {})
      + Abandoned(Step(s, es[0]), es[1..], t, if from == 0 then 0 else from - 1)
  }

  /** How many events lead up to and include the last batch that `k` takes. */
  function LastBegin(es: seq<Event>, k: nat): (n: nat)
    ensures n <= |es|
    ensures n > 0 ==> es[n - 1].Begin? && es[n - 1].worker == k
    ensures forall i :: n <= i < |es| ==> !(es[i].Begin? && es[i].worker == k)
    decreases |es|
  {
    if es == [] then 0
    else
      var n := LastBegin(es[1..], k);
      if n > 0 then n + 1 else if es[0].Begin? && es[0].worker == k then 1 else 0
  }

  lemma {:induction false} HeldAfterBegin(s: State, i: nat, batch: set<nat>)
    requires Enabled(s, Begin(i, batch))
    ensures Held(Step(s, Begin(i, batch)).workers) == Held(s.workers) + batch
  {
    var ws, ws' := s.workers, Step(s, Begin(i, batch)).workers;
    assert ws'[i].batch == batch;
    forall id | id in Held(ws) ensures id in Held(ws') {
      var k :| 0 <= k < |ws| && ws[k].Holding? && id in ws[k].batch;
      assert ws'[k] == ws[k];
    }
    forall id | id in Held(ws') && id !in batch ensures id in Held(ws) {
      var k :| 0 <= k < |ws'| && ws'[k].Holding? && id in ws'[k].batch;
      assert ws'[k] == ws[k];
    }
  }

  lemma {:induction false} HeldAfterEnd(s: State, e: Event)
    requires Enabled(s, e) && !e.Begin?
    ensures Held(s.workers) <= Held(Step(s, e).workers) + s.workers[e.worker].batch
  {
    var ws, ws' := s.workers, Step(s, e).workers;
    forall id | id in Held(ws) && id !in ws[e.worker].batch ensures id in Held(ws') {
      var k :| 0 <= k < |ws| && ws[k].Holding? && id in ws[k].batch;
      assert ws'[k] == ws[k];
    }
  }

  /** If everything open is held, then in the end only rows of batches rolled back since are open. */
  lemma {:induction false} OpenIsAbandoned(s: State, es: seq<Event>, t: State, lost: set<nat>)
    requires Reaches(s, es, t) && NoneHolding(t)
    requires s.open <= Held(s.workers) + lost
    ensures t.open <= Abandoned(s, es, t, 0) + lost
    decreases |es|
  {
    if es == [] {
      assert Held(t.workers) == {};
    } else {
      var e := es[0];
      if e.Begin? { HeldAfterBegin(s, e.worker, e.batch); } else { HeldAfterEnd(s, e); }
      OpenIsAbandoned(Step(s, e), es[1..], t, if e.Abort? then lost + s.workers[e.worker].batch else lost);
    }
  }

  /** A worker that takes no further batch and ends well holds a short one. */
  lemma {:induction false} LastBatchIsShort(s: State, es: seq<Event>, t: State, k: nat)
    requires Reaches(s, es, t) && LastBegin(es, k) == 0 && k < |s.workers| && s.workers[k].Holding?
    requires k < |t.workers| && t.workers[k].Done?
    ensures |s.workers[k].batch| < BATCH_SIZE
    decreases |es|
  {
    if es != [] {
      if es[0].worker == k {
        WorkerRests(Step(s, es[0]), es[1..], t, k);
      } else {
        LastBatchIsShort(Step(s, es[0]), es[1..], t, k);
      }
    }
  }

  /** A worker that holds nothing and takes no further batch stays as it is. */
  lemma {:induction false} WorkerRests(s: State, es: seq<Event>, t: State, k: nat)
    requires Reaches(s, es, t) && LastBegin(es, k) == 0 && k < |s.workers| && !s.workers[k].Holding?
    ensures k < |t.workers| && t.workers[k] == s.workers[k]
    decreases |es|
  {
    if es != [] {
      WorkerRests(Step(s, es[0]), es[1..], t, k);
    }
  }

  lemma {:induction false} OpenAfterLastBegin(s: State, es: seq<Event>, t: State, k: nat)
    requires Reaches(s, es, t) && NoneHolding(t) && LastBegin(es, k) > 0
    requires k < |t.workers| && t.workers[k].Done?
    ensures t.open <= Abandoned(s, es, t, LastBegin(es, k))
    decreases |es|
  {
    var s' := Step(s, es[0]);
    if LastBegin(es[1..], k) > 0 {
      OpenAfterLastBegin(s', es[1..], t, k);
    } else {
      var batch := es[0].batch;
      assert s'.workers[k].batch == batch;
      LastBatchIsShort(s', es[1..], t, k);
      SubsetSize(batch, s.open - Held(s.workers));
      HeldAfterBegin(s, k, batch);
      OpenIsAbandoned(s', es[1..], t, {});
    }
  }

  lemma {:induction false} AbandonedMatched(s: State, matching: set<nat>, es: seq<Event>, t: State, from: nat)
    requires Consistent(s, matching) && Reaches(s, es, t)
    ensures Abandoned(s, es, t, from) <= matching
    decreases |es|
  {
    if es != [] {
      StepStaysConsistent(s, matching, es[0]);
      AbandonedMatched(Step(s, es[0]), matching, es[1..], t, if from == 0 then 0 else from - 1);
    }
  }

  /** Over every interleaving, rollbacks included: once one worker has finished
      well and none holds rows, exactly those rows are left that were in a batch
      rolled back after that worker's last select and that nobody retook. */
  lemma {:induction false} LeftoversAreAbandoned(matching: set<nat>, n: nat, es: seq<Event>, t: State, k: nat)
    requires Reaches(Start(matching, n), es, t) && NoneHolding(t)
    requires k < n && k < |t.workers| && t.workers[k].Done?
    ensures LastBegin(es, k) > 0
    ensures t.open == Abandoned(Start(matching, n), es, t, LastBegin(es, k)) - t.owner.Keys
    ensures t.owner.Keys == matching - t.open && Totals(t.workers) == |t.owner.Keys|
  {
    var s := Start(matching, n);
    StartIsConsistent(matching, n);
    TotalsAddUp(s, matching, es, t);
    AbandonedMatched(s, matching, es, t, LastBegin(es, k));
    if LastBegin(es, k) == 0 {
      WorkerRests(s, es, t, k);
      assert false;
    }
    OpenAfterLastBegin(s, es, t, k);
  }

  lemma {:induction false} NothingAbandoned(s: State, es: seq<Event>, t: State, from: nat)
    requires Reaches(s, es, t) && forall i :: from <= i < |es| ==> !es[i].Abort?
    ensures Abandoned(s, es, t, from) == {}
    decreases |es|
  {
    if es != [] {
      assert forall i :: 0 <= i < |es[1..]| ==> es[1..][i] == es[i + 1];
      NothingAbandoned(Step(s, es[0]), es[1..], t, if from == 0 then 0 else from - 1);
    }
  }

  /** Nothing that matched is left, although the workers skip each other's rows,
      if no transaction failed after some finished worker's last select. */
  lemma {:induction false} AllRetractedWhenDone(matching: set<nat>, n: nat, es: seq<Event>, t: State, k: nat)
    requires Reaches(Start(matching, n), es, t) && NoneHolding(t)
    requires k < n && k < |t.workers| && t.workers[k].Done?
    requires forall i :: LastBegin(es, k) <= i < |es| ==> !es[i].Abort?
    ensures t.open == {} && t.owner.Keys == matching && Totals(t.workers) == |matching|
  {
    LeftoversAreAbandoned(matching, n, es, t, k);
    NothingAbandoned(Start(matching, n), es, t, LastBegin(es, k));
  }

  /** A rollback breaks this: the second worker skips the rows the first one
      holds and reports completion, the first fails, and the rows stay. */
  lemma {:induction false} SkippedRowsCanBeLeft(matching: set<nat>)
    requires 0 < |matching| < BATCH_SIZE
    ensures Reaches(Start(matching, 2), [Begin(0, matching), Begin(1, {}), Commit(1), Abort(0)],
                    State(matching, map[], [Failed(0), Done(0)]))
  {
    var s0 := Start(matching, 2);
    assert Held(s0.workers) == {};
    var s1 := Step(s0, Begin(0, matching));
    assert s1.workers == [Holding(matching, 0), Idle(0)];
    assert Held(s1.workers) == matching by { assert s1.workers[0].Holding?; }
    var s2 := Step(s1, Begin(1, {}));
    assert s2.workers == [Holding(matching, 0), Holding({}, 0)];
    var s3 := Step(s2, Commit(1));
    assert s3 == State(matching, map[], [Holding(matching, 0), Done(0)]);
    var s4 := Step(s3, Abort(0));
    assert s4 == State(matching, map[], [Failed(0), Done(0)]);
    assert Reaches(s4, [], s4);
    assert [Abort(0)][1..] == [];
    assert Reaches(s3, [Abort(0)], s4);
    assert [Commit(1), Abort(0)][1..] == [Abort(0)];
    assert Reaches(s2, [Commit(1), Abort(0)], s4);
    assert [Begin(1, {}), Commit(1), Abort(0)][1..] == [Commit(1), Abort(0)];
    assert Reaches(s1, [Begin(1, {}), Commit(1), Abort(0)], s4);
    assert [Begin(0, matching), Begin(1, {}), Commit(1), Abort(0)][1..] == [Begin(1, {}), Commit(1), Abort(0)];
  }
}
