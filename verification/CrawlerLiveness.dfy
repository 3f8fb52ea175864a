/**
 * No due target is starved: a watched target's rank among the due targets never
 * grows, and a dispatch cycle that passes it over takes a rival away for every
 * dispatch that succeeds.
 */
module CrawlerLiveness {
  import opened Common
  import opened CrawlerTargets
  import opened CrawlerRepositories

  const BATCH_LIMIT: nat := 50

  /** One committed write to the table. */
  datatype Action =
    | OnTarget(id: nat, event: Event)
    | Register(id: nat, url: string, hours: int, active: bool, at: int)

  function Act(rows: Rows, a: Action): Rows {
    match a
    case OnTarget(id, e) => Update(rows, id, e)
    case Register(id, url, hours, active, at) =>
      if id in rows then rows else rows[id := NewTarget(url, hours, active, at)]
  }

  function ActAll(rows: Rows, actions: seq<Action>): Rows
    decreases |actions|
  {
    if actions == [] then rows else ActAll(Act(rows, actions[0]), actions[1..])
  }

  predicate Ready(t: Target) { t.active && t.health != DisabledDeadLink }

  /** The targets ordered at or before the watched one. */
  ghost function Rivals(rows: Rows, watched: nat): set<nat>
    requires watched in rows
  {
    set id | id in rows && id != watched && Ready(rows[id]) && rows[id].nextRun <= rows[watched].nextRun
  }

  /** What may happen around the watched target: time has passed its due time,
      nothing is done to it, dispatched targets move forward, and no callback,
      re-registration or health check brings an old target back. */
  ghost predicate Admissible(rows: Rows, watched: nat, a: Action)
    requires watched in rows
  {
    var due := rows[watched].nextRun;
    match a
    case Register(_, _, _, _, at) => due < at
    case OnTarget(id, e) =>
      id != watched
      && match e
         case Reset(at) => due < at
         case NextRun(hours, at) => due <= at && 0 < hours
         case Failure(_, at) => due < at && !Revives(rows, id, e)
         case HealthCheck(_, _, _, at) => due < at && !Revives(rows, id, e)
         case _ => !Revives(rows, id, e)
  }

  predicate Revives(rows: Rows, id: nat, e: Event) {
    id in rows && !Ready(rows[id]) && Ready(Apply(rows[id], e))
  }

  ghost predicate AllAdmissible(rows: Rows, watched: nat, actions: seq<Action>)
    requires watched in rows
    decreases |actions|
  {
    actions != [] ==>
      Admissible(rows, watched, actions[0])
      && watched in Act(rows, actions[0])
      && AllAdmissible(Act(rows, actions[0]), watched, actions[1..])
  }

  lemma {:induction false} ActShrinksRivals(rows: Rows, watched: nat, a: Action)
    requires watched in rows && Admissible(rows, watched, a)
    ensures watched in Act(rows, a) && Act(rows, a)[watched] == rows[watched]
    ensures Rivals(Act(rows, a), watched) <= Rivals(rows, watched)
    ensures a.OnTarget? && a.event.NextRun? ==> a.id !in Rivals(Act(rows, a), watched)
  {
  }

  /** A registration under a new id adds the row, due at once if active, and touches no other. */
  lemma {:induction false} RegistrationAddsRow(rows: Rows, a: Action, now: int, id: nat)
    requires a.Register? && a.id !in rows
    ensures a.id in Act(rows, a) && Act(rows, a)[a.id].url == a.url
    ensures Due(Act(rows, a)[a.id], now) <==> a.active && a.at <= now
    ensures id != a.id ==> (id in Act(rows, a) <==> id in rows) && (id in rows ==> Act(rows, a)[id] == rows[id])
  {
  }

  /** The cycle has dispatched `id`: its next run was rescheduled. */
  predicate Dispatched(id: nat, actions: seq<Action>) {
    exists i :: 0 <= i < |actions| && actions[i].OnTarget? && actions[i].id == id && actions[i].event.NextRun?
  }

  lemma {:induction false} ActionsShrinkRivals(rows: Rows, watched: nat, actions: seq<Action>)
    requires watched in rows && AllAdmissible(rows, watched, actions)
    ensures watched in ActAll(rows, actions) && ActAll(rows, actions)[watched] == rows[watched]
    ensures Rivals(ActAll(rows, actions), watched) <= Rivals(rows, watched)
    ensures forall id :: Dispatched(id, actions) ==> id !in Rivals(ActAll(rows, actions), watched)
    decreases |actions|
  {
    if actions != [] {
      ActShrinksRivals(rows, watched, actions[0]);
      ActionsShrinkRivals(Act(rows, actions[0]), watched, actions[1..]);
      forall id | Dispatched(id, actions)
        ensures id !in Rivals(ActAll(rows, actions), watched)
      {
        var i :| 0 <= i < |actions| && actions[i].OnTarget? && actions[i].id == id && actions[i].event.NextRun?;
        if i > 0 {
          assert actions[1..][i - 1] == actions[i];
          assert Dispatched(id, actions[1..]);
        }
      }
    }
  }

  /** One cycle: the query's batch at `now`, then the dispatches of that batch
      and whatever else is written before the next query, in any order. */
  datatype Cycle = Cycle(now: int, batch: seq<nat>, actions: seq<Action>)

  /** The cycle passes the watched target over; its dispatches may succeed or fail. */
  ghost predicate PassedOver(rows: Rows, watched: nat, c: Cycle)
    requires watched in rows
  {
    watched !in c.batch && AllAdmissible(rows, watched, c.actions)
  }

  /** The cycles happen one after the other, until one of them dispatches the watched target. */
  ghost predicate Runs(rows: Rows, watched: nat, cycles: seq<Cycle>)
    requires watched in rows
    decreases |cycles|
  {
    cycles != [] ==>
      var c := cycles[0];
      && rows[watched].nextRun <= c.now
      && IsDueBatch(rows, c.now, BATCH_LIMIT, c.batch)
      && (watched in c.batch
          || (PassedOver(rows, watched, c)
              && watched in ActAll(rows, c.actions)
              && Runs(ActAll(rows, c.actions), watched, cycles[1..])))
  }

  ghost function Members(ids: seq<nat>): set<nat> {
    set id | id in ids
  }

  /** The members of a duplicate-free sequence are as many as its length. */
  lemma {:induction false} DistinctSize(ids: seq<nat>)
    requires Distinct(ids)
    ensures |Members(ids)| == |ids|
  {
    if ids != [] {
      var n := |ids| - 1;
      DistinctSize(ids[..n]);
      assert ids == ids[..n] + [ids[n]];
      assert ids[n] !in Members(ids[..n]);
      assert Members(ids) == Members(ids[..n]) + {ids[n]};
    }
  }

  /** A batch that passes a due target over is full, and made of its rivals. */
  lemma {:induction false} FullBatchOfRivals(rows: Rows, watched: nat, now: int, batch: seq<nat>)
    requires watched in rows && watched !in batch && Due(rows[watched], now)
    requires IsDueBatch(rows, now, BATCH_LIMIT, batch)
    ensures |batch| == BATCH_LIMIT && Members(batch) <= Rivals(rows, watched)
  {
  }

  /** The targets of the batch whose dispatch succeeded. */
  ghost function Served(c: Cycle): set<nat> {
    set id | id in Members(c.batch) && Dispatched(id, c.actions)
  }

  /** Each successful dispatch of a cycle that passes a due target over takes one rival away. */
  lemma {:induction false} CycleDropsRank(rows: Rows, watched: nat, c: Cycle)
    requires watched in rows && Ready(rows[watched]) && rows[watched].nextRun <= c.now
    requires IsDueBatch(rows, c.now, BATCH_LIMIT, c.batch)
    requires PassedOver(rows, watched, c)
    ensures |c.batch| == BATCH_LIMIT <= |Rivals(rows, watched)|
    ensures watched in ActAll(rows, c.actions) && ActAll(rows, c.actions)[watched] == rows[watched]
    ensures |Rivals(ActAll(rows, c.actions), watched)| + |Served(c)| <= |Rivals(rows, watched)|
  {
    FullBatchOfRivals(rows, watched, c.now, c.batch);
    DistinctSize(c.batch);
    SubsetSize(Members(c.batch), Rivals(rows, watched));
    ActionsShrinkRivals(rows, watched, c.actions);
    RemainingRivals(Rivals(ActAll(rows, c.actions), watched), Rivals(rows, watched), Served(c));
  }

  lemma {:induction false} RemainingRivals(after: set<nat>, before: set<nat>, served: set<nat>)
    requires after <= before && served <= before && after !! served
    ensures |after| + |served| <= |before|
  {
    SubsetSize(after + served, before);
  }

  ghost function TotalServed(cycles: seq<Cycle>): nat
    decreases |cycles|
  {
    if cycles == [] then 0 else |Served(cycles[0])| + TotalServed(cycles[1..])
  }

  /** A due target has its turn at the latest in the cycle before which the
      successful dispatches have left it fewer than fifty rivals, however they
      are spread over the cycles. */
  lemma {:induction false} SuccessesBringTheTurn(rows: Rows, watched: nat, cycles: seq<Cycle>)
    requires watched in rows && Ready(rows[watched]) && Runs(rows, watched, cycles) && cycles != []
    requires TotalServed(cycles[..|cycles| - 1]) + BATCH_LIMIT > |Rivals(rows, watched)|
    ensures exists i :: 0 <= i < |cycles| && watched in cycles[i].batch
    decreases |cycles|
  {
    var c := cycles[0];
    if watched !in c.batch {
      CycleDropsRank(rows, watched, c);
      var rest := cycles[1..];
      if rest != [] {
        assert cycles[..|cycles| - 1][1..] == rest[..|rest| - 1];
        SuccessesBringTheTurn(ActAll(rows, c.actions), watched, rest);
        var i :| 0 <= i < |rest| && watched in rest[i].batch;
        assert cycles[i + 1] == rest[i];
      }
    }
  }

  ghost predicate FullyServed(c: Cycle) {
    forall i :: 0 <= i < |c.batch| ==> Dispatched(c.batch[i], c.actions)
  }

  /** When every dispatch succeeds, a due target with r rivals is in one of the
      first r / 50 + 1 batches. */
  lemma {:induction false} DueTargetIsDispatched(rows: Rows, watched: nat, cycles: seq<Cycle>)
    requires watched in rows && Ready(rows[watched]) && Runs(rows, watched, cycles)
    requires forall i :: 0 <= i < |cycles| ==> FullyServed(cycles[i])
    requires |cycles| > |Rivals(rows, watched)| / BATCH_LIMIT
    ensures exists i :: 0 <= i <= |Rivals(rows, watched)| / BATCH_LIMIT && watched in cycles[i].batch
    decreases |cycles|
  {
    var c := cycles[0];
    if watched !in c.batch {
      CycleDropsRank(rows, watched, c);
      DistinctSize(c.batch);
      assert FullyServed(c);
      assert Served(c) == Members(c.batch);
      var after := ActAll(rows, c.actions);
      var r, r' := |Rivals(rows, watched)|, |Rivals(after, watched)|;
      assert r' / BATCH_LIMIT <= r / BATCH_LIMIT - 1;
      assert forall i :: 0 <= i < |cycles[1..]| ==> cycles[1..][i] == cycles[i + 1];
      DueTargetIsDispatched(after, watched, cycles[1..]);
      var i :| 0 <= i <= r' / BATCH_LIMIT && watched in cycles[1..][i].batch;
      assert cycles[i + 1] == cycles[1..][i];
    }
  }

  // ---------------------------------------------------------------- being passed over

  lemma {:induction false} OldestOf(rows: Rows, ids: set<nat>) returns (oldest: nat)
    requires ids != {} && forall id :: id in ids ==> id in rows
    ensures oldest in ids && forall id :: id in ids ==> rows[oldest].nextRun <= rows[id].nextRun
    decreases |ids|
  {
    assert (forall id :: id !in ids) ==> ids == {};
    var some: nat :| some in ids;
    var rest := ids - {some};
    oldest := some;
    if rest != {} {
      var other := OldestOf(rows, rest);
      if rows[other].nextRun < rows[some].nextRun { oldest := other; }
    }
    forall id | id in ids ensures rows[oldest].nextRun <= rows[id].nextRun {
      if id != some { assert id in rest; }
    }
  }

  lemma {:induction false} SomeLeft(all: set<nat>, taken: set<nat>)
    requires |taken| < |all|
    ensures exists id :: id in all && id !in taken
  {
    if all <= taken { SubsetSize(all, taken); }
  }

  /** As long as a rival is left, the oldest of the others left is a rival. */
  lemma {:induction false} OldestIsRival(rows: Rows, watched: nat, now: int, batch: seq<nat>, rest: set<nat>)
    returns (oldest: nat)
    requires watched in rows && Due(rows[watched], now) && Collected(rows, now, batch, rest)
    requires watched in rest && |Members(batch)| < |Rivals(rows, watched)|
    ensures oldest in rest && oldest in Rivals(rows, watched)
    ensures forall id :: id in rest ==> rows[oldest].nextRun <= rows[id].nextRun
  {
    SomeLeft(Rivals(rows, watched), Members(batch));
    var rival :| rival in Rivals(rows, watched) && rival !in Members(batch);
    assert rival !in batch && Due(rows[rival], now);
    assert rival in rest - {watched};
    oldest := OldestOf(rows, rest - {watched});
    assert rows[oldest].nextRun <= rows[rival].nextRun;
    assert forall id :: id in rest ==> id == watched || id in rest - {watched};
  }

  /** Collecting the oldest due targets can leave the watched one for last among its rivals. */
  lemma {:induction false} CollectRivals(rows: Rows, watched: nat, now: int, n: nat)
    returns (batch: seq<nat>, rest: set<nat>)
    requires watched in rows && Due(rows[watched], now) && n <= |Rivals(rows, watched)|
    ensures |batch| == n && Collected(rows, now, batch, rest) && watched in rest
  {
    if n == 0 {
      return [], set id | id in rows && Due(rows[id], now);
    }
    batch, rest := CollectRivals(rows, watched, now, n - 1);
    DistinctSize(batch);
    var oldest := OldestIsRival(rows, watched, now, batch, rest);
    CollectNext(rows, now, batch, rest, oldest);
    batch, rest := batch + [oldest], rest - {oldest};
  }

  /** The due query can pass a due target over exactly when it has at least fifty rivals. */
  lemma {:induction false} PassedOverIff(rows: Rows, watched: nat, now: int)
    requires watched in rows && Due(rows[watched], now)
    ensures (exists batch :: IsDueBatch(rows, now, BATCH_LIMIT, batch) && watched !in batch)
            <==> |Rivals(rows, watched)| >= 50
  {
    if batch :| IsDueBatch(rows, now, BATCH_LIMIT, batch) && watched !in batch {
      FullBatchOfRivals(rows, watched, now, batch);
      DistinctSize(batch);
      SubsetSize(Members(batch), Rivals(rows, watched));
    }
    if |Rivals(rows, watched)| >= BATCH_LIMIT {
      var batch, rest := CollectRivals(rows, watched, now, BATCH_LIMIT);
      assert IsDueBatch(rows, now, BATCH_LIMIT, batch);
    }
  }

  /** Without successes there is no turn: when the dispatches of a full batch all
      fail nothing is rescheduled, and the same batch may be chosen forever. */
  lemma {:induction false} FailedDispatchesStarve(rows: Rows, watched: nat, now: int, later: int, batch: seq<nat>)
    requires watched in rows && watched !in batch && Due(rows[watched], now) && now <= later
    requires IsDueBatch(rows, now, BATCH_LIMIT, batch)
    ensures IsDueBatch(rows, later, BATCH_LIMIT, batch)
  {
    assert |batch| == BATCH_LIMIT;
    assert Due(rows[batch[0]], now);
  }
}
