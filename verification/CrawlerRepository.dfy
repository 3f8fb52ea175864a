/** The crawling_targets table: its queries and updates as methods over a map of rows. */
module CrawlerRepositories {
  import opened Common
  import opened CrawlerTargets

  type Rows = map<nat, Target>

  ghost predicate UniqueUrls(rows: Rows) {
    forall i, j :: i in rows && j in rows && rows[i].url == rows[j].url ==> i == j
  }

  ghost predicate Distinct(ids: seq<nat>) {
    forall i, j :: 0 <= i < j < |ids| ==> ids[i] != ids[j]
  }

  /** What the due query may answer: due rows, oldest first, none skipped for a younger one. */
  ghost predicate IsDueBatch(rows: Rows, now: int, limit: nat, batch: seq<nat>) {
    && |batch| <= limit && Distinct(batch)
    && (forall i :: 0 <= i < |batch| ==> batch[i] in rows && Due(rows[batch[i]], now))
    && (forall i, j :: 0 <= i < j < |batch| ==> rows[batch[i]].nextRun <= rows[batch[j]].nextRun)
    && (forall id :: id in rows && Due(rows[id], now) && id !in batch ==>
          |batch| == limit && forall i :: 0 <= i < |batch| ==> rows[batch[i]].nextRun <= rows[id].nextRun)
  }

  /** A batch being collected: the due rows are in it or in `rest`, and none of the rest is older. */
  ghost predicate Collected(rows: Rows, now: int, batch: seq<nat>, rest: set<nat>) {
    && Distinct(batch)
    && (forall i :: 0 <= i < |batch| ==> batch[i] in rows && Due(rows[batch[i]], now) && batch[i] !in rest)
    && (forall i, j :: 0 <= i < j < |batch| ==> rows[batch[i]].nextRun <= rows[batch[j]].nextRun)
    && (forall id :: id in rest ==> id in rows && Due(rows[id], now))
    && (forall id :: id in rows && Due(rows[id], now) && id !in batch ==> id in rest)
    && (forall id, i :: id in rest && 0 <= i < |batch| ==> rows[batch[i]].nextRun <= rows[id].nextRun)
  }

  lemma {:induction false} CollectNext(rows: Rows, now: int, batch: seq<nat>, rest: set<nat>, oldest: nat)
    requires Collected(rows, now, batch, rest) && oldest in rest
    requires forall id :: id in rest ==> rows[oldest].nextRun <= rows[id].nextRun
    ensures Collected(rows, now, batch + [oldest], rest - {oldest})
  {
  }

  /** An UPDATE ... WHERE id = $1 touches one row or none. */
  function Update(rows: Rows, id: nat, e: Event): Rows {
    if id in rows then rows[id := Apply(rows[id], e)] else rows
  }

  function ResetFailing(rows: Rows, now: int): Rows {
    map id | id in rows :: if Failing(rows[id]) then OnReset(rows[id], now) else rows[id]
  }

  /** What the outside world answers about one target: the verifier's finding,
      and whether the write that follows reaches the database. */
  datatype Probe = Probe(finding: Finding, http: int, at: int, stored: bool)

  /** What the health check's query reads of a row, some time before the write. */
  datatype Candidate = Candidate(id: nat, failures: int, health: Health)

  function CandidateOf(rows: Rows, id: nat): Candidate
    requires id in rows
  {
    Candidate(id, rows[id].failures, rows[id].health)
  }

  function Candidates(rows: Rows, ids: seq<nat>): (r: seq<Candidate>)
    requires forall i :: 0 <= i < |ids| ==> ids[i] in rows
    ensures |r| == |ids| && forall i :: 0 <= i < |ids| ==> r[i] == CandidateOf(rows, ids[i])
  {
    seq(|ids|, i requires 0 <= i < |ids| => CandidateOf(rows, ids[i]))
  }

  /** The check switches the target off, and its health was not DEAD already. */
  predicate NewlyOff(s: Candidate, p: Probe) {
    s.health != Dead && !StaysActive(p.finding, p.http, s.failures)
  }

  /** A row after its check: rewritten from the counter `seen`, unless the write failed. */
  ghost predicate Checked(before: Target, after: Target, p: Probe, seen: int) {
    after == if p.stored then Apply(before, HealthCheck(p.finding, p.http, seen, p.at)) else before
  }

  /** The first n targets were each checked from the row they had; all other rows are as before. */
  ghost predicate CheckedUpTo(before: Rows, after: Rows, ids: seq<nat>, probes: seq<Probe>, n: nat)
    requires n <= |ids| == |probes| && before.Keys == after.Keys
    requires forall i :: 0 <= i < |ids| ==> ids[i] in before
  {
    && (forall i :: 0 <= i < n ==> Checked(before[ids[i]], after[ids[i]], probes[i], before[ids[i]].failures))
    && (forall id :: id in before && id !in ids[..n] ==> after[id] == before[id])
  }

  lemma {:induction false} EarlierStay(first: Rows, before: Rows, after: Rows, ids: seq<nat>, probes: seq<Probe>,
                                       n: nat, i: nat)
    requires i < n < |ids| == |probes| && first.Keys == before.Keys == after.Keys && Distinct(ids)
    requires forall k :: 0 <= k < |ids| ==> ids[k] in first
    requires CheckedUpTo(first, before, ids, probes, n)
    requires forall id :: id in after && id != ids[n] ==> after[id] == before[id]
    ensures after[ids[i]] == before[ids[i]]
    ensures Checked(first[ids[i]], after[ids[i]], probes[i], first[ids[i]].failures)
  {
    assert ids[i] != ids[n];
  }

  lemma {:induction false} CheckedNext(first: Rows, before: Rows, after: Rows, ids: seq<nat>,
                                       probes: seq<Probe>, n: nat)
    requires n < |ids| == |probes| && first.Keys == before.Keys == after.Keys && Distinct(ids)
    requires forall i :: 0 <= i < |ids| ==> ids[i] in first
    requires CheckedUpTo(first, before, ids, probes, n)
    requires Checked(before[ids[n]], after[ids[n]], probes[n], first[ids[n]].failures)
    requires forall id :: id in after && id != ids[n] ==> after[id] == before[id]
    ensures CheckedUpTo(first, after, ids, probes, n + 1)
  {
    assert ids[n] !in ids[..n];
    assert ids[..n + 1] == ids[..n] + [ids[n]];
    forall i: nat | i < n + 1 ensures Checked(first[ids[i]], after[ids[i]], probes[i], first[ids[i]].failures) {
      if i < n { EarlierStay(first, before, after, ids, probes, n, i); }
    }
  }

  ghost function NewlyOffBefore(candidates: seq<Candidate>, probes: seq<Probe>, n: nat): set<int>
    requires n <= |candidates| && n <= |probes|
  {
    set i | 0 <= i < n && NewlyOff(candidates[i], probes[i])
  }

  class CrawlerRepository {
    var rows: Rows

    constructor ()
      ensures rows == map[]
    {
      rows := map[];
    }

    method GetDueTargets(now: int, limit: nat) returns (batch: seq<nat>)
      ensures IsDueBatch(rows, now, limit, batch)
    {
      batch := [];
      var rest := set id | id in rows && Due(rows[id], now);
      while |batch| < limit && rest != {}
        invariant |batch| <= limit && Collected(rows, now, batch, rest)
        decreases |rest|
      {
        var oldest := Oldest(rest);
        CollectNext(rows, now, batch, rest, oldest);
        batch := batch + [oldest];
        rest := rest - {oldest};
      }
    }

    method Oldest(ids: set<nat>) returns (oldest: nat)
      requires ids != {} && forall id :: id in ids ==> id in rows
      ensures oldest in ids && forall id :: id in ids ==> rows[oldest].nextRun <= rows[id].nextRun
    {
      assert (forall id :: id !in ids) ==> ids == {};
      oldest :| oldest in ids;
      var todo := ids - {oldest};
      while todo != {}
        invariant todo <= ids && oldest in ids
        invariant forall id :: id in ids && id !in todo ==> rows[oldest].nextRun <= rows[id].nextRun
        decreases |todo|
      {
        var id :| id in todo;
        todo := todo - {id};
        if rows[id].nextRun < rows[oldest].nextRun {
          oldest := id;
        }
      }
    }

    method UpdateTargetNextRun(id: nat, intervalHours: int, now: int)
      modifies this
      ensures rows == Update(old(rows), id, NextRun(intervalHours, now))
      ensures id in rows ==>
        rows[id].nextRun == now + intervalHours * 3600 * 1_000_000_000 && rows[id].lastScraped == Some(now)
    {
      if id in rows {
        var t := rows[id];
        rows := rows[id := t.(lastScraped := Some(now), nextRun := now + intervalHours * HOUR)];
      }
    }

    method RecordSuccess(id: nat, httpStatusCode: int)
      modifies this
      ensures rows == Update(old(rows), id, Success(httpStatusCode))
    {
      if id in rows {
        rows := rows[id := rows[id].(failures := 0, lastStatus := Some(httpStatusCode), health := Healthy)];
      }
    }

    method RecordFailure(id: nat, httpStatusCode: int, now: int)
      modifies this
      ensures rows == Update(old(rows), id, Failure(httpStatusCode, now))
    {
      if id in rows {
        var t := rows[id];
        var failures := t.failures + 1;
        var trip := httpStatusCode in {404, 410} || (httpStatusCode != 429 && failures >= 5);
        var nextRun := t.nextRun;
        if httpStatusCode == 429 {
          if failures <= 1 { nextRun := now + 30 * MINUTE; }
          else if failures == 2 { nextRun := now + 2 * HOUR; }
          else if failures == 3 { nextRun := now + 6 * HOUR; }
          else { nextRun := now + 24 * HOUR; }
        }
        rows := rows[id := t.(
          failures := failures,
          lastStatus := Some(httpStatusCode),
          health := if trip then DisabledDeadLink else Degraded,
          active := if trip then false else t.active,
          nextRun := nextRun)];
      }
    }

    /** `newID` is the key the database generates for an inserted row. */
    method CreateTarget(newID: nat, url: string, checkIntervalHours: int, isActive: bool, now: int) returns (id: nat)
      requires UniqueUrls(rows) && newID !in rows
      modifies this
      ensures UniqueUrls(rows) && id in rows && rows[id].url == url
      ensures id in old(rows) ==> rows == Update(old(rows), id, Recreate)
      ensures rows[id].active <==> id in old(rows) || isActive
      ensures id !in old(rows) ==>
        && rows[id].nextRun == now && rows[id].health == Healthy && rows[id].failures == 0
        && rows[id].interval == (if checkIntervalHours > 0 then checkIntervalHours else 24)
      ensures id !in old(rows) ==>
        id == newID && rows == old(rows)[id := NewTarget(url, checkIntervalHours, isActive, now)]
    {
      var hours := checkIntervalHours;
      if hours <= 0 {
        hours := 24;
      }
      if known :| known in rows && rows[known].url == url {
        rows := rows[known := rows[known].(active := true)];
        return known;
      }
      rows := rows[newID := Target(url, hours, now, isActive, 0, Healthy, None, None)];
      return newID;
    }

    /** With no target id every failing row is reset; the answer counts the rows touched. */
    method ResetCrawlerErrors(targetID: Option<nat>, now: int) returns (affected: nat)
      modifies this
      ensures targetID.Some? ==> rows == Update(old(rows), targetID.value, Reset(now))
      ensures targetID.Some? ==> affected == if targetID.value in old(rows) then 1 else 0
      ensures targetID.None? ==> rows == ResetFailing(old(rows), now)
      ensures targetID.None? ==> affected == |set id | id in old(rows) && Failing(old(rows)[id])|
    {
      if targetID.Some? {
        var id := targetID.value;
        if id in rows {
          rows := rows[id := rows[id].(failures := 0, health := Healthy, active := true, nextRun := now)];
          return 1;
        }
        return 0;
      }
      var hit := set id | id in rows && Failing(rows[id]);
      rows := map id | id in rows ::
        if id in hit then rows[id].(failures := 0, health := Healthy, active := true, nextRun := now) else rows[id];
      return |hit|;
    }

    /** One target of the health check: the finding and the candidate decide, and
        the row is written whatever has become of it since the query. */
    method CheckTarget(tgt: Candidate, p: Probe) returns (newlyOff: bool)
      modifies this
      ensures rows.Keys == old(rows).Keys
      ensures tgt.id in rows ==> Checked(old(rows)[tgt.id], rows[tgt.id], p, tgt.failures)
      ensures forall id :: id in rows && id != tgt.id ==> rows[id] == old(rows)[id]
      ensures newlyOff <==> NewlyOff(tgt, p)
    {
      var health, failures, active := Healthy, 0, true;
      match p.finding {
        case FoundHealthy =>
        case FoundDegraded =>
          health := Degraded;
          if p.http == 429 {
            failures := tgt.failures;
          } else {
            failures := tgt.failures + 1;
            active := failures < 3;
          }
        case FoundDeadLink =>
          health, failures, active := Dead, tgt.failures + 1, false;
      }
      newlyOff := !active && tgt.health != Dead;
      if p.stored && tgt.id in rows {
        var t := rows[tgt.id];
        rows := rows[tgt.id := t.(health := health, lastStatus := Some(p.http), failures := failures, active := active,
                                  nextRun := if p.http == 429 then p.at + Backoff(failures) else t.nextRun)];
      }
    }

    /** The turn of target n, when those before it have been checked since `first`. */
    method CheckNext(ghost first: Rows, ids: seq<nat>, tgt: Candidate, probes: seq<Probe>, n: nat)
      returns (newlyOff: bool)
      requires n < |ids| == |probes| && Distinct(ids) && first.Keys == rows.Keys
      requires forall i :: 0 <= i < |ids| ==> ids[i] in first
      requires CheckedUpTo(first, rows, ids, probes, n) && tgt == CandidateOf(first, ids[n])
      modifies this
      ensures rows.Keys == first.Keys && CheckedUpTo(first, rows, ids, probes, n + 1)
      ensures newlyOff <==> NewlyOff(tgt, probes[n])
    {
      ghost var before := rows;
      newlyOff := CheckTarget(tgt, probes[n]);
      CheckedNext(first, before, rows, ids, probes, n);
    }

    /** The batch health check of the targets `ids` that its query selected; it
        stops early when the context is cancelled before target `stop`. Every
        target before that is checked from its own row, no other row changes,
        and the targets switched off are counted, written or not. */
    method HandleURLHealthCheck(ids: seq<nat>, probes: seq<Probe>, stop: nat)
      returns (checked: nat, deactivated: nat)
      requires |probes| == |ids| && Distinct(ids)
      requires forall i :: 0 <= i < |ids| ==> ids[i] in rows
      modifies this
      ensures checked == (if stop < |ids| then stop else |ids|)
      ensures rows.Keys == old(rows).Keys && CheckedUpTo(old(rows), rows, ids, probes, checked)
      ensures deactivated == |NewlyOffBefore(Candidates(old(rows), ids), probes, checked)|
    {
      ghost var first := rows;
      var targets := Candidates(rows, ids);
      checked, deactivated := 0, 0;
      NoneOffYet(targets, probes);
      while checked < |ids| && checked < stop
        invariant checked <= |ids| && checked <= stop
        invariant first.Keys == rows.Keys && CheckedUpTo(first, rows, ids, probes, checked)
        invariant deactivated == |NewlyOffBefore(targets, probes, checked)|
      {
        var newlyOff := CheckNext(first, ids, targets[checked], probes, checked);
        NewlyOffNext(targets, probes, checked);
        if newlyOff {
          deactivated := deactivated + 1;
        }
        checked := checked + 1;
      }
    }
  }

  lemma {:induction false} NoneOffYet(candidates: seq<Candidate>, probes: seq<Probe>)
    ensures |NewlyOffBefore(candidates, probes, 0)| == 0
  {
    assert NewlyOffBefore(candidates, probes, 0) == {};
  }

  /** A check that is counted finds the row with another health than DEAD and
      would leave it inactive; no other check is counted. */
  lemma {:induction false} NewlyOffMeans(rows: Rows, id: nat, p: Probe)
    requires id in rows
    ensures NewlyOff(CandidateOf(rows, id), p) <==>
      && rows[id].health != Dead
      && !Apply(rows[id], HealthCheck(p.finding, p.http, rows[id].failures, p.at)).active
  {
  }

  /** "Reset all" makes every failing row healthy, active and due now, and leaves the others alone. */
  lemma {:induction false} ResetFailingMeans(rows: Rows, now: int, id: nat)
    requires id in rows
    ensures id in ResetFailing(rows, now) && ResetFailing(rows, now).Keys == rows.Keys
    ensures var t, t' := rows[id], ResetFailing(rows, now)[id];
      if (t.lastStatus.Some? && t.lastStatus.value >= 400) || t.health != Healthy
      then t'.active && t'.health == Healthy && t'.failures == 0 && t'.nextRun == now && t'.url == t.url
      else t' == t
  {
  }

  lemma {:induction false} NewlyOffNext(candidates: seq<Candidate>, probes: seq<Probe>, n: nat)
    requires n < |candidates| && n < |probes|
    ensures |NewlyOffBefore(candidates, probes, n + 1)|
         == |NewlyOffBefore(candidates, probes, n)| + if NewlyOff(candidates[n], probes[n]) then 1 else 0
  {
    var before := NewlyOffBefore(candidates, probes, n);
    assert NewlyOffBefore(candidates, probes, n + 1)
        == if NewlyOff(candidates[n], probes[n]) then before + {n} else before;
  }
}
