/** One dispatch cycle: due query, interleaving, per-host spacing and rescheduling. */
module CrawlerDispatchers {
  import opened Common
  import opened CrawlerTargets
  import opened CrawlerRepositories
  import opened CrawlerSchedules
  import opened CrawlerLiveness
  import opened HostInterleaving

  const SAME_HOST_MIN_DELAY: int := 3 * SECOND

  /** What a cycle keeps of a due row. */
  datatype DueTarget = DueTarget(id: nat, url: string, interval: int)

  /** What the outside world decides about one target: how long each stretch
      takes, whether the context is cancelled in a wait, and what succeeds. */
  datatype Attempt = Attempt(
    before: nat, oversleep: nat, cancelled: bool, logging: nat, sending: nat, sent: bool, storing: nat, stored: bool)

  /** One dispatch: `completed` is the time recorded for its host after a success. */
  datatype Dispatch = Dispatch(target: DueTarget, host: string, start: int, sent: bool, stored: bool, completed: int)

  /** The rows after the recorded dispatches: each stored success was rescheduled. */
  function Rescheduled(rows: Rows, log: seq<Dispatch>): Rows {
    if log == [] then rows
    else
      var d := log[|log| - 1];
      var before := Rescheduled(rows, log[..|log| - 1]);
      if d.sent && d.stored then Update(before, d.target.id, NextRun(d.target.interval, d.completed)) else before
  }

  ghost predicate Spaced(log: seq<Dispatch>) {
    forall i, j :: 0 <= i < j < |log| && log[i].host == log[j].host && log[i].sent
      ==> log[i].completed + 3_000_000_000 <= log[j].start
  }

  /** Nobody waits without reason: a dispatch to a host without an earlier success
      starts as soon as its own work is done, and any other at most the minimum
      delay, and what the timer oversleeps, later than that. */
  ghost predicate Prompt(log: seq<Dispatch>, begin: int, world: seq<Attempt>)
    requires |log| <= |world|
  {
    forall j :: 0 <= j < |log| ==> PromptAt(log, begin, world, j)
  }

  ghost predicate PromptAt(log: seq<Dispatch>, begin: int, world: seq<Attempt>, j: nat)
    requires j < |log| && j < |world|
  {
    && Ready(log, begin, world, j) <= log[j].start <= Ready(log, begin, world, j) + 3_000_000_000 + world[j].oversleep
    && (!SentBefore(log, j, log[j].host) ==> log[j].start == Ready(log, begin, world, j))
  }

  /** When dispatch j could start if it had not to wait for its host. */
  function Ready(log: seq<Dispatch>, begin: int, world: seq<Attempt>, j: nat): int
    requires j <= |log| && j < |world|
  {
    (if j == 0 then begin else log[j - 1].completed) + world[j].before + world[j].logging
  }

  ghost predicate SentBefore(log: seq<Dispatch>, j: nat, host: string)
    requires j <= |log|
  {
    exists i :: 0 <= i < j && log[i].sent && log[i].host == host
  }

  /** The map holds, for each host, a time no earlier than any recorded success on it. */
  ghost predicate Remembered(log: seq<Dispatch>, last: map<string, int>) {
    && (forall i :: 0 <= i < |log| && log[i].sent ==> log[i].host in last && log[i].completed <= last[log[i].host])
    && (forall h :: h in last ==> exists i :: 0 <= i < |log| && log[i].sent && log[i].host == h)
  }

  /** A dispatch of that target, with what the outside world decided about it. */
  predicate Carries(d: Dispatch, target: DueTarget, host: string, w: Attempt) {
    d.target == target && d.host == host && d.sent == w.sent && d.stored == w.stored
  }

  lemma {:induction false} SpacedSnoc(log: seq<Dispatch>, last: map<string, int>, d: Dispatch)
    requires Spaced(log) && Remembered(log, last)
    requires d.host in last ==> last[d.host] + 3_000_000_000 <= d.start
    ensures Spaced(log + [d])
  {
  }

  lemma {:induction false} RememberedSnoc(log: seq<Dispatch>, last: map<string, int>, d: Dispatch)
    requires Remembered(log, last)
    requires forall h :: h in last ==> last[h] <= d.completed
    ensures Remembered(log + [d], if d.sent then last[d.host := d.completed] else last)
  {
    var all, last' := log + [d], if d.sent then last[d.host := d.completed] else last;
    forall h | h in last' ensures exists i :: 0 <= i < |all| && all[i].sent && all[i].host == h {
      if d.sent && h == d.host {
        assert all[|log|] == d;
      } else {
        var i :| 0 <= i < |log| && log[i].sent && log[i].host == h;
        assert all[i] == log[i];
      }
    }
  }

  lemma {:induction false} PromptAtKept(log: seq<Dispatch>, begin: int, world: seq<Attempt>, d: Dispatch, j: nat)
    requires j < |log| && j < |world| && PromptAt(log, begin, world, j)
    ensures PromptAt(log + [d], begin, world, j)
  {
    var all := log + [d];
    assert forall i :: 0 <= i < |log| ==> all[i] == log[i];
    if SentBefore(log, j, log[j].host) {
      var i :| 0 <= i < j && log[i].sent && log[i].host == log[j].host;
      assert all[i].sent && all[i].host == all[j].host;
    }
  }

  lemma {:induction false} PromptSnoc(log: seq<Dispatch>, begin: int, world: seq<Attempt>, last: map<string, int>,
                                      d: Dispatch)
    requires |log| < |world| && Prompt(log, begin, world) && Remembered(log, last)
    requires Ready(log, begin, world, |log|) <= d.start
    requires d.start <= Ready(log, begin, world, |log|) + 3_000_000_000 + world[|log|].oversleep
    requires d.host !in last ==> d.start == Ready(log, begin, world, |log|)
    ensures Prompt(log + [d], begin, world)
  {
    var all := log + [d];
    forall j: nat | j < |log| ensures PromptAt(all, begin, world, j) { PromptAtKept(log, begin, world, d, j); }
    if d.host in last {
      var i :| 0 <= i < |log| && log[i].sent && log[i].host == d.host;
      assert all[i] == log[i];
      assert SentBefore(all, |log|, d.host);
    }
    assert PromptAt(all, begin, world, |log|);
  }

  /** What the loop over the targets keeps: `last` are the remembered successes, `now` the time. */
  ghost predicate Progress(log: seq<Dispatch>, targets: seq<DueTarget>, extractHost: string -> string, begin: int,
                           world: seq<Attempt>, last: map<string, int>, now: int)
    requires |log| <= |targets| == |world|
  {
    && Dispatches(log, targets, extractHost, begin, world)
    && Spaced(log) && Prompt(log, begin, world) && Remembered(log, last)
    && (forall i :: 0 <= i < |log| ==> log[i].completed <= now)
    && (forall h :: h in last ==> last[h] <= now)
    && now == if log == [] then begin else log[|log| - 1].completed
  }

  /** The targets were dispatched in turn, each with what the world decided about it. */
  ghost predicate Dispatches(log: seq<Dispatch>, targets: seq<DueTarget>, extractHost: string -> string, begin: int,
                             world: seq<Attempt>)
    requires |log| <= |targets| == |world|
  {
    forall k :: 0 <= k < |log| ==>
      && Carries(log[k], targets[k], extractHost(targets[k].url), world[k])
      && begin <= log[k].start <= log[k].completed
  }

  lemma {:induction false} ProgressSnoc(log: seq<Dispatch>, targets: seq<DueTarget>, extractHost: string -> string,
                                        begin: int, world: seq<Attempt>, last: map<string, int>, now: int, d: Dispatch)
    requires |log| < |targets| == |world| && Progress(log, targets, extractHost, begin, world, last, now)
    requires begin <= now && now <= d.start <= d.completed
    requires Carries(d, targets[|log|], extractHost(targets[|log|].url), world[|log|])
    requires d.host in last ==> last[d.host] + 3_000_000_000 <= d.start
    requires var w := world[|log|]; now + w.before + w.logging <= d.start
    requires var w := world[|log|]; d.start <= now + w.before + w.logging + 3_000_000_000 + w.oversleep
    requires var w := world[|log|]; d.host !in last ==> d.start == now + w.before + w.logging
    ensures var last' := if d.sent then last[d.host := d.completed] else last;
      Progress(log + [d], targets, extractHost, begin, world, last', d.completed)
  {
    SpacedSnoc(log, last, d);
    PromptSnoc(log, begin, world, last, d);
    RememberedSnoc(log, last, d);
    assert (log + [d])[|log|] == d;
  }

  lemma {:induction false} RescheduledSnoc(rows: Rows, log: seq<Dispatch>, d: Dispatch)
    ensures Rescheduled(rows, log + [d]) ==
      if d.sent && d.stored then Update(Rescheduled(rows, log), d.target.id, NextRun(d.target.interval, d.completed))
      else Rescheduled(rows, log)
  {
    assert (log + [d])[..|log|] == log;
  }

  function Snapshot(rows: Rows, batch: seq<nat>): seq<DueTarget>
    requires forall i :: 0 <= i < |batch| ==> batch[i] in rows
  {
    seq(|batch|, i requires 0 <= i < |batch| => DueTarget(batch[i], rows[batch[i]].url, rows[batch[i]].interval))
  }

  class CrawlerDispatcher {
    const repo: CrawlerRepository
    const extractHost: string -> string

    constructor (repo: CrawlerRepository, extractHost: string -> string)
      ensures this.repo == repo && this.extractHost == extractHost
    {
      this.repo := repo;
      this.extractHost := extractHost;
    }

    function HostOf(): DueTarget -> string {
      (t: DueTarget) => extractHost(t.url)
    }

    /** One turn of the loop at time `begin`: wait for the host, dispatch, reschedule. */
    method DispatchOne(target: DueTarget, w: Attempt, begin: int, lastDispatchPerHost: map<string, int>)
      returns (d: Dispatch, cancelled: bool)
      modifies repo
      ensures cancelled ==> repo.rows == old(repo.rows)
      ensures !cancelled ==>
        && Carries(d, target, extractHost(target.url), w)
        && begin <= d.start <= d.completed
        && (d.host in lastDispatchPerHost ==> lastDispatchPerHost[d.host] + SAME_HOST_MIN_DELAY <= d.start)
        && (d.host !in lastDispatchPerHost ==> d.start == begin + w.before + w.logging)
        && begin + w.before + w.logging <= d.start
        && ((d.host in lastDispatchPerHost ==> lastDispatchPerHost[d.host] <= begin + w.before) ==>
              d.start <= begin + w.before + w.logging + 3_000_000_000 + w.oversleep)
        && repo.rows == if d.sent && d.stored
                        then Update(old(repo.rows), target.id, NextRun(target.interval, d.completed))
                        else old(repo.rows)
    {
      var host := extractHost(target.url);
      var now := begin + w.before;
      d := Dispatch(target, host, now, w.sent, w.stored, now);
      if host in lastDispatchPerHost {
        var elapsed := now - lastDispatchPerHost[host];
        if elapsed < SAME_HOST_MIN_DELAY {
          var waitTime := SAME_HOST_MIN_DELAY - elapsed;
          if w.cancelled {
            return d, true;
          }
          now := now + waitTime + w.oversleep;
        }
      }
      var start := now + w.logging;
      now := start + w.sending;
      if w.sent {
        now := now + w.storing;
        if w.stored {
          repo.UpdateTargetNextRun(target.id, target.interval, now);
        }
      }
      d, cancelled := Dispatch(target, host, start, w.sent, w.stored, now), false;
    }

    /** The loop over the interleaved targets, from time `begin`. */
    method DispatchAll(targets: seq<DueTarget>, begin: int, world: seq<Attempt>)
      returns (log: seq<Dispatch>, cancelled: bool)
      requires |world| == |targets|
      modifies repo
      ensures |log| <= |targets| && (!cancelled ==> |log| == |targets|)
      ensures Spaced(log) && Prompt(log, begin, world)
      ensures Dispatches(log, targets, extractHost, begin, world)
      ensures repo.rows == Rescheduled(old(repo.rows), log)
    {
      var now := begin;
      var lastDispatchPerHost: map<string, int> := map[];
      log, cancelled := [], false;
      for k := 0 to |targets|
        invariant |log| == k && !cancelled && begin <= now
        invariant Progress(log, targets, extractHost, begin, world, lastDispatchPerHost, now)
        invariant repo.rows == Rescheduled(old(repo.rows), log)
      {
        var d;
        d, cancelled := DispatchOne(targets[k], world[k], now, lastDispatchPerHost);
        if cancelled {
          return;
        }
        ProgressSnoc(log, targets, extractHost, begin, world, lastDispatchPerHost, now, d);
        RescheduledSnoc(old(repo.rows), log, d);
        now := d.completed;
        log := log + [d];
        if d.sent {
          lastDispatchPerHost := lastDispatchPerHost[d.host := now];
        }
      }
    }

    /** The periodic task: at most fifty due targets, spread over hosts, dispatched
        in turn; every stored success is due again its interval after completion. */
    method HandleDispatchCrawlingTask(now: int, world: seq<Attempt>)
      returns (batch: seq<nat>, log: seq<Dispatch>, cancelled: bool)
      requires |world| == BATCH_LIMIT
      modifies repo
      ensures IsDueBatch(old(repo.rows), now, BATCH_LIMIT, batch)
      ensures Spaced(log) && |log| <= |batch| && (!cancelled ==> |log| == |batch|)
      ensures var due := Interleaved(Snapshot(old(repo.rows), batch), HostOf());
        && |due| == |batch|
        && forall k :: 0 <= k < |log| ==>
             && log[k].target == due[k] && now <= log[k].start <= log[k].completed
             && log[k].sent == world[k].sent && log[k].stored == world[k].stored
      ensures |batch| <= 50 && Prompt(log, now, world)
      ensures forall k :: 0 <= k < |log| ==>
        && log[k].target.id in batch && DescribesRow(log[k], extractHost, old(repo.rows))
        && log[k].target.id in repo.rows
        && Outcome(log[k], old(repo.rows)[log[k].target.id], repo.rows[log[k].target.id])
      ensures forall id :: id in old(repo.rows) && id !in batch ==>
        id in repo.rows && repo.rows[id] == old(repo.rows)[id]
    {
      batch := repo.GetDueTargets(now, BATCH_LIMIT);
      var due := Snapshot(repo.rows, batch);
      InterleavedLength(due, HostOf());
      if |due| == 0 {
        return batch, [], false;
      }
      due := InterleaveTargetsByHost(due, HostOf());
      log, cancelled := DispatchAll(due, now, world[..|due|]);
      PromptExtends(log, now, world, |due|);
      DispatchesDescribe(old(repo.rows), batch, HostOf(), log);
      RescheduledMeans(old(repo.rows), log);
    }
  }

  // ---------------------------------------------------------------- what a cycle leaves

  /** The dispatch carries the row's own URL, interval and host. */
  ghost predicate DescribesRow(d: Dispatch, extractHost: string -> string, rows: Rows) {
    && d.target.id in rows && d.target.url == rows[d.target.id].url && d.target.interval == rows[d.target.id].interval
    && d.host == extractHost(rows[d.target.id].url)
  }

  /** After a stored success the target is due its interval in hours after the
      completion, and counts as dispatched then; otherwise its row is unchanged. */
  ghost predicate Outcome(d: Dispatch, before: Target, after: Target) {
    if d.sent && d.stored
    then
      && after.nextRun - d.completed == d.target.interval * 3600 * 1_000_000_000
      && after == before.(nextRun := after.nextRun, lastScraped := Some(d.completed))
    else after == before
  }

  ghost predicate Handles(log: seq<Dispatch>, id: nat) {
    exists k :: 0 <= k < |log| && log[k].target.id == id
  }

  /** One dispatch changes its own row as told, and no other. */
  lemma {:induction false} DispatchMeans(rows: Rows, log: seq<Dispatch>, id: nat)
    requires log != [] && id in Rescheduled(rows, log[..|log| - 1])
    ensures var d, before := log[|log| - 1], Rescheduled(rows, log[..|log| - 1])[id];
      && id in Rescheduled(rows, log)
      && if d.target.id == id
         then Outcome(d, before, Rescheduled(rows, log)[id])
         else Rescheduled(rows, log)[id] == before
  {
  }

  lemma {:induction false} RowRescheduled(rows: Rows, log: seq<Dispatch>, id: nat)
    requires id in rows && DistinctTargets(log)
    ensures id in Rescheduled(rows, log)
    ensures !Handles(log, id) ==> Rescheduled(rows, log)[id] == rows[id]
    ensures forall k :: 0 <= k < |log| && log[k].target.id == id ==>
      Outcome(log[k], rows[id], Rescheduled(rows, log)[id])
  {
    if log != [] {
      var n := |log| - 1;
      assert forall k :: 0 <= k < n ==> log[..n][k] == log[k];
      RowRescheduled(rows, log[..n], id);
      DispatchMeans(rows, log, id);
      if log[n].target.id == id { assert !Handles(log[..n], id); }
    }
  }

  /** What a cycle on different targets leaves of the table. */
  lemma {:induction false} RescheduledMeans(rows: Rows, log: seq<Dispatch>)
    requires DistinctTargets(log) && forall k :: 0 <= k < |log| ==> log[k].target.id in rows
    ensures forall id :: id in rows ==> id in Rescheduled(rows, log)
    ensures forall id :: id in rows && !Handles(log, id) ==> Rescheduled(rows, log)[id] == rows[id]
    ensures forall k :: 0 <= k < |log| ==>
      Outcome(log[k], rows[log[k].target.id], Rescheduled(rows, log)[log[k].target.id])
  {
    forall id | id in rows
      ensures id in Rescheduled(rows, log)
      ensures !Handles(log, id) ==> Rescheduled(rows, log)[id] == rows[id]
    {
      RowRescheduled(rows, log, id);
    }
    forall k | 0 <= k < |log|
      ensures Outcome(log[k], rows[log[k].target.id], Rescheduled(rows, log)[log[k].target.id])
    {
      RowRescheduled(rows, log, log[k].target.id);
    }
  }

  lemma {:induction false} PromptExtends(log: seq<Dispatch>, begin: int, world: seq<Attempt>, n: nat)
    requires |log| <= n <= |world| && Prompt(log, begin, world[..n])
    ensures Prompt(log, begin, world)
  {
    forall j: nat | j < |log| ensures PromptAt(log, begin, world, j) {
      assert PromptAt(log, begin, world[..n], j);
    }
  }

  /** What the loop dispatched are rows of the batch, each once. */
  lemma {:induction false} DispatchesDescribe(rows: Rows, batch: seq<nat>, host: DueTarget -> string,
                                              log: seq<Dispatch>)
    requires Distinct(batch) && forall i :: 0 <= i < |batch| ==> batch[i] in rows
    requires var due := Interleaved(Snapshot(rows, batch), host);
      |log| <= |due| && forall k :: 0 <= k < |log| ==> log[k].target == due[k]
    ensures DistinctTargets(log)
    ensures forall k :: 0 <= k < |log| ==>
      && log[k].target.id in batch && log[k].target.id in rows
      && log[k].target.url == rows[log[k].target.id].url && log[k].target.interval == rows[log[k].target.id].interval
  {
    var due := Snapshot(rows, batch);
    InterleavedKeepsHosts(due, host);
    RearrangedDistinct(due, Interleaved(due, host));
    forall k | 0 <= k < |log|
      ensures log[k].target.id in batch && log[k].target.id in rows
      ensures log[k].target.url == rows[log[k].target.id].url
      ensures log[k].target.interval == rows[log[k].target.id].interval
    {
      assert log[k].target in multiset(Interleaved(due, host));
      assert log[k].target in multiset(due);
      var i :| 0 <= i < |due| && due[i] == log[k].target;
    }
  }

  // ---------------------------------------------------------------- a cycle as writes

  /** The reschedulings of a cycle, one for each stored success. */
  function Writes(log: seq<Dispatch>): seq<Action> {
    if log == [] then []
    else
      var d := log[|log| - 1];
      Writes(log[..|log| - 1])
      + if d.sent && d.stored then [OnTarget(d.target.id, NextRun(d.target.interval, d.completed))] else []
  }

  ghost function StoredTargets(log: seq<Dispatch>): set<nat> {
    set k | 0 <= k < |log| && log[k].sent && log[k].stored :: log[k].target.id
  }

  function StoredSuccesses(log: seq<Dispatch>): nat {
    if log == [] then 0
    else StoredSuccesses(log[..|log| - 1]) + if log[|log| - 1].sent && log[|log| - 1].stored then 1 else 0
  }

  lemma {:induction false} ActAllSnoc(rows: Rows, actions: seq<Action>, a: Action)
    ensures ActAll(rows, actions + [a]) == Act(ActAll(rows, actions), a)
    decreases |actions|
  {
    if actions == [] {
      assert [a][1..] == [];
    } else {
      ActAllSnoc(Act(rows, actions[0]), actions[1..], a);
      assert (actions + [a])[1..] == actions[1..] + [a];
    }
  }

  lemma {:induction false} WritesAreRescheduling(rows: Rows, log: seq<Dispatch>)
    ensures Rescheduled(rows, log) == ActAll(rows, Writes(log))
  {
    if log != [] {
      var n := |log| - 1;
      var d := log[n];
      WritesAreRescheduling(rows, log[..n]);
      if d.sent && d.stored {
        ActAllSnoc(rows, Writes(log[..n]), OnTarget(d.target.id, NextRun(d.target.interval, d.completed)));
      } else {
        assert Writes(log) == Writes(log[..n]);
      }
    }
  }

  lemma {:induction false} StoredSnoc(log: seq<Dispatch>)
    requires log != []
    ensures var d := log[|log| - 1];
      StoredTargets(log) == StoredTargets(log[..|log| - 1]) + if d.sent && d.stored then {d.target.id} else {}
  {
    var n := |log| - 1;
    forall id | id in StoredTargets(log) && (!log[n].sent || !log[n].stored || id != log[n].target.id)
      ensures id in StoredTargets(log[..n])
    {
      var k :| 0 <= k < |log| && log[k].sent && log[k].stored && log[k].target.id == id;
      assert log[..n][k] == log[k];
    }
    forall id | id in StoredTargets(log[..n]) ensures id in StoredTargets(log) {
      var k :| 0 <= k < n && log[..n][k].sent && log[..n][k].stored && log[..n][k].target.id == id;
      assert log[k] == log[..n][k];
    }
  }

  /** Appending an action dispatches its target, and keeps what was dispatched. */
  lemma {:induction false} DispatchedSnoc(id: nat, actions: seq<Action>, a: Action)
    requires a.OnTarget? && a.event.NextRun?
    ensures Dispatched(id, actions + [a]) <==> Dispatched(id, actions) || id == a.id
  {
    var all := actions + [a];
    assert all[|actions|] == a;
    if Dispatched(id, actions) {
      var i :| 0 <= i < |actions| && actions[i].OnTarget? && actions[i].id == id && actions[i].event.NextRun?;
      assert all[i] == actions[i];
    }
  }

  /** The writes dispatch exactly the targets of the stored successes. */
  lemma {:induction false} WritesDispatch(log: seq<Dispatch>, id: nat)
    ensures Dispatched(id, Writes(log)) <==> id in StoredTargets(log)
  {
    if log != [] {
      var n := |log| - 1;
      var d := log[n];
      WritesDispatch(log[..n], id);
      StoredSnoc(log);
      if d.sent && d.stored {
        DispatchedSnoc(id, Writes(log[..n]), OnTarget(d.target.id, NextRun(d.target.interval, d.completed)));
      } else {
        assert Writes(log) == Writes(log[..n]);
      }
    }
  }

  ghost predicate DistinctTargets(log: seq<Dispatch>) {
    forall i, j :: 0 <= i < j < |log| ==> log[i].target.id != log[j].target.id
  }

  lemma {:induction false} StoredCount(log: seq<Dispatch>)
    requires DistinctTargets(log)
    ensures |StoredTargets(log)| == StoredSuccesses(log)
  {
    if log != [] {
      var n := |log| - 1;
      assert forall i :: 0 <= i < n ==> log[..n][i] == log[i];
      StoredCount(log[..n]);
      StoredSnoc(log);
      assert log[n].target.id !in StoredTargets(log[..n]);
    }
  }

  lemma {:induction false} TwiceAtLeast(b: seq<DueTarget>, i: nat, j: nat)
    requires i < j < |b| && b[i] == b[j]
    ensures multiset(b)[b[i]] >= 2
  {
    assert b[..j][i] == b[i] && b[j..][0] == b[i];
    assert b[i] in multiset(b[..j]) && b[i] in multiset(b[j..]);
    assert b == b[..j] + b[j..];
  }

  /** A rearrangement of targets that differ pairwise has no target twice. */
  lemma {:induction false} RearrangedDistinct(a: seq<DueTarget>, b: seq<DueTarget>)
    requires multiset(a) == multiset(b)
    requires forall i, j :: 0 <= i < j < |a| ==> a[i].id != a[j].id
    ensures forall i, j :: 0 <= i < j < |b| ==> b[i].id != b[j].id
  {
    forall i: nat, j: nat | i < j < |b| ensures b[i].id != b[j].id {
      assert b[i] in multiset(a) && b[j] in multiset(a);
      if b[i] == b[j] {
        TwiceAtLeast(b, i, j);
        OnceAtMost(a, b[i]);
        assert false;
      }
    }
  }

  lemma {:induction false} OnceAtMost(a: seq<DueTarget>, x: DueTarget)
    requires forall i, j :: 0 <= i < j < |a| ==> a[i].id != a[j].id
    ensures multiset(a)[x] <= 1
  {
    if a != [] {
      var n := |a| - 1;
      OnceAtMost(a[..n], x);
      assert a == a[..n] + [a[n]];
      if a[n] == x && x in a[..n] {
        assert false;
      }
    }
  }

  /** What a cycle does to the table, with whatever mix of successes, failures and
      cancellation: it writes its stored successes, and serves that many
      different targets of its batch. */
  lemma {:induction false} CycleServes(rows: Rows, batch: seq<nat>, host: DueTarget -> string, log: seq<Dispatch>,
                                       now: int)
    requires Distinct(batch) && forall i :: 0 <= i < |batch| ==> batch[i] in rows
    requires var due := Interleaved(Snapshot(rows, batch), host);
      |log| <= |due| && forall k :: 0 <= k < |log| ==> log[k].target == due[k]
    ensures Rescheduled(rows, log) == ActAll(rows, Writes(log))
    ensures Served(Cycle(now, batch, Writes(log))) == StoredTargets(log)
    ensures |Served(Cycle(now, batch, Writes(log)))| == StoredSuccesses(log)
  {
    var c := Cycle(now, batch, Writes(log));
    WritesAreRescheduling(rows, log);
    DispatchesDescribe(rows, batch, host, log);
    StoredCount(log);
    forall id ensures Dispatched(id, Writes(log)) <==> id in StoredTargets(log) { WritesDispatch(log, id); }
    assert Served(c) == StoredTargets(log);
  }

  /** A rescheduling of another target once the watched one is due. */
  predicate ReschedulesOther(watched: nat, due: int, a: Action) {
    a.OnTarget? && a.id != watched && a.event.NextRun? && 0 < a.event.hours && due <= a.event.at
  }

  /** A sequence of such reschedulings is admissible throughout. */
  lemma {:induction false} ReschedulingIsAdmissible(rows: Rows, watched: nat, actions: seq<Action>)
    requires watched in rows
    requires forall k :: 0 <= k < |actions| ==> ReschedulesOther(watched, rows[watched].nextRun, actions[k])
    ensures AllAdmissible(rows, watched, actions)
    decreases |actions|
  {
    if actions != [] {
      assert ReschedulesOther(watched, rows[watched].nextRun, actions[0]);
      ActShrinksRivals(rows, watched, actions[0]);
      assert forall k :: 0 <= k < |actions[1..]| ==> actions[1..][k] == actions[k + 1];
      ReschedulingIsAdmissible(Act(rows, actions[0]), watched, actions[1..]);
    }
  }

  lemma {:induction false} WritesReschedule(log: seq<Dispatch>, watched: nat, due: int)
    requires forall k :: 0 <= k < |log| ==>
      log[k].target.id != watched && 0 < log[k].target.interval && due <= log[k].completed
    ensures forall k :: 0 <= k < |Writes(log)| ==> ReschedulesOther(watched, due, Writes(log)[k])
  {
    if log != [] {
      WritesReschedule(log[..|log| - 1], watched, due);
    }
  }

  /** A run of the task on positive intervals that does not select the watched
      target is one of the cycles that the liveness theorem counts. */
  lemma {:induction false} CyclePassesOver(rows: Rows, watched: nat, now: int, batch: seq<nat>,
                                           host: DueTarget -> string, log: seq<Dispatch>)
    requires watched in rows && watched !in batch && rows[watched].nextRun <= now
    requires forall i :: 0 <= i < |batch| ==> batch[i] in rows && 0 < rows[batch[i]].interval
    requires var due := Interleaved(Snapshot(rows, batch), host);
      |log| <= |due| && forall k :: 0 <= k < |log| ==> log[k].target == due[k] && now <= log[k].completed
    ensures PassedOver(rows, watched, Cycle(now, batch, Writes(log)))
  {
    var due := Snapshot(rows, batch);
    InterleavedKeepsHosts(due, host);
    forall k | 0 <= k < |log|
      ensures log[k].target.id != watched && 0 < log[k].target.interval
    {
      assert log[k].target in multiset(Interleaved(due, host));
      assert log[k].target in multiset(due);
    }
    WritesReschedule(log, watched, rows[watched].nextRun);
    ReschedulingIsAdmissible(rows, watched, Writes(log));
  }
}
