/**
 * What the columns of a target mean in hours and seconds: when it is due again,
 * when the health check looks at it, and what a check or a registration decides.
 */
module CrawlerSchedules {
  import opened Common
  import opened CrawlerTargets

  function Seconds(n: int): int { n * 1_000_000_000 }

  /** A dispatched target is due again after exactly its interval in hours. */
  lemma {:induction false} DueAfterInterval(t: Target, hours: int, at: int, now: int)
    requires t.active && t.health != DisabledDeadLink
    ensures Due(Apply(t, NextRun(hours, at)), now) <==> now - at >= Seconds(hours * 3600)
  {
  }

  /** Rate limits back off for half an hour, two, six, and then twenty-four hours. */
  function Wait(run: int): int {
    Seconds(if run <= 1 then 1_800 else if run == 2 then 7_200 else if run == 3 then 21_600 else 86_400)
  }

  /** The events that say when the target is due next. */
  predicate Schedules(e: Event) {
    e.NextRun? || e.Reset? || (e.Failure? && e.code == 429) || (e.HealthCheck? && e.http == 429)
  }

  function LastSchedule(h: seq<Event>): (n: nat)
    ensures n <= |h|
    ensures n > 0 ==> Schedules(h[n - 1])
    ensures forall i :: n <= i < |h| ==> !Schedules(h[i])
  {
    if h == [] then 0 else if Schedules(h[|h| - 1]) then |h| else LastSchedule(h[..|h| - 1])
  }

  /** When the n-th event wants the target to run. */
  function ScheduledFor(h: seq<Event>, n: nat): int
    requires 0 < n <= |h| && Schedules(h[n - 1])
  {
    match h[n - 1]
    case NextRun(hours, at) => at + Seconds(hours * 3600)
    case Reset(at) => at
    case Failure(_, at) => at + Wait(FailureRun(h[..n]))
    case HealthCheck(_, _, _, at) => at + Wait(FailureRun(h[..n]))
  }

  lemma {:induction false} ScheduledForPrefix(h: seq<Event>, m: nat, n: nat)
    requires 0 < n <= m <= |h| && Schedules(h[n - 1])
    ensures ScheduledFor(h[..m], n) == ScheduledFor(h, n)
  {
    assert h[..m][..n] == h[..n];
  }

  lemma {:induction false} LastEventSchedules(t: Target, h: seq<Event>)
    requires t.failures == 0 && h != [] && Schedules(h[|h| - 1])
    ensures After(t, h).nextRun == ScheduledFor(h, |h|)
  {
    BreakerRefinesHistory(t, h);
    BreakerRefinesHistory(t, h[..|h| - 1]);
    assert h[..|h|] == h;
  }

  /** Over every history, the next run is what its last dispatch, reset or rate
      limit wrote: the interval, at once, or the back-off of the counter by then. */
  lemma {:induction false} NextRunIsLastSchedule(t: Target, h: seq<Event>)
    requires t.failures == 0
    ensures After(t, h).nextRun == if LastSchedule(h) == 0 then t.nextRun else ScheduledFor(h, LastSchedule(h))
  {
    if h != [] {
      var n := |h| - 1;
      if Schedules(h[n]) {
        LastEventSchedules(t, h);
      } else {
        NextRunIsLastSchedule(t, h[..n]);
        if LastSchedule(h) > 0 { ScheduledForPrefix(h, n, LastSchedule(h)); }
      }
    }
  }

  // ---------------------------------------------------------------- registration and identity

  /** A registered URL is due from now on if it is active, is checked for health
      at once, and has its interval, or a day when none was asked for. */
  lemma {:induction false} NewTargetIsReady(url: string, hours: int, active: bool, now: int, later: int)
    ensures var t := NewTarget(url, hours, active, now);
      && t.url == url && t.interval == (if hours > 0 then hours else 24) && t.failures == 0
      && (Due(t, later) <==> active && now <= later)
      && (Checkable(t, later) <==> active)
      && !Failing(t) && t.lastStatus.None? && t.lastScraped.None?
  {
  }

  /** No event changes the URL or the interval. */
  lemma {:induction false} IdentityIsKept(t: Target, h: seq<Event>)
    ensures After(t, h).url == t.url && After(t, h).interval == t.interval
  {
    if h != [] { IdentityIsKept(t, h[..|h| - 1]); }
  }

  /** When the last dispatch was. */
  function LastDispatch(t: Target, h: seq<Event>): Option<int> {
    if h == [] then t.lastScraped
    else if h[|h| - 1].NextRun? then Some(h[|h| - 1].at)
    else LastDispatch(t, h[..|h| - 1])
  }

  lemma {:induction false} ScrapedIsLastDispatch(t: Target, h: seq<Event>)
    ensures After(t, h).lastScraped == LastDispatch(t, h)
  {
    if h != [] { ScrapedIsLastDispatch(t, h[..|h| - 1]); }
  }

  // ---------------------------------------------------------------- health checks

  /** The health check selects an active target that has no status yet, was never
      dispatched, or was dispatched more than twelve hours ago. */
  lemma {:induction false} CheckedAfterTwelveHours(t: Target, h: seq<Event>, now: int)
    requires After(t, h).active
    ensures After(t, h).lastStatus.None? || LastDispatch(t, h).None? ==> Checkable(After(t, h), now)
    ensures After(t, h).lastStatus.Some? && LastDispatch(t, h).Some? ==>
      (Checkable(After(t, h), now) <==> now - LastDispatch(t, h).value > Seconds(43_200))
  {
    ScrapedIsLastDispatch(t, h);
  }

  /** A check switches its target off exactly when the link is dead, or when it is
      degraded otherwise than by rate limiting and this is the third failure. */
  lemma {:induction false} CheckSwitchesOffIff(t: Target, h: seq<Event>, finding: Finding, http: int, at: int)
    requires t.failures == 0
    ensures var t' := After(t, h + [HealthCheck(finding, http, FailureRun(h), at)]);
      && (!t'.active <==>
            finding == FoundDeadLink || (finding == FoundDegraded && http != 429 && FailureRun(h) + 1 >= 3))
      && (t'.health == Healthy <==> finding == FoundHealthy)
      && (t'.health == Degraded <==> finding == FoundDegraded)
      && t'.health != DisabledDeadLink && t'.lastStatus == Some(http)
  {
    AfterSnoc(t, h, HealthCheck(finding, http, FailureRun(h), at));
  }

  /** A reset target is due at once, whatever was wrong with it. */
  lemma {:induction false} ResetIsDueAtOnce(t: Target, at: int, now: int)
    ensures Due(Apply(t, Reset(at)), now) <==> at <= now
    ensures Apply(t, Reset(at)).failures == 0 && Apply(t, Reset(at)).health == Healthy
  {
  }
}
