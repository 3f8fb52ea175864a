/**
 * One row of crawling_targets as a state machine: failure counter, health,
 * active flag and next run time, and what a history of callbacks makes of them.
 * Times are nanoseconds, as in Common.
 */
module CrawlerTargets {
  import opened Common

  /** DISABLED_DEAD_LINK is written by the failure callback, DEAD by the health check. */
  datatype Health = Healthy | Degraded | DisabledDeadLink | Dead

  datatype Target = Target(
    url: string,
    interval: int,
    nextRun: int,
    active: bool,
    failures: int,
    health: Health,
    lastStatus: Option<int>,
    lastScraped: Option<int>)

  /** The health check's finding about a URL. */
  datatype Finding = FoundHealthy | FoundDegraded | FoundDeadLink

  /** One committed write to the row. A health check computes the counter from
      `seen`, the value its query read some time before the write. */
  datatype Event =
    | Success(code: int)
    | Failure(code: int, at: int)
    | NextRun(hours: int, at: int)
    | Reset(at: int)
    | Recreate
    | HealthCheck(finding: Finding, http: int, seen: int, at: int)

  // ---------------------------------------------------------------- the SQL updates

  function NewTarget(url: string, hours: int, active: bool, now: int): Target {
    Target(url, if hours <= 0 then 24 else hours, now, active, 0, Healthy, None, None)
  }

  predicate Trips(t: Target, code: int) {
    code == 404 || code == 410 || (code != 429 && t.failures + 1 >= 5)
  }

  function Backoff(failures: int): int {
    if failures <= 1 then 30 * MINUTE
    else if failures == 2 then 2 * HOUR
    else if failures == 3 then 6 * HOUR
    else 24 * HOUR
  }

  function OnFailure(t: Target, code: int, now: int): Target {
    t.(failures := t.failures + 1,
       lastStatus := Some(code),
       health := if Trips(t, code) then DisabledDeadLink else Degraded,
       active := if Trips(t, code) then false else t.active,
       nextRun := if code == 429 then now + Backoff(t.failures + 1) else t.nextRun)
  }

  function OnSuccess(t: Target, code: int): Target {
    t.(failures := 0, lastStatus := Some(code), health := Healthy)
  }

  function OnNextRun(t: Target, hours: int, now: int): Target {
    t.(lastScraped := Some(now), nextRun := now + hours * HOUR)
  }

  function OnReset(t: Target, now: int): Target {
    t.(failures := 0, health := Healthy, active := true, nextRun := now)
  }

  /** The rows that "reset all" selects; an SQL NULL status fails its first test. */
  predicate Failing(t: Target) {
    (t.lastStatus.Some? && t.lastStatus.value >= 400) || t.health != Healthy
  }

  /** The rows the health check looks at. */
  predicate Checkable(t: Target, now: int) {
    t.active
    && (t.lastStatus.None? || t.lastScraped.None? || t.lastScraped.value < now - 12 * HOUR)
  }

  /** The counter that a health check writes. */
  function CheckedCount(finding: Finding, http: int, seen: int): int {
    match finding
    case FoundHealthy => 0
    case FoundDegraded => if http == 429 then seen else seen + 1
    case FoundDeadLink => seen + 1
  }

  /** Whether a health check leaves the target active. */
  predicate StaysActive(finding: Finding, http: int, seen: int) {
    finding.FoundHealthy? || (finding.FoundDegraded? && (http == 429 || seen + 1 < 3))
  }

  function HealthOf(finding: Finding): Health {
    match finding
    case FoundHealthy => Healthy
    case FoundDegraded => Degraded
    case FoundDeadLink => Dead
  }

  function OnHealthCheck(t: Target, finding: Finding, http: int, seen: int, now: int): Target {
    var failures := CheckedCount(finding, http, seen);
    t.(health := HealthOf(finding), failures := failures, active := StaysActive(finding, http, seen),
       lastStatus := Some(http),
       nextRun := if http == 429 then now + Backoff(failures) else t.nextRun)
  }

  function Apply(t: Target, e: Event): Target {
    match e
    case Success(code) => OnSuccess(t, code)
    case Failure(code, at) => OnFailure(t, code, at)
    case NextRun(hours, at) => OnNextRun(t, hours, at)
    case Reset(at) => OnReset(t, at)
    case Recreate => t.(active := true)
    case HealthCheck(finding, http, seen, at) => OnHealthCheck(t, finding, http, seen, at)
  }

  predicate Due(t: Target, now: int) {
    t.active && t.health != DisabledDeadLink && t.nextRun <= now
  }

  function After(t: Target, h: seq<Event>): Target {
    if h == [] then t else Apply(After(t, h[..|h| - 1]), h[|h| - 1])
  }

  lemma {:induction false} AfterConcat(t: Target, h: seq<Event>, more: seq<Event>)
    ensures After(t, h + more) == After(After(t, h), more)
  {
    if more == [] {
      assert h + more == h;
    } else {
      var n := |more| - 1;
      AfterConcat(t, h, more[..n]);
      assert (h + more)[..|h + more| - 1] == h + more[..n];
    }
  }

  lemma {:induction false} AfterSnoc(t: Target, h: seq<Event>, e: Event)
    ensures After(t, h + [e]) == Apply(After(t, h), e)
  {
    assert (h + [e])[..|h|] == h;
  }

  // ---------------------------------------------------------------- what a history says

  /** The counter a history leaves: failures of any status since the last
      success, reset or health check, on top of what that check wrote. */
  function FailureRun(h: seq<Event>): int {
    if h == [] then 0
    else match h[|h| - 1]
      case Success(_) => 0
      case Reset(_) => 0
      case Failure(_, _) => FailureRun(h[..|h| - 1]) + 1
      case HealthCheck(finding, http, seen, _) => CheckedCount(finding, http, seen)
      case _ => FailureRun(h[..|h| - 1])
  }

  /** A failure that is a dead link, or not a 429 and at least fifth in its run;
      or a health check that leaves the target inactive. */
  predicate TripAt(h: seq<Event>, i: int)
    requires 0 <= i < |h|
  {
    match h[i]
    case Failure(code, _) => code == 404 || code == 410 || (code != 429 && FailureRun(h[..i + 1]) >= 5)
    case HealthCheck(finding, http, seen, _) => !StaysActive(finding, http, seen)
    case _ => false
  }

  predicate Activates(e: Event) {
    e.Reset? || e.Recreate? || (e.HealthCheck? && StaysActive(e.finding, e.http, e.seen))
  }

  /** How many events lead up to and include the last one that activates. */
  function Restart(h: seq<Event>): (n: nat)
    ensures n <= |h|
    ensures n > 0 ==> Activates(h[n - 1])
    ensures forall i :: n <= i < |h| ==> !Activates(h[i])
  {
    if h == [] then 0 else if Activates(h[|h| - 1]) then |h| else Restart(h[..|h| - 1])
  }

  ghost predicate TrippedSinceRestart(h: seq<Event>) {
    exists i :: Restart(h) <= i < |h| && TripAt(h, i)
  }

  /** The events that write the health: callbacks, resets and health checks. */
  predicate IsReport(e: Event) { e.Success? || e.Failure? || e.Reset? || e.HealthCheck? }

  /** How many events lead up to and include the last report. */
  function LastReport(h: seq<Event>): (n: nat)
    ensures n <= |h|
    ensures n > 0 ==> IsReport(h[n - 1])
    ensures forall i :: n <= i < |h| ==> !IsReport(h[i])
  {
    if h == [] then 0 else if IsReport(h[|h| - 1]) then |h| else LastReport(h[..|h| - 1])
  }

  lemma {:induction false} TripAtPrefix(h: seq<Event>, n: nat, i: int)
    requires 0 <= i < n <= |h|
    ensures TripAt(h[..n], i) == TripAt(h, i)
  {
    assert h[..n][..i + 1] == h[..i + 1];
  }

  lemma {:induction false} TrippedSnoc(h: seq<Event>)
    requires h != []
    ensures TrippedSinceRestart(h) <==>
            !Activates(h[|h| - 1]) && (TrippedSinceRestart(h[..|h| - 1]) || TripAt(h, |h| - 1))
  {
    var n := |h| - 1;
    forall i | 0 <= i < n ensures TripAt(h[..n], i) == TripAt(h, i) { TripAtPrefix(h, n, i); }
  }

  /** The breaker refines the history: the counter is the one the history
      leaves, and a target that starts fresh is inactive exactly when it was
      never activated or some event since the last activation trips. */
  lemma {:induction false} BreakerRefinesHistory(t: Target, h: seq<Event>)
    requires t.failures == 0
    ensures After(t, h).failures == FailureRun(h)
    ensures After(t, h).active <==> (t.active || Restart(h) > 0) && !TrippedSinceRestart(h)
  {
    if h != [] {
      var n := |h| - 1;
      BreakerRefinesHistory(t, h[..n]);
      TrippedSnoc(h);
      assert h[..n + 1] == h;
    }
  }

  // ---------------------------------------------------------------- the counter as a count

  /** Success, reset, or a healthy finding: the run starts over. */
  predicate Clears(e: Event) { e.Success? || e.Reset? || (e.HealthCheck? && e.finding.FoundHealthy?) }

  /** A failure callback, or an unhealthy finding other than a rate limit. */
  predicate IsFailure(e: Event) {
    e.Failure? || (e.HealthCheck? && (e.finding.FoundDeadLink? || (e.finding.FoundDegraded? && e.http != 429)))
  }

  /** Every health check computed from a counter that was still the row's when it wrote. */
  ghost predicate UpToDate(h: seq<Event>) {
    forall i :: 0 <= i < |h| && h[i].HealthCheck? ==> h[i].seen == FailureRun(h[..i])
  }

  /** The failures that nothing clears afterwards. */
  ghost function Uncleared(h: seq<Event>): set<int> {
    set i | 0 <= i < |h| && IsFailure(h[i]) && forall j :: i < j < |h| ==> !Clears(h[j])
  }

  lemma {:induction false} UnclearedSnoc(h: seq<Event>)
    requires h != []
    ensures var n := |h| - 1;
      Uncleared(h) == (if Clears(h[n]) then {} else Uncleared(h[..n])) + if IsFailure(h[n]) then {n} else {}
  {
    var n := |h| - 1;
    forall i | i in Uncleared(h) && i < n ensures i in Uncleared(h[..n]) {
      assert forall j :: i < j < n ==> h[..n][j] == h[j];
    }
  }

  lemma {:induction false} UpToDatePrefix(h: seq<Event>, n: nat)
    requires n <= |h| && UpToDate(h)
    ensures UpToDate(h[..n])
  {
    forall i | 0 <= i < n ensures h[..n][..i] == h[..i] {}
  }

  /** The counter is the number of failures, by callback or by health check,
      that no success, reset or healthy finding has cleared since. */
  lemma {:induction false} FailureRunCounts(h: seq<Event>)
    requires UpToDate(h)
    ensures FailureRun(h) == |Uncleared(h)|
  {
    if h != [] {
      var n := |h| - 1;
      UpToDatePrefix(h, n);
      FailureRunCounts(h[..n]);
      UnclearedSnoc(h);
      var before := Uncleared(h[..n]);
      assert n !in before;
      assert |before + {n}| == |before| + 1;
    }
  }

  // ---------------------------------------------------------------- health, rate limits, thresholds

  /** The health that the n-th event leaves, if it is the last report. */
  function HealthFrom(t: Target, h: seq<Event>, n: nat): Health
    requires n <= |h|
  {
    if n == 0 then t.health
    else match h[n - 1]
      case HealthCheck(finding, _, _, _) => HealthOf(finding)
      case Failure(_, _) => if TripAt(h, n - 1) then DisabledDeadLink else Degraded
      case _ => Healthy
  }

  lemma {:induction false} HealthFromPrefix(t: Target, h: seq<Event>, m: nat, n: nat)
    requires n <= m <= |h|
    ensures HealthFrom(t, h[..m], n) == HealthFrom(t, h, n)
  {
    if n > 0 { TripAtPrefix(h, m, n - 1); }
  }

  lemma {:induction false} TripIsBreaker(t: Target, h: seq<Event>)
    requires t.failures == 0 && h != [] && h[|h| - 1].Failure?
    ensures TripAt(h, |h| - 1) <==> Trips(After(t, h[..|h| - 1]), h[|h| - 1].code)
  {
    BreakerRefinesHistory(t, h[..|h| - 1]);
    assert h[..|h| - 1 + 1] == h;
  }

  /** Health tells the last report: disabled exactly when it is a failure that tripped. */
  lemma {:induction false} HealthIsLastReport(t: Target, h: seq<Event>)
    requires t.failures == 0
    ensures After(t, h).health == HealthFrom(t, h, LastReport(h))
  {
    if h != [] {
      var n := |h| - 1;
      HealthIsLastReport(t, h[..n]);
      if IsReport(h[n]) {
        assert LastReport(h) == |h|;
        if h[n].Failure? { TripIsBreaker(t, h); }
      } else {
        HealthFromPrefix(t, h, n, LastReport(h[..n]));
      }
    }
  }

  /** Rate limiting alone never trips the breaker, whoever reports it, and backs
      off by the length of the run. */
  lemma {:induction false} PureRateLimitingNeverTrips(t: Target, h: seq<Event>, at: int)
    requires t.failures == 0 && t.active
    requires forall i :: 0 <= i < |h| && h[i].Failure? ==> h[i].code == 429
    requires forall i :: 0 <= i < |h| && h[i].HealthCheck? ==>
      h[i].finding.FoundHealthy? || (h[i].finding.FoundDegraded? && h[i].http == 429)
    ensures After(t, h).active
    ensures After(t, h + [Failure(429, at)]).nextRun == at + Backoff(FailureRun(h) + 1)
  {
    BreakerRefinesHistory(t, h);
    AfterConcat(t, h, [Failure(429, at)]);
    assert [Failure(429, at)][..0] == [];
  }

  /** A failure trips exactly when it is a dead link, or not a 429 while the
      counter, 429s included, already stands at four. */
  lemma {:induction false} NextFailureTripsIff(t: Target, h: seq<Event>, code: int, at: int)
    requires t.failures == 0 && After(t, h).active
    ensures !After(t, h + [Failure(code, at)]).active <==>
            code == 404 || code == 410 || (code != 429 && FailureRun(h) >= 4)
  {
    BreakerRefinesHistory(t, h);
    AfterConcat(t, h, [Failure(code, at)]);
    assert [Failure(code, at)][..0] == [];
  }

  lemma {:induction false} FailureRunSnoc(h: seq<Event>, e: Event)
    requires e.Failure?
    ensures FailureRun(h + [e]) == FailureRun(h) + 1
  {
    assert (h + [e])[..|h|] == h;
  }

  lemma {:induction false} FourFailuresRun(f: Event)
    requires f.Failure?
    ensures FailureRun([f, f, f, f]) == 4
  {
    FailureRunSnoc([], f);
    FailureRunSnoc([] + [f], f);
    FailureRunSnoc([] + [f] + [f], f);
    FailureRunSnoc([] + [f] + [f] + [f], f);
    assert [f, f, f, f] == [] + [f] + [f] + [f] + [f];
  }

  /** 429s count towards the threshold: four of them and a single 500 disable a target. */
  lemma {:induction false} RateLimitsCountTowardsTheThreshold(t: Target, at: int)
    requires t.failures == 0 && t.active
    ensures !After(t, [Failure(429, at), Failure(429, at), Failure(429, at), Failure(429, at), Failure(500, at)]).active
  {
    var f, last := Failure(429, at), Failure(500, at);
    var h := [f, f, f, f];
    FourFailuresRun(f);
    PureRateLimitingNeverTrips(t, h, at);
    NextFailureTripsIff(t, h, 500, at);
    assert h + [last] == [f, f, f, f, last];
  }

  // ---------------------------------------------------------------- after a trip

  /** Neither a reset nor a re-registration. */
  predicate Passive(h: seq<Event>) {
    forall i :: 0 <= i < |h| ==> !h[i].Reset? && !h[i].Recreate?
  }

  /** Every health check is of a row that its query would still select when it writes. */
  ghost predicate ChecksSelected(t: Target, h: seq<Event>) {
    forall i :: 0 <= i < |h| && h[i].HealthCheck? ==> Checkable(After(t, h[..i]), h[i].at)
  }

  lemma {:induction false} ChecksSelectedPrefix(t: Target, h: seq<Event>, n: nat)
    requires n <= |h| && ChecksSelected(t, h)
    ensures ChecksSelected(t, h[..n])
  {
    forall i | 0 <= i < n ensures h[..n][..i] == h[..i] {}
  }

  /** Once a failure trips a target, no callback or dispatch makes it due again,
      and no health check selects it any more. */
  lemma {:induction false} TrippedStaysOut(t: Target, code: int, at: int, h: seq<Event>, now: int)
    requires Trips(t, code) && Passive(h) && ChecksSelected(OnFailure(t, code, at), h)
    ensures forall i :: 0 <= i < |h| ==> !h[i].HealthCheck?
    ensures !After(OnFailure(t, code, at), h).active
    ensures !Due(After(OnFailure(t, code, at), h), now)
  {
    if h != [] {
      var n := |h| - 1;
      ChecksSelectedPrefix(OnFailure(t, code, at), h, n);
      TrippedStaysOut(t, code, at, h[..n], now);
    }
  }

  /** Without the assumption on health checks: the tripped target is active again
      if and only if a check that wrote afterwards left it active and nothing
      tripped since. */
  lemma {:induction false} TrippedComesBackIff(t: Target, h: seq<Event>, more: seq<Event>)
    requires t.failures == 0 && Passive(more)
    requires h != [] && h[|h| - 1].Failure? && TripAt(h, |h| - 1)
    ensures
      var all := h + more;
      After(t, all).active <==>
        exists i :: |h| <= i < |all| && Activates(all[i]) && forall j :: i < j < |all| ==> !TripAt(all, j)
  {
    var all := h + more;
    BreakerRefinesHistory(t, all);
    assert all[..|h|] == h;
    TripAtPrefix(all, |h|, |h| - 1);
    assert forall i :: |h| <= i < |all| ==> all[i] == more[i - |h|];
    assert !Activates(all[|h| - 1]) && TripAt(all, |h| - 1);
    if After(t, all).active {
      assert Restart(all) != |h| && Activates(all[Restart(all) - 1]);
    }
  }

  /** A check that selected the target before it tripped revives it with its late write. */
  lemma {:induction false} LateCheckRevives(t: Target, at: int)
    requires Checkable(t, at) && t.failures == 0 && t.nextRun <= at
    ensures var h := [Failure(404, at), HealthCheck(FoundHealthy, 200, t.failures, at)];
      !Due(After(t, h[..1]), at) && Due(After(t, h), at)
  {
    var h := [Failure(404, at), HealthCheck(FoundHealthy, 200, t.failures, at)];
    assert h[..1] == [] + [h[0]] && h == h[..1] + [h[1]];
    AfterSnoc(t, [], h[0]);
    AfterSnoc(t, h[..1], h[1]);
  }

  predicate HasReport(h: seq<Event>) {
    exists i :: 0 <= i < |h| && IsReport(h[i])
  }

  /** A history that ends in a trip, then a re-registration, then more: the
      target is due again exactly when its time has come, nothing has tripped
      since it was last activated, and its health is no longer the one a
      tripping failure wrote: a callback or a health check came since, or the
      trip was a health check's. */
  lemma {:induction false} ReregistrationTakesEffectIff(t: Target, h: seq<Event>, more: seq<Event>, now: int)
    requires t.failures == 0 && Passive(more)
    requires h != [] && TripAt(h, |h| - 1)
    ensures
      var all := h + [Recreate] + more;
      && Restart(all) > |h|
      && (Due(After(t, all), now) <==>
            && After(t, all).nextRun <= now
            && (HasReport(more) || h[|h| - 1].HealthCheck?)
            && forall i :: Restart(all) <= i < |all| ==> !TripAt(all, i))
      && (!HasReport(more) && h[|h| - 1].Failure? ==>
            After(t, all).active && After(t, all).health == DisabledDeadLink)
  {
    var all := h + [Recreate] + more;
    if HasReport(more) { ReportedMarks(h, more); } else { UnreportedMarks(h, more); }
    BreakerRefinesHistory(t, all);
    HealthIsLastReport(t, all);
  }

  /** Events of a history continued by a re-registration. */
  lemma {:induction false} ContinuedEvents(h: seq<Event>, more: seq<Event>)
    ensures var all := h + [Recreate] + more;
      && all[..|h|] == h && all[|h|] == Recreate
      && (forall i :: 0 <= i < |h| ==> all[i] == h[i])
      && (forall i :: |h| < i < |all| ==> all[i] == more[i - |h| - 1])
      && (forall i :: 0 <= i < |more| ==> more[i] == all[i + |h| + 1])
  {
  }

  /** The last report comes after the re-registration at `m` and not before the last activation. */
  ghost predicate ReportedSince(all: seq<Event>, m: nat) {
    && m + 1 <= Restart(all) <= LastReport(all)
    && m + 1 < LastReport(all) && !all[LastReport(all) - 1].Reset?
  }

  /** The last activation and the last report, when reports follow the
      re-registration at `m` and when none does. */
  lemma {:induction false} MarksAfterReport(all: seq<Event>, m: nat, i: nat)
    requires m < i < |all| && all[m].Recreate? && IsReport(all[i])
    requires forall k :: m < k < |all| ==> !all[k].Reset? && !all[k].Recreate?
    ensures ReportedSince(all, m)
  {
    var r, l := Restart(all), LastReport(all);
    assert Activates(all[m]);
    assert l > i;
    if r > m + 1 {
      assert Activates(all[r - 1]) && IsReport(all[r - 1]);
    }
  }

  lemma {:induction false} ReportedMarks(h: seq<Event>, more: seq<Event>)
    requires Passive(more) && HasReport(more)
    ensures ReportedSince(h + [Recreate] + more, |h|)
  {
    var i :| 0 <= i < |more| && IsReport(more[i]);
    var all := h + [Recreate] + more;
    assert all[|h|] == Recreate && all[i + |h| + 1] == more[i];
    forall k | |h| < k < |all| ensures !all[k].Reset? && !all[k].Recreate? {
      assert all[k] == more[k - |h| - 1];
    }
    MarksAfterReport(all, |h|, i + |h| + 1);
  }

  lemma {:induction false} UnreportedMarks(h: seq<Event>, more: seq<Event>)
    requires Passive(more) && !HasReport(more) && h != [] && TripAt(h, |h| - 1)
    ensures var all := h + [Recreate] + more;
      && LastReport(all) == |h| && Restart(all) == |h| + 1
      && all[|h| - 1] == h[|h| - 1] && TripAt(all, |h| - 1)
      && (forall i :: |h| < i < |all| ==> !TripAt(all, i))
  {
    var all := h + [Recreate] + more;
    ContinuedEvents(h, more);
    TripAtPrefix(all, |h|, |h| - 1);
    assert IsReport(all[|h| - 1]) && !IsReport(all[|h|]) && Activates(all[|h|]);
    assert forall i :: |h| < i < |all| ==> !IsReport(all[i]);
  }

  /** The usual way back: a dead link is re-registered, and the next health check finds it healthy. */
  lemma {:induction false} HealthCheckBringsBack(t: Target, at: int)
    requires t.failures == 0 && t.active && t.lastScraped.None? && t.nextRun <= at
    ensures var h := [Failure(404, at), Recreate, HealthCheck(FoundHealthy, 200, 1, at)];
      && ChecksSelected(t, h) && UpToDate(h)
      && !Due(After(t, h[..2]), at) && Due(After(t, h), at)
  {
    var h := [Failure(404, at), Recreate, HealthCheck(FoundHealthy, 200, 1, at)];
    var t1 := OnFailure(t, 404, at);
    assert h[..1] == [] + [h[0]] && h[..2] == h[..1] + [Recreate] && h == h[..2] + [h[2]];
    AfterSnoc(t, [], h[0]);
    AfterSnoc(t, h[..1], Recreate);
    AfterSnoc(t, h[..2], h[2]);
    FailureRunSnoc([], h[0]);
    assert h[..2][..1] == h[..1];
    assert After(t, h[..2]) == t1.(active := true) && FailureRun(h[..2]) == 1;
  }

  /** The status a report leaves. */
  function StatusOf(e: Event): int
    requires IsReport(e) && !e.Reset?
  {
    if e.HealthCheck? then e.http else e.code
  }

  lemma {:induction false} StatusIsLastReport(t: Target, h: seq<Event>)
    requires LastReport(h) > 0 && !h[LastReport(h) - 1].Reset?
    ensures After(t, h).lastStatus == Some(StatusOf(h[LastReport(h) - 1]))
  {
    var n := |h| - 1;
    if LastReport(h) <= n { StatusIsLastReport(t, h[..n]); }
  }

  /** "Reset all" passes over a tripped target exactly when its last report was a
      success below 400: healthy again, it is no longer selected, and stays inactive. */
  lemma {:induction false} ResetAllReachesTrippedIff(t: Target, h: seq<Event>)
    requires t.failures == 0 && TrippedSinceRestart(h)
    ensures !After(t, h).active && LastReport(h) > 0 && !h[LastReport(h) - 1].Reset?
    ensures Failing(After(t, h)) <==> !h[LastReport(h) - 1].Success? || h[LastReport(h) - 1].code >= 400
  {
    BreakerRefinesHistory(t, h);
    HealthIsLastReport(t, h);
    var i :| Restart(h) <= i < |h| && TripAt(h, i);
    assert IsReport(h[i]);
    StatusIsLastReport(t, h);
  }

  /** A success reported after a dead link hides the inactive target from "reset all". */
  lemma {:induction false} ResetAllCanMissTripped(t: Target, at: int)
    requires t.failures == 0 && t.active
    ensures var h := [Failure(404, at), Success(200)];
      !After(t, h).active && !Failing(After(t, h))
  {
    var h := [Failure(404, at), Success(200)];
    assert h[..1] == [] + [h[0]] && h == h[..1] + [h[1]];
    AfterSnoc(t, [], h[0]);
    AfterSnoc(t, h[..1], h[1]);
  }
}
