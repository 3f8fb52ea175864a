/**
 * Whether forgetting a window can be noticed, how tight the sliding bound is,
 * and what the Retry-After answer is worth.
 */
module RateLimiterEviction {
  import opened Common
  import opened RateLimiter

  // ---------------------------------------------------------------- eviction

  /** The janitor's table holds the same windows, and lacks only expired ones. */
  ghost predicate Matches(swept: Table, kept: Table, span: int, now: int) {
    && (forall k :: k in swept ==> k in kept && swept[k] == kept[k])
    && (forall k :: k in kept && k !in swept ==> now - kept[k].start > span)
  }

  /** The request finds its window evicted by the janitor. */
  predicate Reopens(swept: Table, kept: Table, e: Event) {
    e.Request? && e.key !in swept && e.key in kept
  }

  /** The two clock readings of a request open the same window: they coincide,
      or lie so far apart that the charge restarts the window anyway. */
  predicate ReadingsAgree(e: Event, span: int) {
    e.Request? ==> e.charged == e.looked || e.charged - e.looked > span
  }

  lemma {:induction false} StepMatches(swept: Table, kept: Table, span: int, e: Event)
    requires 0 <= span <= EVICT_AFTER && e.Begin() <= e.End()
    requires Matches(swept, kept, span, e.Begin())
    requires Reopens(swept, kept, e) ==> ReadingsAgree(e, span)
    ensures Step(swept, span, e, true).1 == Step(kept, span, e, false).1
    ensures Matches(Step(swept, span, e, true).0, Step(kept, span, e, false).0, span, e.End())
  {
  }

  /** Every reopening in the run reads the clock consistently. */
  ghost predicate ReopensCleanly(es: seq<Event>, span: int) {
    forall i :: 0 <= i < |es| && Reopens(After(es[..i], span, true), After(es[..i], span, false), es[i])
      ==> ReadingsAgree(es[i], span)
  }

  lemma {:induction false} PrefixTimed(es: seq<Event>, n: nat)
    requires n <= |es| && Timed(es)
    ensures Timed(es[..n])
  {
  }

  lemma {:induction false} PrefixClean(es: seq<Event>, n: nat, span: int)
    requires n <= |es| && ReopensCleanly(es, span)
    ensures ReopensCleanly(es[..n], span)
  {
    var p := es[..n];
    forall i | 0 <= i < n && Reopens(After(p[..i], span, true), After(p[..i], span, false), p[i])
      ensures ReadingsAgree(p[i], span)
    {
      assert p[..i] == es[..i] && p[i] == es[i];
    }
  }

  /** Over every such run the janitor changes no answer at all, not even Retry-After. */
  lemma {:induction false} EvictionUnobservable(es: seq<Event>, span: int, now: int)
    requires 0 <= span <= EVICT_AFTER && Timed(es) && ReopensCleanly(es, span)
    requires forall i :: 0 <= i < |es| ==> es[i].End() <= now
    ensures Answers(es, span, true) == Answers(es, span, false)
    ensures Matches(After(es, span, true), After(es, span, false), span, now)
  {
    if es != [] {
      var n := |es| - 1;
      PrefixTimed(es, n);
      PrefixClean(es, n, span);
      EvictionUnobservable(es[..n], span, es[n].Begin());
      StepMatches(After(es[..n], span, true), After(es[..n], span, false), span, es[n]);
    }
  }

  /** The two requests that reveal an inconsistent reopening `e`. */
  function Probe(e: Event, span: int): seq<Event>
    requires e.Request?
  {
    [Request(e.key, 1, e.charged, e.charged), Request(e.key, 1, e.looked + span + 1, e.looked + span + 1)]
  }

  /** Run from two tables that differ only in the reopened window, the probe's
      second request is admitted by one and refused by the other. */
  lemma {:induction false} ProbeSteps(swept: Table, kept: Table, span: int, e: Event)
    requires 0 <= span && Matches(swept, kept, span, e.Begin())
    requires Reopens(swept, kept, e) && e.Begin() <= e.End() && !ReadingsAgree(e, span)
    ensures
      var p := Probe(e, span);
      var s1 := Step(Step(swept, span, e, true).0, span, p[0], true).0;
      var k1 := Step(Step(kept, span, e, false).0, span, p[0], false).0;
      Step(s1, span, p[1], true).1 != Step(k1, span, p[1], false).1
  {
    var p := Probe(e, span);
    var s0, k0 := Step(swept, span, e, true).0[e.key], Step(kept, span, e, false).0[e.key];
    assert s0.start == e.looked && k0.start == e.charged;
    var s1, k1 := Charge(s0, 1, span, e.charged).0, Charge(k0, 1, span, e.charged).0;
    assert s1.start == e.looked && k1.start == e.charged && k1.count >= 1;
  }

  lemma {:induction false} ProbeIsTimed(es: seq<Event>, e: Event, span: int)
    requires 0 <= span && Timed(es + [e]) && e.Request? && !ReadingsAgree(e, span)
    ensures Timed(es + [e] + Probe(e, span))
    ensures Timed(es) && (forall i :: 0 <= i < |es| ==> es[i].End() <= e.looked) && e.looked <= e.charged
  {
    var r1 := es + [e];
    assert r1[|es|] == e;
    assert forall i :: 0 <= i < |es| ==> r1[i] == es[i];
    var all := r1 + Probe(e, span);
    forall i, j | 0 <= i < j < |all|
      ensures all[i].End() <= all[j].Begin()
    {
      if j <= |es| { assert all[i] == r1[i] && all[j] == r1[j]; }
      else if i <= |es| { assert all[i] == r1[i] && r1[i].End() <= e.charged; }
    }
  }

  /** Three appended events answer as three steps from the table before them. */
  lemma {:induction false} Snoc3(es: seq<Event>, a: Event, b: Event, c: Event, span: int, janitor: bool)
    ensures |Answers(es + [a] + [b, c], span, janitor)| == |es| + 3
    ensures
      var t := Step(Step(After(es, span, janitor), span, a, janitor).0, span, b, janitor).0;
      Answers(es + [a] + [b, c], span, janitor)[|es| + 2] == Step(t, span, c, janitor).1
  {
    assert es + [a] + [b, c] == es + [a] + [b] + [c];
    Snoc(es, a, "", span, janitor);
    Snoc(es + [a], b, "", span, janitor);
    Snoc(es + [a] + [b], c, "", span, janitor);
  }

  lemma {:induction false} ProbeReveals(es: seq<Event>, e: Event, span: int)
    requires 0 <= span <= EVICT_AFTER && Timed(es + [e]) && ReopensCleanly(es, span)
    requires Reopens(After(es, span, true), After(es, span, false), e)
    requires !ReadingsAgree(e, span)
    ensures Timed(es + [e] + Probe(e, span))
    ensures Answers(es + [e] + Probe(e, span), span, true) != Answers(es + [e] + Probe(e, span), span, false)
  {
    ProbeIsTimed(es, e, span);
    EvictionUnobservable(es, span, e.looked);
    ProbeSteps(After(es, span, true), After(es, span, false), span, e);
    Snoc3(es, e, Probe(e, span)[0], Probe(e, span)[1], span, true);
    Snoc3(es, e, Probe(e, span)[0], Probe(e, span)[1], span, false);
  }

  ghost predicate Instant(es: seq<Event>) {
    forall i :: 0 <= i < |es| ==> es[i].Begin() == es[i].End()
  }

  lemma {:induction false} InstantStaysClean(es: seq<Event>, e: Event, more: seq<Event>, span: int)
    requires ReopensCleanly(es, span) && ReadingsAgree(e, span) && Instant(more)
    ensures ReopensCleanly(es + [e] + more, span)
  {
    var all := es + [e] + more;
    forall i | 0 <= i < |all| && Reopens(After(all[..i], span, true), After(all[..i], span, false), all[i])
      ensures ReadingsAgree(all[i], span)
    {
      if i < |es| {
        assert all[..i] == es[..i] && all[i] == es[i];
      } else if i > |es| {
        assert all[i] == more[i - |es| - 1];
      }
    }
  }

  /** The exact boundary: after a run in which reopenings were clean, one more
      reopening `e` stays unnoticed by every later sequence of requests if and
      only if its two clock readings agree. */
  lemma {:induction false} ReopeningUnobservableIff(es: seq<Event>, e: Event, span: int)
    requires 0 <= span <= EVICT_AFTER && Timed(es + [e]) && ReopensCleanly(es, span)
    requires Reopens(After(es, span, true), After(es, span, false), e)
    ensures ReadingsAgree(e, span) <==>
            forall more | Instant(more) && Timed(es + [e] + more) ::
              Answers(es + [e] + more, span, true) == Answers(es + [e] + more, span, false)
  {
    if ReadingsAgree(e, span) {
      forall more | Instant(more) && Timed(es + [e] + more)
        ensures Answers(es + [e] + more, span, true) == Answers(es + [e] + more, span, false)
      {
        InstantStaysClean(es, e, more, span);
        var all := es + [e] + more;
        EvictionUnobservable(all, span, all[|all| - 1].End());
      }
    } else {
      ProbeReveals(es, e, span);
      assert Instant(Probe(e, span));
    }
  }

  /** A run that the janitor really changes: the reopening's readings lie one nanosecond apart. */
  lemma {:induction false} ReopeningCanBeNoticed(key: string)
    ensures
      var es := [Request(key, 1, 0, 0), Sweep(EVICT_AFTER + 1)];
      var e := Request(key, 1, EVICT_AFTER + 2, EVICT_AFTER + 3);
      var all := es + [e] + Probe(e, MINUTE);
      && Reopens(After(es, MINUTE, true), After(es, MINUTE, false), e) && !ReadingsAgree(e, MINUTE)
      && Timed(all) && Answers(all, MINUTE, true) != Answers(all, MINUTE, false)
  {
    var r, sweep := Request(key, 1, 0, 0), Sweep(EVICT_AFTER + 1);
    var es, e := [r, sweep], Request(key, 1, EVICT_AFTER + 2, EVICT_AFTER + 3);
    assert es == [] + [r] + [sweep] && [] + [r] == [r];
    forall janitor ensures After(es, MINUTE, janitor) == if janitor then map[] else map[key := Window(1, 0)] {
      Snoc([], r, key, MINUTE, janitor);
      Snoc([] + [r], sweep, key, MINUTE, janitor);
    }
    assert es[..0] == [] && es[..1] == [r];
    assert ReopensCleanly(es, MINUTE);
    ProbeReveals(es, e, MINUTE);
  }

  // ---------------------------------------------------------------- the bound is tight

  function BurstEvent(key: string, limit: nat, span: int, gap: nat, n: nat): Event {
    if n == 0 then Request(key, limit, 0, gap)
    else if n < limit then Request(key, limit, 1, 1)
    else Request(key, limit, span + 1, span + 1)
  }

  /** A window opened at 0 is used up at 1, and the next one as soon as it can
      open; the first charge comes `gap` after its lookup. */
  function Burst(key: string, limit: nat, span: int, gap: nat, n: nat): seq<Event> {
    seq(n, i requires 0 <= i < n => BurstEvent(key, limit, span, gap, i))
  }

  function BurstWindow(limit: nat, span: int, n: nat): Window {
    if n <= limit then Window(n, 0) else Window(n - limit, span + 1)
  }

  function BurstTable(key: string, limit: nat, span: int, n: nat): Table {
    if n == 0 then map[] else map[key := BurstWindow(limit, span, n)]
  }

  lemma {:induction false} BurstStep(key: string, limit: nat, span: int, gap: nat, n: nat)
    requires 0 < span && gap <= 1 && n < 2 * limit
    ensures Step(BurstTable(key, limit, span, n), span, BurstEvent(key, limit, span, gap, n), true)
         == (BurstTable(key, limit, span, n + 1), Some(Admitted))
  {
    var e := BurstEvent(key, limit, span, gap, n);
    var t := Open(BurstTable(key, limit, span, n), key, e.looked);
    var w := if n == 0 then Window(0, 0) else BurstWindow(limit, span, n);
    assert t[key] == w;
    assert Charge(w, limit, span, e.charged) == (BurstWindow(limit, span, n + 1), Admitted);
    assert t[key := BurstWindow(limit, span, n + 1)] == BurstTable(key, limit, span, n + 1);
  }

  lemma {:induction false} RecordAdmitted(log: seq<Admission>, t: Table, key: string, span: int, e: Event,
                                          from: int, to: int)
    requires e.Request? && e.key == key && Step(t, span, e, true).1 == Some(Admitted)
    ensures |InInterval(Record(log, t, key, span, e), from, to)|
         == |InInterval(log, from, to)| + if from <= e.charged <= to then 1 else 0
  {
    var w := Step(t, span, e, true).0[key];
    InIntervalSnoc(log, Admission(e.charged, w.start, w.count, e.limit), from, to);
  }

  lemma {:induction false} BurstSnoc(key: string, limit: nat, span: int, gap: nat, n: nat)
    ensures Burst(key, limit, span, gap, n + 1)
         == Burst(key, limit, span, gap, n) + [BurstEvent(key, limit, span, gap, n)]
  {
  }

  lemma {:induction false} BurstState(key: string, limit: nat, span: int, gap: nat, n: nat)
    requires 0 < span && gap <= 1 && n <= 2 * limit
    ensures After(Burst(key, limit, span, gap, n), span, true) == BurstTable(key, limit, span, n)
  {
    if n > 0 {
      BurstState(key, limit, span, gap, n - 1);
      BurstSnoc(key, limit, span, gap, n - 1);
      BurstStep(key, limit, span, gap, n - 1);
      Snoc(Burst(key, limit, span, gap, n - 1), BurstEvent(key, limit, span, gap, n - 1), key, span, true);
    }
  }

  /** All of the burst falls into [1, span + 1], except a first request charged at 0. */
  lemma {:induction false} BurstHistory(key: string, limit: nat, span: int, gap: nat, n: nat)
    requires 0 < span && gap <= 1 && n <= 2 * limit
    ensures |InInterval(Log(Burst(key, limit, span, gap, n), key, span), 1, span + 1)|
         == if n == 0 then 0 else n - 1 + gap
  {
    if n == 0 {
      assert InInterval([], 1, span + 1) == {};
    } else {
      var es := Burst(key, limit, span, gap, n - 1);
      var e := BurstEvent(key, limit, span, gap, n - 1);
      BurstHistory(key, limit, span, gap, n - 1);
      BurstState(key, limit, span, gap, n - 1);
      BurstSnoc(key, limit, span, gap, n - 1);
      BurstStep(key, limit, span, gap, n - 1);
      Snoc(es, e, key, span, true);
      RecordAdmitted(Log(es, key, span), After(es, span, true), key, span, e, 1, span + 1);
    }
  }

  lemma {:induction false} BurstIsTimed(key: string, limit: nat, span: int, gap: nat, n: nat)
    requires 0 < span && gap <= 1
    ensures Timed(Burst(key, limit, span, gap, n))
  {
  }

  ghost predicate OfKey(es: seq<Event>, key: string, limit: nat) {
    forall i :: 0 <= i < |es| ==> es[i].Request? && es[i].key == key && es[i].limit == limit
  }

  /** Two full quotas do fit one interval as long as the window: one nanosecond
      between the two clock readings of a single request is enough. */
  lemma {:induction false} SlidingBoundIsTight(key: string, limit: nat, span: int) returns (es: seq<Event>)
    requires 0 < span
    ensures Timed(es) && OfKey(es, key, limit)
    ensures forall i :: 0 <= i < |es| ==> es[i].End() <= es[i].Begin() + 1
    ensures |InInterval(Log(es, key, span), 1, 1 + span)| == 2 * limit
  {
    es := Burst(key, limit, span, 1, 2 * limit);
    BurstIsTimed(key, limit, span, 1, 2 * limit);
    BurstHistory(key, limit, span, 1, 2 * limit);
  }

  // ---------------------------------------------------------------- with coinciding readings

  /** No request has a limit below one. */
  ghost predicate Positive(es: seq<Event>) {
    forall i :: 0 <= i < |es| && es[i].Request? ==> 1 <= es[i].limit
  }

  /** The first admission of a window falls on its start. */
  ghost predicate StartsFull(log: seq<Admission>) {
    forall i :: 0 <= i < |log| && log[i].ordinal == 1 ==> log[i].at == log[i].start
  }

  /** When the readings of every request coincide, a window is opened by its first admission. */
  lemma {:induction false} InstantStartsFull(es: seq<Event>, key: string, span: int)
    requires Instant(es) && Positive(es) && 0 <= span
    ensures StartsFull(Log(es, key, span))
    ensures key in After(es, span, true) ==> After(es, span, true)[key].count >= 1
  {
    if es != [] {
      var n := |es| - 1;
      assert forall i :: 0 <= i < n ==> es[..n][i] == es[i];
      InstantStartsFull(es[..n], key, span);
      InstantStep(Log(es[..n], key, span), After(es[..n], span, true), key, span, es[n]);
    }
  }

  lemma {:induction false} InstantStep(log: seq<Admission>, t: Table, key: string, span: int, e: Event)
    requires e.Begin() == e.End() && (e.Request? ==> 1 <= e.limit) && 0 <= span
    requires StartsFull(log) && (key in t ==> t[key].count >= 1)
    ensures StartsFull(Record(log, t, key, span, e))
    ensures var t' := Step(t, span, e, true).0; key in t' ==> t'[key].count >= 1
  {
  }

  /** Any 2 * limit consecutive admissions of such a history spread over more than `span`. */
  lemma {:induction false} FullWindowsSpread(log: seq<Admission>, span: int, limit: nat, i: int)
    requires 0 <= span && Chained(log, span) && StartsFull(log) && 1 <= limit
    requires forall k :: 0 <= k < |log| ==> log[k].limit <= limit
    requires 0 <= i && i + 2 * limit - 1 < |log|
    ensures log[i + 2 * limit - 1].at - log[i].at > span
  {
    if log[i].ordinal == 1 {
      Apart(log, span, i, i + limit);
      Apart(log, span, i + limit, i + 2 * limit - 1);
    } else {
      Apart(log, span, i, i + limit - 1);
      Apart(log, span, i + limit - 1, i + 2 * limit - 1);
    }
  }

  /** With coinciding readings the sliding bound is one lower: 2 * limit - 1. */
  lemma {:induction false} InstantSlidingBound(es: seq<Event>, key: string, span: int, limit: nat, from: int)
    requires Timed(es) && Instant(es) && Positive(es) && 0 <= span <= EVICT_AFTER && 1 <= limit
    requires forall i :: 0 <= i < |es| && es[i].Request? && es[i].key == key ==> es[i].limit <= limit
    ensures |InInterval(Log(es, key, span), from, from + span)| <= 2 * limit - 1
  {
    var log := Log(es, key, span);
    HistoryIsChained(es, key, span);
    LogLimits(es, key, span, limit);
    InstantStartsFull(es, key, span);
    var hits := InInterval(log, from, from + span);
    if hits != {} {
      var lo, hi := Extremes(hits);
      if hi >= lo + 2 * limit - 1 {
        FullWindowsSpread(log, span, limit, lo);
        Apart(log, span, lo + 2 * limit - 1, hi);
        assert false;
      }
      ConfinedSize(hits, lo, lo + 2 * limit - 1);
    }
  }

  /** That bound is reached as well. */
  lemma {:induction false} InstantBoundIsTight(key: string, limit: nat, span: int) returns (es: seq<Event>)
    requires 0 < span && 0 < limit
    ensures Timed(es) && Instant(es) && OfKey(es, key, limit)
    ensures |InInterval(Log(es, key, span), 1, 1 + span)| == 2 * limit - 1
  {
    es := Burst(key, limit, span, 0, 2 * limit);
    BurstIsTimed(key, limit, span, 0, 2 * limit);
    BurstHistory(key, limit, span, 0, 2 * limit);
  }

  // ---------------------------------------------------------------- Retry-After

  /** Waiting exactly as long as Retry-After says is enough if and only if less
      than one second of the window was left; one second more always is. */
  lemma {:induction false} RetryAfterSufficesIff(w: Window, limit: int, span: int, now: int)
    requires 0 < limit && 0 <= span && Charge(w, limit, span, now).1.Limited?
    ensures var (w', v) := Charge(w, limit, span, now);
      && (Charge(w', limit, span, now + v.retryAfter * SECOND).1 == Admitted
          <==> span - (now - w'.start) < SECOND)
      && Charge(w', limit, span, now + (v.retryAfter + 1) * SECOND).1 == Admitted
    ensures var (w', v) := Charge(w, limit, span, now);
      var left := span - (now - w'.start);
      && (left < 1_000_000_000 ==> v.retryAfter == 1)
      && (left >= 1_000_000_000 ==> v.retryAfter * 1_000_000_000 <= left < (v.retryAfter + 1) * 1_000_000_000)
  {
    var (w', v) := Charge(w, limit, span, now);
    var left := span - (now - w'.start);
    assert left >= 0;
    assert left == SECOND * (left / SECOND) + left % SECOND;
  }

  /** Limit 1: refused when the window was just opened, and refused again after
      exactly the minute that Retry-After names. */
  lemma {:induction false} RetryAfterCanFallShort()
    ensures Charge(Window(1, 0), 1, MINUTE, 0) == (Window(1, 0), Limited(60))
    ensures Charge(Window(1, 0), 1, MINUTE, 60 * SECOND).1.Limited?
  {
  }
}
