/**
 * The fixed-window rate limiter on values: one window per key, a janitor that
 * forgets stale windows, and the bounds that hold over every run.
 *
 * Times are nanoseconds on one monotonic clock. `span` is the window duration;
 * the limiters that share a store all use the same one.
 */
module RateLimiter {
  import opened Common

  const EVICT_AFTER: int := 15 * MINUTE

  datatype Window = Window(count: int, start: int)

  datatype Verdict = Admitted | Limited(retryAfter: int)

  type Table = map<string, Window>

  /** A request reads the clock once when it has to open a window and once when it is charged. */
  datatype Event =
    | Request(key: string, limit: int, looked: int, charged: int)
    | Sweep(at: int)
  {
    function Begin(): int { if Request? then looked else at }
    function End(): int { if Request? then charged else at }
  }

  /** One line of a key's history: admitted at `at` as number `ordinal` of the window looked at `start`. */
  datatype Admission = Admission(at: int, start: int, ordinal: int, limit: int)

  // ---------------------------------------------------------------- the limiter

  function RetryAfter(remaining: int): int {
    if remaining / SECOND < 1 then 1 else remaining / SECOND
  }

  function Charge(w: Window, limit: int, span: int, now: int): (Window, Verdict) {
    var live := if now - w.start > span then Window(0, now) else w;
    if live.count >= limit
    then (live, Limited(RetryAfter(span - (now - live.start))))
    else (live.(count := live.count + 1), Admitted)
  }

  function Open(t: Table, key: string, now: int): Table {
    if key in t then t else t[key := Window(0, now)]
  }

  predicate Stale(w: Window, now: int) { now - w.start > EVICT_AFTER }

  function Evict(t: Table, now: int): Table {
    map k | k in t && !Stale(t[k], now) :: t[k]
  }

  function Step(t: Table, span: int, e: Event, janitor: bool): (Table, Option<Verdict>) {
    match e
    case Sweep(at) => (if janitor then Evict(t, at) else t, None)
    case Request(key, limit, looked, charged) =>
      var t1 := Open(t, key, looked);
      var (w, v) := Charge(t1[key], limit, span, charged);
      (t1[key := w], Some(v))
  }

  /** The table after a run, with or without the janitor. */
  function After(es: seq<Event>, span: int, janitor: bool): Table {
    if es == [] then map[]
    else Step(After(es[..|es| - 1], span, janitor), span, es[|es| - 1], janitor).0
  }

  /** What each event of a run answered. */
  function Answers(es: seq<Event>, span: int, janitor: bool): (r: seq<Option<Verdict>>)
    ensures |r| == |es|
  {
    if es == [] then []
    else
      var before := es[..|es| - 1];
      Answers(before, span, janitor)
      + [Step(After(before, span, janitor), span, es[|es| - 1], janitor).1]
  }

  /** The clock never runs backwards, and a request is looked up and charged as one step. */
  ghost predicate Timed(es: seq<Event>) {
    && (forall i :: 0 <= i < |es| ==> es[i].Begin() <= es[i].End())
    && (forall i, j :: 0 <= i < j < |es| ==> es[i].End() <= es[j].Begin())
  }

  /** A key's history grows by one line exactly when a request for it is admitted. */
  function Record(log: seq<Admission>, t: Table, key: string, span: int, e: Event): seq<Admission> {
    var (t', answer) := Step(t, span, e, true);
    if e.Request? && e.key == key && answer == Some(Admitted)
    then log + [Admission(e.charged, t'[key].start, t'[key].count, e.limit)]
    else log
  }

  /** The admissions of one key, in order. */
  function Log(es: seq<Event>, key: string, span: int): seq<Admission> {
    if es == [] then []
    else
      var before := es[..|es| - 1];
      Record(Log(before, key, span), After(before, span, true), key, span, es[|es| - 1])
  }

  /** Appending an event takes one step. */
  lemma {:induction false} Snoc(es: seq<Event>, e: Event, key: string, span: int, janitor: bool)
    ensures After(es + [e], span, janitor) == Step(After(es, span, janitor), span, e, janitor).0
    ensures Answers(es + [e], span, janitor)
         == Answers(es, span, janitor) + [Step(After(es, span, janitor), span, e, janitor).1]
    ensures Log(es + [e], key, span) == Record(Log(es, key, span), After(es, span, true), key, span, e)
  {
    assert (es + [e])[..|es|] == es;
  }

  // ---------------------------------------------------- what one window's history looks like

  /** Admissions fall in their window, are numbered 1, 2, ... in it, respect
      their own limit, and successive windows start more than `span` apart. */
  ghost predicate Chained(log: seq<Admission>, span: int) {
    && (forall i :: 0 <= i < |log| ==>
          && log[i].start <= log[i].at <= log[i].start + span
          && 1 <= log[i].ordinal <= log[i].limit)
    && (forall i :: 0 < i < |log| ==> Follows(log[i - 1], log[i], span))
    && (log != [] ==> log[0].ordinal == 1)
  }

  ghost predicate Follows(a: Admission, b: Admission, span: int) {
    && a.at <= b.at
    && if a.start == b.start then b.ordinal == a.ordinal + 1
       else b.start > a.start + span && b.ordinal == 1
  }

  /** A live window at time `now` continues the history `log`. */
  ghost predicate Continues(log: seq<Admission>, w: Window, span: int, now: int) {
    && Chained(log, span)
    && w.start <= now && 0 <= w.count
    && (log != [] ==> log[|log| - 1].at <= now)
    && if w.count == 0
       then log != [] ==> w.start > log[|log| - 1].start + span
       else log != [] && log[|log| - 1].start == w.start && log[|log| - 1].ordinal == w.count
  }

  /** After an eviction nothing of the history is less than `span` old. */
  ghost predicate Forgotten(log: seq<Admission>, span: int, now: int) {
    && Chained(log, span)
    && (log != [] ==> log[|log| - 1].at <= now && log[|log| - 1].start + span < now)
  }

  lemma {:induction false} ChargeContinues(log: seq<Admission>, w: Window, limit: int, span: int, earlier: int,
                                           now: int)
    requires 0 <= span && earlier <= now
    requires Continues(log, w, span, earlier)
    ensures var (w', v) := Charge(w, limit, span, now);
      Continues(if v == Admitted then log + [Admission(now, w'.start, w'.count, limit)] else log, w', span, now)
  {
  }

  /** The invariant of a run: the table and a key's history always agree. */
  ghost predicate Agree(log: seq<Admission>, t: Table, key: string, span: int, now: int) {
    if key in t then Continues(log, t[key], span, now) else Forgotten(log, span, now)
  }

  lemma {:induction false} StepAgrees(log: seq<Admission>, t: Table, key: string, span: int, e: Event)
    requires 0 <= span <= EVICT_AFTER && e.Begin() <= e.End()
    requires Agree(log, t, key, span, e.Begin())
    ensures Agree(Record(log, t, key, span, e), Step(t, span, e, true).0, key, span, e.End())
  {
    if e.Request? && e.key == key {
      var w := Open(t, key, e.looked)[key];
      assert Continues(log, w, span, e.looked);
      ChargeContinues(log, w, e.limit, span, e.looked, e.charged);
    }
  }

  lemma {:induction false} HistoryAgrees(es: seq<Event>, key: string, span: int, now: int)
    requires Timed(es) && 0 <= span <= EVICT_AFTER
    requires forall i :: 0 <= i < |es| ==> es[i].End() <= now
    ensures Agree(Log(es, key, span), After(es, span, true), key, span, now)
  {
    if es != [] {
      var before := es[..|es| - 1];
      var e := es[|es| - 1];
      HistoryAgrees(before, key, span, e.Begin());
      StepAgrees(Log(before, key, span), After(before, span, true), key, span, e);
    }
  }

  /** Every key's history, over every run and every placement of sweeps, is chained. */
  lemma {:induction false} HistoryIsChained(es: seq<Event>, key: string, span: int)
    requires Timed(es) && 0 <= span <= EVICT_AFTER
    ensures Chained(Log(es, key, span), span)
  {
    var now := if es == [] then 0 else es[|es| - 1].End();
    HistoryAgrees(es, key, span, now);
  }

  lemma {:induction false} LogLimits(es: seq<Event>, key: string, span: int, limit: int)
    requires forall i :: 0 <= i < |es| && es[i].Request? && es[i].key == key ==> es[i].limit <= limit
    ensures forall i :: 0 <= i < |Log(es, key, span)| ==> Log(es, key, span)[i].limit <= limit
  {
    if es != [] {
      LogLimits(es[..|es| - 1], key, span, limit);
    }
  }

  // ---------------------------------------------------------------- bounds from a chained history

  /** Within one window numbers run consecutively; a later window starts more than `span` after. */
  lemma {:induction false} Apart(log: seq<Admission>, span: int, i: int, j: int)
    requires 0 <= span && Chained(log, span) && 0 <= i <= j < |log|
    ensures log[i].at <= log[j].at
    ensures if log[i].start == log[j].start then log[j].ordinal == log[i].ordinal + (j - i)
            else log[j].start > log[i].start + span && log[j].ordinal <= j - i
    decreases j - i
  {
    if i < j {
      Apart(log, span, i, j - 1);
      assert Follows(log[j - 1], log[j], span);
    }
  }

  /** Any 2 * limit + 1 consecutive admissions spread over more than `span`. */
  lemma {:induction false} AdmissionsSpread(log: seq<Admission>, span: int, limit: nat, i: int)
    requires 0 <= span && Chained(log, span)
    requires forall k :: 0 <= k < |log| ==> log[k].limit <= limit
    requires 0 <= i && i + 2 * limit < |log|
    ensures log[i + 2 * limit].at - log[i].at > span
  {
    Apart(log, span, i, i + limit);
    Apart(log, span, i + limit, i + 2 * limit);
  }

  ghost function InInterval(log: seq<Admission>, from: int, to: int): set<int> {
    set i | 0 <= i < |log| && from <= log[i].at <= to
  }

  lemma {:induction false} IntervalBound(log: seq<Admission>, span: int, limit: nat, from: int)
    requires 0 <= span && Chained(log, span)
    requires forall k :: 0 <= k < |log| ==> log[k].limit <= limit
    ensures |InInterval(log, from, from + span)| <= 2 * limit
  {
    var hits := InInterval(log, from, from + span);
    if hits != {} {
      var lo, hi := Extremes(hits);
      if hi >= lo + 2 * limit {
        AdmissionsSpread(log, span, limit, lo);
        Apart(log, span, lo + 2 * limit, hi);
        assert false;
      }
      ConfinedSize(hits, lo, lo + 2 * limit);
    }
  }

  /** The sliding bound: whatever the run, a closed interval as long as the
      window holds at most twice the limit for one key. */
  lemma {:induction false} SlidingBound(es: seq<Event>, key: string, span: int, limit: nat, from: int)
    requires Timed(es) && 0 <= span <= EVICT_AFTER
    requires forall i :: 0 <= i < |es| && es[i].Request? && es[i].key == key ==> es[i].limit <= limit
    ensures |InInterval(Log(es, key, span), from, from + span)| <= 2 * limit
  {
    HistoryIsChained(es, key, span);
    LogLimits(es, key, span, limit);
    IntervalBound(Log(es, key, span), span, limit, from);
  }

  /** An interval with more admissions than the limit meets two windows of the key. */
  lemma {:induction false} MoreThanLimitMeetsTwoWindows(es: seq<Event>, key: string, span: int, limit: nat,
                                                        from: int, to: int)
    requires Timed(es) && 0 <= span <= EVICT_AFTER
    requires forall i :: 0 <= i < |es| && es[i].Request? && es[i].key == key ==> es[i].limit <= limit
    ensures var log := Log(es, key, span);
      |InInterval(log, from, to)| > limit ==>
        exists i, j :: i in InInterval(log, from, to) && j in InInterval(log, from, to) && log[i].start != log[j].start
  {
    var log := Log(es, key, span);
    HistoryIsChained(es, key, span);
    LogLimits(es, key, span, limit);
    var hits := InInterval(log, from, to);
    if |hits| > limit {
      var lo, hi := Extremes(hits);
      ConfinedSize(hits, lo, hi + 1);
      Apart(log, span, lo, hi);
      assert log[lo].start != log[hi].start;
    }
  }

  lemma {:induction false} InIntervalSnoc(log: seq<Admission>, a: Admission, from: int, to: int)
    ensures |InInterval(log + [a], from, to)| == |InInterval(log, from, to)| + if from <= a.at <= to then 1 else 0
  {
    var before := InInterval(log, from, to);
    assert |log| !in before;
    assert InInterval(log + [a], from, to) == if from <= a.at <= to then before + {|log|} else before;
  }

  ghost function InWindow(log: seq<Admission>, start: int, limit: int): set<int> {
    set i | 0 <= i < |log| && log[i].start == start && log[i].limit <= limit
  }

  /** Mixed limits on one store: inside one window, requests whose own limit is
      at most `limit` are admitted at most `limit` times, however the other
      limiters of the store use the window. */
  lemma {:induction false} MixedLimitsBound(es: seq<Event>, key: string, span: int, limit: nat, start: int)
    requires Timed(es) && 0 <= span <= EVICT_AFTER
    ensures |InWindow(Log(es, key, span), start, limit)| <= limit
  {
    var log := Log(es, key, span);
    HistoryIsChained(es, key, span);
    var hits := InWindow(log, start, limit);
    if hits != {} {
      var lo, hi := Extremes(hits);
      Apart(log, span, lo, hi);
      ConfinedSize(hits, lo, hi + 1);
    }
  }

  /** The k-th admission of a window was charged against a limit of at least k. */
  lemma {:induction false} OrdinalCounts(es: seq<Event>, key: string, span: int, i: int)
    requires Timed(es) && 0 <= span <= EVICT_AFTER
    requires 0 <= i < |Log(es, key, span)|
    ensures var log := Log(es, key, span);
      |set j | 0 <= j <= i && log[j].start == log[i].start| == log[i].ordinal <= log[i].limit
  {
    var log := Log(es, key, span);
    HistoryIsChained(es, key, span);
    var same := set j | 0 <= j <= i && log[j].start == log[i].start;
    forall j | 0 <= j <= i
      ensures j in same <==> i - log[i].ordinal < j
    {
      Apart(log, span, j, i);
      Apart(log, span, 0, i);
      if i - log[i].ordinal < j && log[j].start != log[i].start {
        assert false;
      }
    }
    Apart(log, span, 0, i);
    assert log[i].ordinal <= i + 1;
    assert same == Range(i - log[i].ordinal + 1, i + 1);
  }

  // ---------------------------------------------------------------- when a request is refused

  /** The admissions of the key's last window, as long as that window runs at `now`. */
  ghost function Running(log: seq<Admission>, span: int, now: int): set<int> {
    if log == [] || now - log[|log| - 1].start > span then {}
    else set i | 0 <= i < |log| && log[i].start == log[|log| - 1].start
  }

  /** The running window of an agreeing table holds as many admissions as were recorded. */
  lemma {:induction false} RunningIsCount(es: seq<Event>, key: string, span: int, now: int)
    requires Timed(es) && 0 <= span <= EVICT_AFTER && forall i :: 0 <= i < |es| ==> es[i].End() <= now
    ensures var log := Log(es, key, span);
      |Running(log, span, now)|
      == if log != [] && now - log[|log| - 1].start <= span then log[|log| - 1].ordinal else 0
  {
    var log := Log(es, key, span);
    if log != [] && now - log[|log| - 1].start <= span {
      OrdinalCounts(es, key, span, |log| - 1);
      assert Running(log, span, now) == set j | 0 <= j <= |log| - 1 && log[j].start == log[|log| - 1].start;
    }
  }

  /** A request is refused exactly when the window of its key is running and has
      already admitted as many requests as its limit; nothing else is refused. */
  lemma {:induction false} RefusedIff(es: seq<Event>, e: Event, span: int)
    requires Timed(es + [e]) && 0 <= span <= EVICT_AFTER && e.Request?
    ensures Step(After(es, span, true), span, e, true).1 != Some(Admitted) <==>
            e.limit <= |Running(Log(es, e.key, span), span, e.charged)|
  {
    var all := es + [e];
    assert all[|es|] == e && forall i :: 0 <= i < |es| ==> all[i] == es[i];
    var log, t := Log(es, e.key, span), After(es, span, true);
    assert Timed(es);
    HistoryAgrees(es, e.key, span, e.looked);
    RunningIsCount(es, e.key, span, e.charged);
    RefusedByTable(log, t, span, e);
  }

  lemma {:induction false} RefusedByTable(log: seq<Admission>, t: Table, span: int, e: Event)
    requires e.Request? && e.looked <= e.charged && 0 <= span && Agree(log, t, e.key, span, e.looked)
    ensures Step(t, span, e, true).1 != Some(Admitted) <==>
            e.limit <= if log != [] && e.charged - log[|log| - 1].start <= span then log[|log| - 1].ordinal else 0
  {
    assert log != [] ==> log[|log| - 1].ordinal >= 1;
  }

  // ---------------------------------------------------------------- keys do not share anything

  /** The run as one key sees it: its requests and the sweeps. */
  function Only(es: seq<Event>, key: string): seq<Event> {
    if es == [] then []
    else
      var e := es[|es| - 1];
      Only(es[..|es| - 1], key) + if e.Sweep? || e.key == key then [e] else []
  }

  /** What other keys do leaves a key's window and its history as they are. */
  lemma {:induction false} KeysAreIndependent(es: seq<Event>, key: string, span: int)
    ensures var t, t' := After(es, span, true), After(Only(es, key), span, true);
      (key in t <==> key in t') && (key in t ==> t[key] == t'[key])
    ensures Log(es, key, span) == Log(Only(es, key), key, span)
  {
    if es != [] {
      var before, e := es[..|es| - 1], es[|es| - 1];
      KeysAreIndependent(before, key, span);
      if e.Sweep? || e.key == key {
        Snoc(Only(before, key), e, key, span, true);
      } else {
        assert Only(es, key) == Only(before, key);
      }
    }
  }

  /** The janitor forgets a window exactly when it is more than 15 minutes old. */
  lemma {:induction false} ForgottenAfterFifteenMinutes(t: Table, span: int, at: int, key: string)
    requires key in t
    ensures var t' := Step(t, span, Sweep(at), true).0;
      && (key in t' <==> at - t[key].start <= 15 * 60 * 1_000_000_000)
      && (key in t' ==> t'[key] == t[key])
  {
  }
}
