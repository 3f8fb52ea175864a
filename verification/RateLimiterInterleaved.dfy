/**
 * The limiter as the locks really divide it: a request releases the store's
 * lock after the lookup and is charged later, on the window object it found.
 * In between, the janitor may evict that window and others may open a new one.
 */
module RateLimiterInterleaved {
  import opened Common
  import opened RateLimiter

  /** `table` names window objects of `heap`, each opened for the key in `keys`;
      `held` is what each waiting request found. */
  datatype Split = Split(table: map<string, nat>, heap: seq<Window>, keys: seq<string>, held: map<nat, nat>)

  const EMPTY: Split := Split(map[], [], [], map[])

  datatype SplitEvent =
    | Lookup(request: nat, key: string, at: int)
    | Pay(request: nat, limit: int, at: int)
    | Clean(at: int)

  ghost predicate WellFormed(s: Split) {
    && |s.keys| == |s.heap|
    && (forall k :: k in s.table ==> s.table[k] < |s.heap| && s.keys[s.table[k]] == k)
    && (forall r :: r in s.held ==> s.held[r] < |s.heap|)
  }

  function SplitStep(s: Split, span: int, e: SplitEvent): (r: (Split, Option<Verdict>))
    requires WellFormed(s)
    ensures WellFormed(r.0)
  {
    match e
    case Lookup(request, key, at) =>
      if key in s.table then (s.(held := s.held[request := s.table[key]]), None)
      else
        (Split(s.table[key := |s.heap|], s.heap + [Window(0, at)], s.keys + [key], s.held[request := |s.heap|]), None)
    case Pay(request, limit, at) =>
      if request !in s.held then (s, None)
      else
        var (w, v) := Charge(s.heap[s.held[request]], limit, span, at);
        (s.(heap := s.heap[s.held[request] := w], held := s.held - {request}), Some(v))
    case Clean(at) =>
      (s.(table := map k | k in s.table && !Stale(s.heap[s.table[k]], at) :: s.table[k]), None)
  }

  function SplitAfter(es: seq<SplitEvent>, span: int): (s: Split)
    ensures WellFormed(s)
  {
    if es == [] then EMPTY
    else SplitStep(SplitAfter(es[..|es| - 1], span), span, es[|es| - 1]).0
  }

  ghost predicate SplitTimed(es: seq<SplitEvent>) {
    forall i, j :: 0 <= i < j < |es| ==> es[i].at <= es[j].at
  }

  lemma {:induction false} TimedPrefix(es: seq<SplitEvent>, n: nat)
    requires n < |es| && SplitTimed(es)
    ensures SplitTimed(es[..n]) && forall i :: 0 <= i < n ==> es[..n][i].at <= es[n].at
  {
  }

  /** The history of one window object grows when a request holding it is admitted. */
  function RecordObject(log: seq<Admission>, s: Split, id: nat, span: int, e: SplitEvent): seq<Admission>
    requires WellFormed(s)
  {
    var (s', v) := SplitStep(s, span, e);
    if v == Some(Admitted) && s.held[e.request] == id
    then log + [Admission(e.at, s'.heap[id].start, s'.heap[id].count, e.limit)]
    else log
  }

  function ObjectLog(es: seq<SplitEvent>, id: nat, span: int): seq<Admission> {
    if es == [] then []
    else
      var before := es[..|es| - 1];
      RecordObject(ObjectLog(before, id, span), SplitAfter(before, span), id, span, es[|es| - 1])
  }

  ghost predicate ObjectAgrees(log: seq<Admission>, s: Split, id: nat, span: int, now: int) {
    if id < |s.heap| then Continues(log, s.heap[id], span, now) else log == []
  }

  lemma {:induction false} SplitStepAgrees(log: seq<Admission>, s: Split, id: nat, span: int, e: SplitEvent,
                                           earlier: int)
    requires WellFormed(s) && 0 <= span && earlier <= e.at
    requires ObjectAgrees(log, s, id, span, earlier)
    ensures ObjectAgrees(RecordObject(log, s, id, span, e), SplitStep(s, span, e).0, id, span, e.at)
  {
    if e.Pay? && e.request in s.held && s.held[e.request] == id {
      ChargeContinues(log, s.heap[id], e.limit, span, earlier, e.at);
    }
  }

  lemma {:induction false} ObjectHistory(es: seq<SplitEvent>, id: nat, span: int, now: int)
    requires SplitTimed(es) && 0 <= span
    requires forall i :: 0 <= i < |es| ==> es[i].at <= now
    ensures ObjectAgrees(ObjectLog(es, id, span), SplitAfter(es, span), id, span, now)
  {
    if es != [] {
      var n := |es| - 1;
      TimedPrefix(es, n);
      ObjectHistory(es[..n], id, span, es[n].at);
      SplitStepAgrees(ObjectLog(es[..n], id, span), SplitAfter(es[..n], span), id, span, es[n], es[n].at);
    }
  }

  lemma {:induction false} ObjectLogLimits(es: seq<SplitEvent>, id: nat, span: int, limit: int)
    requires forall i :: 0 <= i < |es| && es[i].Pay? ==> es[i].limit <= limit
    ensures forall i :: 0 <= i < |ObjectLog(es, id, span)| ==> ObjectLog(es, id, span)[i].limit <= limit
  {
    if es != [] {
      ObjectLogLimits(es[..|es| - 1], id, span, limit);
    }
  }

  /** For every interleaving of lookups, charges and sweeps, one window object
      keeps the sliding bound. */
  lemma {:induction false} ObjectBound(es: seq<SplitEvent>, id: nat, span: int, limit: nat, from: int)
    requires SplitTimed(es) && 0 <= span
    requires forall i :: 0 <= i < |es| && es[i].Pay? ==> es[i].limit <= limit
    ensures Chained(ObjectLog(es, id, span), span)
    ensures |InInterval(ObjectLog(es, id, span), from, from + span)| <= 2 * limit
  {
    var now := if es == [] then 0 else es[|es| - 1].at;
    ObjectHistory(es, id, span, now);
    ObjectLogLimits(es, id, span, limit);
    IntervalBound(ObjectLog(es, id, span), span, limit, from);
  }

  // ---------------------------------------------------------------- the bound for a key

  /** The object that a charge is about to use. */
  predicate Uses(s: Split, key: string, e: SplitEvent)
    requires WellFormed(s)
  {
    e.Pay? && e.request in s.held && s.keys[s.held[e.request]] == key
  }

  /** The charge uses the window that the table names for its key now. */
  predicate UsesNamed(s: Split, key: string, e: SplitEvent)
    requires WellFormed(s)
  {
    Uses(s, key, e) && key in s.table && s.table[key] == s.held[e.request]
  }

  /** All of a key's admissions, those charged to the named window, or those to a displaced one. */
  datatype Share = Whole | Named | Displaced

  predicate Belongs(share: Share, s: Split, key: string, e: SplitEvent)
    requires WellFormed(s)
  {
    Uses(s, key, e) && (share.Whole? || (share.Named? <==> UsesNamed(s, key, e)))
  }

  function RecordKey(log: seq<Admission>, s: Split, key: string, span: int, e: SplitEvent, share: Share): seq<Admission>
    requires WellFormed(s)
  {
    var (s', v) := SplitStep(s, span, e);
    if v == Some(Admitted) && Belongs(share, s, key, e)
    then
      var w := s'.heap[s.held[e.request]];
      log + [Admission(e.at, w.start, w.count, e.limit)]
    else log
  }

  function KeyLog(es: seq<SplitEvent>, key: string, span: int, share: Share): seq<Admission> {
    if es == [] then []
    else
      var before := es[..|es| - 1];
      RecordKey(KeyLog(before, key, span, share), SplitAfter(before, span), key, span, es[|es| - 1], share)
  }

  lemma {:induction false} SplitSnoc(es: seq<SplitEvent>, e: SplitEvent, key: string, span: int, share: Share)
    ensures SplitAfter(es + [e], span) == SplitStep(SplitAfter(es, span), span, e).0
    ensures KeyLog(es + [e], key, span, share)
         == RecordKey(KeyLog(es, key, span, share), SplitAfter(es, span), key, span, e, share)
  {
    assert (es + [e])[..|es|] == es;
  }

  /** The table and the history of the windows it named agree, as in the atomic limiter. */
  ghost predicate KeyAgrees(log: seq<Admission>, s: Split, key: string, span: int, now: int)
    requires WellFormed(s)
  {
    if key in s.table then Continues(log, s.heap[s.table[key]], span, now) else Forgotten(log, span, now)
  }

  lemma {:induction false} NamedStepAgrees(log: seq<Admission>, s: Split, key: string, span: int, e: SplitEvent,
                                           earlier: int)
    requires WellFormed(s) && 0 <= span <= EVICT_AFTER && earlier <= e.at
    requires KeyAgrees(log, s, key, span, earlier)
    ensures KeyAgrees(RecordKey(log, s, key, span, e, Named), SplitStep(s, span, e).0, key, span, e.at)
  {
    if UsesNamed(s, key, e) {
      ChargeContinues(log, s.heap[s.table[key]], e.limit, span, earlier, e.at);
    }
  }

  lemma {:induction false} NamedHistory(es: seq<SplitEvent>, key: string, span: int, now: int)
    requires SplitTimed(es) && 0 <= span <= EVICT_AFTER
    requires forall i :: 0 <= i < |es| ==> es[i].at <= now
    ensures KeyAgrees(KeyLog(es, key, span, Named), SplitAfter(es, span), key, span, now)
  {
    if es != [] {
      var n := |es| - 1;
      TimedPrefix(es, n);
      NamedHistory(es[..n], key, span, es[n].at);
      NamedStepAgrees(KeyLog(es[..n], key, span, Named), SplitAfter(es[..n], span), key, span, es[n], es[n].at);
    }
  }

  lemma {:induction false} NamedIsChained(es: seq<SplitEvent>, key: string, span: int)
    requires SplitTimed(es) && 0 <= span <= EVICT_AFTER
    ensures Chained(KeyLog(es, key, span, Named), span)
  {
    NamedHistory(es, key, span, if es == [] then 0 else es[|es| - 1].at);
  }

  lemma {:induction false} KeyLogLimits(es: seq<SplitEvent>, key: string, span: int, share: Share, limit: int)
    requires forall i :: 0 <= i < |es| && es[i].Pay? ==> es[i].limit <= limit
    ensures forall i :: 0 <= i < |KeyLog(es, key, span, share)| ==> KeyLog(es, key, span, share)[i].limit <= limit
  {
    if es != [] {
      KeyLogLimits(es[..|es| - 1], key, span, share, limit);
    }
  }

  lemma {:induction false} SharesAddUp(es: seq<SplitEvent>, key: string, span: int, from: int, to: int)
    ensures |InInterval(KeyLog(es, key, span, Whole), from, to)|
         == |InInterval(KeyLog(es, key, span, Named), from, to)|
          + |InInterval(KeyLog(es, key, span, Displaced), from, to)|
  {
    if es != [] {
      var before := es[..|es| - 1];
      var e, s := es[|es| - 1], SplitAfter(before, span);
      SharesAddUp(before, key, span, from, to);
      var (s', v) := SplitStep(s, span, e);
      if v == Some(Admitted) && Uses(s, key, e) {
        var w := s'.heap[s.held[e.request]];
        var a := Admission(e.at, w.start, w.count, e.limit);
        InIntervalSnoc(KeyLog(before, key, span, Whole), a, from, to);
        InIntervalSnoc(KeyLog(before, key, span, Named), a, from, to);
        InIntervalSnoc(KeyLog(before, key, span, Displaced), a, from, to);
      }
    }
  }

  /** For every interleaving of lookups, charges and sweeps, the admissions charged
      to the window its table names at the time keep the key's sliding bound; a
      request that still holds a displaced window adds at most itself. */
  lemma {:induction false} KeyBound(es: seq<SplitEvent>, key: string, span: int, limit: nat, from: int)
    requires SplitTimed(es) && 0 <= span <= EVICT_AFTER
    requires forall i :: 0 <= i < |es| && es[i].Pay? ==> es[i].limit <= limit
    ensures Chained(KeyLog(es, key, span, Named), span)
    ensures |InInterval(KeyLog(es, key, span, Whole), from, from + span)|
         <= 2 * limit + |InInterval(KeyLog(es, key, span, Displaced), from, from + span)|
  {
    NamedIsChained(es, key, span);
    KeyLogLimits(es, key, span, Named, limit);
    IntervalBound(KeyLog(es, key, span, Named), span, limit, from);
    SharesAddUp(es, key, span, from, from + span);
  }

  /** No request of the key is charged on a window that was evicted while it waited. */
  ghost predicate NoneDisplaced(es: seq<SplitEvent>, key: string, span: int) {
    forall i :: 0 <= i < |es| && Uses(SplitAfter(es[..i], span), key, es[i])
      ==> UsesNamed(SplitAfter(es[..i], span), key, es[i])
  }

  lemma {:induction false} NoneDisplacedPrefix(es: seq<SplitEvent>, key: string, span: int, n: nat)
    requires n <= |es| && NoneDisplaced(es, key, span)
    ensures NoneDisplaced(es[..n], key, span)
  {
    forall i | 0 <= i < n ensures es[..n][..i] == es[..i] {}
  }

  lemma {:induction false} NoneDisplacedShares(es: seq<SplitEvent>, key: string, span: int)
    requires NoneDisplaced(es, key, span)
    ensures KeyLog(es, key, span, Displaced) == [] && KeyLog(es, key, span, Whole) == KeyLog(es, key, span, Named)
  {
    if es != [] {
      var n := |es| - 1;
      NoneDisplacedPrefix(es, key, span, n);
      NoneDisplacedShares(es[..n], key, span);
      assert Uses(SplitAfter(es[..n], span), key, es[n]) ==> UsesNamed(SplitAfter(es[..n], span), key, es[n]);
    }
  }

  /** While every charge uses the named window, the key has a chained history and
      the bound of the atomic limiter. */
  lemma {:induction false} KeyBoundWithoutDisplacement(es: seq<SplitEvent>, key: string, span: int, limit: nat,
                                                       from: int)
    requires SplitTimed(es) && 0 <= span <= EVICT_AFTER && NoneDisplaced(es, key, span)
    requires forall i :: 0 <= i < |es| && es[i].Pay? ==> es[i].limit <= limit
    ensures Chained(KeyLog(es, key, span, Whole), span)
    ensures |InInterval(KeyLog(es, key, span, Whole), from, from + span)| <= 2 * limit
  {
    KeyBound(es, key, span, limit, from);
    NoneDisplacedShares(es, key, span);
    assert InInterval([], from, from + span) == {};
  }

  /** Up to now every window of the key that the table no longer names has run out. */
  ghost predicate DisplacedExpired(s: Split, key: string, span: int, now: int)
    requires WellFormed(s)
  {
    forall id :: 0 <= id < |s.heap| && s.keys[id] == key && !(key in s.table && s.table[key] == id)
      ==> now - s.heap[id].start > span
  }

  lemma {:induction false} DisplacedStayExpired(s: Split, key: string, span: int, e: SplitEvent, earlier: int)
    requires WellFormed(s) && 0 <= span <= EVICT_AFTER && earlier <= e.at
    requires DisplacedExpired(s, key, span, earlier)
    requires Uses(s, key, e) ==> UsesNamed(s, key, e)
    ensures DisplacedExpired(SplitStep(s, span, e).0, key, span, e.at)
  {
  }

  lemma {:induction false} DisplacedExpire(es: seq<SplitEvent>, key: string, span: int, now: int)
    requires SplitTimed(es) && 0 <= span <= EVICT_AFTER && NoneDisplaced(es, key, span)
    requires forall i :: 0 <= i < |es| ==> es[i].at <= now
    ensures DisplacedExpired(SplitAfter(es, span), key, span, now)
  {
    if es != [] {
      var n := |es| - 1;
      NoneDisplacedPrefix(es, key, span, n);
      TimedPrefix(es, n);
      DisplacedExpire(es[..n], key, span, es[n].at);
      DisplacedStayExpired(SplitAfter(es[..n], span), key, span, es[n], es[n].at);
    }
  }

  /** A used window of the key that the table names, still running at `now`. */
  predicate NewerRuns(s: Split, key: string, span: int, now: int)
    requires WellFormed(s)
  {
    key in s.table && s.heap[s.table[key]].count > 0 && now - s.heap[s.table[key]].start <= span
  }

  /** A charge on a window that has run out restarts it. */
  lemma {:induction false} RestartRecorded(log: seq<Admission>, s: Split, key: string, span: int, e: SplitEvent)
    requires WellFormed(s) && Uses(s, key, e) && 0 <= span
    requires e.at - s.heap[s.held[e.request]].start > span
    ensures RecordKey(log, s, key, span, e, Whole)
         == if 0 < e.limit then log + [Admission(e.at, e.at, 1, e.limit)] else log
  {
  }

  /** A restart at `now` follows the history exactly when no newer window is running. */
  lemma {:induction false} RestartFollowsIff(log: seq<Admission>, s: Split, key: string, span: int, now: int,
                                             limit: int)
    requires WellFormed(s) && 0 <= span && KeyAgrees(log, s, key, span, now)
    ensures (log != [] ==> Follows(log[|log| - 1], Admission(now, now, 1, limit), span)) <==>
            !NewerRuns(s, key, span, now)
  {
    if log != [] && key in s.table && s.heap[s.table[key]].count > 0 {
      assert log[|log| - 1].start == s.heap[s.table[key]].start;
      assert log[|log| - 1].ordinal >= 1;
    }
  }

  /** The first charge on a displaced window breaks the key's history exactly when
      it is admitted while a newer window of the key is in use and running. */
  lemma {:induction false} DisplacedChargeBreaksIff(es: seq<SplitEvent>, e: SplitEvent, key: string, span: int)
    requires SplitTimed(es + [e]) && 0 <= span <= EVICT_AFTER && NoneDisplaced(es, key, span)
    requires Uses(SplitAfter(es, span), key, e) && !UsesNamed(SplitAfter(es, span), key, e)
    ensures !Chained(KeyLog(es + [e], key, span, Whole), span) <==>
            0 < e.limit && NewerRuns(SplitAfter(es, span), key, span, e.at)
  {
    var s, log := SplitAfter(es, span), KeyLog(es, key, span, Whole);
    TimedPrefix(es + [e], |es|);
    assert (es + [e])[..|es|] == es;
    NoneDisplacedShares(es, key, span);
    NamedIsChained(es, key, span);
    NamedHistory(es, key, span, e.at);
    DisplacedExpire(es, key, span, e.at);
    SplitSnoc(es, e, key, span, Whole);
    RestartRecorded(log, s, key, span, e);
    RestartFollowsIff(log, s, key, span, e.at, e.limit);
    if 0 < e.limit {
      ChainedSnoc(log, Admission(e.at, e.at, 1, e.limit), span);
    }
  }

  lemma {:induction false} ChainedSnoc(log: seq<Admission>, a: Admission, span: int)
    requires Chained(log, span) && 0 <= span && a.start == a.at && 1 == a.ordinal <= a.limit
    ensures Chained(log + [a], span) <==> (log != [] ==> Follows(log[|log| - 1], a, span))
  {
    var all := log + [a];
    assert all[|log|] == a && forall i :: 0 <= i < |log| ==> all[i] == log[i];
    if log != [] && Chained(all, span) {
      assert Follows(all[|log| - 1], all[|log|], span);
    }
  }

  // ---------------------------------------------------------------- lookup and charge in one go

  function View(s: Split): Table
    requires WellFormed(s)
  {
    map k | k in s.table :: s.heap[s.table[k]]
  }

  /** Uninterrupted, the two halves are one request of the atomic limiter. */
  lemma {:induction false} LookupThenPayIsRequest(s: Split, span: int, request: nat, key: string, limit: int,
                                                  looked: int, charged: int)
    requires WellFormed(s)
    ensures
      var s1 := SplitStep(s, span, Lookup(request, key, looked)).0;
      var (s2, v) := SplitStep(s1, span, Pay(request, limit, charged));
      && UsesNamed(s1, key, Pay(request, limit, charged))
      && (View(s2), v) == Step(View(s), span, Request(key, limit, looked, charged), true)
  {
    LookupOpens(s, span, request, key, looked);
    PayCharges(SplitStep(s, span, Lookup(request, key, looked)).0, span, request, key, limit, charged);
  }

  lemma {:induction false} LookupOpens(s: Split, span: int, request: nat, key: string, at: int)
    requires WellFormed(s)
    ensures var s1 := SplitStep(s, span, Lookup(request, key, at)).0;
      && View(s1) == Open(View(s), key, at)
      && request in s1.held && key in s1.table && s1.held[request] == s1.table[key]
  {
  }

  lemma {:induction false} PayCharges(s: Split, span: int, request: nat, key: string, limit: int, at: int)
    requires WellFormed(s) && request in s.held && key in s.table && s.held[request] == s.table[key]
    ensures var (s', v) := SplitStep(s, span, Pay(request, limit, at));
      && View(s') == View(s)[key := Charge(View(s)[key], limit, span, at).0]
      && v == Some(Charge(View(s)[key], limit, span, at).1)
  {
    var s' := SplitStep(s, span, Pay(request, limit, at)).0;
    forall k | k in s.table && k != key ensures s'.heap[s'.table[k]] == s.heap[s.table[k]] {
      assert s.keys[s.table[k]] == k;
    }
  }

  lemma {:induction false} CleanIsSweep(s: Split, span: int, at: int)
    requires WellFormed(s)
    ensures View(SplitStep(s, span, Clean(at)).0) == Step(View(s), span, Sweep(at), true).0
  {
  }

  /** A run of the atomic limiter as lookups and charges with nothing in between. */
  function Halves(es: seq<Event>): seq<SplitEvent> {
    if es == [] then []
    else
      var before := Halves(es[..|es| - 1]);
      match es[|es| - 1]
      case Sweep(at) => before + [Clean(at)]
      case Request(key, limit, looked, charged) => before + [Lookup(0, key, looked)] + [Pay(0, limit, charged)]
  }

  lemma {:induction false} UninterruptedRecord(s: Split, log: seq<Admission>, key: string, span: int, k: string,
                                               limit: int, looked: int, charged: int)
    requires WellFormed(s)
    ensures var s1 := SplitStep(s, span, Lookup(0, k, looked)).0;
      RecordKey(log, s1, key, span, Pay(0, limit, charged), Whole)
      == Record(log, View(s), key, span, Request(k, limit, looked, charged))
  {
    var s1 := SplitStep(s, span, Lookup(0, k, looked)).0;
    var pay := Pay(0, limit, charged);
    LookupThenPayIsRequest(s, span, 0, k, limit, looked, charged);
    LookupOpens(s, span, 0, k, looked);
    var (s2, v) := SplitStep(s1, span, pay);
    assert View(s2)[k] == s2.heap[s2.table[k]];
  }

  lemma {:induction false} HalvesOfRequest(before: seq<SplitEvent>, key: string, span: int, k: string, limit: int,
                                           looked: int, charged: int)
    ensures
      var s := SplitAfter(before, span);
      var es := before + [Lookup(0, k, looked)] + [Pay(0, limit, charged)];
      var e := Request(k, limit, looked, charged);
      && View(SplitAfter(es, span)) == Step(View(s), span, e, true).0
      && KeyLog(es, key, span, Whole) == Record(KeyLog(before, key, span, Whole), View(s), key, span, e)
  {
    var s := SplitAfter(before, span);
    var look, pay := Lookup(0, k, looked), Pay(0, limit, charged);
    SplitSnoc(before, look, key, span, Whole);
    SplitSnoc(before + [look], pay, key, span, Whole);
    LookupThenPayIsRequest(s, span, 0, k, limit, looked, charged);
    UninterruptedRecord(s, KeyLog(before, key, span, Whole), key, span, k, limit, looked, charged);
  }

  lemma {:induction false} HalvesOfSweep(before: seq<SplitEvent>, key: string, span: int, at: int)
    ensures
      var s := SplitAfter(before, span);
      var es := before + [Clean(at)];
      && View(SplitAfter(es, span)) == Step(View(s), span, Sweep(at), true).0
      && KeyLog(es, key, span, Whole) == KeyLog(before, key, span, Whole)
  {
    SplitSnoc(before, Clean(at), key, span, Whole);
    CleanIsSweep(SplitAfter(before, span), span, at);
  }

  /** Runs without interruption are the runs of the atomic limiter: same windows, same histories. */
  lemma {:induction false} UninterruptedRunIsAtomic(es: seq<Event>, key: string, span: int)
    ensures View(SplitAfter(Halves(es), span)) == After(es, span, true)
    ensures KeyLog(Halves(es), key, span, Whole) == Log(es, key, span)
  {
    if es != [] {
      var n := |es| - 1;
      UninterruptedRunIsAtomic(es[..n], key, span);
      match es[n] {
        case Sweep(at) => HalvesOfSweep(Halves(es[..n]), key, span, at);
        case Request(k, limit, looked, charged) =>
          HalvesOfRequest(Halves(es[..n]), key, span, k, limit, looked, charged);
      }
    }
  }

  // ---------------------------------------------------------------- what displacement costs

  const LATE: int := EVICT_AFTER + 1

  /** Limit 1: request 0 waits with a window that is evicted; requests 1 and 2
      use the window opened next. */
  function StragglingEvent(key: string, n: nat): SplitEvent {
    match n
    case 0 => Lookup(0, key, 0)
    case 1 => Clean(LATE)
    case 2 => Lookup(1, key, LATE)
    case 3 => Pay(0, 1, LATE + MINUTE)
    case 4 => Pay(1, 1, LATE + MINUTE)
    case 5 => Lookup(2, key, LATE + MINUTE + 1)
    case _ => Pay(2, 1, LATE + MINUTE + 1)
  }

  function Straggling(key: string, n: nat): seq<SplitEvent> {
    seq(n, i requires 0 <= i < n => StragglingEvent(key, i))
  }

  function StragglingState(key: string, n: nat): Split {
    var t := LATE + MINUTE;
    match n
    case 0 => EMPTY
    case 1 => Split(map[key := 0], [Window(0, 0)], [key], map[0 := 0])
    case 2 => Split(map[], [Window(0, 0)], [key], map[0 := 0])
    case 3 => Split(map[key := 1], [Window(0, 0), Window(0, LATE)], [key, key], map[0 := 0, 1 := 1])
    case 4 => Split(map[key := 1], [Window(1, t), Window(0, LATE)], [key, key], map[1 := 1])
    case 5 => Split(map[key := 1], [Window(1, t), Window(1, LATE)], [key, key], map[])
    case 6 => Split(map[key := 1], [Window(1, t), Window(1, LATE)], [key, key], map[2 := 1])
    case _ => Split(map[key := 1], [Window(1, t), Window(1, t + 1)], [key, key], map[])
  }

  /** How many of the first n events were admitted. */
  function StragglingAdmitted(n: nat): nat {
    if n < 4 then 0 else if n == 4 then 1 else if n < 7 then 2 else 3
  }

  lemma {:induction false} StragglingSetup(key: string, n: nat)
    requires n < 2
    ensures SplitStep(StragglingState(key, n), MINUTE, StragglingEvent(key, n)) == (StragglingState(key, n + 1), None)
  {
    var s, s' := SplitStep(StragglingState(key, n), MINUTE, StragglingEvent(key, n)).0, StragglingState(key, n + 1);
    assert s.table == s'.table && s.heap == s'.heap && s.keys == s'.keys && s.held == s'.held;
  }

  lemma {:induction false} StragglingReopens(key: string, n: nat)
    requires n == 2
    ensures SplitStep(StragglingState(key, n), MINUTE, StragglingEvent(key, n)) == (StragglingState(key, n + 1), None)
  {
    var s, s' := SplitStep(StragglingState(key, n), MINUTE, StragglingEvent(key, n)).0, StragglingState(key, n + 1);
    assert s.table == s'.table && s.heap == s'.heap && s.keys == s'.keys && s.held == s'.held;
  }

  lemma {:induction false} StragglingCharges(key: string, n: nat)
    requires 3 <= n < 5
    ensures SplitStep(StragglingState(key, n), MINUTE, StragglingEvent(key, n))
         == (StragglingState(key, n + 1), Some(Admitted))
  {
    var s, s' := SplitStep(StragglingState(key, n), MINUTE, StragglingEvent(key, n)).0, StragglingState(key, n + 1);
    assert s.table == s'.table && s.heap == s'.heap && s.keys == s'.keys && s.held == s'.held;
  }

  lemma {:induction false} StragglingEnd(key: string, n: nat)
    requires 5 <= n < 7
    ensures SplitStep(StragglingState(key, n), MINUTE, StragglingEvent(key, n))
         == (StragglingState(key, n + 1), if n == 5 then None else Some(Admitted))
  {
    var s, s' := SplitStep(StragglingState(key, n), MINUTE, StragglingEvent(key, n)).0, StragglingState(key, n + 1);
    assert s.table == s'.table && s.heap == s'.heap && s.keys == s'.keys && s.held == s'.held;
  }

  lemma {:induction false} StragglingStep(key: string, n: nat)
    requires n < 7
    ensures SplitStep(StragglingState(key, n), MINUTE, StragglingEvent(key, n)).0 == StragglingState(key, n + 1)
    ensures StragglingEvent(key, n).Pay? ==>
      && SplitStep(StragglingState(key, n), MINUTE, StragglingEvent(key, n)).1 == Some(Admitted)
      && Uses(StragglingState(key, n), key, StragglingEvent(key, n))
  {
    if n < 2 { StragglingSetup(key, n); } else if n == 2 { StragglingReopens(key, n); }
    else if n < 5 { StragglingCharges(key, n); } else { StragglingEnd(key, n); }
  }

  lemma {:induction false} RecordCounted(log: seq<Admission>, s: Split, key: string, span: int, e: SplitEvent,
                                         from: int, to: int)
    requires WellFormed(s) && from <= to && (e.Pay? ==> Uses(s, key, e) && from <= e.at <= to)
    requires e.Pay? ==> SplitStep(s, span, e).1 == Some(Admitted)
    ensures |InInterval(RecordKey(log, s, key, span, e, Whole), from, to)|
         == |InInterval(log, from, to)| + if e.Pay? then 1 else 0
  {
    if e.Pay? {
      var w := SplitStep(s, span, e).0.heap[s.held[e.request]];
      InIntervalSnoc(log, Admission(e.at, w.start, w.count, e.limit), from, to);
    }
  }

  lemma {:induction false} StragglingRun(key: string, n: nat)
    requires n <= 7
    ensures SplitAfter(Straggling(key, n), MINUTE) == StragglingState(key, n)
    ensures var t := LATE + MINUTE;
      |InInterval(KeyLog(Straggling(key, n), key, MINUTE, Whole), t, t + MINUTE)| == StragglingAdmitted(n)
  {
    var t := LATE + MINUTE;
    if n == 0 {
      assert InInterval([], t, t + MINUTE) == {};
    } else {
      var es, e := Straggling(key, n - 1), StragglingEvent(key, n - 1);
      StragglingRun(key, n - 1);
      StragglingSnoc(key, n - 1);
      SplitSnoc(es, e, key, MINUTE, Whole);
      StragglingStep(key, n - 1);
      RecordCounted(KeyLog(es, key, MINUTE, Whole), StragglingState(key, n - 1), key, MINUTE, e, t, t + MINUTE);
    }
  }

  lemma {:induction false} StragglingSnoc(key: string, n: nat)
    requires n < 7
    ensures Straggling(key, n + 1) == Straggling(key, n) + [StragglingEvent(key, n)]
    ensures StragglingEvent(key, n).at <= StragglingEvent(key, n + 1).at
    ensures StragglingAdmitted(n + 1) == StragglingAdmitted(n) + if StragglingEvent(key, n).Pay? then 1 else 0
    ensures var e := StragglingEvent(key, n); e.Pay? ==> e.limit == 1 && LATE + MINUTE <= e.at <= LATE + MINUTE + MINUTE
  {
  }

  lemma {:induction false} StragglingTimed(key: string, i: nat, j: nat)
    requires i <= j <= 7
    ensures StragglingEvent(key, i).at <= StragglingEvent(key, j).at
  {
    if i < j {
      StragglingTimed(key, i, j - 1);
      StragglingSnoc(key, j - 1);
    }
  }

  /** With limit 1, a request holding an evicted window makes three admissions fit
      one window length: the bound of the atomic limiter is two. */
  lemma {:induction false} KeyBoundFailsWhenDisplaced(key: string)
    ensures SplitTimed(Straggling(key, 7))
    ensures forall i :: 0 <= i < 7 && Straggling(key, 7)[i].Pay? ==> Straggling(key, 7)[i].limit == 1
    ensures var t := LATE + MINUTE;
      |InInterval(KeyLog(Straggling(key, 7), key, MINUTE, Whole), t, t + MINUTE)| == 3
  {
    StragglingRun(key, 7);
    var es := Straggling(key, 7);
    forall i, j | 0 <= i < j < 7 ensures es[i].at <= es[j].at { StragglingTimed(key, i, j); }
    forall i | 0 <= i < 7 && es[i].Pay? ensures es[i].limit == 1 { StragglingSnoc(key, i); }
  }
}
