/**
 * The long-poll loop: the offset protocol between the receiver and the server,
 * over a whole run with failed polls and throwing handlers.
 */
module TelegramPolling {

  /** The ids of the updates the server has had for this bot so far. */
  ghost predicate Stream(ids: seq<int>) {
    (forall i :: 0 <= i < |ids| ==> 0 < ids[i]) && Ascending(ids)
  }

  ghost predicate Ascending(ids: seq<int>) {
    forall i, j :: 0 <= i < j < |ids| ==> ids[i] < ids[j]
  }

  /** How many updates the server still has before the first one at or after the offset. */
  function Before(ids: seq<int>, offset: int): (n: nat)
    ensures n <= |ids| && (n < |ids| ==> ids[n] >= offset)
    ensures forall i :: 0 <= i < n ==> ids[i] < offset
  {
    if ids == [] || ids[0] >= offset then 0 else 1 + Before(ids[1..], offset)
  }

  function From(ids: seq<int>, offset: int): seq<int> {
    ids[Before(ids, offset)..]
  }

  function Take(s: seq<int>, n: nat): seq<int> {
    if n < |s| then s[..n] else s
  }

  /** One round as the world decides it: what the server has, how many updates
      it answers (none on a network or parse error), and which handler throws. */
  datatype Round = Round(stream: seq<int>, size: nat, failsAt: int)

  /** `attempted` are the updates handed to a handler, in order; `threw` those whose handler threw. */
  datatype Receiver = Receiver(lastUpdateId: int, attempted: seq<int>, threw: set<int>)

  const START: Receiver := Receiver(0, [], {})

  function Answer(r: Receiver, round: Round): seq<int> {
    Take(From(round.stream, r.lastUpdateId + 1), round.size)
  }

  predicate Throws(r: Receiver, round: Round) {
    0 <= round.failsAt < |Answer(r, round)|
  }

  /** The part of the answer that the round gets through, up to a throwing handler. */
  function Tried(r: Receiver, round: Round): seq<int> {
    if Throws(r, round) then Answer(r, round)[..round.failsAt + 1] else Answer(r, round)
  }

  /** The offset after looking at some updates in turn. */
  function Offset(last: int, ids: seq<int>): int {
    if ids == [] then last
    else
      var before := Offset(last, ids[..|ids| - 1]);
      if ids[|ids| - 1] >= before then ids[|ids| - 1] else before
  }

  function Poll(r: Receiver, round: Round): Receiver {
    var tried := Tried(r, round);
    Receiver(Offset(r.lastUpdateId, tried), r.attempted + tried,
             r.threw + if Throws(r, round) then {Answer(r, round)[round.failsAt]} else {})
  }

  function Run(rounds: seq<Round>): Receiver {
    if rounds == [] then START else Poll(Run(rounds[..|rounds| - 1]), rounds[|rounds| - 1])
  }

  lemma {:induction false} RunSnoc(rounds: seq<Round>, k: nat)
    requires k < |rounds|
    ensures Run(rounds[..k + 1]) == Poll(Run(rounds[..k]), rounds[k])
  {
    assert rounds[..k + 1][..k] == rounds[..k];
  }

  /** Between polls the server's stream only grows at its end. */
  ghost predicate Served(rounds: seq<Round>) {
    && (forall k :: 0 <= k < |rounds| ==> Stream(rounds[k].stream))
    && (forall k :: 0 < k < |rounds| ==> rounds[k - 1].stream <= rounds[k].stream)
  }

  /** The attempted updates are a prefix of the stream, and the offset is their last. */
  ghost predicate InStep(r: Receiver, ids: seq<int>) {
    && r.attempted <= ids
    && r.lastUpdateId == (if r.attempted == [] then 0 else r.attempted[|r.attempted| - 1])
    && forall x :: x in r.threw ==> x in r.attempted
  }

  /** The server's answer continues exactly where the receiver stopped. */
  lemma {:induction false} AnswerContinues(r: Receiver, ids: seq<int>)
    requires InStep(r, ids) && Stream(ids)
    ensures Before(ids, r.lastUpdateId + 1) == |r.attempted|
    ensures From(ids, r.lastUpdateId + 1) == ids[|r.attempted|..]
    ensures r.attempted == ids[..|r.attempted|]
    ensures forall i :: |r.attempted| <= i < |ids| ==> r.lastUpdateId < ids[i]
  {
    var n := |r.attempted|;
    assert n > 0 ==> r.attempted[n - 1] == ids[n - 1];
    BeforeIs(ids, r.lastUpdateId + 1, n);
  }

  lemma {:induction false} BeforeIs(ids: seq<int>, offset: int, n: nat)
    requires n <= |ids| && (forall i :: 0 <= i < n ==> ids[i] < offset)
    requires n < |ids| ==> ids[n] >= offset
    ensures Before(ids, offset) == n
  {
  }

  /** A round gets through a prefix of what the server has from the offset on. */
  lemma {:induction false} TriedIsPrefix(r: Receiver, round: Round)
    ensures Tried(r, round) <= From(round.stream, r.lastUpdateId + 1)
  {
  }

  /** `t` are the updates of the stream after `done`, in order and above `last`. */
  ghost predicate Continuation(ids: seq<int>, done: seq<int>, t: seq<int>, last: int) {
    && |done| + |t| <= |ids| && t == ids[|done|..|done| + |t|] && done + t == ids[..|done| + |t|]
    && Ascending(t) && forall i :: 0 <= i < |t| ==> last < t[i]
  }

  lemma {:induction false} NextSlice(ids: seq<int>, done: seq<int>, t: seq<int>, last: int)
    requires Ascending(ids) && done <= ids && t <= ids[|done|..]
    requires forall i :: |done| <= i < |ids| ==> last < ids[i]
    ensures Continuation(ids, done, t, last)
  {
    var n := |done|;
    assert t == ids[n..][..|t|];
    assert forall i :: 0 <= i < |t| ==> t[i] == ids[n + i];
  }

  /** What a round gets through are the next updates of the stream. */
  lemma {:induction false} TriedIsNext(r: Receiver, round: Round)
    requires InStep(r, round.stream) && Stream(round.stream)
    ensures Continuation(round.stream, r.attempted, Tried(r, round), r.lastUpdateId)
  {
    AnswerContinues(r, round.stream);
    TriedIsPrefix(r, round);
    NextSlice(round.stream, r.attempted, Tried(r, round), r.lastUpdateId);
  }

  lemma {:induction false} OffsetIsLast(last: int, ids: seq<int>)
    requires Ascending(ids) && forall i :: 0 <= i < |ids| ==> last < ids[i]
    ensures Offset(last, ids) == if ids == [] then last else ids[|ids| - 1]
  {
    if ids != [] { OffsetIsLast(last, ids[..|ids| - 1]); }
  }

  lemma {:induction false} PollStaysInStep(r: Receiver, round: Round)
    requires InStep(r, round.stream) && Stream(round.stream)
    ensures InStep(Poll(r, round), round.stream)
  {
    TriedIsNext(r, round);
    OffsetIsLast(r.lastUpdateId, Tried(r, round));
    if Throws(r, round) { assert Answer(r, round)[round.failsAt] in Tried(r, round); }
  }

  /** Over every run: what has been attempted is a prefix of the stream, so ids
      strictly increase, none is attempted twice and none is skipped. */
  lemma {:induction false} RunStaysInStep(rounds: seq<Round>)
    requires Served(rounds) && rounds != []
    ensures InStep(Run(rounds[..|rounds| - 1]), rounds[|rounds| - 1].stream)
    ensures InStep(Run(rounds), rounds[|rounds| - 1].stream)
    ensures Ascending(Run(rounds).attempted)
  {
    var n := |rounds| - 1;
    if n > 0 {
      RunStaysInStep(rounds[..n]);
      assert rounds[n - 1].stream <= rounds[n].stream;
    }
    PollStaysInStep(Run(rounds[..n]), rounds[n]);
  }

  function Failures(rounds: seq<Round>): nat {
    if rounds == [] then 0
    else
      var n := |rounds| - 1;
      Failures(rounds[..n]) + if Throws(Run(rounds[..n]), rounds[n]) then 1 else 0
  }

  /** What throws in a poll has not been attempted before it. */
  lemma {:induction false} ThrownIsNew(r: Receiver, round: Round)
    requires InStep(r, round.stream) && Stream(round.stream) && Throws(r, round)
    ensures Answer(r, round)[round.failsAt] !in r.attempted
  {
    AnswerContinues(r, round.stream);
    assert Answer(r, round)[round.failsAt] == round.stream[|r.attempted| + round.failsAt];
  }

  lemma {:induction false} ServedPrefix(rounds: seq<Round>)
    requires Served(rounds) && rounds != []
    ensures Served(rounds[..|rounds| - 1]) && Stream(rounds[|rounds| - 1].stream)
  {
  }

  /** Each round that throws adds one update to those that threw. */
  lemma {:induction false} ThrownAreCounted(rounds: seq<Round>)
    requires Served(rounds)
    ensures |Run(rounds).threw| == Failures(rounds)
  {
    if rounds != [] {
      var n := |rounds| - 1;
      var r := Run(rounds[..n]);
      ServedPrefix(rounds);
      ThrownAreCounted(rounds[..n]);
      RunStaysInStep(rounds);
      if Throws(r, rounds[n]) {
        ThrownIsNew(r, rounds[n]);
        assert Answer(r, rounds[n])[rounds[n].failsAt] !in r.threw;
      }
    }
  }

  /** Each round that threw loses one update, the one that threw; every other
      update up to the offset has been handled without throwing. */
  lemma {:induction false} OnlyThrownUpdatesAreLost(rounds: seq<Round>)
    requires Served(rounds)
    ensures |Run(rounds).threw| == Failures(rounds)
    ensures forall x :: rounds != [] && x in rounds[|rounds| - 1].stream && x <= Run(rounds).lastUpdateId
              ==> x in Run(rounds).attempted
  {
    ThrownAreCounted(rounds);
    if rounds != [] {
      ServedPrefix(rounds);
      RunStaysInStep(rounds);
      AttemptedUpToOffset(Run(rounds), rounds[|rounds| - 1].stream);
    }
  }

  lemma {:induction false} AttemptedUpToOffset(r: Receiver, ids: seq<int>)
    requires InStep(r, ids) && Stream(ids)
    ensures forall x :: x in ids && x <= r.lastUpdateId ==> x in r.attempted
  {
    forall x | x in ids && x <= r.lastUpdateId ensures x in r.attempted {
      var i :| 0 <= i < |ids| && ids[i] == x;
      if i < |r.attempted| { assert r.attempted[i] == x; }
    }
  }

  /** A round that answers everything and throws nowhere catches up. */
  lemma {:induction false} QuietRoundCatchesUp(rounds: seq<Round>)
    requires Served(rounds) && rounds != []
    requires var last := rounds[|rounds| - 1]; last.failsAt < 0 && last.size >= |last.stream|
    ensures Run(rounds).attempted == rounds[|rounds| - 1].stream
  {
    RunStaysInStep(rounds);
    QuietPollCatchesUp(Run(rounds[..|rounds| - 1]), rounds[|rounds| - 1]);
  }

  lemma {:induction false} QuietPollCatchesUp(r: Receiver, round: Round)
    requires InStep(r, round.stream) && Stream(round.stream)
    requires round.failsAt < 0 && round.size >= |round.stream|
    ensures Poll(r, round).attempted == round.stream
  {
    TriedIsNext(r, round);
    AnswerContinues(r, round.stream);
    assert |Tried(r, round)| == |round.stream| - |r.attempted|;
  }

  /** The offset after any updates, in whatever order they come, is the greatest id seen. */
  lemma {:induction false} OffsetIsGreatest(last: int, ids: seq<int>)
    ensures Offset(last, ids) >= last && forall x :: x in ids ==> x <= Offset(last, ids)
    ensures Offset(last, ids) == last || Offset(last, ids) in ids
  {
    if ids != [] {
      var n := |ids| - 1;
      OffsetIsGreatest(last, ids[..n]);
      assert ids == ids[..n] + [ids[n]];
    }
  }

  /** A round hands over its answer up to and including the update whose handler
      throws, the first one included; without a throw it hands over all of it. */
  lemma {:induction false} RoundHandsOver(r: Receiver, round: Round)
    ensures var answer, r' := Answer(r, round), Poll(r, round);
      && |answer| <= round.size
      && (0 <= round.failsAt < |answer| ==>
            && r'.attempted == r.attempted + answer[..round.failsAt + 1]
            && r'.threw == r.threw + {answer[round.failsAt]})
      && (!(0 <= round.failsAt < |answer|) ==> r'.attempted == r.attempted + answer && r'.threw == r.threw)
  {
  }

  class TelegramReceiver {
    var lastUpdateId: int
    ghost var attempted: seq<int>
    ghost var threw: set<int>

    constructor ()
      ensures View() == START
    {
      lastUpdateId := 0;
      attempted, threw := [], {};
    }

    ghost function View(): Receiver
      reads this
    {
      Receiver(lastUpdateId, attempted, threw)
    }

    /** The handlers of one batch; a throwing one ends the batch. */
    method HandleBatch(updates: seq<int>, failsAt: int)
      modifies this
      ensures
        var tried := if 0 <= failsAt < |updates| then updates[..failsAt + 1] else updates;
        && lastUpdateId == Offset(old(lastUpdateId), tried)
        && attempted == old(attempted) + tried
        && threw == old(threw) + if 0 <= failsAt < |updates| then {updates[failsAt]} else {}
    {
      for n := 0 to |updates|
        invariant failsAt < 0 || n <= failsAt
        invariant lastUpdateId == Offset(old(lastUpdateId), updates[..n])
        invariant attempted == old(attempted) + updates[..n] && threw == old(threw)
      {
        assert updates[..n + 1] == updates[..n] + [updates[n]];
        assert updates[..n + 1][..n] == updates[..n];
        if updates[n] >= lastUpdateId {
          lastUpdateId := updates[n];
        }
        attempted := attempted + [updates[n]];
        if n == failsAt {
          threw := threw + {updates[n]};
          return;
        }
      }
      assert updates[..|updates|] == updates;
    }

    /** One turn of the loop: fetch from the offset, handle the batch. */
    method PollOnce(round: Round)
      modifies this
      ensures View() == Poll(old(View()), round)
    {
      var updates := Take(From(round.stream, lastUpdateId + 1), round.size);
      HandleBatch(updates, round.failsAt);
    }

    /** The receiver's loop, for as many rounds as the world lets it run. */
    method StartTelegramReceiver(rounds: seq<Round>)
      requires View() == START
      modifies this
      ensures View() == Run(rounds)
    {
      for k := 0 to |rounds|
        invariant View() == Run(rounds[..k])
      {
        PollOnce(rounds[k]);
        RunSnoc(rounds, k);
      }
      assert rounds[..|rounds|] == rounds;
    }
  }
}
