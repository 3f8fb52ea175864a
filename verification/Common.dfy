/** Shared datatypes, and facts about finite sets of sequence positions. */
module Common {

  datatype Option<+T> = None | Some(value: T)

  const SECOND: int := 1_000_000_000
  const MINUTE: int := 60 * SECOND
  const HOUR: int := 60 * MINUTE
  const DAY: int := 24 * HOUR

  /** The parts with a blank between each two. */
  function Join(parts: seq<string>): string {
    if parts == [] then ""
    else if |parts| == 1 then parts[0]
    else Join(parts[..|parts| - 1]) + " " + parts[|parts| - 1]
  }

  lemma {:induction false} SplitLast<T>(s: seq<T>) returns (init: seq<T>, last: T)
    requires s != []
    ensures s == init + [last] && |init| == |s| - 1
    ensures forall k :: 0 <= k < |init| ==> init[k] == s[k]
    ensures last == s[|s| - 1]
  {
    init, last := s[..|s| - 1], s[|s| - 1];
  }

  /** The positions lo, lo + 1, ..., hi - 1. */
  function Range(lo: int, hi: int): (r: set<int>)
    ensures |r| == if lo <= hi then hi - lo else 0
    ensures forall i :: i in r <==> lo <= i < hi
    decreases hi - lo
  {
    if lo >= hi then {} else Range(lo, hi - 1) + {hi - 1}
  }

  lemma {:induction false} SubsetSize<T>(s: set<T>, t: set<T>)
    requires s <= t
    ensures |s| <= |t|
    ensures |s| == |t| ==> s == t
  {
    assert t == s + (t - s);
  }

  /** A set of positions confined to [lo, hi) has at most hi - lo members. */
  lemma {:induction false} ConfinedSize(s: set<int>, lo: int, hi: int)
    requires lo <= hi
    requires forall i :: i in s ==> lo <= i < hi
    ensures |s| <= hi - lo
  {
    SubsetSize(s, Range(lo, hi));
  }

  /** Every non-empty set of integers has a least and a greatest member. */
  lemma {:induction false} Extremes(s: set<int>) returns (least: int, greatest: int)
    requires s != {}
    ensures least in s && greatest in s
    ensures forall i :: i in s ==> least <= i <= greatest
    decreases |s|
  {
    assert (forall x :: x !in s) ==> s == {};
    var x :| x in s;
    if s == {x} {
      return x, x;
    }
    var rest := s - {x};
    assert rest == {} ==> s == {x};
    least, greatest := Extremes(rest);
    assert forall i :: i in s ==> i == x || i in rest;
    if x < least { least := x; }
    if x > greatest { greatest := x; }
  }
}
