/**
 * Round-robin over hosts: what interleaveTargetsByHost computes, that it keeps
 * every target and every host's order, and how evenly it spreads the hosts.
 */
module HostInterleaving {

  /** The elements of one host, in order. */
  function Of<T>(s: seq<T>, h: string, host: T -> string): seq<T> {
    if s == [] then []
    else
      var last := s[|s| - 1];
      Of(s[..|s| - 1], h, host) + if host(last) == h then [last] else []
  }

  /** The hosts, in order of first appearance. */
  function Hosts<T>(s: seq<T>, host: T -> string): (keys: seq<string>)
    ensures forall i, j :: 0 <= i < j < |keys| ==> keys[i] != keys[j]
    ensures forall h :: h in keys <==> exists i :: 0 <= i < |s| && host(s[i]) == h
  {
    if s == [] then []
    else
      var n := |s| - 1;
      var keys := Hosts(s[..n], host);
      assert s == s[..n] + [s[n]];
      if host(s[n]) in keys then keys else keys + [host(s[n])]
  }

  function Buckets<T>(s: seq<T>, keys: seq<string>, host: T -> string): seq<seq<T>> {
    seq(|keys|, q requires 0 <= q < |keys| => Of(s, keys[q], host))
  }

  /** What round i still emits from bucket j on, followed by all later rounds. */
  function Rest<T>(bs: seq<seq<T>>, rounds: nat, i: nat, j: nat): seq<T>
    requires j <= |bs|
    decreases rounds - i, |bs| - j
  {
    if i >= rounds then []
    else if j == |bs| then Rest(bs, rounds, i + 1, 0)
    else if i < |bs[j]| then [bs[j][i]] + Rest(bs, rounds, i, j + 1)
    else Rest(bs, rounds, i, j + 1)
  }

  function MaxLength<T>(bs: seq<seq<T>>): (m: nat)
    ensures forall q :: 0 <= q < |bs| ==> |bs[q]| <= m
    ensures bs != [] ==> exists q :: 0 <= q < |bs| && |bs[q]| == m
    ensures bs == [] ==> m == 0
  {
    if bs == [] then 0
    else
      var n := |bs| - 1;
      var m := MaxLength(bs[..n]);
      assert n > 0 ==> exists q :: 0 <= q < n && |bs[..n][q]| == m && bs[q] == bs[..n][q];
      if |bs[n]| > m then |bs[n]| else m
  }

  function Interleaved<T>(s: seq<T>, host: T -> string): seq<T> {
    var bs := Buckets(s, Hosts(s, host), host);
    Rest(bs, MaxLength(bs), 0, 0)
  }

  // ---------------------------------------------------------------- facts about selections

  lemma {:induction false} OfConcat<T>(a: seq<T>, b: seq<T>, h: string, host: T -> string)
    ensures Of(a + b, h, host) == Of(a, h, host) + Of(b, h, host)
  {
    if b == [] {
      assert a + b == a;
    } else {
      var n := |b| - 1;
      OfConcat(a, b[..n], h, host);
      assert (a + b)[..|a + b| - 1] == a + b[..n];
    }
  }

  lemma {:induction false} OfSingle<T>(x: T, h: string, host: T -> string)
    ensures Of([x], h, host) == if host(x) == h then [x] else []
  {
    assert [x][..0] == [];
  }

  lemma {:induction false} OfMembers<T>(s: seq<T>, h: string, host: T -> string)
    ensures |Of(s, h, host)| <= |s|
    ensures forall x :: x in Of(s, h, host) ==> host(x) == h
    ensures forall x :: x in s && host(x) == h ==> x in Of(s, h, host)
  {
    if s != [] {
      OfMembers(s[..|s| - 1], h, host);
      assert s == s[..|s| - 1] + [s[|s| - 1]];
    }
  }

  lemma {:induction false} OfCounts<T>(s: seq<T>, x: T, host: T -> string)
    ensures multiset(s)[x] == multiset(Of(s, host(x), host))[x]
  {
    if s != [] {
      var n := |s| - 1;
      OfCounts(s[..n], x, host);
      assert s == s[..n] + [s[n]];
    }
  }

  /** Sequences that agree host by host are permutations of each other. */
  lemma {:induction false} SameHostsSameElements<T>(a: seq<T>, b: seq<T>, host: T -> string)
    requires forall h :: Of(a, h, host) == Of(b, h, host)
    ensures multiset(a) == multiset(b)
  {
    forall x | x in multiset(a) || x in multiset(b)
      ensures multiset(a)[x] == multiset(b)[x]
    {
      OfCounts(a, x, host);
      OfCounts(b, x, host);
      assert Of(a, host(x), host) == Of(b, host(x), host);
    }
  }

  // ---------------------------------------------------------------- positions

  /** Buckets belong to their keys, keys differ, and no bucket is longer than the rounds. */
  ghost predicate Sorted<T(!new)>(bs: seq<seq<T>>, keys: seq<string>, rounds: nat, host: T -> string) {
    && |keys| == |bs|
    && (forall i, j :: 0 <= i < j < |keys| ==> keys[i] != keys[j])
    && (forall q :: 0 <= q < |bs| ==> |bs[q]| <= rounds)
    && (forall q, k :: 0 <= q < |bs| && 0 <= k < |bs[q]| ==> host(bs[q][k]) == keys[q])
  }

  /** How much of bucket q has been emitted when round i has reached bucket j. */
  function Taken<T>(bs: seq<seq<T>>, i: nat, j: nat, q: nat): (n: nat)
    requires q < |bs|
    ensures n <= |bs[q]|
  {
    var n := if q < j then i + 1 else i;
    if n <= |bs[q]| then n else |bs[q]|
  }

  lemma {:induction false} RestOfHost<T(!new)>(bs: seq<seq<T>>, keys: seq<string>, rounds: nat, host: T -> string,
                                              i: nat, j: nat, q: nat)
    requires Sorted(bs, keys, rounds, host) && i <= rounds && j <= |bs| && q < |bs|
    ensures Of(Rest(bs, rounds, i, j), keys[q], host) == bs[q][Taken(bs, i, j, q)..]
    decreases rounds - i, |bs| - j
  {
    if i == rounds {
      assert Taken(bs, i, j, q) == |bs[q]|;
    } else if j == |bs| {
      RestOfHost(bs, keys, rounds, host, i + 1, 0, q);
      TakenWraps(bs, i, q);
    } else {
      RestOfHost(bs, keys, rounds, host, i, j + 1, q);
      RestOfHostAt(bs, keys, rounds, host, i, j, q);
    }
  }

  lemma {:induction false} TakenWraps<T>(bs: seq<seq<T>>, i: nat, q: nat)
    requires q < |bs|
    ensures Taken(bs, i, |bs|, q) == Taken(bs, i + 1, 0, q)
  {
  }

  lemma {:induction false} RestOfHostAt<T(!new)>(bs: seq<seq<T>>, keys: seq<string>, rounds: nat, host: T -> string,
                              i: nat, j: nat, q: nat)
    requires Sorted(bs, keys, rounds, host) && i < rounds && j < |bs| && q < |bs|
    requires Of(Rest(bs, rounds, i, j + 1), keys[q], host) == bs[q][Taken(bs, i, j + 1, q)..]
    ensures Of(Rest(bs, rounds, i, j), keys[q], host) == bs[q][Taken(bs, i, j, q)..]
  {
    var rest := Rest(bs, rounds, i, j + 1);
    if i < |bs[j]| {
      TakenStep(bs, i, j, q);
      assert host(bs[j][i]) == keys[q] <==> j == q;
      EmitOfHost(bs[j][i], rest, keys[q], host);
    } else {
      assert Taken(bs, i, j, q) == Taken(bs, i, j + 1, q);
    }
  }

  lemma {:induction false} EmitOfHost<T>(x: T, rest: seq<T>, h: string, host: T -> string)
    ensures Of([x] + rest, h, host) == if host(x) == h then [x] + Of(rest, h, host) else Of(rest, h, host)
  {
    OfConcat([x], rest, h, host);
    OfSingle(x, h, host);
    assert [] + Of(rest, h, host) == Of(rest, h, host);
  }

  lemma {:induction false} TakenStep<T>(bs: seq<seq<T>>, i: nat, j: nat, q: nat)
    requires j < |bs| && q < |bs| && i < |bs[j]|
    ensures bs[q][Taken(bs, i, j, q)..] ==
      (if q == j then [bs[j][i]] else []) + bs[q][Taken(bs, i, j + 1, q)..]
  {
  }

  lemma {:induction false} RestHosts<T(!new)>(bs: seq<seq<T>>, keys: seq<string>, rounds: nat, host: T -> string,
                                             i: nat, j: nat)
    requires Sorted(bs, keys, rounds, host) && i <= rounds && j <= |bs|
    ensures forall x :: x in Rest(bs, rounds, i, j) ==> host(x) in keys
    decreases rounds - i, |bs| - j
  {
    if i < rounds {
      if j == |bs| {
        RestHosts(bs, keys, rounds, host, i + 1, 0);
      } else {
        RestHosts(bs, keys, rounds, host, i, j + 1);
        if i < |bs[j]| { assert host(bs[j][i]) == keys[j]; }
      }
    }
  }

  /** Every suffix of the output is what remains at some round and bucket that emits next. */
  lemma {:induction false} Position<T>(bs: seq<seq<T>>, rounds: nat, i: nat, j: nat, n: nat) returns (i': nat, j': nat)
    requires i <= rounds && j <= |bs| && n < |Rest(bs, rounds, i, j)|
    ensures i' < rounds && j' < |bs| && i' < |bs[j']|
    ensures Rest(bs, rounds, i, j)[n..] == Rest(bs, rounds, i', j')
    ensures Rest(bs, rounds, i, j)[n] == bs[j'][i']
    decreases rounds - i, |bs| - j
  {
    if j == |bs| {
      i', j' := Position(bs, rounds, i + 1, 0, n);
    } else if i < |bs[j]| && n == 0 {
      return i, j;
    } else if i < |bs[j]| {
      i', j' := Position(bs, rounds, i, j + 1, n - 1);
    } else {
      i', j' := Position(bs, rounds, i, j + 1, n);
    }
  }

  lemma {:induction false} BucketsSorted<T(!new)>(s: seq<T>, host: T -> string)
    ensures var bs := Buckets(s, Hosts(s, host), host);
      Sorted(bs, Hosts(s, host), MaxLength(bs), host)
  {
    var keys := Hosts(s, host);
    forall q, k | 0 <= q < |keys| && 0 <= k < |Of(s, keys[q], host)|
      ensures host(Of(s, keys[q], host)[k]) == keys[q]
    {
      OfMembers(s, keys[q], host);
    }
  }

  // ---------------------------------------------------------------- what the caller gets

  lemma {:induction false} OfInInput<T>(s: seq<T>, h: string, host: T -> string, x: T)
    requires x in Of(s, h, host)
    ensures x in s && host(x) == h
  {
    var n := |s| - 1;
    assert s == s[..n] + [s[n]];
    if x in Of(s[..n], h, host) { OfInInput(s[..n], h, host, x); }
  }

  lemma {:induction false} NoSuchHost<T>(s: seq<T>, h: string, host: T -> string)
    requires forall x :: x in s ==> host(x) != h
    ensures Of(s, h, host) == []
  {
    var mine := Of(s, h, host);
    if mine != [] { OfInInput(s, h, host, mine[0]); }
  }

  lemma {:induction false} InterleavedKeepsHost<T(!new)>(s: seq<T>, host: T -> string, h: string)
    ensures Of(Interleaved(s, host), h, host) == Of(s, h, host)
  {
    var keys := Hosts(s, host);
    var bs := Buckets(s, keys, host);
    BucketsSorted(s, host);
    if h in keys {
      var q :| 0 <= q < |keys| && keys[q] == h;
      RestOfHost(bs, keys, MaxLength(bs), host, 0, 0, q);
    } else {
      RestHosts(bs, keys, MaxLength(bs), host, 0, 0);
      NoSuchHost(Interleaved(s, host), h, host);
      NoSuchHost(s, h, host);
    }
  }

  /** For every host the output holds exactly that host's targets, in input
      order; hence the output is a permutation of the input. */
  lemma {:induction false} InterleavedKeepsHosts<T(!new)>(s: seq<T>, host: T -> string)
    ensures forall h :: Of(Interleaved(s, host), h, host) == Of(s, h, host)
    ensures multiset(Interleaved(s, host)) == multiset(s)
  {
    forall h ensures Of(Interleaved(s, host), h, host) == Of(s, h, host) {
      InterleavedKeepsHost(s, host, h);
    }
    SameHostsSameElements(Interleaved(s, host), s, host);
  }

  /** What has been emitted of bucket q after n outputs, by the position of the next one. */
  lemma {:induction false} PrefixCounts<T(!new)>(s: seq<T>, host: T -> string, n: nat) returns (i: nat, j: nat)
    requires n < |Interleaved(s, host)|
    ensures var keys := Hosts(s, host);
      var bs := Buckets(s, keys, host);
      var out := Interleaved(s, host);
      && j < |keys| && i < |bs[j]| && out[n] == bs[j][i] && host(out[n]) == keys[j]
      && forall q :: 0 <= q < |keys| ==>
           |Of(out[..n], keys[q], host)| == Taken(bs, i, j, q)
           && Of(out[n..], keys[q], host) == bs[q][Taken(bs, i, j, q)..]
  {
    var keys := Hosts(s, host);
    var bs := Buckets(s, keys, host);
    var out := Interleaved(s, host);
    BucketsSorted(s, host);
    i, j := Position(bs, MaxLength(bs), 0, 0, n);
    assert out == out[..n] + out[n..];
    forall q | 0 <= q < |keys|
      ensures |Of(out[..n], keys[q], host)| == Taken(bs, i, j, q)
      ensures Of(out[n..], keys[q], host) == bs[q][Taken(bs, i, j, q)..]
    {
      RestOfHost(bs, keys, MaxLength(bs), host, 0, 0, q);
      RestOfHost(bs, keys, MaxLength(bs), host, i, j, q);
      OfConcat(out[..n], out[n..], keys[q], host);
    }
  }

  /** A host with something emitted or remaining has a key. */
  lemma {:induction false} HostKey<T(!new)>(s: seq<T>, host: T -> string, h: string) returns (q: nat)
    requires Of(s, h, host) != []
    ensures q < |Hosts(s, host)| && Hosts(s, host)[q] == h
  {
    var x := Of(s, h, host)[0];
    OfInInput(s, h, host, x);
    var i :| 0 <= i < |s| && s[i] == x;
    assert h in Hosts(s, host);
    q :| 0 <= q < |Hosts(s, host)| && Hosts(s, host)[q] == h;
  }

  lemma {:induction false} SplitOfHost<T(!new)>(s: seq<T>, host: T -> string, n: nat, h: string)
    requires n <= |Interleaved(s, host)|
    ensures Of(s, h, host) == Of(Interleaved(s, host)[..n], h, host) + Of(Interleaved(s, host)[n..], h, host)
  {
    var out := Interleaved(s, host);
    InterleavedKeepsHost(s, host, h);
    assert out == out[..n] + out[n..];
    OfConcat(out[..n], out[n..], h, host);
  }

  /** Balance: whenever a host trails another by two or more, it is exhausted. */
  lemma {:induction false} PrefixIsBalanced<T(!new)>(s: seq<T>, host: T -> string, n: nat, h: string, g: string)
    requires n <= |Interleaved(s, host)|
    requires |Of(Interleaved(s, host)[..n], h, host)| + 2 <= |Of(Interleaved(s, host)[..n], g, host)|
    ensures Of(Interleaved(s, host)[..n], h, host) == Of(s, h, host)
  {
    SplitOfHost(s, host, n, h);
    if n < |Interleaved(s, host)| && Of(s, h, host) != [] {
      SplitOfHost(s, host, n, g);
      var i, j := PrefixCounts(s, host, n);
      var q := HostKey(s, host, h);
      var p := HostKey(s, host, g);
      TrailingIsExhausted(Buckets(s, Hosts(s, host), host), i, j, q, p);
    }
  }

  /** At any position, a bucket two behind another has been emitted completely. */
  lemma {:induction false} TrailingIsExhausted<T>(bs: seq<seq<T>>, i: nat, j: nat, q: nat, p: nat)
    requires q < |bs| && p < |bs| && Taken(bs, i, j, q) + 2 <= Taken(bs, i, j, p)
    ensures Taken(bs, i, j, q) == |bs[q]|
  {
  }

  /** One more output advances its own host by one and no other. */
  lemma {:induction false} PrefixStep<T(!new)>(s: seq<T>, host: T -> string, n: nat, h: string)
    requires n < |Interleaved(s, host)|
    ensures var out := Interleaved(s, host);
      |Of(out[..n + 1], h, host)| == |Of(out[..n], h, host)| + if host(out[n]) == h then 1 else 0
  {
    var out := Interleaved(s, host);
    assert out[..n + 1] == out[..n] + [out[n]];
    OfConcat(out[..n], [out[n]], h, host);
    OfSingle(out[n], h, host);
  }

  /** Once two adjacent outputs share a host, the other hosts are exhausted. */
  lemma {:induction false} AdjacentExhausts<T(!new)>(s: seq<T>, host: T -> string, n: nat, g: string)
    requires n + 1 < |Interleaved(s, host)|
    requires host(Interleaved(s, host)[n]) == host(Interleaved(s, host)[n + 1]) != g
    ensures Of(Interleaved(s, host)[n + 1..], g, host) == []
  {
    SplitOfHost(s, host, n + 1, g);
    if Of(s, g, host) != [] {
      var i, j := PrefixCounts(s, host, n);
      var i', j' := PrefixCounts(s, host, n + 1);
      var q := HostKey(s, host, g);
      PrefixStep(s, host, n, Hosts(s, host)[j]);
      PrefixStep(s, host, n, g);
    }
  }

  /** Two adjacent outputs share a host only when no other host is left. */
  lemma {:induction false} AdjacentOnlyAtTheEnd<T(!new)>(s: seq<T>, host: T -> string, n: nat, m: nat)
    requires n + 1 < |Interleaved(s, host)| && n <= m < |Interleaved(s, host)|
    requires host(Interleaved(s, host)[n]) == host(Interleaved(s, host)[n + 1])
    ensures host(Interleaved(s, host)[m]) == host(Interleaved(s, host)[n])
  {
    var out := Interleaved(s, host);
    var g := host(out[m]);
    if m > n + 1 && g != host(out[n]) {
      assert out[n + 1..][m - n - 1] == out[m];
      OfMembers(out[n + 1..], g, host);
      AdjacentExhausts(s, host, n, g);
    }
  }

  // ---------------------------------------------------------------- the order of the hosts

  /** The position of the first element of a host, or the length. */
  function First<T>(s: seq<T>, h: string, host: T -> string): (n: nat)
    ensures n <= |s| && (n < |s| ==> host(s[n]) == h)
    ensures forall i :: 0 <= i < n ==> host(s[i]) != h
  {
    if s == [] then 0 else if host(s[0]) == h then 0 else 1 + First(s[1..], h, host)
  }

  lemma {:induction false} FirstIs<T>(s: seq<T>, h: string, host: T -> string, n: nat)
    requires n <= |s| && (n < |s| ==> host(s[n]) == h) && forall i :: 0 <= i < n ==> host(s[i]) != h
    ensures First(s, h, host) == n
  {
  }

  /** The hosts take their turns in the order in which they first appear. */
  lemma {:induction false} HostsByFirstAppearance<T>(s: seq<T>, host: T -> string, i: nat, j: nat)
    requires i < j < |Hosts(s, host)|
    ensures First(s, Hosts(s, host)[i], host) < First(s, Hosts(s, host)[j], host) < |s|
  {
    var n := |s| - 1;
    var keys, g, h := Hosts(s[..n], host), Hosts(s, host)[i], Hosts(s, host)[j];
    assert g in Hosts(s, host) && h in Hosts(s, host);
    FirstOfPrefix(s, g, host, n);
    FirstOfPrefix(s, h, host, n);
    if j < |keys| {
      HostsByFirstAppearance(s[..n], host, i, j);
    } else {
      assert g in keys && h !in keys;
    }
  }

  lemma {:induction false} FirstOfPrefix<T>(s: seq<T>, h: string, host: T -> string, n: nat)
    requires n <= |s|
    ensures First(s[..n], h, host) < n ==> First(s, h, host) == First(s[..n], h, host)
    ensures First(s[..n], h, host) == n ==> First(s, h, host) >= n
  {
    var f := First(s[..n], h, host);
    assert forall i :: 0 <= i < n ==> s[..n][i] == s[i];
    if f < n { FirstIs(s, h, host, f); }
  }

  /** The shortcut for at most one target agrees with the general case. */
  lemma {:induction false} InterleavedShort<T(!new)>(s: seq<T>, host: T -> string)
    requires |s| <= 1
    ensures Interleaved(s, host) == s
  {
    InterleavedKeepsHosts(s, host);
    SameShort(Interleaved(s, host), s);
  }

  lemma {:induction false} SameShort<T>(a: seq<T>, b: seq<T>)
    requires multiset(a) == multiset(b) && |b| <= 1
    ensures a == b
  {
    assert |multiset(a)| == |a| && |multiset(b)| == |b|;
    if |a| == 1 {
      assert a == [a[0]] && b == [b[0]] && a[0] in multiset(b);
    }
  }

  lemma {:induction false} InterleavedLength<T(!new)>(s: seq<T>, host: T -> string)
    ensures |Interleaved(s, host)| == |s|
  {
    InterleavedKeepsHosts(s, host);
    assert |multiset(Interleaved(s, host))| == |Interleaved(s, host)| && |multiset(s)| == |s|;
  }

  // ---------------------------------------------------------------- the loops

  method GroupByHost<T(!new)>(targets: seq<T>, host: T -> string)
    returns (hostBuckets: map<string, seq<T>>, hostKeys: seq<string>)
    ensures hostKeys == Hosts(targets, host)
    ensures forall h :: h in hostKeys ==> h in hostBuckets && hostBuckets[h] == Of(targets, h, host)
  {
    hostBuckets, hostKeys := map[], [];
    for n := 0 to |targets|
      invariant hostKeys == Hosts(targets[..n], host)
      invariant forall h :: h in hostBuckets <==> h in hostKeys
      invariant forall h :: h in hostBuckets ==> hostBuckets[h] == Of(targets[..n], h, host)
      invariant forall h :: h !in hostBuckets ==> Of(targets[..n], h, host) == []
    {
      assert targets[..n + 1][..n] == targets[..n];
      var h := host(targets[n]);
      if h !in hostBuckets {
        hostKeys := hostKeys + [h];
        hostBuckets := hostBuckets[h := [targets[n]]];
      } else {
        hostBuckets := hostBuckets[h := hostBuckets[h] + [targets[n]]];
      }
    }
    assert targets[..|targets|] == targets;
  }

  method LongestBucket<T>(bs: seq<seq<T>>) returns (maxLen: nat)
    ensures maxLen == MaxLength(bs)
  {
    maxLen := 0;
    ghost var longest: nat := 0;
    for q := 0 to |bs|
      invariant forall p :: 0 <= p < q ==> |bs[p]| <= maxLen
      invariant q == 0 ==> maxLen == 0 && longest == 0
      invariant q > 0 ==> longest < q && |bs[longest]| == maxLen
    {
      if |bs[q]| > maxLen {
        maxLen := |bs[q]|;
        longest := q;
      }
    }
  }

  method InterleaveTargetsByHost<T(!new)>(targets: seq<T>, host: T -> string) returns (result: seq<T>)
    ensures result == Interleaved(targets, host)
  {
    if |targets| <= 1 {
      InterleavedShort(targets, host);
      return targets;
    }
    var hostBuckets, hostKeys := GroupByHost(targets, host);
    var bs := seq(|hostKeys|, q requires 0 <= q < |hostKeys| => hostBuckets[hostKeys[q]]);
    assert bs == Buckets(targets, hostKeys, host);
    var maxLen := LongestBucket(bs);
    result := RoundRobin(bs, maxLen);
  }

  lemma {:induction false} EmitNext<T>(done: seq<T>, bs: seq<seq<T>>, rounds: nat, i: nat, j: nat)
    requires i < rounds && j < |bs|
    ensures done + Rest(bs, rounds, i, j) ==
      (if i < |bs[j]| then done + [bs[j][i]] else done) + Rest(bs, rounds, i, j + 1)
  {
    var rest := Rest(bs, rounds, i, j + 1);
    if i < |bs[j]| {
      assert done + ([bs[j][i]] + rest) == done + [bs[j][i]] + rest;
    }
  }

  /** Round after round, the i-th of every bucket that is long enough. */
  method RoundRobin<T>(bs: seq<seq<T>>, maxLen: nat) returns (result: seq<T>)
    ensures result == Rest(bs, maxLen, 0, 0)
  {
    result := [];
    ghost var all := Rest(bs, maxLen, 0, 0);
    for i := 0 to maxLen
      invariant result + Rest(bs, maxLen, i, 0) == all
    {
      for j := 0 to |bs|
        invariant result + Rest(bs, maxLen, i, j) == all
      {
        EmitNext(result, bs, maxLen, i, j);
        if i < |bs[j]| {
          result := result + [bs[j][i]];
        }
      }
    }
  }
}
