/**
 * The fuzzy key of an organization name: lower case, no parentheses, distinctive
 * words in order. Lower-casing and white space are those of ASCII names.
 */
module OrgNames {
  import opened Common

  function LowerChar(c: char): char {
    if 'A' <= c <= 'Z' then c - 'A' + 'a' else c
  }

  function Lower(s: string): (r: string)
    ensures |r| == |s| && forall i :: 0 <= i < |s| ==> r[i] == LowerChar(s[i])
  {
    seq(|s|, i requires 0 <= i < |s| => LowerChar(s[i]))
  }

  function AmpersandsOut(s: string): (r: string)
    ensures |r| == |s| && forall i :: 0 <= i < |s| ==> r[i] == if s[i] == '&' then ' ' else s[i]
  {
    seq(|s|, i requires 0 <= i < |s| => if s[i] == '&' then ' ' else s[i])
  }

  predicate Alnum(c: char) { 'a' <= c <= 'z' || '0' <= c <= '9' }

  function OthersOut(s: string): (r: string)
    ensures |r| == |s| && forall i :: 0 <= i < |s| ==> r[i] == if Alnum(s[i]) || s[i] == ' ' then s[i] else ' '
  {
    seq(|s|, i requires 0 <= i < |s| => if Alnum(s[i]) || s[i] == ' ' then s[i] else ' ')
  }

  /** The first position of c, or the length. */
  function IndexOf(s: string, c: char): (n: nat)
    ensures n <= |s| && (n < |s| ==> s[n] == c)
    ensures forall i :: 0 <= i < n ==> s[i] != c
  {
    if s == "" then 0
    else if s[0] == c then 0
    else 1 + IndexOf(s[1..], c)
  }

  /** The first "(" is closed by the first ")". */
  predicate HasGroup(s: string) {
    IndexOf(s, '(') < IndexOf(s, ')') < |s|
  }

  function DropGroup(s: string): (r: string)
    requires HasGroup(s)
    ensures |r| < |s|
  {
    s[..IndexOf(s, '(')] + " " + s[IndexOf(s, ')') + 1..]
  }

  function GroupsOut(s: string): (r: string)
    ensures !HasGroup(r)
    decreases |s|
  {
    if HasGroup(s) then GroupsOut(DropGroup(s)) else s
  }

  predicate IsSpace(c: char) { c == ' ' || '\t' <= c <= '\r' }

  function TrimLeft(s: string): string {
    if s != "" && IsSpace(s[0]) then TrimLeft(s[1..]) else s
  }

  function TrimRight(s: string): string {
    if s != "" && IsSpace(s[|s| - 1]) then TrimRight(s[..|s| - 1]) else s
  }

  function Trim(s: string): string { TrimRight(TrimLeft(s)) }

  /** Runs of blanks become one blank. */
  function Squeezed(s: string): string {
    if |s| < 2 then s
    else
      var n := |s| - 1;
      if s[n] == ' ' && s[n - 1] == ' ' then Squeezed(s[..n]) else Squeezed(s[..n]) + [s[n]]
  }

  /** The maximal runs of non-space characters. */
  function Fields(s: string): (fs: seq<string>)
    ensures s != "" && !IsSpace(s[|s| - 1]) ==> fs != []
  {
    if s == "" then []
    else
      var n := |s| - 1;
      var fs := Fields(s[..n]);
      if IsSpace(s[n]) then fs
      else if n == 0 || IsSpace(s[n - 1]) then fs + [[s[n]]]
      else fs[..|fs| - 1] + [fs[|fs| - 1] + [s[n]]]
  }

  const STOP_WORDS: set<string> := {
    "laz", "laznas", "yayasan", "foundation", "indonesia", "the", "dan", "and", "perkumpulan", "lembaga",
    "nasional", "propinsi", "provinsi", "cabang", "pusat", "amil", "zakat", "infaq", "shadaqah", "institute",
    "center", "centre"}

  predicate Distinctive(t: string) { t !in STOP_WORDS && |t| > 2 }

  function Kept(ts: seq<string>): seq<string> {
    if ts == [] then []
    else Kept(ts[..|ts| - 1]) + if Distinctive(ts[|ts| - 1]) then [ts[|ts| - 1]] else []
  }

  predicate Leq(a: string, b: string) {
    a == "" || (b != "" && (a[0] < b[0] || (a[0] == b[0] && Leq(a[1..], b[1..]))))
  }

  function Insert(x: string, ts: seq<string>): seq<string> {
    if ts == [] || Leq(x, ts[0]) then [x] + ts else [ts[0]] + Insert(x, ts[1..])
  }

  function Sort(ts: seq<string>): seq<string> {
    if ts == [] then [] else Insert(ts[0], Sort(ts[1..]))
  }

  function Cleaned(name: string): string {
    Squeezed(Trim(OthersOut(GroupsOut(AmpersandsOut(Lower(name))))))
  }

  function Tokens(name: string): seq<string> {
    Sort(Kept(Fields(Cleaned(name))))
  }

  function NameKey(name: string): string { Join(Tokens(name)) }

  // ---------------------------------------------------------------- sorting

  ghost predicate Ascending(ts: seq<string>) {
    forall i :: 0 < i < |ts| ==> Leq(ts[i - 1], ts[i])
  }

  lemma {:induction false} TailAscending(ts: seq<string>)
    requires Ascending(ts) && ts != []
    ensures Ascending(ts[1..])
  {
    forall i | 0 < i < |ts[1..]| ensures Leq(ts[1..][i - 1], ts[1..][i]) {
      assert Leq(ts[i], ts[i + 1]);
    }
  }

  lemma {:induction false} LeqTotal(a: string, b: string)
    ensures Leq(a, b) || Leq(b, a)
  {
    if a != "" && b != "" { LeqTotal(a[1..], b[1..]); }
  }

  lemma {:induction false} InsertHolds(x: string, ts: seq<string>)
    ensures multiset(Insert(x, ts)) == multiset(ts) + multiset{x}
    ensures Insert(x, ts)[0] == if ts == [] || Leq(x, ts[0]) then x else ts[0]
  {
    if ts != [] && !Leq(x, ts[0]) {
      InsertHolds(x, ts[1..]);
      assert ts == [ts[0]] + ts[1..];
    }
  }

  lemma {:induction false} ConsAscending(x: string, ts: seq<string>)
    requires Ascending(ts) && (ts != [] ==> Leq(x, ts[0]))
    ensures Ascending([x] + ts)
  {
    var all := [x] + ts;
    forall i | 0 < i < |all| ensures Leq(all[i - 1], all[i]) {
      assert i > 1 ==> Leq(ts[i - 2], ts[i - 1]);
    }
  }

  lemma {:induction false} InsertAscending(x: string, ts: seq<string>)
    requires Ascending(ts)
    ensures Ascending(Insert(x, ts))
  {
    if ts == [] || Leq(x, ts[0]) {
      ConsAscending(x, ts);
    } else {
      LeqTotal(x, ts[0]);
      TailAscending(ts);
      InsertAscending(x, ts[1..]);
      InsertHolds(x, ts[1..]);
      assert |ts| > 1 ==> Leq(ts[0], ts[1]);
      ConsAscending(ts[0], Insert(x, ts[1..]));
    }
  }

  lemma {:induction false} SortAscending(ts: seq<string>)
    ensures Ascending(Sort(ts)) && multiset(Sort(ts)) == multiset(ts)
  {
    if ts != [] {
      SortAscending(ts[1..]);
      InsertAscending(ts[0], Sort(ts[1..]));
      InsertHolds(ts[0], Sort(ts[1..]));
      assert ts == [ts[0]] + ts[1..];
    }
  }

  lemma {:induction false} SortIdentity(ts: seq<string>)
    requires Ascending(ts)
    ensures Sort(ts) == ts
  {
    if ts != [] {
      TailAscending(ts);
      SortIdentity(ts[1..]);
      assert |ts| > 1 ==> Leq(ts[0], ts[1]);
      assert ts == [ts[0]] + ts[1..];
    }
  }

  // ---------------------------------------------------------------- words

  /** A distinctive word as the key knows it. */
  ghost predicate Word(t: string) {
    Distinctive(t) && AlnumWord(t)
  }

  ghost predicate Words(ts: seq<string>) {
    forall t :: t in ts ==> Word(t)
  }

  ghost predicate AlnumWord(t: string) {
    t != "" && forall i :: 0 <= i < |t| ==> Alnum(t[i])
  }

  ghost predicate AllAlnum(ts: seq<string>) {
    forall k :: 0 <= k < |ts| ==> AlnumWord(ts[k])
  }

  ghost predicate Plain(s: string) {
    forall i :: 0 <= i < |s| ==> Alnum(s[i]) || s[i] == ' '
  }

  lemma {:induction false} SqueezedPlain(s: string)
    requires Plain(s)
    ensures Plain(Squeezed(s))
  {
    if |s| >= 2 { SqueezedPlain(s[..|s| - 1]); }
  }

  lemma {:induction false} TrimLeftPlain(s: string)
    requires Plain(s)
    ensures Plain(TrimLeft(s))
  {
    if s != "" && IsSpace(s[0]) { TrimLeftPlain(s[1..]); }
  }

  lemma {:induction false} TrimRightPlain(s: string)
    requires Plain(s)
    ensures Plain(TrimRight(s))
  {
    if s != "" && IsSpace(s[|s| - 1]) { TrimRightPlain(s[..|s| - 1]); }
  }

  lemma {:induction false} CleanedIsPlain(name: string)
    ensures Plain(Cleaned(name))
  {
    var s := OthersOut(GroupsOut(AmpersandsOut(Lower(name))));
    assert Plain(s);
    TrimLeftPlain(s);
    TrimRightPlain(TrimLeft(s));
    SqueezedPlain(Trim(s));
  }

  lemma {:induction false} FieldsOfPlain(s: string)
    requires Plain(s)
    ensures forall f, i :: f in Fields(s) && 0 <= i < |f| ==> Alnum(f[i])
  {
    if s != "" {
      var n := |s| - 1;
      FieldsOfPlain(s[..n]);
      var fs := Fields(s[..n]);
      assert !IsSpace(s[n]) && n > 0 && !IsSpace(s[n - 1]) ==>
        s[..n][n - 1] == s[n - 1] && fs != [] && fs[|fs| - 1] in fs;
    }
  }

  lemma {:induction false} KeptAreDistinctive(ts: seq<string>)
    ensures forall t :: t in Kept(ts) ==> t in ts && Distinctive(t)
  {
    if ts != [] { KeptAreDistinctive(ts[..|ts| - 1]); }
  }

  lemma {:induction false} KeptIdentity(ts: seq<string>)
    requires forall t :: t in ts ==> Distinctive(t)
    ensures Kept(ts) == ts
  {
    if ts != [] {
      KeptIdentity(ts[..|ts| - 1]);
      assert ts == ts[..|ts| - 1] + [ts[|ts| - 1]];
    }
  }

  lemma {:induction false} TokensAreWords(name: string)
    ensures Words(Tokens(name)) && Ascending(Tokens(name))
  {
    CleanedIsPlain(name);
    FieldsOfPlain(Cleaned(name));
    var kept := Kept(Fields(Cleaned(name)));
    KeptAreDistinctive(Fields(Cleaned(name)));
    SortAscending(kept);
    forall t | t in Sort(kept) ensures Word(t) {
      assert t in multiset(Sort(kept));
      assert t in multiset(kept);
    }
  }

  // ---------------------------------------------------------------- reading a key again

  lemma {:induction false} FieldsSnoc(s: string, c: char)
    ensures s != "" && !IsSpace(s[|s| - 1]) ==> Fields(s) != []
    ensures Fields(s + [c]) ==
      if IsSpace(c) then Fields(s)
      else if s == "" || IsSpace(s[|s| - 1]) then Fields(s) + [[c]]
      else Fields(s)[..|Fields(s)| - 1] + [Fields(s)[|Fields(s)| - 1] + [c]]
  {
    assert (s + [c])[..|s|] == s;
  }

  /** Appending a word after a blank, or at the start, adds it as one field. */
  lemma {:induction false} FieldsAppendWord(s: string, t: string)
    requires s == "" || s[|s| - 1] == ' '
    requires AlnumWord(t)
    ensures Fields(s + t) == Fields(s) + [t]
  {
    var n := |t| - 1;
    assert s + t == s + t[..n] + [t[n]] && t == t[..n] + [t[n]];
    FieldsSnoc(s + t[..n], t[n]);
    if n > 0 {
      FieldsAppendWord(s, t[..n]);
    } else {
      assert s + t[..n] == s && t == [t[n]];
    }
  }

  /** A text that a key could be. */
  ghost predicate Tidy(s: string) {
    Plain(s) && Squeezed(s) == s && (s != "" ==> Alnum(s[0]) && Alnum(s[|s| - 1]))
  }

  lemma {:induction false} TidyAppendWord(s: string, t: string)
    requires Tidy(s) && AlnumWord(t)
    ensures s == "" ==> Tidy(t) && Fields(t) == [t]
    ensures s != "" ==> Tidy(s + " " + t) && Fields(s + " " + t) == Fields(s) + [t]
  {
    if s == "" {
      FieldsAppendWord("", t);
      SqueezedAppendWord("", t);
      assert "" + t == t;
    } else {
      var s' := s + " ";
      assert s'[..|s|] == s;
      assert Squeezed(s') == s';
      FieldsSnoc(s, ' ');
      FieldsAppendWord(s', t);
      SqueezedAppendWord(s', t);
    }
  }

  lemma {:induction false} JoinSnoc(ts: seq<string>, t: string)
    ensures Join(ts + [t]) == if ts == [] then t else Join(ts) + " " + t
  {
    assert (ts + [t])[..|ts|] == ts;
  }

  lemma {:induction false} FieldsOfJoinSnoc(ts: seq<string>, t: string)
    requires AlnumWord(t) && Fields(Join(ts)) == ts && Tidy(Join(ts)) && (ts != [] ==> Join(ts) != "")
    ensures Fields(Join(ts + [t])) == ts + [t] && Tidy(Join(ts + [t])) && Join(ts + [t]) != ""
  {
    JoinSnoc(ts, t);
    TidyAppendWord(Join(ts), t);
    if ts == [] { assert ts + [t] == [t]; }
  }

  /** Alphanumeric words joined by blanks are read back as they were. */
  lemma {:induction false} FieldsOfJoin(ts: seq<string>)
    requires AllAlnum(ts)
    ensures Fields(Join(ts)) == ts
    ensures Tidy(Join(ts)) && (ts != [] ==> Join(ts) != "")
    decreases |ts|
  {
    if ts != [] {
      var init, last := SplitLast(ts);
      FieldsOfJoin(init);
      FieldsOfJoinSnoc(init, last);
    }
  }

  /** A key is read back as its tokens. */
  lemma {:induction false} KeyReadsBack(name: string)
    ensures Fields(NameKey(name)) == Tokens(name) && Tidy(NameKey(name))
  {
    TokensAreWords(name);
    forall k | 0 <= k < |Tokens(name)| ensures AlnumWord(Tokens(name)[k]) {
      assert Word(Tokens(name)[k]);
    }
    FieldsOfJoin(Tokens(name));
  }

  lemma {:induction false} SqueezedAppendWord(s: string, t: string)
    requires Squeezed(s) == s && forall i :: 0 <= i < |t| ==> Alnum(t[i])
    ensures Squeezed(s + t) == s + t
  {
    if t != "" {
      var n := |t| - 1;
      SqueezedAppendWord(s, t[..n]);
      assert (s + t)[..|s + t| - 1] == s + t[..n];
      assert s + t == s + t[..n] + [t[n]];
    } else {
      assert s + t == s;
    }
  }

  /** Cleaning a tidy text changes nothing. */
  lemma {:induction false} CleanedTidy(k: string)
    requires Tidy(k)
    ensures Cleaned(k) == k
  {
    assert Lower(k) == k && AmpersandsOut(k) == k && OthersOut(k) == k;
    assert !HasGroup(k);
    assert TrimLeft(k) == k && TrimRight(k) == k;
  }

  /** The key of a key is the key. */
  lemma {:induction false} NameKeyIsIdempotent(name: string)
    ensures NameKey(NameKey(name)) == NameKey(name)
  {
    var ts := Tokens(name);
    TokensAreWords(name);
    KeyReadsBack(name);
    CleanedTidy(NameKey(name));
    KeptIdentity(ts);
    SortIdentity(ts);
  }

  lemma {:induction false} LeqAntisymmetric(a: string, b: string)
    requires Leq(a, b) && Leq(b, a)
    ensures a == b
  {
    if a != "" {
      LeqAntisymmetric(a[1..], b[1..]);
      assert a == [a[0]] + a[1..] && b == [b[0]] + b[1..];
    }
  }

  lemma {:induction false} LeqTransitive(a: string, b: string, c: string)
    requires Leq(a, b) && Leq(b, c)
    ensures Leq(a, c)
  {
    if a != "" && a[0] == b[0] == c[0] { LeqTransitive(a[1..], b[1..], c[1..]); }
  }

  lemma {:induction false} FirstIsLeast(ts: seq<string>, i: nat)
    requires Ascending(ts) && i < |ts|
    ensures Leq(ts[0], ts[i])
  {
    if i > 0 {
      FirstIsLeast(ts, i - 1);
      LeqTransitive(ts[0], ts[i - 1], ts[i]);
    } else {
      LeqTotal(ts[0], ts[0]);
    }
  }

  lemma {:induction false} SameFirst(a: seq<string>, b: seq<string>, i: nat, j: nat)
    requires Ascending(a) && Ascending(b) && i < |b| && j < |a|
    requires b[i] == a[0] && a[j] == b[0]
    ensures a[0] == b[0]
  {
    FirstIsLeast(b, i);
    FirstIsLeast(a, j);
    LeqAntisymmetric(a[0], b[0]);
  }

  lemma {:induction false} SameTail<T>(a: seq<T>, b: seq<T>)
    requires multiset(a) == multiset(b) && a != [] && b != [] && a[0] == b[0]
    ensures multiset(a[1..]) == multiset(b[1..])
  {
    assert a == [a[0]] + a[1..] && b == [b[0]] + b[1..];
    assert multiset(a[1..]) == multiset(a) - multiset{a[0]};
    assert multiset(b[1..]) == multiset(b) - multiset{b[0]};
  }

  lemma {:induction false} PlaceOf<T>(a: seq<T>, b: seq<T>) returns (i: nat)
    requires multiset(a) == multiset(b) && a != []
    ensures i < |b| && b[i] == a[0]
  {
    assert a[0] in multiset(b);
    i :| i < |b| && b[i] == a[0];
  }

  lemma {:induction false} AscendingUnique(a: seq<string>, b: seq<string>)
    requires Ascending(a) && Ascending(b) && multiset(a) == multiset(b)
    ensures a == b
  {
    if a == [] {
      assert |multiset(b)| == |b|;
    } else {
      var i := PlaceOf(a, b);
      var j := PlaceOf(b, a);
      SameFirst(a, b, i, j);
      SameTail(a, b);
      TailAscending(a);
      TailAscending(b);
      AscendingUnique(a[1..], b[1..]);
      assert a == [a[0]] + a[1..] && b == [b[0]] + b[1..];
    }
  }

  /** Two names share a key exactly when they have the same distinctive words, in whatever order. */
  lemma {:induction false} SameKeyIffSameWords(a: string, b: string)
    ensures NameKey(a) == NameKey(b) <==>
            multiset(Kept(Fields(Cleaned(a)))) == multiset(Kept(Fields(Cleaned(b))))
  {
    KeyReadsBack(a);
    KeyReadsBack(b);
    SortAscending(Kept(Fields(Cleaned(a))));
    SortAscending(Kept(Fields(Cleaned(b))));
    if multiset(Tokens(a)) == multiset(Tokens(b)) {
      AscendingUnique(Tokens(a), Tokens(b));
    }
  }

  // ---------------------------------------------------------------- a glued spelling

  /** Names of words and blanks have the key of their distinctive words. */
  lemma {:induction false} TokensOfWords(name: string, ts: seq<string>)
    requires AllAlnum(ts) && Lower(name) == Join(ts)
    ensures Fields(Cleaned(name)) == ts
  {
    FieldsOfJoin(ts);
    CleanedTidy(Join(ts));
    assert AmpersandsOut(Lower(name)) == Lower(name) == Lower(Join(ts));
  }

  lemma {:induction false} IndexOfIs(s: string, c: char, n: nat)
    requires n < |s| && s[n] == c && forall i :: 0 <= i < n ==> s[i] != c
    ensures IndexOf(s, c) == n
  {
  }

  /** A word with a group behind it loses the group. */
  lemma {:induction false} GroupGone(t: string, group: string)
    requires AlnumWord(t) && forall i :: 0 <= i < |group| ==> group[i] !in {'&', '(', ')'}
    ensures GroupsOut(t + " (" + group + ")") == t + "  "
  {
    var s := t + " (" + group + ")";
    IndexOfIs(s, '(', |t| + 1);
    IndexOfIs(s, ')', |s| - 1);
    var blanks := t + "  ";
    assert s[..|t| + 1] + " " + s[|s| - 1 + 1..] == blanks;
    assert !HasGroup(blanks) by { NoIndex(blanks, '('); }
  }

  lemma {:induction false} BlanksTrimmed(t: string)
    requires AlnumWord(t)
    ensures Squeezed(Trim(OthersOut(t + "  "))) == t
  {
    var blanks := t + "  ";
    assert OthersOut(blanks) == blanks && TrimLeft(blanks) == blanks;
    assert blanks[..|t| + 1] == t + " " && (t + " ")[..|t|] == t;
    assert TrimRight(blanks) == TrimRight(t + " ") == TrimRight(t) == t;
    SqueezedAppendWord("", t);
    assert "" + t == t;
  }

  /** Such a name is cleaned to the word. */
  lemma {:induction false} CleanedGroup(name: string, t: string, group: string)
    requires AlnumWord(t) && forall i :: 0 <= i < |group| ==> group[i] !in {'&', '(', ')'}
    requires Lower(name) == t + " (" + group + ")"
    ensures Cleaned(name) == t
  {
    var s := t + " (" + group + ")";
    assert AmpersandsOut(s) == s;
    GroupGone(t, group);
    BlanksTrimmed(t);
  }

  lemma {:induction false} NoIndex(s: string, c: char)
    requires forall i :: 0 <= i < |s| ==> s[i] != c
    ensures IndexOf(s, c) == |s|
  {
  }

  const SPACED: string := "LAZ Solo Peduli"
  const GLUED: string := "SOLOPEDULI (LAZ Provinsi)"

  lemma {:induction false} LoweredSpaced()
    ensures Lower(SPACED) == "laz solo peduli"
  {
  }

  lemma {:induction false} LoweredGlued()
    ensures Lower(GLUED) == "solopeduli" + " (" + "laz provinsi" + ")"
  {
  }

  lemma {:induction false} JoinedWords()
    ensures Join(["laz", "solo", "peduli"]) == "laz solo peduli"
  {
    JoinSnoc([], "laz");
    JoinSnoc(["laz"], "solo");
    JoinSnoc(["laz", "solo"], "peduli");
    assert [] + ["laz"] == ["laz"] && ["laz"] + ["solo"] == ["laz", "solo"];
    assert ["laz", "solo"] + ["peduli"] == ["laz", "solo", "peduli"];
  }

  lemma {:induction false} SpacedWords()
    ensures Fields(Cleaned(SPACED)) == ["laz", "solo", "peduli"]
  {
    LoweredSpaced();
    JoinedWords();
    TokensOfWords(SPACED, ["laz", "solo", "peduli"]);
  }

  lemma {:induction false} GluedWords()
    ensures Fields(Cleaned(GLUED)) == ["solopeduli"]
  {
    LoweredGlued();
    CleanedGroup(GLUED, "solopeduli", "laz provinsi");
    TidyAppendWord("", "solopeduli");
  }

  lemma {:induction false} KeptSnoc(ts: seq<string>, t: string)
    ensures Kept(ts + [t]) == Kept(ts) + if Distinctive(t) then [t] else []
  {
    assert (ts + [t])[..|ts|] == ts;
  }

  lemma {:induction false} DistinctiveParts()
    ensures !Distinctive("laz") && Distinctive("solo") && Distinctive("peduli")
    ensures Distinctive("solopeduli")
  {
  }

  lemma {:induction false} KeptParts()
    ensures Kept(["laz", "solo", "peduli"]) == ["solo", "peduli"]
    ensures Kept(["solopeduli"]) == ["solopeduli"]
  {
    DistinctiveParts();
    KeptSnoc([], "laz");
    KeptSnoc(["laz"], "solo");
    KeptSnoc(["laz", "solo"], "peduli");
    KeptSnoc([], "solopeduli");
    assert [] + ["laz"] == ["laz"] && ["laz"] + ["solo"] == ["laz", "solo"];
    assert ["laz", "solo"] + ["peduli"] == ["laz", "solo", "peduli"] && [] + ["solopeduli"] == ["solopeduli"];
  }

  /** The two spellings do not share a key: "solopeduli" is another word. */
  lemma {:induction false} GluedSpellingDiffers()
    ensures NameKey("LAZ Solo Peduli") != NameKey("SOLOPEDULI (LAZ Provinsi)")
  {
    SpacedWords();
    GluedWords();
    KeptParts();
    SameKeyIffSameWords(SPACED, GLUED);
    assert |multiset(["solo", "peduli"])| == 2 && |multiset(["solopeduli"])| == 1;
  }

  // ---------------------------------------------------------------- the loops

  /** Drops parenthesized segments until none is left in order; each one shortens the text. */
  method StripGroups(text: string) returns (l: string)
    ensures l == GroupsOut(text)
  {
    l := text;
    while true
      invariant GroupsOut(l) == GroupsOut(text)
      decreases |l|
    {
      var i, j := IndexOf(l, '('), IndexOf(l, ')');
      if i < |l| && j < |l| && j > i {
        assert HasGroup(l);
        ghost var shorter := DropGroup(l);
        l := l[..i] + " " + l[j + 1..];
        assert l == shorter;
      } else {
        assert !HasGroup(l);
        break;
      }
    }
  }

  method KeepDistinctive(fields: seq<string>) returns (toks: seq<string>)
    ensures toks == Kept(fields)
  {
    toks := [];
    for n := 0 to |fields|
      invariant toks == Kept(fields[..n])
    {
      assert fields[..n + 1][..n] == fields[..n];
      var t := fields[n];
      if t !in STOP_WORDS && |t| > 2 {
        toks := toks + [t];
      }
    }
    assert fields[..|fields|] == fields;
  }

  method OrgNameKey(name: string) returns (key: string)
    ensures key == NameKey(name)
  {
    var l := AmpersandsOut(Lower(name));
    l := StripGroups(l);
    l := Squeezed(Trim(OthersOut(l)));
    var toks := KeepDistinctive(Fields(l));
    key := Join(Sort(toks));
  }
}
