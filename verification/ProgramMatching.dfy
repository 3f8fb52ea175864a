/** Scoring companies for a program, the in-place exchange sort, and the cut. */
module ProgramMatching {
  import opened Common

  datatype Company = Company(
    name: string, sector: string, tier: string, category: string, headquarters: string, aliases: seq<string>)

  datatype Request = Request(category: string, location: string, keywords: seq<string>, limit: int)

  datatype Grade = Potential | GoodMatch | HighlyRecommended

  datatype Match = Match(company: Company, score: int, grade: Grade)

  predicate Contains(text: string, part: string) {
    exists i | 0 <= i <= |text| - |part| :: OccursAt(text, part, i)
  }

  predicate OccursAt(text: string, part: string, i: int)
    requires 0 <= i <= |text| - |part|
  {
    text[i..i + |part|] == part
  }

  function SearchedText(c: Company): string {
    c.name + " " + c.sector + " " + c.category + " " + Join(c.aliases)
  }

  function SearchText(c: Company, lower: string -> string): string {
    lower(SearchedText(c))
  }

  predicate CategoryHit(c: Company, q: Request, lower: string -> string) {
    lower(q.category) != "" && Contains(SearchText(c, lower), lower(q.category))
  }

  predicate KeywordHit(c: Company, q: Request, lower: string -> string) {
    exists i | 0 <= i < |q.keywords| :: q.keywords[i] != "" && Contains(SearchText(c, lower), lower(q.keywords[i]))
  }

  predicate LocationHit(c: Company, q: Request, lower: string -> string) {
    lower(q.location) != ""
    && (Contains(lower(c.headquarters), lower(q.location)) || lower(q.location) == "national" || c.tier == "TIER_1")
  }

  function Focus(c: Company, q: Request, lower: string -> string): int {
    if CategoryHit(c, q, lower) then 40 else if KeywordHit(c, q, lower) then 35 else 20
  }

  function Score(c: Company, q: Request, lower: string -> string): int {
    var total := Focus(c, q, lower)
      + (if LocationHit(c, q, lower) then 30 else 15)
      + (if c.tier == "TIER_1" then 30 else if c.tier == "TIER_2" then 20 else 10);
    if total > 100 then 100 else total
  }

  function GradeOf(score: int): Grade {
    if score >= 85 then HighlyRecommended else if score >= 70 then GoodMatch else Potential
  }

  function Scored(c: Company, q: Request, lower: string -> string): Match {
    Match(c, Score(c, q, lower), GradeOf(Score(c, q, lower)))
  }

  /** Every score is between 45 and 100, so the cap never bites; the top grade
      is reached in exactly three ways, and never outside the first two tiers. */
  lemma {:induction false} HighlyRecommendedIff(c: Company, q: Request, lower: string -> string)
    ensures 45 <= Score(c, q, lower) <= 100 && Score(c, q, lower) % 5 == 0
    ensures Scored(c, q, lower).grade == HighlyRecommended <==>
      || (c.tier == "TIER_1" && lower(q.location) != "" && (CategoryHit(c, q, lower) || KeywordHit(c, q, lower)))
      || (c.tier == "TIER_1" && CategoryHit(c, q, lower))
      || (c.tier == "TIER_2" && LocationHit(c, q, lower) && (CategoryHit(c, q, lower) || KeywordHit(c, q, lower)))
  {
  }

  // ---------------------------------------------------------------- what a hit is

  /** A text contains a part exactly when it is something, the part, and something. */
  lemma {:induction false} ContainsIff(text: string, part: string)
    ensures Contains(text, part) <==> exists a, b :: text == a + part + b
  {
    if Contains(text, part) {
      var i :| 0 <= i <= |text| - |part| && OccursAt(text, part, i);
      assert text == text[..i] + part + text[i + |part|..];
    }
    if a, b :| text == a + part + b {
      assert OccursAt(text, part, |a|);
    }
  }

  lemma {:induction false} ContainsWithin(a: string, text: string, b: string, part: string)
    requires Contains(text, part)
    ensures Contains(a + text + b, part)
  {
    ContainsIff(text, part);
    var x, y :| text == x + part + y;
    assert a + text + b == (a + x) + part + (y + b);
    ContainsIff(a + text + b, part);
  }

  lemma {:induction false} JoinContains(parts: seq<string>, k: nat) returns (a: string, b: string)
    requires k < |parts|
    ensures Join(parts) == a + parts[k] + b
  {
    var n := |parts| - 1;
    if |parts| == 1 {
      a, b := "", "";
    } else if k == n {
      a, b := Join(parts[..n]) + " ", "";
    } else {
      a, b := JoinContains(parts[..n], k);
      b := b + " " + parts[n];
    }
  }

  /** Lower-casing works part by part. */
  ghost predicate PartByPart(lower: string -> string) {
    forall a, b :: lower(a + b) == lower(a) + lower(b)
  }

  /** A column of the company that its search text is made of. */
  predicate IsSearched(c: Company, column: string) {
    column == c.name || column == c.sector || column == c.category || column in c.aliases
  }

  lemma {:induction false} ColumnInText(c: Company, column: string) returns (a: string, b: string)
    requires IsSearched(c, column)
    ensures SearchedText(c) == a + column + b
  {
    var aliases := Join(c.aliases);
    a, b := "", "";
    if column == c.name {
      b := " " + c.sector + " " + c.category + " " + aliases;
    } else if column == c.sector {
      a, b := c.name + " ", " " + c.category + " " + aliases;
    } else if column == c.category {
      a, b := c.name + " " + c.sector + " ", " " + aliases;
    } else {
      a, b := AliasInText(c, column);
    }
  }

  lemma {:induction false} AliasInText(c: Company, column: string) returns (a: string, b: string)
    requires column in c.aliases
    ensures SearchedText(c) == a + column + b
  {
    var k: nat :| k < |c.aliases| && c.aliases[k] == column;
    a, b := JoinContains(c.aliases, k);
    a := c.name + " " + c.sector + " " + c.category + " " + a;
  }

  /** Whatever a searched column contains is found in the search text. */
  lemma {:induction false} SearchedColumnsAreFound(c: Company, column: string, part: string, lower: string -> string)
    requires PartByPart(lower) && IsSearched(c, column) && Contains(lower(column), part)
    ensures Contains(SearchText(c, lower), part)
  {
    var a, b := ColumnInText(c, column);
    assert lower(a + column + b) == lower(a + column) + lower(b);
    assert lower(a + column) == lower(a) + lower(column);
    ContainsWithin(lower(a), lower(column), lower(b), part);
  }

  /** A company in whose columns the category or a keyword occurs is in focus. */
  lemma {:induction false} MentionedIsHit(c: Company, q: Request, column: string, lower: string -> string)
    requires PartByPart(lower) && IsSearched(c, column)
    ensures lower(q.category) != "" && Contains(lower(column), lower(q.category)) ==> CategoryHit(c, q, lower)
    ensures forall i :: 0 <= i < |q.keywords| && q.keywords[i] != "" && Contains(lower(column), lower(q.keywords[i]))
              ==> KeywordHit(c, q, lower)
  {
    if Contains(lower(column), lower(q.category)) {
      SearchedColumnsAreFound(c, column, lower(q.category), lower);
    }
    forall i | 0 <= i < |q.keywords| && q.keywords[i] != "" && Contains(lower(column), lower(q.keywords[i]))
      ensures KeywordHit(c, q, lower)
    {
      SearchedColumnsAreFound(c, column, lower(q.keywords[i]), lower);
    }
  }

  /** And only such a text is: the four columns, with a blank between each two. */
  lemma {:induction false} HitIff(c: Company, q: Request, lower: string -> string)
    ensures var text := lower(SearchedText(c));
      && (CategoryHit(c, q, lower) <==>
            lower(q.category) != "" && exists a, b :: text == a + lower(q.category) + b)
      && (KeywordHit(c, q, lower) <==>
            exists k :: k in q.keywords && k != "" && Contains(text, lower(k)))
  {
    ContainsIff(lower(SearchedText(c)), lower(q.category));
    if KeywordHit(c, q, lower) {
      var i :| 0 <= i < |q.keywords| && q.keywords[i] != "" && Contains(SearchText(c, lower), lower(q.keywords[i]));
      assert q.keywords[i] in q.keywords;
    }
  }

  /** A location is met by the headquarters, by the word "national", or by any company of the first tier. */
  lemma {:induction false} LocationHitIff(c: Company, q: Request, lower: string -> string)
    ensures LocationHit(c, q, lower) <==>
      && lower(q.location) != ""
      && (c.tier == "TIER_1" || lower(q.location) == "national"
          || exists a, b :: lower(c.headquarters) == a + lower(q.location) + b)
  {
    ContainsIff(lower(c.headquarters), lower(q.location));
  }

  /** A score is 45 and what focus, place and tier add to it; the grades start at
      70 and 85. */
  lemma {:induction false} ScoreIsSum(c: Company, q: Request, lower: string -> string)
    ensures var m := Scored(c, q, lower);
      var focus, place, size :=
        (if CategoryHit(c, q, lower) then 20 else if KeywordHit(c, q, lower) then 15 else 0),
        (if LocationHit(c, q, lower) then 15 else 0),
        (if c.tier == "TIER_1" then 20 else if c.tier == "TIER_2" then 10 else 0);
      && m.company == c && m.score == 45 + focus + place + size
      && (m.grade == HighlyRecommended <==> m.score >= 85)
      && (m.grade == GoodMatch <==> 70 <= m.score < 85)
  {
  }

  ghost predicate Descending(ms: seq<Match>) {
    forall i, j :: 0 <= i < j < |ms| ==> ms[i].score >= ms[j].score
  }

  /** The kept part of a ranking: best first, and nothing left out beats it. */
  ghost predicate TopOf(kept: seq<Match>, dropped: seq<Match>, all: seq<Match>) {
    && multiset(kept) + multiset(dropped) == multiset(all)
    && Descending(kept)
    && forall i, j :: 0 <= i < |kept| && 0 <= j < |dropped| ==> kept[i].score >= dropped[j].score
  }

  /** A higher score never has a lower grade, so the kept part is best by grade too. */
  lemma {:induction false} GradesFollowScores(kept: seq<Match>, dropped: seq<Match>, all: seq<Match>, i: int, j: int)
    requires TopOf(kept, dropped, all)
    requires forall m :: m in all ==> m.grade == GradeOf(m.score)
    requires 0 <= i < |kept| && 0 <= j < |dropped|
    ensures dropped[j].grade == HighlyRecommended ==> kept[i].grade == HighlyRecommended
    ensures dropped[j].grade == GoodMatch ==> kept[i].grade != Potential
  {
    assert kept[i] in multiset(kept) && dropped[j] in multiset(dropped);
    assert kept[i] in multiset(all) && dropped[j] in multiset(all);
  }

  method Swap(a: array<Match>, i: nat, j: nat)
    requires i < a.Length && j < a.Length
    modifies a
    ensures a[i] == old(a[j]) && a[j] == old(a[i])
    ensures forall k :: 0 <= k < a.Length && k != i && k != j ==> a[k] == old(a[k])
    ensures multiset(a[..]) == multiset(old(a[..]))
  {
    a[i], a[j] := a[j], a[i];
  }

  /** Nothing before position i is beaten by anything after it. */
  ghost predicate Settled(a: array<Match>, i: int)
    reads a
  {
    forall p, q :: 0 <= p < i && p < q < a.Length ==> a[p].score >= a[q].score
  }

  /** The inner loop: position i meets every later position once. */
  method Settle(a: array<Match>, i: nat)
    requires i < a.Length && Settled(a, i)
    modifies a
    ensures Settled(a, i + 1)
    ensures multiset(a[..]) == multiset(old(a[..]))
  {
    for j := i + 1 to a.Length
      invariant multiset(a[..]) == multiset(old(a[..]))
      invariant Settled(a, i)
      invariant forall q :: i < q < j ==> a[i].score >= a[q].score
    {
      if a[j].score > a[i].score {
        Swap(a, i, j);
      }
    }
  }

  method ExchangeSort(a: array<Match>)
    modifies a
    ensures Descending(a[..])
    ensures multiset(a[..]) == multiset(old(a[..]))
  {
    for i := 0 to a.Length
      invariant multiset(a[..]) == multiset(old(a[..]))
      invariant Settled(a, i)
    {
      Settle(a, i);
    }
  }

  method ScoreCompany(c: Company, q: Request, lower: string -> string) returns (m: Match)
    ensures m == Scored(c, q, lower)
  {
    var focusScore := 20;
    var text := SearchText(c, lower);
    if lower(q.category) != "" && Contains(text, lower(q.category)) {
      focusScore := focusScore + 20;
    } else {
      for k := 0 to |q.keywords|
        invariant focusScore == 20
        invariant forall i :: 0 <= i < k ==> q.keywords[i] == "" || !Contains(text, lower(q.keywords[i]))
      {
        if q.keywords[k] != "" && Contains(text, lower(q.keywords[k])) {
          focusScore := focusScore + 15;
          break;
        }
      }
    }
    var geoScore := 15;
    if LocationHit(c, q, lower) {
      geoScore := 30;
    }
    var tierScore := 10;
    if c.tier == "TIER_1" {
      tierScore := 30;
    } else if c.tier == "TIER_2" {
      tierScore := 20;
    }
    var totalScore := focusScore + geoScore + tierScore;
    if totalScore > 100 {
      totalScore := 100;
    }
    m := Match(c, totalScore, GradeOf(totalScore));
  }

  function EffectiveLimit(limit: int): nat {
    if limit <= 0 || limit > 20 then 10 else limit
  }

  function AllScored(cs: seq<Company>, q: Request, lower: string -> string): seq<Match> {
    seq(|cs|, i requires 0 <= i < |cs| => Scored(cs[i], q, lower))
  }

  method ScoreAll(companies: seq<Company>, q: Request, lower: string -> string) returns (matches: seq<Match>)
    ensures matches == AllScored(companies, q, lower)
  {
    matches := [];
    for n := 0 to |companies|
      invariant matches == AllScored(companies[..n], q, lower)
    {
      var m := ScoreCompany(companies[n], q, lower);
      matches := matches + [m];
    }
    assert companies[..|companies|] == companies;
  }

  /** A descending sequence cut at `limit`. */
  lemma {:induction false} CutIsTop(sorted: seq<Match>, limit: nat, all: seq<Match>)
    requires Descending(sorted) && multiset(sorted) == multiset(all) && limit <= |sorted|
    ensures TopOf(sorted[..limit], sorted[limit..], all)
  {
    assert sorted == sorted[..limit] + sorted[limit..];
  }

  method RankAndCut(matches: seq<Match>, limit: nat) returns (kept: seq<Match>, dropped: seq<Match>)
    ensures TopOf(kept, dropped, matches)
    ensures |kept| == if |matches| < limit then |matches| else limit
  {
    var a := new Match[|matches|](i requires 0 <= i < |matches| => matches[i]);
    assert a[..] == matches;
    ExchangeSort(a);
    var sorted := a[..];
    assert |multiset(sorted)| == |sorted|;
    var cut := if |sorted| > limit then limit else |sorted|;
    CutIsTop(sorted, cut, matches);
    kept, dropped := sorted[..cut], sorted[cut..];
  }

  /** `companies` are the at most 100 rows of the query. */
  method MatchCompaniesForProgram(companies: seq<Company>, q: Request, lower: string -> string)
    returns (kept: seq<Match>, dropped: seq<Match>)
    ensures TopOf(kept, dropped, AllScored(companies, q, lower))
    ensures |kept| == if |companies| < EffectiveLimit(q.limit) then |companies| else EffectiveLimit(q.limit)
    ensures 1 <= q.limit <= 20 ==> |kept| == if |companies| < q.limit then |companies| else q.limit
    ensures !(1 <= q.limit <= 20) ==> |kept| == if |companies| < 10 then |companies| else 10
  {
    var limit := q.limit;
    if limit <= 0 || limit > 20 {
      limit := 10;
    }
    var matches := ScoreAll(companies, q, lower);
    kept, dropped := RankAndCut(matches, limit);
  }
}
