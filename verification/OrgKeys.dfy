/** What the fuzzy key of a name means: which characters, groups and words it ignores. */
module OrgKeys {
  import opened Common
  import opened OrgNames

  const BLANKS: set<char> := {' ', '\t', '\n', '\U{000B}', '\U{000C}', '\r'}

  /** Trimming takes blanks off both ends, and only those. */
  lemma {:induction false} TrimIs(s: string) returns (a: string, b: string)
    ensures s == a + Trim(s) + b && (forall c :: c in a + b ==> c in BLANKS)
    ensures Trim(s) != "" ==> Trim(s)[0] !in BLANKS && Trim(s)[|Trim(s)| - 1] !in BLANKS
  {
    var left := TrimLeft(s);
    a := TrimLeftIs(s);
    b := TrimRightIs(left);
    if TrimRight(left) != "" { assert TrimRight(left)[0] == left[0]; }
  }

  lemma {:induction false} TrimLeftIs(s: string) returns (a: string)
    ensures s == a + TrimLeft(s) && (forall c :: c in a ==> c in BLANKS)
    ensures TrimLeft(s) != "" ==> TrimLeft(s)[0] !in BLANKS
  {
    if s != "" && IsSpace(s[0]) {
      a := TrimLeftIs(s[1..]);
      a := [s[0]] + a;
    } else {
      a := "";
    }
  }

  lemma {:induction false} TrimRightIs(s: string) returns (b: string)
    ensures s == TrimRight(s) + b && (forall c :: c in b ==> c in BLANKS)
    ensures TrimRight(s) != "" ==> TrimRight(s)[|TrimRight(s)| - 1] !in BLANKS
  {
    if s != "" && IsSpace(s[|s| - 1]) {
      b := TrimRightIs(s[..|s| - 1]);
      b := b + [s[|s| - 1]];
    } else {
      b := "";
    }
  }

  /** Squeezing leaves no two blanks in a row. */
  lemma {:induction false} SqueezedHasSingleBlanks(s: string)
    ensures s != "" ==> Squeezed(s) != "" && Squeezed(s)[|Squeezed(s)| - 1] == s[|s| - 1]
    ensures forall i :: 0 < i < |Squeezed(s)| ==> Squeezed(s)[i - 1] != ' ' || Squeezed(s)[i] != ' '
  {
    if |s| >= 2 { SqueezedHasSingleBlanks(s[..|s| - 1]); }
  }

  /** And it leaves every word as it was. */
  lemma {:induction false} SqueezedKeepsWords(s: string)
    ensures Fields(Squeezed(s)) == Fields(s)
  {
    if |s| >= 2 {
      var init, last := s[..|s| - 1], s[|s| - 1];
      SqueezedKeepsWords(init);
      SqueezedHasSingleBlanks(init);
      FieldsSnoc(Squeezed(init), last);
    }
  }

  predicate SmallLetter(c: char) { 'a' <= c <= 'z' }

  predicate Capital(c: char) { 'A' <= c <= 'Z' }

  predicate Digit(c: char) { '0' <= c <= '9' }

  /** A character that only separates words: no letter, digit or parenthesis. */
  predicate Separates(c: char) {
    !SmallLetter(c) && !Capital(c) && !Digit(c) && c != '(' && c != ')'
  }

  /** The same letter in either case. */
  predicate SameLetter(a: char, b: char) {
    || a == b
    || (SmallLetter(a) && Capital(b) && a as int - 'a' as int == b as int - 'A' as int)
    || (Capital(a) && SmallLetter(b) && a as int - 'A' as int == b as int - 'a' as int)
  }

  /** Two names that differ in case and in separating characters only. */
  ghost predicate Alike(a: string, b: string) {
    |a| == |b| && forall i :: 0 <= i < |a| ==> SameLetter(a[i], b[i]) || (Separates(a[i]) && Separates(b[i]))
  }

  /** After lower-casing such names are equal but for characters that become blanks. */
  ghost predicate Similar(a: string, b: string) {
    |a| == |b| && forall i :: 0 <= i < |a| ==> a[i] == b[i] || (Blanked(a[i]) && Blanked(b[i]))
  }

  /** Neither kept as a letter or digit nor a parenthesis: it becomes a blank. */
  predicate Blanked(c: char) { !Alnum(c) && c != '(' && c != ')' }

  lemma {:induction false} AlikeChar(a: char, b: char)
    requires SameLetter(a, b) || (Separates(a) && Separates(b))
    ensures LowerChar(a) == LowerChar(b) || (Blanked(LowerChar(a)) && Blanked(LowerChar(b)))
  {
  }

  lemma {:induction false} SimilarIndex(a: string, b: string, c: char)
    requires Similar(a, b) && (c == '(' || c == ')')
    ensures IndexOf(a, c) == IndexOf(b, c)
  {
    if a != "" && a[0] != c {
      assert b[0] != c;
      SimilarIndex(a[1..], b[1..], c);
    }
  }

  lemma {:induction false} SimilarGroups(a: string, b: string)
    requires Similar(a, b)
    ensures Similar(GroupsOut(a), GroupsOut(b))
    decreases |a|
  {
    SimilarIndex(a, b, '(');
    SimilarIndex(a, b, ')');
    if HasGroup(a) {
      SimilarDrop(a, b);
      SimilarGroups(DropGroup(a), DropGroup(b));
    }
  }

  lemma {:induction false} SimilarDrop(a: string, b: string)
    requires Similar(a, b) && HasGroup(a) && HasGroup(b)
    requires IndexOf(a, '(') == IndexOf(b, '(') && IndexOf(a, ')') == IndexOf(b, ')')
    ensures Similar(DropGroup(a), DropGroup(b))
  {
    var i, j := IndexOf(a, '('), IndexOf(a, ')');
    var x, y := DropGroup(a), DropGroup(b);
    forall k | 0 <= k < |x| ensures x[k] == y[k] || (Blanked(x[k]) && Blanked(y[k])) {
      if k < i { assert x[k] == a[k] && y[k] == b[k]; }
      else if k > i { assert x[k] == a[k - i + j] && y[k] == b[k - i + j]; }
    }
  }

  /** A key ignores case and which separating characters stand between the words. */
  lemma {:induction false} AlikeNamesShareKey(a: string, b: string)
    requires Alike(a, b)
    ensures NameKey(a) == NameKey(b)
  {
    var x, y := AmpersandsOut(Lower(a)), AmpersandsOut(Lower(b));
    forall i | 0 <= i < |a| ensures x[i] == y[i] || (Blanked(x[i]) && Blanked(y[i])) {
      AlikeChar(a[i], b[i]);
    }
    SimilarGroups(x, y);
    assert OthersOut(GroupsOut(x)) == OthersOut(GroupsOut(y));
  }

  function Softened(s: string): string { AmpersandsOut(Lower(s)) }

  lemma {:induction false} SoftenedConcat(a: string, b: string)
    ensures Softened(a + b) == Softened(a) + Softened(b)
  {
  }

  lemma {:induction false} SoftenedParentheses(s: string, c: char)
    requires c == '(' || c == ')' || c == ' '
    ensures Softened([c]) == [c]
    ensures c != ' ' && c !in s ==> c !in Softened(s)
  {
  }

  lemma {:induction false} GroupDrops(before: string, group: string, rest: string)
    requires '(' !in before && ')' !in before && ')' !in group
    ensures GroupsOut(before + "(" + group + ")" + rest) == GroupsOut(before + " " + rest)
  {
    var x := before + "(" + group + ")" + rest;
    IndexOfIs(x, '(', |before|);
    IndexOfIs(x, ')', |before| + 1 + |group|);
    assert DropGroup(x) == before + " " + rest;
  }

  /** What stands in the first parentheses does not matter to a key. */
  lemma {:induction false} GroupDoesNotMatter(before: string, group: string, rest: string)
    requires '(' !in before && ')' !in before && ')' !in group
    ensures NameKey(before + "(" + group + ")" + rest) == NameKey(before + " " + rest)
  {
    SoftenedConcat(before, "(");
    SoftenedConcat(before + "(", group);
    SoftenedConcat(before + "(" + group, ")");
    SoftenedConcat(before + "(" + group + ")", rest);
    SoftenedConcat(before, " ");
    SoftenedConcat(before + " ", rest);
    SoftenedParentheses(before, '(');
    SoftenedParentheses(before, ')');
    SoftenedParentheses(group, ')');
    SoftenedParentheses("", ' ');
    GroupDrops(Softened(before), Softened(group), Softened(rest));
  }

  // ---------------------------------------------------------------- which words count

  lemma {:induction false} DistinctiveIff(w: string)
    ensures Distinctive(w) <==>
      |w| > 2 && w !in {
        "laz", "laznas", "yayasan", "foundation", "indonesia", "the", "dan", "and", "perkumpulan", "lembaga",
        "nasional", "propinsi", "provinsi", "cabang", "pusat", "amil", "zakat", "infaq", "shadaqah", "institute",
        "center", "centre"}
  {
  }

  lemma {:induction false} AlnumJoinIsLower(words: seq<string>)
    requires AllAlnum(words)
    ensures Lower(Join(words)) == Join(words)
  {
    FieldsOfJoin(words);
    assert Plain(Join(words));
  }

  /** Names of plain words share a key exactly when they have the same distinctive words. */
  lemma {:induction false} SameKeyOfWords(a: seq<string>, b: seq<string>)
    requires AllAlnum(a) && AllAlnum(b)
    ensures NameKey(Join(a)) == NameKey(Join(b)) <==> multiset(Kept(a)) == multiset(Kept(b))
  {
    AlnumJoinIsLower(a);
    AlnumJoinIsLower(b);
    TokensOfWords(Join(a), a);
    TokensOfWords(Join(b), b);
    SameKeyIffSameWords(Join(a), Join(b));
  }

  lemma {:induction false} KeptOneMore(words: seq<string>, w: string)
    ensures multiset(Kept(words + [w])) == multiset(Kept(words)) <==> !Distinctive(w)
  {
    KeptSnoc(words, w);
    if Distinctive(w) {
      assert |multiset(Kept(words) + [w])| == |multiset(Kept(words))| + 1;
    } else {
      assert Kept(words) + [] == Kept(words);
    }
  }

  /** One more word changes the key unless it is one of twenty-two stop words or
      has at most two letters. */
  lemma {:induction false} WordChangesKeyIff(words: seq<string>, w: string)
    requires AllAlnum(words) && AllAlnum(words + [w])
    ensures NameKey(Join(words + [w])) == NameKey(Join(words)) <==>
      |w| <= 2 || w in {
        "laz", "laznas", "yayasan", "foundation", "indonesia", "the", "dan", "and", "perkumpulan", "lembaga",
        "nasional", "propinsi", "provinsi", "cabang", "pusat", "amil", "zakat", "infaq", "shadaqah", "institute",
        "center", "centre"}
  {
    SameKeyOfWords(words + [w], words);
    KeptOneMore(words, w);
    DistinctiveIff(w);
  }

  /** A name with a distinctive word has a key, and one without has none. */
  lemma {:induction false} KeyIsEmptyIff(words: seq<string>)
    requires AllAlnum(words)
    ensures NameKey(Join(words)) == "" <==> Kept(words) == []
  {
    var name := Join(words);
    AlnumJoinIsLower(words);
    TokensOfWords(name, words);
    SortAscending(Kept(words));
    KeyReadsBack(name);
    assert |multiset(Tokens(name))| == |Tokens(name)| && |multiset(Kept(words))| == |Kept(words)|;
  }

  /** A key knows letters and digits: these characters make words. */
  lemma {:induction false} LettersAndDigitsMakeWords(w: string)
    requires w != "" && forall i :: 0 <= i < |w| ==> SmallLetter(w[i]) || Digit(w[i])
    ensures AlnumWord(w)
  {
  }

  lemma {:induction false} LoweredShareKey(a: string, b: string)
    requires Lower(a) == b
    ensures NameKey(a) == NameKey(b)
  {
    assert Lower(b) == b;
  }

  lemma {:induction false} RumahZakatWords()
    ensures AllAlnum(["rumah", "zakat"]) && AllAlnum(["rumah", "zakat"] + ["indonesia"])
    ensures Join(["rumah", "zakat"]) == "rumah zakat"
    ensures Join(["rumah", "zakat"] + ["indonesia"]) == "rumah zakat indonesia"
  {
    JoinSnoc([], "rumah");
    JoinSnoc(["rumah"], "zakat");
    JoinSnoc(["rumah", "zakat"], "indonesia");
    assert [] + ["rumah"] == ["rumah"] && ["rumah"] + ["zakat"] == ["rumah", "zakat"];
  }

  lemma {:induction false} RumahIsKept()
    ensures Kept(["rumah", "zakat"]) != []
  {
    DistinctiveIff("rumah");
    KeptSnoc([], "rumah");
    KeptSnoc(["rumah"], "zakat");
    assert [] + ["rumah"] == ["rumah"] && ["rumah"] + ["zakat"] == ["rumah", "zakat"];
  }

  lemma {:induction false} RumahZakatLowered()
    ensures Lower("Rumah Zakat") == "rumah zakat"
    ensures Lower("Rumah Zakat Indonesia") == "rumah zakat indonesia"
  {
  }

  lemma {:induction false} IndonesiaDoesNotCount(words: seq<string>)
    requires AllAlnum(words) && AllAlnum(words + ["indonesia"])
    ensures NameKey(Join(words + ["indonesia"])) == NameKey(Join(words))
  {
    WordChangesKeyIff(words, "indonesia");
  }

  lemma {:induction false} RumahZakatHasKey()
    ensures NameKey("rumah zakat") == NameKey("rumah zakat indonesia") != ""
  {
    RumahZakatWords();
    RumahIsKept();
    IndonesiaDoesNotCount(["rumah", "zakat"]);
    KeyIsEmptyIff(["rumah", "zakat"]);
  }

  /** "Rumah Zakat" and "Rumah Zakat Indonesia" are one organization. */
  lemma {:induction false} VariantsShareKey()
    ensures NameKey("Rumah Zakat") == NameKey("Rumah Zakat Indonesia") != ""
  {
    RumahZakatLowered();
    RumahZakatHasKey();
    LoweredShareKey("Rumah Zakat", "rumah zakat");
    LoweredShareKey("Rumah Zakat Indonesia", "rumah zakat indonesia");
  }
}
