/** Title matching: the query shortening, the fuzzy regex built from a
    title, the edit distance and the choice among candidate anime ids. */
module EqualsCheck {
  import opened Wrappers
  import opened Text
  import opened Levenshtein

  // ---------------------------------------------------------------------
  // ShortenString

  /** The `(int)` cast of a quotient: truncation toward zero. */
  function TruncDiv(a: int, b: nat): (q: int)
    requires b > 0
    ensures 0 <= a ==> q == a / b
    ensures a < 0 ==> q == -((-a) / b)
  {
    if a >= 0 then a / b else -((-a) / b)
  }

  /** The length ShortenString aims for: `p` percent cut away from `len`,
      computed exactly. */
  function TargetLength(len: nat, p: int): int {
    TruncDiv(len * (100 - p), 100)
  }

  /** ShortenString(input, minLength, p); None where Substring would throw
      (a target length below zero or beyond the input). The result is a
      prefix of the input, never shorter than `minLength` unless it is the
      whole input. */
  function ShortenString(input: string, minLength: int, p: int): (r: Option<string>)
    ensures r.Some? ==> r.value <= input
    ensures r.Some? ==> r.value == input || minLength <= |r.value|
  {
    if |input| <= minLength then Some(input)
    else (
      var newLength := if TargetLength(|input|, p) < minLength then minLength else TargetLength(|input|, p);
      if 0 <= newLength <= |input| then Some(input[..newLength]) else None)
  }

  /** An input no longer than `minLength` comes back unchanged. */
  lemma ShortShortenString(input: string, minLength: int, p: int)
    requires |input| <= minLength
    ensures ShortenString(input, minLength, p) == Some(input)
  {
  }

  /** With a percentage in [0, 100], a longer input is cut to a prefix of
      length max(minLength, floor(len * (100 - p) / 100)). */
  lemma ShortenStringPrefix(input: string, minLength: int, p: int)
    requires 0 <= p <= 100 && 0 <= minLength < |input|
    ensures var r := ShortenString(input, minLength, p);
      var target := |input| * (100 - p) / 100;
      r.Some? && r.value <= input
      && |r.value| == (if target < minLength then minLength else target)
      && minLength <= |r.value| <= |input|
  {
    MulBound(|input|, 100 - p);
    DivBound(|input| * (100 - p), |input|);
  }

  lemma MulBound(x: nat, y: int)
    requires 0 <= y <= 100
    ensures 0 <= x * y <= x * 100
  {
  }

  lemma DivBound(a: int, n: nat)
    requires 0 <= a <= n * 100
    ensures 0 <= a / 100 <= n
  {
  }

  /** The search key XmlSearch builds: at most six characters are kept
      whole, a longer name keeps max(6, floor(4/5 of its length)). */
  lemma SearchKeyLength(name: string)
    ensures var r := ShortenString(name, 6, 20);
      r.Some? && r.value <= name
      && |r.value| == (if |name| <= 6 then |name| else if |name| * 80 / 100 < 6 then 6 else |name| * 80 / 100)
  {
    if |name| > 6 {
      ShortenStringPrefix(name, 6, 20);
    }
  }

  /** A percentage outside [0, 100] can throw: above 100 with a negative
      minimum the length is negative, below 0 it exceeds the input. */
  lemma ShortenStringThrows()
    ensures ShortenString("abcd", -1, 200) == None
    ensures ShortenString("abcd", 0, -50) == None
    ensures ShortenString("abcd", 0, 200) == Some("")
  {
    assert TargetLength(4, 200) == -4;
    assert TargetLength(4, -50) == 6;
  }

  // ---------------------------------------------------------------------
  // FuzzyRegexEscape

  /** Lines 55-67: an escaped metacharacter matches any one character or none. */
  function EscapedFuzzy(a: string): string {
    var a := Replace(a, "\\\\", ".?", false);
    var a := Replace(a, "\\*", ".?", false);
    var a := Replace(a, "\\+", ".?", false);
    var a := Replace(a, "\\?", ".?", false);
    var a := Replace(a, "\\|", ".?", false);
    var a := Replace(a, "\\{", ".?", false);
    var a := Replace(a, "\\[", ".?", false);
    var a := Replace(a, "\\(", ".?", false);
    var a := Replace(a, "\\)", ".?", false);
    var a := Replace(a, "\\^", ".?", false);
    var a := Replace(a, "\\$", ".?", false);
    var a := Replace(a, "\\.", ".?", false);
    Replace(a, "\\#", ".?", false)
  }

  /** Lines 70-71: an escaped space, then every white-space character, becomes
      up to three arbitrary characters. */
  function WhiteSpaceFuzzy(a: string): string {
    ReplaceWhere(Replace(a, "\\ ", ".?.?.?", false), IsWhiteSpace, ".?.?.?")
  }

  /** The character class of line 74. */
  predicate IsLooseSymbol(c: char) {
    c in "!,–—_=~'`‚‘’„“”:;␣#@<>}]/-"
  }

  /** Line 74: each punctuation character becomes an optional character. */
  function SymbolFuzzy(a: string): string {
    ReplaceWhere(a, IsLooseSymbol, ".?")
  }

  /** Line 77, `s\b` (case-sensitive): an 's' followed by the end or by a
      non-word character gets an optional character before it.  The regex
      engine's word-character class is the parameter `isWordChar`. */
  function PluralFuzzy(a: string, isWordChar: char -> bool): string {
    if |a| == 0 then ""
    else
      (if a[0] == 's' && (|a| == 1 || !isWordChar(a[1])) then ".?s" else [a[0]])
      + PluralFuzzy(a[1..], isWordChar)
  }

  /** Lines 78-84: the spelling variants, all case-insensitive. */
  function SpellingFuzzy(a: string): string {
    var a := Replace(a, "c", "(c|k)", true);
    var a := Replace(a, "k", "(c|k)", true);
    var a := Replace(a, "&", "(&|(and))", true);
    var a := Replace(a, "and", "(&|(and))", true);
    var a := Replace(a, "OVA", "((OVA)|(OAD))", true);
    var a := Replace(a, "OAD", "((OVA)|(OAD))", true);
    Replace(a, "re", "re.?", true)
  }

  /** Lines 85-86. */
  function QuirkRules(a: string): string {
    Replace(Replace(a, "Gekijyouban", "Gekijouban", true), "to aru", "to.?aru", true)
  }

  /** FuzzyRegexEscape applied to the output `escaped` of Regex.Escape;
      the pattern it builds holds no white space. */
  function FuzzyRegexEscape(escaped: string, isWordChar: char -> bool): (r: string)
    ensures NoWhiteSpace(r)
  {
    var a := PluralFuzzy(SymbolFuzzy(WhiteSpaceFuzzy(EscapedFuzzy(escaped))), isWordChar);
    FuzzyHasNoWhiteSpace(escaped, isWordChar);
    QuirkRulesOnSpelling(a);
    QuirkRules(SpellingFuzzy(a))
  }

  /** Text with no white space keeps none through a replacement whose
      replacement text has none. */
  lemma ReplaceKeepsNoWhiteSpace(s: string, pat: string, rep: string, ignoreCase: bool)
    requires |pat| > 0 && NoWhiteSpace(s) && NoWhiteSpace(rep)
    ensures NoWhiteSpace(Replace(s, pat, rep, ignoreCase))
  {
    ReplaceCharacters(s, pat, rep, ignoreCase);
    var r := Replace(s, pat, rep, ignoreCase);
    forall i | 0 <= i < |r| ensures !IsWhiteSpace(r[i]) {
      assert r[i] in r;
      if r[i] in s {
        var k :| 0 <= k < |s| && s[k] == r[i];
      } else {
        var k :| 0 <= k < |rep| && rep[k] == r[i];
      }
    }
  }

  lemma WhiteSpaceFuzzyHasNone(a: string)
    ensures NoWhiteSpace(WhiteSpaceFuzzy(a))
  {
    var b := Replace(a, "\\ ", ".?.?.?", false);
    ReplaceWhereCharacters(b, IsWhiteSpace, ".?.?.?");
    var r := ReplaceWhere(b, IsWhiteSpace, ".?.?.?");
    assert r == WhiteSpaceFuzzy(a);
    forall i | 0 <= i < |r| ensures !IsWhiteSpace(r[i]) {
      assert r[i] in r;
      assert (r[i] in b && !IsWhiteSpace(r[i])) || r[i] in ".?.?.?";
    }
  }

  lemma SymbolFuzzyKeepsNone(a: string)
    requires NoWhiteSpace(a)
    ensures NoWhiteSpace(SymbolFuzzy(a))
  {
    ReplaceWhereCharacters(a, IsLooseSymbol, ".?");
    var r := ReplaceWhere(a, IsLooseSymbol, ".?");
    assert r == SymbolFuzzy(a);
    forall i | 0 <= i < |r| ensures !IsWhiteSpace(r[i]) {
      assert r[i] in r;
      if r[i] in a {
        var k :| 0 <= k < |a| && a[k] == r[i];
      } else {
        assert r[i] in ".?";
      }
    }
  }

  lemma {:induction false} PluralFuzzyKeepsNone(a: string, isWordChar: char -> bool)
    requires NoWhiteSpace(a)
    ensures NoWhiteSpace(PluralFuzzy(a, isWordChar))
    decreases |a|
  {
    if |a| > 0 {
      PluralFuzzyKeepsNone(a[1..], isWordChar);
    }
  }

  /** The replacement texts of the spelling rules hold no white space. */
  lemma SpellingTextsHaveNone()
    ensures NoWhiteSpace("(c|k)") && NoWhiteSpace("(&|(and))")
    ensures NoWhiteSpace("((OVA)|(OAD))") && NoWhiteSpace("re.?")
  {
    PrintableHasNone("(c|k)");
    PrintableHasNone("(&|(and))");
    PrintableHasNone("((OVA)|(OAD))");
    PrintableHasNone("re.?");
  }

  /** Printable ASCII other than the space is not white space. */
  lemma PrintableHasNone(s: string)
    requires forall i :: 0 <= i < |s| ==> '!' <= s[i] <= '~'
    ensures NoWhiteSpace(s)
  {
  }

  lemma SpellingFuzzyKeepsNone(a: string)
    requires NoWhiteSpace(a)
    ensures NoWhiteSpace(SpellingFuzzy(a))
  {
    SpellingTextsHaveNone();
    var a1 := Replace(a, "c", "(c|k)", true);
    ReplaceKeepsNoWhiteSpace(a, "c", "(c|k)", true);
    var a2 := Replace(a1, "k", "(c|k)", true);
    ReplaceKeepsNoWhiteSpace(a1, "k", "(c|k)", true);
    var a3 := Replace(a2, "&", "(&|(and))", true);
    ReplaceKeepsNoWhiteSpace(a2, "&", "(&|(and))", true);
    var a4 := Replace(a3, "and", "(&|(and))", true);
    ReplaceKeepsNoWhiteSpace(a3, "and", "(&|(and))", true);
    var a5 := Replace(a4, "OVA", "((OVA)|(OAD))", true);
    ReplaceKeepsNoWhiteSpace(a4, "OVA", "((OVA)|(OAD))", true);
    var a6 := Replace(a5, "OAD", "((OVA)|(OAD))", true);
    ReplaceKeepsNoWhiteSpace(a5, "OAD", "((OVA)|(OAD))", true);
    ReplaceKeepsNoWhiteSpace(a6, "re", "re.?", true);
  }

  /** From the white-space step to the spelling rules, the pattern holds
      no white space. */
  lemma FuzzyHasNoWhiteSpace(escaped: string, isWordChar: char -> bool)
    ensures NoWhiteSpace(PluralFuzzy(SymbolFuzzy(WhiteSpaceFuzzy(EscapedFuzzy(escaped))), isWordChar))
    ensures NoWhiteSpace(SpellingFuzzy(PluralFuzzy(SymbolFuzzy(WhiteSpaceFuzzy(EscapedFuzzy(escaped))), isWordChar)))
  {
    var w := WhiteSpaceFuzzy(EscapedFuzzy(escaped));
    WhiteSpaceFuzzyHasNone(EscapedFuzzy(escaped));
    SymbolFuzzyKeepsNone(w);
    PluralFuzzyKeepsNone(SymbolFuzzy(w), isWordChar);
    SpellingFuzzyKeepsNone(PluralFuzzy(SymbolFuzzy(w), isWordChar));
  }

  /** The two letter-case variants of 'c' and 'k' under OrdinalIgnoreCase. */
  predicate IsK(c: char) { Upper(c) == 'K' }

  /** Every 'k' or 'K' in `s` comes right after a '|'; `afterBar` says whether
      the text before `s` ends in '|'. */
  predicate KAfterBar(s: string, afterBar: bool) {
    (|s| > 0 && IsK(s[0]) ==> afterBar)
    && forall i :: 0 < i < |s| && IsK(s[i]) ==> s[i - 1] == '|'
  }

  lemma KAfterBarCons(c: char, t: string, afterBar: bool)
    requires IsK(c) ==> afterBar
    requires KAfterBar(t, c == '|')
    ensures KAfterBar([c] + t, afterBar)
  {
    var s := [c] + t;
    forall i | 0 < i < |s| && IsK(s[i]) ensures s[i - 1] == '|' {
      assert s[i] == t[i - 1];
      assert s[i - 1] == if i == 1 then c else t[i - 2];
    }
  }

  lemma KAfterBarConcat(a: string, t: string, afterBar: bool)
    requires KAfterBar(a, afterBar) && KAfterBar(t, false)
    ensures KAfterBar(a + t, afterBar)
  {
    var s := a + t;
    forall i | 0 < i < |s| && IsK(s[i]) ensures s[i - 1] == '|' {
      if i < |a| {
        assert s[i] == a[i];
        if i > 0 {
          assert s[i - 1] == a[i - 1];
        }
      } else {
        assert s[i] == t[i - |a|];
        if i > |a| {
          assert s[i - 1] == t[i - |a| - 1];
        }
      }
    }
  }

  lemma KAfterBarTail(s: string, afterBar: bool)
    requires |s| > 0 && KAfterBar(s, afterBar)
    ensures KAfterBar(s[1..], s[0] == '|')
  {
    var t := s[1..];
    forall i | 0 < i < |t| && IsK(t[i]) ensures t[i - 1] == '|' {
      assert t[i] == s[i + 1];
      assert t[i - 1] == s[i];
    }
    if |t| > 0 {
      assert t[0] == s[1];
    }
  }

  lemma BarredK()
    ensures KAfterBar("(c|k)", false)
  {
    var t := "(c|k)";
    forall i | 0 < i < |t| && IsK(t[i]) ensures t[i - 1] == '|' {
      assert i == 3;
    }
  }

  /** After the 'k' rule every k/K sits after the '|' of a "(c|k)". */
  lemma {:induction false} KRuleLeavesBars(s: string)
    ensures KAfterBar(Replace(s, "k", "(c|k)", true), false)
    decreases |s|
  {
    if |s| > 0 {
      KRuleLeavesBars(s[1..]);
      if StartsWith(s, "k", true) {
        BarredK();
        KAfterBarConcat("(c|k)", Replace(s[1..], "k", "(c|k)", true), false);
      } else {
        assert !IsK(s[0]);
        KAfterBarConcat([s[0]], Replace(s[1..], "k", "(c|k)", true), false);
      }
    }
  }

  /** A replacement whose pattern has no k and no '|' and whose replacement
      text has no k keeps every k after a '|'. */
  lemma {:induction false} ReplaceKeepsBars(s: string, pat: string, rep: string, afterBar: bool)
    requires |pat| > 0
    requires forall j :: 0 <= j < |pat| ==> !IsK(pat[j]) && pat[j] != '|'
    requires forall j :: 0 <= j < |rep| ==> !IsK(rep[j])
    requires KAfterBar(s, afterBar)
    ensures KAfterBar(Replace(s, pat, rep, true), afterBar)
    decreases |s|
  {
    if |s| > 0 {
      if StartsWith(s, pat, true) {
        var last := |pat| - 1;
        assert CharEquals(s[last], pat[last], true);
        assert s[last] != '|';
        var t := s[|pat|..];
        forall i | 0 < i < |t| && IsK(t[i]) ensures t[i - 1] == '|' {
          assert t[i] == s[|pat| + i];
          assert t[i - 1] == s[|pat| + i - 1];
        }
        if |t| > 0 {
          assert t[0] == s[|pat|];
        }
        ReplaceKeepsBars(s[|pat|..], pat, rep, false);
        assert KAfterBar(rep, false);
        KAfterBarConcat(rep, Replace(s[|pat|..], pat, rep, true), afterBar);
      } else {
        KAfterBarTail(s, afterBar);
        ReplaceKeepsBars(s[1..], pat, rep, s[0] == '|');
        KAfterBarCons(s[0], Replace(s[1..], pat, rep, true), afterBar);
      }
    }
  }

  /** After the spelling rules no k follows an 'e', so "Gekijyouban" never
      occurs. */
  lemma SpellingLeavesNoGekijyouban(a: string)
    ensures NoOccurrence(SpellingFuzzy(a), "Gekijyouban", true)
  {
    var a1 := Replace(a, "c", "(c|k)", true);
    var a2 := Replace(a1, "k", "(c|k)", true);
    KRuleLeavesBars(a1);
    var a3 := Replace(a2, "&", "(&|(and))", true);
    ReplaceKeepsBars(a2, "&", "(&|(and))", false);
    var a4 := Replace(a3, "and", "(&|(and))", true);
    ReplaceKeepsBars(a3, "and", "(&|(and))", false);
    var a5 := Replace(a4, "OVA", "((OVA)|(OAD))", true);
    ReplaceKeepsBars(a4, "OVA", "((OVA)|(OAD))", false);
    var a6 := Replace(a5, "OAD", "((OVA)|(OAD))", true);
    ReplaceKeepsBars(a5, "OAD", "((OVA)|(OAD))", false);
    var b := Replace(a6, "re", "re.?", true);
    ReplaceKeepsBars(a6, "re", "re.?", false);
    forall i | 0 <= i < |b| ensures !StartsWith(b[i..], "Gekijyouban", true) {
      if i + 2 < |b| && IsK(b[i + 2]) {
        assert b[i + 1] == '|';
        assert b[i..][1] == b[i + 1];
      }
    }
  }

  /** Lines 85-86 never change anything: no "Gekijyouban" survives the
      spelling rules and no white space survives line 71. */
  lemma QuirkRulesNeverFire(escaped: string, isWordChar: char -> bool)
    ensures FuzzyRegexEscape(escaped, isWordChar)
         == SpellingFuzzy(PluralFuzzy(SymbolFuzzy(WhiteSpaceFuzzy(EscapedFuzzy(escaped))), isWordChar))
  {
    FuzzyHasNoWhiteSpace(escaped, isWordChar);
    QuirkRulesOnSpelling(PluralFuzzy(SymbolFuzzy(WhiteSpaceFuzzy(EscapedFuzzy(escaped))), isWordChar));
  }

  /** The rules of lines 85-86 leave the output of the spelling rules alone
      when their input holds no white space. */
  lemma QuirkRulesOnSpelling(a: string)
    requires NoWhiteSpace(a)
    ensures QuirkRules(SpellingFuzzy(a)) == SpellingFuzzy(a)
  {
    var b := SpellingFuzzy(a);
    SpellingFuzzyKeepsNone(a);
    SpellingLeavesNoGekijyouban(a);
    ReplaceWithoutOccurrence(b, "Gekijyouban", "Gekijouban", true);
    forall i | 0 <= i < |b| ensures !StartsWith(b[i..], "to aru", true) {
      if i + 2 < |b| {
        assert !IsWhiteSpace(b[i + 2]);
        assert b[i..][2] == b[i + 2];
      }
    }
    ReplaceWithoutOccurrence(b, "to aru", "to.?aru", true);
  }

  /** Independent statement of lines 78-79 together: each character is
      rewritten on its own, 'c'/'C' to "(c|(c|k))" and 'k'/'K' to "(c|k)". */
  function LooseCK(s: string): string {
    if |s| == 0 then ""
    else
      (if Upper(s[0]) == 'C' then "(c|(c|k))" else if Upper(s[0]) == 'K' then "(c|k)" else [s[0]])
      + LooseCK(s[1..])
  }

  lemma {:induction false} ReplaceCharsCK(s: string)
    ensures ReplaceChar(ReplaceChar(s, 'c', "(c|k)", true), 'k', "(c|k)", true) == LooseCK(s)
    decreases |s|
  {
    if |s| > 0 {
      var h := if CharEquals(s[0], 'c', true) then "(c|k)" else [s[0]];
      ReplaceCharAppend(h, ReplaceChar(s[1..], 'c', "(c|k)", true), 'k', "(c|k)", true);
      ReplaceCharsCK(s[1..]);
      if CharEquals(s[0], 'c', true) {
        assert ReplaceChar("(c|k)", 'k', "(c|k)", true) == "(c|(c|k))";
      } else {
        assert ReplaceChar([s[0]], 'k', "(c|k)", true) == (if Upper(s[0]) == 'K' then "(c|k)" else [s[0]]);
      }
    }
  }

  /** The 'c' rule followed by the 'k' rule is the per-character map LooseCK. */
  lemma CKRules(s: string)
    ensures Replace(Replace(s, "c", "(c|k)", true), "k", "(c|k)", true) == LooseCK(s)
  {
    ReplaceOneCharacter(s, 'c', "(c|k)", true);
    ReplaceOneCharacter(ReplaceChar(s, 'c', "(c|k)", true), 'k', "(c|k)", true);
    ReplaceCharsCK(s);
  }

  // ---------------------------------------------------------------------
  // XmlFindId

  /** A search hit: the anime id and the title text found on each line of
      its entry ("" for a line without a title). */
  datatype Candidate = Candidate(id: string, titles: seq<string>)

  /** Title `j` of candidate `i` is compared with the name. */
  predicate Compared(results: seq<Candidate>, i: int, j: int) {
    0 <= i < |results| && 0 <= j < |results[i].titles| && results[i].titles[j] != ""
  }

  /** Position (i1, j1) is scanned before (i, j). */
  predicate Earlier(i1: int, j1: int, i: int, j: int) {
    i1 < i || (i1 == i && j1 < j)
  }

  /** Every compared title scanned before (i, j) is at least `bound` away. */
  ghost predicate AllAtLeast(name: string, results: seq<Candidate>, bound: int, i: int, j: int) {
    forall i1, j1 :: Compared(results, i1, j1) && Earlier(i1, j1, i, j) ==>
      Distance(name, results[i1].titles[j1]) >= bound
  }

  /** Scanning past the last title of candidate `i` is scanning up to the
      first title of the next one. */
  lemma AllAtLeastNextCandidate(name: string, results: seq<Candidate>, bound: int, i: int)
    requires 0 <= i < |results|
    requires AllAtLeast(name, results, bound, i, |results[i].titles|)
    ensures AllAtLeast(name, results, bound, i + 1, 0)
  {
  }

  /** No compared title is closer than `threshold`. */
  ghost predicate NoneBelow(name: string, results: seq<Candidate>, threshold: int) {
    forall i, j :: Compared(results, i, j) ==> Distance(name, results[i].titles[j]) >= threshold
  }

  /** Title (i, j) is strictly below the threshold, no title is closer, and
      every title scanned before it is farther. */
  ghost predicate Winner(name: string, results: seq<Candidate>, threshold: int, i: int, j: int) {
    Compared(results, i, j) && Distance(name, results[i].titles[j]) < threshold
    && (forall i1, j1 ::
          Compared(results, i1, j1) ==>
          Distance(name, results[i].titles[j]) <= Distance(name, results[i1].titles[j1]))
    && (forall i1, j1 ::
          Compared(results, i1, j1) && Earlier(i1, j1, i, j) ==>
          Distance(name, results[i].titles[j]) < Distance(name, results[i1].titles[j1]))
  }

  /** The selection loop of XmlFindId over the search hits. */
  method XmlFindId(name: string, results: seq<Candidate>, threshold: int) returns (currentId: string)
    ensures |results| == 1 ==> currentId == results[0].id
    ensures |results| != 1 ==>
              (NoneBelow(name, results, threshold) && currentId == "")
              || (exists i, j :: Winner(name, results, threshold, i, j) && currentId == results[i].id)
  {
    if |results| == 1 {
      return results[0].id;
    }
    var lowestDistance := threshold;
    currentId := "";
    ghost var found := false;
    ghost var bi, bj := 0, 0;
    var i := 0;
    while i < |results|
      invariant 0 <= i <= |results|
      invariant !found ==> currentId == "" && lowestDistance == threshold
      invariant found ==>
        (Compared(results, bi, bj) && Earlier(bi, bj, i, 0) && currentId == results[bi].id
         && lowestDistance == Distance(name, results[bi].titles[bj]) < threshold
         && AllAtLeast(name, results, lowestDistance + 1, bi, bj))
      invariant AllAtLeast(name, results, lowestDistance, i, 0)
    {
      var titles := results[i].titles;
      var j := 0;
      while j < |titles|
        invariant 0 <= j <= |titles|
        invariant !found ==> currentId == "" && lowestDistance == threshold
        invariant found ==>
          (Compared(results, bi, bj) && Earlier(bi, bj, i, j) && currentId == results[bi].id
           && lowestDistance == Distance(name, results[bi].titles[bj]) < threshold
           && AllAtLeast(name, results, lowestDistance + 1, bi, bj))
        invariant AllAtLeast(name, results, lowestDistance, i, j)
      {
        var nameFromId := titles[j];
        if nameFromId != "" {
          var stringDistance := LevenshteinDistance(name, nameFromId);
          if lowestDistance > stringDistance {
            lowestDistance := stringDistance;
            currentId := results[i].id;
            found, bi, bj := true, i, j;
          }
        }
        j := j + 1;
      }
      AllAtLeastNextCandidate(name, results, lowestDistance, i);
      i := i + 1;
    }
    if found {
      assert Winner(name, results, threshold, bi, bj);
    }
  }

  /** At most one title wins, and none does when all are too far. */
  lemma WinnerUnique(name: string, results: seq<Candidate>, threshold: int, i: int, j: int, i1: int, j1: int)
    requires Winner(name, results, threshold, i, j) && Winner(name, results, threshold, i1, j1)
    ensures i1 == i && j1 == j
  {
    var d, d1 := Distance(name, results[i].titles[j]), Distance(name, results[i1].titles[j1]);
    assert d <= d1 && d1 <= d;
    assert !Earlier(i1, j1, i, j) && !Earlier(i, j, i1, j1);
  }

  /** A winning title rules out the "nothing close enough" outcome. */
  lemma WinnerExcludesNone(name: string, results: seq<Candidate>, threshold: int, i: int, j: int)
    requires Winner(name, results, threshold, i, j)
    ensures !NoneBelow(name, results, threshold)
  {
  }
}
