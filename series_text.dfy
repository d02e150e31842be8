/** The text normalisers of AniDbSeriesProvider: ReplaceNewLine, the grave
    replacement, the description pipeline and the sanitiser applied to a
    downloaded series file. */
module SeriesText {
  import opened Text

  /** ReplaceNewLine: every "\n" becomes "<br>", so no line feed is left. */
  function ReplaceNewLine(text: string): (r: string)
    ensures '\n' !in r
  {
    ReplaceOneCharacter(text, '\n', "<br>", false);
    ReplaceCharRemoves(text, '\n', "<br>");
    Replace(text, "\n", "<br>", false)
  }

  /** It acts character by character. */
  lemma ReplaceNewLinePerCharacter(text: string)
    ensures ReplaceNewLine(text) == ReplaceChar(text, '\n', "<br>", false)
  {
    ReplaceOneCharacter(text, '\n', "<br>", false);
  }

  /** Text without a line feed is left as it is. */
  lemma ReplaceNewLineIdentity(text: string)
    requires '\n' !in text
    ensures ReplaceNewLine(text) == text
  {
    forall i | 0 <= i < |text| ensures !StartsWith(text[i..], "\n", false) {
      assert text[i..][0] == text[i];
    }
    ReplaceWithoutOccurrence(text, "\n", "<br>", false);
  }

  /** A line feed between two texts becomes "<br>" between their
      replacements. */
  lemma ReplaceNewLineSplits(a: string, b: string)
    ensures ReplaceNewLine(a + "\n" + b) == ReplaceNewLine(a) + "<br>" + ReplaceNewLine(b)
  {
    ReplaceNewLinePerCharacter(a + "\n" + b);
    ReplaceNewLinePerCharacter(a);
    ReplaceNewLinePerCharacter(b);
    ReplaceCharAppend(a + "\n", b, '\n', "<br>", false);
    ReplaceCharAppend(a, "\n", '\n', "<br>", false);
  }

  /** String.Replace('`', '\''), applied when AniDbReplaceGraves is set. */
  function ReplaceGraves(text: string): string {
    ReplaceChar(text, '`', "'", false)
  }

  /** Each grave accent becomes an apostrophe and nothing else changes. */
  lemma {:induction false} ReplaceGravesPointwise(text: string)
    ensures |ReplaceGraves(text)| == |text|
    ensures forall i :: 0 <= i < |text| ==>
      ReplaceGraves(text)[i] == if text[i] == '`' then '\'' else text[i]
    decreases |text|
  {
    if |text| > 0 {
      ReplaceGravesPointwise(text[1..]);
    }
  }

  /** The graves option, as every caller writes it. */
  function Graves(text: string, replaceGraves: bool): string {
    if replaceGraves then ReplaceGraves(text) else text
  }

  /** The overview of a series: `*` prefixes and surrounding white space
      trimmed, graves optionally replaced, AniDB links stripped by
      `stripLinks` (the AniDbUrlRegex replacement) and line feeds made
      "<br>"; it never holds a line feed. */
  function Description(raw: string, replaceGraves: bool, stripLinks: string -> string): (r: string)
    ensures '\n' !in r
  {
    var description := Trim(TrimStartChar(raw, '*'));
    ReplaceNewLine(stripLinks(Graves(description, replaceGraves)))
  }

  /** A character of a trimmed text is a character of the text. */
  lemma TrimKeeps(s: string, c: char)
    requires c in Trim(s)
    ensures c in s
  {
    var t := TrimStart(s);
    var r := TrimEnd(t);
    var k :| 0 <= k < |r| && r[k] == c;
    assert r[k] == t[k];
    assert t[k] == s[|s| - |t| + k];
  }

  /** A description with no graves left, when link stripping only keeps
      characters of its input. */
  lemma DescriptionHasNoGraves(raw: string, stripLinks: string -> string)
    requires forall s: string, c: char :: c in stripLinks(s) ==> c in s
    ensures '`' !in Description(raw, true, stripLinks)
  {
    var d := Trim(TrimStartChar(raw, '*'));
    var g := ReplaceGraves(d);
    ReplaceCharRemoves(d, '`', "'");
    var l := stripLinks(g);
    assert '`' in l ==> '`' in g;
    NewLinesAddNoGrave(l);
  }

  lemma NewLinesAddNoGrave(text: string)
    requires '`' !in text
    ensures '`' !in ReplaceNewLine(text)
  {
    ReplaceNewLinePerCharacter(text);
    ReplaceCharacters(text, "\n", "<br>", false);
  }

  /** Text with no `*` prefix, no line feed and no link is only trimmed. */
  lemma DescriptionOfPlainText(raw: string)
    requires |raw| > 0 ==> raw[0] != '*'
    requires '\n' !in raw
    ensures Description(raw, false, s => s) == Trim(raw)
  {
    assert TrimStartChar(raw, '*') == raw;
    if '\n' in Trim(raw) {
      TrimKeeps(raw, '\n');
    }
    ReplaceNewLineIdentity(Trim(raw));
  }

  /** The sanitiser of DownloadSeriesData: every "&#x0;" deleted in one
      left-to-right pass; deleting never lengthens the text. */
  function Sanitise(text: string): (r: string)
    ensures |r| <= |text|
  {
    ReplaceNotLonger(text, "&#x0;", "");
    Replace(text, "&#x0;", "", false)
  }

  /** Deleting never lengthens a text. */
  lemma {:induction false} ReplaceNotLonger(s: string, pat: string, rep: string)
    requires |pat| > 0 && |rep| <= |pat|
    ensures |Replace(s, pat, rep, false)| <= |s|
    decreases |s|
  {
    if |s| > 0 {
      if StartsWith(s, pat, false) {
        ReplaceNotLonger(s[|pat|..], pat, rep);
      } else {
        ReplaceNotLonger(s[1..], pat, rep);
      }
    }
  }

  /** Text without '&' passes unchanged. */
  lemma SanitiseWithoutAmpersand(text: string)
    requires '&' !in text
    ensures Sanitise(text) == text
  {
    forall i | 0 <= i < |text| ensures !StartsWith(text[i..], "&#x0;", false) {
      assert text[i..][0] == text[i];
    }
    ReplaceWithoutOccurrence(text, "&#x0;", "", false);
  }

  /** A prefix none of whose positions starts an occurrence is kept. */
  lemma {:induction false} ReplaceKeepsPrefix(p: string, t: string, pat: string, rep: string)
    requires |pat| > 0
    requires forall i :: 0 <= i < |p| ==> !StartsWith(p[i..] + t, pat, false)
    ensures Replace(p + t, pat, rep, false) == p + Replace(t, pat, rep, false)
    decreases |p|
  {
    if |p| > 0 {
      assert p[0..] == p;
      assert (p + t)[1..] == p[1..] + t;
      forall i | 0 <= i < |p| - 1 ensures !StartsWith(p[1..][i..] + t, pat, false) {
        assert p[1..][i..] == p[i + 1..];
      }
      ReplaceKeepsPrefix(p[1..], t, pat, rep);
      assert [p[0]] + p[1..] == p;
    } else {
      assert p + t == t;
    }
  }

  /** An occurrence at the start is replaced. */
  lemma ReplaceFront(t: string, pat: string, rep: string)
    requires |pat| > 0
    ensures Replace(pat + t, pat, rep, false) == rep + Replace(t, pat, rep, false)
  {
    assert StartsWith(pat + t, pat, false);
    assert (pat + t)[|pat|..] == t;
  }

  lemma SanitiseTail()
    ensures Sanitise("0;") == "0;"
  {
    forall i | 0 <= i < 2 ensures !StartsWith("0;"[i..] + "", "&#x0;", false) { }
    ReplaceKeepsPrefix("0;", "", "&#x0;", "");
    assert "0;" + "" == "0;";
  }

  /** One pass is not enough: deleting the inner "&#x0;" of
      "&#x" + "&#x0;" + "0;" joins the text around it into a new one, which
      a second pass would delete. */
  lemma SanitiseSinglePass()
    ensures Sanitise("&#x" + ("&#x0;" + "0;")) == "&#x" + "0;"
    ensures Sanitise("&#x" + "0;") == ""
  {
    var t := "&#x0;" + "0;";
    forall i | 0 <= i < 3 ensures !StartsWith("&#x"[i..] + t, "&#x0;", false) {
      assert ("&#x"[i..] + t)[3 - i] == '&';
    }
    ReplaceKeepsPrefix("&#x", t, "&#x0;", "");
    ReplaceFront("0;", "&#x0;", "");
    SanitiseTail();
    var u := "&#x" + "0;";
    assert StartsWith(u, "&#x0;", false);
    assert u[5..] == "";
  }
}
