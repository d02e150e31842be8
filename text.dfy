/** The .NET string and path operations the plugin relies on, written out:
    ordinal String.Replace (case-sensitive and OrdinalIgnoreCase), the
    per-character regex replacements, Split/Join, Trim, ToLowerInvariant,
    Int32.ToString and Path.Combine on a Unix host. */
module Text {

  /** char.IsWhiteSpace; the regex class \s matches exactly the same
      characters (\t..\r, U+0085 and the Unicode separators Zs, Zl, Zp). */
  predicate IsWhiteSpace(c: char) {
    ('\t' <= c <= '\r') || c == ' ' || c == '\U{85}' || c == '\U{A0}' || c == '\U{1680}'
    || ('\U{2000}' <= c <= '\U{200A}') || c == '\U{2028}' || c == '\U{2029}'
    || c == '\U{202F}' || c == '\U{205F}' || c == '\U{3000}'
  }

  predicate NoWhiteSpace(s: string) {
    forall i :: 0 <= i < |s| ==> !IsWhiteSpace(s[i])
  }

  /** string.IsNullOrWhiteSpace of a present string: empty or white space
      only. */
  predicate AllWhiteSpace(s: string) {
    forall i :: 0 <= i < |s| ==> IsWhiteSpace(s[i])
  }

  /** Upper-case mapping used by OrdinalIgnoreCase (ASCII letters). */
  function Upper(c: char): char {
    if 'a' <= c <= 'z' then (c as int - 32) as char else c
  }

  /** ToLowerInvariant on one character (ASCII letters). */
  function Lower(c: char): char {
    if 'A' <= c <= 'Z' then (c as int + 32) as char else c
  }

  function ToLowerInvariant(s: string): (r: string)
    ensures |r| == |s|
    ensures forall i :: 0 <= i < |s| ==> r[i] == Lower(s[i])
  {
    if |s| == 0 then "" else [Lower(s[0])] + ToLowerInvariant(s[1..])
  }

  predicate CharEquals(a: char, b: char, ignoreCase: bool) {
    if ignoreCase then Upper(a) == Upper(b) else a == b
  }

  /** `s` begins with `pat` under ordinal (optionally case-insensitive) comparison. */
  predicate StartsWith(s: string, pat: string, ignoreCase: bool) {
    |pat| <= |s| && forall j :: 0 <= j < |pat| ==> CharEquals(s[j], pat[j], ignoreCase)
  }

  /** String.Replace(pat, rep[, OrdinalIgnoreCase]): one left-to-right scan;
      every non-overlapping occurrence of `pat` is replaced by `rep`, and the
      text `rep` inserts is never scanned again. */
  function Replace(s: string, pat: string, rep: string, ignoreCase: bool): string
    requires |pat| > 0
    decreases |s|
  {
    if |s| == 0 then ""
    else if StartsWith(s, pat, ignoreCase) then rep + Replace(s[|pat|..], pat, rep, ignoreCase)
    else [s[0]] + Replace(s[1..], pat, rep, ignoreCase)
  }

  /** No occurrence of `pat` starts anywhere in `s`. */
  predicate NoOccurrence(s: string, pat: string, ignoreCase: bool) {
    forall i :: 0 <= i < |s| ==> !StartsWith(s[i..], pat, ignoreCase)
  }

  lemma {:induction false} ReplaceWithoutOccurrence(s: string, pat: string, rep: string, ignoreCase: bool)
    requires |pat| > 0
    requires NoOccurrence(s, pat, ignoreCase)
    ensures Replace(s, pat, rep, ignoreCase) == s
    decreases |s|
  {
    if |s| > 0 {
      assert s[0..] == s;
      assert NoOccurrence(s[1..], pat, ignoreCase) by {
        forall i | 0 <= i < |s| - 1 ensures !StartsWith(s[1..][i..], pat, ignoreCase) {
          assert s[1..][i..] == s[i + 1..];
        }
      }
      ReplaceWithoutOccurrence(s[1..], pat, rep, ignoreCase);
    }
  }

  /** Every character of the result comes from the input or from `rep`. */
  lemma {:induction false} ReplaceCharacters(s: string, pat: string, rep: string, ignoreCase: bool)
    requires |pat| > 0
    ensures forall c :: c in Replace(s, pat, rep, ignoreCase) ==> c in s || c in rep
    decreases |s|
  {
    if |s| > 0 {
      if StartsWith(s, pat, ignoreCase) {
        ReplaceCharacters(s[|pat|..], pat, rep, ignoreCase);
        assert forall c :: c in s[|pat|..] ==> c in s;
      } else {
        ReplaceCharacters(s[1..], pat, rep, ignoreCase);
        assert forall c :: c in s[1..] ==> c in s;
      }
    }
  }

  /** Replacement of every character equal to `x` by `rep`. */
  function ReplaceChar(s: string, x: char, rep: string, ignoreCase: bool): string {
    if |s| == 0 then ""
    else (if CharEquals(s[0], x, ignoreCase) then rep else [s[0]]) + ReplaceChar(s[1..], x, rep, ignoreCase)
  }

  /** With a one-character pattern, String.Replace acts character by character. */
  lemma {:induction false} ReplaceOneCharacter(s: string, x: char, rep: string, ignoreCase: bool)
    ensures Replace(s, [x], rep, ignoreCase) == ReplaceChar(s, x, rep, ignoreCase)
    decreases |s|
  {
    if |s| > 0 {
      assert StartsWith(s, [x], ignoreCase) <==> CharEquals(s[0], x, ignoreCase);
      ReplaceOneCharacter(s[1..], x, rep, ignoreCase);
    }
  }

  lemma {:induction false} ReplaceCharAppend(a: string, b: string, x: char, rep: string, ignoreCase: bool)
    ensures ReplaceChar(a + b, x, rep, ignoreCase)
         == ReplaceChar(a, x, rep, ignoreCase) + ReplaceChar(b, x, rep, ignoreCase)
    decreases |a|
  {
    if |a| == 0 {
      assert a + b == b;
    } else {
      assert (a + b)[0] == a[0];
      assert (a + b)[1..] == a[1..] + b;
      ReplaceCharAppend(a[1..], b, x, rep, ignoreCase);
    }
  }

  /** A replacement that leaves no character equal to `x` behind. */
  lemma {:induction false} ReplaceCharRemoves(s: string, x: char, rep: string)
    requires x !in rep
    ensures x !in ReplaceChar(s, x, rep, false)
    decreases |s|
  {
    if |s| > 0 {
      ReplaceCharRemoves(s[1..], x, rep);
    }
  }

  /** Regex.Replace with a one-character class: every character of the
      class is replaced by `rep`. */
  function ReplaceWhere(s: string, inClass: char -> bool, rep: string): string {
    if |s| == 0 then ""
    else (if inClass(s[0]) then rep else [s[0]]) + ReplaceWhere(s[1..], inClass, rep)
  }

  lemma {:induction false} ReplaceWhereCharacters(s: string, inClass: char -> bool, rep: string)
    ensures forall c :: c in ReplaceWhere(s, inClass, rep) ==> (c in s && !inClass(c)) || c in rep
    decreases |s|
  {
    if |s| > 0 {
      ReplaceWhereCharacters(s[1..], inClass, rep);
      assert forall c :: c in s[1..] ==> c in s;
    }
  }

  /** String.Split(d): the pieces between the separators, empty ones kept. */
  function Split(s: string, d: char): (parts: seq<string>)
    ensures |parts| >= 1
    decreases |s|
  {
    if |s| == 0 then [""]
    else if s[0] == d then [""] + Split(s[1..], d)
    else var rest := Split(s[1..], d); [[s[0]] + rest[0]] + rest[1..]
  }

  /** String.Join(sep, parts). */
  function Join(sep: string, parts: seq<string>): string {
    if |parts| == 0 then ""
    else if |parts| == 1 then parts[0]
    else parts[0] + sep + Join(sep, parts[1..])
  }

  function Reverse<T>(xs: seq<T>): (r: seq<T>)
    ensures |r| == |xs|
    ensures forall i :: 0 <= i < |xs| ==> r[i] == xs[|xs| - 1 - i]
  {
    if |xs| == 0 then [] else Reverse(xs[1..]) + [xs[0]]
  }

  lemma ReverseReverse<T>(xs: seq<T>)
    ensures Reverse(Reverse(xs)) == xs
  {
  }

  /** Split undoes Join for pieces that do not contain the separator. */
  lemma {:induction false} SplitJoin(parts: seq<string>, d: char)
    requires |parts| >= 1
    requires forall k :: 0 <= k < |parts| ==> d !in parts[k]
    ensures Split(Join([d], parts), d) == parts
    decreases |parts|
  {
    if |parts| == 1 {
      SplitWord(parts[0], "", d);
      assert parts[0] + "" == parts[0];
    } else {
      var tail := Join([d], parts[1..]);
      assert Join([d], parts) == parts[0] + ([d] + tail);
      SplitJoin(parts[1..], d);
      SplitWord(parts[0], [d] + tail, d);
      assert ([d] + tail)[0] == d && ([d] + tail)[1..] == tail;
      assert Split([d] + tail, d) == [""] + Split(tail, d);
      assert parts[0] + "" == parts[0];
      assert [parts[0]] + parts[1..] == parts;
    }
  }

  /** A leading piece without the separator is glued onto the first part. */
  lemma {:induction false} SplitWord(w: string, t: string, d: char)
    requires d !in w
    ensures Split(w + t, d) == [w + Split(t, d)[0]] + Split(t, d)[1..]
    decreases |w|
  {
    if |w| == 0 {
      assert w + t == t;
      var p := Split(t, d);
      assert w + p[0] == p[0];
      assert [p[0]] + p[1..] == p;
    } else {
      assert (w + t)[0] == w[0];
      assert (w + t)[1..] == w[1..] + t;
      SplitWord(w[1..], t, d);
      assert [w[0]] + (w[1..] + Split(t, d)[0]) == w + Split(t, d)[0];
    }
  }

  function TrimStart(s: string): (r: string)
    ensures |r| <= |s| && r == s[|s| - |r|..]
    ensures |r| > 0 ==> !IsWhiteSpace(r[0])
    ensures forall i :: 0 <= i < |s| - |r| ==> IsWhiteSpace(s[i])
  {
    if |s| > 0 && IsWhiteSpace(s[0]) then TrimStart(s[1..]) else s
  }

  function TrimEnd(s: string): (r: string)
    ensures |r| <= |s| && r == s[..|r|]
    ensures |r| > 0 ==> !IsWhiteSpace(r[|r| - 1])
    ensures forall i :: |r| <= i < |s| ==> IsWhiteSpace(s[i])
  {
    if |s| > 0 && IsWhiteSpace(s[|s| - 1]) then TrimEnd(s[..|s| - 1]) else s
  }

  /** String.Trim(): leading and trailing white space removed. */
  function Trim(s: string): string {
    TrimEnd(TrimStart(s))
  }

  /** Neither starts nor ends with white space. */
  predicate Trimmed(s: string) {
    |s| > 0 ==> !IsWhiteSpace(s[0]) && !IsWhiteSpace(s[|s| - 1])
  }

  /** Trim leaves a string that neither starts nor ends with white space. */
  lemma TrimIdentity(s: string)
    requires |s| > 0 ==> !IsWhiteSpace(s[0]) && !IsWhiteSpace(s[|s| - 1])
    ensures Trim(s) == s
  {
  }

  /** String.TrimStart(c). */
  function TrimStartChar(s: string, c: char): (r: string)
    ensures |r| <= |s| && r == s[|s| - |r|..]
    ensures |r| > 0 ==> r[0] != c
  {
    if |s| > 0 && s[0] == c then TrimStartChar(s[1..], c) else s
  }

  function Digit(d: nat): char
    requires d < 10
  {
    ('0' as int + d) as char
  }

  /** Decimal text of a natural number, no leading zeros. */
  function NatToString(n: nat): (r: string)
    ensures |r| >= 1
    ensures forall i :: 0 <= i < |r| ==> '0' <= r[i] <= '9'
    ensures (n < 10) == (|r| == 1)
  {
    if n < 10 then [Digit(n)] else NatToString(n / 10) + [Digit(n % 10)]
  }

  /** Int32.ToString(): a minus sign before the digits of a negative number. */
  function IntToString(i: int): string {
    if i < 0 then "-" + NatToString(-i) else NatToString(i)
  }

  /** The text of a number of two or more digits: the text of its tens,
      then its last digit. */
  lemma NatToStringLast(n: nat)
    requires n >= 10
    ensures |NatToString(n)| >= 2
    ensures NatToString(n)[..|NatToString(n)| - 1] == NatToString(n / 10)
    ensures NatToString(n)[|NatToString(n)| - 1] == Digit(n % 10)
  {
  }

  lemma {:induction false} NatToStringInjective(m: nat, n: nat)
    requires NatToString(m) == NatToString(n)
    ensures m == n
    decreases m
  {
    if m >= 10 {
      assert n >= 10;
      NatToStringLast(m);
      NatToStringLast(n);
      NatToStringInjective(m / 10, n / 10);
      assert m % 10 == n % 10;
    }
  }

  /** Different numbers are printed differently. */
  lemma IntToStringInjective(m: int, n: int)
    requires IntToString(m) == IntToString(n)
    ensures m == n
  {
    assert (m < 0) == (IntToString(m)[0] == '-') == (n < 0);
    if m < 0 {
      assert NatToString(-m) == IntToString(m)[1..] == IntToString(n)[1..] == NatToString(-n);
      NatToStringInjective(-m, -n);
    } else {
      NatToStringInjective(m, n);
    }
  }

  lemma IntToStringFirst(i: int)
    ensures |IntToString(i)| >= 1
    ensures IntToString(i)[0] == '-' || '0' <= IntToString(i)[0] <= '9'
  {
  }

  /** Path.Combine(a, b) on a Unix host: an empty part is skipped, a rooted
      `b` replaces `a`, otherwise one '/' separates them. */
  function Combine(a: string, b: string): string {
    if |b| == 0 then a
    else if |a| == 0 || b[0] == '/' then b
    else if a[|a| - 1] == '/' then a + b
    else a + "/" + b
  }

  /** Path.Combine over several parts folds the two-part form left to right. */
  function CombineAll(parts: seq<string>): string
    requires |parts| >= 1
  {
    if |parts| == 1 then parts[0] else Combine(CombineAll(parts[..|parts| - 1]), parts[|parts| - 1])
  }

  /** A relative path part with no '/' at either end. */
  predicate Segment(s: string) {
    |s| > 0 && s[0] != '/' && s[|s| - 1] != '/'
  }

  /** A relative part after a segment is appended after one '/'. */
  lemma CombinePlain(a: string, b: string)
    requires Segment(a) && |b| > 0 && b[0] != '/'
    ensures Combine(a, b) == a + "/" + b
  {
  }

  /** Join with one more part at the end. */
  lemma {:induction false} JoinSnoc(sep: string, parts: seq<string>, last: string)
    requires |parts| >= 1
    ensures Join(sep, parts + [last]) == Join(sep, parts) + sep + last
    decreases |parts|
  {
    if |parts| == 1 {
      assert (parts + [last])[1..] == [last];
    } else {
      assert (parts + [last])[1..] == parts[1..] + [last];
      JoinSnoc(sep, parts[1..], last);
    }
  }

  /** Segments joined by '/' form a segment. */
  lemma {:induction false} JoinSegments(parts: seq<string>)
    requires |parts| >= 1 && forall k :: 0 <= k < |parts| ==> Segment(parts[k])
    ensures Segment(Join("/", parts))
    decreases |parts|
  {
    if |parts| > 1 {
      JoinSegments(parts[1..]);
    }
  }

  /** Path.Combine of segments puts one '/' between each two. */
  lemma {:induction false} CombineAllSegments(parts: seq<string>)
    requires |parts| >= 1 && forall k :: 0 <= k < |parts| ==> Segment(parts[k])
    ensures CombineAll(parts) == Join("/", parts)
    decreases |parts|
  {
    var n := |parts| - 1;
    if n > 0 {
      var prefix := parts[..n];
      CombineAllSegments(prefix);
      JoinSegments(prefix);
      CombinePlain(Join("/", prefix), parts[n]);
      JoinSnoc("/", prefix, parts[n]);
      assert prefix + [parts[n]] == parts;
    }
  }

  /** What Combine puts before a relative part: it depends on `a` alone. */
  function CombineLead(a: string): string {
    if |a| == 0 then "" else if a[|a| - 1] == '/' then a else a + "/"
  }

  lemma CombineRelative(a: string, b: string)
    requires |b| > 0 && b[0] != '/'
    ensures Combine(a, b) == CombineLead(a) + b
  {
  }

  /** Under one directory, different relative names give different paths. */
  lemma CombineInjective(a: string, b1: string, b2: string)
    requires |b1| > 0 && b1[0] != '/' && |b2| > 0 && b2[0] != '/'
    requires Combine(a, b1) == Combine(a, b2)
    ensures b1 == b2
  {
    CombineRelative(a, b1);
    CombineRelative(a, b2);
    var lead := CombineLead(a);
    assert b1 == (lead + b1)[|lead|..];
    assert b2 == (lead + b2)[|lead|..];
  }

  /** Concatenation is associative (stated once, for any element type). */
  lemma Associative<T>(x: seq<T>, y: seq<T>, z: seq<T>)
    ensures x + (y + z) == x + y + z
  {
  }
}
