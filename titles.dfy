/** TitleExtensions.Localize: which of an anime's or an episode's titles is
    shown, by title preference and metadata language. */
module Titles {
  import opened Wrappers
  import opened Configuration

  /** One `<title>` element: its `xml:lang` and `type` attributes (absent
      attributes are None) and its text. */
  datatype Title = Title(language: Option<string>, kind: Option<string>, name: string)

  /** The conditions of the FirstOrDefault calls in Localize. */
  datatype Filter =
    | LanguageAndKind(language: Option<string>, kind: string)
    | KindOnly(kind: string)

  predicate Matches(f: Filter, t: Title) {
    match f
    case LanguageAndKind(language, kind) => t.language == language && t.kind == Some(kind)
    case KindOnly(kind) => t.kind == Some(kind)
  }

  /** FirstOrDefault(f): the index of the first title that matches. */
  function FirstIndex(ts: seq<Title>, f: Filter): (r: Option<nat>)
    ensures r.Some? ==> r.value < |ts| && Matches(f, ts[r.value])
    ensures r.Some? ==> forall k :: 0 <= k < r.value ==> !Matches(f, ts[k])
    ensures r.None? ==> forall k :: 0 <= k < |ts| ==> !Matches(f, ts[k])
  {
    if |ts| == 0 then None
    else if Matches(f, ts[0]) then Some(0)
    else match FirstIndex(ts[1..], f)
      case None => None
      case Some(i) => Some(i + 1)
  }

  /** `a ?? b ?? c` over FirstOrDefault calls: the first title matching the
      first filter that any title matches. */
  function FirstOf(ts: seq<Title>, fs: seq<Filter>): (r: Option<Title>)
    ensures r.Some? ==> r.value in ts
    ensures r.None? <==> forall j, k :: 0 <= j < |fs| && 0 <= k < |ts| ==> !Matches(fs[j], ts[k])
  {
    if |fs| == 0 then None
    else match FirstIndex(ts, fs[0])
      case Some(i) => Some(ts[i])
      case None => FirstOf(ts, fs[1..])
  }

  /** main, then official, then synonym, all in one language. */
  function InLanguage(language: Option<string>): seq<Filter> {
    [LanguageAndKind(language, "main"), LanguageAndKind(language, "official"),
     LanguageAndKind(language, "synonym")]
  }

  /** The romaji fallback filters: the x-jat main title, then any main
      title. */
  function FallbackFilters(): seq<Filter> {
    [LanguageAndKind(Some("x-jat"), "main"), KindOnly("main")]
  }

  /** The romaji fallback, ending in FirstOrDefault(): the first title. */
  function Fallback(ts: seq<Title>): (r: Option<Title>)
    ensures r.Some? ==> r.value in ts
    ensures r.None? <==> |ts| == 0
  {
    var main := FirstOf(ts, FallbackFilters());
    if main.Some? then main
    else if |ts| > 0 then Some(ts[0])
    else None
  }

  /** Localize; None is the null it returns for an empty list. */
  function Localize(ts: seq<Title>, preference: TitlePreferenceType, metadataLanguage: Option<string>): (r: Option<Title>)
    ensures r.Some? ==> r.value in ts
    ensures r.None? <==> |ts| == 0
  {
    var localized := if preference == Localized then FirstOf(ts, InLanguage(metadataLanguage)) else None;
    var japanese := if preference == Japanese then FirstOf(ts, InLanguage(Some("ja"))) else None;
    if localized.Some? then localized
    else if japanese.Some? then japanese
    else Fallback(ts)
  }

  /** FirstIndex finds the first match. */
  lemma {:induction false} FirstIndexIs(ts: seq<Title>, f: Filter, i: nat)
    requires i < |ts| && Matches(f, ts[i])
    requires forall k :: 0 <= k < i ==> !Matches(f, ts[k])
    ensures FirstIndex(ts, f) == Some(i)
    decreases i
  {
    if i > 0 {
      assert !Matches(f, ts[0]);
      assert ts[1..][i - 1] == ts[i];
      FirstIndexIs(ts[1..], f, i - 1);
    }
  }

  /** FirstOf picks filter j's first match when no earlier filter matches
      anything. */
  lemma {:induction false} FirstOfPicks(ts: seq<Title>, fs: seq<Filter>, j: nat, i: nat)
    requires j < |fs| && i < |ts| && Matches(fs[j], ts[i])
    requires forall k :: 0 <= k < i ==> !Matches(fs[j], ts[k])
    requires forall j1, k :: 0 <= j1 < j && 0 <= k < |ts| ==> !Matches(fs[j1], ts[k])
    ensures FirstOf(ts, fs) == Some(ts[i])
    decreases j
  {
    if j == 0 {
      FirstIndexIs(ts, fs[0], i);
    } else {
      assert forall k :: 0 <= k < |ts| ==> !Matches(fs[0], ts[k]);
      assert forall j1 :: 0 <= j1 < j - 1 ==> fs[1..][j1] == fs[j1 + 1];
      FirstOfPicks(ts, fs[1..], j - 1, i);
    }
  }

  /** A title of language `language` and type `kind` at index i, the first
      such. */
  predicate FirstOfKind(ts: seq<Title>, language: Option<string>, kind: string, i: nat) {
    i < |ts| && ts[i].language == language && ts[i].kind == Some(kind)
    && forall k :: 0 <= k < i ==> !(ts[k].language == language && ts[k].kind == Some(kind))
  }

  /** No title of language `language` and type `kind`. */
  predicate NoneOfKind(ts: seq<Title>, language: Option<string>, kind: string) {
    forall k :: 0 <= k < |ts| ==> !(ts[k].language == language && ts[k].kind == Some(kind))
  }

  /** Localized: the first main title in the metadata language wins. */
  lemma LocalizedPicksMain(ts: seq<Title>, metadataLanguage: Option<string>, i: nat)
    requires FirstOfKind(ts, metadataLanguage, "main", i)
    ensures Localize(ts, Localized, metadataLanguage) == Some(ts[i])
  {
    FirstOfPicks(ts, InLanguage(metadataLanguage), 0, i);
  }

  /** Localized: without such a main title, the first official one. */
  lemma LocalizedPicksOfficial(ts: seq<Title>, metadataLanguage: Option<string>, i: nat)
    requires NoneOfKind(ts, metadataLanguage, "main")
    requires FirstOfKind(ts, metadataLanguage, "official", i)
    ensures Localize(ts, Localized, metadataLanguage) == Some(ts[i])
  {
    FirstOfPicks(ts, InLanguage(metadataLanguage), 1, i);
  }

  /** Localized: without main or official titles, the first synonym. */
  lemma LocalizedPicksSynonym(ts: seq<Title>, metadataLanguage: Option<string>, i: nat)
    requires NoneOfKind(ts, metadataLanguage, "main") && NoneOfKind(ts, metadataLanguage, "official")
    requires FirstOfKind(ts, metadataLanguage, "synonym", i)
    ensures Localize(ts, Localized, metadataLanguage) == Some(ts[i])
  {
    FirstOfPicks(ts, InLanguage(metadataLanguage), 2, i);
  }

  /** Localized with none of the three in the metadata language falls back
      to what JapaneseRomaji picks. */
  lemma LocalizedFallsBack(ts: seq<Title>, metadataLanguage: Option<string>)
    requires NoneOfKind(ts, metadataLanguage, "main") && NoneOfKind(ts, metadataLanguage, "official")
    requires NoneOfKind(ts, metadataLanguage, "synonym")
    ensures Localize(ts, Localized, metadataLanguage) == Localize(ts, JapaneseRomaji, metadataLanguage)
  {
    var fs := InLanguage(metadataLanguage);
    assert FirstOf(ts, fs).None? by {
      forall j, k | 0 <= j < |fs| && 0 <= k < |ts| ensures !Matches(fs[j], ts[k]) {
        assert fs[j] == LanguageAndKind(metadataLanguage, fs[j].kind);
      }
    }
  }

  /** Japanese is Localized with "ja" for the metadata language. */
  lemma JapaneseIsLocalizedJa(ts: seq<Title>, metadataLanguage: Option<string>)
    ensures Localize(ts, Japanese, metadataLanguage) == Localize(ts, Localized, Some("ja"))
  {
  }

  /** JapaneseRomaji has no branch of its own: only the fallback, whatever
      the metadata language. */
  lemma RomajiIgnoresLanguage(ts: seq<Title>, metadataLanguage: Option<string>)
    ensures Localize(ts, JapaneseRomaji, metadataLanguage) == Fallback(ts)
  {
  }

  /** The fallback prefers the first x-jat main title. */
  lemma FallbackPicksRomaji(ts: seq<Title>, i: nat)
    requires FirstOfKind(ts, Some("x-jat"), "main", i)
    ensures Fallback(ts) == Some(ts[i])
  {
    FirstOfPicks(ts, FallbackFilters(), 0, i);
  }

  /** Without one, the first main title of any language. */
  lemma FallbackPicksMain(ts: seq<Title>, i: nat)
    requires NoneOfKind(ts, Some("x-jat"), "main")
    requires i < |ts| && ts[i].kind == Some("main")
    requires forall k :: 0 <= k < i ==> ts[k].kind != Some("main")
    ensures Fallback(ts) == Some(ts[i])
  {
    FirstOfPicks(ts, FallbackFilters(), 1, i);
  }

  /** Without any main title, the first title. */
  lemma FallbackPicksFirst(ts: seq<Title>)
    requires |ts| > 0
    requires forall k :: 0 <= k < |ts| ==> ts[k].kind != Some("main")
    ensures Fallback(ts) == Some(ts[0])
  {
    var fs := FallbackFilters();
    assert forall j, k :: 0 <= j < |fs| && 0 <= k < |ts| ==> !Matches(fs[j], ts[k]);
  }
}
