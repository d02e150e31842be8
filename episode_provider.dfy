/** AniDbEpisodeProvider: the guard chain of GetMetadata, the file an
    episode is read from, the reader loop of ParseEpisodeXml and
    GetSearchResults. */
module EpisodeProvider {
  import opened Wrappers
  import opened Text
  import opened Configuration
  import opened Titles
  import opened SeriesText
  import opened SeriesCache

  /** ProviderNames.AniDb, the key of the AniDB id in ProviderIds. */
  const ProviderName := "AniDB"

  // ---------------------------------------------------------------------
  // long.TryParse and TimeSpan.FromMinutes(..).Ticks

  const LongMin := -0x8000_0000_0000_0000
  const LongMax := 0x7FFF_FFFF_FFFF_FFFF

  predicate InLong(n: int) {
    LongMin <= n <= LongMax
  }

  /** Ticks in one minute. */
  const TicksPerMinute := 600_000_000

  /** The white space NumberStyles.Integer allows around a number. */
  predicate NumberWhite(c: char) {
    c == ' ' || '\t' <= c <= '\r'
  }

  function SkipLeadingWhite(s: string): string {
    if |s| > 0 && NumberWhite(s[0]) then SkipLeadingWhite(s[1..]) else s
  }

  function SkipTrailingWhite(s: string): string {
    if |s| > 0 && NumberWhite(s[|s| - 1]) then SkipTrailingWhite(s[..|s| - 1]) else s
  }

  /** The value of a non-empty run of ASCII decimal digits; None for any
      other text. */
  function ParseDigits(d: string): Option<nat>
    decreases |d|
  {
    if |d| == 0 || !('0' <= d[|d| - 1] <= '9') then None
    else
      var last := d[|d| - 1] as int - '0' as int;
      if |d| == 1 then Some(last)
      else match ParseDigits(d[..|d| - 1])
        case None => None
        case Some(v) => Some(v * 10 + last)
  }

  /** long.TryParse with the default number style: optional white space
      around an optional sign and at least one ASCII digit; None when the
      text is not of that form or the value is outside the long range. */
  function ParseLong(s: string): (r: Option<int>)
    ensures r.Some? ==> InLong(r.value)
  {
    var t := SkipTrailingWhite(SkipLeadingWhite(s));
    var signed := |t| > 0 && (t[0] == '-' || t[0] == '+');
    var digits := if signed then t[1..] else t;
    match ParseDigits(digits)
    case None => None
    case Some(m) =>
      var v: int := if signed && t[0] == '-' then 0 - m else m;
      if InLong(v) then Some(v) else None
  }

  /** The digits a natural number is written with stand for that number. */
  lemma {:induction false} ParseDigitsOfNat(n: nat)
    ensures ParseDigits(NatToString(n)) == Some(n)
    decreases n
  {
    if n >= 10 {
      NatToStringLast(n);
      ParseDigitsOfNat(n / 10);
    }
  }

  /** Text that neither starts nor ends with white space is not trimmed. */
  lemma SkipWhiteIdentity(s: string)
    requires |s| > 0 && !NumberWhite(s[0]) && !NumberWhite(s[|s| - 1])
    ensures SkipTrailingWhite(SkipLeadingWhite(s)) == s
  {
    assert SkipLeadingWhite(s) == s;
  }

  /** Digits, alone or after a minus sign, parse to their value or its
      negation when that is in the long range. */
  lemma ParseLongDigits(d: string, m: nat, negative: bool)
    requires ParseDigits(d) == Some(m) && '0' <= d[0] <= '9'
    ensures var v: int := if negative then 0 - m else m;
      ParseLong(if negative then "-" + d else d) == if InLong(v) then Some(v) else None
  {
    var s := if negative then "-" + d else d;
    assert s[|s| - 1] == d[|d| - 1];
    SkipWhiteIdentity(s);
    if negative {
      assert s[1..] == d;
    }
  }

  /** Parsing the text of a number gives the number back, when it is in
      the long range, and fails otherwise. */
  lemma ParseLongIntToString(n: int)
    ensures ParseLong(IntToString(n)) == if InLong(n) then Some(n) else None
  {
    var m: nat := if n < 0 then -n else n;
    ParseDigitsOfNat(m);
    ParseLongDigits(NatToString(m), m, n < 0);
  }

  /** Skipping white space keeps characters of the text. */
  lemma {:induction false} SkipWhiteKeeps(s: string, c: char)
    ensures c in SkipLeadingWhite(s) ==> c in s
    ensures c in SkipTrailingWhite(s) ==> c in s
    decreases |s|
  {
    if |s| > 0 {
      SkipWhiteKeeps(s[1..], c);
      SkipWhiteKeeps(s[..|s| - 1], c);
      if c in s[1..] || c in s[..|s| - 1] {
        assert c in s;
      }
    }
  }

  /** Text with no digit never parses. */
  lemma ParseLongNeedsDigit(s: string)
    requires forall i :: 0 <= i < |s| ==> !('0' <= s[i] <= '9')
    ensures ParseLong(s) == None
  {
    var u := SkipLeadingWhite(s);
    var t := SkipTrailingWhite(u);
    if |t| > 0 {
      var c := t[|t| - 1];
      SkipWhiteKeeps(u, c);
      SkipWhiteKeeps(s, c);
      if |t| > 1 {
        assert t[1..][|t| - 2] == c;
      }
    }
  }

  // ---------------------------------------------------------------------
  // ParseEpisodeXml

  /** The elements of an episode file that the reader loop switches on;
      airdate, rating and every other element are OtherTag. */
  datatype EpisodeElement =
    | EpisodeTag(id: Option<string>)
    | LengthTag(content: string)
    | TitleTag(language: Option<string>, name: string)
    | SummaryTag(content: string)
    | OtherTag

  /** The fields of an Episode that GetMetadata and ParseEpisodeXml set. */
  datatype EpisodeState = EpisodeState(
    indexNumber: Option<int>,
    parentIndexNumber: Option<int>,
    providerIds: map<string, string>,
    runTimeTicks: Option<int>,
    overview: Option<string>,
    name: Option<string>)

  /** The state of the reader loop: the episode and the titles seen. */
  datatype Reading = Reading(episode: EpisodeState, titles: seq<Title>)

  predicate HasId(e: EpisodeElement) {
    e.EpisodeTag? && e.id.Some? && |e.id.value| > 0
  }

  /** A `<length>` whose minutes parse but whose ticks leave the long
      range: TimeSpan.FromMinutes throws. */
  predicate Overflows(e: EpisodeElement) {
    e.LengthTag? && ParseLong(e.content).Some? && !InLong(ParseLong(e.content).value * TicksPerMinute)
  }

  /** A `<length>` whose minutes parse. */
  predicate SetsRunTime(e: EpisodeElement) {
    e.LengthTag? && ParseLong(e.content).Some?
  }

  /** One turn of the reader loop; None when it throws (a second id added
      to ProviderIds, or a run time out of range). An empty `<length>` is
      covered by ParseLong failing on it. No turn changes the numbers or
      the name. */
  function ReadElement(r: Reading, e: EpisodeElement, replaceGraves: bool): (q: Option<Reading>)
    ensures q.Some? ==> q.value.episode.indexNumber == r.episode.indexNumber
    ensures q.Some? ==> q.value.episode.parentIndexNumber == r.episode.parentIndexNumber
    ensures q.Some? ==> q.value.episode.name == r.episode.name
  {
    match e
    case EpisodeTag(id) =>
      if id.None? || |id.value| == 0 then Some(r)
      else if ProviderName in r.episode.providerIds then None
      else Some(r.(episode := r.episode.(providerIds := r.episode.providerIds[ProviderName := id.value])))
    case LengthTag(content) =>
      var minutes := ParseLong(content);
      if minutes.None? then Some(r)
      else if InLong(minutes.value * TicksPerMinute) then
        Some(r.(episode := r.episode.(runTimeTicks := Some(minutes.value * TicksPerMinute))))
      else None
    case TitleTag(language, name) => Some(r.(titles := r.titles + [Title(language, Some("main"), name)]))
    case SummaryTag(content) =>
      Some(r.(episode := r.episode.(overview := Some(Graves(ReplaceNewLine(content), replaceGraves)))))
    case OtherTag => Some(r)
  }

  /** The reader loop over the elements in document order; the loop never
      changes the numbers and never sets the name. */
  function ReadAll(r: Reading, elements: seq<EpisodeElement>, replaceGraves: bool): (q: Option<Reading>)
    ensures q.Some? ==> q.value.episode.indexNumber == r.episode.indexNumber
    ensures q.Some? ==> q.value.episode.parentIndexNumber == r.episode.parentIndexNumber
    ensures q.Some? ==> q.value.episode.name == r.episode.name
    decreases |elements|
  {
    if |elements| == 0 then Some(r)
    else match ReadAll(r, elements[..|elements| - 1], replaceGraves)
      case None => None
      case Some(prior) => ReadElement(prior, elements[|elements| - 1], replaceGraves)
  }

  /** After the loop: the Localized title for the metadata language names
      the episode when it is not empty; None is the `.Name` of the null
      Localize returns for no titles. */
  function ChooseName(r: Reading, language: Option<string>, replaceGraves: bool): Option<EpisodeState> {
    match Localize(r.titles, Localized, language)
    case None => None
    case Some(t) => if |t.name| == 0 then Some(r.episode) else Some(r.episode.(name := Some(Graves(t.name, replaceGraves))))
  }

  /** ParseEpisodeXml on an episode; None when it throws. The episode and
      season numbers are left as they were. */
  function ParseEpisode(episode: EpisodeState, elements: seq<EpisodeElement>, language: Option<string>,
                        replaceGraves: bool): (r: Option<EpisodeState>)
    ensures r.Some? ==> r.value.indexNumber == episode.indexNumber
    ensures r.Some? ==> r.value.parentIndexNumber == episode.parentIndexNumber
  {
    match ReadAll(Reading(episode, []), elements, replaceGraves)
    case None => None
    case Some(r) => ChooseName(r, language, replaceGraves)
  }

  /** The titles the loop records: every `<title>`, in order, as a main
      title. */
  function TitlesOf(elements: seq<EpisodeElement>): (r: seq<Title>)
    ensures |r| == 0 <==> forall k :: 0 <= k < |elements| ==> !elements[k].TitleTag?
    ensures forall k :: 0 <= k < |r| ==> r[k].kind == Some("main")
    decreases |elements|
  {
    if |elements| == 0 then []
    else
      var n := |elements| - 1;
      var prior := TitlesOf(elements[..n]);
      assert forall k :: 0 <= k < n ==> elements[..n][k] == elements[k];
      match elements[n]
      case TitleTag(language, name) => prior + [Title(language, Some("main"), name)]
      case _ => prior
  }

  /** How many `<episode>` elements carry a non-empty id. */
  function IdCount(elements: seq<EpisodeElement>): nat
    decreases |elements|
  {
    if |elements| == 0 then 0
    else IdCount(elements[..|elements| - 1]) + if HasId(elements[|elements| - 1]) then 1 else 0
  }

  /** One turn records a `<title>` as a main title and no other title. */
  lemma ReadElementTitles(p: Reading, e: EpisodeElement, replaceGraves: bool)
    requires ReadElement(p, e, replaceGraves).Some?
    ensures ReadElement(p, e, replaceGraves).value.titles
      == p.titles + if e.TitleTag? then [Title(e.language, Some("main"), e.name)] else []
  {
  }

  /** One turn adds the AniDB id of an `<episode>` that has one, to an
      episode without one, and otherwise leaves ProviderIds alone. */
  lemma ReadElementIds(p: Reading, e: EpisodeElement, replaceGraves: bool)
    requires ReadElement(p, e, replaceGraves).Some?
    ensures HasId(e) ==> ProviderName !in p.episode.providerIds
    ensures HasId(e) ==>
      ReadElement(p, e, replaceGraves).value.episode.providerIds == p.episode.providerIds[ProviderName := e.id.value]
    ensures !HasId(e) ==> ReadElement(p, e, replaceGraves).value.episode.providerIds == p.episode.providerIds
  {
  }

  /** One turn sets the run time from a `<length>` that parses. */
  lemma ReadElementRunTime(p: Reading, e: EpisodeElement, replaceGraves: bool)
    requires ReadElement(p, e, replaceGraves).Some?
    ensures ReadElement(p, e, replaceGraves).value.episode.runTimeTicks
      == if SetsRunTime(e) then Some(ParseLong(e.content).value * TicksPerMinute) else p.episode.runTimeTicks
  {
  }

  /** One turn sets the overview from a `<summary>`. */
  lemma ReadElementOverview(p: Reading, e: EpisodeElement, replaceGraves: bool)
    requires ReadElement(p, e, replaceGraves).Some?
    ensures ReadElement(p, e, replaceGraves).value.episode.overview
      == if e.SummaryTag? then Some(Graves(ReplaceNewLine(e.content), replaceGraves)) else p.episode.overview
  {
  }

  /** A turn throws exactly on a second id or a run time out of range. */
  lemma ReadElementFails(p: Reading, e: EpisodeElement, replaceGraves: bool)
    ensures ReadElement(p, e, replaceGraves).None? <==> (HasId(e) && ProviderName in p.episode.providerIds) || Overflows(e)
  {
  }

  /** Once the loop has thrown on a prefix, the whole read throws. */
  lemma {:induction false} ReadAllStops(r: Reading, elements: seq<EpisodeElement>, j: nat, replaceGraves: bool)
    requires j <= |elements| && ReadAll(r, elements[..j], replaceGraves).None?
    ensures ReadAll(r, elements, replaceGraves).None?
    decreases |elements|
  {
    if j < |elements| {
      var n := |elements| - 1;
      assert elements[..n][..j] == elements[..j];
      ReadAllStops(r, elements[..n], j, replaceGraves);
    } else {
      assert elements[..j] == elements;
    }
  }

  /** Some element satisfies `p` (stated by prefixes, as the loop reads). */
  predicate Any<T>(p: T -> bool, xs: seq<T>)
    decreases |xs|
  {
    |xs| > 0 && (Any(p, xs[..|xs| - 1]) || p(xs[|xs| - 1]))
  }

  lemma {:induction false} AnyExists<T>(p: T -> bool, xs: seq<T>)
    ensures Any(p, xs) <==> exists k :: 0 <= k < |xs| && p(xs[k])
    decreases |xs|
  {
    if |xs| > 0 {
      var n := |xs| - 1;
      AnyExists(p, xs[..n]);
      assert forall k :: 0 <= k < n ==> xs[..n][k] == xs[k];
    }
  }

  /** The loop throws exactly when a run time is out of range or the AniDB
      id is added twice. */
  lemma {:induction false} ReadAllFails(r: Reading, elements: seq<EpisodeElement>, replaceGraves: bool)
    ensures ReadAll(r, elements, replaceGraves).None? <==>
      Any(Overflows, elements) || IdCount(elements) + (if ProviderName in r.episode.providerIds then 1 else 0) >= 2
    ensures ReadAll(r, elements, replaceGraves).Some? ==>
      (ProviderName in ReadAll(r, elements, replaceGraves).value.episode.providerIds
       <==> ProviderName in r.episode.providerIds || IdCount(elements) >= 1)
    decreases |elements|
  {
    if |elements| > 0 {
      var n := |elements| - 1;
      ReadAllFails(r, elements[..n], replaceGraves);
      var prior := ReadAll(r, elements[..n], replaceGraves);
      if prior.Some? {
        ReadElementFails(prior.value, elements[n], replaceGraves);
        if ReadElement(prior.value, elements[n], replaceGraves).Some? {
          ReadElementIds(prior.value, elements[n], replaceGraves);
        }
      }
    }
  }

  /** A loop that does not throw records every title and keeps the
      episode's numbers. */
  lemma {:induction false} ReadAllKeeps(r: Reading, elements: seq<EpisodeElement>, replaceGraves: bool)
    requires ReadAll(r, elements, replaceGraves).Some?
    ensures var q := ReadAll(r, elements, replaceGraves).value;
      && q.titles == r.titles + TitlesOf(elements)
      && q.episode.indexNumber == r.episode.indexNumber
      && q.episode.parentIndexNumber == r.episode.parentIndexNumber
    decreases |elements|
  {
    if |elements| > 0 {
      var n := |elements| - 1;
      var prefix := elements[..n];
      ReadAllKeeps(r, prefix, replaceGraves);
      var prior := ReadAll(r, prefix, replaceGraves).value;
      ReadElementTitles(prior, elements[n], replaceGraves);
      var e := elements[n];
      Associative(r.titles, TitlesOf(prefix), if e.TitleTag? then [Title(e.language, Some("main"), e.name)] else []);
    }
  }

  /** ParseEpisodeXml throws exactly when a run time is out of range, the
      AniDB id is added twice, or there is no title. */
  lemma ParseEpisodeThrows(episode: EpisodeState, elements: seq<EpisodeElement>, language: Option<string>,
                           replaceGraves: bool)
    ensures ParseEpisode(episode, elements, language, replaceGraves).None? <==>
      (exists k :: 0 <= k < |elements| && Overflows(elements[k]))
      || IdCount(elements) + (if ProviderName in episode.providerIds then 1 else 0) >= 2
      || (forall k :: 0 <= k < |elements| ==> !elements[k].TitleTag?)
  {
    ReadAllFails(Reading(episode, []), elements, replaceGraves);
    AnyExists(Overflows, elements);
    if ReadAll(Reading(episode, []), elements, replaceGraves).Some? {
      ReadAllKeeps(Reading(episode, []), elements, replaceGraves);
      var titles := TitlesOf(elements);
      assert [] + titles == titles;
    }
  }

  /** The name is the Localized pick among the episode's main titles,
      graves optionally replaced; an empty pick keeps the name. */
  lemma ParseEpisodeName(episode: EpisodeState, elements: seq<EpisodeElement>, language: Option<string>,
                         replaceGraves: bool)
    requires ParseEpisode(episode, elements, language, replaceGraves).Some?
    ensures Localize(TitlesOf(elements), Localized, language).Some?
    ensures var t := Localize(TitlesOf(elements), Localized, language).value;
      && t in TitlesOf(elements)
      && ParseEpisode(episode, elements, language, replaceGraves).value.name
         == if |t.name| == 0 then episode.name else Some(Graves(t.name, replaceGraves))
  {
    ReadAllKeeps(Reading(episode, []), elements, replaceGraves);
    var titles := TitlesOf(elements);
    assert [] + titles == titles;
  }

  /** The run time comes from the last `<length>` that parses, as its
      minutes times 600,000,000 ticks. */
  lemma {:induction false} ReadAllRunTime(r: Reading, elements: seq<EpisodeElement>, replaceGraves: bool, k: nat)
    requires k < |elements| && SetsRunTime(elements[k])
    requires forall j :: k < j < |elements| ==> !SetsRunTime(elements[j])
    requires ReadAll(r, elements, replaceGraves).Some?
    ensures ReadAll(r, elements, replaceGraves).value.episode.runTimeTicks
      == Some(ParseLong(elements[k].content).value * TicksPerMinute)
    decreases |elements|
  {
    var n := |elements| - 1;
    var prior := ReadAll(r, elements[..n], replaceGraves);
    ReadElementRunTime(prior.value, elements[n], replaceGraves);
    if k < n {
      ReadAllRunTime(r, elements[..n], replaceGraves, k);
    }
  }

  /** Without a `<length>` that parses the run time is left as it was. */
  lemma {:induction false} ReadAllKeepsRunTime(r: Reading, elements: seq<EpisodeElement>, replaceGraves: bool)
    requires forall j :: 0 <= j < |elements| ==> !SetsRunTime(elements[j])
    requires ReadAll(r, elements, replaceGraves).Some?
    ensures ReadAll(r, elements, replaceGraves).value.episode.runTimeTicks == r.episode.runTimeTicks
    decreases |elements|
  {
    if |elements| > 0 {
      var n := |elements| - 1;
      ReadAllKeepsRunTime(r, elements[..n], replaceGraves);
      ReadElementRunTime(ReadAll(r, elements[..n], replaceGraves).value, elements[n], replaceGraves);
    }
  }

  /** The overview is the last `<summary>`, line feeds made "<br>" and
      graves optionally replaced, so it holds no line feed. */
  lemma {:induction false} ReadAllOverview(r: Reading, elements: seq<EpisodeElement>, replaceGraves: bool, k: nat)
    requires k < |elements| && elements[k].SummaryTag?
    requires forall j :: k < j < |elements| ==> !elements[j].SummaryTag?
    requires ReadAll(r, elements, replaceGraves).Some?
    ensures ReadAll(r, elements, replaceGraves).value.episode.overview
      == Some(Graves(ReplaceNewLine(elements[k].content), replaceGraves))
    ensures '\n' !in ReadAll(r, elements, replaceGraves).value.episode.overview.value
    decreases |elements|
  {
    var n := |elements| - 1;
    var prior := ReadAll(r, elements[..n], replaceGraves);
    ReadElementOverview(prior.value, elements[n], replaceGraves);
    if k < n {
      ReadAllOverview(r, elements[..n], replaceGraves, k);
    } else {
      var text := ReplaceNewLine(elements[k].content);
      ReplaceGravesPointwise(text);
    }
  }

  /** An episode that starts without an AniDB id ends with the id of the
      `<episode>` element that has one. */
  lemma {:induction false} ReadAllProviderId(r: Reading, elements: seq<EpisodeElement>, replaceGraves: bool, k: nat)
    requires ProviderName !in r.episode.providerIds
    requires k < |elements| && HasId(elements[k])
    requires ReadAll(r, elements, replaceGraves).Some?
    ensures ReadAll(r, elements, replaceGraves).value.episode.providerIds
      == r.episode.providerIds[ProviderName := elements[k].id.value]
    decreases |elements|
  {
    var n := |elements| - 1;
    var prior := ReadAll(r, elements[..n], replaceGraves).value;
    ReadElementIds(prior, elements[n], replaceGraves);
    if k < n {
      ReadAllProviderId(r, elements[..n], replaceGraves, k);
    } else {
      ReadAllWithoutId(r, elements[..n], replaceGraves);
    }
  }

  /** Without the id at the end, the loop has not touched ProviderIds. */
  lemma {:induction false} ReadAllWithoutId(r: Reading, elements: seq<EpisodeElement>, replaceGraves: bool)
    requires ReadAll(r, elements, replaceGraves).Some?
    requires ProviderName !in ReadAll(r, elements, replaceGraves).value.episode.providerIds
    ensures ReadAll(r, elements, replaceGraves).value.episode.providerIds == r.episode.providerIds
    decreases |elements|
  {
    if |elements| > 0 {
      var n := |elements| - 1;
      var prior := ReadAll(r, elements[..n], replaceGraves).value;
      ReadElementIds(prior, elements[n], replaceGraves);
      ReadAllWithoutId(r, elements[..n], replaceGraves);
    }
  }

  /** The Episode entity, whose properties ParseEpisodeXml assigns. */
  class Episode {
    var indexNumber: Option<int>
    var parentIndexNumber: Option<int>
    var providerIds: map<string, string>
    var runTimeTicks: Option<int>
    var overview: Option<string>
    var name: Option<string>

    function State(): EpisodeState
      reads this
    {
      EpisodeState(indexNumber, parentIndexNumber, providerIds, runTimeTicks, overview, name)
    }

    /** `new Episode { IndexNumber = .., ParentIndexNumber = .. }`. */
    constructor (indexNumber: Option<int>, parentIndexNumber: Option<int>)
      ensures State() == EpisodeState(indexNumber, parentIndexNumber, map[], None, None, None)
    {
      this.indexNumber := indexNumber;
      this.parentIndexNumber := parentIndexNumber;
      providerIds := map[];
      runTimeTicks, overview, name := None, None, None;
    }
  }

  /** One pass of the reader loop's switch; `ok` is false when it
      throws. */
  method ReadOne(e: EpisodeElement, episode: Episode, titles: seq<Title>, replaceGraves: bool)
    returns (ok: bool, titlesAfter: seq<Title>)
    modifies episode
    ensures ok <==> ReadElement(Reading(old(episode.State()), titles), e, replaceGraves).Some?
    ensures ok ==> Reading(episode.State(), titlesAfter) == ReadElement(Reading(old(episode.State()), titles), e, replaceGraves).value
  {
    titlesAfter := titles;
    ok := true;
    if e.EpisodeTag? {
      var episodeId := e.id;
      if episodeId.Some? && |episodeId.value| > 0 {
        if ProviderName in episode.providerIds {
          return false, titles;
        }
        episode.providerIds := episode.providerIds[ProviderName := episodeId.value];
      }
    } else if e.LengthTag? {
      var duration := ParseLong(e.content);
      if duration.Some? {
        var ticks := duration.value * TicksPerMinute;
        if !InLong(ticks) {
          return false, titles;
        }
        episode.runTimeTicks := Some(ticks);
      }
    } else if e.TitleTag? {
      titlesAfter := titles + [Title(e.language, Some("main"), e.name)];
    } else if e.SummaryTag? {
      episode.overview := Some(Graves(ReplaceNewLine(e.content), replaceGraves));
    }
  }

  /** ParseEpisodeXml over the elements of the file; `ok` is false when it
      throws, and the episode is then abandoned with the exception. */
  method ParseEpisodeXml(elements: seq<EpisodeElement>, episode: Episode, language: Option<string>, replaceGraves: bool)
    returns (ok: bool)
    modifies episode
    ensures ok <==> ParseEpisode(old(episode.State()), elements, language, replaceGraves).Some?
    ensures ok ==> episode.State() == ParseEpisode(old(episode.State()), elements, language, replaceGraves).value
  {
    ghost var start := Reading(episode.State(), []);
    var titles: seq<Title> := [];
    var i := 0;
    while i < |elements|
      invariant 0 <= i <= |elements|
      invariant ReadAll(start, elements[..i], replaceGraves) == Some(Reading(episode.State(), titles))
    {
      assert elements[..i + 1][..i] == elements[..i];
      var read;
      read, titles := ReadOne(elements[i], episode, titles, replaceGraves);
      if !read {
        ReadAllStops(start, elements, i + 1, replaceGraves);
        return false;
      }
      i := i + 1;
    }
    assert elements[..i] == elements;
    var title := Localize(titles, Localized, language);
    if title.None? {
      return false;
    }
    if |title.value.name| > 0 {
      episode.name := Some(Graves(title.value.name, replaceGraves));
    }
    return true;
  }

  // ---------------------------------------------------------------------
  // GetEpisodeXmlFile, GetMetadata and GetSearchResults

  /** "S" for season 0 (specials), "" otherwise; a null season is not 0. */
  function EpisodeType(parentIndexNumber: Option<int>): string {
    if parentIndexNumber == Some(0) then "S" else ""
  }

  /** GetEpisodeXmlFile: `episode-<type><n>.xml` in the series folder;
      None for a null episode number. */
  function GetEpisodeXmlFile(episodeNumber: Option<int>, kind: string, seriesDataPath: string): (r: Option<string>)
    ensures r.None? <==> episodeNumber.None?
  {
    if episodeNumber.None? then None
    else Some(Combine(seriesDataPath, EpisodeFileName(kind + IntToString(episodeNumber.value))))
  }

  /** Two episodes are read from the same file only when they have the same
      number and both or neither are specials. */
  lemma EpisodeFileInjective(folder: string, m: int, n: int, p: Option<int>, q: Option<int>)
    requires GetEpisodeXmlFile(Some(m), EpisodeType(p), folder) == GetEpisodeXmlFile(Some(n), EpisodeType(q), folder)
    ensures m == n && (p == Some(0) <==> q == Some(0))
  {
    var a := EpisodeType(p) + IntToString(m);
    var b := EpisodeType(q) + IntToString(n);
    EpisodePathInjective(folder, a, b);
    IntToStringFirst(m);
    IntToStringFirst(n);
    if p == Some(0) {
      assert a[0] == 'S';
      assert q == Some(0);
      assert IntToString(m) == a[1..] == b[1..] == IntToString(n);
    } else {
      assert a == IntToString(m);
      assert q != Some(0);
      assert b == IntToString(n);
    }
    IntToStringInjective(m, n);
  }

  /** The file an episode is read from is the one the series provider
      saved for the episode number `<type><n>`, holding the last fragment
      with that number. */
  lemma EpisodeFileIsSaved(folder: string, fragments: seq<Fragment>, files: map<string, string>, k: nat,
                           n: int, parentIndexNumber: Option<int>)
    requires k < |fragments|
    requires EpisodeNumber(fragments[k].children) == Some(EpisodeType(parentIndexNumber) + IntToString(n))
    requires forall j :: k < j < |fragments| ==>
      EpisodeNumber(fragments[j].children) != Some(EpisodeType(parentIndexNumber) + IntToString(n))
    ensures GetEpisodeXmlFile(Some(n), EpisodeType(parentIndexNumber), folder).Some?
    ensures GetEpisodeXmlFile(Some(n), EpisodeType(parentIndexNumber), folder).value in SaveEpisodes(folder, fragments, files)
    ensures SaveEpisodes(folder, fragments, files)[GetEpisodeXmlFile(Some(n), EpisodeType(parentIndexNumber), folder).value]
      == fragments[k].xml
  {
    SaveEpisodesLastWins(folder, fragments, files, k, EpisodeType(parentIndexNumber) + IntToString(n));
  }

  /** What GetMetadata reads of an EpisodeInfo. */
  datatype EpisodeInfo = EpisodeInfo(
    seriesProviderIds: map<string, string>,
    indexNumber: Option<int>,
    parentIndexNumber: Option<int>,
    metadataLanguage: Option<string>)

  /** MetadataResult<Episode>. */
  datatype EpisodeResult = EpisodeResult(hasMetadata: bool, item: Option<EpisodeState>)

  /** `new MetadataResult<Episode>()`. */
  const NoMetadata := EpisodeResult(false, None)

  predicate NullOrEmpty(s: Option<string>) {
    s.None? || |s.value| == 0
  }

  /** ProviderIds.GetOrDefault(ProviderNames.AniDb). */
  function AniDbId(ids: map<string, string>): Option<string> {
    if ProviderName in ids then Some(ids[ProviderName]) else None
  }

  /** The guards of GetMetadata all pass: a series id, a series folder for
      it, a season that is considered, an episode number and an existing
      file for it. */
  predicate Found(info: EpisodeInfo, ignoreSeason: bool, findSeriesFolder: string -> Option<string>,
                  existing: set<string>)
  {
    && !NullOrEmpty(AniDbId(info.seriesProviderIds))
    && !NullOrEmpty(findSeriesFolder(AniDbId(info.seriesProviderIds).value))
    && (ignoreSeason || info.parentIndexNumber.None? || info.parentIndexNumber.value <= 1)
    && info.indexNumber.Some?
    && Combine(findSeriesFolder(AniDbId(info.seriesProviderIds).value).value,
               EpisodeFileName(EpisodeType(info.parentIndexNumber) + IntToString(info.indexNumber.value))) in existing
  }

  /** The episode GetMetadata creates before parsing: the index copied and
      season 1 when the season is absent. */
  function NewItem(info: EpisodeInfo): EpisodeState {
    EpisodeState(info.indexNumber, Some(if info.parentIndexNumber.Some? then info.parentIndexNumber.value else 1),
                 map[], None, None, None)
  }

  /** GetMetadata. `findSeriesFolder` is FindSeriesFolder (the download and
      Path.GetDirectoryName), `existing` the files that exist and
      `contents` the elements of a file; None when it throws. */
  function GetMetadata(info: EpisodeInfo, ignoreSeason: bool, replaceGraves: bool,
                       findSeriesFolder: string -> Option<string>, existing: set<string>,
                       contents: string -> seq<EpisodeElement>): (r: Option<EpisodeResult>)
    ensures r == Some(NoMetadata) <==> !Found(info, ignoreSeason, findSeriesFolder, existing)
    ensures r.Some? && r.value.hasMetadata ==>
      && r.value.item.Some?
      && r.value.item.value.indexNumber == info.indexNumber
      && r.value.item.value.parentIndexNumber
         == Some(if info.parentIndexNumber.Some? then info.parentIndexNumber.value else 1)
  {
    var animeId := AniDbId(info.seriesProviderIds);
    if NullOrEmpty(animeId) then Some(NoMetadata)
    else
      var seriesFolder := findSeriesFolder(animeId.value);
      if NullOrEmpty(seriesFolder) then Some(NoMetadata)
      else if !ignoreSeason && info.parentIndexNumber.Some? && info.parentIndexNumber.value > 1 then Some(NoMetadata)
      else
        var xml := GetEpisodeXmlFile(info.indexNumber, EpisodeType(info.parentIndexNumber), seriesFolder.value);
        if xml.None? || xml.value !in existing then Some(NoMetadata)
        else
          var item := NewItem(info);
          match ParseEpisode(item, contents(xml.value), info.metadataLanguage, replaceGraves)
          case None => None
          case Some(episode) =>
            Some(EpisodeResult(true, Some(episode)))
  }

  /** When the file is found, GetMetadata throws exactly when its parse
      does: a run time out of range, two episode ids, or no title. */
  lemma GetMetadataThrows(info: EpisodeInfo, ignoreSeason: bool, replaceGraves: bool,
                          findSeriesFolder: string -> Option<string>, existing: set<string>,
                          contents: string -> seq<EpisodeElement>)
    requires Found(info, ignoreSeason, findSeriesFolder, existing)
    ensures var elements := contents(GetEpisodeXmlFile(info.indexNumber, EpisodeType(info.parentIndexNumber),
                                                       findSeriesFolder(AniDbId(info.seriesProviderIds).value).value).value);
      GetMetadata(info, ignoreSeason, replaceGraves, findSeriesFolder, existing, contents).None? <==>
        (exists k :: 0 <= k < |elements| && Overflows(elements[k]))
        || IdCount(elements) >= 2
        || (forall k :: 0 <= k < |elements| ==> !elements[k].TitleTag?)
  {
    var path := GetEpisodeXmlFile(info.indexNumber, EpisodeType(info.parentIndexNumber),
                                  findSeriesFolder(AniDbId(info.seriesProviderIds).value).value).value;
    ParseEpisodeThrows(NewItem(info), contents(path), info.metadataLanguage, replaceGraves);
  }

  /** Without a series id, with a later season while seasons are not
      ignored, or without an episode number, there is no metadata. */
  lemma GetMetadataGuards(info: EpisodeInfo, ignoreSeason: bool, replaceGraves: bool,
                          findSeriesFolder: string -> Option<string>, existing: set<string>,
                          contents: string -> seq<EpisodeElement>)
    requires || NullOrEmpty(AniDbId(info.seriesProviderIds))
             || (!ignoreSeason && info.parentIndexNumber.Some? && info.parentIndexNumber.value > 1)
             || info.indexNumber.None?
    ensures GetMetadata(info, ignoreSeason, replaceGraves, findSeriesFolder, existing, contents) == Some(NoMetadata)
  {
  }

  /** A search result's fields. */
  datatype SearchResult = SearchResult(
    indexNumber: Option<int>,
    name: Option<string>,
    parentIndexNumber: Option<int>,
    providerIds: map<string, string>,
    searchProviderName: string)

  /** GetSearchResults: nothing without an episode number or metadata,
      otherwise one result mirroring the episode; None when GetMetadata
      throws. */
  function GetSearchResults(info: EpisodeInfo, ignoreSeason: bool, replaceGraves: bool,
                            findSeriesFolder: string -> Option<string>, existing: set<string>,
                            contents: string -> seq<EpisodeElement>): (r: Option<seq<SearchResult>>)
    ensures info.indexNumber.None? ==> r == Some([])
    ensures r.Some? ==> |r.value| <= 1
    ensures r.Some? && |r.value| == 1 <==>
      && Found(info, ignoreSeason, findSeriesFolder, existing)
      && GetMetadata(info, ignoreSeason, replaceGraves, findSeriesFolder, existing, contents).Some?
    ensures r.Some? && |r.value| == 1 ==>
      var item := GetMetadata(info, ignoreSeason, replaceGraves, findSeriesFolder, existing, contents).value.item.value;
      && r.value[0].indexNumber == info.indexNumber
      && r.value[0].name == item.name
      && r.value[0].parentIndexNumber == item.parentIndexNumber
      && r.value[0].providerIds == item.providerIds
      && r.value[0].searchProviderName == ProviderName
  {
    if info.indexNumber.None? then Some([])
    else match GetMetadata(info, ignoreSeason, replaceGraves, findSeriesFolder, existing, contents)
      case None => None
      case Some(result) =>
        if !result.hasMetadata then Some([])
        else
          var item := result.item.value;
          Some([SearchResult(item.indexNumber, item.name, item.parentIndexNumber, item.providerIds, ProviderName)])
  }
}
