# AniDB metadata plugin for Jellyfin: a verified model of its decision logic

This project models the deterministic core of the Jellyfin AniDB plugin. The
plugin resolves anime series, seasons and episodes against the AniDB catalogue.
It caches each series' XML record on disk, splits out episode and person files,
and builds the metadata items that Jellyfin shows. Every file read, XML
reader, HTTP call and clock reading is replaced by an explicit input:

- pre-tokenised element records stand in for the XML readers;
- a set of existing paths stands in for file existence;
- a map of path to content stands in for the cache directory;
- an integer age in ticks stands in for the file's last-write time.

Modules (one per file):

- `Wrappers`: `Option`.
- `Text`: the .NET string and path operations the plugin calls: `Replace`
  (ordinal and ordinal-ignore-case), `Split`, `Join`, `Trim`,
  `ToLowerInvariant`, `Path.Combine`, and int-to-string.
- `Configuration`: `TitlePreferenceType` and the `PluginConfiguration`
  defaults.
- `ExternalUrls`: the anidb.net links for an item.
- `EqualsCheck`: `ShortenString`, `FuzzyRegexEscape` and the selection loop of
  `XmlFindId`.
- `Levenshtein`: the matrix fill of `LevenshteinDistance`, proved equal to the
  recursive edit distance.
- `Titles`: `TitleExtensions.Localize`.
- `SeriesText`: `ReplaceNewLine`, the description pipeline and the `&#x0;`
  sanitiser.
- `SeriesGenres`: `ParseTags`, which filters tags and orders them stably by
  weight.
- `SeriesPeople`: `ReverseNameOrder`, `CreatePerson`, `ParseCreators`,
  `ParseActor`, `ParseCharacterList` and `ParseCreatorsList`.
- `SeriesCache`:
  - the staleness rule of `GetSeriesData`;
  - the cache path layout;
  - the person-file write rule of `ExtractCast`;
  - `ParseEpisodeNumber`, `SaveEpsiodeXml` and `ExtractEpisodes`.
- `SeriesInfo`: the element loop of `FetchSeriesInfo` over a `SeriesResult`
  object.
- `EpisodeProvider`:
  - `long.TryParse`;
  - the `ParseEpisodeXml` loop over an `Episode` object;
  - `GetEpisodeXmlFile`, the `GetMetadata` guard chain and `GetSearchResults`.
- `SeasonProvider`: season id inheritance and the constant results.

A .NET exception becomes `None`. This covers:

- a `null` title from `Localize` being dereferenced;
- `name[0]` on an empty name;
- `Substring` out of range;
- `Dictionary.Add` of a duplicate key;
- `TryGetValue(null)`.

Behaviour worth noting, as the code has it:

- Genres are ordered by **ascending** weight (`OrderBy` at
  AniDbSeriesProvider.cs:381).
- The cache age limit is a hard-coded 7 days (AniDbSeriesProvider.cs:165).
  The `MaxCacheAge` setting is never read.
- `Localize` returns `null` for an empty title list. Its callers dereference
  it, so a series `<titles>` element without titles throws, and so does an
  episode file without any `<title>`.
- `JapaneseRomaji` has no branch of its own in `Localize`. It always takes
  the romaji fallback.
- The "Gekijyouban" and "to aru" rules of `FuzzyRegexEscape` can never change
  the pattern. The earlier rules have already removed every white-space
  character and every "ek" that is not inside an alternation "(c|k)".
- The `&#x0;` sanitiser makes a single left-to-right pass, so its output can
  still contain `&#x0;`.

## Model

| member | source | states |
|---|---|---|
| Configuration.TitlePreferenceValues | Jellyfin.Plugin.AniDB/Configuration/PluginConfiguration.cs:5-21 | the title preference has exactly the three distinct values Localized, Japanese and JapaneseRomaji |
| Configuration.PluginConfiguration.constructor | Jellyfin.Plugin.AniDB/Configuration/PluginConfiguration.cs:30-43 | a new configuration holds all eleven defaults: Localized and JapaneseRomaji titles, seasons not ignored, threshold 50, 5 genres, tidy on, title case off, genre Anime, rate limit 2000, cache age 7, graves replaced |
| ExternalUrls.ProviderId | Jellyfin.Plugin.AniDB/Providers/AniDB/AniDbExternalUrlProvider.cs:21 | an id is found iff the item stores a non-empty AniDB id, and it is that id |
| ExternalUrls.GetExternalUrls | Jellyfin.Plugin.AniDB/Providers/AniDB/AniDbExternalUrlProvider.cs:19-34 | at most one URL, and none iff the item has no AniDB id or is not a series, movie or episode |
| ExternalUrls.UrlRoundTrip | Jellyfin.Plugin.AniDB/Providers/AniDB/AniDbExternalUrlProvider.cs:25-31 | every URL parses back to the item's id: an episode page for episodes, an anime page for series and movies |
| ExternalUrls.UrlsDistinguishIds | Jellyfin.Plugin.AniDB/Providers/AniDB/AniDbExternalUrlProvider.cs:25-31 | two items of the same kind with the same non-empty URL list have the same AniDB id |
| EqualsCheck.TruncDiv | Jellyfin.Plugin.AniDB/Providers/equals_check.cs:35 | the (int) cast truncates toward zero: floor division for non-negative values, negated floor of the negation otherwise |
| EqualsCheck.ShortenString | Jellyfin.Plugin.AniDB/Providers/equals_check.cs:28-43 | the result, when Substring does not throw, is a prefix of the input, and is shorter than minLength only when it is the whole input |
| EqualsCheck.ShortShortenString | Jellyfin.Plugin.AniDB/Providers/equals_check.cs:30-33 | an input no longer than the minimum comes back unchanged |
| EqualsCheck.ShortenStringPrefix | Jellyfin.Plugin.AniDB/Providers/equals_check.cs:35-42 | for 0 ≤ p ≤ 100 and a longer input, the result is a prefix of length max(minLength, ⌊len·(100−p)/100⌋), between minLength and len |
| EqualsCheck.SearchKeyLength | Jellyfin.Plugin.AniDB/Providers/equals_check.cs:127 | the search key shortened with (6, 20) is a prefix of the name, of length len when len ≤ 6, else max(6, ⌊len·80/100⌋) |
| EqualsCheck.ShortenStringThrows | Jellyfin.Plugin.AniDB/Providers/equals_check.cs:35-42 | a percentage outside [0, 100] can make Substring throw (negative length, or longer than the input) |
| EqualsCheck.FuzzyRegexEscape | Jellyfin.Plugin.AniDB/Providers/equals_check.cs:50-89 | the fuzzy pattern built from an escaped title holds no white space |
| EqualsCheck.WhiteSpaceFuzzyHasNone | Jellyfin.Plugin.AniDB/Providers/equals_check.cs:70-71 | after the two white-space steps the pattern holds no white space |
| EqualsCheck.SymbolFuzzyKeepsNone | Jellyfin.Plugin.AniDB/Providers/equals_check.cs:74 | the symbol rule adds no white space |
| EqualsCheck.PluralFuzzyKeepsNone | Jellyfin.Plugin.AniDB/Providers/equals_check.cs:77 | the trailing-s rule adds no white space |
| EqualsCheck.SpellingFuzzyKeepsNone | Jellyfin.Plugin.AniDB/Providers/equals_check.cs:78-84 | the c/k, &/and, OVA/OAD and "re" rules add no white space |
| EqualsCheck.FuzzyHasNoWhiteSpace | Jellyfin.Plugin.AniDB/Providers/equals_check.cs:70-84 | from the white-space rules through the spelling rules, the pattern holds no white space |
| EqualsCheck.KRuleLeavesBars | Jellyfin.Plugin.AniDB/Providers/equals_check.cs:79 | after the case-insensitive "k" rule, every 'k' or 'K' follows a '\|' |
| EqualsCheck.SpellingLeavesNoGekijyouban | Jellyfin.Plugin.AniDB/Providers/equals_check.cs:78-85 | no "Gekijyouban", in any letter case, survives the spelling rules |
| EqualsCheck.QuirkRulesNeverFire | Jellyfin.Plugin.AniDB/Providers/equals_check.cs:85-86 | the Gekijyouban and "to aru" rules leave the pattern unchanged |
| EqualsCheck.QuirkRulesOnSpelling | Jellyfin.Plugin.AniDB/Providers/equals_check.cs:85-86 | on the output of the spelling rules applied to text without white space, the Gekijyouban and "to aru" rules change nothing |
| EqualsCheck.CKRules | Jellyfin.Plugin.AniDB/Providers/equals_check.cs:78-79 | the c rule then the k rule turn each 'c' into "(c\|(c\|k))" and each 'k' into "(c\|k)", in either case |
| EqualsCheck.XmlFindId | Jellyfin.Plugin.AniDB/Providers/equals_check.cs:152-186 | a single hit is returned without a distance check. Otherwise the result is "" when no title is strictly below the threshold, else the id of the first title at the minimum distance |
| EqualsCheck.WinnerUnique | Jellyfin.Plugin.AniDB/Providers/equals_check.cs:171-183 | at most one title is the first at the minimum distance |
| EqualsCheck.WinnerExcludesNone | Jellyfin.Plugin.AniDB/Providers/equals_check.cs:178 | a winner rules out the case where no title is below the threshold |
| Levenshtein.Distance | Jellyfin.Plugin.AniDB/Providers/equals_check.cs:189-219 | the edit distance lies between the difference of the two lengths and the longer length |
| Levenshtein.DistPrefix | Jellyfin.Plugin.AniDB/Providers/equals_check.cs:206-215 | the matrix recurrence at (i, j) equals the edit distance of the i- and j-prefixes |
| Levenshtein.FillRow | Jellyfin.Plugin.AniDB/Providers/equals_check.cs:210-216 | one pass of the inner loop fills row i with the prefix distances |
| Levenshtein.LevenshteinDistance | Jellyfin.Plugin.AniDB/Providers/equals_check.cs:193-219 | the matrix fill returns the unit-cost insert/delete/substitute edit distance |
| Levenshtein.DistanceFromEmpty | Jellyfin.Plugin.AniDB/Providers/equals_check.cs:198-202 | the distance from or to the empty string is the other string's length |
| Levenshtein.KittenSitting | Jellyfin.Plugin.AniDB/Providers/equals_check.cs:189-219 | "kitten" to "sitting" is distance 3 |
| Levenshtein.DistanceToSelf | Jellyfin.Plugin.AniDB/Providers/equals_check.cs:189-192 | d(x, x) = 0 |
| Levenshtein.DistanceZero | Jellyfin.Plugin.AniDB/Providers/equals_check.cs:189-192 | d(a, b) = 0 only when a = b |
| Levenshtein.DistanceSymmetric | Jellyfin.Plugin.AniDB/Providers/equals_check.cs:189-192 | d(a, b) = d(b, a) |
| Titles.FirstIndex | Jellyfin.Plugin.AniDB/Providers/AniDB/Metadata/AniDbSeriesProvider.cs:902 | FirstOrDefault with a filter: the first matching position, and none iff nothing matches |
| Titles.FirstOf | Jellyfin.Plugin.AniDB/Providers/AniDB/Metadata/AniDbSeriesProvider.cs:902-904 | the chain of FirstOrDefault calls: a list member, and none iff no filter matches any title |
| Titles.Localize | Jellyfin.Plugin.AniDB/Providers/AniDB/Metadata/AniDbSeriesProvider.cs:895-929 | the result is a member of the list, and is absent (null) iff the list is empty |
| Titles.LocalizedPicksMain | Jellyfin.Plugin.AniDB/Providers/AniDB/Metadata/AniDbSeriesProvider.cs:899-910 | Localized picks the first "main" title in the metadata language |
| Titles.LocalizedPicksOfficial | Jellyfin.Plugin.AniDB/Providers/AniDB/Metadata/AniDbSeriesProvider.cs:899-910 | with no such main title, it picks the first "official" one |
| Titles.LocalizedPicksSynonym | Jellyfin.Plugin.AniDB/Providers/AniDB/Metadata/AniDbSeriesProvider.cs:899-910 | with neither, it picks the first "synonym" |
| Titles.LocalizedFallsBack | Jellyfin.Plugin.AniDB/Providers/AniDB/Metadata/AniDbSeriesProvider.cs:907-928 | with none of the three, Localized gives the same result as JapaneseRomaji |
| Titles.JapaneseIsLocalizedJa | Jellyfin.Plugin.AniDB/Providers/AniDB/Metadata/AniDbSeriesProvider.cs:912-923 | Japanese behaves as Localized with language "ja" |
| Titles.RomajiIgnoresLanguage | Jellyfin.Plugin.AniDB/Providers/AniDB/Metadata/AniDbSeriesProvider.cs:925-928 | JapaneseRomaji has no branch of its own: it is the fallback, whatever the language |
| Titles.Fallback | Jellyfin.Plugin.AniDB/Providers/AniDB/Metadata/AniDbSeriesProvider.cs:926-928 | the fallback is a list member, and absent iff the list is empty |
| Titles.FallbackPicksRomaji | Jellyfin.Plugin.AniDB/Providers/AniDB/Metadata/AniDbSeriesProvider.cs:926 | the fallback picks the first x-jat main title |
| Titles.FallbackPicksMain | Jellyfin.Plugin.AniDB/Providers/AniDB/Metadata/AniDbSeriesProvider.cs:927 | without an x-jat main title, it picks the first main title of any language |
| Titles.FallbackPicksFirst | Jellyfin.Plugin.AniDB/Providers/AniDB/Metadata/AniDbSeriesProvider.cs:928 | without any main title, it picks the first title |
| SeriesText.ReplaceNewLine | Jellyfin.Plugin.AniDB/Providers/AniDB/Metadata/AniDbSeriesProvider.cs:413-416 | ReplaceNewLine leaves no '\n' |
| SeriesText.ReplaceNewLineIdentity | Jellyfin.Plugin.AniDB/Providers/AniDB/Metadata/AniDbSeriesProvider.cs:413-416 | ReplaceNewLine is the identity on text without '\n' |
| SeriesText.ReplaceNewLineSplits | Jellyfin.Plugin.AniDB/Providers/AniDB/Metadata/AniDbSeriesProvider.cs:413-416 | each '\n' becomes "<br>" and the surrounding text is processed independently |
| SeriesText.ReplaceGravesPointwise | Jellyfin.Plugin.AniDB/Providers/AniDB/Metadata/AniDbSeriesProvider.cs:257 | Replace('`', '\'') keeps the length and changes exactly the grave accents |
| SeriesText.Description | Jellyfin.Plugin.AniDB/Providers/AniDB/Metadata/AniDbSeriesProvider.cs:253-259 | the description pipeline never yields a '\n' |
| SeriesText.DescriptionHasNoGraves | Jellyfin.Plugin.AniDB/Providers/AniDB/Metadata/AniDbSeriesProvider.cs:253-259 | with graves replaced, and a link stripper that adds no characters, the overview holds no grave accent |
| SeriesText.DescriptionOfPlainText | Jellyfin.Plugin.AniDB/Providers/AniDB/Metadata/AniDbSeriesProvider.cs:253-259 | for text not starting with '*' and without '\n', with graves kept and no links, the overview is just the trimmed text |
| SeriesText.Sanitise | Jellyfin.Plugin.AniDB/Providers/AniDB/Metadata/AniDbSeriesProvider.cs:578 | the sanitiser never lengthens the text |
| SeriesText.SanitiseWithoutAmpersand | Jellyfin.Plugin.AniDB/Providers/AniDB/Metadata/AniDbSeriesProvider.cs:578 | text without '&' is left unchanged |
| SeriesText.SanitiseSinglePass | Jellyfin.Plugin.AniDB/Providers/AniDB/Metadata/AniDbSeriesProvider.cs:578 | a single pass: "&#x&#x0;0;" becomes "&#x0;", which a second pass would delete |
| SeriesGenres.CollectGenres | Jellyfin.Plugin.AniDB/Providers/AniDB/Metadata/AniDbSeriesProvider.cs:349-379 | no collected genre weighs less than 400 |
| SeriesGenres.TagGenres | Jellyfin.Plugin.AniDB/Providers/AniDB/Metadata/AniDbSeriesProvider.cs:366-372 | each name of an accepted tag becomes one genre carrying the tag's weight |
| SeriesGenres.CollectedFromTag | Jellyfin.Plugin.AniDB/Providers/AniDB/Metadata/AniDbSeriesProvider.cs:349-379 | every collected genre is a name of a tag with weight ≥ 400 whose id and parent id are not ignored |
| SeriesGenres.TagCollected | Jellyfin.Plugin.AniDB/Providers/AniDB/Metadata/AniDbSeriesProvider.cs:349-379 | conversely, every name of such a tag is collected |
| SeriesGenres.RejectedTags | Jellyfin.Plugin.AniDB/Providers/AniDB/Metadata/AniDbSeriesProvider.cs:355-364 | an ignored id, an ignored parent id, a weight below 400 and a missing weight each drop the tag |
| SeriesGenres.OrderByWeight | Jellyfin.Plugin.AniDB/Providers/AniDB/Metadata/AniDbSeriesProvider.cs:381 | OrderBy keeps the number of genres |
| SeriesGenres.OrderByWeightFacts | Jellyfin.Plugin.AniDB/Providers/AniDB/Metadata/AniDbSeriesProvider.cs:381 | OrderBy is sorted by non-decreasing weight, is a permutation, and keeps the input order within each weight (stable) |
| SeriesGenres.ParseTags | Jellyfin.Plugin.AniDB/Providers/AniDB/Metadata/AniDbSeriesProvider.cs:343-382 | the genre loop and OrderBy give the names of the collected genres in stable weight order |
| SeriesGenres.OrderTwo | Jellyfin.Plugin.AniDB/Providers/AniDB/Metadata/AniDbSeriesProvider.cs:381 | of two genres, the lighter comes first |
| SeriesGenres.AscendingExample | Jellyfin.Plugin.AniDB/Providers/AniDB/Metadata/AniDbSeriesProvider.cs:343-382 | a 600-weight tag read before a 400-weight tag ends up after it |
| SeriesPeople.AggregateJoin | Jellyfin.Plugin.AniDB/Providers/AniDB/Metadata/AniDbSeriesProvider.cs:552 | the Aggregate fold is a leading space plus the space-joined parts |
| SeriesPeople.ReverseNameOrder | Jellyfin.Plugin.AniDB/Providers/AniDB/Metadata/AniDbSeriesProvider.cs:550-553 | the result neither starts nor ends with white space, whatever the name |
| SeriesPeople.ReverseNameOrderReverses | Jellyfin.Plugin.AniDB/Providers/AniDB/Metadata/AniDbSeriesProvider.cs:550-553 | for non-empty words without white space, ReverseNameOrder reverses the word order |
| SeriesPeople.ReverseNameOrderInvolution | Jellyfin.Plugin.AniDB/Providers/AniDB/Metadata/AniDbSeriesProvider.cs:550-553 | on such names, applying it twice gives the name back |
| SeriesPeople.ReverseNameOrderOneWord | Jellyfin.Plugin.AniDB/Providers/AniDB/Metadata/AniDbSeriesProvider.cs:550-553 | a one-word name is unchanged |
| SeriesPeople.CreatePerson | Jellyfin.Plugin.AniDB/Providers/AniDB/Metadata/AniDbSeriesProvider.cs:533-548 | a person is made iff the creator has a type (TryGetValue(null) throws); its type is never the AniDB name "Direction", "Music" or "Chief Animation Direction", which are mapped |
| SeriesPeople.CreatePersonKind | Jellyfin.Plugin.AniDB/Providers/AniDB/Metadata/AniDbSeriesProvider.cs:533-548 | the name is reversed and the role kept. Direction and Chief Animation Direction map to Director, Music maps to Composer, and every other type is kept |
| SeriesPeople.AddCreatorFails | Jellyfin.Plugin.AniDB/Providers/AniDB/Metadata/AniDbSeriesProvider.cs:517-537 | one creator throws iff it has no type attribute |
| SeriesPeople.CreatorCredits | Jellyfin.Plugin.AniDB/Providers/AniDB/Metadata/AniDbSeriesProvider.cs:511-531 | when no creator throws, each creator becomes exactly one studio or one person |
| SeriesPeople.ParseCreators | Jellyfin.Plugin.AniDB/Providers/AniDB/Metadata/AniDbSeriesProvider.cs:511-531 | the loop computes the creator credits, or the throw |
| SeriesPeople.CreatorCreditsFail | Jellyfin.Plugin.AniDB/Providers/AniDB/Metadata/AniDbSeriesProvider.cs:511-537 | ParseCreators throws iff some creator has no type |
| SeriesPeople.CreatorCreditsSplit | Jellyfin.Plugin.AniDB/Providers/AniDB/Metadata/AniDbSeriesProvider.cs:520-528 | the studios are the "Animation Work" names in order, and every other creator becomes, in order, the person CreatePerson makes of its grave-replaced name |
| SeriesPeople.ActorOfFacts | Jellyfin.Plugin.AniDB/Providers/AniDB/Metadata/AniDbSeriesProvider.cs:437-460 | an actor is added iff the last seiyuu and the last name are both non-empty: the reversed seiyuu as an Actor, with the character name as role |
| SeriesPeople.ParseActor | Jellyfin.Plugin.AniDB/Providers/AniDB/Metadata/AniDbSeriesProvider.cs:435-461 | the loop overwriting name and role computes that actor |
| SeriesPeople.ParseCharacterList | Jellyfin.Plugin.AniDB/Providers/AniDB/Metadata/AniDbSeriesProvider.cs:728-764 | the loop gives one entry per character with a seiyuu, in order |
| SeriesPeople.CharacterEntriesLength | Jellyfin.Plugin.AniDB/Providers/AniDB/Metadata/AniDbSeriesProvider.cs:736-759 | at most one entry per character, and exactly one each when every character has a seiyuu |
| SeriesPeople.SeiyuuEntryImage | Jellyfin.Plugin.AniDB/Providers/AniDB/Metadata/AniDbSeriesProvider.cs:746-750 | an image, when present, is the AniDB image CDN prefix followed by a non-empty picture name |
| SeriesPeople.CharacterEntriesImages | Jellyfin.Plugin.AniDB/Providers/AniDB/Metadata/AniDbSeriesProvider.cs:746-750 | every image in the character list is a CDN URL |
| SeriesPeople.ParseCreatorsList | Jellyfin.Plugin.AniDB/Providers/AniDB/Metadata/AniDbSeriesProvider.cs:766-798 | the loop computes the creator entries |
| SeriesPeople.CreatorEntriesMatchOthers | Jellyfin.Plugin.AniDB/Providers/AniDB/Metadata/AniDbSeriesProvider.cs:774-793 | cast extraction skips exactly the creators that ParseCreators turns into studios |
| SeriesCache.GetSeriesData | Jellyfin.Plugin.AniDB/Providers/AniDB/Metadata/AniDbSeriesProvider.cs:158-171 | the file is downloaded iff it is absent or older than 6,048,000,000,000 ticks (7 days) |
| SeriesCache.SeriesDataFreshness | Jellyfin.Plugin.AniDB/Providers/AniDB/Metadata/AniDbSeriesProvider.cs:158-171 | a download happens iff the file is absent or strictly older than 7 days (6,048,000,000,000 ticks); the same path is returned either way |
| SeriesCache.SeriesDataStaysStale | Jellyfin.Plugin.AniDB/Providers/AniDB/Metadata/AniDbSeriesProvider.cs:165 | a file due for download stays due as it ages |
| SeriesCache.SeriesDataPath | Jellyfin.Plugin.AniDB/Providers/AniDB/Metadata/AniDbSeriesProvider.cs:874-877 | for an id that is a plain path segment, under any cache path, the series directory is what Path.Combine puts before a relative part, then anidb/series/<id> |
| SeriesCache.SeriesDataLayout | Jellyfin.Plugin.AniDB/Providers/AniDB/Metadata/AniDbSeriesProvider.cs:874-877 | under any cache path, absolute or relative, the record lives at what Path.Combine puts before a relative part, then anidb/series/<id>/series.xml |
| SeriesCache.SeriesDataUnderVarCache | Jellyfin.Plugin.AniDB/Providers/AniDB/Metadata/AniDbSeriesProvider.cs:874-877 | under /var/cache/jellyfin, series 42 is /var/cache/jellyfin/anidb/series/42/series.xml |
| SeriesCache.PeopleFileLayout | Jellyfin.Plugin.AniDB/Providers/AniDB/Metadata/AniDbSeriesProvider.cs:722-726 | under any cache path, the person file is what Path.Combine puts before a relative part, then anidb-people/<first letter>/<lower-cased name>.xml |
| SeriesCache.CastPath | Jellyfin.Plugin.AniDB/Providers/AniDB/Metadata/AniDbSeriesProvider.cs:722-726 | GetCastPath throws iff the name is empty |
| SeriesCache.CastPathShape | Jellyfin.Plugin.AniDB/Providers/AniDB/Metadata/AniDbSeriesProvider.cs:722-726 | under any cache path, a name not starting with '/' is filed under what Path.Combine puts before a relative part, then anidb-people/<lower-cased first letter>/<lower-cased name>.xml |
| SeriesCache.CastPathInjective | Jellyfin.Plugin.AniDB/Providers/AniDB/Metadata/AniDbSeriesProvider.cs:722-726 | for any cache path and non-empty names that do not start with '/', two names share a file iff they agree after lower-casing |
| SeriesCache.WriteEntry | Jellyfin.Plugin.AniDB/Providers/AniDB/Metadata/AniDbSeriesProvider.cs:682-694 | the file of a named person is written exactly when it does not exist or the person has an image, and its open does not fail; otherwise the files are unchanged; an empty name throws |
| SeriesCache.WriteCast | Jellyfin.Plugin.AniDB/Providers/AniDB/Metadata/AniDbSeriesProvider.cs:676-696 | no existing person file is removed by the write loop |
| SeriesCache.WriteCastStops | Jellyfin.Plugin.AniDB/Providers/AniDB/Metadata/AniDbSeriesProvider.cs:676-696 | once a person throws, the rest of the cast is not written |
| SeriesCache.WriteCastCompletes | Jellyfin.Plugin.AniDB/Providers/AniDB/Metadata/AniDbSeriesProvider.cs:676-696 | the write loop completes iff no cast member has an empty name |
| SeriesCache.WriteCastKeepsWithoutImage | Jellyfin.Plugin.AniDB/Providers/AniDB/Metadata/AniDbSeriesProvider.cs:682 | an existing file is left as it was when no one written to it has an image |
| SeriesCache.WriteCastImageWins | Jellyfin.Plugin.AniDB/Providers/AniDB/Metadata/AniDbSeriesProvider.cs:682 | after a complete run, a person with an image holds their file, existing or not, unless its open fails or a later person with an image writes it |
| SeriesCache.WriteCastWritesCast | Jellyfin.Plugin.AniDB/Providers/AniDB/Metadata/AniDbSeriesProvider.cs:682-694 | a new or changed file holds a cast member mapped to it, and its write did not fail |
| SeriesCache.WriteCastCreates | Jellyfin.Plugin.AniDB/Providers/AniDB/Metadata/AniDbSeriesProvider.cs:682-694 | after a complete run, every cast member's file exists unless opening it failed |
| SeriesCache.WriteCastIdempotent | Jellyfin.Plugin.AniDB/Providers/AniDB/Metadata/AniDbSeriesProvider.cs:676-696 | running the write loop again over the person files it left changes nothing, whether it completed or stopped at an empty name |
| SeriesCache.CollectCast | Jellyfin.Plugin.AniDB/Providers/AniDB/Metadata/AniDbSeriesProvider.cs:648-671 | the reader loop concatenates the character and creator lists in document order |
| SeriesCache.ExtractCast | Jellyfin.Plugin.AniDB/Providers/AniDB/Metadata/AniDbSeriesProvider.cs:637-697 | the write loop produces the file state of the write rule |
| SeriesCache.EpisodeNumber | Jellyfin.Plugin.AniDB/Providers/AniDB/Metadata/AniDbSeriesProvider.cs:844-865 | the result is the content of an epno that is not white space, and absent iff every epno is white space |
| SeriesCache.EpisodeNumberFirst | Jellyfin.Plugin.AniDB/Providers/AniDB/Metadata/AniDbSeriesProvider.cs:848-854 | it is the first such epno |
| SeriesCache.ParseEpisodeNumber | Jellyfin.Plugin.AniDB/Providers/AniDB/Metadata/AniDbSeriesProvider.cs:825-866 | the reader loop computes that number |
| SeriesCache.EpisodePathInjective | Jellyfin.Plugin.AniDB/Providers/AniDB/Metadata/AniDbSeriesProvider.cs:820 | different episode numbers give different files |
| SeriesCache.SaveEpisodeXml | Jellyfin.Plugin.AniDB/Providers/AniDB/Metadata/AniDbSeriesProvider.cs:814-823 | without an episode number the files are unchanged; otherwise episode-<epno>.xml in the directory holds the fragment and no other file changes |
| SeriesCache.SaveEpisodes | Jellyfin.Plugin.AniDB/Providers/AniDB/Metadata/AniDbSeriesProvider.cs:603-635 | saving the episode fragments never removes a file |
| SeriesCache.ExtractEpisodes | Jellyfin.Plugin.AniDB/Providers/AniDB/Metadata/AniDbSeriesProvider.cs:603-635 | the loop saves each numbered fragment in turn |
| SeriesCache.SaveEpisodesLastWins | Jellyfin.Plugin.AniDB/Providers/AniDB/Metadata/AniDbSeriesProvider.cs:814-823 | episode-<n>.xml holds the last fragment numbered n |
| SeriesCache.SaveEpisodesKeeps | Jellyfin.Plugin.AniDB/Providers/AniDB/Metadata/AniDbSeriesProvider.cs:818-822 | a fragment without a number is dropped, and no other file changes |
| SeriesCache.SaveEpisodesOverlay | Jellyfin.Plugin.AniDB/Providers/AniDB/Metadata/AniDbSeriesProvider.cs:603-635 | saving over existing files overlays the files the fragments produce on their own |
| SeriesCache.SaveEpisodesIdempotent | Jellyfin.Plugin.AniDB/Providers/AniDB/Metadata/AniDbSeriesProvider.cs:603-635 | extracting the episodes of an unchanged record again leaves the files as they were |
| SeriesInfo.ParseTitle | Jellyfin.Plugin.AniDB/Providers/AniDB/Metadata/AniDbSeriesProvider.cs:484-509 | the title and original title are names from the list, and the call throws iff the list is empty |
| SeriesInfo.ApplyElement | Jellyfin.Plugin.AniDB/Providers/AniDB/Metadata/AniDbSeriesProvider.cs:225-291 | only a `<titles>` or a `<creators>` can throw; only a `<titles>` changes the name and original title; studios and people are only appended to |
| SeriesInfo.ApplyElementThrows | Jellyfin.Plugin.AniDB/Providers/AniDB/Metadata/AniDbSeriesProvider.cs:225-291 | one element throws iff it is an empty `<titles>` or a `<creators>` with an untyped name |
| SeriesInfo.FetchSeries | Jellyfin.Plugin.AniDB/Providers/AniDB/Metadata/AniDbSeriesProvider.cs:173-306 | the studios and people already on the series stay, in front of the ones the loop adds |
| SeriesInfo.FetchSeriesThrows | Jellyfin.Plugin.AniDB/Providers/AniDB/Metadata/AniDbSeriesProvider.cs:173-306 | the element loop throws iff one of its elements does |
| SeriesInfo.FetchSeriesOverview | Jellyfin.Plugin.AniDB/Providers/AniDB/Metadata/AniDbSeriesProvider.cs:253-259 | the overview never holds a '\n' |
| SeriesInfo.FetchSeriesGenres | Jellyfin.Plugin.AniDB/Providers/AniDB/Metadata/AniDbSeriesProvider.cs:285-291 | the genres are those of the last `<tags>` element, in ascending weight order |
| SeriesInfo.FetchSeriesStudios | Jellyfin.Plugin.AniDB/Providers/AniDB/Metadata/AniDbSeriesProvider.cs:245-251 | the studios are the Animation Work creators of every `<creators>`, in order |
| SeriesInfo.FetchSeriesKeepsTitles | Jellyfin.Plugin.AniDB/Providers/AniDB/Metadata/AniDbSeriesProvider.cs:225-243 | without `<titles>`, the name and original title are unchanged |
| SeriesInfo.SeriesResult.constructor | Jellyfin.Plugin.AniDB/Providers/AniDB/Metadata/AniDbSeriesProvider.cs:173 | a new result is empty |
| SeriesInfo.SeriesResult.ParseActors | Jellyfin.Plugin.AniDB/Providers/AniDB/Metadata/AniDbSeriesProvider.cs:418-433 | the loop over the `<character>` elements adds, in order, the actor ParseActor makes of each one that has one |
| SeriesInfo.SeriesResult.FetchSeriesInfo | Jellyfin.Plugin.AniDB/Providers/AniDB/Metadata/AniDbSeriesProvider.cs:173-306 | the loop succeeds iff the element fold does, and then leaves the object in the fold's state |
| SeriesInfo.SeriesResult.ApplyOne | Jellyfin.Plugin.AniDB/Providers/AniDB/Metadata/AniDbSeriesProvider.cs:225-291 | one case of the switch succeeds iff `ApplyElement` does, and then leaves the object in the state `ApplyElement` computes |
| SeriesInfo.FetchSeriesStaysNone | Jellyfin.Plugin.AniDB/Providers/AniDB/Metadata/AniDbSeriesProvider.cs:173-306 | once an element has thrown, the fold over any longer run of elements has thrown too |
| EpisodeProvider.ParseLong | Jellyfin.Plugin.AniDB/Providers/AniDB/Metadata/AniDbEpisodeProvider.cs:164 | a parsed value always fits in a long |
| EpisodeProvider.ParseDigitsOfNat | Jellyfin.Plugin.AniDB/Providers/AniDB/Metadata/AniDbEpisodeProvider.cs:164 | the decimal digits of a natural number parse back to that number |
| EpisodeProvider.ParseLongIntToString | Jellyfin.Plugin.AniDB/Providers/AniDB/Metadata/AniDbEpisodeProvider.cs:164 | the decimal text of n parses back to n iff n fits in a long |
| EpisodeProvider.ParseLongDigits | Jellyfin.Plugin.AniDB/Providers/AniDB/Metadata/AniDbEpisodeProvider.cs:164 | digits with an optional minus sign parse to their signed value when it fits, and fail otherwise |
| EpisodeProvider.ParseLongNeedsDigit | Jellyfin.Plugin.AniDB/Providers/AniDB/Metadata/AniDbEpisodeProvider.cs:161-164 | text without a digit does not parse |
| EpisodeProvider.TitlesOf | Jellyfin.Plugin.AniDB/Providers/AniDB/Metadata/AniDbEpisodeProvider.cs:196-207 | every recorded title has type "main", and there are none iff the file has no `<title>` |
| EpisodeProvider.ReadElement | Jellyfin.Plugin.AniDB/Providers/AniDB/Metadata/AniDbEpisodeProvider.cs:146-215 | no element changes the index numbers or the name |
| EpisodeProvider.ReadElementFails | Jellyfin.Plugin.AniDB/Providers/AniDB/Metadata/AniDbEpisodeProvider.cs:150-170 | one element throws iff it adds a second AniDB id or its length overflows TimeSpan |
| EpisodeProvider.ReadElementIds | Jellyfin.Plugin.AniDB/Providers/AniDB/Metadata/AniDbEpisodeProvider.cs:150-157 | only a non-empty episode id adds the AniDB provider id |
| EpisodeProvider.ReadElementRunTime | Jellyfin.Plugin.AniDB/Providers/AniDB/Metadata/AniDbEpisodeProvider.cs:159-170 | a length that parses sets the run time to minutes × 600,000,000; anything else keeps it |
| EpisodeProvider.ReadElementOverview | Jellyfin.Plugin.AniDB/Providers/AniDB/Metadata/AniDbEpisodeProvider.cs:209-213 | a summary sets the overview to the new-line-replaced text, graves optionally replaced |
| EpisodeProvider.ReadElementTitles | Jellyfin.Plugin.AniDB/Providers/AniDB/Metadata/AniDbEpisodeProvider.cs:196-207 | a title element appends a "main" title in its language |
| EpisodeProvider.ReadAll | Jellyfin.Plugin.AniDB/Providers/AniDB/Metadata/AniDbEpisodeProvider.cs:144-216 | the loop never changes the index numbers and never sets the name |
| EpisodeProvider.ReadAllFails | Jellyfin.Plugin.AniDB/Providers/AniDB/Metadata/AniDbEpisodeProvider.cs:144-216 | the loop throws iff some length overflows or two AniDB ids are added in all |
| EpisodeProvider.ReadAllKeeps | Jellyfin.Plugin.AniDB/Providers/AniDB/Metadata/AniDbEpisodeProvider.cs:142-216 | the loop collects exactly the file's titles, in order, and keeps the index numbers |
| EpisodeProvider.ReadAllRunTime | Jellyfin.Plugin.AniDB/Providers/AniDB/Metadata/AniDbEpisodeProvider.cs:159-170 | the run time comes from the last length that parses |
| EpisodeProvider.ReadAllKeepsRunTime | Jellyfin.Plugin.AniDB/Providers/AniDB/Metadata/AniDbEpisodeProvider.cs:159-170 | without a parsing length, the run time is untouched |
| EpisodeProvider.ReadAllOverview | Jellyfin.Plugin.AniDB/Providers/AniDB/Metadata/AniDbEpisodeProvider.cs:209-213 | the overview comes from the last summary and holds no '\n' |
| EpisodeProvider.ReadAllProviderId | Jellyfin.Plugin.AniDB/Providers/AniDB/Metadata/AniDbEpisodeProvider.cs:150-157 | a non-empty episode id becomes the AniDB provider id |
| EpisodeProvider.ReadAllWithoutId | Jellyfin.Plugin.AniDB/Providers/AniDB/Metadata/AniDbEpisodeProvider.cs:150-157 | when no AniDB id is present afterwards, the provider ids are unchanged |
| EpisodeProvider.ParseEpisode | Jellyfin.Plugin.AniDB/Providers/AniDB/Metadata/AniDbEpisodeProvider.cs:128-226 | parsing keeps the index and parent index numbers |
| EpisodeProvider.ParseEpisodeThrows | Jellyfin.Plugin.AniDB/Providers/AniDB/Metadata/AniDbEpisodeProvider.cs:144-218 | ParseEpisodeXml throws iff some length overflows, two AniDB ids are added, or there is no title (Localize returns null) |
| EpisodeProvider.ParseEpisodeName | Jellyfin.Plugin.AniDB/Providers/AniDB/Metadata/AniDbEpisodeProvider.cs:218-224 | the name is the Localized pick among the episode's titles, graves optionally replaced; an empty pick keeps the old name |
| EpisodeProvider.Episode.constructor | Jellyfin.Plugin.AniDB/Providers/AniDB/Metadata/AniDbEpisodeProvider.cs:71-75 | a new episode carries the given numbers and nothing else |
| EpisodeProvider.ReadOne | Jellyfin.Plugin.AniDB/Providers/AniDB/Metadata/AniDbEpisodeProvider.cs:146-215 | one pass of the reader loop updates the episode and the titles as `ReadElement` says, or throws |
| EpisodeProvider.ParseEpisodeXml | Jellyfin.Plugin.AniDB/Providers/AniDB/Metadata/AniDbEpisodeProvider.cs:128-226 | the method succeeds iff `ParseEpisode` does, and then leaves the episode in the state `ParseEpisode` computes |
| EpisodeProvider.GetEpisodeXmlFile | Jellyfin.Plugin.AniDB/Providers/AniDB/Metadata/AniDbEpisodeProvider.cs:228-238 | there is a file to read iff the episode has a number |
| EpisodeProvider.EpisodeFileInjective | Jellyfin.Plugin.AniDB/Providers/AniDB/Metadata/AniDbEpisodeProvider.cs:228-238 | two lookups give the same file only for the same number and the same special/regular type |
| EpisodeProvider.EpisodeFileIsSaved | Jellyfin.Plugin.AniDB/Providers/AniDB/Metadata/AniDbEpisodeProvider.cs:228-238 | the file looked up for episode n is the one the series extraction saved for epno <prefix><n>, holding the last such fragment |
| EpisodeProvider.GetMetadata | Jellyfin.Plugin.AniDB/Providers/AniDB/Metadata/AniDbEpisodeProvider.cs:36-82 | no metadata iff a guard fails; with metadata, the index is copied and the parent index defaults to 1 |
| EpisodeProvider.GetMetadataGuards | Jellyfin.Plugin.AniDB/Providers/AniDB/Metadata/AniDbEpisodeProvider.cs:41-69 | no series id, a later season while seasons are not ignored, or no episode number gives no metadata |
| EpisodeProvider.GetMetadataThrows | Jellyfin.Plugin.AniDB/Providers/AniDB/Metadata/AniDbEpisodeProvider.cs:65-79 | once the file is found, GetMetadata throws iff its parse does |
| EpisodeProvider.GetSearchResults | Jellyfin.Plugin.AniDB/Providers/AniDB/Metadata/AniDbEpisodeProvider.cs:84-114 | nothing without an index or metadata, otherwise exactly one result mirroring the episode's index, name, season and ids |
| SeasonProvider.SeasonAnimeId | Jellyfin.Plugin.AniDB/Providers/AniDB/Metadata/AniDbSeasonProvider.cs:26-32 | a season's own non-empty id is kept; the id is always the season's own or the series' |
| SeasonProvider.FirstSeasonInherits | Jellyfin.Plugin.AniDB/Providers/AniDB/Metadata/AniDbSeasonProvider.cs:29-31 | season 1 without an id of its own takes the series id |
| SeasonProvider.OtherSeasonsKeep | Jellyfin.Plugin.AniDB/Providers/AniDB/Metadata/AniDbSeasonProvider.cs:29 | a season without a positive index never inherits |
| SeasonProvider.InheritanceBySetting | Jellyfin.Plugin.AniDB/Providers/AniDB/Metadata/AniDbSeasonProvider.cs:29 | without IgnoreSeason it inherits iff the index is 1; with it, it inherits for every positive index |
| SeasonProvider.IgnoreSeasonWidens | Jellyfin.Plugin.AniDB/Providers/AniDB/Metadata/AniDbSeasonProvider.cs:29 | turning IgnoreSeason on never takes inheritance away |
| SeasonProvider.GetMetadata | Jellyfin.Plugin.AniDB/Providers/AniDB/Metadata/AniDbSeasonProvider.cs:34-62 | the result never has metadata or an item |
| SeasonProvider.GetSearchResults | Jellyfin.Plugin.AniDB/Providers/AniDB/Metadata/AniDbSeasonProvider.cs:65-86 | the search result list is always empty |

## Left out

- Rate limiting (`RateLimiter`, `Task.Delay`), cancellation tokens and async scheduling: these are timing and concurrency behaviour.
- Network and file I/O: the HTTP download, `DeleteXmlFiles`, image responses, `XmlSerializer` output, and the title-index download. These become inputs: a file-existence set, a path-to-content map, and a set of person paths whose open fails.
- `Directory.CreateDirectory` failures in `ExtractCast`: only the `IOException` caught around `File.Open` is modelled.
- The XML readers: elements arrive pre-tokenised, in document order. The interplay of `ReadOuterXml`, `Skip` and `Read`, which can step over a sibling element, is not modelled.
- The .NET regex engine: `OneLineRegex`, the `XmlSearch` scan and retry, and `Regex.Escape`. `FuzzyRegexEscape` takes the already escaped text as input.
- The ``\b`` word-boundary test at equals_check.cs:77 is a parameter (`isWordChar`).
- `StripAniDbLinks` removes `AniDbUrlRegex` matches; the model takes it as a parameter (`stripLinks`).
- Floating point: ratings, the float arithmetic of `ShortenString` (modelled as exact integer arithmetic with truncation), and `TimeSpan.FromMinutes` rounding.
- EpisodeProvider.ReadElement: computes the ticks exactly (minutes × 600,000,000), as the `long` overload of `TimeSpan.FromMinutes` does, and throws when they leave the long range. The `double` overload rounds minute counts above about 15 million (2^53 ticks); that rounding is not modelled.
- EpisodeProvider.ParseLong takes the invariant culture: current-culture sign symbols and trailing NUL characters accepted by `long.TryParse` are not modelled.
- Dates: `startdate`, `enddate` and `airdate`, with `PremiereDate`, `ProductionYear` and `IndexNumberEnd` in the search results.
- Case mapping beyond ASCII: `ToLowerInvariant` and ordinal-ignore-case comparison map ASCII letters only.
- Strings are sequences of Unicode scalar values, not of UTF-16 code units. Code-unit indexing and lengths of text outside the Basic Multilingual Plane are not modelled: `name[0]` in `GetCastPath` and the lengths in `ShortenString` and `Substring` count whole characters.
- `Path.Combine` is modelled in its Unix form: '/' is the only separator, and there is no '\\' separator and no drive root.
- `GenreHelper.CleanupGenres` (MaxGenres, tidy list, title case): it is not part of this model.
- `AniDbImageProvider` and `AniDbTitleMatcher` are not part of this model.
- `ParseEpisodes` and `ParseResources`: dead code with no effect on the result.
- `AniDbMovieProvider`, `AniDbExternalId` and `AniDbExternalEpisodeId`: field-copying glue and constant host descriptors.
- The series provider's `GetMetadata`, `GetSearchResults` and search-by-name: these go through the title matcher and the network.
- `series.AddPerson` and `AddStudio`: the host's de-duplication of people and studios is not shown, so the model keeps plain lists.
- `FindSeriesFolder` (`GetSeriesData` plus `Path.GetDirectoryName`) becomes the `findSeriesFolder` parameter of the episode lookup.
- `ProviderNames.AniDb` is not shown; it is taken to be "AniDB".
- The static `Plugin.Instance.Configuration`: the settings are passed explicitly.
- On an exception, the model returns `None` and does not keep the partially updated host objects.
- SeriesCache.CastPathInjective: leaves out names that start with '/'. For such a name the letter directory "/" is a rooted part, so Path.Combine restarts the path and the file is the lower-cased name plus ".xml", which can be another name's file.
- SeasonProvider.GetMetadata computes the inherited id, but the lookup that would use it is commented out, so the id does not reach the result.
