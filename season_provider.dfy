/** AniDbSeasonProvider: which AniDB id a season uses, and the results it
    gives now that the series lookup is commented out. */
module SeasonProvider {
  import opened Wrappers
  import opened EpisodeProvider

  /** What GetMetadata reads of a SeasonInfo. */
  datatype SeasonInfo = SeasonInfo(
    providerIds: map<string, string>,
    seriesProviderIds: map<string, string>,
    indexNumber: Option<int>)

  /** A season is given its series' id when the series is season 1, or when
      seasons are ignored and it is a numbered, non-special season. A null
      index compares as false. */
  predicate Inherits(indexNumber: Option<int>, ignoreSeason: bool) {
    indexNumber == Some(1) || (ignoreSeason && indexNumber.Some? && indexNumber.value > 0)
  }

  /** The AniDB id GetMetadata settles on: the season's own, or else the
      series' when the season inherits it. */
  function SeasonAnimeId(info: SeasonInfo, ignoreSeason: bool): (r: Option<string>)
    ensures !NullOrEmpty(AniDbId(info.providerIds)) ==> r == AniDbId(info.providerIds)
    ensures r == AniDbId(info.providerIds) || r == AniDbId(info.seriesProviderIds)
  {
    var animeId := AniDbId(info.providerIds);
    if NullOrEmpty(animeId) && Inherits(info.indexNumber, ignoreSeason) then AniDbId(info.seriesProviderIds)
    else animeId
  }

  /** Without an id of its own, season 1 always takes the series' id. */
  lemma FirstSeasonInherits(info: SeasonInfo, ignoreSeason: bool)
    requires NullOrEmpty(AniDbId(info.providerIds)) && info.indexNumber == Some(1)
    ensures SeasonAnimeId(info, ignoreSeason) == AniDbId(info.seriesProviderIds)
  {
  }

  /** Specials (season 0), unnumbered and negative seasons never take the
      series' id. */
  lemma OtherSeasonsKeep(info: SeasonInfo, ignoreSeason: bool)
    requires info.indexNumber.None? || info.indexNumber.value <= 0
    ensures SeasonAnimeId(info, ignoreSeason) == AniDbId(info.providerIds)
  {
  }

  /** Without IgnoreSeason only season 1 inherits; with it every positive
      season does. */
  lemma InheritanceBySetting(info: SeasonInfo)
    requires NullOrEmpty(AniDbId(info.providerIds)) && AniDbId(info.providerIds) != AniDbId(info.seriesProviderIds)
    ensures SeasonAnimeId(info, false) == AniDbId(info.seriesProviderIds) <==> info.indexNumber == Some(1)
    ensures SeasonAnimeId(info, true) == AniDbId(info.seriesProviderIds)
      <==> info.indexNumber.Some? && info.indexNumber.value > 0
  {
  }

  /** Ignoring seasons only adds seasons that inherit. */
  lemma IgnoreSeasonWidens(info: SeasonInfo)
    requires SeasonAnimeId(info, false) != AniDbId(info.providerIds)
    ensures SeasonAnimeId(info, true) == SeasonAnimeId(info, false)
  {
  }

  /** The season fields a result would carry. */
  datatype SeasonItem = SeasonItem(name: Option<string>, providerIds: map<string, string>)

  /** MetadataResult<Season>. */
  datatype SeasonResult = SeasonResult(hasMetadata: bool, item: Option<SeasonItem>)

  /** GetMetadata: the id is settled but the lookup with it is commented
      out, so every season gets an empty result. */
  function GetMetadata(info: SeasonInfo, ignoreSeason: bool): (r: SeasonResult)
    ensures !r.hasMetadata && r.item.None?
  {
    var animeId := SeasonAnimeId(info, ignoreSeason);
    SeasonResult(false, None)
  }

  /** A search result for a season. */
  datatype SeasonSearchResult = SeasonSearchResult(name: Option<string>, providerIds: map<string, string>,
                                                   searchProviderName: string)

  /** GetSearchResults: an entry only for a result with metadata, which
      GetMetadata never gives, so the list is always empty. */
  function GetSearchResults(info: SeasonInfo, ignoreSeason: bool): (r: seq<SeasonSearchResult>)
    ensures r == []
  {
    var metadata := GetMetadata(info, ignoreSeason);
    if !metadata.hasMetadata then []
    else match metadata.item
      case Some(item) => [SeasonSearchResult(item.name, item.providerIds, ProviderName)]
      case None => []
  }
}
