/** Plugin settings: the title-preference enumeration and the defaults the
    configuration object starts with. */
module Configuration {

  /** Which title Localize prefers. */
  datatype TitlePreferenceType = Localized | Japanese | JapaneseRomaji

  datatype AnimeDefaultGenreType = NoDefaultGenre | Anime | Animation

  /** The enumeration has exactly three values. */
  lemma TitlePreferenceValues(t: TitlePreferenceType)
    ensures t == Localized || t == Japanese || t == JapaneseRomaji
    ensures Localized != Japanese && Japanese != JapaneseRomaji && Localized != JapaneseRomaji
  {
  }

  /** The settings object; every property is a mutable field. */
  class PluginConfiguration {
    var titlePreference: TitlePreferenceType
    var originalTitlePreference: TitlePreferenceType
    var ignoreSeason: bool
    var titleSimilarityThreshold: int
    var maxGenres: int
    var tidyGenreList: bool
    var titleCaseGenres: bool
    var animeDefaultGenre: AnimeDefaultGenreType
    var aniDbRateLimit: int
    /** Days; nothing in the providers reads it (the series cache uses a fixed 7 days). */
    var maxCacheAge: int
    var aniDbReplaceGraves: bool

    /** The defaults of a fresh configuration. */
    constructor ()
      ensures titlePreference == Localized && originalTitlePreference == JapaneseRomaji
      ensures !ignoreSeason && titleSimilarityThreshold == 50 && maxGenres == 5
      ensures tidyGenreList && !titleCaseGenres && animeDefaultGenre == Anime
      ensures aniDbRateLimit == 2000 && maxCacheAge == 7 && aniDbReplaceGraves
    {
      titlePreference := Localized;
      originalTitlePreference := JapaneseRomaji;
      ignoreSeason := false;
      titleSimilarityThreshold := 50;
      maxGenres := 5;
      tidyGenreList := true;
      titleCaseGenres := false;
      animeDefaultGenre := Anime;
      aniDbRateLimit := 2000;
      maxCacheAge := 7;
      aniDbReplaceGraves := true;
    }
  }
}
