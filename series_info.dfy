/** FetchSeriesInfo: the reader loop over the top-level elements of a series
    file, filling in the series record of the metadata result. */
module SeriesInfo {
  import opened Wrappers
  import opened Text
  import opened Configuration
  import opened Titles
  import opened SeriesText
  import opened SeriesGenres
  import opened SeriesPeople

  /** A top-level element of the series file, already parsed into its
      parts. The dates, the ratings, the resources and the episodes change
      nothing the model keeps and are `OtherElement`. */
  datatype SeriesElement =
    | TitlesElement(titles: seq<Title>)
    | CreatorsElement(creators: seq<Creator>)
    | DescriptionElement(text: string)
    | CharactersElement(characters: seq<seq<ActorField>>)
    | TagsElement(tags: seq<Tag>)
    | OtherElement

  /** The fields of the series record FetchSeriesInfo fills in. */
  datatype SeriesState = SeriesState(name: Option<string>, originalTitle: Option<string>, overview: Option<string>,
                                     genres: seq<string>, studios: seq<string>, people: seq<PersonInfo>)

  /** The three settings FetchSeriesInfo reads. */
  datatype Settings = Settings(titlePreference: TitlePreferenceType, originalTitlePreference: TitlePreferenceType,
                               replaceGraves: bool)

  /** ParseTitle: the title and the original title by their preferences;
      None is the NullReferenceException of `.Name` on the null Localize
      returns for a `<titles>` without titles. */
  function ParseTitle(titles: seq<Title>, settings: Settings, language: Option<string>): (r: Option<(string, string)>)
    ensures r.None? <==> |titles| == 0
    ensures r.Some? ==> exists t :: t in titles && t.name == r.value.0
    ensures r.Some? ==> exists t :: t in titles && t.name == r.value.1
  {
    var title := Localize(titles, settings.titlePreference, language);
    var original := Localize(titles, settings.originalTitlePreference, language);
    if title.None? || original.None? then None else Some((title.value.name, original.value.name))
  }

  /** A non-empty title replaces the field, graves optionally replaced. */
  function SetTitle(field: Option<string>, title: string, replaceGraves: bool): Option<string> {
    if |title| > 0 then Some(Graves(title, replaceGraves)) else field
  }

  /** The actors ParseActors adds, one per `<character>` that has both a
      seiyuu and a role. */
  function Actors(characters: seq<seq<ActorField>>): seq<PersonInfo>
    decreases |characters|
  {
    if |characters| == 0 then []
    else
      var actor := ActorOf(characters[|characters| - 1]);
      Actors(characters[..|characters| - 1]) + (if actor.Some? then [actor.value] else [])
  }

  /** One case of the switch in FetchSeriesInfo. Only a `<titles>` or a
      `<creators>` can throw, only a `<titles>` sets the title fields, and
      studios and people are only ever appended to. */
  function ApplyElement(state: SeriesState, e: SeriesElement, settings: Settings, language: Option<string>,
                        stripLinks: string -> string): (r: Option<SeriesState>)
    ensures r.None? ==> e.TitlesElement? || e.CreatorsElement?
    ensures r.Some? && !e.TitlesElement? ==> r.value.name == state.name && r.value.originalTitle == state.originalTitle
    ensures r.Some? ==> state.studios <= r.value.studios && state.people <= r.value.people
  {
    match e
    case TitlesElement(titles) =>
      (match ParseTitle(titles, settings, language)
       case None => None
       case Some(pair) =>
         Some(state.(name := SetTitle(state.name, pair.0, settings.replaceGraves),
                     originalTitle := SetTitle(state.originalTitle, pair.1, settings.replaceGraves))))
    case CreatorsElement(creators) =>
      (match CreatorCredits(creators, settings.replaceGraves)
       case None => None
       case Some(credits) => Some(state.(studios := state.studios + credits.studios, people := state.people + credits.people)))
    case DescriptionElement(text) =>
      Some(state.(overview := Some(Description(text, settings.replaceGraves, stripLinks))))
    case CharactersElement(characters) =>
      Some(state.(people := state.people + Actors(characters)))
    case TagsElement(tags) =>
      Some(state.(genres := Names(OrderByWeight(CollectGenres(tags)))))
    case OtherElement =>
      Some(state)
  }

  /** FetchSeriesInfo over the elements; None when it throws. The studios
      and people already on the series are kept, in front. */
  function FetchSeries(state: SeriesState, elements: seq<SeriesElement>, settings: Settings, language: Option<string>,
                       stripLinks: string -> string): (r: Option<SeriesState>)
    ensures r.Some? ==> state.studios <= r.value.studios && state.people <= r.value.people
    decreases |elements|
  {
    if |elements| == 0 then Some(state)
    else match FetchSeries(state, elements[..|elements| - 1], settings, language, stripLinks)
      case None => None
      case Some(prior) => ApplyElement(prior, elements[|elements| - 1], settings, language, stripLinks)
  }

  /** Once FetchSeriesInfo has thrown, the elements after it change nothing. */
  lemma {:induction false} FetchSeriesStaysNone(state: SeriesState, elements: seq<SeriesElement>, k: nat,
                                                settings: Settings, language: Option<string>,
                                                stripLinks: string -> string)
    requires k <= |elements|
    requires FetchSeries(state, elements[..k], settings, language, stripLinks).None?
    ensures FetchSeries(state, elements, settings, language, stripLinks).None?
    decreases |elements|
  {
    if k < |elements| {
      var n := |elements| - 1;
      assert elements[..n][..k] == elements[..k];
      FetchSeriesStaysNone(state, elements[..n], k, settings, language, stripLinks);
    } else {
      assert elements[..k] == elements;
    }
  }

  /** An element that makes FetchSeriesInfo throw. */
  predicate Throws(e: SeriesElement) {
    match e
    case TitlesElement(titles) => |titles| == 0
    case CreatorsElement(creators) => exists i :: 0 <= i < |creators| && Untyped(creators, i)
    case _ => false
  }

  lemma ApplyElementThrows(state: SeriesState, e: SeriesElement, settings: Settings, language: Option<string>,
                           stripLinks: string -> string)
    ensures ApplyElement(state, e, settings, language, stripLinks).None? <==> Throws(e)
  {
    if e.CreatorsElement? {
      CreatorCreditsFail(e.creators, settings.replaceGraves);
    }
  }

  /** FetchSeriesInfo throws exactly when some `<titles>` has no title or
      some creator has no type. */
  lemma {:induction false} FetchSeriesThrows(state: SeriesState, elements: seq<SeriesElement>, settings: Settings,
                                             language: Option<string>, stripLinks: string -> string)
    ensures FetchSeries(state, elements, settings, language, stripLinks).None? <==>
      exists i :: 0 <= i < |elements| && Throws(elements[i])
    decreases |elements|
  {
    if |elements| > 0 {
      var n := |elements| - 1;
      var prefix := elements[..n];
      FetchSeriesThrows(state, prefix, settings, language, stripLinks);
      var prior := FetchSeries(state, prefix, settings, language, stripLinks);
      if prior.Some? {
        ApplyElementThrows(prior.value, elements[n], settings, language, stripLinks);
      }
      if exists i :: 0 <= i < n && Throws(prefix[i]) {
        var i :| 0 <= i < n && Throws(prefix[i]);
        assert prefix[i] == elements[i];
      }
      if exists i :: 0 <= i < |elements| && Throws(elements[i]) {
        var i :| 0 <= i < |elements| && Throws(elements[i]);
        if i < n {
          assert prefix[i] == elements[i];
        }
      }
    }
  }

  /** The overview never holds a line feed, if it had none before. */
  lemma {:induction false} FetchSeriesOverview(state: SeriesState, elements: seq<SeriesElement>, settings: Settings,
                                               language: Option<string>, stripLinks: string -> string)
    requires state.overview.Some? ==> '\n' !in state.overview.value
    requires FetchSeries(state, elements, settings, language, stripLinks).Some?
    ensures var r := FetchSeries(state, elements, settings, language, stripLinks).value;
      r.overview.Some? ==> '\n' !in r.overview.value
    decreases |elements|
  {
    if |elements| > 0 {
      var n := |elements| - 1;
      FetchSeriesOverview(state, elements[..n], settings, language, stripLinks);
    }
  }

  /** Only a `<tags>` changes the genres. */
  lemma ApplyElementGenres(state: SeriesState, e: SeriesElement, settings: Settings, language: Option<string>,
                           stripLinks: string -> string)
    requires ApplyElement(state, e, settings, language, stripLinks).Some?
    ensures ApplyElement(state, e, settings, language, stripLinks).value.genres
      == if e.TagsElement? then Names(OrderByWeight(CollectGenres(e.tags))) else state.genres
  {
  }

  /** ParseTags replaces the genres: they come from the last `<tags>`. */
  lemma {:induction false} FetchSeriesGenres(state: SeriesState, elements: seq<SeriesElement>, settings: Settings,
                                             language: Option<string>, stripLinks: string -> string, k: nat)
    requires k < |elements| && elements[k].TagsElement?
    requires forall j :: k < j < |elements| ==> !elements[j].TagsElement?
    requires FetchSeries(state, elements, settings, language, stripLinks).Some?
    ensures FetchSeries(state, elements, settings, language, stripLinks).value.genres
      == Names(OrderByWeight(CollectGenres(elements[k].tags)))
    decreases |elements|
  {
    var n := |elements| - 1;
    var prefix := elements[..n];
    var prior := FetchSeries(state, prefix, settings, language, stripLinks).value;
    ApplyElementGenres(prior, elements[n], settings, language, stripLinks);
    if k < n {
      FetchSeriesGenres(state, prefix, settings, language, stripLinks, k);
    }
  }

  /** The studios are the "Animation Work" creators of every `<creators>`,
      in order. */
  function AllStudios(elements: seq<SeriesElement>): seq<string>
    decreases |elements|
  {
    if |elements| == 0 then []
    else
      var e := elements[|elements| - 1];
      AllStudios(elements[..|elements| - 1]) + (if e.CreatorsElement? then AnimationWorks(e.creators) else [])
  }

  /** The studios one element adds. */
  function StudiosOf(e: SeriesElement): seq<string> {
    if e.CreatorsElement? then AnimationWorks(e.creators) else []
  }

  lemma ApplyElementStudios(state: SeriesState, e: SeriesElement, settings: Settings, language: Option<string>,
                            stripLinks: string -> string)
    requires ApplyElement(state, e, settings, language, stripLinks).Some?
    ensures ApplyElement(state, e, settings, language, stripLinks).value.studios == state.studios + StudiosOf(e)
  {
    assert state.studios + [] == state.studios;
    match e
    case TitlesElement(titles) =>
      var pair := ParseTitle(titles, settings, language).value;
      assert ApplyElement(state, e, settings, language, stripLinks).value
        == state.(name := SetTitle(state.name, pair.0, settings.replaceGraves),
                  originalTitle := SetTitle(state.originalTitle, pair.1, settings.replaceGraves));
    case CreatorsElement(creators) =>
      CreatorCreditsSplit(creators, settings.replaceGraves);
    case _ =>
  }

  lemma {:induction false} FetchSeriesStudios(state: SeriesState, elements: seq<SeriesElement>, settings: Settings,
                                              language: Option<string>, stripLinks: string -> string)
    requires FetchSeries(state, elements, settings, language, stripLinks).Some?
    ensures FetchSeries(state, elements, settings, language, stripLinks).value.studios == state.studios + AllStudios(elements)
    decreases |elements|
  {
    if |elements| > 0 {
      var n := |elements| - 1;
      var prefix := elements[..n];
      FetchSeriesStudios(state, prefix, settings, language, stripLinks);
      var prior := FetchSeries(state, prefix, settings, language, stripLinks).value;
      ApplyElementStudios(prior, elements[n], settings, language, stripLinks);
      Associative(state.studios, AllStudios(prefix), StudiosOf(elements[n]));
    }
  }

  /** Without a `<titles>` the name and the original title are left as they
      were. */
  lemma {:induction false} FetchSeriesKeepsTitles(state: SeriesState, elements: seq<SeriesElement>, settings: Settings,
                                                  language: Option<string>, stripLinks: string -> string)
    requires forall i :: 0 <= i < |elements| ==> !elements[i].TitlesElement?
    requires FetchSeries(state, elements, settings, language, stripLinks).Some?
    ensures FetchSeries(state, elements, settings, language, stripLinks).value.name == state.name
    ensures FetchSeries(state, elements, settings, language, stripLinks).value.originalTitle == state.originalTitle
    decreases |elements|
  {
    if |elements| > 0 {
      FetchSeriesKeepsTitles(state, elements[..|elements| - 1], settings, language, stripLinks);
    }
  }

  /** The series record of the metadata result. */
  class SeriesResult {
    var name: Option<string>
    var originalTitle: Option<string>
    var overview: Option<string>
    var genres: seq<string>
    var studios: seq<string>
    var people: seq<PersonInfo>

    function State(): SeriesState
      reads this
    {
      SeriesState(name, originalTitle, overview, genres, studios, people)
    }

    /** A new Series: nothing set. */
    constructor ()
      ensures State() == SeriesState(None, None, None, [], [], [])
    {
      name, originalTitle, overview := None, None, None;
      genres, studios, people := [], [], [];
    }

    /** ParseActors: ParseActor on every `<character>`. */
    static method ParseActors(characters: seq<seq<ActorField>>) returns (actors: seq<PersonInfo>)
      ensures actors == Actors(characters)
    {
      actors := [];
      var i := 0;
      while i < |characters|
        invariant 0 <= i <= |characters|
        invariant actors == Actors(characters[..i])
      {
        assert characters[..i + 1][..i] == characters[..i];
        var actor := ParseActor(characters[i]);
        if actor.Some? {
          actors := actors + [actor.value];
        }
        i := i + 1;
      }
      assert characters[..i] == characters;
    }

    /** One pass of the switch in FetchSeriesInfo; `ok` is false when the
        element throws, and the record is then abandoned. */
    method ApplyOne(e: SeriesElement, settings: Settings, language: Option<string>,
                    stripLinks: string -> string) returns (ok: bool)
      modifies this
      ensures ok <==> ApplyElement(old(State()), e, settings, language, stripLinks).Some?
      ensures ok ==> State() == ApplyElement(old(State()), e, settings, language, stripLinks).value
    {
      if e.TitlesElement? {
        var pair := ParseTitle(e.titles, settings, language);
        if pair.None? {
          return false;
        }
        var (title, original) := pair.value;
        if |title| > 0 {
          name := Some(Graves(title, settings.replaceGraves));
        }
        if |original| > 0 {
          originalTitle := Some(Graves(original, settings.replaceGraves));
        }
      } else if e.CreatorsElement? {
        var credits := ParseCreators(e.creators, settings.replaceGraves);
        if credits.None? {
          return false;
        }
        studios := studios + credits.value.studios;
        people := people + credits.value.people;
      } else if e.DescriptionElement? {
        overview := Some(Description(e.text, settings.replaceGraves, stripLinks));
      } else if e.CharactersElement? {
        var actors := ParseActors(e.characters);
        people := people + actors;
      } else if e.TagsElement? {
        genres := ParseTags(e.tags);
      }
      return true;
    }

    /** FetchSeriesInfo; `ok` is false when it throws, and the record is
        then abandoned with the exception. */
    method FetchSeriesInfo(elements: seq<SeriesElement>, settings: Settings, language: Option<string>,
                           stripLinks: string -> string) returns (ok: bool)
      modifies this
      ensures ok <==> FetchSeries(old(State()), elements, settings, language, stripLinks).Some?
      ensures ok ==> State() == FetchSeries(old(State()), elements, settings, language, stripLinks).value
    {
      ghost var start := State();
      var i := 0;
      while i < |elements|
        invariant 0 <= i <= |elements|
        invariant FetchSeries(start, elements[..i], settings, language, stripLinks) == Some(State())
      {
        assert elements[..i + 1][..i] == elements[..i];
        var applied := ApplyOne(elements[i], settings, language, stripLinks);
        if !applied {
          FetchSeriesStaysNone(start, elements, i + 1, settings, language, stripLinks);
          return false;
        }
        i := i + 1;
      }
      assert elements[..i] == elements;
      return true;
    }
  }
}
