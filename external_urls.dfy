/** Links from a library item to its page on anidb.net. */
module ExternalUrls {
  import opened Wrappers

  /** Key under which items store their AniDB id. */
  const AniDbProvider := "AniDB"

  const AnimeUrlPrefix := "https://anidb.net/anime/"
  const EpisodeUrlPrefix := "https://anidb.net/episode/"

  /** The host's item classes, as far as the provider distinguishes them. */
  datatype ItemKind = Series | Movie | Episode | Season | OtherItem

  datatype Item = Item(kind: ItemKind, providerIds: map<string, string>)

  /** TryGetProviderId: the stored id, when present and not empty. */
  function ProviderId(item: Item): (r: Option<string>)
    ensures r.Some? <==> AniDbProvider in item.providerIds && item.providerIds[AniDbProvider] != ""
    ensures r.Some? ==> r.value == item.providerIds[AniDbProvider]
  {
    if AniDbProvider in item.providerIds && item.providerIds[AniDbProvider] != ""
    then Some(item.providerIds[AniDbProvider]) else None
  }

  /** GetExternalUrls: at most one URL, chosen by the item class. */
  function GetExternalUrls(item: Item): (urls: seq<string>)
    ensures |urls| <= 1
    ensures urls == [] <==> ProviderId(item).None? || item.kind !in {Series, Movie, Episode}
  {
    match ProviderId(item)
    case None => []
    case Some(id) =>
      match item.kind
      case Series => [AnimeUrlPrefix + id]
      case Movie => [AnimeUrlPrefix + id]
      case Episode => [EpisodeUrlPrefix + id]
      case _ => []
  }

  /** Which kind of anidb.net page a URL names. */
  datatype PageKind = AnimePage | EpisodePage

  /** Reads the page kind and id back out of an anidb.net URL. */
  function ParseUrl(url: string): Option<(PageKind, string)> {
    if AnimeUrlPrefix <= url then Some((AnimePage, url[|AnimeUrlPrefix|..]))
    else if EpisodeUrlPrefix <= url then Some((EpisodePage, url[|EpisodeUrlPrefix|..]))
    else None
  }

  lemma PrefixesDiffer()
    ensures !(AnimeUrlPrefix <= EpisodeUrlPrefix)
  {
    assert AnimeUrlPrefix[18] != EpisodeUrlPrefix[18];
  }

  /** Every URL the provider yields names the item's page and its id: Series
      and Movie items an anime page, Episode items an episode page. */
  lemma {:induction false} UrlRoundTrip(item: Item)
    ensures forall url :: url in GetExternalUrls(item) ==>
      ParseUrl(url) == Some((if item.kind == Episode then EpisodePage else AnimePage, ProviderId(item).value))
  {
    if GetExternalUrls(item) != [] {
      var id := ProviderId(item).value;
      if item.kind == Episode {
        var url := EpisodeUrlPrefix + id;
        assert EpisodeUrlPrefix <= url;
        PrefixesDiffer();
        assert url[18] == 'e';
        assert url[|EpisodeUrlPrefix|..] == id;
      } else {
        var url := AnimeUrlPrefix + id;
        assert AnimeUrlPrefix <= url;
        assert url[|AnimeUrlPrefix|..] == id;
      }
    }
  }

  /** Different ids give different URLs. */
  lemma UrlsDistinguishIds(a: Item, b: Item)
    requires a.kind == b.kind
    requires GetExternalUrls(a) != [] && GetExternalUrls(a) == GetExternalUrls(b)
    ensures ProviderId(a) == ProviderId(b)
  {
    UrlRoundTrip(a);
    UrlRoundTrip(b);
    assert GetExternalUrls(a)[0] in GetExternalUrls(a);
  }
}
