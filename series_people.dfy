/** The people of a series in AniDbSeriesProvider: ReverseNameOrder, the
    person-type mapping of CreatePerson, the creators and actors of the
    metadata result, and the cast lists ExtractCast writes to the people
    cache. */
module SeriesPeople {
  import opened Wrappers
  import opened Text
  import opened SeriesText

  // ---------------------------------------------------------------------
  // ReverseNameOrder

  /** `Aggregate(string.Empty, (n, part) => n + " " + part)`. */
  function Aggregate(parts: seq<string>): string
    decreases |parts|
  {
    if |parts| == 0 then "" else Aggregate(parts[..|parts| - 1]) + " " + parts[|parts| - 1]
  }

  /** ReverseNameOrder: the space-separated parts in reverse order, trimmed,
      so the result neither starts nor ends with white space. */
  function ReverseNameOrder(name: string): (r: string)
    ensures Trimmed(r)
  {
    var s := Aggregate(Reverse(Split(name, ' ')));
    assert |Trim(s)| > 0 ==> Trim(s)[0] == TrimStart(s)[0];
    Trim(s)
  }

  /** The fold puts a space before every part. */
  lemma {:induction false} AggregateJoin(parts: seq<string>)
    requires |parts| >= 1
    ensures Aggregate(parts) == " " + Join(" ", parts)
    decreases |parts|
  {
    var n := |parts| - 1;
    if n > 0 {
      AggregateJoin(parts[..n]);
      JoinSnoc(" ", parts[..n], parts[n]);
      assert parts[..n] + [parts[n]] == parts;
    }
  }

  /** Names made of non-empty words without white space, one space apart. */
  predicate Words(words: seq<string>) {
    |words| >= 1 && forall k :: 0 <= k < |words| ==> |words[k]| > 0 && NoWhiteSpace(words[k])
  }

  /** The joined words start with the first word's first character and end
      with the last word's last character. */
  lemma {:induction false} JoinEnds(words: seq<string>)
    requires Words(words)
    ensures |Join(" ", words)| > 0
    ensures Join(" ", words)[0] == words[0][0]
    ensures Join(" ", words)[|Join(" ", words)| - 1] == words[|words| - 1][|words[|words| - 1]| - 1]
    decreases |words|
  {
    if |words| > 1 {
      var rest := words[1..];
      JoinEnds(rest);
      var tail := Join(" ", rest);
      assert Join(" ", words) == words[0] + " " + tail;
      assert (words[0] + " " + tail)[0] == words[0][0];
      assert (words[0] + " " + tail)[|words[0]| + 1 + |tail| - 1] == tail[|tail| - 1];
      assert rest[|rest| - 1] == words[|words| - 1];
    }
  }

  lemma ReverseWords(words: seq<string>)
    requires Words(words)
    ensures Words(Reverse(words))
  {
  }

  /** For words one space apart, ReverseNameOrder reverses the words. */
  lemma ReverseNameOrderReverses(words: seq<string>)
    requires Words(words)
    ensures ReverseNameOrder(Join(" ", words)) == Join(" ", Reverse(words))
  {
    assert forall k :: 0 <= k < |words| ==> ' ' !in words[k];
    SplitJoin(words, ' ');
    assert [' '] == " ";
    var r := Reverse(words);
    ReverseWords(words);
    AggregateJoin(r);
    JoinEnds(r);
    var j := Join(" ", r);
    assert TrimStart(" " + j) == TrimStart(j) by {
      assert (" " + j)[1..] == j;
    }
    TrimIdentity(j);
  }

  /** ReverseNameOrder undoes itself on such names. */
  lemma ReverseNameOrderInvolution(words: seq<string>)
    requires Words(words)
    ensures ReverseNameOrder(ReverseNameOrder(Join(" ", words))) == Join(" ", words)
  {
    ReverseNameOrderReverses(words);
    ReverseWords(words);
    ReverseNameOrderReverses(Reverse(words));
    ReverseReverse(words);
  }

  /** A one-word name is left as it is. */
  lemma ReverseNameOrderOneWord(name: string)
    requires |name| > 0 && NoWhiteSpace(name)
    ensures ReverseNameOrder(name) == name
  {
    ReverseNameOrderReverses([name]);
    assert Reverse([name]) == [name];
  }

  // ---------------------------------------------------------------------
  // CreatePerson

  /** The PersonType names of the host. */
  const ActorType := "Actor"
  const DirectorType := "Director"
  const ComposerType := "Composer"

  /** `_typeMappings`. */
  const TypeMappings: map<string, string> :=
    map["Direction" := DirectorType, "Music" := ComposerType, "Chief Animation Direction" := DirectorType]

  /** A person of the metadata result. */
  datatype PersonInfo = PersonInfo(name: string, kind: string, role: Option<string>)

  /** CreatePerson; None is the ArgumentNullException that TryGetValue
      raises for a missing type, and only then. No credit type that has a
      host person type of its own reaches the person unmapped. */
  function CreatePerson(name: string, kind: Option<string>, role: Option<string>): (r: Option<PersonInfo>)
    ensures r.None? <==> kind.None?
    ensures r.Some? ==> r.value.kind != "Direction" && r.value.kind != "Music" && r.value.kind != "Chief Animation Direction"
  {
    if kind.None? then None
    else
      var mapped := if kind.value in TypeMappings then TypeMappings[kind.value] else kind.value;
      Some(PersonInfo(ReverseNameOrder(name), mapped, role))
  }

  /** The person's name is always reversed and the role kept; Direction and
      Chief Animation Direction make a director, Music a composer, and every
      other type is kept as it is. */
  lemma CreatePersonKind(name: string, kind: string, role: Option<string>)
    ensures CreatePerson(name, Some(kind), role).Some?
    ensures CreatePerson(name, Some(kind), role).value.name == ReverseNameOrder(name)
    ensures CreatePerson(name, Some(kind), role).value.role == role
    ensures CreatePerson(name, Some(kind), role).value.kind == DirectorType
        <==> kind in {"Direction", "Chief Animation Direction", DirectorType}
    ensures CreatePerson(name, Some(kind), role).value.kind == ComposerType
        <==> kind in {"Music", ComposerType}
    ensures kind !in {"Direction", "Chief Animation Direction", "Music"} ==>
        CreatePerson(name, Some(kind), role).value.kind == kind
  {
    var p := CreatePerson(name, Some(kind), role).value;
    if kind == "Direction" || kind == "Chief Animation Direction" {
      assert p.kind == DirectorType;
    } else if kind == "Music" {
      assert p.kind == ComposerType;
    } else {
      assert kind !in TypeMappings;
      assert p.kind == kind;
    }
  }

  // ---------------------------------------------------------------------
  // ParseCreators

  /** A `<name>` element under `<creators>`: its type and id attributes and
      its text. */
  datatype Creator = Creator(kind: Option<string>, name: string, id: Option<string>)

  const AnimationWork := "Animation Work"

  /** A creator credited as the studio. */
  predicate IsStudio(c: Creator) {
    c.kind == Some(AnimationWork)
  }

  /** The studios and people ParseCreators adds, in order. */
  datatype Credits = Credits(studios: seq<string>, people: seq<PersonInfo>)

  /** What ParseCreators adds for one creator after `credits`; None when a
      creator without a type makes CreatePerson throw. */
  function AddCreator(credits: Credits, c: Creator, replaceGraves: bool): Option<Credits> {
    if IsStudio(c) then Some(Credits(credits.studios + [c.name], credits.people))
    else match CreatePerson(Graves(c.name, replaceGraves), c.kind, None)
      case None => None
      case Some(p) => Some(Credits(credits.studios, credits.people + [p]))
  }

  /** What ParseCreators adds for `creators`: each creator becomes either a
      studio or a person. */
  function CreatorCredits(creators: seq<Creator>, replaceGraves: bool): (r: Option<Credits>)
    ensures r.Some? ==> |r.value.studios| + |r.value.people| == |creators|
    decreases |creators|
  {
    if |creators| == 0 then Some(Credits([], []))
    else
      var prior := CreatorCredits(creators[..|creators| - 1], replaceGraves);
      if prior.None? then None else AddCreator(prior.value, creators[|creators| - 1], replaceGraves)
  }

  method ParseCreators(creators: seq<Creator>, replaceGraves: bool) returns (result: Option<Credits>)
    ensures result == CreatorCredits(creators, replaceGraves)
  {
    var studios: seq<string> := [];
    var people: seq<PersonInfo> := [];
    var i := 0;
    while i < |creators|
      invariant 0 <= i <= |creators|
      invariant CreatorCredits(creators[..i], replaceGraves) == Some(Credits(studios, people))
    {
      var c := creators[i];
      assert creators[..i + 1][..i] == creators[..i] && creators[..i + 1][i] == c;
      if IsStudio(c) {
        studios := studios + [c.name];
      } else {
        var person := CreatePerson(Graves(c.name, replaceGraves), c.kind, None);
        if person.None? {
          CreatorCreditsFail(creators, replaceGraves);
          assert Untyped(creators, i);
          return None;
        }
        people := people + [person.value];
      }
      i := i + 1;
    }
    assert creators[..i] == creators;
    return Some(Credits(studios, people));
  }

  /** One creator makes ParseCreators throw exactly when it has no type. */
  lemma AddCreatorFails(credits: Credits, c: Creator, replaceGraves: bool)
    ensures AddCreator(credits, c, replaceGraves).None? <==> c.kind.None?
  {
  }

  /** A creator without a type. */
  predicate Untyped(creators: seq<Creator>, i: int) {
    0 <= i < |creators| && creators[i].kind.None?
  }

  /** ParseCreators throws exactly when some creator has no type. */
  lemma {:induction false} CreatorCreditsFail(creators: seq<Creator>, replaceGraves: bool)
    ensures CreatorCredits(creators, replaceGraves).None? <==> exists i :: Untyped(creators, i)
    decreases |creators|
  {
    if |creators| > 0 {
      var n := |creators| - 1;
      var prefix := creators[..n];
      CreatorCreditsFail(prefix, replaceGraves);
      assert Untyped(creators, n) <==> creators[n].kind.None?;
      var prior := CreatorCredits(prefix, replaceGraves);
      if prior.Some? {
        AddCreatorFails(prior.value, creators[n], replaceGraves);
      }
      if exists i :: Untyped(prefix, i) {
        var i :| Untyped(prefix, i);
        assert Untyped(creators, i);
      }
      if exists i :: Untyped(creators, i) {
        var i :| Untyped(creators, i);
        if i < n {
          assert Untyped(prefix, i);
        }
      }
    }
  }

  /** The creators typed "Animation Work", in order. */
  function AnimationWorks(creators: seq<Creator>): seq<string>
    decreases |creators|
  {
    if |creators| == 0 then []
    else
      var c := creators[|creators| - 1];
      AnimationWorks(creators[..|creators| - 1]) + (if IsStudio(c) then [c.name] else [])
  }

  /** The creators of any other type. */
  function OtherCreators(creators: seq<Creator>): seq<Creator>
    decreases |creators|
  {
    if |creators| == 0 then []
    else
      var c := creators[|creators| - 1];
      OtherCreators(creators[..|creators| - 1]) + (if IsStudio(c) then [] else [c])
  }

  /** When ParseCreators succeeds, the studios are exactly the Animation Work
      names and every other creator becomes one person, in order, with its
      name (graves optionally replaced) reversed and its type mapped. */
  lemma {:induction false} CreatorCreditsSplit(creators: seq<Creator>, replaceGraves: bool)
    requires CreatorCredits(creators, replaceGraves).Some?
    ensures CreatorCredits(creators, replaceGraves).value.studios == AnimationWorks(creators)
    ensures |CreatorCredits(creators, replaceGraves).value.people| == |OtherCreators(creators)|
    ensures forall k :: 0 <= k < |OtherCreators(creators)| ==>
      var c := OtherCreators(creators)[k];
      c.kind.Some? &&
      Some(CreatorCredits(creators, replaceGraves).value.people[k])
        == CreatePerson(Graves(c.name, replaceGraves), c.kind, None)
    decreases |creators|
  {
    if |creators| > 0 {
      var n := |creators| - 1;
      assert CreatorCredits(creators[..n], replaceGraves).Some?;
      CreatorCreditsSplit(creators[..n], replaceGraves);
    }
  }

  // ---------------------------------------------------------------------
  // ParseActor

  /** An element of a `<character>` subtree. */
  datatype ActorField = RoleName(text: string) | Seiyuu(text: string) | OtherField

  /** The text of the last `<name>` element, which the loop keeps. */
  function LastRoleName(fields: seq<ActorField>): Option<string>
    decreases |fields|
  {
    if |fields| == 0 then None
    else if fields[|fields| - 1].RoleName? then Some(fields[|fields| - 1].text)
    else LastRoleName(fields[..|fields| - 1])
  }

  /** The text of the last `<seiyuu>` element. */
  function LastSeiyuu(fields: seq<ActorField>): Option<string>
    decreases |fields|
  {
    if |fields| == 0 then None
    else if fields[|fields| - 1].Seiyuu? then Some(fields[|fields| - 1].text)
    else LastSeiyuu(fields[..|fields| - 1])
  }

  predicate Filled(s: Option<string>) {
    s.Some? && |s.value| > 0
  }

  /** The actor ParseActor adds for one `<character>`, if any: both the
      last seiyuu and the last role name must be non-empty. */
  function ActorOf(fields: seq<ActorField>): Option<PersonInfo> {
    var name, role := LastSeiyuu(fields), LastRoleName(fields);
    if Filled(name) && Filled(role) then CreatePerson(name.value, Some(ActorType), role) else None
  }

  /** The actor is the last seiyuu, its name reversed, playing the last
      role name; the Actor type is not remapped. */
  lemma ActorOfFacts(fields: seq<ActorField>)
    ensures ActorOf(fields).Some? <==> Filled(LastSeiyuu(fields)) && Filled(LastRoleName(fields))
    ensures ActorOf(fields).Some? ==>
      ActorOf(fields).value == PersonInfo(ReverseNameOrder(LastSeiyuu(fields).value), ActorType, LastRoleName(fields))
  {
    assert ActorType !in TypeMappings;
  }

  /** ParseActor: the actor added for one `<character>`, if any. */
  method ParseActor(fields: seq<ActorField>) returns (actor: Option<PersonInfo>)
    ensures actor == ActorOf(fields)
  {
    var name: Option<string> := None;
    var role: Option<string> := None;
    var i := 0;
    while i < |fields|
      invariant 0 <= i <= |fields|
      invariant name == LastSeiyuu(fields[..i]) && role == LastRoleName(fields[..i])
    {
      assert fields[..i + 1][..i] == fields[..i];
      if fields[i].RoleName? {
        role := Some(fields[i].text);
      } else if fields[i].Seiyuu? {
        name := Some(fields[i].text);
      }
      i := i + 1;
    }
    assert fields[..i] == fields;
    if Filled(name) && Filled(role) {
      actor := CreatePerson(name.value, Some(ActorType), role);
    } else {
      actor := None;
    }
  }

  // ---------------------------------------------------------------------
  // ParseCharacterList and ParseCreatorsList: the people cache entries

  /** AniDbPersonInfo: a cached person. */
  datatype CastEntry = CastEntry(name: string, image: Option<string>, id: Option<string>)

  /** The `<seiyuu>` element of a `<character>`: its text and its picture
      and id attributes. */
  datatype SeiyuuElement = SeiyuuElement(value: string, picture: Option<string>, id: Option<string>)

  /** A `<character>` descendant of `<characters>`. */
  datatype Character = Character(seiyuu: Option<SeiyuuElement>)

  const ImageUrlPrefix := "https://cdn.anidb.net/images/main/"

  /** A present, non-empty attribute. */
  function NonEmpty(a: Option<string>): Option<string> {
    if a.Some? && |a.value| > 0 then a else None
  }

  function SeiyuuEntry(s: SeiyuuElement): CastEntry {
    CastEntry(ReverseNameOrder(s.value),
              if NonEmpty(s.picture).Some? then Some(ImageUrlPrefix + s.picture.value) else None,
              NonEmpty(s.id))
  }

  /** The entries ParseCharacterList returns for `characters`. */
  function CharacterEntries(characters: seq<Character>): seq<CastEntry>
    decreases |characters|
  {
    if |characters| == 0 then []
    else
      var c := characters[|characters| - 1];
      CharacterEntries(characters[..|characters| - 1]) + (if c.seiyuu.Some? then [SeiyuuEntry(c.seiyuu.value)] else [])
  }

  method ParseCharacterList(characters: seq<Character>) returns (people: seq<CastEntry>)
    ensures people == CharacterEntries(characters)
  {
    people := [];
    var i := 0;
    while i < |characters|
      invariant 0 <= i <= |characters|
      invariant people == CharacterEntries(characters[..i])
    {
      assert characters[..i + 1][..i] == characters[..i];
      var seiyuu := characters[i].seiyuu;
      if seiyuu.Some? {
        var s := seiyuu.value;
        var image: Option<string> := None;
        if s.picture.Some? && |s.picture.value| > 0 {
          image := Some(ImageUrlPrefix + s.picture.value);
        }
        var id: Option<string> := None;
        if s.id.Some? && |s.id.value| > 0 {
          id := s.id;
        }
        people := people + [CastEntry(ReverseNameOrder(s.value), image, id)];
      }
      i := i + 1;
    }
    assert characters[..i] == characters;
  }

  /** One entry per character with a seiyuu. */
  lemma {:induction false} CharacterEntriesLength(characters: seq<Character>)
    ensures |CharacterEntries(characters)| <= |characters|
    ensures (forall k :: 0 <= k < |characters| ==> characters[k].seiyuu.Some?) ==>
      |CharacterEntries(characters)| == |characters|
    decreases |characters|
  {
    if |characters| > 0 {
      var n := |characters| - 1;
      CharacterEntriesLength(characters[..n]);
      assert forall k :: 0 <= k < n ==> characters[..n][k] == characters[k];
    }
  }

  /** An image is only ever a non-empty picture name under the AniDB image
      URL. */
  predicate CdnImage(e: CastEntry) {
    e.image.Some? ==>
      |e.image.value| > |ImageUrlPrefix| && e.image.value[..|ImageUrlPrefix|] == ImageUrlPrefix
  }

  lemma SeiyuuEntryImage(s: SeiyuuElement)
    ensures CdnImage(SeiyuuEntry(s))
  {
    if NonEmpty(s.picture).Some? {
      var url := ImageUrlPrefix + s.picture.value;
      assert url[..|ImageUrlPrefix|] == ImageUrlPrefix;
    }
  }

  lemma {:induction false} CharacterEntriesImages(characters: seq<Character>)
    ensures forall k :: 0 <= k < |CharacterEntries(characters)| ==> CdnImage(CharacterEntries(characters)[k])
    decreases |characters|
  {
    if |characters| > 0 {
      var n := |characters| - 1;
      CharacterEntriesImages(characters[..n]);
      if characters[n].seiyuu.Some? {
        SeiyuuEntryImage(characters[n].seiyuu.value);
      }
    }
  }

  /** The entries ParseCreatorsList returns: every creator not typed
      "Animation Work" (a missing type is kept), no image. */
  function CreatorEntries(creators: seq<Creator>): seq<CastEntry>
    decreases |creators|
  {
    if |creators| == 0 then []
    else
      var c := creators[|creators| - 1];
      CreatorEntries(creators[..|creators| - 1])
        + (if IsStudio(c) then [] else [CreatorEntry(c)])
  }

  /** A creator's cache entry: no image. */
  function CreatorEntry(c: Creator): CastEntry {
    CastEntry(ReverseNameOrder(c.name), None, NonEmpty(c.id))
  }

  method ParseCreatorsList(creators: seq<Creator>) returns (people: seq<CastEntry>)
    ensures people == CreatorEntries(creators)
  {
    people := [];
    var i := 0;
    while i < |creators|
      invariant 0 <= i <= |creators|
      invariant people == CreatorEntries(creators[..i])
    {
      assert creators[..i + 1][..i] == creators[..i];
      var c := creators[i];
      if c.kind.Some? && c.kind.value == AnimationWork {
        i := i + 1;
        continue;
      }
      var id: Option<string> := None;
      if c.id.Some? && |c.id.value| > 0 {
        id := c.id;
      }
      people := people + [CastEntry(ReverseNameOrder(c.name), None, id)];
      i := i + 1;
    }
    assert creators[..i] == creators;
  }

  /** `f` applied to every element. */
  function Map<A, B>(f: A -> B, xs: seq<A>): seq<B> {
    seq(|xs|, k requires 0 <= k < |xs| => f(xs[k]))
  }

  lemma MapSnoc<A, B>(f: A -> B, xs: seq<A>, x: A)
    ensures Map(f, xs + [x]) == Map(f, xs) + [f(x)]
  {
    assert forall k :: 0 <= k < |xs| ==> (xs + [x])[k] == xs[k];
  }

  /** The entries of a list of creators, one each. */
  function EntriesOf(cs: seq<Creator>): seq<CastEntry> {
    Map(CreatorEntry, cs)
  }

  /** The creator entries are one for each creator ParseCreators makes a
      person of, in the same order. */
  lemma {:induction false} CreatorEntriesMatchOthers(creators: seq<Creator>)
    ensures CreatorEntries(creators) == EntriesOf(OtherCreators(creators))
    decreases |creators|
  {
    if |creators| > 0 {
      var n := |creators| - 1;
      var prefix, c := creators[..n], creators[n];
      CreatorEntriesMatchOthers(prefix);
      if !IsStudio(c) {
        MapSnoc(CreatorEntry, OtherCreators(prefix), c);
      }
    }
  }
}
