/** The cache AniDbSeriesProvider keeps on disk: where a series file and a
    person file live, when a series is downloaded again, which person files
    ExtractCast writes and which episode fragments ExtractEpisodes saves.
    The file system is a map from path to contents; the clock is the age of
    the file in ticks. */
module SeriesCache {
  import opened Wrappers
  import opened Text
  import opened SeriesPeople

  // ---------------------------------------------------------------------
  // GetSeriesDataPath and GetSeriesData

  const SeriesDataFile := "series.xml"

  /** TimeSpan.FromDays(7) in ticks of 100 nanoseconds. */
  const MaxAgeTicks := 7 * 24 * 60 * 60 * 10_000_000

  /** GetSeriesDataPath: `<cache>/anidb/series/<id>` for an id that is a
      plain path segment, under any cache path. */
  function SeriesDataPath(cachePath: string, seriesId: string): (r: string)
    ensures Segment(seriesId) ==> r == CombineLead(cachePath) + "anidb/series/" + seriesId
  {
    var r := CombineAll([cachePath, "anidb", "series", seriesId]);
    if Segment(seriesId) then
      assert Segment("anidb") && Segment("series");
      CombineUnderCache(cachePath, "anidb", "series", seriesId);
      r
    else r
  }

  /** The file GetSeriesData returns and whether it downloads it first. */
  datatype SeriesData = SeriesData(path: string, download: bool)

  /** GetSeriesData for a file that is present or not and is `ageTicks` old
      (UtcNow minus its last write time). */
  function GetSeriesData(cachePath: string, seriesId: string, present: bool, ageTicks: int): (r: SeriesData)
    ensures r.download <==> !present || ageTicks > 6_048_000_000_000
  {
    SeriesData(Combine(SeriesDataPath(cachePath, seriesId), SeriesDataFile), !present || ageTicks > MaxAgeTicks)
  }

  /** The limit is 6,048,000,000,000 ticks; a file exactly that old is kept,
      one tick older is downloaded again, a missing one always is, and the
      path does not depend on the decision. */
  lemma SeriesDataFreshness(cachePath: string, seriesId: string, present: bool, age: int)
    ensures MaxAgeTicks == 6_048_000_000_000
    ensures !GetSeriesData(cachePath, seriesId, true, MaxAgeTicks).download
    ensures GetSeriesData(cachePath, seriesId, true, MaxAgeTicks + 1).download
    ensures GetSeriesData(cachePath, seriesId, false, age).download
    ensures GetSeriesData(cachePath, seriesId, present, age).path == GetSeriesData(cachePath, seriesId, true, 0).path
  {
  }

  /** A file that is due stays due as it ages. */
  lemma SeriesDataStaysStale(cachePath: string, seriesId: string, present: bool, age: int, later: int)
    requires age <= later
    requires GetSeriesData(cachePath, seriesId, present, age).download
    ensures GetSeriesData(cachePath, seriesId, present, later).download
  {
  }

  /** Path.Combine of four parts, as the fold of three Combines. */
  lemma CombineAllFour(a: string, b: string, c: string, d: string)
    ensures CombineAll([a, b, c, d]) == Combine(Combine(Combine(a, b), c), d)
  {
    assert [a, b][..1] == [a];
    assert CombineAll([a, b]) == Combine(a, b);
    assert [a, b, c][..2] == [a, b];
    assert CombineAll([a, b, c]) == Combine(Combine(a, b), c);
    assert [a, b, c, d][..3] == [a, b, c];
  }

  /** Path.Combine of a cache path and three relative parts: what
      Path.Combine puts before a relative part, then the parts joined by
      '/'. This holds for an absolute, a relative and an empty cache path
      alike. */
  lemma CombineUnderCache(cachePath: string, b: string, c: string, d: string)
    requires Segment(b) && Segment(c) && |d| > 0 && d[0] != '/'
    ensures CombineAll([cachePath, b, c, d]) == CombineLead(cachePath) + b + "/" + c + "/" + d
  {
    CombineAllFour(cachePath, b, c, d);
    CombineRelative(cachePath, b);
    var y := CombineLead(cachePath) + b;
    assert y[|y| - 1] == b[|b| - 1] && CombineLead(y) == y + "/";
    CombineRelative(y, c);
    var x := y + "/" + c;
    assert x[|x| - 1] == c[|c| - 1] && CombineLead(x) == x + "/";
    CombineRelative(x, d);
  }

  /** The series file of a series id is `<cache>/anidb/series/<id>/series.xml`,
      under any cache path. */
  lemma SeriesDataLayout(cachePath: string, seriesId: string)
    requires Segment(seriesId)
    ensures SeriesDataPath(cachePath, seriesId) == CombineLead(cachePath) + "anidb/series/" + seriesId
    ensures GetSeriesData(cachePath, seriesId, true, 0).path
      == CombineLead(cachePath) + "anidb/series/" + seriesId + "/" + SeriesDataFile
  {
    assert Segment("anidb") && Segment("series");
    CombineUnderCache(cachePath, "anidb", "series", seriesId);
    var dir := SeriesDataPath(cachePath, seriesId);
    assert dir[|dir| - 1] == seriesId[|seriesId| - 1] && CombineLead(dir) == dir + "/";
    CombineRelative(dir, SeriesDataFile);
  }

  /** The series file under the usual Linux cache directory. */
  lemma SeriesDataUnderVarCache()
    ensures GetSeriesData("/var/cache/jellyfin", "42", true, 0).path == "/var/cache/jellyfin/anidb/series/42/series.xml"
  {
    SeriesDataLayout("/var/cache/jellyfin", "42");
  }

  // ---------------------------------------------------------------------
  // GetCastPath

  const PeopleDirectory := "anidb-people"

  /** GetCastPath: `<cache>/anidb-people/<first letter>/<name>.xml` on the
      lower-cased name; None is the IndexOutOfRangeException `name[0]`
      raises for an empty name. */
  function CastPath(name: string, cachePath: string): (r: Option<string>)
    ensures r.None? <==> |name| == 0
  {
    var lower := ToLowerInvariant(name);
    if |lower| == 0 then None else Some(CombineAll([cachePath, PeopleDirectory, [lower[0]], lower + ".xml"]))
  }

  /** The person file of a lower-cased name that does not start with '/',
      under any cache path. */
  lemma PeopleFileLayout(cachePath: string, lower: string)
    requires |lower| > 0 && lower[0] != '/'
    ensures CombineAll([cachePath, PeopleDirectory, [lower[0]], lower + ".xml"])
      == CombineLead(cachePath) + PeopleDirectory + "/" + [lower[0]] + "/" + lower + ".xml"
  {
    var file := lower + ".xml";
    assert Segment(PeopleDirectory) && Segment([lower[0]]);
    assert file[0] == lower[0];
    CombineUnderCache(cachePath, PeopleDirectory, [lower[0]], file);
    Associative(CombineLead(cachePath) + PeopleDirectory + "/" + [lower[0]] + "/", lower, ".xml");
  }

  /** Stripping a common prefix and suffix. */
  lemma CancelAround(p: string, s: string, t: string, q: string)
    requires p + s + q == p + t + q
    ensures s == t
  {
    assert |s| == |t|;
    assert s == (p + s + q)[|p|..|p| + |s|];
    assert t == (p + t + q)[|p|..|p| + |t|];
  }

  /** Paths that differ only in the directory letter and the name. */
  lemma LetterPathInjective(p: string, x: char, y: char, s: string, t: string, q: string)
    requires p + [x] + "/" + s + q == p + [y] + "/" + t + q
    ensures s == t
  {
    var u, v := [x] + "/" + s, [y] + "/" + t;
    Associative(p, [x] + "/" + s, q);
    assert p + [x] + "/" + s == p + u;
    assert p + [y] + "/" + t == p + v;
    CancelAround(p, u, v, q);
    assert s == u[2..] && t == v[2..];
  }

  /** The person file of a name that does not start with '/', under any
      cache path: what Path.Combine puts before a relative part, then the
      people directory, the letter directory and the file. */
  lemma CastPathShape(name: string, cachePath: string)
    requires |name| > 0 && name[0] != '/'
    ensures CastPath(name, cachePath)
      == Some(CombineLead(cachePath) + PeopleDirectory + "/" + [Lower(name[0])] + "/" + ToLowerInvariant(name) + ".xml")
  {
    var lower := ToLowerInvariant(name);
    assert lower[0] == Lower(name[0]);
    PeopleFileLayout(cachePath, lower);
  }

  /** Two names that do not start with '/' share a person file exactly
      when they agree up to case. */
  lemma CastPathInjective(a: string, b: string, cachePath: string)
    requires |a| > 0 && a[0] != '/' && |b| > 0 && b[0] != '/'
    ensures CastPath(a, cachePath) == CastPath(b, cachePath) <==> ToLowerInvariant(a) == ToLowerInvariant(b)
  {
    if CastPath(a, cachePath) == CastPath(b, cachePath) {
      CastPathShape(a, cachePath);
      CastPathShape(b, cachePath);
      LetterPathInjective(CombineLead(cachePath) + PeopleDirectory + "/", Lower(a[0]), Lower(b[0]),
                          ToLowerInvariant(a), ToLowerInvariant(b), ".xml");
    }
  }

  // ---------------------------------------------------------------------
  // ExtractCast

  /** The person files after ExtractCast, and whether it ran to the end
      (false: GetCastPath threw on an empty name, and the files written
      before stay written). */
  datatype CastWrite = CastWrite(files: map<string, CastEntry>, completed: bool)

  /** A path whose File.Open throws an IOException, which ExtractCast
      ignores. */
  type Failing = set<string>

  /** The write rule for one person: the file is written when it does not
      exist yet or the person has an image. */
  function WriteEntry(cachePath: string, person: CastEntry, files: map<string, CastEntry>, failing: Failing): (r: CastWrite)
    ensures files.Keys <= r.files.Keys
    ensures r.completed <==> |person.name| > 0
    ensures !r.completed ==> r.files == files
    ensures r.completed ==>
      var path := CastPath(person.name, cachePath).value;
      r.files == if (path !in files || person.image.Some?) && path !in failing then files[path := person] else files
  {
    match CastPath(person.name, cachePath)
    case None => CastWrite(files, false)
    case Some(path) =>
      if (path !in files || person.image.Some?) && path !in failing then CastWrite(files[path := person], true)
      else CastWrite(files, true)
  }

  /** The write loop of ExtractCast over the whole cast. */
  function WriteCast(cachePath: string, cast: seq<CastEntry>, files: map<string, CastEntry>, failing: Failing): (r: CastWrite)
    ensures files.Keys <= r.files.Keys
    decreases |cast|
  {
    if |cast| == 0 then CastWrite(files, true)
    else
      var prior := WriteCast(cachePath, cast[..|cast| - 1], files, failing);
      if !prior.completed then prior else WriteEntry(cachePath, cast[|cast| - 1], prior.files, failing)
  }

  /** Once GetCastPath throws, nothing more is written. */
  lemma {:induction false} WriteCastStops(cachePath: string, cast: seq<CastEntry>, files: map<string, CastEntry>, failing: Failing, j: nat)
    requires j <= |cast| && !WriteCast(cachePath, cast[..j], files, failing).completed
    ensures WriteCast(cachePath, cast, files, failing) == WriteCast(cachePath, cast[..j], files, failing)
    decreases |cast| - j
  {
    if j < |cast| {
      var n := |cast| - 1;
      assert cast[..n][..j] == cast[..j];
      WriteCastStops(cachePath, cast[..n], files, failing, j);
    } else {
      assert cast[..j] == cast;
    }
  }

  /** A person whose name is empty. */
  predicate Unnamed(cast: seq<CastEntry>, k: int) {
    0 <= k < |cast| && |cast[k].name| == 0
  }

  /** ExtractCast runs to the end exactly when every name is non-empty. */
  lemma {:induction false} WriteCastCompletes(cachePath: string, cast: seq<CastEntry>, files: map<string, CastEntry>, failing: Failing)
    ensures WriteCast(cachePath, cast, files, failing).completed <==> forall k :: 0 <= k < |cast| ==> !Unnamed(cast, k)
    decreases |cast|
  {
    if |cast| > 0 {
      var n := |cast| - 1;
      var prefix := cast[..n];
      WriteCastCompletes(cachePath, prefix, files, failing);
      assert Unnamed(cast, n) <==> |cast[n].name| == 0;
      assert forall k :: 0 <= k < n ==> (Unnamed(prefix, k) <==> Unnamed(cast, k));
    }
  }

  /** A person of the cast whose file is at `path`. */
  predicate WritesTo(cachePath: string, cast: seq<CastEntry>, k: int, path: string) {
    0 <= k < |cast| && CastPath(cast[k].name, cachePath) == Some(path)
  }

  /** An existing file is never replaced by a person without an image. */
  lemma {:induction false} WriteCastKeepsWithoutImage(cachePath: string, cast: seq<CastEntry>, files: map<string, CastEntry>,
                                                      failing: Failing, path: string)
    requires path in files
    requires forall k :: WritesTo(cachePath, cast, k, path) ==> cast[k].image.None?
    ensures path in WriteCast(cachePath, cast, files, failing).files
    ensures WriteCast(cachePath, cast, files, failing).files[path] == files[path]
    decreases |cast|
  {
    if |cast| > 0 {
      var n := |cast| - 1;
      assert forall k :: WritesTo(cachePath, cast[..n], k, path) ==> WritesTo(cachePath, cast, k, path);
      WriteCastKeepsWithoutImage(cachePath, cast[..n], files, failing, path);
      assert WritesTo(cachePath, cast, n, path) <==> CastPath(cast[n].name, cachePath) == Some(path);
    }
  }

  /** A person with an image replaces the file at its path, whether or not
      it exists, unless a later person with an image writes the same file. */
  lemma {:induction false} WriteCastImageWins(cachePath: string, cast: seq<CastEntry>, files: map<string, CastEntry>,
                                              failing: Failing, k: nat, path: string)
    requires WriteCast(cachePath, cast, files, failing).completed
    requires WritesTo(cachePath, cast, k, path) && cast[k].image.Some? && path !in failing
    requires forall j :: k < j < |cast| && WritesTo(cachePath, cast, j, path) ==> cast[j].image.None?
    ensures path in WriteCast(cachePath, cast, files, failing).files
    ensures WriteCast(cachePath, cast, files, failing).files[path] == cast[k]
    decreases |cast|
  {
    var n := |cast| - 1;
    var prior := WriteCast(cachePath, cast[..n], files, failing);
    assert prior.completed;
    if k < n {
      assert forall j :: k < j < n && WritesTo(cachePath, cast[..n], j, path) ==> WritesTo(cachePath, cast, j, path);
      WriteCastImageWins(cachePath, cast[..n], files, failing, k, path);
      assert WritesTo(cachePath, cast, n, path) <==> CastPath(cast[n].name, cachePath) == Some(path);
    }
  }

  /** Every file that changes holds a person of the cast whose path it is. */
  lemma {:induction false} WriteCastWritesCast(cachePath: string, cast: seq<CastEntry>, files: map<string, CastEntry>,
                                               failing: Failing, path: string)
    requires path in WriteCast(cachePath, cast, files, failing).files
    requires path !in files || WriteCast(cachePath, cast, files, failing).files[path] != files[path]
    ensures exists k :: WritesTo(cachePath, cast, k, path) && WriteCast(cachePath, cast, files, failing).files[path] == cast[k]
    ensures path !in failing
    decreases |cast|
  {
    var n := |cast| - 1;
    var prior := WriteCast(cachePath, cast[..n], files, failing);
    if prior.completed && CastPath(cast[n].name, cachePath) == Some(path)
       && WriteCast(cachePath, cast, files, failing).files != prior.files {
      assert WritesTo(cachePath, cast, n, path);
    } else {
      WriteCastWritesCast(cachePath, cast[..n], files, failing, path);
      var k :| WritesTo(cachePath, cast[..n], k, path) && prior.files[path] == cast[..n][k];
      assert WritesTo(cachePath, cast, k, path);
    }
  }

  /** When ExtractCast runs to the end, every person's file exists, unless
      opening it fails. */
  lemma {:induction false} WriteCastCreates(cachePath: string, cast: seq<CastEntry>, files: map<string, CastEntry>,
                                            failing: Failing, k: nat, path: string)
    requires WriteCast(cachePath, cast, files, failing).completed
    requires WritesTo(cachePath, cast, k, path) && path !in failing
    ensures path in WriteCast(cachePath, cast, files, failing).files
    decreases |cast|
  {
    var n := |cast| - 1;
    var prior := WriteCast(cachePath, cast[..n], files, failing);
    if k < n {
      WriteCastCreates(cachePath, cast[..n], files, failing, k, path);
      assert prior.files.Keys <= WriteEntry(cachePath, cast[n], prior.files, failing).files.Keys;
    }
  }

  /** The last person with an image among those whose file is `path`,
      from index `j` on. */
  lemma {:induction false} LastImagedWriter(cachePath: string, cast: seq<CastEntry>, path: string, j: nat) returns (k: nat)
    requires WritesTo(cachePath, cast, j, path) && cast[j].image.Some?
    ensures j <= k && WritesTo(cachePath, cast, k, path) && cast[k].image.Some?
    ensures forall i :: k < i < |cast| && WritesTo(cachePath, cast, i, path) ==> cast[i].image.None?
    decreases |cast| - j
  {
    if exists i :: j < i < |cast| && WritesTo(cachePath, cast, i, path) && cast[i].image.Some? {
      var i :| j < i < |cast| && WritesTo(cachePath, cast, i, path) && cast[i].image.Some?;
      k := LastImagedWriter(cachePath, cast, path, i);
    } else {
      k := j;
    }
  }

  /** A second complete run leaves each file as the first run left it. */
  lemma WriteCastAgainAt(cachePath: string, cast: seq<CastEntry>, files: map<string, CastEntry>, failing: Failing, path: string)
    requires WriteCast(cachePath, cast, files, failing).completed
    ensures var once := WriteCast(cachePath, cast, files, failing).files;
      var twice := WriteCast(cachePath, cast, once, failing);
      twice.completed && (path in twice.files <==> path in once) && (path in once ==> twice.files[path] == once[path])
  {
    var once := WriteCast(cachePath, cast, files, failing).files;
    var twice := WriteCast(cachePath, cast, once, failing);
    WriteCastCompletes(cachePath, cast, files, failing);
    WriteCastCompletes(cachePath, cast, once, failing);
    if path in twice.files && (path !in once || twice.files[path] != once[path]) {
      WriteCastWritesCast(cachePath, cast, once, failing, path);
      var k :| WritesTo(cachePath, cast, k, path) && twice.files[path] == cast[k];
      WriteCastCreates(cachePath, cast, files, failing, k, path);
      if exists j :: WritesTo(cachePath, cast, j, path) && cast[j].image.Some? {
        var j :| WritesTo(cachePath, cast, j, path) && cast[j].image.Some?;
        var last := LastImagedWriter(cachePath, cast, path, j);
        WriteCastImageWins(cachePath, cast, files, failing, last, path);
        WriteCastImageWins(cachePath, cast, once, failing, last, path);
      } else {
        WriteCastKeepsWithoutImage(cachePath, cast, once, failing, path);
      }
    }
  }

  /** ExtractCast on an unchanged record, run again over the person files
      the first run left, changes nothing: the cast is written to the same
      files, and a run that stopped at an empty name stops there again. */
  lemma {:induction false} WriteCastIdempotent(cachePath: string, cast: seq<CastEntry>, files: map<string, CastEntry>, failing: Failing)
    ensures WriteCast(cachePath, cast, WriteCast(cachePath, cast, files, failing).files, failing)
      == WriteCast(cachePath, cast, files, failing)
    decreases |cast|
  {
    var first := WriteCast(cachePath, cast, files, failing);
    if first.completed {
      var second := WriteCast(cachePath, cast, first.files, failing);
      forall path
        ensures (path in second.files <==> path in first.files)
        ensures path in first.files ==> second.files[path] == first.files[path]
      {
        WriteCastAgainAt(cachePath, cast, files, failing, path);
      }
      WriteCastAgainAt(cachePath, cast, files, failing, "");
      assert second.files == first.files;
    } else {
      var n := |cast| - 1;
      var prior := WriteCast(cachePath, cast[..n], files, failing);
      WriteCastIdempotent(cachePath, cast[..n], files, failing);
      assert WriteCast(cachePath, cast[..n], prior.files, failing) == prior;
    }
  }

  /** A `<characters>` or a `<creators>` element of the series file. */
  datatype CastSection = Characters(characters: seq<Character>) | Creators(creators: seq<Creator>)

  /** The cast ExtractCast collects, section by section. */
  function CastOf(sections: seq<CastSection>): seq<CastEntry>
    decreases |sections|
  {
    if |sections| == 0 then []
    else
      var s := sections[|sections| - 1];
      CastOf(sections[..|sections| - 1])
        + match s
          case Characters(characters) => CharacterEntries(characters)
          case Creators(creators) => CreatorEntries(creators)
  }

  /** The reader loop of ExtractCast: the people of every section, in
      order. */
  method CollectCast(sections: seq<CastSection>) returns (cast: seq<CastEntry>)
    ensures cast == CastOf(sections)
  {
    cast := [];
    var i := 0;
    while i < |sections|
      invariant 0 <= i <= |sections|
      invariant cast == CastOf(sections[..i])
    {
      assert sections[..i + 1][..i] == sections[..i];
      var people: seq<CastEntry>;
      if sections[i].Characters? {
        people := ParseCharacterList(sections[i].characters);
      } else {
        people := ParseCreatorsList(sections[i].creators);
      }
      cast := cast + people;
      i := i + 1;
    }
    assert sections[..i] == sections;
  }

  /** ExtractCast: collect the cast, then write each person's file by the
      write rule. */
  method ExtractCast(cachePath: string, sections: seq<CastSection>, files: map<string, CastEntry>, failing: Failing)
    returns (written: CastWrite)
    ensures written == WriteCast(cachePath, CastOf(sections), files, failing)
  {
    var cast := CollectCast(sections);
    var current := files;
    var k := 0;
    while k < |cast|
      invariant 0 <= k <= |cast|
      invariant WriteCast(cachePath, cast[..k], files, failing) == CastWrite(current, true)
    {
      assert cast[..k + 1][..k] == cast[..k];
      var person := cast[k];
      var lower := ToLowerInvariant(person.name);
      if |lower| == 0 {
        WriteCastStops(cachePath, cast, files, failing, k + 1);
        return CastWrite(current, false);
      }
      var path := CombineAll([cachePath, PeopleDirectory, [lower[0]], lower + ".xml"]);
      assert CastPath(person.name, cachePath) == Some(path);
      ghost var step := WriteEntry(cachePath, person, current, failing);
      assert WriteCast(cachePath, cast[..k + 1], files, failing) == step;
      if (path !in current || person.image != None) && path !in failing {
        current := current[path := person];
      }
      assert step == CastWrite(current, true);
      k := k + 1;
    }
    assert cast[..k] == cast;
    written := CastWrite(current, true);
  }

  // ---------------------------------------------------------------------
  // ParseEpisodeNumber, SaveEpsiodeXml and ExtractEpisodes

  /** A child element of an `<episode>` fragment: its name and text. */
  datatype Child = Child(name: string, content: string)

  predicate IsEpno(c: Child) {
    c.name == "epno"
  }

  /** ParseEpisodeNumber: the first `<epno>` child whose text is not empty
      or white space. */
  function EpisodeNumber(children: seq<Child>): (r: Option<string>)
    ensures r.Some? ==> exists i :: 0 <= i < |children| && IsEpno(children[i]) && children[i].content == r.value
    ensures r.Some? ==> !AllWhiteSpace(r.value)
    ensures r.None? <==> forall i :: 0 <= i < |children| && IsEpno(children[i]) ==> AllWhiteSpace(children[i].content)
  {
    if |children| == 0 then None
    else if IsEpno(children[0]) && !AllWhiteSpace(children[0].content) then Some(children[0].content)
    else
      var r := EpisodeNumber(children[1..]);
      assert forall i :: 1 <= i < |children| ==> children[1..][i - 1] == children[i];
      r
  }

  /** The first non-blank `<epno>` wins over any later one. */
  lemma {:induction false} EpisodeNumberFirst(children: seq<Child>, i: nat)
    requires i < |children| && IsEpno(children[i]) && !AllWhiteSpace(children[i].content)
    requires forall k :: 0 <= k < i && IsEpno(children[k]) ==> AllWhiteSpace(children[k].content)
    ensures EpisodeNumber(children) == Some(children[i].content)
    decreases i
  {
    if i > 0 {
      assert children[1..][i - 1] == children[i];
      EpisodeNumberFirst(children[1..], i - 1);
    }
  }

  method ParseEpisodeNumber(children: seq<Child>) returns (epno: Option<string>)
    ensures epno == EpisodeNumber(children)
  {
    var i := 0;
    while i < |children|
      invariant 0 <= i <= |children|
      invariant forall k :: 0 <= k < i && IsEpno(children[k]) ==> AllWhiteSpace(children[k].content)
    {
      if children[i].name == "epno" {
        var val := children[i].content;
        if !AllWhiteSpace(val) {
          EpisodeNumberFirst(children, i);
          return Some(val);
        }
      }
      i := i + 1;
    }
    return None;
  }

  /** The name SaveEpsiodeXml gives a fragment: `episode-<epno>.xml`. */
  function EpisodeFileName(epno: string): string {
    "episode-" + epno + ".xml"
  }

  /** Different episode numbers are saved under different paths. */
  lemma EpisodePathInjective(directory: string, a: string, b: string)
    requires Combine(directory, EpisodeFileName(a)) == Combine(directory, EpisodeFileName(b))
    ensures a == b
  {
    CombineInjective(directory, EpisodeFileName(a), EpisodeFileName(b));
    CancelAround("episode-", a, b, ".xml");
  }

  /** An `<episode>` element: its children and its outer XML. */
  datatype Fragment = Fragment(children: seq<Child>, xml: string)

  /** SaveEpsiodeXml: the fragment is saved only when it has an episode
      number, as `episode-<epno>.xml`; no other file changes. */
  function SaveEpisodeXml(directory: string, fragment: Fragment, files: map<string, string>): (r: map<string, string>)
    ensures EpisodeNumber(fragment.children).None? ==> r == files
    ensures EpisodeNumber(fragment.children).Some? ==>
      var path := Combine(directory, EpisodeFileName(EpisodeNumber(fragment.children).value));
      r.Keys == files.Keys + {path} && r[path] == fragment.xml
      && forall p :: p in files && p != path ==> r[p] == files[p]
  {
    match EpisodeNumber(fragment.children)
    case None => files
    case Some(epno) => files[Combine(directory, EpisodeFileName(epno)) := fragment.xml]
  }

  /** ExtractEpisodes: every fragment in order. */
  function SaveEpisodes(directory: string, fragments: seq<Fragment>, files: map<string, string>): (r: map<string, string>)
    ensures files.Keys <= r.Keys
    decreases |fragments|
  {
    if |fragments| == 0 then files
    else SaveEpisodeXml(directory, fragments[|fragments| - 1], SaveEpisodes(directory, fragments[..|fragments| - 1], files))
  }

  method ExtractEpisodes(directory: string, fragments: seq<Fragment>, files: map<string, string>)
    returns (saved: map<string, string>)
    ensures saved == SaveEpisodes(directory, fragments, files)
  {
    saved := files;
    var i := 0;
    while i < |fragments|
      invariant 0 <= i <= |fragments|
      invariant saved == SaveEpisodes(directory, fragments[..i], files)
    {
      assert fragments[..i + 1][..i] == fragments[..i];
      var episodeNumber := ParseEpisodeNumber(fragments[i].children);
      if episodeNumber.Some? {
        var file := Combine(directory, EpisodeFileName(episodeNumber.value));
        saved := saved[file := fragments[i].xml];
      }
      i := i + 1;
    }
    assert fragments[..i] == fragments;
  }

  /** The file of an episode number holds the last fragment with that
      number. */
  lemma {:induction false} SaveEpisodesLastWins(directory: string, fragments: seq<Fragment>, files: map<string, string>,
                                                k: nat, epno: string)
    requires k < |fragments| && EpisodeNumber(fragments[k].children) == Some(epno)
    requires forall j :: k < j < |fragments| ==> EpisodeNumber(fragments[j].children) != Some(epno)
    ensures Combine(directory, EpisodeFileName(epno)) in SaveEpisodes(directory, fragments, files)
    ensures SaveEpisodes(directory, fragments, files)[Combine(directory, EpisodeFileName(epno))] == fragments[k].xml
    decreases |fragments|
  {
    var n := |fragments| - 1;
    if k < n {
      SaveEpisodesLastWins(directory, fragments[..n], files, k, epno);
      match EpisodeNumber(fragments[n].children)
      case None =>
      case Some(e) =>
        if Combine(directory, EpisodeFileName(e)) == Combine(directory, EpisodeFileName(epno)) {
          EpisodePathInjective(directory, e, epno);
        }
    }
  }

  /** A file no fragment's number names is left as it was. */
  lemma {:induction false} SaveEpisodesKeeps(directory: string, fragments: seq<Fragment>, files: map<string, string>, path: string)
    requires forall j :: 0 <= j < |fragments| && EpisodeNumber(fragments[j].children).Some? ==>
      Combine(directory, EpisodeFileName(EpisodeNumber(fragments[j].children).value)) != path
    ensures (path in SaveEpisodes(directory, fragments, files)) == (path in files)
    ensures path in files ==> SaveEpisodes(directory, fragments, files)[path] == files[path]
    decreases |fragments|
  {
    if |fragments| > 0 {
      var n := |fragments| - 1;
      SaveEpisodesKeeps(directory, fragments[..n], files, path);
    }
  }

  /** Saving the fragments over existing files overlays the files they
      produce on their own. */
  lemma {:induction false} SaveEpisodesOverlay(directory: string, fragments: seq<Fragment>, files: map<string, string>)
    ensures SaveEpisodes(directory, fragments, files) == files + SaveEpisodes(directory, fragments, map[])
    decreases |fragments|
  {
    if |fragments| > 0 {
      var n := |fragments| - 1;
      SaveEpisodesOverlay(directory, fragments[..n], files);
      var own := SaveEpisodes(directory, fragments[..n], map[]);
      match EpisodeNumber(fragments[n].children)
      case None =>
      case Some(epno) =>
        var path := Combine(directory, EpisodeFileName(epno));
        assert (files + own)[path := fragments[n].xml] == files + own[path := fragments[n].xml];
    }
  }

  /** Extracting the episodes of an unchanged record again leaves the
      files as the first extraction left them. */
  lemma SaveEpisodesIdempotent(directory: string, fragments: seq<Fragment>, files: map<string, string>)
    ensures SaveEpisodes(directory, fragments, SaveEpisodes(directory, fragments, files))
      == SaveEpisodes(directory, fragments, files)
  {
    var once := SaveEpisodes(directory, fragments, files);
    var own := SaveEpisodes(directory, fragments, map[]);
    SaveEpisodesOverlay(directory, fragments, files);
    SaveEpisodesOverlay(directory, fragments, once);
    assert once + own == files + own + own;
    assert files + own + own == files + own;
  }
}
