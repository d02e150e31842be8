/** ParseTags of AniDbSeriesProvider: the genres of a series are the names of
    its heavy enough, not ignored tags, ordered by weight. */
module SeriesGenres {
  import opened Wrappers

  /** A `<tag>` element: its weight, id and parentid attributes as
      int.TryParse reads them (None when absent or not a number) and the
      texts of its `<name>` descendants in document order. */
  datatype Tag = Tag(weight: Option<int>, id: Option<int>, parentId: Option<int>, names: seq<string>)

  /** AniDbSeriesProvider's GenreInfo. */
  datatype GenreInfo = GenreInfo(name: string, weight: int)

  /** IgnoredTagIds. */
  const IgnoredTagIds: set<int> := {6, 22, 23, 60, 128, 129, 185, 216, 242, 255, 268, 269, 289}

  predicate Ignored(x: Option<int>) {
    x.Some? && x.value in IgnoredTagIds
  }

  /** The three `continue` guards of the tag loop, all passed. */
  predicate Accepted(t: Tag) {
    t.weight.Some? && t.weight.value >= 400 && !Ignored(t.id) && !Ignored(t.parentId)
  }

  /** The genres one accepted tag contributes: each name, with the tag's
      weight. */
  function TagGenres(t: Tag): (r: seq<GenreInfo>)
    requires t.weight.Some?
    ensures |r| == |t.names|
    ensures forall k :: 0 <= k < |r| ==> r[k] == GenreInfo(t.names[k], t.weight.value)
  {
    seq(|t.names|, k requires 0 <= k < |t.names| => GenreInfo(t.names[k], t.weight.value))
  }

  /** The `genres` list after the tag loop has seen `tags`; no genre
      weighs less than 400. */
  function CollectGenres(tags: seq<Tag>): (r: seq<GenreInfo>)
    ensures forall k :: 0 <= k < |r| ==> r[k].weight >= 400
    decreases |tags|
  {
    if |tags| == 0 then []
    else
      var last := tags[|tags| - 1];
      CollectGenres(tags[..|tags| - 1]) + (if Accepted(last) then TagGenres(last) else [])
  }

  /** Genre `g` is name k of accepted tag i, with its weight. */
  predicate FromTag(tags: seq<Tag>, g: GenreInfo, i: int, k: int) {
    0 <= i < |tags| && Accepted(tags[i]) && 0 <= k < |tags[i].names|
    && g == GenreInfo(tags[i].names[k], tags[i].weight.value)
  }

  /** Every collected genre is a name of an accepted tag, with that tag's
      weight. */
  lemma {:induction false} CollectedFromTag(tags: seq<Tag>, g: GenreInfo)
    requires g in CollectGenres(tags)
    ensures exists i, k :: FromTag(tags, g, i, k)
    decreases |tags|
  {
    var n := |tags| - 1;
    var front := tags[..n];
    var extra := if Accepted(tags[n]) then TagGenres(tags[n]) else [];
    assert CollectGenres(tags) == CollectGenres(front) + extra;
    if g in CollectGenres(front) {
      CollectedFromTag(front, g);
      var i, k :| FromTag(front, g, i, k);
      assert tags[i] == front[i];
      assert FromTag(tags, g, i, k);
    } else {
      var k :| 0 <= k < |extra| && extra[k] == g;
      assert FromTag(tags, g, n, k);
    }
  }

  /** Every name of an accepted tag is collected, with that tag's weight. */
  lemma {:induction false} TagCollected(tags: seq<Tag>, g: GenreInfo, i: int, k: int)
    requires FromTag(tags, g, i, k)
    ensures g in CollectGenres(tags)
    decreases |tags|
  {
    var n := |tags| - 1;
    var front := tags[..n];
    var extra := if Accepted(tags[n]) then TagGenres(tags[n]) else [];
    assert CollectGenres(tags) == CollectGenres(front) + extra;
    if i < n {
      assert front[i] == tags[i];
      TagCollected(front, g, i, k);
    } else {
      assert extra[k] == g;
    }
  }

  // ---------------------------------------------------------------------
  // OrderBy(g => g.Weight): a stable sort by weight

  predicate SortedByWeight(s: seq<GenreInfo>) {
    forall i, j :: 0 <= i < j < |s| ==> s[i].weight <= s[j].weight
  }

  /** The elements of weight `w`, in order. */
  function OfWeight(s: seq<GenreInfo>, w: int): seq<GenreInfo>
    decreases |s|
  {
    if |s| == 0 then []
    else OfWeight(s[..|s| - 1], w) + (if s[|s| - 1].weight == w then [s[|s| - 1]] else [])
  }

  /** `x` placed after every element of `s` no heavier than it. */
  function Insert(s: seq<GenreInfo>, x: GenreInfo): (r: seq<GenreInfo>)
    ensures |r| == |s| + 1
    decreases |s|
  {
    if |s| == 0 then [x]
    else if s[|s| - 1].weight <= x.weight then s + [x]
    else Insert(s[..|s| - 1], x) + [s[|s| - 1]]
  }

  /** Enumerable.OrderBy by weight, which is stable. */
  function OrderByWeight(s: seq<GenreInfo>): (r: seq<GenreInfo>)
    ensures |r| == |s|
    decreases |s|
  {
    if |s| == 0 then [] else Insert(OrderByWeight(s[..|s| - 1]), s[|s| - 1])
  }

  lemma {:induction false} OfWeightAppend(a: seq<GenreInfo>, b: seq<GenreInfo>, w: int)
    ensures OfWeight(a + b, w) == OfWeight(a, w) + OfWeight(b, w)
    decreases |b|
  {
    if |b| == 0 {
      assert a + b == a;
    } else {
      var n := |b| - 1;
      assert (a + b)[..|a + b| - 1] == a + b[..n];
      assert (a + b)[|a + b| - 1] == b[n];
      OfWeightAppend(a, b[..n], w);
    }
  }

  /** A bound on every weight survives insertion. */
  lemma {:induction false} InsertBound(s: seq<GenreInfo>, x: GenreInfo, b: int)
    requires forall i :: 0 <= i < |s| ==> s[i].weight <= b
    requires x.weight <= b
    ensures forall i :: 0 <= i < |Insert(s, x)| ==> Insert(s, x)[i].weight <= b
    decreases |s|
  {
    if |s| > 0 && s[|s| - 1].weight > x.weight {
      InsertBound(s[..|s| - 1], x, b);
    }
  }

  lemma {:induction false} InsertSorted(s: seq<GenreInfo>, x: GenreInfo)
    requires SortedByWeight(s)
    ensures SortedByWeight(Insert(s, x))
    decreases |s|
  {
    if |s| > 0 {
      var n := |s| - 1;
      var front, last := s[..n], s[n];
      if last.weight > x.weight {
        InsertSorted(front, x);
        InsertBound(front, x, last.weight);
        var r := Insert(front, x);
        assert Insert(s, x) == r + [last];
        assert forall i :: 0 <= i < |r| ==> (r + [last])[i] == r[i];
      }
    }
  }

  lemma {:induction false} InsertMultiset(s: seq<GenreInfo>, x: GenreInfo)
    ensures multiset(Insert(s, x)) == multiset(s) + multiset{x}
    decreases |s|
  {
    if |s| > 0 {
      var n := |s| - 1;
      assert s == s[..n] + [s[n]];
      if s[n].weight > x.weight {
        InsertMultiset(s[..n], x);
      }
    }
  }

  lemma OfWeightSingle(x: GenreInfo, w: int)
    ensures OfWeight([x], w) == if x.weight == w then [x] else []
  {
    assert [x][..0] == [];
  }

  lemma {:induction false} InsertOfWeight(s: seq<GenreInfo>, x: GenreInfo, w: int)
    ensures OfWeight(Insert(s, x), w) == OfWeight(s, w) + OfWeight([x], w)
    decreases |s|
  {
    if |s| == 0 {
      assert OfWeight([], w) == [];
    } else {
      var n := |s| - 1;
      var front, last := s[..n], s[n];
      if last.weight <= x.weight {
        OfWeightAppend(s, [x], w);
      } else {
        var r := Insert(front, x);
        var a := OfWeight(front, w);
        var tag := if last.weight == w then [last] else [];
        assert Insert(s, x) == r + [last];
        assert (r + [last])[..|r|] == r;
        assert OfWeight(r + [last], w) == OfWeight(r, w) + tag;
        assert OfWeight(s, w) == a + tag;
        InsertOfWeight(front, x, w);
        OfWeightSingle(x, w);
        if x.weight == w {
          assert tag == [];
          assert a + [] == a;
          assert (a + [x]) + [] == a + [x];
        } else {
          assert OfWeight([x], w) == [];
          assert a + [] == a;
          assert (a + tag) + [] == a + tag;
        }
      }
    }
  }

  lemma {:induction false} OrderByWeightSorted(s: seq<GenreInfo>)
    ensures SortedByWeight(OrderByWeight(s))
    decreases |s|
  {
    if |s| > 0 {
      var n := |s| - 1;
      OrderByWeightSorted(s[..n]);
      InsertSorted(OrderByWeight(s[..n]), s[n]);
    }
  }

  lemma {:induction false} OrderByWeightPermutes(s: seq<GenreInfo>)
    ensures multiset(OrderByWeight(s)) == multiset(s)
    decreases |s|
  {
    if |s| > 0 {
      var n := |s| - 1;
      OrderByWeightPermutes(s[..n]);
      InsertMultiset(OrderByWeight(s[..n]), s[n]);
      assert s == s[..n] + [s[n]];
    }
  }

  lemma {:induction false} OrderByWeightStable(s: seq<GenreInfo>, w: int)
    ensures OfWeight(OrderByWeight(s), w) == OfWeight(s, w)
    decreases |s|
  {
    if |s| > 0 {
      var n := |s| - 1;
      OrderByWeightStable(s[..n], w);
      InsertOfWeight(OrderByWeight(s[..n]), s[n], w);
      OfWeightAppend(s[..n], [s[n]], w);
      assert s == s[..n] + [s[n]];
    }
  }

  /** OrderByWeight sorts by weight, keeps every genre, and keeps the genres
      of equal weight in their input order: it is the stable sort. */
  lemma OrderByWeightFacts(s: seq<GenreInfo>)
    ensures SortedByWeight(OrderByWeight(s))
    ensures multiset(OrderByWeight(s)) == multiset(s)
    ensures forall w :: OfWeight(OrderByWeight(s), w) == OfWeight(s, w)
  {
    OrderByWeightSorted(s);
    OrderByWeightPermutes(s);
    forall w ensures OfWeight(OrderByWeight(s), w) == OfWeight(s, w) {
      OrderByWeightStable(s, w);
    }
  }

  /** `.Select(g => g.Name)`. */
  function Names(s: seq<GenreInfo>): (r: seq<string>)
    ensures |r| == |s|
    ensures forall k :: 0 <= k < |s| ==> r[k] == s[k].name
  {
    seq(|s|, k requires 0 <= k < |s| => s[k].name)
  }

  /** ParseTags over the `<tag>` elements of a `<tags>` subtree. */
  method ParseTags(tags: seq<Tag>) returns (genres: seq<string>)
    ensures genres == Names(OrderByWeight(CollectGenres(tags)))
  {
    var list: seq<GenreInfo> := [];
    var i := 0;
    while i < |tags|
      invariant 0 <= i <= |tags|
      invariant list == CollectGenres(tags[..i])
    {
      var tag := tags[i];
      assert tags[..i + 1][..i] == tags[..i] && tags[..i + 1][i] == tag;
      assert CollectGenres(tags[..i + 1]) == CollectGenres(tags[..i]) + (if Accepted(tag) then TagGenres(tag) else []);
      if tag.weight.None? || tag.weight.value < 400 {
        i := i + 1;
        continue;
      }
      if tag.id.Some? && tag.id.value in IgnoredTagIds {
        i := i + 1;
        continue;
      }
      if tag.parentId.Some? && tag.parentId.value in IgnoredTagIds {
        i := i + 1;
        continue;
      }
      var weight := tag.weight.value;
      var k := 0;
      while k < |tag.names|
        invariant 0 <= k <= |tag.names|
        invariant list == CollectGenres(tags[..i]) + TagGenres(tag)[..k]
      {
        assert TagGenres(tag)[..k + 1] == TagGenres(tag)[..k] + [GenreInfo(tag.names[k], weight)];
        list := list + [GenreInfo(tag.names[k], weight)];
        k := k + 1;
      }
      assert TagGenres(tag)[..k] == TagGenres(tag);
      i := i + 1;
    }
    assert tags[..i] == tags;
    genres := Names(OrderByWeight(list));
  }

  lemma CollectTwo(t1: Tag, t2: Tag)
    requires Accepted(t1) && Accepted(t2) && |t1.names| == 1 && |t2.names| == 1
    ensures CollectGenres([t1, t2])
         == [GenreInfo(t1.names[0], t1.weight.value), GenreInfo(t2.names[0], t2.weight.value)]
  {
    assert [t1, t2][..1] == [t1] && [t1][..0] == [];
    assert TagGenres(t1) == [GenreInfo(t1.names[0], t1.weight.value)];
    assert TagGenres(t2) == [GenreInfo(t2.names[0], t2.weight.value)];
    assert CollectGenres([t1]) == CollectGenres([]) + TagGenres(t1);
    assert CollectGenres([t1, t2]) == CollectGenres([t1]) + TagGenres(t2);
  }

  lemma OrderTwo(g1: GenreInfo, g2: GenreInfo)
    requires g1.weight > g2.weight
    ensures OrderByWeight([g1, g2]) == [g2, g1]
  {
    assert [g1, g2][..1] == [g1] && [g1][..0] == [];
    assert OrderByWeight([g1]) == Insert([], g1) == [g1];
    assert Insert([g1], g2) == Insert([], g2) + [g1];
  }

  /** Genres come out in ascending weight: a heavier tag listed first ends
      up last. */
  lemma AscendingExample(heavy: string, light: string)
    ensures Names(OrderByWeight(CollectGenres([Tag(Some(600), Some(1), None, [heavy]),
                                                Tag(Some(400), Some(2), None, [light])])))
         == [light, heavy]
  {
    var t1 := Tag(Some(600), Some(1), None, [heavy]);
    var t2 := Tag(Some(400), Some(2), None, [light]);
    assert 1 !in IgnoredTagIds && 2 !in IgnoredTagIds;
    CollectTwo(t1, t2);
    OrderTwo(GenreInfo(heavy, 600), GenreInfo(light, 400));
  }

  /** Ignored ids, ignored parents, light tags and unreadable weights
      contribute nothing. */
  lemma RejectedTags(names: seq<string>)
    ensures CollectGenres([Tag(Some(500), Some(6), None, names)]) == []
    ensures CollectGenres([Tag(Some(500), None, Some(289), names)]) == []
    ensures CollectGenres([Tag(Some(399), None, None, names)]) == []
    ensures CollectGenres([Tag(None, None, None, names)]) == []
  {
    assert forall t: Tag :: [t][..0] == [];
  }
}
