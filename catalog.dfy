/** The series catalog the widget loads once, and the pure meaning of the three
    scans it runs over it: the sorted distinct tag list, the series matching a
    tag, and the lookup of a series by id. The widget's methods are proved
    equal to these functions; the lemmas here say what the functions mean. */
module Catalog {
  import opened Options
  import opened StringOrder
  import Decimal

  /** One record of the loaded JSON array. The fields the page only prints
      are kept as the text they print as. */
  datatype Series = Series(
    id: int,
    title: string,
    tags: seq<string>,
    rating: string,
    nativeLanguageTitle: string,
    sourceCountry: string,
    seriesType: string,
    episodes: string,
    thumbnail: string,
    description: string)

  /** The `{id, title}` pair the matching list shows for a series. */
  datatype MatchingSeries = MatchingSeries(id: int, title: string)

  function Summary(s: Series): MatchingSeries
  {
    MatchingSeries(s.id, s.title)
  }

  ghost predicate CarriesTag(catalog: seq<Series>, tag: string)
  {
    exists i :: 0 <= i < |catalog| && tag in catalog[i].tags
  }

  predicate UniqueIds(catalog: seq<Series>)
  {
    forall i, j :: 0 <= i < j < |catalog| ==> catalog[i].id != catalog[j].id
  }

  // ---------------------------------------------------------------- tag list

  /** Every tag of every series, in catalog order, repeats included. */
  function AllTags(catalog: seq<Series>): seq<string>
  {
    if catalog == [] then []
    else AllTags(catalog[..|catalog| - 1]) + catalog[|catalog| - 1].tags
  }

  lemma {:induction false} AllTagsMembers(catalog: seq<Series>, tag: string)
    ensures tag in AllTags(catalog) <==> CarriesTag(catalog, tag)
  {
    if catalog != [] {
      var n := |catalog| - 1;
      var init := catalog[..n];
      AllTagsMembers(init, tag);
      assert tag in AllTags(catalog) <==> tag in AllTags(init) || tag in catalog[n].tags;
      if CarriesTag(init, tag) {
        var i :| 0 <= i < |init| && tag in init[i].tags;
        assert catalog[i] == init[i];
      }
      if CarriesTag(catalog, tag) && tag !in catalog[n].tags {
        var i :| 0 <= i < |catalog| && tag in catalog[i].tags;
        assert init[i] == catalog[i];
      }
    }
  }

  /** Keeps the first occurrence of each string, in order: what pushing a tag
      only when it is not yet in the list leaves behind. */
  function FirstOccurrences(s: seq<string>): seq<string>
  {
    if s == [] then []
    else
      var d := FirstOccurrences(s[..|s| - 1]);
      if s[|s| - 1] in d then d else d + [s[|s| - 1]]
  }

  /** The first occurrences hold no string twice and exactly the strings of
      the input. */
  lemma {:induction false} FirstOccurrencesSpec(s: seq<string>)
    ensures NoDups(FirstOccurrences(s))
    ensures forall t :: t in FirstOccurrences(s) <==> t in s
  {
    if s != [] {
      var init := s[..|s| - 1];
      FirstOccurrencesSpec(init);
      assert s == init + [s[|s| - 1]];
    }
  }

  lemma AllTagsPrefix(catalog: seq<Series>, i: nat)
    requires i < |catalog|
    ensures AllTags(catalog[..i + 1]) == AllTags(catalog[..i]) + catalog[i].tags
  {
    assert catalog[..i + 1][..i] == catalog[..i];
  }

  lemma FirstOccurrencesSnoc(s: seq<string>, x: string)
    ensures FirstOccurrences(s + [x]) ==
      if x in FirstOccurrences(s) then FirstOccurrences(s) else FirstOccurrences(s) + [x]
  {
    assert (s + [x])[..|s|] == s;
  }

  /** The tag list: the distinct tags of the catalog, sorted. */
  function TagList(catalog: seq<Series>): (r: seq<string>)
    ensures Sorted(r) && NoDups(r)
  {
    var distinct := FirstOccurrences(AllTags(catalog));
    FirstOccurrencesSpec(AllTags(catalog));
    SortNoDups(distinct);
    Sort(distinct)
  }

  lemma TagListSpec(catalog: seq<Series>)
    ensures Sorted(TagList(catalog)) && NoDups(TagList(catalog))
    ensures forall t :: t in TagList(catalog) <==> CarriesTag(catalog, t)
  {
    var distinct := FirstOccurrences(AllTags(catalog));
    FirstOccurrencesSpec(AllTags(catalog));
    forall t
      ensures t in TagList(catalog) <==> CarriesTag(catalog, t)
    {
      assert t in TagList(catalog) <==> t in multiset(distinct);
      AllTagsMembers(catalog, t);
    }
  }

  /** Any sorted, duplicate-free list of exactly the catalog's tags is the tag list. */
  lemma TagListUnique(catalog: seq<Series>, s: seq<string>)
    requires Sorted(s) && NoDups(s)
    requires forall t :: t in s <==> CarriesTag(catalog, t)
    ensures s == TagList(catalog)
  {
    TagListSpec(catalog);
    StrictlySortedUnique(s, TagList(catalog));
  }

  // ----------------------------------------------------------- matching list

  /** The rows one series contributes for `tag`: one per occurrence of `tag`
      among its tags, as the inner scan pushes a row per equal tag. */
  function TagRows(tags: seq<string>, row: MatchingSeries, tag: string): (r: seq<MatchingSeries>)
    ensures |r| <= |tags|
  {
    if tags == [] then []
    else
      TagRows(tags[..|tags| - 1], row, tag) + (if tags[|tags| - 1] == tag then [row] else [])
  }

  /** The matching list for `tag`: each series' rows, in catalog order. */
  function Matching(catalog: seq<Series>, tag: string): (r: seq<MatchingSeries>)
    ensures |r| <= |AllTags(catalog)|
  {
    if catalog == [] then []
    else
      var last := catalog[|catalog| - 1];
      Matching(catalog[..|catalog| - 1], tag) + TagRows(last.tags, Summary(last), tag)
  }

  /** A series listing `tag` k times contributes exactly k copies of its row. */
  lemma {:induction false} TagRowsRepeat(tags: seq<string>, row: MatchingSeries, tag: string)
    ensures TagRows(tags, row, tag) == seq(multiset(tags)[tag], _ => row)
  {
    if tags != [] {
      var init := tags[..|tags| - 1];
      TagRowsRepeat(init, row, tag);
      assert tags == init + [tags[|tags| - 1]];
    }
  }

  lemma {:induction false} MatchingConcat(c1: seq<Series>, c2: seq<Series>, tag: string)
    ensures Matching(c1 + c2, tag) == Matching(c1, tag) + Matching(c2, tag)
  {
    if c2 != [] {
      var init := c2[..|c2| - 1];
      MatchingConcat(c1, init, tag);
      assert (c1 + c2)[..|c1 + c2| - 1] == c1 + init;
    } else {
      assert c1 + c2 == c1;
    }
  }

  /** The series at position i contributes its k copies between the rows of
      the series before it and those of the series after it. */
  lemma MatchingAt(catalog: seq<Series>, tag: string, i: nat)
    requires i < |catalog|
    ensures Matching(catalog, tag) ==
      Matching(catalog[..i], tag)
      + seq(multiset(catalog[i].tags)[tag], _ => Summary(catalog[i]))
      + Matching(catalog[i + 1..], tag)
  {
    var before, after := catalog[..i], catalog[i + 1..];
    assert catalog == before + [catalog[i]] + after;
    MatchingConcat(before + [catalog[i]], after, tag);
    MatchingConcat(before, [catalog[i]], tag);
    assert [catalog[i]][..0] == [];
    TagRowsRepeat(catalog[i].tags, Summary(catalog[i]), tag);
  }

  /** One row per occurrence of `tag` anywhere in the catalog. */
  lemma {:induction false} MatchingCount(catalog: seq<Series>, tag: string)
    ensures |Matching(catalog, tag)| == multiset(AllTags(catalog))[tag]
  {
    if catalog != [] {
      var last := catalog[|catalog| - 1];
      MatchingCount(catalog[..|catalog| - 1], tag);
      TagRowsRepeat(last.tags, Summary(last), tag);
    }
  }

  /** The matching list is empty exactly when no series carries the tag. */
  lemma MatchingEmptyIff(catalog: seq<Series>, tag: string)
    ensures Matching(catalog, tag) == [] <==> !CarriesTag(catalog, tag)
  {
    MatchingCount(catalog, tag);
    AllTagsMembers(catalog, tag);
  }

  /** Every row is the summary of a series that carries the tag. */
  lemma {:induction false} MatchingRowsFromCarriers(catalog: seq<Series>, tag: string, k: nat)
    requires k < |Matching(catalog, tag)|
    ensures exists i :: 0 <= i < |catalog| && tag in catalog[i].tags
                        && Matching(catalog, tag)[k] == Summary(catalog[i])
  {
    var n := |catalog| - 1;
    var init := catalog[..n];
    var head := Matching(init, tag);
    var rows := TagRows(catalog[n].tags, Summary(catalog[n]), tag);
    if k < |head| {
      MatchingRowsFromCarriers(init, tag, k);
      var i :| 0 <= i < |init| && tag in init[i].tags && head[k] == Summary(init[i]);
      assert catalog[i] == init[i];
    } else {
      TagRowsRepeat(catalog[n].tags, Summary(catalog[n]), tag);
      assert rows[k - |head|] == Summary(catalog[n]);
      assert tag in multiset(catalog[n].tags);
    }
  }

  // ------------------------------------------------------------ id lookup

  /** The first series whose id is `id`, or `None` when there is none. */
  function FindById(catalog: seq<Series>, id: int): (r: Option<Series>)
    ensures r.None? <==> forall i :: 0 <= i < |catalog| ==> catalog[i].id != id
    ensures r.Some? ==> exists i :: 0 <= i < |catalog| && catalog[i] == r.value && r.value.id == id
                                    && forall j :: 0 <= j < i ==> catalog[j].id != id
  {
    if catalog == [] then None
    else if catalog[0].id == id then Some(catalog[0])
    else
      var r := FindById(catalog[1..], id);
      assert forall i :: 0 < i < |catalog| ==> catalog[i] == catalog[1..][i - 1];
      r
  }

  /** The lookup behind a click on a matching row: the attribute text is read
      with `parseInt` and compared to each id; `NaN` equals no id. */
  function LookupIdText(catalog: seq<Series>, idText: string): (r: Option<Series>)
    ensures r.Some? ==> r.value in catalog && Decimal.ParseInt(idText) == Some(r.value.id)
    ensures r.None? <==> Decimal.ParseInt(idText).None?
                         || forall s :: s in catalog ==> Some(s.id) != Decimal.ParseInt(idText)
  {
    match Decimal.ParseInt(idText)
    case None => None
    case Some(id) => FindById(catalog, id)
  }

  /** The attribute a rendered row carries always resolves, to a series with
      the row's id; when ids are unique, to the series the row was made from. */
  lemma RenderedRowResolves(catalog: seq<Series>, tag: string, k: nat)
    requires k < |Matching(catalog, tag)|
    ensures var row := Matching(catalog, tag)[k];
            var found := LookupIdText(catalog, Decimal.IntToString(row.id));
            found.Some? && found.value.id == row.id
            && (UniqueIds(catalog) ==> Summary(found.value) == row)
  {
    var row := Matching(catalog, tag)[k];
    Decimal.ParseIntOfIntToString(row.id);
    MatchingRowsFromCarriers(catalog, tag, k);
    var i :| 0 <= i < |catalog| && tag in catalog[i].tags && row == Summary(catalog[i]);
    var found := FindById(catalog, row.id);
    assert found.Some?;
    if UniqueIds(catalog) {
      var f :| 0 <= f < |catalog| && catalog[f] == found.value && found.value.id == row.id;
      assert catalog[f].id == catalog[i].id;
    }
  }

  // ---------------------------------------------------------------- example

  /** Two series, the first tagged x and y, the second tagged y. */
  function TwoSeries(): seq<Series>
  {
    [Series(1, "A", ["x", "y"], "", "", "", "", "", "", ""),
     Series(2, "B", ["y"], "", "", "", "", "", "", "")]
  }

  lemma TwoSeriesTagList()
    ensures TagList(TwoSeries()) == ["x", "y"]
  {
    var c := TwoSeries();
    var tags := ["x", "y"];
    assert Less("x", "y");
    assert Sorted(tags) && NoDups(tags);
    forall t
      ensures t in tags <==> CarriesTag(c, t)
    {
      if t in tags { assert t in c[0].tags; }
      if CarriesTag(c, t) {
        var i :| 0 <= i < |c| && t in c[i].tags;
      }
    }
    TagListUnique(c, tags);
  }

  /** Both series match y, in catalog order. */
  lemma TwoSeriesMatching()
    ensures Matching(TwoSeries(), "y") == [MatchingSeries(1, "A"), MatchingSeries(2, "B")]
  {
    var c := TwoSeries();
    var a, b := c[0], c[1];
    assert TagRows(a.tags, Summary(a), "y") == [Summary(a)] by {
      assert a.tags[..1] == ["x"] && ["x"][..0] == [];
    }
    assert TagRows(b.tags, Summary(b), "y") == [Summary(b)] by {
      assert b.tags[..0] == [];
    }
    assert c[..1] == [a] && [a][..0] == [];
    assert Matching([a], "y") == [Summary(a)];
  }

  /** A tag no series carries matches nothing. */
  lemma TwoSeriesNoMatch()
    ensures Matching(TwoSeries(), "z") == []
  {
    var c := TwoSeries();
    assert forall i :: 0 <= i < |c| ==> "z" !in c[i].tags;
  }

  /** The text "2" finds the second series. */
  lemma TwoSeriesLookup()
    ensures LookupIdText(TwoSeries(), "2") == Some(TwoSeries()[1])
  {
    assert Decimal.IntToString(2) == "2";
    Decimal.ParseIntOfIntToString(2);
  }
}
