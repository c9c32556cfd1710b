/** The tag browser widget: the loaded catalog and the state of the four page
    regions it drives (tag list, matching-items list with its header, the
    selected-series panel, the clear button), with the scans it runs over the
    catalog and the three click handlers that change the regions. */
module TagBrowser {
  import opened Options
  import opened StringOrder
  import opened Catalog
  import opened Templates
  import Decimal

  /** The matching-list header after a reset. */
  const NoTagSelected := "No Tag Selected"

  /** The matching-list header while a tag is selected: the name between two
      pairs of single quotes. The name can be read back from it, and it never
      reads as the neutral header. */
  function HeaderText(tagName: string): (h: string)
    ensures |h| == |tagName| + 4 && h[2..|h| - 2] == tagName
    ensures h != NoTagSelected
  {
    "''" + tagName + "''"
  }

  /** A copy of every region's state, for comparing two moments. */
  datatype View = View(
    tagListEntries: seq<string>,
    activeTag: Option<string>,
    matchingItems: seq<MatchingSeries>,
    activeSeriesId: Option<string>,
    header: string,
    detail: string,
    clearEnabled: bool)

  /** What `if (value)` accepts for an attribute value: it is set and is not
      the empty string. */
  predicate Truthy(attr: Option<string>)
  {
    attr.Some? && attr.value != ""
  }

  /** `attr` is the `data-series-id` some row of `rows` was rendered with. */
  predicate IsRowId(rows: seq<MatchingSeries>, attr: string)
  {
    exists r :: r in rows && Decimal.IntToString(r.id) == attr
  }

  /** The id text of a row matching `tag` names a series of the catalog. */
  lemma RowIdResolves(catalog: seq<Series>, tag: string, attr: string)
    requires IsRowId(Matching(catalog, tag), attr)
    ensures LookupIdText(catalog, attr).Some?
  {
    var rows := Matching(catalog, tag);
    var row :| row in rows && Decimal.IntToString(row.id) == attr;
    var k :| 0 <= k < |rows| && rows[k] == row;
    RenderedRowResolves(catalog, tag, k);
  }

  class TagBrowserWidget {
    /** The series array, set once when the data arrives. */
    const data: seq<Series>
    /** The tag names whose entries the tag list holds, in order. */
    var tagListEntries: seq<string>
    /** The tag whose entry is marked active, if any. */
    var activeTag: Option<string>
    /** The rows of the matching-items list, in order. */
    var matchingItems: seq<MatchingSeries>
    /** The `data-series-id` of the row marked active, if any. */
    var activeSeriesId: Option<string>
    /** The text of the heading above the matching-items list. */
    var header: string
    /** The markup of the selected-series panel. */
    var detail: string
    /** Whether the clear button is enabled. */
    var clearEnabled: bool

    /** The matching list and its header follow the active tag, the clear
        button is enabled while a tag is active, and the row marked active is
        one of the rows. */
    ghost predicate RegionsAgree()
      reads this
    {
      && matchingItems == (if activeTag.Some? then Matching(data, activeTag.value) else [])
      && (activeTag.Some? ==> header == HeaderText(activeTag.value) && clearEnabled)
      && (activeSeriesId.Some? ==> IsRowId(matchingItems, activeSeriesId.value))
    }

    /** The selected-series panel shows the placeholder or a series of the catalog. */
    ghost predicate DetailShowsCatalog()
      reads this
    {
      detail == DefaultSeriesTemplate() || exists s :: s in data && detail == SelectedSeriesTemplate(s)
    }

    ghost predicate Valid()
      reads this
    {
      RegionsAgree() && DetailShowsCatalog()
    }

    function Snapshot(): View
      reads this
    {
      View(tagListEntries, activeTag, matchingItems, activeSeriesId, header, detail, clearEnabled)
    }

    /** Construction once the data has arrived and the regions are found: the
        catalog is stored, then the widget renders. The page's markup gives
        the header text, the panel content and the clear button's state
        before the first render; the two lists start empty. */
    constructor (catalog: seq<Series>, pageHeader: string, pageDetail: string, pageClearEnabled: bool)
      ensures Valid()
      ensures data == catalog
      ensures tagListEntries == TagList(catalog)
      ensures activeTag == None && matchingItems == [] && activeSeriesId == None
      ensures header == pageHeader && clearEnabled == pageClearEnabled
      ensures detail == DefaultSeriesTemplate()
    {
      data := catalog;
      tagListEntries := [];
      activeTag := None;
      matchingItems := [];
      activeSeriesId := None;
      header := pageHeader;
      detail := pageDetail;
      clearEnabled := pageClearEnabled;
      new;
      Render();
    }

    /** The distinct tags of the catalog, sorted: a tag is pushed only when it
        is not yet in the list, then the list is sorted. */
    method GetSeriesTagList() returns (r: seq<string>)
      ensures r == TagList(data)
      ensures Sorted(r) && NoDups(r)
      ensures forall t :: t in r <==> CarriesTag(data, t)
    {
      var catalog := data;
      var list: seq<string> := [];
      var i := 0;
      assert list == FirstOccurrences(AllTags(catalog[..0])) by {
        assert catalog[..0] == [];
      }
      while i < |catalog|
        invariant 0 <= i <= |catalog|
        invariant list == FirstOccurrences(AllTags(catalog[..i]))
      {
        var tags := catalog[i].tags;
        ghost var seen := AllTags(catalog[..i]);
        ghost var scanned := seen;
        var j := 0;
        while j < |tags|
          invariant 0 <= j <= |tags|
          invariant scanned == seen + tags[..j]
          invariant list == FirstOccurrences(scanned)
        {
          FirstOccurrencesSnoc(scanned, tags[j]);
          if tags[j] !in list {
            list := list + [tags[j]];
          }
          scanned := scanned + [tags[j]];
          assert scanned == seen + tags[..j + 1];
          j := j + 1;
        }
        assert scanned == AllTags(catalog[..i + 1]) by {
          assert tags[..j] == tags;
          AllTagsPrefix(catalog, i);
        }
        i := i + 1;
      }
      assert list == FirstOccurrences(AllTags(catalog)) by {
        assert catalog[..i] == catalog;
      }
      r := Sort(list);
      assert r == TagList(catalog);
      TagListSpec(catalog);
    }

    /** One `{id, title}` row per occurrence of `tagName` in a series' tags,
        in catalog order: the inner scan does not stop at the first match. */
    method GetMatchingSeriesForTagName(tagName: string) returns (r: seq<MatchingSeries>)
      ensures r == Matching(data, tagName)
      ensures |r| == multiset(AllTags(data))[tagName]
      ensures r == [] <==> !CarriesTag(data, tagName)
    {
      r := [];
      var i := 0;
      while i < |data|
        invariant 0 <= i <= |data|
        invariant r == Matching(data[..i], tagName)
      {
        var series := data[i];
        var j := 0;
        while j < |series.tags|
          invariant 0 <= j <= |series.tags|
          invariant r == Matching(data[..i], tagName) + TagRows(series.tags[..j], Summary(series), tagName)
        {
          assert TagRows(series.tags[..j + 1], Summary(series), tagName)
                 == TagRows(series.tags[..j], Summary(series), tagName)
                    + (if series.tags[j] == tagName then [Summary(series)] else []) by {
            assert series.tags[..j + 1][..j] == series.tags[..j];
          }
          if series.tags[j] == tagName {
            r := r + [MatchingSeries(series.id, series.title)];
          }
          j := j + 1;
        }
        assert r == Matching(data[..i + 1], tagName) by {
          assert series.tags[..j] == series.tags;
          assert data[..i + 1][..i] == data[..i];
        }
        i := i + 1;
      }
      assert data[..i] == data;
      MatchingCount(data, tagName);
      MatchingEmptyIff(data, tagName);
    }

    /** The first series whose id equals `parseInt(idText)`; nothing when no
        id does, which is always the case when the text does not parse. */
    method GetSelectedSeriesDataForId(idText: string) returns (r: Option<Series>)
      ensures r == LookupIdText(data, idText)
      ensures r.Some? ==> r.value in data && Decimal.ParseInt(idText) == Some(r.value.id)
      ensures r.None? <==> Decimal.ParseInt(idText).None?
                           || forall s :: s in data ==> Some(s.id) != Decimal.ParseInt(idText)
    {
      var id := Decimal.ParseInt(idText);
      var i := 0;
      while i < |data|
        invariant 0 <= i <= |data|
        invariant forall k :: 0 <= k < i ==> Some(data[k].id) != id
      {
        if Some(data[i].id) == id {
          assert FindById(data, id.value) == Some(data[i]) by {
            var found := FindById(data, id.value);
            if found.Some? {
              var f :| 0 <= f < |data| && data[f] == found.value && found.value.id == id.value
                       && forall j :: 0 <= j < f ==> data[j].id != id.value;
              assert f == i by {
                assert data[i].id == id.value;
              }
            }
          }
          return Some(data[i]);
        }
        i := i + 1;
      }
      return None;
    }

    /** Appends one tag-list entry per tag of the catalog, in sorted order,
        after whatever entries the list already holds. */
    method UpdateSeriesTagListNames()
      modifies this`tagListEntries
      ensures tagListEntries == old(tagListEntries) + TagList(data)
    {
      var names := GetSeriesTagList();
      for i := 0 to |names|
        invariant tagListEntries == old(tagListEntries) + names[..i]
      {
        tagListEntries := tagListEntries + [names[i]];
      }
      assert names[..|names|] == names;
    }

    /** Fills the tag list and shows the placeholder panel. Rendering again
        would append the tag entries a second time. */
    method Render()
      requires RegionsAgree()
      modifies this
      ensures Valid()
      ensures tagListEntries == old(tagListEntries) + TagList(data)
      ensures detail == DefaultSeriesTemplate()
      ensures activeTag == old(activeTag) && matchingItems == old(matchingItems)
      ensures activeSeriesId == old(activeSeriesId) && header == old(header)
      ensures clearEnabled == old(clearEnabled)
    {
      UpdateSeriesTagListNames();
      detail := DefaultSeriesTemplate();
    }

    /** Empties the matching list (which drops any active row), sets the
        header to the quoted tag name, then appends one row per match. */
    method UpdateMatchingItemsListContent(tagName: string)
      modifies this`matchingItems, this`activeSeriesId, this`header
      ensures matchingItems == Matching(data, tagName)
      ensures activeSeriesId == None
      ensures header == HeaderText(tagName)
    {
      var rows := GetMatchingSeriesForTagName(tagName);
      matchingItems := [];
      activeSeriesId := None;
      header := HeaderText(tagName);
      for i := 0 to |rows|
        invariant matchingItems == rows[..i]
        invariant activeSeriesId == None && header == HeaderText(tagName)
      {
        matchingItems := matchingItems + [rows[i]];
      }
      assert rows[..|rows|] == rows;
    }

    /** A click in the tag list. `parentAnchorTag` is the `data-tag-name` of
        the anchor that is the click target's parent, or `None` when the
        parent is not an anchor. The selected-series panel is left as it was. */
    method TagListClicked(parentAnchorTag: Option<string>)
      requires Valid()
      modifies this
      ensures Valid()
      ensures parentAnchorTag.None? ==> unchanged(this)
      ensures parentAnchorTag.Some? ==>
        && clearEnabled
        && activeTag == parentAnchorTag
        && matchingItems == Matching(data, parentAnchorTag.value)
        && activeSeriesId == None
        && header == HeaderText(parentAnchorTag.value)
        && detail == old(detail)
        && tagListEntries == old(tagListEntries)
    {
      if parentAnchorTag.Some? {
        var tagName := parentAnchorTag.value;
        clearEnabled := true;
        activeTag := Some(tagName);
        UpdateMatchingItemsListContent(tagName);
      }
    }

    /** A click in the matching-items list. `seriesIdAttr` is the click
        target's `data-series-id`; only the rendered rows carry one, so a
        truthy value is the id of one of them. The series it names is looked
        up and shown. */
    method MatchingItemsListClicked(seriesIdAttr: Option<string>)
      requires Valid()
      requires Truthy(seriesIdAttr) ==> IsRowId(matchingItems, seriesIdAttr.value)
      modifies this
      ensures Valid()
      ensures !Truthy(seriesIdAttr) ==> unchanged(this)
      ensures Truthy(seriesIdAttr) ==>
        && LookupIdText(data, seriesIdAttr.value).Some?
        && detail == SelectedSeriesTemplate(LookupIdText(data, seriesIdAttr.value).value)
        && activeSeriesId == seriesIdAttr
        && tagListEntries == old(tagListEntries) && activeTag == old(activeTag)
        && matchingItems == old(matchingItems) && header == old(header)
        && clearEnabled == old(clearEnabled)
    {
      if seriesIdAttr.Some? && seriesIdAttr.value != "" {
        RowIdResolves(data, activeTag.value, seriesIdAttr.value);
        var found := GetSelectedSeriesDataForId(seriesIdAttr.value);
        activeSeriesId := seriesIdAttr;
        detail := SelectedSeriesTemplate(found.value);
        assert DetailShowsCatalog() by {
          assert found.value in data;
        }
      }
    }

    /** The clear button: no tag or row active, placeholder panel, neutral
        header, empty matching list, clear button disabled. */
    method ResetSeriesBrowser()
      requires Valid()
      modifies this
      ensures Valid()
      ensures activeTag == None && activeSeriesId == None && matchingItems == []
      ensures detail == DefaultSeriesTemplate() && header == NoTagSelected && !clearEnabled
      ensures tagListEntries == old(tagListEntries)
    {
      activeTag := None;
      detail := DefaultSeriesTemplate();
      header := NoTagSelected;
      matchingItems := [];
      activeSeriesId := None;
      clearEnabled := false;
    }
  }

  /** Clearing twice leaves the page as clearing once does. */
  method ResetIsIdempotent(w: TagBrowserWidget) returns (once: View, twice: View)
    requires w.Valid()
    modifies w
    ensures once == twice
  {
    w.ResetSeriesBrowser();
    once := w.Snapshot();
    w.ResetSeriesBrowser();
    twice := w.Snapshot();
  }

  /** Choosing a tag after a series keeps that series on show, even when it
      does not carry the new tag; only the active row goes away. */
  method DetailSurvivesTagChange(w: TagBrowserWidget, seriesIdAttr: string, tagName: string)
    requires w.Valid()
    requires seriesIdAttr != "" && IsRowId(w.matchingItems, seriesIdAttr)
    modifies w
    ensures LookupIdText(w.data, seriesIdAttr).Some?
    ensures w.detail == SelectedSeriesTemplate(LookupIdText(w.data, seriesIdAttr).value)
    ensures w.detail != DefaultSeriesTemplate()
    ensures w.activeTag == Some(tagName) && w.activeSeriesId == None
  {
    w.MatchingItemsListClicked(Some(seriesIdAttr));
    w.TagListClicked(Some(tagName));
    SelectedTemplateNeverDefault(LookupIdText(w.data, seriesIdAttr).value);
  }

  /** Clicking the k-th rendered row (its attribute holds the row's id as
      decimal text) always resolves, and shows a series with that id: the
      row's own series when ids are unique. */
  method SelectRenderedRow(w: TagBrowserWidget, k: nat)
    requires w.Valid() && k < |w.matchingItems|
    modifies w
    ensures var row := old(w.matchingItems[k]);
            var found := LookupIdText(w.data, Decimal.IntToString(row.id));
            && found.Some? && found.value.id == row.id
            && w.detail == SelectedSeriesTemplate(found.value)
            && (UniqueIds(w.data) ==> Summary(found.value) == row)
  {
    var row := w.matchingItems[k];
    RenderedRowResolves(w.data, w.activeTag.value, k);
    MatchingItemTemplateCarriesId(row);
    var attr := Decimal.IntToString(row.id);
    assert attr != "" && row in w.matchingItems;
    w.MatchingItemsListClicked(Some(attr));
  }
}
