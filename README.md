# Tag browser widget — a verified model

`TagBrowserWidget` (`public/js/app.js`) is a small browser widget. It shows a
catalog of series: a list of every tag, a list of the series carrying the
chosen tag, a detail panel for the chosen series, and a clear button. This
project models that widget:

- the catalog it loads;
- the three scans it runs over the catalog (the tag list, the series
  matching a tag, the series with a given id);
- the four markup templates;
- the effect of its three click handlers on the page regions.

It proves what each of these computes.

Modules:

- `Options`: `Option`. `None` stands for JavaScript's `undefined` and for
  `NaN`.
- `StringOrder`: the default order of `Array.prototype.sort` on strings
  (lexicographic on UTF-16 code units, taken on strings of Basic
  Multilingual Plane characters). An insertion sort `Sort` stands in
  for the library sort and is proved to give a sorted permutation.
- `Decimal`: how a series id becomes text in a template (`IntToString`) and
  how the click handler reads it back (`ParseInt`). The decimal part of
  `parseInt` is modelled and proved to round-trip.
- `Catalog`: the series records and the pure meaning of the three scans
  (`TagList`, `Matching`, `LookupIdText`), with lemmas about what they
  contain.
- `Templates`: the four template builders. A template literal is modelled as
  `Interleave(pieces, values)`. Lemmas say which fields appear in each
  template and in which attribute.
- `TagBrowser`: the class `TagBrowserWidget`.
  - It holds the catalog and one field per page region: the tag-list
    entries, the active tag, the matching rows, the active row's id, the
    header text, the detail markup and the clear button's state.
  - The scans are methods with the source's nested loops, proved equal to
    the `Catalog` functions.
  - The handlers are methods whose postconditions give the whole new state.
  - They keep the invariant `Valid()`:
    - the matching list and header follow the active tag;
    - the clear button is enabled while a tag is active;
    - the active row's id is the id text of a row in the matching list,
      so it resolves to a series;
    - the panel shows the placeholder or a catalog series.
  - Three client methods outside the class state properties across several
    handler calls.

Four behaviours of the code that a reader might not expect:

- Choosing a tag leaves the detail panel as it was (app.js:164-173 never
  touches it). `DetailSurvivesTagChange` proves that a series stays on show
  after a different tag is chosen.
- A series that lists a tag twice gives two rows, because the inner loop
  has no `break` (app.js:50-55; `MatchingCount`, `Catalog.TagRowsRepeat`).
- Clicking a row whose id does not resolve throws: `getSelectedSeriesDataForId`
  returns `undefined`, the row is marked active, and the template then reads
  `undefined.title` (app.js:183-185, 89). Every id the page renders does
  resolve (`SelectRenderedRow`), so the handler requires the id to be one of
  a rendered row.
- Rendering appends the tag entries without emptying the list first
  (app.js:153-158), which `Render`'s postcondition states.

## Model

| member | source | states |
|---|---|---|
| StringOrder.Less | public/js/app.js:43 | the default string order never puts a string before the empty string, nor before a string with a smaller first code unit |
| StringOrder.ProperPrefixFirst | public/js/app.js:43 | a proper prefix sorts before the longer string |
| StringOrder.LessIrreflexive | public/js/app.js:43 | no string sorts strictly before itself under the default sort order |
| StringOrder.LessTransitive | public/js/app.js:43 | the default string order is transitive |
| StringOrder.LessTotal | public/js/app.js:43 | any two different strings are ordered one way or the other |
| StringOrder.LessAsymmetric | public/js/app.js:43 | two strings are never each strictly before the other |
| StringOrder.LessEqTransitive | public/js/app.js:43 | the non-strict order is transitive |
| StringOrder.LessEqAntisymmetric | public/js/app.js:43 | strings ordered both ways are equal |
| StringOrder.Insert | public/js/app.js:43 | inserting a string adds exactly that one element to the multiset |
| StringOrder.InsertKeepsLowerBound | public/js/app.js:43 | a string at or below the inserted one and every element stays at or below every element after insertion |
| StringOrder.InsertSorted | public/js/app.js:43 | inserting into a sorted list keeps it sorted |
| StringOrder.InsertNoDups | public/js/app.js:43 | inserting a new string into a duplicate-free list keeps it duplicate-free |
| StringOrder.Sort | public/js/app.js:43 | `sort()` returns its input in ascending order, as a permutation (same multiset) |
| StringOrder.SortNoDups | public/js/app.js:43 | sorting a duplicate-free list gives a duplicate-free list |
| StringOrder.StrictlySortedUnique | public/js/app.js:38-43 | two sorted, duplicate-free lists with the same members are equal, so the tag list is determined by its set of tags |
| Decimal.DigitValue | public/js/app.js:64 | a digit character's value is below ten, and converting that value back gives the same character |
| Decimal.NatToString | public/js/app.js:111 | the decimal text of a natural number is non-empty and all digits, and starts with `0` only for zero |
| Decimal.IntToString | public/js/app.js:111 | the text `${id}` prints: digits with no leading zero for a non-negative id, a minus sign followed by such digits for a negative one |
| Decimal.LeadingDigits | public/js/app.js:64 | `parseInt` reads the longest run of digits at the start of its input: a prefix, all digits, followed by the end or a non-digit |
| Decimal.ParseInt | public/js/app.js:64 | `parseInt` gives `NaN` exactly when the text starts neither with a digit nor with a sign followed by a digit |
| Decimal.ParseIntSigned | public/js/app.js:64 | a leading `-` reads the rest as a negative number, a leading `+` as a non-negative one |
| Decimal.ParseUnsignedOfDigits | public/js/app.js:64 | the digits after the sign are read whole, with the sign applied |
| Decimal.NatToStringValue | public/js/app.js:111 | the digits printed for `n` denote `n` |
| Decimal.LeadingDigitsOfDigits | public/js/app.js:64 | on a string of digits, `parseInt` reads the whole string |
| Decimal.ParseIntOfDigits | public/js/app.js:64 | `parseInt` of a non-empty digit string is its value |
| Decimal.ParseIntOfNegatedDigits | public/js/app.js:64 | `parseInt` of `-` followed by digits is the negated value |
| Decimal.ParseIntOfIntToString | public/js/app.js:64 | `parseInt` of the text `${id}` prints gives back `id`, for every integer |
| Catalog.AllTagsMembers | public/js/app.js:36-42 | a tag occurs in the concatenated tag lists exactly when some series carries it |
| Catalog.FirstOccurrencesSpec | public/js/app.js:38-39 | pushing a tag only when absent gives a duplicate-free list with exactly the members of its input |
| Catalog.AllTagsPrefix | public/js/app.js:36-37 | scanning one more series appends exactly that series' tags |
| Catalog.FirstOccurrencesSnoc | public/js/app.js:38-39 | one more tag is appended when it is absent and otherwise changes nothing |
| Catalog.TagList | public/js/app.js:34-44 | the tag list is sorted and holds no tag twice |
| Catalog.TagListSpec | public/js/app.js:34-44 | the tag list is sorted and duplicate-free, and holds a tag exactly when some series carries it |
| Catalog.TagListUnique | public/js/app.js:34-44 | any sorted, duplicate-free list of exactly the catalog's tags is the tag list |
| Catalog.Matching | public/js/app.js:46-60 | there are never more rows than tag occurrences in the catalog |
| Catalog.TagRowsRepeat | public/js/app.js:49-56 | a series listing the tag k times contributes exactly k copies of its `{id, title}` row |
| Catalog.MatchingConcat | public/js/app.js:48-58 | the matches of two catalogs joined are the first catalog's matches followed by the second's: catalog order is kept |
| Catalog.MatchingAt | public/js/app.js:46-60 | the rows of the series at position i sit between the rows of the series before it and those after it |
| Catalog.MatchingCount | public/js/app.js:46-60 | there is one row per occurrence of the tag in any series' tags |
| Catalog.MatchingEmptyIff | public/js/app.js:46-60 | the matching list is empty exactly when no series carries the tag |
| Catalog.MatchingRowsFromCarriers | public/js/app.js:50-55 | every row is the `{id, title}` of a series that carries the tag |
| Catalog.LookupIdText | public/js/app.js:62-68 | a series is found only when it belongs to the catalog and its id equals `parseInt` of the text; nothing is found exactly when the text does not parse or no id equals it |
| Catalog.FindById | public/js/app.js:62-68 | nothing is found exactly when no series has the id; otherwise the first series with that id is found |
| Catalog.RenderedRowResolves | public/js/app.js:62-68 | the id text a rendered row carries resolves to a series with that row's id, and to the row's own series when ids are unique |
| Catalog.TwoSeriesTagList | public/js/app.js:34-44 | for series tagged [x, y] and [y], the tag list is [x, y] |
| Catalog.TwoSeriesMatching | public/js/app.js:46-60 | for that catalog, tag y matches both series in catalog order |
| Catalog.TwoSeriesNoMatch | public/js/app.js:46-60 | for that catalog, tag z matches no series |
| Catalog.TwoSeriesLookup | public/js/app.js:62-68 | for that catalog, the id text "2" finds the second series |
| Templates.InterleaveStartsWith | public/js/app.js:87-100 | a template's value starts with its first fixed piece |
| Templates.InterleaveShows | public/js/app.js:87-113 | each substitution appears in the result between the end of the piece before it and the start of the piece after it |
| Templates.InterleaveEndsWith | public/js/app.js:87-113 | a template's value ends with its last fixed piece |
| Templates.InterleaveShowsValue | public/js/app.js:87-113 | each substituted value appears in the template's value |
| Templates.InfixInMiddle | public/js/app.js:70-84 | text that starts a middle part of a concatenation occurs in the whole |
| Templates.EndsWithJoin | public/js/app.js:86-113 | a concatenation ends with its last part |
| Templates.FieldShown | public/js/app.js:86-113 | a substituted value appears between the label that ends the piece before it and the text that starts the piece after it |
| Templates.DefaultSeriesTemplate | public/js/app.js:70-84 | the placeholder panel shows the heading "No Series Selected" |
| Templates.SelectedSeriesTemplate | public/js/app.js:86-101 | a series' panel opens with the `content selected-series-content` division and ends by closing the metadata list |
| Templates.TagListItemTemplate | public/js/app.js:103-107 | a tag entry opens as a `tag-list-item` anchor and ends by closing the anchor and the list item |
| Templates.MatchingItemListTemplate | public/js/app.js:109-113 | a matching row opens as a `matching-series-item` anchor and ends by closing the anchor and the list item |
| Templates.SelectedTemplateShowsEveryField | public/js/app.js:86-101 | each of the eight fields sits beside its own markup: the title in the subtitle heading, the thumbnail in the image source, the description in its paragraph, and rating, native-language title, source country, type and episodes each in the span after its own label |
| Templates.SelectedTemplateNeverDefault | public/js/app.js:70-101 | no series' panel is the placeholder panel |
| Templates.TagListItemTemplateNamesTag | public/js/app.js:103-107 | a tag entry carries the tag in its `data-tag-name` attribute and shows it in its label |
| Templates.MatchingItemTemplateCarriesId | public/js/app.js:109-113 | a matching row carries `${id}` in `data-series-id`, shows the title as the anchor's text, and the attribute reads back as the id |
| TagBrowser.HeaderText | public/js/app.js:147 | the tag name can be read back from the header, and the header never reads "No Tag Selected" |
| TagBrowser.RowIdResolves | public/js/app.js:181-183 | the id text of any row matching a tag names a series of the catalog |
| TagBrowser.TagBrowserWidget.constructor | public/js/app.js:1-25 | after the data is set and the widget renders: the tag list holds the sorted tags, nothing is active, the panel shows the placeholder, and the invariant holds |
| TagBrowser.TagBrowserWidget.GetSeriesTagList | public/js/app.js:34-44 | the nested push-if-absent loops and the sort give the tag list: sorted, duplicate-free, and exactly the tags some series carries |
| TagBrowser.TagBrowserWidget.GetMatchingSeriesForTagName | public/js/app.js:46-60 | the nested loops give `Matching`: one row per occurrence of the tag, empty exactly when no series carries it |
| TagBrowser.TagBrowserWidget.GetSelectedSeriesDataForId | public/js/app.js:62-68 | the loop with early return finds the first series whose id equals `parseInt` of the text, and nothing exactly when the text does not parse or no id matches |
| TagBrowser.TagBrowserWidget.UpdateSeriesTagListNames | public/js/app.js:153-158 | appends the sorted tag list after the entries already present |
| TagBrowser.TagBrowserWidget.Render | public/js/app.js:121-124 | appends the tag entries again and shows the placeholder panel; the rest of the state and the invariant are kept |
| TagBrowser.TagBrowserWidget.UpdateMatchingItemsListContent | public/js/app.js:144-151 | the matching list becomes exactly the matches of the tag, no row is active, and the header is the tag between doubled single quotes |
| TagBrowser.TagBrowserWidget.TagListClicked | public/js/app.js:164-173 | with an anchor parent: clear button enabled, tag active, matching list and header for that tag, detail panel unchanged; without one: nothing changes |
| TagBrowser.TagBrowserWidget.MatchingItemsListClicked | public/js/app.js:179-187 | with a truthy `data-series-id` taken from a rendered row: the id resolves, the panel shows the series it names and that row is active, nothing else changes; otherwise nothing changes |
| TagBrowser.TagBrowserWidget.ResetSeriesBrowser | public/js/app.js:189-196 | no tag or row active, placeholder panel, header "No Tag Selected", empty matching list, clear button disabled |
| TagBrowser.ResetIsIdempotent | public/js/app.js:189-196 | clearing twice leaves the same page as clearing once |
| TagBrowser.DetailSurvivesTagChange | public/js/app.js:164-187 | after a rendered row is selected and then a tag is chosen, the row's series is still shown and is not the placeholder; the new tag is active and no row is |
| TagBrowser.SelectRenderedRow | public/js/app.js:179-187 | clicking any rendered row resolves, and shows a series with that row's id (the row's own series when ids are unique) |

## Left out

- Fetching the data (`fetchData`, `$.get`) and the promise chain in the constructor are network I/O and asynchronous sequencing. The constructor takes the loaded catalog as a parameter.
- `getElements` and `bindEventListeners` look up page elements and register listeners through the browser. The regions are fields of the class, and the listeners are the handler methods themselves.
- `console.log` calls have no effect on the model.
- The jQuery class toggling (`clearTagListItemState`, `toggleTagListState`, `toggleMatchingItemListState`) is modelled by its effect only: which tag and which row are marked active (`activeTag`, `activeSeriesId`).
- The initial markup of the page is not modelled. It is taken as constructor parameters for the header, the panel and the clear button. The two lists start empty.
- A click event is modelled by what the handler reads from it: the parent anchor's `data-tag-name`, or the target's `data-series-id`.
- A `data-tag-name` attribute that is absent on an anchor (`attr` returning `undefined`) is not modelled. The tag clicked is always a string.
- Decimal.ParseInt: models `parseInt` on strings with radix 10 only. It does not model leading whitespace, the `0x` prefix, or conversion of a non-string argument. An id that is not an integer, and the number type's precision, are not modelled either.
- Series fields that the page only prints (`rating`, `episodes` and the rest) are held as the text they print as.
- The templates keep their fixed text and line breaks but not their indentation. Escaping is not modelled, because the source does none. The lemmas say which fields appear and next to which label, not that the markup is well formed.
- `Array.prototype.sort` is a library call. It is modelled by an insertion sort with the same result, a sorted permutation.
- StringOrder.Less: a `char` is a Unicode scalar value, which is one UTF-16 code unit only inside the Basic Multilingual Plane. Strings with characters outside it (stored by JavaScript as surrogate pairs) are not modelled, and on them this order can disagree with `.sort()`; it agrees on strings of Basic Multilingual Plane characters.
- TagBrowser.TagBrowserWidget.MatchingItemsListClicked: requires that a truthy id is the id text of a rendered row, as every id the page renders is. An id from elsewhere that does not resolve makes the source throw partway through the handler, after marking the row active; that case is not modelled.
