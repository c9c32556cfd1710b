/** The four markup builders of the widget. A template literal evaluates to
    its fixed pieces with its substitutions spliced in between them, which is
    what `Interleave` computes; no substitution is escaped. The lemmas say
    which fields appear, and in which attribute the handlers will find the
    values they read back, not that the markup is well formed. Line breaks
    are kept between elements; the source's indentation is not. */
module Templates {
  import opened Options
  import opened Catalog
  import Decimal

  /** `x` occurs somewhere inside `s`. */
  ghost predicate IsInfix(x: string, s: string)
  {
    exists k :: 0 <= k <= |s| && x <= s[k..]
  }

  predicate EndsWith(s: string, suffix: string)
  {
    |suffix| <= |s| && s[|s| - |suffix|..] == suffix
  }

  /** `pieces[0] + values[0] + pieces[1] + ... + values[n - 1] + pieces[n]`:
      the value of a template literal with pieces `pieces` and substitutions
      `values`. */
  function Interleave(pieces: seq<string>, values: seq<string>): string
    requires |pieces| == |values| + 1
  {
    if values == [] then pieces[0]
    else Interleave(pieces[..|pieces| - 1], values[..|values| - 1])
         + values[|values| - 1] + pieces[|pieces| - 1]
  }

  lemma {:induction false} InterleaveStartsWith(pieces: seq<string>, values: seq<string>)
    requires |pieces| == |values| + 1
    ensures pieces[0] <= Interleave(pieces, values)
  {
    if values != [] {
      var n := |values| - 1;
      InterleaveStartsWith(pieces[..n + 1], values[..n]);
      assert pieces[..n + 1][0] == pieces[0];
    }
  }

  lemma InfixAcross(front: string, before: string, v: string, after: string, rest: string)
    requires EndsWith(front, before) && after <= rest
    ensures IsInfix(before + v + after, front + v + rest)
  {
    var start := |front| - |before|;
    assert (front + v + rest)[start..] == front[start..] + v + rest;
  }

  lemma InfixExtend(x: string, front: string, tail: string)
    requires IsInfix(x, front)
    ensures IsInfix(x, front + tail)
  {
    var i :| 0 <= i <= |front| && x <= front[i..];
    assert front[i..] <= (front + tail)[i..];
  }

  /** A substitution appears in the result together with the end of the piece
      before it and the start of the piece after it. */
  lemma {:induction false} InterleaveShows(pieces: seq<string>, values: seq<string>, k: nat,
                                           before: string, after: string)
    requires |pieces| == |values| + 1 && k < |values|
    requires EndsWith(pieces[k], before) && after <= pieces[k + 1]
    ensures IsInfix(before + values[k] + after, Interleave(pieces, values))
  {
    var n := |values| - 1;
    var ps, vs := pieces[..n + 1], values[..n];
    var front := Interleave(ps, vs);
    assert Interleave(pieces, values) == front + values[n] + pieces[n + 1];
    if k == n {
      InterleaveEndsWith(ps, vs);
      assert ps[n] == pieces[k];
      EndsWithTransitive(front, pieces[k], before);
      InfixAcross(front, before, values[n], after, pieces[n + 1]);
    } else {
      assert ps[k] == pieces[k] && ps[k + 1] == pieces[k + 1] && vs[k] == values[k];
      InterleaveShows(ps, vs, k, before, after);
      InfixExtend(before + values[k] + after, front, values[n] + pieces[n + 1]);
      assert front + (values[n] + pieces[n + 1]) == front + values[n] + pieces[n + 1];
    }
  }

  lemma EndsWithTransitive(s: string, mid: string, suffix: string)
    requires EndsWith(s, mid) && EndsWith(mid, suffix)
    ensures EndsWith(s, suffix)
  {
    assert s[|s| - |suffix|..] == s[|s| - |mid|..][|mid| - |suffix|..];
  }

  lemma InterleaveEndsWith(pieces: seq<string>, values: seq<string>)
    requires |pieces| == |values| + 1
    ensures EndsWith(Interleave(pieces, values), pieces[|pieces| - 1])
  {
  }

  lemma InterleaveShowsValue(pieces: seq<string>, values: seq<string>, k: nat)
    requires |pieces| == |values| + 1 && k < |values|
    ensures IsInfix(values[k], Interleave(pieces, values))
  {
    InterleaveShows(pieces, values, k, "", "");
    assert "" + values[k] + "" == values[k];
  }

  lemma InfixInMiddle(x: string, front: string, middle: string, back: string)
    requires x <= middle
    ensures IsInfix(x, front + middle + back)
  {
    assert (front + middle + back)[|front|..] == middle + back;
  }

  lemma EndsWithJoin(front: string, suffix: string)
    ensures EndsWith(front + suffix, suffix)
  {
    assert (front + suffix)[|front|..] == suffix;
  }

  /** The detail panel before any series is selected: a placeholder image
      and empty metadata. */
  function DefaultSeriesTemplate(): (t: string)
    ensures IsInfix("<h3 class=\"subtitle\">No Series Selected</h3>", t)
  {
    var opening := "\n" + "<div class=\"content\">\n";
    var heading := "<h3 class=\"subtitle\">No Series Selected</h3>\n";
    var rest :=
      "<img src=\"http://via.placeholder.com/350x350\" />\n"
      + "</div>\n"
      + "<ul class=\"meta-details\">\n"
      + "<li><strong>Rating:</strong> <span></span></li>\n"
      + "<li><strong>Native Language Title:</strong> <span></span></li>\n"
      + "<li><strong>Source Country:</strong> <span></span></li>\n"
      + "<li><strong>Type:</strong> <span></span></li>\n"
      + "<li><strong>Episodes:</strong> <span></span></li>\n"
      + "</ul>\n";
    InfixInMiddle("<h3 class=\"subtitle\">No Series Selected</h3>", opening, heading, rest);
    opening + heading + rest
  }

  /** The fixed text of the selected-series panel, one literal per line of
      the template, cut where a field is substituted. */
  const SelectedSeriesPieces: seq<string> := [
    "\n" + "<div class='content selected-series-content'>\n" + "<h3 class='subtitle'>",
    "</h3>\n" + "<img src='",
    "' />\n" + "<p class=\"description\">",
    "</p>\n" + "</div>\n" + "<ul class=\"meta-details\">\n" + "<li><strong>Rating:</strong> <span>",
    "</span></li>\n" + "<li><strong>Native Language Title:</strong> <span>",
    "</span></li>\n" + "<li><strong>Source Country:</strong> <span>",
    "</span></li>\n" + "<li><strong>Type:</strong> <span>",
    "</span></li>\n" + "<li><strong>Episodes:</strong> <span>",
    "</span></li>\n" + "</ul>\n"]

  /** The fields of a series in the order the panel shows them. */
  function PanelFields(s: Series): seq<string>
  {
    [s.title, s.thumbnail, s.description, s.rating, s.nativeLanguageTitle,
     s.sourceCountry, s.seriesType, s.episodes]
  }

  /** The detail panel for one series: it opens with the selected-content
      block and closes the metadata list. */
  function SelectedSeriesTemplate(s: Series): (t: string)
    ensures "\n" + "<div class='content selected-series-content'>\n" <= t
    ensures EndsWith(t, "</ul>\n")
  {
    var t := Interleave(SelectedSeriesPieces, PanelFields(s));
    InterleaveStartsWith(SelectedSeriesPieces, PanelFields(s));
    InterleaveEndsWith(SelectedSeriesPieces, PanelFields(s));
    EndsWithTransitive(t, SelectedSeriesPieces[8], "</ul>\n");
    t
  }

  const TagListItemPieces: seq<string> := [
    "\n<li><a href=\"#\" class=\"tag-list-item\" data-tag-name='",
    "'><span class='tag is-link'>",
    "</span></a></li>\n"]

  /** One entry of the tag list: a list item holding a tag-list link. */
  function TagListItemTemplate(tagName: string): (t: string)
    ensures "\n<li><a href=\"#\" class=\"tag-list-item\" " <= t
    ensures EndsWith(t, "</a></li>\n")
  {
    var t := Interleave(TagListItemPieces, [tagName, tagName]);
    InterleaveStartsWith(TagListItemPieces, [tagName, tagName]);
    InterleaveEndsWith(TagListItemPieces, [tagName, tagName]);
    EndsWithTransitive(t, TagListItemPieces[2], "</a></li>\n");
    t
  }

  const MatchingItemPieces: seq<string> := [
    "\n<li><a href=\"#\" class=\"matching-series-item\" data-series-id='",
    "'>",
    "</a></li>\n"]

  /** One row of the matching list: a list item holding a matching-series link. */
  function MatchingItemListTemplate(m: MatchingSeries): (t: string)
    ensures "\n<li><a href=\"#\" class=\"matching-series-item\" " <= t
    ensures EndsWith(t, "</a></li>\n")
  {
    var values := [Decimal.IntToString(m.id), m.title];
    var t := Interleave(MatchingItemPieces, values);
    InterleaveStartsWith(MatchingItemPieces, values);
    InterleaveEndsWith(MatchingItemPieces, values);
    t
  }

  /** Every field of the series appears in its detail panel, between the
      label or markup of its own line and the end of that line. */
  lemma SelectedTemplateShowsEveryField(s: Series)
    ensures var t := SelectedSeriesTemplate(s);
            && IsInfix("<h3 class='subtitle'>" + s.title + "</h3>\n", t)
            && IsInfix("<img src='" + s.thumbnail + "' />\n", t)
            && IsInfix("<p class=\"description\">" + s.description + "</p>\n", t)
            && IsInfix("<li><strong>Rating:</strong> <span>" + s.rating + "</span></li>\n", t)
            && IsInfix("<li><strong>Native Language Title:</strong> <span>" + s.nativeLanguageTitle
                       + "</span></li>\n", t)
            && IsInfix("<li><strong>Source Country:</strong> <span>" + s.sourceCountry + "</span></li>\n", t)
            && IsInfix("<li><strong>Type:</strong> <span>" + s.seriesType + "</span></li>\n", t)
            && IsInfix("<li><strong>Episodes:</strong> <span>" + s.episodes + "</span></li>\n", t)
  {
    var p, v := SelectedSeriesPieces, PanelFields(s);
    FieldShown(p, v, 0, "\n" + "<div class='content selected-series-content'>\n", "<h3 class='subtitle'>",
               "</h3>\n", "<img src='");
    FieldShown(p, v, 1, "</h3>\n", "<img src='", "' />\n", "<p class=\"description\">");
    FieldShown(p, v, 2, "' />\n", "<p class=\"description\">",
               "</p>\n", "</div>\n" + "<ul class=\"meta-details\">\n" + "<li><strong>Rating:</strong> <span>");
    FieldShown(p, v, 3, "</p>\n" + "</div>\n" + "<ul class=\"meta-details\">\n", "<li><strong>Rating:</strong> <span>",
               "</span></li>\n", "<li><strong>Native Language Title:</strong> <span>");
    FieldShown(p, v, 4, "</span></li>\n", "<li><strong>Native Language Title:</strong> <span>",
               "</span></li>\n", "<li><strong>Source Country:</strong> <span>");
    FieldShown(p, v, 5, "</span></li>\n", "<li><strong>Source Country:</strong> <span>",
               "</span></li>\n", "<li><strong>Type:</strong> <span>");
    FieldShown(p, v, 6, "</span></li>\n", "<li><strong>Type:</strong> <span>",
               "</span></li>\n", "<li><strong>Episodes:</strong> <span>");
    FieldShown(p, v, 7, "</span></li>\n", "<li><strong>Episodes:</strong> <span>",
               "</span></li>\n", "</ul>\n");
  }

  /** When piece k ends with `lead` and piece k + 1 starts with `close`, the
      k-th value appears between the two. */
  lemma FieldShown(pieces: seq<string>, values: seq<string>, k: nat,
                   front: string, lead: string, close: string, back: string)
    requires |pieces| == |values| + 1 && k < |values|
    requires pieces[k] == front + lead && pieces[k + 1] == close + back
    ensures IsInfix(lead + values[k] + close, Interleave(pieces, values))
  {
    EndsWithJoin(front, lead);
    InterleaveShows(pieces, values, k, lead, close);
  }

  /** The selected-series panel is never the placeholder, whatever the series:
      the two differ in a fixed character of their opening tag. */
  lemma SelectedTemplateNeverDefault(s: Series)
    ensures SelectedSeriesTemplate(s) != DefaultSeriesTemplate()
  {
    assert SelectedSeriesTemplate(s)[12] == '\'';
    assert DefaultSeriesTemplate()[12] == '"';
  }

  /** A tag entry carries the tag name in the attribute the click handler
      reads, and shows it as its label. */
  lemma TagListItemTemplateNamesTag(tagName: string)
    ensures IsInfix("data-tag-name='" + tagName + "'", TagListItemTemplate(tagName))
    ensures IsInfix("<span class='tag is-link'>" + tagName + "</span>", TagListItemTemplate(tagName))
  {
    var p, v := TagListItemPieces, [tagName, tagName];
    assert TagListItemTemplate(tagName) == Interleave(p, v);
    assert EndsWith(p[0], "data-tag-name='");
    InterleaveShows(p, v, 0, "data-tag-name='", "'");
    assert EndsWith(p[1], "<span class='tag is-link'>");
    InterleaveShows(p, v, 1, "<span class='tag is-link'>", "</span>");
  }

  /** A matching row carries the series id, as decimal text that reads back
      as the same id, in the attribute the click handler reads, and shows
      the title. */
  lemma MatchingItemTemplateCarriesId(m: MatchingSeries)
    ensures IsInfix("data-series-id='" + Decimal.IntToString(m.id) + "'", MatchingItemListTemplate(m))
    ensures IsInfix("'>" + m.title + "</a></li>\n", MatchingItemListTemplate(m))
    ensures Decimal.ParseInt(Decimal.IntToString(m.id)) == Some(m.id)
  {
    var p := MatchingItemPieces;
    var values := [Decimal.IntToString(m.id), m.title];
    assert EndsWith(p[0], "data-series-id='");
    InterleaveShows(p, values, 0, "data-series-id='", "'");
    InterleaveShows(p, values, 1, "'>", "</a></li>\n");
    Decimal.ParseIntOfIntToString(m.id);
  }
}
