/** The decision part of `get_hpb_product_id` (stores.py:84-111): given the first
    suggested product link, accept it only when its label mentions the title, and
    read the product identifier out of its href. */
module ProductResolver {
  import opened Wrappers
  import Text

  /** A wish-list book as the resolver receives it: a title and its authors. */
  datatype BookQuery = BookQuery(title: string, authors: seq<string>)

  /** The `<a>` inside the first `span[id^="product-"]` of the suggestion markup;
      each attribute may be missing. */
  datatype Anchor = Anchor(ariaLabel: Option<string>, href: Option<string>)

  const HtmlSuffix := ".html"

  /** The unescaped search text `"{title} {first author}"`; the source indexes the first
      author unguarded, so a book without authors cannot be looked up. */
  function SearchQuery(book: BookQuery): (q: string)
    requires |book.authors| > 0
    ensures Text.StartsWith(q, book.title)
    ensures q[|book.title|..] == " " + book.authors[0]
  {
    book.title + " " + book.authors[0]
  }

  /** A path segment naming a book (`M-`) or a specific copy (`P-`). */
  predicate Tagged(segment: string) {
    Text.StartsWith(segment, "M-") || Text.StartsWith(segment, "P-")
  }

  /** The first tagged segment, if any. */
  function FirstTagged(segments: seq<string>): Option<string> {
    if segments == [] then None
    else if Tagged(segments[0]) then Some(segments[0])
    else FirstTagged(segments[1..])
  }

  /** The label check: the lowercased title is a substring of the lowercased label. */
  predicate LabelMatches(title: string, anchor: Anchor) {
    Text.Contains(Text.Lower(anchor.ariaLabel.GetOr("")), Text.Lower(title))
  }

  /** The `/`-separated segments of the link target (empty when there is no href). */
  function HrefSegments(anchor: Anchor): seq<string> {
    Text.Split(anchor.href.GetOr(""), '/')
  }

  /** The identifier the lookup yields for `title` when `first` is the first suggestion. */
  function ProductId(title: string, first: Option<Anchor>): (r: Option<string>)
    ensures first.None? ==> r.None?
    ensures first.Some? && !LabelMatches(title, first.value) ==> r.None?
  {
    match first
    case None => None
    case Some(anchor) =>
      if !LabelMatches(title, anchor) then None
      else
        match FirstTagged(HrefSegments(anchor))
        case None => None
        case Some(segment) => Some(Text.RemoveAll(segment, HtmlSuffix))
  }

  /** `get_hpb_product_id`, with the suggestion service as `suggest`: it maps the
      search text to the first suggested product link, if there is one. */
  method GetHpbProductId(book: BookQuery, suggest: string -> Option<Anchor>) returns (id: Option<string>)
    requires |book.authors| > 0
    ensures id == ProductId(book.title, suggest(SearchQuery(book)))
  {
    var query := SearchQuery(book);
    var firstProduct := suggest(query);
    if firstProduct.None? {
      return None;
    }
    var ariaLabel := Text.Lower(firstProduct.value.ariaLabel.GetOr(""));
    var href := firstProduct.value.href.GetOr("");
    if !Text.Contains(ariaLabel, Text.Lower(book.title)) {
      return None;
    }
    var parts := Text.Split(href, '/');
    for i := 0 to |parts|
      invariant FirstTagged(parts) == FirstTagged(parts[i..])
    {
      if Tagged(parts[i]) {
        return Some(Text.RemoveAll(parts[i], HtmlSuffix));
      }
      assert parts[i..][1..] == parts[i + 1..];
    }
    return None;
  }

  /** The first tagged segment is the tagged segment with no tagged segment before it;
      there is none exactly when no segment is tagged. */
  lemma {:induction false} FirstTaggedExactly(segments: seq<string>)
    ensures FirstTagged(segments).None? <==> forall j :: 0 <= j < |segments| ==> !Tagged(segments[j])
    ensures FirstTagged(segments).Some? ==>
      exists j :: 0 <= j < |segments| && FirstTagged(segments) == Some(segments[j]) && Tagged(segments[j])
        && forall k :: 0 <= k < j ==> !Tagged(segments[k])
  {
    if segments != [] && !Tagged(segments[0]) {
      FirstTaggedExactly(segments[1..]);
      if FirstTagged(segments).Some? {
        var j :| 0 <= j < |segments[1..]| && FirstTagged(segments[1..]) == Some(segments[1..][j])
          && Tagged(segments[1..][j]) && forall k :: 0 <= k < j ==> !Tagged(segments[1..][k]);
        assert forall k :: 1 <= k < j + 1 ==> segments[k] == segments[1..][k - 1];
      }
    }
  }

  /** Removing `.html` keeps an `M-` or `P-` prefix, since neither letter starts `.html`. */
  lemma RemoveHtmlKeepsTag(segment: string)
    requires Tagged(segment)
    ensures Tagged(Text.RemoveAll(segment, HtmlSuffix))
  {
    var rest := segment[2..];
    assert segment == [segment[0]] + ([segment[1]] + rest);
    Text.RemoveAllKeepsHead(segment[1], rest, HtmlSuffix);
    Text.RemoveAllKeepsHead(segment[0], [segment[1]] + rest, HtmlSuffix);
  }

  /** When the label check passes, the lookup yields the first `/`-separated segment of the
      href that starts with `M-` or `P-`, with `.html` removed, and nothing when no segment
      has either prefix; a yielded identifier always starts with `M-` or `P-`. */
  lemma ProductIdFromHref(title: string, anchor: Anchor)
    requires LabelMatches(title, anchor)
    ensures ProductId(title, Some(anchor)).None? <==>
      forall j :: 0 <= j < |HrefSegments(anchor)| ==> !Tagged(HrefSegments(anchor)[j])
    ensures ProductId(title, Some(anchor)).Some? ==>
      && Tagged(ProductId(title, Some(anchor)).value)
      && exists j :: 0 <= j < |HrefSegments(anchor)| && Tagged(HrefSegments(anchor)[j])
           && (forall k :: 0 <= k < j ==> !Tagged(HrefSegments(anchor)[k]))
           && ProductId(title, Some(anchor)).value == Text.RemoveAll(HrefSegments(anchor)[j], HtmlSuffix)
  {
    var segments := HrefSegments(anchor);
    FirstTaggedExactly(segments);
    if FirstTagged(segments).Some? {
      RemoveHtmlKeepsTag(FirstTagged(segments).value);
    }
  }

  /** The lookup never yields an identifier without the `M-` or `P-` prefix. */
  lemma ProductIdTagged(title: string, first: Option<Anchor>)
    ensures ProductId(title, first).Some? ==> Tagged(ProductId(title, first).value)
  {
    if first.Some? && LabelMatches(title, first.value) {
      ProductIdFromHref(title, first.value);
    }
  }

  /** The worked shape: for a matching label, a link `/<region>/<id>.html`, such as
      `/en_US/M-12345-T.html`, gives `<id>` (here `M-12345-T`). */
  lemma ProductIdOfHtmlLink(title: string, ariaLabel: string, region: string, id: string)
    requires LabelMatches(title, Anchor(Some(ariaLabel), None))
    requires '/' !in region && !Tagged(region)
    requires '/' !in id && '.' !in id && Tagged(id)
    ensures ProductId(title, Some(Anchor(Some(ariaLabel), Some("/" + region + "/" + id + HtmlSuffix)))) == Some(id)
  {
    var last := id + HtmlSuffix;
    assert '/' !in HtmlSuffix;
    assert '/' !in last;
    Text.SplitWithoutSeparator(last, '/');
    Text.SplitAtFirstSeparator(region, '/', last);
    Text.SplitAtFirstSeparator("", '/', region + "/" + last);
    assert "" + "/" + (region + "/" + last) == "/" + region + "/" + id + HtmlSuffix;
    assert last[..2] == id[..2];
    assert Tagged(last);
    assert FirstTagged([last]) == Some(last);
    assert [region, last][1..] == [last];
    assert FirstTagged([region, last]) == Some(last);
    assert ["", region, last][1..] == [region, last];
    assert FirstTagged(["", region, last]) == Some(last);
    assert "/" + region + "/" + id + HtmlSuffix == "" + "/" + (region + "/" + last);
    var anchor := Anchor(Some(ariaLabel), Some("/" + region + "/" + id + HtmlSuffix));
    assert LabelMatches(title, anchor);
    assert HrefSegments(anchor) == ["", region, last];
    Text.RemoveAllSuffix(id, HtmlSuffix);
  }

  /** The worked case: a link to `/en_US/M-12345-T.html` whose label mentions the title
      gives `M-12345-T`. */
  lemma ProductIdExample()
    ensures ProductId("Dune", Some(Anchor(Some("Dune by Frank Herbert"), Some("/en_US/M-12345-T.html"))))
      == Some("M-12345-T")
  {
    assert Text.OccursAt(Text.Lower("Dune by Frank Herbert"), Text.Lower("Dune"), 0);
    assert "en_US"[..2][0] == 'e';
    assert !Tagged("en_US");
    assert "M-12345-T"[..2] == "M-";
    ProductIdOfHtmlLink("Dune", "Dune by Frank Herbert", "en_US", "M-12345-T");
    assert "/" + "en_US" + "/" + "M-12345-T" + HtmlSuffix == "/en_US/M-12345-T.html";
  }
}
