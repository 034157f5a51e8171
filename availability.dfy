/** `check_hpb_store_availability` (stores.py:184-207): the pickup search URL for a
    store and a product, and the found flag read from the fetched page. */
module Availability {
  import opened Wrappers
  import Text

  /** The text of the `div.msg` element the search shows when nothing matched. */
  const NoResultsMarker := "We were not able to find any results for"

  /** What one check reports. */
  datatype AvailabilityResult = AvailabilityResult(
    storeId: Option<string>,
    bookId: string,
    bookName: string,
    found: bool,
    url: string)

  /** A value as an f-string renders it; the store's `ID` may be missing (`None`). */
  function Render(value: Option<string>): string {
    value.GetOr("None")
  }

  /** The search URL for `bookId` at pickup store `storeId`. */
  function SearchUrl(storeId: Option<string>, bookId: string): (url: string)
    ensures Text.Contains(url, bookId)
    ensures Text.Contains(url, Render(storeId))
  {
    var head := "https://www.hpb.com/search?q=";
    var middle := "&prefn1=instorePickUpAvailableStores&prefv1=";
    var tail := "&srule=best-matches&sz=20&bopisStoreId=";
    var url := head + bookId + middle + Render(storeId) + tail + Render(storeId);
    assert url == head + bookId + (middle + Render(storeId) + tail + Render(storeId));
    Text.ContainsInfix(head, bookId, middle + Render(storeId) + tail + Render(storeId));
    assert url == head + bookId + middle + Render(storeId) + (tail + Render(storeId));
    Text.ContainsInfix(head + bookId + middle, Render(storeId), tail + Render(storeId));
    url
  }

  /** The found flag: the book counts as found unless the page has a message element
      whose text holds the no-results marker. */
  predicate Found(message: Option<string>) {
    !(message.Some? && Text.Contains(message.value, NoResultsMarker))
  }

  /** One availability check; `page` is the search service, mapping a URL to the text
      of the page's `div.msg` element, if it has one. */
  function CheckHpbStoreAvailability(storeId: Option<string>, bookId: string, bookName: string,
                                     page: string -> Option<string>): (r: AvailabilityResult)
    ensures r.storeId == storeId && r.bookId == bookId && r.bookName == bookName
    ensures Text.Contains(r.url, bookId) && Text.Contains(r.url, Render(storeId))
    ensures !r.found <==> page(r.url).Some? && Text.Contains(page(r.url).value, NoResultsMarker)
  {
    var url := SearchUrl(storeId, bookId);
    AvailabilityResult(storeId, bookId, bookName, Found(page(url)), url)
  }

  /** The polarity of the flag: a page without a message element, or with one that does
      not carry the marker, means found; a message carrying the marker means not found. */
  lemma FoundPolarity(prefix: string, suffix: string, other: string)
    requires !Text.Contains(other, NoResultsMarker)
    ensures Found(None)
    ensures Found(Some(other))
    ensures !Found(Some(prefix + NoResultsMarker + suffix))
  {
    Text.ContainsInfix(prefix, NoResultsMarker, suffix);
  }
}
