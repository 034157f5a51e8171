/** The `__main__` block (stores.py:215-260): check the configuration, locate the stores,
    resolve the wish list to product identifiers, then check every resolved book at
    every store. Each network collaborator is a function parameter:
    `locate` (the store finder's decoded candidates for a ZIP code and radius),
    `suggest` (the first suggested product link for a search text) and
    `page` (the `div.msg` text of a search page). */
module Orchestrator {
  import opened Wrappers
  import Seqs
  import Arguments
  import StoreLocator
  import ProductResolver
  import Wishlist
  import Availability

  /** A resolved book: its product identifier and its title. */
  datatype Entry = Entry(bookId: string, title: string)

  datatype RunError =
    | MissingApiKey  // `HARDCOVER_API_KEY` unset or empty: exit before anything else
    | UsageError     // argparse rejected `--zip` or `--radius`, or `--zip` is missing

  /** The checks made before any lookup: the API key, then the arguments. */
  function Configure(apiKey: Option<string>, zipArg: Option<string>, radiusArg: Option<int>):
    (r: Result<(string, int), RunError>)
    ensures r == Failure(MissingApiKey) <==> apiKey.None? || apiKey.value == ""
    ensures r.Success? <==>
      && apiKey.Some? && apiKey.value != ""
      && zipArg.Some? && Arguments.ZipCodeType(zipArg.value).Success?
      && Arguments.RadiusArgument(radiusArg).Success?
    ensures r.Success? ==>
      && r.value.0 == zipArg.value && |r.value.0| == 5
      && r.value.1 == Arguments.RadiusArgument(radiusArg).value && r.value.1 in Arguments.RadiusChoices
  {
    if apiKey.None? || apiKey.value == "" then Failure(MissingApiKey)
    else if zipArg.None? then Failure(UsageError)
    else match (Arguments.ZipCodeType(zipArg.value), Arguments.RadiusArgument(radiusArg))
      case (Success(zip), Success(radius)) => Success((zip, radius))
      case _ => Failure(UsageError)
  }

  /** The `book_list` comprehension: each wish-list book as a title/authors pair. */
  function BookList(books: seq<Wishlist.WishBook>): (list: seq<ProductResolver.BookQuery>)
    ensures |list| == |books|
    ensures forall i :: 0 <= i < |books| ==>
      list[i].title == books[i].title && list[i].authors == books[i].authors
  {
    seq(|books|, i requires 0 <= i < |books| => ProductResolver.BookQuery(books[i].title, books[i].authors))
  }

  /** The entry a book contributes: its identifier and title when the lookup gives a
      non-empty identifier. A book without authors makes the source raise before the
      lookup; the callers below exclude it, so that arm is never taken. */
  function Resolve(book: ProductResolver.BookQuery, suggest: string -> Option<ProductResolver.Anchor>): Option<Entry> {
    if |book.authors| == 0 then None
    else
      match ProductResolver.ProductId(book.title, suggest(ProductResolver.SearchQuery(book)))
      case Some(id) => if id != "" then Some(Entry(id, book.title)) else None
      case None => None
  }

  function ResolveWith(suggest: string -> Option<ProductResolver.Anchor>): ProductResolver.BookQuery -> Option<Entry> {
    b => Resolve(b, suggest)
  }

  /** `found_hpb_entries`. */
  function ResolvedEntries(books: seq<ProductResolver.BookQuery>, suggest: string -> Option<ProductResolver.Anchor>): seq<Entry> {
    Seqs.FilterMap(books, ResolveWith(suggest))
  }

  /** The resolving loop of stores.py:245-249. */
  method ResolveBooks(bookList: seq<ProductResolver.BookQuery>, suggest: string -> Option<ProductResolver.Anchor>)
    returns (foundHpbEntries: seq<Entry>)
    requires forall i :: 0 <= i < |bookList| ==> |bookList[i].authors| > 0
    ensures foundHpbEntries == ResolvedEntries(bookList, suggest)
  {
    foundHpbEntries := [];
    for i := 0 to |bookList|
      invariant foundHpbEntries == ResolvedEntries(bookList[..i], suggest)
    {
      Seqs.FilterMapSnoc(bookList[..i], bookList[i], ResolveWith(suggest));
      assert bookList[..i + 1] == bookList[..i] + [bookList[i]];
      var x := bookList[i];
      var bookId := ProductResolver.GetHpbProductId(x, suggest);
      if bookId.Some? && bookId.value != "" {
        foundHpbEntries := foundHpbEntries + [Entry(bookId.value, x.title)];
      }
    }
    assert bookList[..|bookList|] == bookList;
  }

  /** The checks made at one store: one per resolved book, in entry order. */
  function StoreChecks(store: StoreLocator.Store, entries: seq<Entry>, page: string -> Option<string>):
    (checks: seq<Availability.AvailabilityResult>)
    ensures |checks| == |entries|
  {
    seq(|entries|, j requires 0 <= j < |entries| =>
      Availability.CheckHpbStoreAvailability(store.id, entries[j].bookId, entries[j].title, page))
  }

  /** All checks, store by store. */
  function AllChecks(stores: seq<StoreLocator.Store>, entries: seq<Entry>, page: string -> Option<string>):
    seq<Availability.AvailabilityResult>
  {
    if stores == [] then []
    else AllChecks(stores[..|stores| - 1], entries, page) + StoreChecks(stores[|stores| - 1], entries, page)
  }

  /** The nested loops of stores.py:250-260; the results are the checks in the order they
      are made. */
  method CheckStores(stores: seq<StoreLocator.Store>, foundHpbEntries: seq<Entry>, page: string -> Option<string>)
    returns (results: seq<Availability.AvailabilityResult>)
    ensures results == AllChecks(stores, foundHpbEntries, page)
  {
    results := [];
    for i := 0 to |stores|
      invariant results == AllChecks(stores[..i], foundHpbEntries, page)
    {
      var store := stores[i];
      for j := 0 to |foundHpbEntries|
        invariant results == AllChecks(stores[..i], foundHpbEntries, page) + StoreChecks(store, foundHpbEntries[..j], page)
      {
        var entry := foundHpbEntries[j];
        var result := Availability.CheckHpbStoreAvailability(store.id, entry.bookId, entry.title, page);
        results := results + [result];
      }
      assert foundHpbEntries[..|foundHpbEntries|] == foundHpbEntries;
      assert stores[..i + 1][..i] == stores[..i];
    }
    assert stores[..|stores|] == stores;
  }

  /** The run: the configuration checks, then the checks of every resolved book at every
      located store. */
  method Run(apiKey: Option<string>, zipArg: Option<string>, radiusArg: Option<int>,
             locate: (string, int) -> seq<StoreLocator.Candidate>,
             userBooks: seq<Wishlist.UserBook>,
             suggest: string -> Option<ProductResolver.Anchor>,
             page: string -> Option<string>)
    returns (outcome: Result<seq<Availability.AvailabilityResult>, RunError>)
    requires Configure(apiKey, zipArg, radiusArg).Success? ==>
      forall k :: 0 <= k < |Wishlist.WantToRead(userBooks)| ==> |Wishlist.WantToRead(userBooks)[k].authors| > 0
    ensures Configure(apiKey, zipArg, radiusArg).Failure? ==>
      outcome == Failure(Configure(apiKey, zipArg, radiusArg).error)
    ensures Configure(apiKey, zipArg, radiusArg).Success? ==>
      var (zip, radius) := Configure(apiKey, zipArg, radiusArg).value;
      outcome == Success(AllChecks(
        StoreLocator.SelectStores(locate(zip, radius), radius),
        ResolvedEntries(BookList(Wishlist.WantToRead(userBooks)), suggest),
        page))
  {
    var config := Configure(apiKey, zipArg, radiusArg);
    if config.Failure? {
      return Failure(config.error);
    }
    var (zipCode, radius) := config.value;
    var stores := StoreLocator.GetListOfStores(locate(zipCode, radius), radius);
    var books := Wishlist.SimplifyBooks(userBooks);
    var bookList := BookList(books);
    var foundHpbEntries := ResolveBooks(bookList, suggest);
    var results := CheckStores(stores, foundHpbEntries, page);
    return Success(results);
  }

  /** The resolved entries are exactly the books whose lookup gives a non-empty identifier,
      in wish-list order; each carries its book's title and an `M-` or `P-` identifier. */
  lemma {:induction false} ResolvedExactly(books: seq<ProductResolver.BookQuery>, suggest: string -> Option<ProductResolver.Anchor>)
    requires forall i :: 0 <= i < |books| ==> |books[i].authors| > 0
    ensures var entries, kept := ResolvedEntries(books, suggest), Seqs.KeptIndices(books, ResolveWith(suggest));
      && |entries| == |kept|
      && (forall k, l :: 0 <= k < l < |kept| ==> kept[k] < kept[l])
      && (forall i :: 0 <= i < |books| ==>
            var id := ProductResolver.ProductId(books[i].title, suggest(ProductResolver.SearchQuery(books[i])));
            (i in kept <==> id.Some? && id.value != ""))
      && (forall k :: 0 <= k < |kept| ==>
            var b := books[kept[k]];
            && entries[k].title == b.title
            && ProductResolver.ProductId(b.title, suggest(ProductResolver.SearchQuery(b))) == Some(entries[k].bookId)
            && ProductResolver.Tagged(entries[k].bookId))
  {
    var f := ResolveWith(suggest);
    Seqs.FilterMapAt(books, f);
    Seqs.KeptIndicesExact(books, f);
    var kept := Seqs.KeptIndices(books, f);
    forall k | 0 <= k < |kept|
      ensures ProductResolver.Tagged(ResolvedEntries(books, suggest)[k].bookId)
    {
      var b := books[kept[k]];
      ProductResolver.ProductIdTagged(b.title, suggest(ProductResolver.SearchQuery(b)));
    }
  }

  /** There is one check per (store, resolved book) pair. */
  lemma {:induction false} AllChecksCount(stores: seq<StoreLocator.Store>, entries: seq<Entry>, page: string -> Option<string>)
    ensures |AllChecks(stores, entries, page)| == |stores| * |entries|
  {
    if stores != [] {
      AllChecksCount(stores[..|stores| - 1], entries, page);
      assert (|stores| - 1) * |entries| + |entries| == |stores| * |entries|;
    }
  }

  /** Position `i * m + j` of a table of `n` rows of `m` cells lies in row `i`. */
  lemma RowMajorBound(i: nat, j: nat, n: nat, m: nat)
    requires i < n && j < m
    ensures i * m + j < n * m
    ensures i * m + j < (i + 1) * m
    ensures (i + 1) * m <= n * m
  {
    MulStep(i, m);
    MulMonotone(i + 1, n, m);
  }

  lemma MulStep(a: nat, m: nat)
    ensures (a + 1) * m == a * m + m
  {
  }

  lemma {:induction false} MulMonotone(a: nat, b: nat, m: nat)
    requires a <= b
    ensures a * m <= b * m
    decreases b - a
  {
    if a < b {
      MulMonotone(a, b - 1, m);
      MulStep(b - 1, m);
    }
  }

  /** The checks come in store-major order: check `i * |entries| + j` is that of book `j`
      at store `i`. */
  lemma {:induction false} AllChecksAt(stores: seq<StoreLocator.Store>, entries: seq<Entry>, page: string -> Option<string>,
                                       i: nat, j: nat)
    requires i < |stores| && j < |entries|
    ensures i * |entries| + j < |AllChecks(stores, entries, page)|
    ensures AllChecks(stores, entries, page)[i * |entries| + j]
      == Availability.CheckHpbStoreAvailability(stores[i].id, entries[j].bookId, entries[j].title, page)
  {
    var n, m := |stores|, |entries|;
    var init := stores[..n - 1];
    AllChecksCount(stores, entries, page);
    AllChecksCount(init, entries, page);
    RowMajorBound(i, j, n, m);
    if i < n - 1 {
      RowMajorBound(i, j, n - 1, m);
      AllChecksAt(init, entries, page, i, j);
      assert stores[i] == init[i];
    } else {
      assert i * m + j - |AllChecks(init, entries, page)| == j;
    }
  }
}
