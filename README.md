# hpb-wishlist-checker, modelled in Dafny

The checker takes a reader's "want to read" list from the Hardcover reading tracker.
It finds the Half Price Books stores near a ZIP code and looks up each wished-for book's
HPB product identifier. Then it asks every nearby store whether that product can be
picked up there. This project models the decisions `stores.py` makes on the data its
network calls return, and proves what those decisions guarantee:

- argument validation: a five-digit ZIP code, and a radius from a fixed list;
- the radius filter on the store finder's candidates;
- the label check and href scan that turn the first search suggestion into an
  `M-`/`P-` product identifier;
- the flattening of the tracker's book records into title/authors pairs;
- the polarity of the "found" flag;
- the resolve-then-cross-product structure of the main block.

Modules, one per component of `stores.py`:

- `Wrappers`: `Option` (an absent JSON key or HTML element) and `Result`.
- `Seqs`: `FilterMap`, the "keep and reshape, in order" shape shared by every list that
  the source builds with `append` in a `for` loop. Its lemmas characterise the output by
  the increasing list of kept input positions (`KeptIndices`).
- `Text`: ASCII digit test and lowercasing, `in` (substring), `str.split` on one
  character and `str.replace(pattern, '')`.
- `Arguments`: `zip_code_type` and the `--radius` option.
- `StoreLocator`: the candidate filter of `get_list_of_stores`.
- `ProductResolver`: the post-HTML part of `get_hpb_product_id`.
- `Wishlist`: the flattening loop of `get_hardcover_want_to_read`.
- `Availability`: `check_hpb_store_availability`, without the fetch.
- `Orchestrator`: the `__main__` block.

The network is represented by function parameters of `Orchestrator.Run`:

- `locate`: the decoded store candidates for a ZIP code and radius;
- `suggest`: the first suggested product link for a search text;
- `page`: the text of a search page's `div.msg` element, if it has one.

The tracker's decoded `user_books` list is passed in as a value. Loops in the source
are methods with loop invariants. Each method is proved equal to a specification
function, and the lemmas state the properties of that function.

Two behaviours of stores.py that are easy to misread:

- `.replace('.html', '')` (stores.py:109) removes every occurrence of `.html`, not only a
  trailing one. `Text.RemoveAllSuffix` proves that a trailing one is stripped when the
  identifier contains no `.`.
- stores.py:85 reads `book_title[1][0]` with no guard, so a book with no authors raises
  `IndexError`. The model makes this a precondition (`ResolveBooks`, `Run`).

## Model

| member | source | states |
|---|---|---|
| `Arguments.ZipCodeType` | stores.py:210-213 | accepts exactly the strings of length 5 made of digits and then returns the input unchanged; every other string fails with the ZIP-code message |
| `Arguments.RadiusArgument` | stores.py:230-236 | no radius gives 15; a given radius is accepted iff it is one of 15, 30, 50, 100, 300, and is then returned as given |
| `StoreLocator.GetListOfStores` | stores.py:62-81 | the loop returns the stores of `SelectStores` for the candidates, at most as many as candidates, each with distance not above the radius |
| `StoreLocator.StoresWithinRadius` | stores.py:64-67 | every reported store's distance is at most the radius |
| `StoreLocator.StoresExactly` | stores.py:64-78 | the stores match, in increasing input order, exactly the candidates whose distance is present and at most the radius; each copies ID, name, city, stateCode, distanceinMI and storePickupEnabled from its candidate |
| `ProductResolver.SearchQuery` | stores.py:85 | the search text begins with the title, followed by a space and the first author; it needs an author to exist |
| `ProductResolver.ProductId` | stores.py:96-111 | no suggested product gives no identifier; a label that does not contain the lowercased title gives no identifier, whatever the href |
| `ProductResolver.GetHpbProductId` | stores.py:84-111 | the lookup with its early-return href scan yields `ProductId` of the title and the first suggestion for the search text |
| `ProductResolver.FirstTaggedExactly` | stores.py:107-109 | the scan finds nothing iff no segment starts with M- or P-; otherwise it finds a segment with a prefix, before which no segment has one |
| `ProductResolver.RemoveHtmlKeepsTag` | stores.py:109 | removing `.html` from a segment starting with M- or P- leaves that prefix in place |
| `ProductResolver.ProductIdFromHref` | stores.py:106-111 | after a passing label check, the result is none iff no href segment starts with M- or P-; otherwise it is the first such segment with `.html` removed, and still starts with M- or P- |
| `ProductResolver.ProductIdTagged` | stores.py:106-111 | every identifier the lookup yields starts with M- or P- |
| `ProductResolver.ProductIdOfHtmlLink` | stores.py:103-111 | with a matching label, the href `/<region>/<id>.html` gives `<id>`, as `/en_US/M-12345-T.html` gives `M-12345-T` |
| `ProductResolver.ProductIdExample` | stores.py:103-111 | a suggestion labelled "Dune by Frank Herbert" linking to `/en_US/M-12345-T.html`, looked up for "Dune", gives `M-12345-T` |
| `Text.Split` | stores.py:107 | `str.split` gives at least one part and no part contains the separator |
| `Text.JoinSplit` | stores.py:107 | joining the split parts with `/` gives the href back, so no character is lost or reordered |
| `Text.RemoveAllAbsent` | stores.py:109 | `replace('.html', '')` leaves a segment without `.html` unchanged |
| `Text.RemoveAllSuffix` | stores.py:109 | `replace('.html', '')` on `<id>.html`, with no `.` in `<id>`, gives `<id>` |
| `Wishlist.SimplifyBooks` | stores.py:168-182 | the flattening loop returns `WantToRead` of the decoded books |
| `Wishlist.WantToReadExactly` | stores.py:168-182 | one entry per book with a non-empty title, in input order, carrying that title and the authors of that book's contributions; the rest are dropped |
| `Wishlist.AuthorsExactly` | stores.py:171-175 | the authors are, in order, exactly the names of the contributions that have an author with a non-empty name |
| `Wishlist.WantToReadNonEmpty` | stores.py:171-180 | no flattened book has an empty title or an empty author name |
| `Availability.SearchUrl` | stores.py:185-190 | the search URL contains the product identifier and the store identifier |
| `Availability.CheckHpbStoreAvailability` | stores.py:184-207 | the result echoes store_id, book_id and book_name; its url contains both ids; found is false iff the page has a message element whose text contains the no-results marker |
| `Availability.FoundPolarity` | stores.py:195-199 | no message element, or a message without the marker, means found; a message containing the marker means not found |
| `Orchestrator.Configure` | stores.py:216-240 | a missing or empty API key fails first; otherwise the run proceeds iff a ZIP is given and valid and the radius is valid, with that five-digit ZIP and an allowed radius |
| `Orchestrator.BookList` | stores.py:244 | one title/authors pair per flattened book, in order |
| `Orchestrator.ResolveBooks` | stores.py:245-249 | the resolving loop returns `ResolvedEntries` of the book list |
| `Orchestrator.ResolvedExactly` | stores.py:245-249 | the entries are, in order, exactly the books whose lookup gives a non-empty identifier, with that identifier (starting with M- or P-) and the book's title |
| `Orchestrator.CheckStores` | stores.py:250-253 | the nested loops make exactly the checks of `AllChecks`, in that order |
| `Orchestrator.AllChecksCount` | stores.py:250-253 | the number of checks is the number of stores times the number of resolved books |
| `Orchestrator.AllChecksAt` | stores.py:250-253 | check `i * books + j` is that of resolved book `j` at store `i` (store-major order) |
| `Orchestrator.Run` | stores.py:215-253 | a failed configuration check ends the run with that error and nothing else; otherwise the run makes the checks of every resolved book at every located store |

## Left out

- HTTP and scraping (the `cloudscraper` client, `urlopen`, timeouts, status checks and
  `raise_for_status`, stores.py:23-29, 54-59, 91-92, 145-153, 191-192): network I/O.
  The collaborators are the function parameters `locate`, `suggest` and `page`, which
  never fail.
- Geocoding with `pgeocode` (stores.py:46-51): an external dataset with float
  coordinates. The coordinates only refine the request, so `locate` stands for the
  whole request.
- Building the store-finder request and its URL encoding (stores.py:33-53), and the
  `quote` of the search text (stores.py:85): treated as opaque. `suggest` is keyed by
  the unescaped text, which carries the same information because quoting is injective.
- HTML parsing with BeautifulSoup: the selected `<a>` and `div.msg` are handed in as
  values. A found tag is always true in Python, so presence is all that `if not` and
  `and` test.
- JSON decoding and the tracker's error and shape checks (stores.py:133-166).
  `book.get(...)` on a JSON `null` or a non-object value would raise; the model does
  not represent such values.
- Unicode in `str.lower` and `str.isdigit`: the model uses ASCII letters and the
  digits `0`-`9` only.
- JSON numbers: distances are `real` and are only compared.
- Console output (colours and printed lines): `CheckStores` returns the checks in the
  order they are made. `found` picks which of the lines at stores.py:254-260 is printed,
  and its result's fields fill that line. The lines at 79, 243 and 251 are not modelled.
- `zip_code.strip()` (stores.py:239): a validated ZIP has five digits and no
  whitespace, so stripping leaves it unchanged and is not modelled.
- argparse details: which of two invalid arguments is reported depends on the order
  of the command line, so every argument error is one `UsageError`. The conversion of
  the radius text by `type=int` is not modelled; the radius arrives as an integer.
- Orchestrator.Run: requires every flattened book to have an author whenever the
  configuration passes, because the source raises `IndexError` on such a book
  (stores.py:85) instead of handling it.
- Orchestrator.ResolveBooks: requires every book to have an author, for the same
  reason. `Resolve` gives no entry for an authorless book, but that case is never
  reached.
- The module-wide scraper session (shared state across calls) is not modelled: the
  oracles are pure functions.
