/** The flattening loop of `get_hardcover_want_to_read` (stores.py:168-182): the
    decoded `user_books` list of the reading tracker becomes title/authors pairs. */
module Wishlist {
  import opened Wrappers
  import Seqs

  /** `contributions[i].author`: a missing or empty author object is `None` here,
      since the source treats both as false. */
  datatype Author = Author(name: Option<string>)
  datatype Contribution = Contribution(author: Option<Author>)
  datatype BookRecord = BookRecord(title: Option<string>, contributions: Option<seq<Contribution>>)
  /** One entry of `user_books`; `book` is `None` when the key is missing. */
  datatype UserBook = UserBook(book: Option<BookRecord>)

  /** A wish-list book: a title and the names of its authors. */
  datatype WishBook = WishBook(title: string, authors: seq<string>)

  /** The author name a contribution adds: its author's name, when there is an
      author and the name is a non-empty string. */
  function AuthorName(c: Contribution): Option<string> {
    match c.author
    case None => None
    case Some(author) =>
      match author.name
      case Some(name) => if name != "" then Some(name) else None
      case None => None
  }

  /** The author list comprehension of stores.py:171-175. */
  function AuthorsOf(contributions: seq<Contribution>): seq<string> {
    Seqs.FilterMap(contributions, AuthorName)
  }

  /** The record one `user_books` entry contributes, if its book has a non-empty title. */
  function Simplify(b: UserBook): Option<WishBook> {
    var book := b.book.GetOr(BookRecord(None, None));
    match book.title
    case Some(title) =>
      if title != "" then Some(WishBook(title, AuthorsOf(book.contributions.GetOr([])))) else None
    case None => None
  }

  /** The list the flattening returns. */
  function WantToRead(books: seq<UserBook>): seq<WishBook> {
    Seqs.FilterMap(books, Simplify)
  }

  /** The loop of stores.py:168-182. */
  method SimplifyBooks(books: seq<UserBook>) returns (simplifiedBooks: seq<WishBook>)
    ensures simplifiedBooks == WantToRead(books)
  {
    simplifiedBooks := [];
    for i := 0 to |books|
      invariant simplifiedBooks == WantToRead(books[..i])
    {
      Seqs.FilterMapSnoc(books[..i], books[i], Simplify);
      assert books[..i + 1] == books[..i] + [books[i]];
      var book := books[i].book.GetOr(BookRecord(None, None));
      var authors := AuthorsOf(book.contributions.GetOr([]));
      if book.title.Some? && book.title.value != "" {
        simplifiedBooks := simplifiedBooks + [WishBook(book.title.value, authors)];
      }
    }
    assert books[..|books|] == books;
  }

  /** The title of the book an entry holds, with a missing book read as `{}`. */
  function TitleOf(b: UserBook): Option<string> {
    b.book.GetOr(BookRecord(None, None)).title
  }

  /** One output entry per input book with a non-empty title, in input order, carrying
      that title and the authors of that book's contributions; the others are dropped. */
  lemma {:induction false} WantToReadExactly(books: seq<UserBook>)
    ensures var out, kept := WantToRead(books), Seqs.KeptIndices(books, Simplify);
      && |out| == |kept|
      && (forall k, l :: 0 <= k < l < |kept| ==> kept[k] < kept[l])
      && (forall i :: 0 <= i < |books| ==>
            (i in kept <==> TitleOf(books[i]).Some? && TitleOf(books[i]).value != ""))
      && (forall k :: 0 <= k < |kept| ==>
            var book := books[kept[k]].book.GetOr(BookRecord(None, None));
            book.title == Some(out[k].title)
            && out[k].authors == AuthorsOf(book.contributions.GetOr([])))
  {
    Seqs.FilterMapAt(books, Simplify);
    Seqs.KeptIndicesExact(books, Simplify);
  }

  /** The authors are exactly the non-empty names of the contributions that have an
      author, in contribution order. */
  lemma {:induction false} AuthorsExactly(contributions: seq<Contribution>)
    ensures var names, kept := AuthorsOf(contributions), Seqs.KeptIndices(contributions, AuthorName);
      && |names| == |kept|
      && (forall k, l :: 0 <= k < l < |kept| ==> kept[k] < kept[l])
      && (forall i :: 0 <= i < |contributions| ==>
            (i in kept <==> var c := contributions[i];
               c.author.Some? && c.author.value.name.Some? && c.author.value.name.value != ""))
      && (forall k :: 0 <= k < |kept| ==>
            contributions[kept[k]].author.value.name == Some(names[k]))
  {
    Seqs.FilterMapAt(contributions, AuthorName);
    Seqs.KeptIndicesExact(contributions, AuthorName);
  }

  /** No wish-list book has an empty title or an empty author name. */
  lemma {:induction false} WantToReadNonEmpty(books: seq<UserBook>)
    ensures forall k :: 0 <= k < |WantToRead(books)| ==>
      && WantToRead(books)[k].title != ""
      && forall a :: a in WantToRead(books)[k].authors ==> a != ""
  {
    Seqs.FilterMapAt(books, Simplify);
    forall k | 0 <= k < |WantToRead(books)|
      ensures forall a :: a in WantToRead(books)[k].authors ==> a != ""
    {
      var kept := Seqs.KeptIndices(books, Simplify);
      var book := books[kept[k]].book.GetOr(BookRecord(None, None));
      Seqs.FilterMapMembers(book.contributions.GetOr([]), AuthorName);
    }
  }
}
