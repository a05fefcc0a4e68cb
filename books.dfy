/** The book record of the book list and the list-level notions used to talk about it. */
module Books {

  /** One entry of the list: a title and an author, both plain strings. */
  datatype Book = Book(title: string, author: string)

  /** True if some book in `books` has exactly this title (case-sensitive, like `===`). */
  predicate HasTitle(books: seq<Book>, title: string) {
    exists i :: 0 <= i < |books| && books[i].title == title
  }

  /** The books whose title differs from `title`, in their original order. */
  function OtherTitles(books: seq<Book>, title: string): (r: seq<Book>)
    ensures !HasTitle(r, title)
    ensures |r| <= |books|
  {
    if |books| == 0 then []
    else (if books[0].title != title then [books[0]] else []) + OtherTitles(books[1..], title)
  }

  /** `sub` is `books` with some entries deleted and the rest in their original order. */
  predicate Subsequence(sub: seq<Book>, books: seq<Book>)
    decreases |books|
  {
    sub == [] ||
    (|books| > 0 &&
     ((sub[0] == books[0] && Subsequence(sub[1..], books[1..])) || Subsequence(sub, books[1..])))
  }
}
