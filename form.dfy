/**
 * The submit handler of the add-book form: it refuses the entry when the title or the
 * author is the empty string, and otherwise builds the book and hands it to the store.
 * Only the empty string counts as missing; a string of spaces counts as filled.
 */
module BookForm {
  import opened Books
  import opened Storage

  datatype Option<T> = None | Some(value: T)

  /** The book the form yields, or none when a field is empty. */
  function NewBook(title: string, author: string): (r: Option<Book>)
    ensures r == None <==> (title == "" || author == "")
    ensures r.Some? ==> r.value.title == title && r.value.author == author
  {
    if title == "" || author == "" then None else Some(Book(title, author))
  }

  /** How a submission ends: refused with a warning, stored, or failed in the store. */
  datatype Submission = MissingField | Added | StoreFailed(error: StoreError)

  /** The submit handler: validate, then append exactly `Book(title, author)`. */
  method Submit(store: Store, title: string, author: string) returns (result: Submission)
    modifies store
    ensures (title == "" || author == "") ==> result == MissingField && store.slot == old(store.slot)
    ensures title != "" && author != "" && old(store.GetBooks()).Ok? ==>
              result == Added && store.GetBooks() == Ok(old(store.GetBooks()).value + [Book(title, author)])
    ensures title != "" && author != "" && old(store.GetBooks()).Err? ==>
              result == StoreFailed(DecodeError) && store.slot == old(store.slot)
  {
    var book := NewBook(title, author);
    if book.None? {
      return MissingField;
    }
    var outcome := store.AddBook(book.value);
    result := if outcome.Written? then Added else StoreFailed(outcome.error);
  }
}
