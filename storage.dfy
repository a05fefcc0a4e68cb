/**
 * `Store` keeps the list of books in the one string slot "books" of the browser's
 * local storage. Every operation decodes the whole slot, and every change encodes the
 * whole list and writes it back. The encoding is treated as a lossless round trip, so
 * the slot is modelled by what it decodes to.
 */
module Storage {
  import opened Books
  import Removal

  /** What the slot "books" holds: nothing, a list of books, or text that does not decode. */
  datatype Slot = Absent | Holds(books: seq<Book>) | Unreadable

  /** The exception `JSON.parse` throws on content it cannot read. */
  datatype StoreError = DecodeError

  datatype Result<T> = Ok(value: T) | Err(error: StoreError)

  /** How a changing operation ends: it wrote the slot, or it threw before writing. */
  datatype Outcome = Written | Threw(error: StoreError)

  class Store {
    var slot: Slot

    constructor (initial: Slot)
      ensures slot == initial
    {
      slot := initial;
    }

    /** `getBooks`: an absent slot reads as the empty list; otherwise the slot is decoded. */
    function GetBooks(): (r: Result<seq<Book>>)
      reads this
      ensures slot == Absent ==> r == Ok([])
      ensures slot.Holds? ==> r == Ok(slot.books)
      ensures r.Err? <==> slot == Unreadable
    {
      match slot
      case Absent => Ok([])
      case Holds(books) => Ok(books)
      case Unreadable => Err(DecodeError)
    }

    /**
     * `addBook`: the stored list with `book` appended, written back. There is no
     * duplicate check. When the slot does not decode, nothing is written.
     */
    method AddBook(book: Book) returns (outcome: Outcome)
      modifies this
      ensures old(GetBooks()).Err? ==> outcome == Threw(DecodeError) && slot == old(slot)
      ensures old(GetBooks()).Ok? ==>
                outcome == Written && slot == Holds(old(GetBooks()).value + [book])
      ensures old(GetBooks()).Ok? ==>
                var before := old(GetBooks()).value;
                GetBooks().Ok? && |GetBooks().value| == |before| + 1 &&
                GetBooks().value[..|before|] == before && GetBooks().value[|before|] == book
    {
      var read := GetBooks();
      if read.Err? {
        return Threw(read.error);
      }
      var books := read.value;
      books := books + [book];
      slot := Holds(books);
      outcome := Written;
    }

    /**
     * `removeBook`: the stored list after the `forEach`/`splice` loop, written back,
     * also when nothing matched. When the slot does not decode, nothing is written.
     */
    method RemoveBook(title: string) returns (outcome: Outcome)
      modifies this
      ensures old(GetBooks()).Err? ==> outcome == Threw(DecodeError) && slot == old(slot)
      ensures old(GetBooks()).Ok? ==>
                outcome == Written && slot == Holds(Removal.Survivors(old(GetBooks()).value, title))
      ensures old(GetBooks()).Ok? && !HasTitle(old(GetBooks()).value, title) ==>
                slot == Holds(old(GetBooks()).value)
      ensures old(GetBooks()).Ok? ==>
                OtherTitles(GetBooks().value, title) == OtherTitles(old(GetBooks()).value, title)
    {
      var read := GetBooks();
      if read.Err? {
        return Threw(read.error);
      }
      var books := Removal.ForEachSplice(read.value, title);
      Removal.SurvivorsUnchangedIff(read.value, title);
      Removal.SurvivorsKeepOtherTitles(read.value, title);
      slot := Holds(books);
      outcome := Written;
    }
  }
}
