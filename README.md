# Book list store, modelled in Dafny

The book-list app keeps an ordered list of `Book{title, author}` records in one
string slot of the browser's local storage, under the key `"books"`. The class
`Store` in `app.js` reads that slot (`getBooks`), appends a book (`addBook`) and
deletes books by title (`removeBook`). Each change reads the whole list, changes
it, and writes the whole list back. The add-form's submit handler refuses an entry
whose title or author is the empty string and otherwise appends `new Book(title, author)`.

This project models that core:

- `books.dfy`, module `Books`: the `Book` record (`app.js:4-9`) and list notions
  used in the contracts (`HasTitle`, `OtherTitles`, `Subsequence`).
- `removal.dfy`, module `Removal`: the removal loop of `removeBook`.
  - `ForEachSplice` is an imperative method. It mirrors the `forEach` loop, in which
    `splice` shrinks the array as the index advances.
  - `Survivors` is the pure characterisation of that loop, and `ForEachSplice` is
    proved to compute it.
  - `Removed` and `KeptAmong` give an independent, position-by-position reference
    definition, and `Survivors` is proved equal to it.
- `storage.dfy`, module `Storage`: class `Store`, whose field `slot` stands for the
  storage slot, with `GetBooks`, `AddBook` and `RemoveBook`.
- `form.dfy`, module `BookForm`: the submit handler's guard (`NewBook`) and the
  guarded append (`Submit`).

Removal is the subtle part. `Array.prototype.forEach` (ECMAScript 2023, section
23.1.3.15) fixes its bound before the first call. It skips an index that is no
longer below the array's current length, and it advances the index after each call.
When `splice` removes the book at index `k`, the next book slides into `k` and is
never examined. So `removeBook` does not remove every book with the title:

- The first matching book is always removed.
- A later matching book is removed exactly when the book before it in the original
  list was kept.
- In a run of same-title books, the 1st, 3rd, 5th and so on are removed.

For example, `[Dune/Herbert, Dune/Frank]` becomes `[Dune/Frank]`. A second call with
the same title then removes `Dune/Frank`, so the operation is not idempotent. The
comment at app.js:146 describes the loop as splicing out each book whose title
matches, which reads as removing every match. The model follows what the loop does.
`SecondRemovalNoOpIff` gives the exact condition under which a second call changes
nothing, and then every match is removed: no two neighbouring books have the title.
`NoAdjacentRemovesAll` proves that this condition is sufficient, and
`AdjacentLeavesMatch` proves that it is necessary.

The slot is modelled by what it decodes to: `Absent`, `Holds(books)`, or
`Unreadable` for content that `JSON.parse` throws on. `JSON.stringify` followed by
`JSON.parse` is taken to be a lossless round trip.

## Model

| member | source | states |
|---|---|---|
| `Removal.Survivors` | app.js:147-151 | the list left by the loop is never longer than the original |
| `Removal.SurvivorsFromOriginal` | app.js:147-151 | every book left by the loop, counted with multiplicity, was in the original list |
| `Removal.ForEachSplice` | app.js:147-151 | the `forEach` loop runs over a bound fixed at the original length, skips indices past the current length and splices matches out; what it leaves is exactly `Survivors` of the input |
| `Removal.SurvivorsByPosition` | app.js:147-151 | the loop's result is the original list less exactly the books at the positions `Removed` picks out: a book with the title whose predecessor in the original list was not removed |
| `Removal.SurvivorsLength` | app.js:147-155 | the list written back has the original length less the number of removed positions |
| `Removal.SurvivorsKeepOtherTitles` | app.js:147-151 | no book of another title is removed, and those books keep their relative order |
| `Removal.SurvivorsInOrder` | app.js:147-151 | the remaining books are the original books with some deleted, in their original order |
| `Removal.SurvivorsUnchangedIff` | app.js:144-155 | the list comes back unchanged if and only if no book has exactly the title (case-sensitive) |
| `Removal.SurvivorsKeepPrefix` | app.js:147-151 | books before the first match pass through the loop untouched |
| `Removal.FirstMatchRemoved` | app.js:147-151 | if some book has the title, the first such book is removed, the books before it stay, and the book right after it stays whatever its title |
| `Removal.RunAlternates` | app.js:147-151 | in a run of consecutive books with the title, the j-th book of the run (counting from 0) is removed exactly when j is even |
| `Removal.NoAdjacentRemovesAll` | app.js:147-151 | when no two neighbouring books both have the title, every book with the title is removed and a second removal changes nothing |
| `Removal.AdjacentLeavesMatch` | app.js:147-155 | when two neighbouring books both have the title, a book with the title is still in the list written back, and a second removal with the same title changes the list again |
| `Removal.SecondRemovalNoOpIff` | app.js:140-156 | a second removal with the same title leaves the list unchanged if and only if no two neighbouring books of the original list both have the title |
| `Removal.RemoveIsNotIdempotent` | app.js:140-156 | `[Dune/Herbert, Dune/Frank]` loses only `Dune/Herbert` on the first removal of "Dune" and `Dune/Frank` on the second |
| `Storage.Store.GetBooks` | app.js:103-122 | an absent slot reads as the empty list, a stored list reads back as itself, and unreadable content is a decode error |
| `Storage.Store.AddBook` | app.js:127-138 | on a readable slot, the slot afterwards holds the previous list with the book appended: one longer, earlier books unchanged and in order, no duplicate check; on an unreadable slot it throws and writes nothing |
| `Storage.Store.RemoveBook` | app.js:140-156 | on a readable slot, the slot afterwards holds `Survivors` of the previous list, is written back unchanged when no book has the title, and keeps every book of another title in order; on an unreadable slot it throws and writes nothing |
| `BookForm.NewBook` | app.js:172-184 | the form yields no book exactly when the title or the author is the empty string, and otherwise the book with exactly those fields (whitespace counts as filled) |
| `BookForm.Submit` | app.js:172-191 | an empty field stores nothing; otherwise the store's list afterwards is the previous one with exactly `Book(title, author)` appended, or the slot is left as it was when it does not decode |

## Left out

- DOM rendering (`UI.displayBooks`, `UI.addBookToList`, `UI.clearFields`, `UI.deleteBook`, app.js:19-66): browser-document manipulation with nothing to state about the list.
- The click handler's title extraction through `previousElementSibling` (app.js:235): DOM navigation. The handler does not check for the delete link before calling `Store.removeBook`, so the store model has no "delete link only" guard.
- `UI.showAlert` and its three-second `setTimeout` removal (app.js:70-93): a timer and a DOM side effect.
- The user-name form (app.js:203-223): unrelated personalisation that only writes HTML.
- `console.log` calls (app.js:185, 215): debugging output.
- `JSON.stringify`, `JSON.parse` and `localStorage` themselves: the slot is modelled by its decoded value, and encoding followed by decoding is taken to be lossless.
- Stored text that parses but is not an array (`null`, a number, a string, an object): the source returns it from `getBooks` and then throws a TypeError at `books.push` (app.js:134) or `books.forEach` (app.js:147). The model has no value for such content.
- Stored arrays whose elements are not `{title, author}` records: `push` still appends to them. `removeBook` keeps a number, string or record without a string `title`, because its `title` never equals the string argument. A `null` element that the loop visits makes `book.title` throw inside the `forEach`. A `null` right after a removed match, or past the shrunken length, is never visited and is written back. The model's slot holds only lists of books.
- Strings are sequences of Unicode scalar values in Dafny. JavaScript strings are UTF-16 code units, and `===` compares code units. So a title or author that contains a lone surrogate cannot be represented.
- A `setItem` that throws (storage full or disabled): it is a property of the browser, not of this code. The model's writes always succeed.
