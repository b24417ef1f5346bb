# Library lending model

A Dafny model of the library service's catalog and lending core: the Book
document with the constraints its schema enforces on save, and the router's
handlers that list, add, edit, remove, borrow and return books. Each handler
is a method of the class `Routes.Library`, whose field `books` is the Book
collection keyed by document id. Each handler returns an `Outcome`: either
`Success` carrying the book it answers with, or the refusal it sends.

The handlers run their checks in a fixed order:

- the caller's role: add, update and delete need `LIBRARIAN`;
- the id parameter: an empty id is `MissingField`;
- the document's existence: `NotFound`;
- for borrow, availability (`Unavailable`) and then membership (`AlreadyBorrowed`);
- for return, membership (`NotBorrowed`).

Only then does a handler act. Add builds a new document, and update, borrow
and return edit a copy of the fetched one; each of these then calls `save()`.
Delete calls `remove()` instead. `Library.Save` models the `save()` call:

- the schema validators (`SchemaValid`) must pass;
- the unique isbn index (`IsbnFree`) must admit the document;
- for a new document, its `_id` must not be taken.

A failed save is `SaveRejected` and leaves the collection unchanged.

The model follows the code, not the intended lending design:

- **update** assigns the new quantity at routes/library.js:61 before line 62
  computes `quantity - (quantity - available)`, which is the old `available`.
  So a truthy quantity overwrites `quantity` and leaves `available` as it was.
  `Lending.RevisedBalance` shows that update keeps
  `available + |borrowers| == quantity` exactly when the quantity does not
  change. `Lending.RevisedUnbalances` gives a concrete book that update
  unbalances.
- **return** raises `available` with no cap at `quantity`.
- **delete** removes a book even when copies are lent out.
- **no retries**: there is no version check, retry loop or contention
  outcome. Every handler is one atomic step.

Given those rules, the model proves these invariants:

- `available >= 0` holds for every stored book, as part of `Library.Valid()`.
- No stored book lists a borrower twice (`LoansDistinct`). Every handler
  keeps this.
- `available + |borrowers| == quantity` (`LoansBalanced`) is kept by add,
  delete and borrow. Return keeps it when the borrower list has no
  duplicates. Update does not keep it.
- A borrow followed by a return of the same book by a user who was not
  borrowing it restores the collection exactly.
- A return followed by a borrow restores `available` and the multiset of
  borrowers. The user moves to the end of the list.

Strings are trimmed on assignment the way `String.prototype.trim` does,
using its WhiteSpace and LineTerminator characters. The isbn index
therefore compares trimmed values.

Request-body fields are `Option` values: `None` means the field was not sent.
A string field is truthy when it is sent and non-empty. The quantity field is
truthy when it is sent and non-zero. The caller (`Caller`: user id and role)
is an input; it stands for what session validation provides. The fresh
ObjectId of a new book is an input to `Add`.

## Model

| member | source | states |
|---|---|---|
| BookModel.TrimStart | models/book.js:4-19 | the result is a suffix of the input, everything cut off is whitespace, and it does not start with whitespace |
| BookModel.TrimEnd | models/book.js:4-19 | the result is a prefix of the input, everything cut off is whitespace, and it does not end with whitespace |
| BookModel.Trim | models/book.js:4-19 | a stored title, author or isbn neither starts nor ends with whitespace and is no longer than the value assigned |
| BookModel.TrimIsSlice | models/book.js:4-19 | every input is its trimmed value framed by whitespace on both sides |
| BookModel.TrimIdempotent | models/book.js:4-19 | trimming an already stored value changes nothing |
| BookModel.TrimPadded | models/book.js:14-19 | whitespace around an assigned value is lost, so " X " and "X" store the same isbn and collide in the unique index |
| BookModel.BlankFieldRejected | models/book.js:4-19 | a whitespace-only title, author or isbn is stored empty, so the required validator rejects the document |
| BookModel.SchemaIsLoose | models/book.js:20-33 | the validators accept available greater than quantity and a borrower listed twice |
| BookModel.SaveKeepsStoreValid | models/book.js:3-36 | writing a document that passes the validators and the isbn index keeps every stored record valid, under its own id, with distinct isbns |
| BookModel.DuplicateIsbnRejected | models/book.js:14-19 | a document whose isbn another stored record already has is never saved |
| BookModel.RemoveKeepsStoreValid | routes/library.js:85 | removing a record keeps the collection valid |
| BookModel.Url | models/book.js:38-40 | the url of a book reads back, through IdOfUrl, as exactly that book's id |
| BookModel.IdOfUrl | models/book.js:38-40 | the inverse of the url getter: a string names `id` exactly when it is "/books/" followed by `id` |
| BookModel.NewDocument | routes/library.js:24-30 | the document `new Book({...})` builds: title, author and isbn passed through their trim setters, quantity and available as given, borrowers at their empty default |
| BookModel.SchemaValid | models/book.js:4-29 | the field validators: title, author and isbn non-empty once trimmed, quantity and available at least 0; nothing ties available to quantity or constrains borrowers |
| BookModel.IsbnFree | models/book.js:14-19 | the unique isbn index admits a document exactly when no other stored record has its isbn |
| BookModel.Saveable | models/book.js:3-36 | save succeeds exactly when the validators pass, the isbn index admits the document and, for a new document, its _id is not taken |
| BookModel.StoreValid | models/book.js:3-36 | every record saved so far sits under its own non-empty id, passed its validators, and no two share an isbn |
| BookModel.SchemaIgnoresLoans | models/book.js:20-33 | for every valid record, any non-negative available and any borrower list, repeats included, keep it valid |
| BookModel.UrlRoundTrip | models/book.js:38-40 | the url of a book is "/books/" followed by its id: reading the id back gives that id, and no other url names it |
| Lending.Truthy | routes/library.js:18 | a string body field passes the handler's truthiness test exactly when it is sent and non-empty |
| Lending.TruthyNumber | routes/library.js:18 | the quantity body field passes the truthiness test exactly when it is sent and non-zero |
| Lending.Complete | routes/library.js:18-22 | the add handler proceeds exactly when title, author, isbn and quantity are all truthy; otherwise it answers missing fields |
| Lending.Revised | routes/library.js:57-63 | the document after the update handler's assignments: each truthy string field replaced by its trimmed value, a truthy quantity replaces quantity, available and borrowers as they were |
| Lending.Without | routes/library.js:142-144 | the filtered borrower list holds exactly the entries of the old list other than the caller, and is no longer |
| Lending.WithoutMultiset | routes/library.js:142-144 | the filter keeps every other borrower with its multiplicity and drops every occurrence of the caller |
| Lending.WithoutLength | routes/library.js:142-144 | the filter shortens the list by the number of occurrences of the caller |
| Lending.WithoutAbsent | routes/library.js:142-144 | filtering out a user who is not in the list changes nothing |
| Lending.WithoutAppend | routes/library.js:142-144 | filtering commutes with appending |
| Lending.WithoutNoDuplicates | routes/library.js:142-144 | a duplicate-free list stays duplicate-free |
| Lending.OccursOnce | routes/library.js:109-114 | in a duplicate-free list a borrower occurs exactly once |
| Lending.Borrowed | routes/library.js:105-114 | a successful borrow keeps id, title, author, isbn and quantity, and adds the caller once to the multiset of borrowers |
| Lending.Returned | routes/library.js:141-144 | a successful return keeps id, title, author, isbn and quantity, removes the caller and keeps every other borrower |
| Lending.BorrowKeepsInvariants | routes/library.js:102-115 | a borrow by a non-borrower of a book with copies lowers available by exactly 1, keeps it non-negative, keeps borrowers duplicate-free and keeps available plus the number of borrowers |
| Lending.ReturnKeepsInvariants | routes/library.js:138-145 | a return by a borrower raises available by exactly 1, shortens a duplicate-free list by exactly 1, keeps it duplicate-free and keeps available plus the number of borrowers |
| Lending.BorrowReturnRoundTrip | routes/library.js:105-144 | borrow then return by a user not yet borrowing restores the document, available and borrower order included |
| Lending.ReturnBorrowRoundTrip | routes/library.js:105-144 | return then borrow restores available and the multiset of borrowers |
| Lending.RevisedBalance | routes/library.js:57-63 | on a balanced book, update with a truthy quantity keeps available plus the number of borrowers equal to quantity exactly when the quantity is unchanged |
| Lending.RevisedUnbalances | routes/library.js:60-63 | quantity 5 with 2 available and 3 lent, updated to 3, leaves available at 2 and the book unbalanced |
| Routes.EditFields | routes/library.js:57-63 | the handler's assignments, in their order, give the revised document: truthy strings trimmed into place, a truthy quantity assigned, available unchanged |
| Routes.Library.Save | models/book.js:3-36 | save succeeds exactly when the validators, the isbn index and (for a new document) the id index admit the document; then it is stored under its id, otherwise nothing changes |
| Routes.Library.List | routes/library.js:6-9 | the list holds every stored book exactly once, and nothing else |
| Routes.Library.Add | routes/library.js:11-40 | non-librarian: Unauthorized; a missing or falsy field (quantity 0 included): MissingField; otherwise the trimmed new book with available = quantity > 0 and no borrowers is stored when save admits it (in particular SaveRejected when its trimmed isbn is taken); the collection is unchanged on every refusal; store validity, distinct and balanced loans kept |
| Routes.Library.Update | routes/library.js:42-69 | Unauthorized / MissingField / NotFound in that order with nothing changed; otherwise each truthy field is overwritten (strings trimmed), available and borrowers unchanged, stored if save admits it, else SaveRejected; distinct loans kept |
| Routes.Library.Delete | routes/library.js:71-90 | Unauthorized / MissingField / NotFound with nothing changed; otherwise exactly that id is removed regardless of loans and every other book is untouched |
| Routes.Library.Borrow | routes/library.js:92-120 | MissingField / NotFound; Unavailable when available is 0, even for an existing borrower; AlreadyBorrowed with nothing saved; otherwise available drops by 1 (staying >= 0) and the caller is appended; never SaveRejected; distinct and balanced loans kept |
| Routes.Library.Return | routes/library.js:122-150 | MissingField / NotFound; NotBorrowed with nothing changed; otherwise available rises by 1 with no cap and every entry of the caller is removed; never SaveRejected; distinct loans kept, balance kept when loans are distinct |
| Routes.BorrowThenReturn | routes/library.js:92-150 | a borrow then a return by a user not yet borrowing a book with copies both succeed and leave the collection as it was |
| Routes.LastCopy | routes/library.js:102-115 | two borrows of the last copy in turn: the first succeeds, the second is Unavailable, one loan is recorded |

## Left out

- Concurrency: the handlers read, modify and write across `await`s. The model runs each handler as one atomic step. No version check, retry or contention outcome exists in the code, so none is modelled.
- HTTP status codes, JSON response bodies and the OpenAPI comment block (routes/library.js:154-418) are not modelled. Outcomes are the `Outcome` datatype.
- Session validation (`validateSessionToken`, in utils/helpers) is not part of this model. The caller's id and role are method inputs.
- ObjectId generation and casting are not modelled: ids are plain strings. An id that would fail to cast is an id not in the collection. Only the return handler catches the cast error, at routes/library.js:129-133, and answers not-found. In the other handlers a cast error escapes as an unhandled rejection, which the model does not represent.
- A failed `save()` in update, borrow and return is not caught in the source: the request gets no answer. The model reports `SaveRejected` with the collection unchanged. For borrow and return it proves that this cannot happen on a valid collection.
- Add reports a failed save as a generic server error. The model calls it `SaveRejected` and does not say which constraint failed.
- Request-body values of other JSON types are not modelled, for example a number sent as title or a string sent as quantity, with Mongoose's casting of them. Quantities are unbounded integers, not JavaScript floating-point numbers.
- The `if (!book.borrowers)` default at routes/library.js:106-108 is not modelled, because a Mongoose array field is always present and defaults to empty.
- The `console.log` of a failed add at routes/library.js:37 is logging and is not modelled.
- `timestamps: true` (models/book.js:35) depends on the clock and is not modelled.
- The `ref: 'User'` link of borrowers has no counterpart. Borrowers are plain user ids, and the `toString()` comparison at routes/library.js:143 is plain equality.
- The unique isbn index is taken to be built and enforced on every write.
- index.js (server bootstrap, database connection, documentation wiring, logging) has no lending logic and is not modelled.
