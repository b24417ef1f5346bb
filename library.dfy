/**
 * The library router: one method per route handler, run against the
 * collection of Book documents. Every handler checks, in order, the
 * caller's role (catalog changes only), the id parameter, the document's
 * existence and then availability or membership, edits a copy of the
 * document field by field and commits it with a save.
 */
module Routes {
  import opened Wrappers
  import opened BookModel
  import opened Lending

  /** The role that may change the catalog. */
  const Librarian: string := "LIBRARIAN"

  /** The authenticated user a request runs as. */
  datatype Caller = Caller(id: UserId, role: string)

  /** What a handler answers: the book it returns, or why it refused. */
  datatype Outcome =
    | Success(book: Book)
    | Unauthorized
    | MissingField
    | NotFound
    | Unavailable
    | AlreadyBorrowed
    | NotBorrowed
    | SaveRejected

  /** The update handler's field assignments on a fetched document, in the
      handler's order: quantity is assigned before available is computed
      from it. */
  method EditFields(b: Book, title: Option<string>, author: Option<string>, isbn: Option<string>,
                    quantity: Option<int>) returns (book: Book)
    ensures book == Revised(b, title, author, isbn, quantity)
  {
    book := b;
    if Truthy(title) {
      book := book.(title := Trim(title.value));
    }
    if Truthy(author) {
      book := book.(author := Trim(author.value));
    }
    if Truthy(isbn) {
      book := book.(isbn := Trim(isbn.value));
    }
    if TruthyNumber(quantity) {
      book := book.(quantity := quantity.value);
      book := book.(available := quantity.value - (book.quantity - book.available));
    }
  }

  class Library {
    /** The Book collection, keyed by document id. */
    var books: map<BookId, Book>

    /** What the schema and the isbn index guarantee of every stored record. */
    ghost predicate Valid()
      reads this
    {
      StoreValid(books)
    }

    /** No stored book lists a borrower twice. */
    ghost predicate LoansDistinct()
      reads this
    {
      forall k :: k in books ==> NoDuplicates(books[k].borrowers)
    }

    /** Every stored book has available + |borrowers| == quantity. */
    ghost predicate LoansBalanced()
      reads this
    {
      forall k :: k in books ==> LoanBalanced(books[k])
    }

    constructor ()
      ensures Valid() && books == map[]
    {
      books := map[];
    }

    /** `doc.save()`: validate, check the indexes, then write the document. */
    method Save(doc: Book, isNew: bool) returns (saved: bool)
      requires Valid() && doc.id != ""
      modifies this
      ensures Valid()
      ensures saved == Saveable(old(books), doc, isNew)
      ensures books == if saved then old(books)[doc.id := doc] else old(books)
    {
      saved := Saveable(books, doc, isNew);
      if saved {
        SaveKeepsStoreValid(books, doc, isNew);
        books := books[doc.id := doc];
      }
    }

    /** GET `/`: every stored book, each once. */
    method List() returns (result: seq<Book>)
      requires Valid()
      ensures |result| == |books|
      ensures forall i :: 0 <= i < |result| ==> result[i].id in books && books[result[i].id] == result[i]
      ensures forall i, j :: 0 <= i < j < |result| ==> result[i].id != result[j].id
      ensures forall k :: k in books ==> books[k] in result
    {
      result := [];
      var rest := books.Keys;
      assert |rest| == |books|;
      while rest != {}
        invariant rest <= books.Keys
        invariant |result| + |rest| == |books|
        invariant forall i :: 0 <= i < |result| ==>
          result[i].id in books && books[result[i].id] == result[i] && result[i].id !in rest
        invariant forall i, j :: 0 <= i < j < |result| ==> result[i].id != result[j].id
        invariant forall k :: k in books && k !in rest ==> books[k] in result
        decreases rest
      {
        var k :| k in rest;
        ghost var prev := result;
        result := result + [books[k]];
        assert forall i :: 0 <= i < |prev| ==> result[i] == prev[i];
        assert result[|prev|] == books[k];
        rest := rest - {k};
      }
    }

    /** POST `/`: a librarian adds a book with every copy available. `newId`
        is the ObjectId the driver generates, which is never empty. */
    method Add(caller: Caller, title: Option<string>, author: Option<string>, isbn: Option<string>,
               quantity: Option<int>, newId: BookId) returns (outcome: Outcome)
      requires Valid() && newId != ""
      modifies this
      ensures Valid()
      ensures caller.role != Librarian ==> outcome == Unauthorized
      ensures caller.role == Librarian && !Complete(title, author, isbn, quantity) ==> outcome == MissingField
      ensures caller.role == Librarian && Complete(title, author, isbn, quantity) ==>
        var doc := NewDocument(newId, title.value, author.value, isbn.value, quantity.value, quantity.value);
        outcome == if Saveable(old(books), doc, true) then Success(doc) else SaveRejected
      ensures caller.role == Librarian && Complete(title, author, isbn, quantity) ==>
        forall k :: k in old(books) && old(books)[k].isbn == Trim(isbn.value) ==> outcome == SaveRejected
      ensures outcome.Success? ==>
        && newId !in old(books) && books == old(books)[newId := outcome.book]
        && outcome.book.available == outcome.book.quantity == quantity.value > 0
        && outcome.book.borrowers == []
      ensures !outcome.Success? ==> books == old(books)
      ensures old(LoansDistinct()) ==> LoansDistinct()
      ensures old(LoansBalanced()) ==> LoansBalanced()
    {
      if caller.role != Librarian {
        return Unauthorized;
      }
      if !Truthy(title) || !Truthy(author) || !Truthy(isbn) || !TruthyNumber(quantity) {
        return MissingField;
      }
      var book := NewDocument(newId, title.value, author.value, isbn.value, quantity.value, quantity.value);
      var saved := Save(book, true);
      outcome := if saved then Success(book) else SaveRejected;
    }

    /** PUT `/:id`: a librarian overwrites the truthy fields. The new quantity
        is assigned before available is recomputed from it, so available
        keeps its value. */
    method Update(caller: Caller, id: BookId, title: Option<string>, author: Option<string>,
                  isbn: Option<string>, quantity: Option<int>) returns (outcome: Outcome)
      requires Valid()
      modifies this
      ensures Valid()
      ensures caller.role != Librarian ==> outcome == Unauthorized
      ensures caller.role == Librarian && id == "" ==> outcome == MissingField
      ensures caller.role == Librarian && id != "" && id !in old(books) ==> outcome == NotFound
      ensures caller.role == Librarian && id != "" && id in old(books) ==>
        var doc := Revised(old(books)[id], title, author, isbn, quantity);
        outcome == if Saveable(old(books), doc, false) then Success(doc) else SaveRejected
      ensures outcome.Success? ==>
        var was := old(books)[id];
        && books == old(books)[id := outcome.book]
        && outcome.book.id == id
        && outcome.book.title == (if Truthy(title) then Trim(title.value) else was.title)
        && outcome.book.author == (if Truthy(author) then Trim(author.value) else was.author)
        && outcome.book.isbn == (if Truthy(isbn) then Trim(isbn.value) else was.isbn)
        && outcome.book.quantity == (if TruthyNumber(quantity) then quantity.value else was.quantity)
        && outcome.book.available == was.available
        && outcome.book.borrowers == was.borrowers
      ensures !outcome.Success? ==> books == old(books)
      ensures old(LoansDistinct()) ==> LoansDistinct()
    {
      if caller.role != Librarian {
        return Unauthorized;
      }
      if id == "" {
        return MissingField;
      }
      if id !in books {
        return NotFound;
      }
      var book := EditFields(books[id], title, author, isbn, quantity);
      var saved := Save(book, false);
      outcome := if saved then Success(book) else SaveRejected;
    }

    /** DELETE `/:id`: a librarian removes a book, even one with copies lent out. */
    method Delete(caller: Caller, id: BookId) returns (outcome: Outcome)
      requires Valid()
      modifies this
      ensures Valid()
      ensures caller.role != Librarian ==> outcome == Unauthorized
      ensures caller.role == Librarian && id == "" ==> outcome == MissingField
      ensures caller.role == Librarian && id != "" && id !in old(books) ==> outcome == NotFound
      ensures outcome.Success? <==> caller.role == Librarian && id != "" && id in old(books)
      ensures outcome.Success? ==> outcome.book == old(books)[id] && books == old(books) - {id}
      ensures forall k :: k in old(books) && k != id ==> k in books && books[k] == old(books)[k]
      ensures !outcome.Success? ==> books == old(books)
      ensures old(LoansDistinct()) ==> LoansDistinct()
      ensures old(LoansBalanced()) ==> LoansBalanced()
    {
      if caller.role != Librarian {
        return Unauthorized;
      }
      if id == "" {
        return MissingField;
      }
      if id !in books {
        return NotFound;
      }
      var book := books[id];
      RemoveKeepsStoreValid(books, id);
      books := books - {id};
      outcome := Success(book);
    }

    /** POST `/:id/borrow`: the caller takes one copy. Availability is
        checked before membership, and neither refusal is saved. */
    method Borrow(caller: Caller, id: BookId) returns (outcome: Outcome)
      requires Valid()
      modifies this
      ensures Valid()
      ensures id == "" ==> outcome == MissingField
      ensures id != "" && id !in old(books) ==> outcome == NotFound
      ensures id != "" && id in old(books) && old(books)[id].available == 0 ==> outcome == Unavailable
      ensures id != "" && id in old(books) && old(books)[id].available != 0 && caller.id in old(books)[id].borrowers ==>
        outcome == AlreadyBorrowed
      ensures id != "" && id in old(books) && old(books)[id].available != 0 && caller.id !in old(books)[id].borrowers ==>
        outcome == Success(Borrowed(old(books)[id], caller.id))
      ensures outcome.Success? ==>
        && books == old(books)[id := outcome.book]
        && outcome.book.available == old(books)[id].available - 1 >= 0
        && outcome.book.borrowers == old(books)[id].borrowers + [caller.id]
      ensures !outcome.Success? ==> books == old(books)
      ensures old(LoansDistinct()) ==> LoansDistinct()
      ensures old(LoansBalanced()) ==> LoansBalanced()
    {
      if id == "" {
        return MissingField;
      }
      if id !in books {
        return NotFound;
      }
      var book := books[id];
      if book.available == 0 {
        return Unavailable;
      }
      book := book.(available := book.available - 1);
      if caller.id in book.borrowers {
        return AlreadyBorrowed;
      }
      book := book.(borrowers := book.borrowers + [caller.id]);
      BorrowKeepsInvariants(books[id], caller.id);
      var saved := Save(book, false);
      outcome := if saved then Success(book) else SaveRejected;
    }

    /** POST `/:id/return`: the caller gives back their copy. available is
        raised without a cap and every entry of the caller is dropped. */
    method Return(caller: Caller, id: BookId) returns (outcome: Outcome)
      requires Valid()
      modifies this
      ensures Valid()
      ensures id == "" ==> outcome == MissingField
      ensures id != "" && id !in old(books) ==> outcome == NotFound
      ensures id != "" && id in old(books) && caller.id !in old(books)[id].borrowers ==> outcome == NotBorrowed
      ensures id != "" && id in old(books) && caller.id in old(books)[id].borrowers ==>
        outcome == Success(Returned(old(books)[id], caller.id))
      ensures outcome.Success? ==>
        && books == old(books)[id := outcome.book]
        && outcome.book.available == old(books)[id].available + 1
        && outcome.book.borrowers == Without(old(books)[id].borrowers, caller.id)
      ensures !outcome.Success? ==> books == old(books)
      ensures old(LoansDistinct()) ==> LoansDistinct()
      ensures old(LoansDistinct() && LoansBalanced()) ==> LoansBalanced()
    {
      if id == "" {
        return MissingField;
      }
      if id !in books {
        return NotFound;
      }
      var book := books[id];
      if caller.id !in book.borrowers {
        return NotBorrowed;
      }
      book := book.(available := book.available + 1);
      book := book.(borrowers := Without(book.borrowers, caller.id));
      if NoDuplicates(books[id].borrowers) {
        ReturnKeepsInvariants(books[id], caller.id);
      }
      var saved := Save(book, false);
      outcome := if saved then Success(book) else SaveRejected;
    }
  }

  /** A user not yet borrowing a book with a copy on the shelf borrows it and
      returns it: both succeed and the collection is as before. */
  method BorrowThenReturn(lib: Library, caller: Caller, id: BookId) returns (borrowed: Outcome, returned: Outcome)
    requires lib.Valid()
    requires id != "" && id in lib.books && lib.books[id].available > 0
    requires caller.id !in lib.books[id].borrowers
    modifies lib
    ensures lib.Valid()
    ensures borrowed.Success? && returned.Success?
    ensures lib.books == old(lib.books)
  {
    ghost var before := lib.books;
    borrowed := lib.Borrow(caller, id);
    returned := lib.Return(caller, id);
    BorrowReturnRoundTrip(before[id], caller.id);
    assert lib.books == before[id := before[id]];
  }

  /** Two users ask for the last copy one after the other: the first gets it,
      the second is told it is unavailable, and one loan is recorded. */
  method LastCopy(lib: Library, first: Caller, second: Caller, id: BookId) returns (a: Outcome, b: Outcome)
    requires lib.Valid()
    requires id != "" && id in lib.books && lib.books[id].available == 1
    requires first.id !in lib.books[id].borrowers
    modifies lib
    ensures lib.Valid()
    ensures a.Success? && b == Unavailable
    ensures id in lib.books && lib.books[id].available == 0
    ensures lib.books[id].borrowers == old(lib.books[id].borrowers) + [first.id]
  {
    a := lib.Borrow(first, id);
    b := lib.Borrow(second, id);
  }
}
