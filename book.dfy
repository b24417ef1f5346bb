/**
 * The Book record: its fields, the constraints a save enforces on it,
 * the whitespace trimming its string setters apply, and the url virtual.
 */
module BookModel {
  import opened Wrappers

  /** A document id (an ObjectId, compared by value). */
  type BookId = string
  /** A user id as stored in `borrowers` (compared by value). */
  type UserId = string

  datatype Book = Book(
    id: BookId,
    title: string,
    author: string,
    isbn: string,
    quantity: int,
    available: int,
    borrowers: seq<UserId>)

  // ---------------------------------------------------------------------
  // trim: the setters of title, author and isbn apply String.prototype.trim
  // ---------------------------------------------------------------------

  /** The characters String.prototype.trim strips: WhiteSpace and LineTerminator. */
  predicate IsSpace(c: char)
  {
    || c == '\t' || c == '\n' || c == '\U{000B}' || c == '\U{000C}' || c == '\r'
    || c == ' ' || c == '\U{00A0}' || c == '\U{1680}'
    || ('\U{2000}' <= c <= '\U{200A}')
    || c == '\U{2028}' || c == '\U{2029}' || c == '\U{202F}' || c == '\U{205F}'
    || c == '\U{3000}' || c == '\U{FEFF}'
  }

  predicate AllSpace(s: string)
  {
    forall i :: 0 <= i < |s| ==> IsSpace(s[i])
  }

  /** `s` without its leading whitespace. */
  function TrimStart(s: string): (r: string)
    ensures |r| <= |s| && r == s[|s| - |r|..]
    ensures AllSpace(s[..|s| - |r|])
    ensures r == [] || !IsSpace(r[0])
    decreases |s|
  {
    if s != [] && IsSpace(s[0]) then
      var r := TrimStart(s[1..]);
      assert s[..|s| - |r|] == [s[0]] + s[1..][..|s| - 1 - |r|];
      r
    else
      s
  }

  /** `s` without its trailing whitespace. */
  function TrimEnd(s: string): (r: string)
    ensures |r| <= |s| && r == s[..|r|]
    ensures AllSpace(s[|r|..])
    ensures r == [] || !IsSpace(r[|r| - 1])
    decreases |s|
  {
    if s != [] && IsSpace(s[|s| - 1]) then
      var t := s[..|s| - 1];
      var r := TrimEnd(t);
      assert s[|r|..] == t[|r|..] + [s[|s| - 1]];
      r
    else
      s
  }

  /** `s` without its leading and trailing whitespace. */
  function Trim(s: string): (r: string)
    ensures |r| <= |s|
    ensures r == [] || (!IsSpace(r[0]) && !IsSpace(r[|r| - 1]))
  {
    TrimEnd(TrimStart(s))
  }

  /** What trimming removes is whitespace: `s` is its trimmed value framed
      by the whitespace `pre` and `post`. */
  lemma TrimIsSlice(s: string) returns (pre: string, post: string)
    ensures AllSpace(pre) && AllSpace(post) && s == pre + Trim(s) + post
  {
    pre := TrimStartSplit(s);
    post := TrimEndSplit(TrimStart(s));
    Reframe(s, pre, TrimStart(s), Trim(s), post);
  }

  lemma TrimStartSplit(s: string) returns (pre: string)
    ensures AllSpace(pre) && s == pre + TrimStart(s)
  {
    pre := s[..|s| - |TrimStart(s)|];
  }

  lemma TrimEndSplit(s: string) returns (post: string)
    ensures AllSpace(post) && s == TrimEnd(s) + post
  {
    post := s[|TrimEnd(s)|..];
  }

  lemma Reframe(s: string, pre: string, t: string, r: string, post: string)
    requires s == pre + t && t == r + post
    ensures s == pre + r + post
  {
  }

  lemma TrimStartOfTrimmed(s: string)
    requires s == [] || !IsSpace(s[0])
    ensures TrimStart(s) == s
  {
  }

  lemma TrimEndOfTrimmed(s: string)
    requires s == [] || !IsSpace(s[|s| - 1])
    ensures TrimEnd(s) == s
  {
  }

  /** Trimming a stored value again changes nothing. */
  lemma TrimIdempotent(s: string)
    ensures Trim(Trim(s)) == Trim(s)
  {
    var r := Trim(s);
    TrimStartOfTrimmed(r);
    TrimEndOfTrimmed(r);
  }

  lemma {:induction false} TrimStartPadded(pre: string, s: string)
    requires AllSpace(pre)
    ensures TrimStart(pre + s) == TrimStart(s)
    decreases |pre|
  {
    if pre != [] {
      var t := pre + s;
      assert t[0] == pre[0] && IsSpace(t[0]);
      assert t[1..] == pre[1..] + s;
      assert TrimStart(t) == TrimStart(t[1..]);
      TrimStartPadded(pre[1..], s);
    } else {
      assert pre + s == s;
    }
  }

  lemma {:induction false} TrimEndPadded(s: string, post: string)
    requires AllSpace(post)
    ensures TrimEnd(s + post) == TrimEnd(s)
    decreases |post|
  {
    if post != [] {
      var t := s + post;
      assert t[|t| - 1] == post[|post| - 1] && IsSpace(t[|t| - 1]);
      assert t[..|t| - 1] == s + post[..|post| - 1];
      assert TrimEnd(t) == TrimEnd(t[..|t| - 1]);
      TrimEndPadded(s, post[..|post| - 1]);
    } else {
      assert s + post == s;
    }
  }

  lemma {:induction false} TrimStartAppend(s: string, t: string)
    ensures TrimStart(s + t) == if TrimStart(s) == [] then TrimStart(t) else TrimStart(s) + t
    decreases |s|
  {
    if s == [] {
      assert s + t == t;
    } else if IsSpace(s[0]) {
      assert (s + t)[1..] == s[1..] + t;
      TrimStartAppend(s[1..], t);
    }
  }

  /** Whitespace around a value is lost on assignment, so " X " and "X"
      are the same stored value (and the same isbn for uniqueness). */
  lemma TrimPadded(pre: string, s: string, post: string)
    requires AllSpace(pre) && AllSpace(post)
    ensures Trim(pre + s + post) == Trim(s)
  {
    assert pre + s + post == pre + (s + post);
    TrimStartPadded(pre, s + post);
    TrimStartAppend(s, post);
    if TrimStart(s) == [] {
      TrimStartPadded(post, []);
      assert post + [] == post;
    } else {
      TrimEndPadded(TrimStart(s), post);
    }
  }

  // ---------------------------------------------------------------------
  // construction and save-time constraints
  // ---------------------------------------------------------------------

  /** `new Book({...})`: the string setters trim, `borrowers` defaults to empty. */
  function NewDocument(id: BookId, title: string, author: string, isbn: string,
                       quantity: int, available: int): (r: Book)
  {
    Book(id, Trim(title), Trim(author), Trim(isbn), quantity, available, [])
  }

  /** The field validators: a required string must be non-empty (after
      trimming), a required number must be present and at least its `min`. */
  predicate SchemaValid(b: Book)
  {
    && b.title != [] && b.author != [] && b.isbn != []
    && b.quantity >= 0 && b.available >= 0
  }

  /** A whitespace-only title, author or isbn is stored empty, so the
      required validator rejects the document. */
  lemma BlankFieldRejected(id: BookId, title: string, author: string, isbn: string,
                           quantity: int, available: int)
    requires AllSpace(title) || AllSpace(author) || AllSpace(isbn)
    ensures !SchemaValid(NewDocument(id, title, author, isbn, quantity, available))
  {
    if AllSpace(title) {
      TrimPadded(title, [], []);
      assert title + [] + [] == title;
    } else if AllSpace(author) {
      TrimPadded(author, [], []);
      assert author + [] + [] == author;
    } else {
      TrimPadded(isbn, [], []);
      assert isbn + [] + [] == isbn;
    }
  }

  /** The schema ties neither available to quantity nor forbids a repeated
      borrower: such a record still passes its validators. */
  lemma SchemaIsLoose()
    ensures SchemaValid(Book("b1", "T", "A", "I", 1, 5, ["u1", "u1"]))
  {
  }

  /** For every record: the validators look at available only through its
      minimum and at borrowers not at all, so any non-negative available and
      any borrower list, repeats included, keep a valid record valid. */
  lemma SchemaIgnoresLoans(b: Book, available: int, borrowers: seq<UserId>)
    requires SchemaValid(b) && available >= 0
    ensures SchemaValid(b.(available := available, borrowers := borrowers))
  {
  }

  /** The unique index on isbn: no other stored record has `b`'s isbn. */
  predicate IsbnFree(books: map<BookId, Book>, b: Book)
  {
    forall k :: k in books && k != b.id ==> books[k].isbn != b.isbn
  }

  /** Whether `save()` of `b` succeeds against the stored `books`: the
      validators pass, the isbn index admits it and, for a new document,
      its _id is not taken. */
  predicate Saveable(books: map<BookId, Book>, b: Book, isNew: bool)
  {
    SchemaValid(b) && IsbnFree(books, b) && (isNew ==> b.id !in books)
  }

  /** What every saved collection satisfies: each record sits under its own
      (never empty) id, passed its validators, and no two records share an isbn. */
  ghost predicate StoreValid(books: map<BookId, Book>)
  {
    && (forall k :: k in books ==> k != "" && books[k].id == k && SchemaValid(books[k]))
    && (forall k, k' :: k in books && k' in books && k != k' ==> books[k].isbn != books[k'].isbn)
  }

  /** A successful save keeps the collection valid. */
  lemma SaveKeepsStoreValid(books: map<BookId, Book>, b: Book, isNew: bool)
    requires StoreValid(books) && b.id != ""
    requires Saveable(books, b, isNew)
    ensures StoreValid(books[b.id := b])
  {
  }

  /** A second record with an isbn already stored is never saved. */
  lemma DuplicateIsbnRejected(books: map<BookId, Book>, b: Book, isNew: bool, k: BookId)
    requires k in books && k != b.id && books[k].isbn == b.isbn
    ensures !Saveable(books, b, isNew)
  {
  }

  /** Removing a record keeps the collection valid. */
  lemma RemoveKeepsStoreValid(books: map<BookId, Book>, id: BookId)
    requires StoreValid(books)
    ensures StoreValid(books - {id})
  {
  }

  // ---------------------------------------------------------------------
  // the url virtual
  // ---------------------------------------------------------------------

  const UrlPrefix: string := "/books/"

  function Url(b: Book): (u: string)
    ensures IdOfUrl(u) == Some(b.id)
  {
    UrlPrefix + b.id
  }

  /** The id a url names, if it has the shape of a book url: the inverse of `Url`. */
  function IdOfUrl(u: string): (r: Option<BookId>)
    ensures forall id :: r == Some(id) <==> u == UrlPrefix + id
  {
    if |u| >= |UrlPrefix| && u[..|UrlPrefix|] == UrlPrefix then Some(u[|UrlPrefix|..]) else None
  }

  /** The url of a book names that book, and only that url names it. */
  lemma UrlRoundTrip(b: Book, u: string)
    ensures IdOfUrl(Url(b)) == Some(b.id)
    ensures IdOfUrl(u) == Some(b.id) ==> u == Url(b)
  {
    assert Url(b)[..|UrlPrefix|] == UrlPrefix;
    if IdOfUrl(u) == Some(b.id) {
      assert u == u[..|UrlPrefix|] + u[|UrlPrefix|..];
    }
  }
}
