/**
 * The state transitions the route handlers apply to one Book document
 * before saving it, the request inputs they test for truthiness, and the
 * invariants those transitions do or do not keep.
 */
module Lending {
  import opened Wrappers
  import opened BookModel

  // ---------------------------------------------------------------------
  // request inputs
  // ---------------------------------------------------------------------

  /** A string field of the request body is truthy when sent and non-empty. */
  predicate Truthy(v: Option<string>)
  {
    v.Some? && v.value != ""
  }

  /** A number field of the request body is truthy when sent and non-zero. */
  predicate TruthyNumber(v: Option<int>)
  {
    v.Some? && v.value != 0
  }

  /** The add handler's field check: all four fields truthy. */
  predicate Complete(title: Option<string>, author: Option<string>, isbn: Option<string>,
                     quantity: Option<int>)
  {
    Truthy(title) && Truthy(author) && Truthy(isbn) && TruthyNumber(quantity)
  }

  // ---------------------------------------------------------------------
  // borrower lists
  // ---------------------------------------------------------------------

  predicate NoDuplicates(s: seq<UserId>)
  {
    forall i, j :: 0 <= i < j < |s| ==> s[i] != s[j]
  }

  /** The return handler's filter: `s` with every occurrence of `u` dropped,
      the others kept in order. */
  function Without(s: seq<UserId>, u: UserId): (r: seq<UserId>)
    ensures forall x :: x in r <==> x in s && x != u
    ensures |r| <= |s|
  {
    if s == [] then [] else (if s[0] == u then [] else [s[0]]) + Without(s[1..], u)
  }

  /** The filter keeps exactly the elements other than `u`, with their multiplicities. */
  lemma {:induction false} WithoutMultiset(s: seq<UserId>, u: UserId)
    ensures multiset(Without(s, u)) == multiset(s)[u := 0]
  {
    if s != [] {
      WithoutMultiset(s[1..], u);
      assert s == [s[0]] + s[1..];
    }
  }

  /** The filter shortens the list by the number of occurrences of `u`. */
  lemma WithoutLength(s: seq<UserId>, u: UserId)
    ensures |Without(s, u)| == |s| - multiset(s)[u]
  {
    WithoutMultiset(s, u);
    assert |multiset(s)| == |multiset(s)[u := 0]| + multiset(s)[u];
  }

  /** Filtering out an absent user changes nothing. */
  lemma {:induction false} WithoutAbsent(s: seq<UserId>, u: UserId)
    requires u !in s
    ensures Without(s, u) == s
  {
    if s != [] {
      WithoutAbsent(s[1..], u);
      assert s == [s[0]] + s[1..];
    }
  }

  /** Filtering distributes over concatenation. */
  lemma {:induction false} WithoutAppend(s: seq<UserId>, t: seq<UserId>, u: UserId)
    ensures Without(s + t, u) == Without(s, u) + Without(t, u)
  {
    if s == [] {
      assert s + t == t;
    } else {
      assert (s + t)[0] == s[0];
      assert (s + t)[1..] == s[1..] + t;
      WithoutAppend(s[1..], t, u);
    }
  }

  /** Filtering keeps a list duplicate-free. */
  lemma {:induction false} WithoutNoDuplicates(s: seq<UserId>, u: UserId)
    requires NoDuplicates(s)
    ensures NoDuplicates(Without(s, u))
  {
    if s != [] {
      WithoutNoDuplicates(s[1..], u);
      assert s[0] !in s[1..];
      assert s[0] !in Without(s[1..], u);
    }
  }

  /** In a duplicate-free list a member occurs exactly once. */
  lemma {:induction false} OccursOnce(s: seq<UserId>, u: UserId)
    requires NoDuplicates(s) && u in s
    ensures multiset(s)[u] == 1
  {
    assert s == [s[0]] + s[1..];
    if s[0] == u {
      assert u !in s[1..];
    } else {
      OccursOnce(s[1..], u);
    }
  }

  // ---------------------------------------------------------------------
  // the transitions
  // ---------------------------------------------------------------------

  /** A successful borrow: one copy fewer available, the user appended. */
  function Borrowed(b: Book, u: UserId): (r: Book)
    ensures r.id == b.id && r.title == b.title && r.author == b.author
    ensures r.isbn == b.isbn && r.quantity == b.quantity
    ensures multiset(r.borrowers) == multiset(b.borrowers) + multiset{u}
  {
    b.(available := b.available - 1, borrowers := b.borrowers + [u])
  }

  /** A successful return: one copy more available (no cap at quantity),
      every occurrence of the user removed. */
  function Returned(b: Book, u: UserId): (r: Book)
    ensures r.id == b.id && r.title == b.title && r.author == b.author
    ensures r.isbn == b.isbn && r.quantity == b.quantity
    ensures u !in r.borrowers
    ensures forall x :: x != u ==> (x in r.borrowers <==> x in b.borrowers)
  {
    b.(available := b.available + 1, borrowers := Without(b.borrowers, u))
  }

  /** The update handler's effect on a document: each truthy string field
      overwrites its trimmed value, a truthy quantity overwrites quantity,
      and available is left as it was. */
  function Revised(b: Book, title: Option<string>, author: Option<string>, isbn: Option<string>,
                   quantity: Option<int>): (r: Book)
  {
    Book(b.id,
         if Truthy(title) then Trim(title.value) else b.title,
         if Truthy(author) then Trim(author.value) else b.author,
         if Truthy(isbn) then Trim(isbn.value) else b.isbn,
         if TruthyNumber(quantity) then quantity.value else b.quantity,
         b.available,
         b.borrowers)
  }

  // ---------------------------------------------------------------------
  // invariants
  // ---------------------------------------------------------------------

  /** Copies on the shelf plus copies lent out equal the copies owned. */
  predicate LoanBalanced(b: Book)
  {
    b.available + |b.borrowers| == b.quantity
  }

  /** A borrow by a user not yet borrowing keeps the list duplicate-free,
      keeps available non-negative and keeps available + |borrowers|. */
  lemma BorrowKeepsInvariants(b: Book, u: UserId)
    requires b.available > 0 && u !in b.borrowers
    ensures Borrowed(b, u).available == b.available - 1 >= 0
    ensures NoDuplicates(b.borrowers) ==> NoDuplicates(Borrowed(b, u).borrowers)
    ensures Borrowed(b, u).available + |Borrowed(b, u).borrowers| == b.available + |b.borrowers|
    ensures LoanBalanced(b) ==> LoanBalanced(Borrowed(b, u))
  {
  }

  /** A return by a current borrower keeps the list duplicate-free and, when
      it was duplicate-free, keeps available + |borrowers|. */
  lemma ReturnKeepsInvariants(b: Book, u: UserId)
    requires u in b.borrowers && NoDuplicates(b.borrowers)
    ensures Returned(b, u).available == b.available + 1
    ensures NoDuplicates(Returned(b, u).borrowers)
    ensures |Returned(b, u).borrowers| == |b.borrowers| - 1
    ensures Returned(b, u).available + |Returned(b, u).borrowers| == b.available + |b.borrowers|
    ensures LoanBalanced(b) ==> LoanBalanced(Returned(b, u))
  {
    WithoutNoDuplicates(b.borrowers, u);
    WithoutLength(b.borrowers, u);
    OccursOnce(b.borrowers, u);
  }

  /** Borrow followed by return restores the document exactly. */
  lemma BorrowReturnRoundTrip(b: Book, u: UserId)
    requires u !in b.borrowers
    ensures Returned(Borrowed(b, u), u) == b
  {
    WithoutAppend(b.borrowers, [u], u);
    WithoutAbsent(b.borrowers, u);
    assert Without([u], u) == [];
  }

  /** Return followed by borrow restores available and the set of
      borrowers, but moves the user to the end of the list. */
  lemma ReturnBorrowRoundTrip(b: Book, u: UserId)
    requires u in b.borrowers && NoDuplicates(b.borrowers)
    ensures Borrowed(Returned(b, u), u).available == b.available
    ensures multiset(Borrowed(Returned(b, u), u).borrowers) == multiset(b.borrowers)
  {
    WithoutMultiset(b.borrowers, u);
    OccursOnce(b.borrowers, u);
  }

  /** The update handler keeps a balanced book balanced only when the new
      quantity equals the old one: available is not recomputed. */
  lemma RevisedBalance(b: Book, title: Option<string>, author: Option<string>,
                       isbn: Option<string>, q: int)
    requires LoanBalanced(b) && q != 0
    ensures LoanBalanced(Revised(b, title, author, isbn, Some(q))) <==> q == b.quantity
  {
  }

  /** A concrete book with 5 copies, 3 of them lent: setting quantity 3
      leaves available at 2, so 2 + 3 copies are accounted for out of 3. */
  lemma RevisedUnbalances()
    ensures var b := Book("b1", "T", "A", "I", 5, 2, ["u1", "u2", "u3"]);
            var r := Revised(b, None, None, None, Some(3));
            LoanBalanced(b) && r.quantity == 3 && r.available == 2 && !LoanBalanced(r)
  {
  }
}
