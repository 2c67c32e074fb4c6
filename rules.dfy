/**
 * The borrowing rules of the library service as functions from the old contents of the
 * two stores to the outcome and the new contents, with the properties they guarantee.
 */
module Rules {
  import opened Model
  import Seqs
  import Text

  // ---------------------------------------------------------------- operations

  /** addBook: insert when the isbn is new, otherwise refuse and change nothing. */
  function AddBook(lib: Library, book: Book): (r: (bool, Library))
  {
    if book.isbn in lib.books then (false, lib)
    else (true, lib.(books := lib.books[book.isbn := book]))
  }

  /** registerPatron: insert when the id is new, otherwise refuse and change nothing. */
  function RegisterPatron(lib: Library, patron: Patron): (r: (bool, Library))
  {
    if patron.id in lib.patrons then (false, lib)
    else (true, lib.(patrons := lib.patrons[patron.id := patron]))
  }

  /** borrowBook: four checks in a fixed order, then both records are written back. */
  function Borrow(lib: Library, patronId: string, isbn: string): (r: (BorrowResult, Library))
  {
    if patronId !in lib.patrons then (PatronNotFound, lib)
    else if isbn !in lib.books then (BookNotFound, lib)
    else
      var patron, book := lib.patrons[patronId], lib.books[isbn];
      if !book.isAvailable then (NotAvailable, lib)
      else if |patron.borrowedBooks| >= BorrowLimit then (LimitReached, lib)
      else
        var updatedBook := book.(isAvailable := false);
        var updatedPatron := patron.(borrowedBooks := patron.borrowedBooks + [isbn]);
        (Success, Library(lib.books[isbn := updatedBook], lib.patrons[patronId := updatedPatron]))
  }

  /** returnBook: three checks, then the book is shelved and one loan entry dropped. */
  function Return(lib: Library, patronId: string, isbn: string): (r: (bool, Library))
  {
    if patronId !in lib.patrons then (false, lib)
    else if isbn !in lib.books then (false, lib)
    else
      var patron, book := lib.patrons[patronId], lib.books[isbn];
      if isbn !in patron.borrowedBooks then (false, lib)
      else
        var updatedBook := book.(isAvailable := true);
        var updatedPatron := patron.(borrowedBooks := Seqs.RemoveFirst(patron.borrowedBooks, isbn));
        (true, Library(lib.books[isbn := updatedBook], lib.patrons[patronId := updatedPatron]))
  }

  /** The search predicate: title or author contains the query, letter case ignored. */
  predicate Matches(book: Book, query: string) {
    Text.ContainsIgnoreCase(book.title, query) || Text.ContainsIgnoreCase(book.author, query)
  }

  /** search: the books that match, in the order given. */
  function Filter(books: seq<Book>, query: string): (r: seq<Book>)
    ensures |r| <= |books|
    ensures forall b :: b in r <==> b in books && Matches(b, query)
  {
    if books == [] then []
    else
      assert books == [books[0]] + books[1..];
      (if Matches(books[0], query) then [books[0]] else []) + Filter(books[1..], query)
  }

  // ---------------------------------------------------------------- invariants

  /** No patron holds more books than the limit. */
  ghost predicate WithinLimit(lib: Library) {
    forall id | id in lib.patrons :: |lib.patrons[id].borrowedBooks| <= BorrowLimit
  }

  /** Patron `id` lists `isbn` exactly once and no other patron lists it. */
  ghost predicate SoleHolder(lib: Library, id: string, isbn: string) {
    && id in lib.patrons
    && multiset(lib.patrons[id].borrowedBooks)[isbn] == 1
    && forall other | other in lib.patrons && other != id :: isbn !in lib.patrons[other].borrowedBooks
  }

  /**
   * Book availability agrees with the loan lists: every listed isbn is stored, a book on the
   * shelf is listed by nobody, and a book on loan is listed once by exactly one patron.
   */
  ghost predicate Consistent(lib: Library) {
    && (forall id, isbn | id in lib.patrons && isbn in lib.patrons[id].borrowedBooks :: isbn in lib.books)
    && (forall id, isbn | isbn in lib.books && lib.books[isbn].isAvailable && id in lib.patrons ::
          isbn !in lib.patrons[id].borrowedBooks)
    && (forall isbn | isbn in lib.books && !lib.books[isbn].isAvailable :: exists id :: SoleHolder(lib, id, isbn))
  }

  // ---------------------------------------------------------------- borrowBook

  /**
   * The outcome of borrowBook, case by case. The checks run patron, book, availability, limit:
   * a missing patron wins over a missing book, and an unavailable book wins over a full loan list.
   */
  lemma BorrowOutcome(lib: Library, patronId: string, isbn: string)
    ensures var r := Borrow(lib, patronId, isbn).0;
      && (r == PatronNotFound <==> patronId !in lib.patrons)
      && (r == BookNotFound <==> patronId in lib.patrons && isbn !in lib.books)
      && (r == NotAvailable <==> patronId in lib.patrons && isbn in lib.books && !lib.books[isbn].isAvailable)
      && (r == LimitReached <==> patronId in lib.patrons && isbn in lib.books && lib.books[isbn].isAvailable
                                 && |lib.patrons[patronId].borrowedBooks| >= BorrowLimit)
      && (r == Success <==> patronId in lib.patrons && isbn in lib.books && lib.books[isbn].isAvailable
                            && |lib.patrons[patronId].borrowedBooks| < BorrowLimit)
  {
  }

  /** Every refusal leaves both stores as they were. */
  lemma BorrowRefusalChangesNothing(lib: Library, patronId: string, isbn: string)
    requires Borrow(lib, patronId, isbn).0 != Success
    ensures Borrow(lib, patronId, isbn).1 == lib
  {
  }

  /**
   * A successful borrow marks the book unavailable, appends the isbn to the patron's loans,
   * and touches no other field and no other record.
   */
  lemma BorrowSuccessEffects(lib: Library, patronId: string, isbn: string)
    requires Borrow(lib, patronId, isbn).0 == Success
    ensures var lib' := Borrow(lib, patronId, isbn).1;
      && lib'.books.Keys == lib.books.Keys && lib'.patrons.Keys == lib.patrons.Keys
      && lib'.books[isbn] == lib.books[isbn].(isAvailable := false)
      && lib'.patrons[patronId] == lib.patrons[patronId].(borrowedBooks := lib.patrons[patronId].borrowedBooks + [isbn])
      && (forall k | k in lib.books && k != isbn :: lib'.books[k] == lib.books[k])
      && (forall k | k in lib.patrons && k != patronId :: lib'.patrons[k] == lib.patrons[k])
  {
  }

  /** A successful borrow starts below the limit, so it never takes a loan list past the limit. */
  lemma BorrowStaysWithinLimit(lib: Library, patronId: string, isbn: string)
    requires Borrow(lib, patronId, isbn).0 == Success
    ensures |lib.patrons[patronId].borrowedBooks| < BorrowLimit
    ensures |Borrow(lib, patronId, isbn).1.patrons[patronId].borrowedBooks| <= BorrowLimit
  {
  }

  /** Borrowing keeps every patron within the limit. */
  lemma BorrowPreservesWithinLimit(lib: Library, patronId: string, isbn: string)
    requires WithinLimit(lib)
    ensures WithinLimit(Borrow(lib, patronId, isbn).1)
  {
  }

  /** Borrowing keeps availability and loan lists in agreement. */
  lemma BorrowPreservesConsistency(lib: Library, patronId: string, isbn: string)
    requires Consistent(lib)
    ensures Consistent(Borrow(lib, patronId, isbn).1)
  {
    var r := Borrow(lib, patronId, isbn);
    var lib' := r.1;
    if r.0 == Success {
      var loans := lib.patrons[patronId].borrowedBooks;
      var loans' := loans + [isbn];
      assert lib'.patrons[patronId].borrowedBooks == loans';
      assert isbn !in loans;
      forall id, b | id in lib'.patrons && b in lib'.patrons[id].borrowedBooks
        ensures b in lib'.books
      {
        if id == patronId && b != isbn {
          assert b in loans;
        }
      }
      forall id, b | b in lib'.books && lib'.books[b].isAvailable && id in lib'.patrons
        ensures b !in lib'.patrons[id].borrowedBooks
      {
        assert b != isbn && lib.books[b].isAvailable;
      }
      forall b | b in lib'.books && !lib'.books[b].isAvailable
        ensures exists id :: SoleHolder(lib', id, b)
      {
        assert multiset(loans')[b] == multiset(loans)[b] + (if b == isbn then 1 else 0);
        if b == isbn {
          assert SoleHolder(lib', patronId, b);
        } else {
          var id :| SoleHolder(lib, id, b);
          assert SoleHolder(lib', id, b);
        }
      }
    }
  }

  // ---------------------------------------------------------------- returnBook

  /**
   * returnBook succeeds exactly when patron and book exist and the patron lists the isbn;
   * the book's availability is not consulted. A refusal changes nothing.
   */
  lemma ReturnOutcome(lib: Library, patronId: string, isbn: string)
    ensures Return(lib, patronId, isbn).0 <==>
      patronId in lib.patrons && isbn in lib.books && isbn in lib.patrons[patronId].borrowedBooks
    ensures !Return(lib, patronId, isbn).0 ==> Return(lib, patronId, isbn).1 == lib
  {
  }

  /**
   * A successful return shelves the book, drops the first occurrence of the isbn from the
   * patron's loans (one entry fewer, the rest in order) and touches nothing else.
   */
  lemma ReturnSuccessEffects(lib: Library, patronId: string, isbn: string)
    requires Return(lib, patronId, isbn).0
    ensures var lib' := Return(lib, patronId, isbn).1;
      var loans := lib.patrons[patronId].borrowedBooks;
      var i := Seqs.FirstIndex(loans, isbn);
      && lib'.books.Keys == lib.books.Keys && lib'.patrons.Keys == lib.patrons.Keys
      && lib'.books[isbn] == lib.books[isbn].(isAvailable := true)
      && lib'.patrons[patronId] == lib.patrons[patronId].(borrowedBooks := loans[..i] + loans[i + 1..])
      && |lib'.patrons[patronId].borrowedBooks| == |loans| - 1
      && (forall k | k in lib.books && k != isbn :: lib'.books[k] == lib.books[k])
      && (forall k | k in lib.patrons && k != patronId :: lib'.patrons[k] == lib.patrons[k])
  {
    Seqs.RemoveFirstSplices(lib.patrons[patronId].borrowedBooks, isbn);
  }

  /**
   * Returning a book that is already on the shelf still succeeds, as long as the patron lists
   * it: the book store is left as it was and only the loan list shrinks.
   */
  lemma ReturnOfShelvedBook(lib: Library, patronId: string, isbn: string)
    requires patronId in lib.patrons && isbn in lib.books && isbn in lib.patrons[patronId].borrowedBooks
    requires lib.books[isbn].isAvailable
    ensures Return(lib, patronId, isbn).0
    ensures Return(lib, patronId, isbn).1.books == lib.books
  {
    assert lib.books[isbn].(isAvailable := true) == lib.books[isbn];
  }

  /** Returning keeps every patron within the limit. */
  lemma ReturnPreservesWithinLimit(lib: Library, patronId: string, isbn: string)
    requires WithinLimit(lib)
    ensures WithinLimit(Return(lib, patronId, isbn).1)
  {
  }

  /** Returning keeps availability and loan lists in agreement. */
  lemma ReturnPreservesConsistency(lib: Library, patronId: string, isbn: string)
    requires Consistent(lib)
    ensures Consistent(Return(lib, patronId, isbn).1)
  {
    var r := Return(lib, patronId, isbn);
    var lib' := r.1;
    if r.0 {
      var loans := lib.patrons[patronId].borrowedBooks;
      var loans' := Seqs.RemoveFirst(loans, isbn);
      Seqs.RemoveFirstCounts(loans, isbn);
      assert lib'.patrons[patronId].borrowedBooks == loans';
      assert !lib.books[isbn].isAvailable;
      var holder :| SoleHolder(lib, holder, isbn);
      assert holder == patronId;
      assert isbn !in loans' by {
        assert multiset(loans')[isbn] == 0;
      }
      assert forall b :: b in loans' ==> b in loans by {
        forall b | b in loans' ensures b in loans {
          assert b in multiset(loans');
        }
      }
      forall id, b | id in lib'.patrons && b in lib'.patrons[id].borrowedBooks
        ensures b in lib'.books
      {
        if id == patronId {
          assert b in loans;
        }
      }
      forall id, b | b in lib'.books && lib'.books[b].isAvailable && id in lib'.patrons
        ensures b !in lib'.patrons[id].borrowedBooks
      {
        if b != isbn {
          assert lib.books[b].isAvailable;
        }
      }
      forall b | b in lib'.books && !lib'.books[b].isAvailable
        ensures exists id :: SoleHolder(lib', id, b)
      {
        assert b != isbn;
        var id :| SoleHolder(lib, id, b);
        assert multiset(loans')[b] == multiset(loans)[b];
        assert SoleHolder(lib', id, b);
      }
    }
  }

  /** On a consistent library, returning what was just borrowed restores both stores exactly. */
  lemma ReturnUndoesBorrow(lib: Library, patronId: string, isbn: string)
    requires Consistent(lib)
    requires Borrow(lib, patronId, isbn).0 == Success
    ensures Return(Borrow(lib, patronId, isbn).1, patronId, isbn) == (true, lib)
  {
    var patron, book := lib.patrons[patronId], lib.books[isbn];
    var loans := patron.borrowedBooks;
    var lib' := Borrow(lib, patronId, isbn).1;
    assert isbn !in loans;
    Seqs.RemoveFirstOfAppended(loans, isbn);
    assert lib'.patrons[patronId].borrowedBooks == loans + [isbn];
    assert Return(lib', patronId, isbn).0;
    var back := Return(lib', patronId, isbn).1;
    assert back.books == lib'.books[isbn := book] == lib.books;
    assert back.patrons == lib'.patrons[patronId := patron] == lib.patrons;
  }

  // ---------------------------------------------------------------- addBook, registerPatron

  /** A second addBook of the same isbn is refused and leaves the stored record in place. */
  lemma AddBookTwice(lib: Library, book: Book, again: Book)
    requires AddBook(lib, book).0
    requires again.isbn == book.isbn
    ensures AddBook(lib, book).1.books[book.isbn] == book
    ensures AddBook(AddBook(lib, book).1, again) == (false, AddBook(lib, book).1)
  {
  }

  /** A second registration of the same id is refused and changes nothing. */
  lemma RegisterPatronTwice(lib: Library, patron: Patron, again: Patron)
    requires RegisterPatron(lib, patron).0
    requires again.id == patron.id
    ensures RegisterPatron(lib, patron).1.patrons[patron.id] == patron
    ensures RegisterPatron(RegisterPatron(lib, patron).1, again) == (false, RegisterPatron(lib, patron).1)
  {
  }

  /** Adding a book that is on the shelf keeps the library consistent. */
  lemma AddBookPreservesConsistency(lib: Library, book: Book)
    requires Consistent(lib)
    requires book.isAvailable
    ensures Consistent(AddBook(lib, book).1)
  {
    var lib' := AddBook(lib, book).1;
    if AddBook(lib, book).0 {
      forall id, b | b in lib'.books && lib'.books[b].isAvailable && id in lib'.patrons
        ensures b !in lib'.patrons[id].borrowedBooks
      {
        if b == book.isbn {
          assert b !in lib.books;
        }
      }
      forall b | b in lib'.books && !lib'.books[b].isAvailable
        ensures exists id :: SoleHolder(lib', id, b)
      {
        var id :| SoleHolder(lib, id, b);
        assert SoleHolder(lib', id, b);
      }
    }
  }

  /** Registering a patron with no loans keeps the library consistent. */
  lemma RegisterPatronPreservesConsistency(lib: Library, patron: Patron)
    requires Consistent(lib)
    requires patron.borrowedBooks == []
    ensures Consistent(RegisterPatron(lib, patron).1)
  {
    var lib' := RegisterPatron(lib, patron).1;
    if RegisterPatron(lib, patron).0 {
      forall b | b in lib'.books && !lib'.books[b].isAvailable
        ensures exists id :: SoleHolder(lib', id, b)
      {
        var id :| SoleHolder(lib, id, b);
        assert SoleHolder(lib', id, b);
      }
    }
  }

  /** In a consistent library a stored book is unavailable exactly when one patron lists it, once. */
  lemma ConsistentAvailability(lib: Library, isbn: string)
    requires Consistent(lib)
    requires isbn in lib.books
    ensures !lib.books[isbn].isAvailable <==> exists id :: SoleHolder(lib, id, isbn)
  {
    if exists id :: SoleHolder(lib, id, isbn) {
      var id :| SoleHolder(lib, id, isbn);
      assert isbn in multiset(lib.patrons[id].borrowedBooks);
    }
  }

  // ---------------------------------------------------------------- search

  /** Filtering a concatenation filters each part and keeps them in order. */
  lemma {:induction false} FilterConcat(front: seq<Book>, back: seq<Book>, query: string)
    ensures Filter(front + back, query) == Filter(front, query) + Filter(back, query)
  {
    if front != [] {
      var whole := front + back;
      assert whole != [] && whole[0] == front[0] && whole[1..] == front[1..] + back;
      FilterConcat(front[1..], back, query);
      var head := if Matches(front[0], query) then [front[0]] else [];
      calc {
        Filter(whole, query);
        head + Filter(front[1..] + back, query);
        head + (Filter(front[1..], query) + Filter(back, query));
        (head + Filter(front[1..], query)) + Filter(back, query);
        Filter(front, query) + Filter(back, query);
      }
    } else {
      assert front + back == back;
    }
  }

  /** The empty query keeps every book, in order. */
  lemma {:induction false} FilterEmptyQuery(books: seq<Book>)
    ensures Filter(books, "") == books
  {
    if books != [] {
      Text.EmptyQueryFound(books[0].title);
      FilterEmptyQuery(books[1..]);
    }
  }

  /** When nothing matches the result is empty. */
  lemma FilterNoMatch(books: seq<Book>, query: string)
    requires forall b | b in books :: !Matches(b, query)
    ensures Filter(books, query) == []
  {
  }
}
