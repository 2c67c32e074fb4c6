/** The library service: the borrowing rules applied to a repository it owns. */
module Service {
  import opened Model
  import Seqs
  import Rules
  import Text
  import Repository

  class DefaultLibraryService {
    const repository: Repository.LibraryRepository

    ghost predicate Valid()
      reads repository
    {
      repository.Valid()
    }

    constructor (repository: Repository.LibraryRepository)
      requires repository.Valid()
      ensures this.repository == repository && Valid()
    {
      this.repository := repository;
    }

    /** Stores `book` if its isbn is new; reports whether it did. */
    method AddBook(book: Book) returns (added: bool)
      requires Valid()
      modifies repository
      ensures Valid()
      ensures (added, repository.State()) == Rules.AddBook(old(repository.State()), book)
      ensures repository.bookOrder == if added then old(repository.bookOrder) + [book.isbn] else old(repository.bookOrder)
      ensures repository.patronOrder == old(repository.patronOrder)
    {
      added := repository.AddBook(book);
    }

    /** Stores `patron` if its id is new; reports whether it did. */
    method RegisterPatron(patron: Patron) returns (added: bool)
      requires Valid()
      modifies repository
      ensures Valid()
      ensures (added, repository.State()) == Rules.RegisterPatron(old(repository.State()), patron)
      ensures repository.patronOrder == if added then old(repository.patronOrder) + [patron.id] else old(repository.patronOrder)
      ensures repository.bookOrder == old(repository.bookOrder)
    {
      added := repository.AddPatron(patron);
    }

    /** Lends book `isbn` to patron `patronId` if all four checks pass. */
    method BorrowBook(patronId: string, isbn: string) returns (result: BorrowResult)
      requires Valid()
      modifies repository
      ensures Valid()
      ensures (result, repository.State()) == Rules.Borrow(old(repository.State()), patronId, isbn)
      ensures repository.bookOrder == old(repository.bookOrder) && repository.patronOrder == old(repository.patronOrder)
      ensures Rules.Consistent(old(repository.State())) ==> Rules.Consistent(repository.State())
      ensures Rules.WithinLimit(old(repository.State())) ==> Rules.WithinLimit(repository.State())
    {
      ghost var before := repository.State();
      if Rules.Consistent(before) {
        Rules.BorrowPreservesConsistency(before, patronId, isbn);
      }
      if Rules.WithinLimit(before) {
        Rules.BorrowPreservesWithinLimit(before, patronId, isbn);
      }
      var patron := repository.FindPatron(patronId);
      if patron.None? {
        return PatronNotFound;
      }
      var book := repository.FindBook(isbn);
      if book.None? {
        return BookNotFound;
      }
      if !book.value.isAvailable {
        return NotAvailable;
      }
      if |patron.value.borrowedBooks| >= BorrowLimit {
        return LimitReached;
      }
      var updatedBook := book.value.(isAvailable := false);
      var updatedPatron := patron.value.(borrowedBooks := patron.value.borrowedBooks + [isbn]);
      repository.UpdateBook(updatedBook);
      repository.UpdatePatron(updatedPatron);
      return Success;
    }

    /** Takes book `isbn` back from patron `patronId` if the patron lists it. */
    method ReturnBook(patronId: string, isbn: string) returns (returned: bool)
      requires Valid()
      modifies repository
      ensures Valid()
      ensures (returned, repository.State()) == Rules.Return(old(repository.State()), patronId, isbn)
      ensures repository.bookOrder == old(repository.bookOrder) && repository.patronOrder == old(repository.patronOrder)
      ensures Rules.Consistent(old(repository.State())) ==> Rules.Consistent(repository.State())
      ensures Rules.WithinLimit(old(repository.State())) ==> Rules.WithinLimit(repository.State())
    {
      ghost var before := repository.State();
      if Rules.Consistent(before) {
        Rules.ReturnPreservesConsistency(before, patronId, isbn);
      }
      if Rules.WithinLimit(before) {
        Rules.ReturnPreservesWithinLimit(before, patronId, isbn);
      }
      var patron := repository.FindPatron(patronId);
      if patron.None? {
        return false;
      }
      var book := repository.FindBook(isbn);
      if book.None? {
        return false;
      }
      if isbn !in patron.value.borrowedBooks {
        return false;
      }
      var updatedBook := book.value.(isAvailable := true);
      var updatedPatron := patron.value.(borrowedBooks := Seqs.RemoveFirst(patron.value.borrowedBooks, isbn));
      repository.UpdateBook(updatedBook);
      repository.UpdatePatron(updatedPatron);
      return true;
    }

    /** Every stored book exactly once, in the repository's order. */
    function ListAllBooks(): (r: seq<Book>)
      reads repository
      requires Valid()
      ensures |r| == |repository.books|
      ensures forall b :: b in r <==> b in repository.books.Values
      ensures forall i, j :: 0 <= i < j < |r| ==> r[i].isbn != r[j].isbn
    {
      var r := repository.GetAllBooks();
      assert forall b :: b in r <==> b in repository.books.Values by {
        forall b ensures b in r <==> b in repository.books.Values {
          if b in repository.books.Values {
            var k :| k in repository.books && repository.books[k] == b;
            var i :| 0 <= i < |repository.bookOrder| && repository.bookOrder[i] == k;
            assert r[i] == b;
          }
        }
      }
      r
    }

    /** Every stored patron exactly once, in the repository's order. */
    function ListAllPatrons(): (r: seq<Patron>)
      reads repository
      requires Valid()
      ensures |r| == |repository.patrons|
      ensures forall p :: p in r <==> p in repository.patrons.Values
      ensures forall i, j :: 0 <= i < j < |r| ==> r[i].id != r[j].id
    {
      var r := repository.GetAllPatrons();
      assert forall p :: p in r <==> p in repository.patrons.Values by {
        forall p ensures p in r <==> p in repository.patrons.Values {
          if p in repository.patrons.Values {
            var k :| k in repository.patrons && repository.patrons[k] == p;
            var i :| 0 <= i < |repository.patronOrder| && repository.patronOrder[i] == k;
            assert r[i] == p;
          }
        }
      }
      r
    }

    /**
     * The stored books whose title or author contains `query`, case ignored. The result is the
     * filter of `ListAllBooks()`, so it keeps the listing order (`Rules.FilterConcat`).
     */
    function Search(query: string): (r: seq<Book>)
      reads repository
      requires Valid()
      ensures forall b :: b in r <==> b in repository.books.Values && Rules.Matches(b, query)
    {
      Rules.Filter(ListAllBooks(), query)
    }

    /** The empty query finds every book, in listing order. */
    lemma SearchEmptyQuery()
      requires Valid()
      ensures Search("") == ListAllBooks()
    {
      Rules.FilterEmptyQuery(ListAllBooks());
    }
  }

  /** A search by part of a title, in another letter case, finds the book. */
  method SearchScenario() returns (found: seq<Book>)
    ensures found == [Book("A1", "Go Deep", "J. Doe", 2020, true)]
  {
    var repository := new Repository.LibraryRepository();
    var service := new DefaultLibraryService(repository);
    var book := Book("A1", "Go Deep", "J. Doe", 2020, true);
    var added := service.AddBook(book);
    assert service.ListAllBooks() == [book] by {
      assert repository.bookOrder == ["A1"];
    }
    assert Rules.Matches(book, "DEEP") by {
      assert Text.MatchesAt(book.title, "DEEP", 3);
    }
    found := service.Search("DEEP");
    assert found == Rules.Filter([book], "DEEP");
  }

  /** One patron borrows a book, is refused it a second time, returns it and borrows it again. */
  method CheckoutScenario() returns (first: BorrowResult, second: BorrowResult, returned: bool, third: BorrowResult)
    ensures first == Success && second == NotAvailable && returned && third == Success
  {
    var repository := new Repository.LibraryRepository();
    var service := new DefaultLibraryService(repository);
    var book := Book("A1", "Go Deep", "J. Doe", 2020, true);
    var patron := Patron("P1", "Al", []);
    var added := service.AddBook(book);
    var registered := service.RegisterPatron(patron);
    ghost var shelved := repository.State();
    assert shelved.books == map["A1" := book] && shelved.patrons == map["P1" := patron];
    assert Rules.Consistent(shelved);
    first := service.BorrowBook("P1", "A1");
    Rules.BorrowSuccessEffects(shelved, "P1", "A1");
    Rules.ReturnUndoesBorrow(shelved, "P1", "A1");
    second := service.BorrowBook("P1", "A1");
    returned := service.ReturnBook("P1", "A1");
    third := service.BorrowBook("P1", "A1");
  }
}
