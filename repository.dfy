/**
 * The keyed storage the service runs against: books by isbn and patrons by id, each with
 * the order in which keys were first inserted, which is the order the listings follow.
 */
module Repository {
  import opened Model
  import Seqs

  class LibraryRepository {
    var books: map<string, Book>
    var bookOrder: seq<string>
    var patrons: map<string, Patron>
    var patronOrder: seq<string>

    /** Records sit under their own keys; each order lists every key of its store once. */
    ghost predicate Valid()
      reads this
    {
      && WellKeyed(State())
      && Seqs.Distinct(bookOrder) && (forall k :: k in bookOrder <==> k in books)
      && Seqs.Distinct(patronOrder) && (forall k :: k in patronOrder <==> k in patrons)
    }

    /** The contents of the two stores. */
    function State(): Library
      reads this
    {
      Library(books, patrons)
    }

    constructor ()
      ensures Valid()
      ensures books == map[] && patrons == map[] && bookOrder == [] && patronOrder == []
    {
      books, bookOrder := map[], [];
      patrons, patronOrder := map[], [];
    }

    /** Inserts `book` unless its isbn is already stored. */
    method AddBook(book: Book) returns (added: bool)
      requires Valid()
      modifies this
      ensures Valid()
      ensures added == (book.isbn !in old(books))
      ensures books == if added then old(books)[book.isbn := book] else old(books)
      ensures bookOrder == if added then old(bookOrder) + [book.isbn] else old(bookOrder)
      ensures patrons == old(patrons) && patronOrder == old(patronOrder)
    {
      added := book.isbn !in books;
      if added {
        books := books[book.isbn := book];
        bookOrder := bookOrder + [book.isbn];
      }
    }

    /** Inserts `patron` unless its id is already stored. */
    method AddPatron(patron: Patron) returns (added: bool)
      requires Valid()
      modifies this
      ensures Valid()
      ensures added == (patron.id !in old(patrons))
      ensures patrons == if added then old(patrons)[patron.id := patron] else old(patrons)
      ensures patronOrder == if added then old(patronOrder) + [patron.id] else old(patronOrder)
      ensures books == old(books) && bookOrder == old(bookOrder)
    {
      added := patron.id !in patrons;
      if added {
        patrons := patrons[patron.id := patron];
        patronOrder := patronOrder + [patron.id];
      }
    }

    /** The book stored under `isbn`, if any. */
    function FindBook(isbn: string): (r: Option<Book>)
      reads this
      requires Valid()
      ensures r.Some? <==> isbn in books
      ensures r.Some? ==> r.value == books[isbn] && r.value.isbn == isbn
    {
      if isbn in books then Some(books[isbn]) else None
    }

    /** The patron stored under `id`, if any. */
    function FindPatron(id: string): (r: Option<Patron>)
      reads this
      requires Valid()
      ensures r.Some? <==> id in patrons
      ensures r.Some? ==> r.value == patrons[id] && r.value.id == id
    {
      if id in patrons then Some(patrons[id]) else None
    }

    /** Replaces the stored book with the same isbn; an unknown isbn is left alone. */
    method UpdateBook(book: Book)
      requires Valid()
      modifies this
      ensures Valid()
      ensures books == if book.isbn in old(books) then old(books)[book.isbn := book] else old(books)
      ensures bookOrder == old(bookOrder) && patrons == old(patrons) && patronOrder == old(patronOrder)
    {
      if book.isbn in books {
        books := books[book.isbn := book];
      }
    }

    /** Replaces the stored patron with the same id; an unknown id is left alone. */
    method UpdatePatron(patron: Patron)
      requires Valid()
      modifies this
      ensures Valid()
      ensures patrons == if patron.id in old(patrons) then old(patrons)[patron.id := patron] else old(patrons)
      ensures patronOrder == old(patronOrder) && books == old(books) && bookOrder == old(bookOrder)
    {
      if patron.id in patrons {
        patrons := patrons[patron.id := patron];
      }
    }

    /** Every stored book once, in insertion order of the isbns. */
    function GetAllBooks(): (r: seq<Book>)
      reads this
      requires Valid()
      ensures |r| == |bookOrder| == |books|
      ensures forall i :: 0 <= i < |r| ==> r[i] == books[bookOrder[i]]
    {
      Seqs.DistinctCardinality(bookOrder, books.Keys);
      Seqs.ValuesInOrder(books, bookOrder)
    }

    /** Every stored patron once, in insertion order of the ids. */
    function GetAllPatrons(): (r: seq<Patron>)
      reads this
      requires Valid()
      ensures |r| == |patronOrder| == |patrons|
      ensures forall i :: 0 <= i < |r| ==> r[i] == patrons[patronOrder[i]]
    {
      Seqs.DistinctCardinality(patronOrder, patrons.Keys);
      Seqs.ValuesInOrder(patrons, patronOrder)
    }
  }
}
