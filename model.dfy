/** Records and outcomes of the library checkout service. */
module Model {

  datatype Option<T> = None | Some(value: T)

  /** A catalogue entry; `isbn` is its identity in the book store. */
  datatype Book = Book(isbn: string, title: string, author: string, year: int, isAvailable: bool)

  /** A registered member; `id` is its identity, `borrowedBooks` the isbns on loan, oldest first. */
  datatype Patron = Patron(id: string, name: string, borrowedBooks: seq<string>)

  /** The five outcomes of borrowing (SUCCESS, PATRON_NOT_FOUND, BOOK_NOT_FOUND, NOT_AVAILABLE, LIMIT_REACHED). */
  datatype BorrowResult = Success | PatronNotFound | BookNotFound | NotAvailable | LimitReached

  /** Most books one patron may hold at a time. */
  const BorrowLimit: nat := 3

  /** The contents of the two keyed stores: books by isbn, patrons by id. */
  datatype Library = Library(books: map<string, Book>, patrons: map<string, Patron>)

  /** Every record is stored under its own key. */
  ghost predicate WellKeyed(lib: Library) {
    && (forall k | k in lib.books :: lib.books[k].isbn == k)
    && (forall k | k in lib.patrons :: lib.patrons[k].id == k)
  }
}
