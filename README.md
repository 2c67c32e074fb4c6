# Library checkout service — a verified Dafny model

This project models the borrowing engine of a small single-process library tool. It is the
`DefaultLibraryService` class. The service works over two keyed stores: books by isbn and
patrons by id. It adds books, registers patrons, lends and takes back books under a
three-book limit, and searches titles and authors.

Layout:

- `model.dfy` (module `Model`): the `Book` and `Patron` records, the five-way
  `BorrowResult`, the constant `BorrowLimit = 3` and `Library`, the contents of both stores.
- `seqs.dfy` (module `Seqs`): Kotlin's `list - element` as `RemoveFirst`, plus the
  sequence facts the listings need.
- `text.dfy` (module `Text`): case-insensitive substring search (`contains(q, ignoreCase = true)`).
- `rules.dfy` (module `Rules`): each service operation as a pure function from the old stores
  to (outcome, new stores). It also holds the search filter, the two invariants (`WithinLimit`,
  `Consistent`) and the lemmas about all of these.
- `repository.dfy` (module `Repository`): the class `LibraryRepository`. It keeps two
  `map` fields for the stores and two `seq` fields for key insertion order. It offers
  insert-if-absent `AddBook`/`AddPatron`, full-replace `UpdateBook`/`UpdatePatron`,
  `Find*` lookups and `GetAll*` listings in insertion order.
- `service.dfy` (module `Service`): the class `DefaultLibraryService`. Its methods do what the
  Kotlin methods do, step for step: look up, check in order, build the updated copies, and write
  both back. Each method's postcondition says that its result and the new store contents are
  exactly what the matching `Rules` function gives for the old contents. The borrow and return
  methods also state that they keep `Consistent` and `WithinLimit`. `CheckoutScenario` is a
  client that adds a book, registers a patron, then borrows, is refused, returns and borrows
  again. `SearchScenario` finds a book by a query in another letter case.

The consistency invariant (`Rules.Consistent`) has three parts:

- every isbn on a loan list names a stored book;
- no patron lists a book that is on the shelf;
- a book that is out is listed by exactly one patron, exactly once.

`Rules.ConsistentAvailability` derives the "unavailable if and only if held once by exactly one
patron" reading from it. That reading on its own is not kept by `returnBook`. Take an available
book that two patrons list. After one of them returns it, exactly one patron lists it, once, and
the book is still available. So `Consistent` adds the second part: a book on the shelf is listed
by nobody.

Behaviour of the code worth knowing:

- The availability check (line 20) runs before the limit check (line 21), so an unavailable
  book gives NOT_AVAILABLE even to a patron at the limit (`Rules.BorrowOutcome`).
- The code does not keep loan lists free of duplicates and does not empty a new patron's list:
  `registerPatron` stores what it is given. So the consistency lemmas for `addBook` and
  `registerPatron` assume an available book and an empty loan list.
- `addBook` stores the record as given. Right after a successful `addBook`, the stored record is
  exactly the one given (`Rules.AddBookTwice`), so it is available only if it was added as
  available.
- `returnBook` never checks that the book was out. Returning a shelved book that the patron
  still lists succeeds (`Rules.ReturnOfShelvedBook`). So a book added as unavailable, then
  listed by a patron registered with it on their loan list, becomes available when that patron
  returns it.

## Model

| member | source | states |
|---|---|---|
| Service.DefaultLibraryService.AddBook | app/src/main/kotlin/org/dbu/library/service/DefaultLibraryService.kt:11 | result and new stores are those of `Rules.AddBook`: the book is inserted, and true returned, exactly when its isbn was not stored; otherwise nothing changes; the isbn joins the listing order only on insertion |
| Service.DefaultLibraryService.RegisterPatron | app/src/main/kotlin/org/dbu/library/service/DefaultLibraryService.kt:14 | result and new stores are those of `Rules.RegisterPatron`: insert-if-absent by id, reporting whether it inserted |
| Service.DefaultLibraryService.BorrowBook | app/src/main/kotlin/org/dbu/library/service/DefaultLibraryService.kt:16-31 | outcome and new stores are those of `Rules.Borrow` on the old stores; listing order unchanged; `Consistent` and `WithinLimit` are preserved |
| Service.DefaultLibraryService.ReturnBook | app/src/main/kotlin/org/dbu/library/service/DefaultLibraryService.kt:33-46 | outcome and new stores are those of `Rules.Return` on the old stores; listing order unchanged; `Consistent` and `WithinLimit` are preserved |
| Service.DefaultLibraryService.ListAllBooks | app/src/main/kotlin/org/dbu/library/service/DefaultLibraryService.kt:56 | every stored book exactly once (as many entries as stored isbns, no isbn twice, each stored record present) |
| Service.DefaultLibraryService.ListAllPatrons | app/src/main/kotlin/org/dbu/library/service/DefaultLibraryService.kt:57 | every stored patron exactly once |
| Service.DefaultLibraryService.Search | app/src/main/kotlin/org/dbu/library/service/DefaultLibraryService.kt:48-53 | a book is in the result exactly when it is stored and its title or author contains the query, case ignored |
| Service.DefaultLibraryService.SearchEmptyQuery | app/src/main/kotlin/org/dbu/library/service/DefaultLibraryService.kt:48-52 | the empty query returns every book, in listing order |
| Service.CheckoutScenario | app/src/main/kotlin/org/dbu/library/service/DefaultLibraryService.kt:16-46 | after adding a book and a patron, borrow, borrow again, return and borrow give SUCCESS, NOT_AVAILABLE, true, SUCCESS |
| Service.SearchScenario | app/src/main/kotlin/org/dbu/library/service/DefaultLibraryService.kt:48-52 | after adding "Go Deep", the query "DEEP" returns exactly that book |
| Rules.BorrowOutcome | app/src/main/kotlin/org/dbu/library/service/DefaultLibraryService.kt:16-30 | each of the five outcomes holds exactly when its check is the first in the order patron, book, availability, limit to fail (SUCCESS when none fails); LIMIT_REACHED exactly when both exist, the book is available and the patron holds at least 3 |
| Rules.BorrowRefusalChangesNothing | app/src/main/kotlin/org/dbu/library/service/DefaultLibraryService.kt:17-21 | every outcome other than SUCCESS leaves both stores unchanged |
| Rules.BorrowSuccessEffects | app/src/main/kotlin/org/dbu/library/service/DefaultLibraryService.kt:24-30 | on SUCCESS the book differs only in becoming unavailable, the patron differs only in having the isbn appended to its loans, and every other record and the key sets are unchanged |
| Rules.BorrowStaysWithinLimit | app/src/main/kotlin/org/dbu/library/service/DefaultLibraryService.kt:21-26 | a successful borrow starts from fewer than 3 loans and ends with at most 3 |
| Rules.BorrowPreservesWithinLimit | app/src/main/kotlin/org/dbu/library/service/DefaultLibraryService.kt:21-29 | if no patron holds more than 3 books before a borrow, none does after |
| Rules.BorrowPreservesConsistency | app/src/main/kotlin/org/dbu/library/service/DefaultLibraryService.kt:20-29 | borrowing keeps availability and loan lists in agreement |
| Rules.ReturnOutcome | app/src/main/kotlin/org/dbu/library/service/DefaultLibraryService.kt:34-36 | a return succeeds exactly when patron and book exist and the patron lists the isbn (availability is not consulted); a failed return changes nothing |
| Rules.ReturnSuccessEffects | app/src/main/kotlin/org/dbu/library/service/DefaultLibraryService.kt:39-45 | on success the book differs only in becoming available, the patron's loans lose exactly the first occurrence of the isbn (length drops by one, the rest keep their order), and every other record is unchanged |
| Rules.ReturnOfShelvedBook | app/src/main/kotlin/org/dbu/library/service/DefaultLibraryService.kt:35-43 | returning a book that is already available still succeeds when the patron lists it, and leaves the book store as it was |
| Rules.ReturnPreservesWithinLimit | app/src/main/kotlin/org/dbu/library/service/DefaultLibraryService.kt:41-44 | returning never takes a patron over the limit |
| Rules.ReturnPreservesConsistency | app/src/main/kotlin/org/dbu/library/service/DefaultLibraryService.kt:36-44 | returning keeps availability and loan lists in agreement |
| Rules.ReturnUndoesBorrow | app/src/main/kotlin/org/dbu/library/service/DefaultLibraryService.kt:24-44 | on a consistent library, returning a book just borrowed succeeds and restores both stores exactly |
| Rules.AddBookTwice | app/src/main/kotlin/org/dbu/library/service/DefaultLibraryService.kt:11 | after a successful add the record is stored under its isbn, and a second add with that isbn is refused and changes nothing |
| Rules.RegisterPatronTwice | app/src/main/kotlin/org/dbu/library/service/DefaultLibraryService.kt:14 | after a successful registration the patron is stored, and a second registration with that id is refused and changes nothing |
| Rules.AddBookPreservesConsistency | app/src/main/kotlin/org/dbu/library/service/DefaultLibraryService.kt:11 | adding an available book keeps the library consistent |
| Rules.RegisterPatronPreservesConsistency | app/src/main/kotlin/org/dbu/library/service/DefaultLibraryService.kt:14 | registering a patron with no loans keeps the library consistent |
| Rules.ConsistentAvailability | app/src/main/kotlin/org/dbu/library/service/DefaultLibraryService.kt:20-44 | in a consistent library a stored book is unavailable exactly when one patron lists it, once, and no other patron lists it |
| Rules.Filter | app/src/main/kotlin/org/dbu/library/service/DefaultLibraryService.kt:49-52 | the search filter keeps exactly the books whose title or author matches, and never grows the list |
| Rules.FilterConcat | app/src/main/kotlin/org/dbu/library/service/DefaultLibraryService.kt:49-52 | filtering keeps the input order: the filter of a concatenation is the concatenation of the filters |
| Rules.FilterEmptyQuery | app/src/main/kotlin/org/dbu/library/service/DefaultLibraryService.kt:49-52 | the empty query keeps every book, in order |
| Rules.FilterNoMatch | app/src/main/kotlin/org/dbu/library/service/DefaultLibraryService.kt:49-52 | when no book matches, the result is empty |
| Text.ContainsFrom | app/src/main/kotlin/org/dbu/library/service/DefaultLibraryService.kt:50-51 | true exactly when the query occurs, letter case ignored, at some position from the given start on |
| Text.ContainsIgnoreCase | app/src/main/kotlin/org/dbu/library/service/DefaultLibraryService.kt:50-51 | true exactly when the query occurs at some position of the text with letter case ignored |
| Text.EmptyQueryFound | app/src/main/kotlin/org/dbu/library/service/DefaultLibraryService.kt:50-51 | the empty query occurs in every text |
| Text.CaseIgnored | app/src/main/kotlin/org/dbu/library/service/DefaultLibraryService.kt:50-51 | changing the case of letters in the text or the query does not change the answer |
| Seqs.RemoveFirst | app/src/main/kotlin/org/dbu/library/service/DefaultLibraryService.kt:41 | Kotlin's `list - element`: nothing changes when the element is absent; otherwise the list has one fewer entry |
| Seqs.RemoveFirstCounts | app/src/main/kotlin/org/dbu/library/service/DefaultLibraryService.kt:41 | exactly one copy of the element is dropped when there is one, and every other element keeps its count |
| Seqs.RemoveFirstSplices | app/src/main/kotlin/org/dbu/library/service/DefaultLibraryService.kt:41 | the entry removed is the first occurrence; the entries before and after it keep their order |
| Seqs.RemoveFirstOfAppended | app/src/main/kotlin/org/dbu/library/service/DefaultLibraryService.kt:26-41 | removing an element just appended to a list that did not hold it gives the list back |

## Left out

- The text menu (`ui/MenuHandler.kt`): console input and output, menu dispatch and the `toIntOrNull() ?: 0` default for the year. It is not part of this model.
- The concrete `LibraryRepository` backend is not part of this model. It is modelled as two maps with key insertion order. Persistence is not modelled.
- The Kotlin declarations of `Book`, `Patron`, `BorrowResult` and `LibraryService` are not part of this model. The records in `model.dfy` are rebuilt from how the code uses their fields (DefaultLibraryService.kt:20-41, MenuHandler.kt:45,58,135).
- Repository.LibraryRepository.UpdateBook: replacing a record whose key is not stored is modelled as doing nothing. The service only replaces records it has just found.
- Repository.LibraryRepository.UpdatePatron: likewise, replacing a patron whose id is not stored is modelled as doing nothing.
- Text.ContainsIgnoreCase: folds only the ASCII letters A-Z. Kotlin's `ignoreCase` compares the upper- and lower-case forms of each Unicode character, so non-ASCII case variants that Kotlin matches are not matched here.
- Concurrency and the check-then-act race between reading availability and writing it back. The service is single-threaded.
- Failure or rollback of the two repository writes in `borrowBook` and `returnBook`. Writes always succeed in this model.
- Input validation on `addBook` and `registerPatron`. The code does none, and the model does none either.
- The 32-bit width of `year`. The service does no arithmetic on it.
