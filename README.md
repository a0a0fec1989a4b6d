# Books and authors: lending tables and REST services

A model of the table logic of a small Flask learning project about books, authors and a
student library. The project has two unrelated databases, and the model keeps them apart.

- **Lending** (`books_alchemy/database.py`). This is a library whose `receiving_books` table maps
  the pair (book id, student id) to one `GivenBook` record. A record is Outstanding until
  `return_book` stamps its return time, and is Returned from then on. The reports are:
  days held (`count_date_with_book`), debtors (outstanding for more than 14 days), the books of
  an author still in stock, and a search by name. `Lending.Library` is a class with the books,
  students and records as fields and a clock that only moves forward. Timestamps are integer
  seconds. Whole days are the difference divided by 86400, rounded down, as
  `timedelta.days` does.
- **Catalog services** (`services/books.py`, `services/authors.py`, `services/common.py`). These
  are SQL statements on an `authors` and a `books` table. `Catalog.Store` is a class whose
  methods are those statements; each reports the row count SQLite would. Each service is a
  method on the store. It is proved equal to a function on a snapshot of the tables
  (`Catalog.Tables`): `CreatedBook`, `UpdatedBook`, `DeletedBook`, `CreatedAuthor`,
  `DeletedAuthor`, `CreatedFromPayload`, `Upserted`. The properties the services promise are
  lemmas about those functions. Listings read ids from 1 up to the next id to be assigned, the
  rowid order a plain `SELECT` returns. The inner join with `authors` drops a book whose author
  row is missing. SQLite does not enforce foreign keys, so such a book can exist.

Errors the source raises become `Results.Result` values: `NotFound`, `NameTooShort`,
`MissingField` and `DuplicateKey`. A store method that fails changes nothing, except where the
source writes before it fails. Those cases are stated in the contracts.

Where the code and its documentation disagree, the model follows the code:
- `get_remaining_authors_books` returns the list of in-stock books, not a sum of copies.
- `delete_author` deletes only the author row. The books stay, with a dangling author id (see
  Findings). They do vanish from every joined listing, which `AuthorService.BothDeletesListTheSameBooks` proves.
- `create_book_and_author_from_payload` is not atomic. When no author id is given and the names
  pass their checks, the author is inserted before the missing title is detected. Likewise,
  `create_book` inserts the row before `get_book` reports that its author does not exist.
- `update_book` returns a book whose author id is the new one but whose author names are the old
  author's, because only `book.author.id` is reassigned.
- `get_debtors` lists a student once per overdue record; duplicates are kept.

## Model

| member | source | states |
|---|---|---|
| Lending.DaysHeld | books_alchemy/database.py:124-129 | the result is the whole number of days in the holding period, rounded down: `days*86400 <= end - issued < (days+1)*86400`, where the end is the return time, or now while the book is out |
| Lending.DaysHeldNonNegative | books_alchemy/database.py:124-129 | days held is never negative when the period does not end before the issue |
| Lending.DaysHeldFrozenOnceReturned | books_alchemy/database.py:127-128 | once returned, the value no longer depends on the clock |
| Lending.OverdueAndDaysHeld | books_alchemy/database.py:140-146 | for an outstanding record, being overdue (issued strictly before now minus 14 days) implies at least 14 whole days held; more than 14 days held implies overdue; fewer than 14 implies not overdue |
| Lending.DebtBoundary | books_alchemy/database.py:144-145 | a record issued 13 or exactly 14 days ago is not overdue; one issued 15 days ago is |
| Lending.OverdueRecordsMembers | books_alchemy/database.py:142-146 | a record is selected exactly when it is outstanding, issued before the 14-day cutoff, and among the table's records |
| Lending.OverdueRecordsDistinct | books_alchemy/database.py:102-146 | since keys are distinct and each record sits under its own key, no record is selected twice |
| Lending.StudentsOf | books_alchemy/database.py:147-153 | Ok exactly when every selected record's student exists (`scalar_one`), otherwise NotFound; one student per record, in order, each the student row with that record's student id |
| Lending.MissingStudentFails | books_alchemy/database.py:149-151 | one overdue record whose student row is missing makes the whole report NotFound |
| Lending.DebtorListedOncePerOverdueBook | books_alchemy/database.py:147-153 | a student with two overdue books is listed twice |
| Lending.ConsistentDaysHeldNonNegative | books_alchemy/database.py:110-129 | in a table whose timestamps do not run ahead of the clock, every record's days held is at least 0 |
| Lending.MatchingName | books_alchemy/database.py:137 | exactly the rows whose name matches the LIKE pattern, in table order |
| Lending.ContainingName | books_alchemy/database.py:136-137 | exactly the rows whose name contains the term, ignoring ASCII case, in table order |
| Lending.SearchAgreesWithoutWildcards | books_alchemy/database.py:136-137 | for a term without `%` or `_`, the ILIKE search and the substring search return the same rows in the same order |
| Lending.UnderscoreSearchReturnsEveryBook | books_alchemy/database.py:136-137 | searching for `_` returns a book with a non-empty name that has no `_` in it, which the substring search excludes |
| Lending.InStockBy | books_alchemy/database.py:184-188 | exactly the rows of the given author with `count > 0`, in table order |
| Lending.Library.BooksByName | books_alchemy/database.py:136-137 | `get_books_by_name` as written: exactly the books whose name matches `%term%` under LIKE, with the term unescaped |
| Lending.Library.BooksByNameLiteral | books_alchemy/database.py:136-137 | exactly the books whose name contains the term ignoring ASCII case, and this equals `BooksByName` whenever the term has no wildcard |
| Lending.Library.RemainingAuthorsBooks | books_alchemy/database.py:184-188 | exactly the library's books of that author with at least one copy left |
| Lending.Library.Debtors | books_alchemy/database.py:140-153 | the loop returns the students of the overdue records in insertion order, or NotFound when one is missing, as `StudentsOf` of the overdue records |
| Lending.Library.GiveBook | books_alchemy/database.py:156-166 | a key already in the table (even a returned record) gives DuplicateKey and changes nothing; otherwise exactly one Outstanding record, issued now, is added and no other record changes |
| Lending.Library.ReturnBook | books_alchemy/database.py:169-181 | an outstanding record for the pair gets its return time set to now, and nothing else changes; with none, NotFound and no change; no record goes from Returned back to Outstanding |
| Lending.Library.Tick | books_alchemy/database.py:129 | the clock only moves forward, and no table changes |
| SqlLike.SubstringPattern | books_alchemy/database.py:137 | for a term without wildcards, `%term%` under LIKE is a case-insensitive substring test |
| SqlLike.UnderscoreMatchesAnyCharacter | books_alchemy/database.py:137 | the pattern `%_%` accepts every non-empty string, including one without an underscore |
| Catalog.Listing | services/books.py:8-39 | every listed book lies in the id range, is the joined row of its id, and matches the author filter |
| Catalog.ListingComplete | services/books.py:8-39 | every joined row in the range that matches the filter is listed |
| Catalog.ListingAscending | services/books.py:8-39 | listed ids strictly ascend, so no book is listed twice |
| Catalog.AuthorListing | services/authors.py:8-16 | every listed author is the row under its id, in range |
| Catalog.AuthorListingComplete | services/authors.py:8-16 | every author row in range is listed |
| Catalog.AuthorListingAscending | services/authors.py:8-16 | listed author ids strictly ascend |
| Catalog.Store.InsertAuthor | services/common.py:29-33 | one row is added under the next id, which no row had, and nothing else changes |
| Catalog.Store.InsertBook | services/books.py:136-148 | one row is added under the next id, which no row had, and nothing else changes |
| Catalog.Store.UpdateBookRow | services/books.py:171-181 | only row `id` is rewritten; the count is 1 when the row exists and 0 otherwise |
| Catalog.Store.DeleteBookRow | services/books.py:216-224 | only row `id` is removed; the count is 1 when it existed |
| Catalog.Store.DeleteAuthorRow | services/authors.py:29-36 | only author row `id` is removed; the count is 1 when it existed |
| Catalog.Store.DeleteBooksByAuthor | services/authors.py:25 | exactly the author's book rows are removed; the count is their number |
| BookService.GetBook | services/books.py:89-127 | Ok exactly when the book row and its author row exist, with the id, the title and the author's columns; otherwise NotFound |
| BookService.GetBookAgreesWithListing | services/books.py:89-127 | `get_book` finds a book exactly when it appears in `get_all_books` under that id |
| BookService.GetAllBooks | services/books.py:8-39 | one book per book row with an existing author, joined to that author, in id order with no repeats; exactly the books `get_book` finds |
| BookService.GetBooksByAuthor | services/books.py:47-81 | exactly the joined books whose author id is the given one, in id order with no repeats |
| BookService.CreateBookInsertsOneRow | services/books.py:136-153 | one row is added under an id no row had, and authors are untouched; the result has the given title and author id and is Ok exactly when that author exists |
| BookService.CreateBook | services/books.py:136-153 | the method inserts the row, then reads it back, as `CreatedBook` |
| BookService.UpdateMissingChangesNothing | services/books.py:166 | a book `get_book` does not find is NotFound, and nothing is written |
| BookService.UpdateChangesOnlyThatRow | services/books.py:168-187 | only row `id` changes; a title or author id given as None keeps its old value; the result carries the new title and author id |
| BookService.UpdateWithNothingChangesNothing | services/books.py:168-181 | with both fields None the tables are unchanged |
| BookService.UpdateReturnsFormerAuthorNames | services/books.py:183-187 | the returned book keeps the former author's names, even when the author id changed |
| BookService.UpdateBook | services/books.py:155-187 | the method reads, defaults the fields, writes and returns as `UpdatedBook` |
| BookService.UpdateBookFromPayload | services/books.py:190-207 | `update_book` is called with the payload's title, and with its author's id when an author is present, None otherwise |
| BookService.DeleteRemovesExactlyThatRow | services/books.py:210-225 | exactly row `id` disappears and every other row stays; NotFound and no change when no row matched |
| BookService.DeleteBook | services/books.py:210-225 | the method deletes and checks the row count as `DeletedBook` |
| AuthorService.GetAllAuthors | services/authors.py:7-16 | one author per authors row, with its columns, and no row twice |
| AuthorService.CreateAuthorInsertsOneRow | services/common.py:29-34 | one author row is added under a fresh id, with the given names; books are untouched |
| AuthorService.CreateAuthor | services/common.py:29-34 | the method inserts the row and returns it, as `CreatedAuthor` |
| AuthorService.DeleteAuthorRemovesExactlyThatRow | services/authors.py:24-38 | exactly author row `id` disappears and the other rows are unchanged; NotFound and no change when none matched |
| AuthorService.DeleteAuthor | services/authors.py:24-38 | the method deletes and checks the row count as `DeletedAuthor` |
| AuthorService.DeleteAuthorLeavesOrphanedBooks | services/authors.py:24-36 | after a successful delete a book of that author keeps its row and its author id, and `get_book` no longer finds it |
| AuthorService.DeleteAuthorOrphanExample | services/authors.py:24-38 | with author 1 and its book 1, deleting author 1 reports success and leaves the books table as it was |
| AuthorService.DeleteAuthorCascadeLeavesNoOrphans | services/authors.py:25 | with the documented cascade, no book row refers to the deleted author and every other book row is kept; a missing id is NotFound and changes nothing |
| AuthorService.BothDeletesListTheSameBooks | services/authors.py:24-38 | the joined listings after the as-written delete and after the cascading delete are the same |
| AuthorService.DeleteAuthorCascade | services/authors.py:24-38 | the method checks the author, deletes its books, then the author, as `DeletedAuthorCascade` |
| CommonService.CreateBookAndAuthorFromPayload | services/common.py:6-36 | the method runs the checks and inserts in the source's order, as `CreatedFromPayload` |
| CommonService.AuthorIdCreatesNoAuthor | services/common.py:19-36 | with an author id in the payload no author is created and the new book row refers to that id |
| CommonService.ShortLastNameChangesNothing | services/common.py:22-24 | without an author id, a last name under 3 characters is NameTooShort and writes nothing |
| CommonService.ShortFirstNameChangesNothing | services/common.py:26-27 | without an author id, a first name under 3 characters is NameTooShort and writes nothing |
| CommonService.ValidNamesCreateOneAuthor | services/common.py:29-36 | with valid names exactly one author with the payload's names is added under a fresh id, and the new book is attached to it; without a title the author stays and the call fails |
| CommonService.UpdateOrCreateBookFromPayload | services/common.py:50-78 | the method updates when the book is found and otherwise falls back to the create path, as `Upserted` |
| CommonService.UpsertUpdatesExactlyExistingBooks | services/common.py:68-78 | the upsert reports 200 exactly when `get_book` finds the id |
| CommonService.UpsertExistingKeepsBooks | services/common.py:68-74 | on an existing book: status 200, the same id, the same set of book ids, authors untouched |
| CommonService.UpsertMissingCreates | services/common.py:75-78 | on a missing id the upsert is exactly the create path; a created book gets status 201 and the store-assigned id |

## Left out

- The database engines, sessions, connections and commits. Both databases are in-memory stores, and each statement is applied at once.
- The delete-and-recreate of the database file at import, and the seed data of `initialize_db`.
- marshmallow validation and serialisation. A payload is `Models.BookPayload`, whose fields are all optional. The shown `BookSchema` has no `post_load`, so `Schema.load` would yield plain dicts. The model assumes the attribute access the code performs (`book["author"].id`) yields the field, or None when it is absent. Validation errors raised by `load` itself are not modelled.
- `CreatedFromPayload`: a payload without an author, or without one of the names it needs, is modelled as `MissingField`, standing for the `KeyError` or `TypeError` Python raises there.
- `BookService.UpdateBookFromPayload`: an author payload counts as present whenever it is given; the truthiness of an empty author dict is not modelled.
- The float `average_score` column and the filters on it, the rest of `books_alchemy/books.py`, and `get_all_books` of `books_alchemy/database.py` (a plain query that the model's `books` field already is).
- The `Book.count` column is only read: no operation changes it, as in the source.
- The HTTP layer (routes, status mapping beyond the upsert's 200 and 201), the image service, the ORM tutorial scripts, and the copies of the services under `core/`.
- The wall clock. `Lending.Library.now` is a field that only `Tick` advances.
- The `if not result.rowcount` checks after `INSERT` and after `UPDATE` of a row just read. In the model they cannot fail. The `UPDATE` check is kept as an expression, and the `INSERT` check is dropped.
- Reuse of ids after a delete. SQLite gives a new row one more than the largest id in use, so the id of a deleted last row comes back. The model's counter never reuses an id.
- Which exception class is raised. Only the error kinds are modelled.

## Findings

| source | as written | input that shows it | evidently intended | confidence | as-written member | corrected member |
|---|---|---|---|---|---|---|
| books_alchemy/database.py:136-137 | the search term is pasted into an ILIKE pattern unescaped, so `%` and `_` in it act as wildcards | searching for `_` returns every book with a non-empty name | a case-insensitive substring search for the term as typed | medium, not executed | Lending.UnderscoreSearchReturnsEveryBook | Lending.Library.BooksByNameLiteral |
| services/authors.py:24-38 | the docstring promises the author's books are deleted too, but only the author row is deleted, and SQLite does not enforce foreign keys by default | author 1 with book 1: deleting author 1 reports success and book 1's row remains with author id 1 | delete the author's books together with the author | high, not executed | AuthorService.DeleteAuthorOrphanExample | AuthorService.DeleteAuthorCascade |
