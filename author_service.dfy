/** The author operations the book services use, over the services' database. */
module AuthorService {
  import opened Results
  import opened Models
  import opened Catalog
  import opened BookService

  /** Every author row appears in the listing, and nothing else does. */
  lemma AuthorListingExact(authors: map<int, AuthorRow>, hi: int)
    requires forall id :: id in authors ==> FirstId <= id < hi
    ensures forall a :: a in AuthorListing(authors, hi) <==> a.id in authors && a == AuthorOf(authors, a.id)
  {
    forall a: Author | a.id in authors && a == AuthorOf(authors, a.id)
      ensures a in AuthorListing(authors, hi)
    {
      AuthorListingComplete(authors, hi, a.id);
    }
  }

  /**
   * `get_all_authors`: one Author per authors row, with its columns in order, and no row
   * twice (ids strictly ascend, SQLite's rowid order for a plain SELECT).
   */
  function GetAllAuthors(t: Tables): (r: seq<Author>)
    requires t.Valid()
    ensures forall a :: a in r <==> a.id in t.authors && a == AuthorOf(t.authors, a.id)
    ensures forall i, j :: 0 <= i < j < |r| ==> r[i].id < r[j].id
  {
    AuthorListingExact(t.authors, t.nextAuthorId);
    AuthorListingAscending(t.authors, t.nextAuthorId);
    AuthorListing(t.authors, t.nextAuthorId)
  }

  /** `create_author`: insert an authors row under the next id and return it as an Author. */
  function CreatedAuthor(t: Tables, lastName: string, firstName: string, middleName: Option<string>): (Author, Tables) {
    var id := t.nextAuthorId;
    (Author(id, lastName, firstName, middleName),
     t.(authors := t.authors[id := AuthorRow(lastName, firstName, middleName)], nextAuthorId := id + 1))
  }

  /** The new author has an id no row had; it is the only row added, and books are untouched. */
  lemma CreateAuthorInsertsOneRow(t: Tables, lastName: string, firstName: string, middleName: Option<string>)
    requires t.Valid()
    ensures var (a, t') := CreatedAuthor(t, lastName, firstName, middleName);
            && t'.Valid()
            && a.id !in t.authors
            && t'.authors.Keys == t.authors.Keys + {a.id}
            && (forall k :: k in t.authors ==> t'.authors[k] == t.authors[k])
            && a == AuthorOf(t'.authors, a.id)
            && a.lastName == lastName && a.firstName == firstName && a.middleName == middleName
            && t'.books == t.books && t'.nextBookId == t.nextBookId
  {
  }

  method CreateAuthor(db: Store, lastName: string, firstName: string, middleName: Option<string>) returns (a: Author)
    requires db.Valid()
    modifies db
    ensures db.Valid()
    ensures (a, db.Snapshot()) == CreatedAuthor(old(db.Snapshot()), lastName, firstName, middleName)
  {
    var id := db.InsertAuthor(AuthorRow(lastName, firstName, middleName));
    a := Author(id, lastName, firstName, middleName);
  }

  /** `delete_author` as written: one DELETE on authors, NotFound when it matched no row. */
  function DeletedAuthor(t: Tables, id: int): (Result<()>, Tables) {
    if id in t.authors then (Ok(()), t.(authors := t.authors - {id}))
    else (Err(NotFound), t)
  }

  /** Exactly author row `id` disappears; a missing id is NotFound and changes nothing. */
  lemma DeleteAuthorRemovesExactlyThatRow(t: Tables, id: int)
    requires t.Valid()
    ensures var (r, t') := DeletedAuthor(t, id);
            && t'.Valid()
            && (r.Ok? <==> id in t.authors)
            && (r.Err? ==> r.error == NotFound && t' == t)
            && t'.authors.Keys == t.authors.Keys - {id}
            && (forall k :: k in t'.authors ==> t'.authors[k] == t.authors[k])
  {
  }

  method DeleteAuthor(db: Store, id: int) returns (r: Result<()>)
    requires db.Valid()
    modifies db
    ensures db.Valid()
    ensures (r, db.Snapshot()) == DeletedAuthor(old(db.Snapshot()), id)
  {
    if id !in db.authors {
      assert db.authors - {id} == db.authors;
    }
    var count := db.DeleteAuthorRow(id);
    r := if count == 0 then Err(NotFound) else Ok(());
  }

  /**
   * The documented cascade does not happen: a book of the deleted author keeps its row and its
   * author id, and from then on `get_book` no longer finds it.
   */
  lemma DeleteAuthorLeavesOrphanedBooks(t: Tables, id: int, bookId: int)
    requires id in t.authors && bookId in t.books && t.books[bookId].authorId == id
    ensures var (r, t') := DeletedAuthor(t, id);
            && r.Ok?
            && bookId in t'.books && t'.books[bookId].authorId == id
            && GetBook(t, bookId).Ok? && GetBook(t', bookId) == Err(NotFound)
  {
  }

  /** A concrete store: author 1 with book 1; deleting the author reports success yet book 1 stays. */
  lemma DeleteAuthorOrphanExample()
    ensures var t := Tables(map[1 := AuthorRow("Tolkien", "John", None)], map[1 := BookRow("The Hobbit", 1)], 2, 2);
            && DeletedAuthor(t, 1).0 == Ok(())
            && DeletedAuthor(t, 1).1.books == t.books
  {
  }

  /** `delete_author` as documented: the author's books are deleted with it. */
  function DeletedAuthorCascade(t: Tables, id: int): (Result<()>, Tables) {
    if id in t.authors then
      (Ok(()), t.(authors := t.authors - {id},
                  books := map k | k in t.books && t.books[k].authorId != id :: t.books[k]))
    else (Err(NotFound), t)
  }

  /**
   * After the cascading delete no book row refers to the author, every other book row is kept
   * as it was, and a missing id is NotFound and changes nothing.
   */
  lemma DeleteAuthorCascadeLeavesNoOrphans(t: Tables, id: int)
    requires t.Valid()
    ensures var (r, t') := DeletedAuthorCascade(t, id);
            && t'.Valid()
            && (r.Ok? <==> id in t.authors)
            && (r.Err? ==> r.error == NotFound && t' == t)
            && t'.authors.Keys == t.authors.Keys - {id}
            && (r.Ok? ==> forall k :: k in t'.books ==> t'.books[k].authorId != id)
            && (forall k :: k in t.books && t.books[k].authorId != id ==> k in t'.books && t'.books[k] == t.books[k])
  {
  }

  /**
   * Both deletes leave the same joined listing: the orphaned rows of the as-written delete are
   * invisible to `get_all_books`, they only linger in the books table.
   */
  lemma BothDeletesListTheSameBooks(t: Tables, id: int, only: Option<int>)
    requires t.Valid()
    ensures Listing(DeletedAuthor(t, id).1, t.nextBookId, only) == Listing(DeletedAuthorCascade(t, id).1, t.nextBookId, only)
  {
    var u := DeletedAuthor(t, id).1;
    var v := DeletedAuthorCascade(t, id).1;
    forall k | FirstId <= k < t.nextBookId ensures JoinAt(u, k) == JoinAt(v, k) {
    }
    ListingOnlyDependsOnJoin(u, v, t.nextBookId, only);
  }

  method DeleteAuthorCascade(db: Store, id: int) returns (r: Result<()>)
    requires db.Valid()
    modifies db
    ensures db.Valid()
    ensures (r, db.Snapshot()) == DeletedAuthorCascade(old(db.Snapshot()), id)
  {
    if id !in db.authors {
      return Err(NotFound);
    }
    var removedBooks := db.DeleteBooksByAuthor(id);
    var count := db.DeleteAuthorRow(id);
    r := if count == 0 then Err(NotFound) else Ok(());
  }
}
