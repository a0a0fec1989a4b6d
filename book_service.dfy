/** The book operations of services/books.py over the services' database. */
module BookService {
  import opened Results
  import opened Models
  import opened Catalog

  /** `get_book`: the joined row of book `id`, NotFound when the join yields none. */
  function GetBook(t: Tables, id: int): (r: Result<Book>)
    ensures r.Ok? <==> id in t.books && t.books[id].authorId in t.authors
    ensures r.Ok? ==> r.value.id == id && r.value.title == t.books[id].title
                      && r.value.author == AuthorOf(t.authors, t.books[id].authorId)
    ensures r.Err? ==> r.error == NotFound
  {
    match JoinAt(t, id)
    case Some(b) => Ok(b)
    case None => Err(NotFound)
  }

  /** A book is found by id exactly when it appears in the full listing. */
  lemma GetBookAgreesWithListing(t: Tables, id: int, b: Book)
    requires t.Valid()
    ensures GetBook(t, id) == Ok(b) <==> b in Listing(t, t.nextBookId, None) && b.id == id
  {
    if GetBook(t, id) == Ok(b) {
      ListingComplete(t, t.nextBookId, None, id);
    }
  }

  /** `get_all_books`: every book whose author row exists, joined to it, in id order. */
  method GetAllBooks(db: Store) returns (results: seq<Book>)
    requires db.Valid()
    ensures results == Listing(db.Snapshot(), db.nextBookId, None)
    ensures forall b :: b in results <==> GetBook(db.Snapshot(), b.id) == Ok(b)
    ensures forall i, j :: 0 <= i < j < |results| ==> results[i].id < results[j].id
  {
    results := [];
    var id := FirstId;
    while id < db.nextBookId
      invariant FirstId <= id <= db.nextBookId
      invariant results == Listing(db.Snapshot(), id, None)
    {
      if id in db.books && db.books[id].authorId in db.authors {
        results := results + [Book(id, db.books[id].title, AuthorOf(db.authors, db.books[id].authorId))];
      }
      id := id + 1;
    }
    forall b: Book ensures b in results <==> GetBook(db.Snapshot(), b.id) == Ok(b) {
      GetBookAgreesWithListing(db.Snapshot(), b.id, b);
    }
    ListingAscending(db.Snapshot(), db.nextBookId, None);
  }

  /** `get_books_by_author`: the joined books whose author id is `authorId`, in id order. */
  method GetBooksByAuthor(db: Store, authorId: int) returns (results: seq<Book>)
    requires db.Valid()
    ensures results == Listing(db.Snapshot(), db.nextBookId, Some(authorId))
    ensures forall b :: b in results <==> GetBook(db.Snapshot(), b.id) == Ok(b) && b.author.id == authorId
    ensures forall i, j :: 0 <= i < j < |results| ==> results[i].id < results[j].id
  {
    results := [];
    var id := FirstId;
    while id < db.nextBookId
      invariant FirstId <= id <= db.nextBookId
      invariant results == Listing(db.Snapshot(), id, Some(authorId))
    {
      if id in db.books && db.books[id].authorId in db.authors && db.books[id].authorId == authorId {
        results := results + [Book(id, db.books[id].title, AuthorOf(db.authors, db.books[id].authorId))];
      }
      id := id + 1;
    }
    forall b: Book | GetBook(db.Snapshot(), b.id) == Ok(b) && b.author.id == authorId ensures b in results {
      ListingComplete(db.Snapshot(), db.nextBookId, Some(authorId), b.id);
    }
    ListingAscending(db.Snapshot(), db.nextBookId, Some(authorId));
  }

  /** `create_book`: insert a row under the next id, then read it back with `get_book`. */
  function CreatedBook(t: Tables, title: string, authorId: int): (Result<Book>, Tables) {
    var id := t.nextBookId;
    var t' := t.(books := t.books[id := BookRow(title, authorId)], nextBookId := id + 1);
    (GetBook(t', id), t')
  }

  /**
   * Exactly one row is added, under an id no row had; the result carries the given title and
   * author id, and is NotFound (with the row still inserted) when no author has that id.
   */
  lemma CreateBookInsertsOneRow(t: Tables, title: string, authorId: int)
    requires t.Valid()
    ensures var (r, t') := CreatedBook(t, title, authorId);
            && t'.Valid()
            && t.nextBookId !in t.books
            && t'.books == t.books[t.nextBookId := BookRow(title, authorId)]
            && t'.authors == t.authors && t'.nextAuthorId == t.nextAuthorId
            && (r.Ok? <==> authorId in t.authors)
            && (r.Ok? ==> r.value.id == t.nextBookId && r.value.title == title && r.value.author.id == authorId)
  {
  }

  method CreateBook(db: Store, title: string, authorId: int) returns (r: Result<Book>)
    requires db.Valid()
    modifies db
    ensures db.Valid()
    ensures (r, db.Snapshot()) == CreatedBook(old(db.Snapshot()), title, authorId)
  {
    var id := db.InsertBook(BookRow(title, authorId));
    r := GetBook(db.Snapshot(), id);
  }

  /**
   * `update_book`: read the book (NotFound before any write), keep each field given as None,
   * write the row, and return the book read with the new title and author id set on it.
   */
  function UpdatedBook(t: Tables, id: int, title: Option<string>, authorId: Option<int>): (Result<Book>, Tables) {
    match GetBook(t, id)
    case Err(e) => (Err(e), t)
    case Ok(book) =>
      var newTitle := title.GetOr(book.title);
      var newAuthorId := authorId.GetOr(book.author.id);
      (Ok(book.(title := newTitle, author := book.author.(id := newAuthorId))),
       t.(books := t.books[id := BookRow(newTitle, newAuthorId)]))
  }

  /** A book that `get_book` does not find is not written. */
  lemma UpdateMissingChangesNothing(t: Tables, id: int, title: Option<string>, authorId: Option<int>)
    requires GetBook(t, id).Err?
    ensures UpdatedBook(t, id, title, authorId) == (Err(NotFound), t)
  {
  }

  /** Only row `id` changes; a field given as None keeps the value it had. */
  lemma UpdateChangesOnlyThatRow(t: Tables, id: int, title: Option<string>, authorId: Option<int>)
    requires t.Valid() && GetBook(t, id).Ok?
    ensures var (r, t') := UpdatedBook(t, id, title, authorId);
            && t'.Valid()
            && t'.authors == t.authors && t'.nextBookId == t.nextBookId && t'.nextAuthorId == t.nextAuthorId
            && t'.books.Keys == t.books.Keys
            && (forall k :: k in t.books && k != id ==> t'.books[k] == t.books[k])
            && t'.books[id].title == (if title.Some? then title.value else t.books[id].title)
            && t'.books[id].authorId == (if authorId.Some? then authorId.value else t.books[id].authorId)
            && r.Ok? && r.value.id == id
            && r.value.title == t'.books[id].title && r.value.author.id == t'.books[id].authorId
  {
  }

  /** With neither field given the table is left as it was. */
  lemma UpdateWithNothingChangesNothing(t: Tables, id: int)
    ensures UpdatedBook(t, id, None, None).1 == t
  {
    if GetBook(t, id).Ok? {
      assert t.books[id := t.books[id]] == t.books;
    }
  }

  /**
   * The returned book keeps the names of the author it had before, even when its author id
   * changed: only `book.author.id` is reassigned.
   */
  lemma UpdateReturnsFormerAuthorNames(t: Tables, id: int, title: Option<string>, authorId: Option<int>)
    requires GetBook(t, id).Ok?
    ensures var r := UpdatedBook(t, id, title, authorId).0;
            && r.Ok?
            && r.value.author.lastName == GetBook(t, id).value.author.lastName
            && r.value.author.firstName == GetBook(t, id).value.author.firstName
            && r.value.author.middleName == GetBook(t, id).value.author.middleName
  {
  }

  method UpdateBook(db: Store, id: int, title: Option<string>, authorId: Option<int>) returns (r: Result<Book>)
    requires db.Valid()
    modifies db
    ensures db.Valid()
    ensures (r, db.Snapshot()) == UpdatedBook(old(db.Snapshot()), id, title, authorId)
  {
    var found := GetBook(db.Snapshot(), id);
    if found.Err? {
      return Err(found.error);
    }
    var book := found.value;
    var newTitle := title.GetOr(book.title);
    var newAuthorId := authorId.GetOr(book.author.id);
    var count := db.UpdateBookRow(id, BookRow(newTitle, newAuthorId));
    r := if count == 0 then Err(NotFound) else Ok(book.(title := newTitle, author := book.author.(id := newAuthorId)));
  }

  /** The author id a payload names: its author's id when an author is given, None otherwise. */
  function PayloadAuthorId(p: BookPayload): Option<int> {
    if p.author.Some? then p.author.value.id else None
  }

  /** `update_book_from_payload_json`: `update_book` with the payload's title and author id. */
  method UpdateBookFromPayload(db: Store, id: int, payload: BookPayload) returns (r: Result<Book>)
    requires db.Valid()
    modifies db
    ensures db.Valid()
    ensures (r, db.Snapshot()) == UpdatedBook(old(db.Snapshot()), id, payload.title, PayloadAuthorId(payload))
  {
    var authorId: Option<int> := None;
    if payload.author.Some? {
      authorId := payload.author.value.id;
    }
    r := UpdateBook(db, id, payload.title, authorId);
  }

  /** `delete_book`: remove row `id`; NotFound when no row matched. */
  function DeletedBook(t: Tables, id: int): (Result<()>, Tables) {
    if id in t.books then (Ok(()), t.(books := t.books - {id}))
    else (Err(NotFound), t)
  }

  /** Exactly row `id` disappears; every other row, and the authors, stay as they were. */
  lemma DeleteRemovesExactlyThatRow(t: Tables, id: int)
    requires t.Valid()
    ensures var (r, t') := DeletedBook(t, id);
            && t'.Valid()
            && (r.Ok? <==> id in t.books)
            && (r.Err? ==> r.error == NotFound && t' == t)
            && t'.books.Keys == t.books.Keys - {id}
            && (forall k :: k in t'.books ==> t'.books[k] == t.books[k])
            && t'.authors == t.authors
  {
  }

  method DeleteBook(db: Store, id: int) returns (r: Result<()>)
    requires db.Valid()
    modifies db
    ensures db.Valid()
    ensures (r, db.Snapshot()) == DeletedBook(old(db.Snapshot()), id)
  {
    if id !in db.books {
      assert db.books - {id} == db.books;
    }
    var count := db.DeleteBookRow(id);
    r := if count == 0 then Err(NotFound) else Ok(());
  }
}
