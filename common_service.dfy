/** The find-or-create and upsert orchestration of services/common.py. */
module CommonService {
  import opened Results
  import opened Models
  import opened Catalog
  import opened BookService
  import opened AuthorService

  /** Shortest last and first name accepted for a new author. */
  const MinNameLength := 3
  /** HTTP statuses the upsert reports: updated in place, or created. */
  const StatusOk := 200
  const StatusCreated := 201

  /** The final `create_book(title=book["title"], ...)`: a payload without a title fails there. */
  function CreatedWithTitle(t: Tables, title: Option<string>, authorId: int): (Result<Book>, Tables) {
    if title.None? then (Err(MissingField), t) else CreatedBook(t, title.value, authorId)
  }

  /**
   * `create_book_and_author_from_payload`: with an author id in the payload the book is created
   * for that id; without one, both names must be at least MinNameLength long, the author is
   * created first and the book is then created for the new id. A missing title fails only after
   * the author has been created.
   */
  function CreatedFromPayload(t: Tables, p: BookPayload): (Result<Book>, Tables) {
    if p.author.None? then (Err(MissingField), t)
    else
      var a := p.author.value;
      if a.id.Some? then CreatedWithTitle(t, p.title, a.id.value)
      else if a.lastName.None? then (Err(MissingField), t)
      else if |a.lastName.value| < MinNameLength then (Err(NameTooShort), t)
      else if a.firstName.None? then (Err(MissingField), t)
      else if |a.firstName.value| < MinNameLength then (Err(NameTooShort), t)
      else
        var (author, t1) := CreatedAuthor(t, a.lastName.value, a.firstName.value, a.middleName);
        CreatedWithTitle(t1, p.title, author.id)
  }

  method CreateBookAndAuthorFromPayload(db: Store, p: BookPayload) returns (r: Result<Book>)
    requires db.Valid()
    modifies db
    ensures db.Valid()
    ensures (r, db.Snapshot()) == CreatedFromPayload(old(db.Snapshot()), p)
  {
    if p.author.None? {
      return Err(MissingField);
    }
    var a := p.author.value;
    var authorId: int;
    if a.id.Some? {
      authorId := a.id.value;
    } else {
      if a.lastName.None? {
        return Err(MissingField);
      }
      if |a.lastName.value| < MinNameLength {
        return Err(NameTooShort);
      }
      if a.firstName.None? {
        return Err(MissingField);
      }
      if |a.firstName.value| < MinNameLength {
        return Err(NameTooShort);
      }
      var author := CreateAuthor(db, a.lastName.value, a.firstName.value, a.middleName);
      authorId := author.id;
    }
    if p.title.None? {
      return Err(MissingField);
    }
    r := CreateBook(db, p.title.value, authorId);
  }

  /**
   * A payload author with an id creates no author: the authors table is untouched and the new
   * book row refers to that id.
   */
  lemma AuthorIdCreatesNoAuthor(t: Tables, p: BookPayload)
    requires p.author.Some? && p.author.value.id.Some? && p.title.Some?
    ensures var (r, t') := CreatedFromPayload(t, p);
            && t'.authors == t.authors && t'.nextAuthorId == t.nextAuthorId
            && t'.books == t.books[t.nextBookId := BookRow(p.title.value, p.author.value.id.value)]
            && (r.Ok? ==> r.value.author.id == p.author.value.id.value && r.value.title == p.title.value)
  {
  }

  /** Without an author id, a last name shorter than MinNameLength fails and writes nothing. */
  lemma ShortLastNameChangesNothing(t: Tables, p: BookPayload)
    requires p.author.Some? && p.author.value.id.None?
    requires p.author.value.lastName.Some? && |p.author.value.lastName.value| < MinNameLength
    ensures CreatedFromPayload(t, p) == (Err(NameTooShort), t)
  {
  }

  /**
   * Without an author id, an acceptable last name but a first name shorter than MinNameLength
   * fails and writes nothing.
   */
  lemma ShortFirstNameChangesNothing(t: Tables, p: BookPayload)
    requires p.author.Some? && p.author.value.id.None?
    requires p.author.value.lastName.Some? && |p.author.value.lastName.value| >= MinNameLength
    requires p.author.value.firstName.Some? && |p.author.value.firstName.value| < MinNameLength
    ensures CreatedFromPayload(t, p) == (Err(NameTooShort), t)
  {
  }

  /**
   * Without an author id and with both names acceptable, exactly one author row is added, with
   * the payload's names under a fresh id, and the new book is attached to it. Without a title
   * the author stays created and the call fails.
   */
  lemma ValidNamesCreateOneAuthor(t: Tables, p: BookPayload)
    requires t.Valid()
    requires p.author.Some? && p.author.value.id.None?
    requires p.author.value.lastName.Some? && |p.author.value.lastName.value| >= MinNameLength
    requires p.author.value.firstName.Some? && |p.author.value.firstName.value| >= MinNameLength
    ensures var (r, t') := CreatedFromPayload(t, p);
            var a := p.author.value;
            var newId := t.nextAuthorId;
            && t'.Valid()
            && newId !in t.authors
            && t'.authors == t.authors[newId := AuthorRow(a.lastName.value, a.firstName.value, a.middleName)]
            && (p.title.Some? ==>
                  && r == Ok(Book(t.nextBookId, p.title.value, Author(newId, a.lastName.value, a.firstName.value, a.middleName)))
                  && t'.books == t.books[t.nextBookId := BookRow(p.title.value, newId)])
            && (p.title.None? ==> r == Err(MissingField) && t'.books == t.books)
  {
  }

  /**
   * `update_or_create_book_from_payload_json`: when `get_book` finds `id` the book is updated
   * from the payload (status 200); when anything in that branch fails the payload goes through
   * the create path instead (status 201), whose failures are reported.
   */
  function Upserted(t: Tables, id: int, p: BookPayload): (Result<(Book, int)>, Tables) {
    var (updated, t1) := if GetBook(t, id).Ok? then UpdatedBook(t, id, p.title, PayloadAuthorId(p)) else (Err(NotFound), t);
    if updated.Ok? then (Ok((updated.value, StatusOk)), t1)
    else
      var (created, t2) := CreatedFromPayload(t, p);
      match created
      case Ok(b) => (Ok((b, StatusCreated)), t2)
      case Err(e) => (Err(e), t2)
  }

  method UpdateOrCreateBookFromPayload(db: Store, id: int, p: BookPayload) returns (r: Result<(Book, int)>)
    requires db.Valid()
    modifies db
    ensures db.Valid()
    ensures (r, db.Snapshot()) == Upserted(old(db.Snapshot()), id, p)
  {
    var found := GetBook(db.Snapshot(), id);
    var updated: Result<Book> := Err(NotFound);
    if found.Ok? {
      var authorId: Option<int> := None;
      if p.author.Some? {
        authorId := p.author.value.id;
      }
      updated := UpdateBook(db, id, p.title, authorId);
    }
    if updated.Ok? {
      r := Ok((updated.value, StatusOk));
    } else {
      var created := CreateBookAndAuthorFromPayload(db, p);
      r := if created.Ok? then Ok((created.value, StatusCreated)) else Err(created.error);
    }
  }

  /** The upsert reports 200 exactly when `get_book` finds the id. */
  lemma UpsertUpdatesExactlyExistingBooks(t: Tables, id: int, p: BookPayload)
    ensures var r := Upserted(t, id, p).0;
            r.Ok? && r.value.1 == StatusOk <==> GetBook(t, id).Ok?
  {
  }

  /**
   * On a book `get_book` finds, the upsert updates it in place: the same id is returned with
   * status 200, the set of book ids and the authors are unchanged.
   */
  lemma UpsertExistingKeepsBooks(t: Tables, id: int, p: BookPayload)
    requires t.Valid() && GetBook(t, id).Ok?
    ensures var (r, t') := Upserted(t, id, p);
            && r.Ok? && r.value.1 == StatusOk && r.value.0.id == id
            && t'.books.Keys == t.books.Keys && t'.authors == t.authors
            && (p.title.Some? ==> r.value.0.title == p.title.value && t'.books[id].title == p.title.value)
  {
  }

  /**
   * On an id `get_book` does not find, the upsert is exactly the create path, and a book it
   * creates gets status 201 and the store-assigned id, not the requested one.
   */
  lemma UpsertMissingCreates(t: Tables, id: int, p: BookPayload)
    requires GetBook(t, id).Err?
    ensures var (r, t') := Upserted(t, id, p);
            && t' == CreatedFromPayload(t, p).1
            && (r.Ok? <==> CreatedFromPayload(t, p).0.Ok?)
            && (r.Ok? ==> r.value == (CreatedFromPayload(t, p).0.value, StatusCreated)
                          && r.value.0.id == t.nextBookId)
  {
  }
}
