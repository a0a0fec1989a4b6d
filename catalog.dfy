/**
 * The `authors` and `books` tables the REST services read and write over sqlite3, with the
 * id each table assigns next. `Store` holds them and offers the SQL statements the services
 * run; `Tables` is a snapshot of its state on which the services' behaviour is specified.
 */
module Catalog {
  import opened Results
  import opened Models

  /** The smallest id a table assigns. */
  const FirstId: int := 1

  datatype AuthorRow = AuthorRow(lastName: string, firstName: string, middleName: Option<string>)

  /** A `books` row; `authorId` is not checked against `authors` (foreign keys are not enforced). */
  datatype BookRow = BookRow(title: string, authorId: int)

  datatype Tables = Tables(
    authors: map<int, AuthorRow>,
    books: map<int, BookRow>,
    nextAuthorId: int,
    nextBookId: int)
  {
    /** Every id in use lies below the id its table assigns next. */
    predicate Valid() {
      && FirstId <= nextAuthorId && FirstId <= nextBookId
      && (forall id :: id in authors ==> FirstId <= id < nextAuthorId)
      && (forall id :: id in books ==> FirstId <= id < nextBookId)
    }
  }

  /** The `Author` built from row `id` of `authors`. */
  function AuthorOf(authors: map<int, AuthorRow>, id: int): Author
    requires id in authors
  {
    Author(id, authors[id].lastName, authors[id].firstName, authors[id].middleName)
  }

  /** The row `books JOIN authors ON books.author_id = authors.id` gives for book `id`, if any. */
  function JoinAt(t: Tables, id: int): Option<Book> {
    if id in t.books && t.books[id].authorId in t.authors then
      Some(Book(id, t.books[id].title, AuthorOf(t.authors, t.books[id].authorId)))
    else None
  }

  /** The optional `WHERE authors.id = ?` of a listing. */
  predicate Selected(b: Book, only: Option<int>) {
    only.None? || b.author.id == only.value
  }

  /** The joined rows of books with ids below `hi`, in id order, restricted to author `only` if given. */
  function Listing(t: Tables, hi: int, only: Option<int>): (r: seq<Book>)
    decreases hi - FirstId
    ensures forall b :: b in r ==> FirstId <= b.id < hi && JoinAt(t, b.id) == Some(b) && Selected(b, only)
  {
    if hi <= FirstId then []
    else
      Listing(t, hi - 1, only)
      + match JoinAt(t, hi - 1)
        case Some(b) => if Selected(b, only) then [b] else []
        case None => []
  }

  /** Every joined, selected book with an id below `hi` is listed. */
  lemma {:induction false} ListingComplete(t: Tables, hi: int, only: Option<int>, id: int)
    requires FirstId <= id < hi
    requires JoinAt(t, id).Some? && Selected(JoinAt(t, id).value, only)
    ensures JoinAt(t, id).value in Listing(t, hi, only)
    decreases hi - FirstId
  {
    if id < hi - 1 {
      ListingComplete(t, hi - 1, only, id);
    }
  }

  /** Listed ids increase strictly: no book is listed twice. */
  lemma {:induction false} ListingAscending(t: Tables, hi: int, only: Option<int>)
    ensures forall i, j :: 0 <= i < j < |Listing(t, hi, only)| ==> Listing(t, hi, only)[i].id < Listing(t, hi, only)[j].id
    decreases hi - FirstId
  {
    if hi > FirstId {
      ListingAscending(t, hi - 1, only);
      var r0 := Listing(t, hi - 1, only);
      var r := Listing(t, hi, only);
      forall i, j | 0 <= i < j < |r| ensures r[i].id < r[j].id {
        assert r[i] == r0[i] && r0[i] in r0;
        if j >= |r0| {
          assert r[j].id == hi - 1;
        } else {
          assert r[j] == r0[j];
        }
      }
    }
  }

  /** The listing depends only on the join, so tables with the same joined rows list the same books. */
  lemma {:induction false} ListingOnlyDependsOnJoin(t: Tables, u: Tables, hi: int, only: Option<int>)
    requires forall id :: FirstId <= id < hi ==> JoinAt(t, id) == JoinAt(u, id)
    ensures Listing(t, hi, only) == Listing(u, hi, only)
    decreases hi - FirstId
  {
    if hi > FirstId {
      ListingOnlyDependsOnJoin(t, u, hi - 1, only);
    }
  }

  /** The `authors` rows with ids below `hi`, in id order. */
  function AuthorListing(authors: map<int, AuthorRow>, hi: int): (r: seq<Author>)
    decreases hi - FirstId
    ensures forall a :: a in r ==> FirstId <= a.id < hi && a.id in authors && a == AuthorOf(authors, a.id)
  {
    if hi <= FirstId then []
    else AuthorListing(authors, hi - 1) + (if hi - 1 in authors then [AuthorOf(authors, hi - 1)] else [])
  }

  lemma {:induction false} AuthorListingComplete(authors: map<int, AuthorRow>, hi: int, id: int)
    requires FirstId <= id < hi && id in authors
    ensures AuthorOf(authors, id) in AuthorListing(authors, hi)
    decreases hi - FirstId
  {
    if id < hi - 1 {
      AuthorListingComplete(authors, hi - 1, id);
    }
  }

  lemma {:induction false} AuthorListingAscending(authors: map<int, AuthorRow>, hi: int)
    ensures forall i, j :: 0 <= i < j < |AuthorListing(authors, hi)| ==>
              AuthorListing(authors, hi)[i].id < AuthorListing(authors, hi)[j].id
    decreases hi - FirstId
  {
    if hi > FirstId {
      AuthorListingAscending(authors, hi - 1);
      var r0 := AuthorListing(authors, hi - 1);
      var r := AuthorListing(authors, hi);
      forall i, j | 0 <= i < j < |r| ensures r[i].id < r[j].id {
        assert r[i] == r0[i] && r0[i] in r0;
        if j >= |r0| {
          assert r[j].id == hi - 1;
        } else {
          assert r[j] == r0[j];
        }
      }
    }
  }

  /** The services' database. Each method is one SQL statement and reports what SQLite reports. */
  class Store {
    var authors: map<int, AuthorRow>
    var books: map<int, BookRow>
    var nextAuthorId: int
    var nextBookId: int

    function Snapshot(): Tables
      reads this
    {
      Tables(authors, books, nextAuthorId, nextBookId)
    }

    ghost predicate Valid()
      reads this
    {
      Snapshot().Valid()
    }

    /** An empty database. */
    constructor ()
      ensures Valid()
      ensures Snapshot() == Tables(map[], map[], FirstId, FirstId)
    {
      authors := map[];
      books := map[];
      nextAuthorId := FirstId;
      nextBookId := FirstId;
    }

    /** `INSERT INTO authors`; returns `lastrowid`, an id no row had. */
    method InsertAuthor(row: AuthorRow) returns (id: int)
      requires Valid()
      modifies this
      ensures Valid()
      ensures id == old(nextAuthorId) && id !in old(authors)
      ensures Snapshot() == old(Snapshot()).(authors := old(authors)[id := row], nextAuthorId := id + 1)
    {
      id := nextAuthorId;
      authors := authors[id := row];
      nextAuthorId := id + 1;
    }

    /** `INSERT INTO books (author_id, title)`; returns `lastrowid`, an id no row had. */
    method InsertBook(row: BookRow) returns (id: int)
      requires Valid()
      modifies this
      ensures Valid()
      ensures id == old(nextBookId) && id !in old(books)
      ensures Snapshot() == old(Snapshot()).(books := old(books)[id := row], nextBookId := id + 1)
    {
      id := nextBookId;
      books := books[id := row];
      nextBookId := id + 1;
    }

    /** `UPDATE books SET author_id = ?, title = ? WHERE id = ?`; returns `rowcount`. */
    method UpdateBookRow(id: int, row: BookRow) returns (count: nat)
      requires Valid()
      modifies this
      ensures Valid()
      ensures count == if id in old(books) then 1 else 0
      ensures Snapshot() == old(Snapshot()).(books := if id in old(books) then old(books)[id := row] else old(books))
    {
      if id in books {
        books := books[id := row];
        count := 1;
      } else {
        count := 0;
      }
    }

    /** `DELETE FROM books WHERE books.id = ?`; returns `rowcount`. */
    method DeleteBookRow(id: int) returns (count: nat)
      requires Valid()
      modifies this
      ensures Valid()
      ensures count == if id in old(books) then 1 else 0
      ensures Snapshot() == old(Snapshot()).(books := old(books) - {id})
    {
      count := if id in books then 1 else 0;
      books := books - {id};
    }

    /** `DELETE FROM books WHERE books.author_id = ?`; returns `rowcount`. */
    method DeleteBooksByAuthor(authorId: int) returns (count: nat)
      requires Valid()
      modifies this
      ensures Valid()
      ensures count == |set id | id in old(books) && old(books)[id].authorId == authorId|
      ensures Snapshot() == old(Snapshot()).(books := map id | id in old(books) && old(books)[id].authorId != authorId :: old(books)[id])
    {
      count := |set id | id in books && books[id].authorId == authorId|;
      books := map id | id in books && books[id].authorId != authorId :: books[id];
    }

    /** `DELETE FROM authors WHERE authors.id = ?`; returns `rowcount`. */
    method DeleteAuthorRow(id: int) returns (count: nat)
      requires Valid()
      modifies this
      ensures Valid()
      ensures count == if id in old(authors) then 1 else 0
      ensures Snapshot() == old(Snapshot()).(authors := old(authors) - {id})
    {
      count := if id in authors then 1 else 0;
      authors := authors - {id};
    }
  }
}
