/**
 * The library-lending tables of the books_alchemy variant: books, students, and the
 * `receiving_books` table of GivenBook records keyed by (book_id, student_id).
 * Timestamps are integer seconds; `now` is the store's clock, which only moves forward.
 */
module Lending {
  import opened Results
  import opened SqlLike

  const SecondsPerDay: int := 86400
  /** A loan still outstanding after this many days makes its student a debtor. */
  const DebtDays: int := 14

  datatype Book = Book(id: int, name: string, count: int, releaseDate: int, authorId: int)

  /** A student row; the float `average_score` column is not modelled. */
  datatype Student = Student(id: int, name: string, surname: string, phone: string, email: string, scholarship: bool)

  /** A lending record: Outstanding while `returned` is None, Returned afterwards. */
  datatype GivenBook = GivenBook(bookId: int, studentId: int, issued: int, returned: Option<int>) {
    predicate Outstanding() {
      returned.None?
    }
  }

  /** The composite primary key (book_id, student_id). */
  type Key = (int, int)

  function KeyOf(g: GivenBook): Key {
    (g.bookId, g.studentId)
  }

  /** The end of the holding period: the return time, or `now` while the book is out. */
  function HeldUntil(g: GivenBook, now: int): int {
    if g.returned.Some? then g.returned.value else now
  }

  /** `count_date_with_book`: the whole days (rounded down) the reader holds or held the book. */
  function DaysHeld(g: GivenBook, now: int): (days: int)
    ensures days * SecondsPerDay <= HeldUntil(g, now) - g.issued < days * SecondsPerDay + SecondsPerDay
  {
    (HeldUntil(g, now) - g.issued) / SecondsPerDay
  }

  lemma DaysHeldNonNegative(g: GivenBook, now: int)
    requires g.issued <= HeldUntil(g, now)
    ensures DaysHeld(g, now) >= 0
  {
  }

  /** A returned record's days-held no longer depends on the clock. */
  lemma DaysHeldFrozenOnceReturned(g: GivenBook, now: int, later: int)
    requires !g.Outstanding()
    ensures DaysHeld(g, now) == DaysHeld(g, later)
  {
  }

  /** The filter of `get_debtors`: still out, and issued strictly before now minus 14 days. */
  predicate Overdue(g: GivenBook, now: int) {
    g.Outstanding() && g.issued < now - DebtDays * SecondsPerDay
  }

  /** Being overdue and having held the book for 14 whole days agree up to the 14th day itself. */
  lemma OverdueAndDaysHeld(g: GivenBook, now: int)
    requires g.Outstanding()
    ensures Overdue(g, now) ==> DaysHeld(g, now) >= DebtDays
    ensures DaysHeld(g, now) > DebtDays ==> Overdue(g, now)
    ensures DaysHeld(g, now) < DebtDays ==> !Overdue(g, now)
  {
    var d := DaysHeld(g, now);
    assert d * SecondsPerDay <= now - g.issued < d * SecondsPerDay + SecondsPerDay;
    if Overdue(g, now) {
      assert now - g.issued > DebtDays * SecondsPerDay;
      assert d > DebtDays - 1;
    }
    if d > DebtDays {
      assert d * SecondsPerDay >= (DebtDays + 1) * SecondsPerDay;
    }
    if d < DebtDays {
      assert d * SecondsPerDay + SecondsPerDay <= DebtDays * SecondsPerDay;
    }
  }

  /** The 14-day boundary: 13 and exactly 14 days out are not overdue, 15 days out is. */
  lemma DebtBoundary(bookId: int, studentId: int, now: int)
    ensures !Overdue(GivenBook(bookId, studentId, now - 13 * SecondsPerDay, None), now)
    ensures !Overdue(GivenBook(bookId, studentId, now - 14 * SecondsPerDay, None), now)
    ensures Overdue(GivenBook(bookId, studentId, now - 15 * SecondsPerDay, None), now)
  {
  }

  /** The overdue records among `order`, in that order. */
  function OverdueRecords(order: seq<Key>, given: map<Key, GivenBook>, now: int): (r: seq<GivenBook>)
    requires forall k :: k in order ==> k in given
  {
    if order == [] then []
    else
      var last := given[order[|order| - 1]];
      assert forall k :: k in order[..|order| - 1] ==> k in order;
      OverdueRecords(order[..|order| - 1], given, now) + (if Overdue(last, now) then [last] else [])
  }

  /** A record is reported exactly when it is overdue and its key is among `order`. */
  lemma {:induction false} OverdueRecordsMembers(order: seq<Key>, given: map<Key, GivenBook>, now: int)
    requires forall k :: k in order ==> k in given
    ensures forall g :: g in OverdueRecords(order, given, now) <==> Overdue(g, now) && exists k :: k in order && given[k] == g
  {
    if order != [] {
      var init := order[..|order| - 1];
      assert forall k :: k in init ==> k in order;
      assert order == init + [order[|order| - 1]];
      OverdueRecordsMembers(init, given, now);
    }
  }

  /** The records of distinct keys are distinct, so no overdue record is reported twice. */
  lemma {:induction false} OverdueRecordsDistinct(order: seq<Key>, given: map<Key, GivenBook>, now: int)
    requires forall k :: k in order ==> k in given && KeyOf(given[k]) == k
    requires forall i, j :: 0 <= i < j < |order| ==> order[i] != order[j]
    ensures forall i, j :: 0 <= i < j < |OverdueRecords(order, given, now)| ==>
              OverdueRecords(order, given, now)[i] != OverdueRecords(order, given, now)[j]
  {
    if order != [] {
      var init := order[..|order| - 1];
      var lastKey := order[|order| - 1];
      assert forall k :: k in init ==> k in order;
      OverdueRecordsDistinct(init, given, now);
      var r0 := OverdueRecords(init, given, now);
      var last := given[lastKey];
      assert order[..|order| - 1] == init;
      var r := OverdueRecords(order, given, now);
      assert r == r0 + (if Overdue(last, now) then [last] else []);
      OverdueRecordsMembers(init, given, now);
      forall i, j | 0 <= i < j < |r| ensures r[i] != r[j] {
        assert r[i] == r0[i] && r0[i] in r0;
        if j >= |r0| {
          assert r[j] == last;
        } else {
          assert r[j] == r0[j];
        }
      }
    }
  }

  /** The student row of every record, in order; NotFound as soon as one is missing (`scalar_one`). */
  function StudentsOf(records: seq<GivenBook>, students: map<int, Student>): (r: Result<seq<Student>>)
    ensures r.Ok? <==> forall g :: g in records ==> g.studentId in students
    ensures r.Err? ==> r.error == NotFound
    ensures r.Ok? ==> |r.value| == |records|
    ensures r.Ok? ==> forall i :: 0 <= i < |records| ==> r.value[i] == students[records[i].studentId]
  {
    if records == [] then Ok([])
    else
      var init := records[..|records| - 1];
      var last := records[|records| - 1];
      assert records == init + [last];
      match StudentsOf(init, students)
      case Err(e) => Err(e)
      case Ok(s) => if last.studentId in students then Ok(s + [students[last.studentId]]) else Err(NotFound)
  }

  lemma OverdueRecordsSnoc(order: seq<Key>, k: Key, given: map<Key, GivenBook>, now: int)
    requires forall k' :: k' in order ==> k' in given
    requires k in given
    ensures forall k' :: k' in order + [k] ==> k' in given
    ensures OverdueRecords(order + [k], given, now)
            == OverdueRecords(order, given, now) + (if Overdue(given[k], now) then [given[k]] else [])
  {
    assert (order + [k])[..|order|] == order;
  }

  lemma StudentsOfSnoc(records: seq<GivenBook>, g: GivenBook, students: map<int, Student>, found: seq<Student>)
    requires StudentsOf(records, students) == Ok(found)
    requires g.studentId in students
    ensures StudentsOf(records + [g], students) == Ok(found + [students[g.studentId]])
  {
    assert (records + [g])[..|records|] == records;
  }

  /** One overdue record whose student row is missing makes the whole report fail. */
  lemma MissingStudentFails(order: seq<Key>, i: int, given: map<Key, GivenBook>, now: int, students: map<int, Student>)
    requires forall k :: k in order ==> k in given
    requires 0 <= i < |order|
    requires Overdue(given[order[i]], now) && given[order[i]].studentId !in students
    ensures StudentsOf(OverdueRecords(order, given, now), students) == Err(NotFound)
  {
    assert order[i] in order;
    OverdueRecordsMembers(order, given, now);
    assert given[order[i]] in OverdueRecords(order, given, now);
  }

  /** One more record of `order` read by the loop of `get_debtors`. */
  lemma DebtorsStep(order: seq<Key>, i: int, given: map<Key, GivenBook>, now: int, students: map<int, Student>, found: seq<Student>)
    requires forall k :: k in order ==> k in given
    requires 0 <= i < |order|
    requires StudentsOf(OverdueRecords(order[..i], given, now), students) == Ok(found)
    requires Overdue(given[order[i]], now) ==> given[order[i]].studentId in students
    ensures forall k :: k in order[..i + 1] ==> k in given
    ensures StudentsOf(OverdueRecords(order[..i + 1], given, now), students)
            == Ok(if Overdue(given[order[i]], now) then found + [students[given[order[i]].studentId]] else found)
  {
    var g := given[order[i]];
    var init := order[..i];
    assert forall k :: k in init ==> k in order;
    assert order[..i + 1] == init + [order[i]];
    OverdueRecordsSnoc(init, order[i], given, now);
    var before := OverdueRecords(init, given, now);
    if Overdue(g, now) {
      StudentsOfSnoc(before, g, students, found);
    } else {
      assert before + [] == before;
    }
  }

  /** A student with two overdue books is listed twice: `get_debtors` does not deduplicate. */
  lemma DebtorListedOncePerOverdueBook(s: Student, now: int)
    ensures var given := map[(1, s.id) := GivenBook(1, s.id, now - 15 * SecondsPerDay, None),
                             (2, s.id) := GivenBook(2, s.id, now - 20 * SecondsPerDay, None)];
            StudentsOf(OverdueRecords([(1, s.id), (2, s.id)], given, now), map[s.id := s]) == Ok([s, s])
  {
    var given := map[(1, s.id) := GivenBook(1, s.id, now - 15 * SecondsPerDay, None),
                     (2, s.id) := GivenBook(2, s.id, now - 20 * SecondsPerDay, None)];
    var order: seq<Key> := [(1, s.id), (2, s.id)];
    var g1 := GivenBook(1, s.id, now - 15 * SecondsPerDay, None);
    var g2 := GivenBook(2, s.id, now - 20 * SecondsPerDay, None);
    assert given[(1, s.id)] == g1 && given[(2, s.id)] == g2;
    var first: seq<Key> := [(1, s.id)];
    OverdueRecordsSnoc([], (1, s.id), given, now);
    assert [] + [(1, s.id)] == first;
    OverdueRecordsSnoc(first, (2, s.id), given, now);
    assert first + [(2, s.id)] == order;
    assert OverdueRecords(first, given, now) == [g1];
    assert OverdueRecords(order, given, now) == [g1, g2];
    var none: seq<GivenBook> := [];
    var roster := map[s.id := s];
    var nobody: seq<Student> := [];
    var one: seq<Student> := [s];
    var two: seq<Student> := [s, s];
    assert StudentsOf(none, roster) == Ok(nobody);
    StudentsOfSnoc(none, g1, roster, nobody);
    assert none + [g1] == [g1] && nobody + [s] == one;
    StudentsOfSnoc([g1], g2, roster, one);
    assert [g1] + [g2] == [g1, g2] && one + [s] == two;
  }

  /** The records of `given` obey the table's key and the clock: issued and returned no later than now. */
  predicate Consistent(given: map<Key, GivenBook>, issueOrder: seq<Key>, now: int) {
    && (forall k :: k in given ==> KeyOf(given[k]) == k)
    && (forall k :: k in given ==> given[k].issued <= HeldUntil(given[k], now) <= now)
    && (forall k :: k in given ==> k in issueOrder)
    && (forall k :: k in issueOrder ==> k in given)
    && (forall i, j :: 0 <= i < j < |issueOrder| ==> issueOrder[i] != issueOrder[j])
  }

  /** In a consistent table every record's days-held is non-negative. */
  lemma ConsistentDaysHeldNonNegative(given: map<Key, GivenBook>, issueOrder: seq<Key>, now: int, k: Key)
    requires Consistent(given, issueOrder, now)
    requires k in given
    ensures DaysHeld(given[k], now) >= 0
  {
    DaysHeldNonNegative(given[k], now);
  }

  /** The books whose name matches an ILIKE pattern, in table order. */
  function MatchingName(rows: seq<Book>, pattern: string): (r: seq<Book>)
    ensures forall b :: b in r <==> b in rows && Like(b.name, pattern)
    ensures |r| <= |rows|
  {
    if rows == [] then []
    else (if Like(rows[0].name, pattern) then [rows[0]] else []) + MatchingName(rows[1..], pattern)
  }

  /** The books whose name contains `n`, ignoring ASCII case, in table order. */
  function ContainingName(rows: seq<Book>, n: string): (r: seq<Book>)
    ensures forall b :: b in r <==> b in rows && ContainsIgnoringCase(b.name, n)
    ensures |r| <= |rows|
  {
    if rows == [] then []
    else (if ContainsIgnoringCase(rows[0].name, n) then [rows[0]] else []) + ContainingName(rows[1..], n)
  }

  /** When the term has no wildcard the two searches give the same rows in the same order. */
  lemma {:induction false} SearchAgreesWithoutWildcards(rows: seq<Book>, n: string)
    requires NoWildcards(n)
    ensures MatchingName(rows, "%" + n + "%") == ContainingName(rows, n)
  {
    if rows != [] {
      SubstringPattern(rows[0].name, n);
      SearchAgreesWithoutWildcards(rows[1..], n);
    }
  }

  /** The as-written search for "_" returns every book with a non-empty name and no underscore. */
  lemma UnderscoreSearchReturnsEveryBook(b: Book)
    requires b.name != [] && '_' !in b.name
    ensures MatchingName([b], "%" + "_" + "%") == [b]
    ensures ContainingName([b], "_") == []
  {
    UnderscoreMatchesAnyCharacter(b.name);
  }

  /** The books of one author with at least one copy left, in table order. */
  function InStockBy(rows: seq<Book>, authorId: int): (r: seq<Book>)
    ensures forall b :: b in r <==> b in rows && b.authorId == authorId && b.count > 0
    ensures |r| <= |rows|
  {
    if rows == [] then []
    else (if rows[0].authorId == authorId && rows[0].count > 0 then [rows[0]] else []) + InStockBy(rows[1..], authorId)
  }

  class Library {
    /** The books table in rowid order; the lending core only reads it. */
    var books: seq<Book>
    var students: map<int, Student>
    var given: map<Key, GivenBook>
    /** The keys of `given` in the order the records were inserted (rowid order). */
    var issueOrder: seq<Key>
    var now: int

    ghost predicate Valid()
      reads this
    {
      && (forall i, j :: 0 <= i < j < |books| ==> books[i].id != books[j].id)
      && (forall id :: id in students ==> students[id].id == id)
      && Consistent(given, issueOrder, now)
    }

    /** A library with the given books and students and no lending records yet. */
    constructor (books: seq<Book>, students: map<int, Student>, now: int)
      requires forall i, j :: 0 <= i < j < |books| ==> books[i].id != books[j].id
      requires forall id :: id in students ==> students[id].id == id
      ensures Valid()
      ensures this.books == books && this.students == students && this.now == now
      ensures given == map[] && issueOrder == []
    {
      this.books := books;
      this.students := students;
      this.now := now;
      given := map[];
      issueOrder := [];
    }

    /** The clock moves forward by `seconds`; no table changes. */
    method Tick(seconds: nat)
      requires Valid()
      modifies this
      ensures Valid()
      ensures now == old(now) + seconds
      ensures books == old(books) && students == old(students)
      ensures given == old(given) && issueOrder == old(issueOrder)
    {
      now := now + seconds;
    }

    /** `get_books_by_name`: `name ILIKE '%' || n || '%'`, with `n` pasted into the pattern unescaped. */
    function BooksByName(n: string): (r: seq<Book>)
      reads this
      ensures forall b :: b in r <==> b in books && Like(b.name, "%" + n + "%")
    {
      MatchingName(books, "%" + n + "%")
    }

    /** The search the name promises: `n` taken literally as a case-insensitive substring. */
    function BooksByNameLiteral(n: string): (r: seq<Book>)
      reads this
      ensures forall b :: b in r <==> b in books && ContainsIgnoringCase(b.name, n)
      ensures NoWildcards(n) ==> r == BooksByName(n)
    {
      if NoWildcards(n) then SearchAgreesWithoutWildcards(books, n); ContainingName(books, n)
      else ContainingName(books, n)
    }

    /** `get_remaining_authors_books`: the author's books with `count > 0`. */
    function RemainingAuthorsBooks(authorId: int): (r: seq<Book>)
      reads this
      ensures forall b :: b in r <==> b in books && b.authorId == authorId && b.count > 0
    {
      InStockBy(books, authorId)
    }

    /** `get_debtors`: the student of every overdue record, in record order, duplicates kept. */
    method Debtors() returns (r: Result<seq<Student>>)
      requires Valid()
      ensures r == StudentsOf(OverdueRecords(issueOrder, given, now), students)
    {
      var found: seq<Student> := [];
      var i := 0;
      while i < |issueOrder|
        invariant 0 <= i <= |issueOrder|
        invariant forall k :: k in issueOrder[..i] ==> k in given
        invariant StudentsOf(OverdueRecords(issueOrder[..i], given, now), students) == Ok(found)
      {
        var g := given[issueOrder[i]];
        if g.returned.None? && g.issued < now - DebtDays * SecondsPerDay {
          if g.studentId !in students {
            MissingStudentFails(issueOrder, i, given, now, students);
            return Err(NotFound);
          }
          DebtorsStep(issueOrder, i, given, now, students, found);
          found := found + [students[g.studentId]];
        } else {
          DebtorsStep(issueOrder, i, given, now, students, found);
        }
        i := i + 1;
      }
      assert issueOrder[..i] == issueOrder;
      r := Ok(found);
    }

    /** `give_book`: insert an Outstanding record issued now; a taken key raises and changes nothing. */
    method GiveBook(studentId: int, bookId: int) returns (r: Result<GivenBook>)
      requires Valid()
      modifies this
      ensures Valid()
      ensures (bookId, studentId) in old(given) ==> r == Err(DuplicateKey) && given == old(given) && issueOrder == old(issueOrder)
      ensures (bookId, studentId) !in old(given) ==>
                && r == Ok(GivenBook(bookId, studentId, now, None))
                && given == old(given)[(bookId, studentId) := r.value]
                && issueOrder == old(issueOrder) + [(bookId, studentId)]
      ensures forall k :: k in old(given) ==> k in given && given[k] == old(given)[k]
      ensures books == old(books) && students == old(students) && now == old(now)
    {
      var key := (bookId, studentId);
      if key in given {
        return Err(DuplicateKey);
      }
      var gb := GivenBook(bookId, studentId, now, None);
      given := given[key := gb];
      issueOrder := issueOrder + [key];
      r := Ok(gb);
    }

    /** `return_book`: stamp the pair's Outstanding record with now; NotFound (and no change) if there is none. */
    method ReturnBook(studentId: int, bookId: int) returns (r: Result<()>)
      requires Valid()
      modifies this
      ensures Valid()
      ensures var key := (bookId, studentId);
              if key in old(given) && old(given)[key].Outstanding() then
                r == Ok(()) && given == old(given)[key := old(given)[key].(returned := Some(now))]
              else
                r == Err(NotFound) && given == old(given)
      ensures forall k :: k in old(given) && !old(given)[k].Outstanding() ==> given[k] == old(given)[k]
      ensures forall k :: k in given ==> k in old(given) && (given[k].Outstanding() ==> old(given)[k].Outstanding())
      ensures issueOrder == old(issueOrder)
      ensures books == old(books) && students == old(students) && now == old(now)
    {
      var key := (bookId, studentId);
      if key !in given || !given[key].Outstanding() {
        return Err(NotFound);
      }
      given := given[key := given[key].(returned := Some(now))];
      r := Ok(());
    }
  }
}
