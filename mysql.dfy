/**
 * The MySQL variant of the store, modules/_database.py: the `users`, `books` and `user_books`
 * tables, the guarded table creation, inserts that swallow a duplicate entry, the title
 * searches (one of them ranked), the point lookups and the full-row update.
 *
 * `LIKE '%keyword%'` under the server's default case-insensitive collation is modelled as a
 * case-insensitive substring test; `%` and `_` inside the keyword are taken literally. Rows
 * come back in the order the server scans the table, which the model keeps as a sequence.
 */
module MySql {
  import opened Wrappers
  import opened Values
  import opened Text

  const USERS := "users"
  const BOOKS := "books"
  const USER_BOOKS := "user_books"

  // Error numbers of the MySQL server that the operations here can meet.
  const ER_TABLE_EXISTS_ERROR := 1050
  const ER_BAD_NULL_ERROR := 1048
  const ER_DUP_ENTRY := 1062
  const ER_NO_SUCH_TABLE := 1146
  const ER_NO_REFERENCED_ROW := 1452

  /** A row of `books`: `title` is `NOT NULL`, every other column may be `NULL`. */
  datatype BookRow = BookRow(
    id: string, title: string, publishedDate: Value, authors: Value, page: Value,
    printType: Value, description: Value, identifier: Value)

  /** A row of `user_books`; the pair is the primary key. */
  datatype UserBook = UserBook(userId: string, bookId: string)

  /** The schema (which tables exist) and the rows of the three tables, in scan order. */
  datatype Tables = Tables(names: set<string>, users: seq<string>, books: seq<BookRow>, userBooks: seq<UserBook>)

  const EMPTY := Tables({}, [], [], [])

  predicate Distinct<T(==)>(s: seq<T>)
  {
    forall i, j :: 0 <= i < j < |s| ==> s[i] != s[j]
  }

  predicate HasBook(t: Tables, id: string)
  {
    exists i :: 0 <= i < |t.books| && t.books[i].id == id
  }

  /**
   * What the schema enforces: primary keys are unique, every `user_books` row refers to an
   * existing user and book, and a table that does not exist holds no rows.
   */
  /** No two `books` rows share an id (the primary key). */
  predicate UniqueBookIds(books: seq<BookRow>)
  {
    forall i, j :: 0 <= i < j < |books| ==> books[i].id != books[j].id
  }

  ghost predicate Valid(t: Tables)
  {
    && Distinct(t.users)
    && UniqueBookIds(t.books)
    && Distinct(t.userBooks)
    && (forall e :: e in t.userBooks ==> e.userId in t.users && HasBook(t, e.bookId))
    && (USERS !in t.names ==> t.users == [])
    && (BOOKS !in t.names ==> t.books == [])
    && (USER_BOOKS !in t.names ==> t.userBooks == [])
  }

  // ---- the schema ----

  /** `include_tables`: every requested name is among the existing tables. */
  function IncludeTables(t: Tables, tableNames: seq<string>): (b: bool)
    ensures b <==> (set n | n in tableNames) <= t.names
  {
    forall i :: 0 <= i < |tableNames| ==> tableNames[i] in t.names
  }

  /** The tables after a run of DDL, and the error number it raised, if any. */
  datatype Ddl = Ddl(tables: Tables, error: Option<int>)

  /** `CREATE TABLE` without `IF NOT EXISTS`: refused when the table exists. */
  function CreateTable(t: Tables, name: string): Result<Tables, int>
  {
    if name in t.names then Err(ER_TABLE_EXISTS_ERROR) else Ok(t.(names := t.names + {name}))
  }

  /**
   * The three `CREATE TABLE` statements in order. Each one commits on its own, so the tables
   * created before a failing statement stay.
   */
  function CreateAll(t: Tables): (r: Ddl)
    ensures r.tables.users == t.users && r.tables.books == t.books && r.tables.userBooks == t.userBooks
    ensures t.names <= r.tables.names
    ensures r.error == None ==> {USERS, BOOKS, USER_BOOKS} <= r.tables.names
    ensures r.error.Some? ==> r.error == Some(ER_TABLE_EXISTS_ERROR)
  {
    match CreateTable(t, USERS)
    case Err(e) => Ddl(t, Some(e))
    case Ok(t1) =>
      match CreateTable(t1, BOOKS)
      case Err(e) => Ddl(t1, Some(e))
      case Ok(t2) =>
        match CreateTable(t2, USER_BOOKS)
        case Err(e) => Ddl(t2, Some(e))
        case Ok(t3) => Ddl(t3, None)
  }

  /** `create_tables` as written: the guard asks for a table named `users_books`. */
  function CreateTablesAsWritten(t: Tables): (r: Ddl)
    ensures r.tables.users == t.users && r.tables.books == t.books && r.tables.userBooks == t.userBooks
    ensures r.error.Some? ==> r.error == Some(ER_TABLE_EXISTS_ERROR)
    ensures r.error == None ==> {USERS, BOOKS} <= r.tables.names && (USER_BOOKS in r.tables.names || "users_books" in t.names)
  {
    if IncludeTables(t, [USERS, BOOKS, "users_books"]) then Ddl(t, None) else CreateAll(t)
  }

  /** `create_tables` with the guard naming the table it creates. */
  function CreateTables(t: Tables): (r: Ddl)
    ensures r.tables.users == t.users && r.tables.books == t.books && r.tables.userBooks == t.userBooks
    ensures r.error.Some? ==> r.error == Some(ER_TABLE_EXISTS_ERROR)
    ensures r.error == None ==> {USERS, BOOKS, USER_BOOKS} <= r.tables.names
  {
    if IncludeTables(t, [USERS, BOOKS, USER_BOOKS]) then Ddl(t, None) else CreateAll(t)
  }

  /**
   * As written, a database holding exactly the three tables `create_tables` creates fails the
   * guard, and the first `CREATE TABLE users` then raises "table exists".
   */
  lemma CreateTablesAsWrittenRaisesOnCreatedSchema(t: Tables)
    requires t.names == {USERS, BOOKS, USER_BOOKS}
    ensures CreateTablesAsWritten(t) == Ddl(t, Some(ER_TABLE_EXISTS_ERROR))
  {
    assert "users_books" !in t.names;
  }

  /** As written, the second call on a fresh database raises. */
  lemma CreateTablesAsWrittenSecondCall()
    ensures CreateTablesAsWritten(EMPTY).error == None
    ensures CreateTablesAsWritten(CreateTablesAsWritten(EMPTY).tables).error == Some(ER_TABLE_EXISTS_ERROR)
  {
    assert !IncludeTables(EMPTY, [USERS, BOOKS, "users_books"]) by {
      assert [USERS, BOOKS, "users_books"][0] !in EMPTY.names;
    }
    assert BOOKS != USERS by { assert BOOKS[0] != USERS[0]; }
    assert USER_BOOKS != USERS && USER_BOOKS != BOOKS by {
      assert |USER_BOOKS| != |USERS| && |USER_BOOKS| != |BOOKS|;
    }
    var t1 := EMPTY.(names := EMPTY.names + {USERS});
    var t2 := t1.(names := t1.names + {BOOKS});
    var t3 := t2.(names := t2.names + {USER_BOOKS});
    assert t3.names == {USERS, BOOKS, USER_BOOKS};
    assert CreateTable(EMPTY, USERS) == Ok(t1);
    assert CreateTable(t1, BOOKS) == Ok(t2);
    assert CreateTable(t2, USER_BOOKS) == Ok(t3);
    assert CreateTablesAsWritten(EMPTY) == Ddl(t3, None);
    CreateTablesAsWrittenRaisesOnCreatedSchema(t3);
  }

  /**
   * `create_tables` either leaves a complete schema alone or creates the missing tables; when it
   * succeeds all three exist and no row is touched.
   */
  lemma CreateTablesEffect(t: Tables)
    ensures var r := CreateTables(t);
      && r.tables.users == t.users && r.tables.books == t.books && r.tables.userBooks == t.userBooks
      && t.names <= r.tables.names
      && (r.error == None ==> {USERS, BOOKS, USER_BOOKS} <= r.tables.names)
      && (r.error != None ==> r.error == Some(ER_TABLE_EXISTS_ERROR))
      && ({USERS, BOOKS, USER_BOOKS} <= t.names ==> r == Ddl(t, None))
  {
    if !IncludeTables(t, [USERS, BOOKS, USER_BOOKS]) {
      assert !({USERS, BOOKS, USER_BOOKS} <= t.names) by {
        assert (set n | n in [USERS, BOOKS, USER_BOOKS]) == {USERS, BOOKS, USER_BOOKS};
      }
    }
  }

  /** Calling `create_tables` again after it succeeded changes nothing and raises nothing. */
  lemma CreateTablesIdempotent(t: Tables)
    requires CreateTables(t).error == None
    ensures CreateTables(CreateTables(t).tables) == Ddl(CreateTables(t).tables, None)
  {
    CreateTablesEffect(t);
    CreateTablesEffect(CreateTables(t).tables);
  }

  // ---- inserts ----

  /** The three `INSERT` statements of `insert_user`, `insert_book` and `insert_user_book`. */
  datatype Insertion =
    | NewUser(userId: string)
    | NewBook(bookId: string, title: Value)
    | NewUserBook(userId: string, bookId: string)

  /** The text MySQL stores for a parameter bound to a `TEXT` column. */
  function AsText(v: Value): string
    requires v != Null
  {
    match v
    case Str(s) => s
    case Int(i) => IntToString(i)
  }

  /** The outcome of executing one `INSERT`: the new tables, or the server's error number. */
  function Execute(t: Tables, ins: Insertion): (r: Result<Tables, int>)
    ensures r.Ok? ==>
      && r.value.names == t.names
      && |r.value.users| + |r.value.books| + |r.value.userBooks| == |t.users| + |t.books| + |t.userBooks| + 1
    ensures r.Err? ==> r.error in {ER_NO_SUCH_TABLE, ER_BAD_NULL_ERROR, ER_DUP_ENTRY, ER_NO_REFERENCED_ROW}
    ensures r == Err(ER_DUP_ENTRY) <==>
      match ins
      case NewUser(u) => USERS in t.names && u in t.users
      case NewBook(b, title) => BOOKS in t.names && title != Null && HasBook(t, b)
      case NewUserBook(u, b) => USER_BOOKS in t.names && UserBook(u, b) in t.userBooks
    ensures r.Ok? ==>
      match ins
      case NewUser(u) => r.value == t.(users := t.users + [u])
      case NewBook(b, title) =>
        title != Null && r.value == t.(books := t.books + [BookRow(b, AsText(title), Null, Null, Null, Null, Null, Null)])
      case NewUserBook(u, b) => r.value == t.(userBooks := t.userBooks + [UserBook(u, b)])
  {
    match ins
    case NewUser(u) =>
      if USERS !in t.names then Err(ER_NO_SUCH_TABLE)
      else if u in t.users then Err(ER_DUP_ENTRY)
      else Ok(t.(users := t.users + [u]))
    case NewBook(b, title) =>
      if BOOKS !in t.names then Err(ER_NO_SUCH_TABLE)
      else if title == Null then Err(ER_BAD_NULL_ERROR)
      else if HasBook(t, b) then Err(ER_DUP_ENTRY)
      else Ok(t.(books := t.books + [BookRow(b, AsText(title), Null, Null, Null, Null, Null, Null)]))
    case NewUserBook(u, b) =>
      if USER_BOOKS !in t.names then Err(ER_NO_SUCH_TABLE)
      else if UserBook(u, b) in t.userBooks then Err(ER_DUP_ENTRY)
      else if u !in t.users || !HasBook(t, b) then Err(ER_NO_REFERENCED_ROW)
      else Ok(t.(userBooks := t.userBooks + [UserBook(u, b)]))
  }

  /** The tables after `insert`, and the error number it printed, if any. */
  datatype Inserted = Inserted(tables: Tables, reported: Option<int>)

  /** `insert`: a duplicate entry is silently skipped, any other error is printed, never raised. */
  function InsertResult(t: Tables, ins: Insertion): (r: Inserted)
    ensures r.reported != Some(ER_DUP_ENTRY)
    ensures r.reported.Some? ==> r.tables == t
    ensures r.tables == t || Execute(t, ins) == Ok(r.tables)
    ensures Execute(t, ins).Ok? ==> r == Inserted(Execute(t, ins).value, None)
  {
    match Execute(t, ins)
    case Ok(t2) => Inserted(t2, None)
    case Err(e) => Inserted(t, if e == ER_DUP_ENTRY then None else Some(e))
  }

  /**
   * Only an error other than a duplicate entry is reported; a failed insert changes nothing;
   * a successful one appends exactly the new row.
   */
  lemma InsertSwallowsOnlyDuplicates(t: Tables, ins: Insertion)
    ensures var r := InsertResult(t, ins);
      && (r.reported.Some? <==> Execute(t, ins).Err? && Execute(t, ins).error != ER_DUP_ENTRY)
      && (r.reported.Some? ==> r.reported.value != ER_DUP_ENTRY)
      && (Execute(t, ins).Err? ==> r.tables == t)
      && (r.tables != t ==> |r.tables.users| + |r.tables.books| + |r.tables.userBooks| ==
                            |t.users| + |t.books| + |t.userBooks| + 1)
  {
  }

  /** Inserting the same row twice has the effect of inserting it once. */
  lemma InsertIdempotent(t: Tables, ins: Insertion)
    ensures InsertResult(InsertResult(t, ins).tables, ins).tables == InsertResult(t, ins).tables
  {
    var t1 := InsertResult(t, ins).tables;
    match ins
    case NewBook(b, title) =>
      if Execute(t, ins).Ok? {
        assert t1.books[|t.books|].id == b;
      }
    case NewUser(_) =>
    case NewUserBook(_, _) =>
  }

  /** The schema's constraints hold after every insert. */
  lemma InsertKeepsValid(t: Tables, ins: Insertion)
    requires Valid(t)
    ensures Valid(InsertResult(t, ins).tables)
  {
    var r := InsertResult(t, ins).tables;
    if Execute(t, ins).Ok? {
      match ins
      case NewUser(u) =>
        forall i, j | 0 <= i < j < |r.users| ensures r.users[i] != r.users[j] {
          if j == |t.users| {
            assert r.users[i] == t.users[i];
          }
        }
      case NewBook(b, title) =>
        forall e | e in r.userBooks ensures HasBook(r, e.bookId) {
          var i :| 0 <= i < |t.books| && t.books[i].id == e.bookId;
          assert r.books[i].id == e.bookId;
        }
        forall i, j | 0 <= i < j < |r.books| ensures r.books[i].id != r.books[j].id {
          if j == |t.books| {
            assert r.books[i] == t.books[i];
          }
        }
      case NewUserBook(u, b) =>
        forall i, j | 0 <= i < j < |r.userBooks| ensures r.userBooks[i] != r.userBooks[j] {
          if j == |t.userBooks| {
            assert r.userBooks[i] == t.userBooks[i];
          }
        }
    }
  }

  // ---- title searches ----

  /** `title LIKE '%keyword%'`. */
  predicate TitleLike(title: string, keyword: string)
  {
    ContainsIgnoreCase(title, keyword)
  }

  datatype IdTitle = IdTitle(id: string, title: string)

  /** The first row of `books` whose title matches, in scan order. */
  function FirstTitleMatch(books: seq<BookRow>, keyword: string): (r: Option<IdTitle>)
    ensures r.None? <==> forall i :: 0 <= i < |books| ==> !TitleLike(books[i].title, keyword)
    ensures r.Some? ==> exists i :: 0 <= i < |books| && r.value == IdTitle(books[i].id, books[i].title)
                          && TitleLike(books[i].title, keyword)
                          && forall j :: 0 <= j < i ==> !TitleLike(books[j].title, keyword)
    decreases |books|
  {
    if books == [] then None
    else if TitleLike(books[0].title, keyword) then Some(IdTitle(books[0].id, books[0].title))
    else
      var r := FirstTitleMatch(books[1..], keyword);
      assert forall i :: 1 <= i < |books| ==> books[i] == books[1..][i - 1];
      r
  }

  /** `search_book_from_title`: the first matching `(id, title)`, or `None`. */
  function SearchBookFromTitle(t: Tables, keyword: string): (r: Result<Option<IdTitle>, int>)
    ensures r.Err? <==> BOOKS !in t.names
    ensures r.Ok? ==> r.value == FirstTitleMatch(t.books, keyword)
  {
    if BOOKS !in t.names then Err(ER_NO_SUCH_TABLE) else Ok(FirstTitleMatch(t.books, keyword))
  }

  /** `COUNT(user_books.book_id)` for one book: how many users stored it. */
  function EdgeCount(edges: seq<UserBook>, bookId: string): (n: nat)
    ensures n <= |edges|
    ensures n > 0 <==> exists e :: e in edges && e.bookId == bookId
    decreases |edges|
  {
    if edges == [] then 0
    else
      var rest := EdgeCount(edges[1..], bookId);
      assert forall e :: e in edges <==> e == edges[0] || e in edges[1..];
      (if edges[0].bookId == bookId then 1 else 0) + rest
  }

  /** One group of the inner join: a book, its title and its edge count. */
  datatype Hit = Hit(id: string, title: string, count: nat)

  /**
   * The groups of `books INNER JOIN user_books ... WHERE title LIKE ... GROUP BY id`, in scan
   * order: the matching books that have at least one edge.
   */
  function Hits(books: seq<BookRow>, edges: seq<UserBook>, keyword: string): (hs: seq<Hit>)
    ensures forall h :: h in hs <==>
      exists i :: 0 <= i < |books| && TitleLike(books[i].title, keyword) && EdgeCount(edges, books[i].id) > 0
        && h == Hit(books[i].id, books[i].title, EdgeCount(edges, books[i].id))
    ensures forall h :: h in hs ==> h.count > 0
    decreases |books|
  {
    if books == [] then []
    else
      var b := books[0];
      var rest := Hits(books[1..], edges, keyword);
      assert forall i :: 1 <= i < |books| ==> books[i] == books[1..][i - 1];
      assert forall i :: 0 <= i < |books| ==> i == 0 || books[i] == books[1..][i - 1];
      (if TitleLike(b.title, keyword) && EdgeCount(edges, b.id) > 0 then [Hit(b.id, b.title, EdgeCount(edges, b.id))] else [])
        + rest
  }

  /** `ORDER BY CHAR_LENGTH(title) ASC, COUNT(...) DESC`: `a` may come before `b`. */
  predicate RanksBefore(a: Hit, b: Hit)
  {
    |a.title| < |b.title| || (|a.title| == |b.title| && a.count >= b.count)
  }

  predicate Ranked(s: seq<Hit>)
  {
    forall i, j :: 0 <= i < j < |s| ==> RanksBefore(s[i], s[j])
  }

  /** Insert into a ranked list before the first hit that `h` may precede. */
  function InsertHit(h: Hit, s: seq<Hit>): (r: seq<Hit>)
    ensures multiset(r) == multiset(s) + multiset{h}
    decreases |s|
  {
    if s == [] || RanksBefore(h, s[0]) then [h] + s
    else
      assert s == [s[0]] + s[1..];
      [s[0]] + InsertHit(h, s[1..])
  }

  lemma {:induction false} InsertHitRanked(h: Hit, s: seq<Hit>)
    requires Ranked(s)
    ensures Ranked(InsertHit(h, s))
    decreases |s|
  {
    if s != [] && !RanksBefore(h, s[0]) {
      InsertHitRanked(h, s[1..]);
      var t := InsertHit(h, s[1..]);
      var r := [s[0]] + t;
      forall i, j | 0 <= i < j < |r| ensures RanksBefore(r[i], r[j]) {
        if i == 0 {
          assert r[j] in multiset(t);
          assert r[j] == h || r[j] in s[1..];
        } else {
          assert r[i] == t[i - 1] && r[j] == t[j - 1];
        }
      }
    }
  }

  /** The ordering the query asks of the server; ties keep scan order. */
  function SortHits(s: seq<Hit>): (r: seq<Hit>)
    ensures multiset(r) == multiset(s)
    decreases |s|
  {
    if s == [] then []
    else
      var rest := SortHits(s[1..]);
      assert s == [s[0]] + s[1..];
      InsertHit(s[0], rest)
  }

  lemma {:induction false} SortHitsRanked(s: seq<Hit>)
    ensures Ranked(SortHits(s))
    decreases |s|
  {
    if s != [] {
      SortHitsRanked(s[1..]);
      InsertHitRanked(s[0], SortHits(s[1..]));
    }
  }

  const SEARCH_LIMIT := 5

  /** `search_books_from_title`: the first five ranked groups, or `None` when there is none. */
  function SearchBooksFromTitle(t: Tables, keyword: string): (r: Result<Option<seq<Hit>>, int>)
    ensures r.Err? <==> BOOKS !in t.names || USER_BOOKS !in t.names
    ensures r.Err? ==> r.error == ER_NO_SUCH_TABLE
    ensures r.Ok? && r.value.Some? ==> 0 < |r.value.value| <= SEARCH_LIMIT
  {
    if BOOKS !in t.names || USER_BOOKS !in t.names then Err(ER_NO_SUCH_TABLE)
    else
      var top := Take(SortHits(Hits(t.books, t.userBooks, keyword)), SEARCH_LIMIT);
      Ok(if top == [] then None else Some(top))
  }

  /** `LIMIT n`. */
  function Take(s: seq<Hit>, n: nat): (r: seq<Hit>)
    ensures |r| <= n
  {
    if |s| <= n then s else s[..n]
  }

  /** The first `n` of a ranked list are ranked, and they are `n` of its hits or all of them. */
  lemma TakeOfRanked(sorted: seq<Hit>, n: nat)
    requires Ranked(sorted)
    ensures |Take(sorted, n)| == (if |sorted| < n then |sorted| else n)
    ensures multiset(Take(sorted, n)) <= multiset(sorted)
    ensures Ranked(Take(sorted, n))
  {
    if |sorted| > n {
      assert sorted == sorted[..n] + sorted[n..];
    }
  }

  /** The first `n` of a ranked list: no hit left out ranks before a hit kept. */
  lemma TopOfRanked(sorted: seq<Hit>, n: nat)
    requires Ranked(sorted)
    ensures forall x, y :: x in Take(sorted, n) && y in multiset(sorted) - multiset(Take(sorted, n)) ==> RanksBefore(x, y)
  {
    forall x, y | x in Take(sorted, n) && y in multiset(sorted) - multiset(Take(sorted, n))
      ensures RanksBefore(x, y)
    {
      DroppedAfterCut(sorted, n, y);
      var i :| 0 <= i < |Take(sorted, n)| && Take(sorted, n)[i] == x;
      var j :| n <= j < |sorted| && sorted[j] == y;
      assert sorted[i] == x;
    }
  }

  /** What `LIMIT n` drops lies past the first `n`. */
  lemma DroppedAfterCut(s: seq<Hit>, n: nat, y: Hit)
    requires y in multiset(s) - multiset(Take(s, n))
    ensures exists j :: n <= j < |s| && s[j] == y
  {
    var rest := if |s| <= n then [] else s[n..];
    assert s == Take(s, n) + rest;
    assert multiset(s) - multiset(Take(s, n)) == multiset(rest);
    assert y in rest;
    var k :| 0 <= k < |rest| && rest[k] == y;
    assert s[n + k] == y;
  }

  /**
   * The ranked search returns the best five of the matching books that some user stored: every
   * row is such a book with its edge count, the rows are ordered by title length and then by
   * count, no book left out ranks before a book returned, and there are five rows unless fewer
   * books qualify. It returns `None` exactly when no book qualifies.
   */
  lemma SearchBooksFromTitleTop(t: Tables, keyword: string)
    requires BOOKS in t.names && USER_BOOKS in t.names
    ensures var hits := Hits(t.books, t.userBooks, keyword);
      match SearchBooksFromTitle(t, keyword)
      case Err(_) => false
      case Ok(None) => hits == []
      case Ok(Some(rows)) =>
        && rows != []
        && |rows| == (if |hits| < SEARCH_LIMIT then |hits| else SEARCH_LIMIT)
        && multiset(rows) <= multiset(hits)
        && Ranked(rows)
        && (forall h :: h in rows ==> h.count > 0)
        && (forall x, y :: x in rows && y in multiset(hits) - multiset(rows) ==> RanksBefore(x, y))
  {
    var hits := Hits(t.books, t.userBooks, keyword);
    var sorted := SortHits(hits);
    SortHitsRanked(hits);
    TopOfRanked(sorted, SEARCH_LIMIT);
    TakeOfRanked(sorted, SEARCH_LIMIT);
    assert |sorted| == |hits| by {
      assert |multiset(sorted)| == |multiset(hits)|;
    }
    var top := Take(sorted, SEARCH_LIMIT);
    assert SearchBooksFromTitle(t, keyword) == Ok(if top == [] then None else Some(top));
    forall h | h in top ensures h in hits {
      assert h in multiset(sorted);
    }
    if sorted == [] {
      assert multiset(hits) == multiset{};
    }
  }

  /** The first group with the largest edge count (`ORDER BY COUNT(...) DESC LIMIT 1`). */
  function MostStored(hits: seq<Hit>): (r: Option<Hit>)
    ensures r.None? <==> hits == []
    ensures r.Some? ==> r.value in hits && forall h :: h in hits ==> h.count <= r.value.count
    decreases |hits|
  {
    if hits == [] then None
    else
      match MostStored(hits[1..])
      case None => Some(hits[0])
      case Some(best) =>
        assert forall h :: h in hits ==> h == hits[0] || h in hits[1..];
        if best.count > hits[0].count then Some(best) else Some(hits[0])
  }

  /**
   * `get_book_id`: the id of the matching book most users stored, or `None` when no matching
   * book has an edge; an error of the query (a missing table) is printed and also gives `None`.
   */
  function GetBookId(t: Tables, title: string): (r: Option<string>)
    ensures r.Some? <==> BOOKS in t.names && USER_BOOKS in t.names && Hits(t.books, t.userBooks, title) != []
    ensures r.Some? ==>
      && (exists i :: 0 <= i < |t.books| && t.books[i].id == r.value && TitleLike(t.books[i].title, title))
      && EdgeCount(t.userBooks, r.value) > 0
      && forall j :: 0 <= j < |t.books| && TitleLike(t.books[j].title, title) ==>
           EdgeCount(t.userBooks, t.books[j].id) <= EdgeCount(t.userBooks, r.value)
  {
    if BOOKS !in t.names || USER_BOOKS !in t.names then None
    else
      var hits := Hits(t.books, t.userBooks, title);
      match MostStored(hits)
      case None => None
      case Some(best) =>
        forall j | 0 <= j < |t.books| && TitleLike(t.books[j].title, title)
          ensures EdgeCount(t.userBooks, t.books[j].id) <= best.count
        {
          if EdgeCount(t.userBooks, t.books[j].id) > 0 {
            assert Hit(t.books[j].id, t.books[j].title, EdgeCount(t.userBooks, t.books[j].id)) in hits;
          }
        }
        Some(best.id)
  }

  // ---- point lookups ----

  /** The first row with that id, in scan order. */
  function FindBook(books: seq<BookRow>, bookId: string): (r: Option<BookRow>)
    ensures r.None? <==> forall i :: 0 <= i < |books| ==> books[i].id != bookId
    ensures r.Some? ==> r.value in books && r.value.id == bookId
    decreases |books|
  {
    if books == [] then None
    else if books[0].id == bookId then Some(books[0])
    else
      assert forall i :: 1 <= i < |books| ==> books[i] == books[1..][i - 1];
      FindBook(books[1..], bookId)
  }

  /** `get_book_row`: the row with that id, or `None`. */
  function GetBookRow(t: Tables, bookId: string): (r: Result<Option<BookRow>, int>)
    ensures r.Err? <==> BOOKS !in t.names
    ensures r.Ok? ==> (r.value.Some? <==> HasBook(t, bookId))
    ensures r.Ok? && r.value.Some? ==> r.value.value in t.books && r.value.value.id == bookId
  {
    if BOOKS !in t.names then Err(ER_NO_SUCH_TABLE) else Ok(FindBook(t.books, bookId))
  }

  /** `is_any_null` as written: true exactly when no row has that id. */
  function IsAnyNullAsWritten(t: Tables, bookId: string): (r: Result<bool, int>)
    ensures r.Err? <==> BOOKS !in t.names
    ensures r == Ok(false) ==> HasBook(t, bookId)
  {
    if BOOKS !in t.names then Err(ER_NO_SUCH_TABLE) else Ok(FindBook(t.books, bookId).None?)
  }

  /** Some nullable column of the row is `NULL`. */
  predicate HasNullColumn(row: BookRow)
  {
    row.publishedDate == Null || row.authors == Null || row.page == Null
      || row.printType == Null || row.description == Null || row.identifier == Null
  }

  /** `is_any_null` as its documentation describes it: no row, or a row with a `NULL` column. */
  function IsAnyNull(t: Tables, bookId: string): (r: Result<bool, int>)
    ensures r.Err? <==> BOOKS !in t.names
    ensures r == Ok(false) ==> HasBook(t, bookId)
    ensures BOOKS in t.names && !HasBook(t, bookId) ==> r == Ok(true)
  {
    if BOOKS !in t.names then Err(ER_NO_SUCH_TABLE)
    else
      match FindBook(t.books, bookId)
      case None => Ok(true)
      case Some(row) => Ok(HasNullColumn(row))
  }

  /**
   * A book just stored by `insert_book` has only its id and title, yet `is_any_null` as written
   * says none of its columns is null; the documented reading says some is.
   */
  lemma IsAnyNullAsWrittenMissesNewBook()
    ensures var t := InsertResult(Tables({BOOKS}, [], [], []), NewBook("b", Str("t"))).tables;
      IsAnyNullAsWritten(t, "b") == Ok(false) && IsAnyNull(t, "b") == Ok(true)
  {
    var t := InsertResult(Tables({BOOKS}, [], [], []), NewBook("b", Str("t"))).tables;
    assert t.books == [BookRow("b", "t", Null, Null, Null, Null, Null, Null)];
  }

  /** As written, `is_any_null` ignores the columns altogether. */
  lemma IsAnyNullAsWrittenMeansMissing(t: Tables, bookId: string)
    requires BOOKS in t.names
    ensures IsAnyNullAsWritten(t, bookId) == Ok(!HasBook(t, bookId))
  {
  }

  /**
   * The documented `is_any_null` is false exactly for a stored book whose every column holds a
   * value; in particular a book inserted by `insert_book` always has a null column.
   */
  lemma IsAnyNullMeaning(t: Tables, bookId: string, title: Value)
    requires BOOKS in t.names
    ensures IsAnyNull(t, bookId) == Ok(false) <==>
      HasBook(t, bookId) && !HasNullColumn(FindBook(t.books, bookId).value)
    ensures Execute(t, NewBook(bookId, title)).Ok? ==>
      IsAnyNull(Execute(t, NewBook(bookId, title)).value, bookId) == Ok(true)
  {
    if Execute(t, NewBook(bookId, title)).Ok? {
      var t2 := Execute(t, NewBook(bookId, title)).value;
      var i := |t.books|;
      assert t2.books[i].id == bookId && HasNullColumn(t2.books[i]);
      assert FindBook(t2.books, bookId) == Some(t2.books[i]) by {
        FindBookInUnique(t2.books, i);
      }
    }
  }

  /** Where ids are unique, the row found by id is the one at its position. */
  lemma {:induction false} FindBookInUnique(books: seq<BookRow>, k: nat)
    requires k < |books|
    requires forall i :: 0 <= i < |books| && i != k ==> books[i].id != books[k].id
    ensures FindBook(books, books[k].id) == Some(books[k])
    decreases k
  {
    if k > 0 {
      FindBookInUnique(books[1..], k - 1);
    }
  }

  // ---- the full-row update ----

  /** The seven values `update_book_row` sets, in its parameter order. */
  datatype RowValues = RowValues(
    title: Value, publishedDate: Value, authors: Value, page: Value,
    printType: Value, description: Value, identifier: Value)

  function SetRow(row: BookRow, v: RowValues): BookRow
    requires v.title != Null
  {
    BookRow(row.id, AsText(v.title), v.publishedDate, v.authors, v.page, v.printType, v.description, v.identifier)
  }

  function SetRows(books: seq<BookRow>, bookId: string, v: RowValues): (r: seq<BookRow>)
    requires v.title != Null
    ensures |r| == |books|
    ensures forall i :: 0 <= i < |books| ==> r[i] == if books[i].id == bookId then SetRow(books[i], v) else books[i]
  {
    seq(|books|, i requires 0 <= i < |books| => if books[i].id == bookId then SetRow(books[i], v) else books[i])
  }

  /**
   * `UPDATE books SET ... WHERE id = ...`: no row matched changes nothing; a `NULL` title on a
   * matched row is refused by the `NOT NULL` column; otherwise every column but the id is set.
   */
  function UpdateBookRowResult(t: Tables, bookId: string, v: RowValues): (r: Result<Tables, int>)
    ensures r.Ok? ==>
      && r.value.names == t.names && r.value.users == t.users && r.value.userBooks == t.userBooks
      && |r.value.books| == |t.books|
      && forall i :: 0 <= i < |t.books| ==> r.value.books[i].id == t.books[i].id
    ensures r.Err? <==> BOOKS !in t.names || (HasBook(t, bookId) && v.title == Null)
    ensures !HasBook(t, bookId) && BOOKS in t.names ==> r == Ok(t)
  {
    if BOOKS !in t.names then Err(ER_NO_SUCH_TABLE)
    else if !HasBook(t, bookId) then Ok(t)
    else if v.title == Null then Err(ER_BAD_NULL_ERROR)
    else Ok(t.(books := SetRows(t.books, bookId, v)))
  }

  /**
   * After a successful update the row reads back exactly the values given, no other row and no
   * other table changes, and the row has a null column only when one of the values was `None`.
   */
  lemma UpdateBookRowEffect(t: Tables, bookId: string, v: RowValues)
    requires UniqueBookIds(t.books) && BOOKS in t.names && HasBook(t, bookId) && v.title != Null
    ensures var r := UpdateBookRowResult(t, bookId, v);
      && r.Ok?
      && r.value.names == t.names && r.value.users == t.users && r.value.userBooks == t.userBooks
      && GetBookRow(r.value, bookId) == Ok(Some(SetRow(FindBook(t.books, bookId).value, v)))
      && (IsAnyNull(r.value, bookId) == Ok(true) <==>
           Null in [v.publishedDate, v.authors, v.page, v.printType, v.description, v.identifier])
      && forall i :: 0 <= i < |t.books| && t.books[i].id != bookId ==> r.value.books[i] == t.books[i]
  {
    var k :| 0 <= k < |t.books| && t.books[k].id == bookId;
    assert forall i :: 0 <= i < |t.books| && i != k ==> t.books[i].id != bookId;
    UpdateUniqueRow(t, k, v);
    FindBookInUnique(t.books, k);
  }

  /** The update of the one row that has its id. */
  lemma UpdateUniqueRow(t: Tables, k: nat, v: RowValues)
    requires BOOKS in t.names && k < |t.books| && v.title != Null
    requires forall i :: 0 <= i < |t.books| && i != k ==> t.books[i].id != t.books[k].id
    ensures var bookId := t.books[k].id;
      var r := UpdateBookRowResult(t, bookId, v);
      && r.Ok?
      && r.value.names == t.names && r.value.users == t.users && r.value.userBooks == t.userBooks
      && GetBookRow(r.value, bookId) == Ok(Some(SetRow(t.books[k], v)))
      && (IsAnyNull(r.value, bookId) == Ok(true) <==>
           Null in [v.publishedDate, v.authors, v.page, v.printType, v.description, v.identifier])
      && forall i :: 0 <= i < |t.books| && t.books[i].id != bookId ==> r.value.books[i] == t.books[i]
  {
    var bookId := t.books[k].id;
    var rows := SetRows(t.books, bookId, v);
    var t2 := t.(books := rows);
    assert HasBook(t, bookId);
    assert UpdateBookRowResult(t, bookId, v) == Ok(t2);
    assert rows[k] == SetRow(t.books[k], v);
    assert forall i :: 0 <= i < |rows| ==> rows[i].id == t.books[i].id;
    FindBookInUnique(rows, k);
    assert GetBookRow(t2, bookId) == Ok(Some(rows[k]));
    assert IsAnyNull(t2, bookId) == Ok(HasNullColumn(rows[k]));
  }

  // ---- the connection as an object ----

  class Database {
    var tables: Tables
    /** The error numbers `insert` printed, oldest first. */
    var printed: seq<int>

    constructor (initial: Tables)
      ensures tables == initial && printed == []
    {
      tables := initial;
      printed := [];
    }

    /** `create_tables` with its guard corrected (see `CreateTablesAsWritten`): the error it raises, if any. */
    method CreateTablesCorrected() returns (error: Option<int>)
      modifies this
      ensures Ddl(tables, error) == CreateTables(old(tables))
      ensures printed == old(printed)
    {
      if IncludeTables(tables, [USERS, BOOKS, USER_BOOKS]) {
        return None;
      }
      if USERS in tables.names {
        return Some(ER_TABLE_EXISTS_ERROR);
      }
      tables := tables.(names := tables.names + {USERS});
      if BOOKS in tables.names {
        return Some(ER_TABLE_EXISTS_ERROR);
      }
      tables := tables.(names := tables.names + {BOOKS});
      if USER_BOOKS in tables.names {
        return Some(ER_TABLE_EXISTS_ERROR);
      }
      tables := tables.(names := tables.names + {USER_BOOKS});
      error := None;
    }

    /** `insert`: the server's error is printed unless it is a duplicate entry. */
    method Insert(ins: Insertion)
      modifies this
      ensures tables == InsertResult(old(tables), ins).tables
      ensures printed == old(printed) + match InsertResult(old(tables), ins).reported
        case None => []
        case Some(e) => [e]
    {
      var outcome := Execute(tables, ins);
      match outcome
      case Ok(t2) =>
        tables := t2;
      case Err(e) =>
        if e != ER_DUP_ENTRY {
          printed := printed + [e];
        }
    }

    method InsertUser(userId: string)
      modifies this
      ensures tables == InsertResult(old(tables), NewUser(userId)).tables
      ensures printed == old(printed) + match InsertResult(old(tables), NewUser(userId)).reported
        case None => []
        case Some(e) => [e]
    {
      Insert(NewUser(userId));
    }

    method InsertBook(bookId: string, title: Value)
      modifies this
      ensures tables == InsertResult(old(tables), NewBook(bookId, title)).tables
      ensures printed == old(printed) + match InsertResult(old(tables), NewBook(bookId, title)).reported
        case None => []
        case Some(e) => [e]
    {
      Insert(NewBook(bookId, title));
    }

    method InsertUserBook(userId: string, bookId: string)
      modifies this
      ensures tables == InsertResult(old(tables), NewUserBook(userId, bookId)).tables
      ensures printed == old(printed) + match InsertResult(old(tables), NewUserBook(userId, bookId)).reported
        case None => []
        case Some(e) => [e]
    {
      Insert(NewUserBook(userId, bookId));
    }

    /** `update_book_row`: its error is raised to the caller. */
    method UpdateBookRow(bookId: string, v: RowValues) returns (error: Option<int>)
      modifies this
      ensures match UpdateBookRowResult(old(tables), bookId, v)
        case Ok(t2) => error == None && tables == t2
        case Err(e) => error == Some(e) && tables == old(tables)
      ensures printed == old(printed)
    {
      var r := UpdateBookRowResult(tables, bookId, v);
      if r.Err? {
        return Some(r.error);
      }
      tables := r.value;
      error := None;
    }
  }
}
