/**
 * The MongoDB store of modules/database.py: the `users`, `books` and `user_books` collections,
 * insert-if-absent writes, the field update of `update_book`, point lookups, and the keyword
 * search that runs an aggregation pipeline over `books`.
 *
 * `$regex` with option `i` is modelled as a case-insensitive substring test (keywords are taken
 * literally, ASCII letters are folded).
 */
module Mongo {
  import opened Wrappers
  import opened Values
  import opened Text

  /** A book document without its `_id`: field name to value. */
  type Doc = map<string, Value>

  /** A document of `user_books`. */
  datatype Edge = Edge(userId: string, bookId: string)

  /**
   * The three collections. `bookOrder` lists the `_id`s of `books` in the collection's natural
   * order, which is the order in which a pipeline without a sort sees them. MongoDB does not
   * promise that order; the model takes it to be insertion order.
   */
  datatype Store = Store(users: set<string>, books: map<string, Doc>, bookOrder: seq<string>, userBooks: seq<Edge>)

  const TITLE := "title"
  const AUTHORS := "authors"
  /** The primary key, which `update_book` never receives as a field to set. */
  const ID := "_id"

  predicate Distinct<T(==)>(s: seq<T>)
  {
    forall i, j :: 0 <= i < j < |s| ==> s[i] != s[j]
  }

  /** Every book is listed once in natural order, and every book document has a title. */
  ghost predicate Valid(s: Store)
  {
    && Distinct(s.bookOrder)
    && (forall id :: id in s.books <==> id in s.bookOrder)
    && (forall id :: id in s.books ==> TITLE in s.books[id])
  }

  // ---- writes ----

  /** `insert_user`: a user that is already stored is a duplicate key, which is swallowed. */
  function AddUser(s: Store, userId: string): (r: Store)
    ensures r.users == s.users + {userId}
    ensures r.books == s.books && r.bookOrder == s.bookOrder && r.userBooks == s.userBooks
  {
    if userId in s.users then s else s.(users := s.users + {userId})
  }

  /** The document `insert_book` builds: the title, and the authors only when they are truthy. */
  function NewBookDoc(title: Value, authors: Value): (d: Doc)
    ensures TITLE in d && d[TITLE] == title
    ensures AUTHORS in d <==> Truthy(authors)
    ensures AUTHORS in d ==> d[AUTHORS] == authors
    ensures d.Keys <= {TITLE, AUTHORS}
  {
    if Truthy(authors) then map[TITLE := title, AUTHORS := authors] else map[TITLE := title]
  }

  /** `insert_book`: a duplicate `_id` is swallowed and the stored document is kept. */
  function AddBook(s: Store, bookId: string, title: Value, authors: Value): (r: Store)
    ensures r.books.Keys == s.books.Keys + {bookId}
    ensures forall id :: id in s.books ==> r.books[id] == s.books[id]
    ensures bookId !in s.books ==> r.books[bookId] == NewBookDoc(title, authors) && r.bookOrder == s.bookOrder + [bookId]
    ensures bookId in s.books ==> r == s
    ensures r.users == s.users && r.userBooks == s.userBooks
  {
    if bookId in s.books then s
    else s.(books := s.books[bookId := NewBookDoc(title, authors)], bookOrder := s.bookOrder + [bookId])
  }

  /**
   * `insert_user_books`: the document gets a fresh automatic `_id`, so nothing makes it a
   * duplicate and it is always appended.
   */
  function AddUserBook(s: Store, userId: string, bookId: string): (r: Store)
    ensures r.userBooks == s.userBooks + [Edge(userId, bookId)]
    ensures r.users == s.users && r.books == s.books && r.bookOrder == s.bookOrder
  {
    s.(userBooks := s.userBooks + [Edge(userId, bookId)])
  }

  /** The keyword arguments of `update_book` that are not `None`. */
  function NonNullFields(fields: map<string, Value>): (r: map<string, Value>)
    ensures r.Keys <= fields.Keys
    ensures forall k :: k in r ==> r[k] != Null && r[k] == fields[k]
    ensures forall k :: k in fields && fields[k] != Null ==> k in r
  {
    map k | k in fields && fields[k] != Null :: fields[k]
  }

  /**
   * `update_book`: `$set` of the non-`None` fields on the document with that `_id`; no write at
   * all when no field remains, and no change when no document has that `_id`.
   */
  function SetFields(s: Store, bookId: string, fields: map<string, Value>): (r: Store)
    ensures r.users == s.users && r.bookOrder == s.bookOrder && r.userBooks == s.userBooks
    ensures r.books.Keys == s.books.Keys
    ensures forall id :: id in s.books && id != bookId ==> r.books[id] == s.books[id]
    ensures (forall k :: k in fields ==> fields[k] == Null) ==> r == s
  {
    var update := NonNullFields(fields);
    if update == map[] || bookId !in s.books then s
    else s.(books := s.books[bookId := s.books[bookId] + update])
  }

  lemma AddUserKeepsValid(s: Store, userId: string)
    requires Valid(s)
    ensures Valid(AddUser(s, userId))
  {
  }

  /** A new book joins the natural order at its end; an existing one is left as it was. */
  lemma AddBookKeepsValid(s: Store, bookId: string, title: Value, authors: Value)
    requires Valid(s)
    ensures Valid(AddBook(s, bookId, title, authors))
    ensures bookId in s.books ==> AddBook(s, bookId, title, authors) == s
    ensures bookId !in s.books ==> AddBook(s, bookId, title, authors).books[bookId] == NewBookDoc(title, authors)
  {
    if bookId !in s.books {
      var r := AddBook(s, bookId, title, authors);
      assert bookId !in s.bookOrder;
      forall i, j | 0 <= i < j < |r.bookOrder| ensures r.bookOrder[i] != r.bookOrder[j] {
        if j == |s.bookOrder| {
          assert r.bookOrder[i] == s.bookOrder[i];
        }
      }
    }
  }

  lemma AddUserBookKeepsValid(s: Store, userId: string, bookId: string)
    requires Valid(s)
    ensures Valid(AddUserBook(s, userId, bookId))
  {
  }

  /**
   * `update_book` never stores `None`: every field of the updated document is either a non-null
   * value of the update or the field as it was before; other books are untouched.
   */
  lemma SetFieldsNeverStoresNull(s: Store, bookId: string, fields: map<string, Value>)
    ensures var r := SetFields(s, bookId, fields);
      && r.users == s.users && r.bookOrder == s.bookOrder && r.userBooks == s.userBooks
      && r.books.Keys == s.books.Keys
      && (forall id :: id in s.books && id != bookId ==> r.books[id] == s.books[id])
      && (bookId in s.books ==>
            && r.books[bookId].Keys == s.books[bookId].Keys + NonNullFields(fields).Keys
            && forall k :: k in r.books[bookId] ==>
                 if k in fields && fields[k] != Null then r.books[bookId][k] == fields[k]
                 else r.books[bookId][k] == s.books[bookId][k])
  {
  }

  /** Only `None` values, or none at all: `update_book` performs no write. */
  lemma SetFieldsNothingLeft(s: Store, bookId: string, fields: map<string, Value>)
    requires forall k :: k in fields ==> fields[k] == Null
    ensures SetFields(s, bookId, fields) == s
  {
    assert NonNullFields(fields) == map[];
  }

  /** Repeating the same update changes nothing further. */
  lemma SetFieldsIdempotent(s: Store, bookId: string, fields: map<string, Value>)
    ensures SetFields(SetFields(s, bookId, fields), bookId, fields) == SetFields(s, bookId, fields)
  {
    var once := SetFields(s, bookId, fields);
    var update := NonNullFields(fields);
    if update != map[] && bookId in s.books {
      assert once.books[bookId] + update == once.books[bookId];
      assert once.books[bookId := once.books[bookId] + update] == once.books;
    }
  }

  lemma SetFieldsKeepsValid(s: Store, bookId: string, fields: map<string, Value>)
    requires Valid(s)
    ensures Valid(SetFields(s, bookId, fields))
  {
  }

  // ---- lookups ----

  /** `get_book`: the stored document, or `None`. */
  function GetBook(s: Store, bookId: string): (r: Option<Doc>)
    ensures r.Some? <==> bookId in s.books
    ensures r.Some? ==> r.value == s.books[bookId]
  {
    if bookId in s.books then Some(s.books[bookId]) else None
  }

  /** `get_book_title`: the stored title, or `None` when the book is absent. */
  function GetBookTitle(s: Store, bookId: string): (r: Option<Value>)
    requires Valid(s)
    ensures r.Some? <==> bookId in s.books
    ensures r.Some? ==> r.value == s.books[bookId][TITLE]
  {
    match GetBook(s, bookId)
    case None => None
    case Some(d) => Some(d[TITLE])
  }

  /** `is_book_exists`: a stored document always has an `_id`, so it is truthy. */
  function IsBookExists(s: Store, bookId: string): (b: bool)
    ensures b <==> bookId in s.books
  {
    GetBook(s, bookId).Some?
  }

  /** `is_user_exists`. */
  function IsUserExists(s: Store, userId: string): (b: bool)
    ensures b <==> userId in s.users
  {
    userId in s.users
  }

  /** `count_all_users`. */
  function CountAllUsers(s: Store): nat
  {
    |s.users|
  }

  /** `insert_user` raises the count by one exactly when the user was not stored. */
  lemma CountAllUsersAfterAdd(s: Store, userId: string)
    ensures CountAllUsers(AddUser(s, userId)) == CountAllUsers(s) + (if userId in s.users then 0 else 1)
  {
    if userId !in s.users {
      assert userId !in s.users && AddUser(s, userId).users == s.users + {userId};
    }
  }

  // ---- keyword search ----

  /** One clause of `_generate_search_queries`: `$or` of a title match and an authors match. */
  datatype Clause = TitleOrAuthors(keyword: string)

  /** `field` holds a string containing `keyword`, ignoring case. */
  predicate FieldMatches(d: Doc, field: string, keyword: string)
  {
    field in d && d[field].Str? && ContainsIgnoreCase(d[field].s, keyword)
  }

  predicate ClauseMatches(d: Doc, c: Clause)
  {
    FieldMatches(d, TITLE, c.keyword) || FieldMatches(d, AUTHORS, c.keyword)
  }

  /** The `$match: {$or: clauses}` test. */
  predicate AnyClauseMatches(d: Doc, clauses: seq<Clause>)
  {
    exists i :: 0 <= i < |clauses| && ClauseMatches(d, clauses[i])
  }

  /** One clause per whitespace-separated keyword, in order. */
  function GenerateSearchQueries(keywords: string): (clauses: seq<Clause>)
    ensures |clauses| == |Words(keywords)|
    ensures forall i :: 0 <= i < |clauses| ==> clauses[i].keyword == Words(keywords)[i]
  {
    var ws := Words(keywords);
    seq(|ws|, i requires 0 <= i < |ws| => TitleOrAuthors(ws[i]))
  }

  /** An empty or blank keyword string yields no clause at all. */
  lemma {:induction false} NoClausesIffBlank(keywords: string)
    ensures GenerateSearchQueries(keywords) == [] <==> forall i :: 0 <= i < |keywords| ==> IsSpace(keywords[i])
  {
    WordsEmptyIffBlank(keywords);
  }

  /** The stages of an aggregation pipeline that `_construct_pipeline` uses. */
  datatype Stage =
    | Match(anyOf: seq<Clause>)
    | Lookup(from: string, localField: string, foreignField: string, asField: string)
    | Limit(n: nat)

  /** `$match` on `$or` of the clauses, `$lookup` of the book's `user_books`, `$limit: 4`. */
  function ConstructPipeline(clauses: seq<Clause>): (p: seq<Stage>)
    ensures |p| == 3
    ensures p[0] == Match(clauses)
    ensures p[1] == Lookup("user_books", "_id", "book_id", "entries")
    ensures p[2] == Limit(4)
  {
    [Match(clauses), Lookup("user_books", "_id", "book_id", "entries"), Limit(4)]
  }

  /** The server rejects `$or` with an empty array. */
  datatype QueryError = EmptyOrArray

  /** The `_id`s of `ids` whose document satisfies some clause, in the same order. */
  function MatchingIds(s: Store, ids: seq<string>, clauses: seq<Clause>): (r: seq<string>)
    ensures forall x :: x in r <==> x in ids && x in s.books && AnyClauseMatches(s.books[x], clauses)
  {
    if ids == [] then []
    else
      var rest := MatchingIds(s, ids[1..], clauses);
      if ids[0] in s.books && AnyClauseMatches(s.books[ids[0]], clauses) then [ids[0]] + rest else rest
  }

  /**
   * One stage over the stream of documents (given by `_id`). `$lookup` is a left outer join: it
   * adds a field and lets every document through.
   */
  function RunStage(s: Store, ids: seq<string>, stage: Stage): Result<seq<string>, QueryError>
  {
    match stage
    case Match(clauses) => if clauses == [] then Err(EmptyOrArray) else Ok(MatchingIds(s, ids, clauses))
    case Lookup(_, _, _, _) => Ok(ids)
    case Limit(n) => Ok(if |ids| <= n then ids else ids[..n])
  }

  function RunPipeline(s: Store, ids: seq<string>, pipeline: seq<Stage>): Result<seq<string>, QueryError>
    decreases |pipeline|
  {
    if pipeline == [] then Ok(ids)
    else
      match RunStage(s, ids, pipeline[0])
      case Err(e) => Err(e)
      case Ok(next) => RunPipeline(s, next, pipeline[1..])
  }

  /** `search_books_by_title_and_authors`: the `_id`s of the pipeline's results over `books`. */
  function SearchBooksByTitleAndAuthors(s: Store, keywords: string): Result<seq<string>, QueryError>
  {
    RunPipeline(s, s.bookOrder, ConstructPipeline(GenerateSearchQueries(keywords)))
  }

  /** Some keyword occurs in the title or in the authors. */
  predicate MatchesSomeKeyword(d: Doc, keywords: string)
  {
    exists k :: k in Words(keywords) && (FieldMatches(d, TITLE, k) || FieldMatches(d, AUTHORS, k))
  }

  lemma AnyClauseIffKeyword(d: Doc, keywords: string)
    ensures AnyClauseMatches(d, GenerateSearchQueries(keywords)) <==> MatchesSomeKeyword(d, keywords)
  {
    var cs := GenerateSearchQueries(keywords);
    var ws := Words(keywords);
    if MatchesSomeKeyword(d, keywords) {
      var k :| k in ws && (FieldMatches(d, TITLE, k) || FieldMatches(d, AUTHORS, k));
      var i :| 0 <= i < |ws| && ws[i] == k;
      assert ClauseMatches(d, cs[i]);
    }
    if AnyClauseMatches(d, cs) {
      var i :| 0 <= i < |cs| && ClauseMatches(d, cs[i]);
      assert ws[i] in ws;
    }
  }

  lemma {:induction false} MatchingIdsDistinct(s: Store, ids: seq<string>, clauses: seq<Clause>)
    requires Distinct(ids)
    ensures Distinct(MatchingIds(s, ids, clauses))
    decreases |ids|
  {
    if ids != [] {
      assert Distinct(ids[1..]);
      MatchingIdsDistinct(s, ids[1..], clauses);
      assert ids[0] !in ids[1..];
    }
  }

  /** Every occurrence of `y` in `r` has an `x` before it. */
  predicate Precedes(r: seq<string>, x: string, y: string)
  {
    forall q :: 0 <= q < |r| && r[q] == y ==> x in r[..q]
  }

  /**
   * Matching keeps natural order: of two matching documents, the earlier one comes before every
   * occurrence of the later one among the matches.
   */
  lemma {:induction false} MatchingIdsOrder(s: Store, ids: seq<string>, clauses: seq<Clause>, i: nat, j: nat)
    requires Distinct(ids)
    requires i < j < |ids|
    requires ids[i] in s.books && AnyClauseMatches(s.books[ids[i]], clauses)
    ensures Precedes(MatchingIds(s, ids, clauses), ids[i], ids[j])
    decreases |ids|
  {
    var r := MatchingIds(s, ids, clauses);
    var rest := MatchingIds(s, ids[1..], clauses);
    assert ids[j] == ids[1..][j - 1];
    assert ids[j] != ids[0];
    if i == 0 {
      assert r == [ids[0]] + rest;
      forall q | 0 <= q < |r| && r[q] == ids[j]
        ensures ids[i] in r[..q]
      {
        assert r[..q][0] == ids[0];
      }
    } else {
      assert Distinct(ids[1..]);
      assert ids[i] == ids[1..][i - 1];
      MatchingIdsOrder(s, ids[1..], clauses, i - 1, j - 1);
      assert Precedes(rest, ids[i], ids[j]);
      if r == [ids[0]] + rest {
        forall q | 0 <= q < |r| && r[q] == ids[j]
          ensures ids[i] in r[..q]
        {
          assert rest[q - 1] == ids[j];
          assert ids[i] in rest[..q - 1];
          assert r[..q] == [ids[0]] + rest[..q - 1];
        }
      } else {
        assert r == rest;
      }
    }
  }

  /**
   * The keyword search: an error exactly when the keyword string is blank; otherwise at most 4
   * distinct stored books, each matching some keyword in its title or authors, in natural order,
   * with no matching book skipped before the last one returned, and every match returned when
   * fewer than 4 come back.
   */
  lemma SearchBooksResult(s: Store, keywords: string)
    requires Valid(s)
    ensures SearchBooksByTitleAndAuthors(s, keywords).Err? <==> Words(keywords) == []
    ensures SearchBooksByTitleAndAuthors(s, keywords).Ok? ==>
      var ids := SearchBooksByTitleAndAuthors(s, keywords).value;
      && |ids| <= 4
      && Distinct(ids)
      && (forall x :: x in ids ==> x in s.books && MatchesSomeKeyword(s.books[x], keywords))
      && (|ids| < 4 ==> forall x :: x in s.books && MatchesSomeKeyword(s.books[x], keywords) ==> x in ids)
      && (forall i, j ::
            (0 <= i < j < |s.bookOrder| && s.bookOrder[j] in ids
             && MatchesSomeKeyword(s.books[s.bookOrder[i]], keywords)) ==> s.bookOrder[i] in ids)
      && (forall i, j ::
            (0 <= i < j < |s.bookOrder| && s.bookOrder[i] in ids && s.bookOrder[j] in ids) ==>
              Precedes(ids, s.bookOrder[i], s.bookOrder[j]))
  {
    var cs := GenerateSearchQueries(keywords);
    SearchBooksEval(s, keywords);
    if cs != [] {
      var all := MatchingIds(s, s.bookOrder, cs);
      var ids := FirstFour(all);
      MatchingIdsDistinct(s, s.bookOrder, cs);
      forall x | x in s.books
        ensures x in all <==> MatchesSomeKeyword(s.books[x], keywords)
      {
        AnyClauseIffKeyword(s.books[x], keywords);
      }
      forall i, j | 0 <= i < j < |s.bookOrder| && s.bookOrder[j] in ids
          && MatchesSomeKeyword(s.books[s.bookOrder[i]], keywords)
        ensures s.bookOrder[i] in ids
      {
        AnyClauseIffKeyword(s.books[s.bookOrder[i]], keywords);
        MatchingIdsOrder(s, s.bookOrder, cs, i, j);
        FirstFourKeepsOrder(all, s.bookOrder[i], s.bookOrder[j]);
      }
      forall i, j | 0 <= i < j < |s.bookOrder| && s.bookOrder[i] in ids && s.bookOrder[j] in ids
        ensures Precedes(ids, s.bookOrder[i], s.bookOrder[j])
      {
        AnyClauseIffKeyword(s.books[s.bookOrder[i]], keywords);
        MatchingIdsOrder(s, s.bookOrder, cs, i, j);
        FirstFourKeepsPrecedes(all, s.bookOrder[i], s.bookOrder[j]);
      }
    }
  }

  /** `$limit: 4`. */
  function FirstFour(ids: seq<string>): seq<string>
  {
    if |ids| <= 4 then ids else ids[..4]
  }

  /** The pipeline's three stages, evaluated. */
  lemma SearchBooksEval(s: Store, keywords: string)
    ensures var cs := GenerateSearchQueries(keywords);
      SearchBooksByTitleAndAuthors(s, keywords)
        == if cs == [] then Err(EmptyOrArray) else Ok(FirstFour(MatchingIds(s, s.bookOrder, cs)))
  {
    var cs := GenerateSearchQueries(keywords);
    var p := ConstructPipeline(cs);
    assert p[1..][1..][1..] == [];
    if cs != [] {
      var all := MatchingIds(s, s.bookOrder, cs);
      assert RunStage(s, s.bookOrder, p[0]) == Ok(all);
      assert RunPipeline(s, s.bookOrder, p) == RunPipeline(s, all, p[1..]);
      assert RunPipeline(s, all, p[1..]) == RunPipeline(s, all, p[1..][1..]);
      assert RunPipeline(s, all, p[1..][1..]) == RunPipeline(s, FirstFour(all), p[1..][1..][1..]);
    } else {
      assert RunStage(s, s.bookOrder, p[0]) == Err(EmptyOrArray);
    }
  }

  /** Cutting to the first four keeps an order stated by `Precedes`. */
  lemma FirstFourKeepsOrder(all: seq<string>, x: string, y: string)
    requires Precedes(all, x, y) && y in FirstFour(all)
    ensures x in FirstFour(all)
  {
    var ids := FirstFour(all);
    var q :| 0 <= q < |ids| && ids[q] == y;
    assert all[q] == y;
    assert x in all[..q];
    assert all[..q] == ids[..q];
  }

  /** Cutting to the first four keeps every order stated by `Precedes`. */
  lemma FirstFourKeepsPrecedes(all: seq<string>, x: string, y: string)
    requires Precedes(all, x, y)
    ensures Precedes(FirstFour(all), x, y)
  {
    var ids := FirstFour(all);
    forall q | 0 <= q < |ids| && ids[q] == y
      ensures x in ids[..q]
    {
      assert all[q] == y;
      assert all[..q] == ids[..q];
    }
  }

  // ---- the store as an object ----

  /** The connection to the database, holding the three collections. */
  class Database {
    var users: set<string>
    var books: map<string, Doc>
    var bookOrder: seq<string>
    var userBooks: seq<Edge>

    function Contents(): Store
      reads this
    {
      Store(users, books, bookOrder, userBooks)
    }

    constructor (initial: Store)
      ensures Contents() == initial
    {
      users := initial.users;
      books := initial.books;
      bookOrder := initial.bookOrder;
      userBooks := initial.userBooks;
    }

    /** `insert_user`. */
    method InsertUser(userId: string)
      modifies this
      ensures Contents() == AddUser(old(Contents()), userId)
    {
      if userId !in users {
        users := users + {userId};
      }
      // otherwise the duplicate key error is swallowed
    }

    /** `insert_book`. */
    method InsertBook(bookId: string, title: Value, authors: Value)
      modifies this
      ensures Contents() == AddBook(old(Contents()), bookId, title, authors)
    {
      if bookId !in books {
        var data := map[TITLE := title];
        if Truthy(authors) {
          data := data[AUTHORS := authors];
        }
        books := books[bookId := data];
        bookOrder := bookOrder + [bookId];
      }
    }

    /** `insert_user_books`. */
    method InsertUserBooks(userId: string, bookId: string)
      modifies this
      ensures Contents() == AddUserBook(old(Contents()), userId, bookId)
    {
      userBooks := userBooks + [Edge(userId, bookId)];
    }

    /** `update_book`. */
    method UpdateBook(bookId: string, fields: map<string, Value>)
      requires ID !in fields
      modifies this
      ensures Contents() == SetFields(old(Contents()), bookId, fields)
    {
      var updateFields := map k | k in fields && fields[k] != Null :: fields[k];
      if updateFields != map[] && bookId in books {
        books := books[bookId := books[bookId] + updateFields];
      }
    }
  }
}
