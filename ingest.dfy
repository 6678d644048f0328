/**
 * The `insert` helper that both crawl scripts define (the two copies are identical): store the
 * user, load the user's books from the reading-log API, then store every book with its title and
 * the (user, book) edge, in list order. A failed load raises after the user is already stored.
 */
module Ingest {
  import opened Wrappers
  import opened Values
  import opened Mongo
  import opened Scraping

  /** The store after an `insert`, and the error it raised, if any. */
  datatype Step = Step(store: Store, failure: Option<Failure>)

  /**
   * The books of one user, in list order: `insert_book(id, title)` then `insert_user_books`.
   * Storing them adds no user.
   */
  function AddRecords(s: Store, userId: string, records: seq<BookRecord>): (r: Store)
    ensures r.users == s.users
    decreases |records|
  {
    if records == [] then s
    else
      var r := records[0];
      AddRecords(AddUserBook(AddBook(s, r.bookId, r.title, Null), userId, r.bookId), userId, records[1..])
  }

  /** The (user, book) edges `AddRecords` appends, one per record. */
  function EdgesOf(userId: string, records: seq<BookRecord>): (edges: seq<Edge>)
    ensures |edges| == |records|
    ensures forall i :: 0 <= i < |records| ==> edges[i] == Edge(userId, records[i].bookId)
  {
    seq(|records|, i requires 0 <= i < |records| => Edge(userId, records[i].bookId))
  }

  /** The ids of a list of records. */
  function RecordIds(records: seq<BookRecord>): set<string>
  {
    set r | r in records :: r.bookId
  }

  /**
   * What `insert` does to the store: the user is added whether or not the load succeeds, and
   * it raises exactly when the load does.
   */
  function IngestUser(s: Store, api: BookApi, userId: string): (r: Step)
    ensures r.store.users == s.users + {userId}
    ensures r.failure.Some? <==> LoadBooks(api, userId).Err?
  {
    var withUser := AddUser(s, userId);
    match LoadBooks(api, userId)
    case Err(e) => Step(withUser, Some(e))
    case Ok(records) => Step(AddRecords(withUser, userId, records), None)
  }

  /** The store only grows: users, books with their documents, the natural order and the edges. */
  ghost predicate Grows(s: Store, t: Store)
  {
    && s.users <= t.users
    && (forall id :: id in s.books ==> id in t.books && t.books[id] == s.books[id])
    && s.bookOrder <= t.bookOrder
    && s.userBooks <= t.userBooks
  }

  lemma GrowsTransitive(a: Store, b: Store, c: Store)
    requires Grows(a, b) && Grows(b, c)
    ensures Grows(a, c)
  {
    assert a.bookOrder <= c.bookOrder by {
      assert b.bookOrder[..|a.bookOrder|] == a.bookOrder;
      assert c.bookOrder[..|b.bookOrder|][..|a.bookOrder|] == c.bookOrder[..|a.bookOrder|];
    }
    assert a.userBooks <= c.userBooks by {
      assert c.userBooks[..|b.userBooks|][..|a.userBooks|] == c.userBooks[..|a.userBooks|];
    }
  }

  /** Storing a user's books appends exactly one edge per record, in record order. */
  lemma {:induction false} AddRecordsEdges(s: Store, userId: string, records: seq<BookRecord>)
    ensures AddRecords(s, userId, records).userBooks == s.userBooks + EdgesOf(userId, records)
    decreases |records|
  {
    if records != [] {
      var r := records[0];
      var s1 := AddUserBook(AddBook(s, r.bookId, r.title, Null), userId, r.bookId);
      AddRecordsEdges(s1, userId, records[1..]);
      assert EdgesOf(userId, records) == [Edge(userId, r.bookId)] + EdgesOf(userId, records[1..]);
      assert s1.userBooks == s.userBooks + [Edge(userId, r.bookId)];
    } else {
      assert EdgesOf(userId, records) == [];
    }
  }

  /** Every record's book is stored afterwards, and no other book is added. */
  lemma {:induction false} AddRecordsBooks(s: Store, userId: string, records: seq<BookRecord>)
    ensures AddRecords(s, userId, records).books.Keys == s.books.Keys + RecordIds(records)
    decreases |records|
  {
    if records != [] {
      var r := records[0];
      var s1 := AddUserBook(AddBook(s, r.bookId, r.title, Null), userId, r.bookId);
      AddRecordsBooks(s1, userId, records[1..]);
      assert s1.books.Keys == s.books.Keys + {r.bookId};
      assert RecordIds(records) == {r.bookId} + RecordIds(records[1..]) by {
        assert forall x :: x in records <==> x == r || x in records[1..];
      }
    } else {
      assert RecordIds(records) == {};
    }
  }

  /** Storing a user's books only grows the store: no stored book document changes. */
  lemma {:induction false} AddRecordsGrows(s: Store, userId: string, records: seq<BookRecord>)
    ensures Grows(s, AddRecords(s, userId, records))
    decreases |records|
  {
    if records != [] {
      var r := records[0];
      var s1 := AddUserBook(AddBook(s, r.bookId, r.title, Null), userId, r.bookId);
      AddRecordsGrows(s1, userId, records[1..]);
      assert Grows(s, s1);
      GrowsTransitive(s, s1, AddRecords(s1, userId, records[1..]));
    }
  }

  /** A book is stored with the title of its first record when it was not stored before. */
  lemma {:induction false} AddRecordsFirstTitle(s: Store, userId: string, records: seq<BookRecord>, k: nat)
    requires k < |records| && records[k].bookId !in s.books
    requires forall i :: 0 <= i < k ==> records[i].bookId != records[k].bookId
    ensures records[k].bookId in AddRecords(s, userId, records).books
      && AddRecords(s, userId, records).books[records[k].bookId] == map[TITLE := records[k].title]
    decreases k
  {
    var r := records[0];
    var s1 := AddUserBook(AddBook(s, r.bookId, r.title, Null), userId, r.bookId);
    AddRecordsGrows(s1, userId, records[1..]);
    if k > 0 {
      AddRecordsFirstTitle(s1, userId, records[1..], k - 1);
    }
  }

  /** Storing books keeps the store well formed. */
  lemma {:induction false} AddRecordsKeepsValid(s: Store, userId: string, records: seq<BookRecord>)
    requires Valid(s)
    ensures Valid(AddRecords(s, userId, records))
    decreases |records|
  {
    if records != [] {
      var r := records[0];
      AddBookKeepsValid(s, r.bookId, r.title, Null);
      AddUserBookKeepsValid(AddBook(s, r.bookId, r.title, Null), userId, r.bookId);
      AddRecordsKeepsValid(AddUserBook(AddBook(s, r.bookId, r.title, Null), userId, r.bookId), userId, records[1..]);
    }
  }

  /**
   * `insert` only grows the store; a failed load stores nothing but the user; a successful one
   * stores the user's loaded books and edges.
   */
  lemma IngestUserEffect(s: Store, api: BookApi, userId: string)
    ensures Grows(s, IngestUser(s, api, userId).store)
    ensures IngestUser(s, api, userId).failure.Some? ==> IngestUser(s, api, userId).store == AddUser(s, userId)
    ensures LoadBooks(api, userId).Ok? ==>
      IngestUser(s, api, userId).store.userBooks == s.userBooks + EdgesOf(userId, LoadBooks(api, userId).value)
  {
    var withUser := AddUser(s, userId);
    assert Grows(s, withUser);
    if LoadBooks(api, userId).Ok? {
      AddRecordsEdges(withUser, userId, LoadBooks(api, userId).value);
      AddRecordsGrows(withUser, userId, LoadBooks(api, userId).value);
      GrowsTransitive(s, withUser, IngestUser(s, api, userId).store);
    }
  }

  lemma IngestUserKeepsValid(s: Store, api: BookApi, userId: string)
    requires Valid(s)
    ensures Valid(IngestUser(s, api, userId).store)
  {
    AddUserKeepsValid(s, userId);
    if LoadBooks(api, userId).Ok? {
      AddRecordsKeepsValid(AddUser(s, userId), userId, LoadBooks(api, userId).value);
    }
  }

  /** An `insert` of one user as the crawlers see it: the store before, the user, the step taken. */
  type Ingester = (Store, string) -> Step

  /** `insert(scraper, db, user_id)` against the reading-log API `api`. */
  function IngestOf(api: BookApi): Ingester
  {
    (s, u) => IngestUser(s, api, u)
  }

  /** What the crawlers rely on: an ingest stores the user and only ever adds to the store. */
  ghost predicate AddsUser(ingest: Ingester)
  {
    forall s, u :: u in ingest(s, u).store.users && Grows(s, ingest(s, u).store)
  }

  /** An ingest adds its own user to `users`, and no other, whether or not its load succeeds. */
  ghost predicate AddsOnlyUser(ingest: Ingester)
  {
    forall s, u :: ingest(s, u).store.users == s.users + {u}
  }

  lemma IngestOfAddsUser(api: BookApi)
    ensures AddsUser(IngestOf(api))
    ensures AddsOnlyUser(IngestOf(api))
  {
    forall s, u
      ensures u in IngestOf(api)(s, u).store.users && Grows(s, IngestOf(api)(s, u).store)
      ensures IngestOf(api)(s, u).store.users == s.users + {u}
    {
      IngestUserEffect(s, api, u);
    }
  }

  /** `insert`. */
  method Insert(db: Database, api: BookApi, userId: string) returns (failure: Option<Failure>)
    modifies db
    ensures Step(db.Contents(), failure) == IngestUser(old(db.Contents()), api, userId)
  {
    db.InsertUser(userId);
    var books := LoadBooks(api, userId);
    if books.Err? {
      return Some(books.error);
    }
    var records := books.value;
    ghost var withUser := db.Contents();
    assert records[0..] == records;
    for i := 0 to |records|
      invariant AddRecords(withUser, userId, records) == AddRecords(db.Contents(), userId, records[i..])
    {
      var book := records[i];
      assert records[i..][0] == book && records[i..][1..] == records[i + 1..];
      db.InsertBook(book.bookId, book.title, Null);
      db.InsertUserBooks(userId, book.bookId);
    }
    assert records[|records|..] == [];
    failure := None;
  }
}
