/**
 * The metadata enrichment of modules/book_data.py: the stored book as a record over the seven
 * metadata columns, one lookup at the Google Books volumes API when a column is null, the
 * parsing of the API's answer, and the write-back through `update_book` of the MongoDB store.
 */
module BookData {
  import opened Wrappers
  import opened Values
  import opened Text
  import Mongo

  const GOOGLE_BOOKS_URL := "https://www.googleapis.com/books/v1/volumes?q="

  /** The columns of a book record, in order. */
  const COLUMN_NAMES := ["title", "authors", "published_date", "page", "print_type", "description", "identifier"]

  /** A record: column name to value; `{}` is the empty record. */
  type Record = map<string, Value>

  // ---- the volumes API ----

  /** An entry of `industryIdentifiers`. */
  datatype Identifier = Identifier(identifier: string)

  /** `volumeInfo`: a missing key is `None`; a missing list is `None`. */
  datatype VolumeInfo = VolumeInfo(
    title: Value, authors: Option<seq<string>>, publishedDate: Value, pageCount: Value,
    printType: Value, description: Value, industryIdentifiers: Option<seq<Identifier>>)

  /** An entry of `items`; a missing `volumeInfo` is `None`. */
  datatype Item = Item(volumeInfo: Option<VolumeInfo>)

  /** The JSON body: `totalItems` (`None` when missing) and `items` (`None` when missing). */
  datatype Volumes = Volumes(totalItems: Value, items: Option<seq<Item>>)

  /** What `requests.get` yields: a response whose body may not be JSON, or a request error. */
  datatype GoogleResponse = Response(status: int, json: Option<Volumes>) | Unreachable(reason: string)

  /** The API, from URL to response. */
  type GoogleApi = string -> GoogleResponse

  datatype Failure =
    | NotJson                  // the body of a 200 response is not JSON
    | RequestFailure(reason: string)
    | NoSuchBook               // no stored book: the one-row frame cannot be built

  function GoogleBooksUrl(bookId: string): string
  {
    GOOGLE_BOOKS_URL + bookId
  }

  /** `_format_authors`: `None` for a missing or empty list, else the names joined by ", ". */
  function FormatAuthors(authors: Option<seq<string>>): (v: Value)
    ensures v == Null <==> authors.None? || authors.value == []
    ensures v != Null ==> v.Str? && v.s == Join(authors.value, ", ")
  {
    if authors.None? || authors.value == [] then Null else Str(Join(authors.value, ", "))
  }

  /** `_extract_identifier`: the `identifier` of every entry, in order, joined by ", ". */
  function ExtractIdentifier(ids: Option<seq<Identifier>>): (v: Value)
    ensures v == Null <==> ids.None? || ids.value == []
    ensures v != Null ==> v.Str? && v.s == Join(IdentifiersOf(ids.value), ", ")
  {
    if ids.None? || ids.value == [] then Null else Str(Join(IdentifiersOf(ids.value), ", "))
  }

  function IdentifiersOf(ids: seq<Identifier>): (r: seq<string>)
    ensures |r| == |ids| && forall i :: 0 <= i < |ids| ==> r[i] == ids[i].identifier
  {
    seq(|ids|, i requires 0 <= i < |ids| => ids[i].identifier)
  }

  /** Names free of commas can be read back from the joined authors, each after its ", ". */
  lemma FormatAuthorsSplit(authors: seq<string>)
    requires authors != []
    requires forall i :: 0 <= i < |authors| ==> ',' !in authors[i]
    ensures Split(FormatAuthors(Some(authors)).s, ',') == Padded(authors, " ")
  {
    assert ", " == [','] + " ";
    JoinPaddedSplit(authors, ',', " ");
  }

  /** Comma-free identifiers can be read back from the joined string, in order. */
  lemma ExtractIdentifierSplit(ids: seq<Identifier>)
    requires ids != []
    requires forall i :: 0 <= i < |ids| ==> ',' !in ids[i].identifier
    ensures Split(ExtractIdentifier(Some(ids)).s, ',') == Padded(IdentifiersOf(ids), " ")
  {
    assert ", " == [','] + " ";
    JoinPaddedSplit(IdentifiersOf(ids), ',', " ");
  }

  /** The seven-column record built from one item's `volumeInfo`. */
  function VolumeRecord(info: Option<VolumeInfo>): (r: Record)
    ensures r.Keys == set c | c in COLUMN_NAMES
  {
    var v := if info.Some? then info.value else VolumeInfo(Null, None, Null, Null, Null, Null, None);
    map[
      "title" := v.title,
      "authors" := FormatAuthors(v.authors),
      "published_date" := v.publishedDate,
      "page" := v.pageCount,
      "print_type" := v.printType,
      "description" := v.description,
      "identifier" := ExtractIdentifier(v.industryIdentifiers)]
  }

  /** `any(book_data.values())`. */
  predicate AnyTruthy(r: Record)
  {
    exists c :: c in r && Truthy(r[c])
  }

  /** The item's record has a truthy field. */
  predicate Filled(item: Item)
  {
    AnyTruthy(VolumeRecord(item.volumeInfo))
  }

  /** The record of the first item with a truthy field, or `{}`. */
  function FirstFilled(items: seq<Item>): (r: Record)
    ensures r == map[] <==> forall i :: 0 <= i < |items| ==> !Filled(items[i])
    ensures r != map[] ==> exists i :: 0 <= i < |items| && r == VolumeRecord(items[i].volumeInfo)
                             && Filled(items[i])
                             && forall j :: 0 <= j < i ==> !Filled(items[j])
  {
    var k := FirstFilledAt(items);
    if k < |items| then
      var first := VolumeRecord(items[k].volumeInfo);
      assert "title" in first;
      first
    else map[]
  }

  /** The position of the first item with a truthy field, or `|items|` when there is none. */
  function FirstFilledAt(items: seq<Item>): (k: nat)
    ensures k <= |items|
    ensures k < |items| ==> Filled(items[k])
    ensures forall j :: 0 <= j < k ==> !Filled(items[j])
    decreases |items|
  {
    if items == [] || Filled(items[0]) then 0
    else
      var k := FirstFilledAt(items[1..]);
      assert forall j :: 1 <= j <= k ==> items[j] == items[1..][j - 1];
      k + 1
  }

  /** `_parse_google_books_response`: a missing `items` is an empty list. */
  function ParseGoogleBooksResponse(json: Volumes): (r: Record)
    ensures r != map[] ==> r.Keys == (set c | c in COLUMN_NAMES) && AnyTruthy(r)
    ensures json.items.None? ==> r == map[]
  {
    FirstFilled(if json.items.Some? then json.items.value else [])
  }

  /**
   * `_fetch_data_from_google_books`: `{}` for a status other than 200 (the body is then not
   * read) and for a falsy `totalItems`; an unreadable body raises.
   */
  function FetchDataFromGoogleBooks(api: GoogleApi, bookId: string): (r: Result<Record, Failure>)
    ensures api(GoogleBooksUrl(bookId)).Response? && api(GoogleBooksUrl(bookId)).status != 200 ==> r == Ok(map[])
    ensures r == Err(NotJson) <==>
      api(GoogleBooksUrl(bookId)).Response? && api(GoogleBooksUrl(bookId)).status == 200 && api(GoogleBooksUrl(bookId)).json.None?
    ensures r.Ok? && r.value != map[] ==>
      && api(GoogleBooksUrl(bookId)).Response? && api(GoogleBooksUrl(bookId)).status == 200
      && api(GoogleBooksUrl(bookId)).json.Some?
      && Truthy(api(GoogleBooksUrl(bookId)).json.value.totalItems)
      && r.value == ParseGoogleBooksResponse(api(GoogleBooksUrl(bookId)).json.value)
    ensures r.Ok? && r.value != map[] ==> r.value.Keys == set c | c in COLUMN_NAMES
    ensures var a := api(GoogleBooksUrl(bookId));
      a.Response? && a.status == 200 && a.json.Some? ==>
        r == Ok(if Truthy(a.json.value.totalItems) then ParseGoogleBooksResponse(a.json.value) else map[])
    ensures var a := api(GoogleBooksUrl(bookId));
      a.Unreachable? ==> r == Err(RequestFailure(a.reason))
  {
    match api(GoogleBooksUrl(bookId))
    case Unreachable(reason) => Err(RequestFailure(reason))
    case Response(status, json) =>
      if status != 200 then Ok(map[])
      else if json.None? then Err(NotJson)
      else if !Truthy(json.value.totalItems) then Ok(map[])
      else Ok(ParseGoogleBooksResponse(json.value))
  }

  // ---- `get_data` ----

  /** A record over the columns never names the primary key, so `update_book` accepts it. */
  lemma ColumnsExcludeId(r: Record)
    requires r.Keys == set c | c in COLUMN_NAMES
    ensures Mongo.ID !in r
  {
  }

  /** `_get_current_data`: the stored document's columns, a missing column read as null. */
  function CurrentRecord(doc: Mongo.Doc): (r: Record)
    ensures r.Keys == set c | c in COLUMN_NAMES
    ensures forall c :: c in COLUMN_NAMES ==> r[c] == if c in doc then doc[c] else Null
  {
    map c | c in COLUMN_NAMES :: if c in doc then doc[c] else Null
  }

  /** `isnull().values.any()`. */
  predicate HasNull(r: Record)
  {
    exists c :: c in r && r[c] == Null
  }

  /** What a call of `get_data` does: the store after it, its result, and whether it asked the API. */
  datatype Enrich = Enrich(store: Mongo.Store, result: Result<Record, Failure>, fetched: bool)

  function GetDataOf(s: Mongo.Store, api: GoogleApi, bookId: string): (e: Enrich)
    ensures e.fetched ==> bookId in s.books
    ensures e.result.Err? ==> e.store == s
    ensures e.store != s ==> e.fetched && e.result.Ok? && e.store == Mongo.SetFields(s, bookId, e.result.value)
  {
    match Mongo.GetBook(s, bookId)
    case None => Enrich(s, Err(NoSuchBook), false)
    case Some(doc) =>
      var current := CurrentRecord(doc);
      if !HasNull(current) then Enrich(s, Ok(current), false)
      else
        match FetchDataFromGoogleBooks(api, bookId)
        case Err(e) => Enrich(s, Err(e), true)
        case Ok(google) =>
          if google != map[] then Enrich(Mongo.SetFields(s, bookId, google), Ok(google), true)
          else Enrich(s, Ok(current), true)
  }

  /**
   * `get_data` asks the API exactly when the book is stored and one of its columns is null;
   * without a non-empty answer it changes nothing and returns the stored record, or the API's
   * error; with one it writes that answer through `update_book` and returns it.
   */
  lemma GetDataEffect(s: Mongo.Store, api: GoogleApi, bookId: string)
    ensures var e := GetDataOf(s, api, bookId);
      && (e.fetched <==> bookId in s.books && HasNull(CurrentRecord(s.books[bookId])))
      && (e.result == Err(NoSuchBook) <==> bookId !in s.books)
      && (bookId in s.books && !e.fetched ==> e == Enrich(s, Ok(CurrentRecord(s.books[bookId])), false))
      && (e.store != s ==> e.fetched && e.result.Ok? && e.store == Mongo.SetFields(s, bookId, e.result.value))
      && (e.fetched && FetchDataFromGoogleBooks(api, bookId) == Ok(map[]) ==>
            e == Enrich(s, Ok(CurrentRecord(s.books[bookId])), true))
      && (e.fetched && FetchDataFromGoogleBooks(api, bookId).Ok? && FetchDataFromGoogleBooks(api, bookId).value != map[] ==>
            && e.result == FetchDataFromGoogleBooks(api, bookId)
            && e.store == Mongo.SetFields(s, bookId, FetchDataFromGoogleBooks(api, bookId).value))
      && (e.fetched && FetchDataFromGoogleBooks(api, bookId).Err? ==>
            e == Enrich(s, FetchDataFromGoogleBooks(api, bookId), true))
  {
  }

  /**
   * After a successful enrichment every column reads the API's value where that is not null,
   * and the stored value elsewhere: a column stays null only when the API gave no value for it,
   * and a stored value is overwritten whenever the API gives one.
   */
  lemma GetDataColumns(s: Mongo.Store, api: GoogleApi, bookId: string)
    requires GetDataOf(s, api, bookId).fetched
    requires FetchDataFromGoogleBooks(api, bookId).Ok? && FetchDataFromGoogleBooks(api, bookId).value != map[]
    ensures var e := GetDataOf(s, api, bookId);
      var google := FetchDataFromGoogleBooks(api, bookId).value;
      var before := CurrentRecord(s.books[bookId]);
      && bookId in e.store.books
      && forall c :: c in COLUMN_NAMES ==>
           CurrentRecord(e.store.books[bookId])[c] == if google[c] != Null then google[c] else before[c]
  {
    var google := FetchDataFromGoogleBooks(api, bookId).value;
    assert bookId in s.books && GetDataOf(s, api, bookId).store == Mongo.SetFields(s, bookId, google);
    SetFieldsColumns(s, bookId, google);
  }

  /** Setting a record over the columns on a stored book: each column takes the non-null new value. */
  lemma SetFieldsColumns(s: Mongo.Store, bookId: string, google: Record)
    requires bookId in s.books
    requires google.Keys == set c | c in COLUMN_NAMES
    ensures bookId in Mongo.SetFields(s, bookId, google).books
    ensures forall c :: c in COLUMN_NAMES ==>
      CurrentRecord(Mongo.SetFields(s, bookId, google).books[bookId])[c]
        == if google[c] != Null then google[c] else CurrentRecord(s.books[bookId])[c]
  {
    Mongo.SetFieldsNeverStoresNull(s, bookId, google);
    var before := s.books[bookId];
    var after := Mongo.SetFields(s, bookId, google).books[bookId];
    forall c | c in COLUMN_NAMES
      ensures CurrentRecord(after)[c] == if google[c] != Null then google[c] else CurrentRecord(before)[c]
    {
      assert c in google;
      if google[c] != Null {
        assert c in Mongo.NonNullFields(google);
      }
    }
  }

  /** An answer without a null column leaves nothing null, so the next call does not ask again. */
  lemma GetDataSettles(s: Mongo.Store, api: GoogleApi, api2: GoogleApi, bookId: string)
    requires GetDataOf(s, api, bookId).fetched
    requires FetchDataFromGoogleBooks(api, bookId).Ok? && FetchDataFromGoogleBooks(api, bookId).value != map[]
    requires !HasNull(FetchDataFromGoogleBooks(api, bookId).value)
    ensures !GetDataOf(GetDataOf(s, api, bookId).store, api2, bookId).fetched
  {
    var google := FetchDataFromGoogleBooks(api, bookId).value;
    var after := GetDataOf(s, api, bookId).store;
    assert bookId in s.books && after == Mongo.SetFields(s, bookId, google);
    SetFieldsColumns(s, bookId, google);
    var r := CurrentRecord(after.books[bookId]);
    assert !HasNull(r) by {
      forall c | c in r ensures r[c] != Null {
        assert c in google && google[c] != Null;
      }
    }
    assert Mongo.GetBook(after, bookId) == Some(after.books[bookId]);
  }

  class BookData {
    const db: Mongo.Database
    const bookId: string
    const api: GoogleApi
    /** The URLs requested from the API so far, oldest first. */
    ghost var requested: seq<string>

    constructor (db: Mongo.Database, bookId: string, api: GoogleApi)
      ensures this.db == db && this.bookId == bookId && this.api == api && requested == []
    {
      this.db := db;
      this.bookId := bookId;
      this.api := api;
      requested := [];
    }

    /** One request to the API. */
    method FetchData() returns (r: Result<Record, Failure>)
      modifies this`requested
      ensures r == FetchDataFromGoogleBooks(api, bookId)
      ensures requested == old(requested) + [GoogleBooksUrl(bookId)]
    {
      requested := requested + [GoogleBooksUrl(bookId)];
      r := FetchDataFromGoogleBooks(api, bookId);
    }

    /** `get_data`: at most one request, and only when the stored record has a null column. */
    method GetData() returns (r: Result<Record, Failure>)
      modifies this`requested, db
      ensures db.Contents() == GetDataOf(old(db.Contents()), api, bookId).store
      ensures r == GetDataOf(old(db.Contents()), api, bookId).result
      ensures requested == old(requested) + if GetDataOf(old(db.Contents()), api, bookId).fetched then [GoogleBooksUrl(bookId)] else []
    {
      ghost var before := db.Contents();
      var row := Mongo.GetBook(db.Contents(), bookId);
      if row.None? {
        return Err(NoSuchBook);
      }
      var current := CurrentRecord(row.value);
      if !HasNull(current) {
        return Ok(current);
      }
      var google := FetchData();
      assert GetDataOf(before, api, bookId).fetched;
      if google.Err? {
        return Err(google.error);
      }
      if google.value == map[] {
        return Ok(current);
      }
      ColumnsExcludeId(google.value);
      db.UpdateBook(bookId, google.value);
      r := Ok(google.value);
    }
  }
}
