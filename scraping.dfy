/**
 * The result shaping of modules/scraping.py. The browser is a function from a URL to what the
 * rendered page offers to the selector the code applies to that URL (link texts or hrefs), to a
 * missing element after the bounded wait, or to a failure of the driver itself. The reading-log
 * API is a function from a URL to its HTTP response. Sleeps are left out; only their outcome
 * (an error) is kept.
 */
module Scraping {
  import opened Wrappers
  import opened Values
  import opened Text

  /** The page at a URL, as the selector of the code that visits it sees it. */
  datatype Page =
    | Rendered(items: seq<string>)   // the text or href of every element the selector picks
    | ElementMissing                 // the awaited element did not appear within the wait
    | DriverError(reason: string)    // navigating raised an exception

  type Browser = string -> Page

  /** The errors the scraper raises. */
  datatype Failure =
    | Timeout(message: string)       // selenium's TimeoutException, naming the URL
    | DriverFailure(reason: string)  // an exception raised by the driver, propagated as it is
    | Malformed(response: string)    // the API body is not JSON; carries the raw response text
    | TimeoutError                   // Python's builtin TimeoutError escaping the HTTP call; the
                                     // requests library raises its own timeout classes instead
    | RequestFailure(reason: string) // any other exception of the HTTP request

  const BOOKLOG := "https://booklog.jp"
  const PROFILE_TAGS_URL := "https://booklog.jp/profiletags"
  /** A profile-tag page with fewer users than this is the last one. */
  const FULL_PAGE := 10
  const MAX_RANKING_PAGES := 6
  const MAX_REVIEW_PAGES := 10
  /** What `page == 0` ("all pages") stands for. */
  const ALL_PAGES := 9999

  /** The clamping of a page count into `[lo, hi]` by an `if page > hi ... elif page < lo`. */
  function Clamp(page: int, lo: int, hi: int): (p: int)
    requires lo <= hi
    ensures lo <= p <= hi
    ensures lo <= page <= hi ==> p == page
    ensures page > hi ==> p == hi
    ensures page < lo ==> p == lo
  {
    if page > hi then hi else if page < lo then lo else page
  }

  // ---- href and tag text ----

  /** `href.split("/")[-1]`: the user or book id at the end of a path. */
  function IdFromHref(href: string): (id: string)
    ensures '/' !in id
  {
    LastPiece(href, '/')
  }

  /** The id is exactly the segment after the last `/`. */
  lemma IdFromHrefOf(path: string, id: string)
    requires '/' !in id
    ensures IdFromHref(path + "/" + id) == id
  {
    LastPieceOf(path, id, '/');
  }

  function IdsFromHrefs(hrefs: seq<string>): (ids: seq<string>)
    ensures |ids| == |hrefs|
    ensures forall i :: 0 <= i < |ids| ==> ids[i] == IdFromHref(hrefs[i])
  {
    seq(|hrefs|, i requires 0 <= i < |hrefs| => IdFromHref(hrefs[i]))
  }

  /** `text.split("(")[0]`: a tag's link text without its trailing "(count)". */
  function TagName(text: string): (tag: string)
    ensures '(' !in tag
    ensures |tag| <= |text| && text[..|tag|] == tag
    ensures |tag| < |text| ==> text[|tag|] == '('
  {
    FirstPieceIsPrefix(text, '(');
    FirstPiece(text, '(')
  }

  /** `get_popular_profile_tags`: one tag per link text, in page order. */
  function GetPopularProfileTags(browser: Browser): (r: Result<seq<string>, Failure>)
    ensures browser(PROFILE_TAGS_URL).Rendered? ==>
      r.Ok? && |r.value| == |browser(PROFILE_TAGS_URL).items|
      && forall i :: 0 <= i < |r.value| ==> r.value[i] == TagName(browser(PROFILE_TAGS_URL).items[i])
  {
    match browser(PROFILE_TAGS_URL)
    case DriverError(reason) => Err(DriverFailure(reason))
    case ElementMissing => Ok([])
    case Rendered(texts) => Ok(seq(|texts|, i requires 0 <= i < |texts| => TagName(texts[i])))
  }

  // ---- collecting pages ----

  /** The users of all successful pages, concatenated in order. */
  function ConcatOk(outs: seq<Result<seq<string>, Failure>>): seq<string>
  {
    if outs == [] then []
    else (if outs[0].Ok? then outs[0].value else []) + ConcatOk(outs[1..])
  }

  /** `ConcatOk` distributes over the concatenation of page lists. */
  lemma {:induction false} ConcatOkAppend(a: seq<Result<seq<string>, Failure>>, b: seq<Result<seq<string>, Failure>>)
    ensures ConcatOk(a + b) == ConcatOk(a) + ConcatOk(b)
    decreases |a|
  {
    if a != [] {
      assert (a + b)[1..] == a[1..] + b;
      ConcatOkAppend(a[1..], b);
    } else {
      assert a + b == b;
    }
  }

  /** Fetch every page in order and concatenate; the first failure is raised. */
  function CollectAll(outs: seq<Result<seq<string>, Failure>>): (r: Result<seq<string>, Failure>)
    ensures r.Err? ==> exists i :: 0 <= i < |outs| && outs[i] == Err(r.error)
    decreases |outs|
  {
    if outs == [] then Ok([])
    else
      match outs[0]
      case Err(e) => Err(e)
      case Ok(items) =>
        match CollectAll(outs[1..])
        case Err(e) => Err(e)
        case Ok(rest) => Ok(items + rest)
  }

  /**
   * Fetch pages in order until one yields fewer than `FULL_PAGE` items, keeping that one; the
   * first failure is raised.
   */
  function CollectUntilShort(outs: seq<Result<seq<string>, Failure>>): (r: Result<seq<string>, Failure>)
    ensures r.Err? ==> exists i :: 0 <= i < |outs| && outs[i] == Err(r.error)
    decreases |outs|
  {
    if outs == [] then Ok([])
    else
      match outs[0]
      case Err(e) => Err(e)
      case Ok(items) =>
        if |items| < FULL_PAGE then Ok(items)
        else
          match CollectUntilShort(outs[1..])
          case Err(e) => Err(e)
          case Ok(rest) => Ok(items + rest)
  }

  /** When every page loads, all of them are concatenated in order. */
  lemma {:induction false} CollectAllSucceeds(outs: seq<Result<seq<string>, Failure>>)
    requires forall i :: 0 <= i < |outs| ==> outs[i].Ok?
    ensures CollectAll(outs) == Ok(ConcatOk(outs))
    decreases |outs|
  {
    if outs != [] {
      CollectAllSucceeds(outs[1..]);
    }
  }

  /** When a page fails, the error of the first failing page is raised. */
  lemma {:induction false} CollectAllFails(outs: seq<Result<seq<string>, Failure>>, k: nat)
    requires k < |outs| && outs[k].Err?
    requires forall i :: 0 <= i < k ==> outs[i].Ok?
    ensures CollectAll(outs) == Err(outs[k].error)
    decreases k
  {
    if k > 0 {
      CollectAllFails(outs[1..], k - 1);
    }
  }

  /** Pages before a short page are all full; the short page is the last one read. */
  lemma {:induction false} CollectUntilShortStops(outs: seq<Result<seq<string>, Failure>>, k: nat)
    requires k < |outs| && outs[k].Ok? && |outs[k].value| < FULL_PAGE
    requires forall i :: 0 <= i < k ==> outs[i].Ok? && |outs[i].value| >= FULL_PAGE
    ensures CollectUntilShort(outs) == Ok(ConcatOk(outs[..k + 1]))
    decreases k
  {
    if k == 0 {
      assert outs[..1] == [outs[0]] && outs[..1][1..] == [];
      assert ConcatOk(outs[..1]) == outs[0].value + ConcatOk([]);
      assert ConcatOk(outs[..1]) == outs[0].value;
    } else {
      CollectUntilShortStops(outs[1..], k - 1);
      assert outs[1..][..k] == outs[..k + 1][1..];
    }
  }

  /** With no short page, every page is read and concatenated. */
  lemma {:induction false} CollectUntilShortAllFull(outs: seq<Result<seq<string>, Failure>>)
    requires forall i :: 0 <= i < |outs| ==> outs[i].Ok? && |outs[i].value| >= FULL_PAGE
    ensures CollectUntilShort(outs) == Ok(ConcatOk(outs))
    decreases |outs|
  {
    if outs != [] {
      CollectUntilShortAllFull(outs[1..]);
    }
  }

  /** A failure before any short page is raised. */
  lemma {:induction false} CollectUntilShortFails(outs: seq<Result<seq<string>, Failure>>, k: nat)
    requires k < |outs| && outs[k].Err?
    requires forall i :: 0 <= i < k ==> outs[i].Ok? && |outs[i].value| >= FULL_PAGE
    ensures CollectUntilShort(outs) == Err(outs[k].error)
    decreases k
  {
    if k > 0 {
      CollectUntilShortFails(outs[1..], k - 1);
    }
  }

  /** Prefix a successful result with the items already gathered. */
  function Prefixed(items: seq<string>, r: Result<seq<string>, Failure>): Result<seq<string>, Failure>
  {
    match r
    case Err(e) => Err(e)
    case Ok(rest) => Ok(items + rest)
  }

  /** Taking a loaded page off the front moves its items into the prefix. */
  lemma CollectAllStep(items: seq<string>, outs: seq<Result<seq<string>, Failure>>)
    requires outs != [] && outs[0].Ok?
    ensures Prefixed(items, CollectAll(outs)) == Prefixed(items + outs[0].value, CollectAll(outs[1..]))
  {
    match CollectAll(outs[1..])
    case Err(_) =>
    case Ok(rest) => assert (items + outs[0].value) + rest == items + (outs[0].value + rest);
  }

  /** The same for a full page of `CollectUntilShort`. */
  lemma CollectUntilShortStep(items: seq<string>, outs: seq<Result<seq<string>, Failure>>)
    requires outs != [] && outs[0].Ok? && |outs[0].value| >= FULL_PAGE
    ensures Prefixed(items, CollectUntilShort(outs)) == Prefixed(items + outs[0].value, CollectUntilShort(outs[1..]))
  {
    match CollectUntilShort(outs[1..])
    case Err(_) =>
    case Ok(rest) => assert (items + outs[0].value) + rest == items + (outs[0].value + rest);
  }

  lemma PrefixedNothing(r: Result<seq<string>, Failure>)
    ensures Prefixed([], r) == r
  {
    if r.Ok? {
      assert [] + r.value == r.value;
    }
  }

  // ---- users of a profile tag ----

  function ProfileTagUrl(tag: string, page: nat): string
  {
    BOOKLOG + "/profiletag/" + tag + "?page=" + NatToString(page)
  }

  /** `_get_users`: the user ids on one page of a profile tag, or a timeout naming the URL. */
  function TagPageUsers(browser: Browser, tag: string, page: nat): (r: Result<seq<string>, Failure>)
    ensures browser(ProfileTagUrl(tag, page)).ElementMissing? ==>
      r == Err(Timeout("Timeout: " + ProfileTagUrl(tag, page)))
    ensures browser(ProfileTagUrl(tag, page)).Rendered? ==>
      r == Ok(IdsFromHrefs(browser(ProfileTagUrl(tag, page)).items))
  {
    var url := ProfileTagUrl(tag, page);
    match browser(url)
    case DriverError(reason) => Err(DriverFailure(reason))
    case ElementMissing => Err(Timeout("Timeout: " + url))
    case Rendered(hrefs) => Ok(IdsFromHrefs(hrefs))
  }

  /** `page == 0` means all pages (9999); a negative count reads no page. */
  function PageLimit(page: int): (n: nat)
    ensures n == 0 <==> page < 0
    ensures page <= n
  {
    if page == 0 then ALL_PAGES else if page < 0 then 0 else page
  }

  /** The outcomes of pages `1..n` of a profile tag. */
  function TagPages(browser: Browser, tag: string, n: nat): (outs: seq<Result<seq<string>, Failure>>)
    ensures |outs| == n
    ensures forall i :: 0 <= i < n ==> outs[i] == TagPageUsers(browser, tag, i + 1)
  {
    seq(n, i requires 0 <= i < n => TagPageUsers(browser, tag, i + 1))
  }

  /** What `get_users_from_profile_tag` returns. */
  function ProfileTagUsers(browser: Browser, tag: string, page: int): (r: Result<seq<string>, Failure>)
    ensures page < 0 ==> r == Ok([])
    ensures r.Err? ==> exists p :: 1 <= p <= PageLimit(page) && TagPageUsers(browser, tag, p) == Err(r.error)
    ensures r.Err? ==> r.error.Timeout? || r.error.DriverFailure?
  {
    CollectUntilShort(TagPages(browser, tag, PageLimit(page)))
  }

  /** `get_users_from_profile_tag`. */
  method GetUsersFromProfileTag(browser: Browser, tag: string, page: int) returns (r: Result<seq<string>, Failure>)
    ensures r == ProfileTagUsers(browser, tag, page)
  {
    var n := PageLimit(page);
    ghost var outs := TagPages(browser, tag, n);
    var users: seq<string> := [];
    var i := 0;
    assert outs[0..] == outs;
    PrefixedNothing(CollectUntilShort(outs));
    while i < n
      invariant 0 <= i <= n
      invariant CollectUntilShort(outs) == Prefixed(users, CollectUntilShort(outs[i..]))
    {
      var found := TagPageUsers(browser, tag, i + 1);
      assert outs[i..][0] == found && outs[i..][1..] == outs[i + 1..];
      if found.Err? {
        assert CollectUntilShort(outs[i..]) == Err(found.error);
        return Err(found.error);
      }
      if |found.value| < FULL_PAGE {
        assert CollectUntilShort(outs[i..]) == Ok(found.value);
        return Ok(users + found.value);
      }
      CollectUntilShortStep(users, outs[i..]);
      users := users + found.value;
      i := i + 1;
    }
    assert outs[i..] == [] && users + [] == users;
    r := Ok(users);
  }

  // ---- book URLs of an annual ranking ----

  function RankingUrl(year: int, page: nat): string
  {
    BOOKLOG + "/ranking/annual/" + IntToString(year) + "/book?page=" + NatToString(page)
  }

  /** One ranking page: its book hrefs; nothing is awaited, so a missing list reads as empty. */
  function RankingPage(browser: Browser, year: int, page: nat): Result<seq<string>, Failure>
  {
    match browser(RankingUrl(year, page))
    case DriverError(reason) => Err(DriverFailure(reason))
    case ElementMissing => Ok([])
    case Rendered(hrefs) => Ok(hrefs)
  }

  function RankingPages(browser: Browser, year: int, n: nat): (outs: seq<Result<seq<string>, Failure>>)
    ensures |outs| == n
    ensures forall i :: 0 <= i < n ==> outs[i] == RankingPage(browser, year, i + 1)
  {
    seq(n, i requires 0 <= i < n => RankingPage(browser, year, i + 1))
  }

  /** What `get_book_urls_from_ranking` returns: pages `1..page`, `page` clamped into [1, 6]. */
  function RankingBookUrls(browser: Browser, year: int, page: int): (r: Result<seq<string>, Failure>)
    ensures r.Err? ==> exists p :: 1 <= p <= Clamp(page, 1, MAX_RANKING_PAGES) && RankingPage(browser, year, p) == Err(r.error)
    ensures r.Err? ==> r.error.DriverFailure?
  {
    CollectAll(RankingPages(browser, year, Clamp(page, 1, MAX_RANKING_PAGES)))
  }

  /** `get_book_urls_from_ranking`. */
  method GetBookUrlsFromRanking(browser: Browser, year: int, page: int) returns (r: Result<seq<string>, Failure>)
    ensures r == RankingBookUrls(browser, year, page)
  {
    var last := Clamp(page, 1, MAX_RANKING_PAGES);
    ghost var outs := RankingPages(browser, year, last);
    var bookUrls: seq<string> := [];
    assert outs[0..] == outs;
    PrefixedNothing(CollectAll(outs));
    for p := 1 to last + 1
      invariant CollectAll(outs) == Prefixed(bookUrls, CollectAll(outs[p - 1..]))
    {
      var found := RankingPage(browser, year, p);
      assert outs[p - 1..][0] == found && outs[p - 1..][1..] == outs[p..];
      if found.Err? {
        assert CollectAll(outs[p - 1..]) == Err(found.error);
        return Err(found.error);
      }
      CollectAllStep(bookUrls, outs[p - 1..]);
      bookUrls := bookUrls + found.value;
    }
    assert outs[last..] == [] && bookUrls + [] == bookUrls;
    r := Ok(bookUrls);
  }

  // ---- reviewers of a book ----

  function ReviewPageUrl(bookUrl: string, page: nat): string
  {
    BOOKLOG + bookUrl + "?page=" + NatToString(page)
  }

  /** One page of a book's reviews: the reviewers' user ids, or a timeout naming the URL. */
  function ReviewPage(browser: Browser, bookUrl: string, page: nat): (r: Result<seq<string>, Failure>)
    ensures browser(ReviewPageUrl(bookUrl, page)).ElementMissing? ==>
      r == Err(Timeout("Timeout: " + ReviewPageUrl(bookUrl, page)))
    ensures browser(ReviewPageUrl(bookUrl, page)).DriverError? ==>
      r == Err(DriverFailure(browser(ReviewPageUrl(bookUrl, page)).reason))
  {
    var url := ReviewPageUrl(bookUrl, page);
    match browser(url)
    case DriverError(reason) => Err(DriverFailure(reason))
    case ElementMissing => Err(Timeout("Timeout: " + url))
    case Rendered(hrefs) => Ok(IdsFromHrefs(hrefs))
  }

  function ReviewPages(browser: Browser, bookUrl: string, n: nat): (outs: seq<Result<seq<string>, Failure>>)
    ensures |outs| == n
    ensures forall i :: 0 <= i < n ==> outs[i] == ReviewPage(browser, bookUrl, i + 1)
  {
    seq(n, i requires 0 <= i < n => ReviewPage(browser, bookUrl, i + 1))
  }

  /** What `get_users_from_book_url` returns: pages `1..page`, `page` clamped into [1, 10]. */
  function BookReviewers(browser: Browser, bookUrl: string, page: int): (r: Result<seq<string>, Failure>)
    ensures r.Err? ==> exists p :: 1 <= p <= Clamp(page, 1, MAX_REVIEW_PAGES) && ReviewPage(browser, bookUrl, p) == Err(r.error)
    ensures r.Err? ==> r.error.Timeout? || r.error.DriverFailure?
  {
    CollectAll(ReviewPages(browser, bookUrl, Clamp(page, 1, MAX_REVIEW_PAGES)))
  }

  /** `get_users_from_book_url`. */
  method GetUsersFromBookUrl(browser: Browser, bookUrl: string, page: int) returns (r: Result<seq<string>, Failure>)
    ensures r == BookReviewers(browser, bookUrl, page)
  {
    var last := Clamp(page, 1, MAX_REVIEW_PAGES);
    ghost var outs := ReviewPages(browser, bookUrl, last);
    var userIds: seq<string> := [];
    assert outs[0..] == outs;
    PrefixedNothing(CollectAll(outs));
    for p := 1 to last + 1
      invariant CollectAll(outs) == Prefixed(userIds, CollectAll(outs[p - 1..]))
    {
      var found := ReviewPage(browser, bookUrl, p);
      assert outs[p - 1..][0] == found && outs[p - 1..][1..] == outs[p..];
      if found.Err? {
        assert CollectAll(outs[p - 1..]) == Err(found.error);
        return Err(found.error);
      }
      CollectAllStep(userIds, outs[p - 1..]);
      userIds := userIds + found.value;
    }
    assert outs[last..] == [] && userIds + [] == userIds;
    r := Ok(userIds);
  }

  // ---- the reading-log JSON API ----

  /** One entry of the `books` array. */
  datatype BookJson = BookJson(url: string, title: Value)

  /** The decoded body; `books` is `None` when the key is absent. */
  datatype BooksPayload = BooksPayload(books: Option<seq<BookJson>>)

  datatype ApiResponse =
    | Response(status: int, json: Option<BooksPayload>, text: string)  // json is None when the body is not JSON
    | Unreachable(timedOut: bool, reason: string)                       // the request itself raised

  type BookApi = string -> ApiResponse

  /** A `{BOOK_ID, TITLE}` record. */
  datatype BookRecord = BookRecord(bookId: string, title: Value)

  /** The query parameters are the scraper's defaults: category 0, status 0, rank 0, count 99999. */
  function BooksApiUrl(userId: string): string
  {
    "https://api.booklog.jp/json/" + userId + "?category=0&status=0&rank=0&count=99999"
  }

  /** `data.get("books", [])`. */
  function BooksOf(data: BooksPayload): seq<BookJson>
  {
    match data.books
    case None => []
    case Some(books) => books
  }

  /** One record per book, in order, the id being the last segment of the book's URL. */
  function BookRecords(books: seq<BookJson>): (r: seq<BookRecord>)
    ensures |r| == |books|
    ensures forall i :: 0 <= i < |r| ==> r[i].bookId == IdFromHref(books[i].url) && r[i].title == books[i].title
  {
    if books == [] then []
    else [BookRecord(IdFromHref(books[0].url), books[0].title)] + BookRecords(books[1..])
  }

  /** `format2list`. */
  method Format2List(data: BooksPayload) returns (newBooks: seq<BookRecord>)
    ensures newBooks == BookRecords(BooksOf(data))
  {
    var books := BooksOf(data);
    newBooks := [];
    for i := 0 to |books|
      invariant |newBooks| == i
      invariant forall j :: 0 <= j < i ==> newBooks[j] == BookRecord(IdFromHref(books[j].url), books[j].title)
    {
      newBooks := newBooks + [BookRecord(IdFromHref(books[i].url), books[i].title)];
    }
    assert newBooks == BookRecords(books);
  }

  /**
   * `load_books`: `[]` for any status but 200, an error carrying the raw text when the body is
   * not JSON, otherwise the records of `format2list`. A failed request raises `TimeoutError`
   * when it timed out, otherwise the request's own exception.
   */
  function LoadBooks(api: BookApi, userId: string): (r: Result<seq<BookRecord>, Failure>)
    ensures api(BooksApiUrl(userId)).Response? && api(BooksApiUrl(userId)).status != 200 ==> r == Ok([])
    ensures api(BooksApiUrl(userId)).Response? && api(BooksApiUrl(userId)).status == 200 ==>
      (r.Err? <==> api(BooksApiUrl(userId)).json.None?)
    ensures r.Err? && api(BooksApiUrl(userId)).Response? ==> r.error == Malformed(api(BooksApiUrl(userId)).text)
    ensures api(BooksApiUrl(userId)).Unreachable? ==> r.Err?
    ensures var a := api(BooksApiUrl(userId));
      a.Response? && a.status == 200 && a.json.Some? ==> r == Ok(BookRecords(BooksOf(a.json.value)))
    ensures var a := api(BooksApiUrl(userId));
      a.Unreachable? ==> r == Err(if a.timedOut then TimeoutError else RequestFailure(a.reason))
  {
    match api(BooksApiUrl(userId))
    case Unreachable(timedOut, reason) => Err(if timedOut then TimeoutError else RequestFailure(reason))
    case Response(status, json, text) =>
      if status != 200 then Ok([])
      else
        match json
        case None => Err(Malformed(text))
        case Some(data) => Ok(BookRecords(BooksOf(data)))
  }
}
