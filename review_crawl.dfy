/**
 * The review crawl of _user_from_review.py: for every year from the start year down to (but
 * not including) the end year, fetch the annual ranking's book URLs; for every book, fetch the
 * reviewers of its first review page; ingest every reviewer not yet stored. A checkpoint
 * (year, book number, user number), numbered from 1, resumes an interrupted run. Any error ends
 * the run.
 *
 * The three nested loops are specified by three recursive functions that also return the trace of
 * ingested users; the loops are proved equal to them, and the lemmas state what the trace and the
 * final store satisfy.
 */
module ReviewCrawl {
  import opened Wrappers
  import opened Mongo
  import opened Scraping
  import opened Ingest

  /** `(_start_year, _start_book_num, _start_user_num)`. */
  datatype Checkpoint = Checkpoint(year: int, bookNum: int, userNum: int)

  const START_YEAR := 2015
  const END_YEAR := 2014
  const DEFAULT_CHECKPOINT := Checkpoint(START_YEAR, 0, 0)
  /** The page counts the crawl leaves at their defaults. */
  const RANKING_PAGES := 6
  const REVIEW_PAGES := 1

  /** The scraper's answer for a book URL: its reviewers, or the error raised. */
  type Reviewers = string -> Result<seq<string>, Failure>
  /** The scraper's answer for a year: the book URLs of its ranking, or the error raised. */
  type Ranking = int -> Result<seq<string>, Failure>

  /** `get_users_from_book_url(book_url)` with its default page count. */
  function ReviewersOf(browser: Browser): Reviewers
  {
    url => BookReviewers(browser, url, REVIEW_PAGES)
  }

  /** `get_book_urls_from_ranking(year)` with its default page count. */
  function RankingOf(browser: Browser): Ranking
  {
    year => RankingBookUrls(browser, year, RANKING_PAGES)
  }

  /** One call of `insert`: the position it happened at and the user it ingested. */
  datatype Visit = Visit(year: int, bookNum: nat, userNum: nat, userId: string)

  /** The final store, the error that ended the run (if any), and the `insert` calls in order. */
  datatype Run = Run(store: Store, failure: Option<Failure>, inserted: seq<Visit>)

  /** In the resume year, books numbered below the checkpoint's book are skipped. */
  predicate SkipsBook(cp: Checkpoint, year: int, num: int)
  {
    year == cp.year && num < cp.bookNum
  }

  /** In the resume year and book, users numbered below the checkpoint's user are skipped. */
  predicate SkipsUser(cp: Checkpoint, year: int, num: int, unum: int)
  {
    year == cp.year && num == cp.bookNum && unum < cp.userNum
  }

  /** The exact resume position, where an existing user is ingested again. */
  predicate IsResume(cp: Checkpoint, year: int, num: int, unum: int)
  {
    year == cp.year && num == cp.bookNum && unum == cp.userNum
  }

  predicate AtResume(cp: Checkpoint, v: Visit)
  {
    IsResume(cp, v.year, v.bookNum, v.userNum)
  }

  /** Prefix the trace of a run with the visits made before it. */
  function After(visits: seq<Visit>, r: Run): Run
  {
    Run(r.store, r.failure, visits + r.inserted)
  }

  /**
   * The users loop: `ids` are the reviewers of book `num`, the first one numbered `unum`. Each
   * reviewer is ingested at most once, and a loop that ingests nobody leaves the store alone.
   */
  function CrawlUsers(s: Store, ingest: Ingester, cp: Checkpoint, year: int, num: nat, ids: seq<string>, unum: nat): (r: Run)
    ensures |r.inserted| <= |ids|
    ensures r.inserted == [] ==> r.store == s
    decreases |ids|
  {
    if ids == [] then Run(s, None, [])
    else if SkipsUser(cp, year, num, unum) then CrawlUsers(s, ingest, cp, year, num, ids[1..], unum + 1)
    else if IsUserExists(s, ids[0]) && !IsResume(cp, year, num, unum) then
      CrawlUsers(s, ingest, cp, year, num, ids[1..], unum + 1)
    else
      var step := ingest(s, ids[0]);
      var v := Visit(year, num, unum, ids[0]);
      if step.failure.Some? then Run(step.store, step.failure, [v])
      else After([v], CrawlUsers(step.store, ingest, cp, year, num, ids[1..], unum + 1))
  }

  /**
   * The books loop: `urls` are the ranking's book URLs from book number `num` on. Only an ingest
   * writes to the store.
   */
  function CrawlBooks(s: Store, reviewers: Reviewers, ingest: Ingester, cp: Checkpoint, year: int, urls: seq<string>, num: nat): (r: Run)
    ensures r.inserted == [] ==> r.store == s
    decreases |urls|
  {
    if urls == [] then Run(s, None, [])
    else if SkipsBook(cp, year, num) then CrawlBooks(s, reviewers, ingest, cp, year, urls[1..], num + 1)
    else
      match reviewers(urls[0])
      case Err(e) => Run(s, Some(e), [])
      case Ok(ids) =>
        var r := CrawlUsers(s, ingest, cp, year, num, ids, 1);
        if r.failure.Some? then r
        else After(r.inserted, CrawlBooks(r.store, reviewers, ingest, cp, year, urls[1..], num + 1))
  }

  /** The years loop: `range(year, endYear, -1)`. Only an ingest writes to the store. */
  function CrawlYears(s: Store, ranking: Ranking, reviewers: Reviewers, ingest: Ingester, cp: Checkpoint, year: int, endYear: int): (r: Run)
    ensures r.inserted == [] ==> r.store == s
    decreases year - endYear
  {
    if year <= endYear then Run(s, None, [])
    else
      match ranking(year)
      case Err(e) => Run(s, Some(e), [])
      case Ok(urls) =>
        var r := CrawlBooks(s, reviewers, ingest, cp, year, urls, 1);
        if r.failure.Some? then r
        else After(r.inserted, CrawlYears(r.store, ranking, reviewers, ingest, cp, year - 1, endYear))
  }

  // ---- facts about a trace ----

  /** Crawl order: years downwards, then books and users upwards. */
  predicate Before(a: Visit, b: Visit)
  {
    || a.year > b.year
    || (a.year == b.year && (a.bookNum < b.bookNum || (a.bookNum == b.bookNum && a.userNum < b.userNum)))
  }

  ghost predicate InOrder(visits: seq<Visit>)
  {
    forall i, j :: 0 <= i < j < |visits| ==> Before(visits[i], visits[j])
  }

  /** An ingested user was not stored before the run, unless ingested at the resume position. */
  ghost predicate Fresh(s: Store, cp: Checkpoint, visits: seq<Visit>)
  {
    forall v :: v in visits && v.userId in s.users ==> AtResume(cp, v)
  }

  /** A user is ingested a second time only at the resume position. */
  ghost predicate NoRepeat(cp: Checkpoint, visits: seq<Visit>)
  {
    forall i, j :: 0 <= i < j < |visits| && !AtResume(cp, visits[j]) ==> visits[i].userId != visits[j].userId
  }

  /** Every ingested user is in the store, even one whose book list failed to load. */
  ghost predicate Stored(t: Store, visits: seq<Visit>)
  {
    forall v :: v in visits ==> v.userId in t.users
  }

  /** Positions are numbered from 1 and none lies in a part the checkpoint skips. */
  ghost predicate Respects(cp: Checkpoint, visits: seq<Visit>)
  {
    forall v :: v in visits ==>
      v.bookNum >= 1 && v.userNum >= 1 && !SkipsBook(cp, v.year, v.bookNum) && !SkipsUser(cp, v.year, v.bookNum, v.userNum)
  }

  /** What every part of the crawl guarantees about its run from store `s`. */
  ghost predicate Sound(s: Store, cp: Checkpoint, r: Run)
  {
    && Grows(s, r.store)
    && Stored(r.store, r.inserted)
    && Fresh(s, cp, r.inserted)
    && NoRepeat(cp, r.inserted)
    && InOrder(r.inserted)
    && Respects(cp, r.inserted)
  }

  lemma GrowsReflexive(s: Store)
    ensures Grows(s, s)
  {
  }

  /** Two consecutive parts of a crawl compose into a sound run. */
  lemma SoundAfter(s: Store, mid: Store, cp: Checkpoint, a: seq<Visit>, r: Run)
    requires Grows(s, mid) && Stored(mid, a) && Fresh(s, cp, a) && NoRepeat(cp, a) && InOrder(a) && Respects(cp, a)
    requires Sound(mid, cp, r)
    requires forall i, j :: 0 <= i < |a| && 0 <= j < |r.inserted| ==> Before(a[i], r.inserted[j])
    ensures Sound(s, cp, After(a, r))
  {
    var t := After(a, r);
    var vs := t.inserted;
    GrowsTransitive(s, mid, r.store);
    assert forall v :: v in vs <==> v in a || v in r.inserted;
    forall i, j | 0 <= i < j < |vs| && !AtResume(cp, vs[j])
      ensures vs[i].userId != vs[j].userId
    {
      if j >= |a| {
        if i < |a| {
          assert vs[j] == r.inserted[j - |a|];
          assert vs[j].userId !in mid.users;
          assert vs[i] in a;
        } else {
          assert vs[i] == r.inserted[i - |a|] && vs[j] == r.inserted[j - |a|];
        }
      }
    }
    forall i, j | 0 <= i < j < |vs|
      ensures Before(vs[i], vs[j])
    {
      if i < |a| && j >= |a| {
        assert vs[j] == r.inserted[j - |a|];
      } else if i >= |a| {
        assert vs[i] == r.inserted[i - |a|] && vs[j] == r.inserted[j - |a|];
      }
    }
  }

  /** One ingested visit on its own is a sound run. */
  lemma VisitSound(s: Store, t: Store, f: Option<Failure>, cp: Checkpoint, v: Visit)
    requires Grows(s, t) && v.userId in t.users
    requires v.userId in s.users ==> AtResume(cp, v)
    requires v.bookNum >= 1 && v.userNum >= 1
    requires !SkipsBook(cp, v.year, v.bookNum) && !SkipsUser(cp, v.year, v.bookNum, v.userNum)
    ensures Sound(s, cp, Run(t, f, [v]))
  {
    assert forall w :: w in [v] ==> w == v;
  }

  /**
   * The visits of the users loop are at this year and book, numbered from `unum`, each
   * ingesting the reviewer listed at that number.
   */
  lemma {:induction false} CrawlUsersPositions(s: Store, ingest: Ingester, cp: Checkpoint, year: int, num: nat, ids: seq<string>, unum: nat)
    ensures forall v :: v in CrawlUsers(s, ingest, cp, year, num, ids, unum).inserted ==>
      v.year == year && v.bookNum == num && unum <= v.userNum < unum + |ids| && v.userId == ids[v.userNum - unum]
    decreases |ids|
  {
    var r := CrawlUsers(s, ingest, cp, year, num, ids, unum);
    if ids != [] {
      var next := if SkipsUser(cp, year, num, unum) || (IsUserExists(s, ids[0]) && !IsResume(cp, year, num, unum))
        then s else ingest(s, ids[0]).store;
      var rest := CrawlUsers(next, ingest, cp, year, num, ids[1..], unum + 1);
      CrawlUsersPositions(next, ingest, cp, year, num, ids[1..], unum + 1);
      var v := Visit(year, num, unum, ids[0]);
      assert r.inserted == rest.inserted || r.inserted == [v] || r.inserted == [v] + rest.inserted;
      forall w | w in r.inserted
        ensures w.year == year && w.bookNum == num && unum <= w.userNum < unum + |ids| && w.userId == ids[w.userNum - unum]
      {
        if w != v {
          assert w in rest.inserted;
          assert ids[1..][w.userNum - (unum + 1)] == ids[w.userNum - unum];
        }
      }
    }
  }

  /** Ingesting the user at number `unum`, followed by a sound rest of the loop, is sound. */
  lemma UserStepSound(s: Store, ingest: Ingester, cp: Checkpoint, year: int, num: nat, ids: seq<string>, unum: nat)
    requires AddsUser(ingest)
    requires num >= 1 && unum >= 1 && !SkipsBook(cp, year, num)
    requires ids != [] && !SkipsUser(cp, year, num, unum)
    requires !IsUserExists(s, ids[0]) || IsResume(cp, year, num, unum)
    requires var step := ingest(s, ids[0]);
      step.failure.None? ==>
        var rest := CrawlUsers(step.store, ingest, cp, year, num, ids[1..], unum + 1);
        && Sound(step.store, cp, rest)
        && forall w :: w in rest.inserted ==> w.year == year && w.bookNum == num && unum + 1 <= w.userNum
    ensures Sound(s, cp, CrawlUsers(s, ingest, cp, year, num, ids, unum))
  {
    var step := ingest(s, ids[0]);
    var v := Visit(year, num, unum, ids[0]);
    VisitSound(s, step.store, step.failure, cp, v);
    if step.failure.None? {
      var rest := CrawlUsers(step.store, ingest, cp, year, num, ids[1..], unum + 1);
      SoundAfter(s, step.store, cp, [v], rest);
      assert CrawlUsers(s, ingest, cp, year, num, ids, unum) == After([v], rest);
    } else {
      assert CrawlUsers(s, ingest, cp, year, num, ids, unum) == Run(step.store, step.failure, [v]);
    }
  }

  /** The users loop is sound. */
  lemma {:induction false} CrawlUsersSound(s: Store, ingest: Ingester, cp: Checkpoint, year: int, num: nat, ids: seq<string>, unum: nat)
    requires AddsUser(ingest)
    requires num >= 1 && unum >= 1 && !SkipsBook(cp, year, num)
    ensures Sound(s, cp, CrawlUsers(s, ingest, cp, year, num, ids, unum))
    decreases |ids|
  {
    if ids == [] {
      GrowsReflexive(s);
    } else if SkipsUser(cp, year, num, unum) || (IsUserExists(s, ids[0]) && !IsResume(cp, year, num, unum)) {
      CrawlUsersSound(s, ingest, cp, year, num, ids[1..], unum + 1);
    } else {
      var next := ingest(s, ids[0]).store;
      CrawlUsersSound(next, ingest, cp, year, num, ids[1..], unum + 1);
      CrawlUsersPositions(next, ingest, cp, year, num, ids[1..], unum + 1);
      UserStepSound(s, ingest, cp, year, num, ids, unum);
    }
  }

  /** The visits of the books loop are in this year, at book numbers from `num` on. */
  lemma {:induction false} CrawlBooksPositions(s: Store, reviewers: Reviewers, ingest: Ingester, cp: Checkpoint, year: int, urls: seq<string>, num: nat)
    requires num >= 1
    ensures forall v :: v in CrawlBooks(s, reviewers, ingest, cp, year, urls, num).inserted ==>
      v.year == year && num <= v.bookNum < num + |urls|
    decreases |urls|
  {
    if urls == [] {
    } else if SkipsBook(cp, year, num) {
      CrawlBooksPositions(s, reviewers, ingest, cp, year, urls[1..], num + 1);
    } else {
      match reviewers(urls[0])
      case Err(e) =>
      case Ok(ids) =>
        var r := CrawlUsers(s, ingest, cp, year, num, ids, 1);
        CrawlUsersPositions(s, ingest, cp, year, num, ids, 1);
        if r.failure.None? {
          var rest := CrawlBooks(r.store, reviewers, ingest, cp, year, urls[1..], num + 1);
          CrawlBooksPositions(r.store, reviewers, ingest, cp, year, urls[1..], num + 1);
          assert CrawlBooks(s, reviewers, ingest, cp, year, urls, num).inserted == r.inserted + rest.inserted;
          PositionsConcat(r.inserted, rest.inserted, year, num, |urls|);
        } else {
          assert CrawlBooks(s, reviewers, ingest, cp, year, urls, num) == r;
        }
    }
  }

  /** The visits of one book followed by those of the later books lie in the books from `num` on. */
  lemma PositionsConcat(a: seq<Visit>, b: seq<Visit>, year: int, num: nat, n: nat)
    requires n >= 1
    requires forall v :: v in a ==> v.year == year && v.bookNum == num
    requires forall v :: v in b ==> v.year == year && num + 1 <= v.bookNum < num + n
    ensures forall v :: v in a + b ==> v.year == year && num <= v.bookNum < num + n
  {
    forall v | v in a + b
      ensures v.year == year && num <= v.bookNum < num + n
    {
      if v !in a {
        assert v in b;
      }
    }
  }

  /**
   * A sound run of the reviewers of book `num`, followed when it ends without error by a sound
   * run of the later books, is sound.
   */
  lemma BookStepSound(s: Store, r: Run, rest: Run, cp: Checkpoint, year: int, num: nat, n: nat)
    requires Sound(s, cp, r)
    requires forall v :: v in r.inserted ==> v.year == year && v.bookNum == num
    requires r.failure.None? ==> Sound(r.store, cp, rest)
    requires forall v :: v in rest.inserted ==> v.year == year && num + 1 <= v.bookNum
    ensures Sound(s, cp, if r.failure.Some? then r else After(r.inserted, rest))
  {
    if r.failure.None? {
      SoundAfter(s, r.store, cp, r.inserted, rest);
    }
  }

  /** The books loop is sound. */
  lemma {:induction false} CrawlBooksSound(s: Store, reviewers: Reviewers, ingest: Ingester, cp: Checkpoint, year: int, urls: seq<string>, num: nat)
    requires AddsUser(ingest)
    requires num >= 1
    ensures Sound(s, cp, CrawlBooks(s, reviewers, ingest, cp, year, urls, num))
    decreases |urls|
  {
    if urls == [] {
      GrowsReflexive(s);
    } else if SkipsBook(cp, year, num) {
      CrawlBooksSound(s, reviewers, ingest, cp, year, urls[1..], num + 1);
    } else {
      match reviewers(urls[0])
      case Err(e) => GrowsReflexive(s);
      case Ok(ids) =>
        var r := CrawlUsers(s, ingest, cp, year, num, ids, 1);
        CrawlUsersSound(s, ingest, cp, year, num, ids, 1);
        CrawlUsersPositions(s, ingest, cp, year, num, ids, 1);
        var rest := CrawlBooks(r.store, reviewers, ingest, cp, year, urls[1..], num + 1);
        CrawlBooksSound(r.store, reviewers, ingest, cp, year, urls[1..], num + 1);
        CrawlBooksPositions(r.store, reviewers, ingest, cp, year, urls[1..], num + 1);
        BookStepSound(s, r, rest, cp, year, num, |urls|);
    }
  }

  /** The visits of the years loop lie in the years `year` down to `endYear + 1`. */
  lemma {:induction false} CrawlYearsPositions(s: Store, ranking: Ranking, reviewers: Reviewers, ingest: Ingester, cp: Checkpoint, year: int, endYear: int)
    ensures forall v :: v in CrawlYears(s, ranking, reviewers, ingest, cp, year, endYear).inserted ==> endYear < v.year <= year
    decreases year - endYear
  {
    if year > endYear {
      match ranking(year)
      case Err(e) =>
      case Ok(urls) =>
        var r := CrawlBooks(s, reviewers, ingest, cp, year, urls, 1);
        CrawlBooksPositions(s, reviewers, ingest, cp, year, urls, 1);
        if r.failure.None? {
          CrawlYearsPositions(r.store, ranking, reviewers, ingest, cp, year - 1, endYear);
        }
    }
  }

  /** The years loop is sound. */
  lemma {:induction false} CrawlYearsSound(s: Store, ranking: Ranking, reviewers: Reviewers, ingest: Ingester, cp: Checkpoint, year: int, endYear: int)
    requires AddsUser(ingest)
    ensures Sound(s, cp, CrawlYears(s, ranking, reviewers, ingest, cp, year, endYear))
    decreases year - endYear
  {
    if year <= endYear {
      GrowsReflexive(s);
    } else {
      match ranking(year)
      case Err(e) => GrowsReflexive(s);
      case Ok(urls) =>
        var r := CrawlBooks(s, reviewers, ingest, cp, year, urls, 1);
        CrawlBooksSound(s, reviewers, ingest, cp, year, urls, 1);
        CrawlBooksPositions(s, reviewers, ingest, cp, year, urls, 1);
        if r.failure.None? {
          var rest := CrawlYears(r.store, ranking, reviewers, ingest, cp, year - 1, endYear);
          CrawlYearsSound(r.store, ranking, reviewers, ingest, cp, year - 1, endYear);
          CrawlYearsPositions(r.store, ranking, reviewers, ingest, cp, year - 1, endYear);
          SoundAfter(s, r.store, cp, r.inserted, rest);
        }
    }
  }

  // ---- what the crawl must ingest ----

  /** The users the visits ingested. */
  function IngestedIds(visits: seq<Visit>): set<string>
  {
    set v | v in visits :: v.userId
  }

  lemma IngestedIdsConcat(a: seq<Visit>, b: seq<Visit>)
    ensures IngestedIds(a + b) == IngestedIds(a) + IngestedIds(b)
  {
    assert forall v :: v in a + b <==> v in a || v in b;
  }

  /** The users loop adds to `users` exactly the users it ingests, whether or not it fails. */
  lemma {:induction false} CrawlUsersAdds(s: Store, ingest: Ingester, cp: Checkpoint, year: int, num: nat, ids: seq<string>, unum: nat)
    requires AddsOnlyUser(ingest)
    ensures var r := CrawlUsers(s, ingest, cp, year, num, ids, unum);
      r.store.users == s.users + IngestedIds(r.inserted)
    decreases |ids|
  {
    if ids == [] {
      assert IngestedIds([]) == {};
    } else if SkipsUser(cp, year, num, unum) || (IsUserExists(s, ids[0]) && !IsResume(cp, year, num, unum)) {
      CrawlUsersAdds(s, ingest, cp, year, num, ids[1..], unum + 1);
    } else {
      var step := ingest(s, ids[0]);
      var v := Visit(year, num, unum, ids[0]);
      assert step.store.users == s.users + {ids[0]};
      assert IngestedIds([v]) == {ids[0]};
      if step.failure.None? {
        var rest := CrawlUsers(step.store, ingest, cp, year, num, ids[1..], unum + 1);
        CrawlUsersAdds(step.store, ingest, cp, year, num, ids[1..], unum + 1);
        IngestedIdsConcat([v], rest.inserted);
      }
    }
  }

  /** The books loop adds to `users` exactly the users it ingests. */
  lemma {:induction false} CrawlBooksAdds(s: Store, reviewers: Reviewers, ingest: Ingester, cp: Checkpoint, year: int, urls: seq<string>, num: nat)
    requires AddsOnlyUser(ingest)
    ensures var r := CrawlBooks(s, reviewers, ingest, cp, year, urls, num);
      r.store.users == s.users + IngestedIds(r.inserted)
    decreases |urls|
  {
    if urls == [] {
      assert IngestedIds([]) == {};
    } else if SkipsBook(cp, year, num) {
      CrawlBooksAdds(s, reviewers, ingest, cp, year, urls[1..], num + 1);
    } else {
      match reviewers(urls[0])
      case Err(e) =>
        assert IngestedIds([]) == {};
      case Ok(ids) =>
        var u := CrawlUsers(s, ingest, cp, year, num, ids, 1);
        CrawlUsersAdds(s, ingest, cp, year, num, ids, 1);
        if u.failure.None? {
          var rest := CrawlBooks(u.store, reviewers, ingest, cp, year, urls[1..], num + 1);
          CrawlBooksAdds(u.store, reviewers, ingest, cp, year, urls[1..], num + 1);
          IngestedIdsConcat(u.inserted, rest.inserted);
        }
    }
  }

  /** The whole crawl adds to `users` exactly the users it ingests. */
  lemma {:induction false} CrawlYearsAdds(s: Store, ranking: Ranking, reviewers: Reviewers, ingest: Ingester, cp: Checkpoint, year: int, endYear: int)
    requires AddsOnlyUser(ingest)
    ensures var r := CrawlYears(s, ranking, reviewers, ingest, cp, year, endYear);
      r.store.users == s.users + IngestedIds(r.inserted)
    decreases year - endYear
  {
    if year <= endYear {
      assert IngestedIds([]) == {};
    } else {
      match ranking(year)
      case Err(e) =>
        assert IngestedIds([]) == {};
      case Ok(urls) =>
        var b := CrawlBooks(s, reviewers, ingest, cp, year, urls, 1);
        CrawlBooksAdds(s, reviewers, ingest, cp, year, urls, 1);
        if b.failure.None? {
          var rest := CrawlYears(b.store, ranking, reviewers, ingest, cp, year - 1, endYear);
          CrawlYearsAdds(b.store, ranking, reviewers, ingest, cp, year - 1, endYear);
          IngestedIdsConcat(b.inserted, rest.inserted);
        }
    }
  }

  /**
   * Every reviewer of book `num` at a number the checkpoint does not skip is stored in `t`, and
   * the one at the resume position was ingested there.
   */
  ghost predicate UsersDone(t: Store, visits: seq<Visit>, cp: Checkpoint, year: int, num: nat, ids: seq<string>, unum: nat)
  {
    forall k :: 0 <= k < |ids| && !SkipsUser(cp, year, num, unum + k) ==>
      && ids[k] in t.users
      && (IsResume(cp, year, num, unum + k) ==> Visit(year, num, unum + k, ids[k]) in visits)
  }

  lemma UsersDoneMono(t: Store, t2: Store, vs: seq<Visit>, vs2: seq<Visit>, cp: Checkpoint, year: int, num: nat, ids: seq<string>, unum: nat)
    requires UsersDone(t, vs, cp, year, num, ids, unum)
    requires t.users <= t2.users && forall v :: v in vs ==> v in vs2
    ensures UsersDone(t2, vs2, cp, year, num, ids, unum)
  {
  }

  lemma UsersDoneCons(t: Store, vs: seq<Visit>, cp: Checkpoint, year: int, num: nat, ids: seq<string>, unum: nat)
    requires ids != []
    requires !SkipsUser(cp, year, num, unum) ==>
      ids[0] in t.users && (IsResume(cp, year, num, unum) ==> Visit(year, num, unum, ids[0]) in vs)
    requires UsersDone(t, vs, cp, year, num, ids[1..], unum + 1)
    ensures UsersDone(t, vs, cp, year, num, ids, unum)
  {
    forall k | 0 <= k < |ids| && !SkipsUser(cp, year, num, unum + k)
      ensures ids[k] in t.users && (IsResume(cp, year, num, unum + k) ==> Visit(year, num, unum + k, ids[k]) in vs)
    {
      if k > 0 {
        assert ids[1..][k - 1] == ids[k] && unum + 1 + (k - 1) == unum + k;
      }
    }
  }

  /** A users loop that ends without error leaves every reviewer it does not skip stored. */
  lemma {:induction false} CrawlUsersComplete(s: Store, ingest: Ingester, cp: Checkpoint, year: int, num: nat, ids: seq<string>, unum: nat)
    requires AddsOnlyUser(ingest)
    ensures var r := CrawlUsers(s, ingest, cp, year, num, ids, unum);
      r.failure.None? ==> UsersDone(r.store, r.inserted, cp, year, num, ids, unum)
    decreases |ids|
  {
    var r := CrawlUsers(s, ingest, cp, year, num, ids, unum);
    if ids != [] && r.failure.None? {
      if SkipsUser(cp, year, num, unum) || (IsUserExists(s, ids[0]) && !IsResume(cp, year, num, unum)) {
        assert r == CrawlUsers(s, ingest, cp, year, num, ids[1..], unum + 1);
        CrawlUsersComplete(s, ingest, cp, year, num, ids[1..], unum + 1);
        CrawlUsersAdds(s, ingest, cp, year, num, ids[1..], unum + 1);
        UsersDoneCons(r.store, r.inserted, cp, year, num, ids, unum);
      } else {
        var step := ingest(s, ids[0]);
        var v := Visit(year, num, unum, ids[0]);
        assert step.store.users == s.users + {ids[0]};
        var rest := CrawlUsers(step.store, ingest, cp, year, num, ids[1..], unum + 1);
        assert r == After([v], rest);
        CrawlUsersComplete(step.store, ingest, cp, year, num, ids[1..], unum + 1);
        CrawlUsersAdds(step.store, ingest, cp, year, num, ids[1..], unum + 1);
        UsersDoneMono(rest.store, r.store, rest.inserted, r.inserted, cp, year, num, ids[1..], unum + 1);
        assert v in r.inserted;
        UsersDoneCons(r.store, r.inserted, cp, year, num, ids, unum);
      }
    }
  }

  /**
   * Every book of the list the checkpoint does not skip had its reviewers fetched, and they are
   * done in the sense of `UsersDone`.
   */
  ghost predicate BooksDone(t: Store, visits: seq<Visit>, reviewers: Reviewers, cp: Checkpoint, year: int, urls: seq<string>, num: nat)
  {
    forall b :: 0 <= b < |urls| && !SkipsBook(cp, year, num + b) ==>
      reviewers(urls[b]).Ok? && UsersDone(t, visits, cp, year, num + b, reviewers(urls[b]).value, 1)
  }

  lemma BooksDoneMono(t: Store, t2: Store, vs: seq<Visit>, vs2: seq<Visit>, reviewers: Reviewers, cp: Checkpoint, year: int, urls: seq<string>, num: nat)
    requires BooksDone(t, vs, reviewers, cp, year, urls, num)
    requires t.users <= t2.users && forall v :: v in vs ==> v in vs2
    ensures BooksDone(t2, vs2, reviewers, cp, year, urls, num)
  {
    forall b | 0 <= b < |urls| && !SkipsBook(cp, year, num + b)
      ensures reviewers(urls[b]).Ok? && UsersDone(t2, vs2, cp, year, num + b, reviewers(urls[b]).value, 1)
    {
      UsersDoneMono(t, t2, vs, vs2, cp, year, num + b, reviewers(urls[b]).value, 1);
    }
  }

  lemma BooksDoneCons(t: Store, vs: seq<Visit>, reviewers: Reviewers, cp: Checkpoint, year: int, urls: seq<string>, num: nat)
    requires urls != []
    requires !SkipsBook(cp, year, num) ==>
      reviewers(urls[0]).Ok? && UsersDone(t, vs, cp, year, num, reviewers(urls[0]).value, 1)
    requires BooksDone(t, vs, reviewers, cp, year, urls[1..], num + 1)
    ensures BooksDone(t, vs, reviewers, cp, year, urls, num)
  {
    forall b | 0 <= b < |urls| && !SkipsBook(cp, year, num + b)
      ensures reviewers(urls[b]).Ok? && UsersDone(t, vs, cp, year, num + b, reviewers(urls[b]).value, 1)
    {
      if b > 0 {
        assert urls[1..][b - 1] == urls[b] && num + 1 + (b - 1) == num + b;
      }
    }
  }

  /** A books loop that ends without error fetched every book it does not skip and is done with it. */
  lemma {:induction false} CrawlBooksComplete(s: Store, reviewers: Reviewers, ingest: Ingester, cp: Checkpoint, year: int, urls: seq<string>, num: nat)
    requires AddsOnlyUser(ingest)
    ensures var r := CrawlBooks(s, reviewers, ingest, cp, year, urls, num);
      r.failure.None? ==> BooksDone(r.store, r.inserted, reviewers, cp, year, urls, num)
    decreases |urls|
  {
    var r := CrawlBooks(s, reviewers, ingest, cp, year, urls, num);
    if urls != [] && r.failure.None? {
      if SkipsBook(cp, year, num) {
        assert r == CrawlBooks(s, reviewers, ingest, cp, year, urls[1..], num + 1);
        CrawlBooksComplete(s, reviewers, ingest, cp, year, urls[1..], num + 1);
        BooksDoneCons(r.store, r.inserted, reviewers, cp, year, urls, num);
      } else {
        assert reviewers(urls[0]).Ok?;
        var ids := reviewers(urls[0]).value;
        var u := CrawlUsers(s, ingest, cp, year, num, ids, 1);
        assert u.failure.None?;
        var rest := CrawlBooks(u.store, reviewers, ingest, cp, year, urls[1..], num + 1);
        assert r == After(u.inserted, rest);
        CrawlUsersComplete(s, ingest, cp, year, num, ids, 1);
        CrawlBooksAdds(u.store, reviewers, ingest, cp, year, urls[1..], num + 1);
        UsersDoneMono(u.store, r.store, u.inserted, r.inserted, cp, year, num, ids, 1);
        CrawlBooksComplete(u.store, reviewers, ingest, cp, year, urls[1..], num + 1);
        BooksDoneMono(rest.store, r.store, rest.inserted, r.inserted, reviewers, cp, year, urls[1..], num + 1);
        BooksDoneCons(r.store, r.inserted, reviewers, cp, year, urls, num);
      }
    }
  }

  /** Every year of the range had its ranking fetched, and its books are done. */
  ghost predicate YearsDone(t: Store, visits: seq<Visit>, ranking: Ranking, reviewers: Reviewers, cp: Checkpoint, year: int, endYear: int)
  {
    forall y :: endYear < y <= year ==>
      ranking(y).Ok? && BooksDone(t, visits, reviewers, cp, y, ranking(y).value, 1)
  }

  /** A crawl that ends without error fetched every year and book it does not skip and is done with them. */
  lemma {:induction false} CrawlYearsComplete(s: Store, ranking: Ranking, reviewers: Reviewers, ingest: Ingester, cp: Checkpoint, year: int, endYear: int)
    requires AddsOnlyUser(ingest)
    ensures var r := CrawlYears(s, ranking, reviewers, ingest, cp, year, endYear);
      r.failure.None? ==> YearsDone(r.store, r.inserted, ranking, reviewers, cp, year, endYear)
    decreases year - endYear
  {
    var r := CrawlYears(s, ranking, reviewers, ingest, cp, year, endYear);
    if year > endYear && r.failure.None? {
      assert ranking(year).Ok?;
      var urls := ranking(year).value;
      var b := CrawlBooks(s, reviewers, ingest, cp, year, urls, 1);
      assert b.failure.None?;
      var rest := CrawlYears(b.store, ranking, reviewers, ingest, cp, year - 1, endYear);
      assert r == After(b.inserted, rest);
      CrawlBooksComplete(s, reviewers, ingest, cp, year, urls, 1);
      CrawlYearsAdds(b.store, ranking, reviewers, ingest, cp, year - 1, endYear);
      BooksDoneMono(b.store, r.store, b.inserted, r.inserted, reviewers, cp, year, urls, 1);
      CrawlYearsComplete(b.store, ranking, reviewers, ingest, cp, year - 1, endYear);
      forall y | endYear < y <= year
        ensures ranking(y).Ok? && BooksDone(r.store, r.inserted, reviewers, cp, y, ranking(y).value, 1)
      {
        if y < year {
          BooksDoneMono(rest.store, r.store, rest.inserted, r.inserted, reviewers, cp, y, ranking(y).value, 1);
        }
      }
    }
  }

  // ---- how the crawl ends on an error ----

  /** Every visit comes before book `bookNum` of `year` in crawl order. */
  ghost predicate AllBefore(visits: seq<Visit>, year: int, bookNum: int)
  {
    forall v :: v in visits ==> v.year > year || (v.year == year && v.bookNum < bookNum)
  }

  lemma AllBeforeConcat(a: seq<Visit>, b: seq<Visit>, year: int, bookNum: int)
    requires AllBefore(a, year, bookNum) && AllBefore(b, year, bookNum)
    ensures AllBefore(a + b, year, bookNum)
  {
    assert forall v :: v in a + b ==> v in a || v in b;
  }

  /**
   * The run ended because ingesting the user it visited last failed: its store and error are
   * those of that ingest, and nothing was visited after it.
   */
  ghost predicate EndsAtFailedIngest(ingest: Ingester, r: Run)
  {
    r.inserted != [] && exists t :: IngestGives(ingest, t, Last(r.inserted).userId, r)
  }

  /** The last visit of a non-empty trace. */
  function Last(visits: seq<Visit>): Visit
    requires visits != []
  {
    visits[|visits| - 1]
  }

  /** Ingesting `userId` into `t` leaves the store and error of `r`. */
  ghost predicate IngestGives(ingest: Ingester, t: Store, userId: string, r: Run)
  {
    ingest(t, userId) == Step(r.store, r.failure)
  }

  lemma EndsAtFailedIngestAfter(ingest: Ingester, a: seq<Visit>, r: Run)
    requires EndsAtFailedIngest(ingest, r)
    ensures EndsAtFailedIngest(ingest, After(a, r))
  {
    var vs := a + r.inserted;
    assert Last(vs) == Last(r.inserted);
    var t :| IngestGives(ingest, t, Last(r.inserted).userId, r);
    assert IngestGives(ingest, t, Last(vs).userId, After(a, r));
  }

  /**
   * The run ended because fetching the reviewers of a book it does not skip failed with the
   * run's error, and every visit came before that book.
   */
  ghost predicate BookFetchFailed(reviewers: Reviewers, cp: Checkpoint, year: int, urls: seq<string>, num: nat, r: Run)
  {
    r.failure.Some? &&
    exists b :: 0 <= b < |urls| && !SkipsBook(cp, year, num + b)
      && reviewers(urls[b]) == Err(r.failure.value) && AllBefore(r.inserted, year, num + b)
  }

  /** The users loop fails only when an ingest fails, and stops right there. */
  lemma {:induction false} CrawlUsersEnd(s: Store, ingest: Ingester, cp: Checkpoint, year: int, num: nat, ids: seq<string>, unum: nat)
    ensures var r := CrawlUsers(s, ingest, cp, year, num, ids, unum);
      r.failure.Some? ==> EndsAtFailedIngest(ingest, r)
    decreases |ids|
  {
    if ids != [] {
      if SkipsUser(cp, year, num, unum) || (IsUserExists(s, ids[0]) && !IsResume(cp, year, num, unum)) {
        CrawlUsersEnd(s, ingest, cp, year, num, ids[1..], unum + 1);
      } else {
        var step := ingest(s, ids[0]);
        var v := Visit(year, num, unum, ids[0]);
        if step.failure.Some? {
          assert Last([v]) == v;
          assert IngestGives(ingest, s, v.userId, Run(step.store, step.failure, [v]));
        } else {
          var rest := CrawlUsers(step.store, ingest, cp, year, num, ids[1..], unum + 1);
          CrawlUsersEnd(step.store, ingest, cp, year, num, ids[1..], unum + 1);
          if rest.failure.Some? {
            EndsAtFailedIngestAfter(ingest, [v], rest);
          }
        }
      }
    }
  }

  /** Shifting a failed book of the later books to the whole list. */
  lemma BookFetchFailedShift(reviewers: Reviewers, cp: Checkpoint, year: int, urls: seq<string>, num: nat, a: seq<Visit>, rest: Run)
    requires urls != []
    requires BookFetchFailed(reviewers, cp, year, urls[1..], num + 1, rest)
    requires forall v :: v in a ==> v.year == year && v.bookNum == num
    ensures BookFetchFailed(reviewers, cp, year, urls, num, After(a, rest))
  {
    var b :| 0 <= b < |urls[1..]| && !SkipsBook(cp, year, num + 1 + b)
      && reviewers(urls[1..][b]) == Err(rest.failure.value) && AllBefore(rest.inserted, year, num + 1 + b);
    assert urls[1..][b] == urls[b + 1] && num + 1 + b == num + (b + 1);
    AllBeforeConcat(a, rest.inserted, year, num + (b + 1));
  }

  /**
   * The books loop fails only when fetching a book's reviewers fails, before any visit of that
   * book, or when an ingest fails, and stops right there.
   */
  lemma {:induction false} CrawlBooksEnd(s: Store, reviewers: Reviewers, ingest: Ingester, cp: Checkpoint, year: int, urls: seq<string>, num: nat)
    ensures var r := CrawlBooks(s, reviewers, ingest, cp, year, urls, num);
      r.failure.Some? ==> EndsAtFailedIngest(ingest, r) || BookFetchFailed(reviewers, cp, year, urls, num, r)
    decreases |urls|
  {
    var r := CrawlBooks(s, reviewers, ingest, cp, year, urls, num);
    if urls != [] && r.failure.Some? {
      if SkipsBook(cp, year, num) {
        var rest := CrawlBooks(s, reviewers, ingest, cp, year, urls[1..], num + 1);
        CrawlBooksEnd(s, reviewers, ingest, cp, year, urls[1..], num + 1);
        AfterNothing(rest);
        if !EndsAtFailedIngest(ingest, rest) {
          BookFetchFailedShift(reviewers, cp, year, urls, num, [], rest);
        }
      } else {
        match reviewers(urls[0])
        case Err(e) =>
          assert urls[0] == urls[0] && num + 0 == num;
          assert BookFetchFailed(reviewers, cp, year, urls, num, r);
        case Ok(ids) =>
          var u := CrawlUsers(s, ingest, cp, year, num, ids, 1);
          CrawlUsersEnd(s, ingest, cp, year, num, ids, 1);
          if u.failure.None? {
            var rest := CrawlBooks(u.store, reviewers, ingest, cp, year, urls[1..], num + 1);
            assert r == After(u.inserted, rest);
            CrawlBooksEnd(u.store, reviewers, ingest, cp, year, urls[1..], num + 1);
            if EndsAtFailedIngest(ingest, rest) {
              EndsAtFailedIngestAfter(ingest, u.inserted, rest);
            } else {
              CrawlUsersPositions(s, ingest, cp, year, num, ids, 1);
              BookFetchFailedShift(reviewers, cp, year, urls, num, u.inserted, rest);
            }
          }
      }
    }
  }

  /** The run ended because fetching the ranking of a year in range failed, before any visit of it. */
  ghost predicate RankingFailed(ranking: Ranking, year: int, endYear: int, r: Run)
  {
    r.failure.Some? &&
    exists y :: endYear < y <= year && ranking(y) == Err(r.failure.value) && forall v :: v in r.inserted ==> v.year > y
  }

  /** The run ended at a failed book fetch in some year of the range. */
  ghost predicate SomeBookFetchFailed(ranking: Ranking, reviewers: Reviewers, cp: Checkpoint, year: int, endYear: int, r: Run)
  {
    exists y :: endYear < y <= year && ranking(y).Ok? && BookFetchFailed(reviewers, cp, y, ranking(y).value, 1, r)
  }

  /** Earlier years' visits do not disturb where a later failure happened. */
  lemma FailedAfterEarlierYears(ranking: Ranking, reviewers: Reviewers, cp: Checkpoint, year: int, endYear: int, a: seq<Visit>, rest: Run)
    requires forall v :: v in a ==> v.year == year
    requires RankingFailed(ranking, year - 1, endYear, rest) || SomeBookFetchFailed(ranking, reviewers, cp, year - 1, endYear, rest)
    ensures RankingFailed(ranking, year, endYear, After(a, rest)) || SomeBookFetchFailed(ranking, reviewers, cp, year, endYear, After(a, rest))
  {
    var vs := a + rest.inserted;
    assert forall v :: v in vs ==> v in a || v in rest.inserted;
    if RankingFailed(ranking, year - 1, endYear, rest) {
      var y :| endYear < y <= year - 1 && ranking(y) == Err(rest.failure.value)
        && forall v :: v in rest.inserted ==> v.year > y;
      assert forall v :: v in vs ==> v.year > y;
    } else {
      var y :| endYear < y <= year - 1 && ranking(y).Ok? && BookFetchFailed(reviewers, cp, y, ranking(y).value, 1, rest);
      var urls := ranking(y).value;
      var b :| 0 <= b < |urls| && !SkipsBook(cp, y, 1 + b)
        && reviewers(urls[b]) == Err(rest.failure.value) && AllBefore(rest.inserted, y, 1 + b);
      assert AllBefore(vs, y, 1 + b);
      assert BookFetchFailed(reviewers, cp, y, urls, 1, After(a, rest));
    }
  }

  /**
   * The whole crawl fails only when a year's ranking fetch fails, when a book's reviewer fetch
   * fails, or when an ingest fails; each time nothing is visited after the failure.
   */
  lemma {:induction false} CrawlYearsEnd(s: Store, ranking: Ranking, reviewers: Reviewers, ingest: Ingester, cp: Checkpoint, year: int, endYear: int)
    ensures var r := CrawlYears(s, ranking, reviewers, ingest, cp, year, endYear);
      r.failure.Some? ==>
        || EndsAtFailedIngest(ingest, r)
        || RankingFailed(ranking, year, endYear, r)
        || SomeBookFetchFailed(ranking, reviewers, cp, year, endYear, r)
    decreases year - endYear
  {
    var r := CrawlYears(s, ranking, reviewers, ingest, cp, year, endYear);
    if year > endYear && r.failure.Some? {
      match ranking(year)
      case Err(e) =>
        assert RankingFailed(ranking, year, endYear, r);
      case Ok(urls) =>
        var b := CrawlBooks(s, reviewers, ingest, cp, year, urls, 1);
        CrawlBooksEnd(s, reviewers, ingest, cp, year, urls, 1);
        if b.failure.Some? {
          assert r == b;
          if !EndsAtFailedIngest(ingest, r) {
            assert SomeBookFetchFailed(ranking, reviewers, cp, year, endYear, r);
          }
        } else {
          var rest := CrawlYears(b.store, ranking, reviewers, ingest, cp, year - 1, endYear);
          assert r == After(b.inserted, rest);
          CrawlYearsEnd(b.store, ranking, reviewers, ingest, cp, year - 1, endYear);
          if EndsAtFailedIngest(ingest, rest) {
            EndsAtFailedIngestAfter(ingest, b.inserted, rest);
          } else {
            CrawlBooksPositions(s, reviewers, ingest, cp, year, urls, 1);
            FailedAfterEarlierYears(ranking, reviewers, cp, year, endYear, b.inserted, rest);
          }
        }
    }
  }

  /** `scraper_function` with its constants: the years 2015 down to 2015, from the start. */
  function ScraperRun(s: Store, browser: Browser, api: BookApi): Run
  {
    CrawlYears(s, RankingOf(browser), ReviewersOf(browser), IngestOf(api), DEFAULT_CHECKPOINT, START_YEAR, END_YEAR)
  }

  /**
   * With the default checkpoint no position is the resume position, since numbering starts at 1:
   * every ingested user was absent from the store, no user is ingested twice, and the users are
   * ingested in crawl order.
   */
  lemma DefaultCheckpointIngestsOnlyNewUsers(s: Store, browser: Browser, api: BookApi)
    ensures forall v :: v in ScraperRun(s, browser, api).inserted ==> v.userId !in s.users && v.year == START_YEAR
    ensures forall i, j :: 0 <= i < j < |ScraperRun(s, browser, api).inserted| ==>
      ScraperRun(s, browser, api).inserted[i].userId != ScraperRun(s, browser, api).inserted[j].userId
    ensures InOrder(ScraperRun(s, browser, api).inserted)
  {
    IngestOfAddsUser(api);
    CrawlYearsSound(s, RankingOf(browser), ReviewersOf(browser), IngestOf(api), DEFAULT_CHECKPOINT, START_YEAR, END_YEAR);
    CrawlYearsPositions(s, RankingOf(browser), ReviewersOf(browser), IngestOf(api), DEFAULT_CHECKPOINT, START_YEAR, END_YEAR);
  }

  /**
   * A `scraper_function` run adds to the store exactly the users it ingests. If it ends without
   * error it fetched the 2015 ranking and the reviewers of every book on it and stored every
   * reviewer, so each reviewer absent from the store before was ingested; if it fails, it stopped
   * at the failing ranking fetch, reviewer fetch or ingest.
   */
  lemma ScraperRunComplete(s: Store, browser: Browser, api: BookApi)
    ensures var r := ScraperRun(s, browser, api);
      && r.store.users == s.users + IngestedIds(r.inserted)
      && (r.failure.None? ==>
            YearsDone(r.store, r.inserted, RankingOf(browser), ReviewersOf(browser), DEFAULT_CHECKPOINT, START_YEAR, END_YEAR))
      && (r.failure.Some? ==>
            || EndsAtFailedIngest(IngestOf(api), r)
            || RankingFailed(RankingOf(browser), START_YEAR, END_YEAR, r)
            || SomeBookFetchFailed(RankingOf(browser), ReviewersOf(browser), DEFAULT_CHECKPOINT, START_YEAR, END_YEAR, r))
  {
    IngestOfAddsUser(api);
    CrawlYearsAdds(s, RankingOf(browser), ReviewersOf(browser), IngestOf(api), DEFAULT_CHECKPOINT, START_YEAR, END_YEAR);
    CrawlYearsComplete(s, RankingOf(browser), ReviewersOf(browser), IngestOf(api), DEFAULT_CHECKPOINT, START_YEAR, END_YEAR);
    CrawlYearsEnd(s, RankingOf(browser), ReviewersOf(browser), IngestOf(api), DEFAULT_CHECKPOINT, START_YEAR, END_YEAR);
  }

  // ---- the crawl without a checkpoint ----

  /** The users loop with no checkpoint: every stored user is skipped. */
  function PlainUsers(s: Store, ingest: Ingester, year: int, num: nat, ids: seq<string>, unum: nat): Run
    decreases |ids|
  {
    if ids == [] then Run(s, None, [])
    else if ids[0] in s.users then PlainUsers(s, ingest, year, num, ids[1..], unum + 1)
    else
      var step := ingest(s, ids[0]);
      var v := Visit(year, num, unum, ids[0]);
      if step.failure.Some? then Run(step.store, step.failure, [v])
      else After([v], PlainUsers(step.store, ingest, year, num, ids[1..], unum + 1))
  }

  /** The books loop with no checkpoint: no book is skipped. */
  function PlainBooks(s: Store, reviewers: Reviewers, ingest: Ingester, year: int, urls: seq<string>, num: nat): Run
    decreases |urls|
  {
    if urls == [] then Run(s, None, [])
    else
      match reviewers(urls[0])
      case Err(e) => Run(s, Some(e), [])
      case Ok(ids) =>
        var r := PlainUsers(s, ingest, year, num, ids, 1);
        if r.failure.Some? then r
        else After(r.inserted, PlainBooks(r.store, reviewers, ingest, year, urls[1..], num + 1))
  }

  function PlainYears(s: Store, ranking: Ranking, reviewers: Reviewers, ingest: Ingester, year: int, endYear: int): Run
    decreases year - endYear
  {
    if year <= endYear then Run(s, None, [])
    else
      match ranking(year)
      case Err(e) => Run(s, Some(e), [])
      case Ok(urls) =>
        var r := PlainBooks(s, reviewers, ingest, year, urls, 1);
        if r.failure.Some? then r
        else After(r.inserted, PlainYears(r.store, ranking, reviewers, ingest, year - 1, endYear))
  }

  /** Outside the checkpoint's book (another year, or a later book) no user is skipped by number or re-ingested. */
  lemma {:induction false} UsersWithoutCheckpoint(s: Store, ingest: Ingester, cp: Checkpoint, year: int, num: nat, ids: seq<string>, unum: nat)
    requires year != cp.year || cp.bookNum < num
    ensures CrawlUsers(s, ingest, cp, year, num, ids, unum) == PlainUsers(s, ingest, year, num, ids, unum)
    decreases |ids|
  {
    if ids != [] {
      if ids[0] in s.users {
        UsersWithoutCheckpoint(s, ingest, cp, year, num, ids[1..], unum + 1);
      } else {
        var step := ingest(s, ids[0]);
        UsersWithoutCheckpoint(step.store, ingest, cp, year, num, ids[1..], unum + 1);
      }
    }
  }

  /** In any year but the checkpoint's, and past the checkpoint's book in that year, no book is skipped. */
  lemma {:induction false} BooksWithoutCheckpoint(s: Store, reviewers: Reviewers, ingest: Ingester, cp: Checkpoint, year: int, urls: seq<string>, num: nat)
    requires year != cp.year || cp.bookNum < num
    ensures CrawlBooks(s, reviewers, ingest, cp, year, urls, num) == PlainBooks(s, reviewers, ingest, year, urls, num)
    decreases |urls|
  {
    if urls != [] {
      match reviewers(urls[0])
      case Err(e) =>
      case Ok(ids) =>
        UsersWithoutCheckpoint(s, ingest, cp, year, num, ids, 1);
        var r := PlainUsers(s, ingest, year, num, ids, 1);
        BooksWithoutCheckpoint(r.store, reviewers, ingest, cp, year, urls[1..], num + 1);
    }
  }

  /**
   * A checkpoint whose book number is below 1, such as the default one, or whose year lies outside
   * the crawled years, changes nothing: the crawl skips no book, no user by number, and
   * re-ingests no stored user.
   */
  lemma {:induction false} YearsWithoutCheckpoint(s: Store, ranking: Ranking, reviewers: Reviewers, ingest: Ingester, cp: Checkpoint, year: int, endYear: int)
    requires cp.bookNum < 1 || !(endYear < cp.year <= year)
    ensures CrawlYears(s, ranking, reviewers, ingest, cp, year, endYear) == PlainYears(s, ranking, reviewers, ingest, year, endYear)
    decreases year - endYear
  {
    if year > endYear {
      match ranking(year)
      case Err(e) =>
      case Ok(urls) =>
        BooksWithoutCheckpoint(s, reviewers, ingest, cp, year, urls, 1);
        var r := PlainBooks(s, reviewers, ingest, year, urls, 1);
        YearsWithoutCheckpoint(r.store, ranking, reviewers, ingest, cp, year - 1, endYear);
    }
  }

  // ---- the loops ----

  lemma AfterNothing(r: Run)
    ensures After([], r) == r
  {
    assert [] + r.inserted == r.inserted;
  }

  lemma AfterAfter(a: seq<Visit>, b: seq<Visit>, r: Run)
    ensures After(a, After(b, r)) == After(a + b, r)
  {
    assert a + (b + r.inserted) == (a + b) + r.inserted;
  }

  /** The innermost loop, over the reviewers of book `num`. */
  method IngestReviewers(db: Database, api: BookApi, cp: Checkpoint, year: int, num: nat, ids: seq<string>)
    returns (failure: Option<Failure>, ghost inserted: seq<Visit>)
    modifies db
    ensures Run(db.Contents(), failure, inserted) == CrawlUsers(old(db.Contents()), IngestOf(api), cp, year, num, ids, 1)
  {
    ghost var s0 := db.Contents();
    inserted := [];
    assert ids[0..] == ids;
    AfterNothing(CrawlUsers(s0, IngestOf(api), cp, year, num, ids, 1));
    for k := 0 to |ids|
      invariant CrawlUsers(s0, IngestOf(api), cp, year, num, ids, 1) == After(inserted, CrawlUsers(db.Contents(), IngestOf(api), cp, year, num, ids[k..], k + 1))
    {
      var uNum := k + 1;
      var userId := ids[k];
      assert ids[k..][0] == userId && ids[k..][1..] == ids[k + 1..];
      if SkipsUser(cp, year, num, uNum) {
        continue;
      }
      if IsUserExists(db.Contents(), userId) && !IsResume(cp, year, num, uNum) {
        continue;
      }
      ghost var before := db.Contents();
      var f := Insert(db, api, userId);
      assert Step(db.Contents(), f) == IngestOf(api)(before, userId);
      var v := Visit(year, num, uNum, userId);
      if f.Some? {
        AfterAfter(inserted, [v], Run(db.Contents(), f, []));
        assert [v] + [] == [v];
        return f, inserted + [v];
      }
      AfterAfter(inserted, [v], CrawlUsers(db.Contents(), IngestOf(api), cp, year, num, ids[k + 1..], k + 2));
      inserted := inserted + [v];
    }
    assert ids[|ids|..] == [] && inserted + [] == inserted;
    failure := None;
  }

  /** The middle loop, over the book URLs of one year's ranking. */
  method IngestBooks(db: Database, browser: Browser, api: BookApi, cp: Checkpoint, year: int, urls: seq<string>)
    returns (failure: Option<Failure>, ghost inserted: seq<Visit>)
    modifies db
    ensures Run(db.Contents(), failure, inserted) == CrawlBooks(old(db.Contents()), ReviewersOf(browser), IngestOf(api), cp, year, urls, 1)
  {
    ghost var s0 := db.Contents();
    inserted := [];
    assert urls[0..] == urls;
    AfterNothing(CrawlBooks(s0, ReviewersOf(browser), IngestOf(api), cp, year, urls, 1));
    for k := 0 to |urls|
      invariant CrawlBooks(s0, ReviewersOf(browser), IngestOf(api), cp, year, urls, 1) == After(inserted, CrawlBooks(db.Contents(), ReviewersOf(browser), IngestOf(api), cp, year, urls[k..], k + 1))
    {
      var num := k + 1;
      assert urls[k..][0] == urls[k] && urls[k..][1..] == urls[k + 1..];
      if SkipsBook(cp, year, num) {
        continue;
      }
      var userIdList := GetUsersFromBookUrl(browser, urls[k], REVIEW_PAGES);
      assert userIdList == ReviewersOf(browser)(urls[k]);
      if userIdList.Err? {
        assert inserted + [] == inserted;
        return Some(userIdList.error), inserted;
      }
      var f, vs := IngestReviewers(db, api, cp, year, num, userIdList.value);
      if f.Some? {
        return f, inserted + vs;
      }
      AfterAfter(inserted, vs, CrawlBooks(db.Contents(), ReviewersOf(browser), IngestOf(api), cp, year, urls[k + 1..], k + 2));
      inserted := inserted + vs;
    }
    assert urls[|urls|..] == [] && inserted + [] == inserted;
    failure := None;
  }

  /**
   * `scraper_function`, its start year, end year and checkpoint given as arguments (the script
   * fixes them to 2015, 2014 and (2015, 0, 0)).
   */
  method ScraperFunction(db: Database, browser: Browser, api: BookApi, cp: Checkpoint, startYear: int, endYear: int)
    returns (failure: Option<Failure>, ghost inserted: seq<Visit>)
    modifies db
    ensures Run(db.Contents(), failure, inserted) == CrawlYears(old(db.Contents()), RankingOf(browser), ReviewersOf(browser), IngestOf(api), cp, startYear, endYear)
  {
    ghost var s0 := db.Contents();
    ghost var ranking, reviewers, ingest := RankingOf(browser), ReviewersOf(browser), IngestOf(api);
    inserted := [];
    AfterNothing(CrawlYears(s0, ranking, reviewers, ingest, cp, startYear, endYear));
    var year := startYear;
    while year > endYear
      invariant CrawlYears(s0, ranking, reviewers, ingest, cp, startYear, endYear) == After(inserted, CrawlYears(db.Contents(), ranking, reviewers, ingest, cp, year, endYear))
      decreases year - endYear
    {
      ghost var before := db.Contents();
      var bookUrls := GetBookUrlsFromRanking(browser, year, RANKING_PAGES);
      assert bookUrls == ranking(year);
      if bookUrls.Err? {
        assert CrawlYears(before, ranking, reviewers, ingest, cp, year, endYear) == Run(before, Some(bookUrls.error), []);
        assert inserted + [] == inserted;
        return Some(bookUrls.error), inserted;
      }
      var f, vs := IngestBooks(db, browser, api, cp, year, bookUrls.value);
      ghost var r := CrawlBooks(before, reviewers, ingest, cp, year, bookUrls.value, 1);
      assert r == Run(db.Contents(), f, vs);
      if f.Some? {
        assert CrawlYears(before, ranking, reviewers, ingest, cp, year, endYear) == r;
        return f, inserted + vs;
      }
      assert CrawlYears(before, ranking, reviewers, ingest, cp, year, endYear)
        == After(vs, CrawlYears(db.Contents(), ranking, reviewers, ingest, cp, year - 1, endYear));
      AfterAfter(inserted, vs, CrawlYears(db.Contents(), ranking, reviewers, ingest, cp, year - 1, endYear));
      inserted := inserted + vs;
      year := year - 1;
    }
    assert inserted + [] == inserted;
    failure := None;
  }
}
