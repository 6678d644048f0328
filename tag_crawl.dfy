/**
 * The tag crawl of _user_from_tag.py: fetch the popular profile tags, then for every tag up to
 * 100 pages of its users, and ingest every user not yet stored. A running counter `cnt`, started
 * at the number of stored users, grows by 1000 for an excluded tag and by one for every user
 * seen; users seen while it is below `exclude_user_cnt` are skipped. A `TimeoutError` from
 * `insert` ends the whole crawl normally; any other error propagates.
 */
module TagCrawl {
  import opened Wrappers
  import opened Mongo
  import opened Scraping
  import opened Ingest

  /** `exclude_tag_list` and `exclude_user_cnt` as the script sets them. */
  const EXCLUDE_TAGS: seq<string> := []
  const EXCLUDE_USER_CNT := 0
  /** The page count passed to `get_users_from_profile_tag`. */
  const TAG_PAGES := 100
  /** What an excluded tag adds to the counter. */
  const TAG_SKIP := 1000

  /** How the crawl ended: `Completed` and `TimedOut` are normal returns, `Failed` raises. */
  datatype Outcome = Completed | TimedOut(userId: string) | Failed(error: Failure)

  /** One call of `insert`: the tag being processed and the user ingested. */
  datatype TagVisit = TagVisit(tag: string, userId: string)

  datatype TagRun = TagRun(store: Store, outcome: Outcome, cnt: int, inserted: seq<TagVisit>)

  function After(visits: seq<TagVisit>, r: TagRun): TagRun
  {
    TagRun(r.store, r.outcome, r.cnt, visits + r.inserted)
  }

  /** How an `insert` that raised ends the crawl. */
  function Stop(userId: string, e: Failure): Outcome
  {
    if e == TimeoutError then TimedOut(userId) else Failed(e)
  }

  /**
   * The users loop of one tag. Each user is ingested at most once, and a loop that ingests
   * nobody leaves the store alone.
   */
  function CrawlTagUsers(s: Store, api: BookApi, tag: string, users: seq<string>, cnt: int, excludeUserCnt: int): (r: TagRun)
    ensures |r.inserted| <= |users|
    ensures r.inserted == [] ==> r.store == s
    decreases |users|
  {
    if users == [] then TagRun(s, Completed, cnt, [])
    else
      var c := cnt + 1;
      if c < excludeUserCnt then CrawlTagUsers(s, api, tag, users[1..], c, excludeUserCnt)
      else if IsUserExists(s, users[0]) then CrawlTagUsers(s, api, tag, users[1..], c, excludeUserCnt)
      else
        var step := IngestUser(s, api, users[0]);
        var v := TagVisit(tag, users[0]);
        match step.failure
        case Some(e) => TagRun(step.store, Stop(users[0], e), c, [v])
        case None => After([v], CrawlTagUsers(step.store, api, tag, users[1..], c, excludeUserCnt))
  }

  /** The tags loop. Only an ingest writes to the store. */
  function CrawlTags(s: Store, browser: Browser, api: BookApi, tags: seq<string>, cnt: int, excludeTags: seq<string>, excludeUserCnt: int): (r: TagRun)
    ensures r.inserted == [] ==> r.store == s
    decreases |tags|
  {
    if tags == [] then TagRun(s, Completed, cnt, [])
    else if tags[0] in excludeTags then CrawlTags(s, browser, api, tags[1..], cnt + TAG_SKIP, excludeTags, excludeUserCnt)
    else
      match ProfileTagUsers(browser, tags[0], TAG_PAGES)
      case Err(e) => TagRun(s, Failed(e), cnt, [])
      case Ok(users) =>
        var r := CrawlTagUsers(s, api, tags[0], users, cnt, excludeUserCnt);
        if !r.outcome.Completed? then r
        else After(r.inserted, CrawlTags(r.store, browser, api, tags[1..], r.cnt, excludeTags, excludeUserCnt))
  }

  /**
   * `user_function` with its exclusion settings as arguments. When the tags cannot be fetched
   * the counter is never set; the run then reports the stored user count.
   */
  function UserRun(s: Store, browser: Browser, api: BookApi, excludeTags: seq<string>, excludeUserCnt: int): (r: TagRun)
    ensures GetPopularProfileTags(browser).Err? ==> r.outcome.Failed? && r.inserted == []
    ensures r.inserted == [] ==> r.store == s
  {
    match GetPopularProfileTags(browser)
    case Err(e) => TagRun(s, Failed(e), CountAllUsers(s), [])
    case Ok(tags) => CrawlTags(s, browser, api, tags, CountAllUsers(s), excludeTags, excludeUserCnt)
  }

  // ---- facts about a run ----

  /** The counter grows by one per user seen: all of them when the loop completes. */
  lemma {:induction false} TagUsersCount(s: Store, api: BookApi, tag: string, users: seq<string>, cnt: int, excludeUserCnt: int)
    ensures CrawlTagUsers(s, api, tag, users, cnt, excludeUserCnt).outcome.Completed? ==>
      CrawlTagUsers(s, api, tag, users, cnt, excludeUserCnt).cnt == cnt + |users|
    ensures !CrawlTagUsers(s, api, tag, users, cnt, excludeUserCnt).outcome.Completed? ==>
      cnt < CrawlTagUsers(s, api, tag, users, cnt, excludeUserCnt).cnt <= cnt + |users|
    decreases |users|
  {
    if users != [] {
      var c := cnt + 1;
      if c < excludeUserCnt || IsUserExists(s, users[0]) {
        TagUsersCount(s, api, tag, users[1..], c, excludeUserCnt);
      } else {
        var step := IngestUser(s, api, users[0]);
        if step.failure.None? {
          TagUsersCount(step.store, api, tag, users[1..], c, excludeUserCnt);
        }
      }
    }
  }

  /** Every ingested user was absent from the store and is in it afterwards. */
  ghost predicate FreshAndStored(s: Store, r: TagRun)
  {
    && Grows(s, r.store)
    && (forall v :: v in r.inserted ==> v.userId !in s.users && v.userId in r.store.users)
    && (forall i, j :: 0 <= i < j < |r.inserted| ==> r.inserted[i].userId != r.inserted[j].userId)
  }

  /**
   * A `TimeoutError` from `insert` ends the crawl at the user it was ingesting, who stays
   * stored, so a later run skips that user.
   */
  ghost predicate EndsAtFailedUser(r: TagRun)
  {
    r.outcome.TimedOut? ==>
      && r.inserted != []
      && r.inserted[|r.inserted| - 1].userId == r.outcome.userId
      && r.outcome.userId in r.store.users
  }

  lemma FreshAfter(s: Store, mid: Store, a: seq<TagVisit>, r: TagRun)
    requires Grows(s, mid)
    requires forall v :: v in a ==> v.userId !in s.users && v.userId in mid.users
    requires forall i, j :: 0 <= i < j < |a| ==> a[i].userId != a[j].userId
    requires FreshAndStored(mid, r)
    ensures FreshAndStored(s, After(a, r))
  {
    GrowsTransitive(s, mid, r.store);
    var vs := a + r.inserted;
    forall i, j | 0 <= i < j < |vs|
      ensures vs[i].userId != vs[j].userId
    {
      if j >= |a| {
        assert vs[j] == r.inserted[j - |a|];
        if i >= |a| {
          assert vs[i] == r.inserted[i - |a|];
        } else {
          assert vs[i] in a;
        }
      }
    }
    assert forall v :: v in vs <==> v in a || v in r.inserted;
  }

  /** The users loop ingests only users absent from the store before it, and never one twice. */
  lemma {:induction false} TagUsersFresh(s: Store, api: BookApi, tag: string, users: seq<string>, cnt: int, excludeUserCnt: int)
    ensures FreshAndStored(s, CrawlTagUsers(s, api, tag, users, cnt, excludeUserCnt))
    decreases |users|
  {
    if users != [] {
      var c := cnt + 1;
      if c < excludeUserCnt || IsUserExists(s, users[0]) {
        TagUsersFresh(s, api, tag, users[1..], c, excludeUserCnt);
      } else {
        var step := IngestUser(s, api, users[0]);
        var v := TagVisit(tag, users[0]);
        IngestUserEffect(s, api, users[0]);
        assert forall w :: w in [v] ==> w == v;
        if step.failure.None? {
          var rest := CrawlTagUsers(step.store, api, tag, users[1..], c, excludeUserCnt);
          TagUsersFresh(step.store, api, tag, users[1..], c, excludeUserCnt);
          FreshAfter(s, step.store, [v], rest);
        }
      }
    }
  }

  /** A `TimeoutError` stops the users loop at the user being ingested, who stays stored. */
  lemma {:induction false} TagUsersEnd(s: Store, api: BookApi, tag: string, users: seq<string>, cnt: int, excludeUserCnt: int)
    ensures EndsAtFailedUser(CrawlTagUsers(s, api, tag, users, cnt, excludeUserCnt))
    decreases |users|
  {
    if users != [] {
      var c := cnt + 1;
      if c < excludeUserCnt || IsUserExists(s, users[0]) {
        TagUsersEnd(s, api, tag, users[1..], c, excludeUserCnt);
      } else {
        var step := IngestUser(s, api, users[0]);
        var v := TagVisit(tag, users[0]);
        IngestUserEffect(s, api, users[0]);
        if step.failure.None? {
          var rest := CrawlTagUsers(step.store, api, tag, users[1..], c, excludeUserCnt);
          TagUsersEnd(step.store, api, tag, users[1..], c, excludeUserCnt);
          if rest.outcome.TimedOut? {
            assert ([v] + rest.inserted)[|[v] + rest.inserted| - 1] == rest.inserted[|rest.inserted| - 1];
          }
        }
      }
    }
  }

  /** Every user the loop ingests is listed under this tag. */
  lemma {:induction false} TagUsersListed(s: Store, api: BookApi, tag: string, users: seq<string>, cnt: int, excludeUserCnt: int)
    ensures forall v :: v in CrawlTagUsers(s, api, tag, users, cnt, excludeUserCnt).inserted ==> v.tag == tag && v.userId in users
    decreases |users|
  {
    if users != [] {
      var c := cnt + 1;
      if c < excludeUserCnt || IsUserExists(s, users[0]) {
        TagUsersListed(s, api, tag, users[1..], c, excludeUserCnt);
      } else {
        var step := IngestUser(s, api, users[0]);
        var v := TagVisit(tag, users[0]);
        if step.failure.None? {
          var rest := CrawlTagUsers(step.store, api, tag, users[1..], c, excludeUserCnt);
          TagUsersListed(step.store, api, tag, users[1..], c, excludeUserCnt);
          assert forall w :: w in [v] + rest.inserted ==> w == v || w in rest.inserted;
        }
      }
    }
  }

  /** The tags loop ingests only users absent from the store before it, and never one twice. */
  lemma {:induction false} TagsFresh(s: Store, browser: Browser, api: BookApi, tags: seq<string>, cnt: int, excludeTags: seq<string>, excludeUserCnt: int)
    ensures FreshAndStored(s, CrawlTags(s, browser, api, tags, cnt, excludeTags, excludeUserCnt))
    decreases |tags|
  {
    if tags == [] {
    } else if tags[0] in excludeTags {
      TagsFresh(s, browser, api, tags[1..], cnt + TAG_SKIP, excludeTags, excludeUserCnt);
    } else {
      match ProfileTagUsers(browser, tags[0], TAG_PAGES)
      case Err(e) =>
      case Ok(users) =>
        var r := CrawlTagUsers(s, api, tags[0], users, cnt, excludeUserCnt);
        TagUsersFresh(s, api, tags[0], users, cnt, excludeUserCnt);
        if r.outcome.Completed? {
          var rest := CrawlTags(r.store, browser, api, tags[1..], r.cnt, excludeTags, excludeUserCnt);
          TagsFresh(r.store, browser, api, tags[1..], r.cnt, excludeTags, excludeUserCnt);
          FreshAfter(s, r.store, r.inserted, rest);
        }
    }
  }

  /** A `TimeoutError` ends the whole crawl at the user being ingested, who stays stored. */
  lemma {:induction false} TagsEnd(s: Store, browser: Browser, api: BookApi, tags: seq<string>, cnt: int, excludeTags: seq<string>, excludeUserCnt: int)
    ensures EndsAtFailedUser(CrawlTags(s, browser, api, tags, cnt, excludeTags, excludeUserCnt))
    decreases |tags|
  {
    if tags == [] {
    } else if tags[0] in excludeTags {
      TagsEnd(s, browser, api, tags[1..], cnt + TAG_SKIP, excludeTags, excludeUserCnt);
    } else {
      match ProfileTagUsers(browser, tags[0], TAG_PAGES)
      case Err(e) =>
      case Ok(users) =>
        var r := CrawlTagUsers(s, api, tags[0], users, cnt, excludeUserCnt);
        TagUsersEnd(s, api, tags[0], users, cnt, excludeUserCnt);
        if r.outcome.Completed? {
          var rest := CrawlTags(r.store, browser, api, tags[1..], r.cnt, excludeTags, excludeUserCnt);
          TagsEnd(r.store, browser, api, tags[1..], r.cnt, excludeTags, excludeUserCnt);
          if rest.outcome.TimedOut? {
            var all := r.inserted + rest.inserted;
            assert all[|all| - 1] == rest.inserted[|rest.inserted| - 1];
          }
        }
    }
  }

  /** No user is ingested under an excluded tag. */
  lemma {:induction false} TagsExcluded(s: Store, browser: Browser, api: BookApi, tags: seq<string>, cnt: int, excludeTags: seq<string>, excludeUserCnt: int)
    ensures forall v :: v in CrawlTags(s, browser, api, tags, cnt, excludeTags, excludeUserCnt).inserted ==>
      v.tag in tags && v.tag !in excludeTags
    decreases |tags|
  {
    if tags == [] {
    } else if tags[0] in excludeTags {
      TagsExcluded(s, browser, api, tags[1..], cnt + TAG_SKIP, excludeTags, excludeUserCnt);
    } else {
      match ProfileTagUsers(browser, tags[0], TAG_PAGES)
      case Err(e) =>
      case Ok(users) =>
        var r := CrawlTagUsers(s, api, tags[0], users, cnt, excludeUserCnt);
        TagUsersListed(s, api, tags[0], users, cnt, excludeUserCnt);
        if r.outcome.Completed? {
          var rest := CrawlTags(r.store, browser, api, tags[1..], r.cnt, excludeTags, excludeUserCnt);
          TagsExcluded(r.store, browser, api, tags[1..], r.cnt, excludeTags, excludeUserCnt);
          assert forall w :: w in r.inserted + rest.inserted ==> w in r.inserted || w in rest.inserted;
        }
    }
  }

  /** The counter's increase for one tag: 1000 when excluded, else one per user of the tag. */
  function TagWeight(browser: Browser, tag: string, excludeTags: seq<string>): nat
  {
    if tag in excludeTags then TAG_SKIP
    else
      match ProfileTagUsers(browser, tag, TAG_PAGES)
      case Err(_) => 0
      case Ok(users) => |users|
  }

  function TotalWeight(browser: Browser, tags: seq<string>, excludeTags: seq<string>): nat
  {
    if tags == [] then 0 else TagWeight(browser, tags[0], excludeTags) + TotalWeight(browser, tags[1..], excludeTags)
  }

  /** A completed crawl ends with the counter at its start plus every tag's weight. */
  lemma {:induction false} TagsCount(s: Store, browser: Browser, api: BookApi, tags: seq<string>, cnt: int, excludeTags: seq<string>, excludeUserCnt: int)
    ensures CrawlTags(s, browser, api, tags, cnt, excludeTags, excludeUserCnt).outcome.Completed? ==>
      CrawlTags(s, browser, api, tags, cnt, excludeTags, excludeUserCnt).cnt == cnt + TotalWeight(browser, tags, excludeTags)
    decreases |tags|
  {
    if tags == [] {
    } else if tags[0] in excludeTags {
      TagsCount(s, browser, api, tags[1..], cnt + TAG_SKIP, excludeTags, excludeUserCnt);
    } else {
      match ProfileTagUsers(browser, tags[0], TAG_PAGES)
      case Err(e) =>
      case Ok(users) =>
        var r := CrawlTagUsers(s, api, tags[0], users, cnt, excludeUserCnt);
        TagUsersCount(s, api, tags[0], users, cnt, excludeUserCnt);
        if r.outcome.Completed? {
          TagsCount(r.store, browser, api, tags[1..], r.cnt, excludeTags, excludeUserCnt);
        }
    }
  }

  /** While the counter stays below `exclude_user_cnt`, users are skipped without a lookup. */
  lemma {:induction false} BelowExcludeSkipsAll(s: Store, api: BookApi, tag: string, users: seq<string>, cnt: int, excludeUserCnt: int)
    requires cnt + |users| < excludeUserCnt
    ensures CrawlTagUsers(s, api, tag, users, cnt, excludeUserCnt) == TagRun(s, Completed, cnt + |users|, [])
    decreases |users|
  {
    if users != [] {
      BelowExcludeSkipsAll(s, api, tag, users[1..], cnt + 1, excludeUserCnt);
    }
  }

  // ---- what the crawl must ingest ----

  /** The users the visits ingested. */
  function TagIngestedIds(visits: seq<TagVisit>): set<string>
  {
    set v | v in visits :: v.userId
  }

  lemma TagIngestedIdsConcat(a: seq<TagVisit>, b: seq<TagVisit>)
    ensures TagIngestedIds(a + b) == TagIngestedIds(a) + TagIngestedIds(b)
  {
    assert forall v :: v in a + b <==> v in a || v in b;
  }

  /** The users loop adds to `users` exactly the users it ingests, however it ends. */
  lemma {:induction false} TagUsersAdds(s: Store, api: BookApi, tag: string, users: seq<string>, cnt: int, excludeUserCnt: int)
    ensures var r := CrawlTagUsers(s, api, tag, users, cnt, excludeUserCnt);
      r.store.users == s.users + TagIngestedIds(r.inserted)
    decreases |users|
  {
    if users == [] {
      assert TagIngestedIds([]) == {};
    } else {
      var c := cnt + 1;
      if c < excludeUserCnt || IsUserExists(s, users[0]) {
        TagUsersAdds(s, api, tag, users[1..], c, excludeUserCnt);
      } else {
        var step := IngestUser(s, api, users[0]);
        var v := TagVisit(tag, users[0]);
        IngestUserEffect(s, api, users[0]);
        assert TagIngestedIds([v]) == {users[0]};
        if step.failure.None? {
          var rest := CrawlTagUsers(step.store, api, tag, users[1..], c, excludeUserCnt);
          TagUsersAdds(step.store, api, tag, users[1..], c, excludeUserCnt);
          TagIngestedIdsConcat([v], rest.inserted);
        }
      }
    }
  }

  /** The tags loop adds to `users` exactly the users it ingests, however it ends. */
  lemma {:induction false} TagsAdds(s: Store, browser: Browser, api: BookApi, tags: seq<string>, cnt: int, excludeTags: seq<string>, excludeUserCnt: int)
    ensures var r := CrawlTags(s, browser, api, tags, cnt, excludeTags, excludeUserCnt);
      r.store.users == s.users + TagIngestedIds(r.inserted)
    decreases |tags|
  {
    if tags == [] {
      assert TagIngestedIds([]) == {};
    } else if tags[0] in excludeTags {
      TagsAdds(s, browser, api, tags[1..], cnt + TAG_SKIP, excludeTags, excludeUserCnt);
    } else {
      match ProfileTagUsers(browser, tags[0], TAG_PAGES)
      case Err(e) =>
        assert TagIngestedIds([]) == {};
      case Ok(users) =>
        var r := CrawlTagUsers(s, api, tags[0], users, cnt, excludeUserCnt);
        TagUsersAdds(s, api, tags[0], users, cnt, excludeUserCnt);
        if r.outcome.Completed? {
          var rest := CrawlTags(r.store, browser, api, tags[1..], r.cnt, excludeTags, excludeUserCnt);
          TagsAdds(r.store, browser, api, tags[1..], r.cnt, excludeTags, excludeUserCnt);
          TagIngestedIdsConcat(r.inserted, rest.inserted);
        }
    }
  }

  /** Every user seen once the counter has reached `exclude_user_cnt` is stored in `t`. */
  ghost predicate TagUsersDone(t: Store, users: seq<string>, cnt: int, excludeUserCnt: int)
  {
    forall k :: 0 <= k < |users| && excludeUserCnt <= cnt + k + 1 ==> users[k] in t.users
  }

  lemma TagUsersDoneCons(t: Store, users: seq<string>, cnt: int, excludeUserCnt: int)
    requires users != []
    requires excludeUserCnt <= cnt + 1 ==> users[0] in t.users
    requires TagUsersDone(t, users[1..], cnt + 1, excludeUserCnt)
    ensures TagUsersDone(t, users, cnt, excludeUserCnt)
  {
    forall k | 0 <= k < |users| && excludeUserCnt <= cnt + k + 1
      ensures users[k] in t.users
    {
      if k > 0 {
        assert users[1..][k - 1] == users[k];
      }
    }
  }

  /** A users loop that completes leaves every user it does not skip by the counter stored. */
  lemma {:induction false} TagUsersComplete(s: Store, api: BookApi, tag: string, users: seq<string>, cnt: int, excludeUserCnt: int)
    ensures var r := CrawlTagUsers(s, api, tag, users, cnt, excludeUserCnt);
      r.outcome.Completed? ==> TagUsersDone(r.store, users, cnt, excludeUserCnt)
    decreases |users|
  {
    var r := CrawlTagUsers(s, api, tag, users, cnt, excludeUserCnt);
    if users != [] && r.outcome.Completed? {
      var c := cnt + 1;
      if c < excludeUserCnt || IsUserExists(s, users[0]) {
        assert r == CrawlTagUsers(s, api, tag, users[1..], c, excludeUserCnt);
        TagUsersComplete(s, api, tag, users[1..], c, excludeUserCnt);
        TagUsersAdds(s, api, tag, users[1..], c, excludeUserCnt);
        TagUsersDoneCons(r.store, users, cnt, excludeUserCnt);
      } else {
        var step := IngestUser(s, api, users[0]);
        var v := TagVisit(tag, users[0]);
        IngestUserEffect(s, api, users[0]);
        var rest := CrawlTagUsers(step.store, api, tag, users[1..], c, excludeUserCnt);
        assert r == After([v], rest);
        TagUsersComplete(step.store, api, tag, users[1..], c, excludeUserCnt);
        TagUsersAdds(step.store, api, tag, users[1..], c, excludeUserCnt);
        TagUsersDoneCons(r.store, users, cnt, excludeUserCnt);
      }
    }
  }

  /**
   * Tag by tag, with the counter as the crawl keeps it: each tag not excluded had its users
   * fetched, and they are done in the sense of `TagUsersDone`.
   */
  ghost predicate TagsDone(t: Store, browser: Browser, tags: seq<string>, cnt: int, excludeTags: seq<string>, excludeUserCnt: int)
    decreases |tags|
  {
    tags != [] ==>
      && (tags[0] !in excludeTags ==>
            && ProfileTagUsers(browser, tags[0], TAG_PAGES).Ok?
            && TagUsersDone(t, ProfileTagUsers(browser, tags[0], TAG_PAGES).value, cnt, excludeUserCnt))
      && TagsDone(t, browser, tags[1..], cnt + TagWeight(browser, tags[0], excludeTags), excludeTags, excludeUserCnt)
  }

  lemma {:induction false} TagsDoneMono(t: Store, t2: Store, browser: Browser, tags: seq<string>, cnt: int, excludeTags: seq<string>, excludeUserCnt: int)
    requires TagsDone(t, browser, tags, cnt, excludeTags, excludeUserCnt)
    requires t.users <= t2.users
    ensures TagsDone(t2, browser, tags, cnt, excludeTags, excludeUserCnt)
    decreases |tags|
  {
    if tags != [] {
      TagsDoneMono(t, t2, browser, tags[1..], cnt + TagWeight(browser, tags[0], excludeTags), excludeTags, excludeUserCnt);
    }
  }

  /** A tags loop that completes fetched every tag not excluded and is done with its users. */
  lemma {:induction false} TagsComplete(s: Store, browser: Browser, api: BookApi, tags: seq<string>, cnt: int, excludeTags: seq<string>, excludeUserCnt: int)
    ensures var r := CrawlTags(s, browser, api, tags, cnt, excludeTags, excludeUserCnt);
      r.outcome.Completed? ==> TagsDone(r.store, browser, tags, cnt, excludeTags, excludeUserCnt)
    decreases |tags|
  {
    var r := CrawlTags(s, browser, api, tags, cnt, excludeTags, excludeUserCnt);
    if tags != [] && r.outcome.Completed? {
      if tags[0] in excludeTags {
        TagsComplete(s, browser, api, tags[1..], cnt + TAG_SKIP, excludeTags, excludeUserCnt);
      } else {
        assert ProfileTagUsers(browser, tags[0], TAG_PAGES).Ok?;
        var users := ProfileTagUsers(browser, tags[0], TAG_PAGES).value;
        var u := CrawlTagUsers(s, api, tags[0], users, cnt, excludeUserCnt);
        assert u.outcome.Completed?;
        var rest := CrawlTags(u.store, browser, api, tags[1..], u.cnt, excludeTags, excludeUserCnt);
        assert r == After(u.inserted, rest);
        TagUsersCount(s, api, tags[0], users, cnt, excludeUserCnt);
        TagUsersComplete(s, api, tags[0], users, cnt, excludeUserCnt);
        TagsAdds(u.store, browser, api, tags[1..], u.cnt, excludeTags, excludeUserCnt);
        TagsComplete(u.store, browser, api, tags[1..], u.cnt, excludeTags, excludeUserCnt);
        assert TagUsersDone(r.store, users, cnt, excludeUserCnt);
      }
    }
  }

  /**
   * With no tag excluded and `exclude_user_cnt` at most one above the counter's start, a done
   * store holds every user of every tag.
   */
  lemma {:induction false} TagsDoneAll(t: Store, browser: Browser, tags: seq<string>, cnt: int, excludeUserCnt: int)
    requires TagsDone(t, browser, tags, cnt, [], excludeUserCnt)
    requires excludeUserCnt <= cnt + 1
    ensures forall i :: 0 <= i < |tags| ==>
      && ProfileTagUsers(browser, tags[i], TAG_PAGES).Ok?
      && forall u :: u in ProfileTagUsers(browser, tags[i], TAG_PAGES).value ==> u in t.users
    decreases |tags|
  {
    if tags != [] {
      TagsDoneAll(t, browser, tags[1..], cnt + TagWeight(browser, tags[0], []), excludeUserCnt);
      forall i | 0 <= i < |tags|
        ensures ProfileTagUsers(browser, tags[i], TAG_PAGES).Ok?
        ensures forall u :: u in ProfileTagUsers(browser, tags[i], TAG_PAGES).value ==> u in t.users
      {
        if i > 0 {
          assert tags[1..][i - 1] == tags[i];
        } else {
          var users := ProfileTagUsers(browser, tags[0], TAG_PAGES).value;
          forall u | u in users
            ensures u in t.users
          {
            var k :| 0 <= k < |users| && users[k] == u;
          }
        }
      }
    }
  }

  /**
   * `user_function` adds to the store exactly the users it ingests; if it completes, it fetched
   * the tags and the users of every tag not excluded, and stored each user it reached with the
   * counter at or above `exclude_user_cnt`.
   */
  lemma UserRunComplete(s: Store, browser: Browser, api: BookApi, excludeTags: seq<string>, excludeUserCnt: int)
    ensures var r := UserRun(s, browser, api, excludeTags, excludeUserCnt);
      && r.store.users == s.users + TagIngestedIds(r.inserted)
      && (r.outcome.Completed? ==>
            && GetPopularProfileTags(browser).Ok?
            && TagsDone(r.store, browser, GetPopularProfileTags(browser).value, CountAllUsers(s), excludeTags, excludeUserCnt))
  {
    match GetPopularProfileTags(browser)
    case Err(e) =>
      assert TagIngestedIds([]) == {};
    case Ok(tags) =>
      TagsAdds(s, browser, api, tags, CountAllUsers(s), excludeTags, excludeUserCnt);
      TagsComplete(s, browser, api, tags, CountAllUsers(s), excludeTags, excludeUserCnt);
  }

  /** With the script's settings, a completed run has stored every user of every popular tag. */
  lemma ScriptRunStoresAll(s: Store, browser: Browser, api: BookApi)
    ensures var r := UserRun(s, browser, api, EXCLUDE_TAGS, EXCLUDE_USER_CNT);
      r.outcome.Completed? ==>
        && GetPopularProfileTags(browser).Ok?
        && var tags := GetPopularProfileTags(browser).value;
           forall i :: 0 <= i < |tags| ==>
             && ProfileTagUsers(browser, tags[i], TAG_PAGES).Ok?
             && forall u :: u in ProfileTagUsers(browser, tags[i], TAG_PAGES).value ==> u in r.store.users
  {
    var r := UserRun(s, browser, api, EXCLUDE_TAGS, EXCLUDE_USER_CNT);
    UserRunComplete(s, browser, api, EXCLUDE_TAGS, EXCLUDE_USER_CNT);
    if r.outcome.Completed? {
      TagsDoneAll(r.store, browser, GetPopularProfileTags(browser).value, CountAllUsers(s), EXCLUDE_USER_CNT);
    }
  }

  // ---- the crawl without the counter ----

  /** The users loop with no counter: only stored users are skipped. */
  function PlainTagUsers(s: Store, api: BookApi, tag: string, users: seq<string>): TagRun
    decreases |users|
  {
    if users == [] then TagRun(s, Completed, 0, [])
    else if users[0] in s.users then PlainTagUsers(s, api, tag, users[1..])
    else
      var step := IngestUser(s, api, users[0]);
      var v := TagVisit(tag, users[0]);
      match step.failure
      case Some(e) => TagRun(step.store, Stop(users[0], e), 0, [v])
      case None => After([v], PlainTagUsers(step.store, api, tag, users[1..]))
  }

  /** Same run as `r`, whatever the counter. */
  predicate SameRun(r: TagRun, p: TagRun)
  {
    r.store == p.store && r.outcome == p.outcome && r.inserted == p.inserted
  }

  /**
   * With `exclude_user_cnt` at most one above the counter's start, such as the script's 0 with
   * a counter that starts at a user count, the counter skips no user.
   */
  lemma {:induction false} CounterSkipsNothing(s: Store, api: BookApi, tag: string, users: seq<string>, cnt: int, excludeUserCnt: int)
    requires excludeUserCnt <= cnt + 1
    ensures SameRun(CrawlTagUsers(s, api, tag, users, cnt, excludeUserCnt), PlainTagUsers(s, api, tag, users))
    decreases |users|
  {
    if users != [] {
      if users[0] in s.users {
        CounterSkipsNothing(s, api, tag, users[1..], cnt + 1, excludeUserCnt);
      } else {
        var step := IngestUser(s, api, users[0]);
        if step.failure.None? {
          CounterSkipsNothing(step.store, api, tag, users[1..], cnt + 1, excludeUserCnt);
        }
      }
    }
  }

  // ---- the loops ----

  lemma AfterNothing(r: TagRun)
    ensures After([], r) == r
  {
    assert [] + r.inserted == r.inserted;
  }

  lemma AfterAfter(a: seq<TagVisit>, b: seq<TagVisit>, r: TagRun)
    ensures After(a, After(b, r)) == After(a + b, r)
  {
    assert a + (b + r.inserted) == (a + b) + r.inserted;
  }

  /** The inner loop over the users of one tag. */
  method IngestTagUsers(db: Database, api: BookApi, tag: string, users: seq<string>, cnt0: int, excludeUserCnt: int)
    returns (outcome: Outcome, cnt: int, ghost inserted: seq<TagVisit>)
    modifies db
    ensures TagRun(db.Contents(), outcome, cnt, inserted) == CrawlTagUsers(old(db.Contents()), api, tag, users, cnt0, excludeUserCnt)
  {
    ghost var s0 := db.Contents();
    cnt := cnt0;
    inserted := [];
    assert users[0..] == users;
    AfterNothing(CrawlTagUsers(s0, api, tag, users, cnt0, excludeUserCnt));
    for k := 0 to |users|
      invariant CrawlTagUsers(s0, api, tag, users, cnt0, excludeUserCnt)
        == After(inserted, CrawlTagUsers(db.Contents(), api, tag, users[k..], cnt, excludeUserCnt))
    {
      var user := users[k];
      assert users[k..][0] == user && users[k..][1..] == users[k + 1..];
      cnt := cnt + 1;
      if cnt < excludeUserCnt {
        continue;
      }
      if IsUserExists(db.Contents(), user) {
        continue;
      }
      var f := Insert(db, api, user);
      var v := TagVisit(tag, user);
      if f.Some? {
        AfterAfter(inserted, [v], TagRun(db.Contents(), Stop(user, f.value), cnt, []));
        assert [v] + [] == [v];
        return Stop(user, f.value), cnt, inserted + [v];
      }
      AfterAfter(inserted, [v], CrawlTagUsers(db.Contents(), api, tag, users[k + 1..], cnt, excludeUserCnt));
      inserted := inserted + [v];
    }
    assert users[|users|..] == [] && inserted + [] == inserted;
    outcome := Completed;
  }

  /** The tags loop of `user_function`, from counter `cnt0`. */
  method IngestTags(db: Database, browser: Browser, api: BookApi, tags: seq<string>, cnt0: int, excludeTags: seq<string>, excludeUserCnt: int)
    returns (outcome: Outcome, cnt: int, ghost inserted: seq<TagVisit>)
    modifies db
    ensures TagRun(db.Contents(), outcome, cnt, inserted) == CrawlTags(old(db.Contents()), browser, api, tags, cnt0, excludeTags, excludeUserCnt)
  {
    ghost var s0 := db.Contents();
    cnt := cnt0;
    inserted := [];
    assert tags[0..] == tags;
    AfterNothing(CrawlTags(s0, browser, api, tags, cnt0, excludeTags, excludeUserCnt));
    for k := 0 to |tags|
      invariant CrawlTags(s0, browser, api, tags, cnt0, excludeTags, excludeUserCnt)
        == After(inserted, CrawlTags(db.Contents(), browser, api, tags[k..], cnt, excludeTags, excludeUserCnt))
    {
      var tag := tags[k];
      assert tags[k..][0] == tag && tags[k..][1..] == tags[k + 1..];
      if tag in excludeTags {
        cnt := cnt + TAG_SKIP;
        continue;
      }
      var users := GetUsersFromProfileTag(browser, tag, TAG_PAGES);
      if users.Err? {
        assert inserted + [] == inserted;
        return Failed(users.error), cnt, inserted;
      }
      var o, c, vs := IngestTagUsers(db, api, tag, users.value, cnt, excludeUserCnt);
      if !o.Completed? {
        return o, c, inserted + vs;
      }
      AfterAfter(inserted, vs, CrawlTags(db.Contents(), browser, api, tags[k + 1..], c, excludeTags, excludeUserCnt));
      inserted := inserted + vs;
      cnt := c;
    }
    assert tags[|tags|..] == [] && inserted + [] == inserted;
    outcome := Completed;
  }

  /** `user_function`, its exclusion settings given as arguments. */
  method UserFunction(db: Database, browser: Browser, api: BookApi, excludeTags: seq<string>, excludeUserCnt: int)
    returns (outcome: Outcome, ghost inserted: seq<TagVisit>)
    modifies db
    ensures outcome == UserRun(old(db.Contents()), browser, api, excludeTags, excludeUserCnt).outcome
    ensures db.Contents() == UserRun(old(db.Contents()), browser, api, excludeTags, excludeUserCnt).store
    ensures inserted == UserRun(old(db.Contents()), browser, api, excludeTags, excludeUserCnt).inserted
  {
    var tags := GetPopularProfileTags(browser);
    if tags.Err? {
      return Failed(tags.error), [];
    }
    var cnt := CountAllUsers(db.Contents());
    var c;
    outcome, c, inserted := IngestTags(db, browser, api, tags.value, cnt, excludeTags, excludeUserCnt);
  }
}
