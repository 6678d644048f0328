# suggest_book — a verified model of the crawling, storage and embedding core

suggest_book collects reading lists from the booklog.jp community and learns book embeddings
from them. The pieces are:

- Two crawlers. The review crawler walks the yearly popularity ranking, then each ranked
  book's reviewers. The tag crawler walks popular profile tags and the users listed under each.
  Both store every new user's bookshelf.
- Two stores: a MongoDB store (`users`, `books`, `user_books`) and an older MySQL store with
  the same three tables.
- A Google Books enrichment step, which fills missing columns of a stored book.
- A Word2Vec model. Each user's bookshelf is one "sentence" of book ids.

This project models these pieces in Dafny, each in its own module:

- `Scraping`: page scraping, pagination and the bookshelf API.
- `Mongo`: the MongoDB store, its keyword search and the `Database` object.
- `MySql`: the MySQL store, its schema creation, inserts, title search and row updates.
- `Ingest`: storing one user's bookshelf.
- `ReviewCrawl`: the ranking → reviewers → bookshelves crawler, with its resume checkpoint.
- `TagCrawl`: the profile-tag crawler, with its skip counter.
- `BookData`: the Google Books enrichment of one book.
- `Book2Vec`: building the corpus and training and querying the model.
- Small shared modules: `Wrappers` (Option, Result), `Values` (a column value: null, text or
  a number) and `Text` (split and join, whitespace words, case-insensitive substring, string order).

External effects become parameters:

- A website is a `Browser`: a function from URL to rendered page, an element-missing page, or
  a timeout.
- The bookshelf API is a `BookApi` and Google Books is a `GoogleApi`: functions from URL to a
  response or to an unreachable host.
- The MongoDB collections are a `Store` value held by the `Mongo.Database` object. The MySQL
  tables are a `Tables` value held by the `MySql.Database` object.
- Word2Vec training is abstracted to the vocabulary it learns. `Book2Vec.Embedding` records
  the vocabulary, the trainer arguments and the training mode.

Each Python `for` loop that builds a list or changes a store is a `method` with a Dafny `for`
loop. Two are `while` loops instead: the descending year loop of `scraper_function`
(`ReviewCrawl.ScraperFunction`) and the tag-page loop that stops early at a short page
(`Scraping.GetUsersFromProfileTag`). Each loop method is proved equal to a recursive
specification function, and the properties are lemmas about those functions. The early-return scan over the
Google Books items (modules/book_data.py:72-86) computes only a position, so it is the function
`BookData.FirstFilledAt`. The crawlers'
specifications are runs: the final store, the outcome, and the list of users each crawl
inserted. The review crawl's specification takes its three collaborators as functions: the
ranking scrape, the reviewer scrape and the ingest step. The loop methods are proved equal to
it with the real scraper and `Ingest`. Its lemmas hold for any ingest step that stores exactly
its own user and only adds to the store, which `Ingest.IngestOfAddsUser` proves of the real
one. They cover what is inserted (soundness), what must be stored when the crawl finishes
(completeness), and where a failed crawl stopped.

## Model

| member | source | states |
|---|---|---|
| Scraping.Clamp | modules/scraping.py:91-95 | the requested page is kept when inside the bounds, else replaced by the nearer bound |
| Scraping.IdFromHref | modules/scraping.py:131 | the id taken from a link is its last `/`-separated piece and contains no `/` |
| Scraping.IdFromHrefOf | modules/scraping.py:154 | a link `path/id` yields exactly `id` |
| Scraping.TagName | modules/scraping.py:56 | a tag's name is the prefix of the link text before the first `(` |
| Scraping.GetPopularProfileTags | modules/scraping.py:39-57 | a rendered tags page yields the name of each tag link, in order |
| Scraping.CollectAllSucceeds | modules/scraping.py:116-133 | when every page loads, the result is the items of all pages in page order |
| Scraping.CollectAllFails | modules/scraping.py:121-124 | the first page that fails makes the whole call fail with that page's error |
| Scraping.CollectAll | modules/scraping.py:116-133 | a failed collection carries the error of one of its pages |
| Scraping.CollectUntilShortStops | modules/scraping.py:73-77 | collection stops after the first page with fewer than 10 users, keeping that page |
| Scraping.CollectUntilShortAllFull | modules/scraping.py:73-78 | when every page is full, users from every page are collected in order |
| Scraping.CollectUntilShortFails | modules/scraping.py:73-77 | a timeout on a page reached before a short page fails the whole call |
| Scraping.CollectUntilShort | modules/scraping.py:73-77 | a failed collection carries the error of one of its pages |
| Scraping.PageLimit | modules/scraping.py:71-73 | no page is read exactly when the count is negative, and never fewer pages than asked; 0 reads up to 9999 |
| Scraping.TagPageUsers | modules/scraping.py:135-156 | a tag page whose user list does not appear is a timeout naming the URL; a rendered one yields the ids of its user links |
| Scraping.ProfileTagUsers | modules/scraping.py:59-78 | a negative page count yields no users; a failure is the timeout or driver failure of one of the pages it may read |
| Scraping.GetUsersFromProfileTag | modules/scraping.py:59-78 | the loop reads tag pages in order, page 0 meaning 9999, until one has fewer than 10 users; it returns the collected users or the first timeout |
| Scraping.RankingBookUrls | modules/scraping.py:80-107 | a failure is the driver failure of one of the ranking pages 1..page, page clamped to 1..6 |
| Scraping.BookReviewers | modules/scraping.py:109-133 | a failure is the timeout or driver failure of one of the review pages 1..page, page clamped to 1..10 |
| Scraping.GetBookUrlsFromRanking | modules/scraping.py:80-107 | the loop over ranking pages 1..page, page clamped to 1..6, returns all book urls or the first driver failure |
| Scraping.ReviewPage | modules/scraping.py:116-124 | a review page whose list does not appear is a timeout naming the URL; a driver error is passed on as it is |
| Scraping.GetUsersFromBookUrl | modules/scraping.py:109-133 | the loop over review pages 1..page, page clamped to 1..10, returns all reviewers or the first timeout |
| Scraping.BookRecords | modules/scraping.py:186-205 | one record per book: its id is the last piece of its url, its title is kept |
| Scraping.Format2List | modules/scraping.py:186-205 | the loop builds exactly those records, in order |
| Scraping.LoadBooks | modules/scraping.py:158-184 | status other than 200 gives no books; 200 with a JSON body gives exactly the `format2list` records, and 200 without one the malformed-payload error carrying the text; an unreachable host is `TimeoutError` when it timed out, else the request failure |
| Mongo.NewBookDoc | modules/database.py:57-64 | a new book document has the title, and the authors exactly when they are truthy |
| Mongo.AddUser | modules/database.py:51-55 | the user ids gain exactly this id; books, their order and the edges stay |
| Mongo.AddBook | modules/database.py:57-64 | the book ids gain this id and stored documents stay; a new id gets the new document at the end of the natural order, taken to be insertion order; a taken id changes nothing; users and edges stay |
| Mongo.AddUserBook | modules/database.py:66-70 | exactly this edge is appended; users, books and their order stay |
| Mongo.SetFields | modules/database.py:186-189 | users, order, edges and the set of book ids stay; every other book stays; fields that are all null change nothing |
| Mongo.AddBookKeepsValid | modules/database.py:57-64 | inserting a book with a taken id changes nothing; a new id stores the new document; the store stays valid |
| Mongo.AddUserKeepsValid | modules/database.py:51-55 | inserting a user keeps ids unique |
| Mongo.AddUserBookKeepsValid | modules/database.py:66-70 | inserting a user–book edge keeps the store valid |
| Mongo.NonNullFields | modules/database.py:187 | exactly the non-null fields are kept, unchanged |
| Mongo.SetFieldsKeepsValid | modules/database.py:186-189 | an update keeps the store valid |
| Mongo.SetFieldsNeverStoresNull | modules/database.py:186-189 | an update never writes a null value and leaves other books alone |
| Mongo.SetFieldsNothingLeft | modules/database.py:188-189 | an update whose fields are all null leaves the store unchanged |
| Mongo.SetFieldsIdempotent | modules/database.py:186-189 | applying the same update twice is the same as once |
| Mongo.GetBook | modules/database.py:144-145 | a book is found exactly when its id is stored, and the stored document comes back |
| Mongo.GetBookTitle | modules/database.py:150-152 | the title of a stored book, none for an unknown id |
| Mongo.IsBookExists | modules/database.py:180-181 | true exactly when the book id is stored |
| Mongo.IsUserExists | modules/database.py:183-184 | true exactly when the user id is stored |
| Mongo.CountAllUsersAfterAdd | modules/database.py:171-172 | inserting a user raises the user count by one exactly when the user was not stored |
| Mongo.GenerateSearchQueries | modules/database.py:97-113 | one clause per whitespace-separated keyword, in order |
| Mongo.NoClausesIffBlank | modules/database.py:97-113 | there are no clauses exactly when the keyword string is blank |
| Mongo.ConstructPipeline | modules/database.py:115-136 | the pipeline is exactly three stages: a match on the clauses, a lookup of the book's user_books entries and a limit of 4 |
| Mongo.MatchingIds | modules/database.py:115-136 | the match stage keeps exactly the stored books matching some clause |
| Mongo.AnyClauseIffKeyword | modules/database.py:97-113 | a book matches some clause iff some keyword is a case-insensitive substring of its title or authors |
| Mongo.MatchingIdsOrder | modules/database.py:115-136 | the match stage keeps natural order: of two matching books, the earlier one comes before every occurrence of the later one |
| Mongo.FirstFourKeepsPrecedes | modules/database.py:135 | the limit of 4 keeps the order of any two matches |
| Mongo.FirstFourKeepsOrder | modules/database.py:135 | the limit of 4 keeps a match whenever it keeps a later one |
| Mongo.SearchBooksResult | modules/database.py:81-95 | a blank query is an error; otherwise at most 4 distinct matching books, in natural order, taken to be insertion order (of two returned books the earlier stored one comes first), none skipped, all when fewer than 4 |
| Mongo.Database.constructor | modules/database.py:11-43 | the connection starts with the given collections |
| Mongo.Database.InsertUser | modules/database.py:51-55 | the collections become the store with the user added, a duplicate ignored |
| Mongo.Database.InsertBook | modules/database.py:57-64 | the collections become the store with the book added, a duplicate ignored |
| Mongo.Database.InsertUserBooks | modules/database.py:66-70 | the collections become the store with the edge appended |
| Mongo.Database.UpdateBook | modules/database.py:186-189 | the collections become the store with the non-null fields set on that book |
| Ingest.EdgesOf | _user_from_review.py:27-31 | one user–book edge per loaded record, in order |
| Ingest.AddRecords | _user_from_review.py:27-31 | storing the records adds no user |
| Ingest.AddRecordsEdges | _user_from_review.py:27-31 | storing the records appends exactly one edge per record |
| Ingest.AddRecordsBooks | _user_from_review.py:27-31 | the stored book ids become the old ones plus the records' ids |
| Ingest.AddRecordsFirstTitle | _user_from_review.py:27-31 | a book new to the store is stored under the first record carrying its id |
| Ingest.AddRecordsKeepsValid | _user_from_review.py:27-31 | storing the records keeps the store valid |
| Ingest.IngestUser | _user_from_review.py:24-31 | the user ids gain exactly this user; the step fails exactly when loading the bookshelf fails |
| Ingest.IngestUserEffect | _user_from_review.py:24-31 | the store only grows; a failed load stores only the user; a successful one also appends one edge per loaded record |
| Ingest.IngestUserKeepsValid | _user_from_tag.py:23-30 | ingesting a user keeps the store valid |
| Ingest.Insert | _user_from_review.py:24-31 | the loop leaves the store and failure equal to the specification of ingesting one user |
| Ingest.IngestOfAddsUser | _user_from_review.py:24-31 | ingesting a user always stores that user and only adds to the store |
| ReviewCrawl.CrawlUsers | _user_from_review.py:63-89 | the reviewer loop inserts at most one user per listed reviewer, and a run inserting nobody leaves the store as it was |
| ReviewCrawl.CrawlBooks | _user_from_review.py:53-89 | a book-loop run inserting nobody leaves the store as it was |
| ReviewCrawl.CrawlYears | _user_from_review.py:46-89 | a whole crawl inserting nobody leaves the store as it was |
| ReviewCrawl.CrawlUsersPositions | _user_from_review.py:63-84 | each user the reviewer loop inserts is at this year and book, numbered from the loop's first number, and is the reviewer listed at that number |
| ReviewCrawl.UserStepSound | _user_from_review.py:63-89 | ingesting one new reviewer, then a sound rest of the loop, is sound |
| ReviewCrawl.CrawlUsersSound | _user_from_review.py:63-89 | for any ingest step that stores the user and only adds: the store only grows; the reviewers inserted are stored, new unless at the resume point, never repeated, in crawl order and outside the part the checkpoint skips |
| ReviewCrawl.CrawlBooksPositions | _user_from_review.py:53-55 | no reviewer of a book skipped by the checkpoint is inserted |
| ReviewCrawl.BookStepSound | _user_from_review.py:53-60 | one book's sound run, then a sound run of the later books, is sound |
| ReviewCrawl.CrawlBooksSound | _user_from_review.py:53-89 | the book loop keeps the same soundness |
| ReviewCrawl.CrawlYearsPositions | _user_from_review.py:46 | the whole crawl only inserts users for years in the range, from the start year down |
| ReviewCrawl.CrawlYearsSound | _user_from_review.py:46-89 | the whole crawl keeps the same soundness |
| ReviewCrawl.CrawlUsersAdds | _user_from_review.py:63-89 | the users stored after the reviewer loop are the old ones plus exactly the users it inserted |
| ReviewCrawl.CrawlBooksAdds | _user_from_review.py:53-89 | the users stored after the book loop are the old ones plus exactly the users it inserted |
| ReviewCrawl.CrawlYearsAdds | _user_from_review.py:46-89 | the users stored after the crawl are the old ones plus exactly the users it inserted |
| ReviewCrawl.CrawlUsersComplete | _user_from_review.py:63-89 | a reviewer loop without failure leaves stored every reviewer the checkpoint does not skip, and the reviewer at the resume position was ingested again |
| ReviewCrawl.CrawlBooksComplete | _user_from_review.py:53-89 | a book loop without failure fetched the reviewers of every book the checkpoint does not skip, and is done with each of them as above |
| ReviewCrawl.CrawlYearsComplete | _user_from_review.py:46-89 | a crawl without failure fetched the ranking of every year in the range, and is done with every book of it as above |
| ReviewCrawl.CrawlUsersEnd | _user_from_review.py:85-89 | a failed reviewer loop ends with the failed ingest of the last user it inserted, store and error as that ingest left them |
| ReviewCrawl.CrawlBooksEnd | _user_from_review.py:56-60 | a failed book loop ended at a failed ingest, or at the failed reviewer fetch of a book not skipped, with nothing inserted from that book on |
| ReviewCrawl.CrawlYearsEnd | _user_from_review.py:48-52 | a failed crawl ended at a failed ingest, at the failed ranking fetch of a year in range with nothing inserted from that year on, or at a failed reviewer fetch as above |
| ReviewCrawl.ScraperRunComplete | _user_from_review.py:34-89 | the script with its own constants adds exactly the users it inserted; without failure it is done with every year and book; with a failure it ended in one of the three ways above |
| ReviewCrawl.DefaultCheckpointIngestsOnlyNewUsers | _user_from_review.py:39-44 | with the default checkpoint, every inserted user is new and from 2015, none is inserted twice, and they are inserted in crawl order |
| ReviewCrawl.UsersWithoutCheckpoint | _user_from_review.py:63-84 | in a year other than the checkpoint's, or past its book, the reviewer loop skips nobody: it equals the plain crawl without checkpoint |
| ReviewCrawl.BooksWithoutCheckpoint | _user_from_review.py:53-55 | in a year other than the checkpoint's, or past its book, no book is skipped: the book loop equals the plain crawl |
| ReviewCrawl.YearsWithoutCheckpoint | _user_from_review.py:42-46 | a checkpoint at book 0, or in a year outside the range, changes nothing |
| ReviewCrawl.IngestReviewers | _user_from_review.py:63-89 | the reviewer loop leaves the store, failure and inserted list equal to its specification |
| ReviewCrawl.IngestBooks | _user_from_review.py:53-60 | the book loop leaves the store, failure and inserted list equal to its specification |
| ReviewCrawl.ScraperFunction | _user_from_review.py:34-89 | the year loop leaves the store, failure and inserted list equal to its specification |
| TagCrawl.TagUsersCount | _user_from_tag.py:57-60 | a completed tag advances the counter by exactly its number of users |
| TagCrawl.CrawlTagUsers | _user_from_tag.py:57-72 | at most one insert per listed user, and a run inserting nobody leaves the store as it was |
| TagCrawl.CrawlTags | _user_from_tag.py:48-72 | a run inserting nobody leaves the store as it was |
| TagCrawl.UserRun | _user_from_tag.py:33-72 | a failed fetch of the tag list fails the run with nothing inserted; a run inserting nobody leaves the store as it was |
| TagCrawl.TagUsersFresh | _user_from_tag.py:65-67 | users inserted under one tag were new, are stored and never repeat |
| TagCrawl.TagUsersEnd | _user_from_tag.py:68-72 | a crawl that stops does so at the user whose insert timed out |
| TagCrawl.TagUsersListed | _user_from_tag.py:57-69 | every inserted user was listed under the tag |
| TagCrawl.TagsFresh | _user_from_tag.py:48-72 | across tags, inserted users were new, are stored and never repeat |
| TagCrawl.TagsEnd | _user_from_tag.py:68-72 | the whole crawl stops at the user whose insert timed out |
| TagCrawl.TagsExcluded | _user_from_tag.py:49-51 | no user is inserted under an excluded tag |
| TagCrawl.TagsCount | _user_from_tag.py:48-60 | a completed crawl advances the counter by 1000 per excluded tag and 1 per listed user |
| TagCrawl.BelowExcludeSkipsAll | _user_from_tag.py:58-60 | users whose count stays below the threshold are all skipped |
| TagCrawl.CounterSkipsNothing | _user_from_tag.py:58-60 | with the threshold at or below the counter, the crawl is the plain crawl without counter |
| TagCrawl.TagUsersAdds | _user_from_tag.py:57-72 | the users stored after one tag are the old ones plus exactly the users inserted under it |
| TagCrawl.TagsAdds | _user_from_tag.py:48-72 | the users stored after the tag loop are the old ones plus exactly the users it inserted |
| TagCrawl.TagUsersComplete | _user_from_tag.py:57-69 | a completed tag leaves stored every listed user whose counter reached the threshold |
| TagCrawl.TagsComplete | _user_from_tag.py:48-69 | a completed tag loop fetched the users of every tag not excluded, and each user whose counter reached the threshold is stored |
| TagCrawl.TagsDoneAll | _user_from_tag.py:45-60 | with no excluded tag and the threshold at or below the counter, every tag's users were fetched and all of them are stored |
| TagCrawl.UserRunComplete | _user_from_tag.py:33-72 | the users stored are the old ones plus exactly those inserted; a completed run fetched the tag list and is done with it from the counter seeded by the user count |
| TagCrawl.ScriptRunStoresAll | _user_from_tag.py:41-72 | with the script's own settings, a completed run stores every user listed under every popular tag |
| TagCrawl.IngestTagUsers | _user_from_tag.py:57-72 | the user loop leaves the store, outcome, counter and inserted list equal to its specification |
| TagCrawl.IngestTags | _user_from_tag.py:48-72 | the tag loop leaves the store, outcome, counter and inserted list equal to its specification |
| TagCrawl.UserFunction | _user_from_tag.py:33-72 | the crawl leaves the store, outcome and inserted list equal to its specification |
| MySql.IncludeTables | modules/_database.py:33-37 | true exactly when every named table exists |
| MySql.CreateAll | modules/_database.py:54-91 | the three CREATE TABLE statements keep every row and table, and end with all three tables or with "table exists" |
| MySql.CreateTablesAsWritten | modules/_database.py:48-91 | as written: no row changes; the only error is "table exists"; without error `users` and `books` exist, and `user_books` too unless a `users_books` table made the guard return |
| MySql.CreateTables | modules/_database.py:48-91 | with the guard corrected: no row changes; the only error is "table exists"; without error all three tables exist |
| MySql.CreateTablesAsWrittenRaisesOnCreatedSchema | modules/_database.py:51-52 | as written, creating the schema again raises "table exists" |
| MySql.CreateTablesAsWrittenSecondCall | modules/_database.py:48-91 | as written, a second call on a fresh database fails with error 1050 |
| MySql.CreateTablesEffect | modules/_database.py:48-91 | with the guard corrected, the three tables exist afterwards, or the first creation error is reported |
| MySql.CreateTablesIdempotent | modules/_database.py:48-91 | with the guard corrected, a second call changes nothing and raises nothing |
| MySql.Execute | modules/_database.py:93-117 | a successful insert appends exactly the new user, book (title only, other columns null) or edge, keeping every old row and table; the only errors are no such table, null title, duplicate key and missing referenced row; a duplicate key is raised exactly when the key is already stored in an existing table |
| MySql.InsertResult | modules/_database.py:93-102 | a duplicate key is never reported; a reported error leaves the tables unchanged; otherwise the tables stay or become those of the executed insert, and a successful insert always takes effect |
| MySql.InsertSwallowsOnlyDuplicates | modules/_database.py:93-102 | a duplicate key is silently ignored; every other error is the one reported, and leaves the tables unchanged |
| MySql.InsertIdempotent | modules/_database.py:93-117 | repeating an insert leaves the tables as after the first |
| MySql.InsertKeepsValid | modules/_database.py:104-117 | inserts keep keys unique and edges pointing at stored rows |
| MySql.FirstTitleMatch | modules/_database.py:119-128 | none exactly when no title contains the keyword, else the id and title of a matching row |
| MySql.SearchBookFromTitle | modules/_database.py:119-128 | a missing books table is an error, else the first title match |
| MySql.EdgeCount | modules/_database.py:130-147 | a book's count is positive exactly when some user shelves it |
| MySql.Hits | modules/_database.py:130-147 | the hits are exactly the title matches with their positive shelf counts |
| MySql.SearchBooksFromTitle | modules/_database.py:130-147 | "no such table" exactly when `books` or `user_books` is missing; a result holds between 1 and 5 hits |
| MySql.Take | modules/_database.py:140 | the limit keeps at most that many hits |
| MySql.InsertHitRanked | modules/_database.py:130-147 | inserting a hit into a ranked list keeps it ranked |
| MySql.SortHits | modules/_database.py:130-147 | the sort is a permutation of the hits |
| MySql.SortHitsRanked | modules/_database.py:130-147 | the sorted hits are ranked by title length, shortest first, then by shelf count, highest first |
| MySql.TakeOfRanked | modules/_database.py:139-140 | the first n of a ranked list are ranked: n of its hits, or all when there are fewer |
| MySql.TopOfRanked | modules/_database.py:139-140 | no hit dropped by the limit ranks before a hit kept |
| MySql.SearchBooksFromTitleTop | modules/_database.py:130-147 | at most five hits, ranked, each a real hit, none better left out |
| MySql.MostStored | modules/_database.py:188-208 | none for no hits, else a hit with the highest shelf count |
| MySql.GetBookId | modules/_database.py:188-208 | an id exactly when some title matches; it is a matching book with the highest count |
| MySql.FindBook | modules/_database.py:163-168 | none exactly when no row has the id, else a row with that id |
| MySql.GetBookRow | modules/_database.py:163-168 | a missing books table is an error; else the row exactly when the book is stored |
| MySql.IsAnyNullAsWritten | modules/_database.py:220-228 | as written: an error exactly when `books` is missing; false only for a stored book |
| MySql.IsAnyNull | modules/_database.py:220-228 | corrected: an error exactly when `books` is missing; false only for a stored book; a missing book gives true |
| MySql.IsAnyNullAsWrittenMissesNewBook | modules/_database.py:220-228 | as written, a book inserted with only id and title is reported as having no null |
| MySql.IsAnyNullAsWrittenMeansMissing | modules/_database.py:220-228 | as written, the answer only says whether the book is missing |
| MySql.IsAnyNullMeaning | modules/_database.py:220-228 | corrected, false exactly when the book's row has every column filled; a newly inserted book reports true |
| MySql.FindBookInUnique | modules/_database.py:163-168 | with unique ids, the lookup yields that book's row |
| MySql.SetRows | modules/_database.py:230-254 | exactly the rows with that id are rewritten, the others kept |
| MySql.UpdateBookRowResult | modules/_database.py:230-254 | success keeps every table and row count and every row's id; an error exactly when `books` is missing or a stored book would get a null title; an unknown id changes nothing |
| MySql.UpdateUniqueRow | modules/_database.py:230-254 | updating the one row with its id sets exactly the new values there, keeps every other row and table, and leaves a null column exactly when a value was null |
| MySql.UpdateBookRowEffect | modules/_database.py:230-254 | with unique ids, the stored book gets the new values, every other row and table stays, and a null is left exactly when a value was null |
| MySql.Database.constructor | modules/_database.py:20-31 | the connection starts with the given tables |
| MySql.Database.CreateTablesCorrected | modules/_database.py:48-91 | the tables and error are those of the corrected schema creation |
| MySql.Database.Insert | modules/_database.py:93-102 | the tables become the insert's result, and every error other than a duplicate key is printed |
| MySql.Database.InsertUser | modules/_database.py:104-107 | the tables become the result of inserting the user, and its error is printed unless it was a duplicate key |
| MySql.Database.InsertBook | modules/_database.py:109-112 | the tables become the result of inserting the book, and its error is printed unless it was a duplicate key |
| MySql.Database.InsertUserBook | modules/_database.py:114-117 | the tables become the result of inserting the edge, and its error is printed unless it was a duplicate key |
| MySql.Database.UpdateBookRow | modules/_database.py:230-254 | the tables and error are those of the row update |
| BookData.FormatAuthors | modules/book_data.py:89-93 | null exactly for missing or empty authors, else the names joined by ", " |
| BookData.FormatAuthorsSplit | modules/book_data.py:89-93 | splitting the joined authors at commas gives back the names, each after the first led by a space |
| BookData.ExtractIdentifier | modules/book_data.py:95-99 | null exactly for missing or empty identifiers, else the identifier values joined by ", " |
| BookData.ExtractIdentifierSplit | modules/book_data.py:95-99 | splitting the joined identifiers at commas gives back the identifier values |
| BookData.VolumeRecord | modules/book_data.py:73-84 | a volume becomes a record over exactly the seven columns |
| BookData.FirstFilledAt | modules/book_data.py:72-86 | the position found holds an item with a truthy column and no earlier item has one |
| BookData.FirstFilled | modules/book_data.py:72-87 | empty exactly when no item has a truthy column, else the record of the first such item |
| BookData.ParseGoogleBooksResponse | modules/book_data.py:71-87 | a non-empty result has all seven columns and some truthy value; no items gives empty |
| BookData.FetchDataFromGoogleBooks | modules/book_data.py:62-69 | status other than 200, or 200 with a falsy `totalItems`, gives empty; a 200 body that is not JSON is an error; otherwise exactly the parsed record; an unreachable host is the request failure |
| BookData.CurrentRecord | modules/book_data.py:26-28 | the stored values of the seven columns, null where absent |
| BookData.GetDataOf | modules/book_data.py:30-39 | Google is asked only about a stored book; an error leaves the store alone; the store changes only by writing the fetched record that is also the result |
| BookData.GetDataEffect | modules/book_data.py:30-39 | a stored book with no null column is returned without a request; otherwise Google is asked: an empty answer returns the stored record, a non-empty one is written and returned, a fetch error is the result; an unknown book is `NoSuchBook` |
| BookData.SetFieldsColumns | modules/book_data.py:35-37 | writing a fetched record sets each column to the fetched value when it is not null, else keeps the stored one |
| BookData.GetDataColumns | modules/book_data.py:35-39 | after fetching, the stored book holds every non-null fetched value |
| BookData.GetDataSettles | modules/book_data.py:30-39 | once a complete record was written, the next call for that book sends no request |
| BookData.BookData.constructor | modules/book_data.py:21-24 | the object holds the database, the book id and the API, with no request made |
| BookData.BookData.FetchData | modules/book_data.py:62-69 | the result is the specified fetch, and exactly one request is recorded |
| BookData.BookData.GetData | modules/book_data.py:30-39 | store, result and requests equal the get_data specification |
| Book2Vec.RowsOf | modules/book2vec.py:26-29 | one row per stored edge, user and book filled |
| Book2Vec.DropDuplicates | modules/book2vec.py:33 | the same rows without repetition |
| Book2Vec.DropDuplicatesOrder | modules/book2vec.py:33 | the rows kept come in the order of their first occurrences |
| Book2Vec.DropDuplicatesOfDistinct | modules/book2vec.py:33 | rows already distinct are unchanged |
| Book2Vec.DropNullBooks | modules/book2vec.py:34 | exactly the rows with a book are kept |
| Book2Vec.UserKeys | modules/book2vec.py:35 | exactly the users that occur in some row |
| Book2Vec.BooksOf | modules/book2vec.py:35-36 | a user's sentence holds exactly the books shelved by that user |
| Book2Vec.BooksOfDistinct | modules/book2vec.py:33-36 | with distinct rows, no book repeats in a sentence |
| Book2Vec.InsertSortedSorted | modules/book2vec.py:35 | inserting into a sorted group list keeps it sorted |
| Book2Vec.SortStrings | modules/book2vec.py:35 | the group keys keep the same members |
| Book2Vec.SortStringsSorted | modules/book2vec.py:35 | the group keys come out sorted |
| Book2Vec.CleanRows | modules/book2vec.py:33-34 | every cleaned row has a book |
| Book2Vec.Corpus | modules/book2vec.py:35-36 | one sentence per user with a book |
| Book2Vec.CorpusShape | modules/book2vec.py:31-36 | one sentence per user with a book, users sorted, each sentence non-empty, duplicate-free and exactly that user's books |
| Book2Vec.GetModelParams | modules/book2vec.py:38-51 | an unknown model type or approximation is a key error; otherwise the mapped trainer arguments |
| Book2Vec.ModelParamEncodings | modules/book2vec.py:10-11 | skipgram ↔ sg=1, cbow ↔ sg=0, hierarchical ↔ hs=1, negative ↔ hs=0 |
| Book2Vec.Vocabulary | modules/book2vec.py:62-71 | the vocabulary only holds books of the corpus |
| Book2Vec.VocabularyAll | modules/book2vec.py:62-71 | with min_count 1, the vocabulary is every book of the corpus |
| Book2Vec.FlattenEmpty | modules/book2vec.py:62-71 | the corpus has no word exactly when every sentence is empty |
| Book2Vec.FreshModel | modules/book2vec.py:69-71 | a fresh model keeps its arguments and learns only corpus books; it fails with an empty vocabulary exactly when it has sentences and no word reaches `min_count` |
| Book2Vec.Trained | modules/book2vec.py:62-71 | update with a saved model gives that model; a fresh model is trained on this corpus and learns only its books |
| Book2Vec.TrainedMode | modules/book2vec.py:53-76 | update with a saved model continues from it; otherwise a fresh model is built from the mapped arguments |
| Book2Vec.DefaultTraining | modules/book2vec.py:13-24 | with default parameters, training succeeds exactly when the corpus has a word |
| Book2Vec.Model.constructor | modules/book2vec.py:13-24 | no model or sentences yet, with the default parameters |
| Book2Vec.Model.GenerateSentences | modules/book2vec.py:31-36 | the sentences become the corpus of the rows; nothing else changes |
| Book2Vec.Model.TrainModel | modules/book2vec.py:53-76 | sentences are generated when absent, then the model or the error is that of training |
| Book2Vec.Model.LoadModel | modules/book2vec.py:78-79 | the saved model is loaded, or a missing file is an error that keeps the old model |
| Book2Vec.Model.GetSimilarBooks | modules/book2vec.py:81-91 | an error when no model is loaded or the book is not in the vocabulary; otherwise the query for that book |
| Text.WordsEmptyIffBlank | modules/database.py:98 | splitting on whitespace gives no word exactly for a blank string |
| Text.WordsOfJoin | modules/database.py:98 | splitting space-joined words gives the words back |
| Text.JoinSplit | modules/scraping.py:131 | splitting at the separator undoes joining pieces free of it |
| Text.SplitJoin | modules/scraping.py:131 | joining the pieces of a split gives back the string |

## Left out

- `modules/webdriver.py` is not part of this model. The browser is the `Browser` function: sleeps, waits, driver restarts and page rendering are not modelled.
- `run.py`, `_model.py` and `_book_data.py` are not part of this model; they are drivers and earlier copies of modelled classes.
- Logging, `tqdm` progress bars, beeps and the logging in `count_users` are not modelled. Only the MySQL store's printed insert errors are kept, as `printed`: every error number except 1062, duplicate key.
- The Amazon fetch in `book_data.py` (`_fetch_data_from_amazon`, `__parse_amazon_response`) is not modelled; `get_data` never calls it.
- Word2Vec numerics are not modelled: vector values, similarity scores and their scaling. A trained model is its vocabulary and the arguments it was given.
- `objective`, `optimize`, `save_parameters` and `update_parameters` in `book2vec.py` are not modelled: they are hyper-parameter search and file I/O.
- Book2Vec.GetSimilarBooks: returns the query (book and `topn`) rather than a ranked neighbour list; `topn` is passed through unclamped.
- The network errors of `requests` are one `Unreachable` case. Its `timedOut` flag stands for Python's builtin `TimeoutError`, which the two crawl scripts catch; `requests.get` (modules/scraping.py:175) does not itself raise that builtin, so in the source a request timeout escapes those handlers. The model lets the API answer with a timeout, giving the handlers the case they were written for.
- The crawl constants (start and end year, checkpoint, excluded tags, skip threshold) appear as parameters of the loop methods. Their source values are constants.
- A link without an `href` makes the reviewer and tag-user scrapes crash at `.split` (modules/scraping.py:131, :154). A ranking link without one (modules/scraping.py:106) keeps `None`, which becomes the URL `https://booklog.jpNone?page=p` (modules/scraping.py:117) without a crash. The model always has an href string, possibly empty, so neither case is modelled.
- An identifier entry without an `identifier` key makes the source raise `KeyError`; the model's identifiers always carry one.
- Authors given as a non-list value are not modelled.
- pandas NaN and Python `None` are both `Null`.
- A book missing from the store makes `get_book` return `None` (modules/book_data.py:27-28), and `pd.DataFrame([None], columns=...)` then raises a shape error. Here it is the `NoSuchBook` failure.
- MySQL column widths and DATE types are not checked; a value of any length is stored.
- MySQL `LIKE '%k%'` is a case-insensitive substring test, and `Text.Lower` folds only the ASCII letters A to Z. `%` and `_` inside the keyword are taken literally. MongoDB `$regex` is modelled the same way, so regex metacharacters in keywords are literal.
- Mongo.AddBook / Mongo.SearchBooksResult: MongoDB promises no natural order. The model assumes a collection scan returns documents in insertion order, so a new book goes to the end of `bookOrder`.
- SQL promises no row order without `ORDER BY`. The model assumes a scan returns rows in insertion order, and ties in the ranked search keep that order.
- `_database.py` methods not modelled: `search_book_id_from_author`, `get_user_books_row`, `get_book_title`, `get_book_rows`, `get_all_users_books`, `delete_tables`, `delete_book`, `close`. They are single queries with no logic beyond the SQL text.
- `database.py` methods not modelled: `search_books_from_title`, `search_book_id_from_author`, `get_user_books`, `get_all_user_books`, `get_user`, `get_book_id`, `get_book_ids_without_authors`, `count_all_books`, `count_all_user_books`, `count_books_not_having_count`, `delete_book`, `close`. They are single driver calls.
- Mongo.SearchBooksResult: MongoDB rejects `$or: []`. The model reports this as `EmptyOrArray` rather than the driver's exception text.
- Mongo.Database.UpdateBook: requires that `_id` is not among the fields. MongoDB refuses to change `_id`.
- A concrete small corpus example is not included; `Book2Vec.CorpusShape` states the shape for every input.
- MySql.Execute: compares keys exactly. Under the server's case-insensitive collation, `id VARCHAR(255) PRIMARY KEY` and `WHERE id = %s` also ignore case, so `Ann` after `ann` is a duplicate there and a second row here; `MySql.FindBook` and `MySql.HasBook` compare the same way.
- Mongo.AddUserBook: assumes `user_books` has no unique index, so every insert appends; the `DuplicateKeyError` handler at modules/database.py:66-70 is never taken.

## Findings

| source | as written | input that shows it | evidently intended | confidence | as-written member | corrected member |
|---|---|---|---|---|---|---|
| modules/_database.py:51-52 | the guard checks for a table named `users_books`, but the table created is `user_books` (line 82), so the guard never holds and every table is created again | an empty database on which `create_tables` is called twice: the second call raises error 1050, table exists | return early when the three tables `users`, `books`, `user_books` already exist | not executed | MySql.CreateTablesAsWrittenSecondCall | MySql.CreateTablesIdempotent |
| modules/_database.py:220-228 | the query selects the book's row by id only, and the method returns True only when no row comes back, so the columns are never looked at | a book inserted with only an id and a title: its other columns are null, yet it is reported as having no null | true exactly when the book is missing or its row has some null column, as the docstring says | not executed | MySql.IsAnyNullAsWrittenMissesNewBook | MySql.IsAnyNullMeaning |
