# PaperDeck backend core in Dafny

This project models the core of the PaperDeck backend, a service that:

- crawls conference web pages (USENIX) for paper records and stores them in SQLite;
- lets registered users rate the stored papers one at a time ("Liked" or "Read");
- lists the conferences and the papers a user liked.

The model covers:

- **Crawler** (`crawl_record.dfy`, `crawler.dfy`, `crawler_props.dfy`):
  - choosing a parser by host;
  - the HTTP status check;
  - inserting records with `INSERT OR IGNORE` inside one transaction;
  - the per-URL crawl loop, which skips failing URLs and rolls back on a store error;
  - the summary line.
- **USENIX parser** (`usenix_parser.dfy`):
  - the page title;
  - the `^(.*?)\s+'?(\d{2})` conference-and-year rule and its fallback;
  - the per-article field extraction with its sentinel texts.
- **Crawl errors** (`crawl_error.dfy`): their display texts, `source` and the `From` conversions.
- **Authentication** (`auth.dfy`):
  - the registration rules;
  - the order of the request guard's token checks;
  - the claims of an issued token.
- **Paper endpoints** (`paper_routes.dfy`):
  - the conference list;
  - the liked list;
  - "next unrated paper" with its filters and its two 404s;
  - the `Liked` upsert and the `Read` insert-if-absent on the status table.

Shared text functions are in `text.dfy`:

- `str::trim` over Unicode White_Space;
- substring search;
- split at the first separator;
- join;
- decimal rendering;
- code-point order.

Stand-ins for library types (fetch, database, URL and selector errors; a parsed URL with its parse and join functions) are in `externals.dfy`. `Option` and `Result` are in `wrappers.dfy`.

Anything outside the program is a parameter:

- **Page fetches:** the HTTP client's outcome for each URL.
- **HTML:** a parsed document reduced to the parts the selectors pick.
- **URL parsing and joining:** the two functions of `UrlOps`.
- **Database failures:** an oracle that says which statement of a transaction fails, plus one optional fault per query.
- **Token decoding:** the decoded claims, or `None`.
- **User lookup:** the lookup's outcome.
- **Time:** the clock reading (the year for the crawler, the current instant for the endpoints).
- **`ORDER BY RANDOM()`:** a choice index.

Stateful parts are classes:

- **Crawler:** the papers table (`PaperTable`) and its transaction (`Transaction`). An insert changes the transaction's rows. Commit copies them into the table. Rollback leaves the table as it was.
- **Paper endpoints:** `PaperDb` holds `papers` (rows in table order) and `user_paper_status` (a map keyed by user id and paper id).

The `papers` table has two views. The crawler's `INSERT OR IGNORE` sees only the six columns of a record, so `PaperTable` holds a set of `Paper` values. The endpoints read rows with their ids in table order, so `PaperDb` holds a sequence of `StoredPaper` rows. Nothing in the model relates the two: no operation in this core both crawls and serves.

Loops in the source are `for`/`while` loops proved against recursive specification functions:

- `extract_papers` against `PapersOf`;
- `insert_papers` against `InsertFrom`;
- `run_crawl_logic` against `CrawlFrom`.

## Model

| member | source | states |
|---|---|---|
| CrawlErrors.Display | backend/src/crawler/error.rs:16-27 | the `write!` text of each arm of the hand-written `Display::fmt`: a fixed prefix per variant followed by the payload; `CrawlErrors.DisplayRoundTrip` and `CrawlErrors.DisplayInjective` state that it loses nothing |
| CrawlErrors.DisplayRoundTrip | backend/src/crawler/error.rs:16-27 | every error's display text reads back to that same error: the six prefixes are distinct and the payload follows the prefix verbatim |
| CrawlErrors.DisplayInjective | backend/src/crawler/error.rs:16-27 | two errors with the same display text are the same error |
| CrawlErrors.Source | backend/src/crawler/error.rs:29-38 | an error has a cause exactly when it is `Fetch`, `Database` or `Url` |
| CrawlErrors.SourceMessageEndsDisplay | backend/src/crawler/error.rs:16-38 | the display text of an error with a cause ends with the cause's own message |
| CrawlErrors.FromFetchError | backend/src/crawler/error.rs:41-45 | converting a fetch error gives an error whose cause is that fetch error |
| CrawlErrors.FromDbError | backend/src/crawler/error.rs:46-50 | converting a database error gives an error whose cause is that database error |
| CrawlErrors.FromUrlParseError | backend/src/crawler/error.rs:51-55 | converting a URL parse error gives an error whose cause is that parse error |
| CrawlErrors.FromSelectorError | backend/src/crawler/error.rs:56-60 | a selector error becomes a `Parse` error with no cause, displayed as "Parsing error: " followed by the selector's message |
| Text.Trim | backend/src/crawler/parser_usenix.rs:69 | the trimmed text is no longer than the input and neither starts nor ends with whitespace |
| Text.TrimPadded | backend/src/crawler/parser_usenix.rs:69 | trimming removes exactly the whitespace padding on both sides of a trimmed core |
| Text.TrimSplits | backend/src/crawler/parser_usenix.rs:69 | `str::trim` removes only whitespace, and only from the two ends: the text is whitespace, then the result, then whitespace |
| Text.TrimEmptyIff | backend/src/crawler/parser_usenix.rs:140-143 | a text trims to empty exactly when it is all whitespace |
| Text.Contains | backend/src/crawler/mod.rs:44 | the search succeeds exactly when the pattern occurs at some index |
| Text.FirstSplitProperties | backend/src/crawler/parser_usenix.rs:85-88 | the first `split('\|')` piece holds no bar and is either the whole text or is followed by a bar |
| Text.JoinAllWhitespace | backend/src/crawler/parser_usenix.rs:135-141 | paragraphs joined by line feeds are all whitespace exactly when every paragraph is |
| Text.DecimalRoundTrip | backend/src/crawler/mod.rs:184-187 | the decimal rendering of a count reads back to that count |
| Text.NatToStringInjective | backend/src/crawler/mod.rs:184-187 | different counts render differently |
| UsenixParser.ExtractPageTitle | backend/src/crawler/parser_usenix.rs:65-71 | the title fails exactly when the page has no title element, with the "Overall page title not found" parse error; otherwise it is the title element's text with only whitespace removed from its two ends, and neither end of what remains is whitespace |
| UsenixParser.WhitespaceRunIsWhitespace | backend/src/crawler/parser_usenix.rs:37-38 | the greedy `\s+` run consists of whitespace, and the character after it is not whitespace |
| UsenixParser.YearDigitsAtIsPattern | backend/src/crawler/parser_usenix.rs:37-38 | `\s+'?(\d{2})` matches at an index exactly when whitespace, at most one apostrophe and two digits follow there; the captured digits are at the unique such place |
| UsenixParser.FirstMatchFromIsLeftmost | backend/src/crawler/parser_usenix.rs:37-38 | the lazy `(.*?)` takes the leftmost position where the rest matches, and never crosses a line feed; with no match, no line-feed-free prefix is followed by a match |
| UsenixParser.ExtractConferenceInfo | backend/src/crawler/parser_usenix.rs:73-94 | the name is trimmed, and the year is the current year or lies between 2000 and 2099 |
| UsenixParser.ConferenceInfoOnMatch | backend/src/crawler/parser_usenix.rs:76-82 | on the leftmost match of the pattern, the name is the trimmed text before it and the year is 2000 plus its digits |
| UsenixParser.ConferenceInfoFallback | backend/src/crawler/parser_usenix.rs:83-93 | without a match, the name is the trimmed text before the first bar and the year is the current year |
| UsenixParser.ConferenceInfoAfterWord | backend/src/crawler/parser_usenix.rs:76-82 | a title that starts with a word followed by the pattern yields that word as the name |
| UsenixParser.ConferenceInfoWithoutDigits | backend/src/crawler/parser_usenix.rs:83-93 | a title without digits always takes the fallback |
| UsenixParser.ConferenceInfoBeforeBar | backend/src/crawler/parser_usenix.rs:84-91 | without digits, the name is the trimmed text before the first bar |
| UsenixParser.AbstractBodyNoneIff | backend/src/crawler/parser_usenix.rs:131-144 | the abstract falls back to its sentinel exactly when every paragraph is blank; otherwise it is non-empty trimmed text |
| UsenixParser.PaperOf | backend/src/crawler/parser_usenix.rs:104-153 | one article's record with its sentinel texts; `UsenixParser.PaperOfFields` pins every field |
| UsenixParser.PaperOfFields | backend/src/crawler/parser_usenix.rs:104-153 | each record carries the page's conference and year; the title is the trimmed link text; the URL is the link's href joined onto the page URL, the "Failed to join" message when joining fails, or the sentinel without an href; authors are the trimmed authors text; the abstract is the trimmed newline-joined paragraphs, or the sentinel when the container is missing or every paragraph is blank; title and URL both take their sentinels without a link |
| UsenixParser.PapersOf | backend/src/crawler/parser_usenix.rs:104-154 | one record per article |
| UsenixParser.PapersOfAt | backend/src/crawler/parser_usenix.rs:104-154 | record k is built from article k, in document order |
| UsenixParser.ExtractPapers | backend/src/crawler/parser_usenix.rs:96-165 | the loop's records are exactly `PapersOf` of the articles |
| UsenixParser.ParseOutcome | backend/src/crawler/parser_usenix.rs:43-61 | `parse_and_extract`: URL check, title, conference and year, records; `UsenixParser.ParseOutcomeErrors` and `UsenixParser.ParseOutcomeRecords` state its errors and records |
| UsenixParser.ParseOutcomeErrors | backend/src/crawler/parser_usenix.rs:43-61 | a bad page URL is reported first, then a missing title; parsing succeeds exactly when neither occurs |
| UsenixParser.ParseOutcomeRecords | backend/src/crawler/parser_usenix.rs:43-61 | on success there is one record per article, all with the conference and year read from the trimmed title |
| UsenixParser.ParseAndExtract | backend/src/crawler/parser_usenix.rs:43-61 | the method's result is the parse outcome function |
| Crawler.GetParser | backend/src/crawler/mod.rs:39-55 | a malformed URL gives the `Url` error; otherwise the USENIX parser is chosen exactly when the host contains "usenix.org", and `NoParserFound` carries the original URL text |
| Crawler.GetParserWithoutHost | backend/src/crawler/mod.rs:42-53 | a URL without a host finds no parser |
| Crawler.FetchHtml | backend/src/crawler/mod.rs:88-104 | the body comes back exactly for a 2xx response whose body reads; a non-2xx status is an `Http` error, a transport or body failure a `Fetch` error |
| Crawler.FetchHtmlStatusMessage | backend/src/crawler/mod.rs:93-100 | a non-2xx response gives "HTTP Error for URL: CODE REASON", displayed after "HTTP error: " |
| Crawler.Transaction.Begin | backend/src/crawler/mod.rs:117 | a transaction starts from the table's rows, with no statement issued |
| Crawler.Transaction.InsertOrIgnore | backend/src/crawler/mod.rs:66-81 | a statement that does not fail adds the record and reports one affected row only when the record was new; a failing one changes nothing |
| Crawler.Transaction.Commit | backend/src/crawler/mod.rs:175 | a commit that succeeds publishes the transaction's rows; one that fails leaves the table as it was |
| Crawler.Transaction.Rollback | backend/src/crawler/mod.rs:157 | rollback returns the working rows to the table's rows |
| Crawler.InsertPapers | backend/src/crawler/mod.rs:59-84 | the loop's rows, statement count and result are those of `InsertFrom` |
| CrawlerProps.InsertFromStopsAtFirstFault | backend/src/crawler/mod.rs:65-77 | insertion succeeds exactly when no statement fails; on failure it stops at the first failing statement and returns that error |
| CrawlerProps.InsertFromRows | backend/src/crawler/mod.rs:65-83 | rows are only added; on success the rows are the old rows plus every record |
| CrawlerProps.InsertFromCount | backend/src/crawler/mod.rs:79-81 | the count is the number of distinct records not already stored |
| CrawlerProps.InsertPapersCountBound | backend/src/crawler/mod.rs:63-83 | the count never exceeds the number of records |
| CrawlerProps.InsertKnownPapers | backend/src/crawler/mod.rs:66-81 | records that are all already stored insert nothing and change nothing |
| Crawler.CrawlUrl | backend/src/crawler/mod.rs:119-171 | one loop iteration is the `CrawlStep` of that URL's outcome: skipped, counted only, or inserted; a store error is returned |
| Crawler.HarvestUrl | backend/src/crawler/mod.rs:119-136 | parser choice, fetch and parse give that URL's outcome |
| Crawler.RunCrawlLogic | backend/src/crawler/mod.rs:110-178 | the totals and the final table are those of `CrawlRun` over the URLs' outcomes |
| Crawler.Harvest | backend/src/crawler/mod.rs:121-169 | one URL's records, or none when parser choice, fetch or parse fails; `CrawlerProps.HarvestNoneIff` states when |
| CrawlerProps.HarvestNoneIff | backend/src/crawler/mod.rs:119-171 | a URL contributes nothing exactly when parser choice, fetch or parse fails |
| Crawler.CrawlStep | backend/src/crawler/mod.rs:137-161 | one loop iteration over the totals and the transaction's rows; `CrawlerProps.CrawlStepTotals` states its effect |
| CrawlerProps.CrawlStepTotals | backend/src/crawler/mod.rs:137-146 | one URL adds its record count to `found` and its new distinct records to the rows and to `inserted`; an empty list inserts nothing |
| CrawlerProps.CrawlFromTotals | backend/src/crawler/mod.rs:119-172 | over the loop, `found` is the sum of record counts and `inserted` the number of distinct harvested records not stored before |
| CrawlerProps.HarvestedBound | backend/src/crawler/mod.rs:137-146 | distinct harvested records never outnumber the records found |
| CrawlerProps.CrawlFromWithoutFaults | backend/src/crawler/mod.rs:119-172 | without store errors the loop always completes |
| Crawler.CrawlRun | backend/src/crawler/mod.rs:110-178 | the whole run: the loop, then commit, or rollback on a store error; `CrawlerProps.CrawlRunTable`, `CrawlerProps.CrawlFromTotals` and `CrawlerProps.RerunInsertsNothing` state its table and totals |
| CrawlerProps.CrawlRunTable | backend/src/crawler/mod.rs:110-178 | a failed crawl leaves the table exactly as before and reports a `Database` error; a successful one adds exactly the harvested records, with `inserted <= found` |
| CrawlerProps.RerunInsertsNothing | backend/src/crawler/mod.rs:110-178 | without store errors, re-running the batch on its own result finds the same count and inserts 0, leaving the table unchanged |
| CrawlerProps.SkippedUrlIsInert | backend/src/crawler/mod.rs:121-127 | a URL that yields nothing can be removed from the batch without changing the outcome |
| CrawlerProps.AbortIsFinal | backend/src/crawler/mod.rs:151-158 | after a store error no later URL matters |
| Crawler.Summary | backend/src/crawler/mod.rs:184-187 | the summary starts with "Crawl complete. Total papers found: " and ends with a digit: no trailing period |
| CrawlerProps.SummaryInjective | backend/src/crawler/mod.rs:184-187 | the summary determines both totals |
| Crawler.Report | backend/src/crawler/mod.rs:181-197 | `run_crawl`'s answer: the summary line or the error's display text; `CrawlerProps.ReportReadsBack` states that it can be read back |
| CrawlerProps.ReportReadsBack | backend/src/crawler/mod.rs:181-197 | a failure's text reads back to the crawl error, and a summary never reads as an error |
| Crawler.RunCrawl | backend/src/crawler/mod.rs:181-197 | the result is the summary of the run's totals, or the error's display text, and the table is the run's |
| Auth.MatchesUsername | backend/src/auth.rs:25-26 | a username matches exactly when it is non-empty and every character is an ASCII letter or digit |
| Auth.Utf8LengthBounds | backend/src/auth.rs:127 | a password's byte length is between its character count and four times it |
| Auth.ValidateRegistration | backend/src/auth.rs:121-139 | `validate_registration` with the password length in UTF-8 bytes; `Auth.ValidateRegistrationIff` and `Auth.PasswordLengthInBytes` state when it passes |
| Auth.ValidateRegistrationIff | backend/src/auth.rs:121-139 | registration passes exactly for a matching username and a password of at least 8 bytes; the username is checked first, and each failure has its own message |
| Auth.PasswordLengthInBytes | backend/src/auth.rs:127-136 | eight characters always pass and fewer than two never do |
| Auth.AuthDecide | backend/src/auth.rs:64-116 | the guard's decision from the decoded claims, the time and the user lookup; `Auth.AuthAdmitsIff` and `Auth.AuthCheckOrder` state it |
| Auth.AuthAdmitsIff | backend/src/auth.rs:64-116 | a request is admitted exactly when its token decodes, `exp` is not before now and the user exists; it is attributed to the token's subject |
| Auth.AuthCheckOrder | backend/src/auth.rs:64-116 | checks run in order (decode 401, expiry 401, lookup 500, missing user 401); the user table is not consulted for an invalid or expired token |
| Auth.IssueClaims | backend/src/auth.rs:166-175 | the claims `create_jwt` signs; `Auth.IssueClaimsFields` and `Auth.IssuedTokenLifetime` state them |
| Auth.IssueClaimsFields | backend/src/auth.rs:166-175 | an issued token names its user, `iat` is now and `exp` is 604800 seconds (7 days) later |
| Auth.IssuedTokenLifetime | backend/src/auth.rs:84-88 | a decoded, freshly issued token admits its user up to and including its expiry second and is refused as expired afterwards |
| PaperRoutes.Conferences | backend/src/routes/papers.rs:47-54 | the DISTINCT, ordered (name, year) list; `PaperRoutes.ConferencesSpec` states its contents and order |
| PaperRoutes.ConferencesSpec | backend/src/routes/papers.rs:47-54 | the list holds exactly the (name, year) pairs of the stored papers, strictly ordered |
| PaperRoutes.StrictlyListedPairwise | backend/src/routes/papers.rs:53 | a strictly ordered list has its years non-increasing, names ascending within a year, and no repeats |
| PaperRoutes.InsertConferenceSpec | backend/src/routes/papers.rs:49-53 | inserting a pair keeps the list strictly ordered and adds exactly that pair, once |
| PaperRoutes.GetConferences | backend/src/routes/papers.rs:43-69 | on success: the distinct pairs, year descending then name ascending, with no repeats; a query failure is a 500 "Database error: ..." |
| PaperRoutes.LikedRowsMembers | backend/src/routes/papers.rs:103-106 | a paper is selected exactly when the user's status row for it has `liked_at` set |
| PaperRoutes.InsertNewestFirstSpec | backend/src/routes/papers.rs:107 | inserting by `liked_at` keeps newest-first order and adds the one paper |
| PaperRoutes.SortNewestFirstSpec | backend/src/routes/papers.rs:107 | sorting by `liked_at` descending is a permutation into newest-first order |
| PaperRoutes.LikedPapers | backend/src/routes/papers.rs:101-108 | the liked-papers query; `PaperRoutes.LikedPapersSpec` states its contents and order |
| PaperRoutes.LikedPapersSpec | backend/src/routes/papers.rs:101-108 | the liked list is a permutation of the user's liked rows, contains exactly the liked papers, and runs newest first |
| PaperRoutes.GetLikedPapers | backend/src/routes/papers.rs:95-128 | on success: exactly the user's liked papers, each as often as it is stored (a permutation of the liked rows), newest first; a query failure is a 500 "Database error: ..." |
| PaperRoutes.PushCondition | backend/src/routes/papers.rs:186-197 | each pushed `AND` clause narrows the selection by exactly that condition |
| PaperRoutes.WhereMembers | backend/src/routes/papers.rs:172-197 | the query selects exactly the table rows that satisfy every pushed condition |
| PaperRoutes.PaperDb.NextPaper | backend/src/routes/papers.rs:164-276 | a paper is returned exactly when some unrated paper matches the filters (an empty conference name filters nothing) and the query does not fail; it is such a paper. Otherwise: 500 on a query failure; 500 "Database check error: ..." on a check failure; 404 "All papers matching these filters have been rated." when some paper matches; 404 "No papers found matching the specified filters." otherwise |
| PaperRoutes.PaperDb.SetPaperStatus | backend/src/routes/papers.rs:307-361 | on success the answer is 201 and the status table is updated as `StatusAfter` says; on failure the answer is 500 and the table is unchanged |
| PaperRoutes.StatusAfter | backend/src/routes/papers.rs:307-333 | the status table after a rating; `PaperRoutes.StatusAfterSpec` states the new rows |
| PaperRoutes.StatusAfterSpec | backend/src/routes/papers.rs:307-333 | only the rated row changes and it exists afterwards. A like sets `liked_at` to now and keeps an existing `created_at`. A read creates an unliked row only when none exists and leaves an existing row, liked or not, untouched |
| PaperRoutes.RatedPaperNotOffered | backend/src/routes/papers.rs:176-183 | once the user rated a paper it is no longer unrated for that user; other users are unaffected |
| PaperRoutes.LikeAddsToLikedList | backend/src/routes/papers.rs:308-322 | after a like, the paper is in the user's liked list |
| PaperRoutes.ReadKeepsLikedLists | backend/src/routes/papers.rs:323-333 | a read changes nobody's liked list: the same papers, as often, in the same order |

## Left out

- **Clock in the crawler:** `Crawler.CrawlEnv` carries one clock reading (`currentYear`) for the whole crawl, where `extract_conference_info` reads it again for every page; pages of a crawl that runs over New Year take the same fallback year in the model and possibly different ones in the program.
- **Networking:** the HTTP client, its defaults and the reading of response bodies. Each URL's fetch outcome is a parameter.
- **Status reason phrase:** the canonical reason of a status code (`StatusCode`'s `Display`) is part of that parameter.
- **HTML parsing and CSS selector matching:** a page is the `Document` datatype, holding the title text and, per article, the parts the selectors would find.
- **URL parsing and joining (WHATWG URL Standard):** these are the two functions of `UrlOps`. Their serialization is whatever those functions return.
- **Regex engines:**
  - `RE_CONF` and `RE_USERNAME` are written as character scans.
  - `\d` is taken as ASCII digits. The regex crate's `\d` also matches other Unicode decimal digits. For those, `parse::<i32>()` would fail and the year would become 2000. Such digits also move where the leftmost match starts. Where a pair of them comes before the first ASCII digit pair, the program matches at that earlier place, so its name is shorter than the model's and its year is 2000. A title whose only digits are non-ASCII matches in the program and takes the fallback in the model.
- **SQLite and the transaction API:**
  - Tables are in-memory sets, sequences and maps.
  - Database failures come from an oracle indexed by statement number, or from one optional fault per query.
  - The unique keys live in migrations that are not part of this model, so two are assumptions:
    - the whole six-field record for `papers` inserted by the crawler;
    - (user id, paper id) for `user_paper_status`.
  - Unrated means "no status row". This assumes the table's `created_at` is never null.
  - A new status row's `created_at` is its column default. The model uses the request time.
  - Foreign-key checks of the status table are not modelled. They would surface as a database fault.
- Crawler.Transaction.Rollback: the source ignores the rollback's own result. The model's rollback always succeeds.
- **Argon2 and JSON Web Tokens:**
  - Argon2 hashing and verification (`hash_password`, `verify_password`) are left out.
  - JWT signing (`encode` in `create_jwt`) is left out.
  - Decoding, with signature and the library's default claim validation (which itself rejects tokens expired beyond its leeway), is the `decoded` parameter.
  - The model keeps the explicit expiry check and the check order.
- Auth.IssueClaims: timestamps are unbounded integers. The 64-bit range of `i64` and of chrono's date arithmetic is not modelled.
- Auth.AuthDecide: the same holds for the expiry comparison, which is on unbounded integers.
- **Crawl counters:** `total_papers_found`, `total_papers_inserted` and `insert_papers`' `inserted_count` are `usize` in the program and unbounded `nat` in `Crawler.CrawlState`, `Crawler.CrawlStep` and `Crawler.InsertFrom`. A 64-bit counter cannot wrap at these sizes, so the model loses no behaviour.
- PaperRoutes.PaperDb.NextPaper: `ORDER BY RANDOM() LIMIT 1` is a choice index into the candidates, so the result is "some candidate", not a distribution.
- PaperRoutes.LikedPapers: rows liked at the same instant appear in one fixed order. SQL leaves their order open, and the contracts only promise newest-first.
- PaperRoutes.LikedPapersSpec: a liked paper appears once per table row. With `id` as primary key that is once per paper, but the model does not assume the key.
- **Logging, async, the HTTP framework:**
  - `tracing` logging, async/await, the axum routing and extractors, and the admin route's detached crawl task are left out.
  - Registration's mapping of a validation failure to a 400 answer (`backend/src/routes/auth.rs`) is not part of this model.
