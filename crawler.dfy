/** The crawl pipeline: choosing a site strategy for a URL, fetching the page,
    inserting the extracted records into the `papers` table inside one
    transaction, and reporting the totals.

    The network, the HTML parser and the database engine are not modelled:
    each URL comes with the outcome of its HTTP request (`FetchOutcome`), the
    HTML parser is a parameter, and the store's failures are an oracle
    (`StoreFaults`) that says which statement, if any, fails. */
module Crawler {
  import opened Wrappers
  import opened Text
  import opened Externals
  import opened CrawlErrors
  import opened CrawlRecord
  import opened UsenixParser

  // ---------------------------------------------------------------------
  // Choosing a parser.
  // ---------------------------------------------------------------------

  /** The site strategies there are; USENIX is the only one. */
  datatype Strategy = UsenixStrategy

  const UsenixHost := "usenix.org"

  /** `host_str().unwrap_or_default()`. */
  function HostOf(u: ParsedUrl): string {
    match u.host
    case Some(h) => h
    case None => ""
  }

  /** `get_parser`: the URL must parse, and its host must contain
      `usenix.org` somewhere. */
  function GetParser(urlStr: string, ops: UrlOps): (r: Result<Strategy, CrawlError>)
    ensures ops.parse(urlStr).Failure? ==> r == Failure(CrawlError.Url(ops.parse(urlStr).error))
    ensures ops.parse(urlStr).Success? ==>
      (r.Success? <==> exists i: nat :: OccursAt(UsenixHost, HostOf(ops.parse(urlStr).value), i))
    ensures ops.parse(urlStr).Success? && r.Failure? ==> r.error == NoParserFound(urlStr)
  {
    match ops.parse(urlStr)
    case Failure(e) => Failure(FromUrlParseError(e))
    case Success(url) =>
      if Contains(HostOf(url), UsenixHost) then Success(UsenixStrategy)
      else Failure(NoParserFound(urlStr))
  }

  /** A URL without a host never gets a parser. */
  lemma GetParserWithoutHost(urlStr: string, ops: UrlOps)
    requires ops.parse(urlStr).Success? && ops.parse(urlStr).value.host.None?
    ensures GetParser(urlStr, ops) == Failure(NoParserFound(urlStr))
  {
    assert !Contains("", UsenixHost);
  }

  // ---------------------------------------------------------------------
  // Fetching a page.
  // ---------------------------------------------------------------------

  /** An HTTP status: its number and, when the number is a registered one,
      its canonical reason phrase. */
  datatype StatusCode = StatusCode(code: nat, canonicalReason: Option<string>)

  /** `impl Display for StatusCode`: the number, a space, the reason phrase. */
  function StatusText(s: StatusCode): string {
    NatToString(s.code) + " " + match s.canonicalReason
      case Some(reason) => reason
      case None => "<unknown status code>"
  }

  /** `StatusCode::is_success`: 2xx. */
  predicate IsSuccess(s: StatusCode) {
    200 <= s.code <= 299
  }

  /** What the HTTP client reports for one request: no response at all, or a
      status and a body that can still fail to be read. */
  datatype FetchOutcome =
    | NoResponse(error: FetchError)
    | Responded(status: StatusCode, body: Result<string, FetchError>)

  function HttpFailureMessage(url: string, status: StatusCode): string {
    "HTTP Error for " + url + ": " + StatusText(status)
  }

  /** `fetch_html`: the body of a 2xx response; an `Http` error naming the URL
      and the status otherwise; a `Fetch` error when the request or the body
      fails. */
  function FetchHtml(url: string, o: FetchOutcome): (r: Result<string, CrawlError>)
    ensures r.Success? <==> o.Responded? && IsSuccess(o.status) && o.body.Success?
    ensures r.Success? ==> r.value == o.body.value
    ensures r.Failure? && r.error.Http? ==> o.Responded? && !IsSuccess(o.status)
    ensures r.Failure? ==> r.error.Fetch? || r.error.Http?
  {
    match o
    case NoResponse(e) => Failure(FromFetchError(e))
    case Responded(status, body) =>
      if !IsSuccess(status) then Failure(Http(HttpFailureMessage(url, status)))
      else match body
        case Success(html) => Success(html)
        case Failure(e) => Failure(FromFetchError(e))
  }

  /** A non-2xx status is reported whatever the body, as an `Http` error
      that names the URL and the status. */
  lemma FetchHtmlStatusMessage(url: string, o: FetchOutcome)
    requires o.Responded? && !IsSuccess(o.status)
    ensures FetchHtml(url, o) == Failure(Http(HttpFailureMessage(url, o.status)))
    ensures Display(FetchHtml(url, o).error) == HttpPrefix + HttpFailureMessage(url, o.status)
  {
  }

  // ---------------------------------------------------------------------
  // What one URL yields before the store sees it.
  // ---------------------------------------------------------------------

  /** Everything outside the model that the crawl consults: URL parsing and
      joining, the HTML parser, and the current year. */
  datatype CrawlEnv = CrawlEnv(ops: UrlOps, parseHtml: string -> Document, currentYear: int)

  /** The records one URL yields, or `None` when parser selection, the fetch
      or the parse fails (the URL is then skipped). */
  function Harvest(urlStr: string, fetch: FetchOutcome, env: CrawlEnv): Option<seq<Paper>> {
    match GetParser(urlStr, env.ops)
    case Failure(_) => None
    case Success(UsenixStrategy) =>
      match FetchHtml(urlStr, fetch)
      case Failure(_) => None
      case Success(html) =>
        match ParseOutcome(env.parseHtml(html), urlStr, env.ops, env.currentYear)
        case Failure(_) => None
        case Success(papers) => Some(papers)
  }

  /** The harvest of every URL of a batch, in input order. */
  function Harvests(urls: seq<string>, fetches: seq<FetchOutcome>, env: CrawlEnv): (h: seq<Option<seq<Paper>>>)
    requires |fetches| == |urls|
    ensures |h| == |urls|
    ensures forall k :: 0 <= k < |urls| ==> h[k] == Harvest(urls[k], fetches[k], env)
  {
    seq(|urls|, k requires 0 <= k < |urls| => Harvest(urls[k], fetches[k], env))
  }

  // ---------------------------------------------------------------------
  // The store.
  // ---------------------------------------------------------------------

  /** The answer of the store to each statement of a transaction, numbered
      from 0: `Some(e)` when that statement fails with `e`. */
  type FaultOracle = nat -> Option<DbError>

  /** Where the store can fail during one crawl: opening the transaction, any
      insert statement, and the commit. */
  datatype StoreFaults = StoreFaults(begin: Option<DbError>, insert: FaultOracle, commit: Option<DbError>)

  /** The `papers` table. Its unique key is the whole record, so it is a set. */
  class PaperTable {
    var rows: set<Paper>

    constructor (initial: set<Paper>)
      ensures rows == initial
    {
      rows := initial;
    }
  }

  /** An open transaction on a table: the rows it sees (the table's rows plus
      its own inserts) and how many statements it has issued. Nothing reaches
      the table before `Commit`. */
  class Transaction {
    const table: PaperTable
    const faults: FaultOracle
    var rows: set<Paper>
    var issued: nat

    /** `pool.begin()`, once the store has accepted it. */
    constructor Begin(t: PaperTable, faults: FaultOracle)
      ensures table == t && this.faults == faults
      ensures rows == t.rows && issued == 0
    {
      table := t;
      this.faults := faults;
      rows := t.rows;
      issued := 0;
    }

    /** One `INSERT OR IGNORE`: on success, the number of rows it created (0
      when the record is already stored). A failing statement creates none. */
    method InsertOrIgnore(p: Paper) returns (r: Result<nat, DbError>)
      modifies this
      ensures issued == old(issued) + 1
      ensures faults(old(issued)).Some? ==> r == Failure(faults(old(issued)).value) && rows == old(rows)
      ensures faults(old(issued)).None? ==>
        r == Success(if p in old(rows) then 0 else 1) && rows == old(rows) + {p}
    {
      var fault := faults(issued);
      issued := issued + 1;
      if fault.Some? {
        return Failure(fault.value);
      }
      r := Success(if p in rows then 0 else 1);
      rows := rows + {p};
    }

    /** `tx.commit()`: the table takes the transaction's rows, unless the
      commit fails, in which case the table is as it was. */
    method Commit(fault: Option<DbError>) returns (r: Result<(), DbError>)
      modifies table
      ensures fault.None? ==> r == Success(()) && table.rows == rows
      ensures fault.Some? ==> r == Failure(fault.value) && table.rows == old(table.rows)
    {
      if fault.Some? {
        return Failure(fault.value);
      }
      table.rows := rows;
      r := Success(());
    }

    /** `tx.rollback()`: the transaction's own inserts are discarded; the
      table is not touched. */
    method Rollback()
      modifies this
      ensures rows == table.rows && issued == old(issued)
    {
      rows := table.rows;
    }
  }

  // ---------------------------------------------------------------------
  // `insert_papers`.
  // ---------------------------------------------------------------------

  /** The rows a transaction sees after a run of inserts, how many statements
      it has issued, and the outcome: rows created, or the first error. */
  datatype Batch = Batch(rows: set<Paper>, issued: nat, outcome: Result<nat, DbError>)

  /** `insert_papers` from record `i` on, having issued `issued` statements and
      created `count` rows so far: one statement per record, stopping at the
      first failure. */
  function InsertFrom(papers: seq<Paper>, i: nat, rows: set<Paper>, issued: nat, count: nat, faults: FaultOracle): Batch
    requires i <= |papers|
    decreases |papers| - i
  {
    if i == |papers| then Batch(rows, issued, Success(count))
    else match faults(issued)
      case Some(e) => Batch(rows, issued + 1, Failure(e))
      case None =>
        InsertFrom(papers, i + 1, rows + {papers[i]}, issued + 1, if papers[i] in rows then count else count + 1, faults)
  }

  /** `insert_papers(tx, papers)`. */
  method InsertPapers(tx: Transaction, papers: seq<Paper>) returns (r: Result<nat, DbError>)
    modifies tx
    ensures Batch(tx.rows, tx.issued, r) == InsertFrom(papers, 0, old(tx.rows), old(tx.issued), 0, tx.faults)
  {
    var insertedCount := 0;
    for i := 0 to |papers|
      invariant InsertFrom(papers, i, tx.rows, tx.issued, insertedCount, tx.faults)
        == InsertFrom(papers, 0, old(tx.rows), old(tx.issued), 0, tx.faults)
    {
      var affected := tx.InsertOrIgnore(papers[i]);
      if affected.Failure? {
        return Failure(affected.error);
      }
      if affected.value > 0 {
        insertedCount := insertedCount + 1;
      }
    }
    return Success(insertedCount);
  }

  // ---------------------------------------------------------------------
  // `run_crawl_logic` and `run_crawl`.
  // ---------------------------------------------------------------------

  /** The state of a crawl between two URLs: the rows the transaction sees,
      the statements issued, and the two totals. */
  datatype CrawlState = CrawlState(rows: set<Paper>, issued: nat, found: nat, inserted: nat)

  /** What one URL does to the crawl: a skipped URL changes nothing, the
      records of a parsed page are added to the found total and, when there
      are any, inserted, the inserted total growing by the rows created; a
      store error ends the crawl. */
  function CrawlStep(harvest: Option<seq<Paper>>, st: CrawlState, faults: FaultOracle): Result<CrawlState, DbError> {
    match harvest
    case None => Success(st)
    case Some(papers) =>
      if papers == [] then Success(st)
      else
        var b := InsertFrom(papers, 0, st.rows, st.issued, 0, faults);
        match b.outcome
        case Failure(e) => Failure(e)
        case Success(n) => Success(CrawlState(b.rows, b.issued, st.found + |papers|, st.inserted + n))
  }

  /** The crawl loop from URL `i` on, in input order, stopping at the first
      store error. */
  function CrawlFrom(harvests: seq<Option<seq<Paper>>>, i: nat, st: CrawlState, faults: FaultOracle): Result<CrawlState, DbError>
    requires i <= |harvests|
    decreases |harvests| - i
  {
    if i == |harvests| then Success(st)
    else match CrawlStep(harvests[i], st, faults)
      case Failure(e) => Failure(e)
      case Success(next) => CrawlFrom(harvests, i + 1, next, faults)
  }

  /** How a crawl ends: its outcome and the rows of the table afterwards. */
  datatype CrawlResult = CrawlResult(outcome: Result<(nat, nat), CrawlError>, rows: set<Paper>)

  /** `run_crawl_logic` as a value: a failure to open the transaction, an
      insert failure (followed by a rollback) or a failed commit leaves the
      table as it was; otherwise the table takes the transaction's rows and
      the totals are reported. */
  function CrawlRun(harvests: seq<Option<seq<Paper>>>, initial: set<Paper>, faults: StoreFaults): CrawlResult {
    match faults.begin
    case Some(e) => CrawlResult(Failure(FromDbError(e)), initial)
    case None =>
      match CrawlFrom(harvests, 0, CrawlState(initial, 0, 0, 0), faults.insert)
      case Failure(e) => CrawlResult(Failure(FromDbError(e)), initial)
      case Success(st) =>
        match faults.commit
        case Some(e) => CrawlResult(Failure(FromDbError(e)), initial)
        case None => CrawlResult(Success((st.found, st.inserted)), st.rows)
  }

  /** One URL of `run_crawl_logic`: choose the parser, fetch, parse. */
  method HarvestUrl(urlStr: string, fetch: FetchOutcome, env: CrawlEnv) returns (h: Option<seq<Paper>>)
    ensures h == Harvest(urlStr, fetch, env)
  {
    var parser := GetParser(urlStr, env.ops);
    if parser.Failure? {
      return None;
    }
    var html := FetchHtml(urlStr, fetch);
    if html.Failure? {
      return None;
    }
    var parsed := ParseAndExtract(env.parseHtml(html.value), urlStr, env.ops, env.currentYear);
    if parsed.Failure? {
      return None;
    }
    return Some(parsed.value);
  }

  /** The body of the loop of `run_crawl_logic` for one URL, given the totals
      so far: the new totals, or the store error that ends the crawl. */
  method CrawlUrl(tx: Transaction, urlStr: string, fetch: FetchOutcome, env: CrawlEnv, found: nat, inserted: nat)
    returns (r: Result<(nat, nat), DbError>)
    modifies tx
    ensures var step := CrawlStep(Harvest(urlStr, fetch, env), CrawlState(old(tx.rows), old(tx.issued), found, inserted), tx.faults);
      && (r.Success? <==> step.Success?)
      && (r.Success? ==> step.value == CrawlState(tx.rows, tx.issued, r.value.0, r.value.1))
      && (r.Failure? ==> step.error == r.error)
  {
    var harvest := HarvestUrl(urlStr, fetch, env);
    if harvest.None? {
      return Success((found, inserted));
    }
    var papers := harvest.value;
    var totalFound := found + |papers|;
    var totalInserted := inserted;
    if |papers| > 0 {
      var insertedHere := InsertPapers(tx, papers);
      if insertedHere.Failure? {
        return Failure(insertedHere.error);
      }
      totalInserted := totalInserted + insertedHere.value;
    }
    return Success((totalFound, totalInserted));
  }

  /** `run_crawl_logic(pool, urls)`: one transaction for the whole batch, one
      URL after the other; the first store error rolls the transaction back. */
  method RunCrawlLogic(table: PaperTable, urls: seq<string>, fetches: seq<FetchOutcome>, env: CrawlEnv, faults: StoreFaults)
    returns (r: Result<(nat, nat), CrawlError>)
    requires |fetches| == |urls|
    modifies table
    ensures CrawlResult(r, table.rows) == CrawlRun(Harvests(urls, fetches, env), old(table.rows), faults)
  {
    ghost var harvests := Harvests(urls, fetches, env);
    if faults.begin.Some? {
      return Failure(FromDbError(faults.begin.value));
    }
    var tx := new Transaction.Begin(table, faults.insert);
    var totalInserted: nat := 0;
    var totalFound: nat := 0;
    for i := 0 to |urls|
      invariant tx.table == table && tx.faults == faults.insert && table.rows == old(table.rows)
      invariant CrawlFrom(harvests, i, CrawlState(tx.rows, tx.issued, totalFound, totalInserted), faults.insert)
        == CrawlFrom(harvests, 0, CrawlState(old(table.rows), 0, 0, 0), faults.insert)
    {
      var step := CrawlUrl(tx, urls[i], fetches[i], env, totalFound, totalInserted);
      if step.Failure? {
        tx.Rollback();
        return Failure(FromDbError(step.error));
      }
      totalFound, totalInserted := step.value.0, step.value.1;
    }
    var committed := tx.Commit(faults.commit);
    if committed.Failure? {
      return Failure(FromDbError(committed.error));
    }
    return Success((totalFound, totalInserted));
  }

  const SummaryHead := "Crawl complete. Total papers found: "
  const SummaryMiddle := ". Total new papers inserted: "

  /** The success message of `run_crawl`. */
  function Summary(found: nat, inserted: nat): (s: string)
    ensures HasPrefix(s, SummaryHead) && IsDigit(s[|s| - 1])
  {
    SummaryHead + NatToString(found) + SummaryMiddle + NatToString(inserted)
  }

  /** `run_crawl`'s answer: the summary, or the error's rendering. */
  function Report(outcome: Result<(nat, nat), CrawlError>): Result<string, string> {
    match outcome
    case Success((found, inserted)) => Success(Summary(found, inserted))
    case Failure(e) => Failure(Display(e))
  }

  /** `run_crawl(pool, urls)`. */
  method RunCrawl(table: PaperTable, urls: seq<string>, fetches: seq<FetchOutcome>, env: CrawlEnv, faults: StoreFaults)
    returns (r: Result<string, string>)
    requires |fetches| == |urls|
    modifies table
    ensures var run := CrawlRun(Harvests(urls, fetches, env), old(table.rows), faults);
      r == Report(run.outcome) && table.rows == run.rows
  {
    var outcome := RunCrawlLogic(table, urls, fetches, env, faults);
    match outcome
    case Success(totals) =>
      r := Success(Summary(totals.0, totals.1));
    case Failure(e) =>
      r := Failure(Display(e));
  }
}
