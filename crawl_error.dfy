/** The crawler's error type: its variants, how each renders (`Display`),
    which carry an underlying cause (`Error::source`), and the conversions from
    library errors (`From`). */
module CrawlErrors {
  import opened Wrappers
  import opened Externals

  datatype CrawlError =
    | Fetch(fetchError: FetchError)
    | Http(httpMessage: string)
    | Parse(parseMessage: string)
    | Database(dbError: DbError)
    | Url(urlError: UrlParseError)
    | NoParserFound(url: string)

  const FetchPrefix := "Failed to fetch URL: "
  const HttpPrefix := "HTTP error: "
  const ParsePrefix := "Parsing error: "
  const DatabasePrefix := "Database error: "
  const UrlPrefix := "Invalid URL: "
  const NoParserPrefix := "No parser found for URL: "

  /** `impl Display for CrawlError`. */
  function Display(e: CrawlError): string {
    match e
    case Fetch(f) => FetchPrefix + f.message
    case Http(s) => HttpPrefix + s
    case Parse(s) => ParsePrefix + s
    case Database(d) => DatabasePrefix + d.message
    case Url(u) => UrlPrefix + u.message
    case NoParserFound(url) => NoParserPrefix + url
  }

  predicate HasPrefix(s: string, p: string) {
    |p| <= |s| && s[..|p|] == p
  }

  predicate EndsWith(s: string, t: string) {
    |t| <= |s| && s[|s| - |t|..] == t
  }

  /** Reads a rendered error back. The six prefixes begin with six different
      letters, so the first letter decides which prefix to look for. */
  function ParseDisplay(s: string): Option<CrawlError> {
    if s == [] then None
    else if s[0] == 'F' && HasPrefix(s, FetchPrefix) then Some(Fetch(FetchError(s[|FetchPrefix|..])))
    else if s[0] == 'H' && HasPrefix(s, HttpPrefix) then Some(Http(s[|HttpPrefix|..]))
    else if s[0] == 'P' && HasPrefix(s, ParsePrefix) then Some(Parse(s[|ParsePrefix|..]))
    else if s[0] == 'D' && HasPrefix(s, DatabasePrefix) then Some(Database(DbError(s[|DatabasePrefix|..])))
    else if s[0] == 'I' && HasPrefix(s, UrlPrefix) then Some(CrawlError.Url(UrlParseError(s[|UrlPrefix|..])))
    else if s[0] == 'N' && HasPrefix(s, NoParserPrefix) then Some(NoParserFound(s[|NoParserPrefix|..]))
    else None
  }

  lemma PrefixSplit(p: string, x: string)
    requires p != []
    ensures (p + x)[0] == p[0] && HasPrefix(p + x, p) && (p + x)[|p|..] == x
  {
    assert (p + x)[..|p|] == p;
  }

  /** Every rendering starts with its variant's prefix and ends with the
      payload, and nothing is lost: the error can be read back from it. */
  lemma DisplayRoundTrip(e: CrawlError)
    ensures ParseDisplay(Display(e)) == Some(e)
  {
    match e
    case Fetch(f) => PrefixSplit(FetchPrefix, f.message);
    case Http(m) => PrefixSplit(HttpPrefix, m);
    case Parse(m) => PrefixSplit(ParsePrefix, m);
    case Database(d) => PrefixSplit(DatabasePrefix, d.message);
    case Url(u) => PrefixSplit(UrlPrefix, u.message);
    case NoParserFound(url) => PrefixSplit(NoParserPrefix, url);
  }

  /** Distinct errors render as distinct strings. */
  lemma DisplayInjective(e1: CrawlError, e2: CrawlError)
    requires Display(e1) == Display(e2)
    ensures e1 == e2
  {
    DisplayRoundTrip(e1);
    DisplayRoundTrip(e2);
  }

  /** The underlying cause `Error::source` exposes. */
  datatype Cause = FetchCause(fetch: FetchError) | DbCause(db: DbError) | UrlCause(url: UrlParseError)

  function CauseMessage(c: Cause): string {
    match c
    case FetchCause(f) => f.message
    case DbCause(d) => d.message
    case UrlCause(u) => u.message
  }

  /** `impl Error for CrawlError`: a cause exactly for the variants that wrap a
      library error. */
  function Source(e: CrawlError): (r: Option<Cause>)
    ensures r.Some? <==> e.Fetch? || e.Database? || e.Url?
  {
    match e
    case Fetch(f) => Some(FetchCause(f))
    case Database(d) => Some(DbCause(d))
    case Url(u) => Some(UrlCause(u))
    case _ => None
  }

  /** The rendering of an error that has a cause ends with the cause's own
      message. */
  lemma SourceMessageEndsDisplay(e: CrawlError)
    ensures Source(e).Some? ==> EndsWith(Display(e), CauseMessage(Source(e).value))
  {
    match e
    case Fetch(f) => assert (FetchPrefix + f.message)[|FetchPrefix|..] == f.message;
    case Database(d) => assert (DatabasePrefix + d.message)[|DatabasePrefix|..] == d.message;
    case Url(u) => assert (UrlPrefix + u.message)[|UrlPrefix|..] == u.message;
    case _ =>
  }

  /** `From<reqwest::Error>`. */
  function FromFetchError(f: FetchError): (e: CrawlError)
    ensures Source(e) == Some(FetchCause(f))
  {
    Fetch(f)
  }

  /** `From<sqlx::Error>`. */
  function FromDbError(d: DbError): (e: CrawlError)
    ensures Source(e) == Some(DbCause(d))
  {
    Database(d)
  }

  /** `From<url::ParseError>`. */
  function FromUrlParseError(u: UrlParseError): (e: CrawlError)
    ensures Source(e) == Some(UrlCause(u))
  {
    CrawlError.Url(u)
  }

  /** `From<SelectorErrorKind>`: keeps only the text, so no cause remains. */
  function FromSelectorError(s: SelectorError): (e: CrawlError)
    ensures Source(e) == None && Display(e) == ParsePrefix + s.message
  {
    Parse(s.message)
  }
}
