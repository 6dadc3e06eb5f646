/** The extraction strategy for USENIX conference programme pages.
    The HTML document is given already reduced to what the CSS selectors reach
    (HTML parsing and selector matching belong to a library); URL parsing and
    joining are parameters; the current year is a parameter. */
module UsenixParser {
  import opened Wrappers
  import opened Text
  import opened Externals
  import opened CrawlErrors
  import opened CrawlRecord

  const PageTitleMissing := "Overall page title not found"
  const TitleNotFound := "Paper title not found"
  const UrlNotFound := "Paper URL not found"
  const AuthorsNotFound := "Authors not found"
  const AbstractNotFound := "Abstract not found"

  /** The first `h2 a` element inside an article: its concatenated text and
      its `href` attribute, if it has one. */
  datatype TitleLink = TitleLink(text: string, href: Option<string>)

  /** One `article.node-paper` element as the selectors see it:
      - `titleLink`: the first `h2 a`;
      - `authorsText`: the concatenated text of the first element, in document
        order, matching `div.field-name-field-paper-people-text p` or
        `div.field-name-field-presented-by p`;
      - `abstractParagraphs`: when a `div.field-name-field-paper-description-long`
        exists, the text of every `p` inside the first one, in document order. */
  datatype Article = Article(
    titleLink: Option<TitleLink>,
    authorsText: Option<string>,
    abstractParagraphs: Option<seq<string>>)

  /** A parsed page: the concatenated text of the first `head > title`, if
      any, and the `article.node-paper` elements in document order. */
  datatype Document = Document(pageTitle: Option<string>, articles: seq<Article>)

  /** The page title, trimmed; a page without one cannot be attributed to a
      conference and fails. */
  function ExtractPageTitle(doc: Document): (r: Result<string, CrawlError>)
    ensures r.Failure? <==> doc.pageTitle.None?
    ensures r.Failure? ==> r.error == Parse(PageTitleMissing)
    ensures r.Success? ==>
      && IsTrimmed(r.value)
      && exists a, b :: AllWhitespace(a) && AllWhitespace(b) && doc.pageTitle.value == a + r.value + b
  {
    match doc.pageTitle
    case None => Failure(Parse(PageTitleMissing))
    case Some(t) => TrimSplits(t); Success(Trim(t))
  }

  // ---------------------------------------------------------------------
  // The conference pattern `^(.*?)\s+'?(\d{2})`, written out as a scan.
  // `.` matches anything but a line feed; `\s` is Unicode White_Space;
  // `\d` is taken to be an ASCII digit.
  // ---------------------------------------------------------------------

  /** End of the run of whitespace that starts at `i`. */
  function WhitespaceRunEnd(s: string, i: nat): (j: nat)
    requires i <= |s|
    ensures i <= j <= |s|
    ensures j < |s| ==> !IsWhitespace(s[j])
    decreases |s| - i
  {
    if i < |s| && IsWhitespace(s[i]) then WhitespaceRunEnd(s, i + 1) else i
  }

  /** Everything the run covers is whitespace. */
  lemma {:induction false} WhitespaceRunIsWhitespace(s: string, i: nat)
    requires i <= |s|
    ensures forall m :: i <= m < WhitespaceRunEnd(s, i) ==> IsWhitespace(s[m])
    decreases |s| - i
  {
    if i < |s| && IsWhitespace(s[i]) {
      WhitespaceRunIsWhitespace(s, i + 1);
    }
  }

  predicate TwoDigitsAt(s: string, j: nat) {
    j + 2 <= |s| && IsDigit(s[j]) && IsDigit(s[j + 1])
  }

  /** The regular expression's own reading of `\s+'?(\d{2})` at index `i`:
      `k >= 1` whitespace characters, `q <= 1` apostrophes, two digits. */
  predicate PatternAt(s: string, i: nat, k: nat, q: nat) {
    && 1 <= k && q <= 1 && i + k + q + 2 <= |s|
    && (forall m :: i <= m < i + k ==> IsWhitespace(s[m]))
    && (q == 1 ==> s[i + k] == '\'')
    && IsDigit(s[i + k + q]) && IsDigit(s[i + k + q + 1])
  }

  /** Whether `\s+'?(\d{2})` matches at `i`, and if so where the captured
      digits are. The greedy `\s+` must take the whole whitespace run: a
      shorter run would leave a whitespace character where an apostrophe or a
      digit is needed, so the match, when there is one, is unique. */
  function YearDigitsAt(s: string, i: nat): (r: Option<nat>)
    requires i <= |s|
    ensures r.Some? ==> TwoDigitsAt(s, r.value)
  {
    if i < |s| && IsWhitespace(s[i]) then
      var j := WhitespaceRunEnd(s, i);
      if TwoDigitsAt(s, j) then Some(j)
      else if j < |s| && s[j] == '\'' && TwoDigitsAt(s, j + 1) then Some(j + 1)
      else None
    else
      None
  }

  /** `YearDigitsAt` agrees with the pattern read literally: what it finds is a
      match, and every match is the one it finds. */
  lemma YearDigitsAtIsPattern(s: string, i: nat)
    requires i <= |s|
    ensures YearDigitsAt(s, i).Some? ==> (WhitespaceRunEnd(s, i) <= YearDigitsAt(s, i).value
      && PatternAt(s, i, WhitespaceRunEnd(s, i) - i, YearDigitsAt(s, i).value - WhitespaceRunEnd(s, i)))
    ensures forall k: nat, q: nat :: PatternAt(s, i, k, q) ==> YearDigitsAt(s, i) == Some(i + k + q)
  {
    WhitespaceRunIsWhitespace(s, i);
    forall k: nat, q: nat | PatternAt(s, i, k, q) ensures YearDigitsAt(s, i) == Some(i + k + q) {
      var j := WhitespaceRunEnd(s, i);
      assert !IsWhitespace(s[i + k]);
    }
  }

  /** No line feed in `s[from..to]`: the lazy `(.*?)` can span it. */
  predicate NoLineFeed(s: string, from: nat, to: nat)
    requires from <= to <= |s|
  {
    forall n :: from <= n < to ==> s[n] != '\n'
  }

  /** The match the regex engine reports, trying group 1 at lengths `e`,
      `e + 1`, ... in turn (lazy), never past a line feed: the end of group 1
      and the index of group 2. */
  function FirstMatchFrom(s: string, e: nat): (r: Option<(nat, nat)>)
    requires e <= |s|
    ensures r.Some? ==> e <= r.value.0 <= |s| && YearDigitsAt(s, r.value.0) == Some(r.value.1)
    decreases |s| - e
  {
    match YearDigitsAt(s, e)
    case Some(d) => Some((e, d))
    case None =>
      if e < |s| && s[e] != '\n' then FirstMatchFrom(s, e + 1) else None
  }

  /** The reported match is the leftmost one reachable without crossing a line
      feed, and when none is reported there is none. */
  lemma {:induction false} FirstMatchFromIsLeftmost(s: string, e: nat)
    requires e <= |s|
    ensures var r := FirstMatchFrom(s, e);
      r.Some? ==> && NoLineFeed(s, e, r.value.0)
                  && (forall m :: e <= m < r.value.0 ==> YearDigitsAt(s, m).None?)
    ensures FirstMatchFrom(s, e).None? ==>
      forall m :: e <= m <= |s| && NoLineFeed(s, e, m) ==> YearDigitsAt(s, m).None?
    decreases |s| - e
  {
    if YearDigitsAt(s, e).None? && e < |s| && s[e] != '\n' {
      FirstMatchFromIsLeftmost(s, e + 1);
      forall m | e <= m <= |s| && NoLineFeed(s, e, m) && FirstMatchFrom(s, e).None?
        ensures YearDigitsAt(s, m).None?
      {
        if m > e {
          assert NoLineFeed(s, e + 1, m);
        }
      }
    } else if YearDigitsAt(s, e).None? {
      forall m | e <= m <= |s| && NoLineFeed(s, e, m) ensures YearDigitsAt(s, m).None? {
        assert m == e;
      }
    }
  }

  datatype ConferenceInfo = ConferenceInfo(name: string, year: int)

  /** Conference name and year from the page title: from the pattern when it
      matches (`2000 +` the two captured digits), otherwise the text before the
      first `|` and the current year. Never fails. */
  function ExtractConferenceInfo(pageTitle: string, currentYear: int): (r: ConferenceInfo)
    ensures r.year == currentYear || 2000 <= r.year <= 2099
    ensures IsTrimmed(r.name)
  {
    match FirstMatchFrom(pageTitle, 0)
    case Some((e, d)) =>
      ConferenceInfo(Trim(pageTitle[..e]), 2000 + 10 * DigitValue(pageTitle[d]) + DigitValue(pageTitle[d + 1]))
    case None =>
      ConferenceInfo(Trim(FirstSplit(pageTitle, '|')), currentYear)
  }

  /** When the pattern matches at `e` and nowhere before, the engine reports
      group 1 ending at `e` and group 2 right after the whitespace and the
      optional apostrophe. */
  lemma FirstMatchOnPattern(pageTitle: string, e: nat, k: nat, q: nat)
    requires PatternAt(pageTitle, e, k, q) && NoLineFeed(pageTitle, 0, e)
    requires forall m, k', q' :: 0 <= m < e ==> !PatternAt(pageTitle, m, k', q')
    ensures FirstMatchFrom(pageTitle, 0) == Some((e, e + k + q))
  {
    YearDigitsAtIsPattern(pageTitle, e);
    FirstMatchFromIsLeftmost(pageTitle, 0);
    var r := FirstMatchFrom(pageTitle, 0);
    assert r.Some?;
    var e', d := r.value.0, r.value.1;
    assert e' <= e;
    YearDigitsAtIsPattern(pageTitle, e');
    var j := WhitespaceRunEnd(pageTitle, e');
    assert PatternAt(pageTitle, e', j - e', d - j);
    assert e' == e;
  }

  /** When the pattern matches with group 1 ending at `e` (the first place it
      can), the name is the trimmed text before `e` and the year is 2000 plus
      the two digits after the whitespace and the optional apostrophe. */
  lemma ConferenceInfoOnMatch(pageTitle: string, currentYear: int, e: nat, k: nat, q: nat)
    requires PatternAt(pageTitle, e, k, q) && NoLineFeed(pageTitle, 0, e)
    requires forall m, k', q' :: 0 <= m < e ==> !PatternAt(pageTitle, m, k', q')
    ensures ExtractConferenceInfo(pageTitle, currentYear).name == Trim(pageTitle[..e])
    ensures ExtractConferenceInfo(pageTitle, currentYear).year
      == 2000 + 10 * DigitValue(pageTitle[e + k + q]) + DigitValue(pageTitle[e + k + q + 1])
  {
    FirstMatchOnPattern(pageTitle, e, k, q);
    ConferenceInfoOfMatch(pageTitle, currentYear, e, e + k + q);
  }

  lemma ConferenceInfoOfMatch(pageTitle: string, currentYear: int, e: nat, d: nat)
    requires FirstMatchFrom(pageTitle, 0) == Some((e, d))
    ensures d + 2 <= |pageTitle| && e <= |pageTitle|
    ensures ExtractConferenceInfo(pageTitle, currentYear)
      == ConferenceInfo(Trim(pageTitle[..e]), 2000 + 10 * DigitValue(pageTitle[d]) + DigitValue(pageTitle[d + 1]))
  {
  }

  /** When the pattern matches nowhere the lazy group can reach, the name is
      the trimmed text before the first `|` and the year is the current one. */
  lemma ConferenceInfoFallback(pageTitle: string, currentYear: int)
    requires forall m, k, q :: 0 <= m <= |pageTitle| && NoLineFeed(pageTitle, 0, m) ==> !PatternAt(pageTitle, m, k, q)
    ensures ExtractConferenceInfo(pageTitle, currentYear) == ConferenceInfo(Trim(FirstSplit(pageTitle, '|')), currentYear)
  {
    match FirstMatchFrom(pageTitle, 0)
    case None =>
    case Some((e, _)) =>
      FirstMatchFromIsLeftmost(pageTitle, 0);
      YearDigitsAtIsPattern(pageTitle, e);
      assert false;
  }

  /** The usual shape of a USENIX title: a first run of text free of whitespace
      and line feeds, then the pattern right after it. That text is the name. */
  lemma ConferenceInfoAfterWord(pageTitle: string, currentYear: int, e: nat, k: nat, q: nat)
    requires PatternAt(pageTitle, e, k, q)
    requires forall m :: 0 <= m < e ==> !IsWhitespace(pageTitle[m])
    ensures ExtractConferenceInfo(pageTitle, currentYear).name == pageTitle[..e]
    ensures ExtractConferenceInfo(pageTitle, currentYear).year
      == 2000 + 10 * DigitValue(pageTitle[e + k + q]) + DigitValue(pageTitle[e + k + q + 1])
  {
    forall m, k', q' | 0 <= m < e ensures !PatternAt(pageTitle, m, k', q') {
      assert !IsWhitespace(pageTitle[m]);
    }
    ConferenceInfoOnMatch(pageTitle, currentYear, e, k, q);
    TrimUnpadded(pageTitle[..e]);
  }

  /** A title without any digit never matches: it falls back to the text
      before `|` and the current year. */
  lemma ConferenceInfoWithoutDigits(pageTitle: string, currentYear: int)
    requires forall m :: 0 <= m < |pageTitle| ==> !IsDigit(pageTitle[m])
    ensures ExtractConferenceInfo(pageTitle, currentYear) == ConferenceInfo(Trim(FirstSplit(pageTitle, '|')), currentYear)
  {
    ConferenceInfoFallback(pageTitle, currentYear);
  }

  /** Without digits, the name is the trimmed text before the first `|`. */
  lemma ConferenceInfoBeforeBar(pageTitle: string, currentYear: int, n: nat)
    requires forall m :: 0 <= m < |pageTitle| ==> !IsDigit(pageTitle[m])
    requires n < |pageTitle| && pageTitle[n] == '|'
    requires forall m :: 0 <= m < n ==> pageTitle[m] != '|'
    ensures ExtractConferenceInfo(pageTitle, currentYear) == ConferenceInfo(Trim(pageTitle[..n]), currentYear)
  {
    ConferenceInfoWithoutDigits(pageTitle, currentYear);
    FirstSplitAt(pageTitle, '|', n);
  }

  /** A four-digit year is read by its first two digits: "Conf 2024" is 2020. */
  lemma TitleExampleFourDigitYear(t: string, currentYear: int)
    requires t == "Conf 2024"
    ensures ExtractConferenceInfo(t, currentYear) == ConferenceInfo("Conf", 2020)
  {
    assert PatternAt(t, 4, 1, 0);
    ConferenceInfoAfterWord(t, currentYear, 4, 1, 0);
    assert t[..4] == "Conf";
  }

  /** An apostrophe year: "FAST '24" is FAST, 2024. */
  lemma TitleExampleApostropheYear(t: string, currentYear: int)
    requires t == "FAST '24"
    ensures ExtractConferenceInfo(t, currentYear) == ConferenceInfo("FAST", 2024)
  {
    assert PatternAt(t, 4, 1, 1);
    ConferenceInfoAfterWord(t, currentYear, 4, 1, 1);
    assert t[..4] == "FAST";
  }

  /** A title without the pattern: the text before `|`, and the current year. */
  lemma TitleExampleNoYear(t: string, currentYear: int)
    requires t == "Home | Site"
    ensures ExtractConferenceInfo(t, currentYear) == ConferenceInfo("Home", currentYear)
  {
    forall m | 0 <= m < |t| ensures !IsDigit(t[m]) { }
    assert Trim(t[..5]) == "Home" by {
      assert t[..5] == [] + "Home" + " ";
      TrimPadded([], "Home", " ");
    }
    ConferenceInfoBeforeBar(t, currentYear, 5);
  }

  // ---------------------------------------------------------------------
  // One record per article.
  // ---------------------------------------------------------------------

  function JoinFailure(href: string, base: ParsedUrl, e: UrlParseError): string {
    "Failed to join URL: " + href + " with base " + base.serialization + ": " + e.message
  }

  /** The `url` field: the sentinel unless the link has an `href`; the joined
      URL when joining succeeds, else a message naming the `href`, the base and
      the error. */
  function LinkUrl(l: TitleLink, base: ParsedUrl, ops: UrlOps): string {
    match l.href
    case None => UrlNotFound
    case Some(href) =>
      match ops.join(base, href)
      case Success(full) => full.serialization
      case Failure(e) => JoinFailure(href, base, e)
  }

  /** The `authors` field: the trimmed text when an author block exists (a
      blank block gives the empty string), the sentinel otherwise. */
  function AuthorsOf(a: Article): string {
    match a.authorsText
    case Some(t) => Trim(t)
    case None => AuthorsNotFound
  }

  /** The paragraphs joined with line feeds and trimmed, unless that leaves
      nothing: exactly when every paragraph is blank. */
  function AbstractBody(paragraphs: seq<string>): Option<string> {
    var joined := Trim(Join(paragraphs, "\n"));
    if joined == [] then None else Some(joined)
  }

  /** The abstract is missing exactly when every paragraph is blank;
      otherwise it is non-empty trimmed text. */
  lemma AbstractBodyNoneIff(paragraphs: seq<string>)
    ensures AbstractBody(paragraphs).None? <==> forall k :: 0 <= k < |paragraphs| ==> AllWhitespace(paragraphs[k])
    ensures AbstractBody(paragraphs).Some? ==> AbstractBody(paragraphs).value != [] && IsTrimmed(AbstractBody(paragraphs).value)
  {
    TrimEmptyIff(Join(paragraphs, "\n"));
    JoinAllWhitespace(paragraphs, "\n");
  }

  /** The `abstract_text` field, with its sentinel. */
  function AbstractOf(a: Article): string {
    match a.abstractParagraphs
    case None => AbstractNotFound
    case Some(ps) =>
      match AbstractBody(ps)
      case Some(t) => t
      case None => AbstractNotFound
  }

  /** The record for one article. */
  function PaperOf(a: Article, name: string, year: int, base: ParsedUrl, ops: UrlOps): Paper {
    match a.titleLink
    case None =>
      Paper(name, year, TitleNotFound, UrlNotFound, AuthorsOf(a), AbstractOf(a))
    case Some(l) =>
      Paper(name, year, Trim(l.text), LinkUrl(l, base, ops), AuthorsOf(a), AbstractOf(a))
  }

  /** Field by field, a record degrades to its sentinels where the article
      lacks the part, and carries the page's conference and year. */
  lemma PaperOfFields(a: Article, name: string, year: int, base: ParsedUrl, ops: UrlOps)
    ensures var p := PaperOf(a, name, year, base, ops);
      && p.conferenceName == name && p.year == year
      && (a.titleLink.None? ==> p.title == TitleNotFound && p.url == UrlNotFound)
      && (a.titleLink.Some? ==> p.title == Trim(a.titleLink.value.text) && IsTrimmed(p.title))
      && (a.titleLink.Some? && a.titleLink.value.href.None? ==> p.url == UrlNotFound)
      && (a.titleLink.Some? && a.titleLink.value.href.Some? ==>
            var href := a.titleLink.value.href.value;
            && (ops.join(base, href).Success? ==> p.url == ops.join(base, href).value.serialization)
            && (ops.join(base, href).Failure? ==> p.url == JoinFailure(href, base, ops.join(base, href).error)))
      && (a.authorsText.None? ==> p.authors == AuthorsNotFound)
      && (a.authorsText.Some? ==> p.authors == Trim(a.authorsText.value))
      && (a.abstractParagraphs.None? ==> p.abstractText == AbstractNotFound)
      && (a.abstractParagraphs.Some? ==>
            var ps := a.abstractParagraphs.value;
            && ((forall k :: 0 <= k < |ps| ==> AllWhitespace(ps[k])) ==> p.abstractText == AbstractNotFound)
            && ((exists k :: 0 <= k < |ps| && !AllWhitespace(ps[k])) ==> p.abstractText == Trim(Join(ps, "\n"))))
  {
    if a.abstractParagraphs.Some? {
      AbstractBodyNoneIff(a.abstractParagraphs.value);
    }
  }

  /** The records of a page: one per article, in document order. */
  function PapersOf(articles: seq<Article>, name: string, year: int, base: ParsedUrl, ops: UrlOps): (r: seq<Paper>)
    ensures |r| == |articles|
    decreases |articles|
  {
    if articles == [] then []
    else PapersOf(articles[..|articles| - 1], name, year, base, ops) + [PaperOf(articles[|articles| - 1], name, year, base, ops)]
  }

  /** The `k`-th record is the record of the `k`-th article. */
  lemma {:induction false} PapersOfAt(articles: seq<Article>, k: nat, name: string, year: int, base: ParsedUrl, ops: UrlOps)
    requires k < |articles|
    ensures PapersOf(articles, name, year, base, ops)[k] == PaperOf(articles[k], name, year, base, ops)
    decreases |articles|
  {
    var n := |articles| - 1;
    if k < n {
      PapersOfAt(articles[..n], k, name, year, base, ops);
      assert articles[..n][k] == articles[k];
    }
  }

  /** One more article adds its record at the end. */
  lemma PapersOfSnoc(articles: seq<Article>, i: nat, name: string, year: int, base: ParsedUrl, ops: UrlOps)
    requires i < |articles|
    ensures PapersOf(articles[..i + 1], name, year, base, ops)
      == PapersOf(articles[..i], name, year, base, ops) + [PaperOf(articles[i], name, year, base, ops)]
  {
    assert articles[..i + 1][..i] == articles[..i];
    assert articles[..i + 1][i] == articles[i];
  }

  /** `extract_papers`: walks the articles, starting each record from the
      sentinels and overwriting what it finds. */
  method ExtractPapers(doc: Document, name: string, year: int, base: ParsedUrl, ops: UrlOps)
    returns (papers: seq<Paper>)
    ensures papers == PapersOf(doc.articles, name, year, base, ops)
  {
    papers := [];
    for i := 0 to |doc.articles|
      invariant papers == PapersOf(doc.articles[..i], name, year, base, ops)
    {
      var article := doc.articles[i];
      var title := TitleNotFound;
      var paperUrl := UrlNotFound;
      if article.titleLink.Some? {
        var link := article.titleLink.value;
        title := Trim(link.text);
        if link.href.Some? {
          var joined := ops.join(base, link.href.value);
          if joined.Success? {
            paperUrl := joined.value.serialization;
          } else {
            paperUrl := JoinFailure(link.href.value, base, joined.error);
          }
        }
      }
      var paper := Paper(name, year, title, paperUrl, AuthorsOf(article), AbstractOf(article));
      assert paper == PaperOf(article, name, year, base, ops);
      PapersOfSnoc(doc.articles, i, name, year, base, ops);
      papers := papers + [paper];
    }
    assert doc.articles[..|doc.articles|] == doc.articles;
  }

  /** `parse_and_extract` as a value: the base URL is parsed first, then the
      page title is required, then every article yields a record. */
  function ParseOutcome(doc: Document, urlStr: string, ops: UrlOps, currentYear: int): Result<seq<Paper>, CrawlError> {
    match ops.parse(urlStr)
    case Failure(e) => Failure(FromUrlParseError(e))
    case Success(base) =>
      match ExtractPageTitle(doc)
      case Failure(e) => Failure(e)
      case Success(title) =>
        var info := ExtractConferenceInfo(title, currentYear);
        Success(PapersOf(doc.articles, info.name, info.year, base, ops))
  }

  /** An unparsable page URL is reported before anything else, then a missing
      page title; parsing succeeds exactly when neither happens. */
  lemma ParseOutcomeErrors(doc: Document, urlStr: string, ops: UrlOps, currentYear: int)
    ensures var r := ParseOutcome(doc, urlStr, ops, currentYear);
      && (ops.parse(urlStr).Failure? ==> r == Failure(CrawlError.Url(ops.parse(urlStr).error)))
      && (ops.parse(urlStr).Success? && doc.pageTitle.None? ==> r == Failure(Parse(PageTitleMissing)))
      && (r.Success? <==> ops.parse(urlStr).Success? && doc.pageTitle.Some?)
  {
  }

  /** On success there is one record per article, in order, all of them
      carrying the conference and year read from the page title. */
  lemma ParseOutcomeRecords(doc: Document, urlStr: string, ops: UrlOps, currentYear: int)
    requires ops.parse(urlStr).Success? && doc.pageTitle.Some?
    ensures var r := ParseOutcome(doc, urlStr, ops, currentYear);
      var info := ExtractConferenceInfo(Trim(doc.pageTitle.value), currentYear);
      && r.Success? && |r.value| == |doc.articles|
      && (forall k :: 0 <= k < |r.value| ==>
            r.value[k].conferenceName == info.name && r.value[k].year == info.year)
  {
    var base := ops.parse(urlStr).value;
    var info := ExtractConferenceInfo(Trim(doc.pageTitle.value), currentYear);
    var papers := PapersOf(doc.articles, info.name, info.year, base, ops);
    assert ParseOutcome(doc, urlStr, ops, currentYear) == Success(papers);
    forall k | 0 <= k < |papers| ensures papers[k].conferenceName == info.name && papers[k].year == info.year {
      PapersOfAt(doc.articles, k, info.name, info.year, base, ops);
      PaperOfFields(doc.articles[k], info.name, info.year, base, ops);
    }
  }

  /** `UsenixParser::parse_and_extract`. */
  method ParseAndExtract(doc: Document, urlStr: string, ops: UrlOps, currentYear: int)
    returns (r: Result<seq<Paper>, CrawlError>)
    ensures r == ParseOutcome(doc, urlStr, ops, currentYear)
  {
    var parsed := ops.parse(urlStr);
    if parsed.Failure? {
      return Failure(FromUrlParseError(parsed.error));
    }
    var title := ExtractPageTitle(doc);
    if title.Failure? {
      return Failure(title.error);
    }
    var info := ExtractConferenceInfo(title.value, currentYear);
    var papers := ExtractPapers(doc, info.name, info.year, parsed.value, ops);
    return Success(papers);
  }
}
