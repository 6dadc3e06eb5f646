/** What the crawl promises, proved about the model in `Crawler`: how many
    rows an insert run creates and where it stops, what a whole crawl stores
    and reports, that re-running a batch inserts nothing, that skipped URLs
    are inert, that nothing after a store error is processed, and that the
    final message is unambiguous. */
module CrawlerProps {
  import opened Wrappers
  import opened Text
  import opened Externals
  import opened CrawlErrors
  import opened CrawlRecord
  import opened Crawler

  /** The distinct records of a sequence. */
  function Elems(s: seq<Paper>): set<Paper>
    decreases |s|
  {
    if s == [] then {} else {s[0]} + Elems(s[1..])
  }

  lemma {:induction false} ElemsBound(s: seq<Paper>)
    ensures |Elems(s)| <= |s|
    decreases |s|
  {
    if s != [] {
      ElemsBound(s[1..]);
    }
  }

  lemma ElemsFrom(s: seq<Paper>, i: nat)
    requires i < |s|
    ensures Elems(s[i..]) == {s[i]} + Elems(s[i + 1..])
  {
    assert s[i..][1..] == s[i + 1..];
  }

  // ---------------------------------------------------------------------
  // `insert_papers`.
  // ---------------------------------------------------------------------

  /** Statements are issued one per record until the first failing one: the
      run succeeds exactly when none of its statements fails, and a failed run
      reports the error of its first failing statement. */
  lemma {:induction false} InsertFromStopsAtFirstFault(papers: seq<Paper>, i: nat, rows: set<Paper>, issued: nat, count: nat, faults: FaultOracle)
    requires i <= |papers|
    ensures var b := InsertFrom(papers, i, rows, issued, count, faults);
      && issued <= b.issued <= issued + (|papers| - i)
      && (b.outcome.Success? <==> forall k :: issued <= k < issued + (|papers| - i) ==> faults(k).None?)
      && (b.outcome.Success? ==> b.issued == issued + (|papers| - i))
      && (b.outcome.Failure? ==>
            && issued < b.issued
            && faults(b.issued - 1) == Some(b.outcome.error)
            && (forall k :: issued <= k < b.issued - 1 ==> faults(k).None?))
    decreases |papers| - i
  {
    if i < |papers| && faults(issued).None? {
      var p := papers[i];
      InsertFromStopsAtFirstFault(papers, i + 1, rows + {p}, issued + 1, if p in rows then count else count + 1, faults);
    }
  }

  /** Adding `e` to a table with rows `r`, then `l`, creates as many rows
      as adding both at once. */
  lemma NewRowsSplit(r: set<Paper>, e: set<Paper>, l: set<Paper>)
    ensures |(e + l) - r| == |e - r| + |l - (r + e)|
  {
    assert (e + l) - r == (e - r) + (l - (r + e));
    assert (e - r) * (l - (r + e)) == {};
  }

  /** No run removes a row, and a successful run has stored every record. */
  lemma {:induction false} InsertFromRows(papers: seq<Paper>, i: nat, rows: set<Paper>, issued: nat, count: nat, faults: FaultOracle)
    requires i <= |papers|
    ensures var b := InsertFrom(papers, i, rows, issued, count, faults);
      && rows <= b.rows
      && (b.outcome.Success? ==> b.rows == rows + Elems(papers[i..]))
    decreases |papers| - i
  {
    if i == |papers| {
      assert papers[i..] == [];
    } else if faults(issued).None? {
      var p := papers[i];
      InsertFromRows(papers, i + 1, rows + {p}, issued + 1, if p in rows then count else count + 1, faults);
      ElemsFrom(papers, i);
    }
  }

  /** A successful run creates exactly one row per distinct record that was
      not stored before. */
  lemma {:induction false} InsertFromCount(papers: seq<Paper>, i: nat, rows: set<Paper>, issued: nat, count: nat, faults: FaultOracle)
    requires i <= |papers|
    ensures var b := InsertFrom(papers, i, rows, issued, count, faults);
      b.outcome.Success? ==> b.outcome.value == count + |Elems(papers[i..]) - rows|
    decreases |papers| - i
  {
    if i == |papers| {
      assert papers[i..] == [];
    } else if faults(issued).None? {
      var p := papers[i];
      InsertFromCount(papers, i + 1, rows + {p}, issued + 1, if p in rows then count else count + 1, faults);
      ElemsFrom(papers, i);
      NewRowsSplit(rows, {p}, Elems(papers[i + 1..]));
      if p in rows {
        assert {p} - rows == {};
      } else {
        assert {p} - rows == {p};
      }
    }
  }

  /** `insert_papers` never reports more rows than records. */
  lemma InsertPapersCountBound(papers: seq<Paper>, rows: set<Paper>, issued: nat, faults: FaultOracle)
    ensures var b := InsertFrom(papers, 0, rows, issued, 0, faults);
      b.outcome.Success? ==> b.outcome.value <= |papers|
  {
    InsertFromCount(papers, 0, rows, issued, 0, faults);
    ElemsBound(papers);
    assert papers[0..] == papers;
  }

  /** Records that are all stored already create no row and change nothing. */
  lemma InsertKnownPapers(papers: seq<Paper>, rows: set<Paper>, issued: nat, faults: FaultOracle)
    requires Elems(papers) <= rows
    ensures var b := InsertFrom(papers, 0, rows, issued, 0, faults);
      b.outcome.Success? ==> b.outcome.value == 0 && b.rows == rows
  {
    InsertFromRows(papers, 0, rows, issued, 0, faults);
    InsertFromCount(papers, 0, rows, issued, 0, faults);
    assert papers[0..] == papers;
    assert Elems(papers) - rows == {};
  }

  // ---------------------------------------------------------------------
  // The whole crawl.
  // ---------------------------------------------------------------------

  /** The records one URL yields, counted with repetitions. */
  function FoundIn(harvest: Option<seq<Paper>>): nat {
    match harvest
    case None => 0
    case Some(papers) => |papers|
  }

  /** The distinct records one URL yields. */
  function RecordsIn(harvest: Option<seq<Paper>>): set<Paper> {
    match harvest
    case None => {}
    case Some(papers) => Elems(papers)
  }

  /** The records parsed from URL `i` on, counted with repetitions. */
  function FoundFrom(harvests: seq<Option<seq<Paper>>>, i: nat): nat
    requires i <= |harvests|
    decreases |harvests| - i
  {
    if i == |harvests| then 0 else FoundIn(harvests[i]) + FoundFrom(harvests, i + 1)
  }

  /** The distinct records parsed from URL `i` on. */
  function HarvestedFrom(harvests: seq<Option<seq<Paper>>>, i: nat): set<Paper>
    requires i <= |harvests|
    decreases |harvests| - i
  {
    if i == |harvests| then {} else RecordsIn(harvests[i]) + HarvestedFrom(harvests, i + 1)
  }

  lemma {:induction false} HarvestedBound(harvests: seq<Option<seq<Paper>>>, i: nat)
    requires i <= |harvests|
    ensures |HarvestedFrom(harvests, i)| <= FoundFrom(harvests, i)
    decreases |harvests| - i
  {
    if i < |harvests| {
      HarvestedBound(harvests, i + 1);
      if harvests[i].Some? {
        ElemsBound(harvests[i].value);
      }
    }
  }

  /** One URL that gets through the store adds its records to the rows and to
      the found total, and the distinct new ones to the inserted total. */
  lemma CrawlStepTotals(harvest: Option<seq<Paper>>, st: CrawlState, faults: FaultOracle)
    ensures var r := CrawlStep(harvest, st, faults);
      r.Success? ==>
        && r.value.found == st.found + FoundIn(harvest)
        && r.value.rows == st.rows + RecordsIn(harvest)
        && r.value.inserted == st.inserted + |RecordsIn(harvest) - st.rows|
  {
    match harvest
    case None =>
    case Some(papers) =>
      if papers == [] {
        assert Elems(papers) == {};
      } else {
        InsertFromRows(papers, 0, st.rows, st.issued, 0, faults);
        InsertFromCount(papers, 0, st.rows, st.issued, 0, faults);
        assert papers[0..] == papers;
      }
  }

  /** A crawl that gets through URL `i` on has added every record parsed from
      there to the rows, counted all of them as found, and counted as
      inserted exactly the distinct ones that were not stored before. */
  lemma {:induction false} CrawlFromTotals(harvests: seq<Option<seq<Paper>>>, i: nat, st: CrawlState, faults: FaultOracle)
    requires i <= |harvests|
    ensures var r := CrawlFrom(harvests, i, st, faults);
      r.Success? ==>
        && r.value.found == st.found + FoundFrom(harvests, i)
        && r.value.rows == st.rows + HarvestedFrom(harvests, i)
        && r.value.inserted == st.inserted + |HarvestedFrom(harvests, i) - st.rows|
    decreases |harvests| - i
  {
    if i < |harvests| && CrawlStep(harvests[i], st, faults).Success? {
      var next := CrawlStep(harvests[i], st, faults).value;
      CrawlStepTotals(harvests[i], st, faults);
      CrawlFromTotals(harvests, i + 1, next, faults);
      NewRowsSplit(st.rows, RecordsIn(harvests[i]), HarvestedFrom(harvests, i + 1));
    }
  }

  /** Without store faults every step of the crawl succeeds. */
  lemma {:induction false} CrawlFromWithoutFaults(harvests: seq<Option<seq<Paper>>>, i: nat, st: CrawlState, faults: FaultOracle)
    requires i <= |harvests|
    requires forall k :: faults(k).None?
    ensures CrawlFrom(harvests, i, st, faults).Success?
    decreases |harvests| - i
  {
    if i < |harvests| {
      if harvests[i].Some? && harvests[i].value != [] {
        InsertFromStopsAtFirstFault(harvests[i].value, 0, st.rows, st.issued, 0, faults);
      }
      CrawlFromWithoutFaults(harvests, i + 1, CrawlStep(harvests[i], st, faults).value, faults);
    }
  }

  /** How a crawl leaves the table: as it was after any failure; otherwise
      holding every parsed record, with the found total counting all parsed
      records and the inserted total the distinct new ones, never more than
      the found total. */
  lemma CrawlRunTable(harvests: seq<Option<seq<Paper>>>, initial: set<Paper>, faults: StoreFaults)
    ensures var run := CrawlRun(harvests, initial, faults);
      && (run.outcome.Failure? ==> run.rows == initial && run.outcome.error.Database?)
      && (run.outcome.Success? ==>
            && run.rows == initial + HarvestedFrom(harvests, 0)
            && run.outcome.value.0 == FoundFrom(harvests, 0)
            && run.outcome.value.1 == |HarvestedFrom(harvests, 0) - initial|
            && run.outcome.value.1 <= run.outcome.value.0)
  {
    CrawlFromTotals(harvests, 0, CrawlState(initial, 0, 0, 0), faults.insert);
    HarvestedBound(harvests, 0);
  }

  /** A store that never fails. */
  ghost predicate FaultFree(faults: StoreFaults) {
    faults.begin.None? && faults.commit.None? && forall k :: faults.insert(k).None?
  }

  /** Running the same batch again, with the same page outcomes, finds the
      same records and inserts none. */
  lemma RerunInsertsNothing(harvests: seq<Option<seq<Paper>>>, initial: set<Paper>, faults: StoreFaults)
    requires FaultFree(faults)
    ensures var first := CrawlRun(harvests, initial, faults);
      && first.outcome.Success?
      && CrawlRun(harvests, first.rows, faults) == CrawlResult(Success((first.outcome.value.0, 0)), first.rows)
  {
    CrawlFromWithoutFaults(harvests, 0, CrawlState(initial, 0, 0, 0), faults.insert);
    CrawlRunTable(harvests, initial, faults);
    var first := CrawlRun(harvests, initial, faults);
    CrawlFromWithoutFaults(harvests, 0, CrawlState(first.rows, 0, 0, 0), faults.insert);
    CrawlRunTable(harvests, first.rows, faults);
    assert HarvestedFrom(harvests, 0) - first.rows == {};
  }

  /** The crawl depends only on the URLs still to come. */
  lemma {:induction false} CrawlFromSuffix(a: seq<Option<seq<Paper>>>, i: nat, b: seq<Option<seq<Paper>>>, j: nat, st: CrawlState, faults: FaultOracle)
    requires i <= |a| && j <= |b| && a[i..] == b[j..]
    ensures CrawlFrom(a, i, st, faults) == CrawlFrom(b, j, st, faults)
    decreases |a| - i
  {
    if i < |a| {
      assert a[i] == a[i..][0] == b[j..][0] == b[j];
      assert a[i + 1..] == a[i..][1..] == b[j..][1..] == b[j + 1..];
      if CrawlStep(a[i], st, faults).Success? {
        CrawlFromSuffix(a, i + 1, b, j + 1, CrawlStep(a[i], st, faults).value, faults);
      }
    } else {
      assert |b[j..]| == 0;
    }
  }

  /** A URL that yields nothing (its parser, fetch or parse failed) can be
      dropped from the batch without changing the crawl. */
  lemma {:induction false} SkippedUrlIsInert(harvests: seq<Option<seq<Paper>>>, i: nat, j: nat, st: CrawlState, faults: FaultOracle)
    requires j <= i < |harvests| && harvests[i].None?
    ensures CrawlFrom(harvests, j, st, faults) == CrawlFrom(harvests[..i] + harvests[i + 1..], j, st, faults)
    decreases i - j
  {
    var dropped := harvests[..i] + harvests[i + 1..];
    if j < i {
      assert dropped[j] == harvests[j];
      if CrawlStep(harvests[j], st, faults).Success? {
        SkippedUrlIsInert(harvests, i, j + 1, CrawlStep(harvests[j], st, faults).value, faults);
      }
    } else {
      assert harvests[i + 1..] == dropped[i..];
      CrawlFromSuffix(harvests, i + 1, dropped, i, st, faults);
    }
  }

  /** Once a store error has ended the crawl, URLs after it make no
      difference: they are never processed. */
  lemma {:induction false} AbortIsFinal(harvests: seq<Option<seq<Paper>>>, more: seq<Option<seq<Paper>>>, i: nat, st: CrawlState, faults: FaultOracle)
    requires i <= |harvests| && CrawlFrom(harvests, i, st, faults).Failure?
    ensures CrawlFrom(harvests + more, i, st, faults) == CrawlFrom(harvests, i, st, faults)
    decreases |harvests| - i
  {
    var all := harvests + more;
    assert all[i] == harvests[i];
    if CrawlStep(harvests[i], st, faults).Success? {
      AbortIsFinal(harvests, more, i + 1, CrawlStep(harvests[i], st, faults).value, faults);
    }
  }

  /** A URL is skipped exactly when its parser cannot be chosen, its fetch
      fails, or its page cannot be parsed. */
  lemma HarvestNoneIff(urlStr: string, fetch: FetchOutcome, env: CrawlEnv)
    ensures Harvest(urlStr, fetch, env).None? <==>
      || GetParser(urlStr, env.ops).Failure?
      || FetchHtml(urlStr, fetch).Failure?
      || UsenixParser.ParseOutcome(env.parseHtml(fetch.body.value), urlStr, env.ops, env.currentYear).Failure?
  {
  }

  // ---------------------------------------------------------------------
  // The message `run_crawl` returns.
  // ---------------------------------------------------------------------

  /** A head, a number, a separator that starts with a non-digit, and a
      rest: the digits end where the separator begins. */
  lemma DigitsSplit(h: string, a1: string, b1: string, a2: string, b2: string, m: string)
    requires AllDigits(a1) && AllDigits(a2) && m != [] && !IsDigit(m[0])
    requires h + a1 + m + b1 == h + a2 + m + b2
    ensures a1 == a2 && b1 == b2
  {
    var s1, s2 := a1 + m + b1, a2 + m + b2;
    assert s1 == (h + a1 + m + b1)[|h|..] == (h + a2 + m + b2)[|h|..] == s2;
    assert s1[|a1|] == m[0] && s2[|a2|] == m[0];
    assert |a1| == |a2|;
    assert a1 == s1[..|a1|] == a2;
    assert b1 == s1[|a1| + |m|..] == b2;
  }

  /** The summary names both totals unambiguously. */
  lemma SummaryInjective(found1: nat, inserted1: nat, found2: nat, inserted2: nat)
    requires Summary(found1, inserted1) == Summary(found2, inserted2)
    ensures found1 == found2 && inserted1 == inserted2
  {
    DigitsSplit(SummaryHead, NatToString(found1), NatToString(inserted1), NatToString(found2), NatToString(inserted2), SummaryMiddle);
    NatToStringInjective(found1, found2);
    NatToStringInjective(inserted1, inserted2);
  }

  /** `run_crawl`'s failure text reads back as the error it renders, and its
      success text is not the rendering of any error. */
  lemma ReportReadsBack(outcome: Result<(nat, nat), CrawlError>)
    ensures Report(outcome).Failure? ==> ParseDisplay(Report(outcome).error) == Some(outcome.error)
    ensures Report(outcome).Success? ==> ParseDisplay(Report(outcome).value) == None
  {
    match outcome
    case Failure(e) => DisplayRoundTrip(e);
    case Success((found, inserted)) =>
      var s := Summary(found, inserted);
      assert s[0] == SummaryHead[0] == 'C';
  }
}
