/** The paper endpoints: the conference list, a user's liked papers, picking
    the next paper to rate, and recording a rating. The two tables are held
    in memory: `papers` as its rows in table order (`id` is the primary key)
    and `user_paper_status` as a map keyed by (user id, paper id), the key
    its upsert conflicts on. The SQL engine's evaluation of each query is
    written out as the functions below; a database failure is a parameter. */
module PaperRoutes {
  import opened Wrappers
  import opened Text
  import opened Externals

  /** A row of `papers`. */
  datatype StoredPaper = StoredPaper(
    id: int,
    conferenceName: string,
    year: int,
    title: string,
    url: Option<string>,
    authors: Option<string>,
    abstractText: Option<string>)

  /** One entry of the conference list. */
  datatype Conference = Conference(name: string, year: int)

  /** The rating a user gives a paper. */
  datatype PaperStatus = Liked | Read

  /** A row of `user_paper_status`. Timestamps are RFC 3339 text. */
  datatype StatusRow = StatusRow(likedAt: Option<string>, createdAt: string)

  type StatusTable = map<(int, int), StatusRow>

  /** The optional filters of the next-paper request. */
  datatype NextPaperParams = NextPaperParams(conference: Option<string>, year: Option<int>)

  /** A refused request: the HTTP status and the body. */
  datatype ErrorReply = ErrorReply(status: nat, message: string)

  const Created: nat := 201
  const NotFound: nat := 404
  const InternalServerError: nat := 500

  const AllRatedMessage := "All papers matching these filters have been rated."
  const NoMatchMessage := "No papers found matching the specified filters."

  function DatabaseError(e: DbError): ErrorReply {
    ErrorReply(InternalServerError, "Database error: " + e.message)
  }

  function DatabaseCheckError(e: DbError): ErrorReply {
    ErrorReply(InternalServerError, "Database check error: " + e.message)
  }

  // ---------------------------------------------------------------------
  // The conference list: distinct (name, year), newest year first, then
  // by name.
  // ---------------------------------------------------------------------

  function ConferenceOf(p: StoredPaper): Conference {
    Conference(p.conferenceName, p.year)
  }

  /** `ORDER BY year DESC, name ASC`: `a` is listed strictly before `b`.
      Names compare by code point, which is the byte order SQLite's default
      collation uses on UTF-8 text. */
  predicate ListedBefore(a: Conference, b: Conference) {
    a.year > b.year || (a.year == b.year && LexLess(a.name, b.name))
  }

  lemma ListedBeforeIrreflexive(a: Conference)
    ensures !ListedBefore(a, a)
  {
    LexLessIrreflexive(a.name);
  }

  lemma ListedBeforeTransitive(a: Conference, b: Conference, c: Conference)
    requires ListedBefore(a, b) && ListedBefore(b, c)
    ensures ListedBefore(a, c)
  {
    if a.year == b.year == c.year {
      LexLessTransitive(a.name, b.name, c.name);
    }
  }

  lemma ListedBeforeTotal(a: Conference, b: Conference)
    requires a != b
    ensures ListedBefore(a, b) || ListedBefore(b, a)
  {
    if a.year == b.year {
      LexLessTotal(a.name, b.name);
    }
  }

  /** Each entry is listed before every later one. */
  predicate StrictlyListed(s: seq<Conference>)
    decreases |s|
  {
    |s| <= 1 || ((forall c :: c in s[1..] ==> ListedBefore(s[0], c)) && StrictlyListed(s[1..]))
  }

  /** Places `c` in a strictly listed sequence, unless it is already there. */
  function InsertConference(c: Conference, s: seq<Conference>): seq<Conference>
    decreases |s|
  {
    if s == [] then [c]
    else if c == s[0] then s
    else if ListedBefore(c, s[0]) then [c] + s
    else [s[0]] + InsertConference(c, s[1..])
  }

  lemma {:induction false} InsertConferenceSpec(c: Conference, s: seq<Conference>)
    requires StrictlyListed(s)
    ensures StrictlyListed(InsertConference(c, s))
    ensures forall d :: d in InsertConference(c, s) <==> d == c || d in s
    decreases |s|
  {
    if s != [] && c != s[0] {
      if ListedBefore(c, s[0]) {
        forall d | d in s
          ensures ListedBefore(c, d)
        {
          if d != s[0] {
            assert d in s[1..] by { assert s == [s[0]] + s[1..]; }
            ListedBeforeTransitive(c, s[0], d);
          }
        }
        assert ([c] + s)[1..] == s;
      } else {
        ListedBeforeTotal(c, s[0]);
        InsertConferenceSpec(c, s[1..]);
        var t := InsertConference(c, s[1..]);
        assert ([s[0]] + t)[1..] == t;
        assert s == [s[0]] + s[1..];
      }
    }
  }

  /** `SELECT DISTINCT conference_name AS name, year FROM papers ORDER BY
      year DESC, name ASC`. */
  function Conferences(papers: seq<StoredPaper>): seq<Conference>
    decreases |papers|
  {
    if papers == [] then []
    else InsertConference(ConferenceOf(papers[0]), Conferences(papers[1..]))
  }

  /** The list holds exactly the (name, year) pairs of the stored papers and
      is strictly ordered. */
  lemma {:induction false} ConferencesSpec(papers: seq<StoredPaper>)
    ensures StrictlyListed(Conferences(papers))
    ensures forall c :: c in Conferences(papers) <==> exists p :: p in papers && ConferenceOf(p) == c
    decreases |papers|
  {
    if papers != [] {
      ConferencesSpec(papers[1..]);
      InsertConferenceSpec(ConferenceOf(papers[0]), Conferences(papers[1..]));
      assert papers == [papers[0]] + papers[1..];
    }
  }

  /** A strictly listed sequence is ordered pairwise, so it has no repeats. */
  lemma {:induction false} StrictlyListedPairwise(s: seq<Conference>)
    requires StrictlyListed(s)
    ensures forall i, j :: 0 <= i < j < |s| ==> ListedBefore(s[i], s[j]) && s[i] != s[j]
    decreases |s|
  {
    if |s| > 1 {
      StrictlyListedPairwise(s[1..]);
      forall i, j | 0 <= i < j < |s|
        ensures ListedBefore(s[i], s[j]) && s[i] != s[j]
      {
        if i == 0 {
          assert s[j] == s[1..][j - 1];
        } else {
          assert s[i] == s[1..][i - 1] && s[j] == s[1..][j - 1];
        }
        ListedBeforeIrreflexive(s[i]);
      }
    }
  }

  /** `get_conferences`: the list, or a 500 when the query fails. */
  function GetConferences(papers: seq<StoredPaper>, fault: Option<DbError>): (r: Result<seq<Conference>, ErrorReply>)
    ensures fault.Some? <==> r.Failure?
    ensures r.Failure? ==> r.error == DatabaseError(fault.value)
    ensures r.Success? ==>
      && (forall c :: c in r.value <==> exists p :: p in papers && ConferenceOf(p) == c)
      && (forall i, j :: 0 <= i < j < |r.value| ==> ListedBefore(r.value[i], r.value[j]) && r.value[i] != r.value[j])
  {
    ConferencesSpec(papers);
    StrictlyListedPairwise(Conferences(papers));
    if fault.Some? then Failure(DatabaseError(fault.value)) else Success(Conferences(papers))
  }

  // ---------------------------------------------------------------------
  // The liked list: the user's liked papers, most recently liked first.
  // ---------------------------------------------------------------------

  predicate IsLikedBy(statuses: StatusTable, userId: int, p: StoredPaper) {
    (userId, p.id) in statuses && statuses[(userId, p.id)].likedAt.Some?
  }

  /** The sort key: when `userId` liked `p` (empty when it did not). */
  function LikedKey(statuses: StatusTable, userId: int, p: StoredPaper): string {
    if IsLikedBy(statuses, userId, p) then statuses[(userId, p.id)].likedAt.value else ""
  }

  /** The join `papers ⋈ user_paper_status` filtered on the user and a set
      `liked_at`, in table order. */
  function LikedRows(papers: seq<StoredPaper>, statuses: StatusTable, userId: int): seq<StoredPaper>
    decreases |papers|
  {
    if papers == [] then []
    else (if IsLikedBy(statuses, userId, papers[0]) then [papers[0]] else []) + LikedRows(papers[1..], statuses, userId)
  }

  lemma {:induction false} LikedRowsMembers(papers: seq<StoredPaper>, statuses: StatusTable, userId: int)
    ensures forall q :: q in LikedRows(papers, statuses, userId) <==> q in papers && IsLikedBy(statuses, userId, q)
    decreases |papers|
  {
    if papers != [] {
      LikedRowsMembers(papers[1..], statuses, userId);
      assert papers == [papers[0]] + papers[1..];
    }
  }

  /** `ORDER BY liked_at DESC`: each entry was liked no earlier than every
      later one. */
  predicate NewestFirst(s: seq<StoredPaper>, statuses: StatusTable, userId: int)
    decreases |s|
  {
    |s| <= 1 ||
    ((forall q :: q in s[1..] ==> !LexLess(LikedKey(statuses, userId, s[0]), LikedKey(statuses, userId, q)))
     && NewestFirst(s[1..], statuses, userId))
  }

  function InsertNewestFirst(p: StoredPaper, s: seq<StoredPaper>, statuses: StatusTable, userId: int): seq<StoredPaper>
    decreases |s|
  {
    if s == [] then [p]
    else if !LexLess(LikedKey(statuses, userId, p), LikedKey(statuses, userId, s[0])) then [p] + s
    else [s[0]] + InsertNewestFirst(p, s[1..], statuses, userId)
  }

  lemma {:induction false} InsertNewestFirstSpec(p: StoredPaper, s: seq<StoredPaper>, statuses: StatusTable, userId: int)
    requires NewestFirst(s, statuses, userId)
    ensures multiset(InsertNewestFirst(p, s, statuses, userId)) == multiset(s) + multiset{p}
    ensures NewestFirst(InsertNewestFirst(p, s, statuses, userId), statuses, userId)
    decreases |s|
  {
    if s != [] {
      var kp := LikedKey(statuses, userId, p);
      var k0 := LikedKey(statuses, userId, s[0]);
      assert s == [s[0]] + s[1..];
      if !LexLess(kp, k0) {
        forall q | q in s
          ensures !LexLess(kp, LikedKey(statuses, userId, q))
        {
          if q != s[0] {
            assert q in s[1..];
            LexNotLessTransitive(kp, k0, LikedKey(statuses, userId, q));
          }
        }
        assert ([p] + s)[1..] == s;
      } else {
        LexLessAsymmetric(kp, k0);
        InsertNewestFirstSpec(p, s[1..], statuses, userId);
        var t := InsertNewestFirst(p, s[1..], statuses, userId);
        forall q | q in t
          ensures !LexLess(k0, LikedKey(statuses, userId, q))
        {
          assert q in multiset(t);
        }
        assert ([s[0]] + t)[1..] == t;
      }
    }
  }

  function SortNewestFirst(s: seq<StoredPaper>, statuses: StatusTable, userId: int): seq<StoredPaper>
    decreases |s|
  {
    if s == [] then []
    else InsertNewestFirst(s[0], SortNewestFirst(s[1..], statuses, userId), statuses, userId)
  }

  /** Sorting rearranges and orders. */
  lemma {:induction false} SortNewestFirstSpec(s: seq<StoredPaper>, statuses: StatusTable, userId: int)
    ensures multiset(SortNewestFirst(s, statuses, userId)) == multiset(s)
    ensures NewestFirst(SortNewestFirst(s, statuses, userId), statuses, userId)
    decreases |s|
  {
    if s != [] {
      SortNewestFirstSpec(s[1..], statuses, userId);
      InsertNewestFirstSpec(s[0], SortNewestFirst(s[1..], statuses, userId), statuses, userId);
      assert s == [s[0]] + s[1..];
    }
  }

  /** `SELECT p.* ... WHERE ups.user_id = ? AND ups.liked_at IS NOT NULL
      ORDER BY ups.liked_at DESC`. Rows liked at the same instant come in an
      order SQL leaves open; this picks one. */
  function LikedPapers(papers: seq<StoredPaper>, statuses: StatusTable, userId: int): seq<StoredPaper> {
    SortNewestFirst(LikedRows(papers, statuses, userId), statuses, userId)
  }

  /** The liked list is the user's liked rows, each as often as in the
      table, most recently liked first. */
  lemma LikedPapersSpec(papers: seq<StoredPaper>, statuses: StatusTable, userId: int)
    ensures multiset(LikedPapers(papers, statuses, userId)) == multiset(LikedRows(papers, statuses, userId))
    ensures forall q :: q in LikedPapers(papers, statuses, userId) <==> q in papers && IsLikedBy(statuses, userId, q)
    ensures NewestFirst(LikedPapers(papers, statuses, userId), statuses, userId)
  {
    SortNewestFirstSpec(LikedRows(papers, statuses, userId), statuses, userId);
    LikedRowsMembers(papers, statuses, userId);
    forall q
      ensures q in LikedPapers(papers, statuses, userId) <==> q in LikedRows(papers, statuses, userId)
    {
      assert q in LikedPapers(papers, statuses, userId) <==> q in multiset(LikedPapers(papers, statuses, userId));
    }
  }

  /** `get_liked_papers`: the list, or a 500 when the query fails. */
  function GetLikedPapers(papers: seq<StoredPaper>, statuses: StatusTable, userId: int, fault: Option<DbError>): (r: Result<seq<StoredPaper>, ErrorReply>)
    ensures fault.Some? <==> r.Failure?
    ensures r.Failure? ==> r.error == DatabaseError(fault.value)
    ensures r.Success? ==>
      && multiset(r.value) == multiset(LikedRows(papers, statuses, userId))
      && (forall q :: q in r.value <==> q in papers && IsLikedBy(statuses, userId, q))
      && NewestFirst(r.value, statuses, userId)
  {
    LikedPapersSpec(papers, statuses, userId);
    if fault.Some? then Failure(DatabaseError(fault.value)) else Success(LikedPapers(papers, statuses, userId))
  }

  // ---------------------------------------------------------------------
  // The next paper to rate.
  // ---------------------------------------------------------------------

  /** A condition the next-paper query's WHERE clause is built from. */
  datatype Condition = NoStatusRow(userId: int) | ConferenceIs(name: string) | YearIs(year: int)

  predicate Holds(c: Condition, statuses: StatusTable, p: StoredPaper) {
    match c
    case NoStatusRow(u) => (u, p.id) !in statuses
    case ConferenceIs(n) => p.conferenceName == n
    case YearIs(y) => p.year == y
  }

  predicate HoldsAll(conds: seq<Condition>, statuses: StatusTable, p: StoredPaper) {
    forall c :: c in conds ==> Holds(c, statuses, p)
  }

  /** Pushing a condition narrows the WHERE clause by exactly that condition. */
  lemma PushCondition(conds: seq<Condition>, c: Condition, statuses: StatusTable)
    ensures forall p :: HoldsAll(conds + [c], statuses, p) <==> HoldsAll(conds, statuses, p) && Holds(c, statuses, p)
  {
    assert forall d :: d in conds + [c] <==> d in conds || d == c;
  }

  /** The rows satisfying every condition, in table order. */
  function Where(papers: seq<StoredPaper>, statuses: StatusTable, conds: seq<Condition>): seq<StoredPaper>
    decreases |papers|
  {
    if papers == [] then []
    else (if HoldsAll(conds, statuses, papers[0]) then [papers[0]] else []) + Where(papers[1..], statuses, conds)
  }

  lemma {:induction false} WhereMembers(papers: seq<StoredPaper>, statuses: StatusTable, conds: seq<Condition>)
    ensures forall q :: q in Where(papers, statuses, conds) <==> q in papers && HoldsAll(conds, statuses, q)
    decreases |papers|
  {
    if papers != [] {
      WhereMembers(papers[1..], statuses, conds);
      assert papers == [papers[0]] + papers[1..];
    }
  }

  /** What the filters promise: a non-empty conference name must match, and
      a given year must match. An empty conference name filters nothing. */
  predicate MatchesFilters(params: NextPaperParams, p: StoredPaper) {
    && (params.conference.None? || params.conference.value == [] || p.conferenceName == params.conference.value)
    && (params.year.None? || p.year == params.year.value)
  }

  /** A paper the user has not rated yet, i.e. without a status row. */
  predicate Unrated(statuses: StatusTable, userId: int, p: StoredPaper) {
    (userId, p.id) !in statuses
  }

  class PaperDb {
    var papers: seq<StoredPaper>
    var statuses: StatusTable

    constructor (papers0: seq<StoredPaper>, statuses0: StatusTable)
      ensures papers == papers0 && statuses == statuses0
    {
      papers := papers0;
      statuses := statuses0;
    }

    /** `get_next_paper`. The WHERE clause is built condition by condition;
        `pick` stands for `ORDER BY RANDOM()` and chooses among the
        candidates. When there is none, a second query tells "all rated"
        from "nothing matches". */
    method NextPaper(userId: int, params: NextPaperParams, pick: nat, queryFault: Option<DbError>, checkFault: Option<DbError>)
      returns (r: Result<StoredPaper, ErrorReply>)
      ensures r.Success? <==> queryFault.None? && exists p :: p in papers && Unrated(statuses, userId, p) && MatchesFilters(params, p)
      ensures r.Success? ==> r.value in papers && Unrated(statuses, userId, r.value) && MatchesFilters(params, r.value)
      ensures queryFault.Some? ==> r == Failure(DatabaseError(queryFault.value))
      ensures r.Failure? && queryFault.None? && checkFault.Some? ==> r == Failure(DatabaseCheckError(checkFault.value))
      ensures r.Failure? && queryFault.None? && checkFault.None? ==>
        r == Failure(ErrorReply(NotFound,
          if exists p :: p in papers && MatchesFilters(params, p) then AllRatedMessage else NoMatchMessage))
    {
      var conds := [NoStatusRow(userId)];
      forall p
        ensures HoldsAll(conds, statuses, p) <==> Unrated(statuses, userId, p)
      {
        assert conds[0] in conds;
      }
      if params.conference.Some? && params.conference.value != [] {
        PushCondition(conds, ConferenceIs(params.conference.value), statuses);
        conds := conds + [ConferenceIs(params.conference.value)];
      }
      if params.year.Some? {
        PushCondition(conds, YearIs(params.year.value), statuses);
        conds := conds + [YearIs(params.year.value)];
      }
      assert forall p :: HoldsAll(conds, statuses, p) <==> Unrated(statuses, userId, p) && MatchesFilters(params, p);

      if queryFault.Some? {
        return Failure(DatabaseError(queryFault.value));
      }
      var candidates := Where(papers, statuses, conds);
      WhereMembers(papers, statuses, conds);
      if candidates != [] {
        var chosen := candidates[pick % |candidates|];
        assert chosen in candidates;
        return Success(chosen);
      }

      var checks: seq<Condition> := [];
      if params.conference.Some? && params.conference.value != [] {
        PushCondition(checks, ConferenceIs(params.conference.value), statuses);
        checks := checks + [ConferenceIs(params.conference.value)];
      }
      if params.year.Some? {
        PushCondition(checks, YearIs(params.year.value), statuses);
        checks := checks + [YearIs(params.year.value)];
      }
      assert forall p :: HoldsAll(checks, statuses, p) <==> MatchesFilters(params, p);

      if checkFault.Some? {
        return Failure(DatabaseCheckError(checkFault.value));
      }
      WhereMembers(papers, statuses, checks);
      var matching := Where(papers, statuses, checks);
      if matching != [] {
        assert matching[0] in matching;
        r := Failure(ErrorReply(NotFound, AllRatedMessage));
      } else {
        r := Failure(ErrorReply(NotFound, NoMatchMessage));
      }
    }

    /** `set_paper_status`: a like creates the row or stamps `liked_at` on
        it; a read creates the row only if there is none. Either answers 201. */
    method SetPaperStatus(userId: int, paperId: int, status: PaperStatus, now: string, fault: Option<DbError>)
      returns (r: Result<nat, ErrorReply>)
      modifies this
      ensures papers == old(papers)
      ensures fault.Some? ==> r == Failure(DatabaseError(fault.value)) && statuses == old(statuses)
      ensures fault.None? ==> r == Success(Created) && statuses == StatusAfter(old(statuses), (userId, paperId), status, now)
    {
      if fault.Some? {
        return Failure(DatabaseError(fault.value));
      }
      var key := (userId, paperId);
      match status {
        case Liked =>
          var createdAt := if key in statuses then statuses[key].createdAt else now;
          statuses := statuses[key := StatusRow(Some(now), createdAt)];
        case Read =>
          if key !in statuses {
            statuses := statuses[key := StatusRow(None, now)];
          }
      }
      r := Success(Created);
    }
  }

  /** The status table after a successful rating of `key`. A new row's
      `created_at` is the request time. */
  function StatusAfter(statuses: StatusTable, key: (int, int), status: PaperStatus, now: string): StatusTable {
    match status
    case Liked => statuses[key := StatusRow(Some(now), if key in statuses then statuses[key].createdAt else now)]
    case Read => if key in statuses then statuses else statuses[key := StatusRow(None, now)]
  }

  /** A rating touches only its own row; afterwards the row exists. A like
      stamps `liked_at` and keeps an existing `created_at`; a read leaves an
      existing row, liked or not, as it was. */
  lemma StatusAfterSpec(statuses: StatusTable, key: (int, int), status: PaperStatus, now: string)
    ensures var after := StatusAfter(statuses, key, status, now);
      && after.Keys == statuses.Keys + {key}
      && (forall k :: k in statuses && k != key ==> after[k] == statuses[k])
      && (status == Liked ==> after[key].likedAt == Some(now))
      && (status == Liked && key in statuses ==> after[key].createdAt == statuses[key].createdAt)
      && (status == Read && key in statuses ==> after[key] == statuses[key])
      && (status == Read && key !in statuses ==> after[key].likedAt.None?)
  {
  }

  /** Once rated, a paper is never offered to that user again, whatever the
      filters; other users are unaffected. */
  lemma RatedPaperNotOffered(statuses: StatusTable, userId: int, p: StoredPaper, status: PaperStatus, now: string, other: int)
    ensures !Unrated(StatusAfter(statuses, (userId, p.id), status, now), userId, p)
    ensures other != userId ==>
      (Unrated(StatusAfter(statuses, (userId, p.id), status, now), other, p) <==> Unrated(statuses, other, p))
  {
  }

  /** A like puts the paper in the user's liked list. */
  lemma LikeAddsToLikedList(papers: seq<StoredPaper>, statuses: StatusTable, userId: int, p: StoredPaper, now: string)
    requires p in papers
    ensures p in LikedPapers(papers, StatusAfter(statuses, (userId, p.id), Liked, now), userId)
  {
    var after := StatusAfter(statuses, (userId, p.id), Liked, now);
    assert IsLikedBy(after, userId, p);
    LikedPapersSpec(papers, after, userId);
  }

  /** Two status tables that agree on who liked what select the same rows. */
  lemma {:induction false} LikedRowsAgree(papers: seq<StoredPaper>, s1: StatusTable, s2: StatusTable, userId: int)
    requires forall q :: IsLikedBy(s1, userId, q) <==> IsLikedBy(s2, userId, q)
    ensures LikedRows(papers, s1, userId) == LikedRows(papers, s2, userId)
    decreases |papers|
  {
    if papers != [] {
      LikedRowsAgree(papers[1..], s1, s2, userId);
    }
  }

  /** Two status tables that agree on every like time insert alike. */
  lemma {:induction false} InsertNewestFirstAgree(p: StoredPaper, s: seq<StoredPaper>, s1: StatusTable, s2: StatusTable, userId: int)
    requires forall q :: LikedKey(s1, userId, q) == LikedKey(s2, userId, q)
    ensures InsertNewestFirst(p, s, s1, userId) == InsertNewestFirst(p, s, s2, userId)
    decreases |s|
  {
    if s != [] {
      InsertNewestFirstAgree(p, s[1..], s1, s2, userId);
    }
  }

  /** Two status tables that agree on every like time sort alike. */
  lemma {:induction false} SortNewestFirstAgree(s: seq<StoredPaper>, s1: StatusTable, s2: StatusTable, userId: int)
    requires forall q :: LikedKey(s1, userId, q) == LikedKey(s2, userId, q)
    ensures SortNewestFirst(s, s1, userId) == SortNewestFirst(s, s2, userId)
    decreases |s|
  {
    if s != [] {
      SortNewestFirstAgree(s[1..], s1, s2, userId);
      InsertNewestFirstAgree(s[0], SortNewestFirst(s[1..], s1, userId), s1, s2, userId);
    }
  }

  /** A read never changes anybody's liked list: the same papers, as often,
      in the same order. */
  lemma ReadKeepsLikedLists(papers: seq<StoredPaper>, statuses: StatusTable, key: (int, int), now: string, u: int)
    ensures LikedPapers(papers, StatusAfter(statuses, key, Read, now), u) == LikedPapers(papers, statuses, u)
  {
    var after := StatusAfter(statuses, key, Read, now);
    assert forall q :: IsLikedBy(after, u, q) <==> IsLikedBy(statuses, u, q);
    assert forall q :: LikedKey(after, u, q) == LikedKey(statuses, u, q);
    LikedRowsAgree(papers, after, statuses, u);
    SortNewestFirstAgree(LikedRows(papers, statuses, u), after, statuses, u);
  }
}
