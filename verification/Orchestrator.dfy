/**
  * The decision logic of `identify`: a known moly.hu identifier skips the
  * search; otherwise one search query is sent and its rows filtered; nothing
  * found with identifiers present triggers one retry without them; and every
  * match becomes a detail job whose relevance is its position in the list.
  *
  * The HTTP request is the parameter `search`, a fixed answer per query, and
  * the abort flag is the value `is_set()` returns after the search.
  */
module Orchestrator {
  import opened Wrappers
  import opened PyText
  import opened MolyHu
  import opened MatchFilter

  /** What opening and reading the query URL yields. */
  datatype Response =
    | Rows(rows: seq<Row>)   // a page, reduced to its book links
    | EmptyBody              // the body is empty once stripped
    | Unparsable             // the body cannot be parsed as HTML
    | NotFound               // the request failed with HTTP 404
    | Unreachable            // the request failed otherwise

  /** One detail worker: the book page it fetches and its relevance. */
  datatype Job = Job(url: string, relevance: nat)

  /** How `identify` ends: workers started, `None` returned, an error message
      returned (for a failed query or an unparsable page), or an exception. */
  datatype Identified =
    | Spawned(jobs: seq<Job>)
    | Nothing
    | FailedQuery
    | FailedParse
    | Threw(error: PyError)

  /** The outcome, and the search queries sent to the site, in order. */
  datatype Run = Run(outcome: Identified, queries: seq<string>)

  /** The `moly_hu` identifier, when given. */
  function MolyIdOf(identifiers: map<string, string>): Option<string> {
    if "moly_hu" in identifiers then Some(identifiers["moly_hu"]) else None
  }

  /** One job per match, its relevance the match's index. */
  function JobsFor(matches: seq<string>): (jobs: seq<Job>)
    ensures |jobs| == |matches|
    ensures forall i :: 0 <= i < |jobs| ==> jobs[i] == Job(matches[i], i)
  {
    seq(|matches|, i requires 0 <= i < |matches| => Job(matches[i], i))
  }

  /** `identify` for the given title, authors and identifiers. */
  function Identify(title: Option<string>, authors: Option<seq<string>>, identifiers: map<string, string>,
                    search: string -> Response, aborted: bool, maxBooks: int): (run: Run)
    ensures |run.queries| <= 2
    ensures run.outcome.Spawned? ==> !aborted && run.outcome.jobs != []
    decreases |identifiers|
  {
    var molyId := MolyIdOf(identifiers);
    if Truthy(molyId) then
      if aborted then Run(Nothing, []) else Run(Spawned(JobsFor([BookUrl + molyId.value])), [])
    else match CreateQuery(title, authors)
      case Raised(e) => Run(Threw(e), [])
      case Ok(query) =>
        match search(query)
        case Unreachable => Run(FailedQuery, [query])
        case NotFound => Run(Threw(NameError), [query])   // the 404 branch logs an undefined name
        case EmptyBody => Run(Nothing, [query])
        case Unparsable => Run(FailedParse, [query])
        case Rows(rows) =>
          var scan := ScanRows(rows, Wanted(title, authors), [], 0, maxBooks);
          if scan.end.Failed? then Run(Threw(scan.end.error), [query])
          else if aborted then Run(Nothing, [query])
          else if scan.matches != [] then Run(Spawned(JobsFor(scan.matches)), [query])
          else if |identifiers| > 0 && Truthy(title) && authors.Some? && authors.value != [] then
            var retry := Identify(title, authors, map[], search, aborted, maxBooks);
            assert retry.queries == [query];
            Run(retry.outcome, [query] + retry.queries)
          else Run(Nothing, [query])
  }

  /** A truthy `moly_hu` identifier is used directly: no query is sent, and
      unless aborted exactly one job, for its book page, is started. */
  lemma DirectIdSkipsSearch(title: Option<string>, authors: Option<seq<string>>, identifiers: map<string, string>,
                            search: string -> Response, aborted: bool, maxBooks: int)
    requires "moly_hu" in identifiers && identifiers["moly_hu"] != ""
    ensures var run := Identify(title, authors, identifiers, search, aborted, maxBooks);
      run.queries == [] &&
      run.outcome == (if aborted then Nothing else Spawned([Job(BookUrl + identifiers["moly_hu"], 0)]))
  {
  }

  /** Without a direct identifier, exactly the query built from the title and
      the first author is sent, and sent again when the retry happens. */
  lemma QueriesSent(title: Option<string>, authors: Option<seq<string>>, identifiers: map<string, string>,
                    search: string -> Response, aborted: bool, maxBooks: int)
    requires !Truthy(MolyIdOf(identifiers))
    ensures var run := Identify(title, authors, identifiers, search, aborted, maxBooks);
      (CreateQuery(title, authors).Raised? ==> run.queries == [] && run.outcome == Threw(IndexError)) &&
      (CreateQuery(title, authors).Ok? ==>
        1 <= |run.queries| && forall k :: 0 <= k < |run.queries| ==> run.queries[k] == CreateQuery(title, authors).value)
  {
    var run := Identify(title, authors, identifiers, search, aborted, maxBooks);
    match CreateQuery(title, authors) {
      case Raised(_) =>
      case Ok(query) =>
        if search(query).Rows? {
          var scan := ScanRows(search(query).rows, Wanted(title, authors), [], 0, maxBooks);
          if !scan.end.Failed? && !aborted && scan.matches == [] && |identifiers| > 0 && Truthy(title)
             && authors.Some? && authors.value != [] {
            assert run.queries == [query, query];
          } else {
            assert run.queries == [query];
          }
        } else {
          assert run.queries == [query];
        }
    }
  }

  /** The retry happens exactly when the first search ran to the end, found
      nothing, was not aborted, and identifiers, title and authors are all given. */
  lemma RetryCondition(title: Option<string>, authors: Option<seq<string>>, identifiers: map<string, string>,
                       search: string -> Response, aborted: bool, maxBooks: int)
    requires !Truthy(MolyIdOf(identifiers))
    ensures var run := Identify(title, authors, identifiers, search, aborted, maxBooks);
      |run.queries| == 2 <==>
        CreateQuery(title, authors).Ok? && search(CreateQuery(title, authors).value).Rows? &&
        (var scan := ScanRows(search(CreateQuery(title, authors).value).rows, Wanted(title, authors), [], 0, maxBooks);
         !scan.end.Failed? && scan.matches == []) &&
        !aborted && |identifiers| > 0 && Truthy(title) && authors.Some? && authors.value != []
  {
  }

  /** The identifiers other than a truthy `moly_hu` change nothing but the
      number of queries: the retry sends the same query again and ends the
      way a search without identifiers ends. */
  lemma RetryIsRedundant(title: Option<string>, authors: Option<seq<string>>, identifiers: map<string, string>,
                         search: string -> Response, aborted: bool, maxBooks: int)
    requires !Truthy(MolyIdOf(identifiers))
    ensures Identify(title, authors, identifiers, search, aborted, maxBooks).outcome
         == Identify(title, authors, map[], search, aborted, maxBooks).outcome
  {
  }

  /** The jobs made from one search's matches: distinct site URLs, relevance
      equal to the index, at most `max_books` of them (one when `max_books`
      is not positive). */
  lemma SearchJobsRanked(rows: seq<Row>, wanted: Wanted, maxBooks: int)
    ensures var jobs := JobsFor(ScanRows(rows, wanted, [], 0, maxBooks).matches);
      |jobs| <= (if maxBooks >= 1 then maxBooks else 1)
      && (forall i :: 0 <= i < |jobs| ==> jobs[i].relevance == i && BaseUrl <= jobs[i].url)
      && (forall i, j :: 0 <= i < j < |jobs| ==> jobs[i].url != jobs[j].url)
  {
    var scan := ScanRows(rows, wanted, [], 0, maxBooks);
    SearchResultsContract(rows, wanted, maxBooks, []);
    forall i | 0 <= i < |scan.matches| ensures BaseUrl <= scan.matches[i] {
      CandidateIsOnSite(rows, wanted, scan.matches[i]);
    }
  }

  /** The jobs `identify` starts: one per distinct URL, relevance equal to the
      index, every URL on the site, and no more than `max_books` of them (one
      when `max_books` is not positive). */
  lemma JobsAreRanked(title: Option<string>, authors: Option<seq<string>>, identifiers: map<string, string>,
                      search: string -> Response, aborted: bool, maxBooks: int)
    ensures var run := Identify(title, authors, identifiers, search, aborted, maxBooks);
      run.outcome.Spawned? ==>
        var jobs := run.outcome.jobs;
        1 <= |jobs| <= (if maxBooks >= 1 then maxBooks else 1)
        && (forall i :: 0 <= i < |jobs| ==> jobs[i].relevance == i && BaseUrl <= jobs[i].url)
        && (forall i, j :: 0 <= i < j < |jobs| ==> jobs[i].url != jobs[j].url)
  {
    var run := Identify(title, authors, identifiers, search, aborted, maxBooks);
    if run.outcome.Spawned? && !Truthy(MolyIdOf(identifiers)) {
      RetryIsRedundant(title, authors, identifiers, search, aborted, maxBooks);
      var once := Identify(title, authors, map[], search, aborted, maxBooks);
      assert once.outcome == run.outcome;
      var query := CreateQuery(title, authors).value;
      var rows := search(query).rows;
      assert once.outcome.jobs == JobsFor(ScanRows(rows, Wanted(title, authors), [], 0, maxBooks).matches);
      SearchJobsRanked(rows, Wanted(title, authors), maxBooks);
    }
  }
}
