/**
  * `_parse_search_results`: which rows of the search page are plausible matches
  * for the wanted title and first author, and which book URLs they add to the
  * candidate list, without duplicates and up to the `max_books` cap.
  *
  * `ScanRows` states the scan as a function; `ParseSearchResults` is the loop
  * the plugin runs, proved equal to it. The lemmas say what the scan adds.
  */
module MatchFilter {
  import opened Wrappers
  import opened PyText
  import opened MolyHu

  /** One `a.book_selector` link of the search page: its text once the `strong`
      tags are unwrapped ("Author: Title"), and its `href` values. */
  datatype Row = Row(text: string, hrefs: seq<string>)

  /** The title and authors the caller searched for. */
  datatype Wanted = Wanted(title: Option<string>, authors: Option<seq<string>>)

  /** What the filter does with one row: take its links, pass over it, or raise. */
  datatype Verdict = Accept | Skip | Error(error: PyError)

  /** The characters stripped from both fields of a row. */
  predicate RowSpace(c: char) {
    c == ' ' || c == '\r' || c == '\n' || c == '\t'
  }

  /** `text.split(':', 1)` and both fields stripped; without a colon the second
      field does not exist and indexing it raises IndexError. */
  function SplitAuthorTitle(text: string): (r: Outcome<(string, string)>)
    ensures r.Raised? <==> ':' !in text
    ensures r.Raised? ==> r.error == IndexError
  {
    match IndexOf(text, ":")
    case None =>
      assert forall j :: 0 <= j < |text| ==> (":" <= text[j..] <==> text[j] == ':');
      Raised(IndexError)
    case Some(k) =>
      assert text[k] == ':';
      Ok((Strip(text[..k], RowSpace), Strip(text[k + 1..], RowSpace)))
  }

  // ---------------------------------------------------------------------------
  // Name order
  // ---------------------------------------------------------------------------

  /** The swapped form of a wanted author: the first two space-separated fields
      of `author.split(" ")` in reverse order, or the author itself when it has
      a single field. */
  function SwappedName(author: string): (r: string)
    ensures ' ' !in author ==> r == author
  {
    var parts := SplitOn(author, ' ');
    if ' ' !in author then SplitWithoutSep(author, ' '); author
    else if |parts| > 1 then parts[1] + " " + parts[0]
    else author
  }

  /** "Given Family" becomes "Family Given". */
  lemma SwappedTwoNames(given: string, family: string)
    requires ' ' !in given && ' ' !in family
    ensures SwappedName(given + " " + family) == family + " " + given
    ensures SwappedName(SwappedName(given + " " + family)) == given + " " + family
  {
    SplitAfterField(given, ' ', family);
    SplitWithoutSep(family, ' ');
    assert ' ' in given + " " + family by { assert (given + " " + family)[|given|] == ' '; }
    SplitAfterField(family, ' ', given);
    SplitWithoutSep(given, ' ');
    assert ' ' in family + " " + given by { assert (family + " " + given)[|family|] == ' '; }
  }

  /** Only the first two names take part: "A B C" becomes "B A". */
  lemma SwappedDropsLaterNames(first: string, second: string, rest: string)
    requires ' ' !in first && ' ' !in second
    ensures SwappedName(first + " " + second + " " + rest) == second + " " + first
  {
    var s := first + " " + second + " " + rest;
    assert s == first + [' '] + (second + [' '] + rest);
    SplitAfterField(first, ' ', second + [' '] + rest);
    SplitAfterField(second, ' ', rest);
    assert s[|first|] == ' ';
  }

  // ---------------------------------------------------------------------------
  // The acceptance tests
  // ---------------------------------------------------------------------------

  /** `x.lower() in y.lower() or strip_accents(x) in strip_accents(y)`. */
  predicate LooselyIn(x: string, y: string) {
    Contains(Lower(y), Lower(x)) || Contains(StripAccents(y), StripAccents(x))
  }

  /** The author test: the wanted author, or its swapped form, loosely in the row's author. */
  predicate AuthorMatches(wanted: string, author: string) {
    LooselyIn(wanted, author) || LooselyIn(SwappedName(wanted), author)
  }

  /** The filter's decision for one row. The log line before the tests folds the
      wanted title, which raises AttributeError when no title was given. */
  function RowVerdict(row: Row, wanted: Wanted): (v: Verdict)
    ensures v.Error? <==> ':' !in row.text || wanted.title.None?
    ensures ':' !in row.text ==> v == Error(IndexError)
    ensures v == Accept ==> (
      wanted.title.Some? &&
      var (author, title) := SplitAuthorTitle(row.text).value;
      (wanted.title.value != "" ==> LooselyIn(wanted.title.value, title)) &&
      (wanted.authors.Some? && wanted.authors.value != [] ==> AuthorMatches(wanted.authors.value[0], author)))
  {
    match SplitAuthorTitle(row.text)
    case Raised(e) => Error(e)
    case Ok((author, title)) =>
      if wanted.title.None? then Error(AttributeError)
      else if wanted.title.value != "" && !LooselyIn(wanted.title.value, title) then Skip
      else if wanted.authors.Some? && wanted.authors.value != []
              && !AuthorMatches(wanted.authors.value[0], author) then Skip
      else Accept
  }

  /** A well-formed row is skipped exactly when a given title or a given first
      author fails its test. */
  lemma SkipWhenTestFails(row: Row, wanted: Wanted)
    requires ':' in row.text && wanted.title.Some?
    ensures var (author, title) := SplitAuthorTitle(row.text).value;
      RowVerdict(row, wanted) == Skip <==>
        (wanted.title.value != "" && !LooselyIn(wanted.title.value, title)) ||
        (wanted.authors.Some? && wanted.authors.value != [] && !AuthorMatches(wanted.authors.value[0], author))
  {
  }

  // ---------------------------------------------------------------------------
  // Case and accent insensitivity
  // ---------------------------------------------------------------------------

  /** Folding a lower-cased character is folding the character. */
  lemma FoldAbsorbsLower(c: char)
    ensures LowerChar(Unaccent(LowerChar(c))) == LowerChar(Unaccent(c))
  {
  }

  lemma StripAccentsOfLower(s: string)
    ensures StripAccents(Lower(s)) == StripAccents(s)
  {
    forall i | 0 <= i < |s| ensures StripAccents(Lower(s))[i] == StripAccents(s)[i] {
      FoldAbsorbsLower(s[i]);
    }
  }

  /** A substring stays a substring under the accent folding. */
  lemma ContainsFolded(hay: string, needle: string)
    requires Contains(hay, needle)
    ensures Contains(StripAccents(hay), StripAccents(needle))
  {
    var k := IndexOf(hay, needle).value;
    var fh, fn := StripAccents(hay), StripAccents(needle);
    assert needle == hay[k..k + |needle|];
    forall i | 0 <= i < |fn| ensures fn[i] == fh[k..][i] {
      assert needle[i] == hay[k + i];
    }
    assert fn <= fh[k..];
    ContainsAt(fh, fn, k);
  }

  /** The case-insensitive test adds nothing to the accent-folded one: a text is
      loosely in another exactly when its folding is a substring of the other's. */
  lemma LooselyInIsFolded(x: string, y: string)
    ensures LooselyIn(x, y) <==> Contains(StripAccents(y), StripAccents(x))
  {
    if Contains(Lower(y), Lower(x)) {
      ContainsFolded(Lower(y), Lower(x));
      StripAccentsOfLower(x);
      StripAccentsOfLower(y);
    }
  }

  /** The verdict sees the wanted title only through its accent folding:
      titles that differ in case or accents select the same rows. */
  lemma VerdictIgnoresCaseAndAccents(row: Row, t1: string, t2: string, authors: Option<seq<string>>)
    requires StripAccents(t1) == StripAccents(t2) && (t1 == "" <==> t2 == "")
    ensures RowVerdict(row, Wanted(Some(t1), authors)) == RowVerdict(row, Wanted(Some(t2), authors))
  {
    if ':' in row.text {
      var title := SplitAuthorTitle(row.text).value.1;
      LooselyInIsFolded(t1, title);
      LooselyInIsFolded(t2, title);
    }
  }

  /** A wanted author given as "Jules Verne" accepts a row by "Verne Jules". */
  lemma SwappedAuthorAccepted(given: string, family: string)
    requires ' ' !in given && ' ' !in family
    ensures AuthorMatches(given + " " + family, family + " " + given)
  {
    SwappedTwoNames(given, family);
    ContainsSelf(Lower(family + " " + given));
  }

  // ---------------------------------------------------------------------------
  // Collecting URLs
  // ---------------------------------------------------------------------------

  /** The URLs a row contributes: the site base prefixed to each href. */
  function RowUrls(row: Row): (urls: seq<string>)
    ensures |urls| == |row.hrefs|
    ensures forall k :: 0 <= k < |urls| ==> urls[k] == BaseUrl + row.hrefs[k]
  {
    seq(|row.hrefs|, k requires 0 <= k < |row.hrefs| => BaseUrl + row.hrefs[k])
  }

  predicate NoDuplicates(s: seq<string>) {
    forall i, j :: 0 <= i < j < |s| ==> s[i] != s[j]
  }

  /** The candidate list after offering `urls` one by one, each appended unless
      already present: the reference meaning of "append, skipping duplicates". */
  function AddNew(matches: seq<string>, urls: seq<string>): seq<string>
    decreases |urls|
  {
    if urls == [] then matches
    else AddNew(if urls[0] in matches then matches else matches + [urls[0]], urls[1..])
  }

  /** The state of one row's inner loop: the list, the counter `i`, and whether
      the cap made the function return. */
  datatype Fed = Fed(matches: seq<string>, count: int, capped: bool)

  /** Offering `urls` to the list: append a new one and count it; after every
      URL, return once the count has reached `maxResults`. */
  function Feed(urls: seq<string>, matches: seq<string>, count: int, maxResults: int): (fed: Fed)
    ensures fed.count - count == |fed.matches| - |matches|
    ensures fed.capped ==> fed.count >= maxResults
    ensures !fed.capped && urls != [] ==> fed.count < maxResults
    decreases |urls|
  {
    if urls == [] then Fed(matches, count, false)
    else
      var isNew := urls[0] !in matches;
      var m := if isNew then matches + [urls[0]] else matches;
      var c := if isNew then count + 1 else count;
      if c >= maxResults then Fed(m, c, true) else Feed(urls[1..], m, c, maxResults)
  }

  /** How a scan of the rows ended. */
  datatype ScanEnd = Exhausted | Capped | Failed(error: PyError)
  datatype Scan = Scan(matches: seq<string>, count: int, end: ScanEnd)

  /** The scan of the search rows, row by row. */
  function ScanRows(rows: seq<Row>, wanted: Wanted, matches: seq<string>, count: int, maxResults: int): Scan
    decreases |rows|
  {
    if rows == [] then Scan(matches, count, Exhausted)
    else match RowVerdict(rows[0], wanted)
      case Error(e) => Scan(matches, count, Failed(e))
      case Skip => ScanRows(rows[1..], wanted, matches, count, maxResults)
      case Accept =>
        var f := Feed(RowUrls(rows[0]), matches, count, maxResults);
        if f.capped then Scan(f.matches, f.count, Capped)
        else ScanRows(rows[1..], wanted, f.matches, f.count, maxResults)
  }

  /** The URLs of the accepted rows, in row order, up to the first row that raises. */
  function Candidates(rows: seq<Row>, wanted: Wanted): seq<string>
    decreases |rows|
  {
    if rows == [] then []
    else match RowVerdict(rows[0], wanted)
      case Error(_) => []
      case Skip => Candidates(rows[1..], wanted)
      case Accept => RowUrls(rows[0]) + Candidates(rows[1..], wanted)
  }

  /** The error of the first row that raises, if any. */
  function FirstFailure(rows: seq<Row>, wanted: Wanted): Option<PyError>
    decreases |rows|
  {
    if rows == [] then None
    else match RowVerdict(rows[0], wanted)
      case Error(e) => Some(e)
      case _ => FirstFailure(rows[1..], wanted)
  }

  /** The imperative loop of `_parse_search_results`: `matches` is the caller's
      list, extended in place; `end` records how the function left the loop. */
  method ParseSearchResults(wanted: Wanted, rows: seq<Row>, maxResults: int, matches: seq<string>)
    returns (found: seq<string>, end: ScanEnd)
    ensures found == ScanRows(rows, wanted, matches, 0, maxResults).matches
    ensures end == ScanRows(rows, wanted, matches, 0, maxResults).end
  {
    ghost var goal := ScanRows(rows, wanted, matches, 0, maxResults);
    found := matches;
    var i := 0;
    var j := 0;
    while j < |rows|
      invariant 0 <= j <= |rows|
      invariant ScanRows(rows[j..], wanted, found, i, maxResults) == goal
    {
      var row := rows[j];
      assert rows[j..][1..] == rows[j + 1..];
      match RowVerdict(row, wanted) {
        case Error(e) =>
          return found, Failed(e);
        case Skip =>
        case Accept =>
          ghost var urls := RowUrls(row);
          ghost var whole := Feed(urls, found, i, maxResults);
          var k := 0;
          while k < |row.hrefs|
            invariant 0 <= k <= |row.hrefs|
            invariant Feed(urls[k..], found, i, maxResults) == whole
          {
            var url := BaseUrl + row.hrefs[k];
            assert urls[k..][0] == url && urls[k..][1..] == urls[k + 1..];
            if url !in found {
              found := found + [url];
              i := i + 1;
            }
            if i >= maxResults {
              return found, Capped;
            }
            k := k + 1;
          }
      }
      j := j + 1;
    }
    return found, Exhausted;
  }

  // ---------------------------------------------------------------------------
  // What the scan adds
  // ---------------------------------------------------------------------------

  /** The list only grows at its end. */
  lemma {:induction false} AddNewExtends(matches: seq<string>, urls: seq<string>)
    ensures matches <= AddNew(matches, urls)
    decreases |urls|
  {
    if urls != [] {
      var m := if urls[0] in matches then matches else matches + [urls[0]];
      AddNewExtends(m, urls[1..]);
    }
  }

  /** Exactly the old entries and the offered URLs end up in the list. */
  lemma {:induction false} AddNewMembers(matches: seq<string>, urls: seq<string>)
    ensures forall u :: u in AddNew(matches, urls) <==> u in matches || u in urls
    decreases |urls|
  {
    if urls != [] {
      var m := if urls[0] in matches then matches else matches + [urls[0]];
      AddNewMembers(m, urls[1..]);
      assert forall u :: u in urls <==> u == urls[0] || u in urls[1..];
    }
  }

  /** No URL is in the list twice. */
  lemma {:induction false} AddNewNoDuplicates(matches: seq<string>, urls: seq<string>)
    requires NoDuplicates(matches)
    ensures NoDuplicates(AddNew(matches, urls))
    decreases |urls|
  {
    if urls != [] {
      var m := if urls[0] in matches then matches else matches + [urls[0]];
      AddNewNoDuplicates(m, urls[1..]);
    }
  }

  /** Offering one more URL appends it at the end when it is new: the list keeps
      the order in which the URLs were offered. */
  lemma {:induction false} AddNewSnoc(matches: seq<string>, urls: seq<string>, u: string)
    ensures AddNew(matches, urls + [u]) ==
      var r := AddNew(matches, urls); if u in r then r else r + [u]
    decreases |urls|
  {
    if urls == [] {
      assert (urls + [u])[1..] == [];
    } else {
      var m := if urls[0] in matches then matches else matches + [urls[0]];
      assert (urls + [u])[1..] == urls[1..] + [u];
      AddNewSnoc(m, urls[1..], u);
    }
  }

  /** Offering a concatenation is offering its two parts in turn. */
  lemma {:induction false} FeedAppend(a: seq<string>, b: seq<string>, matches: seq<string>, count: int, maxResults: int)
    ensures Feed(a + b, matches, count, maxResults) ==
      var f := Feed(a, matches, count, maxResults);
      if f.capped then f else Feed(b, f.matches, f.count, maxResults)
    decreases |a|
  {
    if a == [] {
      assert a + b == b;
    } else {
      assert (a + b)[0] == a[0] && (a + b)[1..] == a[1..] + b;
      var isNew := a[0] !in matches;
      var m := if isNew then matches + [a[0]] else matches;
      var c := if isNew then count + 1 else count;
      if c < maxResults {
        FeedAppend(a[1..], b, m, c, maxResults);
      }
    }
  }

  /** What feeding `urls` does: it adds the new URLs of a prefix of `urls`, in
      order, counting each; it stops as soon as the count reaches the cap, and
      otherwise offers every URL. */
  lemma {:induction false} FeedSpec(urls: seq<string>, matches: seq<string>, count: int, maxResults: int)
    ensures var f := Feed(urls, matches, count, maxResults);
      f.count - count == |f.matches| - |matches|
      && (exists k :: 0 <= k <= |urls| && f.matches == AddNew(matches, urls[..k]))
      && (!f.capped ==> f.matches == AddNew(matches, urls))
      && (f.capped ==> f.count >= maxResults)
      && (!f.capped && urls != [] ==> f.count < maxResults)
      && f.count <= (if count < maxResults then maxResults else count + 1)
    decreases |urls|
  {
    var f := Feed(urls, matches, count, maxResults);
    if urls == [] {
      assert urls[..0] == [];
    } else {
      var isNew := urls[0] !in matches;
      var m := if isNew then matches + [urls[0]] else matches;
      var c := if isNew then count + 1 else count;
      assert AddNew(matches, urls[..1]) == m by {
        assert urls[..1][1..] == [];
      }
      if c >= maxResults {
        assert f.matches == AddNew(matches, urls[..1]);
      } else {
        FeedSpec(urls[1..], m, c, maxResults);
        var k' :| 0 <= k' <= |urls[1..]| && f.matches == AddNew(m, urls[1..][..k']);
        assert urls[..k' + 1][1..] == urls[1..][..k'];
        assert urls[..k' + 1][0] == urls[0];
        assert f.matches == AddNew(matches, urls[..k' + 1]);
      }
    }
  }

  /** The scan is the feeding of the candidates: same list, same count; it ends
      capped exactly when the feeding does, and otherwise fails at the first
      row that raises or runs out of rows. */
  lemma {:induction false} ScanIsFeed(rows: seq<Row>, wanted: Wanted, matches: seq<string>, count: int, maxResults: int)
    ensures var s := ScanRows(rows, wanted, matches, count, maxResults);
      var f := Feed(Candidates(rows, wanted), matches, count, maxResults);
      s.matches == f.matches && s.count == f.count &&
      s.end == (if f.capped then Capped
                else if FirstFailure(rows, wanted).Some? then Failed(FirstFailure(rows, wanted).value)
                else Exhausted)
    decreases |rows|
  {
    if rows != [] {
      match RowVerdict(rows[0], wanted)
      case Error(e) =>
      case Skip =>
        ScanIsFeed(rows[1..], wanted, matches, count, maxResults);
      case Accept =>
        var f := Feed(RowUrls(rows[0]), matches, count, maxResults);
        FeedAppend(RowUrls(rows[0]), Candidates(rows[1..], wanted), matches, count, maxResults);
        if !f.capped {
          ScanIsFeed(rows[1..], wanted, f.matches, f.count, maxResults);
        }
    }
  }

  /** Over the whole scan the counter counts the links added, and the scan
      stops early only once the counter reaches the cap. */
  lemma ScanCounts(rows: seq<Row>, wanted: Wanted, matches: seq<string>, count: int, maxResults: int)
    ensures var s := ScanRows(rows, wanted, matches, count, maxResults);
      s.count - count == |s.matches| - |matches| && (s.end == Capped ==> s.count >= maxResults)
  {
    ScanIsFeed(rows, wanted, matches, count, maxResults);
  }

  /** Some row before the first failing one was accepted and links to `u`. */
  predicate FromAcceptedRow(rows: seq<Row>, wanted: Wanted, u: string) {
    exists j :: 0 <= j < |rows| && RowVerdict(rows[j], wanted) == Accept && u in RowUrls(rows[j])
  }

  /** Every candidate is the site base followed by an href of an accepted row. */
  lemma {:induction false} CandidatesFromAcceptedRows(rows: seq<Row>, wanted: Wanted, u: string)
    requires u in Candidates(rows, wanted)
    ensures FromAcceptedRow(rows, wanted, u)
    decreases |rows|
  {
    var v := RowVerdict(rows[0], wanted);
    if v == Accept && u in RowUrls(rows[0]) {
      assert 0 < |rows| && RowVerdict(rows[0], wanted) == Accept && u in RowUrls(rows[0]);
    } else {
      assert !v.Error?;
      assert u in Candidates(rows[1..], wanted);
      CandidatesFromAcceptedRows(rows[1..], wanted, u);
      var j :| 0 <= j < |rows[1..]| && RowVerdict(rows[1..][j], wanted) == Accept && u in RowUrls(rows[1..][j]);
      assert rows[j + 1] == rows[1..][j];
    }
  }

  /** Every candidate is a URL on the site. */
  lemma CandidateIsOnSite(rows: seq<Row>, wanted: Wanted, u: string)
    requires u in Candidates(rows, wanted)
    ensures BaseUrl <= u
  {
    CandidatesFromAcceptedRows(rows, wanted, u);
    var j :| 0 <= j < |rows| && RowVerdict(rows[j], wanted) == Accept && u in RowUrls(rows[j]);
    var k :| 0 <= k < |RowUrls(rows[j])| && RowUrls(rows[j])[k] == u;
  }

  /** What `_parse_search_results` promises its caller, for a list without
      duplicates: the list only grows at the end; what it gains are the new
      candidate URLs of a prefix of the candidates, in row order, never twice;
      at most `max_results` of them, and at most one when `max_results <= 0`;
      and when it neither hit the cap nor raised, every candidate is in it. */
  lemma SearchResultsContract(rows: seq<Row>, wanted: Wanted, maxResults: int, matches: seq<string>)
    requires NoDuplicates(matches)
    ensures var s := ScanRows(rows, wanted, matches, 0, maxResults);
      var cands := Candidates(rows, wanted);
      matches <= s.matches
      && NoDuplicates(s.matches)
      && (exists k :: 0 <= k <= |cands| && s.matches == AddNew(matches, cands[..k]))
      && (s.end == Exhausted ==> s.matches == AddNew(matches, cands))
      && (s.end == Exhausted ==> forall u :: u in cands ==> u in s.matches)
      && (s.end == Capped ==> |s.matches| - |matches| >= maxResults)
      && |s.matches| - |matches| <= (if maxResults >= 1 then maxResults else 1)
      && (forall u :: u in s.matches && u !in matches ==> u in cands)
  {
    var s := ScanRows(rows, wanted, matches, 0, maxResults);
    var cands := Candidates(rows, wanted);
    ScanIsFeed(rows, wanted, matches, 0, maxResults);
    FeedSpec(cands, matches, 0, maxResults);
    var k :| 0 <= k <= |cands| && s.matches == AddNew(matches, cands[..k]);
    AddNewExtends(matches, cands[..k]);
    AddNewNoDuplicates(matches, cands[..k]);
    AddNewMembers(matches, cands[..k]);
    AddNewMembers(matches, cands);
    forall u | u in s.matches && u !in matches ensures u in cands {
      assert u in cands[..k];
    }
  }
}
