/**
  * `parse_details`: the detail worker reads one book page, refuses it unless
  * it has a title, authors and a moly.hu identifier, and otherwise fills a
  * metadata record field by field, writes the plugin's two caches and puts
  * exactly one record on the result queue.
  *
  * `Assemble` is the record as a value; `Worker.ParseDetails` is the step by
  * step procedure, proved to queue that record and to make exactly the cache
  * writes the plugin promises.
  */
module DetailWorker {
  import opened Wrappers
  import opened PyText
  import opened MolyHu
  import opened Extract

  /** The node texts the worker's XPath queries select on a book page, in
      document order. */
  datatype BookPage = BookPage(
    titles: seq<string>,            // the `fn` texts
    seriesCaptions: seq<string>,    // the link texts inside `fn`
    authors: seq<string>,           // the `authors` link texts
    isbnTexts: seq<string>,         // the second item column
    publicationTexts: seq<string>,  // the first item column
    publishers: seq<string>,        // the first item column's link texts
    fullDescription: seq<string>,   // the paragraphs of `full_description`
    description: seq<string>,       // the paragraphs of any description
    tags: seq<string>,              // the `hover_link` texts under `tags`
    likeCounts: seq<string>,        // the `like_count` texts of the rating
    coverHrefs: seq<string>)        // the cover box links

  /** The fields of calibre's record that the worker sets. A field the worker
      leaves unset is None here. */
  datatype Metadata = Metadata(
    title: string,
    authors: seq<string>,
    molyId: string,
    isbn: Option<string>,
    series: Option<string>,
    seriesIndex: Option<int>,
    comments: Option<string>,
    hasCover: bool,
    tags: seq<string>,
    languages: seq<string>,
    publisher: Option<string>,
    pubYear: Option<int>,
    rating: Option<int>,
    sourceRelevance: int)

  /** The gate of `parse_details`: a non-empty title, some authors and a
      non-empty moly.hu identifier. */
  predicate Admitted(url: string, page: BookPage) {
    Truthy(ParseTitle(page.titles)) && ParseAuthors(page.authors).Some? && Truthy(ParseMolyId(url))
  }

  /** The series name and index: the name is set as soon as there is a caption;
      the index only when its field exists and reads as an integer. */
  function SeriesFields(captions: seq<string>): (fields: (Option<string>, Option<int>))
    ensures fields.0.None? <==> captions == []
    ensures fields.1.Some? ==> fields.0.Some?
  {
    match ParseSeries(captions)
    case None => (None, None)
    case Some(parts) =>
      (Some(parts[0]), match SeriesIndex(parts) case Ok(n) => Some(n) case Raised(_) => None)
  }

  /** The publication year as a number. The date parser rejects year 0, and
      the worker then leaves the date unset. */
  function YearValue(year: Option<string>): (value: Option<int>)
    requires year.Some? ==> AllDigits(year.value)
    ensures value.None? <==> year.None? || DigitsValue(year.value) == 0
    ensures value.Some? ==> value.value >= 1
  {
    match year
    case None => None
    case Some(y) => if DigitsValue(y) == 0 then None else Some(DigitsValue(y))
  }

  /** The rating, unless reading it raised. */
  function RatingField(likeCounts: seq<string>): (rating: Option<int>)
    ensures rating.Some? <==> likeCounts != [] && ParseInt(StripSpace(StripChars(likeCounts[0], {'%'}))).Some?
    ensures rating.Some? ==>
      var p := ParseInt(StripSpace(StripChars(likeCounts[0], {'%'}))).value;
      -10 <= p - 20 * rating.value <= 10
  {
    match ParseRating(likeCounts)
    case Ok(r) => r
    case Raised(_) => None
  }

  /** The record `parse_details` queues for the page at `url`, or None when the
      gate refuses it. */
  function Assemble(url: string, page: BookPage, relevance: int, maxCovers: int): (record: Option<Metadata>)
    ensures record.Some? <==> Admitted(url, page)
    ensures record.Some? ==> (
      record.value.title != "" && record.value.authors != []
      && record.value.molyId != "" && record.value.sourceRelevance == relevance
      && record.value.languages != [])
  {
    if !Admitted(url, page) then None
    else
      var found := FirstFound(page.isbnTexts, IsbnIn);
      var year := FirstFound(page.publicationTexts, YearIn);
      var tags := ParseTags(page.tags).GetOr([]);
      var covers := ParseCovers(page.coverHrefs, maxCovers);
      var series := SeriesFields(page.seriesCaptions);
      Some(Metadata(
        title := ParseTitle(page.titles).value,
        authors := ParseAuthors(page.authors).value,
        molyId := ParseMolyId(url).value,
        isbn := if Truthy(found) then found else None,
        series := series.0,
        seriesIndex := series.1,
        comments := ParseComments(page.fullDescription, page.description),
        hasCover := covers.Some?,
        tags := tags,
        languages := Languages(tags),
        publisher := ParsePublisher(page.publishers),
        pubYear := YearValue(year),
        rating := RatingField(page.likeCounts),
        sourceRelevance := relevance))
  }

  /** The series step: the name is recorded once a caption exists, the index
      only when it reads as an integer; a failure leaves the rest untouched. */
  method FillSeries(mi: Metadata, captions: seq<string>) returns (next: Metadata)
    ensures next == mi.(series := if captions == [] then mi.series else SeriesFields(captions).0,
                        seriesIndex := if SeriesFields(captions).1.None? then mi.seriesIndex else SeriesFields(captions).1)
  {
    next := mi;
    match ParseSeries(captions) {
      case None =>
      case Some(parts) =>
        next := next.(series := Some(parts[0]));
        match SeriesIndex(parts) {
          case Ok(n) => next := next.(seriesIndex := Some(n));
          case Raised(_) =>
        }
    }
  }

  /** The rating step: the rating is recorded unless reading it raised. */
  method FillRating(mi: Metadata, likeCounts: seq<string>) returns (next: Metadata)
    ensures ParseRating(likeCounts).Ok? ==> next == mi.(rating := ParseRating(likeCounts).value)
    ensures ParseRating(likeCounts).Raised? ==> next == mi
  {
    next := mi;
    match ParseRating(likeCounts) {
      case Ok(r) => next := next.(rating := r);
      case Raised(_) =>
    }
  }

  /** The first half of the record: identity, ISBN, series, comments and the
      cover flag. */
  method FillHead(url: string, page: BookPage, found: Option<string>, covers: Option<seq<string>>)
    returns (mi: Metadata)
    requires Admitted(url, page)
    ensures mi.title == ParseTitle(page.titles).value && mi.authors == ParseAuthors(page.authors).value
    ensures mi.molyId == ParseMolyId(url).value
    ensures mi.isbn == (if Truthy(found) then found else None)
    ensures (mi.series, mi.seriesIndex) == SeriesFields(page.seriesCaptions)
    ensures mi.comments == ParseComments(page.fullDescription, page.description)
    ensures mi.hasCover == covers.Some? && mi.rating.None?
  {
    mi := Metadata(ParseTitle(page.titles).value, ParseAuthors(page.authors).value, ParseMolyId(url).value,
                   None, None, None, None, false, [], [], None, None, None, 0);
    if Truthy(found) {
      mi := mi.(isbn := found);
    }
    mi := FillSeries(mi, page.seriesCaptions);
    mi := mi.(comments := ParseComments(page.fullDescription, page.description));
    mi := mi.(hasCover := covers.Some?);
  }

  /** The second half: tags, languages, publisher, year, rating, relevance. */
  method FillTail(mi: Metadata, page: BookPage, relevance: int) returns (next: Metadata)
    ensures next == mi.(tags := ParseTags(page.tags).GetOr([]), languages := Languages(ParseTags(page.tags).GetOr([])),
                        publisher := ParsePublisher(page.publishers),
                        pubYear := YearValue(FirstFound(page.publicationTexts, YearIn)),
                        rating := if ParseRating(page.likeCounts).Ok? then ParseRating(page.likeCounts).value else mi.rating,
                        sourceRelevance := relevance)
  {
    next := mi.(tags := ParseTags(page.tags).GetOr([]));
    var langs := ParseLanguages(next.tags);
    next := next.(languages := langs);
    next := next.(publisher := ParsePublisher(page.publishers));
    var year := ParsePublishedYear(page.publicationTexts);
    next := next.(pubYear := YearValue(year));
    next := FillRating(next, page.likeCounts);
    next := next.(sourceRelevance := relevance);
  }

  /** The record, filled field by field in the worker's order from the page,
      the ISBN already found and the cover links already kept. */
  method FillRecord(url: string, page: BookPage, relevance: int, maxCovers: int,
                    found: Option<string>, covers: Option<seq<string>>) returns (mi: Metadata)
    requires Admitted(url, page)
    requires found == FirstFound(page.isbnTexts, IsbnIn)
    requires covers == ParseCovers(page.coverHrefs, maxCovers)
    ensures Assemble(url, page, relevance, maxCovers) == Some(mi)
  {
    var head := FillHead(url, page, found, covers);
    mi := FillTail(head, page, relevance);
    ghost var rec := Assemble(url, page, relevance, maxCovers).value;
    assert mi.title == rec.title && mi.authors == rec.authors && mi.molyId == rec.molyId;
    assert mi.isbn == rec.isbn;
    assert mi.series == rec.series && mi.seriesIndex == rec.seriesIndex;
    assert mi.comments == rec.comments && mi.hasCover == rec.hasCover;
    assert mi.tags == rec.tags && mi.languages == rec.languages;
    assert mi.publisher == rec.publisher && mi.pubYear == rec.pubYear;
    assert mi.rating == rec.rating && mi.sourceRelevance == rec.sourceRelevance;
  }

  /** The record filled and put on the queue. */
  method QueueRecord(url: string, page: BookPage, relevance: int, maxCovers: int,
                     found: Option<string>, covers: Option<seq<string>>, queue: ResultQueue)
    requires Admitted(url, page)
    requires found == FirstFound(page.isbnTexts, IsbnIn)
    requires covers == ParseCovers(page.coverHrefs, maxCovers)
    modifies queue
    ensures queue.items == old(queue.items) + [Assemble(url, page, relevance, maxCovers).value]
  {
    var mi := FillRecord(url, page, relevance, maxCovers, found, covers);
    queue.Put(mi);
  }

  /** The host's result queue. */
  class ResultQueue {
    var items: seq<Metadata>

    constructor ()
      ensures items == []
    {
      items := [];
    }

    method Put(record: Metadata)
      modifies this
      ensures items == old(items) + [record]
    {
      items := items + [record];
    }
  }

  /** One detail worker: its book page URL, its relevance, the cover limit it
      read from the preferences, and what it has parsed so far. */
  class Worker {
    const url: string
    const relevance: int
    const maxCovers: int
    var molyId: Option<string>
    var isbn: Option<string>
    var coverUrl: Option<seq<string>>

    constructor (url: string, relevance: int, plugin: Plugin)
      ensures this.url == url && this.relevance == relevance && maxCovers == plugin.maxCovers
      ensures molyId.None? && isbn.None? && coverUrl.None?
    {
      this.url := url;
      this.relevance := relevance;
      maxCovers := plugin.maxCovers;
      molyId := None;
      isbn := None;
      coverUrl := None;
    }

    /** The worker's own bookkeeping for an admitted page: it remembers the
        identifier, the ISBN when one was found and the cover links, and
        caches the cover links under the identifier. */
    method RememberPage(page: BookPage, id: string, plugin: Plugin) returns (found: Option<string>, covers: Option<seq<string>>)
      modifies this`molyId, this`isbn, this`coverUrl, plugin`idToCovers
      ensures found == FirstFound(page.isbnTexts, IsbnIn) && covers == ParseCovers(page.coverHrefs, maxCovers)
      ensures molyId == Some(id) && coverUrl == covers
      ensures isbn == (if Truthy(found) then found else old(isbn))
      ensures plugin.idToCovers == old(plugin.idToCovers)[id := covers]
    {
      molyId := Some(id);

      found := ParseIsbn(page.isbnTexts);
      if Truthy(found) {
        isbn := found;
      }

      covers := ParseCovers(page.coverHrefs, maxCovers);
      coverUrl := covers;
      plugin.CacheIdentifierToCoverUrl(id, covers);
    }

    /** `parse_details` on the node texts of the fetched page: a page without
        a title, authors or identifier changes nothing; otherwise the worker's
        own fields and the plugin's caches are written and one record is
        queued. */
    method ParseDetails(page: BookPage, plugin: Plugin, queue: ResultQueue)
      modifies this, plugin`isbnToId, plugin`idToCovers, queue
      ensures Admitted(url, page) ==> queue.items == old(queue.items) + [Assemble(url, page, relevance, maxCovers).value]
      ensures !Admitted(url, page) ==>
        queue.items == old(queue.items)
        && molyId == old(molyId) && isbn == old(isbn) && coverUrl == old(coverUrl)
        && plugin.isbnToId == old(plugin.isbnToId) && plugin.idToCovers == old(plugin.idToCovers)
      ensures Admitted(url, page) ==>
        var found := FirstFound(page.isbnTexts, IsbnIn);
        molyId == ParseMolyId(url) && coverUrl == ParseCovers(page.coverHrefs, maxCovers)
        && plugin.idToCovers == old(plugin.idToCovers)[molyId.value := coverUrl]
        && isbn == (if Truthy(found) then found else old(isbn))
        && plugin.isbnToId == (if Truthy(isbn) then old(plugin.isbnToId)[isbn.value := molyId.value] else old(plugin.isbnToId))
    {
      var id := ParseMolyId(url);
      var title := ParseTitle(page.titles);
      var authors := ParseAuthors(page.authors);
      if !Truthy(title) || authors.None? || !Truthy(id) {
        return;
      }
      var found, covers := UpdateState(page, id.value, plugin);
      QueueRecord(url, page, relevance, maxCovers, found, covers, queue);
    }

    /** What `parse_details` writes besides the record, for an admitted page:
        the worker's identifier, ISBN and cover links, and both caches. */
    method UpdateState(page: BookPage, id: string, plugin: Plugin) returns (found: Option<string>, covers: Option<seq<string>>)
      requires id != ""
      modifies this`molyId, this`isbn, this`coverUrl, plugin`isbnToId, plugin`idToCovers
      ensures found == FirstFound(page.isbnTexts, IsbnIn) && covers == ParseCovers(page.coverHrefs, maxCovers)
      ensures molyId == Some(id) && coverUrl == covers
      ensures plugin.idToCovers == old(plugin.idToCovers)[id := covers]
      ensures isbn == (if Truthy(found) then found else old(isbn))
      ensures plugin.isbnToId == (if Truthy(isbn) then old(plugin.isbnToId)[isbn.value := id] else old(plugin.isbnToId))
    {
      found, covers := RememberPage(page, id, plugin);
      CacheIsbn(plugin);
    }

    /** The last cache write: the ISBN, when the worker has one, now names
        the worker's identifier. */
    method CacheIsbn(plugin: Plugin)
      modifies plugin`isbnToId
      ensures plugin.isbnToId == if Truthy(molyId) && Truthy(isbn) then old(plugin.isbnToId)[isbn.value := molyId.value]
                                 else old(plugin.isbnToId)
    {
      if Truthy(molyId) && Truthy(isbn) {
        plugin.CacheIsbnToIdentifier(isbn.value, molyId.value);
      }
    }
  }

  // ---------------------------------------------------------------------------
  // What the record holds
  // ---------------------------------------------------------------------------

  /** The first ISBN found in a list of texts is ten or thirteen digits that
      occur in one of the texts. */
  lemma FirstIsbnIsDigits(nodes: seq<string>)
    ensures var found := FirstFound(nodes, IsbnIn);
      found.Some? ==> AllDigits(found.value) && (|found.value| == 10 || |found.value| == 13)
                      && exists k :: 0 <= k < |nodes| && Contains(nodes[k], found.value)
  {
    var found := FirstFound(nodes, IsbnIn);
    if found.Some? {
      var k :| 0 <= k < |nodes| && IsbnIn(nodes[k]) == found
               && forall j :: 0 <= j < k ==> IsbnIn(nodes[j]).None?;
      assert Contains(nodes[k], found.value);
    }
  }

  /** The ISBN recorded is ten or thirteen digits found in the first ISBN text
      that has a run of ten digits; there is none when no text has one. */
  lemma RecordedIsbn(url: string, page: BookPage, relevance: int, maxCovers: int)
    requires Admitted(url, page)
    ensures var mi := Assemble(url, page, relevance, maxCovers).value;
      (mi.isbn.None? <==> forall k :: 0 <= k < |page.isbnTexts| ==> IsbnIn(page.isbnTexts[k]).None?)
      && (mi.isbn.Some? ==> AllDigits(mi.isbn.value) && (|mi.isbn.value| == 10 || |mi.isbn.value| == 13))
      && (mi.isbn.Some? ==> exists k :: 0 <= k < |page.isbnTexts| && Contains(page.isbnTexts[k], mi.isbn.value))
  {
    FirstIsbnIsDigits(page.isbnTexts);
  }

  /** The first year found in a list of texts is at most 9999, and is zero
      only when it is written "0000". */
  lemma FirstYearBound(nodes: seq<string>)
    ensures var year := FirstFound(nodes, YearIn);
      year.Some? ==> AllDigits(year.value) && DigitsValue(year.value) <= 9999
                     && (DigitsValue(year.value) == 0 <==> year.value == "0000")
  {
    var year := FirstFound(nodes, YearIn);
    if year.Some? {
      var k :| 0 <= k < |nodes| && YearIn(nodes[k]) == year
               && forall j :: 0 <= j < k ==> YearIn(nodes[j]).None?;
      FourDigitsBound(year.value);
      FourZeros(year.value);
    }
  }

  /** Four digits are worth zero exactly when they are "0000". */
  lemma FourZeros(s: string)
    requires AllDigits(s) && |s| == 4
    ensures DigitsValue(s) == 0 <==> s == "0000"
  {
    ZeroDigits(s);
    if DigitsValue(s) == 0 {
      assert s == [s[0], s[1], s[2], s[3]];
    }
  }

  /** A digit string is worth zero exactly when all its digits are zeros. */
  lemma {:induction false} ZeroDigits(s: string)
    requires AllDigits(s)
    ensures DigitsValue(s) == 0 <==> forall i :: 0 <= i < |s| ==> s[i] == '0'
    decreases |s|
  {
    if s != [] {
      var init := s[..|s| - 1];
      ZeroDigits(init);
      assert forall i :: 0 <= i < |init| ==> init[i] == s[i];
    }
  }

  /** The year recorded is the value of the first four-digit run, from 1 to
      9999; there is none when no publication text has four digits in a row,
      or when the first run is "0000". */
  lemma RecordedYear(url: string, page: BookPage, relevance: int, maxCovers: int)
    requires Admitted(url, page)
    ensures var mi := Assemble(url, page, relevance, maxCovers).value;
      var year := FirstFound(page.publicationTexts, YearIn);
      (mi.pubYear.None? <==>
         (forall k :: 0 <= k < |page.publicationTexts| ==> YearIn(page.publicationTexts[k]).None?)
         || year.value == "0000")
      && (mi.pubYear.Some? ==> 1 <= mi.pubYear.value <= 9999 && mi.pubYear.value == DigitsValue(year.value))
  {
    FirstYearBound(page.publicationTexts);
  }

  /** The cover flag says whether any cover link was kept; the languages are
      the recognised tag codes, or `['hu']` when none is recognised. */
  lemma RecordedCoverAndLanguages(url: string, page: BookPage, relevance: int, maxCovers: int)
    requires Admitted(url, page)
    ensures var mi := Assemble(url, page, relevance, maxCovers).value;
      (mi.hasCover <==> page.coverHrefs != [] && maxCovers > 0)
      && (mi.languages == ["hu"] <==> RecognisedCodes(mi.tags) == [])
      && (forall i :: 0 <= i < |mi.languages| ==> mi.languages[i] == "hu" || mi.languages[i] in LanguageCodes)
  {
    var mi := Assemble(url, page, relevance, maxCovers).value;
    var tags := ParseTags(page.tags).GetOr([]);
    assert mi.tags == tags && mi.languages == Languages(tags);
    assert mi.hasCover == ParseCovers(page.coverHrefs, maxCovers).Some?;
    LanguagesAreCodes(tags);
  }

  /** Every language recorded is `hu` or a code of the table. */
  lemma LanguagesAreCodes(tags: seq<string>)
    ensures forall i :: 0 <= i < |Languages(tags)| ==> Languages(tags)[i] == "hu" || Languages(tags)[i] in LanguageCodes
  {
    if RecognisedCodes(tags) != [] {
      assert Languages(tags) == RecognisedCodes(tags);
    }
  }

  /** Four digits are at most 9999. */
  lemma {:induction false} FourDigitsBound(s: string)
    requires AllDigits(s) && |s| <= 4
    ensures DigitsValue(s) < Pow10(|s|)
    ensures |s| == 4 ==> DigitsValue(s) <= 9999
    decreases |s|
  {
    if s != [] {
      FourDigitsBound(s[..|s| - 1]);
    }
  }

  function Pow10(n: nat): (p: nat)
    ensures p >= 1
  {
    if n == 0 then 1 else 10 * Pow10(n - 1)
  }

  /** A caption "(Name n.)" gives the series Name with index n. */
  lemma SeriesRecorded(url: string, page: BookPage, relevance: int, maxCovers: int, name: string, n: nat)
    requires Admitted(url, page)
    requires name != [] && name[0] !in SeriesTrim && name[|name| - 1] !in SeriesTrim
    requires page.seriesCaptions != [] && page.seriesCaptions[0] == "(" + name + " " + NatToString(n) + ".)"
    ensures var mi := Assemble(url, page, relevance, maxCovers).value;
      mi.series == Some(name) && mi.seriesIndex == Some(n)
  {
    SeriesFieldsOfLabel(page.seriesCaptions, name, n);
    var mi := Assemble(url, page, relevance, maxCovers).value;
    assert (mi.series, mi.seriesIndex) == SeriesFields(page.seriesCaptions);
  }

  /** The series fields read from a first caption "(Name n.)". */
  lemma SeriesFieldsOfLabel(captions: seq<string>, name: string, n: nat)
    requires name != [] && name[0] !in SeriesTrim && name[|name| - 1] !in SeriesTrim
    requires captions != [] && captions[0] == "(" + name + " " + NatToString(n) + ".)"
    ensures SeriesFields(captions) == (Some(name), Some(n))
  {
    SeriesLabelRoundTrip(name, n);
    assert ParseSeries(captions) == ParseSeries([captions[0]]);
  }

  /** A caption with no space left after trimming sets the series name but not
      its index: reading the index raises, and the raise is caught. */
  lemma SeriesWithoutIndex(url: string, page: BookPage, relevance: int, maxCovers: int)
    requires Admitted(url, page)
    requires page.seriesCaptions != [] && ' ' !in StripChars(page.seriesCaptions[0], SeriesTrim)
    ensures var mi := Assemble(url, page, relevance, maxCovers).value;
      mi.series == Some(StripChars(page.seriesCaptions[0], SeriesTrim)) && mi.seriesIndex.None?
  {
    SeriesLabelWithoutIndex(page.seriesCaptions[0]);
    assert ParseSeries(page.seriesCaptions) == ParseSeries([page.seriesCaptions[0]]);
  }

  /** The gate in terms of the page: a title text with a non-blank character,
      at least one author text, and a `/konyvek/` segment followed by a
      non-empty rest of its line. */
  lemma GateReadsPage(url: string, page: BookPage)
    ensures Admitted(url, page) <==>
      page.titles != [] && (exists i :: 0 <= i < |page.titles[0]| && !IsSpace(page.titles[0][i]))
      && page.authors != []
      && Contains(url, BookSegment) && ParseMolyId(url).value != ""
  {
  }

  /** A worker started on a book URL `identify` built records that identifier. */
  lemma BookUrlRecordsIdentifier(id: string, page: BookPage, relevance: int, maxCovers: int)
    requires '\n' !in id && id != ""
    requires Truthy(ParseTitle(page.titles)) && page.authors != []
    ensures Admitted(BookUrl + id, page)
    ensures Assemble(BookUrl + id, page, relevance, maxCovers).value.molyId == id
  {
    MolyIdOfBookUrl(id);
  }
}
