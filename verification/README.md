# Moly_hu metadata source, modelled in Dafny

Moly_hu is a calibre metadata-source plugin for the Hungarian book site
moly.hu. Given a title, authors and identifiers, `identify` either uses a
known `moly_hu` identifier directly or sends one search query. It keeps the
search-result rows whose title and first author loosely match the ones wanted,
and starts one detail worker per candidate book URL, with a relevance equal to
its position. A worker scrapes its book page and fills a calibre metadata
record. It fills the title, authors, identifier, ISBN, series and index,
comments, cover flag, tags, languages, publisher, publication year, rating and
relevance. It also writes the plugin's two caches (ISBN to identifier,
identifier to cover links) and puts the record on the result queue.
`get_cached_cover_url` reads those caches back.

The project has one module per source concern:

- `Wrappers`: `Option`, and `Outcome` (a value or a raised Python exception).
- `PyText`: the Python 2 string built-ins the plugin calls: `lower`, `strip`,
  `find`/`in`, `split`, `rsplit(' ', 1)`, and `int()` on text.
- `UrlQuote`: `urllib.quote(s.encode('utf-8'))`, and percent-decoding as its
  partner.
- `MolyHu`: the site constants, `strip_accents` and `create_query`. It also
  holds the `Plugin` class: preferences, the host's two caches, and
  `get_cached_cover_url`.
- `MatchFilter`: `_parse_search_results`, in two forms. `ScanRows` is a
  function. `ParseSearchResults` is the nested loop, proved equal to it.
- `Orchestrator`: the decisions of `identify`. The search request is a
  function from query to response. The abort flag is a boolean.
- `Extract`: the `parse_*` helpers of the worker, over the node texts the XPath
  queries select. The two first-match loops are methods proved against
  `FirstFound`.
- `DetailWorker`: `parse_details`, as `Worker` and `ResultQueue` classes.
  `Assemble` is the record as a value. `Worker.ParseDetails` is the step-by-step
  procedure, proved to queue that record and to make exactly the cache writes.

Where the plugin's description and its code differ, the model follows the code:

- `int()` of a series index such as "2.5" raises ValueError. The index is left
  unset, while the series name stays set.
- The retry without identifiers can never find anything new. `create_query`
  ignores identifiers, and a truthy `moly_hu` identifier never reaches the
  search (`Orchestrator.RetryIsRedundant`).
- A known identifier starts a worker on its book URL without any request in
  `identify` itself.

## Model

| member | source | states |
|---|---|---|
| MolyHu.StripAccents | __init__.py:182-188 | keeps the length, and each character is translated by the accent table and then lower-cased, one for one |
| MolyHu.StripAccentsTable | __init__.py:182-188 | each of the 18 accented letters folds to its unaccented partner, lower-cased |
| MolyHu.StripAccentsRemovesAccents | __init__.py:182-188 | the result has the input's length and contains none of the 18 accented letters |
| MolyHu.StripAccentsIdempotent | __init__.py:182-188 | folding twice is folding once |
| MolyHu.CreateQuery | __init__.py:48-61 | raises IndexError exactly when the author list is empty; otherwise the query starts with the search URL; a missing author leaves the field before `+` empty, a missing title the field after it |
| MolyHu.QueryRecoversInputs | __init__.py:48-61 | whenever the author list is not empty, the query is built, and after the search prefix it splits on `+` into exactly two fields; they decode to the UTF-8 bytes of the first author and of the title, or to nothing for a missing one |
| UrlQuote.UnquoteQuote | __init__.py:50-55 | percent-decoding a quoted text gives back its UTF-8 encoding |
| UrlQuote.QuoteBytesAlphabet | __init__.py:50-55 | a quoted text holds only unreserved characters, `%` and hex digits, so never `+`, `&` or a space |
| MolyHu.Plugin.constructor | __init__.py:35-42 | preferences start at 3 books and 5 covers, and both caches start empty |
| MolyHu.Plugin.CachedCoverUrl | __init__.py:62-71 | a `moly_hu` identifier is looked up directly in the cover cache; otherwise a valid ISBN that the ISBN cache holds gives the cover links cached for the identifier it maps to; anything returned was stored in the cover cache; no identifier, no valid ISBN or an uncached ISBN gives None |
| MolyHu.Plugin.CacheIsbnToIdentifier | worker.py:163-164 | the ISBN cache maps the ISBN to the identifier, and nothing else changes |
| MolyHu.Plugin.CacheIdentifierToCoverUrl | worker.py:122-125 | the cover cache maps the identifier to the cover links (a missing cover too), and nothing else changes |
| MolyHu.CacheRoundTrip | __init__.py:62-71 | what a worker cached is what the cover lookup returns, by identifier and by ISBN |
| MatchFilter.SplitAuthorTitle | __init__.py:155-158 | raises IndexError exactly when the row text has no colon |
| MatchFilter.RowVerdict | __init__.py:155-171 | a row raises exactly when it has no colon (IndexError) or no title was given (AttributeError from folding None); an accepted row passes the title test and the first-author test |
| MatchFilter.SkipWhenTestFails | __init__.py:161-171 | a well-formed row is skipped exactly when a given title or a given first author fails its loose test |
| MatchFilter.SwappedName | __init__.py:165-169 | a name without a space is kept as it is (the swapped forms are stated by the two lemmas below) |
| MatchFilter.SwappedTwoNames | __init__.py:166-169 | "Given Family" swaps to "Family Given", and swapping twice gives the name back |
| MatchFilter.SwappedDropsLaterNames | __init__.py:166-169 | only the first two names take part: "A B C" swaps to "B A" |
| MatchFilter.SwappedAuthorAccepted | __init__.py:164-171 | a wanted "Given Family" matches a row author "Family Given" |
| MatchFilter.LooselyInIsFolded | __init__.py:162 | the lower-case test adds nothing: a text is loosely in another exactly when its folding is a substring of the other's folding |
| MatchFilter.VerdictIgnoresCaseAndAccents | __init__.py:161-163 | two wanted titles with the same folding select the same rows |
| MatchFilter.ParseSearchResults | __init__.py:147-180 | the nested loop returns the list and the way it stopped that the scan specification gives |
| MatchFilter.Feed | __init__.py:173-180 | the counter grows by the number of links appended; the feeding stops early only once the counter reaches `max_books`, and a feeding that used every link ended below it |
| MatchFilter.FeedSpec | __init__.py:173-180 | one row's links extend the list by a prefix of them without duplicates, the counter counts what was added, and the cap is respected |
| MatchFilter.ScanRows | __init__.py:150-180 | the scan of the rows as a value; its properties are stated by `ScanIsFeed`, `ScanCounts` and `SearchResultsContract` |
| MatchFilter.ScanCounts | __init__.py:151-180 | over the whole scan the counter counts the links added, and a scan stopped by the cap has reached `max_books` |
| MatchFilter.ScanIsFeed | __init__.py:150-180 | scanning the rows is feeding the accepted rows' links, in order, up to the first row that raises |
| MatchFilter.SearchResultsContract | __init__.py:147-180 | the list only grows at its end; it has no duplicates; it holds a prefix of the accepted links; it holds all of them when the scan ran out; at most `max_books` are added (one when that is not positive) |
| MatchFilter.CandidateIsOnSite | __init__.py:173-174 | every candidate URL starts with the site base |
| Orchestrator.JobsFor | __init__.py:126-128 | one job per match, in order, each with the match's index as relevance |
| Orchestrator.Identify | __init__.py:73-128 | at most two queries are sent; workers start only when not aborted, and then at least one |
| Orchestrator.DirectIdSkipsSearch | __init__.py:83-84 | a truthy `moly_hu` identifier sends no query and starts one worker on its book URL unless aborted |
| Orchestrator.QueriesSent | __init__.py:86-89 | a failing query build raises IndexError before any request; otherwise every query sent is the one built from title and first author |
| Orchestrator.RetryCondition | __init__.py:117-121 | the second query is sent exactly when the first search completed without matches or abort and identifiers, title and authors are all given |
| Orchestrator.RetryIsRedundant | __init__.py:117-121 | the identifiers other than `moly_hu` do not change the outcome |
| Orchestrator.SearchJobsRanked | __init__.py:126-128 | the jobs from one search have relevance equal to their index, site URLs, no duplicates, and at most `max_books` of them |
| Orchestrator.JobsAreRanked | __init__.py:83-128 | every set of workers `identify` starts is non-empty, ranked by index, on the site, without duplicate URLs and capped by `max_books` |
| Extract.ParseMolyId | worker.py:170-176 | None exactly when the URL lacks `/konyvek/`; otherwise the identifier is the text after the first such segment up to the first newline or the end of the URL |
| Extract.MolyIdOfBookUrl | worker.py:170-176 | the identifier is read back from a book URL built from it |
| Extract.IsbnIn | worker.py:182-184 | None exactly when the text has no run of ten digits; otherwise ten or thirteen digits of the text |
| Extract.IsbnIsLeftmostRun | worker.py:182-184 | the match starts at the leftmost ten-digit run and takes thirteen digits when there are |
| Extract.ParseIsbn | worker.py:178-187 | the loop returns the first text's match, scanning in order |
| Extract.ParsePublishedYear | worker.py:227-237 | the loop returns the leftmost four-digit run of the first text that has one |
| Extract.YearIn | worker.py:231 | None exactly when the text has no four digits in a row; otherwise four digits of the text |
| Extract.YearIsLeftmostRun | worker.py:231 | the match is the leftmost run of four digits |
| Extract.ParseSeries | worker.py:195-200 | None exactly when there is no caption; otherwise one or two fields that join back to the trimmed caption, the last without a space |
| Extract.SeriesIndex | worker.py:111 | raises IndexError without a second field; otherwise succeeds exactly when the field reads as an integer, with that integer as the index, else ValueError |
| Extract.SeriesLabelRoundTrip | worker.py:108-111 | a caption "(Name n.)" gives the fields Name and n, and the index n |
| Extract.SeriesLabelWithoutIndex | worker.py:108-111 | a caption without an inner space gives one field, and reading the index raises IndexError |
| Extract.RoundedRating | worker.py:249 | the stars are the percentage times 0.05, rounded to nearest with halves away from zero |
| Extract.RatingBounds | worker.py:249 | a percentage from 0 to 100 gives 0 to 5 stars |
| Extract.RatingExamples | worker.py:249 | 0%, 49%, 50%, 80%, 100% and -10% give 0, 2, 3, 4, 5 and -1 stars |
| Extract.ParseRating | worker.py:245-249 | no node gives None; otherwise it succeeds exactly when the text, with `%` and then white space stripped, reads as an integer, and the result is within half a star of it; a failure is ValueError |
| Extract.ParseCovers | worker.py:251-255 | None exactly when there is no link or the limit is not positive; otherwise the first `max_covers` links, each prefixed with the site base |
| Extract.HuIsNoLanguageCode | worker.py:264-265 | the fallback "hu" is not a code the table yields |
| Extract.TranslateLanguageToCode | worker.py:269-282 | an empty tag gives "und"; otherwise a code exactly when the lower-cased, stripped tag is one of the ten table keys, and the code is the table's value for that key |
| Extract.LanguageIgnoresCase | worker.py:270 | the lookup ignores case |
| Extract.LanguageIgnoresPadding | worker.py:270 | the lookup ignores surrounding white space |
| Extract.RecognisedCodesAppend | worker.py:257-263 | the recognised codes of two tag lists are those of each, concatenated |
| Extract.Languages | worker.py:257-267 | never empty; exactly `['hu']` when no tag is recognised; otherwise the recognised codes in tag order |
| Extract.ParseLanguages | worker.py:257-267 | the loop returns the languages of the tags |
| Extract.ParseTitle | worker.py:189-193 | None exactly when there is no title node; otherwise the first node stripped of surrounding white space, empty exactly when that node is all white space |
| Extract.ParseAuthors | worker.py:202-206 | None exactly when there is no author node; otherwise all of them |
| Extract.ParseTags | worker.py:208-212 | None exactly when every tag is blank; otherwise the non-blank tags |
| Extract.JoinLinesSplit | worker.py:219-220 | paragraphs without newlines are recovered by splitting the comments on newlines |
| Extract.ParseComments | worker.py:214-220 | the full description's paragraphs when there are, otherwise any description's, joined by newlines; None when neither exists |
| Extract.ParsePublisher | worker.py:222-225 | None exactly when there is no publisher node; otherwise the first |
| PyText.RSplitAtLast | worker.py:200 | `rsplit(' ', 1)` splits at the last space |
| PyText.JoinSplit | worker.py:200 | splitting and joining on a separator gives the text back |
| PyText.ParseIntRoundTrip | worker.py:111 | `int()` reads back the decimal text of every integer |
| DetailWorker.Admitted | worker.py:90 | the gate: a truthy title, a non-empty author list and a truthy identifier (read in terms of the page by `GateReadsPage`) |
| DetailWorker.GateReadsPage | worker.py:68-93 | a page passes the gate exactly when its first title text has a non-blank character, it has an author text, and the URL has a `/konyvek/` segment followed by a non-empty rest of line |
| DetailWorker.SeriesFields | worker.py:107-114 | the series name is set exactly when there is a caption; the index only together with it |
| DetailWorker.YearValue | worker.py:148-152 | no year, or year 0, which the date parser rejects, leaves the date unset; otherwise the year is at least 1 |
| DetailWorker.RatingField | worker.py:154-158 | the rating is set exactly when a node exists and its text reads as an integer percentage, and it is within half a star of that percentage |
| DetailWorker.Assemble | worker.py:68-168 | a record exactly when title, authors and identifier are present; it carries them, the worker's relevance, and at least one language |
| DetailWorker.FillRecord | worker.py:95-161 | the fields set one by one, in the worker's order, make the record `Assemble` gives |
| DetailWorker.ResultQueue.Put | worker.py:168 | the record is appended to the queue |
| DetailWorker.Worker.constructor | worker.py:28-36 | the worker keeps its URL and relevance, reads `max_covers` from the preferences, and starts with no identifier, ISBN or cover links |
| DetailWorker.Worker.CacheIsbn | worker.py:163-164 | the ISBN cache maps the worker's ISBN to its identifier when both are truthy, and is unchanged otherwise |
| DetailWorker.Worker.UpdateState | worker.py:95-164 | the worker remembers the identifier, the ISBN when one was found and the cover links; the cover cache maps the identifier to those links; the ISBN cache maps the worker's ISBN to the identifier when it has one |
| DetailWorker.Worker.ParseDetails | worker.py:68-168 | a page without title, authors or identifier changes nothing; otherwise exactly the `Assemble` record is queued and exactly the two cache writes above are made |
| DetailWorker.RecordedIsbn | worker.py:99-103 | the record's ISBN is ten or thirteen digits found in one of the ISBN texts, and is absent exactly when no text has ten digits in a row |
| DetailWorker.RecordedYear | worker.py:148-152 | the record's year is the value of the first four-digit run, from 1 to 9999; it is absent exactly when no text has four digits in a row or that run is "0000" |
| DetailWorker.LanguagesAreCodes | worker.py:257-267 | every recorded language is `hu` or a value of the language table |
| DetailWorker.RecordedCoverAndLanguages | worker.py:122-140 | the cover flag says whether a cover link was kept; the languages are `['hu']` exactly when no tag is recognised, and are otherwise table codes |
| DetailWorker.SeriesFieldsOfLabel | worker.py:107-111 | a first caption "(Name n.)" gives the series Name and the index n |
| DetailWorker.SeriesRecorded | worker.py:107-112 | a caption "(Name n.)" records series Name with index n |
| DetailWorker.SeriesWithoutIndex | worker.py:107-114 | a caption without an inner space records the series name but no index |
| DetailWorker.BookUrlRecordsIdentifier | worker.py:170-176 | a worker on the book URL `identify` built for an identifier passes the gate when the page has a title and authors, and records that identifier |

## Left out

- Threads, `time.sleep` and the polling loop that waits for the workers are not modelled. The abort flag is one boolean, read after the search. The workers are the list of jobs started.
- HTTP is not modelled: the browser, `open`, `read`, UTF-8 decoding and `clean_ascii_chars`. The search response is a function from the query to a result kind or the page's rows. A worker's page is the node texts its XPath queries select.
- lxml parsing and XPath are not modelled. The model takes the selected node texts and `href` values as given, in document order. `result.text` being None for a link without text is not modelled.
- Orchestrator.Identify: the 404 branch of the search request logs a name that is not defined there, so it raises NameError. The model returns `Threw(NameError)` and does not model the log text.
- The worker's fetch step (`get_details`, worker.py:44-66) is not modelled. Its empty-page branch logs an undefined name; the NameError is caught by the `except Exception` of `get_details` itself, which logs a failed details query and returns, so no record is queued.
- The worker's `parse_published_date` hands the four digits to the date parser, with today's date as the default for month and day. Only the year is modelled (`pubYear`). A first run of "0000" leaves the date unset, because the parser rejects year 0. The clock and time zone are not modelled, so neither is the parse that fails when today is 29 February and the year is not a leap year.
- ParseRating: `float()` also accepts texts like "85.5"; the model reads only integer percentages and treats anything else as ValueError.
- PyText.ParseInt: Unicode digits outside ASCII, which Python's `int()` accepts, are not modelled.
- `lower()` is modelled for ASCII, Latin-1 and the Latin Extended-A capitals (with U+0130 lowering to a plain `i`, as Python 2's simple case mapping does); other scripts are left unchanged.
- calibre's `Metadata` is reduced to the fields the worker sets. A `tags` value of None is stored as an empty list by calibre, and the model uses that list.
- `clean_downloaded_metadata`, `check_isbn`, `identify_results_keygen`, `download_cover` and `get_image_urls` are calibre host code or cover downloading, outside this model. `check_isbn` is a function parameter of `CachedCoverUrl`.
- Logging is not modelled.
