/**
  * The moly.hu metadata source itself: its site constants and preferences, the
  * Hungarian accent folding used by the match filter, the search-query builder,
  * and the two host caches it reads to find a cover without scraping.
  */
module MolyHu {
  import opened Wrappers
  import opened PyText
  import opened UrlQuote

  const BaseUrl: string := "https://moly.hu"
  const BookUrl: string := BaseUrl + "/konyvek/"
  const SearchUrl: string := BaseUrl + "/kereses?utf8=%E2%9C%93&q="

  /** Default of the `max_books` preference. */
  const DefaultMaxBooks: int := 3
  /** Default of the `max_covers` preference. */
  const DefaultMaxCovers: int := 5

  // ---------------------------------------------------------------------------
  // strip_accents
  // ---------------------------------------------------------------------------

  /** The 18 accented letters of the translation table, and their partners. */
  const AccentedLetters: string := "öÖüÜóÓőŐúÚéÉáÁűŰíÍ"
  const PlainLetters: string := "oOuUoOoOuUeEaAuUiI"

  /** The translation table of `strip_accents`, one character at a time. */
  function Unaccent(c: char): char {
    match c
    case 'ö' => 'o' case 'Ö' => 'O' case 'ü' => 'u' case 'Ü' => 'U'
    case 'ó' => 'o' case 'Ó' => 'O' case 'ő' => 'o' case 'Ő' => 'O'
    case 'ú' => 'u' case 'Ú' => 'U' case 'é' => 'e' case 'É' => 'E'
    case 'á' => 'a' case 'Á' => 'A' case 'ű' => 'u' case 'Ű' => 'U'
    case 'í' => 'i' case 'Í' => 'I'
    case _ => c
  }

  /** `s.translate(tr)` with the table above. */
  function Translate(s: string): (r: string)
    ensures |r| == |s|
    ensures forall i :: 0 <= i < |s| ==> r[i] == Unaccent(s[i])
    decreases |s|
  {
    if s == [] then [] else [Unaccent(s[0])] + Translate(s[1..])
  }

  /** `strip_accents(s)`: translate, then lower-case. Each character is folded
      on its own, so the length is kept. */
  function StripAccents(s: string): (r: string)
    ensures |r| == |s|
    ensures forall i :: 0 <= i < |s| ==> r[i] == LowerChar(Unaccent(s[i]))
  {
    Lower(Translate(s))
  }

  /** Each table letter folds to its partner, lower-cased. */
  lemma StripAccentsTable(k: nat)
    requires k < |AccentedLetters|
    ensures |PlainLetters| == |AccentedLetters|
    ensures StripAccents([AccentedLetters[k]]) == [LowerChar(PlainLetters[k])]
  {
    assert Unaccent(AccentedLetters[k]) == PlainLetters[k] by {
      if k < 6 {} else if k < 12 {} else {}
    }
  }

  /** Folding one character never yields a table letter. */
  lemma FoldedCharIsPlain(c: char)
    ensures LowerChar(Unaccent(c)) !in AccentedLetters
  {
    var f := LowerChar(Unaccent(c));
    if 'a' <= Unaccent(c) <= 'z' || 'A' <= Unaccent(c) <= 'Z' {
      assert 'a' <= f <= 'z';
    } else {
      assert Unaccent(c) == c;
    }
    forall k | 0 <= k < |AccentedLetters| ensures f != AccentedLetters[k] {
    }
  }

  /** `strip_accents` removes every letter of the table. */
  lemma StripAccentsRemovesAccents(s: string)
    ensures |StripAccents(s)| == |s|
    ensures forall i :: 0 <= i < |s| ==> StripAccents(s)[i] !in AccentedLetters
  {
    forall i | 0 <= i < |s| ensures StripAccents(s)[i] !in AccentedLetters {
      FoldedCharIsPlain(s[i]);
    }
  }

  /** Only the table letters are translated. */
  lemma UnaccentKeepsOthers(c: char)
    requires c !in AccentedLetters
    ensures Unaccent(c) == c
  {
  }

  /** A text without table letters is left as it is by the translation. */
  lemma TranslateKeepsPlain(s: string)
    requires forall i :: 0 <= i < |s| ==> s[i] !in AccentedLetters
    ensures Translate(s) == s
  {
    forall i | 0 <= i < |s| ensures Translate(s)[i] == s[i] {
      UnaccentKeepsOthers(s[i]);
    }
  }

  /** Applying `strip_accents` twice is applying it once. */
  lemma StripAccentsIdempotent(s: string)
    ensures StripAccents(StripAccents(s)) == StripAccents(s)
  {
    StripAccentsRemovesAccents(s);
    TranslateKeepsPlain(StripAccents(s));
    LowerIdempotent(Translate(s));
  }

  // ---------------------------------------------------------------------------
  // create_query
  // ---------------------------------------------------------------------------

  /** `create_query`: the search URL for the first author and the title, each
      UTF-8 encoded and percent-quoted; a missing one contributes nothing.
      An empty author list raises IndexError on `authors[0]`. */
  function CreateQuery(title: Option<string>, authors: Option<seq<string>>): (q: Outcome<string>)
    ensures q.Raised? <==> authors == Some([])
    ensures q.Ok? ==> SearchUrl <= q.value
    ensures q.Ok? && authors.None? ==> |q.value| > |SearchUrl| && q.value[|SearchUrl|] == '+'
    ensures q.Ok? && title.None? ==> q.value[|q.value| - 1] == '+'
  {
    var searchTitle := if title.Some? then Quote(title.value) else "";
    if authors.Some? && authors.value == [] then Raised(IndexError)
    else
      var searchAuthor := if authors.Some? then Quote(authors.value[0]) else "";
      Ok(SearchUrl + searchAuthor + "+" + searchTitle)
  }

  /** The query determines its inputs: after the fixed prefix it splits on `+`
      into exactly two fields, which percent-decode to the UTF-8 of the first
      author and of the title; a missing author or title gives an empty field. */
  lemma QueryRecoversInputs(title: Option<string>, authors: Option<seq<string>>)
    requires authors != Some([])
    ensures CreateQuery(title, authors).Ok?
    ensures var q := CreateQuery(title, authors).value;
      var fields := SplitOn(q[|SearchUrl|..], '+');
      |fields| == 2
      && Unquote(fields[0]) == Some(Encode(if authors.Some? then authors.value[0] else ""))
      && Unquote(fields[1]) == Some(Encode(title.GetOr("")))
  {
    var author := if authors.Some? then authors.value[0] else "";
    var a := Quote(author);
    var t := Quote(title.GetOr(""));
    assert Quote("") == "";
    var q := CreateQuery(title, authors).value;
    assert q[|SearchUrl|..] == a + ['+'] + t;
    QuoteBytesAlphabet(Encode(author));
    QuoteBytesAlphabet(Encode(title.GetOr("")));
    SplitAfterField(a, '+', t);
    SplitWithoutSep(t, '+');
    UnquoteQuote(author);
    UnquoteQuote(title.GetOr(""));
  }

  // ---------------------------------------------------------------------------
  // The plugin object: preferences and the host's caches
  // ---------------------------------------------------------------------------

  /** The metadata source object. Its two caches belong to the host and outlive
      one identify call; the model keeps them as maps. */
  class Plugin {
    var maxBooks: int
    var maxCovers: int
    var isbnToId: map<string, string>
    var idToCovers: map<string, Option<seq<string>>>

    constructor ()
      ensures maxBooks == DefaultMaxBooks && maxCovers == DefaultMaxCovers
      ensures isbnToId == map[] && idToCovers == map[]
    {
      maxBooks := DefaultMaxBooks;
      maxCovers := DefaultMaxCovers;
      isbnToId := map[];
      idToCovers := map[];
    }

    /** The host's `cache_isbn_to_identifier`. */
    method CacheIsbnToIdentifier(isbn: string, id: string)
      modifies this`isbnToId
      ensures isbnToId == old(isbnToId)[isbn := id]
    {
      isbnToId := isbnToId[isbn := id];
    }

    /** The host's `cache_identifier_to_cover_url`; a missing cover is stored too. */
    method CacheIdentifierToCoverUrl(id: string, covers: Option<seq<string>>)
      modifies this`idToCovers
      ensures idToCovers == old(idToCovers)[id := covers]
    {
      idToCovers := idToCovers[id := covers];
    }

    /** The host's `cached_identifier_to_cover_url`. */
    function CoversFor(id: string): Option<seq<string>>
      reads this
    {
      if id in idToCovers then idToCovers[id] else None
    }

    /** `get_cached_cover_url`: the `moly_hu` identifier when present, otherwise
        the id cached for a valid `isbn` identifier, is looked up in the cover
        cache. `checkIsbn` is the host's ISBN validator. */
    function CachedCoverUrl(identifiers: map<string, string>, checkIsbn: string -> Option<string>): (url: Option<seq<string>>)
      reads this
      ensures "moly_hu" in identifiers ==> url == CoversFor(identifiers["moly_hu"])
      ensures url.Some? ==> exists id :: id in idToCovers && idToCovers[id] == url
      ensures "moly_hu" !in identifiers && ("isbn" !in identifiers || checkIsbn(identifiers["isbn"]).None?)
        ==> url.None?
      ensures ("moly_hu" !in identifiers && "isbn" in identifiers && checkIsbn(identifiers["isbn"]).Some?
               && checkIsbn(identifiers["isbn"]).value !in isbnToId) ==> url.None?
      ensures ("moly_hu" !in identifiers && "isbn" in identifiers && checkIsbn(identifiers["isbn"]).Some?
               && checkIsbn(identifiers["isbn"]).value in isbnToId)
        ==> url == CoversFor(isbnToId[checkIsbn(identifiers["isbn"]).value])
    {
      var molyId :=
        if "moly_hu" in identifiers then Some(identifiers["moly_hu"])
        else
          var isbn := if "isbn" in identifiers then checkIsbn(identifiers["isbn"]) else None;
          if isbn.Some? && isbn.value in isbnToId then Some(isbnToId[isbn.value]) else None;
      if molyId.Some? then CoversFor(molyId.value) else None
    }
  }

  /** What a worker writes is what the cover lookup reads back: by the book's
      identifier, and by its ISBN once that is mapped to the identifier. */
  lemma CacheRoundTrip(plugin: Plugin, id: string, isbn: string, covers: Option<seq<string>>,
                       checkIsbn: string -> Option<string>)
    requires id in plugin.idToCovers && plugin.idToCovers[id] == covers
    requires isbn in plugin.isbnToId && plugin.isbnToId[isbn] == id && checkIsbn(isbn) == Some(isbn)
    ensures plugin.CachedCoverUrl(map["moly_hu" := id], checkIsbn) == covers
    ensures plugin.CachedCoverUrl(map["isbn" := isbn], checkIsbn) == covers
  {
  }
}
