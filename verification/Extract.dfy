/**
  * The field extractors of the detail worker. Each takes the texts (or `href`
  * values) its XPath selects on the book page, in document order, and returns
  * the field value, `None` when the page has none, or the exception Python
  * raises. The two extractors that loop with `break` are methods proved equal
  * to the first-match function they implement; so is the language loop.
  */
module Extract {
  import opened Wrappers
  import opened PyText
  import opened MolyHu

  // ---------------------------------------------------------------------------
  // parse_moly_id
  // ---------------------------------------------------------------------------

  /** The literal part of the pattern `/konyvek/(.*)`. */
  const BookSegment: string := "/konyvek/"

  /** What `(.*)` captures: the longest prefix without a newline. */
  function UpToNewline(s: string): (r: string)
    ensures r <= s && '\n' !in r
    ensures |r| < |s| ==> s[|r|] == '\n'
    decreases |s|
  {
    if s == [] || s[0] == '\n' then [] else [s[0]] + UpToNewline(s[1..])
  }

  /** `parse_moly_id`: the text after the first `/konyvek/` up to the end of the
      line, or None when the URL has no such segment. */
  function ParseMolyId(url: string): (id: Option<string>)
    ensures id.None? <==> !Contains(url, BookSegment)
    ensures id.Some? ==> '\n' !in id.value && Contains(url, BookSegment + id.value)
    ensures id.Some? ==> IdAfterFirstSegment(url, id.value)
  {
    match IndexOf(url, BookSegment)
    case None => None
    case Some(k) =>
      SegmentThenLine(url, k);
      Some(UpToNewline(url[k + |BookSegment|..]))
  }

  /** `id` follows the first `/konyvek/` of the URL and runs to the end of the
      URL or to a newline. */
  predicate IdAfterFirstSegment(url: string, id: string) {
    match IndexOf(url, BookSegment)
    case None => false
    case Some(k) => LineAt(url, k + |BookSegment|, id)
  }

  /** `id` starts at `start` and runs to the end of the URL or to a newline. */
  predicate LineAt(url: string, start: nat, id: string) {
    start + |id| <= |url| && url[start..start + |id|] == id
    && (start + |id| == |url| || url[start + |id|] == '\n')
  }

  /** The segment at `k` followed by the rest of its line. */
  lemma SegmentThenLine(url: string, k: nat)
    requires k + |BookSegment| <= |url| && BookSegment <= url[k..]
    ensures var id := UpToNewline(url[k + |BookSegment|..]);
      LineAt(url, k + |BookSegment|, id) && Contains(url, BookSegment + id)
  {
    var start := k + |BookSegment|;
    var rest := url[start..];
    var id := UpToNewline(rest);
    RestOfLine(url, start);
    assert url[k..start] == BookSegment;
    assert BookSegment + id <= url[k..];
    ContainsAt(url, BookSegment + id, k);
  }

  /** The rest of the line from `start` on. */
  lemma RestOfLine(url: string, start: nat)
    requires start <= |url|
    ensures LineAt(url, start, UpToNewline(url[start..]))
  {
    var rest := url[start..];
    var id := UpToNewline(rest);
    assert url[start..start + |id|] == rest[..|id|];
    assert start + |id| < |url| ==> url[start + |id|] == rest[|id|];
  }

  /** The segment cannot start inside the site base: no `/` there is followed by `k`. */
  lemma NoSegmentInBase(j: nat)
    requires j < |BaseUrl|
    ensures |BookUrl| == |BaseUrl| + |BookSegment|
    ensures BookUrl[j] != '/' || BookUrl[j + 1] != 'k'
  {
    assert BookUrl == "https://moly.hu/konyvek/";
  }

  lemma NoEarlySegment(id: string, j: nat)
    requires j < |BaseUrl|
    ensures !(BookSegment <= (BookUrl + id)[j..])
  {
    NoSegmentInBase(j);
    assert (BookUrl + id)[j] == BookUrl[j] && (BookUrl + id)[j + 1] == BookUrl[j + 1];
  }

  /** The book URLs `identify` builds are read back by `parse_moly_id`: the
      identifier after `BOOK_URL`, when it is one line. */
  lemma MolyIdOfBookUrl(id: string)
    requires '\n' !in id
    ensures ParseMolyId(BookUrl + id) == Some(id)
  {
    var url := BookUrl + id;
    var base := |BaseUrl|;
    assert BookSegment <= url[base..];
    ContainsAt(url, BookSegment, base);
    var k := IndexOf(url, BookSegment).value;
    assert k == base by {
      if k < base {
        NoEarlySegment(id, k);
      }
    }
    assert url[k + |BookSegment|..] == id;
    assert UpToNewline(id) == id;
  }

  // ---------------------------------------------------------------------------
  // Digit runs: `(\d{13}|\d{10})` and `(\d{4})`
  // ---------------------------------------------------------------------------

  /** `n` digits start at position `p`. */
  predicate RunAt(s: string, p: nat, n: nat) {
    p + n <= |s| && AllDigits(s[p..p + n])
  }

  /** The leftmost position from `from` on where `n` digits start. */
  function FirstRunStart(s: string, n: nat, from: nat): (p: Option<nat>)
    ensures p.Some? ==> from <= p.value && RunAt(s, p.value, n)
    ensures p.Some? ==> forall q: nat :: from <= q < p.value ==> !RunAt(s, q, n)
    ensures p.None? ==> forall q: nat :: from <= q ==> !RunAt(s, q, n)
    decreases |s| - from
  {
    if from + n > |s| then None
    else if RunAt(s, from, n) then Some(from)
    else FirstRunStart(s, n, from + 1)
  }

  /** `re.search('(\d{13}|\d{10})', s).group(1)`: the search stops at the
      leftmost position where either alternative matches, and there tries
      thirteen digits before ten. Thirteen digits start with ten, so that
      position is the leftmost run of ten. */
  function IsbnIn(s: string): (isbn: Option<string>)
    ensures isbn.None? <==> forall q: nat :: !RunAt(s, q, 10)
    ensures isbn.Some? ==> AllDigits(isbn.value) && (|isbn.value| == 13 || |isbn.value| == 10)
                           && Contains(s, isbn.value)
  {
    match FirstRunStart(s, 10, 0)
    case None => None
    case Some(p) =>
      if RunAt(s, p, 13) then
        assert s[p..p + 13] <= s[p..];
        ContainsAt(s, s[p..p + 13], p);
        Some(s[p..p + 13])
      else
        assert s[p..p + 10] <= s[p..];
        ContainsAt(s, s[p..p + 10], p);
        Some(s[p..p + 10])
  }

  /** The ISBN found is the one at the leftmost run of ten digits: thirteen
      digits when thirteen start there, else ten. */
  lemma IsbnIsLeftmostRun(s: string, p: nat)
    requires RunAt(s, p, 10)
    requires forall q: nat :: q < p ==> !RunAt(s, q, 10)
    ensures IsbnIn(s) == Some(if RunAt(s, p, 13) then s[p..p + 13] else s[p..p + 10])
  {
    var r := FirstRunStart(s, 10, 0);
    assert r.Some? && r.value == p;
  }

  /** `re.search('(\d{4})', s).group(1)`: four digits in a row, taken at the
      leftmost position where they occur (see `YearIsLeftmostRun`). */
  function YearIn(s: string): (year: Option<string>)
    ensures year.None? <==> forall q: nat :: !RunAt(s, q, 4)
    ensures year.Some? ==> |year.value| == 4 && AllDigits(year.value) && Contains(s, year.value)
  {
    match FirstRunStart(s, 4, 0)
    case None => None
    case Some(p) =>
      assert s[p..p + 4] <= s[p..];
      ContainsAt(s, s[p..p + 4], p);
      Some(s[p..p + 4])
  }

  /** The year found is the run of four digits that starts leftmost. */
  lemma YearIsLeftmostRun(s: string, p: nat)
    requires RunAt(s, p, 4)
    requires forall q: nat :: q < p ==> !RunAt(s, q, 4)
    ensures YearIn(s) == Some(s[p..p + 4])
  {
    var r := FirstRunStart(s, 4, 0);
    assert r.Some? && r.value == p;
  }

  /** What scanning the nodes in order and stopping at the first match finds. */
  function FirstFound(nodes: seq<string>, find: string -> Option<string>): (r: Option<string>)
    ensures r.None? <==> forall k :: 0 <= k < |nodes| ==> find(nodes[k]).None?
    ensures r.Some? ==>
      exists k :: 0 <= k < |nodes| && find(nodes[k]) == r && forall j :: 0 <= j < k ==> find(nodes[j]).None?
    decreases |nodes|
  {
    if nodes == [] then None
    else if find(nodes[0]).Some? then find(nodes[0])
    else
      var r := FirstFound(nodes[1..], find);
      FoundAfterHead(nodes, find, r);
      r
  }

  /** A find in the tail after a head without one is a first find in the list. */
  lemma FoundAfterHead(nodes: seq<string>, find: string -> Option<string>, r: Option<string>)
    requires nodes != [] && find(nodes[0]).None?
    requires r.Some? ==>
      exists k :: 0 <= k < |nodes[1..]| && find(nodes[1..][k]) == r && forall j :: 0 <= j < k ==> find(nodes[1..][j]).None?
    ensures forall k :: 1 <= k < |nodes| ==> nodes[k] == nodes[1..][k - 1]
    ensures r.Some? ==>
      exists k :: 0 <= k < |nodes| && find(nodes[k]) == r && forall j :: 0 <= j < k ==> find(nodes[j]).None?
  {
    if r.Some? {
      var k :| 0 <= k < |nodes[1..]| && find(nodes[1..][k]) == r
               && forall j :: 0 <= j < k ==> find(nodes[1..][j]).None?;
      assert find(nodes[k + 1]) == r;
      assert forall j :: 1 <= j < k + 1 ==> nodes[j] == nodes[1..][j - 1];
    }
  }

  /** `parse_isbn`: the first node with a run of ten or thirteen digits gives
      the ISBN. */
  method ParseIsbn(nodes: seq<string>) returns (isbn: Option<string>)
    ensures isbn == FirstFound(nodes, IsbnIn)
  {
    isbn := None;
    var k := 0;
    while k < |nodes|
      invariant 0 <= k <= |nodes|
      invariant FirstFound(nodes[k..], IsbnIn) == FirstFound(nodes, IsbnIn)
    {
      assert nodes[k..][0] == nodes[k] && nodes[k..][1..] == nodes[k + 1..];
      var m := IsbnIn(nodes[k]);
      if m.Some? {
        isbn := m;
        break;
      }
      k := k + 1;
    }
  }

  /** The year search of `parse_published_date`: the first node with four
      digits in a row gives the year. */
  method ParsePublishedYear(nodes: seq<string>) returns (year: Option<string>)
    ensures year == FirstFound(nodes, YearIn)
  {
    year := None;
    var k := 0;
    while k < |nodes|
      invariant 0 <= k <= |nodes|
      invariant FirstFound(nodes[k..], YearIn) == FirstFound(nodes, YearIn)
    {
      assert nodes[k..][0] == nodes[k] && nodes[k..][1..] == nodes[k + 1..];
      var m := YearIn(nodes[k]);
      if m.Some? {
        year := m;
        break;
      }
      k := k + 1;
    }
  }

  // ---------------------------------------------------------------------------
  // parse_series
  // ---------------------------------------------------------------------------

  /** The characters `strip('().')` removes. */
  const SeriesTrim: set<char> := {'(', ')', '.'}

  /** `parse_series`: the first series text, trimmed of brackets and dots at
      both ends and cut at its last space into name and index. */
  function ParseSeries(nodes: seq<string>): (parts: Option<seq<string>>)
    ensures parts.None? <==> nodes == []
    ensures parts.Some? ==> 1 <= |parts.value| <= 2
    ensures parts.Some? ==> Join(parts.value, ' ') == StripChars(nodes[0], SeriesTrim)
    ensures parts.Some? ==> ' ' !in parts.value[|parts.value| - 1]
    ensures parts.Some? ==> (|parts.value| == 1 <==> ' ' !in StripChars(nodes[0], SeriesTrim))
  {
    if nodes == [] then None else Some(RSplitOnce(StripChars(nodes[0], SeriesTrim), ' '))
  }

  /** `int(series_info[1])`: a label without a space has no index field. */
  function SeriesIndex(parts: seq<string>): (index: Outcome<int>)
    ensures |parts| < 2 ==> index == Raised(IndexError)
    ensures |parts| >= 2 ==> (index.Ok? <==> ParseInt(parts[1]).Some?)
    ensures index.Raised? && |parts| >= 2 ==> index.error == ValueError
    ensures index.Ok? ==> |parts| >= 2 && ParseInt(parts[1]) == Some(index.value)
  {
    if |parts| < 2 then Raised(IndexError)
    else match ParseInt(parts[1])
      case None => Raised(ValueError)
      case Some(n) => Ok(n)
  }

  /** Trimming "(x.)" gives x back when x neither starts nor ends with a
      bracket or a dot. */
  lemma TrimSeriesCaption(x: string)
    requires x != [] && x[0] !in SeriesTrim && x[|x| - 1] !in SeriesTrim
    ensures StripChars("(" + x + ".)", SeriesTrim) == x
  {
    StripPadded("(", x, ".)", c => c in SeriesTrim);
  }

  /** A number's digits hold no space and do not end in a bracket or a dot. */
  lemma NumberCaptionField(n: nat)
    ensures ' ' !in NatToString(n)
    ensures NatToString(n)[|NatToString(n)| - 1] !in SeriesTrim
  {
    var index := NatToString(n);
    assert IsDigit(index[|index| - 1]);
    forall i | 0 <= i < |index| ensures index[i] != ' ' { assert IsDigit(index[i]); }
  }

  /** A caption "(Name n.)" gives the name and the number back. */
  lemma SeriesLabelRoundTrip(name: string, n: nat)
    requires name != [] && name[0] !in SeriesTrim && name[|name| - 1] !in SeriesTrim
    ensures var parts := ParseSeries(["(" + name + " " + NatToString(n) + ".)"]);
      parts == Some([name, NatToString(n)]) && SeriesIndex(parts.value) == Ok(n)
  {
    var index := NatToString(n);
    var x := name + [' '] + index;
    NumberCaptionField(n);
    assert x[|x| - 1] == index[|index| - 1];
    var caption := "(" + name + " " + index + ".)";
    assert caption == "(" + x + ".)";
    TrimSeriesCaption(x);
    assert StripChars(caption, SeriesTrim) == x;
    RSplitAtLast(name, ' ', index);
    assert ParseSeries([caption]) == Some([name, index]);
    ParseIntRoundTrip(n);
    assert IntToString(n) == index;
    assert ParseInt(index) == Some(n);
  }

  /** A label with no space left after trimming has no index: the name is
      the whole label and reading the index raises IndexError. */
  lemma SeriesLabelWithoutIndex(caption: string)
    requires ' ' !in StripChars(caption, SeriesTrim)
    ensures ParseSeries([caption]) == Some([StripChars(caption, SeriesTrim)])
    ensures SeriesIndex(ParseSeries([caption]).value) == Raised(IndexError)
  {
  }

  // ---------------------------------------------------------------------------
  // parse_rating
  // ---------------------------------------------------------------------------

  /** `round(p * 0.05)` with Python 2's rounding, half away from zero, on an
      integer percentage. */
  function RoundedRating(p: int): (r: int)
    ensures -10 <= p - 20 * r <= 10
    ensures p - 20 * r == 10 ==> p < 0
    ensures p - 20 * r == -10 ==> p > 0
  {
    if p >= 0 then (p + 10) / 20 else -((10 - p) / 20)
  }

  /** The ratings a percentage can give: 0 to 100 lands in 0 to 5. */
  lemma RatingBounds(p: int)
    requires 0 <= p <= 100
    ensures 0 <= RoundedRating(p) <= 5
  {
  }

  lemma RatingExamples()
    ensures RoundedRating(0) == 0 && RoundedRating(80) == 4 && RoundedRating(100) == 5
    ensures RoundedRating(50) == 3 && RoundedRating(49) == 2 && RoundedRating(-10) == -1
  {
  }

  /** `parse_rating`: the first like-count text, `%` trimmed and then blanks,
      read as a number and scaled to five stars. */
  function ParseRating(nodes: seq<string>): (rating: Outcome<Option<int>>)
    ensures nodes == [] ==> rating == Ok(None)
    ensures nodes != [] ==> (rating.Ok? <==> ParseInt(StripSpace(StripChars(nodes[0], {'%'}))).Some?)
    ensures nodes != [] && rating.Ok? ==>
      var p := ParseInt(StripSpace(StripChars(nodes[0], {'%'})));
      rating.value.Some? && p.Some? && -10 <= p.value - 20 * rating.value.value <= 10
    ensures rating.Raised? ==> rating.error == ValueError
  {
    if nodes == [] then Ok(None)
    else match ParseInt(StripSpace(StripChars(nodes[0], {'%'})))
      case None => Raised(ValueError)
      case Some(p) => Ok(Some(RoundedRating(p)))
  }

  // ---------------------------------------------------------------------------
  // parse_covers
  // ---------------------------------------------------------------------------

  /** `parse_covers`: the first `max_covers` cover links, each prefixed with
      the site base, or None when there are none. */
  function ParseCovers(hrefs: seq<string>, maxCovers: int): (covers: Option<seq<string>>)
    ensures covers.None? <==> hrefs == [] || maxCovers <= 0
    ensures covers.Some? ==> |covers.value| == (if |hrefs| < maxCovers then |hrefs| else maxCovers)
    ensures covers.Some? ==> forall i :: 0 <= i < |covers.value| ==> covers.value[i] == BaseUrl + hrefs[i]
  {
    var n := if maxCovers <= 0 then 0 else if |hrefs| < maxCovers then |hrefs| else maxCovers;
    if n == 0 then None else Some(seq(n, i requires 0 <= i < n => BaseUrl + hrefs[i]))
  }

  // ---------------------------------------------------------------------------
  // parse_languages and _translateLanguageToCode
  // ---------------------------------------------------------------------------

  /** The ten language tags the plugin recognises. */
  const LanguageTable: map<string, string> := map[
    "angol nyelvű" := "en", "német nyelvű" := "de", "francia nyelvű" := "fr",
    "olasz nyelvű" := "it", "spanyol nyelvű" := "es", "orosz nyelvű" := "ru",
    "török nyelvű" := "tr", "görög nyelvű" := "gr", "kínai nyelvű" := "cn",
    "japán nyelvű" := "jp"]

  /** Every code `_translateLanguageToCode` can give. */
  const LanguageCodes: set<string> := LanguageTable.Values + {"und"}

  /** No tag is translated to "hu", the default. */
  lemma HuIsNoLanguageCode()
    ensures "hu" !in LanguageCodes
  {
    forall key | key in LanguageTable ensures LanguageTable[key] != "hu" {
    }
  }

  /** `_translateLanguageToCode`: an empty tag is "und"; any other tag is
      lower-cased, trimmed and looked up in the table. */
  function TranslateLanguageToCode(tag: string): (code: Option<string>)
    ensures tag == "" ==> code == Some("und")
    ensures tag != "" ==> (code.Some? <==> StripSpace(Lower(tag)) in LanguageTable)
    ensures code.Some? ==> code.value in LanguageCodes
    ensures tag != "" && code.Some? ==> code.value == LanguageTable[StripSpace(Lower(tag))]
  {
    if tag == "" then Some("und")
    else
      var key := StripSpace(Lower(tag));
      if key in LanguageTable then Some(LanguageTable[key]) else None
  }

  /** The lookup does not see case. */
  lemma LanguageIgnoresCase(tag: string)
    ensures TranslateLanguageToCode(Lower(tag)) == TranslateLanguageToCode(tag)
  {
    LowerIdempotent(tag);
  }

  /** Lower-casing keeps blanks blank and other characters non-blank. */
  lemma LowerKeepsSpace(c: char)
    ensures IsSpace(LowerChar(c)) <==> IsSpace(c)
    ensures IsSpace(c) ==> LowerChar(c) == c
  {
  }

  /** The lookup does not see blanks around the tag. */
  lemma LanguageIgnoresPadding(pre: string, tag: string, post: string)
    requires forall i :: 0 <= i < |pre| ==> IsSpace(pre[i])
    requires forall i :: 0 <= i < |post| ==> IsSpace(post[i])
    requires tag != [] && !IsSpace(tag[0]) && !IsSpace(tag[|tag| - 1])
    ensures TranslateLanguageToCode(pre + tag + post) == TranslateLanguageToCode(tag)
  {
    LowerAppend(pre + tag, post);
    LowerAppend(pre, tag);
    forall i | 0 <= i < |pre| ensures IsSpace(Lower(pre)[i]) { LowerKeepsSpace(pre[i]); }
    forall i | 0 <= i < |post| ensures IsSpace(Lower(post)[i]) { LowerKeepsSpace(post[i]); }
    LowerKeepsSpace(tag[0]);
    LowerKeepsSpace(tag[|tag| - 1]);
    StripPadded(Lower(pre), Lower(tag), Lower(post), IsSpace);
    StripKeeps(Lower(tag), IsSpace);
  }

  /** The codes of the recognised tags, in tag order. */
  function RecognisedCodes(tags: seq<string>): (codes: seq<string>)
    ensures |codes| <= |tags|
    ensures forall i :: 0 <= i < |codes| ==> codes[i] in LanguageCodes
    decreases |tags|
  {
    if tags == [] then []
    else
      var last := TranslateLanguageToCode(tags[|tags| - 1]);
      RecognisedCodes(tags[..|tags| - 1]) + (if last.Some? then [last.value] else [])
  }

  /** Recognising the tags of two lists is recognising each in turn: the codes
      keep the order of their tags. */
  lemma {:induction false} RecognisedCodesAppend(a: seq<string>, b: seq<string>)
    ensures RecognisedCodes(a + b) == RecognisedCodes(a) + RecognisedCodes(b)
    decreases |b|
  {
    if b == [] {
      assert a + b == a;
    } else {
      var b' := b[..|b| - 1];
      assert (a + b)[..|a + b| - 1] == a + b';
      assert (a + b)[|a + b| - 1] == b[|b| - 1];
      RecognisedCodesAppend(a, b');
    }
  }

  /** `parse_languages` as a value: the recognised codes, or `['hu']`. */
  function Languages(tags: seq<string>): (langs: seq<string>)
    ensures langs != []
    ensures langs == ["hu"] <==> RecognisedCodes(tags) == []
    ensures RecognisedCodes(tags) != [] ==> langs == RecognisedCodes(tags)
  {
    var codes := RecognisedCodes(tags);
    HuIsNoLanguageCode();
    assert codes != [] ==> codes[0] != "hu";
    if codes == [] then ["hu"] else codes
  }

  /** `parse_languages`. */
  method ParseLanguages(tags: seq<string>) returns (langs: seq<string>)
    ensures langs == Languages(tags)
  {
    langs := [];
    var k := 0;
    while k < |tags|
      invariant 0 <= k <= |tags|
      invariant langs == RecognisedCodes(tags[..k])
    {
      assert tags[..k + 1][..k] == tags[..k];
      var code := TranslateLanguageToCode(tags[k]);
      if code.Some? {
        langs := langs + [code.value];
      }
      k := k + 1;
    }
    assert tags[..k] == tags;
    if langs == [] {
      langs := ["hu"];
    }
  }

  // ---------------------------------------------------------------------------
  // The other extractors parse_details calls
  // ---------------------------------------------------------------------------

  /** `parse_title`: the first title text, trimmed. */
  function ParseTitle(nodes: seq<string>): (title: Option<string>)
    ensures title.None? <==> nodes == []
    ensures title.Some? ==> Contains(nodes[0], title.value) && title.value == StripSpace(nodes[0])
    ensures title.Some? ==> (title.value == "" <==> forall i :: 0 <= i < |nodes[0]| ==> IsSpace(nodes[0][i]))
    ensures title.Some? && title.value != "" ==>
      !IsSpace(title.value[0]) && !IsSpace(title.value[|title.value| - 1])
  {
    if nodes == [] then None
    else
      StripEmpty(nodes[0], IsSpace);
      Some(StripSpace(nodes[0]))
  }

  /** `parse_authors`: the author texts as they are, or None. */
  function ParseAuthors(nodes: seq<string>): (authors: Option<seq<string>>)
    ensures authors.None? <==> nodes == []
    ensures authors.Some? ==> authors.value == nodes
  {
    if nodes == [] then None else Some(nodes)
  }

  /** `not text.strip()`. */
  predicate Blank(t: string) {
    StripSpace(t) == ""
  }

  /** The tag texts that are not blank, in order. */
  function NonBlank(nodes: seq<string>): (kept: seq<string>)
    ensures |kept| <= |nodes|
    ensures forall t :: t in kept ==> t in nodes && !Blank(t)
    ensures forall t :: t in nodes && !Blank(t) ==> t in kept
    decreases |nodes|
  {
    if nodes == [] then []
    else
      var rest := NonBlank(nodes[1..]);
      assert forall t :: t in nodes <==> t == nodes[0] || t in nodes[1..];
      if !Blank(nodes[0]) then [nodes[0]] + rest else rest
  }

  /** `parse_tags`: the non-blank tag texts, or None when there are none. */
  function ParseTags(nodes: seq<string>): (tags: Option<seq<string>>)
    ensures tags.None? <==> forall t :: t in nodes ==> Blank(t)
    ensures tags.Some? ==> tags.value == NonBlank(nodes) && tags.value != []
  {
    var kept := NonBlank(nodes);
    if kept == [] then None else assert kept[0] in kept; Some(kept)
  }

  /** `'\n'.join(texts)`. */
  function JoinLines(texts: seq<string>): (text: string)
    requires texts != []
    ensures SplitOn(text, '\n') == texts || exists i :: 0 <= i < |texts| && '\n' in texts[i]
  {
    JoinLinesSplit(texts);
    Join(texts, '\n')
  }

  lemma {:induction false} JoinLinesSplit(texts: seq<string>)
    requires texts != []
    ensures (forall i :: 0 <= i < |texts| ==> '\n' !in texts[i]) ==> SplitOn(Join(texts, '\n'), '\n') == texts
    decreases |texts|
  {
    if (forall i :: 0 <= i < |texts| ==> '\n' !in texts[i]) {
      if |texts| == 1 {
        SplitWithoutSep(texts[0], '\n');
      } else {
        JoinLinesSplit(texts[1..]);
        SplitAfterField(texts[0], '\n', Join(texts[1..], '\n'));
      }
    }
  }

  /** `parse_comments`: the paragraphs of the full description, or else of any
      description, joined by newlines; None when both are empty. */
  function ParseComments(fullDescription: seq<string>, description: seq<string>): (comments: Option<string>)
    ensures comments.None? <==> fullDescription == [] && description == []
    ensures fullDescription != [] ==> comments == Some(Join(fullDescription, '\n'))
    ensures fullDescription == [] && description != [] ==> comments == Some(Join(description, '\n'))
  {
    if fullDescription != [] then Some(JoinLines(fullDescription))
    else if description != [] then Some(JoinLines(description))
    else None
  }

  /** `parse_publisher`: the first publisher text, or None. */
  function ParsePublisher(nodes: seq<string>): (publisher: Option<string>)
    ensures publisher.None? <==> nodes == []
    ensures publisher.Some? ==> publisher.value == nodes[0]
  {
    if nodes == [] then None else Some(nodes[0])
  }
}
