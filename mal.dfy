/**
 * The reference-catalog client for MyAnimeList: normalising the results of the
 * XML search API, shaping the scraped search listing, resolving a title to a
 * catalog id, and parsing the fields of an anime's detail page.
 *
 * Downloading (curl, the page downloader) is not modelled: the parsed API
 * entries, the scraped rows and the page text are inputs. The helpers the code
 * calls but does not define are parameters: the marker cutter
 * (`str_get_between`), the fuzzy title comparison (`match_fuzzy`), the merge of
 * flagged alternative titles (`Helpers::mergeFlagAlts`) and Carbon's
 * `createFromFormat`.
 */
module MyAnimeList {
  import opened Wrappers
  import opened Strings
  import opened Domain

  function Min(a: int, b: int): int { if a <= b then a else b }

  // ---------------------------------------------------------------------------
  // URLs
  // ---------------------------------------------------------------------------

  const DetailsPrefix := "http://myanimelist.net/anime/"
  const ThumbnailPrefix := "http://cdn.myanimelist.net/images/anime/"

  /** The query part of a catalog URL: every space becomes '+', nothing else changes. */
  function QueryParam(query: string): (q: string)
    ensures |q| == |query|
    ensures forall i :: 0 <= i < |q| ==> q[i] == (if query[i] == ' ' then '+' else query[i])
    ensures Lacks(q, ' ')
  {
    ReplaceCharAt(query, ' ', '+');
    ReplaceAll(query, " ", "+")
  }

  // ---------------------------------------------------------------------------
  // The XML search API
  // ---------------------------------------------------------------------------

  /**
   * A field of an API `<entry>` after `json_decode(json_encode($entry))`: an
   * element holding text becomes that string, an empty element the object `{}`.
   */
  datatype XmlField = Text(text: string) | EmptyElement

  datatype ApiEntry = ApiEntry(id: string, title: string, english: XmlField, synonyms: XmlField)

  datatype ApiResult = ApiResult(id: string, title: string, english: string, synonyms: seq<string>, mal: bool)

  /** The synonyms list: none for an empty element, else the text cut at "; ". */
  function Synonyms(f: XmlField): (r: seq<string>)
    ensures f.EmptyElement? ==> r == []
    ensures f.Text? ==> |r| >= 1 && Join(r, "; ") == f.text
    ensures f.Text? ==> forall i :: 0 <= i < |r| ==> !Contains(r[i], "; ")
  {
    match f
    case EmptyElement => []
    case Text(s) =>
      JoinSplit(s, "; ");
      SplitPiecesLackSep(s, "; ");
      Split(s, "; ")
  }

  /** One API entry as the client hands it on. */
  function Normalise(e: ApiEntry): ApiResult {
    ApiResult(e.id, e.title, if e.english.Text? then e.english.text else "", Synonyms(e.synonyms), true)
  }

  /**
   * `searchApi`: nothing for a failed or empty answer, else one result per
   * entry, in order. `xml` is None when the answer could not be loaded.
   */
  method SearchApi(xml: Option<seq<ApiEntry>>) returns (results: seq<ApiResult>)
    ensures xml.None? ==> results == []
    ensures xml.Some? ==> |results| == |xml.value|
    ensures xml.Some? ==> forall i :: 0 <= i < |results| ==> results[i] == Normalise(xml.value[i])
    ensures forall i :: 0 <= i < |results| ==> results[i].mal
  {
    if xml.None? || xml.value == [] {
      return [];
    }
    var entries := xml.value;
    results := [];
    for i := 0 to |entries|
      invariant |results| == i
      invariant forall k :: 0 <= k < i ==> results[k] == Normalise(entries[k])
    {
      var entry := entries[i];
      var english := if entry.english.Text? then entry.english.text else "";
      var synonyms := [];
      if entry.synonyms.Text? {
        synonyms := Split(entry.synonyms.text, "; ");
      }
      results := results + [ApiResult(entry.id, entry.title, english, synonyms, true)];
    }
  }

  /** The english title of a result is the entry's text, or '' when the entry held no string. */
  lemma EnglishNormalised(e: ApiEntry)
    ensures Normalise(e).english == "" <==> e.english.EmptyElement? || e.english.text == ""
  {
  }

  /** PHP's `json_encode` of a string. */
  type JsonEncode = string -> string

  /**
   * What `json_encode` makes of any string: its text, escaped, between double
   * quotes; escaping never shortens the text.
   */
  predicate QuotesString(jsonEncode: JsonEncode, s: string) {
    var e := jsonEncode(s);
    |e| >= |s| + 2 && e[0] == '"' && e[|e| - 1] == '"'
  }

  /** What the synonyms code does as written: it explodes the JSON text of the value, quotes included. */
  function SynonymsAsWritten(f: XmlField, jsonEncode: JsonEncode): seq<string> {
    match f
    case EmptyElement => []
    case Text(s) => Split(jsonEncode(s), "; ")
  }

  /** As written, the first synonym always begins with the opening double quote of the JSON text. */
  lemma SynonymsAsWrittenKeepQuote(s: string, jsonEncode: JsonEncode)
    requires QuotesString(jsonEncode, s)
    ensures SynonymsAsWritten(Text(s), jsonEncode)[0] != []
    ensures SynonymsAsWritten(Text(s), jsonEncode)[0][0] == '"'
  {
    var e := jsonEncode(s);
    assert e[..2] != "; " by {
      assert e[..2][0] == '"';
    }
  }

  /** As written, the synonyms never join back to the entry's text, unlike the corrected list. */
  lemma SynonymsAsWrittenDiffer(s: string, jsonEncode: JsonEncode)
    requires QuotesString(jsonEncode, s)
    ensures Join(SynonymsAsWritten(Text(s), jsonEncode), "; ") != s
    ensures SynonymsAsWritten(Text(s), jsonEncode) != Synonyms(Text(s))
  {
    JoinSplit(jsonEncode(s), "; ");
  }

  /**
   * The input that shows it: "A; B", which `json_encode` writes as "\"A; B\"",
   * gives ["\"A", "B\""] instead of ["A", "B"].
   */
  lemma SynonymsAsWrittenExample(jsonEncode: JsonEncode)
    requires jsonEncode("A; B") == "\"A; B\""
    ensures SynonymsAsWritten(Text("A; B"), jsonEncode) == ["\"A", "B\""]
    ensures Synonyms(Text("A; B")) == ["A", "B"]
  {
    LacksFirstSplitsCleanly("\"A", "; ");
    LacksFirstNoMatch("B\"", "; ");
    SplitConcat("\"A", "B\"", "; ");
    SplitNoMatch("B\"", "; ");
    assert jsonEncode("A; B") == "\"A" + "; " + "B\"";
    LacksFirstSplitsCleanly("A", "; ");
    LacksFirstNoMatch("B", "; ");
    SplitConcat("A", "B", "; ");
    SplitNoMatch("B", "; ");
    assert "A; B" == "A" + "; " + "B";
  }

  // ---------------------------------------------------------------------------
  // The scraped search listing
  // ---------------------------------------------------------------------------

  /** At most this many listing rows are kept. */
  const ListingCap := 64

  /** A row the scraper cut out of the search results table. */
  datatype ScrapedRow = ScrapedRow(malId: string, thumbnail: string, title: string)

  datatype SearchHit = SearchHit(mal: bool, malId: string, title: string, thumbnailUrl: string, detailsUrl: string)

  /** One listing row as a search hit. */
  function Hit(row: ScrapedRow): (h: SearchHit)
    ensures h.mal && h.malId == row.malId && h.title == row.title
    ensures h.thumbnailUrl == "" <==> PhpEmpty(row.thumbnail)
    ensures !PhpEmpty(row.thumbnail) ==> h.thumbnailUrl == ThumbnailPrefix + row.thumbnail
    ensures StartsWith(h.detailsUrl, DetailsPrefix) && h.detailsUrl[|DetailsPrefix|..] == row.malId
  {
    var thumbnailUrl := if !PhpEmpty(row.thumbnail) then ThumbnailPrefix + row.thumbnail else "";
    SearchHit(true, row.malId, row.title, thumbnailUrl, DetailsPrefix + row.malId)
  }

  /** `search`: the first 64 scraped rows, each shaped as a hit, in order. */
  method Search(rows: seq<ScrapedRow>) returns (hits: seq<SearchHit>)
    ensures |hits| == Min(|rows|, ListingCap)
    ensures forall i :: 0 <= i < |hits| ==> hits[i] == Hit(rows[i])
  {
    var shows := rows[..Min(|rows|, ListingCap)];
    hits := [];
    for i := 0 to |shows|
      invariant |hits| == i
      invariant forall k :: 0 <= k < i ==> hits[k] == Hit(shows[k])
    {
      var show := shows[i];
      var thumbnailUrl := "";
      if !PhpEmpty(show.thumbnail) {
        thumbnailUrl := ThumbnailPrefix + show.thumbnail;
      }
      hits := hits + [SearchHit(true, show.malId, show.title, thumbnailUrl, DetailsPrefix + show.malId)];
    }
  }

  // ---------------------------------------------------------------------------
  // Resolving a title to a catalog id
  // ---------------------------------------------------------------------------

  /** At most this many scraped ids are fetched in full by the fallback. */
  const ProbeCap := 8

  type Fuzzy = (string, string) -> bool
  type MergeAlts = (seq<string>, string) -> seq<string>

  predicate AnyMatch(alts: seq<string>, title: string, fuzzy: Fuzzy) {
    exists j :: 0 <= j < |alts| && fuzzy(alts[j], title)
  }

  /**
   * The alternative titles checked for the k-th API result. The list is never
   * reset between results: each result's title, english title and synonyms are
   * appended to what the previous results left, and the whole is merged with
   * that result's flagged alternatives.
   */
  function GatheredAlts(results: seq<ApiResult>, k: nat, merge: MergeAlts): seq<string>
    requires k <= |results|
  {
    if k == 0 then []
    else
      var r := results[k - 1];
      merge(GatheredAlts(results, k - 1, merge) + [r.title, r.english] + r.synonyms, r.id)
  }

  /** The alternatives gathered up to and including the j-th API result match the title. */
  predicate ApiMatchAt(results: seq<ApiResult>, j: nat, title: string, fuzzy: Fuzzy, merge: MergeAlts)
    requires j < |results|
  {
    AnyMatch(GatheredAlts(results, j + 1, merge), title, fuzzy)
  }

  /** The first API result, from index `k` on, whose gathered alternatives match the title. */
  function FirstApiMatch(results: seq<ApiResult>, k: nat, title: string, fuzzy: Fuzzy, merge: MergeAlts): (r: Option<nat>)
    requires k <= |results|
    ensures r.Some? ==> k <= r.value < |results| && ApiMatchAt(results, r.value, title, fuzzy, merge)
    ensures forall j :: k <= j < |results| && (r.None? || j < r.value) ==> !ApiMatchAt(results, j, title, fuzzy, merge)
    decreases |results| - k
  {
    if k == |results| then None
    else if ApiMatchAt(results, k, title, fuzzy, merge) then Some(k)
    else FirstApiMatch(results, k + 1, title, fuzzy, merge)
  }

  /** The first probed id, from index `k` on, whose detail page lists a matching alternative. */
  function FirstProbeMatch(ids: seq<string>, k: nat, title: string, detailAlts: string -> seq<string>, fuzzy: Fuzzy): (r: Option<nat>)
    requires k <= |ids|
    ensures r.Some? ==> k <= r.value < |ids| && AnyMatch(detailAlts(ids[r.value]), title, fuzzy)
    ensures forall j :: k <= j < |ids| && (r.None? || j < r.value) ==> !AnyMatch(detailAlts(ids[j]), title, fuzzy)
    decreases |ids| - k
  {
    if k == |ids| then None
    else if AnyMatch(detailAlts(ids[k]), title, fuzzy) then Some(k)
    else FirstProbeMatch(ids, k + 1, title, detailAlts, fuzzy)
  }

  function Probes(scrapedIds: seq<string>): seq<string> {
    scrapedIds[..Min(|scrapedIds|, ProbeCap)]
  }

  /** The id returned is that of the first API result whose gathered alternatives match. */
  lemma MalIdFirstApi(title: string, results: seq<ApiResult>, scrapedIds: seq<string>,
                      detailAlts: string -> seq<string>, fuzzy: Fuzzy, merge: MergeAlts, k: nat)
    requires k < |results| && ApiMatchAt(results, k, title, fuzzy, merge)
    requires forall j :: 0 <= j < k ==> !ApiMatchAt(results, j, title, fuzzy, merge)
    ensures MalIdForTitle(title, results, scrapedIds, detailAlts, fuzzy, merge) == Some(results[k].id)
  {
    var first := FirstApiMatch(results, 0, title, fuzzy, merge);
    assert first == Some(k);
  }

  /**
   * When no API result matches, the id returned is the first of the first
   * eight scraped ids whose detail page lists a matching alternative.
   */
  lemma MalIdFirstProbe(title: string, results: seq<ApiResult>, scrapedIds: seq<string>,
                        detailAlts: string -> seq<string>, fuzzy: Fuzzy, merge: MergeAlts, k: nat)
    requires forall j :: 0 <= j < |results| ==> !ApiMatchAt(results, j, title, fuzzy, merge)
    requires k < Min(|scrapedIds|, ProbeCap) && AnyMatch(detailAlts(scrapedIds[k]), title, fuzzy)
    requires forall j :: 0 <= j < k ==> !AnyMatch(detailAlts(scrapedIds[j]), title, fuzzy)
    ensures MalIdForTitle(title, results, scrapedIds, detailAlts, fuzzy, merge) == Some(scrapedIds[k])
  {
    var probes := Probes(scrapedIds);
    assert FirstApiMatch(results, 0, title, fuzzy, merge).None?;
    var first := FirstProbeMatch(probes, 0, title, detailAlts, fuzzy);
    assert probes[k] == scrapedIds[k];
    assert first == Some(k);
  }

  /**
   * The id `getMalIdForTitle` returns: the first API result with a matching
   * alternative; failing that, the first of at most 8 scraped ids whose detail
   * page lists a matching alternative; failing that, none.
   */
  function MalIdForTitle(title: string, results: seq<ApiResult>, scrapedIds: seq<string>,
                         detailAlts: string -> seq<string>, fuzzy: Fuzzy, merge: MergeAlts): (r: Option<string>)
    ensures r.Some? ==> (exists k :: 0 <= k < |results| && r.value == results[k].id)
                        || (exists k :: 0 <= k < Min(|scrapedIds|, ProbeCap) && r.value == scrapedIds[k])
    ensures r.None? <==> FirstApiMatch(results, 0, title, fuzzy, merge).None?
                         && FirstProbeMatch(Probes(scrapedIds), 0, title, detailAlts, fuzzy).None?
  {
    match FirstApiMatch(results, 0, title, fuzzy, merge)
    case Some(k) => Some(results[k].id)
    case None =>
      var probes := Probes(scrapedIds);
      match FirstProbeMatch(probes, 0, title, detailAlts, fuzzy)
      case Some(k) => Some(probes[k])
      case None => None
  }

  /** The inner loops of `getMalIdForTitle`: does any alternative match the title? */
  method HasMatch(alts: seq<string>, title: string, fuzzy: Fuzzy) returns (found: bool)
    ensures found == AnyMatch(alts, title, fuzzy)
  {
    for j := 0 to |alts|
      invariant forall m :: 0 <= m < j ==> !fuzzy(alts[m], title)
    {
      if fuzzy(alts[j], title) {
        return true;
      }
    }
    return false;
  }

  /**
   * `getMalIdForTitle`. `results` is what `searchApi` gave for the title,
   * `scrapedIds` the ids scraped from the search page for the title, and
   * `detailAlts(id)` the alternative titles `getAnimeData(id)` reports.
   */
  method GetMalIdForTitle(title: string, results: seq<ApiResult>, scrapedIds: seq<string>,
                          detailAlts: string -> seq<string>, fuzzy: Fuzzy, merge: MergeAlts)
    returns (id: Option<string>)
    ensures id == MalIdForTitle(title, results, scrapedIds, detailAlts, fuzzy, merge)
  {
    // First try the API results
    var alts: seq<string> := [];
    for i := 0 to |results|
      invariant alts == GatheredAlts(results, i, merge)
      invariant FirstApiMatch(results, 0, title, fuzzy, merge) == FirstApiMatch(results, i, title, fuzzy, merge)
    {
      var result := results[i];
      alts := alts + [result.title, result.english];
      alts := merge(alts + result.synonyms, result.id);
      var found := HasMatch(alts, title, fuzzy);
      if found {
        assert ApiMatchAt(results, i, title, fuzzy, merge);
        return Some(result.id);
      }
    }

    // If that fails, probe the scraped search results
    var shows := Probes(scrapedIds);
    for k := 0 to |shows|
      invariant FirstProbeMatch(shows, 0, title, detailAlts, fuzzy) == FirstProbeMatch(shows, k, title, detailAlts, fuzzy)
    {
      var found := HasMatch(detailAlts(shows[k]), title, fuzzy);
      if found {
        return Some(shows[k]);
      }
    }
    return None;
  }

  /** Once an API result matches, the scraping fallback plays no part in the answer. */
  lemma ApiMatchShortCircuits(title: string, results: seq<ApiResult>, ids1: seq<string>, ids2: seq<string>,
                              alts1: string -> seq<string>, alts2: string -> seq<string>, fuzzy: Fuzzy, merge: MergeAlts)
    requires FirstApiMatch(results, 0, title, fuzzy, merge).Some?
    ensures MalIdForTitle(title, results, ids1, alts1, fuzzy, merge) == MalIdForTitle(title, results, ids2, alts2, fuzzy, merge)
    ensures MalIdForTitle(title, results, ids1, alts1, fuzzy, merge).Some?
  {
  }

  /** Scraped ids past the eighth are never looked at. */
  lemma ProbesCapped(title: string, results: seq<ApiResult>, scrapedIds: seq<string>,
                     detailAlts: string -> seq<string>, fuzzy: Fuzzy, merge: MergeAlts)
    requires |scrapedIds| > ProbeCap
    ensures MalIdForTitle(title, results, scrapedIds, detailAlts, fuzzy, merge)
         == MalIdForTitle(title, results, scrapedIds[..ProbeCap], detailAlts, fuzzy, merge)
  {
  }

  /** No id is found exactly when no API result and none of the first 8 scraped ids match. */
  lemma MalIdNotFound(title: string, results: seq<ApiResult>, scrapedIds: seq<string>,
                      detailAlts: string -> seq<string>, fuzzy: Fuzzy, merge: MergeAlts)
    ensures MalIdForTitle(title, results, scrapedIds, detailAlts, fuzzy, merge).None?
        <==> ((forall j :: 0 <= j < |results| ==> !ApiMatchAt(results, j, title, fuzzy, merge))
          && (forall j :: 0 <= j < Min(|scrapedIds|, ProbeCap) ==> !AnyMatch(detailAlts(scrapedIds[j]), title, fuzzy)))
  {
  }

  // ---------------------------------------------------------------------------
  // The detail page
  // ---------------------------------------------------------------------------

  /** `str_get_between(s, start, end)`: the text between two markers. */
  type Between = (string, string, string) -> string
  /** `str_get_between(s, start)`: the text after a marker. */
  type After = (string, string) -> string

  const TitleStart := "<span itemprop=\"name\">"
  const SpanEnd := "</span>"
  const AltTitlesStart := "<h2>Alternative Titles</h2>"
  const AltTitlesEnd := "<br />"
  const DivEnd := "</div>"
  const JapaneseLabel := "<span class=\"dark_text\">Japanese:</span>"
  const EpisodesLabel := "<span class=\"dark_text\">Episodes:</span>"
  const DurationLabel := "<span class=\"dark_text\">Duration:</span>"
  const GenresLabel := "<span class=\"dark_text\">Genres:</span>"
  const AnchorEnd := "</a>"
  const AiredLabel := "<span class=\"dark_text\">Aired:</span>"
  const ThumbnailStart := "src=\"http://cdn.myanimelist.net/images/anime/"
  const DescriptionStart := "<span itemprop=\"description\">"
  const TypeLabel := "<span class=\"dark_text\">Type:</span>"

  /** The three formats handed to Carbon's `createFromFormat`. */
  datatype DateFormat = MonthDayYear | MonthYear | YearOnly {
    function Pattern(): string {
      match this
      case MonthDayYear => "M j, Y"
      case MonthYear => "M, Y"
      case YearOnly => "Y"
    }
  }

  /** Carbon's `createFromFormat(format, text)`, which fills fields the format lacks from the current date. */
  type DateParser = (DateFormat, string) -> Date

  datatype AnimeData = AnimeData(
    malId: string,
    thumbnailId: Option<string>,
    title: string,
    alts: seq<string>,
    description: string,
    showType: string,
    genres: seq<string>,
    episodeAmount: Option<int>,
    episodeDuration: Option<int>,
    airingStart: Option<Date>,
    airingEnd: Option<Date>)

  /** A non-blank line of the alternative-titles block that carries the Japanese label. */
  predicate IsJapaneseLine(line: string) {
    Trim(line) != "" && Contains(line, JapaneseLabel)
  }

  /** The alternative titles one line of the "Alternative Titles" block contributes: only the Japanese line counts. */
  function AltTitleLine(line: string, after: After): seq<string> {
    if IsJapaneseLine(line) then Split(Trim(after(line, SpanEnd)), ", ") else []
  }

  function AltTitlesOf(lines: seq<string>, after: After): seq<string> {
    if lines == [] then []
    else AltTitlesOf(lines[..|lines| - 1], after) + AltTitleLine(lines[|lines| - 1], after)
  }

  /** The titles of two runs of lines are those of the first run followed by those of the second. */
  lemma {:induction false} AltTitlesOfConcat(a: seq<string>, b: seq<string>, after: After)
    ensures AltTitlesOf(a + b, after) == AltTitlesOf(a, after) + AltTitlesOf(b, after)
    decreases |b|
  {
    if b == [] {
      assert a + b == a;
    } else {
      var n := |b| - 1;
      assert (a + b)[..|a + b| - 1] == a + b[..n];
      assert (a + b)[|a + b| - 1] == b[n];
      AltTitlesOfConcat(a, b[..n], after);
      ConcatAssoc(AltTitlesOf(a, after), AltTitlesOf(b[..n], after), AltTitleLine(b[n], after));
    }
  }

  /** Lines without the Japanese label contribute no titles. */
  lemma {:induction false} AltTitlesOfOthers(lines: seq<string>, after: After)
    requires forall i :: 0 <= i < |lines| ==> !IsJapaneseLine(lines[i])
    ensures AltTitlesOf(lines, after) == []
    decreases |lines|
  {
    if lines != [] {
      AltTitlesOfOthers(lines[..|lines| - 1], after);
    }
  }

  /**
   * A block whose one Japanese line lists "A, B, ..." yields exactly those
   * titles: joined back with ", " they give the listed text.
   */
  lemma AltTitlesOfJapaneseLine(before: seq<string>, line: string, rest: seq<string>, after: After)
    requires forall i :: 0 <= i < |before| ==> !IsJapaneseLine(before[i])
    requires forall i :: 0 <= i < |rest| ==> !IsJapaneseLine(rest[i])
    requires IsJapaneseLine(line)
    ensures AltTitlesOf(before + [line] + rest, after) == Split(Trim(after(line, SpanEnd)), ", ")
    ensures Join(AltTitlesOf(before + [line] + rest, after), ", ") == Trim(after(line, SpanEnd))
  {
    AltTitlesOfConcat(before + [line], rest, after);
    AltTitlesOfConcat(before, [line], after);
    AltTitlesOfOthers(before, after);
    AltTitlesOfOthers(rest, after);
    assert [line][..0] == [];
    assert AltTitlesOf([line], after) == AltTitleLine(line, after);
    JoinSplit(Trim(after(line, SpanEnd)), ", ");
  }

  /** The episode count: the field coerced to an integer, where 0 means unknown. */
  function EpisodeAmount(text: string): (r: Option<int>)
    ensures r != Some(0)
    ensures r.None? <==> ToInt(text) == 0
    ensures r.Some? ==> r.value == ToInt(text)
  {
    var amount := ToInt(text);
    if amount == 0 then None else Some(amount)
  }

  /** A count written in decimal, whatever white space surrounds it, reads as that count, and 0 as unknown. */
  lemma EpisodeAmountOfNumber(w: string, n: nat, rest: string)
    requires forall i :: 0 <= i < |w| ==> IsSpace(w[i])
    requires rest == [] || !IsDigit(rest[0])
    ensures EpisodeAmount(w + NatToString(n) + rest) == if n == 0 then None else Some(n)
  {
    ToIntSkipsSpace(w, NatToString(n) + rest);
    assert w + NatToString(n) + rest == w + (NatToString(n) + rest);
    ToIntOfNat(n, rest);
  }

  /** A count that does not start with a number, such as "Unknown", is unknown. */
  lemma EpisodeAmountOfWord(w: string, word: string)
    requires forall i :: 0 <= i < |w| ==> IsSpace(w[i])
    requires word == [] || (!IsDigit(word[0]) && !IsSpace(word[0]) && word[0] != '-' && word[0] != '+')
    ensures EpisodeAmount(w + word) == None
  {
    ToIntSkipsSpace(w, word);
  }

  /**
   * The episode duration in minutes from "X hr. Y min." or "Y min.": with no
   * "hr." the leading number is the minutes, with one it is hours*60 plus the
   * number after it, with more nothing is counted; 0 means unknown.
   */
  function Duration(text: string): (r: Option<int>)
    ensures r != Some(0)
    ensures |Split(Trim(text), "hr.")| > 2 ==> r.None?
  {
    var durations := Split(Trim(text), "hr.");
    var duration :=
      if |durations| == 1 then ToInt(durations[0])
      else if |durations| == 2 then ToInt(durations[0]) * 60 + ToInt(durations[1])
      else 0;
    if duration == 0 then None else Some(duration)
  }

  /** A tail such as " min." or " min. per ep.": no 'h', no leading digit, no trailing white space. */
  predicate UnitTail(tail: string) {
    Lacks(tail, 'h') && (tail == [] || (!IsDigit(tail[0]) && !IsTrimmable(tail[|tail| - 1])))
  }

  lemma DigitsLackH(n: nat)
    ensures Lacks(NatToString(n), 'h')
  {
  }

  /** "Y min." gives Y minutes. */
  lemma DurationOfMinutes(m: nat, tail: string)
    requires UnitTail(tail)
    ensures Duration(NatToString(m) + tail) == if m == 0 then None else Some(m)
  {
    var s := NatToString(m) + tail;
    assert s[0] == NatToString(m)[0];
    TrimClean(s);
    DigitsLackH(m);
    LacksConcat(NatToString(m), tail, 'h');
    LacksFirstNoMatch(s, "hr.");
    SplitNoMatch(s, "hr.");
    ToIntOfNat(m, tail);
  }

  /** With exactly one "hr." the number before it counts as hours and the number after it as minutes. */
  lemma DurationOfTwoParts(text: string, a: string, b: string)
    requires Trim(text) == a + "hr." + b
    requires SplitsCleanly(a, "hr.") && !Contains(b, "hr.")
    ensures Duration(text) == if ToInt(a) * 60 + ToInt(b) == 0 then None else Some(ToInt(a) * 60 + ToInt(b))
  {
    SplitConcat(a, b, "hr.");
    SplitNoMatch(b, "hr.");
  }

  /** The duration text "X hr. Y" followed by a unit tail. */
  function HoursMinutesText(h: nat, m: nat, tail: string): string {
    NatToString(h) + " hr. " + NatToString(m) + tail
  }

  /** "X hr. Y min." is "X " and " Y min." around the one "hr.", and they read as X and Y. */
  lemma {:induction false} HoursMinutesParts(h: nat, m: nat, tail: string)
    requires UnitTail(tail)
    ensures var a := NatToString(h) + " "; var b := " " + (NatToString(m) + tail);
      && Trim(HoursMinutesText(h, m, tail)) == a + "hr." + b
      && SplitsCleanly(a, "hr.") && !Contains(b, "hr.")
      && ToInt(a) == h && ToInt(b) == m
  {
    var a := NatToString(h) + " ";
    var b := " " + (NatToString(m) + tail);
    var s := HoursMinutesText(h, m, tail);
    assert s == a + "hr." + b;
    assert s[0] == NatToString(h)[0];
    assert s[|s| - 1] == b[|b| - 1];
    TrimClean(s);
    DigitsLackH(h);
    DigitsLackH(m);
    LacksConcat(NatToString(h), " ", 'h');
    LacksFirstSplitsCleanly(a, "hr.");
    LacksConcat(NatToString(m), tail, 'h');
    LacksConcat(" ", NatToString(m) + tail, 'h');
    LacksFirstNoMatch(b, "hr.");
    ToIntOfNat(h, " ");
    ToIntSkipsSpace(" ", NatToString(m) + tail);
    ToIntOfNat(m, tail);
  }

  /** "X hr. Y min." gives X*60 + Y minutes. */
  lemma {:induction false} DurationOfHoursMinutes(h: nat, m: nat, tail: string)
    requires UnitTail(tail)
    ensures Duration(HoursMinutesText(h, m, tail)) == if h * 60 + m == 0 then None else Some(h * 60 + m)
  {
    HoursMinutesParts(h, m, tail);
    DurationOfTwoParts(HoursMinutesText(h, m, tail), NatToString(h) + " ", " " + (NatToString(m) + tail));
  }

  /** The genre an item names: its link text, trimmed and lower-cased. */
  function GenreText(item: string, after: After): (g: string)
    ensures HasNoUpper(g)
  {
    Lower(Trim(after(item, ">")))
  }

  /** The genres, in page order; every one is lower case, and there is at most one per item. */
  function GenresOf(items: seq<string>, after: After): (r: seq<string>)
    ensures |r| <= |items|
    ensures forall i :: 0 <= i < |r| ==> HasNoUpper(r[i])
  {
    if items == [] then []
    else
      var init := GenresOf(items[..|items| - 1], after);
      var last := items[|items| - 1];
      if Trim(last) != "" then init + [GenreText(last, after)] else init
  }

  /** The genres of some items followed by one more item: that item adds its genre, or nothing when it is blank. */
  lemma GenresOfSnoc(items: seq<string>, item: string, after: After)
    ensures GenresOf(items + [item], after)
         == GenresOf(items, after) + (if Trim(item) != "" then [GenreText(item, after)] else [])
  {
    assert (items + [item])[..|items|] == items;
  }

  /** The genres of two runs of items are those of the first run followed by those of the second. */
  lemma {:induction false} GenresOfConcat(a: seq<string>, b: seq<string>, after: After)
    ensures GenresOf(a + b, after) == GenresOf(a, after) + GenresOf(b, after)
    decreases |b|
  {
    if b == [] {
      assert a + b == a;
    } else {
      var n := |b| - 1;
      var front, last := b[..n], b[n];
      var extra := if Trim(last) != "" then [GenreText(last, after)] else [];
      var ab := a + front;
      assert a + b == ab + [last];
      assert b == front + [last];
      GenresOfSnoc(ab, last, after);
      GenresOfSnoc(front, last, after);
      GenresOfConcat(a, front, after);
      ConcatAssoc(GenresOf(a, after), GenresOf(front, after), extra);
    }
  }

  /** No item is blank. */
  predicate NoBlankItem(items: seq<string>) {
    forall i :: 0 <= i < |items| ==> Trim(items[i]) != ""
  }

  /** Without blank items there is exactly one genre per item, read off that item, in order. */
  lemma {:induction false} GenresOfNonBlank(items: seq<string>, after: After)
    requires NoBlankItem(items)
    ensures |GenresOf(items, after)| == |items|
    ensures forall i :: 0 <= i < |items| ==> GenresOf(items, after)[i] == GenreText(items[i], after)
    decreases |items|
  {
    if items != [] {
      var n := |items| - 1;
      var front := items[..n];
      assert NoBlankItem(front) by {
        forall i | 0 <= i < n ensures Trim(front[i]) != "" {
          assert front[i] == items[i];
        }
      }
      GenresOfNonBlank(front, after);
      var init := GenresOf(front, after);
      assert Trim(items[n]) != "";
      var r := GenresOf(items, after);
      assert r == init + [GenreText(items[n], after)];
      forall i | 0 <= i < |items| ensures r[i] == GenreText(items[i], after) {
        if i < n {
          assert r[i] == init[i] == GenreText(front[i], after);
        }
      }
    }
  }

  /**
   * `convertAiringToCarbon`: three words give a full date, two a month and year
   * (day 1), one a year (January 1); any other count gives no date.
   */
  function ConvertAiring(s: string, parse: DateParser): (r: Option<Date>)
    ensures |Split(s, " ")| == 3 ==> r == Some(parse(MonthDayYear, s))
    ensures |Split(s, " ")| == 2 ==>
      r.Some? && r.value.day == 1 && r.value.month == parse(MonthYear, s).month && r.value.year == parse(MonthYear, s).year
    ensures |Split(s, " ")| == 1 ==>
      r.Some? && r.value.day == 1 && r.value.month == 1 && r.value.year == parse(YearOnly, s).year
    ensures |Split(s, " ")| > 3 <==> r.None?
  {
    var words := |Split(s, " ")|;
    if words == 3 then Some(parse(MonthDayYear, s))
    else if words == 2 then Some(parse(MonthYear, s).WithDay(1))
    else if words == 1 then Some(parse(YearOnly, s).WithDay(1).WithMonth(1))
    else None
  }

  datatype Airing = Airing(start: Option<Date>, end: Option<Date>)

  /** One side of an aired range: '?' means unknown. */
  function AiringSide(side: string, parse: DateParser): Option<Date> {
    if side != "?" then ConvertAiring(side, parse) else None
  }

  /** The aired range: "Not available" gives no dates, else the first and last sides of "A to B". */
  function AiringOf(aired: string, parse: DateParser): (r: Airing)
    ensures aired == "Not available" ==> r == Airing(None, None)
    ensures aired != "Not available" ==>
      exists a, b :: StartsWith(aired, a) && EndsWith(aired, b) && r == Airing(AiringSide(a, parse), AiringSide(b, parse))
  {
    if aired == "Not available" then Airing(None, None)
    else
      var parts := Split(aired, " to ");
      SplitFirstIsPrefix(aired, " to ");
      SplitLastIsSuffix(aired, " to ");
      Airing(AiringSide(parts[0], parse), AiringSide(parts[|parts| - 1], parse))
  }

  /** "Not available" has no dates, and a range that starts with '?' has no start date. */
  lemma AiringUnknownSides(b: string, parse: DateParser)
    requires !Contains(b, " to ")
    ensures AiringOf("Not available", parse) == Airing(None, None)
    ensures AiringOf("? to " + b, parse).start == None
  {
    LacksFirstSplitsCleanly("?", " to ");
    SplitConcat("?", b, " to ");
    assert "? to " + b == "?" + " to " + b;
    assert ("? to " + b)[0] == '?';
  }

  /** A single date without " to " is both the start and the end. */
  lemma AiringSingleDate(aired: string, parse: DateParser)
    requires aired != "Not available" && !Contains(aired, " to ")
    ensures AiringOf(aired, parse) == Airing(AiringSide(aired, parse), AiringSide(aired, parse))
    ensures AiringOf(aired, parse).start == AiringOf(aired, parse).end
  {
    SplitNoMatch(aired, " to ");
  }

  /** "A to B" gives A as the start and B as the end, each unknown when it is '?'. */
  lemma AiringRange(a: string, b: string, parse: DateParser)
    requires SplitsCleanly(a, " to ") && !Contains(b, " to ")
    requires a + " to " + b != "Not available"
    ensures AiringOf(a + " to " + b, parse) == Airing(AiringSide(a, parse), AiringSide(b, parse))
    ensures b == "?" ==> AiringOf(a + " to " + b, parse).end.None?
  {
    SplitConcat(a, b, " to ");
    SplitNoMatch(b, " to ");
  }

  /**
   * Any number of sides: the first is the start and the last the end, and
   * whatever lies between is ignored.
   */
  lemma {:induction false} AiringFirstAndLast(parts: seq<string>, parse: DateParser)
    requires |parts| >= 1
    requires forall i :: 0 <= i < |parts| - 1 ==> SplitsCleanly(parts[i], " to ")
    requires !Contains(parts[|parts| - 1], " to ")
    requires Join(parts, " to ") != "Not available"
    ensures AiringOf(Join(parts, " to "), parse)
            == Airing(AiringSide(parts[0], parse), AiringSide(parts[|parts| - 1], parse))
  {
    var aired := Join(parts, " to ");
    assert Split(aired, " to ") == parts by {
      SplitJoin(parts, " to ");
    }
    AiringOfPieces(aired, parts, parse);
  }

  /** Outside "Not available", the sides are the first and last pieces of the " to " split. */
  lemma AiringOfPieces(aired: string, parts: seq<string>, parse: DateParser)
    requires aired != "Not available" && Split(aired, " to ") == parts
    ensures AiringOf(aired, parse) == Airing(AiringSide(parts[0], parse), AiringSide(parts[|parts| - 1], parse))
  {
  }

  /** The thumbnail id: the image path with '/' turned into '-'; none when that is empty. */
  function ThumbnailId(path: string): (r: Option<string>)
    ensures r.None? <==> PhpEmpty(path)
    ensures r.Some? ==> |r.value| == |path| && Lacks(r.value, '/')
    ensures r.Some? ==> forall i :: 0 <= i < |path| ==> r.value[i] == if path[i] == '/' then '-' else path[i]
  {
    ReplaceCharAt(path, '/', '-');
    var id := ReplaceAll(path, "/", "-");
    if id == [] || id == "0" then
      assert id == "0" ==> path[0] == '0';
      None
    else Some(id)
  }

  /** Everything `getAnimeData` reports for the page of catalog id `malId`. */
  function AnimeDataOf(malId: string, page: string, between: Between, after: After,
                       merge: MergeAlts, parse: DateParser): (data: AnimeData)
    ensures data.malId == malId
    ensures data.episodeAmount != Some(0) && data.episodeDuration != Some(0)
    ensures HasNoUpper(data.showType) && forall i :: 0 <= i < |data.genres| ==> HasNoUpper(data.genres[i])
    ensures data.thumbnailId.Some? ==> Lacks(data.thumbnailId.value, '/')
  {
    var title := Trim(between(page, TitleStart, SpanEnd));
    var lines := Split(between(page, AltTitlesStart, AltTitlesEnd), DivEnd);
    var airing := AiringOf(Trim(between(page, AiredLabel, DivEnd)), parse);
    var thumbnailId := ThumbnailId(between(page, ThumbnailStart, "\""));
    var showType := GenreText(between(page, TypeLabel, AnchorEnd), after);
    var genres := GenresOf(Split(between(page, GenresLabel, DivEnd), AnchorEnd), after);
    var amount := EpisodeAmount(between(page, EpisodesLabel, DivEnd));
    var duration := Duration(between(page, DurationLabel, DivEnd));
    AnimeData(
      malId,
      thumbnailId,
      title,
      merge([title] + AltTitlesOf(lines, after), malId),
      Trim(between(page, DescriptionStart, SpanEnd)),
      showType,
      genres,
      amount,
      duration,
      airing.start,
      airing.end)
  }

  /** The alternative-titles loop of `getAnimeData`: the title, then the Japanese titles. */
  method CollectAlts(title: string, lines: seq<string>, after: After) returns (alts: seq<string>)
    ensures alts == [title] + AltTitlesOf(lines, after)
  {
    alts := [title];
    ghost var found: seq<string> := [];
    for i := 0 to |lines|
      invariant found == AltTitlesOf(lines[..i], after)
      invariant alts == [title] + found
    {
      var line := lines[i];
      AltTitlesOfSnoc(lines, i, after);
      if Trim(line) != "" && Contains(line, JapaneseLabel) {
        var list := Trim(after(line, SpanEnd));
        ConcatAssoc([title], found, Split(list, ", "));
        alts := alts + Split(list, ", ");
        found := found + Split(list, ", ");
      }
    }
    assert lines[..|lines|] == lines;
  }

  /** Concatenation regroups freely (stated once so that sequences of strings need not be compared element by element). */
  lemma ConcatAssoc<T>(x: seq<T>, y: seq<T>, z: seq<T>)
    ensures x + y + z == x + (y + z)
  {
  }

  lemma AltTitlesOfSnoc(lines: seq<string>, i: nat, after: After)
    requires i < |lines|
    ensures AltTitlesOf(lines[..i + 1], after) == AltTitlesOf(lines[..i], after) + AltTitleLine(lines[i], after)
  {
    assert lines[..i + 1][..i] == lines[..i];
  }

  /** The genres loop of `getAnimeData`. */
  method CollectGenres(items: seq<string>, after: After) returns (genres: seq<string>)
    ensures genres == GenresOf(items, after)
  {
    genres := [];
    for i := 0 to |items|
      invariant genres == GenresOf(items[..i], after)
    {
      var item := items[i];
      assert items[..i + 1][..i] == items[..i];
      if Trim(item) != "" {
        genres := genres + [Lower(Trim(after(item, ">")))];
        assert GenresOf(items[..i + 1], after) == GenresOf(items[..i], after) + [GenreText(item, after)];
      } else {
        assert GenresOf(items[..i + 1], after) == GenresOf(items[..i], after);
      }
    }
    assert items[..|items|] == items;
  }

  /** The duration steps of `getAnimeData`, accumulated as the code does. */
  method ParseDuration(text: string) returns (episodeDuration: Option<int>)
    ensures episodeDuration == Duration(text)
  {
    var durations := Split(Trim(text), "hr.");
    var duration := 0;
    if |durations| == 1 {
      duration := duration + ToInt(durations[0]);
    } else if |durations| == 2 {
      duration := duration + ToInt(durations[0]) * 60;
      duration := duration + ToInt(durations[1]);
    }
    assert duration == if |durations| == 1 then ToInt(durations[0])
                       else if |durations| == 2 then ToInt(durations[0]) * 60 + ToInt(durations[1])
                       else 0;
    episodeDuration := if duration == 0 then None else Some(duration);
  }

  /** The aired steps of `getAnimeData`. */
  method ParseAired(aired: string, parse: DateParser) returns (airingStart: Option<Date>, airingEnd: Option<Date>)
    ensures Airing(airingStart, airingEnd) == AiringOf(aired, parse)
  {
    airingStart := None;
    airingEnd := None;
    if aired != "Not available" {
      var parts := Split(aired, " to ");
      if parts[0] != "?" {
        airingStart := ConvertAiring(parts[0], parse);
      }
      if parts[|parts| - 1] != "?" {
        airingEnd := ConvertAiring(parts[|parts| - 1], parse);
      }
    }
  }

  /** `getAnimeData`, on the downloaded page. */
  method GetAnimeData(malId: string, page: string, between: Between, after: After,
                      merge: MergeAlts, parse: DateParser) returns (data: AnimeData)
    ensures data == AnimeDataOf(malId, page, between, after, merge, parse)
  {
    var title := Trim(between(page, TitleStart, SpanEnd));
    var alts := CollectAlts(title, Split(between(page, AltTitlesStart, AltTitlesEnd), DivEnd), after);

    var amount: Option<int> := Some(ToInt(between(page, EpisodesLabel, DivEnd)));
    if amount == Some(0) {
      amount := None;
    }

    var duration := ParseDuration(between(page, DurationLabel, DivEnd));
    var genres := CollectGenres(Split(between(page, GenresLabel, DivEnd), AnchorEnd), after);
    var airingStart, airingEnd := ParseAired(Trim(between(page, AiredLabel, DivEnd)), parse);

    data := AnimeData(
      malId,
      ThumbnailId(between(page, ThumbnailStart, "\"")),
      title,
      merge(alts, malId),
      Trim(between(page, DescriptionStart, SpanEnd)),
      Lower(Trim(after(between(page, TypeLabel, AnchorEnd), ">"))),
      genres,
      amount,
      duration,
      airingStart,
      airingEnd);
  }
}
