/**
 * The KissAnime streamer adapter of the front end
 * (website/imports/streamers/_kissanime.js): how show names carry their
 * translation type, the search URL, which related links are shows, how an
 * episode row is read, and the four video sources of an episode. The page
 * text the CSS selectors pick out is given as input.
 */
module KissAnime {
  import opened Wrappers
  import opened Strings
  import opened Domain

  const Homepage := "http://kissanime.ru"

  const DubSuffix := " (Dub)"
  const SubSuffix := " (Sub)"

  /** `s` without `suffix` when it ends with it (a replace anchored with `$`). */
  function StripSuffix(s: string, suffix: string): (r: string)
    ensures EndsWith(s, suffix) ==> s == r + suffix
    ensures !EndsWith(s, suffix) ==> r == s
  {
    if EndsWith(s, suffix) then s[..|s| - |suffix|] else s
  }

  /**
   * cleanName: drops a trailing " (Dub)" and then a trailing " (Sub)", so the
   * name is the clean name followed by at most one of each, in that order.
   */
  function CleanName(name: string): (clean: string)
    ensures name == clean || name == clean + DubSuffix || name == clean + SubSuffix
            || name == clean + SubSuffix + DubSuffix
    ensures clean == name <==> PlainName(name)
  {
    StripSuffix(StripSuffix(name, DubSuffix), SubSuffix)
  }

  /** getTypeFromName: dubbed exactly when the name ends with " (Dub)"; any other name is subbed. */
  function TypeFromName(name: string): (t: TranslationType)
    ensures t == Dub <==> EndsWith(name, DubSuffix)
    ensures EndsWith(name, SubSuffix) ==> t == Sub
  {
    if EndsWith(name, DubSuffix) then Dub else Sub
  }

  /** A name that ends in neither suffix. */
  predicate PlainName(base: string) {
    !EndsWith(base, DubSuffix) && !EndsWith(base, SubSuffix)
  }

  /** The suffix a listed name carries for its translation type; subbed shows may also carry none. */
  function Suffixed(base: string, t: TranslationType): string {
    base + (if t == Dub then DubSuffix else SubSuffix)
  }

  /** The translation type and the clean name are read back from a suffixed name. */
  lemma NameRoundTrip(base: string, t: TranslationType)
    requires PlainName(base)
    ensures TypeFromName(Suffixed(base, t)) == t
    ensures CleanName(Suffixed(base, t)) == base
    ensures CleanName(base + SubSuffix + DubSuffix) == base
  {
    assert (base + SubSuffix + DubSuffix)[..|base + SubSuffix|] == base + SubSuffix;
  }

  /** A name without a suffix is a subbed show with that very name. */
  lemma PlainNameIsSub(base: string)
    requires PlainName(base)
    ensures TypeFromName(base) == Sub && CleanName(base) == base
  {
  }

  // ---------------------------------------------------------------------------
  // The search page
  // ---------------------------------------------------------------------------

  /** What is searched for: a query shorter than two UTF-16 units is searched twice over. */
  function SearchTerm(query: string): (term: string)
    ensures term == query || term == query + query
    ensures Utf16Length(query) >= 2 ==> term == query
  {
    var filler := if Utf16Length(query) < 2 then query else "";
    query + filler
  }

  /** A non-empty query is searched with a term at least two UTF-16 units long. */
  lemma SearchTermLength(query: string)
    requires query != ""
    ensures Utf16Length(SearchTerm(query)) >= 2
  {
  }

  /**
   * createUrl: the keyword search for a query, the full anime list without
   * one. `encode` stands for encodeURIComponentReplaceSpaces.
   */
  function CreateUrl(query: string, encode: (string, string) -> string): (url: string)
    ensures StartsWith(url, Homepage)
    ensures url == Homepage + "/AnimeList" <==> query == ""
    ensures query != "" && Utf16Length(query) < 2 ==> url == Homepage + "/Search/Anime?keyword=" + encode(query + query, "+")
    ensures Utf16Length(query) >= 2 ==> url == Homepage + "/Search/Anime?keyword=" + encode(query, "+")
  {
    if query != "" then
      var url := Homepage + "/Search/Anime?keyword=" + encode(SearchTerm(query), "+");
      assert url[|Homepage| + 1] == 'S';
      assert url[..|Homepage|] == Homepage;
      url
    else Homepage + "/AnimeList"
  }

  /** A page of rows read from a table: how many leading rows are headers and whether rows can be counted. */
  datatype TableTarget = TableTarget(rowSelector: string, rowSkips: nat, cannotCount: bool)

  const SearchRows := TableTarget("table.listing tbody tr", 2, false)
  const EpisodeRows := TableTarget("table.listing tbody tr", 2, true)

  /** The rows of a table that hold data: what remains after the header rows. */
  function DataRows<Row>(target: TableTarget, rows: seq<Row>): (data: seq<Row>)
    ensures |data| == if |rows| <= target.rowSkips then 0 else |rows| - target.rowSkips
    ensures forall i :: 0 <= i < |data| ==> data[i] == rows[i + target.rowSkips]
  {
    if |rows| <= target.rowSkips then [] else rows[target.rowSkips..]
  }

  /** Search results and episode lists both start after two header rows; only the episode list cannot be counted. */
  lemma TablesSkipTwoHeaders<Row>(rows: seq<Row>)
    requires |rows| >= 2
    ensures |DataRows(SearchRows, rows)| == |rows| - 2 && |DataRows(EpisodeRows, rows)| == |rows| - 2
    ensures EpisodeRows.cannotCount && !SearchRows.cannotCount
  {
  }

  /** Where a listed show can be streamed. */
  datatype StreamerUrl = StreamerUrl(translation: TranslationType, url: string)

  /** streamerUrls: the one link of a listed show, typed by the suffix of its text. */
  function StreamerUrls(text: string, href: string): (urls: seq<StreamerUrl>)
    ensures |urls| == 1
    ensures urls[0].translation == TypeFromName(text)
    ensures StartsWith(urls[0].url, Homepage) && urls[0].url[|Homepage|..] == href
  {
    var url := Homepage + href;
    assert url[..|Homepage|] == Homepage;
    [StreamerUrl(TypeFromName(text), url)]
  }

  // ---------------------------------------------------------------------------
  // The show page
  // ---------------------------------------------------------------------------

  const PageTitleMiddle := " anime | Watch "
  const PageTitleEnd := " anime online in high quality"

  /** The characters JavaScript's `.` does not match. */
  predicate IsLineTerminator(c: char) {
    c == '\n' || c == '\r' || c == '\U{2028}' || c == '\U{2029}'
  }

  /** Text that JavaScript's `.` matches throughout. */
  predicate OneLine(s: string) {
    forall i :: 0 <= i < |s| ==> !IsLineTerminator(s[i])
  }

  lemma OneLineConcat(a: string, b: string)
    requires OneLine(a) && OneLine(b)
    ensures OneLine(a + b)
  {
    forall i | 0 <= i < |a + b| ensures !IsLineTerminator((a + b)[i]) {
      if i >= |a| {
        assert (a + b)[i] == b[i - |a|];
      }
    }
  }

  /**
   * checkIfPage, on the cleaned page title: it matches
   * `^.* anime \| Watch .* anime online in high quality$`.
   */
  predicate IsShowPage(title: string) {
    OneLine(title)
    && EndsWith(title, PageTitleEnd)
    && exists i :: 0 <= i <= |title| - |PageTitleEnd| - |PageTitleMiddle| && MatchAt(title, PageTitleMiddle, i)
  }

  /** Any show's title page, "<name> anime | Watch <name> anime online in high quality", is recognised. */
  lemma ShowPageTitle(name: string, again: string)
    requires OneLine(name) && OneLine(again)
    ensures IsShowPage(name + PageTitleMiddle + again + PageTitleEnd)
  {
    var t := name + PageTitleMiddle + again + PageTitleEnd;
    assert t[|name|..|name| + |PageTitleMiddle|] == PageTitleMiddle;
    assert MatchAt(t, PageTitleMiddle, |name|);
    assert t[|t| - |PageTitleEnd|..] == PageTitleEnd;
    assert OneLine(PageTitleMiddle) && OneLine(PageTitleEnd);
    OneLineConcat(name, PageTitleMiddle);
    OneLineConcat(name + PageTitleMiddle, again);
    OneLineConcat(name + PageTitleMiddle + again, PageTitleEnd);
  }

  /** Every recognised title reads "<a> anime | Watch <b> anime online in high quality" on one line. */
  lemma ShowPageTitleForm(title: string)
    requires IsShowPage(title)
    ensures exists a, b :: title == a + PageTitleMiddle + b + PageTitleEnd
    ensures OneLine(title)
  {
    var i :| 0 <= i <= |title| - |PageTitleEnd| - |PageTitleMiddle| && MatchAt(title, PageTitleMiddle, i);
    var j, k := i + |PageTitleMiddle|, |title| - |PageTitleEnd|;
    var a, b := title[..i], title[j..k];
    assert title[i..j] == PageTitleMiddle;
    assert title[k..] == PageTitleEnd;
    assert title[..j] == a + PageTitleMiddle;
    assert title[..k] == title[..j] + b;
    assert title == title[..k] + title[k..];
  }

  /**
   * type: the first of the valid show types, in their own order, that is
   * listed among the genres; None (undefined) when none is.
   */
  function TypeOf(genres: seq<string>, validTypes: seq<string>): (r: Option<string>)
    ensures r.Some? ==> r.value in genres && r.value in validTypes
    ensures r.None? <==> forall k :: 0 <= k < |validTypes| ==> validTypes[k] !in genres
    ensures r.Some? ==> exists k :: 0 <= k < |validTypes| && validTypes[k] == r.value
                          && forall j :: 0 <= j < k ==> validTypes[j] !in genres
    decreases |validTypes|
  {
    if validTypes == [] then None
    else if validTypes[0] in genres then
      Some(validTypes[0])
    else
      var rest := TypeOf(genres, validTypes[1..]);
      assert forall k :: 0 <= k < |validTypes[1..]| ==> validTypes[1..][k] == validTypes[k + 1];
      if rest.Some? then
        var k :| 0 <= k < |validTypes[1..]| && validTypes[1..][k] == rest.value
                 && forall j :: 0 <= j < k ==> validTypes[1..][j] !in genres;
        assert validTypes[k + 1] == rest.value;
        assert forall j :: 0 <= j < k + 1 ==> validTypes[j] !in genres by {
          forall j | 0 <= j < k + 1 ensures validTypes[j] !in genres {
            if j > 0 { assert validTypes[j] == validTypes[1..][j - 1]; }
          }
        }
        rest
      else
        assert forall k :: 0 <= k < |validTypes| ==> validTypes[k] !in genres by {
          forall k | 0 <= k < |validTypes| ensures validTypes[k] !in genres {
            if k > 0 { assert validTypes[k] == validTypes[1..][k - 1]; }
          }
        }
        rest
  }

  /** A genre kept on the show: neither a show type nor the "Dub" marker. */
  predicate IsGenre(genre: string, validTypes: seq<string>) {
    genre !in validTypes && genre != "Dub"
  }

  /** genres: the listed genres in their order, without show types and "Dub". */
  function GenresOf(genres: seq<string>, validTypes: seq<string>): (r: seq<string>)
    ensures |r| <= |genres|
    ensures forall g :: g in r <==> g in genres && IsGenre(g, validTypes)
    ensures forall g :: multiset(r)[g] == if IsGenre(g, validTypes) then multiset(genres)[g] else 0
    decreases |genres|
  {
    if genres == [] then []
    else
      var rest := GenresOf(genres[1..], validTypes);
      assert genres == [genres[0]] + genres[1..];
      assert forall g :: g in genres <==> g == genres[0] || g in genres[1..];
      if IsGenre(genres[0], validTypes) then [genres[0]] + rest else rest
  }

  /** The filter keeps the order: the genres of two runs of entries are those of the first run followed by those of the second. */
  lemma {:induction false} GenresOfConcat(a: seq<string>, b: seq<string>, validTypes: seq<string>)
    ensures GenresOf(a + b, validTypes) == GenresOf(a, validTypes) + GenresOf(b, validTypes)
    decreases |a|
  {
    if a == [] {
      assert a + b == b;
    } else {
      assert (a + b)[0] == a[0];
      assert (a + b)[1..] == a[1..] + b;
      GenresOfConcat(a[1..], b, validTypes);
    }
  }

  /** Every listed genre ends up either as the show's type candidate, as a kept genre or as the "Dub" marker. */
  lemma GenresPartition(genres: seq<string>, validTypes: seq<string>, g: string)
    requires g in genres
    ensures g in GenresOf(genres, validTypes) || g in validTypes || g == "Dub"
    ensures !(g in GenresOf(genres, validTypes) && (g in validTypes || g == "Dub"))
  {
  }

  /** The show's type is never among its genres. */
  lemma TypeNotAGenre(genres: seq<string>, validTypes: seq<string>)
    requires TypeOf(genres, validTypes).Some?
    ensures TypeOf(genres, validTypes).value !in GenresOf(genres, validTypes)
  {
  }

  // ---------------------------------------------------------------------------
  // Related shows
  // ---------------------------------------------------------------------------

  /** rowIgnore: a related link is skipped when its path has more than two slashes. */
  predicate RowIgnore(href: string) {
    CountChar(href, '/') > 2
  }

  /** A link to a show page, /Anime/<name>, is kept; a link below it, such as an episode, is skipped. */
  lemma RowIgnoreShowLinks(name: string, below: string)
    requires Lacks(name, '/')
    ensures !RowIgnore("/Anime/" + name)
    ensures RowIgnore("/Anime/" + name + "/" + below)
  {
    CountCharLacks(name, '/');
    CountCharConcat("/Anime/", name, '/');
    CountCharConcat("/Anime/" + name, "/", '/');
    CountCharConcat("/Anime/" + name + "/", below, '/');
    assert "/Anime/"[1..] == "Anime/";
    assert "Anime/"[1..][1..][1..][1..][1..] == "/";
  }

  // ---------------------------------------------------------------------------
  // The episode list
  // ---------------------------------------------------------------------------

  /** The words of an episode link's text (`clean` stands for the cleanWhitespace helper). */
  function Words(text: string, clean: string -> string): (words: seq<string>)
    ensures |words| >= 1
  {
    Split(clean(text), " ")
  }

  /** episodeNumEnd: the last word, the part of the cleaned text after its last space. */
  function EpisodeNumEnd(text: string, clean: string -> string): (end: string)
    ensures EndsWith(clean(text), end) && Lacks(end, ' ')
    ensures |end| == |clean(text)| || clean(text)[|clean(text)| - |end| - 1] == ' '
  {
    var t := clean(text);
    var words := Split(t, " ");
    SplitLastIsSuffix(t, " ");
    SplitLastLacks(t, ' ');
    SplitLastAfterSep(t, ' ');
    words[|words| - 1]
  }

  /**
   * The start of the episode range read off the words: the word before "-"
   * when the last word is numeric and follows a "-"; None where the source
   * pops an empty array (undefined).
   */
  function EpisodeStartOf(words: seq<string>, isNumeric: string -> bool): Option<string>
    requires |words| >= 1
  {
    var last := words[|words| - 1];
    var n := |words|;
    if isNumeric(last) && n >= 2 && words[n - 2] == "-" then
      if n >= 3 then Some(words[n - 3]) else None
    else Some(last)
  }

  /** episodeNumStart: pops the last word, then the one before, then the start. */
  method EpisodeNumStart(text: string, clean: string -> string, isNumeric: string -> bool) returns (start: Option<string>)
    ensures start == EpisodeStartOf(Words(text, clean), isNumeric)
  {
    var words := Split(clean(text), " ");
    ghost var all := words;
    var lastWord := words[|words| - 1];
    words := words[..|words| - 1];
    if isNumeric(lastWord) {
      var before: Option<string> := None;
      if |words| > 0 {
        before := Some(words[|words| - 1]);
        words := words[..|words| - 1];
      }
      if before == Some("-") {
        if |words| > 0 {
          return Some(words[|words| - 1]);
        }
        return None;
      }
    }
    return Some(lastWord);
  }

  /** A link reading "... <a> - <b>" with a numeric `b` is the range from `a` to `b`. */
  lemma EpisodeRange(text: string, clean: string -> string, isNumeric: string -> bool,
                     prefix: seq<string>, a: string, b: string)
    requires forall i :: 0 <= i < |prefix| ==> Lacks(prefix[i], ' ')
    requires Lacks(a, ' ') && Lacks(b, ' ') && isNumeric(b)
    requires clean(text) == Join(prefix + [a, "-", b], " ")
    ensures EpisodeStartOf(Words(text, clean), isNumeric) == Some(a)
    ensures EpisodeNumEnd(text, clean) == b
  {
    var words := prefix + [a, "-", b];
    forall i | 0 <= i < |words| ensures Lacks(words[i], ' ') {
      if i < |prefix| {
        assert words[i] == prefix[i];
      } else if i == |prefix| + 1 {
        assert words[i] == "-";
      }
    }
    SplitJoinChar(words, ' ');
  }

  /** A link whose last word is not a numeric end after "-" is a single episode: start and end agree. */
  lemma SingleEpisode(text: string, clean: string -> string, isNumeric: string -> bool)
    requires var w := Words(text, clean);
             !isNumeric(w[|w| - 1]) || |w| < 2 || w[|w| - 2] != "-"
    ensures EpisodeStartOf(Words(text, clean), isNumeric) == Some(EpisodeNumEnd(text, clean))
  {
  }

  /** One video source of an episode. */
  datatype Source = Source(name: string, url: string, flags: seq<string>)

  const SourceFlags: seq<string> := ["cloudflare", "mixed-content"]

  /** The servers an episode page offers, with the `s` parameter that selects each. */
  const Servers: seq<(string, string)> :=
    [("Openload", "openload"), ("RapidVideo", "rapidvideo"), ("Streamango", "streamango"), ("Beta Server", "beta")]

  /** sourceUrl: the episode page on the site. */
  function SourceUrl(href: string): string {
    Homepage + href
  }

  /** sources: one source per server, on the episode page with the server selected. */
  function Sources(href: string): (sources: seq<Source>)
    ensures |sources| == 4
    ensures forall i :: 0 <= i < 4 ==>
      sources[i].name == Servers[i].0 && sources[i].flags == SourceFlags
      && sources[i].url == SourceUrl(href) + "&s=" + Servers[i].1
  {
    var base := SourceUrl(href);
    [Source("Openload", base + "&s=openload", SourceFlags),
     Source("RapidVideo", base + "&s=rapidvideo", SourceFlags),
     Source("Streamango", base + "&s=streamango", SourceFlags),
     Source("Beta Server", base + "&s=beta", SourceFlags)]
  }

  /** Every source leads to the episode page itself, so the sources differ only by their server. */
  lemma SourcesShareEpisode(href: string)
    ensures forall i :: 0 <= i < 4 ==> StartsWith(Sources(href)[i].url, SourceUrl(href) + "&s=")
    ensures forall i, j :: 0 <= i < j < 4 ==> Sources(href)[i].url != Sources(href)[j].url
  {
  }
}
