# AnimeSentinel core in Dafny

AnimeSentinel is an anime streaming aggregator. It keeps a catalog of shows,
drawn from MyAnimeList (MAL) and from streaming sites, and the videos found
for them. This project models three parts of it and proves properties of them:

- **MAL client** (`mal.dfy`, module `MyAnimeList`):
  - normalising the results of the XML search API;
  - shaping the scraped search listing into search hits;
  - resolving a title to a MAL id: API results first, then the detail pages of the first eight scraped ids;
  - reading a show's detail page: alternative titles, episode count, episode duration, genres, aired dates, thumbnail id.
- **Show record** (`show.dfy`, module `Shows`):
  - whether a show is airing or has finished, per translation type (sub or dub);
  - the sub and dub status lines, the expected-airing line and the genre line;
  - the LIKE pattern that finds a show by title;
  - how a show URL (id plus title slug) is resolved to a show;
  - the guard that refreshes at most one show cache per process.
- **KissAnime adapter** (`kissanime.dfy`, module `KissAnime`):
  - show names that carry their translation type as a suffix;
  - the search URL;
  - the show-page check, and the type and genres read from the show page;
  - which related links are shows;
  - how an episode row gives its episode range and its four video sources.

`common.dfy` holds what the three share:
- module `Wrappers`: `Option`;
- module `Strings`: the PHP and JavaScript string built-ins the code relies on (`explode`/`split`, `implode`/`join`, `trim`, `strtolower`, integer coercion, `str_replace`, `empty`, UTF-16 length);
- module `Domain`: calendar days and the translation type.

Helpers of the repository whose code is not part of this model are parameters of the members that call them. No behaviour is assumed of them, except where a lemma states in its requires what it needs of their output on one input:
- `str_get_between`, `mergeFlagAlts`, `match_fuzzy`, `str_fuzz`, `slugify`, `is_numeric`, `json_encode`, `ucwords`;
- Carbon's `createFromFormat` and `toFormattedDateString`;
- `cleanWhitespace`, `isNumeric`, `encodeURIComponentReplaceSpaces`;
- `Shows.validTypes`.

The data the network or the database would deliver is input: parsed XML entries, page text, scraped rows, and the shows found by id or by title. Today's date is a parameter.

The code, as modelled, behaves as follows (the model follows it everywhere except for the two defects listed under "Findings": there the operations use the corrected helper, and "Left out" says which):
- alternative titles come only from the line labelled "Japanese:" (app/AnimeSentinel/MyAnimeList.php:138);
- genres are kept as listed, duplicates included;
- in `getMalIdForTitle` the alternatives gathered for one API result are never reset, so each result is matched with those of all earlier results as well (app/AnimeSentinel/MyAnimeList.php:95-97);
- the KissAnime adapter reads the type and filters genres with `Shows.validTypes`, not its own `validTypes` constant (website/imports/streamers/_kissanime.js:13, 100, 108).

## Model

| member | source | states |
|---|---|---|
| MyAnimeList.QueryParam | app/AnimeSentinel/MyAnimeList.php:18 | the query in a catalog URL has every space turned into '+' and is otherwise unchanged, so it holds no space |
| MyAnimeList.Synonyms | app/AnimeSentinel/MyAnimeList.php:42-47 | an empty synonyms element gives no synonyms; a text gives at least one piece, no piece holds "; ", and the pieces joined with "; " give the text back, so the text is cut at every "; " |
| MyAnimeList.SearchApi | app/AnimeSentinel/MyAnimeList.php:35-52 | no XML gives no results; otherwise one result per entry, in order, each the entry normalised and flagged as from MAL |
| MyAnimeList.EnglishNormalised | app/AnimeSentinel/MyAnimeList.php:41 | a result's English title is empty exactly when the entry had no English string or an empty one |
| MyAnimeList.SynonymsAsWrittenKeepQuote | app/AnimeSentinel/MyAnimeList.php:42-44 | as written, the first synonym of any text starts with the opening quote that `json_encode` puts around every string |
| MyAnimeList.SynonymsAsWrittenDiffer | app/AnimeSentinel/MyAnimeList.php:42-44 | as written, with any string encoding that adds the two quotes, the synonyms never join back to the text and always differ from the corrected list |
| MyAnimeList.SynonymsAsWrittenExample | app/AnimeSentinel/MyAnimeList.php:42-44 | "A; B", which `json_encode` writes as `"A; B"` in quotes, gives `"A` and `B"` as written, and "A" and "B" when corrected |
| MyAnimeList.Hit | app/AnimeSentinel/MyAnimeList.php:68-80 | a hit keeps the row's id and title and is flagged as from MAL; its thumbnail URL is empty exactly when the scraped path is PHP-empty and is otherwise the MAL image prefix followed by that path; its details URL is the MAL anime prefix followed by the id |
| MyAnimeList.Search | app/AnimeSentinel/MyAnimeList.php:59-82 | the hits are the first min(n, 64) rows, each shaped as a hit, in order |
| MyAnimeList.FirstApiMatch | app/AnimeSentinel/MyAnimeList.php:93-104 | the result found is one whose gathered alternatives match the title, and no earlier result's do; None means no result's do |
| MyAnimeList.FirstProbeMatch | app/AnimeSentinel/MyAnimeList.php:111-120 | the probed id found is one whose page lists a matching alternative, and no earlier one does; None means none does |
| MyAnimeList.MalIdForTitle | app/AnimeSentinel/MyAnimeList.php:90-123 | the id found is that of an API result or one of the first eight scraped ids; there is none exactly when neither the API results nor the probed ids match |
| MyAnimeList.MalIdFirstApi | app/AnimeSentinel/MyAnimeList.php:93-104 | when the k-th API result is the first whose gathered alternatives match the title, its id is returned |
| MyAnimeList.MalIdFirstProbe | app/AnimeSentinel/MyAnimeList.php:106-120 | when no API result matches and the k-th of the first eight scraped ids is the first whose page lists a matching alternative, that id is returned |
| MyAnimeList.HasMatch | app/AnimeSentinel/MyAnimeList.php:99-103 | the inner loop reports a match exactly when some alternative fuzzily matches the title |
| MyAnimeList.GetMalIdForTitle | app/AnimeSentinel/MyAnimeList.php:90-123 | the nested loops with early return compute the id of the first matching API result, else of the first matching probed id, else none |
| MyAnimeList.ApiMatchShortCircuits | app/AnimeSentinel/MyAnimeList.php:92-107 | once an API result matches, an id is found and the scraped ids play no part |
| MyAnimeList.ProbesCapped | app/AnimeSentinel/MyAnimeList.php:108-110 | scraped ids past the eighth never change the answer |
| MyAnimeList.MalIdNotFound | app/AnimeSentinel/MyAnimeList.php:122 | no id is found exactly when no API result and none of the first eight scraped ids match |
| MyAnimeList.AltTitlesOfOthers | app/AnimeSentinel/MyAnimeList.php:137-142 | lines without the Japanese label contribute no alternative titles |
| MyAnimeList.AltTitlesOfJapaneseLine | app/AnimeSentinel/MyAnimeList.php:136-142 | a block whose one Japanese line lists titles yields exactly the ", "-separated pieces, which join back to the listed text |
| MyAnimeList.CollectAlts | app/AnimeSentinel/MyAnimeList.php:135-142 | the loop gives the main title followed by the Japanese titles of every line, in order, and nothing for other lines |
| MyAnimeList.EpisodeAmount | app/AnimeSentinel/MyAnimeList.php:144-146 | the episode count is the integer the field coerces to, and none exactly when that is 0: 0 means unknown |
| MyAnimeList.EpisodeAmountOfNumber | app/AnimeSentinel/MyAnimeList.php:144-146 | a decimal count with leading white space reads as that count, and 0 as unknown |
| MyAnimeList.EpisodeAmountOfWord | app/AnimeSentinel/MyAnimeList.php:144-146 | a field whose text does not start with a number, such as "Unknown", gives no episode count |
| MyAnimeList.Duration | app/AnimeSentinel/MyAnimeList.php:148-156 | the duration is never 0, since 0 means unknown; with more than one "hr." there is no duration |
| MyAnimeList.DurationOfMinutes | app/AnimeSentinel/MyAnimeList.php:150-151 | "Y min." gives Y minutes |
| MyAnimeList.DurationOfTwoParts | app/AnimeSentinel/MyAnimeList.php:152-155 | with one "hr." the number before it counts as hours and the number after it as minutes |
| MyAnimeList.DurationOfHoursMinutes | app/AnimeSentinel/MyAnimeList.php:148-156 | "X hr. Y min." gives X*60+Y minutes |
| MyAnimeList.ParseDuration | app/AnimeSentinel/MyAnimeList.php:148-156 | the step-by-step accumulation gives the duration above |
| MyAnimeList.GenresOf | app/AnimeSentinel/MyAnimeList.php:158-164 | every genre is lower case and there is at most one per item; when no item is blank there is exactly one per item, read off that item |
| MyAnimeList.GenresOfConcat | app/AnimeSentinel/MyAnimeList.php:158-164 | the genres of two runs of items are those of the first followed by those of the second, so page order is kept |
| MyAnimeList.GenresOfSnoc | app/AnimeSentinel/MyAnimeList.php:160-163 | one more item adds its trimmed, lower-cased link text when it is not blank, and nothing when it is |
| MyAnimeList.GenresOfNonBlank | app/AnimeSentinel/MyAnimeList.php:158-164 | without blank items, the k-th genre is the lower-cased, trimmed link text of the k-th item |
| MyAnimeList.CollectGenres | app/AnimeSentinel/MyAnimeList.php:158-164 | the loop collects the genres of the items, in order |
| MyAnimeList.ConvertAiring | app/AnimeSentinel/MyAnimeList.php:199-213 | three words give the full parsed date; two give day 1 of the parsed month; one gives 1 January of the parsed year; more give no date |
| MyAnimeList.AiringOf | app/AnimeSentinel/MyAnimeList.php:166-177 | "Not available" gives no dates; any other text gives the start read off one of its prefixes and the end read off one of its suffixes |
| MyAnimeList.AiringSingleDate | app/AnimeSentinel/MyAnimeList.php:168-177 | an aired text without " to " is both the start and the end |
| MyAnimeList.AiringRange | app/AnimeSentinel/MyAnimeList.php:168-177 | "A to B" gives A as the start and B as the end; a "?" end gives no end date |
| MyAnimeList.AiringFirstAndLast | app/AnimeSentinel/MyAnimeList.php:168-177 | a text of any number of sides joined by " to " gives the first side as the start and the last as the end; the sides between are ignored |
| MyAnimeList.AiringUnknownSides | app/AnimeSentinel/MyAnimeList.php:168-175 | "Not available" gives neither date, and a range "? to B" gives no start date |
| MyAnimeList.ParseAired | app/AnimeSentinel/MyAnimeList.php:166-177 | the aired steps give the start and end dates of the aired text |
| MyAnimeList.ThumbnailId | app/AnimeSentinel/MyAnimeList.php:179-182 | there is no thumbnail id exactly when the image path is PHP-empty; otherwise the id is the path with every '/' turned into '-' and every other character kept |
| MyAnimeList.AnimeDataOf | app/AnimeSentinel/MyAnimeList.php:130-197 | the record keeps the requested id; its episode count and duration are never 0; its type and genres hold no upper-case letter; its thumbnail id holds no '/' |
| MyAnimeList.GetAnimeData | app/AnimeSentinel/MyAnimeList.php:130-197 | the scraped record is the title, alternatives, description, type, genres, count, duration and aired dates read from the page |
| Shows.AiringPartition | app/Show.php:363-378 | a show with a latest episode is either airing or finished, never both; a show without one is neither |
| Shows.IsAiring | app/Show.php:363-367 | a show with a latest episode but no known episode count is airing; with a known count it is airing exactly when the latest episode is below it; without a latest episode it is not airing |
| Shows.FinishedAiring | app/Show.php:374-378 | a finished show has a latest episode and a known episode count that the latest episode has reached; a show with no known count never finishes |
| Shows.LocalStatus | app/Show.php:137-147 | a local show is "Currently Airing" iff airing, "Completed" iff finished, "Upcoming" iff it has no episode |
| Shows.CatalogStatus | app/Show.php:148-158 | never "Unknown"; "Upcoming" exactly when there is no start or today is before it, "Completed" exactly when start and end are known and the end is before today, and "Currently Airing" otherwise |
| Shows.StatusSub | app/Show.php:136-159 | the sub status is never "Unknown"; local shows go by their videos; catalog shows are "Upcoming" iff there is no start or today is before it, "Completed" iff both dates are known, the start is not after today and the end is before today, and "Currently Airing" between start and end |
| Shows.CatalogStatusMonotone | app/Show.php:148-158 | a catalog show's status never moves back as the days pass |
| Shows.CatalogStatusOpenEnded | app/Show.php:152-154 | a catalog show without an end date never completes |
| Shows.StatusDub | app/Show.php:160-175 | the dub status is "Unknown" exactly for catalog shows; local shows go by their dubbed videos |
| Shows.ExpectedAiring | app/Show.php:122-132 | the line is "Unknown" iff neither date is known; otherwise it starts with the start side and " to " and ends with " to " and the end side, "?" marking an unknown side, and nothing else is in the line: its length is that of the two sides plus four |
| Shows.ExpectedAiringSides | app/Show.php:127-130 | the two sides are read back by splitting the line at " to " |
| Shows.PrintGenres | app/Show.php:87-99 | the loop gives "Unknown" for no genres, else the title-cased genres joined by ", " with no trailing separator |
| Shows.GenresTextSplits | app/Show.php:87-99 | a genre line splits back into the title-cased genres when none holds a comma |
| Shows.ColonReplaceClean | app/Show.php:213 | after ": " becomes "% " no ':' is followed by a space |
| Shows.TitleWildcardsClean | app/Show.php:211-213 | the title pattern holds no '&' and no ": " |
| Shows.GreekToWildcard | app/Show.php:215 | no Greek letter is left; a Greek letter becomes the LIKE pattern `\u03__` for the Greek block and any other character stays, and a title without Greek letters is unchanged |
| Shows.GreekToWildcardConcat | app/Show.php:215 | the text is rewritten character by character: the rewrite of two texts joined is the two rewrites joined |
| Shows.EscapeAsWrittenMissesSecond | app/Show.php:217 | as written, the JSON text of a//b keeps a single backslash before its second slash: 3 backslashes out, not 4 |
| Shows.EscapeDoublesBackslashes | app/Show.php:216-217 | the corrected escape doubles every backslash of a quoted JSON text with no two backslashes side by side |
| Shows.RemoveFirst | app/Show.php:220 | exactly one character goes when the character occurs, and the text is unchanged when it does not |
| Shows.RemoveFirstAt | app/Show.php:220 | the character dropped is its first occurrence; everything before and after it is kept, in order |
| Shows.RemoveLast | app/Show.php:220 | exactly one character goes when the character occurs, and the text is unchanged when it does not |
| Shows.RemoveLastAt | app/Show.php:220 | the character dropped is its last occurrence; everything before and after it is kept, in order |
| Shows.WrapQuotedJson | app/Show.php:219-223 | full mode wraps the quoted JSON text in `%`; partial mode drops its quotes and wraps it in `%"%` |
| Shows.TitlePatternPlain | app/Show.php:208-225 | a title whose fuzzed text has no '&', ':', Greek letter or backslash, and that JSON writes as that text in quotes, is looked for as that text between the quotes in full mode, and anywhere inside a quoted alt in partial mode |
| Shows.UrlTitle | app/Show.php:337-345 | the title searched for is the URL title with '⧸' turned into '/', '⧹' into a backslash and the non-breaking hyphen into a space, every other character kept; none of the three look-alikes is left |
| Shows.ShowFromUrl | app/Show.php:319-356 | a show found by id is returned only when the id is numeric and the URL title is empty or the slug of its title or an alt; a show by title or a new show only for a non-empty title, searched with the look-alikes turned back; a new show only when the title search finds none |
| Shows.AltSlugMatches | app/Show.php:329-333 | the alt loop finds a match exactly when the URL title is the slug of some alt |
| Shows.GetShowFromUrl | app/Show.php:319-356 | the early returns and the replacement loop give the decision: show by id, show by title, new show, or none |
| Shows.ShowFromUrlNone | app/Show.php:319-356 | no show is returned exactly when the title is empty and no show was found by id |
| Shows.ShowFromUrlPrefersId | app/Show.php:324-334 | a show found by id whose alt slug is the URL title is returned, whatever the title search gives |
| Shows.ShowFromUrlByTitle | app/Show.php:337-353 | with no show by id and a non-empty title, the show found for the cleaned title is returned, else a new show with that title is requested |
| Shows.CacheGuard.constructor | app/Show.php:11 | the refresh counter starts at 0 |
| Shows.CacheGuard.HandleCaching | app/Show.php:497-503 | a refresh runs iff the show is local, no refresh has run yet and the cache is at least as old as the threshold; the counter grows by one exactly when it runs |
| Shows.NoRefreshAfterOne | app/Show.php:499-500 | once the counter is at 1, no call refreshes |
| Shows.AtMostOneRefresh | app/Show.php:497-503 | any run of calls from a fresh process refreshes at most one show |
| Shows.RefreshWhenStale | app/Show.php:499-501 | a run of calls refreshes exactly when one of them is for a local show whose cache is past its threshold |
| Shows.RunCaching | app/Show.php:497-503 | calling handleCaching on one counter for each call in turn refreshes as many shows as the refresh count of the run, and the counter grows by that many |
| Shows.ProcessRefreshes | app/Show.php:497-503 | a process, starting from a zero counter, refreshes at most one show cache, and one exactly when some call is for a stale local show |
| KissAnime.StripSuffix | website/imports/streamers/_kissanime.js:6 | a name ending with the suffix loses exactly it; any other name is unchanged |
| KissAnime.CleanName | website/imports/streamers/_kissanime.js:5-7 | the name is the clean name followed by nothing, " (Dub)", " (Sub)", or " (Sub) (Dub)"; the name is unchanged exactly when it ends in neither suffix |
| KissAnime.TypeFromName | website/imports/streamers/_kissanime.js:9-11 | a name is dubbed exactly when it ends with " (Dub)"; a name ending with " (Sub)" is subbed |
| KissAnime.NameRoundTrip | website/imports/streamers/_kissanime.js:5-11 | for a name with either suffix, the type is read back and cleaning gives the plain name; " (Sub) (Dub)" is removed as a whole too |
| KissAnime.PlainNameIsSub | website/imports/streamers/_kissanime.js:5-11 | a name with neither suffix is subbed and cleaning leaves it unchanged |
| KissAnime.SearchTerm | website/imports/streamers/_kissanime.js:26 | the term is the query or the query twice; a query of two or more UTF-16 units is kept as it is |
| KissAnime.SearchTermLength | website/imports/streamers/_kissanime.js:25-27 | a non-empty query is searched with at least two UTF-16 units |
| KissAnime.CreateUrl | website/imports/streamers/_kissanime.js:24-42 | the URL is always on the site, and is the anime list exactly when there is no query; a one-unit query is searched as itself twice, and a query of two or more UTF-16 units as itself |
| KissAnime.DataRows | website/imports/streamers/_kissanime.js:44 | the data rows are the rows after the header rows, in order |
| KissAnime.TablesSkipTwoHeaders | website/imports/streamers/_kissanime.js:143-147 | search results and episode lists both drop two header rows; only the episode list cannot be counted |
| KissAnime.StreamerUrls | website/imports/streamers/_kissanime.js:48-53 | one link, typed by the suffix of its text, at the site followed by the link's path |
| KissAnime.ShowPageTitle | website/imports/streamers/_kissanime.js:73-75 | a page title naming the show in the site's "anime, Watch, anime online in high quality" pattern is recognised as a show page |
| KissAnime.ShowPageTitleForm | website/imports/streamers/_kissanime.js:73-75 | conversely, every title recognised as a show page is one line of the form "a anime, Watch b anime online in high quality" |
| KissAnime.TypeOf | website/imports/streamers/_kissanime.js:96-103 | the type is the first valid type, in the valid types' order, that is among the genres; none iff no valid type is |
| KissAnime.GenresOf | website/imports/streamers/_kissanime.js:104-110 | the genres kept are the listed ones that are neither a valid type nor "Dub", each as often as it is listed |
| KissAnime.GenresOfConcat | website/imports/streamers/_kissanime.js:104-110 | the filter keeps the order: the genres of two runs of entries are those of the first followed by those of the second |
| KissAnime.GenresPartition | website/imports/streamers/_kissanime.js:96-110 | every listed genre is kept, or is a valid type or "Dub", never both |
| KissAnime.TypeNotAGenre | website/imports/streamers/_kissanime.js:96-110 | the show's type is never among its kept genres |
| KissAnime.RowIgnoreShowLinks | website/imports/streamers/_kissanime.js:125-127 | a show link /Anime/name is kept and any link below it is ignored |
| KissAnime.EpisodeNumEnd | website/imports/streamers/_kissanime.js:163-165 | the episode end is a suffix of the cleaned link text, holds no space, and is either the whole text or preceded by a space: it is the last word |
| KissAnime.EpisodeNumStart | website/imports/streamers/_kissanime.js:151-162 | the pops compute the start word: the word before "-" after a numeric last word, undefined when there is none, else the last word |
| KissAnime.EpisodeRange | website/imports/streamers/_kissanime.js:151-165 | "... a - b" with a numeric b starts at a and ends at b |
| KissAnime.SingleEpisode | website/imports/streamers/_kissanime.js:151-165 | when the last word is not a numeric end after "-", start and end are the same word |
| KissAnime.Sources | website/imports/streamers/_kissanime.js:172-191 | exactly four sources, Openload, RapidVideo, Streamango and Beta Server, each on the episode URL with its server selected and flagged cloudflare and mixed-content |
| KissAnime.SourcesShareEpisode | website/imports/streamers/_kissanime.js:172-191 | every source URL starts with the episode URL and "&s=", and no two are equal |

## Left out

- Network and database access are not modelled. This covers the curl call of `searchApiXml`, `Downloaders::downloadPage`, `Show::find`, the `whereLike` query execution and the `latest_sub`/`latest_dub` queries. Their results are inputs.
- `ShowManager::addShowWithTitle` and `ShowManager::updateShowCache` are not part of this model. `Shows.GetShowFromUrl` returns the title it would hand to the first, and `Shows.CacheGuard.HandleCaching` returns whether it would call the second.
- `Show::search` is not modelled. It is a database query, and its ordering rests on `similar_text` float percentages.
- Show's other accessors and print helpers are not modelled: `printAlts`, `printType`, `printTotalEpisodes`, the duration lines, `printSeason`, `printLatest*` and the URL accessors. Each formats one attribute.
- The `json_decode` of the alts and genres columns is not modelled.
- `rand(168, 336)` becomes the `threshold` parameter.
- Shows.StatusSub: compares whole days. The source compares date-times whose time of day comes from Carbon's parsing; on whole days "end of today < start" and "start of today <= end" are the comparisons modelled.
- MyAnimeList.ConvertAiring: Carbon's `createFromFormat` is a parameter. Its handling of malformed text, where it returns false, is not modelled.
- MyAnimeList.Duration: PHP's arithmetic on numeric strings is modelled for integer prefixes only. Fractions such as "1.5 hr." are not modelled, nor is PHP 8's TypeError on a wholly non-numeric string.
- MyAnimeList.EpisodeAmount: does not model the 64-bit overflow of PHP's `settype`.
- Episode numbers are integers in the model. The source compares whatever number the video records hold.
- The escaping of `json_encode` itself, and `str_fuzz`, are parameters. The lemmas that need `json_encode`'s output state it for the inputs they use.
- MyAnimeList.SearchApi: builds the synonyms with the corrected `MyAnimeList.Synonyms`, so it does not return the quoted first and last pieces the code returns (see "Findings"); the code as written is `MyAnimeList.SynonymsAsWritten`.
- Shows.TitlePattern: escapes the JSON text with the corrected `Shows.Escape`, so it doubles the second of two adjacent short escapes, which the code does not (see "Findings"); the code as written is `Shows.EscapeAsWritten`.
- KissAnime's CSS selectors, `altNames`, `description`, the thumbnail getters and `ScrapingHelpers.replaceDescriptionCutoff` are not modelled. The text the selectors pick out is input.
- The generic scraper that applies `rowSkips` is not part of this model. `KissAnime.DataRows` is the reading of `rowSkips` the model uses.
- The `count` string extension used by `rowIgnore` is not part of this model. It is taken to count occurrences.
- website/imports/api/episodes/publications.js is not part of this model: it only wraps Meteor publications.

## Findings

| source | as written | input that shows it | evidently intended | confidence | as-written member | corrected member |
|---|---|---|---|---|---|---|
| app/AnimeSentinel/MyAnimeList.php:42-44 | explodes `json_encode` of the synonyms text, so the JSON quotes stay on the first and last synonyms | synonyms text `A; B` gives `"A` and `B"` | the synonyms `A` and `B` | high, not executed | MyAnimeList.SynonymsAsWrittenExample | MyAnimeList.Synonyms |
| app/Show.php:217 | the escape of lone backslashes consumes the character after each backslash it doubles, so two short JSON escapes side by side get only the first doubled | title `a//b`, whose JSON text is `"a\/\/b"`, escapes to `"a\\/\/b"` | every lone backslash doubled: `"a\\/\\/b"` | medium, not executed | Shows.EscapeAsWrittenMissesSecond | Shows.EscapeDoublesBackslashes |
