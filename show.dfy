/**
 * The show record of the back end (app/Show.php): whether a show is airing,
 * the status and airing lines printed on its page, the genre list, the LIKE
 * pattern that finds a show by title, the decision that maps a show URL to a
 * show, and the guard that refreshes a cached show at most once per process.
 */
module Shows {
  import opened Wrappers
  import opened Strings
  import opened Domain

  /**
   * The attributes of a show that the modelled decisions read. `mal` marks a
   * show whose page is the catalog's own (the source's `mal` flag);
   * `latestSub` and `latestDub` are the episode numbers of the latest video of
   * each translation type, None when the show has no such video.
   */
  datatype Show = Show(
    mal: bool,
    title: string,
    alts: seq<string>,
    genres: seq<string>,
    episodeAmount: Option<int>,
    airingStart: Option<Date>,
    airingEnd: Option<Date>,
    latestSub: Option<int>,
    latestDub: Option<int>)
  {
    function Latest(t: TranslationType): Option<int> {
      match t
      case Sub => latestSub
      case Dub => latestDub
    }
  }

  // ---------------------------------------------------------------------------
  // isAiring and finishedAiring
  // ---------------------------------------------------------------------------

  /**
   * Episodes of this translation type exist and the last one is short of the
   * episode count, if known: a show with episodes but no known count is airing.
   */
  function IsAiring(show: Show, t: TranslationType): (airing: bool)
    ensures airing ==> show.Latest(t).Some?
    ensures show.Latest(t).Some? && show.episodeAmount.None? ==> airing
    ensures show.Latest(t).Some? && show.episodeAmount.Some? ==> (airing <==> show.Latest(t).value < show.episodeAmount.value)
  {
    var latest := show.Latest(t);
    latest.Some? && (show.episodeAmount.None? || latest.value < show.episodeAmount.value)
  }

  /**
   * Episodes of this translation type exist and the last one has reached the
   * known episode count: a show without a known count never finishes.
   */
  function FinishedAiring(show: Show, t: TranslationType): (finished: bool)
    ensures finished ==> show.Latest(t).Some? && show.episodeAmount.Some?
    ensures finished ==> show.Latest(t).value >= show.episodeAmount.value
    ensures show.episodeAmount.None? ==> !finished
  {
    var latest := show.Latest(t);
    latest.Some? && show.episodeAmount.Some? && latest.value >= show.episodeAmount.value
  }

  /** A show with a latest episode is airing or finished, never both; a show without one is neither. */
  lemma AiringPartition(show: Show, t: TranslationType)
    ensures !(IsAiring(show, t) && FinishedAiring(show, t))
    ensures IsAiring(show, t) || FinishedAiring(show, t) <==> show.Latest(t).Some?
  {
  }

  // ---------------------------------------------------------------------------
  // printStatusSub and printStatusDub
  // ---------------------------------------------------------------------------

  datatype Status = Upcoming | CurrentlyAiring | Completed | Unknown {
    /** The text printed on the show page. */
    function Label(): string {
      match this
      case Upcoming => "Upcoming"
      case CurrentlyAiring => "Currently Airing"
      case Completed => "Completed"
      case Unknown => "Unknown"
    }

    /** How far along the airing a status is. */
    function Stage(): nat {
      match this
      case Upcoming => 0
      case CurrentlyAiring => 1
      case Completed => 2
      case Unknown => 3
    }
  }

  /** The status of a local show, read off its videos: airing is checked before finished. */
  function LocalStatus(show: Show, t: TranslationType): (s: Status)
    ensures s == CurrentlyAiring <==> IsAiring(show, t)
    ensures s == Completed <==> FinishedAiring(show, t)
    ensures s == Upcoming <==> show.Latest(t).None?
  {
    if IsAiring(show, t) then CurrentlyAiring
    else if FinishedAiring(show, t) then Completed
    else Upcoming
  }

  /**
   * The status of a catalog show on `today`, read off its airing dates. The
   * source compares the end of today with the start date and the start of
   * today with the end date; on whole days these are "today is before the
   * start" and "the end is not before today".
   */
  function CatalogStatus(start: Option<Date>, end: Option<Date>, today: Date): (s: Status)
    ensures s != Unknown
    ensures s == Upcoming <==> start.None? || Before(today, start.value)
    ensures s == Completed <==> start.Some? && end.Some? && !Before(today, start.value) && Before(end.value, today)
    ensures s == CurrentlyAiring <==> start.Some? && !Before(today, start.value) && (end.None? || !Before(end.value, today))
  {
    if start.None? || Before(today, start.value) then Upcoming
    else if end.None? || !Before(end.value, today) then CurrentlyAiring
    else Completed
  }

  /** printStatusSub: local shows by their videos, catalog shows by their airing dates. */
  function StatusSub(show: Show, today: Date): (s: Status)
    ensures s != Unknown
    ensures !show.mal ==> s == LocalStatus(show, Sub)
    ensures show.mal ==> (s == Upcoming <==> show.airingStart.None? || Before(today, show.airingStart.value))
    ensures show.mal && show.airingStart.Some? && show.airingEnd.Some?
              && NotAfter(show.airingStart.value, today) && NotAfter(today, show.airingEnd.value)
            ==> s == CurrentlyAiring
    ensures show.mal ==>
      (s == Completed <==> show.airingStart.Some? && show.airingEnd.Some?
                           && NotAfter(show.airingStart.value, today) && Before(show.airingEnd.value, today))
  {
    if !show.mal then LocalStatus(show, Sub) else CatalogStatus(show.airingStart, show.airingEnd, today)
  }

  /** A catalog show's status only moves forward as the days pass. */
  lemma CatalogStatusMonotone(start: Option<Date>, end: Option<Date>, day: Date, later: Date)
    requires NotAfter(day, later)
    ensures CatalogStatus(start, end, day).Stage() <= CatalogStatus(start, end, later).Stage()
  {
  }

  /** A catalog show with no end date never completes. */
  lemma CatalogStatusOpenEnded(start: Option<Date>, today: Date)
    ensures CatalogStatus(start, None, today) != Completed
  {
  }

  /** printStatusDub: catalog shows have no dub status. */
  function StatusDub(show: Show): (s: Status)
    ensures s == Unknown <==> show.mal
    ensures !show.mal ==> s == LocalStatus(show, Dub)
  {
    if !show.mal then LocalStatus(show, Dub) else Unknown
  }

  // ---------------------------------------------------------------------------
  // printExpectedAiring
  // ---------------------------------------------------------------------------

  /** One side of the airing line: the formatted date, or "?" when it is not known. */
  function AiringText(date: Option<Date>, format: Date -> string): string {
    if date.None? then "?" else format(date.value)
  }

  /**
   * printExpectedAiring: "Unknown" when neither date is known, otherwise
   * "<start> to <end>" with "?" for an unknown side. `format` stands for
   * Carbon's toFormattedDateString.
   */
  function ExpectedAiring(start: Option<Date>, end: Option<Date>, format: Date -> string): (r: string)
    ensures r == "Unknown" <==> start.None? && end.None?
    ensures r != "Unknown" ==> StartsWith(r, AiringText(start, format) + " to ")
    ensures r != "Unknown" ==> EndsWith(r, " to " + AiringText(end, format))
    ensures r != "Unknown" ==> |r| == |AiringText(start, format)| + 4 + |AiringText(end, format)|
  {
    if start.None? && end.None? then "Unknown"
    else
      var a := AiringText(start, format);
      var r := a + " to " + AiringText(end, format);
      assert r[|a|] == ' ';
      assert r != "Unknown" by {
        if |r| == 7 {
          assert "Unknown"[|a|] != ' ';
        }
      }
      assert r[..|a + " to "|] == a + " to ";
      r
  }

  /** The two sides can be read back from the line when the start side does not run into the separator. */
  lemma ExpectedAiringSides(start: Option<Date>, end: Option<Date>, format: Date -> string)
    requires start.Some? || end.Some?
    requires SplitsCleanly(AiringText(start, format), " to ")
    requires !Contains(AiringText(end, format), " to ")
    ensures Split(ExpectedAiring(start, end, format), " to ") == [AiringText(start, format), AiringText(end, format)]
  {
    var a := AiringText(start, format);
    var b := AiringText(end, format);
    SplitConcat(a, b, " to ");
    SplitNoMatch(b, " to ");
  }

  // ---------------------------------------------------------------------------
  // printGenres
  // ---------------------------------------------------------------------------

  /** The genres, each title-cased (`titleCase` stands for PHP's ucwords). */
  function TitledGenres(genres: seq<string>, titleCase: string -> string): (r: seq<string>)
    ensures |r| == |genres|
    ensures forall i :: 0 <= i < |genres| ==> r[i] == titleCase(genres[i])
  {
    seq(|genres|, i requires 0 <= i < |genres| => titleCase(genres[i]))
  }

  /** What the genre line reads: "Unknown" without genres, else the title-cased genres joined by ", ". */
  function GenresText(genres: seq<string>, titleCase: string -> string): string {
    if |genres| == 0 then "Unknown" else Join(TitledGenres(genres, titleCase), ", ")
  }

  /** printGenres: appends each title-cased genre and a separator after all but the last. */
  method PrintGenres(genres: seq<string>, titleCase: string -> string) returns (text: string)
    ensures text == GenresText(genres, titleCase)
  {
    if |genres| > 0 {
      var n := |genres|;
      ghost var titled := TitledGenres(genres, titleCase);
      text := "";
      for i := 0 to n
        invariant i == 0 ==> text == ""
        invariant 0 < i ==> text == Join(titled[..i], ", ") + (if i < n then ", " else "")
      {
        text := text + titleCase(genres[i]);
        text := text + (if i < n - 1 then ", " else "");
        if i == 0 {
          assert titled[..1] == [titled[0]];
        } else {
          assert titled[..i + 1] == titled[..i] + [titled[i]];
          JoinSnoc(titled[..i], titled[i], ", ");
        }
      }
      assert titled[..n] == titled;
    } else {
      text := "Unknown";
    }
  }

  /** The genre line splits back into the title-cased genres when none of them holds a comma. */
  lemma GenresTextSplits(genres: seq<string>, titleCase: string -> string)
    requires |genres| >= 1
    requires forall i :: 0 <= i < |genres| ==> Lacks(titleCase(genres[i]), ',')
    ensures Split(GenresText(genres, titleCase), ", ") == TitledGenres(genres, titleCase)
  {
    var titled := TitledGenres(genres, titleCase);
    forall i | 0 <= i < |titled| - 1 ensures SplitsCleanly(titled[i], ", ") {
      LacksFirstSplitsCleanly(titled[i], ", ");
    }
    LacksFirstNoMatch(titled[|titled| - 1], ", ");
    SplitJoin(titled, ", ");
  }

  // ---------------------------------------------------------------------------
  // scopeWithTitle: the LIKE pattern for a title
  // ---------------------------------------------------------------------------

  /** Lets "&" match any connecting word and ": " match a plain space. */
  function TitleWildcards(title: string): string {
    ReplaceAll(ReplaceAll(title, "&", "%"), ": ", "% ")
  }

  /** No ':' directly followed by a space. */
  predicate NoColonSpace(s: string) {
    forall i :: 0 <= i < |s| - 1 ==> !(s[i] == ':' && s[i + 1] == ' ')
  }

  /** The first character after replacing ": " is '%' where a ": " started, and the original one elsewhere. */
  lemma ColonReplaceHead(s: string)
    requires s != []
    ensures ReplaceAll(s, ": ", "% ") != []
    ensures ReplaceAll(s, ": ", "% ")[0] == if |s| >= 2 && s[..2] == ": " then '%' else s[0]
  {
  }

  lemma {:induction false} ColonReplaceClean(s: string)
    ensures NoColonSpace(ReplaceAll(s, ": ", "% "))
    decreases |s|
  {
    var r := ReplaceAll(s, ": ", "% ");
    if |s| < 2 {
    } else if s[..2] == ": " {
      var rest := ReplaceAll(s[2..], ": ", "% ");
      ColonReplaceClean(s[2..]);
      assert r == "% " + rest;
      forall i | 0 <= i < |r| - 1 ensures !(r[i] == ':' && r[i + 1] == ' ') {
        if i >= 2 {
          assert r[i] == rest[i - 2] && r[i + 1] == rest[i - 1];
        }
      }
    } else {
      var rest := ReplaceAll(s[1..], ": ", "% ");
      ColonReplaceClean(s[1..]);
      assert r == [s[0]] + rest;
      forall i | 0 <= i < |r| - 1 ensures !(r[i] == ':' && r[i + 1] == ' ') {
        if i == 0 {
          ColonReplaceHead(s[1..]);
          assert s[0] == ':' ==> s[1] != ' ';
          assert rest[0] == '%' || rest[0] == s[1];
        } else {
          assert r[i] == rest[i - 1] && r[i + 1] == rest[i];
        }
      }
    }
  }

  /** After the wildcards no '&' and no ": " is left. */
  lemma TitleWildcardsClean(title: string)
    ensures Lacks(TitleWildcards(title), '&')
    ensures NoColonSpace(TitleWildcards(title))
  {
    var t := ReplaceAll(title, "&", "%");
    ReplaceCharRemoves(title, '&', '%');
    ColonReplaceClean(t);
    ReplaceLacks(t, ": ", "% ", '&');
  }

  /** Replacing with text free of `c` adds no `c`. */
  lemma {:induction false} ReplaceLacks(s: string, from: string, to: string, c: char)
    requires from != [] && Lacks(s, c) && Lacks(to, c)
    ensures Lacks(ReplaceAll(s, from, to), c)
    decreases |s|
  {
    if |s| < |from| {
    } else if s[..|from|] == from {
      assert Lacks(s[|from|..], c) by {
        forall i | 0 <= i < |s[|from|..]| ensures s[|from|..][i] != c {
          assert s[|from|..][i] == s[i + |from|];
        }
      }
      ReplaceLacks(s[|from|..], from, to, c);
      LacksConcat(to, ReplaceAll(s[|from|..], from, to), c);
    } else {
      assert Lacks(s[1..], c) by {
        forall i | 0 <= i < |s[1..]| ensures s[1..][i] != c {
          assert s[1..][i] == s[i + 1];
        }
      }
      ReplaceLacks(s[1..], from, to, c);
      LacksConcat([s[0]], ReplaceAll(s[1..], from, to), c);
    }
  }

  /** The lower-case and upper-case Greek letters α-ω and Α-Ω. */
  predicate IsGreekLetter(c: char) {
    ('\U{03B1}' <= c <= '\U{03C9}') || ('\U{0391}' <= c <= '\U{03A9}')
  }

  /** A LIKE pattern for any character of the Greek block 03xx, so that case does not matter. */
  const GreekWildcard: string := "\\u03__"

  /** Each Greek letter becomes the pattern for the Greek block. */
  function GreekToWildcard(s: string): (r: string)
    ensures forall i :: 0 <= i < |r| ==> !IsGreekLetter(r[i])
    ensures (forall i :: 0 <= i < |s| ==> !IsGreekLetter(s[i])) ==> r == s
    ensures |s| == 1 ==> r == if IsGreekLetter(s[0]) then GreekWildcard else s
  {
    if s == [] then []
    else
      var head := if IsGreekLetter(s[0]) then GreekWildcard else [s[0]];
      var rest := GreekToWildcard(s[1..]);
      assert forall i :: 0 <= i < |s[1..]| ==> s[1..][i] == s[i + 1];
      var r := head + rest;
      assert forall i :: |head| <= i < |r| ==> r[i] == rest[i - |head|];
      r
  }

  /** The text is rewritten piece by piece: each character on its own, as the ensures of GreekToWildcard give it. */
  lemma {:induction false} GreekToWildcardConcat(a: string, b: string)
    ensures GreekToWildcard(a + b) == GreekToWildcard(a) + GreekToWildcard(b)
    decreases |a|
  {
    if a == [] {
      assert a + b == b;
    } else {
      assert (a + b)[0] == a[0];
      assert (a + b)[1..] == a[1..] + b;
      GreekToWildcardConcat(a[1..], b);
    }
  }

  /**
   * The source's escape of "all unescaped backslashes" of the JSON text, as
   * written: preg_replace of `([^\\])\\([^\\])` by the two neighbours around a
   * doubled backslash. A match consumes the character after the backslash, so
   * the search resumes after it.
   */
  function EscapeAsWritten(s: string): string
    decreases |s|
  {
    if |s| < 3 then s
    else if s[0] != '\\' && s[1] == '\\' && s[2] != '\\' then [s[0], '\\', '\\', s[2]] + EscapeAsWritten(s[3..])
    else [s[0]] + EscapeAsWritten(s[1..])
  }

  /** A backslash at `i` with a character that is not a backslash on each side. */
  predicate LoneBackslashAt(s: string, i: int) {
    0 < i < |s| - 1 && s[i] == '\\' && s[i - 1] != '\\' && s[i + 1] != '\\'
  }

  /**
   * The escape as intended: every lone backslash doubled, each one judged by
   * its neighbours in the input (the neighbours are looked at, not consumed).
   */
  function EscapeFrom(s: string, i: nat): string
    requires i <= |s|
    decreases |s| - i
  {
    if i == |s| then []
    else (if LoneBackslashAt(s, i) then "\\\\" else [s[i]]) + EscapeFrom(s, i + 1)
  }

  function Escape(s: string): string {
    EscapeFrom(s, 0)
  }

  /** The escaped text has one extra backslash for each lone backslash from `i` on. */
  function LoneCount(s: string, i: nat): nat
    requires i <= |s|
    decreases |s| - i
  {
    if i == |s| then 0 else (if LoneBackslashAt(s, i) then 1 else 0) + LoneCount(s, i + 1)
  }

  lemma {:induction false} EscapeFromCount(s: string, i: nat)
    requires i <= |s|
    ensures CountChar(EscapeFrom(s, i), '\\') == CountChar(s[i..], '\\') + LoneCount(s, i)
    decreases |s| - i
  {
    if i < |s| {
      EscapeFromCount(s, i + 1);
      var head := if LoneBackslashAt(s, i) then "\\\\" else [s[i]];
      CountCharConcat(head, EscapeFrom(s, i + 1), '\\');
      assert s[i..][1..] == s[i + 1..];
    }
  }

  /** In text quoted like JSON with no two backslashes side by side, every backslash is lone. */
  lemma {:induction false} LoneCountAll(s: string, i: nat)
    requires 1 <= i <= |s| && s[|s| - 1] != '\\'
    requires forall k :: 0 <= k < |s| - 1 ==> s[k] != '\\' || s[k + 1] != '\\'
    ensures LoneCount(s, i) == CountChar(s[i..], '\\')
    decreases |s| - i
  {
    if i < |s| {
      LoneCountAll(s, i + 1);
      assert s[i..][1..] == s[i + 1..];
      if s[i] == '\\' {
        assert i < |s| - 1;
        assert LoneBackslashAt(s, i);
      }
    }
  }

  /** The intended escape doubles every backslash of a JSON string without adjacent backslashes. */
  lemma EscapeDoublesBackslashes(s: string)
    requires |s| >= 2 && s[0] != '\\' && s[|s| - 1] != '\\'
    requires forall k :: 0 <= k < |s| - 1 ==> s[k] != '\\' || s[k + 1] != '\\'
    ensures CountChar(Escape(s), '\\') == 2 * CountChar(s, '\\')
  {
    EscapeFromCount(s, 0);
    LoneCountAll(s, 1);
    assert s[0..] == s;
    assert s[1..] == s[0..][1..];
    assert LoneCount(s, 0) == LoneCount(s, 1);
  }

  /** The JSON text of the title a//b: two escaped slashes side by side. */
  const SlashesJson: string := "\"a\\/\\/b\""

  /** As written, the second escaped slash keeps its single backslash. */
  lemma EscapeAsWrittenMissesSecond()
    ensures CountChar(SlashesJson, '\\') == 2
    ensures EscapeAsWritten(SlashesJson) == "\"a\\\\/\\/b\""
    ensures CountChar(EscapeAsWritten(SlashesJson), '\\') == 3
  {
    var s := SlashesJson;
    assert s[3..] == "/\\/b\"";
    assert s[3..][1..] == "\\/b\"";
    assert s[3..][1..][1..] == "/b\"";
    assert s[3..][1..][1..][1..] == "b\"";
    var r := EscapeAsWritten(s);
    assert s[1..] == "a\\/\\/b\"";
    assert s[1..][1..] == "\\/\\/b\"";
    assert s[1..][1..][1..] == "/\\/b\"";
    var p1, p2, p3 := "\"a\\\\", "/\\", "/b\"";
    assert r == p1 + p2 + p3;
    assert p1[1..][1..] == "\\\\" && p1[1..][1..][1..] == "\\";
    assert CountChar(p1, '\\') == 2;
    assert p2[1..] == "\\" && CountChar(p2, '\\') == 1;
    assert p3[1..][1..] == "\"" && CountChar(p3, '\\') == 0;
    CountCharConcat(p1, p2, '\\');
    CountCharConcat(p1 + p2, p3, '\\');
  }

  /** The JSON text the title turns into, escaped for LIKE (json_encode stands as `jsonEncode`). */
  function TitleJson(title: string, fuzz: string -> string, jsonEncode: string -> string): string {
    Escape(jsonEncode(GreekToWildcard(TitleWildcards(fuzz(title)))))
  }

  /** Laravel's str_replace_first with an empty replacement: drops the first `c`, if any. */
  function RemoveFirst(s: string, c: char): (r: string)
    ensures |r| == |s| - (if Lacks(s, c) then 0 else 1)
    ensures Lacks(s, c) ==> r == s
  {
    if s == [] then []
    else if s[0] == c then s[1..]
    else [s[0]] + RemoveFirst(s[1..], c)
  }

  /** The `c` at `i`, with none before it, is the one dropped; the rest stays in order. */
  lemma {:induction false} RemoveFirstAt(s: string, c: char, i: nat)
    requires i < |s| && s[i] == c && Lacks(s[..i], c)
    ensures RemoveFirst(s, c) == s[..i] + s[i + 1..]
    decreases i
  {
    if i == 0 {
      assert s[..0] + s[1..] == s[1..];
    } else {
      assert s[0] == s[..i][0];
      assert s[1..][..i - 1] == s[..i][1..];
      RemoveFirstAt(s[1..], c, i - 1);
      assert s[1..][i..] == s[i + 1..];
      assert s[..i] == [s[0]] + s[1..][..i - 1];
    }
  }

  /** Laravel's str_replace_last with an empty replacement: drops the last `c`, if any. */
  function RemoveLast(s: string, c: char): (r: string)
    ensures |r| == |s| - (if Lacks(s, c) then 0 else 1)
    ensures Lacks(s, c) ==> r == s
  {
    if s == [] then []
    else if s[|s| - 1] == c then s[..|s| - 1]
    else RemoveLast(s[..|s| - 1], c) + [s[|s| - 1]]
  }

  /** The `c` at `i`, with none after it, is the one dropped; the rest stays in order. */
  lemma {:induction false} RemoveLastAt(s: string, c: char, i: nat)
    requires i < |s| && s[i] == c && Lacks(s[i + 1..], c)
    ensures RemoveLast(s, c) == s[..i] + s[i + 1..]
    decreases |s| - i
  {
    var n := |s| - 1;
    if i == n {
      assert s[n + 1..] == [];
    } else {
      assert s[n] == s[i + 1..][n - i - 1];
      assert s[..n][i + 1..] == s[i + 1..n];
      var mid := s[i + 1..n];
      assert Lacks(mid, c) by {
        forall k | 0 <= k < |mid| ensures mid[k] != c {
          assert mid[k] == s[i + 1..][k];
        }
      }
      RemoveLastAt(s[..n], c, i);
      assert s[..n][..i] == s[..i];
      assert s[i + 1..] == s[i + 1..n] + [s[n]];
    }
  }

  /** The final pattern around the JSON text of the title. */
  function WrapPattern(json: string, allowPartial: bool): string {
    if allowPartial then "%\"%" + RemoveLast(RemoveFirst(json, '"'), '"') + "%\"%"
    else "%" + json + "%"
  }

  /** scopeWithTitle's pattern for the alts column (`fuzz` stands for str_fuzz). */
  function TitlePattern(title: string, fuzz: string -> string, jsonEncode: string -> string, allowPartial: bool): string {
    WrapPattern(TitleJson(title, fuzz, jsonEncode), allowPartial)
  }

  /**
   * The JSON string's quotes become the pattern's anchors: in full mode they
   * stay inside `%…%`; in partial mode they are dropped and the text may sit
   * anywhere inside a quoted alt.
   */
  lemma WrapQuotedJson(body: string)
    ensures WrapPattern("\"" + body + "\"", false) == "%\"" + body + "\"%"
    ensures WrapPattern("\"" + body + "\"", true) == "%\"%" + body + "%\"%"
  {
  }

  /** Text without backslashes is left as it is by the escape. */
  lemma {:induction false} EscapeFromPlain(s: string, i: nat)
    requires i <= |s| && Lacks(s, '\\')
    ensures EscapeFrom(s, i) == s[i..]
    decreases |s| - i
  {
    if i < |s| {
      EscapeFromPlain(s, i + 1);
      assert s[i..] == [s[i]] + s[i + 1..];
    }
  }

  /**
   * A title whose fuzzed text has nothing to rewrite (no '&', no ':', no Greek
   * letter, no backslash) and that JSON writes as that text in quotes is looked
   * for as exactly that text: between the quotes in full mode, anywhere inside
   * a quoted alt in partial mode.
   */
  lemma TitlePatternPlain(title: string, fuzz: string -> string, jsonEncode: string -> string)
    requires Lacks(fuzz(title), '&') && Lacks(fuzz(title), ':') && Lacks(fuzz(title), '\\')
    requires forall i :: 0 <= i < |fuzz(title)| ==> !IsGreekLetter(fuzz(title)[i])
    requires jsonEncode(fuzz(title)) == "\"" + fuzz(title) + "\""
    ensures TitlePattern(title, fuzz, jsonEncode, false) == "%\"" + fuzz(title) + "\"%"
    ensures TitlePattern(title, fuzz, jsonEncode, true) == "%\"%" + fuzz(title) + "%\"%"
  {
    var f := fuzz(title);
    ReplaceAbsent(f, "&", "%");
    ReplaceAbsent(f, ": ", "% ");
    var json := "\"" + f + "\"";
    LacksConcat("\"", f, '\\');
    LacksConcat("\"" + f, "\"", '\\');
    EscapeFromPlain(json, 0);
    assert json[0..] == json;
    WrapQuotedJson(f);
  }

  // ---------------------------------------------------------------------------
  // getShowFromUrl
  // ---------------------------------------------------------------------------

  /** The look-alike characters that stand for slashes in URLs, with what they stand for. */
  const SlashLookalikes: seq<(char, char)> := [('\U{29F8}', '/'), ('\U{29F9}', '\\')]

  /** The non-breaking hyphen that stands for a space in URLs. */
  const HyphenLookalike: char := '\U{2011}'

  function ReplacePairs(s: string, pairs: seq<(char, char)>): string
    decreases |pairs|
  {
    if pairs == [] then s
    else ReplaceAll(ReplacePairs(s, pairs[..|pairs| - 1]), [pairs[|pairs| - 1].0], [pairs[|pairs| - 1].1])
  }

  /** What one character of a URL title stands for. */
  function UrlChar(c: char): char {
    if c == '\U{29F8}' then '/'
    else if c == '\U{29F9}' then '\\'
    else if c == HyphenLookalike then ' '
    else c
  }

  /** The title from the URL with the look-alike characters turned back. */
  function UrlTitle(title: string): (r: string)
    ensures |r| == |title| && forall i :: 0 <= i < |title| ==> r[i] == UrlChar(title[i])
    ensures Lacks(r, '\U{29F8}') && Lacks(r, '\U{29F9}') && Lacks(r, HyphenLookalike)
  {
    var once := ReplaceAll(title, ['\U{29F8}'], ['/']);
    var twice := ReplaceAll(once, ['\U{29F9}'], ['\\']);
    var r := ReplaceAll(twice, [HyphenLookalike], [' ']);
    ReplaceCharAt(title, '\U{29F8}', '/');
    ReplaceCharAt(once, '\U{29F9}', '\\');
    ReplaceCharAt(twice, HyphenLookalike, ' ');
    ReplaceCharRemoves(title, '\U{29F8}', '/');
    ReplaceCharKeepsLacks(once, '\U{29F9}', '\\', '\U{29F8}');
    ReplaceCharRemoves(once, '\U{29F9}', '\\');
    ReplaceCharKeepsLacks(twice, HyphenLookalike, ' ', '\U{29F8}');
    ReplaceCharKeepsLacks(twice, HyphenLookalike, ' ', '\U{29F9}');
    ReplaceCharRemoves(twice, HyphenLookalike, ' ');
    assert SlashLookalikes[..1] == [('\U{29F8}', '/')];
    assert ReplacePairs(title, SlashLookalikes) == twice;
    r
  }

  /** The title in the URL names the show: it is empty or the slug of the title or of an alt. */
  predicate SlugMatches(show: Show, title: string, slugify: string -> string) {
    title == slugify(show.title) || PhpEmpty(title)
    || exists i :: 0 <= i < |show.alts| && title == slugify(show.alts[i])
  }

  /** Where a show URL leads. */
  datatype UrlLookup =
    | FoundById(show: Show)
    | FoundByTitle(show: Show)
    | AddByTitle(title: string)   // no show matched: the title is handed to the show manager
    | NoShow

  /** The show found by id, when the id is numeric and a show has it. */
  function ShowById(showId: string, isNumeric: string -> bool, find: string -> Option<Show>): Option<Show> {
    if isNumeric(showId) then find(showId) else None
  }

  /** The decision of getShowFromUrl; `withTitle` stands for the first show the title pattern finds. */
  function ShowFromUrl(showId: string, title: string, isNumeric: string -> bool, find: string -> Option<Show>,
                       slugify: string -> string, withTitle: string -> Option<Show>): (r: UrlLookup)
    ensures r.FoundById? ==> ShowById(showId, isNumeric, find) == Some(r.show) && SlugMatches(r.show, title, slugify)
    ensures r.FoundByTitle? ==> !PhpEmpty(title) && withTitle(UrlTitle(title)) == Some(r.show)
    ensures r.AddByTitle? ==> !PhpEmpty(title) && r.title == UrlTitle(title) && withTitle(r.title).None?
    ensures !r.FoundById? ==> ShowById(showId, isNumeric, find).None? || !SlugMatches(ShowById(showId, isNumeric, find).value, title, slugify)
  {
    var byId := ShowById(showId, isNumeric, find);
    if byId.Some? && SlugMatches(byId.value, title, slugify) then FoundById(byId.value)
    else if !PhpEmpty(title) then
      var t := UrlTitle(title);
      match withTitle(t)
      case Some(show) => FoundByTitle(show)
      case None => AddByTitle(t)
    else NoShow
  }

  /** Whether the URL title is the slug of one of the alts. */
  method AltSlugMatches(alts: seq<string>, title: string, slugify: string -> string) returns (found: bool)
    ensures found <==> exists i :: 0 <= i < |alts| && title == slugify(alts[i])
  {
    for i := 0 to |alts|
      invariant forall k :: 0 <= k < i ==> title != slugify(alts[k])
    {
      if title == slugify(alts[i]) {
        return true;
      }
    }
    return false;
  }

  /** getShowFromUrl: first the show by id, then the show by title, else a new show. */
  method GetShowFromUrl(showId: string, title: string, isNumeric: string -> bool, find: string -> Option<Show>,
                        slugify: string -> string, withTitle: string -> Option<Show>) returns (r: UrlLookup)
    ensures r == ShowFromUrl(showId, title, isNumeric, find, slugify, withTitle)
  {
    var byId: Option<Show> := None;
    if isNumeric(showId) {
      byId := find(showId);
    }
    if byId.Some? {
      var show := byId.value;
      if title == slugify(show.title) || PhpEmpty(title) {
        return FoundById(show);
      }
      var found := AltSlugMatches(show.alts, title, slugify);
      if found {
        return FoundById(show);
      }
    }
    if !PhpEmpty(title) {
      var t := title;
      for i := 0 to |SlashLookalikes|
        invariant t == ReplacePairs(title, SlashLookalikes[..i])
      {
        var (from, to) := SlashLookalikes[i];
        assert SlashLookalikes[..i + 1][..i] == SlashLookalikes[..i];
        t := ReplaceAll(t, [from], [to]);
      }
      assert SlashLookalikes[..|SlashLookalikes|] == SlashLookalikes;
      t := ReplaceAll(t, [HyphenLookalike], [' ']);
      assert t == UrlTitle(title);
      var show := withTitle(t);
      if show.Some? {
        return FoundByTitle(show.value);
      }
      return AddByTitle(t);
    }
    return NoShow;
  }

  /** No show comes back exactly when the title is empty and no show was found by id. */
  lemma ShowFromUrlNone(showId: string, title: string, isNumeric: string -> bool, find: string -> Option<Show>,
                        slugify: string -> string, withTitle: string -> Option<Show>)
    ensures ShowFromUrl(showId, title, isNumeric, find, slugify, withTitle) == NoShow
            <==> PhpEmpty(title) && ShowById(showId, isNumeric, find).None?
  {
  }

  /** A show found by id whose title slug or alt slug is in the URL is the answer, whatever the title search would give. */
  lemma ShowFromUrlPrefersId(showId: string, title: string, isNumeric: string -> bool, find: string -> Option<Show>,
                             slugify: string -> string, withTitle: string -> Option<Show>, k: nat)
    requires ShowById(showId, isNumeric, find).Some?
    requires k < |ShowById(showId, isNumeric, find).value.alts|
    requires title == slugify(ShowById(showId, isNumeric, find).value.alts[k])
    ensures ShowFromUrl(showId, title, isNumeric, find, slugify, withTitle) == FoundById(ShowById(showId, isNumeric, find).value)
  {
  }

  /** A show searched by title is searched with the look-alike characters turned back. */
  lemma ShowFromUrlByTitle(showId: string, title: string, isNumeric: string -> bool, find: string -> Option<Show>,
                           slugify: string -> string, withTitle: string -> Option<Show>)
    requires ShowById(showId, isNumeric, find).None? && !PhpEmpty(title)
    ensures ShowFromUrl(showId, title, isNumeric, find, slugify, withTitle)
            == if withTitle(UrlTitle(title)).Some? then FoundByTitle(withTitle(UrlTitle(title)).value)
               else AddByTitle(UrlTitle(title))
  {
  }

  // ---------------------------------------------------------------------------
  // handleCaching
  // ---------------------------------------------------------------------------

  /** A refresh is due for a local show while no refresh has run and the cache is older than the threshold. */
  predicate RefreshDue(cachesUpdated: nat, mal: bool, elapsedHours: nat, threshold: int) {
    !mal && cachesUpdated < 1 && elapsedHours >= threshold
  }

  /** The per-process count of cache refreshes: the source's static `$cachesUpdated`. */
  class CacheGuard {
    var cachesUpdated: nat

    constructor()
      ensures cachesUpdated == 0
    {
      cachesUpdated := 0;
    }

    /**
     * handleCaching: `elapsedHours` is the age of the cache and `threshold`
     * the random bound drawn between 168 and 336 hours; `refresh` says whether
     * the show manager is asked to update the show's cache.
     */
    method HandleCaching(mal: bool, elapsedHours: nat, threshold: int) returns (refresh: bool)
      requires 168 <= threshold <= 336
      modifies this
      ensures refresh <==> RefreshDue(old(cachesUpdated), mal, elapsedHours, threshold)
      ensures cachesUpdated == old(cachesUpdated) + (if refresh then 1 else 0)
    {
      refresh := false;
      if !mal && cachesUpdated < 1 && elapsedHours >= threshold {
        cachesUpdated := cachesUpdated + 1;
        refresh := true;
      }
    }
  }

  /** One handleCaching call: the show's flag, the cache age and the drawn threshold. */
  datatype CacheCall = CacheCall(mal: bool, elapsedHours: nat, threshold: int)

  /** The number of refreshes a run of calls triggers, starting from the counter value given. */
  function Refreshes(cachesUpdated: nat, calls: seq<CacheCall>): nat
    decreases |calls|
  {
    if calls == [] then 0
    else
      var c := calls[0];
      if RefreshDue(cachesUpdated, c.mal, c.elapsedHours, c.threshold) then 1 + Refreshes(cachesUpdated + 1, calls[1..])
      else Refreshes(cachesUpdated, calls[1..])
  }

  /** Once a refresh has run, no call refreshes again. */
  lemma {:induction false} NoRefreshAfterOne(cachesUpdated: nat, calls: seq<CacheCall>)
    requires cachesUpdated >= 1
    ensures Refreshes(cachesUpdated, calls) == 0
    decreases |calls|
  {
    if calls != [] {
      NoRefreshAfterOne(cachesUpdated, calls[1..]);
    }
  }

  /** A process refreshes at most one show cache, however many calls it makes. */
  lemma {:induction false} AtMostOneRefresh(calls: seq<CacheCall>)
    ensures Refreshes(0, calls) <= 1
    decreases |calls|
  {
    if calls != [] {
      var c := calls[0];
      if RefreshDue(0, c.mal, c.elapsedHours, c.threshold) {
        NoRefreshAfterOne(1, calls[1..]);
      } else {
        AtMostOneRefresh(calls[1..]);
      }
    }
  }

  /** A refresh happens in a run of calls exactly when some call is for a local show with a cache past its threshold. */
  lemma {:induction false} RefreshWhenStale(calls: seq<CacheCall>)
    ensures Refreshes(0, calls) == 1
            <==> exists i :: 0 <= i < |calls| && !calls[i].mal && calls[i].elapsedHours >= calls[i].threshold
    decreases |calls|
  {
    if calls != [] {
      var c := calls[0];
      if !RefreshDue(0, c.mal, c.elapsedHours, c.threshold) {
        RefreshWhenStale(calls[1..]);
        if exists i :: 0 <= i < |calls| && !calls[i].mal && calls[i].elapsedHours >= calls[i].threshold {
          var i :| 0 <= i < |calls| && !calls[i].mal && calls[i].elapsedHours >= calls[i].threshold;
          assert calls[1..][i - 1] == calls[i];
        }
        if exists i :: 0 <= i < |calls[1..]| && !calls[1..][i].mal && calls[1..][i].elapsedHours >= calls[1..][i].threshold {
          var i :| 0 <= i < |calls[1..]| && !calls[1..][i].mal && calls[1..][i].elapsedHours >= calls[1..][i].threshold;
          assert calls[i + 1] == calls[1..][i];
        }
      } else {
        NoRefreshAfterOne(1, calls[1..]);
      }
    }
  }

  /** A run of handleCaching calls on one guard refreshes exactly as `Refreshes` counts. */
  method RunCaching(guard: CacheGuard, calls: seq<CacheCall>) returns (refreshed: nat)
    requires forall i :: 0 <= i < |calls| ==> 168 <= calls[i].threshold <= 336
    modifies guard
    ensures refreshed == Refreshes(old(guard.cachesUpdated), calls)
    ensures guard.cachesUpdated == old(guard.cachesUpdated) + refreshed
  {
    ghost var start := guard.cachesUpdated;
    refreshed := 0;
    var i := 0;
    while i < |calls|
      invariant 0 <= i <= |calls|
      invariant guard.cachesUpdated == start + refreshed
      invariant refreshed + Refreshes(guard.cachesUpdated, calls[i..]) == Refreshes(start, calls)
    {
      assert calls[i..][1..] == calls[i + 1..];
      var refresh := guard.HandleCaching(calls[i].mal, calls[i].elapsedHours, calls[i].threshold);
      if refresh {
        refreshed := refreshed + 1;
      }
      i := i + 1;
    }
  }

  /**
   * One process: a fresh counter, then the calls in order. At most one show
   * cache is refreshed, and one is exactly when some local show is stale.
   */
  method ProcessRefreshes(calls: seq<CacheCall>) returns (refreshed: nat)
    requires forall i :: 0 <= i < |calls| ==> 168 <= calls[i].threshold <= 336
    ensures refreshed == Refreshes(0, calls) && refreshed <= 1
    ensures refreshed == 1
            <==> exists i :: 0 <= i < |calls| && !calls[i].mal && calls[i].elapsedHours >= calls[i].threshold
  {
    var guard := new CacheGuard();
    refreshed := RunCaching(guard, calls);
    AtMostOneRefresh(calls);
    RefreshWhenStale(calls);
  }
}
