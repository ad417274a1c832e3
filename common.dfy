/** The one wrapper the model needs: PHP's `null` and JavaScript's `undefined`. */
module Wrappers {
  datatype Option<+T> = None | Some(value: T)
}

/**
 * The string operations of PHP and JavaScript that the modelled code leans on,
 * with the exact semantics the code relies on: `explode`/`split` with a
 * non-empty separator, `implode`/`join`, `trim`, `strtolower`, `str_replace`,
 * PHP's integer coercion of strings, and PHP's `empty()` on strings.
 */
module Strings {

  // ---------------------------------------------------------------------------
  // Occurrences, prefixes and suffixes
  // ---------------------------------------------------------------------------

  /** `sub` occurs in `s` at index `i`. */
  predicate MatchAt(s: string, sub: string, i: int) {
    0 <= i && i + |sub| <= |s| && s[i..i + |sub|] == sub
  }

  predicate Contains(s: string, sub: string) {
    exists i :: 0 <= i <= |s| - |sub| && MatchAt(s, sub, i)
  }

  predicate StartsWith(s: string, prefix: string) {
    |prefix| <= |s| && s[..|prefix|] == prefix
  }

  predicate EndsWith(s: string, suffix: string) {
    |suffix| <= |s| && s[|s| - |suffix|..] == suffix
  }

  /** No character of `s` is `c`. */
  predicate Lacks(s: string, c: char) {
    forall i :: 0 <= i < |s| ==> s[i] != c
  }

  lemma LacksConcat(a: string, b: string, c: char)
    requires Lacks(a, c) && Lacks(b, c)
    ensures Lacks(a + b, c)
  {
  }

  /** A string without the first character of `sep` cannot hold `sep`. */
  lemma LacksFirstNoMatch(s: string, sep: string)
    requires sep != [] && Lacks(s, sep[0])
    ensures !Contains(s, sep)
  {
  }

  // ---------------------------------------------------------------------------
  // explode / split and implode / join
  // ---------------------------------------------------------------------------

  /**
   * PHP `explode(sep, s)` and JavaScript `s.split(sep)` for a non-empty
   * separator: the pieces between the leftmost non-overlapping occurrences of
   * `sep`. There is always at least one piece (`explode(' ', '')` is `['']`).
   */
  function Split(s: string, sep: string): (parts: seq<string>)
    requires sep != []
    ensures |parts| >= 1
    decreases |s|
  {
    if |s| < |sep| then [s]
    else if s[..|sep|] == sep then [""] + Split(s[|sep|..], sep)
    else
      var rest := Split(s[1..], sep);
      [[s[0]] + rest[0]] + rest[1..]
  }

  /** PHP `implode(sep, parts)` and JavaScript `parts.join(sep)`. */
  function Join(parts: seq<string>, sep: string): string {
    if |parts| == 0 then ""
    else if |parts| == 1 then parts[0]
    else parts[0] + sep + Join(parts[1..], sep)
  }

  /** Joining the pieces back with the separator gives the original string. */
  lemma {:induction false} JoinSplit(s: string, sep: string)
    requires sep != []
    ensures Join(Split(s, sep), sep) == s
    decreases |s|
  {
    if |s| < |sep| {
      assert Split(s, sep) == [s];
    } else if s[..|sep|] == sep {
      var rest := Split(s[|sep|..], sep);
      assert Split(s, sep) == [""] + rest;
      JoinSplit(s[|sep|..], sep);
      assert ([""] + rest)[1..] == rest;
      assert Join([""] + rest, sep) == "" + sep + Join(rest, sep);
      assert s == sep + s[|sep|..];
    } else {
      var rest := Split(s[1..], sep);
      var parts := [[s[0]] + rest[0]] + rest[1..];
      assert Split(s, sep) == parts;
      JoinSplit(s[1..], sep);
      JoinCons(s[0], rest, sep);
      assert s == [s[0]] + s[1..];
    }
  }

  /** Putting a character in front of the first piece puts it in front of the join. */
  lemma JoinCons(c: char, parts: seq<string>, sep: string)
    requires |parts| >= 1
    ensures Join([[c] + parts[0]] + parts[1..], sep) == [c] + Join(parts, sep)
  {
  }

  /** Appending a last piece extends the joined string by the separator and that piece. */
  lemma {:induction false} JoinSnoc(parts: seq<string>, x: string, sep: string)
    requires |parts| >= 1
    ensures Join(parts + [x], sep) == Join(parts, sep) + sep + x
    decreases |parts|
  {
    if |parts| == 1 {
      assert Join(parts + [x], sep) == parts[0] + sep + Join([x], sep);
    } else {
      assert (parts + [x])[1..] == parts[1..] + [x];
      JoinSnoc(parts[1..], x, sep);
    }
  }

  /** `sep` is not found anywhere before the end of `a` when `sep` is appended to `a`. */
  predicate SplitsCleanly(a: string, sep: string) {
    forall i :: 0 <= i < |a| ==> !MatchAt(a + sep, sep, i)
  }

  /** A string free of the separator's first character splits cleanly. */
  lemma LacksFirstSplitsCleanly(a: string, sep: string)
    requires sep != [] && Lacks(a, sep[0])
    ensures SplitsCleanly(a, sep)
  {
  }

  /** When `a` splits cleanly, `a + sep + b` splits into `a` followed by the pieces of `b`. */
  lemma {:induction false} SplitConcat(a: string, b: string, sep: string)
    requires sep != [] && SplitsCleanly(a, sep)
    ensures Split(a + sep + b, sep) == [a] + Split(b, sep)
    decreases |a|
  {
    var s := a + sep + b;
    if a == [] {
      assert s[..|sep|] == sep && s[|sep|..] == b;
    } else {
      assert !MatchAt(a + sep, sep, 0);
      assert (a + sep)[..|sep|] == s[..|sep|];
      assert s[..|sep|] != sep;
      forall i | 0 <= i < |a[1..]| ensures !MatchAt(a[1..] + sep, sep, i) {
        assert !MatchAt(a + sep, sep, i + 1);
        assert (a + sep)[i + 1..i + 1 + |sep|] == (a[1..] + sep)[i..i + |sep|];
      }
      SplitConcat(a[1..], b, sep);
      assert s[1..] == a[1..] + sep + b;
      assert [s[0]] + a[1..] == a;
    }
  }

  /** A string without the separator is a single piece. */
  lemma {:induction false} SplitNoMatch(s: string, sep: string)
    requires sep != [] && !Contains(s, sep)
    ensures Split(s, sep) == [s]
    decreases |s|
  {
    if |s| >= |sep| {
      assert !MatchAt(s, sep, 0);
      forall i | 0 <= i <= |s[1..]| - |sep| ensures !MatchAt(s[1..], sep, i) {
        assert !MatchAt(s, sep, i + 1);
        assert s[1..][i..i + |sep|] == s[i + 1..i + 1 + |sep|];
      }
      SplitNoMatch(s[1..], sep);
      assert [s[0]] + s[1..] == s;
    }
  }

  /** Splitting a join gives back the parts, when no part interferes with the separator. */
  lemma {:induction false} SplitJoin(parts: seq<string>, sep: string)
    requires sep != [] && |parts| >= 1
    requires forall i :: 0 <= i < |parts| - 1 ==> SplitsCleanly(parts[i], sep)
    requires !Contains(parts[|parts| - 1], sep)
    ensures Split(Join(parts, sep), sep) == parts
    decreases |parts|
  {
    if |parts| == 1 {
      SplitNoMatch(parts[0], sep);
    } else {
      SplitJoin(parts[1..], sep);
      SplitConcat(parts[0], Join(parts[1..], sep), sep);
      assert [parts[0]] + parts[1..] == parts;
    }
  }

  /** For a one-character separator: parts free of it survive a join and split. */
  lemma SplitJoinChar(parts: seq<string>, c: char)
    requires |parts| >= 1
    requires forall i :: 0 <= i < |parts| ==> Lacks(parts[i], c)
    ensures Split(Join(parts, [c]), [c]) == parts
  {
    forall i | 0 <= i < |parts| - 1 ensures SplitsCleanly(parts[i], [c]) {
      LacksFirstSplitsCleanly(parts[i], [c]);
    }
    LacksFirstNoMatch(parts[|parts| - 1], [c]);
    SplitJoin(parts, [c]);
  }

  /** The first piece is a prefix of the string. */
  lemma {:induction false} SplitFirstIsPrefix(s: string, sep: string)
    requires sep != []
    ensures StartsWith(s, Split(s, sep)[0])
    decreases |s|
  {
    if |s| >= |sep| && s[..|sep|] != sep {
      SplitFirstIsPrefix(s[1..], sep);
    }
  }

  /** The last piece is a suffix of the string. */
  lemma {:induction false} SplitLastIsSuffix(s: string, sep: string)
    requires sep != []
    ensures EndsWith(s, Split(s, sep)[|Split(s, sep)| - 1])
    decreases |s|
  {
    if |s| < |sep| {
    } else if s[..|sep|] == sep {
      SplitLastIsSuffix(s[|sep|..], sep);
    } else {
      var rest := Split(s[1..], sep);
      SplitLastIsSuffix(s[1..], sep);
      if |rest| == 1 {
        JoinSplit(s[1..], sep);
        assert [s[0]] + rest[0] == [s[0]] + s[1..] == s;
      }
    }
  }

  /** A string that does not start with `sep` holds it only where its tail does. */
  lemma NoMatchCons(c: char, t: string, sep: string)
    requires sep != [] && !Contains(t, sep) && !StartsWith([c] + t, sep)
    ensures !Contains([c] + t, sep)
  {
    var s := [c] + t;
    forall j | 0 <= j <= |s| - |sep| ensures !MatchAt(s, sep, j) {
      if j == 0 {
        assert s[0..|sep|] == s[..|sep|];
      } else {
        assert s[j..j + |sep|] == t[j - 1..j - 1 + |sep|];
        assert !MatchAt(t, sep, j - 1);
      }
    }
  }

  /** No piece of a split holds the separator: every occurrence of it was cut. */
  lemma {:induction false} SplitPiecesLackSep(s: string, sep: string)
    requires sep != []
    ensures forall i :: 0 <= i < |Split(s, sep)| ==> !Contains(Split(s, sep)[i], sep)
    decreases |s|
  {
    if |s| < |sep| {
    } else if s[..|sep|] == sep {
      SplitPiecesLackSep(s[|sep|..], sep);
      var rest := Split(s[|sep|..], sep);
      assert Split(s, sep) == [""] + rest;
      forall i | 0 < i < |Split(s, sep)| ensures Split(s, sep)[i] == rest[i - 1] {
      }
    } else {
      var rest := Split(s[1..], sep);
      SplitPiecesLackSep(s[1..], sep);
      SplitFirstIsPrefix(s[1..], sep);
      var first := [s[0]] + rest[0];
      assert Split(s, sep) == [first] + rest[1..];
      assert s[..|first|] == first by {
        assert s == [s[0]] + s[1..];
        assert s[1..][..|rest[0]|] == rest[0];
      }
      if |sep| <= |first| {
        assert first[..|sep|] == s[..|sep|];
      }
      NoMatchCons(s[0], rest[0], sep);
      forall i | 0 < i < |Split(s, sep)| ensures Split(s, sep)[i] == rest[i] {
      }
    }
  }

  /**
   * Split at a single character, the last piece is the whole string when
   * nothing was cut, and otherwise follows a cut.
   */
  lemma {:induction false} SplitLastAfterSep(s: string, c: char)
    ensures var parts := Split(s, [c]);
            |parts| == 1 ==> parts[0] == s
    ensures var parts := Split(s, [c]); var last := parts[|parts| - 1];
            |parts| >= 2 ==> |last| < |s| && s[|s| - |last| - 1] == c
    decreases |s|
  {
    JoinSplit(s, [c]);
    if |s| >= 1 {
      var rest := Split(s[1..], [c]);
      var last := rest[|rest| - 1];
      SplitLastAfterSep(s[1..], c);
      if s[..1] == [c] {
        assert s[0] == c by {
          assert s[..1][0] == s[0];
        }
        assert Split(s, [c]) == [""] + rest;
        if |rest| == 1 {
          assert last == s[1..];
        } else {
          assert s[1..][|s| - 1 - |last| - 1] == s[|s| - |last| - 1];
        }
      } else if |rest| >= 2 {
        assert s[1..][|s| - 1 - |last| - 1] == s[|s| - |last| - 1];
      }
    }
  }

  /** Split at a single character, the last piece holds no such character. */
  lemma {:induction false} SplitLastLacks(s: string, c: char)
    ensures Lacks(Split(s, [c])[|Split(s, [c])| - 1], c)
    decreases |s|
  {
    if |s| >= 1 {
      SplitLastLacks(s[1..], c);
      if s[..1] != [c] {
        var rest := Split(s[1..], [c]);
        if |rest| == 1 {
          assert s[0] != c by {
            assert s[..1] == [s[0]];
          }
          LacksConcat([s[0]], rest[0], c);
        }
      }
    }
  }

  // ---------------------------------------------------------------------------
  // trim and strtolower
  // ---------------------------------------------------------------------------

  /** The characters PHP's `trim()` strips by default: space, tab, LF, CR, NUL, vertical tab. */
  predicate IsTrimmable(c: char) {
    c == ' ' || c == '\t' || c == '\n' || c == '\r' || c == '\0' || c == '\U{B}'
  }

  function TrimStart(s: string): (r: string)
    ensures |r| <= |s| && r == s[|s| - |r|..]
    ensures forall i :: 0 <= i < |s| - |r| ==> IsTrimmable(s[i])
    ensures r == [] || !IsTrimmable(r[0])
  {
    if |s| > 0 && IsTrimmable(s[0]) then TrimStart(s[1..]) else s
  }

  function TrimEnd(s: string): (r: string)
    ensures |r| <= |s| && r == s[..|r|]
    ensures forall i :: |r| <= i < |s| ==> IsTrimmable(s[i])
    ensures r == [] || !IsTrimmable(r[|r| - 1])
  {
    if |s| > 0 && IsTrimmable(s[|s| - 1]) then TrimEnd(s[..|s| - 1]) else s
  }

  /** PHP `trim()`: neither end of the result is whitespace. */
  function Trim(s: string): (r: string)
    ensures |r| <= |s|
    ensures r == [] || (!IsTrimmable(r[0]) && !IsTrimmable(r[|r| - 1]))
  {
    TrimEnd(TrimStart(s))
  }

  /** A string whose ends are not whitespace is left alone by `trim()`. */
  lemma TrimClean(s: string)
    requires s == [] || (!IsTrimmable(s[0]) && !IsTrimmable(s[|s| - 1]))
    ensures Trim(s) == s
  {
  }

  function LowerChar(c: char): char {
    if 'A' <= c <= 'Z' then (c as int + 32) as char else c
  }

  /** PHP `strtolower()` (ASCII letters only, as in PHP's default locale). */
  function Lower(s: string): string {
    seq(|s|, i requires 0 <= i < |s| => LowerChar(s[i]))
  }

  predicate HasNoUpper(s: string) {
    forall i :: 0 <= i < |s| ==> !('A' <= s[i] <= 'Z')
  }

  // ---------------------------------------------------------------------------
  // PHP integer coercion of strings
  // ---------------------------------------------------------------------------

  predicate IsDigit(c: char) { '0' <= c <= '9' }

  predicate AllDigits(s: string) {
    forall i :: 0 <= i < |s| ==> IsDigit(s[i])
  }

  /** The white space PHP skips before a number: space, tab, LF, CR, vertical tab, form feed. */
  predicate IsSpace(c: char) {
    c == ' ' || c == '\t' || c == '\n' || c == '\r' || c == '\U{B}' || c == '\U{C}'
  }

  function SkipSpace(s: string): string {
    if |s| > 0 && IsSpace(s[0]) then SkipSpace(s[1..]) else s
  }

  /** The longest run of digits at the front of `s`. */
  function DigitRun(s: string): (d: string)
    ensures |d| <= |s| && d == s[..|d|] && AllDigits(d)
    ensures |d| == |s| || !IsDigit(s[|d|])
  {
    if |s| > 0 && IsDigit(s[0]) then [s[0]] + DigitRun(s[1..]) else []
  }

  function DigitValue(c: char): nat
    requires IsDigit(c)
  {
    c as int - '0' as int
  }

  function DigitChar(d: nat): char
    requires d < 10
  {
    ('0' as int + d) as char
  }

  /** The number a string of decimal digits denotes. */
  function DigitsValue(d: string): nat
    requires AllDigits(d)
  {
    if d == [] then 0 else DigitsValue(d[..|d| - 1]) * 10 + DigitValue(d[|d| - 1])
  }

  /**
   * PHP's coercion of a string to an integer (`settype($s, 'int')`, and the
   * integer value of a leading-numeric string in arithmetic): leading white
   * space, an optional sign, then the longest run of digits; 0 when there is none.
   */
  function ToInt(s: string): int {
    var t := SkipSpace(s);
    if |t| > 0 && t[0] == '-' then 0 - DigitsValue(DigitRun(t[1..]))
    else if |t| > 0 && t[0] == '+' then DigitsValue(DigitRun(t[1..]))
    else DigitsValue(DigitRun(t))
  }

  /** Decimal notation of a natural number. */
  function NatToString(n: nat): (r: string)
    ensures |r| >= 1 && AllDigits(r)
  {
    if n < 10 then [DigitChar(n)] else NatToString(n / 10) + [DigitChar(n % 10)]
  }

  lemma {:induction false} NatToStringValue(n: nat)
    ensures DigitsValue(NatToString(n)) == n
  {
    if n >= 10 {
      var r := NatToString(n);
      assert r[..|r| - 1] == NatToString(n / 10);
      NatToStringValue(n / 10);
    }
  }

  lemma {:induction false} DigitRunOfDigits(d: string, rest: string)
    requires AllDigits(d)
    requires rest == [] || !IsDigit(rest[0])
    ensures DigitRun(d + rest) == d
  {
    if d != [] {
      assert (d + rest)[1..] == d[1..] + rest;
      DigitRunOfDigits(d[1..], rest);
      assert [d[0]] + d[1..] == d;
    } else {
      assert d + rest == rest;
    }
  }

  /** The decimal notation of `n`, followed by anything that is not a digit, reads as `n`. */
  lemma ToIntOfNat(n: nat, rest: string)
    requires rest == [] || !IsDigit(rest[0])
    ensures ToInt(NatToString(n) + rest) == n
  {
    var s := NatToString(n) + rest;
    assert s[0] == NatToString(n)[0];
    assert SkipSpace(s) == s;
    DigitRunOfDigits(NatToString(n), rest);
    NatToStringValue(n);
  }

  /** Leading white space does not change the coerced integer. */
  lemma {:induction false} ToIntSkipsSpace(w: string, s: string)
    requires forall i :: 0 <= i < |w| ==> IsSpace(w[i])
    ensures ToInt(w + s) == ToInt(s)
    decreases |w|
  {
    if w != [] {
      assert (w + s)[1..] == w[1..] + s;
      ToIntSkipsSpace(w[1..], s);
    } else {
      assert w + s == s;
    }
  }

  // ---------------------------------------------------------------------------
  // str_replace and character counts
  // ---------------------------------------------------------------------------

  /**
   * PHP `str_replace(from, to, s)` and JavaScript `s.replace(/from/g, to)`: each
   * leftmost non-overlapping occurrence of `from` becomes `to`.
   */
  function ReplaceAll(s: string, from: string, to: string): string
    requires from != []
    decreases |s|
  {
    if |s| < |from| then s
    else if s[..|from|] == from then to + ReplaceAll(s[|from|..], from, to)
    else [s[0]] + ReplaceAll(s[1..], from, to)
  }

  /** Replacing one character by another rewrites exactly the positions holding it. */
  lemma {:induction false} ReplaceCharAt(s: string, a: char, b: char)
    ensures |ReplaceAll(s, [a], [b])| == |s|
    ensures forall i :: 0 <= i < |s| ==>
      ReplaceAll(s, [a], [b])[i] == if s[i] == a then b else s[i]
  {
    if s != [] {
      ReplaceCharAt(s[1..], a, b);
      assert s[..1] == [s[0]];
    }
  }

  /** A text that does not hold the first character of `from` is left unchanged. */
  lemma {:induction false} ReplaceAbsent(s: string, from: string, to: string)
    requires from != [] && Lacks(s, from[0])
    ensures ReplaceAll(s, from, to) == s
    decreases |s|
  {
    if |s| >= |from| {
      assert s[..|from|][0] == s[0];
      ReplaceAbsent(s[1..], from, to);
      assert [s[0]] + s[1..] == s;
    }
  }

  /** Replacing a character by a different one leaves none of it behind. */
  lemma ReplaceCharRemoves(s: string, a: char, b: char)
    requires a != b
    ensures Lacks(ReplaceAll(s, [a], [b]), a)
  {
  }

  /** Replacing a character by one other than `c` adds no `c`. */
  lemma ReplaceCharKeepsLacks(s: string, a: char, b: char, c: char)
    requires Lacks(s, c) && b != c
    ensures Lacks(ReplaceAll(s, [a], [b]), c)
  {
  }

  /** Occurrences of `c` in `s` (the `count` string extension of the adapter code). */
  function CountChar(s: string, c: char): nat {
    if s == [] then 0 else (if s[0] == c then 1 else 0) + CountChar(s[1..], c)
  }

  lemma {:induction false} CountCharConcat(a: string, b: string, c: char)
    ensures CountChar(a + b, c) == CountChar(a, c) + CountChar(b, c)
  {
    if a != [] {
      assert (a + b)[1..] == a[1..] + b;
      CountCharConcat(a[1..], b, c);
    } else {
      assert a + b == b;
    }
  }

  lemma {:induction false} CountCharLacks(s: string, c: char)
    ensures CountChar(s, c) == 0 <==> Lacks(s, c)
  {
    if s != [] {
      CountCharLacks(s[1..], c);
      if Lacks(s[1..], c) && s[0] != c {
        forall i | 0 <= i < |s| ensures s[i] != c {
          if i > 0 { assert s[i] == s[1..][i - 1]; }
        }
      }
    }
  }

  // ---------------------------------------------------------------------------
  // Small PHP and JavaScript facts
  // ---------------------------------------------------------------------------

  /** PHP `empty()` of a string: the empty string and "0" are empty. */
  predicate PhpEmpty(s: string) {
    s == "" || s == "0"
  }

  /** JavaScript's `length`: characters outside the Basic Multilingual Plane take two UTF-16 units. */
  function Utf16Length(s: string): (n: nat)
    ensures n >= |s|
  {
    if s == [] then 0 else (if s[0] as int >= 0x1_0000 then 2 else 1) + Utf16Length(s[1..])
  }

  lemma {:induction false} Utf16LengthConcat(a: string, b: string)
    ensures Utf16Length(a + b) == Utf16Length(a) + Utf16Length(b)
  {
    if a != [] {
      assert (a + b)[1..] == a[1..] + b;
      Utf16LengthConcat(a[1..], b);
    } else {
      assert a + b == b;
    }
  }
}

/** Values shared by the PHP back end and the JavaScript adapters. */
module Domain {

  /** A calendar day, as the model sees the Carbon date-times of the source. */
  datatype Date = Date(year: int, month: int, day: int) {
    function WithDay(d: int): Date { this.(day := d) }
    function WithMonth(m: int): Date { this.(month := m) }
  }

  /** `a` is a strictly earlier day than `b`. */
  predicate Before(a: Date, b: Date) {
    a.year < b.year
    || (a.year == b.year && (a.month < b.month || (a.month == b.month && a.day < b.day)))
  }

  predicate NotAfter(a: Date, b: Date) {
    !Before(b, a)
  }

  lemma BeforeIsOrder(a: Date, b: Date, c: Date)
    ensures !Before(a, a)
    ensures Before(a, b) && Before(b, c) ==> Before(a, c)
    ensures Before(a, b) || a == b || Before(b, a)
  {
  }

  /** Whether a video is subtitled or dubbed: the source's 'sub' and 'dub'. */
  datatype TranslationType = Sub | Dub {
    function Name(): string {
      match this
      case Sub => "sub"
      case Dub => "dub"
    }
  }
}
