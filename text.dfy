/** Failure-carrying datatypes shared by the whole model. */
module Wrappers {

  /** A value or Java's `null`. */
  datatype Option<+T> = None | Some(value: T)

  /** A call that returns normally (`Pass`) or throws `error` (`Fail`). */
  datatype Outcome<+E> = Pass | Fail(error: E)

  /** A call that returns `value` or throws `error`. */
  datatype Result<+T, +E> = Ok(value: T) | Err(error: E)
}

/**
  The string vocabulary of the launcher: character classes, lowercasing,
  substring search, Java's `String.compareTo`, `Long.toString` and
  `String.split`.

  Java's locale tables are not modelled: `Character.isUpperCase`,
  `toLowerCase` and `toTitleCase` are their ASCII part, and lowercasing a
  string lowercases it character by character.
*/
module Text {

  // ---------------------------------------------------------------------
  // Characters
  // ---------------------------------------------------------------------

  /** `Character.isUpperCase`, ASCII part. */
  predicate IsUpper(c: char) {
    'A' <= c <= 'Z'
  }

  /** `Character.toLowerCase`, ASCII part. */
  function ToLower(c: char): char {
    if IsUpper(c) then (c as int + 32) as char else c
  }

  /** `Character.toTitleCase`, ASCII part. */
  function ToTitle(c: char): char {
    if 'a' <= c <= 'z' then (c as int - 32) as char else c
  }

  /** The class `\s` of Java regular expressions: space, tab, the line feeds and the form feeds. */
  predicate IsWhitespace(c: char) {
    c == ' ' || c == '\t' || c == '\n' || c == '\U{B}' || c == '\U{C}' || c == '\r'
  }

  /** `Character.isSpaceChar`: the Unicode space, line and paragraph separators. */
  predicate IsSpaceChar(c: char) {
    || c == ' ' || c == '\U{A0}' || c == '\U{1680}'
    || ('\U{2000}' <= c <= '\U{200A}')
    || c == '\U{2028}' || c == '\U{2029}' || c == '\U{202F}' || c == '\U{205F}' || c == '\U{3000}'
  }

  /** The characters that the regular-expression dot does not match. */
  predicate IsLineTerminator(c: char) {
    c == '\n' || c == '\r' || c == '\U{85}' || c == '\U{2028}' || c == '\U{2029}'
  }

  predicate HasLineTerminator(s: string) {
    exists i :: 0 <= i < |s| && IsLineTerminator(s[i])
  }

  // ---------------------------------------------------------------------
  // Lowercasing and substring search
  // ---------------------------------------------------------------------

  /** `String.toLowerCase`, character by character. */
  function Lower(s: string): string {
    seq(|s|, i requires 0 <= i < |s| => ToLower(s[i]))
  }

  /** A string without upper-case letters is its own lower case. */
  lemma {:induction false} LowerOfLowerCase(s: string)
    requires forall i :: 0 <= i < |s| ==> !IsUpper(s[i])
    ensures Lower(s) == s
  {
  }

  lemma {:induction false} LowerIdempotent(s: string)
    ensures Lower(Lower(s)) == Lower(s)
  {
    assert forall i :: 0 <= i < |s| ==> Lower(Lower(s))[i] == Lower(s)[i];
  }

  lemma {:induction false} LowerSlice(s: string, i: nat, j: nat)
    requires i <= j <= |s|
    ensures Lower(s[i..j]) == Lower(s)[i..j]
  {
    assert forall k :: 0 <= k < j - i ==> Lower(s[i..j])[k] == Lower(s)[i..j][k];
  }

  /** `sub` occurs in `s` starting at position `i`. */
  predicate OccursAt(sub: string, s: string, i: int) {
    0 <= i && i + |sub| <= |s| && sub == s[i..i + |sub|]
  }

  /** `s.contains(sub)`: `sub` occurs in `s` at some position. */
  predicate IsSubstring(sub: string, s: string) {
    exists i | 0 <= i <= |s| - |sub| :: OccursAt(sub, s, i)
  }

  /** `s.startsWith(prefix)`. */
  predicate StartsWith(s: string, prefix: string) {
    prefix <= s
  }

  // ---------------------------------------------------------------------
  // String.compareTo
  // ---------------------------------------------------------------------

  /**
    Java's `String.compareTo`: the difference of the first differing
    characters, or else the difference of the lengths.
  */
  function CompareStrings(a: string, b: string): int {
    if |a| == 0 || |b| == 0 then |a| - |b|
    else if a[0] != b[0] then a[0] as int - b[0] as int
    else CompareStrings(a[1..], b[1..])
  }

  lemma {:induction false} CompareStringsZero(a: string, b: string)
    ensures CompareStrings(a, b) == 0 <==> a == b
  {
    if |a| != 0 && |b| != 0 && a[0] == b[0] {
      CompareStringsZero(a[1..], b[1..]);
      assert a == [a[0]] + a[1..] && b == [b[0]] + b[1..];
    }
  }

  lemma {:induction false} CompareStringsAntisymmetric(a: string, b: string)
    ensures CompareStrings(b, a) == -CompareStrings(a, b)
  {
    if |a| != 0 && |b| != 0 && a[0] == b[0] {
      CompareStringsAntisymmetric(a[1..], b[1..]);
    }
  }

  lemma {:induction false} CompareStringsTransitive(a: string, b: string, c: string)
    requires CompareStrings(a, b) < 0 && CompareStrings(b, c) < 0
    ensures CompareStrings(a, c) < 0
  {
    if |a| != 0 && |b| != 0 && |c| != 0 && a[0] == b[0] && b[0] == c[0] {
      CompareStringsTransitive(a[1..], b[1..], c[1..]);
    }
  }

  // ---------------------------------------------------------------------
  // Searching for a character
  // ---------------------------------------------------------------------

  /**
    `s.indexOf(c)`: the first position of `c`, or -1. What it finds is
    stated by `IndexOfFinds`, kept apart so that the search stays cheap to
    mention.
  */
  function IndexOf(s: string, c: char): (r: int)
    ensures -1 <= r < |s|
  {
    if |s| == 0 then -1
    else if s[0] == c then 0
    else
      var k := IndexOf(s[1..], c);
      if k == -1 then -1 else k + 1
  }

  lemma {:induction false} IndexOfFinds(s: string, c: char)
    ensures IndexOf(s, c) == -1 <==> c !in s
    ensures IndexOf(s, c) >= 0 ==> s[IndexOf(s, c)] == c && c !in s[..IndexOf(s, c)]
  {
    if |s| != 0 && s[0] != c {
      var k := IndexOf(s[1..], c);
      IndexOfFinds(s[1..], c);
      if k == -1 {
        assert s == [s[0]] + s[1..];
      } else {
        assert s[..k + 1] == [s[0]] + s[1..][..k];
      }
    }
  }

  /** `s.lastIndexOf(c)`: the last position of `c`, or -1; `LastIndexOfFinds` states what it finds. */
  function LastIndexOf(s: string, c: char): (r: int)
    ensures -1 <= r < |s|
  {
    if |s| == 0 then -1
    else if s[|s| - 1] == c then |s| - 1
    else LastIndexOf(s[..|s| - 1], c)
  }

  lemma {:induction false} LastIndexOfFinds(s: string, c: char)
    ensures LastIndexOf(s, c) == -1 <==> c !in s
    ensures LastIndexOf(s, c) >= 0 ==> s[LastIndexOf(s, c)] == c && c !in s[LastIndexOf(s, c) + 1..]
  {
    if |s| != 0 && s[|s| - 1] != c {
      var init := s[..|s| - 1];
      var k := LastIndexOf(init, c);
      LastIndexOfFinds(init, c);
      if k == -1 {
        forall i | 0 <= i < |s|
          ensures s[i] != c
        {
          if i < |init| {
            assert s[i] == init[i];
          }
        }
      } else {
        assert s[k + 1..] == init[k + 1..] + [s[|s| - 1]];
      }
    }
  }

  // ---------------------------------------------------------------------
  // Long.toString and its inverse
  // ---------------------------------------------------------------------

  function DigitChar(d: nat): char
    requires d < 10
  {
    ('0' as int + d) as char
  }

  predicate IsDigit(c: char) {
    '0' <= c <= '9'
  }

  /** The decimal digits of `n`, most significant first. */
  function Digits(n: nat): string {
    if n < 10 then [DigitChar(n)] else Digits(n / 10) + [DigitChar(n % 10)]
  }

  /** `Long.toString(n)`. */
  function Decimal(n: int): string {
    if n < 0 then "-" + Digits(-n) else Digits(n)
  }

  function DigitsValue(s: string): int {
    if |s| == 0 then 0
    else DigitsValue(s[..|s| - 1]) * 10 + (s[|s| - 1] as int - '0' as int)
  }

  /** Reads back what `Decimal` writes. */
  function ParseDecimal(s: string): int {
    if |s| > 0 && s[0] == '-' then -DigitsValue(s[1..]) else DigitsValue(s)
  }

  lemma {:induction false} DigitsAreDigits(n: nat)
    ensures |Digits(n)| >= 1
    ensures forall i :: 0 <= i < |Digits(n)| ==> IsDigit(Digits(n)[i])
  {
    if n >= 10 {
      DigitsAreDigits(n / 10);
    }
  }

  lemma {:induction false} DigitsRoundTrip(n: nat)
    ensures DigitsValue(Digits(n)) == n
  {
    if n >= 10 {
      DigitsRoundTrip(n / 10);
      var s := Digits(n);
      assert s[..|s| - 1] == Digits(n / 10);
    }
  }

  /** Every `long` printed by `Long.toString` reads back as itself. */
  lemma {:induction false} DecimalRoundTrip(n: int)
    ensures ParseDecimal(Decimal(n)) == n
  {
    DigitsAreDigits(if n < 0 then -n else n);
    if n < 0 {
      DigitsRoundTrip(-n);
      assert Decimal(n)[1..] == Digits(-n);
    } else {
      DigitsRoundTrip(n);
      assert IsDigit(Digits(n)[0]);
    }
  }

  // ---------------------------------------------------------------------
  // String.split
  // ---------------------------------------------------------------------

  /** The pieces of `s` between the occurrences of `sep`: one more than there are separators. */
  function Pieces(s: string, sep: char): (r: seq<string>)
    ensures |r| >= 1
  {
    if |s| == 0 then [""]
    else
      var rest := Pieces(s[1..], sep);
      if s[0] == sep then [""] + rest else [[s[0]] + rest[0]] + rest[1..]
  }

  /** The pieces of `s` between the maximal runs of `\s` characters. */
  function RunPieces(s: string): (r: seq<string>)
    ensures |r| >= 1
  {
    if |s| == 0 then [""]
    else
      var rest := RunPieces(s[1..]);
      if IsWhitespace(s[0]) then
        (if |s| > 1 && IsWhitespace(s[1]) then rest else [""] + rest)
      else [[s[0]] + rest[0]] + rest[1..]
  }

  /** `ps` without its trailing empty strings. */
  function DropTrailingEmpty(ps: seq<string>): (r: seq<string>)
    ensures |r| <= |ps| && r == ps[..|r|]
    ensures r != [] ==> r[|r| - 1] != ""
    ensures forall i :: |r| <= i < |ps| ==> ps[i] == ""
  {
    if |ps| == 0 then []
    else if ps[|ps| - 1] == "" then DropTrailingEmpty(ps[..|ps| - 1])
    else ps
  }

  /**
    What `String.split` returns for the given pieces: the input itself when
    the pattern did not match (a single piece), otherwise the pieces without
    the trailing empty ones.
  */
  function SplitResult(pieces: seq<string>): seq<string> {
    if |pieces| == 1 then pieces else DropTrailingEmpty(pieces)
  }

  /** `s.split("[.]")`. */
  function SplitDots(s: string): seq<string> {
    SplitResult(Pieces(s, '.'))
  }

  /** `s.split("\\s+")`. */
  function SplitWhitespace(s: string): seq<string> {
    SplitResult(RunPieces(s))
  }

  /** The non-empty strings of `ps`, in order. */
  function NonEmpty(ps: seq<string>): seq<string> {
    if |ps| == 0 then []
    else (if ps[0] == "" then [] else [ps[0]]) + NonEmpty(ps[1..])
  }

  lemma {:induction false} NonEmptyAppend(xs: seq<string>, ys: seq<string>)
    ensures NonEmpty(xs + ys) == NonEmpty(xs) + NonEmpty(ys)
  {
    if |xs| != 0 {
      assert (xs + ys)[0] == xs[0] && (xs + ys)[1..] == xs[1..] + ys;
      NonEmptyAppend(xs[1..], ys);
    } else {
      assert xs + ys == ys;
    }
  }

  /** Dropping empty strings at the end changes nothing once all empty strings are dropped. */
  lemma {:induction false} NonEmptyOfSplitResult(ps: seq<string>)
    ensures NonEmpty(SplitResult(ps)) == NonEmpty(ps)
  {
    if |ps| != 1 {
      var r := DropTrailingEmpty(ps);
      assert ps == r + ps[|r|..];
      NonEmptyAppend(r, ps[|r|..]);
      AllEmptyDropped(ps[|r|..]);
    }
  }

  lemma {:induction false} AllEmptyDropped(ps: seq<string>)
    requires forall i :: 0 <= i < |ps| ==> ps[i] == ""
    ensures NonEmpty(ps) == []
  {
    if |ps| != 0 {
      AllEmptyDropped(ps[1..]);
    }
  }

  // ---------------------------------------------------------------------
  // Joining
  // ---------------------------------------------------------------------

  /** `String.join(sep, parts)`. */
  function Join(parts: seq<string>, sep: string): string {
    if |parts| == 0 then ""
    else if |parts| == 1 then parts[0]
    else parts[0] + sep + Join(parts[1..], sep)
  }

  lemma {:induction false} JoinSnoc(parts: seq<string>, sep: string, last: string)
    requires |parts| >= 1
    ensures Join(parts + [last], sep) == Join(parts, sep) + sep + last
  {
    if |parts| > 1 {
      assert (parts + [last])[1..] == parts[1..] + [last];
      JoinSnoc(parts[1..], sep, last);
    }
  }

  /** Splitting on a character and joining back on it gives the string back. */
  lemma {:induction false} JoinPieces(s: string, sep: char)
    ensures Join(Pieces(s, sep), [sep]) == s
  {
    if |s| != 0 {
      var rest := Pieces(s[1..], sep);
      JoinPieces(s[1..], sep);
      if s[0] == sep {
        assert Join([""] + rest, [sep]) == "" + [sep] + Join(rest, [sep]);
      } else {
        var r := [[s[0]] + rest[0]] + rest[1..];
        if |rest| == 1 {
          assert s == [s[0]] + s[1..];
        } else {
          assert r[1..] == rest[1..];
          assert Join(rest, [sep]) == rest[0] + [sep] + Join(rest[1..], [sep]);
          assert s == [s[0]] + s[1..];
        }
      }
    }
  }

  lemma {:induction false} PiecesAvoidSeparator(s: string, sep: char)
    ensures forall i :: 0 <= i < |Pieces(s, sep)| ==> sep !in Pieces(s, sep)[i]
  {
    if |s| != 0 {
      PiecesAvoidSeparator(s[1..], sep);
    }
  }

  /** A word without the separator is a single piece. */
  lemma {:induction false} PiecesOfWord(w: string, sep: char)
    requires sep !in w
    ensures Pieces(w, sep) == [w]
  {
    if |w| != 0 {
      PiecesOfWord(w[1..], sep);
      assert w == [w[0]] + w[1..];
    }
  }

  /** Splitting `w + sep + rest` gives `w` and then the pieces of `rest`. */
  lemma {:induction false} PiecesCons(w: string, sep: char, rest: string)
    requires sep !in w
    ensures Pieces(w + [sep] + rest, sep) == [w] + Pieces(rest, sep)
  {
    var s := w + [sep] + rest;
    if |w| == 0 {
      assert s[1..] == rest;
    } else {
      assert s[1..] == w[1..] + [sep] + rest;
      PiecesCons(w[1..], sep, rest);
      assert w == [w[0]] + w[1..];
    }
  }

  /** Joining words that avoid the separator and splitting again gives the words back. */
  lemma {:induction false} PiecesOfJoin(words: seq<string>, sep: char)
    requires |words| >= 1
    requires forall i :: 0 <= i < |words| ==> sep !in words[i]
    ensures Pieces(Join(words, [sep]), sep) == words
  {
    if |words| == 1 {
      PiecesOfWord(words[0], sep);
    } else {
      PiecesOfJoin(words[1..], sep);
      PiecesCons(words[0], sep, Join(words[1..], [sep]));
      assert words == [words[0]] + words[1..];
    }
  }

  /** A position holding `c` with no `c` before it is what `IndexOf` finds. */
  lemma {:induction false} IndexOfAt(s: string, c: char, k: nat)
    requires k < |s| && s[k] == c
    requires forall j :: 0 <= j < k ==> s[j] != c
    ensures IndexOf(s, c) == k
  {
    IndexOfFinds(s, c);
    var r := IndexOf(s, c);
    assert s[k] in s;
    forall j | 0 <= j < r
      ensures s[j] != c
    {
      assert s[..r][j] == s[j];
    }
  }

  /** A position holding `c` with no `c` after it is what `LastIndexOf` finds. */
  lemma {:induction false} LastIndexOfAt(s: string, c: char, k: nat)
    requires k < |s| && s[k] == c
    requires forall j :: k < j < |s| ==> s[j] != c
    ensures LastIndexOf(s, c) == k
  {
    LastIndexOfFinds(s, c);
    var r := LastIndexOf(s, c);
    assert s[k] in s;
    forall j | r < j < |s|
      ensures s[j] != c
    {
      assert s[r + 1..][j - r - 1] == s[j];
    }
  }
}
