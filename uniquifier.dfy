/**
  Model of Uniquifier.java: launchables that share a display name get a
  decorator from their ids, "Settings (Channel)", "Settings (App)".

  For every group of same-named launchables three extraction patterns are
  tried on the ids in turn (the text after the last `$`, the text after
  the last `.`, the whole id). Each id is tokenized into title-cased dot
  segments and camel-case parts, together with the words of the shared
  name; the tokens that two or more members share are dropped, and what is
  left of each member's extracted part becomes its decorator. The group is
  renamed only when all decorators differ.

  The character functions are the ASCII ones of the Text module.
*/
module Uniquifier {
  import opened Wrappers
  import opened Text
  import opened Launchables

  // ---------------------------------------------------------------------
  // titleCase and titleCaseAll
  // ---------------------------------------------------------------------

  /**
    `titleCase` from the given state: a space character is kept and makes
    the next character title case; the first other character after it is
    title-cased, the rest are lowercased.
  */
  function TitleCaseFrom(s: string, next: bool): (r: string)
    ensures |r| == |s|
  {
    if |s| == 0 then ""
    else if IsSpaceChar(s[0]) then [s[0]] + TitleCaseFrom(s[1..], true)
    else if next then [ToTitle(s[0])] + TitleCaseFrom(s[1..], false)
    else [ToLower(s[0])] + TitleCaseFrom(s[1..], false)
  }

  /** `titleCase`: every word starts with a capital, the rest of it is in lower case. */
  function TitleCase(s: string): (r: string)
    ensures |r| == |s|
  {
    TitleCaseFrom(s, true)
  }

  /** `titleCaseAll`. */
  function TitleCaseAll(words: seq<string>): (r: seq<string>)
    ensures |r| == |words| && forall i :: 0 <= i < |r| ==> r[i] == TitleCase(words[i])
  {
    seq(|words|, i requires 0 <= i < |words| => TitleCase(words[i]))
  }

  /** Neither case mapping turns a character into a space or a space into something else. */
  lemma {:induction false} CaseKeepsSpaces(c: char)
    ensures IsSpaceChar(ToTitle(c)) <==> IsSpaceChar(c)
    ensures IsSpaceChar(ToLower(c)) <==> IsSpaceChar(c)
    ensures ToTitle(ToTitle(c)) == ToTitle(c) && ToLower(ToLower(c)) == ToLower(c)
    ensures ToLower(ToTitle(c)) == ToLower(c) || !IsSpaceChar(c)
  {
  }

  lemma {:induction false} TitleCaseFromIdempotent(s: string, next: bool)
    ensures TitleCaseFrom(TitleCaseFrom(s, next), next) == TitleCaseFrom(s, next)
  {
    if |s| > 0 {
      var r := TitleCaseFrom(s, next);
      CaseKeepsSpaces(s[0]);
      assert r[1..] == TitleCaseFrom(s[1..], IsSpaceChar(s[0]));
      TitleCaseFromIdempotent(s[1..], IsSpaceChar(s[0]));
      assert r == [r[0]] + r[1..];
    }
  }

  /** Title-casing twice is title-casing once. */
  lemma {:induction false} TitleCaseIdempotent(s: string)
    ensures TitleCase(TitleCase(s)) == TitleCase(s)
  {
    TitleCaseFromIdempotent(s, true);
  }

  lemma {:induction false} TitleCaseFromWord(s: string)
    requires forall i :: 0 <= i < |s| ==> !IsSpaceChar(s[i])
    ensures TitleCaseFrom(s, false) == Lower(s)
  {
    if |s| > 0 {
      TitleCaseFromWord(s[1..]);
      assert Lower(s) == [ToLower(s[0])] + Lower(s[1..]);
    }
  }

  /** A word without spaces comes out as its first letter in title case and the rest in lower case. */
  lemma {:induction false} TitleCaseWord(s: string)
    requires |s| > 0 && forall i :: 0 <= i < |s| ==> !IsSpaceChar(s[i])
    ensures TitleCase(s) == [ToTitle(s[0])] + Lower(s[1..])
  {
    TitleCaseFromWord(s[1..]);
  }

  // ---------------------------------------------------------------------
  // splitInCamelParts
  // ---------------------------------------------------------------------

  /**
    The word starts `splitInCamelParts` records from index `i` on, where
    `was` tells whether the character before `i` started a word: at a step
    down from upper to lower case the word starts one character back, at a
    step up it starts here. The first character always counts as a start.
  */
  function CamelStarts(s: string, i: nat, was: bool): (r: seq<nat>)
    requires 1 <= i
    ensures forall k :: 0 <= k < |r| ==> i - 1 <= r[k] < |s|
    ensures forall k, m :: 0 <= k < m < |r| ==> r[k] <= r[m]
    decreases |s| - i
  {
    if i >= |s| then []
    else
      var isStart := IsUpper(s[i]);
      (if was && !isStart then [i - 1] else if !was && isStart then [i] else [])
        + CamelStarts(s, i + 1, isStart)
  }

  /** The second loop of `splitInCamelParts`: `s` is cut at the word starts, skipping repeats. */
  function CutAt(s: string, starts: seq<nat>, last: nat): (r: seq<string>)
    requires last <= |s|
    requires forall k :: 0 <= k < |starts| ==> last <= starts[k] < |s|
    requires forall k, m :: 0 <= k < m < |starts| ==> starts[k] <= starts[m]
    ensures |r| >= 1
  {
    if |starts| == 0 then [s[last..]]
    else if starts[0] == last then CutAt(s, starts[1..], last)
    else [s[last..starts[0]]] + CutAt(s, starts[1..], starts[0])
  }

  /** `splitInCamelParts`. */
  function SplitInCamelParts(s: string): (r: seq<string>)
    ensures |r| >= 1
  {
    CutAt(s, CamelStarts(s, 1, true), 0)
  }

  lemma {:induction false} CutAtConcat(s: string, starts: seq<nat>, last: nat)
    requires last <= |s|
    requires forall k :: 0 <= k < |starts| ==> last <= starts[k] < |s|
    requires forall k, m :: 0 <= k < m < |starts| ==> starts[k] <= starts[m]
    ensures Join(CutAt(s, starts, last), "") == s[last..]
    ensures forall k :: 0 <= k < |CutAt(s, starts, last)| - 1 ==> CutAt(s, starts, last)[k] != ""
    ensures last < |s| ==> CutAt(s, starts, last)[|CutAt(s, starts, last)| - 1] != ""
  {
    if |starts| > 0 {
      if starts[0] == last {
        CutAtConcat(s, starts[1..], last);
      } else {
        var rest := CutAt(s, starts[1..], starts[0]);
        CutAtConcat(s, starts[1..], starts[0]);
        assert s[last..] == s[last..starts[0]] + s[starts[0]..];
        assert Join([s[last..starts[0]]] + rest, "") == s[last..starts[0]] + "" + Join(rest, "") by {
          assert ([s[last..starts[0]]] + rest)[1..] == rest;
        }
      }
    }
  }

  /** The camel-case parts put back together give the input, and none of them is empty unless the input is. */
  lemma {:induction false} CamelPartsConcat(s: string)
    ensures Join(SplitInCamelParts(s), "") == s
    ensures |s| > 0 ==> forall k :: 0 <= k < |SplitInCamelParts(s)| ==> SplitInCamelParts(s)[k] != ""
    ensures |s| == 0 ==> SplitInCamelParts(s) == [""]
  {
    CutAtConcat(s, CamelStarts(s, 1, true), 0);
  }

  /** The launcher's examples: "IAmAnABCBook" and "WhoAmI". */
  lemma {:induction false} CamelExamples()
    ensures SplitInCamelParts("IAmAnABCBook") == ["I", "Am", "An", "ABC", "Book"]
    ensures SplitInCamelParts("WhoAmI") == ["Who", "Am", "I"]
  {
    BookStarts("IAmAnABCBook");
    BookCuts();
    WhoStarts();
    WhoCuts();
  }

  /** One step of `CamelStarts`. */
  lemma {:induction false} CamelStep(s: string, i: nat, was: bool)
    requires 1 <= i < |s|
    ensures CamelStarts(s, i, was) ==
      (if was && !IsUpper(s[i]) then [i - 1] else if !was && IsUpper(s[i]) then [i] else []) + CamelStarts(s, i + 1, IsUpper(s[i]))
  {
  }

  /** The word starts of any string cased like "IAmAnABCBook". */
  lemma {:induction false} BookStarts(s: string)
    requires |s| == 12 && IsUpper(s[1]) && !IsUpper(s[2]) && IsUpper(s[3]) && !IsUpper(s[4])
    requires IsUpper(s[5]) && IsUpper(s[6]) && IsUpper(s[7]) && IsUpper(s[8])
    requires !IsUpper(s[9]) && !IsUpper(s[10]) && !IsUpper(s[11])
    ensures CamelStarts(s, 1, true) == [1, 3, 3, 5, 8]
  {
    assert CamelStarts(s, 12, false) == [];
    CamelStep(s, 11, false);
    CamelStep(s, 10, false);
    CamelStep(s, 9, true);
    CamelStep(s, 8, true);
    CamelStep(s, 7, true);
    CamelStep(s, 6, true);
    CamelStep(s, 5, false);
    CamelStep(s, 4, true);
    CamelStep(s, 3, false);
    CamelStep(s, 2, true);
    CamelStep(s, 1, true);
  }

  lemma {:induction false} BookCuts()
    ensures CutAt("IAmAnABCBook", [1, 3, 3, 5, 8], 0) == ["I", "Am", "An", "ABC", "Book"]
  {
    var s := "IAmAnABCBook";
    assert s[8..] == "Book" && s[5..8] == "ABC" && s[3..5] == "An" && s[1..3] == "Am" && s[0..1] == "I";
    assert CutAt(s, [], 8) == ["Book"];
    assert CutAt(s, [8], 5) == ["ABC", "Book"];
    assert CutAt(s, [5, 8], 3) == ["An", "ABC", "Book"];
    assert CutAt(s, [3, 5, 8], 3) == ["An", "ABC", "Book"];
    assert CutAt(s, [3, 3, 5, 8], 1) == ["Am", "An", "ABC", "Book"];
  }

  lemma {:induction false} WhoStarts()
    ensures CamelStarts("WhoAmI", 1, true) == [0, 3, 3, 5]
  {
    var s := "WhoAmI";
    assert CamelStarts(s, 6, false) == [];
    assert CamelStarts(s, 5, false) == [5];
    assert CamelStarts(s, 4, true) == [3, 5];
    assert CamelStarts(s, 3, false) == [3, 3, 5];
  }

  lemma {:induction false} WhoCuts()
    ensures CutAt("WhoAmI", [0, 3, 3, 5], 0) == ["Who", "Am", "I"]
  {
    var s := "WhoAmI";
    assert s[5..] == "I" && s[3..5] == "Am" && s[0..3] == "Who";
    assert CutAt(s, [], 5) == ["I"];
    assert CutAt(s, [5], 3) == ["Am", "I"];
    assert CutAt(s, [3, 5], 3) == ["Am", "I"];
    assert CutAt(s, [3, 3, 5], 0) == ["Who", "Am", "I"];
  }

  lemma {:induction false} NoStartsInLowerRun(s: string, i: nat)
    requires 1 <= i && forall k :: i <= k < |s| ==> !IsUpper(s[k])
    ensures CamelStarts(s, i, false) == []
    decreases |s| - i
  {
    if i < |s| {
      NoStartsInLowerRun(s, i + 1);
    }
  }

  lemma {:induction false} NoStartsInUpperRun(s: string, i: nat)
    requires 1 <= i && forall k :: i <= k < |s| ==> IsUpper(s[k])
    ensures CamelStarts(s, i, true) == []
    decreases |s| - i
  {
    if i < |s| {
      NoStartsInUpperRun(s, i + 1);
    }
  }

  /** A word with no upper-case letter after its first character is one camel-case part. */
  lemma {:induction false} CapitalisedWord(s: string)
    requires forall k :: 1 <= k < |s| ==> !IsUpper(s[k])
    ensures SplitInCamelParts(s) == [s]
  {
    if |s| > 1 {
      NoStartsInLowerRun(s, 2);
      assert CamelStarts(s, 1, true) == [0];
      assert CutAt(s, [0], 0) == CutAt(s, [], 0);
    }
    assert s[0..] == s;
  }

  /** An acronym, all in upper case, is one camel-case part. */
  lemma {:induction false} Acronym(s: string)
    requires forall k :: 1 <= k < |s| ==> IsUpper(s[k])
    ensures SplitInCamelParts(s) == [s]
  {
    NoStartsInUpperRun(s, 1);
    assert s[0..] == s;
  }

  // ---------------------------------------------------------------------
  // tokenize
  // ---------------------------------------------------------------------

  /**
    `tokenize` on a class name: the dot segments before the last dot,
    title-cased, then the camel-case parts of what follows the last dot,
    split in two at the first `$`. A `$` before the last dot makes the
    substring bounds cross, and `substring` throws: `None`.
  */
  function Front(s: string, lastDot: int): seq<string>
    requires lastDot < |s|
  {
    if lastDot < 0 then [] else TitleCaseAll(SplitDots(s[..lastDot]))
  }

  function Tokenize(s: string): Option<seq<string>> {
    var lastDot := LastIndexOf(s, '.');
    var front := Front(s, lastDot);
    var dollar := IndexOf(s, '$');
    if dollar == -1 then Some(front + SplitInCamelParts(s[lastDot + 1..]))
    else if dollar < lastDot + 1 then None
    else Some(front + SplitInCamelParts(s[lastDot + 1..dollar]) + SplitInCamelParts(s[dollar + 1..]))
  }

  /** `tokenize` fails exactly when a `$` comes before a `.`. */
  lemma {:induction false} TokenizeFailsExactly(s: string)
    ensures Tokenize(s).None? <==> exists i, j :: 0 <= i < j < |s| && s[i] == '$' && s[j] == '.'
  {
    var lastDot := LastIndexOf(s, '.');
    var dollar := IndexOf(s, '$');
    assert Tokenize(s).None? <==> dollar != -1 && dollar < lastDot + 1;
    DollarBeforeDot(s);
  }

  lemma {:induction false} DollarBeforeDot(s: string)
    ensures (IndexOf(s, '$') != -1 && IndexOf(s, '$') < LastIndexOf(s, '.') + 1)
      <==> exists i, j :: 0 <= i < j < |s| && s[i] == '$' && s[j] == '.'
  {
    var lastDot := LastIndexOf(s, '.');
    var dollar := IndexOf(s, '$');
    LastIndexOfFinds(s, '.');
    IndexOfFinds(s, '$');
    if exists i, j :: 0 <= i < j < |s| && s[i] == '$' && s[j] == '.' {
      var i, j :| 0 <= i < j < |s| && s[i] == '$' && s[j] == '.';
      assert '$' in s && '.' in s;
      forall k | 0 <= k < dollar
        ensures s[k] != '$'
      {
        assert s[..dollar][k] == s[k];
      }
      forall k | lastDot < k < |s|
        ensures s[k] != '.'
      {
        assert s[lastDot + 1..][k - lastDot - 1] == s[k];
      }
    }
    if dollar != -1 && dollar < lastDot + 1 {
      assert s[dollar] == '$' && s[lastDot] == '.';
    }
  }

  /** A class name without dots and dollars is just split into its camel-case parts. */
  lemma {:induction false} TokenizePlainName(s: string)
    requires '.' !in s && '$' !in s
    ensures Tokenize(s) == Some(SplitInCamelParts(s))
  {
    LastIndexOfFinds(s, '.');
    IndexOfFinds(s, '$');
    assert s[0..] == s;
    assert [] + SplitInCamelParts(s) == SplitInCamelParts(s);
  }

  /** A qualified name without `$`: the title-cased package segments, then the parts of the class. */
  lemma {:induction false} TokenizeQualified(pkg: string, cls: string)
    requires '$' !in pkg && '.' !in cls && '$' !in cls
    ensures Tokenize(pkg + "." + cls) == Some(TitleCaseAll(SplitDots(pkg)) + SplitInCamelParts(cls))
  {
    var s := pkg + "." + cls;
    assert LastIndexOf(s, '.') == |pkg| by {
      forall j | |pkg| < j < |s|
        ensures s[j] != '.'
      {
        assert s[j] == cls[j - |pkg| - 1];
      }
      LastIndexOfAt(s, '.', |pkg|);
    }
    assert IndexOf(s, '$') == -1 by {
      IndexOfFinds(s, '$');
      forall j | 0 <= j < |s|
        ensures s[j] != '$'
      {
        if j < |pkg| {
          assert s[j] == pkg[j];
        } else if j > |pkg| {
          assert s[j] == cls[j - |pkg| - 1];
        }
      }
    }
    assert s[..|pkg|] == pkg && s[|pkg| + 1..] == cls;
  }

  /** An unqualified name with an inner class: the parts of the outer class, then those of the inner one. */
  lemma {:induction false} TokenizeInner(cls: string, inner: string)
    requires '.' !in cls && '$' !in cls && '.' !in inner
    ensures Tokenize(cls + "$" + inner) == Some(SplitInCamelParts(cls) + SplitInCamelParts(inner))
  {
    var s := cls + "$" + inner;
    assert LastIndexOf(s, '.') == -1 by {
      LastIndexOfFinds(s, '.');
      forall j | 0 <= j < |s|
        ensures s[j] != '.'
      {
        if j < |cls| {
          assert s[j] == cls[j];
        } else if j > |cls| {
          assert s[j] == inner[j - |cls| - 1];
        }
      }
    }
    assert IndexOf(s, '$') == |cls| by {
      IndexOfAt(s, '$', |cls|);
    }
    assert s[0..|cls|] == cls && s[|cls| + 1..] == inner;
    assert [] + SplitInCamelParts(cls) == SplitInCamelParts(cls);
  }

  /** A qualified name with an inner class: package segments, outer class parts, inner class parts. */
  lemma {:induction false} TokenizeNested(pkg: string, cls: string, inner: string)
    requires '$' !in pkg && '.' !in cls && '$' !in cls && '.' !in inner
    ensures Tokenize(pkg + "." + cls + "$" + inner)
      == Some(TitleCaseAll(SplitDots(pkg)) + SplitInCamelParts(cls) + SplitInCamelParts(inner))
  {
    var s := pkg + "." + cls + "$" + inner;
    var dollar := |pkg| + 1 + |cls|;
    assert LastIndexOf(s, '.') == |pkg| by {
      forall j | |pkg| < j < |s|
        ensures s[j] != '.'
      {
        if j < dollar {
          assert s[j] == cls[j - |pkg| - 1];
        } else if j > dollar {
          assert s[j] == inner[j - dollar - 1];
        }
      }
      LastIndexOfAt(s, '.', |pkg|);
    }
    assert IndexOf(s, '$') == dollar by {
      forall j | 0 <= j < dollar
        ensures s[j] != '$'
      {
        if j < |pkg| {
          assert s[j] == pkg[j];
        } else if j > |pkg| {
          assert s[j] == cls[j - |pkg| - 1];
        }
      }
      IndexOfAt(s, '$', dollar);
    }
    assert s[..|pkg|] == pkg && s[|pkg| + 1..dollar] == cls && s[dollar + 1..] == inner;
  }

  /**
    The pieces of the launcher's example "adam.bertil.Caesar$David": with
    `TokenizeNested` they give Adam, Bertil, Caesar, David.
  */
  lemma {:induction false} AdamBertil()
    ensures TitleCaseAll(SplitDots("adam.bertil")) == ["Adam", "Bertil"]
  {
    AdamBertilSplit();
    AdamBertilTitles();
  }

  lemma {:induction false} AdamBertilSplit()
    ensures SplitDots("adam.bertil") == ["adam", "bertil"]
  {
    assert Join(["adam", "bertil"], ".") == "adam.bertil";
    PiecesOfJoin(["adam", "bertil"], '.');
  }

  lemma {:induction false} AdamBertilTitles()
    ensures TitleCase("adam") == "Adam" && TitleCase("bertil") == "Bertil"
  {
    LowerCaseWord("adam");
    LowerCaseWord("bertil");
  }

  /** A lower-case word is title-cased by raising its first letter. */
  lemma {:induction false} LowerCaseWord(s: string)
    requires |s| > 0 && forall i :: 0 <= i < |s| ==> 'a' <= s[i] <= 'z'
    ensures TitleCase(s) == [ToTitle(s[0])] + s[1..]
    ensures ToTitle(s[0]) == (s[0] as int - 32) as char
  {
    TitleCaseWord(s);
    LowerOfLowerCase(s[1..]);
  }

  lemma {:induction false} CaesarDavid()
    ensures SplitInCamelParts("Caesar") == ["Caesar"]
    ensures SplitInCamelParts("David") == ["David"]
  {
    CapitalisedWord("Caesar");
    CapitalisedWord("David");
  }

  /** A `$` before the last dot: ".$." makes `tokenize` throw. */
  lemma {:induction false} TokenizeBrokenExample()
    ensures Tokenize(".$.").None?
  {
    TokenizeFailsExactly(".$.");
    assert ".$."[1] == '$' && ".$."[2] == '.';
  }

  // ---------------------------------------------------------------------
  // The name part extractors
  // ---------------------------------------------------------------------

  /**
    The three patterns `uniquify` tries on the ids, in this order: the text
    after the last `$`, the text after the last `.`, and the whole id.
  */
  datatype Extractor = InnerOnly | ClassName | All

  /**
    Matching an id against an extractor and taking group 1. The `.` of a
    regular expression does not match line terminators, while the class
    `[^.]` does.
  */
  function Extract(e: Extractor, id: string): Option<string> {
    match e
    case InnerOnly =>
      var dollar := LastIndexOf(id, '$');
      if dollar == -1 || HasLineTerminator(id) then None else Some(id[dollar + 1..])
    case ClassName =>
      var dot := LastIndexOf(id, '.');
      if HasLineTerminator(id[..dot + 1]) then None else Some(id[dot + 1..])
    case All =>
      if HasLineTerminator(id) then None else Some(id)
  }

  /** When each extractor matches. */
  lemma {:induction false} ExtractMatches(id: string)
    ensures Extract(InnerOnly, id).Some? <==> '$' in id && !HasLineTerminator(id)
    ensures !HasLineTerminator(id) ==> Extract(ClassName, id).Some?
    ensures Extract(All, id).Some? <==> !HasLineTerminator(id)
  {
    LastIndexOfFinds(id, '$');
    if !HasLineTerminator(id) {
      var prefix := id[..LastIndexOf(id, '.') + 1];
      forall k | 0 <= k < |prefix|
        ensures !IsLineTerminator(prefix[k])
      {
        assert prefix[k] == id[k];
      }
    }
  }

  /**
    What an extractor takes is a tail of the id: after a `$` and without
    one for `InnerOnly`, after a `.` (or all of it) and without one for
    `ClassName`, the id itself for `All`.
  */
  lemma {:induction false} ExtractedTail(e: Extractor, id: string)
    requires Extract(e, id).Some?
    ensures var g := Extract(e, id).value;
      |g| <= |id| && id[|id| - |g|..] == g
    ensures var g := Extract(e, id).value;
      e == InnerOnly ==> '$' !in g && |g| < |id| && id[|id| - |g| - 1] == '$'
    ensures var g := Extract(e, id).value;
      e == ClassName ==> '.' !in g && (|g| == |id| || id[|id| - |g| - 1] == '.')
    ensures e == All ==> Extract(e, id).value == id
  {
    if e == InnerOnly {
      LastIndexOfFinds(id, '$');
    } else if e == ClassName {
      LastIndexOfFinds(id, '.');
    }
  }

  /**
    The extracted part of an id that tokenizes tokenizes too, so the
    decorator step of `uniquifySameNamed` never throws.
  */
  lemma {:induction false} ExtractedTokenizes(e: Extractor, id: string)
    requires Extract(e, id).Some? && Tokenize(id).Some?
    ensures Tokenize(Extract(e, id).value).Some?
  {
    var g := Extract(e, id).value;
    ExtractedTail(e, id);
    TokenizeFailsExactly(g);
    TokenizeFailsExactly(id);
    if e == InnerOnly {
      assert '$' !in g;
    } else if e == ClassName {
      assert '.' !in g;
    }
  }

  // ---------------------------------------------------------------------
  // keepOnlyNamedParts
  // ---------------------------------------------------------------------

  /** One step of the builder: a space goes in before the part only when the builder is non-empty. */
  function Append(built: string, part: string): string {
    (if |built| > 0 then built + " " else built) + part
  }

  /** The builder after the loop of `keepOnlyNamedParts` over `parts`. */
  function Kept(parts: seq<string>, keep: set<string>): string {
    if |parts| == 0 then ""
    else
      var built := Kept(parts[..|parts| - 1], keep);
      var part := parts[|parts| - 1];
      if part in keep then Append(built, part) else built
  }

  /** The parts to keep, in order. */
  function Filter(parts: seq<string>, keep: set<string>): (r: seq<string>)
    ensures forall k :: 0 <= k < |r| ==> r[k] in keep && r[k] in parts
  {
    if |parts| == 0 then []
    else
      var init := Filter(parts[..|parts| - 1], keep);
      var part := parts[|parts| - 1];
      if part in keep then init + [part] else init
  }

  lemma {:induction false} JoinOfNonEmpty(parts: seq<string>, sep: string)
    requires |parts| > 0 && parts[0] != ""
    ensures Join(parts, sep) != ""
  {
  }

  /**
    When no kept part is empty, the builder holds the kept parts joined by
    single spaces.
  */
  lemma {:induction false} KeptIsJoin(parts: seq<string>, keep: set<string>)
    requires forall k :: 0 <= k < |parts| && parts[k] in keep ==> parts[k] != ""
    ensures Kept(parts, keep) == Join(Filter(parts, keep), " ")
    ensures Kept(parts, keep) == "" <==> Filter(parts, keep) == []
  {
    if |parts| > 0 {
      var init := parts[..|parts| - 1];
      var part := parts[|parts| - 1];
      KeptIsJoin(init, keep);
      var f := Filter(init, keep);
      if part in keep {
        if |f| == 0 {
          assert Filter(parts, keep) == [part];
        } else {
          JoinSnoc(f, " ", part);
          assert f[0] in parts;
          JoinOfNonEmpty(f, " ");
        }
      }
    }
  }

  /** `keepOnlyNamedParts`: the tokens of `s` that are in `keep`, space-separated; `None` when `tokenize` throws. */
  method KeepOnlyNamedParts(s: string, keep: set<string>) returns (r: Option<string>)
    ensures Tokenize(s).None? ==> r.None?
    ensures Tokenize(s).Some? ==> r == Some(Kept(Tokenize(s).value, keep))
  {
    var tokens := Tokenize(s);
    if tokens.None? {
      return None;
    }
    var built := BuildKept(tokens.value, keep);
    return Some(built);
  }

  /** The loop of `keepOnlyNamedParts` over the tokens. */
  method BuildKept(parts: seq<string>, keep: set<string>) returns (builder: string)
    ensures builder == Kept(parts, keep)
  {
    builder := "";
    var i := 0;
    while i < |parts|
      invariant 0 <= i <= |parts|
      invariant builder == Kept(parts[..i], keep)
    {
      var part := parts[i];
      assert parts[..i + 1][..i] == parts[..i];
      if part in keep {
        if |builder| > 0 {
          builder := builder + " ";
        }
        builder := builder + part;
      }
      i := i + 1;
    }
    assert parts[..i] == parts;
  }

  /** The launcher's example: of I, Am, An, ABC, Book only I, ABC and Book are kept. */
  lemma {:induction false} KeptExample()
    ensures Kept(["I", "Am", "An", "ABC", "Book"], {"I", "ABC", "Book"}) == "I ABC Book"
  {
    var parts := ["I", "Am", "An", "ABC", "Book"];
    var keep := {"I", "ABC", "Book"};
    assert "Am" !in keep && "An" !in keep;
    assert parts[..1] == ["I"] && parts[..2] == ["I", "Am"] && parts[..3] == ["I", "Am", "An"];
    assert parts[..4] == ["I", "Am", "An", "ABC"];
    assert Kept(["I"], keep) == "I";
    assert Kept(["I", "Am"], keep) == "I" by {
      assert ["I", "Am"][..1] == ["I"];
    }
    assert Kept(["I", "Am", "An"], keep) == "I" by {
      assert ["I", "Am", "An"][..2] == ["I", "Am"];
    }
    assert Kept(["I", "Am", "An", "ABC"], keep) == "I ABC" by {
      assert ["I", "Am", "An", "ABC"][..3] == ["I", "Am", "An"];
      assert Append("I", "ABC") == "I ABC";
    }
  }

  // ---------------------------------------------------------------------
  // uniquifyParts
  // ---------------------------------------------------------------------

  /** In how many of the sets `x` is. */
  function CountIn(x: string, sets: seq<set<string>>): nat {
    if |sets| == 0 then 0
    else CountIn(x, sets[..|sets| - 1]) + (if x in sets[|sets| - 1] then 1 else 0)
  }

  /** All strings of all the sets. */
  function Union(sets: seq<set<string>>): (r: set<string>)
    ensures forall x :: x in r <==> CountIn(x, sets) > 0
  {
    if |sets| == 0 then {} else Union(sets[..|sets| - 1]) + sets[|sets| - 1]
  }

  /** The strings that are in more than one of the sets. */
  function SharedParts(sets: seq<set<string>>): set<string> {
    set x | x in Union(sets) && CountIn(x, sets) > 1
  }

  /** A string counts more than once exactly when two different sets hold it. */
  lemma {:induction false} CountInTwo(x: string, sets: seq<set<string>>)
    ensures CountIn(x, sets) > 1 <==> exists i, j :: 0 <= i < j < |sets| && x in sets[i] && x in sets[j]
    ensures CountIn(x, sets) > 0 <==> exists i :: 0 <= i < |sets| && x in sets[i]
  {
    if |sets| > 0 {
      var init := sets[..|sets| - 1];
      CountInTwo(x, init);
      if exists i, j :: 0 <= i < j < |sets| && x in sets[i] && x in sets[j] {
        var i, j :| 0 <= i < j < |sets| && x in sets[i] && x in sets[j];
        if j < |sets| - 1 {
          assert init[i] == sets[i] && init[j] == sets[j];
        } else {
          assert init[i] == sets[i];
        }
      }
      if exists i :: 0 <= i < |sets| && x in sets[i] {
        var i :| 0 <= i < |sets| && x in sets[i];
        if i < |sets| - 1 {
          assert init[i] == sets[i];
        }
      }
    }
  }

  /** After `uniquifyParts`, a set holds exactly those of its strings that no other set holds. */
  lemma {:induction false} UniquifiedOwnParts(sets: seq<set<string>>, i: nat, x: string)
    requires i < |sets|
    ensures x in sets[i] - SharedParts(sets) <==> x in sets[i] && forall j :: 0 <= j < |sets| && j != i ==> x !in sets[j]
  {
    CountInTwo(x, sets);
    if x in sets[i] && exists j :: 0 <= j < |sets| && j != i && x in sets[j] {
      var j :| 0 <= j < |sets| && j != i && x in sets[j];
      if i < j {
        assert x in sets[i] && x in sets[j];
      } else {
        assert x in sets[j] && x in sets[i];
      }
    }
  }

  /** After `uniquifyParts` no two sets share a string. */
  lemma {:induction false} UniquifiedAreDisjoint(sets: seq<set<string>>, i: nat, j: nat)
    requires i < j < |sets|
    ensures (sets[i] - SharedParts(sets)) * (sets[j] - SharedParts(sets)) == {}
  {
    forall x | x in sets[i] && x in sets[j]
      ensures x in SharedParts(sets)
    {
      CountInTwo(x, sets);
    }
  }

  /** The first loop of `uniquifyParts`: how many of the sets hold each string. */
  method CountParts(sets: seq<set<string>>) returns (counts: map<string, nat>)
    ensures forall x :: x in counts <==> CountIn(x, sets) > 0
    ensures forall x :: x in counts ==> counts[x] == CountIn(x, sets)
  {
    counts := map[];
    var i := 0;
    while i < |sets|
      invariant 0 <= i <= |sets|
      invariant forall x :: x in counts <==> CountIn(x, sets[..i]) > 0
      invariant forall x :: x in counts ==> counts[x] == CountIn(x, sets[..i])
    {
      var rest := sets[i];
      assert sets[..i + 1][..i] == sets[..i];
      while rest != {}
        invariant rest <= sets[i]
        invariant forall x :: x in counts <==> CountIn(x, sets[..i]) + (if x in sets[i] - rest then 1 else 0) > 0
        invariant forall x :: x in counts ==> counts[x] == CountIn(x, sets[..i]) + (if x in sets[i] - rest then 1 else 0)
      {
        var x :| x in rest;
        var count := if x in counts then counts[x] else 0;
        counts := counts[x := count + 1];
        rest := rest - {x};
      }
      i := i + 1;
    }
    assert sets[..i] == sets;
  }

  /** The second loop of `uniquifyParts`: the strings counted more than once. */
  method CountedTwice(counts: map<string, nat>) returns (duplicates: set<string>)
    ensures forall x :: x in duplicates <==> x in counts && counts[x] > 1
  {
    duplicates := {};
    var entries := counts.Keys;
    while entries != {}
      invariant entries <= counts.Keys
      invariant forall x :: x in duplicates <==> x in counts.Keys - entries && counts[x] > 1
    {
      var x :| x in entries;
      if counts[x] > 1 {
        duplicates := duplicates + {x};
      }
      entries := entries - {x};
    }
  }

  /**
    `uniquifyParts`: the strings that are in two or more of the sets are
    removed from all of them.
  */
  method UniquifyParts(parts: array<set<string>>)
    modifies parts
    ensures forall i :: 0 <= i < parts.Length ==> parts[i] == old(parts[i]) - SharedParts(old(parts[..]))
  {
    var counts := CountParts(parts[..]);
    var duplicates := CountedTwice(counts);
    assert duplicates == SharedParts(parts[..]);
    var k := 0;
    while k < parts.Length
      invariant 0 <= k <= parts.Length
      invariant forall j :: 0 <= j < k ==> parts[j] == old(parts[j]) - duplicates
      invariant forall j :: k <= j < parts.Length ==> parts[j] == old(parts[j])
    {
      parts[k] := parts[k] - duplicates;
      k := k + 1;
    }
  }

  // ---------------------------------------------------------------------
  // hasDuplicates
  // ---------------------------------------------------------------------

  /** Some string occurs twice. */
  predicate HasRepeats(strings: seq<string>) {
    exists i, j :: 0 <= i < j < |strings| && strings[i] == strings[j]
  }

  /** `hasDuplicates`, with its early answer for lists of at most one string. */
  method HasDuplicates(strings: seq<string>) returns (r: bool)
    ensures r <==> HasRepeats(strings)
  {
    if |strings| <= 1 {
      return false;
    }
    var alreadyFound: set<string> := {};
    var i := 0;
    while i < |strings|
      invariant 0 <= i <= |strings|
      invariant forall x :: x in alreadyFound <==> x in strings[..i]
      invariant !HasRepeats(strings[..i])
    {
      var s := strings[i];
      if s in alreadyFound {
        var k :| 0 <= k < i && strings[k] == s;
        return true;
      }
      alreadyFound := alreadyFound + {s};
      assert strings[..i + 1] == strings[..i] + [s];
      i := i + 1;
    }
    assert strings[..i] == strings;
    return false;
  }

  /** Without repeats, the strings are as many as the set of them; with repeats there are fewer. */
  lemma {:induction false} NoRepeatsCount(strings: seq<string>)
    ensures |set k | 0 <= k < |strings| :: strings[k]| <= |strings|
    ensures !HasRepeats(strings) <==> |set k | 0 <= k < |strings| :: strings[k]| == |strings|
  {
    if |strings| > 0 {
      var init := strings[..|strings| - 1];
      var last := strings[|strings| - 1];
      NoRepeatsCount(init);
      var before := set k | 0 <= k < |init| :: init[k];
      var all := set k | 0 <= k < |strings| :: strings[k];
      assert all == before + {last} by {
        forall x | x in before
          ensures x in all
        {
          var k :| 0 <= k < |init| && init[k] == x;
          assert strings[k] == x;
        }
        assert strings[|strings| - 1] == last;
      }
      assert HasRepeats(strings) <==> HasRepeats(init) || last in before by {
        if HasRepeats(strings) {
          var i, j :| 0 <= i < j < |strings| && strings[i] == strings[j];
          if j < |strings| - 1 {
            assert init[i] == init[j];
          } else {
            assert init[i] == last;
          }
        }
        if HasRepeats(init) {
          var i, j :| 0 <= i < j < |init| && init[i] == init[j];
          assert strings[i] == strings[j];
        }
        if last in before {
          var k :| 0 <= k < |init| && init[k] == last;
          assert strings[k] == strings[|strings| - 1];
        }
      }
    }
  }

  // ---------------------------------------------------------------------
  // uniquifySameNamed, as values
  // ---------------------------------------------------------------------

  /** What an attempt ends with: a value, `false` from the method (declined), or an exception (crashed). */
  datatype Step<T> = Done(value: T) | Declined | Crashed

  /** One member of a group after the first loop: its extracted part and its set of tokens. */
  datatype Member = Member(className: string, parts: set<string>)

  function ToSet(xs: seq<string>): (r: set<string>)
    ensures forall x :: x in r <==> x in xs
  {
    set k | 0 <= k < |xs| :: xs[k]
  }

  /** The title-cased words of the shared name, which join every member's tokens. */
  function NameParts(name: string): set<string> {
    ToSet(TitleCaseAll(SplitWhitespace(name)))
  }

  /** What the first loop of `uniquifySameNamed` makes of one id. */
  function Collect(e: Extractor, id: string, nameParts: set<string>): Step<Member> {
    match Extract(e, id)
    case None => Declined
    case Some(g) =>
      match Tokenize(id)
      case None => Crashed
      case Some(ts) => Done(Member(g, ToSet(ts) + nameParts))
  }

  /** A member collected from an id holds a part whose tokenizing cannot throw. */
  lemma {:induction false} CollectedTokenizes(e: Extractor, id: string, nameParts: set<string>)
    requires Collect(e, id, nameParts).Done?
    ensures Tokenize(Collect(e, id, nameParts).value.className).Some?
  {
    ExtractedTokenizes(e, id);
  }

  /**
    Running the steps in order: the first one that does not complete
    decides the outcome, otherwise all the values are collected.
  */
  function Sequenced<T>(steps: seq<Step<T>>): Step<seq<T>> {
    if |steps| == 0 then Done([])
    else
      match Sequenced(steps[..|steps| - 1])
      case Done(vs) =>
        (match steps[|steps| - 1]
         case Done(v) => Done(vs + [v])
         case Declined => Declined
         case Crashed => Crashed)
      case Declined => Declined
      case Crashed => Crashed
  }

  /** The steps complete together exactly when each of them does, and then each value is kept in its place. */
  lemma {:induction false} SequencedDone<T>(steps: seq<Step<T>>)
    ensures Sequenced(steps).Done? <==> forall k :: 0 <= k < |steps| ==> steps[k].Done?
    ensures Sequenced(steps).Done? ==> (|Sequenced(steps).value| == |steps| &&
      forall k :: 0 <= k < |steps| ==> Sequenced(steps).value[k] == steps[k].value)
    ensures Sequenced(steps).Crashed? ==> exists k :: 0 <= k < |steps| && steps[k].Crashed?
    ensures Sequenced(steps).Declined? ==> exists k :: 0 <= k < |steps| && steps[k].Declined?
  {
    if |steps| > 0 {
      var init := steps[..|steps| - 1];
      SequencedDone(init);
      if forall k :: 0 <= k < |steps| ==> steps[k].Done? {
        assert forall k :: 0 <= k < |init| ==> init[k] == steps[k];
      }
      if !Sequenced(init).Done? {
        var k :| 0 <= k < |init| && !init[k].Done?;
        assert steps[k] == init[k];
      }
      if Sequenced(init).Crashed? {
        var k :| 0 <= k < |init| && init[k].Crashed?;
        assert steps[k] == init[k];
      }
      if Sequenced(init).Declined? {
        var k :| 0 <= k < |init| && init[k].Declined?;
        assert steps[k] == init[k];
      }
      if Sequenced(steps).Done? {
        var vs := Sequenced(init).value;
        forall k | 0 <= k < |steps|
          ensures Sequenced(steps).value[k] == steps[k].value
        {
          if k < |init| {
            assert steps[k] == init[k];
          }
        }
      }
    }
  }

  /** What the first loop of `uniquifySameNamed` makes of each id of the group. */
  function CollectAll(ids: seq<string>, e: Extractor, nameParts: set<string>): (r: seq<Step<Member>>)
    ensures |r| == |ids| && forall k :: 0 <= k < |ids| ==> r[k] == Collect(e, ids[k], nameParts)
  {
    seq(|ids|, k requires 0 <= k < |ids| => Collect(e, ids[k], nameParts))
  }

  /**
    The first loop of `uniquifySameNamed` over the ids: every id must match
    the extractor, or the method returns false, and must tokenize, or it
    throws; the first id to fail decides which.
  */
  function Collected(ids: seq<string>, e: Extractor, nameParts: set<string>): Step<seq<Member>> {
    Sequenced(CollectAll(ids, e, nameParts))
  }

  /** A completed first loop has one member per id, and tokenizing any member's part cannot throw. */
  lemma {:induction false} CollectedMembers(ids: seq<string>, e: Extractor, nameParts: set<string>)
    requires Collected(ids, e, nameParts).Done?
    ensures |Collected(ids, e, nameParts).value| == |ids|
    ensures forall k :: 0 <= k < |ids| ==> Collect(e, ids[k], nameParts) == Done(Collected(ids, e, nameParts).value[k])
    ensures forall k :: 0 <= k < |ids| ==> Tokenize(Collected(ids, e, nameParts).value[k].className).Some?
  {
    var steps := CollectAll(ids, e, nameParts);
    SequencedDone(steps);
    forall k | 0 <= k < |ids|
      ensures Tokenize(Collected(ids, e, nameParts).value[k].className).Some?
    {
      CollectedTokenizes(e, ids[k], nameParts);
    }
  }

  /**
    The first loop completes exactly when every id matches and tokenizes;
    it crashes only on an id that matches but does not tokenize, and it
    declines only on an id that does not match.
  */
  lemma {:induction false} CollectedFails(ids: seq<string>, e: Extractor, nameParts: set<string>)
    ensures Collected(ids, e, nameParts).Done? <==>
      forall k :: 0 <= k < |ids| ==> Extract(e, ids[k]).Some? && Tokenize(ids[k]).Some?
    ensures Collected(ids, e, nameParts).Crashed? ==>
      exists k :: 0 <= k < |ids| && Extract(e, ids[k]).Some? && Tokenize(ids[k]).None?
    ensures Collected(ids, e, nameParts).Declined? ==>
      exists k :: 0 <= k < |ids| && Extract(e, ids[k]).None?
  {
    var steps := CollectAll(ids, e, nameParts);
    SequencedDone(steps);
  }

  /** The token sets of the members. */
  function PartSets(ms: seq<Member>): (r: seq<set<string>>)
    ensures |r| == |ms| && forall k :: 0 <= k < |ms| ==> r[k] == ms[k].parts
  {
    seq(|ms|, k requires 0 <= k < |ms| => ms[k].parts)
  }

  /** What `uniquifyParts` leaves of the sets. */
  function Uniquified(sets: seq<set<string>>): (r: seq<set<string>>)
    ensures |r| == |sets| && forall k :: 0 <= k < |sets| ==> r[k] == sets[k] - SharedParts(sets)
  {
    seq(|sets|, k requires 0 <= k < |sets| => sets[k] - SharedParts(sets))
  }

  /** A name with its decorator: an empty decorator leaves the name as it is. */
  function Decorated(name: string, decorator: string): string {
    if decorator == "" then name else name + " (" + TitleCase(decorator) + ")"
  }

  /** A completed first loop has one member per id. */
  lemma {:induction false} CollectedLength(ids: seq<string>, e: Extractor, nameParts: set<string>)
    requires Collected(ids, e, nameParts).Done?
    ensures |Collected(ids, e, nameParts).value| == |ids|
  {
    CollectedMembers(ids, e, nameParts);
  }

  /** The members of a group whose first loop completed. */
  function GroupMembers(ids: seq<string>, name: string, e: Extractor): (r: seq<Member>)
    requires Collected(ids, e, NameParts(name)).Done?
    ensures |r| == |ids|
  {
    CollectedLength(ids, e, NameParts(name));
    Collected(ids, e, NameParts(name)).value
  }

  /** The tokens of a member's class name; tokenizing it cannot fail once the first loop completed. */
  function ClassTokens(className: string): seq<string> {
    match Tokenize(className)
    case Some(tokens) => tokens
    case None => []
  }

  /** Each member is what the first loop makes of its id. */
  lemma {:induction false} GroupMemberAt(ids: seq<string>, name: string, e: Extractor, k: nat)
    requires Collected(ids, e, NameParts(name)).Done? && k < |ids|
    ensures Collect(e, ids[k], NameParts(name)) == Done(GroupMembers(ids, name, e)[k])
    ensures Tokenize(GroupMembers(ids, name, e)[k].className).Some?
    ensures NameParts(name) <= GroupMembers(ids, name, e)[k].parts
  {
    CollectedMembers(ids, e, NameParts(name));
    CollectHasNameParts(e, ids[k], NameParts(name));
  }

  /** Every member's tokens include the words of the shared name. */
  lemma {:induction false} CollectHasNameParts(e: Extractor, id: string, nameParts: set<string>)
    requires Collect(e, id, nameParts).Done?
    ensures nameParts <= Collect(e, id, nameParts).value.parts
  {
  }

  /** The token sets of a group after `uniquifyParts`. */
  function GroupParts(ids: seq<string>, name: string, e: Extractor): (r: seq<set<string>>)
    requires Collected(ids, e, NameParts(name)).Done?
    ensures |r| == |ids|
  {
    Uniquified(PartSets(GroupMembers(ids, name, e)))
  }

  /** The decorators of a group: each member's extracted part, keeping only the tokens left in its set. */
  function GroupDecorators(ids: seq<string>, name: string, e: Extractor): (r: seq<string>)
    requires Collected(ids, e, NameParts(name)).Done?
    ensures |r| == |ids|
  {
    var ms := GroupMembers(ids, name, e);
    var parts := GroupParts(ids, name, e);
    seq(|ids|, k requires 0 <= k < |ids| => Kept(ClassTokens(ms[k].className), parts[k]))
  }

  /** The decorator of the member at `k`. */
  lemma {:induction false} GroupDecoratorAt(ids: seq<string>, name: string, e: Extractor, k: nat)
    requires Collected(ids, e, NameParts(name)).Done? && k < |ids|
    ensures var ms := GroupMembers(ids, name, e);
      Tokenize(ms[k].className).Some? &&
      GroupDecorators(ids, name, e)[k] == Kept(Tokenize(ms[k].className).value, GroupParts(ids, name, e)[k])
  {
    GroupMemberAt(ids, name, e, k);
  }

  /** The names of the members: the shared name with each decorator. */
  function Renamed(name: string, decorators: seq<string>): (r: seq<string>)
    ensures |r| == |decorators| && forall k :: 0 <= k < |r| ==> r[k] == Decorated(name, decorators[k])
  {
    seq(|decorators|, k requires 0 <= k < |decorators| => Decorated(name, decorators[k]))
  }

  /**
    `uniquifySameNamed` on the ids of a group sharing `name`: the new names,
    or `Declined` when a match fails or two decorators are equal, or
    `Crashed` when an id does not tokenize.
  */
  function Attempt(ids: seq<string>, name: string, e: Extractor): (r: Step<seq<string>>)
    ensures r.Done? ==> |r.value| == |ids|
  {
    match Collected(ids, e, NameParts(name))
    case Declined => Declined
    case Crashed => Crashed
    case Done(_) =>
      var ds := GroupDecorators(ids, name, e);
      if HasRepeats(ds) then Declined else Done(Renamed(name, ds))
  }

  /**
    A completed attempt renames every member to the shared name with its
    decorator, the decorators being pairwise different; an attempt is
    declined when some id does not match or two decorators are equal, and
    crashes only on an id that matches but does not tokenize.
  */
  lemma {:induction false} AttemptOutcome(ids: seq<string>, name: string, e: Extractor)
    ensures Attempt(ids, name, e).Done? ==>
      Collected(ids, e, NameParts(name)).Done? &&
      Attempt(ids, name, e).value == Renamed(name, GroupDecorators(ids, name, e)) &&
      forall i, j :: 0 <= i < j < |ids| ==> GroupDecorators(ids, name, e)[i] != GroupDecorators(ids, name, e)[j]
    ensures Attempt(ids, name, e).Declined? ==>
      (exists k :: 0 <= k < |ids| && Extract(e, ids[k]).None?) ||
      (Collected(ids, e, NameParts(name)).Done? && HasRepeats(GroupDecorators(ids, name, e)))
    ensures Attempt(ids, name, e).Crashed? ==>
      exists k :: 0 <= k < |ids| && Extract(e, ids[k]).Some? && Tokenize(ids[k]).None?
  {
    CollectedFails(ids, e, NameParts(name));
  }

  /** A member keeps exactly the tokens that no other member of the group has. */
  lemma {:induction false} GroupPartsAreOwn(ids: seq<string>, name: string, e: Extractor, k: nat, x: string)
    requires Collected(ids, e, NameParts(name)).Done? && k < |ids|
    ensures var ms := GroupMembers(ids, name, e);
      x in GroupParts(ids, name, e)[k] <==>
      x in ms[k].parts && forall j :: 0 <= j < |ids| && j != k ==> x !in ms[j].parts
  {
    UniquifiedOwnParts(PartSets(GroupMembers(ids, name, e)), k, x);
  }

  /**
    In a group of two or more, no word of the shared name survives into a
    decorator: every member's tokens include them.
  */
  lemma {:induction false} NameWordsNeverDecorate(ids: seq<string>, name: string, e: Extractor, k: nat)
    requires Collected(ids, e, NameParts(name)).Done? && 2 <= |ids| && k < |ids|
    ensures GroupParts(ids, name, e)[k] * NameParts(name) == {}
  {
    var other := if k == 0 then 1 else 0;
    GroupMemberAt(ids, name, e, k);
    GroupMemberAt(ids, name, e, other);
    forall x | x in NameParts(name)
      ensures x !in GroupParts(ids, name, e)[k]
    {
      GroupPartsAreOwn(ids, name, e, k, x);
    }
  }

  /** A group of one is never declined over its decorators, and its only decorator is its own. */
  lemma {:induction false} SingleMemberNeverRepeats(ds: seq<string>)
    requires |ds| <= 1
    ensures !HasRepeats(ds)
  {
  }

  /** Once a prefix of the steps stops, the whole run stops the same way. */
  lemma {:induction false} SequencedStops<T>(steps: seq<Step<T>>, i: nat)
    requires i <= |steps| && !Sequenced(steps[..i]).Done?
    ensures Sequenced(steps) == Sequenced(steps[..i])
    decreases |steps| - i
  {
    if i < |steps| {
      var init := steps[..|steps| - 1];
      assert init[..i] == steps[..i];
      SequencedStops(init, i);
    } else {
      assert steps[..i] == steps;
    }
  }

  /** Running one more step after a completed prefix. */
  lemma {:induction false} SequencedStep<T>(steps: seq<Step<T>>, i: nat)
    requires i < |steps|
    ensures Sequenced(steps[..i + 1]) == match Sequenced(steps[..i])
      case Done(vs) => (match steps[i] case Done(v) => Done(vs + [v]) case Declined => Declined case Crashed => Crashed)
      case Declined => Declined
      case Crashed => Crashed
  {
    assert steps[..i + 1][..i] == steps[..i];
  }

  /** The members made of the parallel lists of extracted parts and token sets. */
  function Zip(classNames: seq<string>, sets: seq<set<string>>): (r: seq<Member>)
    requires |classNames| == |sets|
    ensures |r| == |sets| && forall k :: 0 <= k < |r| ==> r[k] == Member(classNames[k], sets[k])
  {
    seq(|sets|, k requires 0 <= k < |sets| => Member(classNames[k], sets[k]))
  }

  /**
    The first loop of `uniquifySameNamed`: the extracted part and the token
    set of each id, in order, until an id does not match (`Declined`) or
    does not tokenize (`Crashed`).
  */
  method CollectGroup(ids: seq<string>, e: Extractor, nameParts: set<string>)
    returns (outcome: Step<()>, classNames: seq<string>, commonNameParts: array<set<string>>)
    ensures fresh(commonNameParts) && commonNameParts.Length == |ids|
    ensures Collected(ids, e, nameParts).Declined? <==> outcome == Declined
    ensures Collected(ids, e, nameParts).Crashed? <==> outcome == Crashed
    ensures outcome.Done? ==> |classNames| == |ids|
    ensures outcome.Done? ==> Collected(ids, e, nameParts) == Done(Zip(classNames, commonNameParts[..]))
  {
    ghost var steps := CollectAll(ids, e, nameParts);
    ghost var ms: seq<Member> := [];
    classNames := [];
    commonNameParts := new set<string>[|ids|];
    var i := 0;
    while i < |ids|
      invariant 0 <= i <= |ids|
      invariant Sequenced(steps[..i]) == Done(ms)
      invariant |ms| == i && |classNames| == i
      invariant forall k :: 0 <= k < i ==> ms[k] == Member(classNames[k], commonNameParts[k])
    {
      SequencedStep(steps, i);
      var className := Extract(e, ids[i]);
      if className.None? {
        SequencedStops(steps, i + 1);
        return Declined, classNames, commonNameParts;
      }
      var tokens := Tokenize(ids[i]);
      if tokens.None? {
        SequencedStops(steps, i + 1);
        return Crashed, classNames, commonNameParts;
      }
      classNames := classNames + [className.value];
      commonNameParts[i] := ToSet(tokens.value) + nameParts;
      ms := ms + [Member(className.value, ToSet(tokens.value) + nameParts)];
      i := i + 1;
    }
    assert steps[..i] == steps;
    assert ms == Zip(classNames, commonNameParts[..]);
    return Done(()), classNames, commonNameParts;
  }

  /** The decorator loop of `uniquifySameNamed`: `keepOnlyNamedParts` of each extracted part with its set. */
  method DecoratorsOf(classNames: seq<string>, commonNameParts: seq<set<string>>, ghost tokens: seq<seq<string>>)
    returns (decorators: seq<string>)
    requires |commonNameParts| == |classNames| == |tokens|
    requires forall k :: 0 <= k < |classNames| ==> Tokenize(classNames[k]) == Some(tokens[k])
    ensures |decorators| == |classNames|
    ensures forall k :: 0 <= k < |classNames| ==> decorators[k] == Kept(tokens[k], commonNameParts[k])
  {
    decorators := [];
    var k := 0;
    while k < |classNames|
      invariant 0 <= k <= |classNames|
      invariant |decorators| == k
      invariant forall t :: 0 <= t < k ==> decorators[t] == Kept(tokens[t], commonNameParts[t])
    {
      var decoration := KeepOnlyNamedParts(classNames[k], commonNameParts[k]);
      DecorationOfTokens(classNames[k], tokens[k], commonNameParts[k], decoration);
      DecoratorsSnoc(decorators, tokens, commonNameParts, decoration.value);
      decorators := decorators + [decoration.value];
      k := k + 1;
    }
  }

  lemma {:induction false} DecorationOfTokens(s: string, tokens: seq<string>, keep: set<string>, r: Option<string>)
    requires Tokenize(s) == Some(tokens)
    requires Tokenize(s).Some? ==> r == Some(Kept(Tokenize(s).value, keep))
    ensures r == Some(Kept(tokens, keep))
  {
  }

  lemma {:induction false} DecoratorsSnoc(decorators: seq<string>, tokens: seq<seq<string>>, sets: seq<set<string>>, d: string)
    requires |decorators| < |tokens| == |sets|
    requires forall t :: 0 <= t < |decorators| ==> decorators[t] == Kept(tokens[t], sets[t])
    requires d == Kept(tokens[|decorators|], sets[|decorators|])
    ensures forall t :: 0 <= t < |decorators| + 1 ==> (decorators + [d])[t] == Kept(tokens[t], sets[t])
  {
  }

  /** The renaming loop of `uniquifySameNamed`: a non-empty decorator goes after the name in parentheses, title-cased. */
  method Rename(group: seq<Launchable>, ghost name: string, decorators: seq<string>)
    requires |decorators| == |group| && Distinct(group)
    requires forall k :: 0 <= k < |group| ==> group[k].name == Some(name)
    modifies group`name
    ensures forall k :: 0 <= k < |group| ==> group[k].name == Some(Decorated(name, decorators[k]))
  {
    var j := 0;
    while j < |group|
      invariant 0 <= j <= |group|
      invariant forall t :: 0 <= t < j ==> group[t].name == Some(Decorated(name, decorators[t]))
      invariant forall t :: j <= t < |group| ==> group[t].name == Some(name)
    {
      var launchable := group[j];
      var decoration := decorators[j];
      if decoration != "" {
        var current := launchable.GetName();
        launchable.SetName(Some(current.value + " (" + TitleCase(decoration) + ")"));
      }
      j := j + 1;
    }
  }

  /**
    The part of `uniquifySameNamed` that works out the decorators of a
    group with ids `ids` sharing the name `name`: the class names and their
    name parts are collected, the parts reduced to each member's own and
    the decorators built; repeated decorators decline the attempt.
  */
  method DecorateGroup(ids: seq<string>, name: string, e: Extractor) returns (step: Step<seq<string>>)
    ensures step.Declined? <==> Attempt(ids, name, e).Declined?
    ensures step.Crashed? <==> Attempt(ids, name, e).Crashed?
    ensures step.Done? ==> |step.value| == |ids| && Attempt(ids, name, e) == Done(Renamed(name, step.value))
  {
    var nameParts := ToSet(TitleCaseAll(SplitWhitespace(name)));
    assert nameParts == NameParts(name);
    var outcome, classNames, commonNameParts := CollectGroup(ids, e, nameParts);
    if outcome == Declined {
      return Declined;
    } else if outcome == Crashed {
      return Crashed;
    }
    ghost var ms := GroupMembers(ids, name, e);
    assert commonNameParts[..] == PartSets(ms);
    UniquifyParts(commonNameParts);
    forall k | 0 <= k < |ids|
      ensures Tokenize(classNames[k]).Some? && commonNameParts[k] == GroupParts(ids, name, e)[k]
    {
      GroupMemberAt(ids, name, e, k);
    }
    ghost var tokens := seq(|ids|, k requires 0 <= k < |ids| => Tokenize(classNames[k]).value);
    var decorators := DecoratorsOf(classNames, commonNameParts[..], tokens);
    assert decorators == GroupDecorators(ids, name, e) by {
      forall k | 0 <= k < |ids|
        ensures decorators[k] == GroupDecorators(ids, name, e)[k]
      {
        GroupDecoratorAt(ids, name, e, k);
      }
    }
    var duplicates := HasDuplicates(decorators);
    if duplicates {
      return Declined;
    }
    return Done(decorators);
  }

  /**
    `uniquifySameNamed` on a group of launchables that all carry the same
    name: true and the group renamed when `Attempt` completes, false and
    nothing renamed when it is declined, the exception of `substring` and
    nothing renamed when it crashes.
  */
  method UniquifySameNamed(group: seq<Launchable>, e: Extractor) returns (r: Result<bool, Failure>)
    requires |group| >= 1 && Distinct(group)
    requires group[0].name.Some? && forall k :: 0 <= k < |group| ==> group[k].name == group[0].name
    modifies group`name
    ensures var a := Attempt(Ids(group), old(group[0].name.value), e);
      (a.Done? <==> r == Ok(true)) && (a.Declined? <==> r == Ok(false)) &&
      (a.Crashed? <==> r == Err(StringIndexOutOfBounds))
    ensures var a := Attempt(Ids(group), old(group[0].name.value), e);
      a.Done? ==> forall k :: 0 <= k < |group| ==> group[k].name == Some(a.value[k])
    ensures var a := Attempt(Ids(group), old(group[0].name.value), e);
      !a.Done? ==> forall k :: 0 <= k < |group| ==> group[k].name == old(group[k].name)
  {
    var n := group[0].GetName();
    var name := n.value;
    var step := DecorateGroup(Ids(group), name, e);
    match step {
      case Declined => return Ok(false);
      case Crashed => return Err(StringIndexOutOfBounds);
      case Done(decorators) =>
        Rename(group, name, decorators);
        return Ok(true);
    }
  }

  // ---------------------------------------------------------------------
  // uniquify: the whole list
  // ---------------------------------------------------------------------

  /** The positions, in list order, of the launchables named `n`. */
  function Positions(names: seq<string>, n: string): (r: seq<nat>)
    ensures forall j :: 0 <= j < |r| ==> r[j] < |names| && names[r[j]] == n
    ensures forall i, j :: 0 <= i < j < |r| ==> r[i] < r[j]
  {
    if |names| == 0 then []
    else Positions(names[..|names| - 1], n) + (if names[|names| - 1] == n then [|names| - 1] else [])
  }

  /** The place of the launchable at `k` in the list of launchables sharing its name. */
  function Rank(names: seq<string>, k: nat): nat
    requires k < |names|
  {
    |Positions(names[..k], names[k])|
  }

  /** Every launchable sits in its name's list of positions, at its rank. */
  lemma {:induction false} PositionOfRank(names: seq<string>, k: nat)
    requires k < |names|
    ensures Rank(names, k) < |Positions(names, names[k])|
    ensures Positions(names, names[k])[Rank(names, k)] == k
    decreases |names|
  {
    var init := names[..|names| - 1];
    if k == |names| - 1 {
      assert init == names[..k];
    } else {
      assert init[..k] == names[..k];
      PositionOfRank(init, k);
    }
  }

  /** A name carried by one launchable only has one position. */
  lemma {:induction false} UniquePosition(names: seq<string>, k: nat)
    requires k < |names| && forall j :: 0 <= j < |names| && j != k ==> names[j] != names[k]
    ensures Positions(names, names[k]) == [k] && Rank(names, k) == 0
  {
    PositionsOfUnique(names, k, |names|);
    assert names[..|names|] == names;
    PositionsOfUnique(names, k, k);
  }

  lemma {:induction false} PositionsOfUnique(names: seq<string>, k: nat, m: nat)
    requires k < |names| && m <= |names| && forall j :: 0 <= j < |names| && j != k ==> names[j] != names[k]
    ensures Positions(names[..m], names[k]) == if k < m then [k] else []
    decreases m
  {
    if m > 0 {
      assert names[..m][..m - 1] == names[..m - 1];
      PositionsOfUnique(names, k, m - 1);
    }
  }

  /** A name nobody carries has no positions. */
  lemma {:induction false} PositionsOfAbsent(names: seq<string>, x: string)
    requires forall k :: 0 <= k < |names| ==> names[k] != x
    ensures Positions(names, x) == []
  {
    if |names| > 0 {
      PositionsOfAbsent(names[..|names| - 1], x);
    }
  }

  /** Positions after one more launchable. */
  lemma {:induction false} PositionsAppend(names: seq<string>, x: string)
    ensures forall n :: Positions(names + [x], n) == Positions(names, n) + (if x == n then [|names|] else [])
  {
    assert (names + [x])[..|names|] == names;
  }

  /** The elements of `xs` at the positions `ps`. */
  function Pick<T>(xs: seq<T>, ps: seq<nat>): (r: seq<T>)
    requires forall j :: 0 <= j < |ps| ==> ps[j] < |xs|
    ensures |r| == |ps| && forall j :: 0 <= j < |r| ==> r[j] == xs[ps[j]]
  {
    seq(|ps|, j requires 0 <= j < |ps| => xs[ps[j]])
  }

  /** The ids of the launchables named `n`, in list order. */
  function GroupIds(ids: seq<string>, names: seq<string>, n: string): (r: seq<string>)
    requires |ids| == |names|
    ensures |r| == |Positions(names, n)|
  {
    Pick(ids, Positions(names, n))
  }

  /** The names of a group left as they are. */
  function Unchanged(gids: seq<string>, n: string): (r: seq<string>)
    ensures |r| == |gids| && forall j :: 0 <= j < |r| ==> r[j] == n
  {
    seq(|gids|, _ => n)
  }

  /** An attempt, or the fallback when the attempt is declined. */
  function OrElse(attempt: Step<seq<string>>, fallback: Step<seq<string>>): Step<seq<string>> {
    if attempt.Declined? then fallback else attempt
  }

  /**
    What `uniquify` does to the group of launchables named `n`, with ids
    `gids`: a group of one is left alone; a larger group is renamed by the
    first extractor (inner class, then class name, then the whole id) whose
    attempt completes, left alone when all three are declined, and the
    run crashes when an attempt crashes.
  */
  function GroupOutcome(gids: seq<string>, n: string): (r: Step<seq<string>>)
    ensures r.Done? ==> |r.value| == |gids|
  {
    if |gids| == 1 then Done(Unchanged(gids, n))
    else OrElse(Attempt(gids, n, InnerOnly),
         OrElse(Attempt(gids, n, ClassName),
         OrElse(Attempt(gids, n, All), Done(Unchanged(gids, n)))))
  }

  /**
    The extractors are tried in order and the first attempt that is not
    declined decides: a later extractor is only tried when every earlier one
    was declined, and a group every extractor declines keeps its name.
  */
  lemma {:induction false} ExtractorsInOrder(gids: seq<string>, n: string)
    requires |gids| > 1
    ensures !Attempt(gids, n, InnerOnly).Declined? ==> GroupOutcome(gids, n) == Attempt(gids, n, InnerOnly)
    ensures Attempt(gids, n, InnerOnly).Declined? && !Attempt(gids, n, ClassName).Declined? ==>
      GroupOutcome(gids, n) == Attempt(gids, n, ClassName)
    ensures Attempt(gids, n, InnerOnly).Declined? && Attempt(gids, n, ClassName).Declined? ==>
      GroupOutcome(gids, n) == OrElse(Attempt(gids, n, All), Done(Unchanged(gids, n)))
    ensures GroupOutcome(gids, n).Done? ==>
      GroupOutcome(gids, n).value == Unchanged(gids, n) ||
      exists e :: GroupOutcome(gids, n) == Attempt(gids, n, e)
  {
    if GroupOutcome(gids, n).Done? && GroupOutcome(gids, n).value != Unchanged(gids, n) {
      var e := if !Attempt(gids, n, InnerOnly).Declined? then InnerOnly
        else if !Attempt(gids, n, ClassName).Declined? then ClassName else All;
      assert GroupOutcome(gids, n) == Attempt(gids, n, e);
    }
  }

  /** The name `uniquify` gives the launchable at `k`, or None when its group crashes. */
  function NewName(ids: seq<string>, names: seq<string>, k: nat): Option<string>
    requires |ids| == |names| && k < |names|
  {
    PositionOfRank(names, k);
    match GroupOutcome(GroupIds(ids, names, names[k]), names[k])
    case Done(v) => Some(v[Rank(names, k)])
    case _ => None
  }

  /** A launchable whose name no other launchable carries keeps its name. */
  lemma {:induction false} UniqueNameKept(ids: seq<string>, names: seq<string>, k: nat)
    requires |ids| == |names| && k < |names|
    requires forall j :: 0 <= j < |names| && j != k ==> names[j] != names[k]
    ensures NewName(ids, names, k) == Some(names[k])
  {
    UniquePosition(names, k);
  }

  /** A new name always begins with the old one: a decorator is only ever appended. */
  lemma {:induction false} NewNameExtendsName(ids: seq<string>, names: seq<string>, k: nat)
    requires |ids| == |names| && k < |names| && NewName(ids, names, k).Some?
    ensures StartsWith(NewName(ids, names, k).value, names[k])
  {
    PositionOfRank(names, k);
    var n := names[k];
    var gids := GroupIds(ids, names, n);
    var rank := Rank(names, k);
    var es := [InnerOnly, ClassName, All];
    forall e | e in es && Attempt(gids, n, e).Done?
      ensures StartsWith(Attempt(gids, n, e).value[rank], n)
    {
      AttemptOutcome(gids, n, e);
      var d := GroupDecorators(gids, n, e)[rank];
      assert Decorated(n, d)[..|n|] == n;
    }
  }

  /**
    Launchables sharing a name share their fate: either all of them get a
    new name or, when their group crashes, none does.
  */
  lemma {:induction false} GroupSharesFate(ids: seq<string>, names: seq<string>, i: nat, j: nat)
    requires |ids| == |names| && i < |names| && j < |names| && names[i] == names[j]
    ensures NewName(ids, names, i).Some? <==> NewName(ids, names, j).Some?
    ensures NewName(ids, names, i).None? <==> GroupOutcome(GroupIds(ids, names, names[i]), names[i]).Crashed?
  {
  }

  /** The names `uniquify` gives the launchables, in order. */
  function NewNames(ids: seq<string>, names: seq<string>): (r: seq<Option<string>>)
    requires |ids| == |names|
    ensures |r| == |names|
  {
    seq(|names|, k requires 0 <= k < |names| => NewName(ids, names, k))
  }

  /**
    The new names of the launchables named `n` are the names `outcome`
    gives them, by rank; none when the outcome is not a renaming.
  */
  predicate GroupFate(names: seq<string>, newNames: seq<Option<string>>, n: string, outcome: Step<seq<string>>)
    requires |names| == |newNames|
    requires outcome.Done? ==> |outcome.value| == |Positions(names, n)|
  {
    forall k :: 0 <= k < |names| && names[k] == n ==>
      Rank(names, k) < |Positions(names, n)| &&
      newNames[k] == (if outcome.Done? then Some(outcome.value[Rank(names, k)]) else None)
  }

  /** The new names of a group are what its outcome says. */
  lemma {:induction false} NewNamesOfGroup(ids: seq<string>, names: seq<string>, n: string)
    requires |ids| == |names|
    ensures GroupFate(names, NewNames(ids, names), n, GroupOutcome(GroupIds(ids, names, n), n))
  {
    forall k | 0 <= k < |names| && names[k] == n
      ensures Rank(names, k) < |Positions(names, n)|
    {
      PositionOfRank(names, k);
    }
  }

  /**
    The launchables of the groups in `done` hold their new names; all the
    others still hold their old ones.
  */
  predicate RenamedGroups(names: seq<string>, newNames: seq<Option<string>>, current: seq<Option<string>>, done: set<string>)
    requires |names| == |newNames| == |current|
  {
    forall k :: 0 <= k < |names| ==>
      (names[k] in done ==> newNames[k].Some? && current[k] == newNames[k]) &&
      (names[k] !in done ==> current[k] == Some(names[k]))
  }

  /**
    The map from names to launchables that the first loop of `uniquify`
    builds, once it has seen the names `names` of the first launchables of
    `ls`: every name seen is a key, and lists the launchables carrying it,
    in order.
  */
  predicate Grouped(m: map<string, seq<Launchable>>, ls: seq<Launchable>, names: seq<string>) {
    |names| <= |ls| &&
    (forall k :: 0 <= k < |names| ==> names[k] in m) &&
    forall n :: n in m ==> |Positions(names, n)| > 0 && m[n] == Pick(ls, Positions(names, n))
  }

  /** Picking one more position adds its element at the end. */
  lemma {:induction false} PickSnoc<T>(xs: seq<T>, ps: seq<nat>, p: nat)
    requires (forall j :: 0 <= j < |ps| ==> ps[j] < |xs|) && p < |xs|
    ensures Pick(xs, ps + [p]) == Pick(xs, ps) + [xs[p]]
  {
    var grown := ps + [p];
    assert forall j :: 0 <= j < |grown| ==> grown[j] < |xs|;
    var l := Pick(xs, grown);
    var r := Pick(xs, ps) + [xs[p]];
    assert |l| == |r|;
    forall j | 0 <= j < |l|
      ensures l[j] == r[j]
    {
      if j < |ps| {
        assert grown[j] == ps[j];
      }
    }
  }

  /** One key of the map after the loop adds the launchable at `|names|` under `x`. */
  lemma {:induction false} RegroupedKey(m: map<string, seq<Launchable>>, ls: seq<Launchable>, names: seq<string>, x: string, n: string)
    requires Grouped(m, ls, names) && |names| < |ls| && (n in m || n == x)
    ensures |Positions(names + [x], n)| > 0
    ensures (if n == x then (if x in m then m[x] else []) + [ls[|names|]] else m[n]) == Pick(ls, Positions(names + [x], n))
  {
    PositionsAppend(names, x);
    var before := Positions(names, n);
    assert Positions(names + [x], n) == before + (if x == n then [|names|] else []);
    if n == x {
      if x !in m {
        forall k | 0 <= k < |names|
          ensures names[k] != x
        {
        }
        PositionsOfAbsent(names, x);
        assert Pick(ls, before) == [];
      }
      PickSnoc(ls, before, |names|);
    }
  }

  /** The map after the loop adds one more launchable to the list of its name. */
  lemma {:induction false} Regrouped(m: map<string, seq<Launchable>>, ls: seq<Launchable>, names: seq<string>, x: string)
    requires Grouped(m, ls, names) && |names| < |ls|
    ensures Grouped(m[x := (if x in m then m[x] else []) + [ls[|names|]]], ls, names + [x])
  {
    var grown := names + [x];
    var m' := m[x := (if x in m then m[x] else []) + [ls[|names|]]];
    forall n | n in m'
      ensures |Positions(grown, n)| > 0 && m'[n] == Pick(ls, Positions(grown, n))
    {
      RegroupedKey(m, ls, names, x, n);
    }
    forall k | 0 <= k < |grown|
      ensures grown[k] in m'
    {
      if k < |names| {
        assert grown[k] == names[k];
      }
    }
  }

  /** The map the first loop of `uniquify` has built once it has seen the names `names`. */
  function NameMap(ls: seq<Launchable>, names: seq<string>): map<string, seq<Launchable>>
    requires |names| <= |ls|
  {
    if |names| == 0 then map[]
    else
      var m := NameMap(ls, names[..|names| - 1]);
      var x := names[|names| - 1];
      m[x := (if x in m then m[x] else []) + [ls[|names| - 1]]]
  }

  /** That map lists, under every name seen, the launchables carrying it, in order. */
  lemma {:induction false} NameMapGrouped(ls: seq<Launchable>, names: seq<string>)
    requires |names| <= |ls|
    ensures Grouped(NameMap(ls, names), ls, names)
  {
    if |names| > 0 {
      var init := names[..|names| - 1];
      NameMapGrouped(ls, init);
      Regrouped(NameMap(ls, init), ls, init, names[|names| - 1]);
      assert init + [names[|names| - 1]] == names;
    }
  }

  /**
    The first loop of `uniquify`: every launchable's name is looked up
    (which stores it) and the launchables are listed by name, in order. A
    launchable without a name stops the loop with the exception of
    `toString` on null.
  */
  method GroupByName(launchables: seq<Launchable>) returns (named: bool, nameToLaunchables: map<string, seq<Launchable>>)
    requires Distinct(launchables)
    modifies launchables`name
    ensures forall k :: 0 <= k < |launchables| ==> launchables[k].ResolvedName() == old(launchables[k].ResolvedName())
    ensures named <==> AllNamed(old(ResolvedNames(launchables)))
    ensures named ==> forall k :: 0 <= k < |launchables| ==> launchables[k].name == old(launchables[k].ResolvedName())
    ensures named ==> Grouped(nameToLaunchables, launchables, Values(old(ResolvedNames(launchables))))
  {
    nameToLaunchables := map[];
    ghost var before := ResolvedNames(launchables);
    ghost var names: seq<string> := [];
    var i := 0;
    while i < |launchables|
      invariant 0 <= i <= |launchables| && |names| == i
      invariant forall k :: i <= k < |launchables| ==> launchables[k].name == old(launchables[k].name)
      invariant forall k :: 0 <= k < i ==> before[k] == Some(names[k]) && launchables[k].name == Some(names[k])
      invariant nameToLaunchables == NameMap(launchables, names)
    {
      var launchable := launchables[i];
      var name := launchable.GetName();
      if name.None? {
        assert before[i] == None;
        forall k | 0 <= k < |launchables|
          ensures launchables[k].ResolvedName() == before[k]
        {
          if k != i {
            assert launchables[k] != launchable;
          }
        }
        return false, nameToLaunchables;
      }
      var list := if name.value in nameToLaunchables then nameToLaunchables[name.value] else [];
      nameToLaunchables := nameToLaunchables[name.value := list + [launchable]];
      ghost var grown := names + [name.value];
      assert grown[..i] == names;
      forall k | 0 <= k < |launchables|
        ensures k < i + 1 ==> before[k] == Some(grown[k]) && launchables[k].name == Some(grown[k])
        ensures k > i ==> launchables[k].name == old(launchables[k].name)
      {
        if k != i {
          assert launchables[k] != launchable;
        }
        if k < i {
          assert grown[k] == names[k];
        }
      }
      names := grown;
      i := i + 1;
    }
    assert Values(before) == names;
    NameMapGrouped(launchables, names);
    named := true;
  }

  /**
    The second loop's work on the group of launchables sharing the name
    `n`: a group of one is skipped; for a larger one the three extractors
    are tried in turn until one completes; a crash is the exception of
    `substring`.
  */
  method UniquifyGroup(group: seq<Launchable>, ghost n: string) returns (r: Outcome<Failure>)
    requires |group| >= 1 && Distinct(group)
    requires forall k :: 0 <= k < |group| ==> group[k].name == Some(n)
    modifies group`name
    ensures var o := GroupOutcome(Ids(group), n);
      (r == Pass <==> o.Done?) && (r.Fail? ==> r == Fail(StringIndexOutOfBounds))
    ensures var o := GroupOutcome(Ids(group), n);
      o.Done? ==> forall k :: 0 <= k < |group| ==> group[k].name == Some(o.value[k])
    ensures var o := GroupOutcome(Ids(group), n);
      !o.Done? ==> forall k :: 0 <= k < |group| ==> group[k].name == Some(n)
  {
    if |group| == 1 {
      assert Unchanged(Ids(group), n) == [n];
      return Pass;
    }
    var tried := UniquifySameNamed(group, InnerOnly);
    if tried == Ok(false) {
      tried := UniquifySameNamed(group, ClassName);
      if tried == Ok(false) {
        tried := UniquifySameNamed(group, All);
      }
    }
    if tried.Err? {
      return Fail(StringIndexOutOfBounds);
    }
    return Pass;
  }

  /**
    `uniquify`: launchables that share a name are renamed group by group,
    each group as `GroupOutcome` says. The groups are visited in an order
    left open here (the order of a hash map's values). A launchable without
    a name stops the run before anything is renamed; a crashing group stops
    it with the groups visited so far renamed and the others untouched.
  */
  method Uniquify(launchables: seq<Launchable>) returns (r: Outcome<Failure>)
    requires Distinct(launchables)
    modifies launchables`name
    ensures r == Fail(NullPointer) <==> !AllNamed(old(ResolvedNames(launchables)))
    ensures r == Fail(NullPointer) ==> ResolvedNames(launchables) == old(ResolvedNames(launchables))
    ensures AllNamed(old(ResolvedNames(launchables))) ==>
      var names := Values(old(ResolvedNames(launchables)));
      (r == Pass <==> AllNamed(NewNames(Ids(launchables), names))) &&
      (r == Pass || r == Fail(StringIndexOutOfBounds)) &&
      exists done: set<string> :: RenamedGroups(names, NewNames(Ids(launchables), names), CurrentNames(launchables), done)
    ensures r == Pass ==>
      CurrentNames(launchables) == NewNames(Ids(launchables), Values(old(ResolvedNames(launchables))))
  {
    var named, nameToLaunchables := GroupByName(launchables);
    if !named {
      return Fail(NullPointer);
    }
    ghost var names := Values(old(ResolvedNames(launchables)));
    r := RenameGroups(launchables, nameToLaunchables, names);
  }

  /**
    The second loop of `uniquify`: the groups of the name map are renamed
    one by one, in an order left open here, until one crashes.
  */
  method RenameGroups(launchables: seq<Launchable>, nameToLaunchables: map<string, seq<Launchable>>, ghost names: seq<string>)
    returns (r: Outcome<Failure>)
    requires Distinct(launchables) && |names| == |launchables|
    requires Grouped(nameToLaunchables, launchables, names)
    requires forall k :: 0 <= k < |launchables| ==> launchables[k].name == Some(names[k])
    modifies launchables`name
    ensures r == Pass || r == Fail(StringIndexOutOfBounds)
    ensures r == Pass <==> AllNamed(NewNames(Ids(launchables), names))
    ensures exists done: set<string> :: RenamedGroups(names, NewNames(Ids(launchables), names), CurrentNames(launchables), done)
    ensures r == Pass ==> CurrentNames(launchables) == NewNames(Ids(launchables), names)
  {
    ghost var ids := Ids(launchables);
    ghost var newNames := NewNames(ids, names);
    ghost var done: set<string> := {};
    var keys := nameToLaunchables.Keys;
    while keys != {}
      invariant keys <= nameToLaunchables.Keys && keys !! done
      invariant forall k :: 0 <= k < |names| ==> names[k] in keys || names[k] in done
      invariant RenamedGroups(names, newNames, CurrentNames(launchables), done)
      decreases keys
    {
      var n :| n in keys;
      var group := nameToLaunchables[n];
      NewNamesOfGroup(ids, names, n);
      r := RenameGroup(launchables, group, names, n, done, newNames);
      if r.Fail? {
        return r;
      }
      keys := keys - {n};
      done := done + {n};
    }
    assert CurrentNames(launchables) == newNames;
    r := Pass;
  }

  /** One round of the second loop of `uniquify`, on the group named `n`. */
  method RenameGroup(launchables: seq<Launchable>, group: seq<Launchable>, ghost names: seq<string>, ghost n: string,
                     ghost done: set<string>, ghost newNames: seq<Option<string>>) returns (r: Outcome<Failure>)
    requires Distinct(launchables) && |names| == |launchables| == |newNames| && n !in done
    requires |Positions(names, n)| > 0 && group == Pick(launchables, Positions(names, n))
    requires GroupFate(names, newNames, n, GroupOutcome(GroupIds(Ids(launchables), names, n), n))
    requires RenamedGroups(names, newNames, CurrentNames(launchables), done)
    modifies launchables`name
    ensures r == Pass || r == Fail(StringIndexOutOfBounds)
    ensures r == Pass ==> RenamedGroups(names, newNames, CurrentNames(launchables), done + {n})
    ensures r.Fail? ==> RenamedGroups(names, newNames, CurrentNames(launchables), done)
    ensures r.Fail? ==> exists k :: 0 <= k < |names| && newNames[k].None?
  {
    ghost var ps := Positions(names, n);
    ghost var before := CurrentNames(launchables);
    GroupOfName(launchables, names, n);
    assert forall j :: 0 <= j < |group| ==> group[j].name == Some(n) by {
      forall j | 0 <= j < |group|
        ensures group[j].name == Some(n)
      {
        assert before[ps[j]] == Some(n);
      }
    }
    ghost var outcome := GroupOutcome(Ids(group), n);
    assert Ids(group) == GroupIds(Ids(launchables), names, n);
    r := UniquifyGroup(group, n);
    ghost var after := CurrentNames(launchables);
    forall k | 0 <= k < |names| && names[k] != n
      ensures after[k] == before[k]
    {
      assert launchables[k] !in group;
    }
    forall k | 0 <= k < |names| && names[k] == n
      ensures after[k] == group[Rank(names, k)].name
    {
      assert group[Rank(names, k)] == launchables[k];
    }
    RenamedAfter(names, newNames, before, after, done, n, outcome, r == Pass);
  }

  /**
    The state after one round of the second loop: a group whose outcome
    renames it joins the renamed groups; otherwise nothing changed and one
    of the launchables has no new name.
  */
  lemma {:induction false} RenamedAfter(names: seq<string>, newNames: seq<Option<string>>, before: seq<Option<string>>, after: seq<Option<string>>,
                     done: set<string>, n: string, outcome: Step<seq<string>>, renamed: bool)
    requires |names| == |newNames| == |before| == |after| && n !in done && |Positions(names, n)| > 0
    requires outcome.Done? ==> |outcome.value| == |Positions(names, n)|
    requires GroupFate(names, newNames, n, outcome) && RenamedGroups(names, newNames, before, done)
    requires renamed <==> outcome.Done?
    requires forall k :: 0 <= k < |names| && names[k] != n ==> after[k] == before[k]
    requires outcome.Done? ==> forall k :: 0 <= k < |names| && names[k] == n ==> after[k] == Some(outcome.value[Rank(names, k)])
    requires !outcome.Done? ==> forall k :: 0 <= k < |names| && names[k] == n ==> after[k] == Some(n)
    ensures renamed ==> RenamedGroups(names, newNames, after, done + {n})
    ensures !renamed ==> RenamedGroups(names, newNames, after, done)
    ensures !renamed ==> exists k :: 0 <= k < |names| && newNames[k].None?
  {
    var first := Positions(names, n)[0];
    assert names[first] == n;
  }

  /** The launchables named `n`, picked in order, are distinct and each sits at its rank. */
  lemma {:induction false} GroupOfName(ls: seq<Launchable>, names: seq<string>, n: string)
    requires Distinct(ls) && |names| == |ls|
    ensures var group := Pick(ls, Positions(names, n));
      Distinct(group) &&
      (forall k :: 0 <= k < |names| && names[k] != n ==> ls[k] !in group) &&
      (forall k :: 0 <= k < |names| && names[k] == n ==> Rank(names, k) < |group| && group[Rank(names, k)] == ls[k])
  {
    var ps := Positions(names, n);
    var group := Pick(ls, ps);
    forall k | 0 <= k < |names| && names[k] == n
      ensures Rank(names, k) < |group| && group[Rank(names, k)] == ls[k]
    {
      PositionOfRank(names, k);
    }
    forall k | 0 <= k < |names| && names[k] != n
      ensures ls[k] !in group
    {
      forall j | 0 <= j < |group|
        ensures group[j] != ls[k]
      {
        assert ps[j] != k;
      }
    }
    forall i, j | 0 <= i < j < |group|
      ensures group[i] != group[j]
    {
      assert ps[i] < ps[j];
    }
  }

  // ---------------------------------------------------------------------
  // Decorators that differ only in case
  // ---------------------------------------------------------------------

  /**
    `hasDuplicates` compares the decorators before `titleCase` is applied
    to them, so two decorators that differ only in case pass the check and
    still give the same new name.
  */
  lemma {:induction false} DecoratedCollision()
    ensures "ABC" != "Abc" && !HasRepeats(["ABC", "Abc"])
    ensures Decorated("X", "ABC") == Decorated("X", "Abc") == "X (Abc)"
  {
    assert "ABC"[1] != "Abc"[1];
    TitleCaseWord("ABC");
    TitleCaseWord("Abc");
    assert Lower("BC") == "bc";
    assert Lower("bc") == "bc";
  }

  lemma {:induction false} CollisionCamelParts()
    ensures SplitInCamelParts("Q") == ["Q"]
    ensures SplitInCamelParts("ABC") == ["ABC"]
    ensures SplitInCamelParts("Abc") == ["Abc"]
  {
    Acronym("Q");
    Acronym("ABC");
    CapitalisedWord("Abc");
  }

  /** An inner class of an unqualified class, each one camel-case part, gives those two tokens. */
  lemma {:induction false} InnerPairTokens(cls: string, inner: string)
    requires '.' !in cls && '$' !in cls && '.' !in inner
    requires SplitInCamelParts(cls) == [cls] && SplitInCamelParts(inner) == [inner]
    ensures Tokenize(cls + "$" + inner) == Some([cls, inner])
  {
    TokenizeInner(cls, inner);
    assert [cls] + [inner] == [cls, inner];
  }

  lemma {:induction false} CollisionTokensUpper()
    ensures Tokenize("Q$ABC") == Some(["Q", "ABC"])
  {
    assert "Q" + "$" + "ABC" == "Q$ABC";
    CollisionCamelParts();
    InnerPairTokens("Q", "ABC");
  }

  lemma {:induction false} CollisionTokensMixed()
    ensures Tokenize("Q$Abc") == Some(["Q", "Abc"])
  {
    assert "Q" + "$" + "Abc" == "Q$Abc";
    CollisionCamelParts();
    InnerPairTokens("Q", "Abc");
  }

  lemma {:induction false} CollisionPartTokens()
    ensures Tokenize("ABC") == Some(["ABC"]) && Tokenize("Abc") == Some(["Abc"])
  {
    CollisionCamelParts();
    TokenizePlainName("ABC");
    TokenizePlainName("Abc");
  }

  lemma {:induction false} CollisionExtracts()
    ensures Extract(InnerOnly, "Q$ABC") == Some("ABC") && Extract(InnerOnly, "Q$Abc") == Some("Abc")
  {
    LastIndexOfAt("Q$ABC", '$', 1);
    LastIndexOfAt("Q$Abc", '$', 1);
  }

  lemma {:induction false} CollisionNameParts()
    ensures NameParts("X") == {"X"}
  {
    var rest := RunPieces("X"[1..]);
    assert "X"[1..] == "" && rest == [""];
    assert !IsWhitespace("X"[0]);
    assert ["X"[0]] + rest[0] == "X" && rest[1..] == [];
    assert RunPieces("X") == ["X"];
    assert SplitWhitespace("X") == ["X"];
    TitleCaseWord("X");
    assert "X"[1..] == "" && Lower("") == "";
    assert TitleCase("X") == "X";
    assert TitleCaseAll(["X"]) == ["X"];
    assert forall x :: x in ToSet(["X"]) <==> x == "X";
  }

  lemma {:induction false} CollisionMembers()
    ensures Collected(["Q$ABC", "Q$Abc"], InnerOnly, {"X"})
      == Done([Member("ABC", {"Q", "ABC", "X"}), Member("Abc", {"Q", "Abc", "X"})])
  {
    CollisionCollectUpper();
    CollisionCollectMixed();
    CollectedPair("Q$ABC", "Q$Abc", InnerOnly, {"X"}, Member("ABC", {"Q", "ABC", "X"}), Member("Abc", {"Q", "Abc", "X"}));
  }

  /** An id whose inner class `g` follows an outer class `q` is collected with the tokens `q`, `g` and the name's word `x`. */
  lemma {:induction false} CollectInner(id: string, q: string, g: string, x: string)
    requires Extract(InnerOnly, id) == Some(g) && Tokenize(id) == Some([q, g])
    ensures Collect(InnerOnly, id, {x}) == Done(Member(g, {q, g, x}))
  {
    ToSetPair(q, g);
    assert {q, g} + {x} == {q, g, x};
  }

  lemma {:induction false} CollisionCollectUpper()
    ensures Collect(InnerOnly, "Q$ABC", {"X"}) == Done(Member("ABC", {"Q", "ABC", "X"}))
  {
    CollisionExtracts();
    CollisionTokensUpper();
    CollectInner("Q$ABC", "Q", "ABC", "X");
  }

  lemma {:induction false} CollisionCollectMixed()
    ensures Collect(InnerOnly, "Q$Abc", {"X"}) == Done(Member("Abc", {"Q", "Abc", "X"}))
  {
    CollisionExtracts();
    CollisionTokensMixed();
    CollectInner("Q$Abc", "Q", "Abc", "X");
  }

  lemma {:induction false} ToSetPair(a: string, b: string)
    ensures ToSet([a, b]) == {a, b}
  {
    assert forall x :: x in [a, b] <==> x == a || x == b;
  }

  lemma {:induction false} CollectedPair(a: string, b: string, e: Extractor, nameParts: set<string>, ma: Member, mb: Member)
    requires Collect(e, a, nameParts) == Done(ma) && Collect(e, b, nameParts) == Done(mb)
    ensures Collected([a, b], e, nameParts) == Done([ma, mb])
  {
    TwoOf(CollectAll([a, b], e, nameParts), Done(ma), Done(mb));
    SequencedPair(ma, mb);
  }

  lemma {:induction false} SequencedPair<T>(x: T, y: T)
    ensures Sequenced([Done(x), Done(y)]) == Done([x, y])
  {
    var steps := [Done(x), Done(y)];
    assert steps[..1] == [Done(x)] && steps[..1][..0] == [];
    assert Sequenced(steps[..1]) == Done([] + [x]);
    assert [] + [x] == [x] && [x] + [y] == [x, y];
  }

  lemma {:induction false} CollisionUniquified()
    ensures Uniquified([{"Q", "ABC", "X"}, {"Q", "Abc", "X"}]) == [{"ABC"}, {"Abc"}]
  {
    assert "ABC"[1] != "Abc"[1];
    assert |"Q"| == |"X"| == 1 && "Q"[0] != "X"[0];
    OwnPartsOfPair("Q", "X", "ABC", "Abc");
  }

  /** Two sets sharing two strings and each holding one more: each keeps its own. */
  lemma {:induction false} OwnPartsOfPair(p: string, q: string, a: string, b: string)
    requires a != b && a != p && a != q && b != p && b != q
    ensures Uniquified([{p, a, q}, {p, b, q}]) == [{a}, {b}]
  {
    var sets := [{p, a, q}, {p, b, q}];
    forall x
      ensures x in Uniquified(sets)[0] <==> x == a
      ensures x in Uniquified(sets)[1] <==> x == b
    {
      UniquifiedOwnParts(sets, 0, x);
      UniquifiedOwnParts(sets, 1, x);
    }
    assert Uniquified(sets)[0] == {a} && Uniquified(sets)[1] == {b};
  }

  /**
    Two launchables named "X" with the inner classes `ABC` and `Abc` get
    the different decorators ABC and Abc, so the attempt completes, and
    both are renamed "X (Abc)".
  */
  lemma {:induction false} AttemptCollision()
    ensures Attempt(["Q$ABC", "Q$Abc"], "X", InnerOnly) == Done(["X (Abc)", "X (Abc)"])
  {
    CollisionNameParts();
    CollisionMembers();
    CollisionUniquified();
    CollisionPartTokens();
    DecoratedCollision();
    KeptSingle("ABC");
    KeptSingle("Abc");
    AttemptPair("Q$ABC", "Q$Abc", "X", InnerOnly, Member("ABC", {"Q", "ABC", "X"}), Member("Abc", {"Q", "Abc", "X"}),
      {"ABC"}, {"Abc"}, ["ABC"], ["Abc"]);
  }

  lemma {:induction false} KeptSingle(w: string)
    ensures Kept([w], {w}) == w
  {
    assert [w][..0] == [];
  }

  /** An attempt on two ids, from its members, their remaining sets and the tokens of their parts. */
  lemma {:induction false} AttemptPair(a: string, b: string, name: string, e: Extractor, ma: Member, mb: Member,
                    pa: set<string>, pb: set<string>, ta: seq<string>, tb: seq<string>)
    requires Collected([a, b], e, NameParts(name)) == Done([ma, mb])
    requires Uniquified([ma.parts, mb.parts]) == [pa, pb]
    requires Tokenize(ma.className) == Some(ta) && Tokenize(mb.className) == Some(tb)
    requires Kept(ta, pa) != Kept(tb, pb)
    ensures Attempt([a, b], name, e) == Done([Decorated(name, Kept(ta, pa)), Decorated(name, Kept(tb, pb))])
  {
    PairParts(a, b, name, e, ma, mb);
    PairDecorators(a, b, name, e, ma, mb, ta, tb);
    var ds := [Kept(ta, pa), Kept(tb, pb)];
    PairWithoutRepeats(ds);
    AttemptDone([a, b], name, e, ds);
    TwoOf(Renamed(name, ds), Decorated(name, ds[0]), Decorated(name, ds[1]));
  }

  lemma {:induction false} PairWithoutRepeats(ds: seq<string>)
    requires |ds| == 2 && ds[0] != ds[1]
    ensures !HasRepeats(ds)
  {
  }

  /** An attempt whose group is collected and whose decorators are pairwise different renames the group. */
  lemma {:induction false} AttemptDone(ids: seq<string>, name: string, e: Extractor, ds: seq<string>)
    requires Collected(ids, e, NameParts(name)).Done?
    requires GroupDecorators(ids, name, e) == ds && !HasRepeats(ds)
    ensures Attempt(ids, name, e) == Done(Renamed(name, ds))
  {
  }

  lemma {:induction false} PairParts(a: string, b: string, name: string, e: Extractor, ma: Member, mb: Member)
    requires Collected([a, b], e, NameParts(name)) == Done([ma, mb])
    ensures GroupParts([a, b], name, e) == Uniquified([ma.parts, mb.parts])
  {
    assert GroupMembers([a, b], name, e) == [ma, mb];
    assert PartSets([ma, mb]) == [ma.parts, mb.parts];
  }

  lemma {:induction false} PairDecorators(a: string, b: string, name: string, e: Extractor, ma: Member, mb: Member, ta: seq<string>, tb: seq<string>)
    requires Collected([a, b], e, NameParts(name)) == Done([ma, mb])
    requires Tokenize(ma.className) == Some(ta) && Tokenize(mb.className) == Some(tb)
    ensures var parts := GroupParts([a, b], name, e);
      GroupDecorators([a, b], name, e) == [Kept(ta, parts[0]), Kept(tb, parts[1])]
  {
    PairMembers(a, b, name, e, ma, mb);
    PairDecorator(a, b, name, e, 0, ma);
    PairDecorator(a, b, name, e, 1, mb);
    var parts := GroupParts([a, b], name, e);
    TwoOf(GroupDecorators([a, b], name, e), Kept(ta, parts[0]), Kept(tb, parts[1]));
  }

  lemma {:induction false} PairMembers(a: string, b: string, name: string, e: Extractor, ma: Member, mb: Member)
    requires Collected([a, b], e, NameParts(name)) == Done([ma, mb])
    ensures GroupMembers([a, b], name, e)[0] == ma && GroupMembers([a, b], name, e)[1] == mb
  {
  }

  /** A sequence of two elements is the display of them. */
  lemma {:induction false} TwoOf<T>(s: seq<T>, x: T, y: T)
    requires |s| == 2 && s[0] == x && s[1] == y
    ensures s == [x, y]
  {
  }

  lemma {:induction false} PairDecorator(a: string, b: string, name: string, e: Extractor, k: nat, m: Member)
    requires Collected([a, b], e, NameParts(name)).Done? && k < 2
    requires GroupMembers([a, b], name, e)[k] == m
    ensures Tokenize(m.className).Some?
    ensures GroupDecorators([a, b], name, e)[k] == Kept(Tokenize(m.className).value, GroupParts([a, b], name, e)[k])
  {
    GroupDecoratorAt([a, b], name, e, k);
  }

  /**
    Two decorators give the same name exactly when they are equal once
    title-cased.
  */
  lemma {:induction false} DecoratedSame(name: string, d1: string, d2: string)
    ensures Decorated(name, d1) == Decorated(name, d2) <==> TitleCase(d1) == TitleCase(d2)
  {
    var n1 := Decorated(name, d1);
    var n2 := Decorated(name, d2);
    if d1 != "" && d2 != "" && n1 == n2 {
      assert TitleCase(d1) == n1[|name| + 2..|n1| - 1];
      assert TitleCase(d2) == n2[|name| + 2..|n2| - 1];
    }
    if (d1 == "") != (d2 == "") {
      assert |n1| != |n2|;
    }
  }

  /**
    The evidently intended `uniquifySameNamed`: like `Attempt`, but the
    duplicate check looks at the decorators as they will appear, title-cased.
  */
  function AttemptFixed(ids: seq<string>, name: string, e: Extractor): Step<seq<string>> {
    match Collected(ids, e, NameParts(name))
    case Declined => Declined
    case Crashed => Crashed
    case Done(_) =>
      var ds := GroupDecorators(ids, name, e);
      if HasRepeats(TitleCaseAll(ds)) then Declined else Done(Renamed(name, ds))
  }

  /** A completed corrected attempt gives every member of the group a different name. */
  lemma {:induction false} AttemptFixedNamesDistinct(ids: seq<string>, name: string, e: Extractor)
    requires AttemptFixed(ids, name, e).Done?
    ensures var names := AttemptFixed(ids, name, e).value;
      |names| == |ids| && forall i, j :: 0 <= i < j < |names| ==> names[i] != names[j]
  {
    var ds := GroupDecorators(ids, name, e);
    var names := Renamed(name, ds);
    forall i, j | 0 <= i < j < |names|
      ensures names[i] != names[j]
    {
      DecoratedSame(name, ds[i], ds[j]);
      assert TitleCaseAll(ds)[i] != TitleCaseAll(ds)[j];
    }
  }

  /**
    The code as written and the corrected attempt differ only where the
    former completes with two equal names, which the latter declines.
  */
  lemma {:induction false} AttemptFixedAgrees(ids: seq<string>, name: string, e: Extractor)
    ensures AttemptFixed(ids, name, e).Done? ==> Attempt(ids, name, e) == AttemptFixed(ids, name, e)
    ensures !Attempt(ids, name, e).Done? ==> AttemptFixed(ids, name, e) == Attempt(ids, name, e)
    ensures Attempt(ids, name, e).Done? ==>
      (AttemptFixed(ids, name, e) == Attempt(ids, name, e) <==> !HasRepeats(Attempt(ids, name, e).value))
  {
    if Collected(ids, e, NameParts(name)).Done? {
      var ds := GroupDecorators(ids, name, e);
      RepeatsOfRenamed(name, ds);
      assert Attempt(ids, name, e) == if HasRepeats(ds) then Declined else Done(Renamed(name, ds));
      assert AttemptFixed(ids, name, e) == if HasRepeats(TitleCaseAll(ds)) then Declined else Done(Renamed(name, ds));
    }
  }

  /**
    Decorated names repeat exactly when the title-cased decorators do, and
    they do whenever the decorators themselves repeat.
  */
  lemma {:induction false} RepeatsOfRenamed(name: string, ds: seq<string>)
    ensures HasRepeats(Renamed(name, ds)) <==> HasRepeats(TitleCaseAll(ds))
    ensures HasRepeats(ds) ==> HasRepeats(TitleCaseAll(ds))
  {
    var names := Renamed(name, ds);
    var titled := TitleCaseAll(ds);
    if HasRepeats(names) {
      var i, j :| 0 <= i < j < |names| && names[i] == names[j];
      DecoratedSame(name, ds[i], ds[j]);
      assert titled[i] == titled[j];
    }
    if HasRepeats(titled) {
      var i, j :| 0 <= i < j < |titled| && titled[i] == titled[j];
      DecoratedSame(name, ds[i], ds[j]);
      assert names[i] == names[j];
    }
    if HasRepeats(ds) {
      var i, j :| 0 <= i < j < |ds| && ds[i] == ds[j];
      assert titled[i] == titled[j];
    }
  }

  /** The corrected attempt declines the group that the code as written renames to two equal names. */
  lemma {:induction false} AttemptFixedDeclinesCollision()
    ensures AttemptFixed(["Q$ABC", "Q$Abc"], "X", InnerOnly) == Declined
  {
    AttemptCollision();
    AttemptFixedAgrees(["Q$ABC", "Q$Abc"], "X", InnerOnly);
    assert HasRepeats(["X (Abc)", "X (Abc)"]) by {
      assert ["X (Abc)", "X (Abc)"][0] == ["X (Abc)", "X (Abc)"][1];
    }
  }
}
