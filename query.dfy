/**
  Model of CaseInsensitiveQuery.java: a search string is cut into words at
  runs of whitespace, and a name matches when it contains every word,
  ignoring case.
*/
module Query {
  import opened Text
  import opened CaseInsensitives

  /** The words of a query: the non-empty strings of `split("\\s+")`. */
  function Words(q: string): seq<string> {
    NonEmpty(SplitWhitespace(q))
  }

  /** Every word occurs in `name`, ignoring case. */
  predicate AllWordsIn(words: seq<string>, name: string) {
    forall i :: 0 <= i < |words| ==> ContainsIgnoringCase(name, words[i])
  }

  /** What `matches` decides for a query string and a name. */
  predicate QueryMatches(q: string, name: string) {
    AllWordsIn(Words(q), name)
  }

  class CaseInsensitiveQuery {
    var words: seq<CaseInsensitive>

    ghost predicate Valid()
      reads this, words
    {
      forall i :: 0 <= i < |words| ==> words[i].Valid()
    }

    /** The texts of the words, in order. */
    function Texts(): seq<string>
      reads this
    {
      var ws := words;
      seq(|ws|, i requires 0 <= i < |ws| => ws[i].original)
    }

    constructor (queryString: string)
      ensures Valid() && Texts() == Words(queryString)
      ensures forall i :: 0 <= i < |words| ==> fresh(words[i])
    {
      var pieces := SplitWhitespace(queryString);
      var ws: seq<CaseInsensitive> := [];
      var i := 0;
      while i < |pieces|
        invariant 0 <= i <= |pieces|
        invariant forall k :: 0 <= k < |ws| ==> fresh(ws[k]) && ws[k].Valid()
        invariant seq(|ws|, k requires 0 <= k < |ws| => ws[k].original) == NonEmpty(pieces[..i])
      {
        assert pieces[..i + 1] == pieces[..i] + [pieces[i]];
        NonEmptyAppend(pieces[..i], [pieces[i]]);
        if pieces[i] != "" {
          var word := new CaseInsensitive(pieces[i]);
          ws := ws + [word];
        }
        i := i + 1;
      }
      assert pieces[..i] == pieces;
      words := ws;
    }

    /** `matches`: every word is contained in `tryMe`; stops at the first that is not. */
    method Matches(tryMe: CaseInsensitive) returns (b: bool)
      requires Valid() && tryMe.Valid()
      modifies tryMe, words
      ensures Valid() && tryMe.Valid() && words == old(words)
      ensures b == AllWordsIn(Texts(), tryMe.original)
    {
      var i := 0;
      while i < |words|
        invariant 0 <= i <= |words|
        invariant Valid() && tryMe.Valid()
        invariant AllWordsIn(Texts()[..i], tryMe.original)
      {
        var found := tryMe.Contains(words[i]);
        if !found {
          assert Texts()[i] == words[i].original;
          return false;
        }
        assert Texts()[..i + 1] == Texts()[..i] + [words[i].original];
        i := i + 1;
      }
      assert Texts()[..i] == Texts();
      return true;
    }
  }

  // ---------------------------------------------------------------------
  // What the words of a query are
  // ---------------------------------------------------------------------

  /** A string that starts with whitespace has an empty first piece. */
  lemma {:induction false} LeadingWhitespaceHead(s: string)
    requires |s| > 0 && IsWhitespace(s[0])
    ensures RunPieces(s)[0] == ""
  {
    if |s| > 1 && IsWhitespace(s[1]) {
      LeadingWhitespaceHead(s[1..]);
    }
  }

  lemma {:induction false} NonEmptyCons(ps: seq<string>)
    requires |ps| > 0
    ensures NonEmpty(ps) == NonEmpty([ps[0]]) + NonEmpty(ps[1..])
  {
    assert [ps[0]][0] == ps[0] && [ps[0]][1..] == [];
  }

  /**
    Putting a space between two strings leaves the first piece of `a` as
    it was and adds the words of `b` after the remaining words of `a`.
  */
  lemma {:induction false} RunPiecesSplice(a: string, b: string)
    ensures RunPieces(a + " " + b)[0] == RunPieces(a)[0]
    ensures NonEmpty(RunPieces(a + " " + b)[1..]) == NonEmpty(RunPieces(a)[1..]) + NonEmpty(RunPieces(b))
  {
    if |a| == 0 {
      SpliceAfterNothing(b);
      assert a + " " + b == " " + b;
    } else {
      RunPiecesSplice(a[1..], b);
      SpliceStep(a, b);
    }
  }

  /** The splice with nothing before the space. */
  lemma {:induction false} SpliceAfterNothing(b: string)
    ensures RunPieces(" " + b)[0] == ""
    ensures NonEmpty(RunPieces(" " + b)[1..]) == NonEmpty(RunPieces(b))
  {
    var s := " " + b;
    assert s[1..] == b;
    if |b| > 0 && IsWhitespace(b[0]) {
      LeadingWhitespaceHead(b);
      NonEmptyCons(RunPieces(b));
    } else {
      assert RunPieces(s) == [""] + RunPieces(b);
    }
  }

  /** The splice for `a`, from the splice for the rest of `a`. */
  lemma {:induction false} SpliceStep(a: string, b: string)
    requires |a| > 0
    requires RunPieces(a[1..] + " " + b)[0] == RunPieces(a[1..])[0]
    requires NonEmpty(RunPieces(a[1..] + " " + b)[1..]) == NonEmpty(RunPieces(a[1..])[1..]) + NonEmpty(RunPieces(b))
    ensures RunPieces(a + " " + b)[0] == RunPieces(a)[0]
    ensures NonEmpty(RunPieces(a + " " + b)[1..]) == NonEmpty(RunPieces(a)[1..]) + NonEmpty(RunPieces(b))
  {
    var s := a + " " + b;
    var a' := a[1..];
    assert s[0] == a[0] && s[1..] == a' + " " + b;
    if IsWhitespace(a[0]) {
      if |a'| == 0 {
        assert s[1..] == "" + " " + b;
        LeadingWhitespaceHead(s[1..]);
      } else if !IsWhitespace(a'[0]) {
        NonEmptyCons(RunPieces(s[1..]));
        NonEmptyCons(RunPieces(a'));
      }
    }
  }

  /** The words of `a + " " + b` are the words of `a` followed by the words of `b`. */
  lemma {:induction false} WordsSplice(a: string, b: string)
    ensures Words(a + " " + b) == Words(a) + Words(b)
  {
    RunPiecesSplice(a, b);
    WordsOfPieces(a + " " + b);
    WordsOfPieces(a);
    WordsOfPieces(b);
    SpliceNonEmpty(RunPieces(a + " " + b), RunPieces(a), RunPieces(b));
  }

  /** Pieces that share their first piece and continue as `pa`'s rest then `pb` keep the same non-empty pieces. */
  lemma {:induction false} SpliceNonEmpty(ps: seq<string>, pa: seq<string>, pb: seq<string>)
    requires |ps| > 0 && |pa| > 0 && ps[0] == pa[0]
    requires NonEmpty(ps[1..]) == NonEmpty(pa[1..]) + NonEmpty(pb)
    ensures NonEmpty(ps) == NonEmpty(pa) + NonEmpty(pb)
  {
    NonEmptyCons(ps);
    NonEmptyCons(pa);
    var first, restA, wb := NonEmpty([ps[0]]), NonEmpty(pa[1..]), NonEmpty(pb);
    assert first + (restA + wb) == (first + restA) + wb;
  }

  /** The words are the non-empty whitespace-separated pieces. */
  lemma {:induction false} WordsOfPieces(s: string)
    ensures Words(s) == NonEmpty(RunPieces(s))
    ensures |RunPieces(s)| > 0
  {
    NonEmptyOfSplitResult(RunPieces(s));
  }

  /** A query of two parts matches exactly the names both parts match. */
  lemma {:induction false} QueryIsConjunction(a: string, b: string, name: string)
    ensures QueryMatches(a + " " + b, name) <==> QueryMatches(a, name) && QueryMatches(b, name)
  {
    WordsSplice(a, b);
    var wa, wb := Words(a), Words(b);
    assert forall i :: 0 <= i < |wb| ==> wb[i] == (wa + wb)[|wa| + i];
    assert forall i :: 0 <= i < |wa| ==> wa[i] == (wa + wb)[i];
  }

  /** The order of the parts of a query does not matter. */
  lemma {:induction false} QueryOrderIrrelevant(a: string, b: string, name: string)
    ensures QueryMatches(a + " " + b, name) <==> QueryMatches(b + " " + a, name)
  {
    QueryIsConjunction(a, b, name);
    QueryIsConjunction(b, a, name);
  }

  /** Saying a word twice changes nothing. */
  lemma {:induction false} QueryRepetitionIrrelevant(a: string, name: string)
    ensures QueryMatches(a + " " + a, name) <==> QueryMatches(a, name)
  {
    QueryIsConjunction(a, a, name);
  }

  /** Spaces before, after or between the words of a query do not change its words. */
  lemma {:induction false} ExtraSpacesIrrelevant(a: string, b: string)
    ensures Words(" " + a) == Words(a)
    ensures Words(a + " ") == Words(a)
    ensures Words(a + "  " + b) == Words(a + " " + b)
  {
    assert Words("") == [] by {
      assert NonEmpty([""]) == [] + NonEmpty([""][1..]);
    }
    WordsSplice("", a);
    assert "" + " " + a == " " + a;
    WordsSplice(a, "");
    assert a + " " + "" == a + " ";
    WordsSplice(a + " ", b);
    WordsSplice(a, b);
    assert a + " " + " " + b == a + "  " + b;
  }

  /** A query that is only whitespace has no words, so it matches every name. */
  lemma {:induction false} BlankQueryMatchesAll(q: string, name: string)
    requires forall i :: 0 <= i < |q| ==> IsWhitespace(q[i])
    ensures Words(q) == []
    ensures QueryMatches(q, name)
  {
    BlankHasNoWords(q);
    NonEmptyOfSplitResult(RunPieces(q));
  }

  lemma {:induction false} BlankHasNoWords(q: string)
    requires forall i :: 0 <= i < |q| ==> IsWhitespace(q[i])
    ensures NonEmpty(RunPieces(q)) == []
  {
    if |q| > 0 {
      BlankHasNoWords(q[1..]);
      NonEmptyCons(RunPieces(q[1..]));
    }
  }

  /** A non-empty string without whitespace is one word: itself. */
  lemma {:induction false} SingleWord(q: string)
    requires |q| > 0
    requires forall i :: 0 <= i < |q| ==> !IsWhitespace(q[i])
    ensures Words(q) == [q]
  {
    OnePiece(q);
    assert NonEmpty([q]) == [q] + NonEmpty([q][1..]);
    assert [q][1..] == [];
  }

  lemma {:induction false} OnePiece(q: string)
    requires forall i :: 0 <= i < |q| ==> !IsWhitespace(q[i])
    ensures RunPieces(q) == [q]
  {
    if |q| > 0 {
      OnePiece(q[1..]);
      assert q == [q[0]] + q[1..];
    }
  }

  /** Every word is non-empty and holds no whitespace. */
  lemma {:induction false} WordsAreWords(q: string)
    ensures forall i :: 0 <= i < |Words(q)| ==> Words(q)[i] != ""
    ensures forall i, k :: 0 <= i < |Words(q)| && 0 <= k < |Words(q)[i]| ==> !IsWhitespace(Words(q)[i][k])
  {
    NonEmptyOfSplitResult(RunPieces(q));
    PiecesHoldNoWhitespace(q);
    NonEmptyKeepsElements(RunPieces(q));
  }

  lemma {:induction false} PiecesHoldNoWhitespace(s: string)
    ensures forall i, k :: 0 <= i < |RunPieces(s)| && 0 <= k < |RunPieces(s)[i]| ==> !IsWhitespace(RunPieces(s)[i][k])
  {
    if |s| > 0 {
      PiecesHoldNoWhitespace(s[1..]);
    }
  }

  lemma {:induction false} NonEmptyKeepsElements(ps: seq<string>)
    ensures forall i :: 0 <= i < |NonEmpty(ps)| ==> NonEmpty(ps)[i] != "" && NonEmpty(ps)[i] in ps
  {
    if |ps| > 0 {
      NonEmptyKeepsElements(ps[1..]);
    }
  }

  /** A word found at a position of the lowercased name is contained in the name. */
  lemma {:induction false} FoundAt(name: string, lowerName: string, word: string, i: nat)
    requires Lower(name) == lowerName && Lower(word) == word
    requires OccursAt(word, lowerName, i)
    ensures ContainsIgnoringCase(name, word)
  {
  }

  lemma {:induction false} TwoWordsIn(w1: string, w2: string, name: string)
    requires ContainsIgnoringCase(name, w1) && ContainsIgnoringCase(name, w2)
    ensures AllWordsIn([w1, w2], name)
  {
  }

  /** The words of a query of two words separated by one space. */
  lemma {:induction false} TwoWords(w1: string, w2: string)
    requires |w1| > 0 && forall i :: 0 <= i < |w1| ==> !IsWhitespace(w1[i])
    requires |w2| > 0 && forall i :: 0 <= i < |w2| ==> !IsWhitespace(w2[i])
    ensures Words(w1 + " " + w2) == [w1, w2]
  {
    SingleWord(w1);
    SingleWord(w2);
    WordsSplice(w1, w2);
  }

  lemma {:induction false} MittTelenorContains()
    ensures ContainsIgnoringCase("Mitt Telenor", "telenor")
    ensures ContainsIgnoringCase("Mitt Telenor", "mitt")
    ensures ContainsIgnoringCase("Mitt Telenor", "elen")
    ensures !ContainsIgnoringCase("Mitt Telenor", "gris")
  {
    var lowered := "mitt telenor";
    assert Lower("Mitt Telenor") == lowered;
    FoundAt("Mitt Telenor", lowered, "telenor", 5);
    FoundAt("Mitt Telenor", lowered, "mitt", 0);
    FoundAt("Mitt Telenor", lowered, "elen", 6);
    assert Lower("gris") == "gris";
    forall i | 0 <= i <= 8
      ensures !OccursAt("gris", lowered, i)
    {
      assert lowered[i..i + 4][0] != 'g';
    }
  }

  /** Both words of "telenor mitt" occur in "Mitt Telenor", in either order. */
  lemma {:induction false} TelenorMittExample()
    ensures QueryMatches("telenor mitt", "Mitt Telenor")
  {
    TwoWords("telenor", "mitt");
    assert "telenor" + " " + "mitt" == "telenor mitt";
    MittTelenorContains();
    TwoWordsIn("telenor", "mitt", "Mitt Telenor");
  }

  /** A word may occur inside another word and may be repeated. */
  lemma {:induction false} ElenElenExample()
    ensures QueryMatches("elen elen", "Mitt Telenor")
  {
    TwoWords("elen", "elen");
    assert "elen" + " " + "elen" == "elen elen";
    MittTelenorContains();
    TwoWordsIn("elen", "elen", "Mitt Telenor");
  }

  /** One word that does not occur is enough to reject the name. */
  lemma {:induction false} MittGrisExample()
    ensures !QueryMatches("mitt gris", "Mitt Telenor")
  {
    MittTelenorContains();
    assert "mitt" + " " + "gris" == "mitt gris";
    MissingSecondWord("mitt", "gris", "Mitt Telenor");
  }

  /** A query of two words is rejected when the name lacks the second. */
  lemma {:induction false} MissingSecondWord(w1: string, w2: string, name: string)
    requires |w1| > 0 && forall i :: 0 <= i < |w1| ==> !IsWhitespace(w1[i])
    requires |w2| > 0 && forall i :: 0 <= i < |w2| ==> !IsWhitespace(w2[i])
    requires !ContainsIgnoringCase(name, w2)
    ensures !QueryMatches(w1 + " " + w2, name)
  {
    TwoWords(w1, w2);
    assert Words(w1 + " " + w2)[1] == w2;
  }
}
