/**
  Model of utils/CaseInsensitive.java: a string that is searched without
  regard to case, but compared, hashed and ordered with regard to case.
  The lowercase form is computed on first use and cached in a field.
*/
module CaseInsensitives {
  import opened Wrappers
  import opened Text

  /** What `contains` decides: the lowercased `sub` occurs in the lowercased `text`. */
  predicate ContainsIgnoringCase(text: string, sub: string) {
    IsSubstring(Lower(sub), Lower(text))
  }

  /** Reduces `x` to a 32-bit two's complement value, as Java `int` arithmetic does. */
  function WrapInt(x: int): int {
    var m := x % 0x1_0000_0000;
    if m >= 0x8000_0000 then m - 0x1_0000_0000 else m
  }

  /** Java's `String.hashCode`: `h = 31 * h + c` over the characters, in `int` arithmetic. */
  function StringHash(s: string): int {
    HashFrom(0, s)
  }

  function HashFrom(h: int, s: string): int
    decreases |s|
  {
    if |s| == 0 then h else HashFrom(WrapInt(31 * h + s[0] as int), s[1..])
  }

  class CaseInsensitive {
    const original: string
    /** The cached lowercase form, `null` until first asked for. */
    var lowercase: Option<string>

    ghost predicate Valid()
      reads this
    {
      lowercase.Some? ==> lowercase.value == Lower(original)
    }

    constructor (charSequence: string)
      ensures original == charSequence && lowercase == None
      ensures Valid()
    {
      original := charSequence;
      lowercase := None;
    }

    /** `create`: `null` gives `null`, anything else a fresh object holding the text. */
    static method Create(charSequence: Option<string>) returns (r: CaseInsensitive?)
      ensures charSequence.None? <==> r == null
      ensures r != null ==> fresh(r) && r.Valid() && r.ToString() == charSequence.value
    {
      if charSequence.None? {
        return null;
      }
      r := new CaseInsensitive(charSequence.value);
    }

    /** `getLowercase`: computes the lowercase form once and caches it. */
    method GetLowercase() returns (r: string)
      requires Valid()
      modifies this`lowercase
      ensures Valid() && lowercase == Some(r)
      ensures r == Lower(original)
    {
      if lowercase.None? {
        lowercase := Some(Lower(original));
      }
      r := lowercase.value;
    }

    /** `contains`: compares the lowercase forms, caching both. */
    method Contains(substring: CaseInsensitive) returns (b: bool)
      requires Valid() && substring.Valid()
      modifies this`lowercase, substring`lowercase
      ensures Valid() && substring.Valid()
      ensures b == ContainsIgnoringCase(original, substring.original)
    {
      var mine := GetLowercase();
      var theirs := substring.GetLowercase();
      b := IsSubstring(theirs, mine);
    }

    /** `hashCode`: the hash of the original text, case included. */
    function HashCode(): (h: int)
      ensures -0x8000_0000 <= h < 0x8000_0000
    {
      HashBound(0, original);
      StringHash(original)
    }

    /** `equals`: the original texts are equal, case included; `null` is never equal. */
    predicate Equals(o: CaseInsensitive?) {
      o != null && original == o.original
    }

    /** `toString`: the original text, unchanged. */
    function ToString(): string {
      original
    }

    /** `compareTo`: the order of the original texts, case included. */
    function CompareTo(o: CaseInsensitive): int {
      CompareStrings(original, o.original)
    }

    /** `isEmpty`: the original text is empty. */
    predicate IsEmpty() {
      |original| == 0
    }
  }

  lemma {:induction false} HashBound(h: int, s: string)
    requires -0x8000_0000 <= h < 0x8000_0000
    ensures -0x8000_0000 <= HashFrom(h, s) < 0x8000_0000
    decreases |s|
  {
    if |s| != 0 {
      HashBound(WrapInt(31 * h + s[0] as int), s[1..]);
    }
  }

  /**
    `equals` and `hashCode` are consistent, and both see case: two objects
    are equal exactly when their texts are, and equal objects hash alike.
  */
  lemma {:induction false} EqualsAndHashCode(a: CaseInsensitive, b: CaseInsensitive)
    ensures a.Equals(b) <==> a.ToString() == b.ToString()
    ensures a.Equals(b) ==> a.HashCode() == b.HashCode()
    ensures a.Equals(b) <==> a.CompareTo(b) == 0
  {
    CompareStringsZero(a.original, b.original);
  }

  /** `compareTo` is antisymmetric and transitive: the lexicographic order of the texts. */
  lemma {:induction false} CompareToIsAnOrder(a: CaseInsensitive, b: CaseInsensitive, c: CaseInsensitive)
    ensures a.CompareTo(b) == -b.CompareTo(a)
    ensures a.CompareTo(b) < 0 && b.CompareTo(c) < 0 ==> a.CompareTo(c) < 0
  {
    CompareStringsAntisymmetric(a.original, b.original);
    if a.CompareTo(b) < 0 && b.CompareTo(c) < 0 {
      CompareStringsTransitive(a.original, b.original, c.original);
    }
  }

  /** Case does not matter to `contains`: "Johan" and "johan" contain each other. */
  lemma {:induction false} ContainsSeesNoCase(text: string, text': string, sub: string, sub': string)
    requires Lower(text) == Lower(text') && Lower(sub) == Lower(sub')
    ensures ContainsIgnoringCase(text, sub) <==> ContainsIgnoringCase(text', sub')
  {
  }

  lemma {:induction false} JohanExample()
    ensures ContainsIgnoringCase("Johan", "johan") && ContainsIgnoringCase("johan", "Johan")
    ensures "Johan" != "johan"
    ensures !ContainsIgnoringCase("johan", "hej")
  {
    assert OccursAt(Lower("johan"), Lower("Johan"), 0);
    assert OccursAt(Lower("Johan"), Lower("johan"), 0);
    assert "Johan"[0] != "johan"[0];
    assert Lower("hej") == "hej" && Lower("johan") == "johan";
    forall i | 0 <= i <= 2
      ensures !OccursAt("hej", "johan", i)
    {
      assert "johan"[i..i + 3][0] != 'h' || "johan"[i..i + 3][1] != 'e';
    }
  }

  /**
    `isEmpty` holds exactly for the text that the empty text contains, and
    such a text is contained in every text.
  */
  lemma {:induction false} EmptyContainedEverywhere(a: CaseInsensitive, text: string)
    ensures a.IsEmpty() <==> a.ToString() == ""
    ensures a.IsEmpty() <==> ContainsIgnoringCase("", a.original)
    ensures a.IsEmpty() ==> ContainsIgnoringCase(text, a.original)
  {
    if a.IsEmpty() {
      ContainsEveryInfix(text, 0, 0);
      assert text[0..0] == a.original;
      ContainsEveryInfix("", 0, 0);
    }
  }

  /** Every prefix, infix and suffix of a text is contained in it. */
  lemma {:induction false} ContainsEveryInfix(text: string, i: nat, j: nat)
    requires i <= j <= |text|
    ensures ContainsIgnoringCase(text, text[i..j])
  {
    LowerSlice(text, i, j);
    assert OccursAt(Lower(text[i..j]), Lower(text), i);
  }

  /** Containment is transitive: what a contained text contains, the text contains too. */
  lemma {:induction false} ContainsTransitive(a: string, b: string, c: string)
    requires ContainsIgnoringCase(a, b) && ContainsIgnoringCase(b, c)
    ensures ContainsIgnoringCase(a, c)
  {
    var la, lb, lc := Lower(a), Lower(b), Lower(c);
    var i :| 0 <= i <= |la| - |lb| && OccursAt(lb, la, i);
    var j :| 0 <= j <= |lb| - |lc| && OccursAt(lc, lb, j);
    SliceOfSlice(la, i, i + |lb|, j, j + |lc|);
    assert OccursAt(lc, la, i + j);
  }

  lemma {:induction false} SliceOfSlice(s: string, lo: nat, hi: nat, j: nat, k: nat)
    requires lo <= hi <= |s| && j <= k <= hi - lo
    ensures s[lo..hi][j..k] == s[lo + j..lo + k]
  {
    assert |s[lo..hi][j..k]| == k - j;
    forall m | 0 <= m < k - j
      ensures s[lo..hi][j..k][m] == s[lo + j..lo + k][m]
    {
    }
  }
}
