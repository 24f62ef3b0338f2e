/**
  Model of Launchable.java together with the two subclasses IntentLaunchable.java
  and ContactLaunchable.java: something the launcher can start, with an id,
  a display name that is looked up lazily and cached, a score, and a cached
  lowercase form of its name.

  The platform objects are abstracted away: a launchable made from a
  platform `ResolveInfo` carries the label that `loadLabel` would return
  (`platformLabel`), and one made by the test constructor carries none.
*/
module Launchables {
  import opened Wrappers
  import opened Text
  import opened CaseInsensitives
  import opened Query

  /** Which class the launchable is: an intent (Launchable.java itself and IntentLaunchable.java) or a contact. */
  datatype Kind = Intent | Contact

  /** The exceptions the modelled operations throw. */
  datatype Failure = IllegalArgument | UnsupportedOperation | NullPointer | StringIndexOutOfBounds

  // ---------------------------------------------------------------------
  // Score factors
  // ---------------------------------------------------------------------

  /** Ids of system settings screens. */
  predicate IsSettingsId(id: string) {
    StartsWith(id, "com.android.settings.") || StartsWith(id, "android.settings.")
  }

  /** IntentLaunchable's `getScoreFactor`, also inlined in Launchable's `setScore`: settings are put after apps. */
  function IntentScoreFactor(id: string): (f: real)
    ensures 0.0 < f <= 1.0
    ensures f < 1.0 <==> IsSettingsId(id)
    ensures IsSettingsId(id) ==> f == 0.99
  {
    if IsSettingsId(id) then 0.99 else 1.0
  }

  /** ContactLaunchable's `getScoreFactor`: contacts are put after settings. */
  const ContactScoreFactor: real := 0.98

  function ScoreFactor(kind: Kind, id: string): real {
    match kind
    case Intent => IntentScoreFactor(id)
    case Contact => ContactScoreFactor
  }

  /** Contacts rank below settings, which rank below apps; every factor lies in (0, 1]. */
  lemma {:induction false} ScoreFactorOrder(kind: Kind, id: string)
    ensures ContactScoreFactor < IntentScoreFactor("android.settings.WIFI_SETTINGS") < IntentScoreFactor("com.example.App")
    ensures 0.0 < ScoreFactor(kind, id) <= 1.0
  {
    assert StartsWith("android.settings.WIFI_SETTINGS", "android.settings.");
    assert !StartsWith("com.example.App", "com.android.settings.") by {
      assert "com.example.App"[4] != "com.android.settings."[4];
    }
    assert !StartsWith("com.example.App", "android.settings.") by {
      assert "com.example.App"[0] != "android.settings."[0];
    }
  }

  /** The contact ids built by `ContactLaunchable` never look like settings ids. */
  lemma {:induction false} ContactIdsAreNotSettings(contactId: int)
    ensures !IsSettingsId(ContactId(contactId))
  {
    var id := ContactId(contactId);
    assert id[0] == 'c' && id[1] == 'o' && id[2] == 'n';
    assert "com.android.settings."[2] == 'm';
  }

  /** The id of a contact: "contacts." and the decimal contact id. */
  function ContactId(contactId: int): string {
    "contacts." + Decimal(contactId)
  }

  /** The contact id can be read back from the launchable id. */
  lemma {:induction false} ContactIdRoundTrip(contactId: int)
    ensures StartsWith(ContactId(contactId), "contacts.")
    ensures ParseDecimal(ContactId(contactId)[9..]) == contactId
  {
    assert ContactId(contactId)[9..] == Decimal(contactId);
    DecimalRoundTrip(contactId);
  }

  // ---------------------------------------------------------------------
  // Ordering
  // ---------------------------------------------------------------------

  /**
    `compareTo` on the scores and names of two launchables: the higher score
    first (`Double.compare(o.score, score)`), then `String.compareTo` on the
    names, which sees case.
  */
  function CompareEntries(score: real, name: string, otherScore: real, otherName: string): int {
    if otherScore > score then 1
    else if otherScore < score then -1
    else CompareStrings(name, otherName)
  }

  /** The higher score always comes first, whatever the names. */
  lemma {:induction false} HigherScoreFirst(score: real, name: string, otherScore: real, otherName: string)
    requires score > otherScore
    ensures CompareEntries(score, name, otherScore, otherName) < 0
    ensures CompareEntries(otherScore, otherName, score, name) > 0
  {
  }

  /** On equal scores the names decide, and equal entries compare as 0. */
  lemma {:induction false} EqualScoresByName(score: real, name: string, otherName: string)
    ensures CompareEntries(score, name, score, otherName) < 0 <==> CompareStrings(name, otherName) < 0
    ensures CompareEntries(score, name, score, otherName) == 0 <==> name == otherName
  {
    CompareStringsZero(name, otherName);
  }

  /** `compareTo` is antisymmetric and transitive, so sorting by it is well defined. */
  lemma {:induction false} CompareEntriesIsAnOrder(s1: real, n1: string, s2: real, n2: string, s3: real, n3: string)
    ensures CompareEntries(s1, n1, s2, n2) == -CompareEntries(s2, n2, s1, n1)
    ensures CompareEntries(s1, n1, s2, n2) < 0 && CompareEntries(s2, n2, s3, n3) < 0
            ==> CompareEntries(s1, n1, s3, n3) < 0
  {
    CompareStringsAntisymmetric(n1, n2);
    if s1 == s2 == s3 && CompareStrings(n1, n2) < 0 && CompareStrings(n2, n3) < 0 {
      CompareStringsTransitive(n1, n2, n3);
    }
  }

  /**
    The launcher's test cases, with an unscored launchable counting as 1: Ape sorts before Zebra;
    once Zebra is launched (score 2) it sorts first. The test that expects
    a more recent launch to win over an older one is not met by this
    revision: one launch each gives equal scores, and Ape sorts first.
  */
  lemma {:induction false} ApeZebraExamples()
    ensures CompareEntries(1.0, "Ape", 1.0, "Zebra") < 0
    ensures CompareEntries(2.0, "Zebra", 1.0, "Ape") < 0
    ensures CompareEntries(2.0, "Ape", 2.0, "Zebra") < 0
  {
    assert CompareStrings("Ape", "Zebra") == 'A' as int - 'Z' as int;
  }

  /**
    What `compareTo` does with the scores and names it finds, as written:
    `Double.compare` unboxes both scores, so a missing one throws; scores
    that differ decide without looking at the names; otherwise both names
    are looked up, and a missing one throws in `String.compareTo`.
  */
  function CompareOutcome(score: Option<real>, name: Option<string>, otherScore: Option<real>, otherName: Option<string>): (r: Result<int, Failure>)
    ensures r.Err? ==> r.error == NullPointer
  {
    if score.None? || otherScore.None? then Err(NullPointer)
    else if score != otherScore then Ok(if otherScore.value > score.value then 1 else -1)
    else if name.None? || otherName.None? then Err(NullPointer)
    else Ok(CompareStrings(name.value, otherName.value))
  }

  /** The score an unscored launchable is meant to count as: DatabaseUtils.java:184-186 starts real scores at 2 to beat it. */
  function ScoreOrDefault(score: Option<real>): (r: real)
    ensures score.Some? ==> r == score.value
    ensures score.None? ==> r == 1.0
  {
    if score.Some? then score.value else 1.0
  }

  /** `compareTo` with the evidently intended default: an unscored launchable counts as score 1. */
  function CompareOutcomeDefaulted(score: Option<real>, name: Option<string>, otherScore: Option<real>, otherName: Option<string>): (r: Result<int, Failure>)
  {
    CompareOutcome(Some(ScoreOrDefault(score)), name, Some(ScoreOrDefault(otherScore)), otherName)
  }

  /**
    `compareTo` throws exactly when a score is missing, or when the scores
    tie and a name is missing; when it returns, it orders as `CompareEntries`.
  */
  lemma {:induction false} CompareOutcomeCases(score: Option<real>, name: Option<string>, otherScore: Option<real>, otherName: Option<string>)
    ensures var r := CompareOutcome(score, name, otherScore, otherName);
      (r.Err? <==> score.None? || otherScore.None? || (score == otherScore && (name.None? || otherName.None?))) &&
      (r.Ok? ==> r.value == CompareEntries(score.value, NameOrEmpty(name), otherScore.value, NameOrEmpty(otherName)))
  {
  }

  /** The name a launchable without one is compared by in the lemmas below; it never decides an outcome. */
  function NameOrEmpty(name: Option<string>): string {
    if name.Some? then name.value else ""
  }

  /**
    With the default score, a comparison throws only when the scores tie
    and a name is missing, and the outcomes form an order: swapping the
    arguments negates the result and "sorts first" is transitive.
  */
  lemma {:induction false} DefaultedIsAnOrder(s1: Option<real>, n1: Option<string>, s2: Option<real>, n2: Option<string>,
                                              s3: Option<real>, n3: Option<string>)
    ensures var r := CompareOutcomeDefaulted(s1, n1, s2, n2);
      r.Err? <==> ScoreOrDefault(s1) == ScoreOrDefault(s2) && (n1.None? || n2.None?)
    ensures var r := CompareOutcomeDefaulted(s1, n1, s2, n2);
      var back := CompareOutcomeDefaulted(s2, n2, s1, n1);
      r.Ok? <==> back.Ok?
    ensures var r := CompareOutcomeDefaulted(s1, n1, s2, n2);
      var back := CompareOutcomeDefaulted(s2, n2, s1, n1);
      r.Ok? ==> r.value == -back.value
    ensures var r12 := CompareOutcomeDefaulted(s1, n1, s2, n2);
      var r23 := CompareOutcomeDefaulted(s2, n2, s3, n3);
      var r13 := CompareOutcomeDefaulted(s1, n1, s3, n3);
      r12.Ok? && r23.Ok? && r12.value < 0 && r23.value < 0 ==> r13.Ok? && r13.value < 0
  {
    var d1, d2, d3 := ScoreOrDefault(s1), ScoreOrDefault(s2), ScoreOrDefault(s3);
    var e1, e2, e3 := NameOrEmpty(n1), NameOrEmpty(n2), NameOrEmpty(n3);
    CompareOutcomeCases(Some(d1), n1, Some(d2), n2);
    CompareOutcomeCases(Some(d2), n2, Some(d1), n1);
    CompareOutcomeCases(Some(d2), n2, Some(d3), n3);
    CompareOutcomeCases(Some(d1), n1, Some(d3), n3);
    CompareEntriesIsAnOrder(d1, e1, d2, e2, d3, e3);
  }

  /** Where both launchables are scored, the default changes nothing. */
  lemma {:induction false} DefaultedAgreesWhenScored(score: Option<real>, name: Option<string>, otherScore: Option<real>, otherName: Option<string>)
    requires score.Some? && otherScore.Some?
    ensures CompareOutcomeDefaulted(score, name, otherScore, otherName) == CompareOutcome(score, name, otherScore, otherName)
  {
  }

  /**
    LaunchableTest's alphabetic fallback sorts the unscored Ape and Zebra:
    as written, comparing them throws; with the default score Ape sorts first.
  */
  lemma {:induction false} UnscoredComparison()
    ensures CompareOutcome(None, Some("Ape"), None, Some("Zebra")) == Err(NullPointer)
    ensures CompareOutcomeDefaulted(None, Some("Ape"), None, Some("Zebra")) == Ok('A' as int - 'Z' as int)
    ensures CompareOutcomeDefaulted(None, Some("Zebra"), Some(2.0), Some("Ape")) == Ok(1)
  {
    assert CompareStrings("Ape", "Zebra") == 'A' as int - 'Z' as int;
  }

  /** What `matches(search)` of Launchable.java decides for a name. */
  predicate NameMatches(name: string, search: string) {
    IsSubstring(search, Lower(Lower(name)))
  }

  /** The name is lowercased twice; this is the same as once. */
  lemma {:induction false} NameMatchesLowercased(name: string, search: string)
    ensures NameMatches(name, search) <==> IsSubstring(search, Lower(name))
  {
    LowerIdempotent(name);
  }

  /** "Gnu" matches each of its lowercase infixes and nothing from the id "fot". */
  lemma {:induction false} GnuExample()
    ensures NameMatches("Gnu", "nu") && NameMatches("Gnu", "gnu") && NameMatches("Gnu", "g")
    ensures !NameMatches("Gnu", "fot") && !NameMatches("Gnu", "f")
  {
    var lowered := "gnu";
    assert Lower("Gnu") == lowered;
    LowerIdempotent("Gnu");
    assert OccursAt("nu", lowered, 1);
    assert OccursAt("gnu", lowered, 0);
    assert OccursAt("g", lowered, 0);
    forall i | 0 <= i <= 2
      ensures !OccursAt("f", lowered, i)
    {
      assert lowered[i..i + 1][0] != 'f';
    }
  }

  class Launchable {
    const id: string
    const kind: Kind
    /** The label the platform would load for this launchable, if it came from the platform. */
    const platformLabel: Option<string>
    var name: Option<string>
    var score: Option<real>
    /** The name that `lowercased` was computed from. */
    var lowercaseBase: Option<string>
    var lowercased: Option<string>

    ghost predicate Valid()
      reads this
    {
      lowercaseBase.Some? ==> lowercased == Some(Lower(lowercaseBase.value))
    }

    /** `getTrueName`: the platform label, or the stored name when there is no platform object. */
    function TrueName(): Option<string>
      reads this
    {
      if platformLabel.Some? then platformLabel else name
    }

    /** The name `getName` returns: the stored one, else the true name. */
    function ResolvedName(): Option<string>
      reads this
    {
      if name.Some? then name else TrueName()
    }

    /** `toString`. */
    function ToString(): string {
      id
    }

    /** The test constructor of Launchable.java and IntentLaunchable.java. */
    constructor (id: string, name: Option<string>)
      ensures this.id == id && ToString() == id && kind == Intent && platformLabel == None
      ensures this.name == name && score == None && lowercaseBase == None
      ensures Valid() && ResolvedName() == name
    {
      this.id := id;
      kind := Intent;
      platformLabel := None;
      this.name := name;
      score := None;
      lowercaseBase := None;
      lowercased := None;
    }

    /** The platform constructor: the id is the package name, a dot and the activity name. */
    constructor FromPlatform(packageName: string, activityName: string, loadedLabel: string)
      ensures id == packageName + "." + activityName && kind == Intent
      ensures platformLabel == Some(loadedLabel) && name == None && score == None
      ensures Valid() && ResolvedName() == Some(loadedLabel)
    {
      id := packageName + "." + activityName;
      kind := Intent;
      platformLabel := Some(loadedLabel);
      name := None;
      score := None;
      lowercaseBase := None;
      lowercased := None;
    }

    /** ContactLaunchable's constructor: the id is built from the contact id, the name is the display name. */
    constructor ForContact(contactId: int, displayName: Option<string>)
      ensures id == ContactId(contactId) && kind == Contact && platformLabel == None
      ensures name == displayName && score == None
      ensures Valid() && ResolvedName() == displayName
    {
      id := ContactId(contactId);
      kind := Contact;
      platformLabel := None;
      name := displayName;
      score := None;
      lowercaseBase := None;
      lowercased := None;
    }

    /** `getName`: the stored name; without one, the true name is looked up and stored. */
    method GetName() returns (r: Option<string>)
      modifies this`name
      ensures r == old(ResolvedName()) && name == r
      ensures old(name).Some? ==> name == old(name)
      ensures ResolvedName() == old(ResolvedName())
    {
      if name.Some? {
        return name;
      }
      name := TrueName();
      r := name;
    }

    /** `setName`. */
    method SetName(newName: Option<string>)
      modifies this`name
      ensures name == newName
      ensures newName.Some? ==> ResolvedName() == newName
    {
      name := newName;
    }

    /** `getLowercaseName`: the lowercased name, recomputed only when the name changed. */
    method GetLowercaseName() returns (r: Option<string>)
      requires Valid()
      modifies this`name, this`lowercaseBase, this`lowercased
      ensures Valid()
      ensures name == old(ResolvedName())
      ensures r.None? <==> name.None?
      ensures r.Some? ==> r.value == Lower(name.value)
    {
      var n := GetName();
      if n.None? {
        return None;
      }
      if lowercaseBase != n {
        lowercased := Some(Lower(n.value));
        lowercaseBase := n;
      }
      r := lowercased;
    }

    /**
      `matches(search)`: a contact matches everything; any other launchable
      fails without a name, and otherwise matches when its lowercased name
      contains the search string.
    */
    method Matches(search: string) returns (r: Result<bool, Failure>)
      requires Valid()
      modifies this`name, this`lowercaseBase, this`lowercased
      ensures Valid()
      ensures kind == Contact ==> r == Ok(true) && name == old(name)
      ensures kind == Intent ==> name == old(ResolvedName())
      ensures kind == Intent && name.None? ==> r == Err(UnsupportedOperation)
      ensures kind == Intent && name.Some? ==> r == Ok(IsSubstring(search, Lower(name.value)))
    {
      if kind == Contact {
        return Ok(true);
      }
      var lower := GetLowercaseName();
      if lower.None? {
        return Err(UnsupportedOperation);
      }
      NameMatchesLowercased(name.value, search);
      r := Ok(IsSubstring(search, Lower(lower.value)));
    }

    /**
      IntentLaunchable's `matches(query)`: the query's verdict on the name.
      A query without words accepts even a missing name; a query with words
      dereferences it.
    */
    method MatchesQuery(query: CaseInsensitiveQuery) returns (r: Result<bool, Failure>)
      requires kind == Intent && query.Valid()
      modifies this`name, query.words
      ensures query.Valid() && query.words == old(query.words)
      ensures name == old(ResolvedName())
      ensures name.None? ==> r == (if |query.words| == 0 then Ok(true) else Err(NullPointer))
      ensures name.Some? ==> r == Ok(AllWordsIn(query.Texts(), name.value))
    {
      var n := GetName();
      if n.None? {
        if |query.words| == 0 {
          return Ok(true);
        }
        return Err(NullPointer);
      }
      var tryMe := new CaseInsensitive(n.value);
      var b := query.Matches(tryMe);
      r := Ok(b);
    }

    /**
      `setScore`: a score that is not positive is refused and nothing
      changes; otherwise the score times the settings factor is stored.
    */
    method SetScore(s: real) returns (r: Outcome<Failure>)
      modifies this`score
      ensures s <= 0.0 ==> r == Fail(IllegalArgument) && score == old(score)
      ensures s > 0.0 ==> r == Pass && score == Some(s * IntentScoreFactor(id))
      ensures s > 0.0 ==> 0.0 < score.value <= s
    {
      if s <= 0.0 {
        return Fail(IllegalArgument);
      }
      score := Some(s * IntentScoreFactor(id));
      r := Pass;
    }

    /**
      `compareTo`: a missing score throws; different scores decide; on a
      tie both names are looked up (and stored) and compared.
    */
    method CompareTo(o: Launchable) returns (r: Result<int, Failure>)
      modifies this`name, o`name
      ensures r == CompareOutcome(score, old(ResolvedName()), o.score, old(o.ResolvedName()))
      ensures score.Some? && score == o.score ==> name == old(ResolvedName()) && o.name == old(o.ResolvedName())
      ensures !(score.Some? && score == o.score) ==> name == old(name) && o.name == old(o.name)
    {
      if score.None? || o.score.None? {
        return Err(NullPointer);
      }
      if score != o.score {
        return Ok(if o.score.value > score.value then 1 else -1);
      }
      var mine := GetName();
      var theirs := o.GetName();
      if mine.None? || theirs.None? {
        return Err(NullPointer);
      }
      r := Ok(CompareStrings(mine.value, theirs.value));
    }
  }

  /** The ids of the launchables. */
  function Ids(group: seq<Launchable>): (r: seq<string>)
    ensures |r| == |group| && forall k :: 0 <= k < |group| ==> r[k] == group[k].id
  {
    seq(|group|, k requires 0 <= k < |group| => group[k].id)
  }

  /** No launchable occurs twice. */
  predicate Distinct(group: seq<Launchable>) {
    forall i, j :: 0 <= i < j < |group| ==> group[i] != group[j]
  }

  /** The names the launchables resolve to. */
  function ResolvedNames(ls: seq<Launchable>): (r: seq<Option<string>>)
    reads set l | l in ls
    ensures |r| == |ls| && forall k :: 0 <= k < |ls| ==> r[k] == ls[k].ResolvedName()
  {
    seq(|ls|, k reads set l | l in ls requires 0 <= k < |ls| => ls[k].ResolvedName())
  }

  /** The names the launchables hold. */
  function CurrentNames(ls: seq<Launchable>): (r: seq<Option<string>>)
    reads set l | l in ls
    ensures |r| == |ls| && forall k :: 0 <= k < |ls| ==> r[k] == ls[k].name
  {
    seq(|ls|, k reads set l | l in ls requires 0 <= k < |ls| => ls[k].name)
  }

  /** Every launchable has a name. */
  predicate AllNamed(rs: seq<Option<string>>) {
    forall k :: 0 <= k < |rs| ==> rs[k].Some?
  }

  /** The names themselves, once all are present. */
  function Values(rs: seq<Option<string>>): (r: seq<string>)
    requires AllNamed(rs)
    ensures |r| == |rs| && forall k :: 0 <= k < |r| ==> rs[k] == Some(r[k])
  {
    seq(|rs|, k requires 0 <= k < |rs| => rs[k].value)
  }
}
