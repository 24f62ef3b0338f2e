# CleverDrawer's ranking, naming and filtering core, in Dafny

CleverDrawer is an Android app drawer. It loads everything the user can start (apps, settings screens, contacts), gives each a display name, scores it by how often it was launched recently, sorts the list, keeps the order stable between runs, and filters it as the user types. This project models that logic and proves what it promises. Only the Android glue is left out.

Modules, one per source component:

- `Text`: the string functions the Java code relies on, written out. They cover ASCII character classes, lowercasing, `String.compareTo`, `indexOf`/`lastIndexOf`, `Long.toString` with a parser that inverts it, and `String.split` on a character and on `\s+` (trailing empty strings dropped). `Wrappers` holds `Option`, `Result` and `Outcome`.
- `CaseInsensitives` (utils/CaseInsensitive.java): a class with a lazily cached lowercase form. Containment ignores case; equality, hashing (Java's 32-bit `String.hashCode`) and ordering do not.
- `Query` (CaseInsensitiveQuery.java): a class whose constructor splits the query into words. `Matches` checks that every word occurs, ignoring case.
- `Launchables` (Launchable.java, IntentLaunchable.java, ContactLaunchable.java): the launchable class.
  - Fields: a constant id and kind, plus a name, a score and a lowercase cache that are updated in place.
  - Methods: the memoising `getName`, `setName`, `matches`, `setScore` and `compareTo`.
  - Also here: the score factors, and the contact id `"contacts." + id`.
- `DatabaseUtils` (DatabaseUtils.java): the launch log and its ceiling of 1500, the scores over the last 450 launches, and the id-to-name cache.
- `StabilityUtils` (StabilityUtils.java): the order stabiliser.
  - It walks groups of four. Inside a group, an old id claims its old slot through an `array`, and the rest of the group fills the holes in order.
  - It is generic in the element type, with `idOf` standing for `getId`.
- `Uniquifier` (Uniquifier.java): name disambiguation.
  - Helpers: title-casing, camel-case splitting, tokenizing of class names, the three extraction patterns, `keepOnlyNamedParts`, `uniquifyParts` (in place on an `array` of sets), and `hasDuplicates`.
  - The whole `uniquify`, which renames launchables in place.
- `Adapter` (LaunchableAdapter.java): `dropDuplicateIds`, `dropUnnamed`, and the `LaunchableAdapter` class whose `SetFilter` rebuilds the filtered list.
- `Timers` (Timer.java): the `Timer` class. It records legs and renders them as "100ms = 13ms setup + 87ms something else". The clock readings are parameters.

Methods that change state are proved against specification functions, for example `Stabilized`, `Selected`, `Attempt`, `GroupOutcome` and `Rendering`. The properties the code promises are proved as lemmas about those functions.

## Where the tests and the code disagree

The source files come from different revisions. The model follows the code.

- UniquifierTest.java:214-225 expects "(Contact)" and "(App)" decorators. Uniquifier.java:50-79 has no strategy based on the launchable's type; its decorators come from ids only.
- UniquifierTest.java:239-249 expects a repeated token to appear once in a decorator. `keepOnlyNamedParts` (Uniquifier.java:156-169) keeps every occurrence (`Uniquifier.Kept`).
- UniquifierTest.java:251-259 expects a list from `keepOnlyNamedParts`. The code returns the kept tokens joined by spaces (`Uniquifier.KeptExample`).
- UniquifierTest.java:203-212 expects `tokenize(".$.")` to throw `IllegalArgumentException`. The code fails only inside `substring`, when a `$` comes before the last `.`. `Uniquifier.Tokenize` returns `None` there, and `uniquify` reports `StringIndexOutOfBounds`.
- StabilityUtilsTest.java:180-193 expects `[a,b,c,x,d,e,f]`. The code yields `[a,b,c,x,e,f,d]`, because `d` is pushed into the second group and the old ids `e, f` claim its first two slots (`StabilityUtils.NewAtStartExample`).
- LaunchableTest.java:90-104 expects the more recently launched Zebra first. Both launches fall in the scoring window, so both score 2, and Ape sorts first by name (`Launchables.ApeZebraExamples`, third clause). Timestamps play no part in scoring.
- Launchable.java:189 unboxes `score`, which stays null until `setScore` is called. `compareTo` therefore throws `NullPointerException` on an unscored launchable, and `Launchable.CompareTo` does the same. LaunchableTest.java:61-72 sorts two unscored launchables, and DatabaseUtils.java:184-186 says unscored launchables implicitly get 1. The default of 1 is the corrected comparison, `CompareOutcomeDefaulted` (see "## Findings").
- Launchable.java:194 breaks ties with the case-sensitive `String.compareTo` of the names.
- Launchable.java stores names as `String`. The other files use `CaseInsensitive`. Names are `string` throughout.
- `setScore` (Launchable.java:175-184) uses the settings factor 0.99 whatever the kind. ContactLaunchable's factor of 0.98 (ContactLaunchable.java:94-98) is modelled as `ScoreFactor` but is not applied by `SetScore`.
- `setFilter` (LaunchableAdapter.java:272) calls `launchable.contains`, which none of the files defines. It is modelled as case-insensitive containment of the search in the launchable's name.

## Model

| member | source | states |
|---|---|---|
| Text.CompareStringsZero | app/src/main/java/com/gmail/walles/johan/cleverdrawer/utils/CaseInsensitive.java:85-88 | `String.compareTo` is 0 exactly on equal strings |
| Text.CompareStringsAntisymmetric | app/src/main/java/com/gmail/walles/johan/cleverdrawer/utils/CaseInsensitive.java:85-88 | swapping the arguments of `String.compareTo` negates the result |
| Text.CompareStringsTransitive | app/src/main/java/com/gmail/walles/johan/cleverdrawer/utils/CaseInsensitive.java:85-88 | `String.compareTo` order is transitive |
| Text.LowerIdempotent | app/src/main/java/com/gmail/walles/johan/cleverdrawer/Launchable.java:146-151 | lowercasing the already lowercased name again changes nothing |
| Text.DecimalRoundTrip | app/src/main/java/com/gmail/walles/johan/cleverdrawer/ContactLaunchable.java:52-54 | the decimal text of a `long` parses back to the same number, sign included |
| Text.IndexOfFinds | app/src/main/java/com/gmail/walles/johan/cleverdrawer/Uniquifier.java:248 | `indexOf` is -1 exactly when the character is absent, otherwise the position of its first occurrence |
| Text.LastIndexOfFinds | app/src/main/java/com/gmail/walles/johan/cleverdrawer/Uniquifier.java:242 | `lastIndexOf` is -1 exactly when the character is absent, otherwise the position of its last occurrence |
| Text.JoinPieces | app/src/main/java/com/gmail/walles/johan/cleverdrawer/Uniquifier.java:260-262 | joining the pieces of a split on a character with that character gives back the string |
| Text.PiecesOfJoin | app/src/main/java/com/gmail/walles/johan/cleverdrawer/Uniquifier.java:260-262 | splitting words free of the separator, joined by it, gives back the words |
| Text.NonEmptyOfSplitResult | app/src/main/java/com/gmail/walles/johan/cleverdrawer/CaseInsensitiveQuery.java:36-39 | dropping the trailing empty strings of a split changes nothing once all empty words are skipped |
| CaseInsensitives.CaseInsensitive.constructor | app/src/main/java/com/gmail/walles/johan/cleverdrawer/utils/CaseInsensitive.java:51-53 | keeps the text unchanged, with no lowercase form cached yet |
| CaseInsensitives.CaseInsensitive.Create | app/src/main/java/com/gmail/walles/johan/cleverdrawer/utils/CaseInsensitive.java:42-49 | null gives null; otherwise a fresh object whose `toString` is the text |
| CaseInsensitives.CaseInsensitive.GetLowercase | app/src/main/java/com/gmail/walles/johan/cleverdrawer/utils/CaseInsensitive.java:55-60 | returns the lowercase of the text and leaves it cached, computed at most once |
| CaseInsensitives.CaseInsensitive.Contains | app/src/main/java/com/gmail/walles/johan/cleverdrawer/utils/CaseInsensitive.java:62-64 | true exactly when the lowercased argument occurs in the lowercased text |
| CaseInsensitives.CaseInsensitive.HashCode | app/src/main/java/com/gmail/walles/johan/cleverdrawer/utils/CaseInsensitive.java:66-69 | Java's `String.hashCode` of the text, in 32-bit range |
| CaseInsensitives.HashBound | app/src/main/java/com/gmail/walles/johan/cleverdrawer/utils/CaseInsensitive.java:66-69 | every step of the hash stays within the 32-bit `int` range |
| CaseInsensitives.EqualsAndHashCode | app/src/main/java/com/gmail/walles/johan/cleverdrawer/utils/CaseInsensitive.java:66-88 | equality is equality of the original texts, so it is case-sensitive; equal objects hash alike; `compareTo` is 0 exactly on equal objects |
| CaseInsensitives.CompareToIsAnOrder | app/src/main/java/com/gmail/walles/johan/cleverdrawer/utils/CaseInsensitive.java:85-88 | `compareTo` is antisymmetric and transitive |
| CaseInsensitives.ContainsSeesNoCase | app/src/main/java/com/gmail/walles/johan/cleverdrawer/utils/CaseInsensitive.java:62-64 | texts with equal lowercase forms are indistinguishable to `contains` |
| CaseInsensitives.ContainsEveryInfix | app/src/main/java/com/gmail/walles/johan/cleverdrawer/utils/CaseInsensitive.java:62-64 | every prefix, infix and suffix of a text is contained in it |
| CaseInsensitives.ContainsTransitive | app/src/main/java/com/gmail/walles/johan/cleverdrawer/utils/CaseInsensitive.java:62-64 | containment ignoring case is transitive |
| CaseInsensitives.EmptyContainedEverywhere | app/src/main/java/com/gmail/walles/johan/cleverdrawer/utils/CaseInsensitive.java:90-92 | `isEmpty` holds exactly for the empty text, which is the text the empty text contains, and every text contains it |
| CaseInsensitives.JohanExample | app/src/test/java/com/gmail/walles/johan/cleverdrawer/CaseInsensitiveTest.java:34-47 | "Johan" and "johan" contain each other though they are not equal; "johan" does not contain "hej" |
| Query.CaseInsensitiveQuery.constructor | app/src/main/java/com/gmail/walles/johan/cleverdrawer/CaseInsensitiveQuery.java:34-42 | the query's words are the non-empty pieces of the text split at whitespace runs, in order |
| Query.CaseInsensitiveQuery.Matches | app/src/main/java/com/gmail/walles/johan/cleverdrawer/CaseInsensitiveQuery.java:44-52 | true exactly when every word of the query occurs in the name, ignoring case |
| Query.WordsSplice | app/src/main/java/com/gmail/walles/johan/cleverdrawer/CaseInsensitiveQuery.java:34-42 | the words of "a b" are the words of a followed by the words of b |
| Query.WordsOfPieces | app/src/main/java/com/gmail/walles/johan/cleverdrawer/CaseInsensitiveQuery.java:34-42 | the words are exactly the non-empty pieces of the `\s+` split |
| Query.SingleWord | app/src/main/java/com/gmail/walles/johan/cleverdrawer/CaseInsensitiveQuery.java:34-42 | a non-empty query without whitespace is one word, itself |
| Query.TwoWords | app/src/main/java/com/gmail/walles/johan/cleverdrawer/CaseInsensitiveQuery.java:34-42 | two whitespace-free words joined by a space are split back into those two words |
| Query.WordsAreWords | app/src/main/java/com/gmail/walles/johan/cleverdrawer/CaseInsensitiveQuery.java:36-40 | every word is non-empty and holds no whitespace |
| Query.QueryIsConjunction | app/src/main/java/com/gmail/walles/johan/cleverdrawer/CaseInsensitiveQuery.java:34-52 | "a b" matches a name exactly when "a" matches and "b" matches |
| Query.QueryOrderIrrelevant | app/src/test/java/com/gmail/walles/johan/cleverdrawer/CaseInsensitiveQueryTest.java:56-57 | "a b" and "b a" match the same names |
| Query.QueryRepetitionIrrelevant | app/src/test/java/com/gmail/walles/johan/cleverdrawer/CaseInsensitiveQueryTest.java:59 | "a a" matches the same names as "a" |
| Query.ExtraSpacesIrrelevant | app/src/test/java/com/gmail/walles/johan/cleverdrawer/CaseInsensitiveQueryTest.java:65-71 | leading, trailing and doubled spaces leave the words unchanged |
| Query.BlankQueryMatchesAll | app/src/test/java/com/gmail/walles/johan/cleverdrawer/CaseInsensitiveQueryTest.java:34-38 | a query of whitespace only has no words and matches every name, "" included |
| Query.MittTelenorContains | app/src/test/java/com/gmail/walles/johan/cleverdrawer/CaseInsensitiveQueryTest.java:48-63 | "Mitt Telenor" contains "telenor", "mitt" and "elen" ignoring case, and not "gris" |
| Query.TelenorMittExample | app/src/test/java/com/gmail/walles/johan/cleverdrawer/CaseInsensitiveQueryTest.java:57 | "telenor mitt" matches "Mitt Telenor" |
| Query.ElenElenExample | app/src/test/java/com/gmail/walles/johan/cleverdrawer/CaseInsensitiveQueryTest.java:59 | "elen elen" matches "Mitt Telenor" |
| Query.MittGrisExample | app/src/test/java/com/gmail/walles/johan/cleverdrawer/CaseInsensitiveQueryTest.java:61 | "mitt gris" does not match "Mitt Telenor" |
| Query.MissingSecondWord | app/src/test/java/com/gmail/walles/johan/cleverdrawer/CaseInsensitiveQueryTest.java:61-62 | a two-word query whose second word the name lacks does not match |
| Launchables.IntentScoreFactor | app/src/main/java/com/gmail/walles/johan/cleverdrawer/IntentLaunchable.java:204-215 | the factor lies in (0, 1]; it is below 1 exactly for ids starting "com.android.settings." or "android.settings.", and is then 0.99 |
| Launchables.ScoreFactorOrder | app/src/main/java/com/gmail/walles/johan/cleverdrawer/ContactLaunchable.java:94-98 | contacts (0.98) rank below settings (0.99), which rank below apps (1.0); every factor lies in (0, 1] |
| Launchables.ContactIdsAreNotSettings | app/src/main/java/com/gmail/walles/johan/cleverdrawer/ContactLaunchable.java:52-56 | a contact id never gets the settings factor |
| Launchables.ContactIdRoundTrip | app/src/main/java/com/gmail/walles/johan/cleverdrawer/ContactLaunchable.java:52-54 | a contact id is "contacts." followed by a decimal that parses back to the contact number |
| Launchables.HigherScoreFirst | app/src/main/java/com/gmail/walles/johan/cleverdrawer/Launchable.java:188-192 | a higher score sorts first, whatever the names |
| Launchables.EqualScoresByName | app/src/main/java/com/gmail/walles/johan/cleverdrawer/Launchable.java:188-195 | at equal scores the order is the case-sensitive order of the names; 0 only for equal names |
| Launchables.CompareEntriesIsAnOrder | app/src/main/java/com/gmail/walles/johan/cleverdrawer/Launchable.java:188-195 | `compareTo` is antisymmetric and transitive |
| Launchables.ApeZebraExamples | app/src/test/java/com/gmail/walles/johan/cleverdrawer/LaunchableTest.java:61-104 | counting an unlaunched launchable as score 1, Ape before Zebra when neither was launched; a launched Zebra before Ape; at equal scores of 2, Ape first |
| Launchables.NameMatchesLowercased | app/src/main/java/com/gmail/walles/johan/cleverdrawer/Launchable.java:145-152 | `matches` holds exactly when the search occurs in the lowercased name |
| Launchables.GnuExample | app/src/test/java/com/gmail/walles/johan/cleverdrawer/LaunchableTest.java:46-59 | "Gnu" matches "nu", "gnu" and "g", but not "fot" or "f" |
| Launchables.Launchable.constructor | app/src/main/java/com/gmail/walles/johan/cleverdrawer/Launchable.java:113-119 | a test launchable has the given id and name, no score, and `toString` is its id |
| Launchables.Launchable.FromPlatform | app/src/main/java/com/gmail/walles/johan/cleverdrawer/Launchable.java:65-75 | the id is package name, ".", activity name; no name is stored yet and the true name is the platform label |
| Launchables.Launchable.ForContact | app/src/main/java/com/gmail/walles/johan/cleverdrawer/ContactLaunchable.java:52-56 | the id is "contacts." + number and the name is the display name given |
| Launchables.Launchable.GetName | app/src/main/java/com/gmail/walles/johan/cleverdrawer/Launchable.java:86-94 | returns the stored name if there is one, otherwise fetches the true name and stores it |
| Launchables.Launchable.SetName | app/src/main/java/com/gmail/walles/johan/cleverdrawer/Launchable.java:109-111 | the stored name becomes the argument and a later `getName` returns it |
| Launchables.Launchable.GetLowercaseName | app/src/main/java/com/gmail/walles/johan/cleverdrawer/Launchable.java:154-167 | null exactly when the name is null, otherwise the lowercased name; the cache stays consistent |
| Launchables.Launchable.Matches | app/src/main/java/com/gmail/walles/johan/cleverdrawer/Launchable.java:145-152 | an intent with a null name throws `UnsupportedOperationException`, otherwise the answer is substring of the lowercased name; a contact matches everything (ContactLaunchable.java:88-92) |
| Launchables.Launchable.MatchesQuery | app/src/main/java/com/gmail/walles/johan/cleverdrawer/IntentLaunchable.java:199-202 | the answer is the query's `matches` on the name; a null name fails unless the query has no words |
| Launchables.Launchable.SetScore | app/src/main/java/com/gmail/walles/johan/cleverdrawer/Launchable.java:169-185 | a score of 0 or less throws `IllegalArgumentException` and leaves the score alone; otherwise the score becomes s times the settings factor, and it is positive and at most s |
| Launchables.Launchable.CompareTo | app/src/main/java/com/gmail/walles/johan/cleverdrawer/Launchable.java:187-195 | returns `CompareOutcome` of the scores and the resolved names. A missing score throws `NullPointerException`. Different scores decide and no name is looked up. On a tie both names are looked up and stored |
| Launchables.CompareOutcomeCases | app/src/main/java/com/gmail/walles/johan/cleverdrawer/Launchable.java:187-195 | `compareTo` throws exactly when a score is missing, or when the scores tie and a name is missing; otherwise it orders as `CompareEntries` |
| Launchables.DefaultedIsAnOrder | app/src/main/java/com/gmail/walles/johan/cleverdrawer/DatabaseUtils.java:183-186 | with unscored launchables counting as 1, a comparison throws only on a tie with a missing name; swapping the arguments negates the result, and sorting first is transitive |
| Launchables.DefaultedAgreesWhenScored | app/src/main/java/com/gmail/walles/johan/cleverdrawer/Launchable.java:187-195 | when both launchables are scored, the default of 1 changes no outcome |
| Launchables.UnscoredComparison | app/src/test/java/com/gmail/walles/johan/cleverdrawer/LaunchableTest.java:61-72 | as written, comparing the unscored Ape and Zebra throws; with the default, Ape sorts first and an unscored launchable sorts after one scored 2 |
| DatabaseUtils.RegisterLaunch | app/src/main/java/com/gmail/walles/johan/cleverdrawer/DatabaseUtils.java:157-173 | appends the launch and drops the oldest entries down to 1500; the new launch is always last, and nothing is dropped below the ceiling |
| DatabaseUtils.Window | app/src/main/java/com/gmail/walles/johan/cleverdrawer/DatabaseUtils.java:175-178 | the scoring window is the last min(450, n) launches, the whole log when shorter |
| DatabaseUtils.WindowIgnoresCeiling | app/src/main/java/com/gmail/walles/johan/cleverdrawer/DatabaseUtils.java:52-57 | trimming the log to 1500 never changes the 450-launch scoring window |
| DatabaseUtils.LaunchNeverLowersOwnCount | app/src/main/java/com/gmail/walles/johan/cleverdrawer/DatabaseUtils.java:157-191 | registering a launch never lowers that id's count in the window, and leaves it at 1 or more |
| DatabaseUtils.ScoreMap | app/src/main/java/com/gmail/walles/johan/cleverdrawer/DatabaseUtils.java:180-191 | an id is scored exactly when it is launched in the window, with score count + 1, so every score is at least 2 |
| DatabaseUtils.ScoreLaunchables | app/src/main/java/com/gmail/walles/johan/cleverdrawer/DatabaseUtils.java:175-201 | a launchable launched k >= 1 times in the window gets score (k + 1) times its factor; the others keep their score; only scores change, so names and the lowercase cache stay |
| DatabaseUtils.ApplyScores | app/src/main/java/com/gmail/walles/johan/cleverdrawer/DatabaseUtils.java:193-201 | launchables whose id is in the map get that score times the factor, the others keep theirs; only scores change, so names and the lowercase cache stay |
| DatabaseUtils.CachedName | app/src/main/java/com/gmail/walles/johan/cleverdrawer/DatabaseUtils.java:79-90 | a named launchable keeps its name; an unnamed one takes the cached name, or stays unnamed when its id is not cached |
| DatabaseUtils.CachedNameIdempotent | app/src/main/java/com/gmail/walles/johan/cleverdrawer/DatabaseUtils.java:76-95 | naming from the cache twice is the same as naming once |
| DatabaseUtils.NameLaunchablesFromCache | app/src/main/java/com/gmail/walles/johan/cleverdrawer/DatabaseUtils.java:76-95 | every launchable's name becomes what `CachedName` says; only names change, so scores and the lowercase cache stay |
| DatabaseUtils.CollectTrueNames | app/src/main/java/com/gmail/walles/johan/cleverdrawer/DatabaseUtils.java:106-116 | the cache holds exactly the ids that have a true name, each mapped to the true name of its last launchable in the list |
| DatabaseUtils.NameCacheRoundTrip | app/src/test/java/com/gmail/walles/johan/cleverdrawer/DatabaseUtilsTest.java:42-61 | names cached from one set of launchables are restored onto fresh unnamed launchables with the same ids |
| StabilityUtils.GetNextGroup | app/src/main/java/com/gmail/walles/johan/cleverdrawer/StabilityUtils.java:137-160 | null only at the end of the source, otherwise the next 1 to 4 consecutive elements, with the position advanced past them |
| StabilityUtils.IndexById | app/src/main/java/com/gmail/walles/johan/cleverdrawer/StabilityUtils.java:117-135 | -1 exactly when no element has the id, otherwise the first position holding it |
| StabilityUtils.RemoveById | app/src/main/java/com/gmail/walles/johan/cleverdrawer/StabilityUtils.java:117-135 | removes and returns the first element with the id, leaving the others as a multiset; finds nothing and removes nothing when none has it |
| StabilityUtils.StabilizeGroup | app/src/main/java/com/gmail/walles/johan/cleverdrawer/StabilityUtils.java:94-115 | the group as `StabilizedGroup` specifies: old ids claim their slots, the rest fill the holes |
| StabilityUtils.GroupIsPermutation | app/src/main/java/com/gmail/walles/johan/cleverdrawer/StabilityUtils.java:94-115 | a stabilized group is a permutation of the group |
| StabilityUtils.GroupPutsBack | app/src/main/java/com/gmail/walles/johan/cleverdrawer/StabilityUtils.java:100-105 | a launchable whose id is the j-th old id of the group, not repeated before, lands in slot j |
| StabilityUtils.PlaceById | app/src/main/java/com/gmail/walles/johan/cleverdrawer/StabilityUtils.java:100-105 | the first loop writes, slot by slot, the launchable each old id removes from the group, and leaves the rest of the array empty |
| StabilityUtils.PlacementsKeepElements | app/src/main/java/com/gmail/walles/johan/cleverdrawer/StabilityUtils.java:100-105 | the claimed slots and the remaining launchables together are the group as a multiset |
| StabilityUtils.PlacementsKeepUnclaimed | app/src/main/java/com/gmail/walles/johan/cleverdrawer/StabilityUtils.java:100-105 | a launchable whose id is not among the old ids stays among the remaining ones |
| StabilityUtils.SlotHoldsItsId | app/src/main/java/com/gmail/walles/johan/cleverdrawer/StabilityUtils.java:100-105 | a filled slot holds a launchable with that slot's old id, and a first-seen id present in the group always fills its slot |
| StabilityUtils.FillBlanks | app/src/main/java/com/gmail/walles/johan/cleverdrawer/StabilityUtils.java:107-112 | the second loop fills the holes from the remaining launchables as `Fill` specifies |
| StabilityUtils.FillIsPermutation | app/src/main/java/com/gmail/walles/johan/cleverdrawer/StabilityUtils.java:107-112 | filling yields the claimed slots plus the remaining launchables, as a multiset |
| StabilityUtils.FillKeepsClaimed | app/src/main/java/com/gmail/walles/johan/cleverdrawer/StabilityUtils.java:107-112 | a claimed slot keeps its launchable |
| StabilityUtils.FillTakesInOrder | app/src/main/java/com/gmail/walles/johan/cleverdrawer/StabilityUtils.java:107-112 | the i-th hole takes the i-th remaining launchable, left to right |
| StabilityUtils.CopyRest | app/src/main/java/com/gmail/walles/johan/cleverdrawer/StabilityUtils.java:75-87 | copies the rest of the source after the current position, in order |
| StabilityUtils.Stabilize | app/src/main/java/com/gmail/walles/johan/cleverdrawer/StabilityUtils.java:58-92 | the result is `Stabilized`; it fails exactly on the overrun below; otherwise it is the corrected order and a permutation of the input |
| StabilityUtils.OverrunsExactly | app/src/main/java/com/gmail/walles/johan/cleverdrawer/StabilityUtils.java:98-105 | the slot array overruns exactly when the list length is not a multiple of 4 and the old order is longer than the list |
| StabilityUtils.OverrunExample | app/src/main/java/com/gmail/walles/johan/cleverdrawer/StabilityUtils.java:98-105 | six old ids and five launchables overrun; the corrected order still has five elements |
| StabilityUtils.AsWrittenAgreesWithFixed | app/src/main/java/com/gmail/walles/johan/cleverdrawer/StabilityUtils.java:58-115 | when the code as written does not overrun it equals the corrected order |
| StabilityUtils.StabilizedFixedIsPermutation | app/src/main/java/com/gmail/walles/johan/cleverdrawer/StabilityUtils.java:58-115 | the stabilized list is a permutation of the input: nothing dropped or duplicated |
| StabilityUtils.GroupsStayInPlace | app/src/main/java/com/gmail/walles/johan/cleverdrawer/StabilityUtils.java:58-92 | output group k is input group k stabilized against old-id group k, so swaps across a group boundary are not undone |
| StabilityUtils.GroupsKeepTheirMembers | app/src/main/java/com/gmail/walles/johan/cleverdrawer/StabilityUtils.java:58-92 | each output group holds the same launchables as the input group at its place |
| StabilityUtils.OldOrderRunsOut | app/src/main/java/com/gmail/walles/johan/cleverdrawer/StabilityUtils.java:75-87 | once the old order runs out, the rest of the list is copied in input order |
| StabilityUtils.RestoresOldOrder | app/src/main/java/com/gmail/walles/johan/cleverdrawer/StabilityUtils.java:58-115 | when the launchables are the old ones reshuffled within their groups, the old order comes back exactly |
| StabilityUtils.NoOldOrderNoChange | app/src/test/java/com/gmail/walles/johan/cleverdrawer/StabilityUtilsTest.java:119-163 | without an old order the list is unchanged; an empty list stays empty whatever the old order |
| StabilityUtils.TwoGroups | app/src/main/java/com/gmail/walles/johan/cleverdrawer/StabilityUtils.java:58-92 | a list of five to eight is its two groups, each stabilized against its own old ids |
| StabilityUtils.OneSwitchExample | app/src/test/java/com/gmail/walles/johan/cleverdrawer/StabilityUtilsTest.java:134-148 | a swap within a group is undone |
| StabilityUtils.CrossBoundarySwitchExample | app/src/test/java/com/gmail/walles/johan/cleverdrawer/StabilityUtilsTest.java:165-178 | a swap across the group boundary stays |
| StabilityUtils.NewAtStartExample | app/src/test/java/com/gmail/walles/johan/cleverdrawer/StabilityUtilsTest.java:180-193 | a newcomer at the front gives a,b,c,x,e,f,d |
| Uniquifier.TitleCaseAll | app/src/main/java/com/gmail/walles/johan/cleverdrawer/Uniquifier.java:268-275 | one title-cased word per word, in order |
| Uniquifier.TitleCaseIdempotent | app/src/main/java/com/gmail/walles/johan/cleverdrawer/Uniquifier.java:278-296 | title-casing twice is the same as once |
| Uniquifier.TitleCaseWord | app/src/main/java/com/gmail/walles/johan/cleverdrawer/Uniquifier.java:278-296 | a word without space characters gets its first character title-cased and the rest lowercased |
| Uniquifier.CamelPartsConcat | app/src/main/java/com/gmail/walles/johan/cleverdrawer/Uniquifier.java:201-234 | the camel-case parts concatenate to the input and are non-empty; "" gives one empty part |
| Uniquifier.CamelExamples | app/src/test/java/com/gmail/walles/johan/cleverdrawer/UniquifierTest.java:274-282 | "IAmAnABCBook" gives I, Am, An, ABC, Book and "WhoAmI" gives Who, Am, I |
| Uniquifier.CapitalisedWord | app/src/main/java/com/gmail/walles/johan/cleverdrawer/Uniquifier.java:201-234 | a word with no upper-case letter after the first is one part |
| Uniquifier.Acronym | app/src/main/java/com/gmail/walles/johan/cleverdrawer/Uniquifier.java:201-234 | a word whose letters after the first are all upper case is one part |
| Uniquifier.TokenizeFailsExactly | app/src/main/java/com/gmail/walles/johan/cleverdrawer/Uniquifier.java:241-258 | tokenizing fails exactly when a `$` comes before some `.` |
| Uniquifier.TokenizePlainName | app/src/main/java/com/gmail/walles/johan/cleverdrawer/Uniquifier.java:248-251 | a name without `.` or `$` is just camel-split |
| Uniquifier.TokenizeQualified | app/src/main/java/com/gmail/walles/johan/cleverdrawer/Uniquifier.java:242-251 | package segments are title-cased, then the class name is camel-split |
| Uniquifier.TokenizeInner | app/src/main/java/com/gmail/walles/johan/cleverdrawer/Uniquifier.java:248-255 | both sides of the `$` are camel-split, in order |
| Uniquifier.TokenizeNested | app/src/main/java/com/gmail/walles/johan/cleverdrawer/Uniquifier.java:241-258 | title-cased package segments, then the camel parts of the class and of the inner class |
| Uniquifier.AdamBertil | app/src/test/java/com/gmail/walles/johan/cleverdrawer/UniquifierTest.java:284-294 | the package "adam.bertil" gives Adam, Bertil |
| Uniquifier.CaesarDavid | app/src/test/java/com/gmail/walles/johan/cleverdrawer/UniquifierTest.java:284-294 | "Caesar" and "David" are one part each |
| Uniquifier.TokenizeBrokenExample | app/src/test/java/com/gmail/walles/johan/cleverdrawer/UniquifierTest.java:203-212 | ".$." fails to tokenize |
| Uniquifier.ExtractMatches | app/src/main/java/com/gmail/walles/johan/cleverdrawer/Uniquifier.java:44-46 | the inner-class pattern matches exactly the ids with a `$`; all three patterns match every id without a line terminator |
| Uniquifier.ExtractedTail | app/src/main/java/com/gmail/walles/johan/cleverdrawer/Uniquifier.java:44-46 | the text each pattern extracts is a tail of the id: after the last `$`, after the last `.`, or the whole id |
| Uniquifier.ExtractedTokenizes | app/src/main/java/com/gmail/walles/johan/cleverdrawer/Uniquifier.java:92-99 | what is extracted from a tokenizable id tokenizes too |
| Uniquifier.KeptIsJoin | app/src/main/java/com/gmail/walles/johan/cleverdrawer/Uniquifier.java:156-169 | the kept parts, in order, joined by single spaces; "" exactly when none is kept |
| Uniquifier.KeepOnlyNamedParts | app/src/main/java/com/gmail/walles/johan/cleverdrawer/Uniquifier.java:156-169 | fails when the string does not tokenize, otherwise returns the tokens in the set joined by spaces |
| Uniquifier.KeptExample | app/src/test/java/com/gmail/walles/johan/cleverdrawer/UniquifierTest.java:251-259 | keeping I, ABC, Book of "IAmAnABCBook" gives "I ABC Book" |
| Uniquifier.UniquifiedOwnParts | app/src/main/java/com/gmail/walles/johan/cleverdrawer/Uniquifier.java:171-199 | a string stays in a set exactly when no other set has it |
| Uniquifier.UniquifiedAreDisjoint | app/src/main/java/com/gmail/walles/johan/cleverdrawer/Uniquifier.java:171-199 | afterwards any two sets are disjoint |
| Uniquifier.CountParts | app/src/main/java/com/gmail/walles/johan/cleverdrawer/Uniquifier.java:172-183 | the count of each string is the number of sets that hold it, and only strings in some set are counted |
| Uniquifier.CountedTwice | app/src/main/java/com/gmail/walles/johan/cleverdrawer/Uniquifier.java:185-194 | the duplicates are exactly the strings counted more than once |
| Uniquifier.UniquifyParts | app/src/main/java/com/gmail/walles/johan/cleverdrawer/Uniquifier.java:171-199 | every set loses exactly the strings found in two or more of the original sets |
| Uniquifier.HasDuplicates | app/src/main/java/com/gmail/walles/johan/cleverdrawer/Uniquifier.java:140-154 | true exactly when two positions hold the same string |
| Uniquifier.NoRepeatsCount | app/src/main/java/com/gmail/walles/johan/cleverdrawer/Uniquifier.java:140-154 | no repeats exactly when the list has as many distinct strings as entries |
| Uniquifier.CollectedMembers | app/src/main/java/com/gmail/walles/johan/cleverdrawer/Uniquifier.java:85-102 | a completed first loop has one member per id, each the id's extracted class name and parts |
| Uniquifier.CollectedFails | app/src/main/java/com/gmail/walles/johan/cleverdrawer/Uniquifier.java:85-102 | the first loop completes exactly when every id matches and tokenizes; it gives up on an id that does not match, and crashes on one that does not tokenize |
| Uniquifier.CollectGroup | app/src/main/java/com/gmail/walles/johan/cleverdrawer/Uniquifier.java:85-102 | the class names and part sets the first loop builds are those of `Collected`, with the same give-up and crash cases |
| Uniquifier.DecoratorsOf | app/src/main/java/com/gmail/walles/johan/cleverdrawer/Uniquifier.java:108-116 | each decorator is what `keepOnlyNamedParts` keeps of its class name |
| Uniquifier.Rename | app/src/main/java/com/gmail/walles/johan/cleverdrawer/Uniquifier.java:123-135 | every member becomes the shared name with its decorator, unchanged for an empty decorator; only names change |
| Uniquifier.DecorateGroup | app/src/main/java/com/gmail/walles/johan/cleverdrawer/Uniquifier.java:81-121 | declines, crashes or completes exactly as `Attempt` does, with its decorators |
| Uniquifier.AttemptOutcome | app/src/main/java/com/gmail/walles/johan/cleverdrawer/Uniquifier.java:81-138 | a completed attempt renames with pairwise different decorators; it is declined only on an id that does not match or on equal decorators, empty ones included; it crashes only on an id that does not tokenize |
| Uniquifier.GroupPartsAreOwn | app/src/main/java/com/gmail/walles/johan/cleverdrawer/Uniquifier.java:99-105 | a member keeps exactly the tokens that no other member has |
| Uniquifier.NameWordsNeverDecorate | app/src/main/java/com/gmail/walles/johan/cleverdrawer/Uniquifier.java:82-83 | in a group of two or more, no word of the shared name reaches a decorator |
| Uniquifier.UniquifySameNamed | app/src/main/java/com/gmail/walles/johan/cleverdrawer/Uniquifier.java:81-138 | returns true and renames when the attempt completes; returns false and renames nothing when it is declined; throws and renames nothing when it crashes; only names change |
| Uniquifier.ExtractorsInOrder | app/src/main/java/com/gmail/walles/johan/cleverdrawer/Uniquifier.java:64-78 | the inner-class, class-name and whole-id patterns are tried in that order, and the first attempt not declined decides |
| Uniquifier.UniqueNameKept | app/src/main/java/com/gmail/walles/johan/cleverdrawer/Uniquifier.java:50-67 | a launchable whose name no other one carries keeps its name |
| Uniquifier.NewNameExtendsName | app/src/main/java/com/gmail/walles/johan/cleverdrawer/Uniquifier.java:123-135 | a new name always begins with the old one |
| Uniquifier.GroupSharesFate | app/src/main/java/com/gmail/walles/johan/cleverdrawer/Uniquifier.java:64-78 | launchables sharing a name are all renamed or, when their group crashes, none is |
| Uniquifier.NewNamesOfGroup | app/src/main/java/com/gmail/walles/johan/cleverdrawer/Uniquifier.java:50-79 | each launchable of a name group gets the name its group's outcome gives its rank |
| Uniquifier.Regrouped | app/src/main/java/com/gmail/walles/johan/cleverdrawer/Uniquifier.java:53-62 | one more round of the first loop keeps the map grouping every name seen, in list order |
| Uniquifier.NameMapGrouped | app/src/main/java/com/gmail/walles/johan/cleverdrawer/Uniquifier.java:51-62 | the name map lists, for every name, the launchables carrying it, in order |
| Uniquifier.GroupByName | app/src/main/java/com/gmail/walles/johan/cleverdrawer/Uniquifier.java:51-62 | resolves every name without changing it; fails exactly on a null name, otherwise returns the name map; only names change |
| Uniquifier.UniquifyGroup | app/src/main/java/com/gmail/walles/johan/cleverdrawer/Uniquifier.java:64-78 | a group is renamed as `GroupOutcome` says, kept when every pattern declines, and a crash is reported; only names change |
| Uniquifier.RenameGroup | app/src/main/java/com/gmail/walles/johan/cleverdrawer/Uniquifier.java:64-78 | one round of the second loop: the group joins the renamed ones, or the run stops with nothing of it changed; only names change |
| Uniquifier.RenameGroups | app/src/main/java/com/gmail/walles/johan/cleverdrawer/Uniquifier.java:64-78 | the second loop: the run succeeds exactly when every launchable has a new name, and then each holds it; a crash leaves every group fully renamed or untouched; only names change |
| Uniquifier.RenamedAfter | app/src/main/java/com/gmail/walles/johan/cleverdrawer/Uniquifier.java:64-78 | after a round the renamed groups hold their new names and the others their old ones |
| Uniquifier.Uniquify | app/src/main/java/com/gmail/walles/johan/cleverdrawer/Uniquifier.java:50-79 | a null name throws before anything is renamed; otherwise the run succeeds exactly when no group crashes, and every launchable then holds its new name; only names change, so scores and the lowercase cache stay |
| Uniquifier.AttemptCollision | app/src/main/java/com/gmail/walles/johan/cleverdrawer/Uniquifier.java:118-134 | "Q$ABC" and "Q$Abc", both named "X", both become "X (Abc)" |
| Uniquifier.DecoratedCollision | app/src/main/java/com/gmail/walles/johan/cleverdrawer/Uniquifier.java:118-134 | different decorators "ABC" and "Abc" decorate a name identically |
| Uniquifier.RepeatsOfRenamed | app/src/main/java/com/gmail/walles/johan/cleverdrawer/Uniquifier.java:118-134 | decorated names repeat exactly when the title-cased decorators do |
| Uniquifier.AttemptFixedNamesDistinct | app/src/main/java/com/gmail/walles/johan/cleverdrawer/Uniquifier.java:118-134 | with the duplicate check on title-cased decorators, a completed attempt gives every member a different name |
| Uniquifier.AttemptFixedAgrees | app/src/main/java/com/gmail/walles/johan/cleverdrawer/Uniquifier.java:81-138 | the corrected attempt differs from the code only where the code renames two members alike |
| Uniquifier.AttemptFixedDeclinesCollision | app/src/main/java/com/gmail/walles/johan/cleverdrawer/Uniquifier.java:118-121 | the corrected attempt declines the colliding group |
| Adapter.DropDuplicateIds | app/src/main/java/com/gmail/walles/johan/cleverdrawer/LaunchableAdapter.java:202-215 | keeps the first launchable of each id and drops the later ones, in order |
| Adapter.DropDuplicateIdsDistinct | app/src/main/java/com/gmail/walles/johan/cleverdrawer/LaunchableAdapter.java:202-215 | afterwards the ids are pairwise distinct |
| Adapter.DropDuplicateIdsKeepsFirsts | app/src/main/java/com/gmail/walles/johan/cleverdrawer/LaunchableAdapter.java:202-215 | exactly the first launchables of their ids stay, and every id keeps one launchable |
| Adapter.DropDuplicateIdsOfDistinct | app/src/main/java/com/gmail/walles/johan/cleverdrawer/LaunchableAdapter.java:202-215 | a list with distinct ids is left unchanged |
| Adapter.DropUnnamed | app/src/main/java/com/gmail/walles/johan/cleverdrawer/LaunchableAdapter.java:188-200 | a null name throws; otherwise the launchables with empty names and the power-mode dialog are dropped, and the rest keep their order; only names change |
| Adapter.DropUnnamedMembers | app/src/main/java/com/gmail/walles/johan/cleverdrawer/LaunchableAdapter.java:188-200 | a launchable stays exactly when its name is non-empty and it is not the power-mode dialog |
| Adapter.DropUnnamedKeepsNamed | app/src/main/java/com/gmail/walles/johan/cleverdrawer/LaunchableAdapter.java:188-200 | a list without such launchables is left unchanged |
| Adapter.FilterLaunchables | app/src/main/java/com/gmail/walles/johan/cleverdrawer/LaunchableAdapter.java:268-275 | the in-order sublist of the launchables whose name contains the search, ignoring case |
| Adapter.LaunchableAdapter.constructor | app/src/main/java/com/gmail/walles/johan/cleverdrawer/LaunchableAdapter.java:102-105 | the filtered list starts as the whole list |
| Adapter.LaunchableAdapter.SetFilter | app/src/main/java/com/gmail/walles/johan/cleverdrawer/LaunchableAdapter.java:264-280 | the filtered list becomes the matching sublist, also for an empty search; the whole list is never changed |
| Adapter.FilterMembers | app/src/main/java/com/gmail/walles/johan/cleverdrawer/LaunchableAdapter.java:264-280 | a launchable is shown exactly when its name contains the search, ignoring case |
| Adapter.EmptySearchShowsAll | app/src/main/java/com/gmail/walles/johan/cleverdrawer/LaunchableAdapter.java:264-267 | an empty search shows every launchable |
| Adapter.NarrowerSearchShowsLess | app/src/main/java/com/gmail/walles/johan/cleverdrawer/LaunchableAdapter.java:264-280 | whatever a longer search shows, a search it contains shows too |
| Timers.Timer.constructor | app/src/main/java/com/gmail/walles/johan/cleverdrawer/Timer.java:46-48 | the timer starts at the given time, without legs |
| Timers.Timer.AddLeg | app/src/main/java/com/gmail/walles/johan/cleverdrawer/Timer.java:50-55 | appends a leg stamped with the given time, after the earlier ones |
| Timers.Timer.ToString | app/src/main/java/com/gmail/walles/johan/cleverdrawer/Timer.java:57-98 | without legs only the total "<now - t0>ms"; otherwise the total, "ms = ", and every segment joined by " + " |
| Timers.LapPiecesSpellJoin | app/src/main/java/com/gmail/walles/johan/cleverdrawer/Timer.java:73-89 | what the loop appends is the lap texts joined by " + " |
| Timers.LapsShape | app/src/main/java/com/gmail/walles/johan/cleverdrawer/Timer.java:73-89 | one lap per leg: the first is "setup" from t0 to the first leg's start, and lap i carries leg i-1's name |
| Timers.BreakdownShape | app/src/main/java/com/gmail/walles/johan/cleverdrawer/Timer.java:69-95 | n legs give n + 1 segments; the last carries the last leg's name and measures up to now |
| Timers.LapsTelescope | app/src/main/java/com/gmail/walles/johan/cleverdrawer/Timer.java:73-89 | the lap durations sum to the last leg's start minus t0 |
| Timers.BreakdownTelescopes | app/src/main/java/com/gmail/walles/johan/cleverdrawer/Timer.java:69-97 | the segment durations sum to the total now - t0 |
| Timers.OneLegRendering | app/src/main/java/com/gmail/walles/johan/cleverdrawer/Timer.java:57-98 | with one leg: total, then "setup" up to the leg, then the leg up to now |
| Timers.DocumentedExample | app/src/main/java/com/gmail/walles/johan/cleverdrawer/Timer.java:57-58 | a leg "something else" begun at t0 + 13, rendered at t0 + 100, reads "100ms = 13ms setup + 87ms something else" |

## Left out

- File and JSON I/O are not modelled: the launch log, the name cache and the sort order file (`loadLaunches`, `saveLaunches`, `readIdToNameCache`, the Jackson write in `cacheTrueNames`, `storeOrder`, `loadIdOrder` with its temporary-file rename). The log, the cache and the old order are passed in and handed back.
- `System.currentTimeMillis` is not called; the time of every call is a parameter (`RegisterLaunch`, `Timer.constructor`, `AddLeg`, `ToString`).
- Android glue is not modelled: `LaunchableAdapter.loadLaunchables`, the contacts permission check, `IntentLaunchable`/`ContactLaunchable` loading through the package manager and the contacts cursor, `getIcon`, `AsyncSetImageDrawable`, `getView`, `getCount`, `getItem`, intents.
- `updateNamesCache` is not modelled because it runs `cacheTrueNames` on a background thread. The map it builds is `CollectTrueNames`.
- `logDuplicateNames` only logs and changes nothing, so it is not modelled.
- Timber logging is not modelled.
- `Collections.sort` of the launchables is not modelled; only the comparator it uses is (`CompareTo`, `CompareEntries`).
- Lowercasing, `Character.isUpperCase` and `Character.toTitleCase` are modelled by ASCII stand-ins, not by the locale's tables. `Character.isSpaceChar` uses the Unicode space separators. `\s` is Java's six ASCII whitespace characters.
- Doubles are modelled as exact `real`s; no part of the code depends on IEEE rounding.
- Timer durations are `long` in Java and unbounded integers here; a 64-bit overflow is not modelled.
- Uniquifier.Uniquify: the order in which `uniquify` visits the groups of its `HashMap` is left open, and the contract holds for every order. Which groups are already renamed when a crash stops the run depends on that order, so the contract only says each group is either fully renamed or untouched.
- The regression examples of UniquifierTest.java:94-201 are not proved one by one. Their ids are long, and the general lemmas about `Attempt` and `GroupOutcome` cover their mechanism.
- Launchables.Launchable.MatchesQuery: requires an intent launchable, because `matches(CaseInsensitiveQuery)` exists only in IntentLaunchable.java.
- Uniquifier.Uniquify: requires the launchables to be distinct objects (also `GroupByName` and `RenameGroups`). Java's `uniquify` accepts a list that holds one object twice and renames it twice. Its callers pass lists that `dropDuplicateIds` has already de-duplicated by id.
- `String.compareTo` and `String.hashCode` work on UTF-16 code units, but a Dafny `char` is a Unicode scalar value. `CompareStrings` and `HashCode` therefore differ from Java on characters outside the Basic Multilingual Plane.
- `dropDuplicateIds` and `dropUnnamed` remove entries in place through an iterator. `DropDuplicateIds` and `DropUnnamed` return a new list instead, so aliasing of the caller's list is not modelled; the order of the kept entries is.
- Adapter.LaunchableAdapter.SetFilter: requires every launchable to have a name. Without one, the `launchable.contains` it calls has no definition in these files.

## Findings

| source | as written | input that shows it | evidently intended | confidence | as-written member | corrected member |
|---|---|---|---|---|---|---|
| app/src/main/java/com/gmail/walles/johan/cleverdrawer/StabilityUtils.java:98-105 | the slot array has the size of the launchable group, but every id of the old-id group is written into it | old order a,b,c,d,e,f and launchables a,b,c,d,e (an app removed): the second groups are [e] and [e,f], and slot 1 of a one-element array is written | the old-id group is cut to the size of the launchable group | not executed | StabilityUtils.OverrunExample | StabilityUtils.StabilizedFixedIsPermutation |
| app/src/main/java/com/gmail/walles/johan/cleverdrawer/Uniquifier.java:118-134 | duplicates are checked on the raw decorators, but the names are built from their title-cased forms | ids "Q$ABC" and "Q$Abc", both named "X": the decorators "ABC" and "Abc" differ, and both names become "X (Abc)" | the check sees the decorators as they will appear, so no two members end with the same name | not executed | Uniquifier.AttemptCollision | Uniquifier.AttemptFixedNamesDistinct |
| app/src/main/java/com/gmail/walles/johan/cleverdrawer/Launchable.java:187-189 | `Double.compare(o.score, score)` unboxes scores that stay null until `setScore` is called | two launchables Ape and Zebra that were never launched, as in LaunchableTest.java:61-72: `compareTo` throws `NullPointerException` | an unscored launchable counts as score 1, as DatabaseUtils.java:184-186 says | not executed | Launchables.UnscoredComparison | Launchables.DefaultedIsAnOrder |

For the first finding, `Stabilize` returns nothing exactly on the overrun, which is where the Java code throws `ArrayIndexOutOfBoundsException` (`OverrunsExactly`). Everywhere else its result is `StabilizedFixed`, the corrected order (`AsWrittenAgreesWithFixed`).

For the second finding, `uniquify` itself is modelled as written, through `Attempt`. `AttemptFixed` is the corrected attempt. `AttemptFixedAgrees` proves that the two differ only on groups the code renames to two equal names.

For the third finding, `Launchable.CompareTo` is modelled as written (`CompareOutcome`). `CompareOutcomeDefaulted` is the corrected comparison, and `DefaultedAgreesWhenScored` proves that the two agree whenever both launchables are scored.
