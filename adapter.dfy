/**
  Model of the list cleaning and filtering in LaunchableAdapter.java:
  `dropDuplicateIds` and `dropUnnamed` remove launchables from the freshly
  loaded list while walking it, and `setFilter` rebuilds the list the
  drawer shows from the whole list and the search text.

  The Java methods remove elements through an iterator; here each walk
  builds the list of the launchables that stay, which is what the caller's
  list holds afterwards. Every one of the three is a filter of its input,
  so all three are specified by `Selected`, which keeps the launchables at
  the positions a flag marks.
*/
module Adapter {
  import opened Wrappers
  import opened Text
  import opened CaseInsensitives
  import opened Launchables

  // ---------------------------------------------------------------------
  // Keeping marked positions, in order
  // ---------------------------------------------------------------------

  /** The launchables at the positions `keep` marks, in their original order. */
  function Selected(ls: seq<Launchable>, keep: seq<bool>): (r: seq<Launchable>)
    requires |keep| == |ls|
    ensures |r| <= |ls|
    decreases |ls|
  {
    if |ls| == 0 then []
    else Selected(ls[..|ls| - 1], keep[..|ls| - 1]) + (if keep[|ls| - 1] then [ls[|ls| - 1]] else [])
  }

  /** A launchable is selected exactly when it sits at a marked position. */
  lemma {:induction false} SelectedMembers(ls: seq<Launchable>, keep: seq<bool>, x: Launchable)
    requires |keep| == |ls|
    ensures x in Selected(ls, keep) <==> exists i :: 0 <= i < |ls| && keep[i] && ls[i] == x
    decreases |ls|
  {
    if |ls| > 0 {
      var n := |ls| - 1;
      SelectedMembers(ls[..n], keep[..n], x);
      if x in Selected(ls[..n], keep[..n]) {
        var i :| 0 <= i < n && keep[..n][i] && ls[..n][i] == x;
        assert keep[i] && ls[i] == x;
      }
      if exists i :: 0 <= i < |ls| && keep[i] && ls[i] == x {
        var i :| 0 <= i < |ls| && keep[i] && ls[i] == x;
        if i < n {
          assert keep[..n][i] && ls[..n][i] == x;
        }
      }
    }
  }

  /** One more launchable is kept at the end exactly when it is marked. */
  lemma {:induction false} SelectedSnoc(ls: seq<Launchable>, keep: seq<bool>, x: Launchable, b: bool)
    requires |keep| == |ls|
    ensures Selected(ls + [x], keep + [b]) == Selected(ls, keep) + (if b then [x] else [])
  {
    assert (ls + [x])[..|ls|] == ls && (keep + [b])[..|ls|] == keep;
  }

  /** Walking one more position of `ls` keeps it exactly when it is marked. */
  lemma {:induction false} SelectedStep(ls: seq<Launchable>, i: nat, keep: seq<bool>, b: bool)
    requires i < |ls| && |keep| == i
    ensures Selected(ls[..i + 1], keep + [b]) == Selected(ls[..i], keep) + (if b then [ls[i]] else [])
  {
    assert ls[..i + 1] == ls[..i] + [ls[i]];
    SelectedSnoc(ls[..i], keep, ls[i], b);
  }

  /** Marking every position keeps the whole list. */
  lemma {:induction false} SelectedAll(ls: seq<Launchable>, keep: seq<bool>)
    requires |keep| == |ls| && forall i :: 0 <= i < |ls| ==> keep[i]
    ensures Selected(ls, keep) == ls
    decreases |ls|
  {
    if |ls| > 0 {
      var n := |ls| - 1;
      SelectedAll(ls[..n], keep[..n]);
      assert ls[..n] + [ls[n]] == ls;
    }
  }

  // ---------------------------------------------------------------------
  // dropDuplicateIds
  // ---------------------------------------------------------------------

  /** No launchable before position `i` has the id of the one at `i`. */
  predicate IsFirstOfId(ls: seq<Launchable>, i: nat)
    requires i < |ls|
  {
    forall k :: 0 <= k < i ==> ls[k].id != ls[i].id
  }

  /** The positions `dropDuplicateIds` keeps: the first one of each id. */
  function FirstOfEachId(ls: seq<Launchable>): (r: seq<bool>)
    ensures |r| == |ls| && forall i :: 0 <= i < |ls| ==> (r[i] <==> IsFirstOfId(ls, i))
  {
    seq(|ls|, i requires 0 <= i < |ls| => IsFirstOfId(ls, i))
  }

  /** The ids are pairwise distinct. */
  predicate IdsDistinct(ls: seq<Launchable>) {
    forall i, j :: 0 <= i < j < |ls| ==> ls[i].id != ls[j].id
  }

  /**
    `dropDuplicateIds`: walks the list remembering the ids seen so far and
    drops every launchable whose id was seen before.
  */
  method DropDuplicateIds(launchables: seq<Launchable>) returns (r: seq<Launchable>)
    ensures r == Selected(launchables, FirstOfEachId(launchables))
  {
    var seenIds: set<string> := {};
    r := [];
    var i := 0;
    while i < |launchables|
      invariant 0 <= i <= |launchables|
      invariant seenIds == set k | 0 <= k < i :: launchables[k].id
      invariant r == Selected(launchables[..i], FirstOfEachId(launchables)[..i])
    {
      var launchable := launchables[i];
      assert launchables[..i + 1][..i] == launchables[..i];
      assert FirstOfEachId(launchables)[..i + 1][..i] == FirstOfEachId(launchables)[..i];
      if launchable.id !in seenIds {
        r := r + [launchable];
      } else {
        ghost var k :| 0 <= k < i && launchables[k].id == launchable.id;
      }
      seenIds := seenIds + {launchable.id};
      i := i + 1;
    }
    assert launchables[..i] == launchables;
    assert FirstOfEachId(launchables)[..i] == FirstOfEachId(launchables);
  }

  /** Keeping only positions whose id has not occurred before gives pairwise distinct ids. */
  lemma {:induction false} SelectedFirstsAreDistinct(ls: seq<Launchable>, keep: seq<bool>)
    requires |keep| == |ls|
    requires forall i :: 0 <= i < |ls| && keep[i] ==> IsFirstOfId(ls, i)
    ensures IdsDistinct(Selected(ls, keep))
    decreases |ls|
  {
    if |ls| > 0 {
      var n := |ls| - 1;
      forall i | 0 <= i < n && keep[..n][i]
        ensures IsFirstOfId(ls[..n], i)
      {
        assert IsFirstOfId(ls, i);
      }
      SelectedFirstsAreDistinct(ls[..n], keep[..n]);
      var front := Selected(ls[..n], keep[..n]);
      if keep[n] {
        forall j | 0 <= j < |front|
          ensures front[j].id != ls[n].id
        {
          SelectedMembers(ls[..n], keep[..n], front[j]);
          var i :| 0 <= i < n && keep[..n][i] && ls[..n][i] == front[j];
          assert IsFirstOfId(ls, n);
        }
      }
    }
  }

  /** After `dropDuplicateIds` no two launchables share an id. */
  lemma {:induction false} DropDuplicateIdsDistinct(ls: seq<Launchable>)
    ensures IdsDistinct(Selected(ls, FirstOfEachId(ls)))
  {
    SelectedFirstsAreDistinct(ls, FirstOfEachId(ls));
  }

  /** Every id has a first launchable, at or before any launchable carrying it. */
  lemma {:induction false} FirstOfIdExists(ls: seq<Launchable>, i: nat)
    requires i < |ls|
    ensures exists f :: 0 <= f <= i && IsFirstOfId(ls, f) && ls[f].id == ls[i].id
    decreases i
  {
    if !IsFirstOfId(ls, i) {
      var k :| 0 <= k < i && ls[k].id == ls[i].id;
      FirstOfIdExists(ls, k);
    }
  }

  /**
    `dropDuplicateIds` keeps exactly the first launchable of each id: every
    id of the input survives, carried by its first launchable.
  */
  lemma {:induction false} DropDuplicateIdsKeepsFirsts(ls: seq<Launchable>, x: Launchable)
    ensures x in Selected(ls, FirstOfEachId(ls)) <==> exists i :: 0 <= i < |ls| && IsFirstOfId(ls, i) && ls[i] == x
    ensures forall i :: 0 <= i < |ls| ==> exists f :: 0 <= f <= i && ls[f].id == ls[i].id && ls[f] in Selected(ls, FirstOfEachId(ls))
  {
    SelectedMembers(ls, FirstOfEachId(ls), x);
    forall i | 0 <= i < |ls|
      ensures exists f :: 0 <= f <= i && ls[f].id == ls[i].id && ls[f] in Selected(ls, FirstOfEachId(ls))
    {
      FirstOfIdExists(ls, i);
      var f :| 0 <= f <= i && IsFirstOfId(ls, f) && ls[f].id == ls[i].id;
      SelectedMembers(ls, FirstOfEachId(ls), ls[f]);
    }
  }

  /** A list whose ids are already distinct comes through `dropDuplicateIds` unchanged. */
  lemma {:induction false} DropDuplicateIdsOfDistinct(ls: seq<Launchable>)
    requires IdsDistinct(ls)
    ensures Selected(ls, FirstOfEachId(ls)) == ls
  {
    SelectedAll(ls, FirstOfEachId(ls));
  }

  // ---------------------------------------------------------------------
  // dropUnnamed
  // ---------------------------------------------------------------------

  /** The Samsung activity that silently turns battery saving off, shown as "Battery". */
  const PowerModeChangeDialogId: string :=
    "com.android.settings.com.samsung.android.settings.powersaving.PowerModeChangeDialogActivity"

  /** The positions `dropUnnamed` keeps: a non-empty name, and not the power mode dialog. */
  function Shown(ids: seq<string>, names: seq<string>): (r: seq<bool>)
    requires |ids| == |names|
    ensures |r| == |names|
    ensures forall i :: 0 <= i < |names| ==> (r[i] <==> names[i] != "" && ids[i] != PowerModeChangeDialogId)
  {
    seq(|names|, i requires 0 <= i < |names| => names[i] != "" && ids[i] != PowerModeChangeDialogId)
  }

  /** Flags that follow the names and ids position by position are the ones `Shown` computes. */
  lemma {:induction false} ShownAll(ls: seq<Launchable>, names: seq<Option<string>>, shown: seq<bool>)
    requires |names| == |ls| && |shown| == |ls| && AllNamed(names)
    requires forall k :: 0 <= k < |ls| ==> (shown[k] <==> names[k].value != "" && ls[k].id != PowerModeChangeDialogId)
    ensures shown == Shown(Ids(ls), Values(names))
  {
  }

  /**
    `dropUnnamed`: asks every launchable for its name, in order, and drops
    the ones whose name is empty or whose id is the power mode dialog's. A
    launchable without any name makes `getName().isEmpty()` throw
    `NullPointerException`; the names asked for before that have been stored.
  */
  method DropUnnamed(launchables: seq<Launchable>) returns (r: Result<seq<Launchable>, Failure>)
    modifies launchables`name
    ensures ResolvedNames(launchables) == old(ResolvedNames(launchables))
    ensures r.Err? <==> !AllNamed(old(ResolvedNames(launchables)))
    ensures r.Err? ==> r.error == NullPointer
    ensures r.Ok? ==> CurrentNames(launchables) == old(ResolvedNames(launchables))
    ensures r.Ok? ==> r.value == Selected(launchables, Shown(Ids(launchables), Values(old(ResolvedNames(launchables)))))
  {
    ghost var names := ResolvedNames(launchables);
    ghost var shown: seq<bool> := [];
    var kept: seq<Launchable> := [];
    var i := 0;
    while i < |launchables|
      invariant 0 <= i <= |launchables|
      invariant ResolvedNames(launchables) == names
      invariant forall k :: 0 <= k < i ==> names[k].Some? && launchables[k].name == names[k]
      invariant |shown| == i && kept == Selected(launchables[..i], shown)
      invariant forall k :: 0 <= k < i ==> (shown[k] <==> names[k].value != "" && launchables[k].id != PowerModeChangeDialogId)
    {
      var launchable := launchables[i];
      var name := launchable.GetName();
      assert ResolvedNames(launchables) == names by {
        forall k | 0 <= k < |launchables|
          ensures launchables[k].ResolvedName() == names[k]
        {
        }
      }
      if name.None? {
        assert !AllNamed(names);
        return Err(NullPointer);
      }
      if name.value == "" {
      } else if launchable.id == PowerModeChangeDialogId {
      } else {
        kept := kept + [launchable];
      }
      ghost var keep := name.value != "" && launchable.id != PowerModeChangeDialogId;
      SelectedStep(launchables, i, shown, keep);
      shown := shown + [keep];
      i := i + 1;
    }
    assert launchables[..i] == launchables;
    ShownAll(launchables, names, shown);
    return Ok(kept);
  }

  /**
    A launchable survives `dropUnnamed` exactly when it has a non-empty
    name and is not the power mode dialog.
  */
  lemma {:induction false} DropUnnamedMembers(ls: seq<Launchable>, names: seq<string>, x: Launchable)
    requires |names| == |ls|
    ensures x in Selected(ls, Shown(Ids(ls), names)) <==>
      exists i :: 0 <= i < |ls| && ls[i] == x && names[i] != "" && ls[i].id != PowerModeChangeDialogId
  {
    SelectedMembers(ls, Shown(Ids(ls), names), x);
  }

  /** A list of named launchables without the power mode dialog comes through unchanged. */
  lemma {:induction false} DropUnnamedKeepsNamed(ls: seq<Launchable>, names: seq<string>)
    requires |names| == |ls|
    requires forall i :: 0 <= i < |ls| ==> names[i] != "" && ls[i].id != PowerModeChangeDialogId
    ensures Selected(ls, Shown(Ids(ls), names)) == ls
  {
    var shown := Shown(Ids(ls), names);
    assert forall i :: 0 <= i < |ls| ==> shown[i];
    SelectedAll(ls, shown);
  }

  // ---------------------------------------------------------------------
  // setFilter
  // ---------------------------------------------------------------------

  /**
    The positions `setFilter` keeps: the name contains the search, case
    ignored. Launchable.java's `contains` is not part of this model; it is
    taken to be the case-insensitive containment of its name.
  */
  function Matching(names: seq<string>, search: string): (r: seq<bool>)
    ensures |r| == |names|
    ensures forall i :: 0 <= i < |names| ==> (r[i] <==> ContainsIgnoringCase(names[i], search))
  {
    seq(|names|, i requires 0 <= i < |names| => ContainsIgnoringCase(names[i], search))
  }

  /**
    The loop of `setFilter`: the launchables, in order, whose name contains
    the search, case ignored.
  */
  method FilterLaunchables(ls: seq<Launchable>, search: string) returns (r: seq<Launchable>)
    requires AllNamed(ResolvedNames(ls))
    ensures r == Selected(ls, Matching(Values(ResolvedNames(ls)), search))
  {
    ghost var keep := Matching(Values(ResolvedNames(ls)), search);
    r := [];
    var i := 0;
    while i < |ls|
      invariant 0 <= i <= |ls|
      invariant r == Selected(ls[..i], keep[..i])
    {
      var launchable := ls[i];
      var matches := ContainsIgnoringCase(launchable.ResolvedName().value, search);
      assert matches == keep[i];
      assert keep[..i + 1] == keep[..i] + [keep[i]];
      SelectedStep(ls, i, keep[..i], matches);
      if matches {
        r := r + [launchable];
      }
      i := i + 1;
    }
    assert ls[..i] == ls && keep[..i] == keep;
  }

  class LaunchableAdapter {
    var allLaunchables: seq<Launchable>
    var filteredLaunchables: seq<Launchable>

    /** `reloadLaunchables` once the list is loaded: everything is shown. */
    constructor (launchables: seq<Launchable>)
      ensures allLaunchables == launchables && filteredLaunchables == launchables
    {
      allLaunchables := launchables;
      filteredLaunchables := launchables;
    }

    /**
      `setFilter`: the shown list becomes the launchables, in order, whose
      name contains the search. An empty search first shows everything and
      then still runs the loop, which keeps every launchable.
    */
    method SetFilter(search: string)
      requires AllNamed(ResolvedNames(allLaunchables))
      modifies this`filteredLaunchables
      ensures allLaunchables == old(allLaunchables)
      ensures filteredLaunchables == Selected(allLaunchables, Matching(Values(ResolvedNames(allLaunchables)), search))
    {
      if |search| == 0 {
        filteredLaunchables := allLaunchables;
      }
      var newFilteredList := FilterLaunchables(allLaunchables, search);
      filteredLaunchables := newFilteredList;
    }
  }

  /** A launchable is shown exactly when it is in the list and its name contains the search. */
  lemma {:induction false} FilterMembers(ls: seq<Launchable>, names: seq<string>, search: string, x: Launchable)
    requires |names| == |ls|
    ensures x in Selected(ls, Matching(names, search)) <==>
      exists i :: 0 <= i < |ls| && ls[i] == x && ContainsIgnoringCase(names[i], search)
  {
    SelectedMembers(ls, Matching(names, search), x);
  }

  /** The empty search shows the whole list, in order. */
  lemma {:induction false} EmptySearchShowsAll(ls: seq<Launchable>, names: seq<string>)
    requires |names| == |ls|
    ensures Selected(ls, Matching(names, "")) == ls
  {
    forall i | 0 <= i < |names|
      ensures ContainsIgnoringCase(names[i], "")
    {
      assert Lower("") == "";
      assert OccursAt("", Lower(names[i]), 0);
    }
    SelectedAll(ls, Matching(names, ""));
  }

  /**
    Typing more narrows the list: whatever a search shows is also shown for
    every search the first one contains (a prefix of it, for example).
  */
  lemma {:induction false} NarrowerSearchShowsLess(ls: seq<Launchable>, names: seq<string>, search: string, longer: string, x: Launchable)
    requires |names| == |ls|
    requires ContainsIgnoringCase(longer, search)
    requires x in Selected(ls, Matching(names, longer))
    ensures x in Selected(ls, Matching(names, search))
  {
    SelectedMembers(ls, Matching(names, longer), x);
    var i :| 0 <= i < |ls| && Matching(names, longer)[i] && ls[i] == x;
    ContainsTransitive(names[i], longer, search);
    SelectedMembers(ls, Matching(names, search), x);
  }
}
