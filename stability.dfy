/**
  Model of StabilityUtils.java: the freshly sorted launchables are walked
  in groups of four, side by side with the ids of the order shown last
  time, and inside each group every launchable whose id is in the old
  group is put back in its old slot; the other launchables fill the
  remaining slots in their new order.

  The model is generic in the element type: `idOf` gives an element's id,
  as `getId` does for a launchable. Reading and writing the order file are
  not modelled; the old order is passed in.
*/
module StabilityUtils {
  import opened Wrappers

  const GROUP_SIZE: nat := 4

  function Min(a: int, b: int): int {
    if a <= b then a else b
  }

  /** The first group of `s`: up to `GROUP_SIZE` elements. */
  function Take<E>(s: seq<E>): seq<E> {
    s[..Min(GROUP_SIZE, |s|)]
  }

  /** What follows the first group of `s`. */
  function Drop<E>(s: seq<E>): seq<E> {
    s[Min(GROUP_SIZE, |s|)..]
  }

  // ---------------------------------------------------------------------
  // getNextGroup
  // ---------------------------------------------------------------------

  /**
    `getNextGroup` on an iterator standing at `pos` in `source`: nothing
    once the iterator is used up, otherwise the next one to four elements.
    `next` is where the iterator stands afterwards.
  */
  method GetNextGroup<E>(source: seq<E>, pos: nat) returns (group: Option<seq<E>>, next: nat)
    requires pos <= |source|
    ensures group.None? <==> pos == |source|
    ensures group.None? ==> next == pos
    ensures group.Some? ==> 1 <= |group.value| <= GROUP_SIZE && next == pos + |group.value|
    ensures group.Some? ==> group.value == Take(source[pos..]) && source[next..] == Drop(source[pos..])
  {
    if pos == |source| {
      return None, pos;
    }
    var returnMe: seq<E> := [];
    next := pos;
    while true
      invariant pos <= next <= |source| && |returnMe| == next - pos <= GROUP_SIZE
      invariant returnMe == source[pos..next]
      decreases GROUP_SIZE - |returnMe|
    {
      if |returnMe| >= GROUP_SIZE || next == |source| {
        NextGroupAt(source, pos, next);
        return Some(returnMe), next;
      }
      returnMe := returnMe + [source[next]];
      next := next + 1;
    }
  }

  /** The elements from `pos` up to a full group or the end are the first group of what follows `pos`. */
  lemma {:induction false} NextGroupAt<E>(source: seq<E>, pos: nat, next: nat)
    requires pos < next <= |source| && next - pos <= GROUP_SIZE
    requires next - pos == GROUP_SIZE || next == |source|
    ensures source[pos..next] == Take(source[pos..]) && source[next..] == Drop(source[pos..])
  {
    assert Min(GROUP_SIZE, |source[pos..]|) == next - pos;
  }

  // ---------------------------------------------------------------------
  // removeById
  // ---------------------------------------------------------------------

  /** The index of the first element of `group` with the given id, or -1. */
  function IndexById<T>(group: seq<T>, idOf: T -> string, id: string): (k: int)
    ensures -1 <= k < |group|
    ensures k == -1 <==> forall i :: 0 <= i < |group| ==> idOf(group[i]) != id
    ensures k >= 0 ==> idOf(group[k]) == id && forall i :: 0 <= i < k ==> idOf(group[i]) != id
  {
    if |group| == 0 then -1
    else if idOf(group[0]) == id then 0
    else
      var k := IndexById(group[1..], idOf, id);
      if k == -1 then -1 else k + 1
  }

  /** What `removeById` returns and leaves behind. */
  function Removed<T>(group: seq<T>, idOf: T -> string, id: string): (Option<T>, seq<T>) {
    var k := IndexById(group, idOf, id);
    if k == -1 then (None, group) else (Some(group[k]), group[..k] + group[k + 1..])
  }

  /** `removeById`: takes the first element with the given id out of the group. */
  method RemoveById<T>(launchables: seq<T>, idOf: T -> string, id: string) returns (found: Option<T>, rest: seq<T>)
    ensures (found, rest) == Removed(launchables, idOf, id)
    ensures found.None? ==> rest == launchables
    ensures found.Some? ==> idOf(found.value) == id && multiset(rest) + multiset{found.value} == multiset(launchables)
  {
    var i := 0;
    while i < |launchables|
      invariant 0 <= i <= |launchables|
      invariant forall j :: 0 <= j < i ==> idOf(launchables[j]) != id
    {
      if idOf(launchables[i]) == id {
        assert launchables == launchables[..i] + [launchables[i]] + launchables[i + 1..];
        return Some(launchables[i]), launchables[..i] + launchables[i + 1..];
      }
      i := i + 1;
    }
    return None, launchables;
  }

  // ---------------------------------------------------------------------
  // stabilizeGroup
  // ---------------------------------------------------------------------

  /** The elements held by the filled slots. */
  function SlotValues<T>(slots: seq<Option<T>>): multiset<T> {
    if |slots| == 0 then multiset{}
    else SlotValues(slots[..|slots| - 1]) + (if slots[|slots| - 1].Some? then multiset{slots[|slots| - 1].value} else multiset{})
  }

  /** The number of empty slots. */
  function Holes<T>(slots: seq<Option<T>>): nat {
    if |slots| == 0 then 0
    else Holes(slots[..|slots| - 1]) + (if slots[|slots| - 1].None? then 1 else 0)
  }

  lemma {:induction false} HolesFront<T>(slots: seq<Option<T>>)
    requires |slots| > 0
    ensures Holes(slots) == (if slots[0].None? then 1 else 0) + Holes(slots[1..])
  {
    if |slots| > 1 {
      var init := slots[..|slots| - 1];
      HolesFront(init);
      assert init[1..] == slots[1..][..|slots[1..]| - 1];
    }
  }

  lemma {:induction false} HolesAppend<T>(slots: seq<Option<T>>, more: seq<Option<T>>)
    ensures Holes(slots + more) == Holes(slots) + Holes(more)
  {
    if |more| > 0 {
      var init := more[..|more| - 1];
      HolesAppend(slots, init);
      assert (slots + more)[..|slots + more| - 1] == slots + init;
    } else {
      assert slots + more == slots;
    }
  }

  /**
    The first loop of `stabilizeGroup`: for each old id in turn, the
    launchable with that id is taken out of the group and put in the slot
    of that id, or the slot stays empty. The result is the slots and the
    launchables left over.
  */
  function Placements<T>(group: seq<T>, ids: seq<string>, idOf: T -> string): (p: (seq<Option<T>>, seq<T>))
    ensures |p.0| == |ids|
    ensures |p.1| + |ids| == |group| + Holes(p.0)
  {
    if |ids| == 0 then ([], group)
    else
      var prev := Placements(group, ids[..|ids| - 1], idOf);
      var step := Removed(prev.1, idOf, ids[|ids| - 1]);
      RemovedTakesOne(prev.1, idOf, ids[|ids| - 1]);
      var slots := prev.0 + [step.0];
      assert slots[..|slots| - 1] == prev.0;
      (slots, step.1)
  }

  lemma {:induction false} RemovedTakesOne<T>(group: seq<T>, idOf: T -> string, id: string)
    ensures Removed(group, idOf, id).0.None? ==> Removed(group, idOf, id).1 == group
    ensures Removed(group, idOf, id).0.Some? ==>
      |Removed(group, idOf, id).1| + 1 == |group|
      && multiset(Removed(group, idOf, id).1) + multiset{Removed(group, idOf, id).0.value} == multiset(group)
  {
    var k := IndexById(group, idOf, id);
    if k != -1 {
      assert group == group[..k] + [group[k]] + group[k + 1..];
    }
  }

  /** The second loop of `stabilizeGroup`: the empty slots are filled from `rest`, left to right. */
  function Fill<T>(slots: seq<Option<T>>, rest: seq<T>): (r: seq<T>)
    requires Holes(slots) <= |rest|
    ensures |r| == |slots|
  {
    if |slots| == 0 then []
    else
      HolesFront(slots);
      if slots[0].Some? then [slots[0].value] + Fill(slots[1..], rest)
      else [rest[0]] + Fill(slots[1..], rest[1..])
  }

  /** `stabilizeGroup` for an id group no longer than the launchable group. */
  function StabilizedGroup<T>(group: seq<T>, ids: seq<string>, idOf: T -> string): (r: seq<T>)
    requires |ids| <= |group|
    ensures |r| == |group|
  {
    var p := Placements(group, ids, idOf);
    var empty: seq<Option<T>> := seq(|group| - |ids|, _ => None);
    assert Holes(p.0 + empty) == Holes(p.0) + |empty| by {
      EmptySlots(empty);
      HolesAppend(p.0, empty);
    }
    Fill(p.0 + empty, p.1)
  }

  lemma {:induction false} EmptySlots<T>(slots: seq<Option<T>>)
    requires forall i :: 0 <= i < |slots| ==> slots[i].None?
    ensures Holes(slots) == |slots| && SlotValues(slots) == multiset{}
  {
    if |slots| > 0 {
      var init := slots[..|slots| - 1];
      EmptySlots(init);
      assert slots == init + [None];
    }
  }

  /**
    `stabilizeGroup`: the slots are an array the size of the launchable
    group; the old ids claim their slots first, then the empty slots are
    filled from what is left. The id group must not be longer than the
    launchable group, or the first loop writes past the end of the array.
  */
  method StabilizeGroup<T>(launchableGroup: seq<T>, idGroup: seq<string>, idOf: T -> string) returns (r: seq<T>)
    requires |idGroup| <= |launchableGroup|
    ensures r == StabilizedGroup(launchableGroup, idGroup, idOf)
  {
    var stabilized := new Option<T>[|launchableGroup|](_ => None);
    var remaining := PlaceById(stabilized, launchableGroup, idGroup, idOf);
    ghost var p := Placements(launchableGroup, idGroup, idOf);
    ghost var empty: seq<Option<T>> := seq(|launchableGroup| - |idGroup|, _ => None);
    assert stabilized[..] == p.0 + empty;
    EmptySlots(empty);
    HolesAppend(p.0, empty);
    r := FillBlanks(stabilized, remaining);
  }

  /** The first loop of `stabilizeGroup`: each old id claims its slot. */
  method PlaceById<T>(stabilized: array<Option<T>>, launchableGroup: seq<T>, idGroup: seq<string>, idOf: T -> string)
    returns (remaining: seq<T>)
    requires |idGroup| <= stabilized.Length
    requires forall k :: 0 <= k < stabilized.Length ==> stabilized[k].None?
    modifies stabilized
    ensures stabilized[..|idGroup|] == Placements(launchableGroup, idGroup, idOf).0
    ensures remaining == Placements(launchableGroup, idGroup, idOf).1
    ensures forall k :: |idGroup| <= k < stabilized.Length ==> stabilized[k].None?
  {
    remaining := launchableGroup;
    var idIndex := 0;
    while idIndex < |idGroup|
      invariant 0 <= idIndex <= |idGroup|
      invariant stabilized[..idIndex] == Placements(launchableGroup, idGroup[..idIndex], idOf).0
      invariant remaining == Placements(launchableGroup, idGroup[..idIndex], idOf).1
      invariant forall k :: idIndex <= k < stabilized.Length ==> stabilized[k].None?
    {
      ghost var before := stabilized[..idIndex];
      PlacementsStep(launchableGroup, idGroup, idIndex, idOf);
      var found, rest := RemoveById(remaining, idOf, idGroup[idIndex]);
      stabilized[idIndex] := found;
      assert stabilized[..idIndex + 1] == before + [found];
      remaining := rest;
      idIndex := idIndex + 1;
    }
    assert idGroup[..idIndex] == idGroup;
  }

  /** Placing one more id takes its launchable out of what the earlier ids left. */
  lemma {:induction false} PlacementsStep<T>(group: seq<T>, ids: seq<string>, i: nat, idOf: T -> string)
    requires i < |ids|
    ensures var prev := Placements(group, ids[..i], idOf);
      var step := Removed(prev.1, idOf, ids[i]);
      Placements(group, ids[..i + 1], idOf) == (prev.0 + [step.0], step.1)
  {
    assert ids[..i + 1][..i] == ids[..i];
  }

  /** The second loop of `stabilizeGroup`: the empty slots are filled, left to right. */
  method FillBlanks<T>(stabilized: array<Option<T>>, remaining: seq<T>) returns (r: seq<T>)
    requires Holes(stabilized[..]) == |remaining|
    modifies stabilized
    ensures r == Fill(old(stabilized[..]), remaining)
  {
    ghost var slots := stabilized[..];
    var rest := remaining;
    r := [];
    var i := 0;
    while i < stabilized.Length
      invariant 0 <= i <= stabilized.Length
      invariant forall k :: i <= k < stabilized.Length ==> stabilized[k] == slots[k]
      invariant Holes(slots[i..]) == |rest|
      invariant r + Fill(slots[i..], rest) == Fill(slots, remaining)
    {
      FillAt(slots, i, rest);
      ghost var tail := Fill(slots[i..], rest);
      if stabilized[i].None? {
        stabilized[i] := Some(rest[0]);
        rest := rest[1..];
      }
      var launchable := stabilized[i].value;
      assert tail == [launchable] + Fill(slots[i + 1..], rest);
      AppendAssoc(r, [launchable], Fill(slots[i + 1..], rest));
      r := r + [launchable];
      i := i + 1;
    }
  }

  lemma {:induction false} AppendAssoc<T>(a: seq<T>, b: seq<T>, c: seq<T>)
    ensures (a + b) + c == a + (b + c)
  {
  }

  /** Filling from slot `i` on: that slot's launchable, or the first left over, then the rest. */
  lemma {:induction false} FillAt<T>(slots: seq<Option<T>>, i: nat, rest: seq<T>)
    requires i < |slots| && Holes(slots[i..]) == |rest|
    ensures slots[i].Some? ==>
      Holes(slots[i + 1..]) == |rest| && Fill(slots[i..], rest) == [slots[i].value] + Fill(slots[i + 1..], rest)
    ensures slots[i].None? ==>
      |rest| > 0 && Holes(slots[i + 1..]) == |rest| - 1 && Fill(slots[i..], rest) == [rest[0]] + Fill(slots[i + 1..], rest[1..])
  {
    FillFront(slots[i..], rest);
    assert slots[i..][1..] == slots[i + 1..];
  }

  lemma {:induction false} FillFront<T>(slots: seq<Option<T>>, rest: seq<T>)
    requires |slots| > 0 && Holes(slots) == |rest|
    ensures Holes(slots[1..]) == |rest| - (if slots[0].None? then 1 else 0)
    ensures slots[0].Some? ==> Fill(slots, rest) == [slots[0].value] + Fill(slots[1..], rest)
    ensures slots[0].None? ==> |rest| > 0 && Fill(slots, rest) == [rest[0]] + Fill(slots[1..], rest[1..])
  {
    HolesFront(slots);
  }

  // ---------------------------------------------------------------------
  // stabilize
  // ---------------------------------------------------------------------

  /**
    `stabilize` as written: `None` stands for the `ArrayIndexOutOfBoundsException`
    thrown when an old-id group is longer than its launchable group.
  */
  function Stabilized<T>(lastIds: seq<string>, ls: seq<T>, idOf: T -> string): Option<seq<T>>
    decreases |ls|
  {
    if |ls| == 0 then Some([])
    else if |lastIds| == 0 then Some(ls)
    else if |Take(lastIds)| > |Take(ls)| then None
    else
      match Stabilized(Drop(lastIds), Drop(ls), idOf)
      case None => None
      case Some(rest) => Some(StabilizedGroup(Take(ls), Take(lastIds), idOf) + rest)
  }

  /** When the as-written `stabilize` fails: the last launchable group is short and the old order is longer. */
  predicate Overruns(oldCount: nat, count: nat) {
    count % GROUP_SIZE != 0 && oldCount > count
  }

  /**
    `stabilize` as evidently intended: an old-id group longer than its
    launchable group only claims as many slots as there are.
  */
  function StabilizedFixed<T>(lastIds: seq<string>, ls: seq<T>, idOf: T -> string): (r: seq<T>)
    ensures |r| == |ls|
    decreases |ls|
  {
    if |ls| == 0 then []
    else if |lastIds| == 0 then ls
    else
      var ids := Take(lastIds);
      StabilizedGroup(Take(ls), ids[..Min(|ids|, |Take(ls)|)], idOf) + StabilizedFixed(Drop(lastIds), Drop(ls), idOf)
  }

  function Prepend<T>(prefix: seq<T>, o: Option<seq<T>>): Option<seq<T>> {
    match o
    case None => None
    case Some(s) => Some(prefix + s)
  }

  lemma {:induction false} PrependNothing<T>(o: Option<seq<T>>)
    ensures Prepend([], o) == o
  {
    if o.Some? {
      assert [] + o.value == o.value;
    }
  }

  lemma {:induction false} PrependTwice<T>(first: seq<T>, second: seq<T>, o: Option<seq<T>>)
    ensures Prepend(first, Prepend(second, o)) == Prepend(first + second, o)
  {
    if o.Some? {
      assert first + (second + o.value) == first + second + o.value;
    }
  }

  /** One step of `stabilize`: a group that fits is stabilized, and the rest follows. */
  lemma {:induction false} StabilizedUnfold<T>(lastIds: seq<string>, ls: seq<T>, idOf: T -> string)
    requires |ls| > 0 && |lastIds| > 0 && |Take(lastIds)| <= |Take(ls)|
    ensures Stabilized(lastIds, ls, idOf)
      == Prepend(StabilizedGroup(Take(ls), Take(lastIds), idOf), Stabilized(Drop(lastIds), Drop(ls), idOf))
  {
  }

  /** The copy loop at the end of `stabilize`, once the old ids have run out. */
  method CopyRest<T>(launchables: seq<T>, from: nat) returns (tail: seq<T>)
    requires from <= |launchables|
    ensures tail == launchables[from..]
  {
    tail := [];
    var source := from;
    while source < |launchables|
      invariant from <= source <= |launchables|
      invariant tail == launchables[from..source]
    {
      assert launchables[from..source + 1] == launchables[from..source] + [launchables[source]];
      tail := tail + [launchables[source]];
      source := source + 1;
    }
  }

  /**
    `stabilize`: the launchables and the old ids are walked in groups of
    four side by side; each group is stabilized against its old-id group
    until the old ids run out, after which the launchables are copied as
    they are.
  */
  method Stabilize<T>(lastOrderIds: seq<string>, launchables: seq<T>, idOf: T -> string) returns (r: Option<seq<T>>)
    ensures r == Stabilized(lastOrderIds, launchables, idOf)
    ensures r.None? <==> Overruns(|lastOrderIds|, |launchables|)
    ensures r.Some? ==> r.value == StabilizedFixed(lastOrderIds, launchables, idOf)
    ensures r.Some? ==> multiset(r.value) == multiset(launchables)
  {
    var stabilized: seq<T> := [];
    var source: nat := 0;
    var lastOrder: nat := 0;
    assert lastOrderIds[0..] == lastOrderIds && launchables[0..] == launchables;
    assert Prepend([], Stabilized(lastOrderIds, launchables, idOf)) == Stabilized(lastOrderIds, launchables, idOf) by {
      PrependNothing(Stabilized(lastOrderIds, launchables, idOf));
    }
    while true
      invariant source <= |launchables| && lastOrder <= |lastOrderIds|
      invariant Stabilized(lastOrderIds, launchables, idOf)
        == Prepend(stabilized, Stabilized(lastOrderIds[lastOrder..], launchables[source..], idOf))
      decreases |launchables| - source
    {
      ghost var restIds, rest := lastOrderIds[lastOrder..], launchables[source..];
      var launchableGroup, nextSource := GetNextGroup(launchables, source);
      var idGroup, nextLastOrder := GetNextGroup(lastOrderIds, lastOrder);
      if launchableGroup.None? {
        assert stabilized + [] == stabilized;
        r := Some(stabilized);
        break;
      }
      if idGroup.None? {
        var tail := CopyRest(launchables, source);
        assert Stabilized(restIds, rest, idOf) == Some(tail);
        r := Some(stabilized + tail);
        break;
      }
      if |idGroup.value| > |launchableGroup.value| {
        r := None;
        break;
      }
      var group := StabilizeGroup(launchableGroup.value, idGroup.value, idOf);
      StabilizedUnfold(restIds, rest, idOf);
      PrependTwice(stabilized, group, Stabilized(Drop(restIds), Drop(rest), idOf));
      stabilized := stabilized + group;
      source, lastOrder := nextSource, nextLastOrder;
    }
    OverrunsExactly(lastOrderIds, launchables, idOf);
    AsWrittenAgreesWithFixed(lastOrderIds, launchables, idOf);
    if r.Some? {
      StabilizedFixedIsPermutation(lastOrderIds, launchables, idOf);
    }
  }

  // ---------------------------------------------------------------------
  // Properties
  // ---------------------------------------------------------------------

  /** The as-written `stabilize` fails exactly when the last launchable group is short and the old order is longer. */
  lemma {:induction false} OverrunsExactly<T>(lastIds: seq<string>, ls: seq<T>, idOf: T -> string)
    ensures Stabilized(lastIds, ls, idOf).None? <==> Overruns(|lastIds|, |ls|)
    decreases |ls|
  {
    if |ls| > 0 && |lastIds| > 0 && |Take(lastIds)| <= |Take(ls)| {
      OverrunsExactly(Drop(lastIds), Drop(ls), idOf);
      if |ls| < GROUP_SIZE {
        assert |Drop(ls)| == 0;
      } else {
        assert |Drop(ls)| == |ls| - GROUP_SIZE;
        assert (|ls| - GROUP_SIZE) % GROUP_SIZE == |ls| % GROUP_SIZE;
        if |lastIds| >= GROUP_SIZE {
          assert |Drop(lastIds)| == |lastIds| - GROUP_SIZE;
        } else {
          assert |Drop(lastIds)| == 0;
        }
      }
    }
  }

  /** Whenever the as-written `stabilize` succeeds, it agrees with the corrected one. */
  lemma {:induction false} AsWrittenAgreesWithFixed<T>(lastIds: seq<string>, ls: seq<T>, idOf: T -> string)
    ensures Stabilized(lastIds, ls, idOf).Some? ==> Stabilized(lastIds, ls, idOf).value == StabilizedFixed(lastIds, ls, idOf)
    decreases |ls|
  {
    if |ls| > 0 && |lastIds| > 0 && |Take(lastIds)| <= |Take(ls)| {
      AsWrittenAgreesWithFixed(Drop(lastIds), Drop(ls), idOf);
      var ids := Take(lastIds);
      assert ids[..Min(|ids|, |Take(ls)|)] == ids;
    }
  }

  /** The Finding: six old ids and five launchables (one app removed) make the as-written `stabilize` fail. */
  lemma {:induction false} OverrunExample()
    ensures Stabilized(["a", "b", "c", "d", "e", "f"], ["a", "b", "c", "d", "e"], (s: string) => s).None?
    ensures |StabilizedFixed(["a", "b", "c", "d", "e", "f"], ["a", "b", "c", "d", "e"], (s: string) => s)| == 5
  {
    OverrunsExactly(["a", "b", "c", "d", "e", "f"], ["a", "b", "c", "d", "e"], (s: string) => s);
  }

  lemma {:induction false} FillIsPermutation<T>(slots: seq<Option<T>>, rest: seq<T>)
    requires Holes(slots) == |rest|
    ensures multiset(Fill(slots, rest)) == SlotValues(slots) + multiset(rest)
  {
    if |slots| > 0 {
      HolesFront(slots);
      if slots[0].Some? {
        FillIsPermutation(slots[1..], rest);
        FilledSlotKeeps(slots, rest);
      } else {
        FillIsPermutation(slots[1..], rest[1..]);
        EmptySlotTakes(slots, rest);
      }
    }
  }

  /** A filled first slot contributes its own launchable. */
  lemma {:induction false} FilledSlotKeeps<T>(slots: seq<Option<T>>, rest: seq<T>)
    requires |slots| > 0 && slots[0].Some? && Holes(slots) == |rest|
    requires Holes(slots[1..]) == |rest|
    requires multiset(Fill(slots[1..], rest)) == SlotValues(slots[1..]) + multiset(rest)
    ensures multiset(Fill(slots, rest)) == SlotValues(slots) + multiset(rest)
  {
    FillFront(slots, rest);
    SlotValuesFront(slots);
  }

  /** An empty first slot takes the first launchable left over. */
  lemma {:induction false} EmptySlotTakes<T>(slots: seq<Option<T>>, rest: seq<T>)
    requires |slots| > 0 && slots[0].None? && Holes(slots) == |rest|
    requires |rest| > 0 && Holes(slots[1..]) == |rest| - 1
    requires multiset(Fill(slots[1..], rest[1..])) == SlotValues(slots[1..]) + multiset(rest[1..])
    ensures multiset(Fill(slots, rest)) == SlotValues(slots) + multiset(rest)
  {
    FillFront(slots, rest);
    SlotValuesFront(slots);
    assert rest == [rest[0]] + rest[1..];
  }

  lemma {:induction false} SlotValuesFront<T>(slots: seq<Option<T>>)
    requires |slots| > 0
    ensures SlotValues(slots) == (if slots[0].Some? then multiset{slots[0].value} else multiset{}) + SlotValues(slots[1..])
  {
    if |slots| > 1 {
      var init := slots[..|slots| - 1];
      SlotValuesFront(init);
      assert init[1..] == slots[1..][..|slots[1..]| - 1];
    }
  }

  lemma {:induction false} SlotValuesAppend<T>(slots: seq<Option<T>>, more: seq<Option<T>>)
    requires forall i :: 0 <= i < |more| ==> more[i].None?
    ensures SlotValues(slots + more) == SlotValues(slots)
  {
    if |more| > 0 {
      var init := more[..|more| - 1];
      SlotValuesAppend(slots, init);
      assert (slots + more)[..|slots + more| - 1] == slots + init;
    } else {
      assert slots + more == slots;
    }
  }

  /** `stabilizeGroup` returns the launchables of the group, each once. */
  lemma {:induction false} GroupIsPermutation<T>(group: seq<T>, ids: seq<string>, idOf: T -> string)
    requires |ids| <= |group|
    ensures multiset(StabilizedGroup(group, ids, idOf)) == multiset(group)
  {
    var p := Placements(group, ids, idOf);
    var empty: seq<Option<T>> := seq(|group| - |ids|, _ => None);
    EmptySlots(empty);
    HolesAppend(p.0, empty);
    SlotValuesAppend(p.0, empty);
    PlacementsKeepElements(group, ids, idOf);
    FillIsPermutation(p.0 + empty, p.1);
  }

  /** Placing moves launchables from the group into slots: nothing is lost and nothing is added. */
  lemma {:induction false} PlacementsKeepElements<T>(group: seq<T>, ids: seq<string>, idOf: T -> string)
    ensures SlotValues(Placements(group, ids, idOf).0) + multiset(Placements(group, ids, idOf).1) == multiset(group)
    decreases |ids|
  {
    if |ids| > 0 {
      var n := |ids| - 1;
      PlacementsKeepElements(group, ids[..n], idOf);
      PlacementsStep(group, ids, n, idOf);
      assert ids[..n + 1] == ids;
      var prev := Placements(group, ids[..n], idOf);
      RemovedTakesOne(prev.1, idOf, ids[n]);
      var slots := Placements(group, ids, idOf).0;
      assert slots[..|slots| - 1] == prev.0;
    }
  }

  /** The output of `stabilize` (corrected) is a permutation of its input: nothing dropped, nothing repeated. */
  lemma {:induction false} StabilizedFixedIsPermutation<T>(lastIds: seq<string>, ls: seq<T>, idOf: T -> string)
    ensures multiset(StabilizedFixed(lastIds, ls, idOf)) == multiset(ls)
    decreases |ls|
  {
    if |ls| > 0 && |lastIds| > 0 {
      var ids := Take(lastIds);
      GroupIsPermutation(Take(ls), ids[..Min(|ids|, |Take(ls)|)], idOf);
      StabilizedFixedIsPermutation(Drop(lastIds), Drop(ls), idOf);
      assert ls == Take(ls) + Drop(ls);
    }
  }

  lemma {:induction false} RemovedKeepsOthers<T>(group: seq<T>, idOf: T -> string, id: string, y: T)
    requires y in group && idOf(y) != id
    ensures y in Removed(group, idOf, id).1
  {
    var k := IndexById(group, idOf, id);
    if k != -1 {
      var i :| 0 <= i < |group| && group[i] == y;
      if i < k {
        assert (group[..k] + group[k + 1..])[i] == y;
      } else {
        assert i != k;
        assert (group[..k] + group[k + 1..])[i - 1] == y;
      }
    }
  }

  /** A launchable whose id no old id names is left over for the empty slots. */
  lemma {:induction false} PlacementsKeepUnclaimed<T>(group: seq<T>, ids: seq<string>, idOf: T -> string, y: T)
    requires y in group && idOf(y) !in ids
    ensures y in Placements(group, ids, idOf).1
  {
    if |ids| > 0 {
      var init := ids[..|ids| - 1];
      PlacementsKeepUnclaimed(group, init, idOf, y);
      RemovedKeepsOthers(Placements(group, init, idOf).1, idOf, ids[|ids| - 1], y);
    }
  }

  /** The slots for a prefix of the old ids are a prefix of the slots. */
  lemma {:induction false} PlacementsPrefix<T>(group: seq<T>, ids: seq<string>, idOf: T -> string, n: nat)
    requires n <= |ids|
    ensures Placements(group, ids[..n], idOf).0 == Placements(group, ids, idOf).0[..n]
    decreases |ids|
  {
    if n < |ids| {
      var init := ids[..|ids| - 1];
      PlacementsPrefix(group, init, idOf, n);
      assert init[..n] == ids[..n];
    } else {
      assert ids[..n] == ids;
    }
  }

  /**
    Slot j is claimed by the old id at position j: a filled slot holds a
    launchable with that id, and the slot is filled whenever the group has
    such a launchable and the id is not repeated earlier in the old group.
  */
  lemma {:induction false} SlotHoldsItsId<T>(group: seq<T>, ids: seq<string>, idOf: T -> string, j: nat)
    requires j < |ids|
    ensures Placements(group, ids, idOf).0[j].Some? ==> idOf(Placements(group, ids, idOf).0[j].value) == ids[j]
    ensures ids[j] !in ids[..j] && (exists y :: y in group && idOf(y) == ids[j]) ==>
      Placements(group, ids, idOf).0[j].Some?
  {
    PlacementsPrefix(group, ids, idOf, j + 1);
    var init := ids[..j + 1][..j];
    assert init == ids[..j];
    var prev := Placements(group, init, idOf);
    var step := Removed(prev.1, idOf, ids[j]);
    assert Placements(group, ids[..j + 1], idOf).0 == prev.0 + [step.0];
    if ids[j] !in ids[..j] && (exists y :: y in group && idOf(y) == ids[j]) {
      var y :| y in group && idOf(y) == ids[j];
      PlacementsKeepUnclaimed(group, init, idOf, y);
    }
  }

  /** Filling leaves the claimed slots as they are. */
  lemma {:induction false} FillKeepsClaimed<T>(slots: seq<Option<T>>, rest: seq<T>, j: nat)
    requires Holes(slots) <= |rest| && j < |slots| && slots[j].Some?
    ensures Fill(slots, rest)[j] == slots[j].value
  {
    HolesFront(slots);
    if j > 0 {
      FillKeepsClaimed(slots[1..], if slots[0].Some? then rest else rest[1..], j - 1);
    }
  }

  /** The empty slots take the leftover launchables left to right, in their input order. */
  lemma {:induction false} FillTakesInOrder<T>(slots: seq<Option<T>>, rest: seq<T>, j: nat)
    requires Holes(slots) <= |rest| && j < |slots| && slots[j].None?
    ensures Holes(slots[..j]) < |rest| && Fill(slots, rest)[j] == rest[Holes(slots[..j])]
  {
    HolesFront(slots);
    if j == 0 {
      assert slots[..0] == [];
    } else {
      var tail := slots[1..];
      var rest' := if slots[0].Some? then rest else rest[1..];
      FillTakesInOrder(tail, rest', j - 1);
      assert slots[..j][1..] == tail[..j - 1];
      HolesFront(slots[..j]);
    }
  }

  /**
    Inside a group, the launchable named by the j-th old id (not repeated
    before it) comes out at position j: a swap inside a group is undone.
  */
  lemma {:induction false} GroupPutsBack<T>(group: seq<T>, ids: seq<string>, idOf: T -> string, j: nat)
    requires |ids| <= |group| && j < |ids|
    requires ids[j] !in ids[..j] && exists y :: y in group && idOf(y) == ids[j]
    ensures idOf(StabilizedGroup(group, ids, idOf)[j]) == ids[j]
  {
    var p := Placements(group, ids, idOf);
    var empty: seq<Option<T>> := seq(|group| - |ids|, _ => None);
    EmptySlots(empty);
    HolesAppend(p.0, empty);
    SlotHoldsItsId(group, ids, idOf, j);
    FillKeepsClaimed(p.0 + empty, p.1, j);
  }

  /** The k-th group of four of `s`; empty past the end. */
  function GroupAt<E>(s: seq<E>, k: nat): seq<E> {
    if GROUP_SIZE * k >= |s| then [] else s[GROUP_SIZE * k..Min(GROUP_SIZE * k + GROUP_SIZE, |s|)]
  }

  lemma {:induction false} GroupAtDrop<E>(s: seq<E>, k: nat)
    requires k > 0
    ensures GroupAt(Drop(s), k - 1) == GroupAt(s, k)
  {
  }

  lemma {:induction false} GroupAtAfter<E>(first: seq<E>, rest: seq<E>, k: nat)
    requires |first| == GROUP_SIZE && k > 0
    ensures GroupAt(first + rest, k) == GroupAt(rest, k - 1)
  {
    if GROUP_SIZE * k < |first + rest| {
      assert (first + rest)[GROUP_SIZE * k..Min(GROUP_SIZE * k + GROUP_SIZE, |first + rest|)]
        == rest[GROUP_SIZE * (k - 1)..Min(GROUP_SIZE * (k - 1) + GROUP_SIZE, |rest|)];
    }
  }

  /**
    Group locality: the k-th group of four of the output is the k-th group
    of the input stabilized against the k-th old-id group, or the k-th
    group unchanged once the old ids have run out. A swap across a group
    boundary is therefore never undone.
  */
  lemma {:induction false} GroupsStayInPlace<T>(lastIds: seq<string>, ls: seq<T>, idOf: T -> string, k: nat)
    requires GROUP_SIZE * k < |ls|
    ensures var ids := GroupAt(lastIds, k);
      var group := GroupAt(ls, k);
      GroupAt(StabilizedFixed(lastIds, ls, idOf), k)
        == if |ids| == 0 then group else StabilizedGroup(group, ids[..Min(|ids|, |group|)], idOf)
    decreases k
  {
    if |lastIds| == 0 {
      assert GroupAt(lastIds, k) == [];
    } else {
      var ids := Take(lastIds);
      var first := StabilizedGroup(Take(ls), ids[..Min(|ids|, |Take(ls)|)], idOf);
      var rest := StabilizedFixed(Drop(lastIds), Drop(ls), idOf);
      assert StabilizedFixed(lastIds, ls, idOf) == first + rest;
      if k == 0 {
        assert GroupAt(first + rest, 0) == first;
      } else {
        GroupsStayInPlace(Drop(lastIds), Drop(ls), idOf, k - 1);
        GroupAtAfter(first, rest, k);
        GroupAtDrop(ls, k);
        GroupAtDrop(lastIds, k);
      }
    }
  }

  /** No id occurs twice. */
  predicate DistinctIds(ids: seq<string>) {
    forall i, j :: 0 <= i < j < |ids| ==> ids[i] != ids[j]
  }

  /**
    The launchables are the ones of the old order, re-sorted only inside
    groups of four: every old id has its launchable in the same group.
  */
  ghost predicate RegroupedOnly<T>(ids: seq<string>, ls: seq<T>, idOf: T -> string) {
    |ids| == |ls| && forall j :: 0 <= j < |ids| ==> InItsGroup(ids, ls, idOf, j)
  }

  /** The launchable with the j-th old id is in the j-th id's group of four. */
  ghost predicate InItsGroup<T>(ids: seq<string>, ls: seq<T>, idOf: T -> string, j: nat)
    requires j < |ids|
  {
    exists y :: y in GroupAt(ls, j / GROUP_SIZE) && idOf(y) == ids[j]
  }

  /**
    When the launchables were only re-sorted inside their groups, `stabilize`
    restores the old order exactly: the swaps inside a group are undone.
  */
  lemma {:induction false} RestoresOldOrder<T>(ids: seq<string>, ls: seq<T>, idOf: T -> string)
    requires DistinctIds(ids) && RegroupedOnly(ids, ls, idOf)
    ensures Stabilized(ids, ls, idOf).Some?
    ensures var out := Stabilized(ids, ls, idOf).value;
      |out| == |ls| && forall j :: 0 <= j < |out| ==> idOf(out[j]) == ids[j]
    decreases |ls|
  {
    if |ls| > 0 {
      StabilizedUnfold(ids, ls, idOf);
      FirstGroupRestored(ids, ls, idOf);
      RegroupedRest(ids, ls, idOf);
      RestoresOldOrder(Drop(ids), Drop(ls), idOf);
      var first := StabilizedGroup(Take(ls), Take(ids), idOf);
      var rest := Stabilized(Drop(ids), Drop(ls), idOf).value;
      forall j | 0 <= j < |first + rest|
        ensures idOf((first + rest)[j]) == ids[j]
      {
        if j >= |first| {
          assert (first + rest)[j] == rest[j - |first|];
        }
      }
    }
  }

  lemma {:induction false} FirstGroupRestored<T>(ids: seq<string>, ls: seq<T>, idOf: T -> string)
    requires DistinctIds(ids) && RegroupedOnly(ids, ls, idOf) && |ls| > 0
    ensures forall j :: 0 <= j < |Take(ids)| ==> idOf(StabilizedGroup(Take(ls), Take(ids), idOf)[j]) == ids[j]
  {
    forall j | 0 <= j < |Take(ids)|
      ensures idOf(StabilizedGroup(Take(ls), Take(ids), idOf)[j]) == ids[j]
    {
      assert j / GROUP_SIZE == 0;
      GroupAtZero(ls);
      assert InItsGroup(ids, ls, idOf, j);
      assert Take(ids)[j] !in Take(ids)[..j] by {
        forall i | 0 <= i < j
          ensures Take(ids)[..j][i] != ids[j]
        {
          assert ids[i] != ids[j];
        }
      }
      GroupPutsBack(Take(ls), Take(ids), idOf, j);
    }
  }

  lemma {:induction false} RegroupedRest<T>(ids: seq<string>, ls: seq<T>, idOf: T -> string)
    requires DistinctIds(ids) && RegroupedOnly(ids, ls, idOf)
    ensures DistinctIds(Drop(ids)) && RegroupedOnly(Drop(ids), Drop(ls), idOf)
  {
    assert |Drop(ids)| == |Drop(ls)|;
    forall j | 0 <= j < |Drop(ids)|
      ensures InItsGroup(Drop(ids), Drop(ls), idOf, j)
    {
      var j' := j + GROUP_SIZE;
      assert Drop(ids)[j] == ids[j'];
      assert j' / GROUP_SIZE == j / GROUP_SIZE + 1;
      GroupAtDrop(ls, j' / GROUP_SIZE);
      assert InItsGroup(ids, ls, idOf, j');
      var y :| y in GroupAt(ls, j' / GROUP_SIZE) && idOf(y) == ids[j'];
      assert y in GroupAt(Drop(ls), j / GROUP_SIZE);
    }
    DistinctRest(ids);
  }

  lemma {:induction false} DistinctRest(ids: seq<string>)
    requires DistinctIds(ids)
    ensures DistinctIds(Drop(ids))
  {
    if |ids| > GROUP_SIZE {
      assert Drop(ids) == ids[GROUP_SIZE..];
      forall i, k | 0 <= i < k < |Drop(ids)|
        ensures Drop(ids)[i] != Drop(ids)[k]
      {
        assert ids[i + GROUP_SIZE] != ids[k + GROUP_SIZE];
      }
    }
  }

  lemma {:induction false} GroupAtZero<E>(s: seq<E>)
    requires |s| > 0
    ensures GroupAt(s, 0) == Take(s)
  {
  }

  /** Each group of four of the output holds exactly the launchables of that group of the input. */
  lemma {:induction false} GroupsKeepTheirMembers<T>(lastIds: seq<string>, ls: seq<T>, idOf: T -> string, k: nat)
    requires GROUP_SIZE * k < |ls|
    ensures multiset(GroupAt(StabilizedFixed(lastIds, ls, idOf), k)) == multiset(GroupAt(ls, k))
  {
    GroupsStayInPlace(lastIds, ls, idOf, k);
    var ids := GroupAt(lastIds, k);
    var group := GroupAt(ls, k);
    if |ids| > 0 {
      GroupIsPermutation(group, ids[..Min(|ids|, |group|)], idOf);
    }
  }

  /**
    Once the old order has run out, at the end of group k, everything from
    group k on is copied as it is, in input order.
  */
  lemma {:induction false} OldOrderRunsOut<T>(lastIds: seq<string>, ls: seq<T>, idOf: T -> string, k: nat)
    requires |lastIds| <= GROUP_SIZE * k <= |ls|
    ensures StabilizedFixed(lastIds, ls, idOf)[GROUP_SIZE * k..] == ls[GROUP_SIZE * k..]
  {
    if k > 0 && |lastIds| > 0 {
      OldOrderRunsOut(Drop(lastIds), Drop(ls), idOf, k - 1);
      var ids := Take(lastIds);
      var first := StabilizedGroup(Take(ls), ids[..Min(|ids|, |Take(ls)|)], idOf);
      var rest := StabilizedFixed(Drop(lastIds), Drop(ls), idOf);
      assert (first + rest)[GROUP_SIZE * k..] == rest[GROUP_SIZE * (k - 1)..];
    }
  }

  /** Without an old order the launchables are returned as they are; without launchables nothing is returned. */
  lemma {:induction false} NoOldOrderNoChange<T>(lastIds: seq<string>, ls: seq<T>, idOf: T -> string)
    ensures Stabilized([], ls, idOf) == Some(ls)
    ensures Stabilized(lastIds, [], idOf) == Some([])
  {
  }

  /** Launchables identified by their own text, as in the launcher's test cases. */
  function Itself(s: string): string {
    s
  }

  /** A permutation of `w` that agrees with `w` everywhere but at one position is `w`. */
  lemma {:induction false} AllButOne<T>(out: seq<T>, w: seq<T>, i: nat)
    requires |out| == |w| && i < |w| && multiset(out) == multiset(w)
    requires forall j :: 0 <= j < |w| && j != i ==> out[j] == w[j]
    ensures out == w
  {
    assert out[..i] == w[..i];
    assert out[i + 1..] == w[i + 1..];
    assert out == out[..i] + [out[i]] + out[i + 1..];
    assert w == w[..i] + [w[i]] + w[i + 1..];
    assert multiset(out) == multiset(out[..i]) + multiset([out[i]]) + multiset(out[i + 1..]);
    assert multiset(w) == multiset(w[..i]) + multiset([w[i]]) + multiset(w[i + 1..]);
    var v := w[i];
    assert multiset(out)[v] == multiset(out[..i])[v] + multiset([out[i]])[v] + multiset(out[i + 1..])[v];
    assert multiset(w)[v] == multiset(w[..i])[v] + multiset([v])[v] + multiset(w[i + 1..])[v];
    assert multiset([out[i]])[v] == 1;
  }

  /** The launchable with the j-th old id comes out at position j of its group. */
  lemma {:induction false} PutsBack(group: seq<string>, ids: seq<string>, j: nat)
    requires |ids| <= |group| && j < |ids|
    requires ids[j] !in ids[..j] && ids[j] in group
    ensures StabilizedGroup(group, ids, Itself)[j] == ids[j]
  {
    assert Itself(ids[j]) == ids[j];
    GroupPutsBack(group, ids, Itself, j);
  }

  /** Old ids that are distinct and all present come back, in order, at the front of the group. */
  lemma {:induction false} OldIdsBack(group: seq<string>, ids: seq<string>, kept: nat)
    requires |ids| <= |group| && kept <= |ids|
    requires forall j :: 0 <= j < kept ==> ids[j] in group
    requires forall i, j :: 0 <= i < j < kept ==> ids[i] != ids[j]
    ensures StabilizedGroup(group, ids, Itself)[..kept] == ids[..kept]
  {
    var out := StabilizedGroup(group, ids, Itself);
    forall j | 0 <= j < kept
      ensures out[j] == ids[j]
    {
      assert ids[j] !in ids[..j] by {
        forall i | 0 <= i < j
          ensures ids[..j][i] != ids[j]
        {
          assert ids[..j][i] == ids[i];
        }
      }
      PutsBack(group, ids, j);
    }
  }

  /** Two sequences with the same elements that agree everywhere but at the end are equal. */
  lemma {:induction false} SameButLast<T>(out: seq<T>, w: seq<T>)
    requires |out| == |w| > 0 && multiset(out) == multiset(w)
    requires out[..|w| - 1] == w[..|w| - 1]
    ensures out == w
  {
    forall j | 0 <= j < |w| && j != |w| - 1
      ensures out[j] == w[j]
    {
      assert out[..|w| - 1][j] == w[..|w| - 1][j];
    }
    AllButOne(out, w, |w| - 1);
  }

  /**
    A group whose old ids all come back but the last one, and whose one remaining
    launchable is w's last element, comes out as w.
  */
  lemma {:induction false} LastSlotLeft(group: seq<string>, ids: seq<string>, w: seq<string>)
    requires |ids| == |group| == |w| > 0 && multiset(group) == multiset(w)
    requires forall j :: 0 <= j < |w| - 1 ==> ids[j] in group && w[j] == ids[j]
    requires forall i, j :: 0 <= i < j < |w| - 1 ==> ids[i] != ids[j]
    ensures StabilizedGroup(group, ids, Itself) == w
  {
    var out := StabilizedGroup(group, ids, Itself);
    OldIdsBack(group, ids, |w| - 1);
    GroupIsPermutation(group, ids, Itself);
    assert ids[..|w| - 1] == w[..|w| - 1];
    SameButLast(out, w);
  }

  /** A new launchable takes the slot that the last old id of the group leaves empty. */
  lemma {:induction false} NewcomerGroup(a: string, b: string, c: string, d: string, x: string)
    requires a != b && a != c && b != c && x != a && x != b && x != c && d != x
    ensures StabilizedGroup([x, a, b, c], [a, b, c, d], Itself) == [a, b, c, x]
  {
    var group := [x, a, b, c];
    RotatedMultiset(group);
    assert group[1..] + [group[0]] == [a, b, c, x];
    LastSlotLeft(group, [a, b, c, d], [a, b, c, x]);
  }

  /** The launchable pushed out of the group before lands after the rest of this group. */
  lemma {:induction false} PushedOutGroup(d: string, e: string, f: string)
    requires d != e && d != f && e != f
    ensures StabilizedGroup([d, e, f], [e, f], Itself) == [e, f, d]
  {
    var group, ids := [d, e, f], [e, f];
    var out := StabilizedGroup(group, ids, Itself);
    OldIdsBack(group, ids, 2);
    RotatedMultiset(group);
    assert group[1..] + [group[0]] == [e, f, d];
    GroupIsPermutation(group, ids, Itself);
    assert out[..2] == [e, f, d][..2];
    SameButLast(out, [e, f, d]);
  }

  /** Moving the first element to the end keeps the elements. */
  lemma RotatedMultiset<T>(s: seq<T>)
    requires |s| > 0
    ensures multiset(s[1..] + [s[0]]) == multiset(s)
  {
    assert s == [s[0]] + s[1..];
  }

  /** A launchable that moved into a group from the next one keeps the slot its old id leaves empty. */
  lemma {:induction false} CrossedFirstGroup(a: string, b: string, c: string, d: string, e: string)
    requires a != b && a != c && b != c && e != a && e != b && e != c && d != e
    ensures StabilizedGroup([a, b, c, e], [a, b, c, d], Itself) == [a, b, c, e]
  {
    LastSlotLeft([a, b, c, e], [a, b, c, d], [a, b, c, e]);
  }

  /** A launchable that moved into a group from the one before stays in front of the one whose id it took. */
  lemma {:induction false} CrossedSecondGroup(d: string, e: string, f: string)
    requires d != e && d != f && e != f
    ensures StabilizedGroup([d, f], [e, f], Itself) == [d, f]
  {
    var group, ids := [d, f], [e, f];
    var out := StabilizedGroup(group, ids, Itself);
    assert out[1] == f by { assert ids[..1] == [e]; PutsBack(group, ids, 1); }
    assert multiset(out) == multiset(group) by { GroupIsPermutation(group, ids, Itself); }
    AllButOne(out, group, 0);
  }

  /** `stabilize` on up to eight launchables and old ids: the two groups are stabilized one after the other. */
  lemma {:induction false} TwoGroups(lastIds: seq<string>, ls: seq<string>)
    requires 4 < |lastIds| <= 8 && 4 < |ls| <= 8 && |lastIds| - 4 <= |ls| - 4
    ensures Stabilized(lastIds, ls, Itself)
         == Some(StabilizedGroup(ls[..4], lastIds[..4], Itself) + StabilizedGroup(ls[4..], lastIds[4..], Itself))
  {
    var ls2, ids2 := ls[4..], lastIds[4..];
    assert Take(ls) == ls[..4] && Drop(ls) == ls2 && Take(lastIds) == lastIds[..4] && Drop(lastIds) == ids2;
    assert Take(ls2) == ls2 && Drop(ls2) == [] && Take(ids2) == ids2 && Drop(ids2) == [];
    StabilizedUnfold(ids2, ls2, Itself);
    assert Stabilized(ids2, ls2, Itself) == Some(StabilizedGroup(ls2, ids2, Itself) + []);
    assert StabilizedGroup(ls2, ids2, Itself) + [] == StabilizedGroup(ls2, ids2, Itself);
    StabilizedUnfold(lastIds, ls, Itself);
  }

  /** Six launchables with distinct ids, as in the launcher's test cases. */
  predicate SixDistinct(a: string, b: string, c: string, d: string, e: string, f: string) {
    DistinctIds([a, b, c, d, e, f])
  }

  /** A swap inside one group of four is undone. */
  lemma {:induction false} OneSwitchExample(a: string, b: string, c: string, d: string, e: string, f: string)
    requires SixDistinct(a, b, c, d, e, f)
    ensures Stabilized([a, b, c, d, e, f], [a, c, b, d, e, f], Itself) == Some([a, b, c, d, e, f])
  {
    var ids, ls := [a, b, c, d, e, f], [a, c, b, d, e, f];
    assert RegroupedOnly(ids, ls, Itself) by {
      assert GroupAt(ls, 0) == [a, c, b, d] && GroupAt(ls, 1) == [e, f];
      forall j | 0 <= j < |ids|
        ensures InItsGroup(ids, ls, Itself, j)
      {
        assert Itself(ids[j]) == ids[j] && ids[j] in GroupAt(ls, j / GROUP_SIZE);
      }
    }
    RestoresOldOrder(ids, ls, Itself);
    var out := Stabilized(ids, ls, Itself).value;
    assert forall j :: 0 <= j < |out| ==> out[j] == ids[j];
    assert out == ids;
  }

  /** A swap across two groups of four is left as it is. */
  lemma {:induction false} CrossBoundarySwitchExample(a: string, b: string, c: string, d: string, e: string, f: string)
    requires SixDistinct(a, b, c, d, e, f)
    ensures Stabilized([a, b, c, d, e, f], [a, b, c, e, d, f], Itself) == Some([a, b, c, e, d, f])
  {
    var ids, ls := [a, b, c, d, e, f], [a, b, c, e, d, f];
    var ids0 := ids;
    assert ids0[0] != ids0[1] && ids0[0] != ids0[2] && ids0[1] != ids0[2] && ids0[4] != ids0[0];
    assert ids0[4] != ids0[1] && ids0[4] != ids0[2] && ids0[3] != ids0[4] && ids0[3] != ids0[5] && ids0[4] != ids0[5];
    TwoGroups(ids, ls);
    assert ids[..4] == [a, b, c, d] && ids[4..] == [e, f];
    assert ls[..4] == [a, b, c, e] && ls[4..] == [d, f];
    CrossedFirstGroup(a, b, c, d, e);
    CrossedSecondGroup(d, e, f);
    assert [a, b, c, e] + [d, f] == ls;
  }

  /**
    A new launchable at the front pushes the others one place on: the new one
    takes the free slot of the first group, and the launchable pushed out of
    the first group lands after the rest of the second.
  */
  lemma {:induction false} NewAtStartExample(a: string, b: string, c: string, d: string, e: string, f: string, x: string)
    requires SixDistinct(a, b, c, d, e, f) && x !in [a, b, c, d, e, f]
    ensures Stabilized([a, b, c, d, e, f], [x, a, b, c, d, e, f], Itself) == Some([a, b, c, x, e, f, d])
  {
    var ids, ls := [a, b, c, d, e, f], [x, a, b, c, d, e, f];
    var ids0 := ids;
    assert ids0[0] != ids0[1] && ids0[0] != ids0[2] && ids0[1] != ids0[2];
    assert ids0[3] != ids0[4] && ids0[3] != ids0[5] && ids0[4] != ids0[5];
    assert x != ids0[0] && x != ids0[1] && x != ids0[2] && x != ids0[3];
    TwoGroups(ids, ls);
    assert ids[..4] == [a, b, c, d] && ids[4..] == [e, f];
    assert ls[..4] == [x, a, b, c] && ls[4..] == [d, e, f];
    NewcomerGroup(a, b, c, d, x);
    PushedOutGroup(d, e, f);
    assert [a, b, c, x] + [e, f, d] == [a, b, c, x, e, f, d];
  }
}
