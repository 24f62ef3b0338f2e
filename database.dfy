/**
  Model of the list logic of DatabaseUtils.java: the launch log with its
  ceiling, the scores computed from the most recent launches, and the
  id-to-name cache. Reading and writing the JSON files is not modelled:
  the launch log and the cache are passed in and handed back.
*/
module DatabaseUtils {
  import opened Wrappers
  import opened Launchables

  /** One entry of the launch log: which id was launched, and when (milliseconds since the epoch). */
  datatype LaunchMetadata = LaunchMetadata(id: string, timestamp: int)

  /** The launch log keeps at most this many launches. */
  const MAX_LAUNCHES: nat := 1500

  /** Scores look at no more than this many of the most recent launches. */
  const SCORING_MAX_LAUNCH_COUNT: nat := 450

  // ---------------------------------------------------------------------
  // The launch log
  // ---------------------------------------------------------------------

  /** The log with its oldest launches dropped down to the ceiling. */
  function Trimmed(log: seq<LaunchMetadata>): seq<LaunchMetadata> {
    if |log| > MAX_LAUNCHES then log[|log| - MAX_LAUNCHES..] else log
  }

  /**
    `registerLaunch` on a loaded log: the new launch is appended, then the
    oldest launches are dropped from the front while there are more than
    the ceiling.
  */
  method RegisterLaunch(launches: seq<LaunchMetadata>, id: string, timestamp: int) returns (updated: seq<LaunchMetadata>)
    ensures updated == Trimmed(launches + [LaunchMetadata(id, timestamp)])
    ensures |updated| == if |launches| + 1 > MAX_LAUNCHES then MAX_LAUNCHES else |launches| + 1
    ensures updated[|updated| - 1] == LaunchMetadata(id, timestamp)
    ensures |launches| < MAX_LAUNCHES ==> updated == launches + [LaunchMetadata(id, timestamp)]
  {
    updated := launches + [LaunchMetadata(id, timestamp)];
    ghost var all := updated;
    while |updated| > MAX_LAUNCHES
      invariant |updated| >= MAX_LAUNCHES || updated == all
      invariant |updated| <= |all| && updated == all[|all| - |updated|..]
      decreases |updated|
    {
      updated := updated[1..];
    }
  }

  /** What `scoreLaunchables` looks at: the last 450 launches, or all of them when there are fewer. */
  function Window(launches: seq<LaunchMetadata>): (w: seq<LaunchMetadata>)
    ensures |w| <= SCORING_MAX_LAUNCH_COUNT && |w| <= |launches|
    ensures w == launches[|launches| - |w|..]
    ensures |w| < SCORING_MAX_LAUNCH_COUNT ==> w == launches
  {
    if |launches| > SCORING_MAX_LAUNCH_COUNT then launches[|launches| - SCORING_MAX_LAUNCH_COUNT..]
    else launches
  }

  /** How many launches of `id` the log holds. */
  function CountOf(id: string, launches: seq<LaunchMetadata>): nat {
    if |launches| == 0 then 0
    else CountOf(id, launches[..|launches| - 1]) + (if launches[|launches| - 1].id == id then 1 else 0)
  }

  lemma {:induction false} CountOfFront(id: string, launches: seq<LaunchMetadata>)
    requires |launches| > 0
    ensures CountOf(id, launches) == (if launches[0].id == id then 1 else 0) + CountOf(id, launches[1..])
  {
    if |launches| > 1 {
      var init := launches[..|launches| - 1];
      CountOfFront(id, init);
      assert init[1..] == launches[1..][..|launches[1..]| - 1];
    }
  }

  /** The ceiling of the log never cuts into the scoring window. */
  lemma {:induction false} WindowIgnoresCeiling(launches: seq<LaunchMetadata>)
    requires |launches| > MAX_LAUNCHES
    ensures Window(launches[|launches| - MAX_LAUNCHES..]) == Window(launches)
  {
  }

  /** Registering a launch of `id` never lowers the number of its launches in the scoring window. */
  lemma {:induction false} LaunchNeverLowersOwnCount(launches: seq<LaunchMetadata>, id: string, timestamp: int)
    ensures var updated := Trimmed(launches + [LaunchMetadata(id, timestamp)]);
      CountOf(id, Window(updated)) >= CountOf(id, Window(launches))
    ensures var updated := Trimmed(launches + [LaunchMetadata(id, timestamp)]);
      CountOf(id, Window(updated)) >= 1
  {
    var launch := LaunchMetadata(id, timestamp);
    var appended := launches + [launch];
    if |appended| > MAX_LAUNCHES {
      WindowIgnoresCeiling(appended);
    }
    assert Window(Trimmed(appended)) == Window(appended);
    var wl := Window(launches);
    WindowSnoc(launches, launch);
    if |wl| < SCORING_MAX_LAUNCH_COUNT {
      CountOfSnoc(id, wl, launch);
    } else {
      CountOfSnoc(id, wl[1..], launch);
      CountOfFront(id, wl);
    }
  }

  /** One more launch enters the window at the back; a full window loses its oldest launch. */
  lemma {:induction false} WindowSnoc(launches: seq<LaunchMetadata>, launch: LaunchMetadata)
    ensures var wl := Window(launches);
      Window(launches + [launch]) == (if |wl| < SCORING_MAX_LAUNCH_COUNT then wl else wl[1..]) + [launch]
  {
    var wl := Window(launches);
    var appended := launches + [launch];
    if |wl| < SCORING_MAX_LAUNCH_COUNT {
      assert wl == launches;
    } else {
      assert |launches| >= SCORING_MAX_LAUNCH_COUNT;
      assert Window(appended) == appended[|appended| - SCORING_MAX_LAUNCH_COUNT..];
      assert appended[|appended| - SCORING_MAX_LAUNCH_COUNT..] == launches[|launches| - SCORING_MAX_LAUNCH_COUNT + 1..] + [launch];
      assert wl[1..] == launches[|launches| - SCORING_MAX_LAUNCH_COUNT + 1..];
    }
  }

  /** The count of a log with one more launch at the end. */
  lemma {:induction false} CountOfSnoc(id: string, launches: seq<LaunchMetadata>, launch: LaunchMetadata)
    ensures CountOf(id, launches + [launch]) == CountOf(id, launches) + (if launch.id == id then 1 else 0)
  {
    assert (launches + [launch])[..|launches|] == launches;
  }

  // ---------------------------------------------------------------------
  // Scores
  // ---------------------------------------------------------------------

  /**
    The map `scoreLaunchables` builds: each id launched in the window gets
    2 for its first launch and 1 more for each further launch.
  */
  method ScoreMap(launches: seq<LaunchMetadata>) returns (idToScore: map<string, real>)
    ensures forall id :: id in idToScore <==> CountOf(id, Window(launches)) > 0
    ensures forall id :: id in idToScore ==> idToScore[id] == (CountOf(id, Window(launches)) + 1) as real
    ensures forall id :: id in idToScore ==> idToScore[id] >= 2.0
  {
    var window := Window(launches);
    idToScore := map[];
    var i := 0;
    while i < |window|
      invariant 0 <= i <= |window|
      invariant forall id :: id in idToScore <==> CountOf(id, window[..i]) > 0
      invariant forall id :: id in idToScore ==> idToScore[id] == (CountOf(id, window[..i]) + 1) as real
    {
      var launch := window[i];
      assert window[..i + 1][..i] == window[..i];
      if launch.id in idToScore {
        idToScore := idToScore[launch.id := idToScore[launch.id] + 1.0];
      } else {
        idToScore := idToScore[launch.id := 2.0];
      }
      i := i + 1;
    }
    assert window[..i] == window;
  }

  /**
    `scoreLaunchables`: every launchable whose id was launched in the window
    gets that id's score through `setScore`; the others keep their score.
  */
  method ScoreLaunchables(launchables: seq<Launchable>, launches: seq<LaunchMetadata>)
    modifies launchables`score
    ensures forall l :: l in launchables && CountOf(l.id, Window(launches)) > 0 ==>
      l.score == Some((CountOf(l.id, Window(launches)) + 1) as real * IntentScoreFactor(l.id))
    ensures forall l :: l in launchables && CountOf(l.id, Window(launches)) == 0 ==> l.score == old(l.score)
    ensures forall l :: l in launchables ==> l.name == old(l.name)
  {
    var idToScore := ScoreMap(launches);
    ApplyScores(launchables, idToScore);
  }

  /**
    The second loop of `scoreLaunchables`: every launchable whose id has a
    score gets it through `setScore`; the others are skipped.
  */
  method ApplyScores(launchables: seq<Launchable>, idToScore: map<string, real>)
    requires forall id :: id in idToScore ==> idToScore[id] > 0.0
    modifies launchables`score
    ensures forall l :: l in launchables && l.id in idToScore ==> l.score == Some(idToScore[l.id] * IntentScoreFactor(l.id))
    ensures forall l :: l in launchables && l.id !in idToScore ==> l.score == old(l.score)
    ensures forall l :: l in launchables ==> l.name == old(l.name)
  {
    var i := 0;
    while i < |launchables|
      invariant 0 <= i <= |launchables|
      invariant forall l :: l in launchables ==> l.name == old(l.name)
      invariant forall l :: l in launchables && l.id !in idToScore ==> l.score == old(l.score)
      invariant forall k :: 0 <= k < i && launchables[k].id in idToScore ==>
        launchables[k].score == Some(idToScore[launchables[k].id] * IntentScoreFactor(launchables[k].id))
    {
      var launchable := launchables[i];
      if launchable.id in idToScore {
        var outcome := launchable.SetScore(idToScore[launchable.id]);
        assert outcome == Pass;
      }
      i := i + 1;
    }
  }

  // ---------------------------------------------------------------------
  // The name cache
  // ---------------------------------------------------------------------

  /**
    The name `nameLaunchablesFromCache` leaves a launchable with: one that
    already has a name keeps it, one whose id is not cached keeps none, the
    others get the cached name.
  */
  function CachedName(cache: map<string, string>, id: string, name: Option<string>): (r: Option<string>)
    ensures name.Some? ==> r == name
    ensures name.None? && id in cache ==> r == Some(cache[id])
    ensures name.None? && id !in cache ==> r.None?
  {
    if name.Some? || id !in cache then name else Some(cache[id])
  }

  /** Naming from the cache twice is the same as once. */
  lemma {:induction false} CachedNameIdempotent(cache: map<string, string>, id: string, name: Option<string>)
    ensures CachedName(cache, id, CachedName(cache, id, name)) == CachedName(cache, id, name)
  {
  }

  /** `nameLaunchablesFromCache`. */
  method NameLaunchablesFromCache(cache: map<string, string>, launchables: seq<Launchable>)
    modifies launchables`name
    ensures forall l :: l in launchables ==> l.name == CachedName(cache, l.id, old(l.name))
    ensures forall l :: l in launchables ==> l.score == old(l.score)
  {
    var i := 0;
    while i < |launchables|
      invariant 0 <= i <= |launchables|
      invariant forall l :: l in launchables ==> l.score == old(l.score)
      invariant forall l :: l in launchables && l in launchables[..i] ==> l.name == CachedName(cache, l.id, old(l.name))
      invariant forall l :: l in launchables && l !in launchables[..i] ==> l.name == old(l.name)
    {
      var launchable := launchables[i];
      assert launchables[..i + 1] == launchables[..i] + [launchable];
      if launchable.name.Some? {
        // Named launchables, contacts for example, are left as they are.
      } else if launchable.id in cache {
        launchable.SetName(Some(cache[launchable.id]));
      }
      i := i + 1;
    }
    assert launchables[..i] == launchables;
  }

  /**
    The map part of `cacheTrueNames`: every launchable with a true name maps
    its id to that name; when two launchables share an id, the later one wins.
  */
  method CollectTrueNames(launchables: seq<Launchable>) returns (cache: map<string, string>)
    ensures forall id :: id in cache <==> exists k :: 0 <= k < |launchables| && launchables[k].id == id && launchables[k].TrueName().Some?
    ensures forall k :: 0 <= k < |launchables| && launchables[k].TrueName().Some? ==>
      cache[launchables[k].id] == launchables[k].TrueName().value
      || exists j :: k < j < |launchables| && launchables[j].id == launchables[k].id && launchables[j].TrueName().Some?
  {
    cache := map[];
    var i := 0;
    while i < |launchables|
      invariant 0 <= i <= |launchables|
      invariant forall id :: id in cache <==> exists k :: 0 <= k < i && launchables[k].id == id && launchables[k].TrueName().Some?
      invariant forall k :: 0 <= k < i && launchables[k].TrueName().Some? ==>
        cache[launchables[k].id] == launchables[k].TrueName().value
        || exists j :: k < j < i && launchables[j].id == launchables[k].id && launchables[j].TrueName().Some?
    {
      var launchable := launchables[i];
      var trueName := launchable.TrueName();
      if trueName.Some? {
        cache := cache[launchable.id := trueName.value];
      }
      i := i + 1;
    }
  }

  /**
    The name cache round trip: names collected from named launchables are
    given back to fresh, unnamed launchables with the same ids.
  */
  method NameCacheRoundTrip() returns (one: Option<string>, two: Option<string>)
    ensures one == Some("name: One") && two == Some("name: Two")
  {
    var l1 := new Launchable("id: 1", Some("name: One"));
    var l2 := new Launchable("id: 2", Some("name: Two"));
    var cache := CollectTrueNames([l1, l2]);
    assert "id: 1" != "id: 2" by {
      assert "id: 1"[4] != "id: 2"[4];
    }
    assert [l1, l2][0] == l1 && [l1, l2][1] == l2;
    var n1 := new Launchable("id: 1", None);
    var n2 := new Launchable("id: 2", None);
    NameLaunchablesFromCache(cache, [n1, n2]);
    one := n1.GetName();
    two := n2.GetName();
  }
}
