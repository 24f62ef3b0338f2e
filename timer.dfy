/**
  Model of Timer.java: a stopwatch that records named legs and renders how
  long each one took, as in "100ms = 13ms setup + 87ms something else".
  The clock is not read here: the construction time and the time of every
  call are passed in, in milliseconds.
*/
module Timers {
  import opened Text

  /** A leg: its name and the clock reading when it began. */
  datatype Leg = Leg(name: string, start: int)

  /** One term of the rendered breakdown: a duration and what it was spent on. */
  datatype Segment = Segment(duration: int, activity: string)

  /** Where the next segment begins once `done` has been walked: the last leg's start, else `t0`. */
  function LapStart(t0: int, done: seq<Leg>): int {
    if |done| == 0 then t0 else done[|done| - 1].start
  }

  /** What the next segment is called once `done` has been walked: the last leg's name, else "setup". */
  function LapLabel(done: seq<Leg>): string {
    if |done| == 0 then "setup" else done[|done| - 1].name
  }

  /** The segments the loop of `toString` writes: each leg's start closes the segment before it. */
  function Laps(t0: int, legs: seq<Leg>): (r: seq<Segment>)
    ensures |r| == |legs|
    decreases |legs|
  {
    if |legs| == 0 then []
    else
      var done := legs[..|legs| - 1];
      Laps(t0, done) + [Segment(legs[|legs| - 1].start - LapStart(t0, done), LapLabel(done))]
  }

  /** All segments: the laps, then the last leg up to `now`. */
  function Breakdown(t0: int, legs: seq<Leg>, now: int): seq<Segment> {
    Laps(t0, legs) + [Segment(now - LapStart(t0, legs), LapLabel(legs))]
  }

  /** The sum of the durations. */
  function TotalDuration(segments: seq<Segment>): int
    decreases |segments|
  {
    if |segments| == 0 then 0
    else TotalDuration(segments[..|segments| - 1]) + segments[|segments| - 1].duration
  }

  /** How one segment is written: "13ms setup". */
  function SegmentText(s: Segment): string {
    Decimal(s.duration) + "ms " + s.activity
  }

  function Texts(segments: seq<Segment>): (r: seq<string>)
    ensures |r| == |segments|
    decreases |segments|
  {
    if |segments| == 0 then []
    else Texts(segments[..|segments| - 1]) + [SegmentText(segments[|segments| - 1])]
  }

  /**
    What `toString` returns at time `now`: without legs only the total,
    otherwise the total followed by every segment, joined by " + ".
  */
  function Rendering(t0: int, legs: seq<Leg>, now: int): string {
    if |legs| == 0 then Decimal(now - t0) + "ms"
    else Decimal(now - t0) + "ms = " + Join(Texts(Breakdown(t0, legs, now)), " + ")
  }

  /** What a `StringBuilder` holds after a series of appends: the pieces, in order. */
  function Concat(pieces: seq<string>): string
    decreases |pieces|
  {
    if |pieces| == 0 then "" else Concat(pieces[..|pieces| - 1]) + pieces[|pieces| - 1]
  }

  /** The pieces the loop of `toString` appends for the laps, with " + " between laps. */
  function LapPieces(t0: int, legs: seq<Leg>): seq<string>
    decreases |legs|
  {
    if |legs| == 0 then []
    else
      var done := legs[..|legs| - 1];
      LapPieces(t0, done) + (if |done| == 0 then [] else [" + "])
        + [Decimal(legs[|legs| - 1].start - LapStart(t0, done)), "ms ", LapLabel(done)]
  }

  /** Everything `toString` appends when there are legs. */
  function RenderingPieces(t0: int, legs: seq<Leg>, now: int): seq<string> {
    [Decimal(now - t0), "ms = "] + LapPieces(t0, legs) + [" + ", Decimal(now - LapStart(t0, legs)), "ms ", LapLabel(legs)]
  }

  class Timer {
    const t0: int
    /** The legs added so far, oldest first; Timer.java keeps `null` until the first one. */
    var legs: seq<Leg>

    /** `new Timer()` at time `now`. */
    constructor (now: int)
      ensures t0 == now && legs == []
    {
      t0 := now;
      legs := [];
    }

    /** `addLeg(name)` at time `now`: a leg starting now is appended. */
    method AddLeg(name: string, now: int)
      modifies this`legs
      ensures legs == old(legs) + [Leg(name, now)]
    {
      legs := legs + [Leg(name, now)];
    }

    /**
      `toString()` at time `now`. The `StringBuilder` is the sequence of the
      pieces appended to it.
    */
    method ToString(now: int) returns (s: string)
      ensures s == Rendering(t0, legs, now)
    {
      if |legs| == 0 {
        var dtMs := now - t0;
        return Decimal(dtMs) + "ms";
      }
      var builder: seq<string> := [Decimal(now - t0)];
      builder := builder + ["ms = "];
      var lastT0 := t0;
      var name := "setup";
      var firstLap := true;
      var i := 0;
      while i < |legs|
        invariant 0 <= i <= |legs|
        invariant firstLap <==> i == 0
        invariant lastT0 == LapStart(t0, legs[..i]) && name == LapLabel(legs[..i])
        invariant builder == [Decimal(now - t0), "ms = "] + LapPieces(t0, legs[..i])
      {
        var leg := legs[i];
        LapPiecesStep(t0, legs, i);
        if !firstLap {
          builder := builder + [" + "];
        }
        var dt := leg.start - lastT0;
        builder := builder + [Decimal(dt), "ms ", name];
        firstLap := false;
        name := leg.name;
        lastT0 := leg.start;
        i := i + 1;
      }
      assert legs[..i] == legs;
      builder := builder + [" + "];
      var lastLegStart := legs[|legs| - 1].start;
      builder := builder + [Decimal(now - lastLegStart), "ms ", name];
      assert builder == RenderingPieces(t0, legs, now);
      s := Concat(builder);
      RenderingOfPieces(t0, legs, now);
    }
  }

  /** One more leg appends one lap's pieces, and the next lap starts where and as that leg does. */
  lemma {:induction false} LapPiecesStep(t0: int, legs: seq<Leg>, i: nat)
    requires i < |legs|
    ensures LapPieces(t0, legs[..i + 1]) == LapPieces(t0, legs[..i]) + (if i == 0 then [] else [" + "])
      + [Decimal(legs[i].start - LapStart(t0, legs[..i])), "ms ", LapLabel(legs[..i])]
    ensures LapStart(t0, legs[..i + 1]) == legs[i].start && LapLabel(legs[..i + 1]) == legs[i].name
  {
    assert legs[..i + 1][..i] == legs[..i];
  }

  lemma {:induction false} ConcatAppend(a: seq<string>, b: seq<string>)
    ensures Concat(a + b) == Concat(a) + Concat(b)
    decreases |b|
  {
    if |b| == 0 {
      assert a + b == a;
    } else {
      assert (a + b)[..|a + b| - 1] == a + b[..|b| - 1];
      ConcatAppend(a, b[..|b| - 1]);
    }
  }

  lemma {:induction false} ConcatTwo(a: string, b: string)
    ensures Concat([a, b]) == a + b
  {
    assert [a, b][..1] == [a];
    assert [a][..0] == [];
    assert Concat([a]) == Concat([]) + a;
    assert Concat([]) + a == a;
  }

  lemma {:induction false} ConcatThree(a: string, b: string, c: string)
    ensures Concat([a, b, c]) == a + b + c
  {
    assert [a, b, c][..2] == [a, b];
    ConcatTwo(a, b);
  }

  lemma {:induction false} ConcatFour(a: string, b: string, c: string, d: string)
    ensures Concat([a, b, c, d]) == a + (b + c + d)
  {
    assert [a, b, c, d][..3] == [a, b, c];
    ConcatThree(a, b, c);
    Regroup(a, b, c, d);
  }

  lemma {:induction false} Regroup(a: string, b: string, c: string, d: string)
    ensures a + b + c + d == a + (b + c + d)
  {
  }

  /** The lap pieces spell the lap texts joined by " + ". */
  lemma {:induction false} LapPiecesSpellJoin(t0: int, legs: seq<Leg>)
    ensures Concat(LapPieces(t0, legs)) == Join(Texts(Laps(t0, legs)), " + ")
    decreases |legs|
  {
    if |legs| > 0 {
      if |legs| == 1 {
        SpellJoinFirst(t0, legs);
      } else {
        LapPiecesSpellJoin(t0, legs[..|legs| - 1]);
        SpellJoinNext(t0, legs);
      }
    }
  }

  /** The first leg's lap pieces spell its lap text. */
  lemma {:induction false} SpellJoinFirst(t0: int, legs: seq<Leg>)
    requires |legs| == 1
    ensures Concat(LapPieces(t0, legs)) == Join(Texts(Laps(t0, legs)), " + ")
  {
    var done := legs[..0];
    var seg := Segment(legs[0].start - t0, "setup");
    var d := Decimal(seg.duration);
    assert Laps(t0, legs) == [] + [seg];
    TextsSnoc([], seg);
    assert LapPieces(t0, legs) == LapPieces(t0, done) + [d, "ms ", seg.activity];
    SpellFirst(LapPieces(t0, done), d, seg.activity);
  }

  /** A later leg keeps the lap pieces spelling the joined lap texts. */
  lemma {:induction false} SpellJoinNext(t0: int, legs: seq<Leg>)
    requires |legs| > 1
    requires Concat(LapPieces(t0, legs[..|legs| - 1])) == Join(Texts(Laps(t0, legs[..|legs| - 1])), " + ")
    ensures Concat(LapPieces(t0, legs)) == Join(Texts(Laps(t0, legs)), " + ")
  {
    var done := legs[..|legs| - 1];
    var seg := Segment(legs[|legs| - 1].start - LapStart(t0, done), LapLabel(done));
    var d := Decimal(seg.duration);
    TextsSnoc(Laps(t0, done), seg);
    LaterLapPieces(t0, legs);
    SpellNext(LapPieces(t0, done), Texts(Laps(t0, done)), d, seg.activity);
  }

  /** After the first lap, a lap's pieces begin with the " + " separator. */
  lemma {:induction false} LaterLapPieces(t0: int, legs: seq<Leg>)
    requires |legs| > 1
    ensures var done := legs[..|legs| - 1];
      LapPieces(t0, legs) == LapPieces(t0, done)
        + [" + ", Decimal(legs[|legs| - 1].start - LapStart(t0, done)), "ms ", LapLabel(done)]
  {
    var done := legs[..|legs| - 1];
    var piece := [Decimal(legs[|legs| - 1].start - LapStart(t0, done)), "ms ", LapLabel(done)];
    assert LapPieces(t0, legs) == LapPieces(t0, done) + [" + "] + piece;
    assert [" + "] + piece == [" + ", piece[0], piece[1], piece[2]];
  }

  lemma {:induction false} TextsSnoc(segments: seq<Segment>, s: Segment)
    ensures Texts(segments + [s]) == Texts(segments) + [SegmentText(s)]
  {
    assert (segments + [s])[..|segments|] == segments;
  }

  /** The first lap's pieces, after pieces that spell nothing, spell its text. */
  lemma {:induction false} SpellFirst(prev: seq<string>, d: string, activity: string)
    requires Concat(prev) == ""
    ensures Concat(prev + [d, "ms ", activity]) == Join([d + "ms " + activity], " + ")
  {
    ConcatAppend(prev, [d, "ms ", activity]);
    ConcatThree(d, "ms ", activity);
  }

  /** A later lap's pieces, after pieces that spell `texts` joined, spell one more text. */
  lemma {:induction false} SpellNext(prev: seq<string>, texts: seq<string>, d: string, activity: string)
    requires |texts| > 0 && Concat(prev) == Join(texts, " + ")
    ensures Concat(prev + [" + ", d, "ms ", activity]) == Join(texts + [d + "ms " + activity], " + ")
  {
    var text := d + "ms " + activity;
    ConcatAppend(prev, [" + ", d, "ms ", activity]);
    ConcatFour(" + ", d, "ms ", activity);
    JoinSnoc(texts, " + ", text);
    Reassociate("", Join(texts, " + "), " + ", text);
  }

  /** The appended pieces spell the rendering. */
  lemma {:induction false} RenderingOfPieces(t0: int, legs: seq<Leg>, now: int)
    requires |legs| > 0
    ensures Concat(RenderingPieces(t0, legs, now)) == Rendering(t0, legs, now)
  {
    var last := Segment(now - LapStart(t0, legs), LapLabel(legs));
    var texts := Texts(Laps(t0, legs));
    PiecesOfRendering(t0, legs, now);
    LapPiecesSpellJoin(t0, legs);
    assert Texts(Breakdown(t0, legs, now)) == texts + [SegmentText(last)];
    JoinSnoc(texts, " + ", SegmentText(last));
    Reassociate(Decimal(now - t0) + "ms = ", Join(texts, " + "), " + ", SegmentText(last));
  }

  /** The pieces of the rendering: the total, the laps, and the last leg. */
  lemma {:induction false} PiecesOfRendering(t0: int, legs: seq<Leg>, now: int)
    ensures Concat(RenderingPieces(t0, legs, now)) ==
      Decimal(now - t0) + "ms = " + Concat(LapPieces(t0, legs)) + (" + " + SegmentText(Segment(now - LapStart(t0, legs), LapLabel(legs))))
  {
    var head := [Decimal(now - t0), "ms = "];
    var last := Segment(now - LapStart(t0, legs), LapLabel(legs));
    var tail := [" + ", Decimal(last.duration), "ms ", last.activity];
    assert RenderingPieces(t0, legs, now) == head + LapPieces(t0, legs) + tail;
    ConcatAppend(head + LapPieces(t0, legs), tail);
    ConcatAppend(head, LapPieces(t0, legs));
    ConcatTwo(Decimal(now - t0), "ms = ");
    ConcatFour(" + ", Decimal(last.duration), "ms ", last.activity);
  }

  lemma {:induction false} Reassociate(a: string, b: string, c: string, d: string)
    ensures a + b + (c + d) == a + (b + c + d)
  {
  }

  /**
    The laps follow the legs: lap `i` is labelled "setup" for the first and
    by the previous leg's name after that, and lasts from the previous leg's
    start (or the construction time) to the start of leg `i`.
  */
  lemma {:induction false} LapsShape(t0: int, legs: seq<Leg>)
    ensures |Laps(t0, legs)| == |legs|
    ensures |legs| > 0 ==> Laps(t0, legs)[0] == Segment(legs[0].start - t0, "setup")
    ensures forall i :: 0 < i < |legs| ==> Laps(t0, legs)[i] == Segment(legs[i].start - legs[i - 1].start, legs[i - 1].name)
    decreases |legs|
  {
    if |legs| > 0 {
      var n := |legs| - 1;
      LapsShape(t0, legs[..n]);
      forall i | 0 < i < n
        ensures Laps(t0, legs)[i] == Segment(legs[i].start - legs[i - 1].start, legs[i - 1].name)
      {
        assert Laps(t0, legs)[i] == Laps(t0, legs[..n])[i];
        assert legs[..n][i] == legs[i] && legs[..n][i - 1] == legs[i - 1];
      }
      if n > 0 {
        assert Laps(t0, legs)[0] == Laps(t0, legs[..n])[0];
        assert legs[..n][0] == legs[0];
      }
      if n > 0 {
        assert legs[..n][n - 1] == legs[n - 1];
      }
    }
  }

  /**
    With `n` legs there are `n + 1` segments: the first is "setup" from the
    construction time to the first leg, segment `i + 1` carries leg `i`'s
    name, and the last runs from the last leg's start to `now`.
  */
  lemma {:induction false} BreakdownShape(t0: int, legs: seq<Leg>, now: int)
    requires |legs| >= 1
    ensures |Breakdown(t0, legs, now)| == |legs| + 1
    ensures Breakdown(t0, legs, now)[0] == Segment(legs[0].start - t0, "setup")
    ensures forall i :: 0 <= i < |legs| ==> Breakdown(t0, legs, now)[i + 1].activity == legs[i].name
    ensures Breakdown(t0, legs, now)[|legs|].duration == now - legs[|legs| - 1].start
  {
    LapsShape(t0, legs);
    assert Breakdown(t0, legs, now)[0] == Laps(t0, legs)[0];
  }

  /** The laps add up to the time from construction to the last leg's start. */
  lemma {:induction false} LapsTelescope(t0: int, legs: seq<Leg>)
    ensures TotalDuration(Laps(t0, legs)) == LapStart(t0, legs) - t0
    decreases |legs|
  {
    if |legs| > 0 {
      var n := |legs| - 1;
      LapsTelescope(t0, legs[..n]);
      var laps := Laps(t0, legs);
      assert laps[..|laps| - 1] == Laps(t0, legs[..n]);
    }
  }

  /** The segment durations add up to the total printed first: `now - t0`. */
  lemma {:induction false} BreakdownTelescopes(t0: int, legs: seq<Leg>, now: int)
    ensures TotalDuration(Breakdown(t0, legs, now)) == now - t0
  {
    LapsTelescope(t0, legs);
    var b := Breakdown(t0, legs, now);
    assert b[..|b| - 1] == Laps(t0, legs);
  }

  /** With a single leg the breakdown is the setup segment and the leg's. */
  lemma {:induction false} OneLegTexts(t0: int, leg: Leg, now: int)
    ensures Texts(Breakdown(t0, [leg], now))
      == [SegmentText(Segment(leg.start - t0, "setup"))] + [SegmentText(Segment(now - leg.start, leg.name))]
  {
    var first := Segment(leg.start - t0, "setup");
    var second := Segment(now - leg.start, leg.name);
    assert [leg][..0] == [];
    assert Laps(t0, [leg]) == [] + [first];
    TextsSnoc([], first);
    TextsSnoc([first], second);
  }

  /** With a single leg there are two segments: setup, then the leg. */
  lemma {:induction false} OneLegRendering(t0: int, leg: Leg, now: int)
    ensures Rendering(t0, [leg], now) == Decimal(now - t0) + "ms = "
      + (SegmentText(Segment(leg.start - t0, "setup")) + " + " + SegmentText(Segment(now - leg.start, leg.name)))
  {
    var first := SegmentText(Segment(leg.start - t0, "setup"));
    var second := SegmentText(Segment(now - leg.start, leg.name));
    OneLegTexts(t0, leg, now);
    JoinSnoc([first], " + ", second);
  }

  lemma {:induction false} DecimalExamples()
    ensures Decimal(100) == "100" && Decimal(13) == "13" && Decimal(87) == "87"
  {
    assert Digits(1) == "1" && Digits(8) == "8";
    assert Digits(10) == Digits(1) + [DigitChar(0)];
    assert Digits(100) == Digits(10) + [DigitChar(0)];
    assert Digits(13) == Digits(1) + [DigitChar(3)];
    assert Digits(87) == Digits(8) + [DigitChar(7)];
  }

  /**
    The example in Timer.java's documentation: a timer started at `t0`, one
    leg added 13ms later, rendered 100ms after the start.
  */
  lemma {:induction false} DocumentedExample(t0: int)
    ensures Rendering(t0, [Leg("something else", t0 + 13)], t0 + 100) == "100ms = 13ms setup + 87ms something else"
  {
    var leg := Leg("something else", t0 + 13);
    OneLegRendering(t0, leg, t0 + 100);
    DecimalExamples();
    assert t0 + 100 - t0 == 100 && leg.start - t0 == 13 && t0 + 100 - leg.start == 87;
    ExampleSpelling();
  }

  lemma {:induction false} ExampleSpelling()
    ensures "100" + "ms = " + ("13" + "ms " + "setup" + " + " + ("87" + "ms " + "something else"))
      == "100ms = 13ms setup + 87ms something else"
  {
  }
}
