/**
 * The per-frame aggregation loop of `process_video`: every detection bumps its class's
 * count, and a class gets a new key moment only when more than two seconds have passed
 * since its last recorded one.
 *
 * Time is kept in ticks: frame `frame_count` (0-based) has tick `frame_count + 1`, and its
 * time in seconds is `tick / fps`.  The source's test `(f + 1) / fps - last > 2` is
 * `tick - lastTick > 2 * fps` on ticks (lemma TickTestIsExact), and the initial
 * `last_moment_time` of -5 seconds is the tick `-5 * fps`.
 */
module Detection {
  import opened Common

  /** Class index to label, as the metadata's `names` gives it (a list indexes by position). */
  type ClassNames = map<nat, string>

  /** One detection: the tick of its frame and the label of its class. */
  datatype Detection = Detection(tick: nat, className: string)

  /**
   * Why the loop gives up: a class index with no label (`class_names[i]` raises), or a
   * detection while the video reports 0 fps (`(frame_count + 1) / fps` raises).
   */
  datatype Error = UnknownClass | ZeroFps

  /** What the loop leaves behind: `detection_stats` and `key_moments`. */
  datatype Tally = Tally(stats: map<string, nat>, moments: map<string, seq<nat>>)

  /** `detection_stats[c]`, a defaultdict(int). */
  function Count(t: Tally, c: string): nat
  {
    if c in t.stats then t.stats[c] else 0
  }

  /** `key_moments[c]`, a defaultdict(list). */
  function MomentsOf(t: Tally, c: string): seq<nat>
  {
    if c in t.moments then t.moments[c] else []
  }

  predicate Known(dets: seq<nat>, names: ClassNames)
  {
    forall j :: 0 <= j < |dets| ==> dets[j] in names
  }

  predicate AllKnown(frames: seq<seq<nat>>, names: ClassNames)
  {
    forall i :: 0 <= i < |frames| ==> Known(frames[i], names)
  }

  predicate NoDetections(frames: seq<seq<nat>>)
  {
    forall i :: 0 <= i < |frames| ==> frames[i] == []
  }

  /**
   * The frames the loop sees: `range(total_frames)`, cut short when `cap.read()` fails;
   * `frames` holds the detections of every frame the capture can deliver.
   */
  function FramesRead(frames: seq<seq<nat>>, totalFrames: int): seq<seq<nat>>
  {
    frames[..if totalFrames <= 0 then 0 else if totalFrames < |frames| then totalFrames else |frames|]
  }

  /** The detections of one frame, in the detector's order. */
  function FrameEvents(dets: seq<nat>, tick: nat, names: ClassNames): (es: seq<Detection>)
    requires Known(dets, names)
  {
    seq(|dets|, j requires 0 <= j < |dets| => Detection(tick, names[dets[j]]))
  }

  /** Every detection of every frame, in the order the loop visits them. */
  function Events(frames: seq<seq<nat>>, names: ClassNames): seq<Detection>
    requires AllKnown(frames, names)
    decreases |frames|
  {
    if frames == [] then []
    else Events(frames[..|frames| - 1], names) + FrameEvents(frames[|frames| - 1], |frames|, names)
  }

  /** The ticks of every detection labelled `c`, in order, one per detection. */
  function TicksOf(es: seq<Detection>, c: string): seq<nat>
    decreases |es|
  {
    if es == [] then []
    else TicksOf(es[..|es| - 1], c) + (if es[|es| - 1].className == c then [es[|es| - 1].tick] else [])
  }

  /** The labels that occur among the detections. */
  function Labels(es: seq<Detection>): set<string>
    decreases |es|
  {
    if es == [] then {} else Labels(es[..|es| - 1]) + {es[|es| - 1].className}
  }

  /** `last_moment_time[c]` once `ms` are c's key moments: the last of them, or -5 seconds. */
  function LastMoment(ms: seq<nat>, fps: nat): int
  {
    if ms == [] then -5 * fps else ms[|ms| - 1]
  }

  /**
   * The key moments one class collects from the ticks of its detections: a tick is kept
   * when it is more than two seconds after the last kept one.
   */
  function Moments(ticks: seq<nat>, fps: nat): (ms: seq<nat>)
    ensures |ms| <= |ticks|
    decreases |ticks|
  {
    if ticks == [] then []
    else
      var ms := Moments(ticks[..|ticks| - 1], fps);
      var t := ticks[|ticks| - 1];
      if t - LastMoment(ms, fps) > 2 * fps then ms + [t] else ms
  }

  /**
   * The tally describes the detections `es` class by class: the classes detected are its
   * keys, each with the number of its detections and the key moments its ticks give.
   * This fixes the tally completely.
   */
  ghost predicate ByClass(t: Tally, es: seq<Detection>, fps: nat)
  {
    && t.stats.Keys == Labels(es)
    && t.moments.Keys == Labels(es)
    && (forall c :: Count(t, c) == |TicksOf(es, c)|)
    && (forall c :: MomentsOf(t, c) == Moments(TicksOf(es, c), fps))
  }

  lemma {:induction false} TicksSnoc(es: seq<Detection>, e: Detection, c: string)
    ensures TicksOf(es + [e], c) == TicksOf(es, c) + (if e.className == c then [e.tick] else [])
    ensures Labels(es + [e]) == Labels(es) + {e.className}
  {
    assert (es + [e])[..|es|] == es;
  }

  lemma {:induction false} MomentsSnoc(ts: seq<nat>, t: nat, fps: nat)
    ensures Moments(ts + [t], fps)
         == if t - LastMoment(Moments(ts, fps), fps) > 2 * fps then Moments(ts, fps) + [t] else Moments(ts, fps)
  {
    assert (ts + [t])[..|ts|] == ts;
  }

  /** The loop body on one detection, over the two dicts the function returns. */
  function Step(t: Tally, e: Detection, fps: nat): Tally
  {
    var c := e.className;
    var ms := MomentsOf(t, c);
    Tally(t.stats[c := Count(t, c) + 1],
          if e.tick - LastMoment(ms, fps) > 2 * fps then t.moments[c := ms + [e.tick]] else t.moments)
  }

  /** One class's figures after one more loop step. */
  lemma {:induction false} StepClass(t: Tally, e: Detection, fps: nat, ts: seq<nat>, c: string)
    requires Count(t, c) == |ts| && MomentsOf(t, c) == Moments(ts, fps)
    ensures var ts' := ts + (if e.className == c then [e.tick] else []);
            Count(Step(t, e, fps), c) == |ts'| && MomentsOf(Step(t, e, fps), c) == Moments(ts', fps)
  {
    if e.className == c {
      MomentsSnoc(ts, e.tick, fps);
    } else {
      assert ts + [] == ts;
    }
  }

  /**
   * The shared dicts behave class by class: one loop step on a tally that describes `es`
   * gives a tally that describes `es` with the new detection, provided its tick is positive.
   */
  lemma {:induction false} StepByClass(t: Tally, es: seq<Detection>, e: Detection, fps: nat)
    requires ByClass(t, es, fps) && e.tick > 0
    ensures ByClass(Step(t, e, fps), es + [e], fps)
  {
    TicksSnoc(es, e, e.className);
    forall c
      ensures Count(Step(t, e, fps), c) == |TicksOf(es + [e], c)|
      ensures MomentsOf(Step(t, e, fps), c) == Moments(TicksOf(es + [e], c), fps)
    {
      TicksSnoc(es, e, c);
      StepClass(t, e, fps, TicksOf(es, c), c);
    }
    if e.className !in t.moments {
      assert MomentsOf(t, e.className) == [];
    }
  }

  lemma {:induction false} FrameEventsSnoc(es0: seq<Detection>, dets: seq<nat>, j: nat, tick: nat, names: ClassNames)
    requires j < |dets| && forall k :: 0 <= k <= j ==> dets[k] in names
    ensures Known(dets[..j], names) && Known(dets[..j + 1], names)
    ensures es0 + FrameEvents(dets[..j + 1], tick, names)
         == (es0 + FrameEvents(dets[..j], tick, names)) + [Detection(tick, names[dets[j]])]
  {
    assert dets[..j + 1][j] == dets[j];
    assert forall k :: 0 <= k < j ==> dets[..j + 1][k] == dets[..j][k];
    assert FrameEvents(dets[..j + 1], tick, names) == FrameEvents(dets[..j], tick, names) + [Detection(tick, names[dets[j]])];
  }

  lemma {:induction false} EventsSnoc(frames: seq<seq<nat>>, f: nat, names: ClassNames)
    requires f < |frames| && AllKnown(frames[..f + 1], names)
    ensures AllKnown(frames[..f], names) && Known(frames[f], names)
    ensures Events(frames[..f + 1], names) == Events(frames[..f], names) + FrameEvents(frames[f], f + 1, names)
  {
    assert frames[..f + 1][..f] == frames[..f];
    assert frames[..f + 1][f] == frames[f];
  }

  /** The detections come frame by frame: ticks run from 1 to the number of frames, in order. */
  lemma {:induction false} EventTicks(frames: seq<seq<nat>>, names: ClassNames)
    requires AllKnown(frames, names)
    ensures var es := Events(frames, names);
            forall k :: 0 <= k < |es| ==> 1 <= es[k].tick <= |frames|
    ensures InTickOrder(Events(frames, names))
    decreases |frames|
  {
    if frames != [] {
      var n := |frames|;
      EventsSnoc(frames, n - 1, names);
      assert frames[..n] == frames;
      EventTicks(frames[..n - 1], names);
    }
  }

  /** The detections come in order of their ticks. */
  predicate InTickOrder(es: seq<Detection>)
  {
    forall i, j :: 0 <= i <= j < |es| ==> es[i].tick <= es[j].tick
  }

  predicate NonDecreasing(s: seq<nat>)
  {
    forall i, j :: 0 <= i <= j < |s| ==> s[i] <= s[j]
  }

  /** Every tick of class `c` is a tick of some detection in `es`. */
  lemma {:induction false} TicksOfAreTicks(es: seq<Detection>, c: string, lo: nat, hi: nat)
    requires forall k :: 0 <= k < |es| ==> lo <= es[k].tick <= hi
    ensures forall x :: x in TicksOf(es, c) ==> lo <= x <= hi
    decreases |es|
  {
    if es != [] {
      TicksOfAreTicks(es[..|es| - 1], c, lo, hi);
    }
  }

  /** Filtering detections in order by class keeps their ticks in order. */
  lemma {:induction false} TicksOfInOrder(es: seq<Detection>, c: string)
    requires InTickOrder(es)
    ensures NonDecreasing(TicksOf(es, c))
    decreases |es|
  {
    if es != [] {
      var p := es[..|es| - 1];
      var e := es[|es| - 1];
      TicksOfInOrder(p, c);
      TicksOfAreTicks(p, c, 0, e.tick);
      TicksSnoc(p, e, c);
      assert p + [e] == es;
      var tp := TicksOf(p, c);
      assert forall i :: 0 <= i < |tp| ==> tp[i] in tp;
    }
  }

  /** Each key moment is the tick of one of the class's detections. */
  lemma {:induction false} MomentsAreTicks(ticks: seq<nat>, fps: nat)
    ensures forall m :: m in Moments(ticks, fps) ==> m in ticks
    decreases |ticks|
  {
    if ticks != [] {
      var p := ticks[..|ticks| - 1];
      MomentsAreTicks(p, fps);
      assert forall x :: x in p ==> x in ticks;
    }
  }

  /**
   * The invariant of `key_moments[c]`: strictly increasing, with consecutive moments more
   * than two seconds (2 * fps ticks) apart.
   */
  ghost predicate WellSpaced(ms: seq<nat>, fps: nat)
  {
    && (forall i :: 0 < i < |ms| ==> ms[i] - ms[i - 1] > 2 * fps)
    && (forall i, j :: 0 <= i < j < |ms| ==> ms[i] < ms[j])
  }

  lemma {:induction false} MomentsWellSpaced(ticks: seq<nat>, fps: nat)
    ensures WellSpaced(Moments(ticks, fps), fps)
    decreases |ticks|
  {
    if ticks != [] {
      var p := ticks[..|ticks| - 1];
      var t := ticks[|ticks| - 1];
      var ms := Moments(p, fps);
      MomentsWellSpaced(p, fps);
      if t - LastMoment(ms, fps) > 2 * fps && ms != [] {
        assert forall i :: 0 <= i < |ms| ==> ms[i] <= ms[|ms| - 1] < t;
      }
    }
  }

  /** `last_moment_time` starts at -5 s, so a class's first detection always becomes a key moment. */
  lemma {:induction false} FirstDetectionIsKeyMoment(ticks: seq<nat>, fps: nat)
    requires ticks != [] && fps > 0
    ensures Moments(ticks, fps) != [] && Moments(ticks, fps)[0] == ticks[0]
    decreases |ticks|
  {
    var p := ticks[..|ticks| - 1];
    if p != [] {
      FirstDetectionIsKeyMoment(p, fps);
    }
  }

  /** Some key moment lies at or at most two seconds before tick `t`. */
  ghost predicate Covered(ms: seq<nat>, t: nat, fps: nat)
  {
    exists m :: m in ms && m <= t <= m + 2 * fps
  }

  /** Coverage by a key moment survives when the key moments only grow. */
  lemma CoveredKept(mp: seq<nat>, ms: seq<nat>, x: nat, fps: nat)
    requires Covered(mp, x, fps) && forall m :: m in mp ==> m in ms
    ensures Covered(ms, x, fps)
  {
    var m :| m in mp && m <= x <= m + 2 * fps;
    assert m in ms;
  }

  /** The newest detection is covered: it is a key moment or within two seconds of the last. */
  lemma LastTickCovered(p: seq<nat>, t: nat, fps: nat)
    requires fps > 0 && forall k :: 0 <= k < |p| ==> p[k] <= t
    ensures Covered(Moments(p + [t], fps), t, fps)
  {
    MomentsSnoc(p, t, fps);
    var mp := Moments(p, fps);
    if t - LastMoment(mp, fps) > 2 * fps {
      assert t in mp + [t];
    } else {
      var last := mp[|mp| - 1];
      MomentsAreTicks(p, fps);
      assert last in mp;
      var k :| 0 <= k < |p| && p[k] == last;
      assert last <= t;
    }
  }

  /**
   * Nothing is lost by the de-duplication: every detection falls within two seconds
   * after a key moment of its class.
   */
  lemma {:induction false} EveryDetectionCovered(ticks: seq<nat>, fps: nat)
    requires NonDecreasing(ticks) && fps > 0
    ensures forall i :: 0 <= i < |ticks| ==> Covered(Moments(ticks, fps), ticks[i], fps)
    decreases |ticks|
  {
    if ticks != [] {
      var n := |ticks|;
      var p := ticks[..n - 1];
      var t := ticks[n - 1];
      assert p + [t] == ticks;
      var mp := Moments(p, fps);
      var ms := Moments(ticks, fps);
      MomentsSnoc(p, t, fps);
      assert forall m :: m in mp ==> m in ms;
      EveryDetectionCovered(p, fps);
      forall i | 0 <= i < n - 1
        ensures Covered(ms, ticks[i], fps)
      {
        assert p[i] == ticks[i];
        CoveredKept(mp, ms, p[i], fps);
      }
      assert forall k :: 0 <= k < |p| ==> p[k] <= t;
      LastTickCovered(p, t, fps);
    }
  }

  /** A detection at the same tick as the one before it adds no key moment. */
  lemma {:induction false} RepeatedTickAddsNothing(s: seq<nat>, fps: nat)
    requires s != []
    ensures Moments(s + [s[|s| - 1]], fps) == Moments(s, fps)
  {
    var t := s[|s| - 1];
    MomentsSnoc(s, t, fps);
    MomentsSnoc(s[..|s| - 1], t, fps);
    assert s[..|s| - 1] + [t] == s;
  }

  function Repeat(x: nat, k: nat): (s: seq<nat>)
    ensures |s| == k && forall i :: 0 <= i < k ==> s[i] == x
  {
    seq(k, _ => x)
  }

  /**
   * Several detections of one class in one frame share a tick: they add at most one key
   * moment, the same as a single detection would.
   */
  lemma {:induction false} OneFrameOneMoment(ts: seq<nat>, x: nat, k: nat, fps: nat)
    requires k >= 1
    ensures Moments(ts + Repeat(x, k), fps) == Moments(ts + [x], fps)
    ensures |Moments(ts + Repeat(x, k), fps)| <= |Moments(ts, fps)| + 1
    decreases k
  {
    MomentsSnoc(ts, x, fps);
    if k > 1 {
      OneFrameOneMoment(ts, x, k - 1, fps);
      var s := ts + Repeat(x, k - 1);
      assert s + [x] == ts + Repeat(x, k);
      RepeatedTickAddsNothing(s, fps);
    } else {
      assert Repeat(x, 1) == [x];
    }
  }

  /** How many of one frame's detections carry label `c`. */
  function Occurrences(dets: seq<nat>, names: ClassNames, c: string): (k: nat)
    requires Known(dets, names)
    ensures k <= |dets|
    decreases |dets|
  {
    if dets == [] then 0
    else Occurrences(dets[..|dets| - 1], names, c) + (if names[dets[|dets| - 1]] == c then 1 else 0)
  }

  /** How many detections over all the frames carry label `c`. */
  function Detections(frames: seq<seq<nat>>, names: ClassNames, c: string): nat
    requires AllKnown(frames, names)
    decreases |frames|
  {
    if frames == [] then 0
    else
      assert Known(frames[|frames| - 1], names);
      Detections(frames[..|frames| - 1], names, c) + Occurrences(frames[|frames| - 1], names, c)
  }

  /** One frame contributes its tick once per detection of `c` in it. */
  lemma {:induction false} FrameTicks(es: seq<Detection>, dets: seq<nat>, tick: nat, names: ClassNames, c: string)
    requires Known(dets, names)
    ensures TicksOf(es + FrameEvents(dets, tick, names), c) == TicksOf(es, c) + Repeat(tick, Occurrences(dets, names, c))
    decreases |dets|
  {
    var n := |dets|;
    if n == 0 {
      assert es + FrameEvents(dets, tick, names) == es;
      assert TicksOf(es, c) + Repeat(tick, 0) == TicksOf(es, c);
    } else {
      var p := dets[..n - 1];
      assert dets[..n] == dets;
      FrameEventsSnoc(es, dets, n - 1, tick, names);
      FrameTicks(es, p, tick, names, c);
      var d := Detection(tick, names[dets[n - 1]]);
      TicksSnoc(es + FrameEvents(p, tick, names), d, c);
      var k := Occurrences(p, names, c);
      if d.className == c {
        assert Repeat(tick, k) + [tick] == Repeat(tick, k + 1);
      } else {
        assert Repeat(tick, k) + [] == Repeat(tick, k);
      }
    }
  }

  /** A frame adds at most one key moment to each class, however many detections it has. */
  lemma FrameAddsAtMostOneMoment(es: seq<Detection>, dets: seq<nat>, tick: nat, names: ClassNames, c: string, fps: nat)
    requires Known(dets, names)
    ensures |Moments(TicksOf(es + FrameEvents(dets, tick, names), c), fps)| <= |Moments(TicksOf(es, c), fps)| + 1
  {
    FrameTicks(es, dets, tick, names, c);
    var k := Occurrences(dets, names, c);
    if k == 0 {
      assert TicksOf(es, c) + Repeat(tick, 0) == TicksOf(es, c);
    } else {
      OneFrameOneMoment(TicksOf(es, c), tick, k, fps);
    }
  }

  /** Each class's ticks over all the frames are exactly as many as its detections. */
  lemma {:induction false} TicksCountDetections(frames: seq<seq<nat>>, names: ClassNames, c: string)
    requires AllKnown(frames, names)
    ensures |TicksOf(Events(frames, names), c)| == Detections(frames, names, c)
    decreases |frames|
  {
    if frames != [] {
      var n := |frames|;
      EventsSnoc(frames, n - 1, names);
      assert frames[..n] == frames;
      TicksCountDetections(frames[..n - 1], names, c);
      FrameTicks(Events(frames[..n - 1], names), frames[n - 1], n, names, c);
    }
  }

  /** A time in seconds, as the source computes it: `tick / fps`. */
  function Seconds(tick: int, fps: nat): real
    requires fps > 0
  {
    tick as real / fps as real
  }

  lemma ScaleCompare(d: real, f: real)
    requires f > 0.0
    ensures d / f > 2.0 <==> d > 2.0 * f
  {
    var q := d / f;
    assert q * f == d;
    if q > 2.0 {
      assert d - 2.0 * f == (q - 2.0) * f;
    } else {
      assert 2.0 * f - d == (2.0 - q) * f;
    }
  }

  /** The test on ticks is exactly the source's test on seconds, and -5 * fps ticks is -5 s. */
  lemma TickTestIsExact(tick: int, last: int, fps: nat)
    requires fps > 0
    ensures Seconds(tick, fps) - Seconds(last, fps) > 2.0 <==> tick - last > 2 * fps
    ensures Seconds(-5 * fps, fps) == -5.0
  {
    var f := fps as real;
    assert Seconds(tick, fps) - Seconds(last, fps) == (tick - last) as real / f;
    ScaleCompare((tick - last) as real, f);
    QuotientOfMultiple(-5.0, f);
    assert (-5 * fps) as real == -5.0 * f;
  }

  lemma QuotientOfMultiple(c: real, f: real)
    requires f > 0.0
    ensures (c * f) / f == c
  {
    var q := (c * f) / f;
    assert q * f == c * f;
    assert (q - c) * f == 0.0;
  }

  /**
   * What the source promises of one class after the loop over the frames read: its key
   * moments are strictly increasing and more than two seconds apart (in seconds too),
   * there are no more of them than detections, its first detection is one of them, and
   * every one of its detections is at most two seconds after one of them.
   */
  lemma KeyMomentGuarantees(frames: seq<seq<nat>>, names: ClassNames, fps: nat, t: Tally, c: string)
    requires AllKnown(frames, names) && fps > 0 && ByClass(t, Events(frames, names), fps)
    ensures var es := Events(frames, names);
            var ms := MomentsOf(t, c);
            && WellSpaced(ms, fps)
            && (forall i :: 0 < i < |ms| ==> Seconds(ms[i], fps) - Seconds(ms[i - 1], fps) > 2.0)
            && Count(t, c) == Detections(frames, names, c)
            && |ms| <= Count(t, c)
            && (Count(t, c) > 0 ==> ms != [] && ms[0] == TicksOf(es, c)[0])
            && (forall x :: x in TicksOf(es, c) ==> Covered(ms, x, fps))
  {
    var es := Events(frames, names);
    var ts := TicksOf(es, c);
    var ms := MomentsOf(t, c);
    MomentsWellSpaced(ts, fps);
    forall i | 0 < i < |ms|
      ensures Seconds(ms[i], fps) - Seconds(ms[i - 1], fps) > 2.0
    {
      TickTestIsExact(ms[i], ms[i - 1], fps);
    }
    if ts != [] {
      FirstDetectionIsKeyMoment(ts, fps);
    }
    EventTicks(frames, names);
    TicksOfInOrder(es, c);
    EveryDetectionCovered(ts, fps);
    TicksCountDetections(frames, names, c);
  }

  /** `last_moment_time` holds, for every class with key moments, the last of them. */
  ghost predicate LastTimes(lastMomentTime: map<string, int>, keyMoments: map<string, seq<nat>>, fps: nat)
  {
    && lastMomentTime.Keys == keyMoments.Keys
    && forall c :: c in lastMomentTime ==> lastMomentTime[c] == LastMoment(keyMoments[c], fps)
  }

  /**
   * One pass of the inner loop's body, on the three dicts: the tally then describes one
   * more detection and `last_moment_time` still holds the last key moment of each class.
   */
  lemma TallyStep(stats: map<string, nat>, keyMoments: map<string, seq<nat>>, lastMomentTime: map<string, int>,
                  es: seq<Detection>, e: Detection, fps: nat,
                  stats': map<string, nat>, keyMoments': map<string, seq<nat>>, lastMomentTime': map<string, int>)
    requires e.tick > 0 && ByClass(Tally(stats, keyMoments), es, fps) && LastTimes(lastMomentTime, keyMoments, fps)
    requires var c := e.className;
             var last := if c in lastMomentTime then lastMomentTime[c] else -5 * fps;
             && stats' == stats[c := (if c in stats then stats[c] else 0) + 1]
             && keyMoments' == (if e.tick - last > 2 * fps
                                then keyMoments[c := (if c in keyMoments then keyMoments[c] else []) + [e.tick]]
                                else keyMoments)
             && lastMomentTime' == if e.tick - last > 2 * fps then lastMomentTime[c := e.tick] else lastMomentTime
    ensures ByClass(Tally(stats', keyMoments'), es + [e], fps) && LastTimes(lastMomentTime', keyMoments', fps)
  {
    var t := Tally(stats, keyMoments);
    var c := e.className;
    var last := if c in lastMomentTime then lastMomentTime[c] else -5 * fps;
    assert last == LastMoment(MomentsOf(t, c), fps);
    assert Tally(stats', keyMoments') == Step(t, e, fps);
    StepByClass(t, es, e, fps);
    if e.tick - last > 2 * fps {
      assert LastMoment(keyMoments'[c], fps) == e.tick;
    }
  }

  /**
   * The inner loop of `process_video`: the detections of the frame with tick `tick`, one
   * after another.  It fails at the first detection whose class index has no label, or at
   * the first detection at all when fps is 0; otherwise the tally describes the detections
   * seen so far followed by those of this frame.
   */
  method TallyFrame(dets: seq<nat>, tick: nat, names: ClassNames, fps: nat,
                    stats0: map<string, nat>, keyMoments0: map<string, seq<nat>>,
                    lastMomentTime0: map<string, int>, ghost es0: seq<Detection>)
    returns (r: Result<(map<string, nat>, map<string, seq<nat>>, map<string, int>), Error>)
    requires tick > 0 && ByClass(Tally(stats0, keyMoments0), es0, fps)
    requires LastTimes(lastMomentTime0, keyMoments0, fps)
    ensures r.Success? <==> Known(dets, names) && (fps > 0 || dets == [])
    ensures r.Failure? && fps > 0 ==> r.error == UnknownClass
    ensures r.Failure? && Known(dets, names) ==> r.error == ZeroFps
    ensures r.Failure? && fps == 0 ==> (r.error == UnknownClass <==> dets != [] && dets[0] !in names)
    ensures r.Success? ==>
              && Known(dets, names)
              && ByClass(Tally(r.value.0, r.value.1), es0 + FrameEvents(dets, tick, names), fps)
              && LastTimes(r.value.2, r.value.1, fps)
  {
    var stats, keyMoments, lastMomentTime := stats0, keyMoments0, lastMomentTime0;
    ghost var es := es0;
    var j := 0;
    while j < |dets|
      invariant 0 <= j <= |dets|
      invariant (forall k :: 0 <= k < j ==> dets[k] in names) && (fps > 0 || j == 0)
      invariant es == es0 + FrameEvents(dets[..j], tick, names)
      invariant ByClass(Tally(stats, keyMoments), es, fps)
      invariant LastTimes(lastMomentTime, keyMoments, fps)
    {
      var index := dets[j];
      if index !in names {
        return Failure(UnknownClass);
      }
      if fps == 0 {
        return Failure(ZeroFps);
      }
      var className := names[index];
      ghost var before := (stats, keyMoments, lastMomentTime);
      FrameEventsSnoc(es0, dets, j, tick, names);
      stats := stats[className := (if className in stats then stats[className] else 0) + 1];
      var last := if className in lastMomentTime then lastMomentTime[className] else -5 * fps;
      if tick - last > 2 * fps {
        keyMoments := keyMoments[className := (if className in keyMoments then keyMoments[className] else []) + [tick]];
        lastMomentTime := lastMomentTime[className := tick];
      }
      TallyStep(before.0, before.1, before.2, es, Detection(tick, className), fps, stats, keyMoments, lastMomentTime);
      es := es + [Detection(tick, className)];
      j := j + 1;
    }
    assert dets[..|dets|] == dets;
    return Success((stats, keyMoments, lastMomentTime));
  }

  /** The frames read are a prefix of the frames, at most `totalFrames` of them. */
  lemma ReadPrefix(frames: seq<seq<nat>>, totalFrames: int)
    ensures var read := FramesRead(frames, totalFrames);
            && |read| == (if totalFrames <= 0 then 0 else if totalFrames < |frames| then totalFrames else |frames|)
            && forall i :: 0 <= i < |read| ==> read[i] == frames[i]
  {
  }

  /** One more frame whose detections were all tallied keeps the outer loop's invariant. */
  lemma FrameDone(read: seq<seq<nat>>, f: nat, names: ClassNames, fps: nat, es: seq<Detection>)
    requires f < |read| && AllKnown(read[..f], names) && (fps > 0 || NoDetections(read[..f]))
    requires es == Events(read[..f], names)
    requires Known(read[f], names) && (fps > 0 || read[f] == [])
    ensures AllKnown(read[..f + 1], names) && (fps > 0 || NoDetections(read[..f + 1]))
    ensures es + FrameEvents(read[f], f + 1, names) == Events(read[..f + 1], names)
  {
    assert forall i :: 0 <= i < f ==> read[..f + 1][i] == read[..f][i];
    assert read[..f + 1][f] == read[f];
    EventsSnoc(read, f, names);
  }

  /** The first detection of the frames read has a class index with no label. */
  predicate FirstDetectionUnknown(read: seq<seq<nat>>, names: ClassNames)
  {
    exists f :: 0 <= f < |read| && NoDetections(read[..f]) && read[f] != [] && read[f][0] !in names
  }

  /** Frame `f` holds the first detection: whether its class is known settles the predicate. */
  lemma FirstDetectionAt(read: seq<seq<nat>>, f: nat, names: ClassNames)
    requires f < |read| && NoDetections(read[..f]) && read[f] != []
    ensures FirstDetectionUnknown(read, names) <==> read[f][0] !in names
  {
    if FirstDetectionUnknown(read, names) {
      var g :| 0 <= g < |read| && NoDetections(read[..g]) && read[g] != [] && read[g][0] !in names;
      assert forall i :: 0 <= i < f ==> read[..f][i] == read[i];
      assert forall i :: 0 <= i < g ==> read[..g][i] == read[i];
    }
  }

  /** A frame the inner loop gives up on makes the whole run fail. */
  lemma FrameFails(read: seq<seq<nat>>, f: nat, names: ClassNames, fps: nat)
    requires f < |read| && !(Known(read[f], names) && (fps > 0 || read[f] == []))
    ensures !(AllKnown(read, names) && (fps > 0 || NoDetections(read)))
    ensures !Known(read[f], names) ==> !AllKnown(read, names)
  {
  }

  /**
   * The loop of `process_video` over the frames read, as a method over the detector's
   * output: it fails exactly when some detection has an unknown class index or when a
   * detection meets a 0 fps; otherwise the tally holds, for every detected class, the
   * number of its detections and the key moments its detection ticks give.
   */
  method Aggregate(frames: seq<seq<nat>>, totalFrames: int, names: ClassNames, fps: nat)
    returns (r: Result<Tally, Error>)
    ensures var read := FramesRead(frames, totalFrames);
      r.Success? <==> AllKnown(read, names) && (fps > 0 || NoDetections(read))
    ensures r.Failure? && fps > 0 ==> r.error == UnknownClass
    ensures r.Failure? && AllKnown(FramesRead(frames, totalFrames), names) ==> r.error == ZeroFps
    ensures r.Failure? && fps == 0 ==>
              (r.error == UnknownClass <==> FirstDetectionUnknown(FramesRead(frames, totalFrames), names))
    ensures r.Success? ==> var read := FramesRead(frames, totalFrames);
      AllKnown(read, names) && ByClass(r.value, Events(read, names), fps)
  {
    ghost var read := FramesRead(frames, totalFrames);
    ReadPrefix(frames, totalFrames);
    var stats: map<string, nat> := map[];
    var keyMoments: map<string, seq<nat>> := map[];
    var lastMomentTime: map<string, int> := map[];
    ghost var es: seq<Detection> := [];
    var frameCount := 0;
    while frameCount < totalFrames
      invariant 0 <= frameCount <= |read|
      invariant AllKnown(read[..frameCount], names) && (fps > 0 || NoDetections(read[..frameCount]))
      invariant es == Events(read[..frameCount], names)
      invariant ByClass(Tally(stats, keyMoments), es, fps)
      invariant LastTimes(lastMomentTime, keyMoments, fps)
    {
      if frameCount >= |frames| {
        break;
      }
      var dets := frames[frameCount];
      var step := TallyFrame(dets, frameCount + 1, names, fps, stats, keyMoments, lastMomentTime, es);
      if step.Failure? {
        FrameFails(read, frameCount, names, fps);
        if fps == 0 {
          assert read[frameCount] == dets && dets != [];
          FirstDetectionAt(read, frameCount, names);
        }
        return Failure(step.error);
      }
      FrameDone(read, frameCount, names, fps, es);
      stats, keyMoments, lastMomentTime := step.value.0, step.value.1, step.value.2;
      es := es + FrameEvents(dets, frameCount + 1, names);
      frameCount := frameCount + 1;
    }
    assert read[..frameCount] == read;
    return Success(Tally(stats, keyMoments));
  }
}
