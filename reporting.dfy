/**
 * The figures `process_video` reports once the loop is done: the helmet-compliance
 * percentage, `format_timestamp`'s MM:SS rendering and the summary built from the tally.
 */
module Reporting {
  import opened Common
  import opened Text
  import opened Detection

  /**
   * `safety_compliance`: the share of helmet key moments among all helmet-status key
   * moments, in percent, or 0 when there are none.
   */
  function SafetyCompliance(hardhat: nat, noHardhat: nat): (pct: real)
    ensures 0.0 <= pct <= 100.0
    ensures hardhat + noHardhat == 0 ==> pct == 0.0
    ensures hardhat + noHardhat > 0 ==> pct * (hardhat + noHardhat) as real == 100.0 * hardhat as real
    ensures pct == 100.0 <==> hardhat > 0 && noHardhat == 0
    ensures pct == 0.0 <==> hardhat == 0
  {
    var total := hardhat + noHardhat;
    if total > 0 then
      RatioBounds(hardhat as real, total as real);
      hardhat as real / total as real * 100.0
    else 0.0
  }

  /** A part over a positive whole, scaled to percent, is pinned down by the part. */
  lemma RatioBounds(part: real, whole: real)
    requires 0.0 <= part <= whole && whole > 0.0
    ensures var pct := part / whole * 100.0;
            && pct * whole == 100.0 * part
            && 0.0 <= pct <= 100.0
            && (pct == 100.0 <==> part == whole)
            && (pct == 0.0 <==> part == 0.0)
  {
    var q := part / whole;
    assert q * whole == part;
    var pct := q * 100.0;
    assert pct * whole == 100.0 * part;
    assert (1.0 - q) * whole == whole - part;
    if pct == 100.0 {
      assert q == 1.0;
    }
    if part == whole {
      assert (q - 1.0) * whole == 0.0;
    }
  }

  /**
   * `seconds // 60` and `int(seconds % 60)` on a time in seconds: Python's floor division
   * and floor-signed remainder, so the seconds field is always in [0, 60).
   */
  function SplitTimestamp(s: real): (mr: (int, int))
    ensures 0 <= mr.1 < 60
    ensures mr.0 * 60 + mr.1 == s.Floor
    ensures s >= 0.0 ==> mr.0 >= 0
  {
    var m := (s / 60.0).Floor;
    var rest := s - 60.0 * m as real;
    SplitBounds(s, m);
    (m, rest.Floor)
  }

  lemma SplitBounds(s: real, m: int)
    requires m == (s / 60.0).Floor
    ensures 0.0 <= s - 60.0 * m as real < 60.0
    ensures m * 60 + (s - 60.0 * m as real).Floor == s.Floor
    ensures s >= 0.0 ==> m >= 0
  {
    var q := s / 60.0;
    assert q * 60.0 == s;
    assert m as real <= q < m as real + 1.0;
    var rest := s - 60.0 * m as real;
    assert rest == (q - m as real) * 60.0;
    var r := rest.Floor;
    assert (m * 60 + r) as real <= s < (m * 60 + r) as real + 1.0;
  }

  /** `format_timestamp`: `f"{minutes:02d}:{seconds:02d}"`. */
  function FormatTimestamp(s: real): (out: string)
    ensures |out| >= 5 && out[|out| - 3] == ':'
  {
    var mr := SplitTimestamp(s);
    Pad2(mr.0) + ":" + Pad2(mr.1)
  }

  /**
   * `out` is a rendered time of `whole` seconds: two or more minute digits (zero-padded to
   * two and no further), a colon and two second digits below 60, which together give back
   * `whole`.
   */
  ghost predicate ReadsBackAs(out: string, whole: int)
  {
    && |out| >= 5 && out[|out| - 3] == ':'
    && var minutes := out[..|out| - 3];
       var secs := out[|out| - 2..];
       && |minutes| >= 2 && AllDigits(minutes) && AllDigits(secs)
       && (|minutes| > 2 ==> minutes[0] != '0')
       && Value(secs) < 60
       && Value(minutes) * 60 + Value(secs) == whole
  }

  /** Reading a rendered non-negative time back gives its whole seconds. */
  lemma FormatTimestampReadsBack(s: real)
    requires s >= 0.0
    ensures ReadsBackAs(FormatTimestamp(s), s.Floor)
  {
    var mr := SplitTimestamp(s);
    var out := FormatTimestamp(s);
    var mm := Pad2(mr.0);
    var ss := Pad2(mr.1);
    assert out == mm + ":" + ss;
    assert |ss| == 2;
    assert out[..|out| - 3] == mm;
    assert out[|out| - 2..] == ss;
  }

  /** A time under 100 minutes renders as exactly five characters, MM:SS. */
  lemma FormatTimestampWidth(s: real)
    requires 0.0 <= s < 6000.0
    ensures |FormatTimestamp(s)| == 5
  {
    var mr := SplitTimestamp(s);
    assert mr.0 * 60 <= s.Floor < 6000;
  }

  /** The "Ringkasan Analisis" block: its figures, without the markdown around them. */
  datatype Summary = Summary(duration: string, people: nat, hardhat: nat, noHardhat: nat,
                             compliance: real, hasChart: bool)

  const Person := "Person"
  const Hardhat := "Hardhat"
  const NoHardhat := "NO-Hardhat"

  /**
   * The summary of a finished loop: people and helmet counts are numbers of key moments
   * (`len(timestamps)`), the duration is `total_frames / fps` rendered as MM:SS, and a
   * chart is drawn when anything was detected.  With 0 fps the duration division fails.
   */
  function Summarize(t: Tally, totalFrames: int, fps: nat): (r: Result<Summary, Error>)
    ensures r.Success? <==> fps > 0
    ensures r.Success? ==>
              && r.value.people == |MomentsOf(t, Person)|
              && r.value.hardhat == |MomentsOf(t, Hardhat)|
              && r.value.noHardhat == |MomentsOf(t, NoHardhat)|
              && r.value.compliance == SafetyCompliance(r.value.hardhat, r.value.noHardhat)
              && r.value.hasChart == (t.stats != map[])
  {
    if fps == 0 then Failure(ZeroFps)
    else
      var hardhat := |MomentsOf(t, Hardhat)|;
      var noHardhat := |MomentsOf(t, NoHardhat)|;
      Success(Summary(FormatTimestamp(totalFrames as real / fps as real), |MomentsOf(t, Person)|,
                      hardhat, noHardhat, SafetyCompliance(hardhat, noHardhat), t.stats != map[]))
  }

  /**
   * What the summary says about the video, given a tally that describes its detections:
   * each reported count is at most the class's detections and is positive exactly when
   * the class was detected, and the compliance is a percentage of helmet key moments.
   */
  lemma SummaryFacts(frames: seq<seq<nat>>, names: ClassNames, fps: nat, t: Tally, totalFrames: int)
    requires AllKnown(frames, names) && fps > 0 && ByClass(t, Events(frames, names), fps)
    ensures var r := Summarize(t, totalFrames, fps);
            && r.Success?
            && r.value.people <= Count(t, Person) && (r.value.people > 0 <==> Count(t, Person) > 0)
            && r.value.hardhat <= Count(t, Hardhat) && (r.value.hardhat > 0 <==> Count(t, Hardhat) > 0)
            && r.value.noHardhat <= Count(t, NoHardhat) && (r.value.noHardhat > 0 <==> Count(t, NoHardhat) > 0)
            && 0.0 <= r.value.compliance <= 100.0
            && (r.value.hasChart <==> exists c :: Count(t, c) > 0)
  {
    var es := Events(frames, names);
    KeyMomentGuarantees(frames, names, fps, t, Person);
    KeyMomentGuarantees(frames, names, fps, t, Hardhat);
    KeyMomentGuarantees(frames, names, fps, t, NoHardhat);
    if t.stats != map[] {
      var c :| c in t.stats;
      assert Count(t, c) > 0 by {
        LabelHasTicks(es, c);
      }
    }
  }

  /**
   * The reported duration reads back as the whole seconds of the video: the frame count
   * divided by the frame rate, rounded down.
   */
  lemma SummaryDuration(t: Tally, totalFrames: nat, fps: nat)
    requires fps > 0
    ensures ReadsBackAs(Summarize(t, totalFrames, fps).value.duration, totalFrames / fps)
  {
    var n := totalFrames as real;
    var f := fps as real;
    var s := n / f;
    assert Summarize(t, totalFrames, fps).value.duration == FormatTimestamp(s);
    FloorOfQuotient(totalFrames, fps);
    FormatTimestampReadsBack(s);
  }

  /** Dividing reals and rounding down agrees with integer division. */
  lemma FloorOfQuotient(n: nat, d: nat)
    requires d > 0
    ensures (n as real / d as real).Floor == n / d
  {
    var q := (n / d) as real;
    var r := (n % d) as real;
    var b := d as real;
    assert n as real == q * b + r;
    SplitQuotient(q, r, b);
  }

  /** A quotient splits into its whole part and a fraction in [0, 1). */
  lemma SplitQuotient(q: real, r: real, b: real)
    requires b > 0.0 && 0.0 <= r < b
    ensures q + r / b == (q * b + r) / b
    ensures 0.0 <= r / b < 1.0
  {
    var z := (q * b + r) / b;
    var w := r / b;
    assert z * b == q * b + r;
    assert w * b == r;
    assert (z - q - w) * b == 0.0;
    FractionBelowOne(r, b);
  }

  lemma FractionBelowOne(r: real, b: real)
    requires b > 0.0 && 0.0 <= r < b
    ensures 0.0 <= r / b < 1.0
  {
    var w := r / b;
    assert w * b == r;
    assert (w - 1.0) * b == r - b;
    ProductSign(w, b);
    ProductSign(w - 1.0, b);
  }

  /** Multiplying by a positive number keeps the sign. */
  lemma ProductSign(x: real, y: real)
    requires y > 0.0
    ensures x > 0.0 ==> x * y > 0.0
    ensures x < 0.0 ==> x * y < 0.0
  {
  }

  /** A label that occurs among the detections has at least one tick. */
  lemma {:induction false} LabelHasTicks(es: seq<Detection>, c: string)
    requires c in Labels(es)
    ensures |TicksOf(es, c)| > 0
    decreases |es|
  {
    var p := es[..|es| - 1];
    if es[|es| - 1].className != c {
      LabelHasTicks(p, c);
    }
  }

  /**
   * A Hardhat worker seen at frames 10, 11 and 40 and a NO-Hardhat worker at frame 70, at
   * 30 fps: frames 11 and 40 fall within two seconds of frame 10, so each class has one
   * key moment and compliance is 50 %.
   */
  lemma HelmetScenario()
    ensures Moments([11, 12, 41], 30) == [11]
    ensures Moments([71], 30) == [71]
    ensures SafetyCompliance(1, 1) == 50.0
  {
    assert [11, 12, 41][..2] == [11, 12];
    assert [11, 12][..1] == [11];
  }
}
