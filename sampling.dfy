/**
 * `pick_waypoint_points`: the fallback that samples up to `max_points`
 * points along the route, evenly spaced in elapsed time, when no city entry
 * of the route has a non-empty adcode.
 */
module Sampling {
  import opened Common
  import opened RouteData
  import opened Text
  import opened Dedup
  import opened Arith

  /** The points of one step with a polyline, and that step's duration in seconds. */
  datatype Segment = Segment(points: seq<string>, duration: int)

  /** A sampled point: a "lon,lat" location and the minutes from departure to reach it. */
  datatype Sample = Sample(location: string, etaMinutes: int)

  /** Every segment has at least one point. */
  predicate WellFormed(segs: seq<Segment>)
  {
    forall k :: 0 <= k < |segs| ==> |segs[k].points| >= 1
  }

  /** The sum of the durations of all steps, those without a polyline included. */
  function TotalDuration(steps: seq<Step>): (total: int)
    ensures (forall k :: 0 <= k < |steps| ==> steps[k].duration >= 0) ==> total >= 0
  {
    if |steps| == 0 then 0 else TotalDuration(steps[..|steps| - 1]) + steps[|steps| - 1].duration
  }

  /** The steps whose polyline is not empty, in step order. */
  function StepsWithPolyline(steps: seq<Step>): (r: seq<Step>)
    ensures |r| <= |steps|
    ensures forall k :: 0 <= k < |r| ==> r[k].polyline != "" && r[k] in steps
    ensures forall i :: 0 <= i < |steps| && steps[i].polyline != "" ==> steps[i] in r
  {
    if |steps| == 0 then []
    else
      var prev := StepsWithPolyline(steps[..|steps| - 1]);
      var st := steps[|steps| - 1];
      assert forall x :: x in steps[..|steps| - 1] ==> x in steps;
      if st.polyline != "" then prev + [st] else prev
  }

  /** The kept steps of a prefix of the route come first, in the same order: the filter keeps step order. */
  lemma {:induction false} StepsWithPolylinePrefix(steps: seq<Step>, k: nat)
    requires k <= |steps|
    ensures StepsWithPolyline(steps[..k]) <= StepsWithPolyline(steps)
  {
    if k == |steps| {
      assert steps[..k] == steps;
    } else {
      var init := steps[..|steps| - 1];
      assert init[..k] == steps[..k];
      StepsWithPolylinePrefix(init, k);
      assert StepsWithPolyline(init) <= StepsWithPolyline(steps);
    }
  }

  /**
   * One segment per step whose polyline is not empty, in step order: the
   * polyline's points and the step's duration.
   */
  function Segments(steps: seq<Step>): (segs: seq<Segment>)
    ensures WellFormed(segs)
    ensures |segs| == |StepsWithPolyline(steps)|
    ensures forall k :: 0 <= k < |segs| ==>
      var st := StepsWithPolyline(steps)[k];
      segs[k] == Segment(Split(st.polyline), st.duration)
  {
    if |steps| == 0 then []
    else
      var prev := Segments(steps[..|steps| - 1]);
      var st := steps[|steps| - 1];
      if st.polyline != "" then prev + [Segment(Split(st.polyline), st.duration)] else prev
  }

  /** The summed duration of the first k segments: the time at which segment k starts. */
  function StartTime(segs: seq<Segment>, k: nat): int
    requires k <= |segs|
  {
    if k == 0 then 0 else StartTime(segs, k - 1) + segs[k - 1].duration
  }

  /** The elapsed time at which segment s ends. */
  function EndTime(segs: seq<Segment>, s: nat): int
    requires s < |segs|
  {
    StartTime(segs, s + 1)
  }

  /**
   * The i-th of maxPoints target times, evenly spaced over the total:
   * total * (i + 1) / (maxPoints + 1), truncated to whole seconds.
   */
  function Target(total: int, i: int, maxPoints: int): (t: int)
    requires 0 <= i < maxPoints
    ensures total >= 0 ==> 0 <= t <= total
  {
    if total >= 0 then ScaleDown(total, i + 1, maxPoints + 1); total * (i + 1) / (maxPoints + 1)
    else total * (i + 1) / (maxPoints + 1)
  }

  /** The list of target times: one per point wanted, none when maxPoints is not positive. */
  function TargetTimes(total: int, maxPoints: int): (ts: seq<int>)
    ensures |ts| == if maxPoints > 0 then maxPoints else 0
    ensures total >= 0 ==> Within(ts, total)
  {
    var count := if maxPoints > 0 then maxPoints else 0;
    seq(count, i requires 0 <= i < count => Target(total, i, maxPoints))
  }

  /** Times that never decrease. */
  ghost predicate Sorted(ts: seq<int>)
  {
    forall a, b :: 0 <= a < b < |ts| ==> ts[a] <= ts[b]
  }

  /** Every time of ts lies in [0, bound]. */
  ghost predicate Within(ts: seq<int>, bound: int)
  {
    forall k :: 0 <= k < |ts| ==> 0 <= ts[k] <= bound
  }

  /** Later targets are not earlier. */
  lemma TargetMonotone(total: int, i: int, j: int, maxPoints: int)
    requires total >= 0 && 0 <= i <= j < maxPoints
    ensures Target(total, i, maxPoints) <= Target(total, j, maxPoints)
  {
    MulMonotone(total, i + 1, j + 1);
    DivMonotone(total * (i + 1), total * (j + 1), maxPoints + 1);
  }

  /** For a non-negative total the target times never decrease. */
  lemma TargetTimesSorted(total: int, maxPoints: int)
    requires total >= 0
    ensures Sorted(TargetTimes(total, maxPoints))
  {
    var ts := TargetTimes(total, maxPoints);
    forall a, b | 0 <= a < b < |ts| ensures ts[a] <= ts[b] {
      TargetMonotone(total, a, b, maxPoints);
    }
  }

  /** The first segment at or after `from` that ends at or after tt, or |segs|. */
  function CoverFrom(segs: seq<Segment>, tt: int, from: nat): (s: nat)
    requires from <= |segs|
    ensures from <= s <= |segs|
    ensures forall j :: from <= j < s ==> EndTime(segs, j) < tt
    ensures s < |segs| ==> EndTime(segs, s) >= tt
    decreases |segs| - from
  {
    if from == |segs| || EndTime(segs, from) >= tt then from else CoverFrom(segs, tt, from + 1)
  }

  /** The first segment whose end time is at or after tt, or |segs| when every segment ends earlier. */
  function Cover(segs: seq<Segment>, tt: int): (s: nat)
    ensures s <= |segs|
    ensures forall j :: 0 <= j < s ==> EndTime(segs, j) < tt
    ensures s < |segs| ==> EndTime(segs, s) >= tt
  {
    CoverFrom(segs, tt, 0)
  }

  /** Any index with the two properties of Cover is Cover. */
  lemma {:induction false} CoverUnique(segs: seq<Segment>, tt: int, s: nat)
    requires s <= |segs|
    requires forall j :: 0 <= j < s ==> EndTime(segs, j) < tt
    requires s < |segs| ==> EndTime(segs, s) >= tt
    ensures Cover(segs, tt) == s
  {
  }

  /**
   * The index of the point at a fraction offset / dur of a segment with
   * `count` points: the fraction clamped to [0, 1], times count - 1,
   * truncated; a single point is always index 0.
   */
  function PointIndex(offset: int, dur: int, count: nat): (k: nat)
    requires dur > 0 && count >= 1
    ensures k < count
    ensures offset <= 0 ==> k == 0
    ensures offset >= dur ==> k == count - 1
  {
    if count == 1 || offset <= 0 then 0
    else if offset >= dur then count - 1
    else
      FractionBelowOne(offset, count - 1, dur);
      offset * (count - 1) / dur
  }

  /** x * c / d < c when 0 < x < d: a fraction below one scales c down. */
  lemma {:induction false} FractionBelowOne(x: int, c: int, d: int)
    requires 0 < x < d && c >= 1
    ensures 0 <= x * c / d < c
  {
    var k := x * c / d;
    assert x * c < d * c;
    QuotientBound(x * c, d, 0);
    if k >= c {
      MulMonotone(d, c, k);
    }
  }

  /**
   * The sample a target time yields: a point of the first segment ending at
   * or after it, at the target's fractional position within that segment.
   * None when every segment ends earlier or the covering segment's duration
   * is not positive.
   */
  function SampleAt(segs: seq<Segment>, tt: int): (r: Option<Sample>)
    requires WellFormed(segs)
    ensures r.Some? ==>
      Cover(segs, tt) < |segs| && segs[Cover(segs, tt)].duration > 0 &&
      r.value.location in segs[Cover(segs, tt)].points && r.value.etaMinutes == tt / 60
  {
    var s := Cover(segs, tt);
    if s == |segs| || segs[s].duration <= 0 then None
    else
      var seg := segs[s];
      Some(Sample(seg.points[PointIndex(tt - StartTime(segs, s), seg.duration, |seg.points|)], tt / 60))
  }

  /** The samples of the first n target times, in order, skipped targets left out. */
  function RawSamples(segs: seq<Segment>, ts: seq<int>, n: nat): (raw: seq<Sample>)
    requires WellFormed(segs) && n <= |ts|
    ensures |raw| <= n
  {
    if n == 0 then [] else RawSamples(segs, ts, n - 1) + Emitted(SampleAt(segs, ts[n - 1]))
  }

  function Location(p: Sample): string { p.location }

  /** Every sample is admitted: the location dedup has no skip condition, and reuses KeepFirst with this one. */
  predicate AnySample(p: Sample) { true }

  /**
   * The points `pick_waypoint_points` returns: none when the total duration
   * is not positive or no step has a polyline; otherwise the samples of the
   * target times, keeping the first sample at each location.
   */
  function Pick(steps: seq<Step>, maxPoints: int): (r: seq<Sample>)
    ensures |r| <= if maxPoints > 0 then maxPoints else 0
    ensures DistinctKeys(r, Location)
  {
    var segs, total := Segments(steps), TotalDuration(steps);
    if total <= 0 || |segs| == 0 then []
    else
      var ts := TargetTimes(total, maxPoints);
      var raw := RawSamples(segs, ts, |ts|);
      KeepFirstDistinct(raw, Location, AnySample);
      KeepFirst(raw, Location, AnySample)
  }

  /**
   * Where the cursor stops for a target tt, at segment s starting at tAcc
   * after passing every segment that ends before tt, s is the covering
   * segment and the sample is the point at tt's position in segment s, or
   * none when that segment's duration is not positive.
   */
  lemma {:induction false} CursorSample(segs: seq<Segment>, tt: int, s: nat, tAcc: int)
    requires WellFormed(segs) && s <= |segs| && tAcc == StartTime(segs, s)
    requires forall j :: 0 <= j < s ==> EndTime(segs, j) < tt
    requires s < |segs| ==> tAcc + segs[s].duration >= tt
    ensures Cover(segs, tt) == s
    ensures s < |segs| ==>
      SampleAt(segs, tt) ==
        if segs[s].duration <= 0 then None
        else Some(Sample(segs[s].points[PointIndex(tt - tAcc, segs[s].duration, |segs[s].points|)], tt / 60))
  {
    CoverUnique(segs, tt, s);
  }

  /** Once a target lies past the last segment, no later target yields a sample. */
  lemma {:induction false} RawSamplesPastEnd(segs: seq<Segment>, ts: seq<int>, i: nat, n: nat)
    requires WellFormed(segs) && Sorted(ts) && i < n <= |ts|
    requires Cover(segs, ts[i]) == |segs|
    ensures RawSamples(segs, ts, n) == RawSamples(segs, ts, i)
  {
    var prev := RawSamples(segs, ts, n - 1);
    NoSamplePastEnd(segs, ts[i], ts[n - 1]);
    assert prev + [] == prev;
    assert RawSamples(segs, ts, n) == prev;
    if n > i + 1 {
      RawSamplesPastEnd(segs, ts, i, n - 1);
    }
  }

  /** A time no earlier than one past the last segment yields no sample. */
  lemma {:induction false} NoSamplePastEnd(segs: seq<Segment>, t0: int, tt: int)
    requires WellFormed(segs) && t0 <= tt && Cover(segs, t0) == |segs|
    ensures SampleAt(segs, tt) == None
  {
    CoverUnique(segs, tt, |segs|);
  }

  /** Every sample in raw is the sample of one of the first n target times. */
  ghost predicate FromTargets(segs: seq<Segment>, ts: seq<int>, n: nat, raw: seq<Sample>)
    requires WellFormed(segs) && n <= |ts|
  {
    forall k :: 0 <= k < |raw| ==> exists t :: 0 <= t < n && SampleAt(segs, ts[t]) == Some(raw[k])
  }

  /** ETAs never decrease along ps. */
  ghost predicate EtasSorted(ps: seq<Sample>)
  {
    forall a, b :: 0 <= a < b < |ps| ==> ps[a].etaMinutes <= ps[b].etaMinutes
  }

  /** Every ETA of ps lies in [0, bound]. */
  ghost predicate EtasWithin(ps: seq<Sample>, bound: int)
  {
    forall k :: 0 <= k < |ps| ==> 0 <= ps[k].etaMinutes <= bound
  }

  /** Every raw sample is the sample of one of the first n target times. */
  lemma {:induction false} RawSamplesFromTargets(segs: seq<Segment>, ts: seq<int>, n: nat)
    requires WellFormed(segs) && n <= |ts|
    ensures FromTargets(segs, ts, n, RawSamples(segs, ts, n))
  {
    if n > 0 {
      RawSamplesFromTargets(segs, ts, n - 1);
      var prev := RawSamples(segs, ts, n - 1);
      var raw := RawSamples(segs, ts, n);
      assert FromTargets(segs, ts, n - 1, prev);
      forall k | 0 <= k < |raw|
        ensures exists t :: 0 <= t < n && SampleAt(segs, ts[t]) == Some(raw[k])
      {
        if k < |prev| {
          assert raw[k] == prev[k];
          var t :| 0 <= t < n - 1 && SampleAt(segs, ts[t]) == Some(prev[k]);
        } else {
          assert SampleAt(segs, ts[n - 1]) == Some(raw[k]);
        }
      }
    }
  }

  /** With sorted, non-negative target times no raw sample's ETA exceeds the last target's minute. */
  lemma {:induction false} RawSamplesEtasWithin(segs: seq<Segment>, ts: seq<int>, n: nat)
    requires WellFormed(segs) && Sorted(ts) && 0 < n <= |ts|
    requires forall k :: 0 <= k < |ts| ==> 0 <= ts[k]
    ensures EtasWithin(RawSamples(segs, ts, n), ts[n - 1] / 60)
  {
    var raw := RawSamples(segs, ts, n);
    var last := ts[n - 1];
    RawSamplesFromTargets(segs, ts, n);
    assert FromTargets(segs, ts, n, raw);
    forall k | 0 <= k < |raw| ensures 0 <= raw[k].etaMinutes <= last / 60 {
      var t :| 0 <= t < n && SampleAt(segs, ts[t]) == Some(raw[k]);
      DivMonotone(ts[t], last, 60);
    }
  }

  /** With sorted, non-negative target times the raw samples' ETAs never decrease. */
  lemma {:induction false} RawSamplesEtasSorted(segs: seq<Segment>, ts: seq<int>, n: nat)
    requires WellFormed(segs) && Sorted(ts) && n <= |ts|
    requires forall k :: 0 <= k < |ts| ==> 0 <= ts[k]
    ensures EtasSorted(RawSamples(segs, ts, n))
  {
    if n > 1 {
      var raw := RawSamples(segs, ts, n);
      var prev := RawSamples(segs, ts, n - 1);
      RawSamplesEtasSorted(segs, ts, n - 1);
      RawSamplesEtasWithin(segs, ts, n - 1);
      assert EtasSorted(prev);
      assert EtasWithin(prev, ts[n - 2] / 60);
      DivMonotone(ts[n - 2], ts[n - 1], 60);
      var e := Emitted(SampleAt(segs, ts[n - 1]));
      assert raw == prev + e;
      forall a, b | 0 <= a < b < |raw| ensures raw[a].etaMinutes <= raw[b].etaMinutes {
        if b < |prev| {
          assert raw[a] == prev[a] && raw[b] == prev[b];
        } else {
          assert raw[a] == prev[a];
          assert raw[b] == e[0];
        }
      }
    }
  }

  /** With no positive total duration, or no step with a polyline, nothing is picked. */
  lemma {:induction false} PickEmpty(steps: seq<Step>, maxPoints: int)
    requires TotalDuration(steps) <= 0 || forall k :: 0 <= k < |steps| ==> steps[k].polyline == ""
    ensures Pick(steps, maxPoints) == []
  {
    NoPolylineNoSegments(steps);
  }

  lemma {:induction false} NoPolylineNoSegments(steps: seq<Step>)
    ensures (forall k :: 0 <= k < |steps| ==> steps[k].polyline == "") ==> Segments(steps) == []
  {
    if |steps| > 0 {
      NoPolylineNoSegments(steps[..|steps| - 1]);
    }
  }

  /**
   * Every picked point is the sample of one of the target times tt: a point
   * of the first segment whose end time is at or after tt, with ETA tt / 60
   * minutes.
   */
  lemma {:induction false} PickFromSegments(steps: seq<Step>, maxPoints: int)
    ensures var ts := TargetTimes(TotalDuration(steps), maxPoints);
      FromTargets(Segments(steps), ts, |ts|, Pick(steps, maxPoints))
  {
    var segs, total := Segments(steps), TotalDuration(steps);
    var r := Pick(steps, maxPoints);
    var ts := TargetTimes(total, maxPoints);
    if total > 0 && |segs| > 0 {
      var raw := RawSamples(segs, ts, |ts|);
      assert r == KeepFirst(raw, Location, AnySample);
      RawSamplesFromTargets(segs, ts, |ts|);
      assert FromTargets(segs, ts, |ts|, raw);
      KeepFirstMembers(raw, Location, AnySample);
      FromTargetsMembers(segs, ts, raw, r);
    }
  }

  /** Elements drawn from samples of the target times are samples of the target times. */
  lemma {:induction false} FromTargetsMembers(segs: seq<Segment>, ts: seq<int>, raw: seq<Sample>, r: seq<Sample>)
    requires WellFormed(segs) && FromTargets(segs, ts, |ts|, raw)
    requires forall k :: 0 <= k < |r| ==> r[k] in raw
    ensures FromTargets(segs, ts, |ts|, r)
  {
    forall k | 0 <= k < |r|
      ensures exists t :: 0 <= t < |ts| && SampleAt(segs, ts[t]) == Some(r[k])
    {
      assert r[k] in raw;
      var m :| 0 <= m < |raw| && raw[m] == r[k];
      var t :| 0 <= t < |ts| && SampleAt(segs, ts[t]) == Some(raw[m]);
      assert 0 <= t < |ts| && SampleAt(segs, ts[t]) == Some(r[k]);
    }
    assert forall k :: 0 <= k < |r| ==> exists t :: 0 <= t < |ts| && SampleAt(segs, ts[t]) == Some(r[k]);
  }

  /**
   * Picked ETAs never decrease along the result and none exceeds the total
   * duration in minutes: targets grow with their index and removing repeated
   * locations keeps a subsequence.
   */
  lemma {:induction false} PickEtas(steps: seq<Step>, maxPoints: int)
    ensures EtasSorted(Pick(steps, maxPoints))
    ensures EtasWithin(Pick(steps, maxPoints), TotalDuration(steps) / 60)
  {
    var segs, total := Segments(steps), TotalDuration(steps);
    var ts := TargetTimes(total, maxPoints);
    if total > 0 && |segs| > 0 && |ts| > 0 {
      assert Pick(steps, maxPoints) == KeepFirst(RawSamples(segs, ts, |ts|), Location, AnySample);
      TargetTimesSorted(total, maxPoints);
      KeptEtas(segs, ts, total);
    } else if total > 0 && |segs| > 0 {
      assert RawSamples(segs, ts, 0) == [];
      assert KeepFirst([], Location, AnySample) == [];
    }
  }

  /** The kept samples of sorted target times within [0, total] keep sorted ETAs within total / 60. */
  lemma {:induction false} KeptEtas(segs: seq<Segment>, ts: seq<int>, total: int)
    requires WellFormed(segs) && |ts| > 0 && Sorted(ts) && Within(ts, total)
    ensures EtasSorted(KeepFirst(RawSamples(segs, ts, |ts|), Location, AnySample))
    ensures EtasWithin(KeepFirst(RawSamples(segs, ts, |ts|), Location, AnySample), total / 60)
  {
    var raw := RawSamples(segs, ts, |ts|);
    RawSamplesEtasWithin(segs, ts, |ts|);
    RawSamplesEtasSorted(segs, ts, |ts|);
    DivMonotone(ts[|ts| - 1], total, 60);
    EtasWithinWeaken(raw, ts[|ts| - 1] / 60, total / 60);
    DedupEtas(raw, total / 60);
  }

  lemma {:induction false} EtasWithinWeaken(ps: seq<Sample>, b0: int, b1: int)
    requires EtasWithin(ps, b0) && b0 <= b1
    ensures EtasWithin(ps, b1)
  {
  }

  /** Keeping the first sample at each location keeps ETAs sorted and within their bound. */
  lemma {:induction false} DedupEtas(raw: seq<Sample>, bound: int)
    requires EtasSorted(raw) && EtasWithin(raw, bound)
    ensures EtasSorted(KeepFirst(raw, Location, AnySample))
    ensures EtasWithin(KeepFirst(raw, Location, AnySample), bound)
  {
    var r := KeepFirst(raw, Location, AnySample);
    KeepFirstOccurrences(raw, Location, AnySample);
    assert FromFirstOccurrences(raw, r, Location, AnySample);
    assert InFirstSeenOrder(raw, r, Location, AnySample);
    forall a, b | 0 <= a < b < |r| ensures r[a].etaMinutes <= r[b].etaMinutes {
      var fa := FirstIndex(raw, Location, AnySample, Location(r[a]));
      var fb := FirstIndex(raw, Location, AnySample, Location(r[b]));
      assert r[a] == raw[fa] && r[b] == raw[fb] && fa < fb;
    }
    forall k | 0 <= k < |r| ensures 0 <= r[k].etaMinutes <= bound {
      var f := FirstIndex(raw, Location, AnySample, Location(r[k]));
      assert r[k] == raw[f];
    }
  }

  /**
   * Two segments of 60 s and 120 s and a single point: the target is 90 s,
   * a quarter of the way into the second segment, so of its five points the
   * second is picked, at minute 1.
   */
  lemma {:induction false} PickExample()
    ensures Pick([Step("a", 60, []), Step("b;c;d;e;f", 120, [])], 1) == [Sample("c", 1)]
  {
    var steps := [Step("a", 60, []), Step("b;c;d;e;f", 120, [])];
    var segs := [Segment(["a"], 60), Segment(["b", "c", "d", "e", "f"], 120)];
    ExampleSegments();
    var ts := TargetTimes(180, 1);
    assert Target(180, 0, 1) == 90;
    assert |ts| == 1 && ts[0] == 90;
    ExampleSample();
    var raw := RawSamples(segs, ts, 1);
    assert raw == RawSamples(segs, ts, 0) + Emitted(SampleAt(segs, ts[0]));
    assert raw == [Sample("c", 1)];
    assert KeepFirst(raw, Location, AnySample) == raw by {
      assert raw[..0] == [];
      assert KeepFirst(raw[..0], Location, AnySample) == [];
      assert Keys([], Location) == {};
    }
  }

  lemma {:induction false} ExampleSegments()
    ensures Segments([Step("a", 60, []), Step("b;c;d;e;f", 120, [])]) ==
            [Segment(["a"], 60), Segment(["b", "c", "d", "e", "f"], 120)]
    ensures TotalDuration([Step("a", 60, []), Step("b;c;d;e;f", 120, [])]) == 180
  {
    var steps := [Step("a", 60, []), Step("b;c;d;e;f", 120, [])];
    ExampleSplit();
    ExampleFirstStep();
    assert steps[..1] == [Step("a", 60, [])];
  }

  lemma {:induction false} ExampleFirstStep()
    ensures Segments([Step("a", 60, [])]) == [Segment(["a"], 60)]
    ensures TotalDuration([Step("a", 60, [])]) == 60
  {
    var first := [Step("a", 60, [])];
    SplitPlain("a");
    assert first[..0] == [];
  }

  lemma {:induction false} ExampleSplit()
    ensures Split("b;c;d;e;f") == ["b", "c", "d", "e", "f"]
  {
    var second := ["b", "c", "d", "e", "f"];
    assert Join(second) == "b;c;d;e;f";
    SplitJoin(second);
  }

  lemma {:induction false} ExampleSample()
    ensures SampleAt([Segment(["a"], 60), Segment(["b", "c", "d", "e", "f"], 120)], 90) == Some(Sample("c", 1))
  {
    var segs := [Segment(["a"], 60), Segment(["b", "c", "d", "e", "f"], 120)];
    CursorSample(segs, 90, 1, 60);
    assert PointIndex(30, 120, 5) == 1;
  }

  /**
   * `pick_waypoint_points`: build the segments and the total, sample the
   * target times, then drop repeated locations.
   */
  method PickWaypointPoints(steps: seq<Step>, maxPoints: int) returns (r: seq<Sample>)
    ensures r == Pick(steps, maxPoints)
  {
    var segments, total := BuildSegments(steps);
    if total <= 0 || |segments| == 0 {
      return [];
    }
    var targetTimes := TargetTimes(total, maxPoints);
    TargetTimesSorted(total, maxPoints);
    var out := SampleTargets(segments, targetTimes);
    r := DedupByLocation(out);
  }

  /** The first loop of `pick_waypoint_points`: split each step's polyline and add up all durations. */
  method BuildSegments(steps: seq<Step>) returns (segments: seq<Segment>, total: int)
    ensures segments == Segments(steps) && total == TotalDuration(steps)
  {
    segments, total := [], 0;
    for k := 0 to |steps|
      invariant segments == Segments(steps[..k])
      invariant total == TotalDuration(steps[..k])
    {
      var st := steps[k];
      assert steps[..k + 1][..k] == steps[..k];
      total := total + st.duration;
      var pts := if st.polyline != "" then Split(st.polyline) else [];
      if |pts| > 0 {
        segments := segments + [Segment(pts, st.duration)];
      }
    }
    assert steps[..|steps|] == steps;
  }

  /**
   * The cursor loop of `pick_waypoint_points`: for each target time, move
   * forward past the segments that end before it; stop when the cursor runs
   * past the last segment; skip a segment whose duration is not positive;
   * otherwise take the point at the target's position in the segment.
   */
  method SampleTargets(segments: seq<Segment>, targetTimes: seq<int>) returns (out: seq<Sample>)
    requires WellFormed(segments) && Sorted(targetTimes)
    ensures out == RawSamples(segments, targetTimes, |targetTimes|)
  {
    out := [];
    var tAcc, segIdx := 0, 0;
    var i := 0;
    while i < |targetTimes|
      invariant 0 <= i <= |targetTimes| && 0 <= segIdx <= |segments|
      invariant tAcc == StartTime(segments, segIdx)
      invariant i < |targetTimes| ==> forall j :: 0 <= j < segIdx ==> EndTime(segments, j) < targetTimes[i]
      invariant out == RawSamples(segments, targetTimes, i)
    {
      var tt := targetTimes[i];
      tAcc, segIdx := SkipEnded(segments, tt, tAcc, segIdx);
      if segIdx >= |segments| {
        RawSamplesPastEnd(segments, targetTimes, i, |targetTimes|);
        break;
      }
      var pts, dur := segments[segIdx].points, segments[segIdx].duration;
      if dur > 0 {
        var ptIdx := PointIndex(tt - tAcc, dur, |pts|);
        out := out + [Sample(pts[ptIdx], tt / 60)];
      }
      assert out == RawSamples(segments, targetTimes, i + 1);
      i := i + 1;
    }
  }

  /**
   * The inner loop of the cursor: move past the segments that end before tt.
   * The cursor stops at the covering segment, whose sample is the point at
   * tt's position in it.
   */
  method SkipEnded(segments: seq<Segment>, tt: int, tAcc0: int, segIdx0: nat) returns (tAcc: int, segIdx: nat)
    requires WellFormed(segments) && segIdx0 <= |segments| && tAcc0 == StartTime(segments, segIdx0)
    requires forall j :: 0 <= j < segIdx0 ==> EndTime(segments, j) < tt
    ensures segIdx0 <= segIdx == Cover(segments, tt) <= |segments| && tAcc == StartTime(segments, segIdx)
    ensures forall j :: 0 <= j < segIdx ==> EndTime(segments, j) < tt
    ensures segIdx < |segments| ==>
      SampleAt(segments, tt) ==
        if segments[segIdx].duration <= 0 then None
        else Some(Sample(segments[segIdx].points[PointIndex(tt - tAcc, segments[segIdx].duration,
                                                            |segments[segIdx].points|)], tt / 60))
  {
    tAcc, segIdx := tAcc0, segIdx0;
    while segIdx < |segments| && tAcc + segments[segIdx].duration < tt
      invariant segIdx0 <= segIdx <= |segments|
      invariant tAcc == StartTime(segments, segIdx)
      invariant forall j :: 0 <= j < segIdx ==> EndTime(segments, j) < tt
      decreases |segments| - segIdx
    {
      tAcc := tAcc + segments[segIdx].duration;
      segIdx := segIdx + 1;
    }
    CursorSample(segments, tt, segIdx, tAcc);
  }

  /** The final loop of `pick_waypoint_points`: keep the first sample at each location. */
  method DedupByLocation(samples: seq<Sample>) returns (dedup: seq<Sample>)
    ensures dedup == KeepFirst(samples, Location, AnySample)
  {
    var seen: set<string> := {};
    dedup := [];
    for k := 0 to |samples|
      invariant dedup == KeepFirst(samples[..k], Location, AnySample)
      invariant seen == Keys(dedup, Location)
    {
      var p := samples[k];
      assert samples[..k + 1][..k] == samples[..k];
      if p.location !in seen {
        LocationsAppend(dedup, p);
        seen := seen + {p.location};
        dedup := dedup + [p];
      }
    }
    assert samples[..|samples|] == samples;
  }

  lemma {:induction false} LocationsAppend(kept: seq<Sample>, p: Sample)
    ensures Keys(kept + [p], Location) == Keys(kept, Location) + {p.location}
  {
    var ys := kept + [p];
    assert ys[|kept|] == p;
    forall a | a in Keys(ys, Location) ensures a in Keys(kept, Location) + {p.location} {
      var k :| 0 <= k < |ys| && Location(ys[k]) == a;
      if k < |kept| {
        assert ys[k] == kept[k];
      }
    }
    forall a | a in Keys(kept, Location) ensures a in Keys(ys, Location) {
      var k :| 0 <= k < |kept| && Location(kept[k]) == a;
      assert ys[k] == kept[k];
    }
  }
}
