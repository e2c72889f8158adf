/** The analysis binary (runalyzer/src/main.rs): its identifier types and the
    per-run fold that keeps, for every ordered pair of consecutive junctions,
    the shortest time observed between them. */
module Runalyzer {
  import opened Options

  type Line = nat
  type Run = nat
  type Junction = nat

  /** One vehicle trip. */
  datatype LineRun = LineRun(line: Line, run: Run)

  /** A telegram of a run: its time stamp in whole seconds and its junction. */
  type Stamp = (nat, Junction)

  /** Gaps longer than this many seconds are not measured (`JUNCTION_MAX_DURATION`). */
  const JunctionMaxDuration: nat := 20 * 60

  /** Whether, after handling `s[i]`, the fold keeps `s[i]` as the predecessor
      of the next stamp. It does, except after an over-limit gap between two
      different junctions: `take()` has emptied `last_stamp` and `continue`
      skips the line that refills it. */
  ghost predicate Kept(s: seq<Stamp>, i: nat)
    requires i < |s|
  {
    if i == 0 || !Kept(s, i - 1) || s[i - 1].1 == s[i].1 then true
    else s[i - 1].0 <= s[i].0 && s[i].0 - s[i - 1].0 <= JunctionMaxDuration
  }

  /** At `i` the fold compares two different junctions and `duration_since`
      fails because time went backwards: the `expect` panics. */
  ghost predicate PanicsAt(s: seq<Stamp>, i: nat)
  {
    1 <= i < |s| && Kept(s, i - 1) && s[i - 1].1 != s[i].1 && s[i].0 < s[i - 1].0
  }

  ghost predicate Panics(s: seq<Stamp>)
  {
    exists i :: PanicsAt(s, i)
  }

  /** The pair `(s[i-1], s[i])` is measured: its predecessor was kept, the
      junctions differ, and the gap is within the limit. */
  ghost predicate Measured(s: seq<Stamp>, i: nat)
  {
    1 <= i < |s| && Kept(s, i - 1) && s[i - 1].1 != s[i].1 &&
    s[i - 1].0 <= s[i].0 && s[i].0 - s[i - 1].0 <= JunctionMaxDuration
  }

  function Edge(s: seq<Stamp>, i: nat): (Junction, Junction)
    requires 1 <= i < |s|
  {
    (s[i - 1].1, s[i].1)
  }

  function Gap(s: seq<Stamp>, i: nat): nat
    requires 1 <= i < |s| && s[i - 1].0 <= s[i].0
  {
    s[i].0 - s[i - 1].0
  }

  /** The table the fold builds, described by the pairs it measures: the keys
      are exactly the measured pairs, and each value is the least gap measured
      for that pair. */
  ghost predicate IsMinimalDurations(s: seq<Stamp>, n: nat, durations: map<(Junction, Junction), nat>)
    requires n <= |s|
  {
    && (forall key :: key in durations <==> exists i :: 1 <= i < n && Measured(s, i) && Edge(s, i) == key)
    && (forall i :: 1 <= i < n && Measured(s, i) ==> durations[Edge(s, i)] <= Gap(s, i))
    && (forall key :: key in durations ==>
          exists i :: 1 <= i < n && Measured(s, i) && Edge(s, i) == key && Gap(s, i) == durations[key])
  }

  /** A measured pair enters the table, or lowers its entry when its gap is
      smaller than the one stored. */
  lemma MeasureStep(s: seq<Stamp>, n: nat, durations: map<(Junction, Junction), nat>)
    requires n < |s| && Measured(s, n) && IsMinimalDurations(s, n, durations)
    ensures var key, gap := Edge(s, n), Gap(s, n);
      IsMinimalDurations(s, n + 1, if key !in durations || gap < durations[key] then durations[key := gap] else durations)
  {
    var key, gap := Edge(s, n), Gap(s, n);
    var d' := if key !in durations || gap < durations[key] then durations[key := gap] else durations;
    forall k | k in d'
      ensures exists i :: 1 <= i < n + 1 && Measured(s, i) && Edge(s, i) == k && Gap(s, i) == d'[k]
    {
      if k != key {
        var i :| 1 <= i < n && Measured(s, i) && Edge(s, i) == k && Gap(s, i) == durations[k];
      } else if d' == durations {
        var i :| 1 <= i < n && Measured(s, i) && Edge(s, i) == k && Gap(s, i) == durations[k];
      } else {
        assert Gap(s, n) == d'[k];
      }
    }
  }

  /** A stamp that is not measured leaves the table as it is. */
  lemma SkipStep(s: seq<Stamp>, n: nat, durations: map<(Junction, Junction), nat>)
    requires n < |s| && !Measured(s, n) && IsMinimalDurations(s, n, durations)
    ensures IsMinimalDurations(s, n + 1, durations)
  {
  }

  lemma NoPanicStep(s: seq<Stamp>, n: nat)
    requires (forall i :: 1 <= i < n ==> !PanicsAt(s, i)) && !PanicsAt(s, n)
    ensures forall i :: 1 <= i < n + 1 ==> !PanicsAt(s, i)
  {
  }

  /** The closure mapped over every run in `main`, for one run. `None` is the
      panic of `expect("duration_since")`. */
  method MinimalDurations(stamps: seq<Stamp>) returns (r: Option<map<(Junction, Junction), nat>>)
    ensures r.None? <==> Panics(stamps)
    ensures r.Some? ==> IsMinimalDurations(stamps, |stamps|, r.value)
  {
    var lastStamp: Option<Stamp> := None;
    var durations: map<(Junction, Junction), nat> := map[];
    for n := 0 to |stamps|
      invariant lastStamp == if n == 0 || !Kept(stamps, n - 1) then None else Some(stamps[n - 1])
      invariant forall i :: 1 <= i < n ==> !PanicsAt(stamps, i)
      invariant IsMinimalDurations(stamps, n, durations)
    {
      var (time, junction) := stamps[n];
      var last := lastStamp;
      lastStamp := None;
      if last.Some? {
        var (lastTime, lastJunction) := last.value;
        if lastJunction != junction {
          if time < lastTime {
            assert PanicsAt(stamps, n);
            return None;
          }
          var duration := time - lastTime;
          if duration > JunctionMaxDuration {
            assert !Kept(stamps, n);
            SkipStep(stamps, n, durations);
            NoPanicStep(stamps, n);
            continue;
          }
          MeasureStep(stamps, n, durations);
          NoPanicStep(stamps, n);
          var key := (lastJunction, junction);
          if key !in durations || duration < durations[key] {
            durations := durations[key := duration];
          }
        } else {
          SkipStep(stamps, n, durations);
          NoPanicStep(stamps, n);
        }
      } else {
        SkipStep(stamps, n, durations);
        NoPanicStep(stamps, n);
      }
      lastStamp := Some(stamps[n]);
    }
    assert !Panics(stamps);
    r := Some(durations);
  }

  /** Time stamps in non-decreasing order, which `stamps.sort()` on
      `(time, junction)` pairs guarantees. */
  ghost predicate TimeOrdered(s: seq<Stamp>)
  {
    forall i, j :: 0 <= i < j < |s| ==> s[i].0 <= s[j].0
  }

  /** On a sorted run `duration_since` never fails. */
  lemma SortedNeverPanics(s: seq<Stamp>)
    requires TimeOrdered(s)
    ensures !Panics(s)
  {
    forall i | 1 <= i < |s| ensures !PanicsAt(s, i) {
      assert s[i - 1].0 <= s[i].0;
    }
  }

  /** What the table holds: every value is within the limit, no junction is
      paired with itself, and every key is a pair of directly consecutive
      stamps. */
  lemma MinimalDurationsBounds(s: seq<Stamp>, durations: map<(Junction, Junction), nat>)
    requires IsMinimalDurations(s, |s|, durations)
    ensures forall key :: key in durations ==>
      durations[key] <= JunctionMaxDuration && key.0 != key.1 &&
      exists i :: 1 <= i < |s| && s[i - 1].1 == key.0 && s[i].1 == key.1
  {
    forall key | key in durations
      ensures durations[key] <= JunctionMaxDuration && key.0 != key.1
      ensures exists i :: 1 <= i < |s| && s[i - 1].1 == key.0 && s[i].1 == key.1
    {
      var i :| 1 <= i < |s| && Measured(s, i) && Edge(s, i) == key && Gap(s, i) == durations[key];
    }
  }

  /** A repeated junction adds nothing, but the later stamp becomes the
      predecessor. */
  lemma RepeatAdvancesPredecessor(s: seq<Stamp>, i: nat)
    requires 1 <= i < |s| && s[i - 1].1 == s[i].1
    ensures !Measured(s, i) && Kept(s, i)
  {
  }

  /** After an over-limit gap the pair that follows is not measured either:
      the stamp after the gap is lost as a predecessor. */
  lemma OverLimitGapDropsNextPair(s: seq<Stamp>, i: nat)
    requires 1 <= i < |s| - 1 && Kept(s, i - 1) && s[i - 1].1 != s[i].1
    requires s[i - 1].0 <= s[i].0 && s[i].0 - s[i - 1].0 > JunctionMaxDuration
    ensures !Measured(s, i) && !Measured(s, i + 1)
  {
  }
}
