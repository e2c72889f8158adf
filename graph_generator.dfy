/** The majority-vote "most likely next junction" tool
    (graph_generator/src/main.rs): for every (junction, direction) it collects
    the junctions that telegrams of the same vehicle reported shortly after,
    and keeps the most frequent one. */
module GraphGenerator {
  import opened Options

  type Junction = nat
  type Direction = nat
  type Line = nat
  type Run = nat

  /** The fields of a parsed telegram that the tool reads; `direction` is the
      telegram's `request_for_priority` field. */
  datatype Telegram = Telegram(timeStamp: nat, line: Line, runNumber: Run, direction: Direction, junction: Junction)

  /** Look-ahead horizon of the window, in seconds (`time_limit_future`). */
  const TimeLimitFuture: nat := 300

  /** Telegrams closer than this many positions are never compared. */
  const MinLookAhead: nat := 10

  // ---------------------------------------------------------------------------
  // index_of_max
  // ---------------------------------------------------------------------------

  /** `index_of_max`: `None` exactly for an empty slice, otherwise an index of a
      maximal value; `max_by_key` keeps the last of equal maxima, so every value
      after the chosen index is strictly smaller. */
  function IndexOfMax(values: seq<nat>): (r: Option<nat>)
    ensures r.None? <==> values == []
    ensures r.Some? ==>
      r.value < |values| &&
      (forall k :: 0 <= k < |values| ==> values[k] <= values[r.value]) &&
      (forall k :: r.value < k < |values| ==> values[k] < values[r.value])
  {
    if values == [] then None
    else
      match IndexOfMax(values[..|values| - 1])
      case None => Some(0)
      case Some(i) => if values[i] <= values[|values| - 1] then Some(|values| - 1) else Some(i)
  }

  // ---------------------------------------------------------------------------
  // choose_junction
  // ---------------------------------------------------------------------------

  ghost predicate Distinct<T>(s: seq<T>)
  {
    forall i, j :: 0 <= i < j < |s| ==> s[i] != s[j]
  }

  /** The counting loop of `choose_junction`: one entry per distinct junction,
      holding its multiplicity in the input. */
  method CountOccurrences(v: seq<Junction>) returns (occurrences: map<Junction, nat>)
    ensures forall j :: j in occurrences <==> j in v
    ensures forall j :: j in occurrences ==> occurrences[j] == multiset(v)[j]
  {
    occurrences := map[];
    for n := 0 to |v|
      invariant forall j :: j in occurrences <==> j in v[..n]
      invariant forall j :: j in occurrences ==> occurrences[j] == multiset(v[..n])[j]
    {
      var element := v[n];
      assert v[..n + 1] == v[..n] + [element];
      if element in occurrences {
        occurrences := occurrences[element := occurrences[element] + 1];
      } else {
        occurrences := occurrences[element := 1];
      }
    }
    assert v[..|v|] == v;
  }

  /** `into_keys` and `into_values` of the occurrence map (and of its clone,
      which iterates in the same order): every key once, in an unspecified
      order, and beside each key its count. */
  method Entries(occurrences: map<Junction, nat>) returns (keys: seq<Junction>, values: seq<nat>)
    ensures |keys| == |values|
    ensures Distinct(keys)
    ensures forall j :: j in keys <==> j in occurrences
    ensures forall i :: 0 <= i < |keys| ==> keys[i] in occurrences && values[i] == occurrences[keys[i]]
  {
    keys, values := [], [];
    var rest := occurrences.Keys;
    while rest != {}
      invariant |keys| == |values|
      invariant Distinct(keys)
      invariant rest <= occurrences.Keys
      invariant forall j :: j in keys <==> j in occurrences && j !in rest
      invariant forall i :: 0 <= i < |keys| ==> keys[i] in occurrences && values[i] == occurrences[keys[i]]
      decreases rest
    {
      var k :| k in rest;
      keys, values := keys + [k], values + [occurrences[k]];
      rest := rest - {k};
    }
  }

  /** The values `Entries` hands to `index_of_max` are the occurrence counts of
      the input, in key order, and they add up to the input's length. */
  lemma OccurrenceValues(v: seq<Junction>, occurrences: map<Junction, nat>, keys: seq<Junction>, values: seq<nat>)
    requires forall j :: j in occurrences <==> j in v
    requires forall j :: j in occurrences ==> occurrences[j] == multiset(v)[j]
    requires |keys| == |values| && Distinct(keys)
    requires forall j :: j in keys <==> j in occurrences
    requires forall i :: 0 <= i < |keys| ==> keys[i] in occurrences && values[i] == occurrences[keys[i]]
    ensures values == CountsOf(v, keys)
    ensures Sum(values) == |v|
  {
    CountsSumToLength(v, keys);
  }

  /** `choose_junction`: `None` exactly for an empty input, otherwise a junction
      of the input that occurs at least as often as any other. Which of several
      equally frequent junctions is chosen depends on hash order. */
  method ChooseJunction(v: seq<Junction>) returns (r: Option<Junction>)
    ensures r.None? <==> v == []
    ensures r.Some? ==> r.value in v && forall j :: j in v ==> multiset(v)[j] <= multiset(v)[r.value]
  {
    var occurrences := CountOccurrences(v);
    var keys, values := Entries(occurrences);
    match IndexOfMax(values)
    case Some(index) =>
      r := Some(keys[index]);
      forall j | j in v ensures multiset(v)[j] <= multiset(v)[r.value] {
        var i :| 0 <= i < |keys| && keys[i] == j;
      }
    case None =>
      r := None;
  }

  function Sum(values: seq<nat>): nat
  {
    if values == [] then 0 else values[0] + Sum(values[1..])
  }

  /** The counts of the given junctions in `v`, in the order of `keys`. */
  function CountsOf(v: seq<Junction>, keys: seq<Junction>): (counts: seq<nat>)
    ensures |counts| == |keys|
    ensures forall i :: 0 <= i < |keys| ==> counts[i] == multiset(v)[keys[i]]
  {
    if keys == [] then [] else [multiset(v)[keys[0]]] + CountsOf(v, keys[1..])
  }

  lemma {:induction false} CountsOfSnoc(v: seq<Junction>, x: Junction, keys: seq<Junction>)
    ensures Sum(CountsOf(v + [x], keys)) == Sum(CountsOf(v, keys)) + multiset(keys)[x]
  {
    if keys != [] {
      CountsOfSnoc(v, x, keys[1..]);
      assert keys == [keys[0]] + keys[1..];
    }
  }

  lemma {:induction false} DistinctOnce(keys: seq<Junction>, x: Junction)
    requires Distinct(keys) && x in keys
    ensures multiset(keys)[x] == 1
  {
    assert keys == [keys[0]] + keys[1..];
    if keys[0] != x {
      DistinctOnce(keys[1..], x);
    } else {
      assert x !in keys[1..];
    }
  }

  /** The occurrence counts, taken over the keys in any order, sum to the
      length of the input. */
  lemma {:induction false} CountsSumToLength(v: seq<Junction>, keys: seq<Junction>)
    requires Distinct(keys)
    requires forall j :: j in v ==> j in keys
    ensures Sum(CountsOf(v, keys)) == |v|
  {
    if v == [] {
      EmptyCounts(keys);
    } else {
      var w, x := v[..|v| - 1], v[|v| - 1];
      assert v == w + [x];
      CountsSumToLength(w, keys);
      CountsOfSnoc(w, x, keys);
      DistinctOnce(keys, x);
    }
  }

  lemma {:induction false} EmptyCounts(keys: seq<Junction>)
    ensures Sum(CountsOf([], keys)) == 0
  {
    if keys != [] {
      EmptyCounts(keys[1..]);
    }
  }

  // ---------------------------------------------------------------------------
  // The look-ahead window (main, first loop)
  // ---------------------------------------------------------------------------

  predicate SameRun(a: Telegram, b: Telegram)
  {
    a.line == b.line && a.runNumber == b.runNumber
  }

  function KeyOf(t: Telegram): (Junction, Direction)
  {
    (t.junction, t.direction)
  }

  /** Where the look-ahead of telegram `i` stops when it has reached `k`: at
      the end of the input, or at the first position after the start whose
      predecessor's time stamp is already past the horizon. The time test uses
      the telegram handled last, so the first telegram past the horizon is
      still handled. */
  function WindowEnd(ts: seq<Telegram>, i: nat, k: nat): (e: nat)
    requires i < |ts|
    ensures e <= |ts| && (k <= |ts| ==> k <= e)
    decreases |ts| - k
  {
    if k >= |ts| then |ts|
    else if k > i + MinLookAhead && ts[k - 1].timeStamp >= ts[i].timeStamp + TimeLimitFuture then k
    else WindowEnd(ts, i, k + 1)
  }

  /** The junctions of the telegrams in positions `lo .. e` that belong to the
      same line and run as telegram `i`, in order. */
  function Recorded(ts: seq<Telegram>, i: nat, lo: nat, e: nat): seq<Junction>
    requires i < |ts| && e <= |ts|
    decreases e
  {
    if e <= lo then []
    else Recorded(ts, i, lo, e - 1) + (if SameRun(ts[i], ts[e - 1]) then [ts[e - 1].junction] else [])
  }

  /** The list of `measured` grows only when something is recorded: the entry
      is created by the first push. */
  function Put(m: map<(Junction, Direction), seq<Junction>>, key: (Junction, Direction), rec: seq<Junction>)
    : map<(Junction, Direction), seq<Junction>>
  {
    if rec == [] then m else m[key := (if key in m then m[key] else []) + rec]
  }

  /** One push onto the measured list of `key`. */
  lemma PutSnoc(m: map<(Junction, Direction), seq<Junction>>, key: (Junction, Direction), rec: seq<Junction>, x: Junction)
    ensures var p := Put(m, key, rec);
      Put(m, key, rec + [x]) == p[key := (if key in p then p[key] else []) + [x]]
  {
    var prior := if key in m then m[key] else [];
    assert prior + (rec + [x]) == (prior + rec) + [x];
    if rec == [] {
      assert rec + [x] == [x];
      assert prior + [] == prior;
    }
  }

  /** `measured` after the window loop has handled telegrams `0 .. n`. */
  function Measured(ts: seq<Telegram>, n: nat): map<(Junction, Direction), seq<Junction>>
    requires n <= |ts|
  {
    if n == 0 then map[]
    else
      var i := n - 1;
      Put(Measured(ts, i), KeyOf(ts[i]), Recorded(ts, i, i + MinLookAhead, WindowEnd(ts, i, i + MinLookAhead)))
  }

  /** The first loop of `main`. `0..telegrams.len() - 1` underflows on an empty
      input, which panics: `None`. The last telegram never opens a window. */
  method CollectMeasurements(telegrams: seq<Telegram>) returns (r: Option<map<(Junction, Direction), seq<Junction>>>)
    ensures r.None? <==> telegrams == []
    ensures r.Some? ==> r.value == Measured(telegrams, |telegrams| - 1)
  {
    if |telegrams| == 0 {
      return None;
    }
    var measured: map<(Junction, Direction), seq<Junction>> := map[];
    for i := 0 to |telegrams| - 1
      invariant measured == Measured(telegrams, i)
    {
      var current := telegrams[i];
      var time := current.timeStamp;
      var ahead := i + MinLookAhead;
      ghost var before := measured;
      ghost var lo := i + MinLookAhead;
      while time < current.timeStamp + TimeLimitFuture && ahead < |telegrams|
        invariant lo <= ahead
        invariant ahead > |telegrams| ==> ahead == lo
        invariant time == if ahead == lo then current.timeStamp else telegrams[ahead - 1].timeStamp
        invariant ahead <= |telegrams| ==> WindowEnd(telegrams, i, ahead) == WindowEnd(telegrams, i, lo)
        invariant ahead <= |telegrams| ==> measured == Put(before, KeyOf(current), Recorded(telegrams, i, lo, ahead))
        invariant ahead > |telegrams| ==> measured == before
        decreases |telegrams| - ahead
      {
        var future := telegrams[ahead];
        time := future.timeStamp;
        assert Recorded(telegrams, i, lo, ahead + 1) ==
          Recorded(telegrams, i, lo, ahead) + (if SameRun(current, future) then [future.junction] else []);
        if current.line == future.line && current.runNumber == future.runNumber {
          var key := KeyOf(current);
          ghost var rec := Recorded(telegrams, i, lo, ahead);
          PutSnoc(before, key, rec, future.junction);
          assert Recorded(telegrams, i, lo, ahead + 1) == rec + [future.junction];
          assert measured == Put(before, key, rec);
          if key in measured {
            measured := measured[key := measured[key] + [future.junction]];
          } else {
            assert [] + [future.junction] == [future.junction];
            measured := measured[key := [future.junction]];
          }
          assert measured == Put(before, KeyOf(current), Recorded(telegrams, i, lo, ahead + 1));
        } else {
          ghost var rec := Recorded(telegrams, i, lo, ahead);
          assert rec + [] == rec;
          assert measured == Put(before, KeyOf(current), Recorded(telegrams, i, lo, ahead + 1));
        }
        ahead := ahead + 1;
      }
      assert ahead <= |telegrams| ==> ahead == WindowEnd(telegrams, i, lo);
    }
    r := Some(measured);
  }

  /** Every recorded junction comes from a telegram of the same line and run,
      at least ten positions after the telegram whose key it is stored under. */
  lemma {:induction false} MeasuredSound(ts: seq<Telegram>, n: nat, key: (Junction, Direction), x: Junction)
    requires n <= |ts|
    requires key in Measured(ts, n) && x in Measured(ts, n)[key]
    ensures exists i, k ::
              0 <= i < n && i + MinLookAhead <= k < |ts| &&
              KeyOf(ts[i]) == key && SameRun(ts[i], ts[k]) && ts[k].junction == x
  {
    var i := n - 1;
    var e := WindowEnd(ts, i, i + MinLookAhead);
    var rec := Recorded(ts, i, i + MinLookAhead, e);
    var m := Measured(ts, i);
    if rec != [] && key == KeyOf(ts[i]) && x !in (if key in m then m[key] else []) {
      assert x in rec;
      var k := RecordedSound(ts, i, i + MinLookAhead, e, x);
    } else {
      MeasuredSound(ts, i, key, x);
    }
  }

  lemma {:induction false} RecordedSound(ts: seq<Telegram>, i: nat, lo: nat, e: nat, x: Junction)
    returns (k: nat)
    requires i < |ts| && e <= |ts|
    requires x in Recorded(ts, i, lo, e)
    ensures lo <= k < e && SameRun(ts[i], ts[k]) && ts[k].junction == x
  {
    if x in Recorded(ts, i, lo, e - 1) {
      k := RecordedSound(ts, i, lo, e - 1, x);
    } else {
      k := e - 1;
    }
  }

  /** The window reaches every telegram up to and including the first one
      whose time stamp is past the horizon, and stops right after it. */
  lemma {:induction false} WindowReachesFirstLate(ts: seq<Telegram>, i: nat, k: nat)
    requires i < |ts| && i + MinLookAhead <= k < |ts|
    requires forall q :: i + MinLookAhead <= q < k ==> ts[q].timeStamp < ts[i].timeStamp + TimeLimitFuture
    ensures k < WindowEnd(ts, i, i + MinLookAhead)
    ensures ts[k].timeStamp >= ts[i].timeStamp + TimeLimitFuture ==> WindowEnd(ts, i, i + MinLookAhead) == k + 1
  {
    WindowEndFrom(ts, i, i + MinLookAhead, k);
    if ts[k].timeStamp >= ts[i].timeStamp + TimeLimitFuture && k + 1 < |ts| {
      assert WindowEnd(ts, i, k + 1) == k + 1;
    }
  }

  lemma {:induction false} WindowEndFrom(ts: seq<Telegram>, i: nat, start: nat, k: nat)
    requires i < |ts| && i + MinLookAhead <= start <= k < |ts|
    requires forall q :: i + MinLookAhead <= q < k ==> ts[q].timeStamp < ts[i].timeStamp + TimeLimitFuture
    ensures WindowEnd(ts, i, start) == WindowEnd(ts, i, k + 1)
    decreases k - start
  {
    if start < k {
      WindowEndFrom(ts, i, start + 1, k);
    }
  }

  // ---------------------------------------------------------------------------
  // The graph (main, second loop)
  // ---------------------------------------------------------------------------

  /** `drain_filter(|&mut e| e != source)`: the entries different from
      `source`, in order. */
  function Drained(v: seq<Junction>, source: Junction): (d: seq<Junction>)
    ensures forall x :: multiset(d)[x] == if x == source then 0 else multiset(v)[x]
  {
    if v == [] then []
    else
      assert v == [v[0]] + v[1..];
      (if v[0] != source then [v[0]] else []) + Drained(v[1..], source)
  }

  /** `target` occurs in `v` at least as often as every other junction. */
  ghost predicate IsMostFrequent(target: Junction, v: seq<Junction>)
  {
    target in v && forall j :: j in v ==> multiset(v)[j] <= multiset(v)[target]
  }

  /** `graph[key.0][key.1] = target`, creating the inner map when needed. */
  function Insert(graph: map<Junction, map<Direction, Junction>>, key: (Junction, Direction), target: Junction)
    : (g: map<Junction, map<Direction, Junction>>)
    ensures forall j, d :: (j in g && d in g[j]) <==> ((j in graph && d in graph[j]) || (j, d) == key)
    ensures forall j, d :: j in g && d in g[j] ==> g[j][d] == if (j, d) == key then target else graph[j][d]
    ensures forall j :: j in g ==> g[j] != map[] || (j in graph && graph[j] == map[])
  {
    var row: map<Direction, Junction> := if key.0 in graph then graph[key.0] else map[];
    graph[key.0 := row[key.1 := target]]
  }

  /** The graph built from the measured keys in `done`. */
  ghost predicate GraphFrom(graph: map<Junction, map<Direction, Junction>>,
                            measured: map<(Junction, Direction), seq<Junction>>, done: set<(Junction, Direction)>)
  {
    && (forall j, d :: (j in graph && d in graph[j]) <==>
          ((j, d) in measured && (j, d) in done && Drained(measured[(j, d)], j) != []))
    && (forall j, d :: j in graph && d in graph[j] ==>
          (j, d) in measured && IsMostFrequent(graph[j][d], Drained(measured[(j, d)], j)))
    && (forall j :: j in graph ==> graph[j] != map[])
  }

  lemma InsertStep(graph: map<Junction, map<Direction, Junction>>, measured: map<(Junction, Direction), seq<Junction>>,
                   done: set<(Junction, Direction)>, key: (Junction, Direction), target: Junction)
    requires GraphFrom(graph, measured, done) && key in measured && key !in done
    requires IsMostFrequent(target, Drained(measured[key], key.0))
    ensures GraphFrom(Insert(graph, key, target), measured, done + {key})
  {
  }

  lemma SkipStep(graph: map<Junction, map<Direction, Junction>>, measured: map<(Junction, Direction), seq<Junction>>,
                 done: set<(Junction, Direction)>, key: (Junction, Direction))
    requires GraphFrom(graph, measured, done) && key in measured && Drained(measured[key], key.0) == []
    ensures GraphFrom(graph, measured, done + {key})
  {
  }

  /** The second loop of `main`: for every measured (junction, direction), drop
      the entries equal to the junction itself and store the majority of the
      rest; keys whose list empties are not stored. The graph never maps a
      junction to itself. */
  method BuildGraph(measured: map<(Junction, Direction), seq<Junction>>)
    returns (graph: map<Junction, map<Direction, Junction>>)
    ensures forall j, d :: (j in graph && d in graph[j]) <==> ((j, d) in measured && Drained(measured[(j, d)], j) != [])
    ensures forall j, d :: j in graph && d in graph[j] ==>
      (j, d) in measured && graph[j][d] != j && IsMostFrequent(graph[j][d], Drained(measured[(j, d)], j))
    ensures forall j :: j in graph ==> graph[j] != map[]
  {
    graph := map[];
    var rest := measured.Keys;
    while rest != {}
      invariant rest <= measured.Keys
      invariant GraphFrom(graph, measured, measured.Keys - rest)
      decreases rest
    {
      var key :| key in rest;
      ghost var done := measured.Keys - rest;
      rest := rest - {key};
      assert measured.Keys - rest == done + {key};
      var drained := Drained(measured[key], key.0);
      var chosen := ChooseJunction(drained);
      match chosen
      case Some(target) =>
        InsertStep(graph, measured, done, key, target);
        graph := Insert(graph, key, target);
      case None =>
        SkipStep(graph, measured, done, key);
    }
    assert measured.Keys - rest == measured.Keys;
    forall j, d | j in graph && d in graph[j] ensures graph[j][d] != j {
      var v := Drained(measured[(j, d)], j);
      assert multiset(v)[j] == 0;
    }
  }
}
