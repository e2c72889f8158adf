/** Cutting telegram runs at known stops (runalyzer/src/segments.rs). */
module Segments {
  import opened Options
  import opened Runalyzer

  /** An entry of a segment: the time since the previous entry and the junction. */
  type Step = (nat, Junction)

  // ---------------------------------------------------------------------------
  // Known-stop positions of a run
  // ---------------------------------------------------------------------------

  /** Strictly increasing positions below `len`: each one below the next. */
  ghost predicate ValidPositions(len: nat, p: seq<nat>)
  {
    (forall m :: 0 <= m < |p| ==> p[m] < len) &&
    (forall m, m' :: 0 <= m < m' < |p| ==> p[m] < p[m'])
  }

  lemma WidenPositions(len: nat, len': nat, p: seq<nat>)
    requires ValidPositions(len, p) && len <= len'
    ensures ValidPositions(len', p)
  {
  }

  /** Valid positions are sorted: any earlier one lies below any later one. */
  lemma {:induction false} PositionsSorted(len: nat, p: seq<nat>)
    requires ValidPositions(len, p)
    ensures forall m, m' :: 0 <= m <= m' < |p| ==> p[m] <= p[m']
  {
    if |p| > 1 {
      var shorter := p[..|p| - 1];
      assert ValidPositions(len, shorter);
      PositionsSorted(len, shorter);
      assert forall m :: 0 <= m < |shorter| ==> shorter[m] == p[m];
      forall m | 0 <= m < |p| - 1 ensures p[m] <= p[|p| - 1] {
        assert p[m] <= p[|p| - 2];
      }
    }
  }

  /** The positions of the known-stop events of `run`, in order. */
  function KnownPositions(known: set<Junction>, run: seq<Stamp>): seq<nat>
  {
    if run == [] then []
    else KnownPositions(known, run[..|run| - 1]) + (if run[|run| - 1].1 in known then [|run| - 1] else [])
  }

  /** The positions are increasing, each holds a known stop, and every known
      stop of the run is among them. */
  lemma {:induction false} KnownPositionsSpec(known: set<Junction>, run: seq<Stamp>)
    ensures var p := KnownPositions(known, run);
      && ValidPositions(|run|, p)
      && (forall m :: 0 <= m < |p| ==> run[p[m]].1 in known)
      && (forall i :: 0 <= i < |run| && run[i].1 in known ==> i in p)
  {
    if run != [] {
      var n := |run|;
      var shorter := run[..n - 1];
      KnownPositionsSpec(known, shorter);
      assert forall i :: 0 <= i < |shorter| ==> shorter[i] == run[i];
      var p := KnownPositions(known, shorter);
      WidenPositions(n - 1, n, p);
      if run[n - 1].1 in known {
        assert KnownPositions(known, run) == p + [n - 1];
      } else {
        assert KnownPositions(known, run) == p;
      }
    }
  }

  /** The known-stop positions are valid positions of the run. */
  lemma KnownPositionsValid(known: set<Junction>, run: seq<Stamp>)
    ensures ValidPositions(|run|, KnownPositions(known, run))
  {
    KnownPositionsSpec(known, run);
  }

  /** No known-stop event lies strictly between two consecutive known-stop events. */
  lemma NoKnownBetween(known: set<Junction>, run: seq<Stamp>, m: nat, i: nat)
    requires var p := KnownPositions(known, run); m + 1 < |p| && p[m] < i < p[m + 1] && i < |run|
    ensures run[i].1 !in known
  {
    var p := KnownPositions(known, run);
    KnownPositionsSpec(known, run);
    PositionsSorted(|run|, p);
  }

  /** The known-stop positions of a prefix are a prefix of those of the whole
      run, and the later ones lie beyond the prefix. */
  lemma {:induction false} KnownPositionsPrefix(known: set<Junction>, run: seq<Stamp>, n: nat)
    requires n <= |run|
    ensures var p, q := KnownPositions(known, run[..n]), KnownPositions(known, run);
      |p| <= |q| && q[..|p|] == p && forall m :: |p| <= m < |q| ==> q[m] >= n
  {
    if n < |run| {
      var shorter := run[..|run| - 1];
      assert shorter[..n] == run[..n];
      KnownPositionsPrefix(known, shorter, n);
    } else {
      assert run[..n] == run;
    }
  }

  /** `junctions.iter().map(..).filter(known).collect()`: the junctions of a run
      that are known stops, in order. */
  function KnownStops(known: set<Junction>, run: seq<Stamp>): seq<Junction>
  {
    if run == [] then []
    else KnownStops(known, run[..|run| - 1]) + (if run[|run| - 1].1 in known then [run[|run| - 1].1] else [])
  }

  /** The stop list is the run read at its known-stop positions: an
      order-preserving filter by known-stop membership. */
  lemma {:induction false} KnownStopsAtPositions(known: set<Junction>, run: seq<Stamp>)
    ensures var p := KnownPositions(known, run);
      ValidPositions(|run|, p) && |KnownStops(known, run)| == |p| &&
      forall m :: 0 <= m < |p| ==> KnownStops(known, run)[m] == run[p[m]].1
  {
    KnownPositionsSpec(known, run);
    if run != [] {
      var shorter := run[..|run| - 1];
      KnownStopsAtPositions(known, shorter);
      assert forall i :: 0 <= i < |shorter| ==> shorter[i] == run[i];
    }
  }

  /** `junctions_by_known_stops`: one result per run, in input order, holding
      the run's id, its known-stop list and its full junction list. */
  method JunctionsByKnownStops(known: set<Junction>, runJunctions: seq<(LineRun, seq<Stamp>)>)
    returns (results: seq<(LineRun, seq<Junction>, seq<Stamp>)>)
    ensures |results| == |runJunctions|
    ensures forall i :: 0 <= i < |results| ==>
      results[i].0 == runJunctions[i].0 &&
      results[i].1 == KnownStops(known, runJunctions[i].1) &&
      results[i].2 == runJunctions[i].1
  {
    results := [];
    for n := 0 to |runJunctions|
      invariant |results| == n
      invariant forall i :: 0 <= i < n ==>
        results[i] == (runJunctions[i].0, KnownStops(known, runJunctions[i].1), runJunctions[i].1)
    {
      var (lineRun, junctions) := runJunctions[n];
      var stops := KnownStops(known, junctions);
      results := results + [(lineRun, stops, junctions)];
    }
  }

  // ---------------------------------------------------------------------------
  // Durations of one segment
  // ---------------------------------------------------------------------------

  /** Time goes backwards at position `k` of `c`. */
  predicate Rewinds(c: seq<Stamp>, k: nat)
  {
    1 <= k < |c| && c[k].0 < c[k - 1].0
  }

  /** The entry produced for position `k`: duration zero first, afterwards the
      time since the entry before. */
  function StepAt(c: seq<Stamp>, k: nat): Step
    requires k < |c| && !Rewinds(c, k)
  {
    (if k == 0 then 0 else c[k].0 - c[k - 1].0, c[k].1)
  }

  /** The `map` over a closed segment, with its `last_time` closure state.
      `duration_since(..).unwrap()` panics when time goes backwards: `None`. */
  function ToDurations(c: seq<Stamp>): Option<seq<Step>>
  {
    if |c| <= 1 then Some(if c == [] then [] else [(0, c[0].1)])
    else
      var n := |c|;
      match ToDurations(c[..n - 1])
      case None => None
      case Some(d) =>
        if c[n - 1].0 < c[n - 2].0 then None
        else Some(d + [(c[n - 1].0 - c[n - 2].0, c[n - 1].1)])
  }

  /** The mapping fails exactly when time goes backwards somewhere; otherwise
      it has one entry per event: duration zero first, then the time since the
      event before. */
  lemma {:induction false} ToDurationsSpec(c: seq<Stamp>)
    ensures ToDurations(c).None? <==> exists k :: Rewinds(c, k)
    ensures ToDurations(c).Some? ==> var d := ToDurations(c).value;
      |d| == |c| && forall k :: 0 <= k < |c| ==> !Rewinds(c, k) && d[k] == StepAt(c, k)
  {
    if |c| > 1 {
      var n := |c|;
      var shorter := c[..n - 1];
      ToDurationsSpec(shorter);
      assert forall k :: Rewinds(shorter, k) ==> Rewinds(c, k);
      if ToDurations(shorter).Some? && c[n - 1].0 >= c[n - 2].0 {
        assert forall k: nat :: Rewinds(c, k) && k < n - 1 ==> Rewinds(shorter, k);
        assert forall k :: 0 <= k < n - 1 ==> StepAt(shorter, k) == StepAt(c, k);
      }
      if c[n - 1].0 < c[n - 2].0 {
        assert Rewinds(c, n - 1);
      }
    }
  }

  lemma ToDurationsFails(c: seq<Stamp>)
    ensures ToDurations(c).None? <==> exists k :: Rewinds(c, k)
  {
    ToDurationsSpec(c);
  }

  function TotalDuration(d: seq<Step>): nat
  {
    if d == [] then 0 else TotalDuration(d[..|d| - 1]) + d[|d| - 1].0
  }

  /** The durations of a segment add up to its last time stamp minus its first. */
  lemma {:induction false} DurationsSum(c: seq<Stamp>)
    requires |c| > 0 && ToDurations(c).Some?
    ensures TotalDuration(ToDurations(c).value) + c[0].0 == c[|c| - 1].0
  {
    var n := |c|;
    if n > 1 {
      var shorter := c[..n - 1];
      var ds := ToDurations(shorter).value;
      var d := ToDurations(c).value;
      DurationsSum(shorter);
      assert d == ds + [(c[n - 1].0 - c[n - 2].0, c[n - 1].1)];
      ToDurationsSpec(shorter);
      assert d[..n - 1] == ds;
    }
  }

  /** On time-ordered input the `unwrap` never fails. */
  lemma OrderedDurationsExist(c: seq<Stamp>)
    requires TimeOrdered(c)
    ensures ToDurations(c).Some?
  {
    forall k | 1 <= k < |c| ensures !Rewinds(c, k) {
      assert c[k - 1].0 <= c[k].0;
    }
    ToDurationsSpec(c);
  }

  // ---------------------------------------------------------------------------
  // The closed segments of a run
  // ---------------------------------------------------------------------------

  /** Where the `m`-th closed segment starts: just after the first known stop
      for `m == 0`, because the buffer starts out empty, and at its opening
      known stop for every later one. */
  function WindowStart(p: seq<nat>, m: nat): nat
    requires m < |p|
  {
    if m == 0 then p[0] + 1 else p[m]
  }

  /** The entries of the `m`-th closed segment, up to and including its
      closing known stop. */
  function Window(run: seq<Stamp>, p: seq<nat>, m: nat): seq<Stamp>
    requires m + 1 < |p| && WindowStart(p, m) <= p[m + 1] < |run|
  {
    run[WindowStart(p, m) .. p[m + 1] + 1]
  }

  /** A closed segment before its durations are taken: the pair of known stops
      it runs between, and its entries. */
  type Piece = ((Junction, Junction), seq<Stamp>)

  function PieceAt(run: seq<Stamp>, p: seq<nat>, m: nat): Piece
    requires m + 1 < |p| && WindowStart(p, m) <= p[m + 1] < |run|
  {
    ((run[p[m]].1, run[p[m + 1]].1), Window(run, p, m))
  }

  /** The closed segments of a run whose known stops lie at `p`, in order. */
  function Pieces(run: seq<Stamp>, p: seq<nat>): seq<Piece>
    requires ValidPositions(|run|, p)
  {
    if |p| < 2 then []
    else
      var n := |p|;
      assert ValidPositions(|run|, p[..n - 1]);
      Pieces(run, p[..n - 1]) + [PieceAt(run, p, n - 2)]
  }

  function ClosedSegments(p: seq<nat>): nat
  {
    if |p| == 0 then 0 else |p| - 1
  }

  /** There is one piece per pair of consecutive known stops. */
  lemma {:induction false} PiecesLength(run: seq<Stamp>, p: seq<nat>)
    requires ValidPositions(|run|, p)
    ensures |Pieces(run, p)| == ClosedSegments(p)
  {
    if |p| >= 2 {
      var shorter := p[..|p| - 1];
      assert ValidPositions(|run|, shorter);
      PiecesLength(run, shorter);
    }
  }

  /** The `m`-th piece spans the `m`-th window. */
  lemma {:induction false} PieceIndex(run: seq<Stamp>, p: seq<nat>, m: nat)
    requires ValidPositions(|run|, p) && m < ClosedSegments(p)
    ensures |Pieces(run, p)| == ClosedSegments(p) && Pieces(run, p)[m] == PieceAt(run, p, m)
  {
    PiecesLength(run, p);
    var shorter := p[..|p| - 1];
    assert ValidPositions(|run|, shorter);
    PiecesLength(run, shorter);
    if m < |p| - 2 {
      PieceIndex(run, shorter, m);
      assert shorter[m] == p[m] && shorter[m + 1] == p[m + 1];
    }
  }

  /** A known stop appended to the positions closes one more piece. */
  lemma PiecesSnoc(run: seq<Stamp>, p: seq<nat>, i: nat)
    requires ValidPositions(|run|, p) && ValidPositions(|run|, p + [i]) && |p| >= 1
    ensures Pieces(run, p + [i]) == Pieces(run, p) + [PieceAt(run, p + [i], |p| - 1)]
  {
    assert (p + [i])[..|p|] == p;
  }

  /** The pieces of a prefix of the positions are a prefix of the pieces. */
  lemma {:induction false} PiecesPrefix(run: seq<Stamp>, p: seq<nat>, q: seq<nat>)
    requires ValidPositions(|run|, q) && |p| <= |q| && p == q[..|p|]
    ensures ValidPositions(|run|, p)
    ensures ClosedSegments(p) <= |Pieces(run, q)| && Pieces(run, p) == Pieces(run, q)[..ClosedSegments(p)]
  {
    PiecesLength(run, q);
    if |p| < |q| {
      var shorter := q[..|q| - 1];
      assert ValidPositions(|run|, shorter);
      assert p == shorter[..|p|];
      PiecesPrefix(run, p, shorter);
      PiecesLength(run, shorter);
      if |q| >= 2 {
        assert Pieces(run, q) == Pieces(run, shorter) + [PieceAt(run, q, |q| - 2)];
        assert Pieces(run, q)[..|Pieces(run, shorter)|] == Pieces(run, shorter);
      }
    } else {
      assert p == q;
    }
  }

  // ---------------------------------------------------------------------------
  // Folding the pieces into the result map
  // ---------------------------------------------------------------------------

  /** The `by_known.insert` calls, one piece after the other: a later piece
      with the same pair of stops replaces an earlier one, and a panic in the
      duration mapping of any piece is a panic of the whole call. */
  function Fold(ps: seq<Piece>): Option<map<(Junction, Junction), seq<Step>>>
  {
    if ps == [] then Some(map[])
    else
      match Fold(ps[..|ps| - 1])
      case None => None
      case Some(acc) =>
        match ToDurations(ps[|ps| - 1].1)
        case None => None
        case Some(d) => Some(acc[ps[|ps| - 1].0 := d])
  }

  lemma FoldSnoc(ps: seq<Piece>, x: Piece)
    ensures Fold(ps + [x]) ==
      match Fold(ps)
      case None => None
      case Some(acc) =>
        match ToDurations(x.1)
        case None => None
        case Some(d) => Some(acc[x.0 := d])
  {
    assert (ps + [x])[..|ps|] == ps;
  }

  /** The fold fails exactly when the duration mapping of some piece fails. */
  lemma {:induction false} FoldFails(ps: seq<Piece>)
    ensures Fold(ps).None? <==> exists j :: 0 <= j < |ps| && ToDurations(ps[j].1).None?
  {
    if ps != [] {
      var shorter := ps[..|ps| - 1];
      FoldFails(shorter);
      assert forall j :: 0 <= j < |shorter| ==> shorter[j] == ps[j];
      if Fold(shorter).None? {
        var j :| 0 <= j < |shorter| && ToDurations(shorter[j].1).None?;
        assert ToDurations(ps[j].1).None?;
      } else if ToDurations(ps[|ps| - 1].1).Some? {
        assert Fold(ps).Some?;
      }
    }
  }

  /** A failure in a prefix of the pieces is a failure of the whole fold. */
  lemma {:induction false} FoldPrefixFails(ps: seq<Piece>, qs: seq<Piece>)
    requires |ps| <= |qs| && ps == qs[..|ps|] && Fold(ps).None?
    ensures Fold(qs).None?
  {
    FoldFails(ps);
    FoldFails(qs);
    var j :| 0 <= j < |ps| && ToDurations(ps[j].1).None?;
    assert qs[j] == ps[j];
  }

  /** The last piece whose pair of stops is `key`, or -1 if there is none. */
  function LastWith(ps: seq<Piece>, key: (Junction, Junction)): (r: int)
    ensures -1 <= r < |ps|
  {
    if ps == [] then -1
    else if ps[|ps| - 1].0 == key then |ps| - 1
    else LastWith(ps[..|ps| - 1], key)
  }

  /** `LastWith` finds the last piece with the key and misses only when there
      is none. */
  lemma {:induction false} LastWithSpec(ps: seq<Piece>, key: (Junction, Junction))
    ensures var r := LastWith(ps, key);
      && (r == -1 <==> forall j :: 0 <= j < |ps| ==> ps[j].0 != key)
      && (r >= 0 ==> ps[r].0 == key && forall j :: r < j < |ps| ==> ps[j].0 != key)
  {
    if ps != [] && ps[|ps| - 1].0 != key {
      var shorter := ps[..|ps| - 1];
      LastWithSpec(shorter, key);
      assert forall j :: 0 <= j < |shorter| ==> shorter[j] == ps[j];
    }
  }

  /** When the fold succeeds, a key is present exactly when some piece has it,
      and it holds the durations of the last such piece. */
  lemma {:induction false} FoldEntries(ps: seq<Piece>, key: (Junction, Junction))
    requires Fold(ps).Some?
    ensures var acc, r := Fold(ps).value, LastWith(ps, key);
      (key in acc <==> r >= 0) && (r >= 0 ==> ToDurations(ps[r].1) == Some(acc[key]))
  {
    if ps != [] {
      var shorter := ps[..|ps| - 1];
      FoldEntries(shorter, key);
      if ps[|ps| - 1].0 != key {
        assert LastWith(ps, key) == LastWith(shorter, key);
        if LastWith(shorter, key) >= 0 {
          assert ps[LastWith(shorter, key)] == shorter[LastWith(shorter, key)];
        }
      }
    }
  }

  /** What `segment_run_by_known_stops` returns for a run. */
  function Segmentation(known: set<Junction>, run: seq<Stamp>): Option<map<(Junction, Junction), seq<Step>>>
  {
    KnownPositionsValid(known, run);
    Fold(Pieces(run, KnownPositions(known, run)))
  }

  // ---------------------------------------------------------------------------
  // The scan of segment_run_by_known_stops
  // ---------------------------------------------------------------------------

  /** The open buffer of `segment_run_by_known_stops` after `i` entries with
      known stops at `p`: empty until the first known stop, then the entries
      since the opening stop, without it the first time and with it afterwards. */
  function Buffer(run: seq<Stamp>, p: seq<nat>, i: nat): seq<Stamp>
    requires i <= |run| && (|p| > 0 ==> p[|p| - 1] < i)
  {
    if |p| == 0 then [] else if |p| == 1 then run[p[0] + 1 .. i] else run[p[|p| - 1] .. i]
  }

  /** The state of `segment_run_by_known_stops` after `i` entries whose known
      stops lie at `p`: the last known stop seen, the open buffer and the
      segments closed so far. */
  ghost predicate Scanned(run: seq<Stamp>, i: nat, p: seq<nat>, lastKnown: Option<Junction>,
                          next: seq<Stamp>, byKnown: map<(Junction, Junction), seq<Step>>)
    requires i <= |run|
  {
    && ValidPositions(i, p)
    && ValidPositions(|run|, p)
    && lastKnown == (if |p| == 0 then None else Some(run[p[|p| - 1]].1))
    && next == Buffer(run, p, i)
    && Fold(Pieces(run, p)) == Some(byKnown)
  }

  lemma PositionsStep(known: set<Junction>, run: seq<Stamp>, i: nat)
    requires i < |run|
    ensures KnownPositions(known, run[..i + 1]) ==
      KnownPositions(known, run[..i]) + (if run[i].1 in known then [i] else [])
  {
    assert run[..i + 1][..i] == run[..i];
  }

  lemma SliceSnoc(s: seq<Stamp>, a: nat, b: nat)
    requires a <= b < |s|
    ensures s[a .. b + 1] == s[a .. b] + [s[b]]
  {
  }

  lemma SliceOne(s: seq<Stamp>, i: nat)
    requires i < |s|
    ensures s[i .. i + 1] == [s[i]]
  {
  }

  /** An entry that is not a known stop only extends the open buffer. */
  lemma ScanOther(run: seq<Stamp>, i: nat, p: seq<nat>, lastKnown: Option<Junction>,
                  next: seq<Stamp>, byKnown: map<(Junction, Junction), seq<Step>>)
    requires i < |run|
    requires Scanned(run, i, p, lastKnown, next, byKnown)
    ensures Scanned(run, i + 1, p, lastKnown, if lastKnown.Some? then next + [run[i]] else next, byKnown)
  {
    WidenPositions(i, i + 1, p);
    if |p| == 1 {
      SliceSnoc(run, p[0] + 1, i);
    } else if |p| > 1 {
      SliceSnoc(run, p[|p| - 1], i);
    }
  }

  /** Appending a position beyond all others keeps the positions valid. */
  lemma ExtendPositions(len: nat, i: nat, p: seq<nat>)
    requires ValidPositions(i, p) && i < len
    ensures ValidPositions(i + 1, p + [i]) && ValidPositions(len, p + [i])
  {
  }

  /** The first known stop opens the first buffer, which stays empty. */
  lemma ScanFirstKnown(run: seq<Stamp>, i: nat, p: seq<nat>,
                       next: seq<Stamp>, byKnown: map<(Junction, Junction), seq<Step>>)
    requires i < |run|
    requires Scanned(run, i, p, None, next, byKnown)
    ensures Scanned(run, i + 1, p + [i], Some(run[i].1), next, byKnown)
  {
    ExtendPositions(|run|, i, p);
    assert run[i + 1 .. i + 1] == [];
  }

  /** The open buffer with the closing entry appended is the new window. */
  lemma BufferCloses(run: seq<Stamp>, p: seq<nat>, i: nat)
    requires i < |run| && ValidPositions(i, p) && ValidPositions(|run|, p + [i]) && |p| >= 1
    ensures Buffer(run, p, i) + [run[i]] == Window(run, p + [i], |p| - 1)
  {
    if |p| == 1 {
      SliceSnoc(run, p[0] + 1, i);
    } else {
      SliceSnoc(run, p[|p| - 1], i);
    }
  }

  /** A later known stop closes the buffer, extended by its own entry, as the
      next piece, keyed by the opening and the closing stop. */
  lemma ScanClose(run: seq<Stamp>, i: nat, p: seq<nat>, opening: Junction,
                  next: seq<Stamp>, byKnown: map<(Junction, Junction), seq<Step>>)
    requires i < |run|
    requires Scanned(run, i, p, Some(opening), next, byKnown)
    ensures ValidPositions(i + 1, p + [i]) && ValidPositions(|run|, p + [i])
    ensures Pieces(run, p + [i]) == Pieces(run, p) + [((opening, run[i].1), next + [run[i]])]
  {
    ExtendPositions(|run|, i, p);
    BufferCloses(run, p, i);
    PiecesSnoc(run, p, i);
  }

  /** Right after a later known stop the buffer holds just that entry. */
  lemma BufferReopens(run: seq<Stamp>, p: seq<nat>, i: nat)
    requires i < |run| && |p| >= 1 && ValidPositions(i + 1, p + [i])
    ensures Buffer(run, p + [i], i + 1) == [run[i]]
  {
    SliceOne(run, i);
  }

  /** A panic while closing a piece is a panic of the whole call. */
  lemma ScanPanics(known: set<Junction>, run: seq<Stamp>, i: nat)
    requires i < |run|
    requires var p' := KnownPositions(known, run[..i + 1]);
      ValidPositions(|run|, p') && Fold(Pieces(run, p')).None?
    ensures Segmentation(known, run).None?
  {
    var p' := KnownPositions(known, run[..i + 1]);
    var q := KnownPositions(known, run);
    KnownPositionsSpec(known, run);
    KnownPositionsPrefix(known, run, i + 1);
    PiecesPrefix(run, p', q);
    FoldPrefixFails(Pieces(run, p'), Pieces(run, q));
  }

  /** A known stop after an earlier one: the piece closes and the buffer
      reopens, or the duration mapping panics and so does the whole call. */
  lemma ScanKnownAfterKnown(known: set<Junction>, run: seq<Stamp>, i: nat, p: seq<nat>, opening: Junction,
                            next: seq<Stamp>, byKnown: map<(Junction, Junction), seq<Step>>)
    requires i < |run| && run[i].1 in known && p + [i] == KnownPositions(known, run[..i + 1])
    requires Scanned(run, i, p, Some(opening), next, byKnown)
    ensures ToDurations(next + [run[i]]).None? ==> Segmentation(known, run).None?
    ensures ToDurations(next + [run[i]]).Some? ==>
      Scanned(run, i + 1, p + [i], Some(run[i].1), [run[i]],
              byKnown[(opening, run[i].1) := ToDurations(next + [run[i]]).value])
  {
    ScanClose(run, i, p, opening, next, byKnown);
    FoldSnoc(Pieces(run, p), ((opening, run[i].1), next + [run[i]]));
    if ToDurations(next + [run[i]]).None? {
      ScanPanics(known, run, i);
    } else {
      BufferReopens(run, p, i);
    }
  }

  /** The loop state of `segment_run_by_known_stops` after `i` stamps. */
  ghost predicate ScanState(known: set<Junction>, run: seq<Stamp>, i: nat, p: seq<nat>, lastKnown: Option<Junction>,
                            next: seq<Stamp>, byKnown: map<(Junction, Junction), seq<Step>>)
  {
    i <= |run| && p == KnownPositions(known, run[..i]) && Scanned(run, i, p, lastKnown, next, byKnown)
  }

  /** `segment_run_by_known_stops`. `None` is a panic of the `unwrap` in the
      duration mapping. */
  method SegmentRunByKnownStops(known: set<Junction>, junctions: seq<Stamp>)
    returns (r: Option<map<(Junction, Junction), seq<Step>>>)
    ensures r == Segmentation(known, junctions)
  {
    var byKnown: map<(Junction, Junction), seq<Step>> := map[];
    var lastKnown: Option<Junction> := None;
    var next: seq<Stamp> := [];
    ghost var p: seq<nat> := [];
    for i := 0 to |junctions|
      invariant ScanState(known, junctions, i, p, lastKnown, next, byKnown)
    {
      var junction := junctions[i].1;
      PositionsStep(known, junctions, i);
      var before := next;
      if lastKnown.Some? {
        next := next + [junctions[i]];
      }
      if junction in known {
        var opening := lastKnown;
        lastKnown := None;
        if opening.Some? {
          ScanKnownAfterKnown(known, junctions, i, p, opening.value, before, byKnown);
          var current := next;
          next := [junctions[i]];
          var segment := ToDurations(current);
          if segment.None? {
            return None;
          }
          byKnown := byKnown[(opening.value, junction) := segment.value];
        } else {
          ScanFirstKnown(junctions, i, p, next, byKnown);
        }
        lastKnown := Some(junction);
        p := p + [i];
      } else {
        ScanOther(junctions, i, p, lastKnown, before, byKnown);
        assert p + [] == p;
      }
    }
    assert junctions[..|junctions|] == junctions;
    r := Some(byKnown);
  }

  // ---------------------------------------------------------------------------
  // What a segmentation holds
  // ---------------------------------------------------------------------------

  /** The window of a piece reads the run from its start up to its closing stop. */
  lemma WindowIndex(run: seq<Stamp>, p: seq<nat>, m: nat)
    requires ValidPositions(|run|, p) && m + 1 < |p|
    ensures var w, start := Window(run, p, m), WindowStart(p, m);
      && |w| == p[m + 1] + 1 - start >= 1
      && w[|w| - 1] == run[p[m + 1]]
      && forall k :: 0 <= k < |w| ==> w[k] == run[start + k]
  {
  }

  /** No known stop lies strictly inside a window: only its closing stop and,
      after the first window, its opening stop are known. */
  lemma WindowInterior(known: set<Junction>, run: seq<Stamp>, m: nat)
    requires m + 1 < |KnownPositions(known, run)|
    ensures var p := KnownPositions(known, run);
      ValidPositions(|run|, p) &&
      var w := Window(run, p, m);
      forall k :: (if m == 0 then 0 else 1) <= k < |w| - 1 ==> w[k].1 !in known
  {
    var p := KnownPositions(known, run);
    KnownPositionsSpec(known, run);
    WindowIndex(run, p, m);
    var w, start := Window(run, p, m), WindowStart(p, m);
    forall k | (if m == 0 then 0 else 1) <= k < |w| - 1 ensures w[k].1 !in known {
      NoKnownBetween(known, run, m, start + k);
    }
  }

  /** The durations of a segment: one entry per event with its junction, zero
      first, adding up to the time from its first event to its last. */
  lemma DurationsShape(c: seq<Stamp>)
    requires c != [] && ToDurations(c).Some?
    ensures var d := ToDurations(c).value;
      && |d| == |c|
      && d[0].0 == 0
      && (forall k :: 0 <= k < |c| ==> d[k].1 == c[k].1)
      && TotalDuration(d) + c[0].0 == c[|c| - 1].0
  {
    ToDurationsSpec(c);
    DurationsSum(c);
  }

  /** The fold over the pieces fails exactly when time goes backwards inside
      one of the windows. */
  lemma PiecesFail(run: seq<Stamp>, p: seq<nat>)
    requires ValidPositions(|run|, p)
    ensures Fold(Pieces(run, p)).None? <==>
      exists m, k :: 0 <= m < ClosedSegments(p) && Rewinds(Window(run, p, m), k)
  {
    var ps := Pieces(run, p);
    PiecesLength(run, p);
    FoldFails(ps);
    if Fold(ps).None? {
      var m :| 0 <= m < |ps| && ToDurations(ps[m].1).None?;
      PieceIndex(run, p, m);
      ToDurationsFails(Window(run, p, m));
    } else {
      forall m, k | 0 <= m < ClosedSegments(p) ensures !Rewinds(Window(run, p, m), k) {
        PieceIndex(run, p, m);
        ToDurationsFails(Window(run, p, m));
      }
    }
  }

  /** `segment_run_by_known_stops` panics exactly when time goes backwards
      inside one of the windows between consecutive known stops. */
  lemma SegmentationFails(known: set<Junction>, run: seq<Stamp>)
    ensures var p := KnownPositions(known, run);
      ValidPositions(|run|, p) &&
      (Segmentation(known, run).None? <==>
        exists m, k :: 0 <= m < ClosedSegments(p) && Rewinds(Window(run, p, m), k))
  {
    KnownPositionsValid(known, run);
    PiecesFail(run, KnownPositions(known, run));
  }

  /** When the fold succeeds, a key is present exactly when some pair of
      consecutive known stops has it. */
  lemma PiecesKeys(run: seq<Stamp>, p: seq<nat>, key: (Junction, Junction))
    requires ValidPositions(|run|, p) && Fold(Pieces(run, p)).Some?
    ensures key in Fold(Pieces(run, p)).value <==>
      exists m :: 0 <= m < ClosedSegments(p) && key == (run[p[m]].1, run[p[m + 1]].1)
  {
    var ps := Pieces(run, p);
    PiecesLength(run, p);
    FoldEntries(ps, key);
    LastWithSpec(ps, key);
    var r := LastWith(ps, key);
    if r >= 0 {
      PieceIndex(run, p, r);
    }
    forall m | 0 <= m < ClosedSegments(p) && key == (run[p[m]].1, run[p[m + 1]].1) ensures r >= 0 {
      PieceIndex(run, p, m);
    }
  }

  /** The keys of the result are exactly the pairs of consecutive known stops
      of the run. */
  lemma SegmentationKeys(known: set<Junction>, run: seq<Stamp>)
    requires Segmentation(known, run).Some?
    ensures var stops := KnownStops(known, run);
      forall key :: key in Segmentation(known, run).value <==>
        exists m :: 0 <= m < |stops| - 1 && key == (stops[m], stops[m + 1])
  {
    var p := KnownPositions(known, run);
    var stops := KnownStops(known, run);
    KnownStopsAtPositions(known, run);
    forall key ensures key in Segmentation(known, run).value <==>
      exists m :: 0 <= m < |stops| - 1 && key == (stops[m], stops[m + 1])
    {
      PiecesKeys(run, p, key);
      if key in Segmentation(known, run).value {
        var m :| 0 <= m < ClosedSegments(p) && key == (run[p[m]].1, run[p[m + 1]].1);
        assert key == (stops[m], stops[m + 1]);
      }
    }
  }

  /** A stored value is the durations of the last window with its key. */
  lemma PiecesLast(run: seq<Stamp>, p: seq<nat>, key: (Junction, Junction))
    requires ValidPositions(|run|, p) && Fold(Pieces(run, p)).Some? && key in Fold(Pieces(run, p)).value
    ensures var r := LastWith(Pieces(run, p), key);
      && 0 <= r < ClosedSegments(p)
      && (run[p[r]].1, run[p[r + 1]].1) == key
      && (forall m :: r < m < ClosedSegments(p) ==> (run[p[m]].1, run[p[m + 1]].1) != key)
      && ToDurations(Window(run, p, r)) == Some(Fold(Pieces(run, p)).value[key])
  {
    var ps := Pieces(run, p);
    PiecesLength(run, p);
    FoldEntries(ps, key);
    LastWithSpec(ps, key);
    var r := LastWith(ps, key);
    PieceIndex(run, p, r);
    forall m | r < m < ClosedSegments(p) ensures (run[p[m]].1, run[p[m + 1]].1) != key {
      PieceIndex(run, p, m);
    }
  }

  /** The durations of a window between consecutive known stops: one entry per
      event, zero first, ending at the closing stop, passing no known stop on
      the way and adding up to the window's time span. */
  lemma WindowDurations(known: set<Junction>, run: seq<Stamp>, r: nat, d: seq<Step>)
    requires r + 1 < |KnownPositions(known, run)|
    requires ValidPositions(|run|, KnownPositions(known, run))
    requires ToDurations(Window(run, KnownPositions(known, run), r)) == Some(d)
    ensures var p := KnownPositions(known, run);
      && |d| == |Window(run, p, r)| >= 1
      && d[0].0 == 0
      && (r > 0 ==> d[0].1 == run[p[r]].1)
      && d[|d| - 1].1 == run[p[r + 1]].1
      && (forall k :: 0 < k < |d| - 1 ==> d[k].1 !in known)
      && TotalDuration(d) + Window(run, p, r)[0].0 == run[p[r + 1]].0
  {
    var p := KnownPositions(known, run);
    var w := Window(run, p, r);
    assert w[|w| - 1] == run[p[r + 1]];
    assert r > 0 ==> w[0] == run[p[r]];
    WindowInterior(known, run, r);
    DurationsShape(w);
  }

  /** Every stored segment is the durations of the last window with its key:
      one entry per event of that window, with duration zero first, starting
      at the opening stop `key.0` except in the first window, ending at
      the closing stop `key.1`, passing no known stop on the way, and adding
      up to the window's time span. */
  lemma SegmentationValues(known: set<Junction>, run: seq<Stamp>, key: (Junction, Junction))
    requires Segmentation(known, run).Some? && key in Segmentation(known, run).value
    ensures var p, d := KnownPositions(known, run), Segmentation(known, run).value[key];
      && ValidPositions(|run|, p)
      && var r := LastWith(Pieces(run, p), key);
      && 0 <= r < ClosedSegments(p)
      && (run[p[r]].1, run[p[r + 1]].1) == key
      && (forall m :: r < m < ClosedSegments(p) ==> (run[p[m]].1, run[p[m + 1]].1) != key)
      && ToDurations(Window(run, p, r)) == Some(d)
      && |d| == |Window(run, p, r)| >= 1
      && d[0].0 == 0
      && (r > 0 ==> d[0].1 == key.0)
      && d[|d| - 1].1 == key.1
      && (forall k :: 0 < k < |d| - 1 ==> d[k].1 !in known)
      && TotalDuration(d) + Window(run, p, r)[0].0 == run[p[r + 1]].0
  {
    var p := KnownPositions(known, run);
    KnownPositionsValid(known, run);
    PiecesLast(run, p, key);
    var r, d := LastWith(Pieces(run, p), key), Segmentation(known, run).value[key];
    WindowDurations(known, run, r, d);
    assert r > 0 ==> d[0].1 == key.0;
  }

  /** Fewer than two known stops close no segment. */
  lemma FewStopsNoSegments(known: set<Junction>, run: seq<Stamp>)
    requires |KnownStops(known, run)| < 2
    ensures Segmentation(known, run) == Some(map[])
  {
    KnownStopsAtPositions(known, run);
  }

  /** Every slice of a time-ordered run is time-ordered. */
  lemma OrderedSlice(run: seq<Stamp>, a: nat, b: nat)
    requires TimeOrdered(run) && a <= b <= |run|
    ensures TimeOrdered(run[a..b])
  {
    var w := run[a..b];
    forall x, y | 0 <= x < y < |w| ensures w[x].0 <= w[y].0 {
      assert w[x] == run[a + x] && w[y] == run[a + y];
    }
  }

  /** A time-ordered run, as the sort in `main` produces it, never panics. */
  lemma OrderedSegmentationExists(known: set<Junction>, run: seq<Stamp>)
    requires TimeOrdered(run)
    ensures Segmentation(known, run).Some?
  {
    var p := KnownPositions(known, run);
    KnownPositionsValid(known, run);
    forall m, k | 0 <= m < ClosedSegments(p) ensures !Rewinds(Window(run, p, m), k) {
      OrderedSlice(run, WindowStart(p, m), p[m + 1] + 1);
      OrderedDurationsExist(Window(run, p, m));
      ToDurationsFails(Window(run, p, m));
    }
    PiecesFail(run, p);
  }
}
