/** Stitching OpenStreetMap route fragments into chains (runalyzer/src/osm_lines.rs). */
module OsmLines {
  import opened Options
  import opened Runalyzer

  // ---------------------------------------------------------------------------
  // Records of the Overpass export
  // ---------------------------------------------------------------------------

  type Id = nat

  datatype RecordType = Node | Way | Relation

  datatype RelationMember = RelationMember(recordType: RecordType, recordRef: Id, role: string)

  /** One element of the export. Coordinates are carried as reals and never
      inspected by the stitching. */
  datatype Record = Record(
    recordType: RecordType,
    id: Id,
    lat: Option<real>,
    lon: Option<real>,
    nodes: Option<seq<Id>>,
    members: Option<seq<RelationMember>>,
    tags: Option<map<string, string>>)

  /** A point of a way. Two waypoints are the same point when their ids agree;
      the stitching compares ids only. */
  datatype Waypoint = Waypoint(id: Id, lat: real, lon: real)

  datatype LineStop = LineStop(name: string, lat: real, lon: real)

  /** `Record::waypoint`: only a node with both coordinates is a waypoint. */
  function RecordWaypoint(r: Record): (w: Option<Waypoint>)
    ensures w.Some? <==> r.recordType == Node && r.lat.Some? && r.lon.Some?
    ensures w.Some? ==> w.value == Waypoint(r.id, r.lat.value, r.lon.value)
  {
    if r.recordType != Node then None
    else if r.lat.None? || r.lon.None? then None
    else Some(Waypoint(r.id, r.lat.value, r.lon.value))
  }

  /** `Record::line_stop`: a stop needs a `name` tag and both coordinates; a
      record that is not a node is only reported, not rejected. */
  function RecordLineStop(r: Record): (s: Option<LineStop>)
    ensures s.Some? <==> r.tags.Some? && "name" in r.tags.value && r.lat.Some? && r.lon.Some?
    ensures s.Some? ==> s.value == LineStop(r.tags.value["name"], r.lat.value, r.lon.value)
  {
    if r.tags.None? || "name" !in r.tags.value then None
    else if r.lat.None? || r.lon.None? then None
    else Some(LineStop(r.tags.value["name"], r.lat.value, r.lon.value))
  }

  // ---------------------------------------------------------------------------
  // De-duplicating the export
  // ---------------------------------------------------------------------------

  type RecordKey = (RecordType, Id)

  function KeyOf(r: Record): RecordKey
  {
    (r.recordType, r.id)
  }

  /** The record kept for `key` after the elements `es`, as the `entry(..)
      .or_insert(..)` loop leaves it: an untagged entry gives way to the next
      tagged occurrence, and is otherwise kept. */
  function Representative(es: seq<Record>, key: RecordKey): Option<Record>
  {
    if es == [] then None
    else
      var prev, x := Representative(es[..|es| - 1], key), es[|es| - 1];
      if KeyOf(x) != key then prev
      else if prev.None? then Some(x)
      else if prev.value.tags.None? && x.tags.Some? then Some(x)
      else prev
  }

  /** A key that never occurs keeps no record, and one that occurs keeps one. */
  lemma {:induction false} RepresentativeNone(es: seq<Record>, key: RecordKey)
    ensures Representative(es, key).None? <==> forall i :: 0 <= i < |es| ==> KeyOf(es[i]) != key
  {
    if es != [] {
      var shorter := es[..|es| - 1];
      RepresentativeNone(shorter, key);
      assert forall i :: 0 <= i < |shorter| ==> shorter[i] == es[i];
    }
  }

  /** Without a tagged occurrence the kept record is untagged. */
  lemma {:induction false} RepresentativeUntaggedKept(es: seq<Record>, key: RecordKey)
    requires forall j :: 0 <= j < |es| && KeyOf(es[j]) == key ==> es[j].tags.None?
    ensures Representative(es, key).Some? ==> Representative(es, key).value.tags.None?
  {
    if es != [] {
      var shorter := es[..|es| - 1];
      assert forall j :: 0 <= j < |shorter| ==> shorter[j] == es[j];
      RepresentativeUntaggedKept(shorter, key);
    }
  }

  /** The kept record is the first occurrence that has tags... */
  lemma {:induction false} RepresentativeTagged(es: seq<Record>, key: RecordKey, i: nat)
    requires i < |es| && KeyOf(es[i]) == key && es[i].tags.Some?
    requires forall j :: 0 <= j < i && KeyOf(es[j]) == key ==> es[j].tags.None?
    ensures Representative(es, key) == Some(es[i])
  {
    var shorter := es[..|es| - 1];
    assert forall j :: 0 <= j < |shorter| ==> shorter[j] == es[j];
    if i == |es| - 1 {
      RepresentativeUntaggedKept(shorter, key);
    } else {
      RepresentativeTagged(shorter, key, i);
    }
  }

  /** ...or, when no occurrence has tags, the very first occurrence. */
  lemma {:induction false} RepresentativeFirst(es: seq<Record>, key: RecordKey, i: nat)
    requires i < |es| && KeyOf(es[i]) == key
    requires forall j :: 0 <= j < i ==> KeyOf(es[j]) != key
    requires forall j :: 0 <= j < |es| && KeyOf(es[j]) == key ==> es[j].tags.None?
    ensures Representative(es, key) == Some(es[i])
  {
    var shorter := es[..|es| - 1];
    assert forall j :: 0 <= j < |shorter| ==> shorter[j] == es[j];
    if i == |es| - 1 {
      RepresentativeNone(shorter, key);
    } else {
      RepresentativeFirst(shorter, key, i);
    }
  }

  /** The de-duplication loop of `read`: one entry per `(type, id)` that
      occurs, holding its representative. */
  method Deduplicate(elements: seq<Record>) returns (records: map<RecordKey, Record>)
    ensures forall key :: key in records <==> Representative(elements, key).Some?
    ensures forall key :: key in records ==> Representative(elements, key) == Some(records[key])
  {
    records := map[];
    for n := 0 to |elements|
      invariant forall key :: key in records <==> Representative(elements[..n], key).Some?
      invariant forall key :: key in records ==> Representative(elements[..n], key) == Some(records[key])
    {
      var record := elements[n];
      assert elements[..n + 1][..n] == elements[..n];
      var key := KeyOf(record);
      if key !in records {
        records := records[key := record];
      }
      if records[key].tags.None? && record.tags.Some? {
        records := records[key := record];
      }
    }
    assert elements[..|elements|] == elements;
  }

  // ---------------------------------------------------------------------------
  // Fragments and chains
  // ---------------------------------------------------------------------------

  function Last<T>(s: seq<T>): T
    requires s != []
  {
    s[|s| - 1]
  }

  function Reverse<T>(s: seq<T>): (r: seq<T>)
    ensures |r| == |s| && forall i :: 0 <= i < |s| ==> r[i] == s[|s| - 1 - i]
  {
    if s == [] then [] else Reverse(s[1..]) + [s[0]]
  }

  lemma {:induction false} ReverseMultiset<T>(s: seq<T>)
    ensures multiset(Reverse(s)) == multiset(s)
  {
    if s != [] {
      ReverseMultiset(s[1..]);
      assert s == [s[0]] + s[1..];
    }
  }

  /** All waypoints of a list of chains, in order. */
  function Flatten(ws: seq<seq<Waypoint>>): seq<Waypoint>
  {
    if ws == [] then [] else Flatten(ws[..|ws| - 1]) + ws[|ws| - 1]
  }

  lemma FlattenSnoc(ws: seq<seq<Waypoint>>, w: seq<Waypoint>)
    ensures Flatten(ws + [w]) == Flatten(ws) + w
  {
    assert (ws + [w])[..|ws|] == ws;
  }

  /** Two fragments both non-empty and touching at an end: their first or last
      waypoints have the same id in one of the four pairings. */
  predicate ShareEnd(a: seq<Waypoint>, b: seq<Waypoint>)
  {
    a != [] && b != [] &&
    (a[0].id == b[0].id || a[0].id == Last(b).id || Last(a).id == b[0].id || Last(a).id == Last(b).id)
  }

  /** No two distinct chains touch at an end. */
  predicate NoSharedEnds(ws: seq<seq<Waypoint>>)
  {
    forall i, j :: 0 <= i < j < |ws| ==> !ShareEnd(ws[i], ws[j])
  }

  /** Neighbours that are both non-empty but do not connect in either direction. */
  predicate Discontiguous(a: seq<Waypoint>, b: seq<Waypoint>)
  {
    a != [] && b != [] && Last(a).id != b[0].id && Last(b).id != a[0].id
  }

  /** The number of neighbouring pairs of chains that are discontiguous. */
  function Discontiguities(ws: seq<seq<Waypoint>>): nat
  {
    if |ws| < 2 then 0
    else Discontiguities(ws[..|ws| - 1]) + (if Discontiguous(ws[|ws| - 2], ws[|ws| - 1]) then 1 else 0)
  }

  /** Some neighbouring pair is discontiguous exactly when the count is positive. */
  lemma {:induction false} DiscontiguitiesSpec(ws: seq<seq<Waypoint>>)
    ensures Discontiguities(ws) > 0 <==> exists i :: 1 <= i < |ws| && Discontiguous(ws[i - 1], ws[i])
  {
    if |ws| >= 2 {
      var shorter := ws[..|ws| - 1];
      DiscontiguitiesSpec(shorter);
      assert forall i :: 0 <= i < |shorter| ==> shorter[i] == ws[i];
      if Discontiguities(shorter) > 0 {
        var i :| 1 <= i < |shorter| && Discontiguous(shorter[i - 1], shorter[i]);
        assert Discontiguous(ws[i - 1], ws[i]);
      }
    }
  }

  /** Chains that pairwise do not touch are discontiguous at every neighbour
      pair: after `reorder_ways` the check reports exactly the case of more
      than one chain. */
  lemma SeparatedChainsDiscontiguous(ws: seq<seq<Waypoint>>)
    requires NoSharedEnds(ws) && |ws| >= 2 && forall i :: 0 <= i < |ws| ==> ws[i] != []
    ensures Discontiguities(ws) > 0
  {
    DiscontiguitiesSpec(ws);
    assert !ShareEnd(ws[0], ws[1]);
    assert Discontiguous(ws[0], ws[1]);
  }

  /** A list of fragments `reorder_ways` and `glue_ways` can take without an
      index panic in their closures: every fragment is looked at, at both ends,
      as soon as there are two of them. */
  predicate Fragmentable(ws: seq<seq<Waypoint>>)
  {
    |ws| <= 1 || forall j :: 0 <= j < |ws| ==> ws[j] != []
  }

  // ---------------------------------------------------------------------------
  // Splicing one fragment onto a chain
  // ---------------------------------------------------------------------------

  /** The four endpoint pairings both closures consider, in their order: the
      fragment's head after the chain's tail, the fragment's tail before the
      chain's head, the fragment's head at the chain's head, and the
      fragment's tail at the chain's tail. */
  datatype Pairing = Append | Prepend | PrependReversed | AppendReversed

  function Rank(k: Pairing): nat
  {
    match k
    case Append => 0
    case Prepend => 1
    case PrependReversed => 2
    case AppendReversed => 3
  }

  const Pairings: seq<Pairing> := [Append, Prepend, PrependReversed, AppendReversed]

  /** The waypoint of the fragment and the waypoint of the chain a pairing
      brings together. */
  function Ends(chain: seq<Waypoint>, way: seq<Waypoint>, k: Pairing): (Waypoint, Waypoint)
    requires chain != [] && way != []
  {
    match k
    case Append => (way[0], Last(chain))
    case Prepend => (Last(way), chain[0])
    case PrependReversed => (way[0], chain[0])
    case AppendReversed => (Last(way), Last(chain))
  }

  /** The chain with the fragment spliced on as the pairing says, reversing
      the fragment where its matching end would otherwise face outwards. */
  function Splice(chain: seq<Waypoint>, way: seq<Waypoint>, k: Pairing): seq<Waypoint>
  {
    match k
    case Append => chain + way
    case Prepend => way + chain
    case PrependReversed => Reverse(way) + chain
    case AppendReversed => chain + Reverse(way)
  }

  lemma SpliceMultiset(chain: seq<Waypoint>, way: seq<Waypoint>, k: Pairing)
    ensures |Splice(chain, way, k)| == |chain| + |way|
    ensures multiset(Splice(chain, way, k)) == multiset(chain) + multiset(way)
  {
    ReverseMultiset(way);
  }

  /** The splice keeps both fragments whole, so its ends are ends of the
      chain or of the fragment: a chain touching neither touches the splice. */
  lemma SpliceFence(d: seq<Waypoint>, chain: seq<Waypoint>, way: seq<Waypoint>, k: Pairing)
    requires chain != [] && way != [] && !ShareEnd(d, chain) && !ShareEnd(d, way)
    ensures !ShareEnd(d, Splice(chain, way, k))
  {
    var r := Splice(chain, way, k);
    assert r[0] in {chain[0], way[0], Last(way)};
    assert Last(r) in {Last(chain), way[0], Last(way)};
  }

  /** The `for waypoint in way.iter().rev()` loop pushing onto the chain. */
  method PushReversed(chain: seq<Waypoint>, way: seq<Waypoint>) returns (r: seq<Waypoint>)
    ensures r == chain + Reverse(way)
  {
    r := chain;
    for i := |way| downto 0
      invariant r == chain + Reverse(way[i..])
    {
      assert way[i..][1..] == way[i + 1..];
      r := r + [way[i]];
    }
    assert way[0..] == way;
  }

  /** One splice of a closure, `extend_from_slice`, the two `chain`/`collect`
      rebuilds and the push loop. */
  method Join(chain: seq<Waypoint>, way: seq<Waypoint>, k: Pairing) returns (r: seq<Waypoint>)
    ensures r == Splice(chain, way, k)
  {
    match k
    case Append => r := chain + way;
    case Prepend => r := way + chain;
    case PrependReversed => r := Reverse(way) + chain;
    case AppendReversed => r := PushReversed(chain, way);
  }

  /** The pairing the `reorder_ways` closure takes: the first whose two
      waypoints have the same id, if any. */
  function FirstMatch(chain: seq<Waypoint>, way: seq<Waypoint>): (m: Option<Pairing>)
    requires chain != [] && way != []
    ensures m.None? <==> !ShareEnd(chain, way)
    ensures m.Some? ==> Ends(chain, way, m.value).0.id == Ends(chain, way, m.value).1.id
    ensures m.Some? ==> forall k :: Rank(k) < Rank(m.value) ==> Ends(chain, way, k).0.id != Ends(chain, way, k).1.id
  {
    if way[0].id == Last(chain).id then Some(Append)
    else if Last(way).id == chain[0].id then Some(Prepend)
    else if way[0].id == chain[0].id then Some(PrependReversed)
    else if Last(way).id == Last(chain).id then Some(AppendReversed)
    else None
  }

  /** The distance of the two waypoints a pairing brings together. */
  function Distance(dist: (Waypoint, Waypoint) -> real, chain: seq<Waypoint>, way: seq<Waypoint>, k: Pairing): real
    requires chain != [] && way != []
  {
    dist(Ends(chain, way, k).0, Ends(chain, way, k).1)
  }

  /** `min_by` over the candidate pairings: the running minimum is replaced
      only by a strictly smaller distance. */
  function MinBy(dist: (Waypoint, Waypoint) -> real, chain: seq<Waypoint>, way: seq<Waypoint>, ks: seq<Pairing>): Pairing
    requires chain != [] && way != [] && ks != []
  {
    if |ks| == 1 then ks[0]
    else
      var best := MinBy(dist, chain, way, ks[..|ks| - 1]);
      if Distance(dist, chain, way, best) > Distance(dist, chain, way, Last(ks)) then Last(ks) else best
  }

  /** `min_by` returns the first of the minimal candidates. */
  lemma {:induction false} MinBySpec(dist: (Waypoint, Waypoint) -> real, chain: seq<Waypoint>, way: seq<Waypoint>, ks: seq<Pairing>)
    requires chain != [] && way != [] && ks != []
    ensures var best := MinBy(dist, chain, way, ks);
      exists i :: 0 <= i < |ks| && ks[i] == best &&
        (forall j :: 0 <= j < |ks| ==> Distance(dist, chain, way, best) <= Distance(dist, chain, way, ks[j])) &&
        (forall j :: 0 <= j < i ==> Distance(dist, chain, way, ks[j]) > Distance(dist, chain, way, best))
  {
    if |ks| > 1 {
      var shorter := ks[..|ks| - 1];
      MinBySpec(dist, chain, way, shorter);
      var best := MinBy(dist, chain, way, shorter);
      var i :| 0 <= i < |shorter| && shorter[i] == best &&
        (forall j :: 0 <= j < |shorter| ==> Distance(dist, chain, way, best) <= Distance(dist, chain, way, shorter[j])) &&
        (forall j :: 0 <= j < i ==> Distance(dist, chain, way, shorter[j]) > Distance(dist, chain, way, best));
      assert forall j :: 0 <= j < |shorter| ==> shorter[j] == ks[j];
      if Distance(dist, chain, way, best) > Distance(dist, chain, way, Last(ks)) {
        assert ks[|ks| - 1] == MinBy(dist, chain, way, ks);
      } else {
        assert ks[i] == MinBy(dist, chain, way, ks);
      }
    } else {
      assert ks[0] == MinBy(dist, chain, way, ks);
    }
  }

  /** The pairing the `glue_ways` closure takes: one at the least distance,
      and on a tie the first in the closure's order. */
  function ChoosePairing(dist: (Waypoint, Waypoint) -> real, chain: seq<Waypoint>, way: seq<Waypoint>): (k: Pairing)
    requires chain != [] && way != []
  {
    MinBy(dist, chain, way, Pairings)
  }

  lemma ChoosePairingSpec(dist: (Waypoint, Waypoint) -> real, chain: seq<Waypoint>, way: seq<Waypoint>)
    requires chain != [] && way != []
    ensures var k := ChoosePairing(dist, chain, way);
      && (forall k' :: Distance(dist, chain, way, k) <= Distance(dist, chain, way, k'))
      && (forall k' :: Rank(k') < Rank(k) ==> Distance(dist, chain, way, k') > Distance(dist, chain, way, k))
  {
    MinBySpec(dist, chain, way, Pairings);
    var k := ChoosePairing(dist, chain, way);
    var i :| 0 <= i < |Pairings| && Pairings[i] == k &&
      (forall j :: 0 <= j < |Pairings| ==> Distance(dist, chain, way, k) <= Distance(dist, chain, way, Pairings[j])) &&
      (forall j :: 0 <= j < i ==> Distance(dist, chain, way, Pairings[j]) > Distance(dist, chain, way, k));
    assert forall k' :: Pairings[Rank(k')] == k';
    assert Rank(k) == i;
    forall k' ensures Distance(dist, chain, way, k) <= Distance(dist, chain, way, k') {
      assert Pairings[Rank(k')] == k';
    }
    forall k' | Rank(k') < Rank(k) ensures Distance(dist, chain, way, k') > Distance(dist, chain, way, k) {
      assert Pairings[Rank(k')] == k';
    }
  }

  // ---------------------------------------------------------------------------
  // Chains as glued input fragments
  // ---------------------------------------------------------------------------

  /** Input fragment `index`, reversed or not, as it appears inside a chain. */
  datatype Use = Use(index: nat, reversed: bool)

  function Oriented(frags: seq<seq<Waypoint>>, u: Use): seq<Waypoint>
  {
    if u.index >= |frags| then []
    else if u.reversed then Reverse(frags[u.index]) else frags[u.index]
  }

  /** The chain made of the given uses of input fragments, one after the other. */
  function Glued(frags: seq<seq<Waypoint>>, us: seq<Use>): seq<Waypoint>
  {
    if us == [] then [] else Glued(frags, us[..|us| - 1]) + Oriented(frags, Last(us))
  }

  function Indices(us: seq<Use>): seq<nat>
  {
    if us == [] then [] else Indices(us[..|us| - 1]) + [Last(us).index]
  }

  function AllIndices(assembly: seq<seq<Use>>): seq<nat>
  {
    if assembly == [] then [] else AllIndices(assembly[..|assembly| - 1]) + Indices(Last(assembly))
  }

  function Range(n: nat): seq<nat>
  {
    if n == 0 then [] else Range(n - 1) + [n - 1]
  }

  /** Consecutive pieces of a chain meet: the tail of one has the id of the
      head of the next. */
  ghost predicate Meets(frags: seq<seq<Waypoint>>, us: seq<Use>)
  {
    forall j :: 0 <= j < |us| - 1 ==> JointAt(frags, us, j)
  }

  /** Pieces `j` and `j + 1` of a chain meet. */
  ghost predicate JointAt(frags: seq<seq<Waypoint>>, us: seq<Use>, j: nat)
    requires j + 1 < |us|
  {
    Oriented(frags, us[j]) != [] && Oriented(frags, us[j + 1]) != [] &&
    Last(Oriented(frags, us[j])).id == Oriented(frags, us[j + 1])[0].id
  }

  /** The ghost side of a splice: which use of which fragment went where. */
  function SpliceUses(us: seq<Use>, i: nat, k: Pairing): seq<Use>
  {
    match k
    case Append => us + [Use(i, false)]
    case Prepend => [Use(i, false)] + us
    case PrependReversed => [Use(i, true)] + us
    case AppendReversed => us + [Use(i, true)]
  }

  lemma {:induction false} GluedCons(frags: seq<seq<Waypoint>>, u: Use, us: seq<Use>)
    ensures Glued(frags, [u] + us) == Oriented(frags, u) + Glued(frags, us)
    ensures Indices([u] + us) == [u.index] + Indices(us)
  {
    if us != [] {
      var shorter := us[..|us| - 1];
      GluedCons(frags, u, shorter);
      assert ([u] + us)[..|us|] == [u] + shorter;
    }
  }

  lemma GluedSnoc(frags: seq<seq<Waypoint>>, us: seq<Use>, u: Use)
    ensures Glued(frags, us + [u]) == Glued(frags, us) + Oriented(frags, u)
    ensures Indices(us + [u]) == Indices(us) + [u.index]
  {
    assert (us + [u])[..|us|] == us;
  }

  /** A splice on the chain is the same splice on its uses. */
  lemma SpliceGlued(frags: seq<seq<Waypoint>>, us: seq<Use>, i: nat, k: Pairing)
    requires i < |frags|
    ensures Splice(Glued(frags, us), frags[i], k) == Glued(frags, SpliceUses(us, i, k))
    ensures multiset(Indices(SpliceUses(us, i, k))) == multiset(Indices(us)) + multiset{i}
  {
    match k
    case Append => GluedSnoc(frags, us, Use(i, false));
    case Prepend => GluedCons(frags, Use(i, false), us);
    case PrependReversed => GluedCons(frags, Use(i, true), us);
    case AppendReversed => GluedSnoc(frags, us, Use(i, true));
  }

  /** A non-empty chain whose pieces meet ends with its last piece... */
  lemma GluedLast(frags: seq<seq<Waypoint>>, us: seq<Use>)
    requires us != [] && Glued(frags, us) != [] && Meets(frags, us)
    ensures Oriented(frags, Last(us)) != [] && Last(Glued(frags, us)) == Last(Oriented(frags, Last(us)))
  {
    var n := |us|;
    if n == 1 {
      assert us[..0] == [];
    } else {
      assert JointAt(frags, us, n - 2);
    }
  }

  /** ...and begins with its first. */
  lemma GluedFirst(frags: seq<seq<Waypoint>>, us: seq<Use>)
    requires us != [] && Glued(frags, us) != [] && Meets(frags, us)
    ensures Oriented(frags, us[0]) != [] && Glued(frags, us)[0] == Oriented(frags, us[0])[0]
  {
    assert us == [us[0]] + us[1..];
    GluedCons(frags, us[0], us[1..]);
    if |us| > 1 {
      assert JointAt(frags, us, 0);
    }
  }

  /** A splice at a pairing whose waypoints have the same id keeps the pieces meeting. */
  lemma SpliceMeets(frags: seq<seq<Waypoint>>, us: seq<Use>, i: nat, k: Pairing)
    requires us != [] && Glued(frags, us) != [] && Meets(frags, us)
    requires i < |frags| && frags[i] != []
    requires Ends(Glued(frags, us), frags[i], k).0.id == Ends(Glued(frags, us), frags[i], k).1.id
    ensures Meets(frags, SpliceUses(us, i, k))
  {
    GluedFirst(frags, us);
    GluedLast(frags, us);
    var vs := SpliceUses(us, i, k);
    var u := if k.Append? || k.Prepend? then Use(i, false) else Use(i, true);
    if k.Append? || k.AppendReversed? {
      assert vs == us + [u];
      forall j | 0 <= j < |vs| - 1 ensures JointAt(frags, vs, j) {
        if j + 1 < |us| {
          assert JointAt(frags, us, j);
          assert vs[j] == us[j] && vs[j + 1] == us[j + 1];
        } else {
          assert vs[j] == Last(us) && vs[j + 1] == u;
        }
      }
    } else {
      assert vs == [u] + us;
      forall j | 0 <= j < |vs| - 1 ensures JointAt(frags, vs, j) {
        if j > 0 {
          assert JointAt(frags, us, j - 1);
          assert vs[j] == us[j - 1] && vs[j + 1] == us[j];
        } else {
          assert vs[j] == u && vs[j + 1] == us[0];
        }
      }
    }
  }

  lemma PrefixSnoc<T>(s: seq<T>, j: nat)
    requires j < |s|
    ensures s[..j + 1] == s[..j] + [s[j]]
  {
  }

  lemma {:induction false} FlattenCons(w: seq<Waypoint>, ws: seq<seq<Waypoint>>)
    ensures Flatten([w] + ws) == w + Flatten(ws)
  {
    if ws != [] {
      var shorter := ws[..|ws| - 1];
      FlattenCons(w, shorter);
      assert ([w] + ws)[..|ws|] == [w] + shorter;
    }
  }

  lemma {:induction false} RangeAt(n: nat)
    ensures |Range(n)| == n && forall j :: 0 <= j < n ==> Range(n)[j] == j
  {
    if n > 0 {
      RangeAt(n - 1);
    }
  }

  /** Moving a part of `r` into `u` keeps the total. */
  lemma Regroup<T>(a: multiset<T>, u: multiset<T>, r: multiset<T>, u': multiset<T>, k: multiset<T>)
    requires u' + k == u + r
    ensures a + u' + k == a + u + r
  {
    calc {
      a + u' + k;
      a + (u' + k);
      a + (u + r);
      a + u + r;
    }
  }

  /** An element joining one side of a balance on both sides keeps it... */
  lemma MoveIn<T>(x: multiset<T>, y: multiset<T>, z: multiset<T>, w: multiset<T>, e: multiset<T>)
    requires x + y == z + w
    ensures (x + e) + y == z + (w + e)
  {
    calc {
      (x + e) + y;
      (x + y) + e;
      (z + w) + e;
      z + (w + e);
    }
  }

  /** ...whichever side it joins. */
  lemma KeepIn<T>(x: multiset<T>, y: multiset<T>, z: multiset<T>, w: multiset<T>, e: multiset<T>)
    requires x + y == z + w
    ensures x + (y + e) == z + (w + e)
  {
    calc {
      x + (y + e);
      (x + y) + e;
      (z + w) + e;
      z + (w + e);
    }
  }

  lemma Assoc<T>(a: multiset<T>, x: multiset<T>, y: multiset<T>)
    ensures a + (x + y) == a + x + y
  {
  }

  // ---------------------------------------------------------------------------
  // Bookkeeping of the stitching loops
  // ---------------------------------------------------------------------------

  /** The fragments `ws` are the input fragments numbered `idx`. */
  ghost predicate Pool(frags: seq<seq<Waypoint>>, ws: seq<seq<Waypoint>>, idx: seq<nat>)
  {
    |idx| == |ws| && forall j :: 0 <= j < |ws| ==> idx[j] < |frags| && ws[j] == frags[idx[j]]
  }

  lemma PoolSnoc(frags: seq<seq<Waypoint>>, ws: seq<seq<Waypoint>>, idx: seq<nat>, i: nat)
    requires Pool(frags, ws, idx) && i < |frags|
    ensures Pool(frags, ws + [frags[i]], idx + [i])
  {
    var ws', idx' := ws + [frags[i]], idx + [i];
    forall j | 0 <= j < |ws'| ensures idx'[j] < |frags| && ws'[j] == frags[idx'[j]] {
      if j < |ws| {
        assert ws'[j] == ws[j] && idx'[j] == idx[j];
      }
    }
  }

  lemma PoolTail(frags: seq<seq<Waypoint>>, ws: seq<seq<Waypoint>>, idx: seq<nat>)
    requires Pool(frags, ws, idx) && ws != []
    ensures Pool(frags, ws[1..], idx[1..])
  {
    forall j | 0 <= j < |ws| - 1 ensures idx[1..][j] < |frags| && ws[1..][j] == frags[idx[1..][j]] {
      assert ws[1..][j] == ws[j + 1] && idx[1..][j] == idx[j + 1];
    }
  }

  /** Every chain is glued from at least one use of an input fragment. */
  ghost predicate Assembled(frags: seq<seq<Waypoint>>, chains: seq<seq<Waypoint>>, assembly: seq<seq<Use>>)
  {
    |assembly| == |chains| &&
    forall c :: 0 <= c < |chains| ==> assembly[c] != [] && chains[c] == Glued(frags, assembly[c])
  }

  /** The chains are the input fragments glued together, each fragment used
      exactly once, some of them reversed. */
  ghost predicate Assembly(frags: seq<seq<Waypoint>>, chains: seq<seq<Waypoint>>, assembly: seq<seq<Use>>)
  {
    Assembled(frags, chains, assembly) && multiset(AllIndices(assembly)) == multiset(Range(|frags|))
  }

  /** Between chains: the closed chains and the remaining fragments account for
      every input fragment once and for every input waypoint. */
  ghost predicate Stitching(input: seq<seq<Waypoint>>, closed: seq<seq<Waypoint>>, assembly: seq<seq<Use>>,
                            rest: seq<seq<Waypoint>>, restIdx: seq<nat>)
  {
    && Assembled(input, closed, assembly)
    && Pool(input, rest, restIdx)
    && multiset(AllIndices(assembly)) + multiset(restIdx) == multiset(Range(|input|))
    && multiset(Flatten(closed)) + multiset(Flatten(rest)) == multiset(Flatten(input))
    && |closed| + |rest| <= |input|
    && (input != [] ==> closed != [] || rest != [])
  }

  /** While a chain is open: the same, with the open chain glued from `uses`. */
  ghost predicate Open(input: seq<seq<Waypoint>>, closed: seq<seq<Waypoint>>, assembly: seq<seq<Use>>,
                       chain: seq<Waypoint>, uses: seq<Use>, rest: seq<seq<Waypoint>>, restIdx: seq<nat>)
  {
    && Assembled(input, closed, assembly)
    && uses != [] && chain == Glued(input, uses)
    && Pool(input, rest, restIdx)
    && multiset(AllIndices(assembly)) + multiset(Indices(uses)) + multiset(restIdx) == multiset(Range(|input|))
    && multiset(Flatten(closed)) + multiset(chain) + multiset(Flatten(rest)) == multiset(Flatten(input))
    && |closed| + 1 + |rest| <= |input|
  }

  lemma StartStitching(input: seq<seq<Waypoint>>)
    ensures Stitching(input, [], [], input, Range(|input|))
  {
    PoolRange(input);
    assert AllIndices([]) == [] && Flatten([]) == [];
  }

  lemma PoolRange(input: seq<seq<Waypoint>>)
    ensures Pool(input, input, Range(|input|))
  {
    RangeAt(|input|);
  }

  /** `self.ways.remove(0)` opens the next chain with the first remaining fragment. */
  lemma OpenChain(input: seq<seq<Waypoint>>, closed: seq<seq<Waypoint>>, assembly: seq<seq<Use>>,
                  rest: seq<seq<Waypoint>>, restIdx: seq<nat>)
    requires Stitching(input, closed, assembly, rest, restIdx) && rest != []
    ensures Open(input, closed, assembly, rest[0], [Use(restIdx[0], false)], rest[1..], restIdx[1..])
  {
    var u := Use(restIdx[0], false);
    assert [u][..0] == [];
    assert Glued(input, [u]) == rest[0];
    assert Indices([u]) == [restIdx[0]];
    PoolTail(input, rest, restIdx);
    SplitFirstIndex(multiset(AllIndices(assembly)), restIdx);
    SplitFirstFragment(multiset(Flatten(closed)), rest);
  }

  lemma SplitFirstIndex(a: multiset<nat>, idx: seq<nat>)
    requires idx != []
    ensures a + multiset(idx) == a + multiset([idx[0]]) + multiset(idx[1..])
  {
    assert idx == [idx[0]] + idx[1..];
    Assoc(a, multiset([idx[0]]), multiset(idx[1..]));
  }

  lemma SplitFirstFragment(a: multiset<Waypoint>, ws: seq<seq<Waypoint>>)
    requires ws != []
    ensures a + multiset(Flatten(ws)) == a + multiset(ws[0]) + multiset(Flatten(ws[1..]))
  {
    assert ws == [ws[0]] + ws[1..];
    FlattenCons(ws[0], ws[1..]);
    Assoc(a, multiset(ws[0]), multiset(Flatten(ws[1..])));
  }

  /** `all_ways.push(ways)` closes the open chain. */
  lemma CloseChain(input: seq<seq<Waypoint>>, closed: seq<seq<Waypoint>>, assembly: seq<seq<Use>>,
                   chain: seq<Waypoint>, uses: seq<Use>, rest: seq<seq<Waypoint>>, restIdx: seq<nat>)
    requires Open(input, closed, assembly, chain, uses, rest, restIdx)
    ensures Stitching(input, closed + [chain], assembly + [uses], rest, restIdx)
  {
    FlattenSnoc(closed, chain);
    AssembledSnoc(input, closed, assembly, chain, uses);
    AllIndicesSnoc(assembly, uses);
  }

  lemma AssembledSnoc(frags: seq<seq<Waypoint>>, chains: seq<seq<Waypoint>>, assembly: seq<seq<Use>>,
                      chain: seq<Waypoint>, uses: seq<Use>)
    requires Assembled(frags, chains, assembly) && uses != [] && chain == Glued(frags, uses)
    ensures Assembled(frags, chains + [chain], assembly + [uses])
  {
    forall c | 0 <= c < |chains| + 1
      ensures (assembly + [uses])[c] != [] && (chains + [chain])[c] == Glued(frags, (assembly + [uses])[c])
    {
      if c < |chains| {
        assert (assembly + [uses])[c] == assembly[c] && (chains + [chain])[c] == chains[c];
      }
    }
  }

  lemma AllIndicesSnoc(assembly: seq<seq<Use>>, uses: seq<Use>)
    ensures multiset(AllIndices(assembly + [uses])) == multiset(AllIndices(assembly)) + multiset(Indices(uses))
  {
    assert (assembly + [uses])[..|assembly|] == assembly;
  }

  /** A pass moves fragments from the remaining ones into the open chain. */
  lemma PassKeepsOpen(input: seq<seq<Waypoint>>, closed: seq<seq<Waypoint>>, assembly: seq<seq<Use>>,
                      chain: seq<Waypoint>, uses: seq<Use>, rest: seq<seq<Waypoint>>, restIdx: seq<nat>,
                      chain': seq<Waypoint>, uses': seq<Use>, kept: seq<seq<Waypoint>>, keptIdx: seq<nat>)
    requires Open(input, closed, assembly, chain, uses, rest, restIdx)
    requires uses' != [] && chain' == Glued(input, uses') && Pool(input, kept, keptIdx) && |kept| <= |rest|
    requires multiset(Indices(uses')) + multiset(keptIdx) == multiset(Indices(uses)) + multiset(restIdx)
    requires multiset(chain') + multiset(Flatten(kept)) == multiset(chain) + multiset(Flatten(rest))
    ensures Open(input, closed, assembly, chain', uses', kept, keptIdx)
  {
    Regroup(multiset(AllIndices(assembly)), multiset(Indices(uses)), multiset(restIdx),
            multiset(Indices(uses')), multiset(keptIdx));
    Regroup(multiset(Flatten(closed)), multiset(chain), multiset(Flatten(rest)),
            multiset(chain'), multiset(Flatten(kept)));
  }

  /** With nothing left the chains are the whole assembly. */
  lemma StitchingDone(input: seq<seq<Waypoint>>, closed: seq<seq<Waypoint>>, assembly: seq<seq<Use>>)
    requires Stitching(input, closed, assembly, [], [])
    ensures Assembly(input, closed, assembly)
    ensures multiset(Flatten(closed)) == multiset(Flatten(input))
    ensures |closed| <= |input| && (closed == [] <==> input == [])
  {
  }

  // ---------------------------------------------------------------------------
  // The retain passes
  // ---------------------------------------------------------------------------

  /** No finished chain touches the open chain or a remaining fragment. */
  predicate Fenced(finished: seq<seq<Waypoint>>, chain: seq<Waypoint>, ws: seq<seq<Waypoint>>)
  {
    (forall c :: 0 <= c < |finished| ==> !ShareEnd(finished[c], chain)) && Apart(finished, ws)
  }

  /** No finished chain touches a remaining fragment. */
  predicate Apart(finished: seq<seq<Waypoint>>, ws: seq<seq<Waypoint>>)
  {
    forall c, j :: 0 <= c < |finished| && 0 <= j < |ws| ==> !ShareEnd(finished[c], ws[j])
  }

  /** The open chain after `j` fragments of a pass: still glued from its
      uses, grown from `chain`, its pieces still meeting if they did. */
  ghost predicate PassChain(frags: seq<seq<Waypoint>>, chain: seq<Waypoint>, uses: seq<Use>,
                            chain': seq<Waypoint>, uses': seq<Use>)
  {
    uses' != [] && chain' == Glued(frags, uses') && |chain'| >= |chain| &&
    (Meets(frags, uses) ==> Meets(frags, uses'))
  }

  /** The fragments kept after `j` fragments of a pass. */
  ghost predicate PassPool(frags: seq<seq<Waypoint>>, j: nat, kept: seq<seq<Waypoint>>, keptIdx: seq<nat>)
  {
    Pool(frags, kept, keptIdx) && |kept| <= j && forall t :: 0 <= t < |kept| ==> kept[t] != []
  }

  /** What went into the chain and what was kept add up to what was there. */
  ghost predicate PassBags(chain: seq<Waypoint>, rest: seq<seq<Waypoint>>, uses: seq<Use>, restIdx: seq<nat>, j: nat,
                           chain': seq<Waypoint>, kept: seq<seq<Waypoint>>, uses': seq<Use>, keptIdx: seq<nat>)
    requires j <= |rest| && j <= |restIdx|
  {
    multiset(Indices(uses')) + multiset(keptIdx) == multiset(Indices(uses)) + multiset(restIdx[..j]) &&
    multiset(chain') + multiset(Flatten(kept)) == multiset(chain) + multiset(Flatten(rest[..j]))
  }

  /** `done` is still set exactly when no fragment so far touched the chain. */
  ghost predicate PassFlag(chain: seq<Waypoint>, rest: seq<seq<Waypoint>>, j: nat,
                           chain': seq<Waypoint>, kept: seq<seq<Waypoint>>, done: bool)
    requires j <= |rest|
  {
    (done <==> forall t :: 0 <= t < j ==> !ShareEnd(chain, rest[t])) &&
    (done ==> chain' == chain && kept == rest[..j]) &&
    (!done ==> |kept| < j)
  }

  /** Everything a pass keeps true after looking at `j` of the fragments. */
  ghost predicate PassInv(chain: seq<Waypoint>, rest: seq<seq<Waypoint>>, frags: seq<seq<Waypoint>>,
                          uses: seq<Use>, restIdx: seq<nat>, finished: seq<seq<Waypoint>>, j: nat,
                          chain': seq<Waypoint>, kept: seq<seq<Waypoint>>, done: bool, uses': seq<Use>, keptIdx: seq<nat>)
  {
    j <= |rest| && j <= |restIdx| &&
    PassChain(frags, chain, uses, chain', uses') && PassPool(frags, j, kept, keptIdx) &&
    PassBags(chain, rest, uses, restIdx, j, chain', kept, uses', keptIdx) &&
    PassFlag(chain, rest, j, chain', kept, done) &&
    (Fenced(finished, chain, rest) ==> Fenced(finished, chain', kept))
  }

  lemma PassStart(chain: seq<Waypoint>, rest: seq<seq<Waypoint>>, frags: seq<seq<Waypoint>>,
                  uses: seq<Use>, restIdx: seq<nat>, finished: seq<seq<Waypoint>>)
    requires uses != [] && chain == Glued(frags, uses) && Pool(frags, rest, restIdx)
    ensures PassInv(chain, rest, frags, uses, restIdx, finished, 0, chain, [], true, uses, [])
  {
    assert rest[..0] == [] && restIdx[..0] == [];
  }

  /** A fragment that touches the open chain is spliced on. */
  lemma JoinStep(chain: seq<Waypoint>, rest: seq<seq<Waypoint>>, frags: seq<seq<Waypoint>>,
                 uses: seq<Use>, restIdx: seq<nat>, finished: seq<seq<Waypoint>>, j: nat,
                 chain': seq<Waypoint>, kept: seq<seq<Waypoint>>, done: bool, uses': seq<Use>, keptIdx: seq<nat>,
                 k: Pairing, chain'': seq<Waypoint>, uses'': seq<Use>)
    requires rest == [] || (chain != [] && forall j :: 0 <= j < |rest| ==> rest[j] != [])
    requires Pool(frags, rest, restIdx) && j < |rest|
    requires PassInv(chain, rest, frags, uses, restIdx, finished, j, chain', kept, done, uses', keptIdx)
    requires chain' != [] && FirstMatch(chain', rest[j]) == Some(k)
    requires chain'' == Splice(chain', rest[j], k) && uses'' == SpliceUses(uses', restIdx[j], k)
    ensures PassInv(chain, rest, frags, uses, restIdx, finished, j + 1, chain'', kept, false, uses'', keptIdx)
  {
    var way := rest[j];
    JoinChain(frags, chain, uses, chain', uses', restIdx[j], k);
    JoinBags(chain, rest, uses, restIdx, j, chain', kept, uses', keptIdx, k);
    if done {
      assert ShareEnd(chain, way);
    }
    if Fenced(finished, chain, rest) {
      forall c | 0 <= c < |finished| ensures !ShareEnd(finished[c], Splice(chain', way, k)) {
        SpliceFence(finished[c], chain', way, k);
      }
    }
  }

  lemma JoinChain(frags: seq<seq<Waypoint>>, chain: seq<Waypoint>, uses: seq<Use>,
                  chain': seq<Waypoint>, uses': seq<Use>, i: nat, k: Pairing)
    requires PassChain(frags, chain, uses, chain', uses') && i < |frags| && chain' != [] && frags[i] != []
    requires Ends(chain', frags[i], k).0.id == Ends(chain', frags[i], k).1.id
    ensures PassChain(frags, chain, uses, Splice(chain', frags[i], k), SpliceUses(uses', i, k))
  {
    SpliceGlued(frags, uses', i, k);
    SpliceMultiset(chain', frags[i], k);
    if Meets(frags, uses) {
      SpliceMeets(frags, uses', i, k);
    }
  }

  lemma JoinBags(chain: seq<Waypoint>, rest: seq<seq<Waypoint>>, uses: seq<Use>, restIdx: seq<nat>, j: nat,
                 chain': seq<Waypoint>, kept: seq<seq<Waypoint>>, uses': seq<Use>, keptIdx: seq<nat>, k: Pairing)
    requires j < |rest| && j < |restIdx|
    requires PassBags(chain, rest, uses, restIdx, j, chain', kept, uses', keptIdx)
    ensures PassBags(chain, rest, uses, restIdx, j + 1, Splice(chain', rest[j], k), kept,
                     SpliceUses(uses', restIdx[j], k), keptIdx)
  {
    PrefixSnoc(rest, j);
    PrefixSnoc(restIdx, j);
    FlattenSnoc(rest[..j], rest[j]);
    SpliceMultiset(chain', rest[j], k);
    SpliceUsesIndices(uses', restIdx[j], k);
    MoveIn(multiset(Indices(uses')), multiset(keptIdx), multiset(Indices(uses)), multiset(restIdx[..j]),
           multiset{restIdx[j]});
    MoveIn(multiset(chain'), multiset(Flatten(kept)), multiset(chain), multiset(Flatten(rest[..j])),
           multiset(rest[j]));
  }

  lemma SpliceUsesIndices(us: seq<Use>, i: nat, k: Pairing)
    ensures multiset(Indices(SpliceUses(us, i, k))) == multiset(Indices(us)) + multiset{i}
  {
    match k
    case Append => GluedSnoc([], us, Use(i, false));
    case Prepend => GluedCons([], Use(i, false), us);
    case PrependReversed => GluedCons([], Use(i, true), us);
    case AppendReversed => GluedSnoc([], us, Use(i, true));
  }

  /** A fragment that does not touch the open chain is kept. */
  lemma KeepStep(chain: seq<Waypoint>, rest: seq<seq<Waypoint>>, frags: seq<seq<Waypoint>>,
                 uses: seq<Use>, restIdx: seq<nat>, finished: seq<seq<Waypoint>>, j: nat,
                 chain': seq<Waypoint>, kept: seq<seq<Waypoint>>, done: bool, uses': seq<Use>, keptIdx: seq<nat>,
                 kept'': seq<seq<Waypoint>>, keptIdx'': seq<nat>)
    requires rest == [] || (chain != [] && forall j :: 0 <= j < |rest| ==> rest[j] != [])
    requires Pool(frags, rest, restIdx) && j < |rest|
    requires PassInv(chain, rest, frags, uses, restIdx, finished, j, chain', kept, done, uses', keptIdx)
    requires chain' != [] && FirstMatch(chain', rest[j]).None?
    requires kept'' == kept + [rest[j]] && keptIdx'' == keptIdx + [restIdx[j]]
    ensures PassInv(chain, rest, frags, uses, restIdx, finished, j + 1, chain', kept'', done, uses', keptIdx'')
  {
    PoolSnoc(frags, kept, keptIdx, restIdx[j]);
    PoolNonEmpty(kept, rest[j]);
    KeepBags(chain, rest, uses, restIdx, j, chain', kept, uses', keptIdx);
    PrefixSnoc(rest, j);
    if Fenced(finished, chain, rest) {
      forall c, t | 0 <= c < |finished| && 0 <= t < |kept| + 1 ensures !ShareEnd(finished[c], (kept + [rest[j]])[t]) {
        if t == |kept| {
          assert !ShareEnd(finished[c], rest[j]);
        } else {
          assert (kept + [rest[j]])[t] == kept[t];
        }
      }
    }
  }

  lemma PoolNonEmpty(kept: seq<seq<Waypoint>>, w: seq<Waypoint>)
    requires (forall t :: 0 <= t < |kept| ==> kept[t] != []) && w != []
    ensures forall t :: 0 <= t < |kept| + 1 ==> (kept + [w])[t] != []
  {
  }

  lemma KeepBags(chain: seq<Waypoint>, rest: seq<seq<Waypoint>>, uses: seq<Use>, restIdx: seq<nat>, j: nat,
                 chain': seq<Waypoint>, kept: seq<seq<Waypoint>>, uses': seq<Use>, keptIdx: seq<nat>)
    requires j < |rest| && j < |restIdx|
    requires PassBags(chain, rest, uses, restIdx, j, chain', kept, uses', keptIdx)
    ensures PassBags(chain, rest, uses, restIdx, j + 1, chain', kept + [rest[j]], uses', keptIdx + [restIdx[j]])
  {
    PrefixSnoc(rest, j);
    PrefixSnoc(restIdx, j);
    FlattenSnoc(rest[..j], rest[j]);
    FlattenSnoc(kept, rest[j]);
    KeepIn(multiset(Indices(uses')), multiset(keptIdx), multiset(Indices(uses)), multiset(restIdx[..j]),
           multiset{restIdx[j]});
    KeepIn(multiset(chain'), multiset(Flatten(kept)), multiset(chain), multiset(Flatten(rest[..j])),
           multiset(rest[j]));
  }

  /** The invariants of a pass, once every fragment has been looked at. */
  lemma PassEnd(chain: seq<Waypoint>, rest: seq<seq<Waypoint>>, frags: seq<seq<Waypoint>>,
                uses: seq<Use>, restIdx: seq<nat>, finished: seq<seq<Waypoint>>,
                chain': seq<Waypoint>, kept: seq<seq<Waypoint>>, done: bool, uses': seq<Use>, keptIdx: seq<nat>)
    requires Pool(frags, rest, restIdx)
    requires PassInv(chain, rest, frags, uses, restIdx, finished, |rest|, chain', kept, done, uses', keptIdx)
    ensures uses' != [] && chain' == Glued(frags, uses') && |chain'| >= |chain|
    ensures Meets(frags, uses) ==> Meets(frags, uses')
    ensures Pool(frags, kept, keptIdx) && |kept| <= |rest| && forall j :: 0 <= j < |kept| ==> kept[j] != []
    ensures multiset(Indices(uses')) + multiset(keptIdx) == multiset(Indices(uses)) + multiset(restIdx)
    ensures multiset(chain') + multiset(Flatten(kept)) == multiset(chain) + multiset(Flatten(rest))
    ensures done <==> forall j :: 0 <= j < |rest| ==> !ShareEnd(chain, rest[j])
    ensures done ==> chain' == chain && kept == rest
    ensures !done ==> |kept| < |rest|
    ensures Fenced(finished, chain, rest) ==> Fenced(finished, chain', kept)
  {
    assert rest[..|rest|] == rest && restIdx[..|rest|] == restIdx;
  }

  /** One `self.ways.retain(..)` pass of `reorder_ways`: each remaining fragment
      in turn is spliced onto the chain as it stands at that moment if they
      touch, and kept otherwise; `done` stays set when nothing was spliced. */
  method RetainJoinable(chain: seq<Waypoint>, rest: seq<seq<Waypoint>>, ghost frags: seq<seq<Waypoint>>,
                        ghost uses: seq<Use>, ghost restIdx: seq<nat>, ghost finished: seq<seq<Waypoint>>)
    returns (chain': seq<Waypoint>, kept: seq<seq<Waypoint>>, done: bool,
             ghost uses': seq<Use>, ghost keptIdx: seq<nat>)
    requires rest == [] || (chain != [] && forall j :: 0 <= j < |rest| ==> rest[j] != [])
    requires uses != [] && chain == Glued(frags, uses) && Pool(frags, rest, restIdx)
    ensures uses' != [] && chain' == Glued(frags, uses') && |chain'| >= |chain|
    ensures Meets(frags, uses) ==> Meets(frags, uses')
    ensures Pool(frags, kept, keptIdx) && |kept| <= |rest| && forall j :: 0 <= j < |kept| ==> kept[j] != []
    ensures multiset(Indices(uses')) + multiset(keptIdx) == multiset(Indices(uses)) + multiset(restIdx)
    ensures multiset(chain') + multiset(Flatten(kept)) == multiset(chain) + multiset(Flatten(rest))
    ensures done <==> forall j :: 0 <= j < |rest| ==> !ShareEnd(chain, rest[j])
    ensures done ==> chain' == chain && kept == rest
    ensures !done ==> |kept| < |rest|
    ensures Fenced(finished, chain, rest) ==> Fenced(finished, chain', kept)
  {
    chain', kept, done, uses', keptIdx := chain, [], true, uses, [];
    PassStart(chain, rest, frags, uses, restIdx, finished);
    for j := 0 to |rest|
      invariant PassInv(chain, rest, frags, uses, restIdx, finished, j, chain', kept, done, uses', keptIdx)
    {
      var way := rest[j];
      var m := FirstMatch(chain', way);
      if m.Some? {
        var chain'' := Join(chain', way, m.value);
        ghost var uses'' := SpliceUses(uses', restIdx[j], m.value);
        JoinStep(chain, rest, frags, uses, restIdx, finished, j, chain', kept, done, uses', keptIdx,
                 m.value, chain'', uses'');
        chain', uses', done := chain'', uses'', false;
      } else {
        var kept'' := kept + [way];
        ghost var keptIdx'' := keptIdx + [restIdx[j]];
        KeepStep(chain, rest, frags, uses, restIdx, finished, j, chain', kept, done, uses', keptIdx,
                 kept'', keptIdx'');
        kept, keptIdx := kept'', keptIdx'';
      }
    }
    PassEnd(chain, rest, frags, uses, restIdx, finished, chain', kept, done, uses', keptIdx);
  }

  // ---------------------------------------------------------------------------
  // The glue pass
  // ---------------------------------------------------------------------------

  /** A chain and fragments a pass can splice without an index panic. */
  predicate Glueable(chain: seq<Waypoint>, rest: seq<seq<Waypoint>>)
  {
    rest == [] || (chain != [] && forall j :: 0 <= j < |rest| ==> rest[j] != [])
  }

  /** What one `retain` pass of `glue_ways` makes of the chain: the fragments
      in their order, each spliced onto the chain as it stands at that moment,
      at the pairing `ChoosePairing` picks. */
  function GlueFold(dist: (Waypoint, Waypoint) -> real, chain: seq<Waypoint>, rest: seq<seq<Waypoint>>)
    : (r: seq<Waypoint>)
    requires Glueable(chain, rest)
    ensures |r| == |chain| + |Flatten(rest)|
    decreases |rest|
  {
    if rest == [] then chain
    else
      var c, way := GlueFold(dist, chain, rest[..|rest| - 1]), rest[|rest| - 1];
      FlattenSnoc(rest[..|rest| - 1], way);
      assert rest[..|rest| - 1] + [way] == rest;
      SpliceMultiset(c, way, ChoosePairing(dist, c, way));
      Splice(c, way, ChoosePairing(dist, c, way))
  }

  /** What `glue_ways` leaves of the ways: nothing from nothing, and otherwise
      the first way with all the others glued on in one pass. */
  function Glue(dist: (Waypoint, Waypoint) -> real, ws: seq<seq<Waypoint>>): (r: seq<seq<Waypoint>>)
    requires Fragmentable(ws)
    ensures |r| <= 1 && (r == [] <==> ws == [])
    ensures |ws| == 1 ==> r == ws
  {
    if ws == [] then []
    else
      assert Glueable(ws[0], ws[1..]) by {
        forall j | 0 <= j < |ws| - 1 ensures ws[1..][j] != [] {
          assert ws[1..][j] == ws[j + 1];
        }
      }
      [GlueFold(dist, ws[0], ws[1..])]
  }

  /** The fold over one more fragment is one more splice. */
  lemma GlueFoldStep(dist: (Waypoint, Waypoint) -> real, chain: seq<Waypoint>, rest: seq<seq<Waypoint>>, j: nat)
    requires Glueable(chain, rest) && j < |rest|
    ensures Glueable(chain, rest[..j]) && Glueable(chain, rest[..j + 1])
    ensures var c := GlueFold(dist, chain, rest[..j]);
      c != [] && GlueFold(dist, chain, rest[..j + 1]) == Splice(c, rest[j], ChoosePairing(dist, c, rest[j]))
  {
    assert rest[..j + 1][..j] == rest[..j];
  }

  /** Everything the glue pass keeps true after `j` of the fragments: all of
      them went into the chain, each at the pairing `ChoosePairing` picked. */
  ghost predicate AbsorbInv(dist: (Waypoint, Waypoint) -> real, chain: seq<Waypoint>, rest: seq<seq<Waypoint>>,
                            frags: seq<seq<Waypoint>>, uses: seq<Use>, restIdx: seq<nat>, j: nat,
                            chain': seq<Waypoint>, uses': seq<Use>)
  {
    j <= |rest| && j <= |restIdx| &&
    uses' != [] && chain' == Glued(frags, uses') && |chain'| >= |chain| &&
    multiset(Indices(uses')) == multiset(Indices(uses)) + multiset(restIdx[..j]) &&
    multiset(chain') == multiset(chain) + multiset(Flatten(rest[..j])) &&
    (j == 0 ==> chain' == chain) &&
    Glueable(chain, rest[..j]) && chain' == GlueFold(dist, chain, rest[..j])
  }

  /** What the next splice of the glue pass needs. */
  lemma AbsorbReady(dist: (Waypoint, Waypoint) -> real, chain: seq<Waypoint>, rest: seq<seq<Waypoint>>,
                    frags: seq<seq<Waypoint>>, uses: seq<Use>, restIdx: seq<nat>, j: nat,
                    chain': seq<Waypoint>, uses': seq<Use>)
    requires Glueable(chain, rest) && Pool(frags, rest, restIdx) && j < |rest|
    requires AbsorbInv(dist, chain, rest, frags, uses, restIdx, j, chain', uses')
    ensures chain' != [] && rest[j] != [] && j < |restIdx|
  {
  }

  lemma AbsorbStep(dist: (Waypoint, Waypoint) -> real, chain: seq<Waypoint>, rest: seq<seq<Waypoint>>,
                   frags: seq<seq<Waypoint>>, uses: seq<Use>, restIdx: seq<nat>, j: nat,
                   chain': seq<Waypoint>, uses': seq<Use>, k: Pairing, chain'': seq<Waypoint>, uses'': seq<Use>)
    requires Glueable(chain, rest) && Pool(frags, rest, restIdx) && j < |rest|
    requires AbsorbInv(dist, chain, rest, frags, uses, restIdx, j, chain', uses')
    requires chain' != [] && rest[j] != [] && k == ChoosePairing(dist, chain', rest[j])
    requires chain'' == Splice(chain', rest[j], k) && uses'' == SpliceUses(uses', restIdx[j], k)
    ensures AbsorbInv(dist, chain, rest, frags, uses, restIdx, j + 1, chain'', uses'')
  {
    GlueFoldStep(dist, chain, rest, j);
    SpliceGlued(frags, uses', restIdx[j], k);
    SpliceMultiset(chain', rest[j], k);
    PrefixSnoc(rest, j);
    PrefixSnoc(restIdx, j);
    FlattenSnoc(rest[..j], rest[j]);
    Extend(multiset(Indices(uses')), multiset(Indices(uses)), multiset(restIdx[..j]), multiset{restIdx[j]});
    Extend(multiset(chain'), multiset(chain), multiset(Flatten(rest[..j])), multiset(rest[j]));
  }

  lemma Extend<T>(a: multiset<T>, b: multiset<T>, c: multiset<T>, x: multiset<T>)
    requires a == b + c
    ensures a + x == b + (c + x)
  {
  }

  lemma AbsorbStart(dist: (Waypoint, Waypoint) -> real, chain: seq<Waypoint>, rest: seq<seq<Waypoint>>,
                    frags: seq<seq<Waypoint>>, uses: seq<Use>, restIdx: seq<nat>)
    requires uses != [] && chain == Glued(frags, uses) && |restIdx| == |rest|
    ensures AbsorbInv(dist, chain, rest, frags, uses, restIdx, 0, chain, uses)
  {
    assert rest[..0] == [] && restIdx[..0] == [];
  }

  lemma AbsorbEnd(dist: (Waypoint, Waypoint) -> real, chain: seq<Waypoint>, rest: seq<seq<Waypoint>>,
                  frags: seq<seq<Waypoint>>, uses: seq<Use>, restIdx: seq<nat>, chain': seq<Waypoint>, uses': seq<Use>)
    requires Glueable(chain, rest)
    requires |restIdx| == |rest| && AbsorbInv(dist, chain, rest, frags, uses, restIdx, |rest|, chain', uses')
    ensures uses' != [] && chain' == Glued(frags, uses') && |chain'| >= |chain|
    ensures rest == [] ==> chain' == chain
    ensures multiset(Indices(uses')) + multiset([]) == multiset(Indices(uses)) + multiset(restIdx)
    ensures multiset(chain') + multiset(Flatten([])) == multiset(chain) + multiset(Flatten(rest))
    ensures chain' == GlueFold(dist, chain, rest)
  {
    assert rest[..|rest|] == rest && restIdx[..|rest|] == restIdx;
  }

  /** One `self.ways.retain(..)` pass of `glue_ways`: every remaining fragment
      is spliced onto the chain as it stands at that moment, at the pairing
      whose two ends are nearest under `dist`; `done` stays set only when
      there was nothing left. */
  method AbsorbAll(dist: (Waypoint, Waypoint) -> real, chain: seq<Waypoint>, rest: seq<seq<Waypoint>>,
                   ghost frags: seq<seq<Waypoint>>, ghost uses: seq<Use>, ghost restIdx: seq<nat>)
    returns (chain': seq<Waypoint>, kept: seq<seq<Waypoint>>, done: bool,
             ghost uses': seq<Use>, ghost keptIdx: seq<nat>)
    requires rest == [] || (chain != [] && forall j :: 0 <= j < |rest| ==> rest[j] != [])
    requires uses != [] && chain == Glued(frags, uses) && Pool(frags, rest, restIdx)
    ensures uses' != [] && chain' == Glued(frags, uses') && |chain'| >= |chain|
    ensures kept == [] && keptIdx == [] && (done <==> rest == [])
    ensures done ==> chain' == chain
    ensures multiset(Indices(uses')) + multiset(keptIdx) == multiset(Indices(uses)) + multiset(restIdx)
    ensures multiset(chain') + multiset(Flatten(kept)) == multiset(chain) + multiset(Flatten(rest))
    ensures chain' == GlueFold(dist, chain, rest)
  {
    chain', kept, done, uses', keptIdx := chain, [], true, uses, [];
    AbsorbStart(dist, chain, rest, frags, uses, restIdx);
    for j := 0 to |rest|
      invariant AbsorbInv(dist, chain, rest, frags, uses, restIdx, j, chain', uses')
      invariant done <==> j == 0
    {
      var way := rest[j];
      AbsorbReady(dist, chain, rest, frags, uses, restIdx, j, chain', uses');
      var k := ChoosePairing(dist, chain', way);
      var chain'' := Join(chain', way, k);
      ghost var uses'' := SpliceUses(uses', restIdx[j], k);
      AbsorbStep(dist, chain, rest, frags, uses, restIdx, j, chain', uses', k, chain'', uses'');
      chain', uses', done := chain'', uses'', false;
    }
    AbsorbEnd(dist, chain, rest, frags, uses, restIdx, chain', uses');
  }

  // ---------------------------------------------------------------------------
  // The outer loops
  // ---------------------------------------------------------------------------

  ghost predicate AllMeet(frags: seq<seq<Waypoint>>, assembly: seq<seq<Use>>)
  {
    forall c :: 0 <= c < |assembly| ==> Meets(frags, assembly[c])
  }

  /** Between two chains of `reorder_ways`: besides the bookkeeping, the
      closed chains meet inside, touch neither each other nor what remains,
      and an input with no touching fragments is passed through in order. */
  ghost predicate Reordering(input: seq<seq<Waypoint>>, closed: seq<seq<Waypoint>>, assembly: seq<seq<Use>>,
                             rest: seq<seq<Waypoint>>, restIdx: seq<nat>)
  {
    && Stitching(input, closed, assembly, rest, restIdx)
    && (|input| >= 2 ==>
          (forall j :: 0 <= j < |rest| ==> rest[j] != []) && forall c :: 0 <= c < |closed| ==> closed[c] != [])
    && AllMeet(input, assembly)
    && NoSharedEnds(closed) && Apart(closed, rest)
    && (NoSharedEnds(input) ==> closed + rest == input)
  }

  /** While `reorder_ways` grows a chain; `done` is the flag of the last pass. */
  ghost predicate Growing(input: seq<seq<Waypoint>>, closed: seq<seq<Waypoint>>, assembly: seq<seq<Use>>,
                          chain: seq<Waypoint>, uses: seq<Use>, rest: seq<seq<Waypoint>>, restIdx: seq<nat>, done: bool)
  {
    && Open(input, closed, assembly, chain, uses, rest, restIdx)
    && (rest == [] || (chain != [] && forall j :: 0 <= j < |rest| ==> rest[j] != []))
    && (|input| >= 2 ==> chain != [] && forall c :: 0 <= c < |closed| ==> closed[c] != [])
    && AllMeet(input, assembly) && Meets(input, uses)
    && NoSharedEnds(closed) && Fenced(closed, chain, rest)
    && (done ==> forall j :: 0 <= j < |rest| ==> !ShareEnd(chain, rest[j]))
    && (NoSharedEnds(input) ==> closed + [chain] + rest == input)
  }

  lemma ReorderBegin(input: seq<seq<Waypoint>>)
    requires Fragmentable(input)
    ensures Reordering(input, [], [], input, Range(|input|))
  {
    StartStitching(input);
    assert [] + input == input;
  }

  /** A single fragment meets itself trivially. */
  lemma MeetsOne(frags: seq<seq<Waypoint>>, u: Use)
    ensures Meets(frags, [u])
  {
  }

  lemma ReorderOpen(input: seq<seq<Waypoint>>, closed: seq<seq<Waypoint>>, assembly: seq<seq<Use>>,
                    rest: seq<seq<Waypoint>>, restIdx: seq<nat>)
    requires Reordering(input, closed, assembly, rest, restIdx) && rest != []
    ensures Growing(input, closed, assembly, rest[0], [Use(restIdx[0], false)], rest[1..], restIdx[1..], false)
  {
    OpenChain(input, closed, assembly, rest, restIdx);
    MeetsOne(input, Use(restIdx[0], false));
    SplitHead(closed, rest);
    FencedFirst(closed, rest);
    if |input| >= 2 {
      NonEmptyTail(rest);
    }
  }

  lemma SplitHead<T>(a: seq<T>, b: seq<T>)
    requires b != []
    ensures a + [b[0]] + b[1..] == a + b
  {
    assert b == [b[0]] + b[1..];
  }

  /** The first remaining fragment, opened as a chain, is fenced off like the rest. */
  lemma FencedFirst(closed: seq<seq<Waypoint>>, rest: seq<seq<Waypoint>>)
    requires Apart(closed, rest) && rest != []
    ensures Fenced(closed, rest[0], rest[1..])
  {
    forall c, j | 0 <= c < |closed| && 0 <= j < |rest| - 1 ensures !ShareEnd(closed[c], rest[1..][j]) {
      assert rest[1..][j] == rest[j + 1];
    }
  }

  lemma NonEmptyTail(ws: seq<seq<Waypoint>>)
    requires ws != [] && forall j :: 0 <= j < |ws| ==> ws[j] != []
    ensures forall j :: 0 <= j < |ws| - 1 ==> ws[1..][j] != []
  {
    forall j | 0 <= j < |ws| - 1 ensures ws[1..][j] != [] {
      assert ws[1..][j] == ws[j + 1];
    }
  }

  /** Within an input whose fragments pairwise do not touch, a fragment
      touches nothing after it. */
  lemma NoSharedEndsAfter(a: seq<seq<Waypoint>>, x: seq<Waypoint>, b: seq<seq<Waypoint>>)
    requires NoSharedEnds(a + [x] + b)
    ensures forall j :: 0 <= j < |b| ==> !ShareEnd(x, b[j])
  {
    var all := a + [x] + b;
    forall j | 0 <= j < |b| ensures !ShareEnd(x, b[j]) {
      assert all[|a|] == x && all[|a| + 1 + j] == b[j];
    }
  }

  /** What a pass of `reorder_ways` needs from the open chain. */
  lemma GrowingReady(input: seq<seq<Waypoint>>, closed: seq<seq<Waypoint>>, assembly: seq<seq<Use>>,
                     chain: seq<Waypoint>, uses: seq<Use>, rest: seq<seq<Waypoint>>, restIdx: seq<nat>, done: bool)
    requires Growing(input, closed, assembly, chain, uses, rest, restIdx, done)
    ensures rest == [] || (chain != [] && forall j :: 0 <= j < |rest| ==> rest[j] != [])
    ensures uses != [] && chain == Glued(input, uses) && Pool(input, rest, restIdx)
  {
  }

  lemma ReorderPass(input: seq<seq<Waypoint>>, closed: seq<seq<Waypoint>>, assembly: seq<seq<Use>>,
                    chain: seq<Waypoint>, uses: seq<Use>, rest: seq<seq<Waypoint>>, restIdx: seq<nat>, done: bool,
                    chain': seq<Waypoint>, kept: seq<seq<Waypoint>>, done': bool, uses': seq<Use>, keptIdx: seq<nat>)
    requires Growing(input, closed, assembly, chain, uses, rest, restIdx, done)
    requires uses' != [] && chain' == Glued(input, uses') && |chain'| >= |chain|
    requires Meets(input, uses) ==> Meets(input, uses')
    requires Pool(input, kept, keptIdx) && |kept| <= |rest| && forall j :: 0 <= j < |kept| ==> kept[j] != []
    requires multiset(Indices(uses')) + multiset(keptIdx) == multiset(Indices(uses)) + multiset(restIdx)
    requires multiset(chain') + multiset(Flatten(kept)) == multiset(chain) + multiset(Flatten(rest))
    requires done' <==> forall j :: 0 <= j < |rest| ==> !ShareEnd(chain, rest[j])
    requires done' ==> chain' == chain && kept == rest
    requires Fenced(closed, chain, rest) ==> Fenced(closed, chain', kept)
    ensures Growing(input, closed, assembly, chain', uses', kept, keptIdx, done')
  {
    PassKeepsOpen(input, closed, assembly, chain, uses, rest, restIdx, chain', uses', kept, keptIdx);
    if NoSharedEnds(input) {
      NoSharedEndsAfter(closed, chain, rest);
    }
  }

  lemma ReorderClose(input: seq<seq<Waypoint>>, closed: seq<seq<Waypoint>>, assembly: seq<seq<Use>>,
                     chain: seq<Waypoint>, uses: seq<Use>, rest: seq<seq<Waypoint>>, restIdx: seq<nat>)
    requires Growing(input, closed, assembly, chain, uses, rest, restIdx, true)
    ensures Reordering(input, closed + [chain], assembly + [uses], rest, restIdx)
  {
    CloseChain(input, closed, assembly, chain, uses, rest, restIdx);
    AllMeetSnoc(input, assembly, uses);
    SeparateSnoc(closed, chain, rest);
    if |input| >= 2 {
      NonEmptySnoc(closed, chain);
    }
  }

  lemma AllMeetSnoc(frags: seq<seq<Waypoint>>, assembly: seq<seq<Use>>, uses: seq<Use>)
    requires AllMeet(frags, assembly) && Meets(frags, uses)
    ensures AllMeet(frags, assembly + [uses])
  {
    forall c | 0 <= c < |assembly| + 1 ensures Meets(frags, (assembly + [uses])[c]) {
      if c < |assembly| {
        assert (assembly + [uses])[c] == assembly[c];
      }
    }
  }

  /** A chain that touches neither the closed chains nor what remains can be
      closed next to them. */
  lemma SeparateSnoc(closed: seq<seq<Waypoint>>, chain: seq<Waypoint>, rest: seq<seq<Waypoint>>)
    requires NoSharedEnds(closed) && Fenced(closed, chain, rest)
    requires forall j :: 0 <= j < |rest| ==> !ShareEnd(chain, rest[j])
    ensures NoSharedEnds(closed + [chain]) && Apart(closed + [chain], rest)
  {
    var closed' := closed + [chain];
    forall c, d | 0 <= c < d < |closed'| ensures !ShareEnd(closed'[c], closed'[d]) {
      assert closed'[c] == closed[c];
      if d < |closed| {
        assert closed'[d] == closed[d];
      }
    }
    forall c, j | 0 <= c < |closed'| && 0 <= j < |rest| ensures !ShareEnd(closed'[c], rest[j]) {
      if c < |closed| {
        assert closed'[c] == closed[c];
      }
    }
  }

  lemma NonEmptySnoc(ws: seq<seq<Waypoint>>, w: seq<Waypoint>)
    requires (forall c :: 0 <= c < |ws| ==> ws[c] != []) && w != []
    ensures forall c :: 0 <= c < |ws| + 1 ==> (ws + [w])[c] != []
  {
  }

  lemma ReorderEnd(input: seq<seq<Waypoint>>, closed: seq<seq<Waypoint>>, assembly: seq<seq<Use>>)
    requires Reordering(input, closed, assembly, [], [])
    ensures Assembly(input, closed, assembly) && AllMeet(input, assembly)
    ensures multiset(Flatten(closed)) == multiset(Flatten(input))
    ensures |closed| <= |input| && (closed == [] <==> input == [])
    ensures NoSharedEnds(closed) && Fragmentable(closed)
    ensures NoSharedEnds(input) ==> closed == input
  {
    StitchingDone(input, closed, assembly);
    assert closed + [] == closed;
  }

  /** Between two chains of `glue_ways`: the first chain swallows everything,
      so at most one chain is ever closed, and a lone fragment stays as it is. */
  ghost predicate Gluing(input: seq<seq<Waypoint>>, closed: seq<seq<Waypoint>>, assembly: seq<seq<Use>>,
                         rest: seq<seq<Waypoint>>, restIdx: seq<nat>)
  {
    && Stitching(input, closed, assembly, rest, restIdx)
    && (|input| >= 2 ==> forall j :: 0 <= j < |rest| ==> rest[j] != [])
    && |closed| <= 1 && (closed != [] ==> rest == [])
    && (|input| <= 1 ==> closed + rest == input)
  }

  /** While `glue_ways` grows its only chain. */
  ghost predicate Absorbing(input: seq<seq<Waypoint>>, closed: seq<seq<Waypoint>>, assembly: seq<seq<Use>>,
                            chain: seq<Waypoint>, uses: seq<Use>, rest: seq<seq<Waypoint>>, restIdx: seq<nat>, done: bool)
  {
    && Open(input, closed, assembly, chain, uses, rest, restIdx)
    && (rest == [] || (chain != [] && forall j :: 0 <= j < |rest| ==> rest[j] != []))
    && closed == [] && (done ==> rest == [])
    && (|input| <= 1 ==> [chain] + rest == input)
  }

  lemma GlueBegin(input: seq<seq<Waypoint>>)
    requires Fragmentable(input)
    ensures Gluing(input, [], [], input, Range(|input|))
  {
    StartStitching(input);
    assert [] + input == input;
  }

  lemma GlueOpen(input: seq<seq<Waypoint>>, closed: seq<seq<Waypoint>>, assembly: seq<seq<Use>>,
                 rest: seq<seq<Waypoint>>, restIdx: seq<nat>)
    requires Gluing(input, closed, assembly, rest, restIdx) && rest != []
    ensures Absorbing(input, closed, assembly, rest[0], [Use(restIdx[0], false)], rest[1..], restIdx[1..], false)
  {
    OpenChain(input, closed, assembly, rest, restIdx);
    assert [rest[0]] + rest[1..] == rest;
    if |input| >= 2 {
      forall j | 0 <= j < |rest| - 1 ensures rest[1..][j] != [] {
        assert rest[1..][j] == rest[j + 1];
      }
    }
  }

  /** What a pass of `glue_ways` needs from the open chain. */
  lemma AbsorbingReady(input: seq<seq<Waypoint>>, closed: seq<seq<Waypoint>>, assembly: seq<seq<Use>>,
                       chain: seq<Waypoint>, uses: seq<Use>, rest: seq<seq<Waypoint>>, restIdx: seq<nat>, done: bool)
    requires Absorbing(input, closed, assembly, chain, uses, rest, restIdx, done)
    ensures rest == [] || (chain != [] && forall j :: 0 <= j < |rest| ==> rest[j] != [])
    ensures uses != [] && chain == Glued(input, uses) && Pool(input, rest, restIdx)
  {
  }

  lemma GluePass(input: seq<seq<Waypoint>>, closed: seq<seq<Waypoint>>, assembly: seq<seq<Use>>,
                 chain: seq<Waypoint>, uses: seq<Use>, rest: seq<seq<Waypoint>>, restIdx: seq<nat>, done: bool,
                 chain': seq<Waypoint>, kept: seq<seq<Waypoint>>, done': bool, uses': seq<Use>, keptIdx: seq<nat>)
    requires Absorbing(input, closed, assembly, chain, uses, rest, restIdx, done)
    requires uses' != [] && chain' == Glued(input, uses') && |chain'| >= |chain|
    requires kept == [] && keptIdx == [] && (done' <==> rest == []) && (done' ==> chain' == chain)
    requires multiset(Indices(uses')) + multiset(keptIdx) == multiset(Indices(uses)) + multiset(restIdx)
    requires multiset(chain') + multiset(Flatten(kept)) == multiset(chain) + multiset(Flatten(rest))
    ensures Absorbing(input, closed, assembly, chain', uses', kept, keptIdx, done')
  {
    PassKeepsOpen(input, closed, assembly, chain, uses, rest, restIdx, chain', uses', kept, keptIdx);
  }

  lemma GlueClose(input: seq<seq<Waypoint>>, closed: seq<seq<Waypoint>>, assembly: seq<seq<Use>>,
                  chain: seq<Waypoint>, uses: seq<Use>, rest: seq<seq<Waypoint>>, restIdx: seq<nat>)
    requires Absorbing(input, closed, assembly, chain, uses, rest, restIdx, true)
    ensures Gluing(input, closed + [chain], assembly + [uses], rest, restIdx)
  {
    CloseChain(input, closed, assembly, chain, uses, rest, restIdx);
  }

  lemma GlueEnd(input: seq<seq<Waypoint>>, closed: seq<seq<Waypoint>>, assembly: seq<seq<Use>>)
    requires Gluing(input, closed, assembly, [], [])
    ensures Assembly(input, closed, assembly)
    ensures multiset(Flatten(closed)) == multiset(Flatten(input))
    ensures |closed| <= 1 && (closed == [] <==> input == [])
    ensures |input| <= 1 ==> closed == input
  {
    StitchingDone(input, closed, assembly);
    assert closed + [] == closed;
  }

  /** Between two chains of `glue_ways`, in terms of the result: nothing is
      closed yet, or the one chain `Glue` describes is. */
  ghost predicate GlueSoFar(dist: (Waypoint, Waypoint) -> real, input: seq<seq<Waypoint>>,
                            closed: seq<seq<Waypoint>>, rest: seq<seq<Waypoint>>)
  {
    Fragmentable(input) &&
    ((closed == [] && rest == input) || (rest == [] && closed == Glue(dist, input)))
  }

  /** While `glue_ways` grows its chain: before the first pass, or after one. */
  ghost predicate ChainSoFar(dist: (Waypoint, Waypoint) -> real, input: seq<seq<Waypoint>>,
                             chain: seq<Waypoint>, rest: seq<seq<Waypoint>>)
  {
    input != [] && Glueable(input[0], input[1..]) &&
    ((chain == input[0] && rest == input[1..]) || (rest == [] && chain == GlueFold(dist, input[0], input[1..])))
  }

  lemma GlueSoFarOpen(dist: (Waypoint, Waypoint) -> real, input: seq<seq<Waypoint>>,
                      closed: seq<seq<Waypoint>>, rest: seq<seq<Waypoint>>)
    requires GlueSoFar(dist, input, closed, rest) && rest != []
    ensures closed == [] && ChainSoFar(dist, input, rest[0], rest[1..])
  {
    forall j | 0 <= j < |input| - 1 ensures input[1..][j] != [] {
      assert input[1..][j] == input[j + 1];
    }
  }

  lemma ChainSoFarStep(dist: (Waypoint, Waypoint) -> real, input: seq<seq<Waypoint>>,
                       chain: seq<Waypoint>, rest: seq<seq<Waypoint>>, chain': seq<Waypoint>)
    requires ChainSoFar(dist, input, chain, rest) && Glueable(chain, rest)
    requires chain' == GlueFold(dist, chain, rest)
    ensures ChainSoFar(dist, input, chain', [])
  {
  }

  lemma ChainSoFarClose(dist: (Waypoint, Waypoint) -> real, input: seq<seq<Waypoint>>, chain: seq<Waypoint>)
    requires Fragmentable(input) && ChainSoFar(dist, input, chain, [])
    ensures GlueSoFar(dist, input, [chain], [])
  {
  }

  lemma GlueSoFarEnd(dist: (Waypoint, Waypoint) -> real, input: seq<seq<Waypoint>>, closed: seq<seq<Waypoint>>)
    requires GlueSoFar(dist, input, closed, [])
    ensures closed == Glue(dist, input)
  {
  }

  /** Everything the outer loop of `glue_ways` keeps true. */
  ghost predicate GlueState(dist: (Waypoint, Waypoint) -> real, input: seq<seq<Waypoint>>, closed: seq<seq<Waypoint>>,
                            assembly: seq<seq<Use>>, rest: seq<seq<Waypoint>>, restIdx: seq<nat>)
  {
    Gluing(input, closed, assembly, rest, restIdx) && GlueSoFar(dist, input, closed, rest)
  }

  lemma GlueStart(dist: (Waypoint, Waypoint) -> real, input: seq<seq<Waypoint>>)
    requires Fragmentable(input)
    ensures GlueState(dist, input, [], [], input, Range(|input|))
  {
    GlueBegin(input);
  }

  lemma GlueStateOpen(dist: (Waypoint, Waypoint) -> real, input: seq<seq<Waypoint>>, closed: seq<seq<Waypoint>>,
                      assembly: seq<seq<Use>>, rest: seq<seq<Waypoint>>, restIdx: seq<nat>)
    requires GlueState(dist, input, closed, assembly, rest, restIdx) && rest != []
    ensures closed == [] && restIdx != []
    ensures Absorbing(input, closed, assembly, rest[0], [Use(restIdx[0], false)], rest[1..], restIdx[1..], false)
    ensures ChainSoFar(dist, input, rest[0], rest[1..])
  {
    GlueOpen(input, closed, assembly, rest, restIdx);
    GlueSoFarOpen(dist, input, closed, rest);
  }

  lemma GlueStateClose(dist: (Waypoint, Waypoint) -> real, input: seq<seq<Waypoint>>, closed: seq<seq<Waypoint>>,
                       assembly: seq<seq<Use>>, chain: seq<Waypoint>, uses: seq<Use>,
                       rest: seq<seq<Waypoint>>, restIdx: seq<nat>)
    requires closed == [] && Fragmentable(input)
    requires Absorbing(input, closed, assembly, chain, uses, rest, restIdx, true)
    requires ChainSoFar(dist, input, chain, rest) && rest == []
    ensures GlueState(dist, input, closed + [chain], assembly + [uses], rest, restIdx)
  {
    GlueClose(input, closed, assembly, chain, uses, rest, restIdx);
    ChainSoFarClose(dist, input, chain);
    assert closed + [chain] == [chain];
  }

  lemma GlueStateEnd(dist: (Waypoint, Waypoint) -> real, input: seq<seq<Waypoint>>, closed: seq<seq<Waypoint>>,
                     assembly: seq<seq<Use>>)
    requires GlueState(dist, input, closed, assembly, [], [])
    ensures Assembly(input, closed, assembly)
    ensures multiset(Flatten(closed)) == multiset(Flatten(input))
    ensures |closed| <= 1 && (closed == [] <==> input == [])
    ensures |input| <= 1 ==> closed == input
    ensures closed == Glue(dist, input)
  {
    GlueEnd(input, closed, assembly);
    GlueSoFarEnd(dist, input, closed);
  }

  /** Chains that pairwise do not touch and report no discontiguity are at
      most one. */
  lemma ChainsContiguous(ws: seq<seq<Waypoint>>)
    requires NoSharedEnds(ws) && Fragmentable(ws) && Discontiguities(ws) == 0
    ensures |ws| <= 1
  {
    if |ws| >= 2 {
      SeparatedChainsDiscontiguous(ws);
    }
  }

  /** The `while !done` loop of `reorder_ways`: passes over the remaining
      fragments until one splices nothing onto the open chain. */
  method GrowChain(ghost input: seq<seq<Waypoint>>, ghost closed: seq<seq<Waypoint>>, ghost assembly: seq<seq<Use>>,
                   chain: seq<Waypoint>, rest: seq<seq<Waypoint>>, ghost uses: seq<Use>, ghost restIdx: seq<nat>)
    returns (chain': seq<Waypoint>, rest': seq<seq<Waypoint>>, ghost uses': seq<Use>, ghost restIdx': seq<nat>)
    requires Growing(input, closed, assembly, chain, uses, rest, restIdx, false)
    ensures Growing(input, closed, assembly, chain', uses', rest', restIdx', true) && |rest'| <= |rest|
  {
    chain', rest', uses', restIdx' := chain, rest, uses, restIdx;
    var done := false;
    while !done
      invariant |rest'| <= |rest|
      invariant Growing(input, closed, assembly, chain', uses', rest', restIdx', done)
      decreases |rest'| + (if done then 0 else 1)
    {
      GrowingReady(input, closed, assembly, chain', uses', rest', restIdx', done);
      var chain'', kept, done', uses'', keptIdx := RetainJoinable(chain', rest', input, uses', restIdx', closed);
      ReorderPass(input, closed, assembly, chain', uses', rest', restIdx', done,
                  chain'', kept, done', uses'', keptIdx);
      chain', rest', done, uses', restIdx' := chain'', kept, done', uses'', keptIdx;
    }
  }

  /** The `while !done` loop of `glue_ways`: the first pass absorbs every
      remaining fragment, the second finds nothing left. */
  method GlueChain(dist: (Waypoint, Waypoint) -> real, ghost input: seq<seq<Waypoint>>,
                   ghost closed: seq<seq<Waypoint>>, ghost assembly: seq<seq<Use>>,
                   chain: seq<Waypoint>, rest: seq<seq<Waypoint>>, ghost uses: seq<Use>, ghost restIdx: seq<nat>)
    returns (chain': seq<Waypoint>, rest': seq<seq<Waypoint>>, ghost uses': seq<Use>, ghost restIdx': seq<nat>)
    requires Absorbing(input, closed, assembly, chain, uses, rest, restIdx, false)
    requires ChainSoFar(dist, input, chain, rest)
    ensures Absorbing(input, closed, assembly, chain', uses', rest', restIdx', true)
    ensures ChainSoFar(dist, input, chain', rest') && rest' == []
  {
    chain', rest', uses', restIdx' := chain, rest, uses, restIdx;
    var done := false;
    while !done
      invariant |rest'| <= |rest|
      invariant Absorbing(input, closed, assembly, chain', uses', rest', restIdx', done)
      invariant ChainSoFar(dist, input, chain', rest')
      decreases |rest'| + (if done then 0 else 1)
    {
      AbsorbingReady(input, closed, assembly, chain', uses', rest', restIdx', done);
      var chain'', kept, done', uses'', keptIdx := AbsorbAll(dist, chain', rest', input, uses', restIdx');
      GluePass(input, closed, assembly, chain', uses', rest', restIdx', done,
               chain'', kept, done', uses'', keptIdx);
      ChainSoFarStep(dist, input, chain', rest', chain'');
      chain', rest', done, uses', restIdx' := chain'', kept, done', uses'', keptIdx;
    }
  }

  // ---------------------------------------------------------------------------
  // Reordering and then gluing: composing two assemblies
  // ---------------------------------------------------------------------------

  /** A use read from the other end of the chain. */
  function Toggle(u: Use): Use
  {
    Use(u.index, !u.reversed)
  }

  /** The uses of a chain walked backwards: the chain reversed. */
  function Flip(us: seq<Use>): (r: seq<Use>)
    ensures |r| == |us| && forall i :: 0 <= i < |us| ==> r[i] == Toggle(us[|us| - 1 - i])
  {
    if us == [] then [] else [Toggle(Last(us))] + Flip(us[..|us| - 1])
  }

  lemma ReverseReverse<T>(s: seq<T>)
    ensures Reverse(Reverse(s)) == s
  {
    assert forall i :: 0 <= i < |s| ==> Reverse(Reverse(s))[i] == s[i];
  }

  lemma ReverseConcat<T>(a: seq<T>, b: seq<T>)
    ensures Reverse(a + b) == Reverse(b) + Reverse(a)
  {
    assert forall i :: 0 <= i < |a| + |b| ==> Reverse(a + b)[i] == (Reverse(b) + Reverse(a))[i];
  }

  lemma OrientedToggle(frags: seq<seq<Waypoint>>, u: Use)
    ensures Oriented(frags, Toggle(u)) == Reverse(Oriented(frags, u))
  {
    if u.index < |frags| && u.reversed {
      ReverseReverse(frags[u.index]);
    }
  }

  /** Walking the uses backwards glues the reversed chain, from the same
      fragments. */
  lemma {:induction false} GluedFlip(frags: seq<seq<Waypoint>>, us: seq<Use>)
    ensures Glued(frags, Flip(us)) == Reverse(Glued(frags, us))
    ensures multiset(Indices(Flip(us))) == multiset(Indices(us))
  {
    if us != [] {
      var p, u := us[..|us| - 1], Last(us);
      GluedFlip(frags, p);
      GluedCons(frags, Toggle(u), Flip(p));
      assert Flip(us) == [Toggle(u)] + Flip(p);
      OrientedToggle(frags, u);
      ReverseConcat(Glued(frags, p), Oriented(frags, u));
    }
  }

  lemma {:induction false} GluedConcat(frags: seq<seq<Waypoint>>, xs: seq<Use>, ys: seq<Use>)
    ensures Glued(frags, xs + ys) == Glued(frags, xs) + Glued(frags, ys)
  {
    if xs == [] {
      assert xs + ys == ys;
    } else {
      var x, p := xs[0], xs[1..];
      GluedConcat(frags, p, ys);
      ConsConcat(xs, ys);
      ConsSplit(xs);
      GluedCons(frags, x, p + ys);
      GluedCons(frags, x, p);
      ConcatAssoc(Oriented(frags, x), Glued(frags, p), Glued(frags, ys));
    }
  }

  lemma {:induction false} IndicesConcat(xs: seq<Use>, ys: seq<Use>)
    ensures Indices(xs + ys) == Indices(xs) + Indices(ys)
  {
    if xs == [] {
      assert xs + ys == ys;
    } else {
      var x, p := xs[0], xs[1..];
      IndicesConcat(p, ys);
      ConsConcat(xs, ys);
      ConsSplit(xs);
      GluedCons([], x, p + ys);
      GluedCons([], x, p);
      ConcatAssoc([x.index], Indices(p), Indices(ys));
    }
  }

  lemma ConcatAssoc<T>(a: seq<T>, b: seq<T>, c: seq<T>)
    ensures a + (b + c) == (a + b) + c
  {
  }

  /** The uses of input fragments that make up use `u` of an intermediate
      chain. */
  function Sub(a1: seq<seq<Use>>, u: Use): seq<Use>
  {
    if u.index >= |a1| then []
    else if u.reversed then Flip(a1[u.index]) else a1[u.index]
  }

  /** A chain of intermediate chains, written as uses of the input fragments. */
  function Compose(a1: seq<seq<Use>>, us: seq<Use>): seq<Use>
  {
    if us == [] then [] else Compose(a1, us[..|us| - 1]) + Sub(a1, Last(us))
  }

  /** Every chain of the second assembly, written in terms of the first. */
  function ComposeAll(a1: seq<seq<Use>>, a2: seq<seq<Use>>): (a: seq<seq<Use>>)
    ensures |a| == |a2| && forall c :: 0 <= c < |a2| ==> a[c] == Compose(a1, a2[c])
  {
    if a2 == [] then [] else ComposeAll(a1, a2[..|a2| - 1]) + [Compose(a1, Last(a2))]
  }

  lemma SubGlued(frags: seq<seq<Waypoint>>, mid: seq<seq<Waypoint>>, a1: seq<seq<Use>>, u: Use)
    requires Assembled(frags, mid, a1)
    ensures Glued(frags, Sub(a1, u)) == Oriented(mid, u)
  {
    if u.index < |a1| && u.reversed {
      GluedFlip(frags, a1[u.index]);
    }
  }

  lemma {:induction false} GluedCompose(frags: seq<seq<Waypoint>>, mid: seq<seq<Waypoint>>, a1: seq<seq<Use>>,
                                        us: seq<Use>)
    requires Assembled(frags, mid, a1)
    ensures Glued(frags, Compose(a1, us)) == Glued(mid, us)
  {
    if us != [] {
      var p := us[..|us| - 1];
      GluedCompose(frags, mid, a1, p);
      GluedConcat(frags, Compose(a1, p), Sub(a1, Last(us)));
      SubGlued(frags, mid, a1, Last(us));
    }
  }

  /** The bags numbered `idx`, added up: applied to `Bags` of an assembly, the
      input fragments behind a list of intermediate chains. */
  ghost function Expand(b: seq<multiset<nat>>, idx: seq<nat>): multiset<nat>
  {
    if idx == [] then multiset{} else Behind(b, idx[0]) + Expand(b, idx[1..])
  }

  /** Bag `i`, or none past the end. */
  ghost function Behind(b: seq<multiset<nat>>, i: nat): multiset<nat>
  {
    if i < |b| then b[i] else multiset{}
  }

  lemma ExpandCons(b: seq<multiset<nat>>, x: nat, p: seq<nat>)
    ensures Expand(b, [x] + p) == Behind(b, x) + Expand(b, p)
  {
    assert ([x] + p)[1..] == p;
  }

  lemma ConsConcat<T>(xs: seq<T>, ys: seq<T>)
    requires xs != []
    ensures xs + ys == [xs[0]] + (xs[1..] + ys)
  {
  }

  lemma ConsSplit<T>(xs: seq<T>)
    requires xs != []
    ensures xs == [xs[0]] + xs[1..]
  {
  }

  lemma {:induction false} ExpandConcat(b: seq<multiset<nat>>, xs: seq<nat>, ys: seq<nat>)
    ensures Expand(b, xs + ys) == Expand(b, xs) + Expand(b, ys)
  {
    if xs == [] {
      assert xs + ys == ys;
    } else {
      var x, p := xs[0], xs[1..];
      ExpandConcat(b, p, ys);
      ConsConcat(xs, ys);
      ExpandCons(b, x, p + ys);
      Assoc(Behind(b, x), Expand(b, p), Expand(b, ys));
    }
  }

  lemma ExpandSnoc(b: seq<multiset<nat>>, xs: seq<nat>, x: nat)
    ensures Expand(b, xs + [x]) == Expand(b, xs) + Behind(b, x)
  {
    ExpandConcat(b, xs, [x]);
    ExpandCons(b, x, []);
  }

  /** Taking element `k` out of a sequence. */
  lemma RemoveAt<T>(ys: seq<T>, k: nat)
    requires k < |ys|
    ensures ys == ys[..k] + ([ys[k]] + ys[k + 1..])
    ensures multiset(ys[..k] + ys[k + 1..]) == multiset(ys) - multiset{ys[k]}
  {
    assert ys == ys[..k] + [ys[k]] + ys[k + 1..];
  }

  lemma TailMultiset<T>(xs: seq<T>)
    requires xs != []
    ensures multiset(xs[1..]) == multiset(xs) - multiset{xs[0]}
  {
    assert xs == [xs[0]] + xs[1..];
  }

  lemma Shuffle<T>(a: multiset<T>, x: multiset<T>, y: multiset<T>)
    ensures a + (x + y) == x + (a + y)
  {
  }

  /** `Expand` does not depend on the order of the numbers. */
  lemma {:induction false} ExpandPermutation(b: seq<multiset<nat>>, xs: seq<nat>, ys: seq<nat>)
    requires multiset(xs) == multiset(ys)
    ensures Expand(b, xs) == Expand(b, ys)
    decreases |xs|
  {
    if xs == [] {
      assert ys == [];
    } else {
      var x, p := xs[0], xs[1..];
      assert x in multiset(ys);
      var k :| 0 <= k < |ys| && ys[k] == x;
      var rest := ys[..k] + ys[k + 1..];
      RemoveAt(ys, k);
      TailMultiset(xs);
      ExpandPermutation(b, p, rest);
      ExpandConcat(b, ys[..k], [x] + ys[k + 1..]);
      ExpandCons(b, x, ys[k + 1..]);
      ExpandConcat(b, ys[..k], ys[k + 1..]);
      Shuffle(Behind(b, x), Expand(b, ys[..k]), Expand(b, ys[k + 1..]));
    }
  }

  /** The input fragments behind each intermediate chain. */
  ghost function Bags(a1: seq<seq<Use>>): (b: seq<multiset<nat>>)
    ensures |b| == |a1| && forall i :: 0 <= i < |a1| ==> b[i] == multiset(Indices(a1[i]))
  {
    seq(|a1|, i requires 0 <= i < |a1| => multiset(Indices(a1[i])))
  }

  lemma {:induction false} ExpandRange(a1: seq<seq<Use>>, m: nat)
    requires m <= |a1|
    ensures Expand(Bags(a1), Range(m)) == multiset(AllIndices(a1[..m]))
  {
    if m > 0 {
      ExpandRange(a1, m - 1);
      ExpandSnoc(Bags(a1), Range(m - 1), m - 1);
      PrefixSnoc(a1, m - 1);
      AllIndicesSnoc(a1[..m - 1], a1[m - 1]);
    }
  }

  lemma SubIndices(a1: seq<seq<Use>>, u: Use)
    ensures multiset(Indices(Sub(a1, u))) == Behind(Bags(a1), u.index)
  {
    if u.index < |a1| && u.reversed {
      GluedFlip([], a1[u.index]);
    }
  }

  lemma {:induction false} ComposeIndices(a1: seq<seq<Use>>, us: seq<Use>)
    ensures multiset(Indices(Compose(a1, us))) == Expand(Bags(a1), Indices(us))
  {
    if us != [] {
      var p, u := us[..|us| - 1], Last(us);
      ComposeIndices(a1, p);
      IndicesConcat(Compose(a1, p), Sub(a1, u));
      SubIndices(a1, u);
      ExpandSnoc(Bags(a1), Indices(p), u.index);
    }
  }

  lemma {:induction false} ComposeAllIndices(a1: seq<seq<Use>>, a2: seq<seq<Use>>)
    ensures multiset(AllIndices(ComposeAll(a1, a2))) == Expand(Bags(a1), AllIndices(a2))
  {
    if a2 != [] {
      var p, x := a2[..|a2| - 1], Last(a2);
      ComposeAllIndices(a1, p);
      assert ComposeAll(a1, a2) == ComposeAll(a1, p) + [Compose(a1, x)];
      AllIndicesSnoc(ComposeAll(a1, p), Compose(a1, x));
      ComposeIndices(a1, x);
      ExpandConcat(Bags(a1), AllIndices(p), Indices(x));
    }
  }

  /** The indices one chain of an assembly uses are among those of the whole
      assembly. */
  lemma {:induction false} IndicesWithin(a: seq<seq<Use>>, c: nat)
    requires c < |a|
    ensures multiset(Indices(a[c])) <= multiset(AllIndices(a))
  {
    var p := a[..|a| - 1];
    if c < |a| - 1 {
      IndicesWithin(p, c);
    }
  }

  lemma ComposeNonEmpty(frags: seq<seq<Waypoint>>, mid: seq<seq<Waypoint>>, a1: seq<seq<Use>>, us: seq<Use>)
    requires Assembled(frags, mid, a1) && us != [] && Last(us).index < |a1|
    ensures Compose(a1, us) != []
  {
  }

  lemma ComposeChain(frags: seq<seq<Waypoint>>, mid: seq<seq<Waypoint>>, chains: seq<seq<Waypoint>>,
                     a1: seq<seq<Use>>, a2: seq<seq<Use>>, c: nat)
    requires Assembly(frags, mid, a1) && Assembly(mid, chains, a2) && c < |chains|
    ensures Compose(a1, a2[c]) != [] && chains[c] == Glued(frags, Compose(a1, a2[c]))
  {
    var us := a2[c];
    IndicesWithin(a2, c);
    assert Last(us).index in multiset(Indices(us));
    RangeWithin(|mid|, Last(us).index);
    ComposeNonEmpty(frags, mid, a1, us);
    GluedCompose(frags, mid, a1, us);
  }

  lemma ComposedChains(frags: seq<seq<Waypoint>>, mid: seq<seq<Waypoint>>, chains: seq<seq<Waypoint>>,
                        a1: seq<seq<Use>>, a2: seq<seq<Use>>)
    requires Assembly(frags, mid, a1) && Assembly(mid, chains, a2)
    ensures Assembled(frags, chains, ComposeAll(a1, a2))
  {
    forall c | 0 <= c < |chains|
      ensures Compose(a1, a2[c]) != [] && chains[c] == Glued(frags, Compose(a1, a2[c]))
    {
      ComposeChain(frags, mid, chains, a1, a2, c);
    }
  }

  lemma RangeWithin(n: nat, x: nat)
    requires x in multiset(Range(n))
    ensures x < n
  {
    RangeAt(n);
  }

  /** Reordering fragments into chains and then gluing those chains is one
      assembly of the fragments. */
  lemma AssemblyCompose(frags: seq<seq<Waypoint>>, mid: seq<seq<Waypoint>>, chains: seq<seq<Waypoint>>,
                        a1: seq<seq<Use>>, a2: seq<seq<Use>>)
    requires Assembly(frags, mid, a1) && Assembly(mid, chains, a2)
    ensures Assembly(frags, chains, ComposeAll(a1, a2))
  {
    ComposedChains(frags, mid, chains, a1, a2);
    ComposeAllIndices(a1, a2);
    ExpandPermutation(Bags(a1), AllIndices(a2), Range(|mid|));
    ExpandRange(a1, |a1|);
    assert a1[..|a1|] == a1;
  }

  // ---------------------------------------------------------------------------
  // A line and its ways
  // ---------------------------------------------------------------------------

  /** `LineInfo`: a line of the export with the ways of its route relation. */
  class LineInfo {
    var line: Line
    var name: string
    var ways: seq<seq<Waypoint>>

    constructor (line: Line, name: string, ways: seq<seq<Waypoint>>)
      ensures this.line == line && this.name == name && this.ways == ways
    {
      this.line := line;
      this.name := name;
      this.ways := ways;
    }

    /** `detect_discontiguity`: counts the discontiguous neighbours and reports
        whether there were any. */
    method DetectDiscontiguity() returns (r: bool)
      ensures r <==> Discontiguities(ways) > 0
      ensures r <==> exists i :: 1 <= i < |ways| && Discontiguous(ways[i - 1], ways[i])
    {
      var discontiguities := 0;
      var i := 1;
      while i < |ways|
        invariant 1 <= i && (|ways| > 0 ==> i <= |ways|)
        invariant discontiguities == Discontiguities(ways[..if |ways| == 0 then 0 else i])
      {
        assert ways[..i + 1][..i] == ways[..i];
        if ways[i - 1] != [] && ways[i] != [] &&
           Last(ways[i - 1]).id != ways[i][0].id && Last(ways[i]).id != ways[i - 1][0].id
        {
          discontiguities := discontiguities + 1;
        }
        i := i + 1;
      }
      assert ways[..|ways|] == ways;
      DiscontiguitiesSpec(ways);
      r := discontiguities > 0;
    }

    /** `reorder_ways`: the ways are stitched at shared endpoint ids into
        chains that no longer touch each other. Each chain is the input
        fragments glued end to end, some reversed, meeting at equal ids;
        every fragment and every waypoint is used exactly once. */
    method ReorderWays() returns (ghost assembly: seq<seq<Use>>)
      requires Fragmentable(ways)
      modifies this`ways
      ensures Assembly(old(ways), ways, assembly) && AllMeet(old(ways), assembly)
      ensures multiset(Flatten(ways)) == multiset(Flatten(old(ways)))
      ensures |ways| <= |old(ways)| && (ways == [] <==> old(ways) == [])
      ensures NoSharedEnds(ways) && Fragmentable(ways)
      ensures NoSharedEnds(old(ways)) ==> ways == old(ways)
    {
      ghost var input := ways;
      ghost var restIdx := Range(|ways|);
      var allWays := [];
      assembly := [];
      ReorderBegin(input);
      while ways != []
        invariant Reordering(input, allWays, assembly, ways, restIdx)
        decreases |ways|
      {
        var chain := ways[0];
        ghost var uses := [Use(restIdx[0], false)];
        ReorderOpen(input, allWays, assembly, ways, restIdx);
        ways, restIdx := ways[1..], restIdx[1..];
        chain, ways, uses, restIdx := GrowChain(input, allWays, assembly, chain, ways, uses, restIdx);
        ReorderClose(input, allWays, assembly, chain, uses, ways, restIdx);
        allWays, assembly := allWays + [chain], assembly + [uses];
      }
      ReorderEnd(input, allWays, assembly);
      ways := allWays;
    }

    /** `glue_ways`: the first way swallows all the others, each spliced at
        the nearest of the four endpoint pairings, so at most one chain is
        left; it still uses every fragment and every waypoint exactly once. */
    method GlueWays(dist: (Waypoint, Waypoint) -> real) returns (ghost assembly: seq<seq<Use>>)
      requires Fragmentable(ways)
      modifies this`ways
      ensures Assembly(old(ways), ways, assembly)
      ensures multiset(Flatten(ways)) == multiset(Flatten(old(ways)))
      ensures |ways| <= 1 && (ways == [] <==> old(ways) == [])
      ensures |old(ways)| <= 1 ==> ways == old(ways)
      ensures ways == Glue(dist, old(ways))
    {
      ghost var input := ways;
      ghost var restIdx := Range(|ways|);
      var allWays := [];
      assembly := [];
      var rest := ways;
      GlueStart(dist, input);
      while rest != []
        invariant GlueState(dist, input, allWays, assembly, rest, restIdx)
        decreases |rest|
      {
        var chain := rest[0];
        ghost var uses := [Use(restIdx[0], false)];
        GlueStateOpen(dist, input, allWays, assembly, rest, restIdx);
        rest, restIdx := rest[1..], restIdx[1..];
        chain, rest, uses, restIdx := GlueChain(dist, input, allWays, assembly, chain, rest, uses, restIdx);
        GlueStateClose(dist, input, allWays, assembly, chain, uses, rest, restIdx);
        allWays, assembly := allWays + [chain], assembly + [uses];
      }
      GlueStateEnd(dist, input, allWays, assembly);
      ways := allWays;
    }

    /** What `read` does with the ways of a line: reorder them, and glue the
        reordered chains only when they are discontiguous. Either way at most
        one chain is left, and it is still the input fragments glued end to
        end, each used once. */
    method Arrange(dist: (Waypoint, Waypoint) -> real)
      returns (glued: bool, ghost reordered: seq<seq<Waypoint>>, ghost assembly: seq<seq<Use>>)
      requires Fragmentable(ways)
      modifies this`ways
      ensures NoSharedEnds(reordered) && Fragmentable(reordered)
      ensures NoSharedEnds(old(ways)) ==> reordered == old(ways)
      ensures glued <==> Discontiguities(reordered) > 0
      ensures ways == if glued then Glue(dist, reordered) else reordered
      ensures Assembly(old(ways), ways, assembly)
      ensures |ways| <= 1 && (ways == [] <==> old(ways) == [])
      ensures multiset(Flatten(ways)) == multiset(Flatten(old(ways)))
      ensures glued ==> |old(ways)| >= 2
    {
      ghost var input := ways;
      ghost var first := ReorderWays();
      reordered := ways;
      glued := DetectDiscontiguity();
      if glued {
        ghost var second := GlueWays(dist);
        var again := DetectDiscontiguity();
        AssemblyCompose(input, reordered, ways, first, second);
        assembly := ComposeAll(first, second);
      } else {
        ChainsContiguous(ways);
        assembly := first;
      }
    }
  }
}
