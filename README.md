# stop-names in Dafny

This project models the sequential core of the stop-names tools of the Dresden
tram-telegram ("R09") tool chain, and proves its properties. There are five parts:

- **Route stitching** (module `OsmLines`, `runalyzer/src/osm_lines.rs`).
  - A line read from an OpenStreetMap export carries its route as unordered way fragments.
  - `LineInfo` is a class whose `ways` field is rewritten in place:
    - `ReorderWays` stitches fragments into chains at equal endpoint ids;
    - `DetectDiscontiguity` counts neighbouring chains that do not connect;
    - `GlueWays` splices every fragment onto the first chain, at the nearest of the four endpoint pairings.
  - Ghost "assembly" witnesses record which input fragment, in which orientation, makes up which part of each output chain.
  - The de-duplication of export records and the record-to-waypoint/stop conversions are modelled too.
- **Segmenting a run by known stops** (module `Segments`, `runalyzer/src/segments.rs`).
  - A time-stamped run of junctions is cut at known stops; each piece is turned into per-step durations.
  - The imperative scan is proved equal to a declarative definition: the windows between consecutive known positions, folded into a map.
  - A failed `duration_since(..).unwrap()` is the `None` result.
- **Minimal inter-junction durations** (module `Runalyzer`, `runalyzer/src/main.rs`).
  - The fold over one sorted run keeps, for each pair of consecutive junctions, the smallest gap not above 20 minutes.
  - The `expect` on a backwards step is the `None` result.
- **The next-junction graph** (module `GraphGenerator`, `graph_generator/src/main.rs`).
  - The look-ahead window collects the junctions that later telegrams of the same run report.
  - A majority vote per `(junction, direction)` gives the graph's edge, with self-references dropped.
- **Region lookups and enum codecs** (module `StopNames`, `src/lib.rs`).
  - The lookups are `extract`, `look_up` and `get_approximate_position`.
  - The string/number tables are those of `R09Types` and `TelegramType`.

`Options` holds the `Option` datatype that all modules share.

Modelling conventions:

- Identifiers, timestamps and durations are unbounded naturals. Timestamps are whole seconds.
- A panic that depends on the data becomes a `None` result. A panic that depends on the shape of the input becomes a precondition that is exactly the no-panic condition (`Fragmentable`).
- Hash-map iteration order is a nondeterministic choice (`:|`) in the methods.
- Geodesic distance is a function parameter `dist`.

## Model

| member | source | states |
|---|---|---|
| StopNames.R09FromStr | src/lib.rs:161-168 | a string decodes to `t` exactly when it is `t`'s "R09.xx" name; every other string is rejected |
| StopNames.R09FromU64 | src/lib.rs:170-177 | a number decodes to `t` exactly when it is `t`'s discriminant; only 14, 16 and 18 decode |
| StopNames.R09RoundTrip | src/lib.rs:184-196 | decoding the serialized string, or the discriminant, gives back the original variant |
| StopNames.TelegramTypeToStr | src/lib.rs:237-249 | the serialized form is the single decimal digit of the variant's discriminant |
| StopNames.TelegramTypeFromStr | src/lib.rs:212-220 | a string decodes to `t` exactly when it is `t`'s snake-case name; every other string is rejected |
| StopNames.TelegramTypeFromU64 | src/lib.rs:222-230 | a number decodes to `t` exactly when it is `t`'s discriminant; only 0..3 decode |
| StopNames.TelegramTypeRoundTrip | src/lib.rs:212-249 | the discriminant round-trips; the serialized digit string is rejected by the string decoder, so there is no string round-trip |
| StopNames.Extract | src/lib.rs:92-104 | `Some` iff the region is in both `data` and `meta`, and then it holds exactly those two entries |
| StopNames.LookUp | src/lib.rs:106-117 | `None` for an unknown region; otherwise `Some` iff the traffic light is in the region's map, holding that entry |
| StopNames.FirstDoorClosed | src/lib.rs:134-138 | `None` iff no position is DoorClosed; otherwise the index of the first DoorClosed position |
| StopNames.GetApproximatePosition | src/lib.rs:119-144 | `None` iff the lookup fails or yields no positions; otherwise the first DoorClosed position, or the first position when none is DoorClosed |
| GraphGenerator.IndexOfMax | graph_generator/src/main.rs:12-18 | `None` iff empty; otherwise an index of a maximal value, after which every value is strictly smaller (the last maximum) |
| GraphGenerator.CountOccurrences | graph_generator/src/main.rs:22-30 | the keys are exactly the junctions of the input, and each count is the junction's multiplicity |
| GraphGenerator.Entries | graph_generator/src/main.rs:31-32 | keys and values have equal length; the keys are distinct, are exactly the map's keys, and each value is its key's entry |
| GraphGenerator.ChooseJunction | graph_generator/src/main.rs:21-42 | `None` iff the input is empty; otherwise a junction of the input whose count is maximal |
| GraphGenerator.CountsOf | graph_generator/src/main.rs:22-30 | one count per key, equal to the key's multiplicity in the input |
| GraphGenerator.CountsSumToLength | graph_generator/src/main.rs:22-30 | over distinct keys that cover the input, the counts sum to the input's length |
| GraphGenerator.OccurrenceValues | graph_generator/src/main.rs:22-34 | the values the occurrence map hands to `index_of_max` are the input's counts in key order, and they add up to the input's length |
| GraphGenerator.WindowEnd | graph_generator/src/main.rs:56-74 | the look-ahead scan stops within the telegram list and never before its start index |
| GraphGenerator.WindowReachesFirstLate | graph_generator/src/main.rs:56-74 | a telegram with only in-limit telegrams before it is still scanned, and when it is past the 300 s limit the scan stops right after it |
| GraphGenerator.RecordedSound | graph_generator/src/main.rs:59-71 | every recorded junction comes from a scanned telegram of the same line and run |
| GraphGenerator.MeasuredSound | graph_generator/src/main.rs:53-75 | every junction measured for a key comes from a telegram at least 10 places later, of the same line and run, after a telegram with that key |
| GraphGenerator.CollectMeasurements | graph_generator/src/main.rs:53-75 | `None` iff there are no telegrams (the `len() - 1` underflow); otherwise the measurements of all telegrams but the last |
| GraphGenerator.Drained | graph_generator/src/main.rs:78 | the drained list has every junction's multiplicity except the source junction's, which is removed |
| GraphGenerator.Insert | graph_generator/src/main.rs:81-88 | exactly one `(junction, direction)` entry is added or overwritten; all others are unchanged |
| GraphGenerator.InsertStep | graph_generator/src/main.rs:79-88 | writing the majority target of a key's drained list keeps the graph-so-far correct for the keys done plus this one |
| GraphGenerator.BuildGraph | graph_generator/src/main.rs:77-92 | `graph[j][d]` exists iff `measured[(j, d)]` holds a junction other than `j`; it is then never `j` and is a most frequent junction among those |
| Runalyzer.MeasureStep | runalyzer/src/main.rs:63-67 | recording a measured gap by min-update keeps the table equal to the minimum over all pairs seen so far |
| Runalyzer.SkipStep | runalyzer/src/main.rs:57-62 | a repeated junction or an over-limit gap leaves the table right for one more stamp |
| Runalyzer.MinimalDurations | runalyzer/src/main.rs:51-76 | `None` iff a kept predecessor with a different junction is later than its successor (the `expect`); otherwise each pair maps to the minimum of its measured gaps, and no other pair appears |
| Runalyzer.SortedNeverPanics | runalyzer/src/main.rs:46-59 | a time-ordered run never fails the `duration_since` expect |
| Runalyzer.MinimalDurationsBounds | runalyzer/src/main.rs:57-66 | every stored duration is at most 1200 s, and every key joins two different junctions that stand directly one after the other in the run |
| Runalyzer.RepeatAdvancesPredecessor | runalyzer/src/main.rs:56-71 | a repeated junction adds no entry, but the later stamp becomes the predecessor |
| Runalyzer.OverLimitGapDropsNextPair | runalyzer/src/main.rs:56-71 | after an over-limit gap neither that pair nor the following pair is measured |
| Segments.KnownPositionsSpec | runalyzer/src/segments.rs:13-17 | the known positions are increasing indices of the run, are exactly the indices of known junctions, and run in order |
| Segments.KnownStopsAtPositions | runalyzer/src/segments.rs:13-17 | the known-stop list is the run's junctions at the known positions, in order |
| Segments.JunctionsByKnownStops | runalyzer/src/segments.rs:6-23 | one result per input run, in order: the same run id, its known-stop filter, and the unchanged junction list |
| Segments.ToDurationsSpec | runalyzer/src/segments.rs:41-52 | the conversion to durations fails iff some step goes back in time; otherwise it has one step per entry, the first at zero and each later one the difference to its predecessor |
| Segments.DurationsShape | runalyzer/src/segments.rs:41-52 | durations start at zero, keep the junctions, and sum to last time minus first time |
| Segments.OrderedDurationsExist | runalyzer/src/segments.rs:45 | a time-ordered piece never fails the `unwrap` |
| Segments.LastWithSpec | runalyzer/src/segments.rs:53 | the index found is the last piece with the wanted key, or -1 when there is none |
| Segments.FoldEntries | runalyzer/src/segments.rs:53 | after the inserts a key is present iff some piece has it, and it holds the durations of the last such piece |
| Segments.SegmentRunByKnownStops | runalyzer/src/segments.rs:25-60 | the scan with `last_known`, `next` and `by_known` equals the windowed segmentation of the run |
| Segments.SegmentationFails | runalyzer/src/segments.rs:41-53 | the segmentation fails iff some window between consecutive known stops goes back in time |
| Segments.SegmentationKeys | runalyzer/src/segments.rs:38-56 | the keys are exactly the pairs of consecutive known stops of the run |
| Segments.WindowInterior | runalyzer/src/segments.rs:32-40 | between its ends a window holds only unknown junctions; the first window has no opening stop |
| Segments.SegmentationValues | runalyzer/src/segments.rs:34-56 | each stored segment is that of the last occurrence of its pair: the conversion of that window succeeds and gives it. It is non-empty and starts at duration zero; after the first segment it starts with the opening stop. It ends at the closing stop, holds only unknown junctions in between, and sums to its time span |
| Segments.FewStopsNoSegments | runalyzer/src/segments.rs:38-57 | a run with fewer than two known stops gives the empty map |
| Segments.OrderedSegmentationExists | runalyzer/src/segments.rs:25-60 | a time-ordered run never fails |
| OsmLines.RecordWaypoint | runalyzer/src/osm_lines.rs:41-50 | `Some` iff the record is a node with both coordinates, and the waypoint carries its id and coordinates |
| OsmLines.RecordLineStop | runalyzer/src/osm_lines.rs:52-61 | `Some` iff the record has a `name` tag and both coordinates, whatever its type |
| OsmLines.RepresentativeNone | runalyzer/src/osm_lines.rs:233-242 | a key keeps a record iff it occurs |
| OsmLines.RepresentativeTagged | runalyzer/src/osm_lines.rs:233-242 | the kept record is the first occurrence that has tags |
| OsmLines.RepresentativeFirst | runalyzer/src/osm_lines.rs:233-242 | without any tagged occurrence the kept record is the first occurrence |
| OsmLines.Deduplicate | runalyzer/src/osm_lines.rs:233-242 | the in-place map update holds one entry per occurring `(type, id)`, equal to its representative |
| OsmLines.Reverse | runalyzer/src/osm_lines.rs:135 | the reversal has the same length, with the i-th element from the back |
| OsmLines.ReverseMultiset | runalyzer/src/osm_lines.rs:135 | reversing keeps every waypoint |
| OsmLines.DiscontiguitiesSpec | runalyzer/src/osm_lines.rs:97-114 | the count is positive iff some neighbour pair is non-empty and connects in neither direction |
| OsmLines.SpliceMultiset | runalyzer/src/osm_lines.rs:126-143 | a splice has the combined length and keeps every waypoint of both, the shared endpoint twice |
| OsmLines.PushReversed | runalyzer/src/osm_lines.rs:138-143 | the push loop appends the fragment reversed |
| OsmLines.Join | runalyzer/src/osm_lines.rs:126-143 | the closure's four branches build the splice for the chosen pairing |
| OsmLines.FirstMatch | runalyzer/src/osm_lines.rs:126-146 | `None` iff the fragment shares no endpoint id with the chain; otherwise the first pairing, in the branch order, whose ids agree |
| OsmLines.MinBySpec | runalyzer/src/osm_lines.rs:169-184 | the choice has minimal distance and every earlier candidate is strictly farther (the first minimum) |
| OsmLines.ChoosePairingSpec | runalyzer/src/osm_lines.rs:169-184 | the chosen pairing is nearest, and ties go to the lowest pairing index |
| OsmLines.SpliceGlued | runalyzer/src/osm_lines.rs:126-143 | splicing a fragment onto a glued chain is gluing one more use of that fragment |
| OsmLines.SpliceMeets | runalyzer/src/osm_lines.rs:126-143 | a splice at equal ids keeps every joint of the chain at equal ids |
| OsmLines.RetainJoinable | runalyzer/src/osm_lines.rs:123-147 | one `retain` pass. It splices every matching fragment onto the chain, keeps the others, and loses no fragment or waypoint. It joins at equal ids. `done` iff no fragment shared an end with the chain at the start of the pass |
| OsmLines.GrowChain | runalyzer/src/osm_lines.rs:121-148 | the passes repeat until one changes nothing; afterwards no remaining fragment touches the chain |
| OsmLines.GlueFold | runalyzer/src/osm_lines.rs:161-210 | splicing each fragment in turn at its nearest pairing keeps the length of the chain plus all fragments |
| OsmLines.Glue | runalyzer/src/osm_lines.rs:154-215 | gluing leaves at most one chain, none iff there were no ways, and a single way as it is |
| OsmLines.AbsorbAll | runalyzer/src/osm_lines.rs:161-210 | one gluing pass absorbs every remaining fragment, each spliced at the nearest of the four pairings with ties to the lowest index (the chain becomes `GlueFold` of the fragments), and loses no fragment or waypoint |
| OsmLines.GlueChain | runalyzer/src/osm_lines.rs:157-211 | the `while !done` loop of `glue_ways` ends with no fragment left and the chain equal to `GlueFold` of the first way and the others; every fragment is used once |
| OsmLines.SeparatedChainsDiscontiguous | runalyzer/src/osm_lines.rs:97-114 | chains that pairwise do not touch report a discontiguity as soon as there are two |
| OsmLines.ChainsContiguous | runalyzer/src/osm_lines.rs:315-320 | separated chains with no discontiguity are at most one |
| OsmLines.LineInfo.constructor | runalyzer/src/osm_lines.rs:309-314 | the new line info holds the given line, name and ways |
| OsmLines.LineInfo.DetectDiscontiguity | runalyzer/src/osm_lines.rs:97-114 | true iff some neighbour pair is non-empty and connects in neither direction; false for fewer than two ways |
| OsmLines.LineInfo.ReorderWays | runalyzer/src/osm_lines.rs:116-152 | each new chain glues input fragments, some reversed, at equal ids; every fragment is used once and every waypoint kept. There are no more chains than before, none from none, and no two chains touch. Ways with no shared ends are left unchanged, so a second run changes nothing |
| OsmLines.LineInfo.GlueWays | runalyzer/src/osm_lines.rs:154-215 | the ways become `Glue` of the old ways: the first way with every other spliced on in order at its nearest pairing. That is exactly one chain from non-empty ways, gluing every fragment once and keeping every waypoint; zero or one way is left unchanged |
| OsmLines.AssemblyCompose | runalyzer/src/osm_lines.rs:315-320 | gluing chains that were themselves assembled from the fragments is one assembly of the fragments: each fragment used once, some reversed |
| OsmLines.LineInfo.Arrange | runalyzer/src/osm_lines.rs:315-320 | reorder, then glue only when the reordered chains are discontiguous: the final ways are `Glue` of the reordered chains when gluing and those chains otherwise. The reordered chains do not touch, and equal the input when its ways share no ends. The result is an assembly of the input fragments, with at most one chain left, none from none, every waypoint kept; gluing only happens for two ways or more |

## Left out

- File, JSON and CSV I/O are not modelled. This covers the serde plumbing and the file opening and printing (`println!`, `eprintln!`, `dbg!`) in `osm_lines::read`. It also covers `known_stops::load`, both `read_telegrams`, `InterRegional::write`, and the KML converter script.
- `InterRegional::from` is not modelled, because it is file I/O. As written it returns `None` whenever the read succeeds, and panics on `unwrap` when it fails.
- `osm_lines::read` is modelled only for its de-duplication loop and the per-line reorder/detect/glue pipeline. Left out: the relation filtering by tags, the `ref` parsing, the stop and way resolution, and their `expect` panics.
- The levenshtein stop matching (`strsim`) and the `get_stop` closure in runalyzer's `main` are not modelled. The closure does not compile as written.
- The geodesic distance is the uninterpreted parameter `dist` with real values. NaN and `f64` rounding in the `min_by` comparison are not modelled.
- The orientation of chains by distance to the from/to stops, and its `distance` helper, are left out. They are floating-point geodesy.
- `to_rational` is not modelled, because it is `f64` division (a zero total gives NaN). The `Segment` record and the empty `segmentize` are laid out but do nothing.
- The empty per-line loop at the end of runalyzer's `main`, and the map over all runs, are not modelled. `Runalyzer.MinimalDurations` models the fold over one run.
- The in-place `sort` of each run is not modelled; the sortedness it yields is the `TimeOrdered` hypothesis of `Runalyzer.SortedNeverPanics`.
- Runalyzer.MinimalDurations: durations are whole seconds, so the sub-second part a `Duration` keeps beside `as_secs` is not modelled.
- The `u16`/`u32`/`u64` widths of ids and timestamps, and overflow of the `u32` occurrence counter, are not modelled: all are unbounded naturals.
- The non-compiling `.time` and `.direction_request` fields of graph_generator's `main` are modelled as the telegram's timestamp and direction. The chrono calls are not reproduced.
- The writing of the graph to a file is not modelled.
- GraphGenerator.ChooseJunction: the hash order that breaks ties is a nondeterministic choice, so the contract promises some most frequent junction, not a particular one.
- OsmLines.LineInfo.ReorderWays: requires `Fragmentable`. With two or more ways an empty fragment makes the source's closure index out of bounds, and that panic is not modelled as a state of the object.
- OsmLines.LineInfo.GlueWays: requires `Fragmentable`, for the same reason as `ReorderWays`.
- OsmLines.LineInfo.Arrange: requires `Fragmentable`. The second `detect_discontiguity` after gluing only prints, so its result is not used.
- Waypoint coordinates are carried but never inspected. Waypoint equality is by id, as in the source.
- The `Hash` implementations and the serde visitor plumbing are not modelled.
