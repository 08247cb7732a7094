# measureAlignment — a verified model of the station pipeline

`measureAlignment.py` works on a Civil 3D alignment. It picks the stations
(longitudinal positions) where survey points are wanted, then draws one 3D
polyline per lateral offset through the points at those stations. This project
models the script's core in Dafny:

- **Station range** (lines 28-32): a configured starting or ending station
  overrides the alignment's own. The station list starts as `[start, end]`.
- **Alignment geometry** (lines 35-67):
  - every recognised entity, including the six composite groups, is flattened
    into its tangent, arc and spiral parts;
  - each part is stored in a dictionary under its starting station, so a later
    part overwrites an earlier one;
  - the dictionary is ordered by station;
  - every part must end exactly where the next one starts (the `assert` of
    line 67).
- **Station collector** (lines 70-72, 87-97): geometry starting stations, then
  the chosen profile's PVI stations, then the mandatory stations are appended.
  A station is appended when it lies in `[start, end]` and is not already
  present, by exact equality. The list is then sorted.
- **Profile selection** (lines 75-84): a single profile is used directly.
  Otherwise the user is asked for a profile name until an answer names one;
  when two profiles share a name, the later one wins.
- **Gap filler** (lines 101-108): the script walks the list by index. Wherever
  the next station is more than `STEP + TOLERANCE` ahead, it appends
  `current + STEP`, re-sorts, and examines the new gap. The inserted stations
  form a chain anchored at the left of each gap.
- **Proximity audit** (lines 111-115): every neighbouring pair at most
  `TOO_CLOSE` apart is reported, and nothing is removed.
- **Point assembly** (lines 118-128): one polyline per offset, with one vertex
  per station. `z` is the profile's elevation, or `0.0` where the lookup fails.

Each stage is a module:

- `StationLists`: ordering and spacing;
- `AlignmentGeometry`;
- `StationCollector`;
- `ProfileSelection`;
- `GapFiller`;
- `ProximityAudit`;
- `PointMaterializer`;
- `MeasureAlignment`: the script end to end, as the method `Run`;
- `Wrappers`: `Option` and `Result`.

Stations and offsets are `real`. The script's list `pointStations` is a local
variable, so it is modelled as a `seq<real>` that the methods reassign. Each
loop of the script is a method with a loop, proved against a specification
function, and the properties of that function are proved as lemmas.

Some choices a reader might expect are absent from the code, and the model
follows the code:

- station comparisons are exact, with no epsilon: the range test and the
  `not in pointStations` test at lines 71, 90 and 94 use plain `<=`, `>=` and
  `in`, and `ZERO` from input.py is imported at line 5 but never used;
- the continuity check at line 67 is exact equality;
- lines 28-32 never check the range, so `start == end` and `start > end` run
  like any other range;
- a geometry station close to an existing station is appended (line 72). Only
  the proximity audit reports it, and nothing is dropped;
- the loop at lines 102-108 leaves no gap wider than `STEP + TOLERANCE`, the
  last gap included, and the model proves that.

## Model

| member | source | states |
|---|---|---|
| StationLists.Abs | measureAlignment.py:112 | `abs` is non-negative and equals `x` or `-x` |
| StationLists.Sort | measureAlignment.py:97 | `list.sort()` yields an ascending permutation of the list |
| StationLists.SortStations | measureAlignment.py:97 | the sort as a statement: ascending and the same multiset of stations |
| StationLists.SortedPermutationUnique | measureAlignment.py:97 | two ascending lists with the same multiset are equal, so the sorted list is determined by its stations alone |
| StationLists.SortOfSorted | measureAlignment.py:97 | sorting an ascending list leaves it unchanged |
| AlignmentGeometry.RecordLastWriterWins | measureAlignment.py:36-59 | after a run of `entities[p.StartingStation] = p`, a key is present iff it was present or some part starts there; its value is the last part that starts there, or the old value if none does |
| AlignmentGeometry.RecordFew | measureAlignment.py:38-59 | storing the one, two or three parts of an entity in the order the branches assign them is recording its parts |
| AlignmentGeometry.EntityMapContents | measureAlignment.py:36-59 | the dictionary's keys are exactly the starting stations of the parts of recognised entities; each value is a part stored under its own starting station, and the last part with a given starting station wins |
| AlignmentGeometry.CollectEntities | measureAlignment.py:36-59 | the loop over entities, with one branch per entity type, builds exactly that dictionary |
| AlignmentGeometry.OrderEntities | measureAlignment.py:62-70 | the ordered dictionary's keys are strictly ascending and are exactly the dictionary's keys; `values()[i]` is the entity under `keys()[i]` |
| AlignmentGeometry.CheckContinuity | measureAlignment.py:65-67 | the assertion loop passes iff every part ends exactly where the next starts; on failure it gives the first broken position, and every pair before it is continuous |
| AlignmentGeometry.OrderedConsecutive | measureAlignment.py:62-67 | neighbours in the ordered keys are exactly the pairs of consecutive dictionary keys |
| AlignmentGeometry.OrderedContinuity | measureAlignment.py:62-67 | the check over the ordered values passes iff each entity ends where the entity with the next starting station begins |
| StationCollector.CollectedProperties | measureAlignment.py:70-72 | appending from a source keeps the old list as a prefix; each new station is in range, new to the list and taken from the source; every in-range source station ends up in the list |
| StationCollector.AppendStations | measureAlignment.py:70-72 | the appending loop computes the collected list, with the same prefix, range, freshness and coverage guarantees |
| StationCollector.CollectedKeepsSeeded | measureAlignment.py:32 | a list seeded with `[start, end]` whose other stations are in range and pairwise distinct keeps that shape after more appending |
| StationCollector.SeededDuplicates | measureAlignment.py:32 | in such a list the only repeated station can be the seed pair, when `start == end` |
| StationCollector.SeededBounds | measureAlignment.py:32 | when `start <= end`, every station of such a list lies in `[start, end]` |
| ProfileSelection.ByNameKeys | measureAlignment.py:78 | a name is in the name-to-profile dictionary iff some profile carries it |
| ProfileSelection.ByNameLastWins | measureAlignment.py:78 | the dictionary maps each name to the last profile with that name |
| ProfileSelection.SelectProfile | measureAlignment.py:75-84 | a single profile is taken without asking. Otherwise a profile is chosen iff some answer names one; it is the profile named by the first such answer, no earlier answer names a profile, and the choice is one of the alignment's profiles. No profiles means no choice |
| GapFiller.StepsToCoverMonotone | measureAlignment.py:102-108 | the number of strides to cover a distance grows with the distance (the loop's termination measure) |
| GapFiller.FillGapChain | measureAlignment.py:105-106 | the stations inserted into a gap start at `prev + STEP`, are `STEP` apart, and each lies more than `TOLERANCE` before the next input station |
| GapFiller.FillGapLastGap | measureAlignment.py:105 | the remainder after the inserted chain is at most `STEP + TOLERANCE` |
| GapFiller.GapChain | measureAlignment.py:105-106 | a filled gap with its two ends has no step wider than `STEP + TOLERANCE`, and is ascending when the gap is |
| GapFiller.FilledProperties | measureAlignment.py:101-108 | for an ascending list, the filled list is ascending; it keeps the first, the last and every input station; no gap exceeds `STEP + TOLERANCE` |
| GapFiller.FilledFromIdentity | measureAlignment.py:105 | a list whose gaps are all within `STEP + TOLERANCE` is left as it is |
| GapFiller.InputOrStrideJoin | measureAlignment.py:105-107 | gluing two lists whose stations are inputs or strides keeps that property |
| GapFiller.ChainOrigin | measureAlignment.py:105-106 | a gap's left end followed by its inserted chain holds only that end and strides of `STEP` |
| GapFiller.FilledFromOrigin | measureAlignment.py:102-108 | the filled list from a station holds only input stations and stations `STEP` after their left neighbour |
| GapFiller.FilledOrigin | measureAlignment.py:101-108 | the filler invents no station except `prev + STEP` after its left neighbour |
| GapFiller.FilledIdempotent | measureAlignment.py:101-108 | filling a filled list changes nothing |
| GapFiller.FilledFromInsert | measureAlignment.py:105-107 | a gap too wide is filled by `prev + STEP` followed by the filled list from that station |
| GapFiller.FilledFromAdvance | measureAlignment.py:105-108 | a gap within bounds is kept, and filling moves on to the next station |
| GapFiller.AppendAndSort | measureAlignment.py:106-107 | `append` then `sort` gives an ascending permutation of the list plus the new station |
| GapFiller.InsertStep | measureAlignment.py:105-107 | after an insertion and re-sort, the new station is next, the last station is unchanged, the remaining work is the same, and the stride count to the end drops |
| GapFiller.AdvanceStep | measureAlignment.py:105-108 | moving on without inserting keeps the remaining work, and the stride count does not grow |
| GapFiller.FillStep | measureAlignment.py:102-108 | one pass of the loop body keeps the list ascending with the same last station, keeps the remaining work, and decreases the loop measure |
| GapFiller.FillGaps | measureAlignment.py:101-108 | the loop terminates and returns the filled list of its input: ascending, first and last kept, every input station kept, no gap wider than `STEP + TOLERANCE` |
| ProximityAudit.PairCount | measureAlignment.py:111 | `range(len(stations) - 1)` visits one pair fewer than there are stations, and none for an empty list |
| ProximityAudit.WarningsBeforeSound | measureAlignment.py:111-114 | each warning for the first `n` pairs names a pair at most `TOO_CLOSE` apart, with its two stations, in station order |
| ProximityAudit.WarningsBeforeComplete | measureAlignment.py:111-114 | no pair among the first `n` that is at most `TOO_CLOSE` apart goes unreported |
| ProximityAudit.WarningsExact | measureAlignment.py:111-115 | the audit's warnings are exactly the close neighbouring pairs, in order |
| ProximityAudit.NoWarningsWhenSpread | measureAlignment.py:111-112 | pairs all more than `TOO_CLOSE` apart raise no warning |
| ProximityAudit.Audit | measureAlignment.py:111-115 | the loop returns the warnings of the audit, which are sound, ordered and complete; the list is only read |
| PointMaterializer.ElevationIgnoresOffset | measureAlignment.py:118-127 | polylines at two offsets over the same stations have equal heights vertex by vertex |
| PointMaterializer.VertexHeight | measureAlignment.py:123-127 | vertex `j` lies at the plan position of station `j` at the offset, at height `0.0` when the lookup fails and at the profile's elevation otherwise |
| PointMaterializer.BuildPolyline | measureAlignment.py:121-128 | one vertex per station, in list order, each the located point with its elevation |
| PointMaterializer.Materialize | measureAlignment.py:118-130 | one polyline per offset, in order, each over every station |
| MeasureAlignment.DefaultConfig | input.py:2-11 | the shipped parameters give a positive step, a non-negative tolerance and `TOO_CLOSE < STEP`, and leave the range to the alignment |
| MeasureAlignment.DefaultFillsEveryTenMetres | input.py:10-11 | with `STEP = 10` and `TOLERANCE = 1.5`, the range 0-100 with no breakpoints is filled to the eleven stations 0, 10, …, 100 |
| MeasureAlignment.SeededSortedEnds | measureAlignment.py:32-97 | when `start <= end`, sorting the collected list puts `start` first and `end` last |
| MeasureAlignment.SortSeeded | measureAlignment.py:97 | sorting the collected list keeps every station, including both ends of the range |
| MeasureAlignment.FilledWellSpaced | measureAlignment.py:97-108 | filling the sorted list gives a well-spaced list. It is ascending, with no gap wider than `STEP + TOLERANCE`, and filling it again changes nothing. It holds both ends, and when `start <= end` it runs from `start` to `end` within the range. Every sorted station is kept |
| MeasureAlignment.CollectInto | measureAlignment.py:70-95 | one collecting loop returns exactly the collected list. The list stays seeded and keeps every station it held; it gains every in-range source station and nothing that is not one |
| MeasureAlignment.OriginThroughSort | measureAlignment.py:97 | sorting the gathered list does not change which stations count as inputs |
| MeasureAlignment.SortAndFill | measureAlignment.py:97-108 | sort then fill gives exactly the filled sorted list. That list is well spaced and holds every gathered station; every other station is a stride of `STEP` after the station before it |
| MeasureAlignment.GeometryStations | measureAlignment.py:35-72 | the geometry stage fails exactly when geometry stations are on and the entities do not chain up. Otherwise the seeded list gains every in-range starting station of the entity dictionary and nothing else |
| MeasureAlignment.ProfileAndMandatoryStations | measureAlignment.py:87-95 | collecting the PVI stations (when on) and the mandatory stations keeps the list seeded and every station it held. The list covers both sources within the range and holds only sourced stations |
| MeasureAlignment.SourcedOrStride | measureAlignment.py:97-108 | a list whose stations are gathered inputs or strides holds only sourced stations and strides |
| MeasureAlignment.SeededCount | measureAlignment.py:32-95 | a collected list holds each end of the range once for each end it equals, and any other station once |
| MeasureAlignment.SeededSameMultiset | measureAlignment.py:32-95 | two collected lists with the same stations hold each station equally often, whatever the order of collection |
| MeasureAlignment.GatheredDetermined | measureAlignment.py:32-108 | two lists gathered from exactly the same sourced stations sort and fill into the same station list |
| MeasureAlignment.GatheredExactly | measureAlignment.py:32-95 | the list built by the geometry stage and the PVI and mandatory stages is gathered from exactly the sourced stations: both ends of the range and every in-range source station, and nothing else |
| MeasureAlignment.Assemble | measureAlignment.py:97-130 | over the gathered list: exactly the filled sorted gathered list, which is well spaced, holds every gathered station and nothing but sourced stations and strides; the warnings of its audit; and one polyline per offset on the given profile |
| MeasureAlignment.Run | measureAlignment.py:27-130 | see the list below |

`MeasureAlignment.Run` models the whole script. When it succeeds:

- the stations are exactly the sorted and filled list of some seeded list that
  holds the two ends of the range and exactly the in-range source stations. By
  `GatheredDetermined`, every such list gives the same stations, so this fixes
  the output;
- the stations are well spaced;
- when geometry stations are on, the entities chain up;
- every in-range geometry station (when on), PVI station (when on) and mandatory
  station is among the stations;
- every station is an end of the range, one of those in-range source stations,
  or `STEP` after the station before it;
- with exactly one profile, that profile is used. Otherwise the profile is the
  one named by the first answer that names a profile;
- the warnings are the audit of the final list;
- there is one polyline per offset.

It fails with `ContinuityBroken` exactly when geometry is on and the entities
do not chain up. It fails with `NoProfileChosen` only when there is not exactly
one profile and no answer names one.

## Left out

- COM setup, `GetEntity` and the alignment pick (lines 17-25) are left out. The
  alignment arrives as a value.
- `PointLocation` and `ElevationAt` are Civil 3D calls. They are the function
  parameters `pointLocation` and `elevationAt`. A `COMError` from `ElevationAt`
  is caught at lines 124-127 and is `None` in the model.
- `pointLocation` is a total function. A `COMError` that `PointLocation` raises
  at line 123 is not caught: it ends the script after the commands for the
  earlier offsets have already been sent. The model does not capture this
  abort.
- Floating point is not modelled. Stations are exact reals, so the comments
  about float comparison and any rounding in `prev + STEP` are outside the
  model.
- The printed banners and the formatting of the `3dpoly` command string
  (lines 113-115, 119-122, 128-130) are not modelled. Warnings and vertices are
  returned as values, and `SendCommand` is not modelled.
- The prompt of lines 79-84 loops forever until a valid name is typed. The
  model takes a finite list of answers and reports `NoProfileChosen` when they
  run out. This includes an alignment with no profiles, where the script can
  never finish.
- `assert` is skipped under `python -O`. The model always performs the
  continuity check, as a normal run does.
- GapFiller.FillGaps requires `STEP > 0` and `TOLERANCE >= 0`, which input.py
  meets but the script never checks. With `STEP <= 0` the script's loop need
  not terminate. The requirement also excludes runs that do terminate: with
  `-STEP < TOLERANCE < 0` the script inserts stations past the next station,
  even past `end`. For example, `[0, 6]` with `STEP = 10` and
  `TOLERANCE = -5` becomes `[0, 6, 10]`. The model says nothing about such
  runs.
- MeasureAlignment.Run carries the same requirement on the configuration.
- Entities of types the script does not recognise are one `Unrecognised`
  value, since the script ignores them.
