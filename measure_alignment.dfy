/** The script as a whole (measureAlignment.py lines 27-130): it gathers the
    stations where points are wanted along a Civil 3D alignment, fills the
    gaps between them, warns about stations that are too close, and draws
    one 3D polyline per offset through the points at those stations. */
module MeasureAlignment {
  import opened Wrappers
  import opened StationLists
  import opened AlignmentGeometry
  import opened StationCollector
  import opened GapFiller
  import opened ProximityAudit
  import opened PointMaterializer
  import opened ProfileSelection

  /** The parameters of input.py. `ZERO` is imported by the script but never
      used, so it has no field here. */
  datatype Config = Config(
    tooClose: real,
    mandatoryStations: seq<real>,
    atGeomStations: bool,
    atPviStations: bool,
    startingStation: Option<real>,
    endingStation: Option<real>,
    offsets: seq<real>,
    step: real,
    tolerance: real)

  /** The alignment the user picks: its own station range, its entities in
      drawing order, its profiles, and its plan position at a station and
      offset (`PointLocation`). */
  datatype Alignment = Alignment(
    startingStation: real,
    endingStation: real,
    entities: seq<Entity>,
    profiles: seq<Profile>,
    pointLocation: (real, real) -> (real, real))

  /** Why a run stops early: the `assert` of line 67 failed at the given
      position, or the profile prompt was never answered with a profile name. */
  datatype Failure = ContinuityBroken(index: nat) | NoProfileChosen

  /** What a run produces: the final station list, the warnings of the
      proximity audit, one polyline per offset, and the profile used. */
  datatype Outcome = Outcome(
    stations: seq<real>,
    warnings: seq<Warning>,
    polylines: seq<seq<Point3D>>,
    profile: Profile)

  /** The parameters as input.py sets them: no mandatory stations, both
      breakpoint sources on, the alignment's own range, one polyline 10 m to the
      side, a 10 m step with 1.5 m of slack, and warnings below 0.1 m. */
  function DefaultConfig(): (c: Config)
    ensures c.step > 0.0 && c.tolerance >= 0.0
    ensures c.tooClose < c.step
    ensures c.startingStation.None? && c.endingStation.None?
  {
    Config(0.1, [], true, true, None, None, [10.0], 10.0, 1.5)
  }

  /** With the parameters of input.py, a 100 m range and no breakpoints is
      filled every 10 m: eleven stations. */
  lemma DefaultFillsEveryTenMetres()
    ensures Filled([0.0, 100.0], DefaultConfig().step, DefaultConfig().tolerance)
      == [0.0, 10.0, 20.0, 30.0, 40.0, 50.0, 60.0, 70.0, 80.0, 90.0, 100.0]
  {
  }

  /** The station range of lines 28-31: a configured bound wins over the
      alignment's own. */
  function StartOf(cfg: Config, al: Alignment): real {
    cfg.startingStation.GetOr(al.startingStation)
  }

  function EndOf(cfg: Config, al: Alignment): real {
    cfg.endingStation.GetOr(al.endingStation)
  }

  /** A station that an earlier list holds survives into a later one whose
      multiset contains the earlier's. */
  lemma Survives(x: real, a: seq<real>, b: seq<real>)
    requires x in a && multiset(a) <= multiset(b)
    ensures x in b
  {
    assert x in multiset(a);
  }

  /** An ascending list, seeded with `start` and `end`, whose other stations lie
      between them, begins with `start` and ends with `end`. */
  lemma SeededSortedEnds(s: seq<real>, seeded: seq<real>, start: real, end: real)
    requires SeededList(seeded, start, end) && start <= end
    requires Sorted(s) && multiset(s) == multiset(seeded)
    ensures s != [] && s[0] == start && s[|s| - 1] == end
  {
    SeededBounds(seeded, start, end);
    assert seeded[0] in multiset(s) && seeded[1] in multiset(s);
    forall x | x in s ensures start <= x <= end {
      assert x in multiset(seeded);
    }
    SortedBounds(s, start);
    SortedBounds(s, end);
    assert s[0] in s && s[|s| - 1] in s;
  }

  /** Sorting a seeded list keeps every station, and when the range is not
      reversed the sorted list runs from `start` to `end`. */
  lemma SortSeeded(all: seq<real>, s: seq<real>, start: real, end: real)
    requires SeededList(all, start, end)
    requires Sorted(s) && multiset(s) == multiset(all)
    ensures forall x :: x in all ==> x in s
    ensures start in s && end in s
    ensures start <= end ==> s[0] == start && s[|s| - 1] == end
  {
    forall x | x in all ensures x in s {
      Survives(x, all, s);
    }
    assert all[0] == start && all[1] == end;
    if start <= end {
      SeededSortedEnds(s, all, start, end);
    }
  }

  /** What a completed run promises about its stations: ascending, with no
      gap wider than `STEP + TOLERANCE`, already a fixed point of the gap
      filler, holding both ends of the range, and, when the range is not
      reversed, running from its start to its end. */
  predicate WellSpaced(stations: seq<real>, start: real, end: real, step: real, tolerance: real)
    requires step > 0.0 && tolerance >= 0.0
  {
    && Sorted(stations)
    && GapsWithin(stations, step + tolerance)
    && Filled(stations, step, tolerance) == stations
    && start in stations && end in stations
    && (start <= end ==>
          && stations != [] && stations[0] == start && stations[|stations| - 1] == end
          && (forall i :: 0 <= i < |stations| ==> start <= stations[i] <= end))
  }

  /** The gap filler turns an ascending list holding both ends of the range,
      and running from start to end when the range is not reversed, into a
      well-spaced list that keeps every station. */
  lemma FilledWellSpaced(sorted: seq<real>, start: real, end: real, step: real, tolerance: real)
    requires step > 0.0 && tolerance >= 0.0
    requires Sorted(sorted) && start in sorted && end in sorted
    requires start <= end ==> sorted[0] == start && sorted[|sorted| - 1] == end
    ensures WellSpaced(Filled(sorted, step, tolerance), start, end, step, tolerance)
    ensures forall x :: x in sorted ==> x in Filled(sorted, step, tolerance)
  {
    var f := Filled(sorted, step, tolerance);
    FilledProperties(sorted, step, tolerance);
    FilledIdempotent(sorted, step, tolerance);
    forall x | x in sorted ensures x in f {
      Survives(x, sorted, f);
    }
    if start <= end {
      forall i | 0 <= i < |f| ensures start <= f[i] <= end {
        assert f[0] <= f[i] <= f[|f| - 1];
      }
    }
  }

  /** Where stations come from is unchanged by sorting their source list. */
  lemma OriginThroughSort(stations: seq<real>, sorted: seq<real>, all: seq<real>, step: real)
    requires InputOrStride(stations, sorted, step)
    requires multiset(sorted) == multiset(all)
    ensures InputOrStride(stations, all, step)
  {
    forall j | 0 <= j < |stations| && stations[j] in sorted ensures stations[j] in all {
      Survives(stations[j], sorted, all);
    }
  }

  /** Lines 97-108 on the gathered list: sort, then fill the gaps. The result
      is the filled sorted list: well spaced, holding every gathered station,
      and holding nothing else but strides of `step` after a station. */
  method SortAndFill(all: seq<real>, start: real, end: real, step: real, tolerance: real)
    returns (stations: seq<real>)
    requires step > 0.0 && tolerance >= 0.0
    requires SeededList(all, start, end)
    ensures stations == Filled(Sort(all), step, tolerance)
    ensures WellSpaced(stations, start, end, step, tolerance)
    ensures forall x :: x in all ==> x in stations
    ensures InputOrStride(stations, all, step)
  {
    var sorted := SortStations(all);
    SortSeeded(all, sorted, start, end);
    stations := FillGaps(sorted, step, tolerance);
    FilledWellSpaced(sorted, start, end, step, tolerance);
    FilledOrigin(sorted, step, tolerance);
    OriginThroughSort(stations, sorted, all, step);
    SortedPermutationUnique(sorted, Sort(all));
  }

  /** One of the collection loops of lines 70-72, 88-91 and 93-95 on a seeded
      list: the list stays seeded, keeps what it held, gains every source
      station inside the range, and gains nothing else. */
  method CollectInto(stations: seq<real>, sources: seq<real>, start: real, end: real) returns (r: seq<real>)
    requires SeededList(stations, start, end)
    ensures r == Collected(stations, sources, start, end)
    ensures SeededList(r, start, end)
    ensures forall x :: x in stations ==> x in r
    ensures forall x :: x in sources && start <= x <= end ==> x in r
    ensures forall x :: x in r ==> x in stations || (x in sources && start <= x <= end)
  {
    r := AppendStations(stations, sources, start, end);
    CollectedKeepsSeeded(stations, sources, start, end);
    forall x | x in stations ensures x in r {
      var j :| 0 <= j < |stations| && stations[j] == x;
      assert r[j] == x;
    }
    forall x | x in r ensures x in stations || (x in sources && start <= x <= end) {
      var j :| 0 <= j < |r| && r[j] == x;
      if j < |stations| {
        assert stations[j] == x;
      }
    }
  }

  /** A station one of the script's sources supplies: an end of the range, or,
      inside the range, a geometry starting station (when those are on), a PVI
      station of the chosen profile (when those are on) or a mandatory station. */
  predicate Sourced(x: real, cfg: Config, al: Alignment, profile: Profile, start: real, end: real) {
    || x == start
    || x == end
    || (&& start <= x <= end
        && (|| (cfg.atGeomStations && x in EntityMap(al.entities))
            || (cfg.atPviStations && x in profile.pviStations)
            || x in cfg.mandatoryStations))
  }

  /** The geometry stage of lines 35-72: `Some` position where the continuity
      `assert` fails exactly when geometry stations are on and the entities do
      not chain up; otherwise the seeded list gains every in-range starting
      station of the entity dictionary and nothing else. */
  method GeometryStations(cfg: Config, al: Alignment, start: real, end: real)
    returns (broken: Option<nat>, stations: seq<real>)
    ensures broken.Some? <==> cfg.atGeomStations && !ChainsUp(EntityMap(al.entities))
    ensures broken.None? ==>
      && SeededList(stations, start, end)
      && (cfg.atGeomStations ==> forall k :: k in EntityMap(al.entities) && start <= k <= end ==> k in stations)
      && (forall x :: x in stations ==>
            x == start || x == end || (start <= x <= end && cfg.atGeomStations && x in EntityMap(al.entities)))
  {
    stations := [start, end];
    broken := None;
    if cfg.atGeomStations {
      var entities := CollectEntities(al.entities);
      var keys, values := OrderEntities(entities);
      broken := CheckContinuity(values);
      OrderedContinuity(entities, keys, values);
      if broken.None? {
        stations := CollectInto(stations, keys, start, end);
      }
    }
  }

  /** Lines 87-95 once the profile is chosen: the PVI stations (when on) and the
      mandatory stations are collected; the list stays seeded, keeps what it
      held, covers both sources within the range, and holds only sourced
      stations. */
  method ProfileAndMandatoryStations(cfg: Config, al: Alignment, profile: Profile, start: real, end: real,
                                     stations: seq<real>) returns (gathered: seq<real>)
    requires SeededList(stations, start, end)
    requires forall x :: x in stations ==> Sourced(x, cfg, al, profile, start, end)
    ensures SeededList(gathered, start, end)
    ensures forall x :: x in stations ==> x in gathered
    ensures cfg.atPviStations ==> forall x :: x in profile.pviStations && start <= x <= end ==> x in gathered
    ensures forall x :: x in cfg.mandatoryStations && start <= x <= end ==> x in gathered
    ensures forall x :: x in gathered ==> Sourced(x, cfg, al, profile, start, end)
  {
    gathered := stations;
    if cfg.atPviStations {
      gathered := CollectInto(gathered, profile.pviStations, start, end);
    }
    gathered := CollectInto(gathered, cfg.mandatoryStations, start, end);
  }

  /** Every station is sourced, or a stride of `step` after the station
      before it: the only stations the gap filler adds. */
  predicate FromSources(stations: seq<real>, cfg: Config, al: Alignment, profile: Profile, start: real, end: real) {
    forall j :: 0 <= j < |stations| ==>
      Sourced(stations[j], cfg, al, profile, start, end) || (j > 0 && stations[j] == stations[j - 1] + cfg.step)
  }

  /** A filled list over sourced stations holds only sourced stations and
      strides of `step`. */
  lemma SourcedOrStride(stations: seq<real>, gathered: seq<real>, cfg: Config, al: Alignment,
                        profile: Profile, start: real, end: real)
    requires InputOrStride(stations, gathered, cfg.step)
    requires forall x :: x in gathered ==> Sourced(x, cfg, al, profile, start, end)
    ensures FromSources(stations, cfg, al, profile, start, end)
  {
  }

  /** A seeded list that holds exactly the sourced stations: what lines 32-95
      gather, whatever order the sources were visited in. */
  ghost predicate GatheredFrom(g: seq<real>, cfg: Config, al: Alignment, profile: Profile, start: real, end: real) {
    SeededList(g, start, end) && forall x :: x in g <==> Sourced(x, cfg, al, profile, start, end)
  }

  /** How often a seeded list holds `x`: once for each end of the range it
      equals, and once more if it is some other station of the list. */
  lemma {:induction false} SeededCount(g: seq<real>, start: real, end: real, x: real, n: nat)
    requires SeededList(g, start, end) && 2 <= n <= |g|
    ensures multiset(g[..n])[x] ==
      (if x == start then 1 else 0) + (if x == end then 1 else 0)
      + (if x in g[..n] && x != start && x != end then 1 else 0)
  {
    if n == 2 {
      assert g[..2] == [start, end];
    } else {
      SeededCount(g, start, end, x, n - 1);
      assert g[..n] == g[..n - 1] + [g[n - 1]];
      assert g[n - 1] !in g[..n - 1];
      assert g[0] in g[..n - 1] && g[1] in g[..n - 1];
    }
  }

  /** Seeded lists with the same stations hold each station equally often. */
  lemma SeededSameMultiset(g1: seq<real>, g2: seq<real>, start: real, end: real)
    requires SeededList(g1, start, end) && SeededList(g2, start, end)
    requires forall x :: x in g1 <==> x in g2
    ensures multiset(g1) == multiset(g2)
  {
    forall x ensures multiset(g1)[x] == multiset(g2)[x] {
      SeededCount(g1, start, end, x, |g1|);
      SeededCount(g2, start, end, x, |g2|);
      assert g1[..|g1|] == g1 && g2[..|g2|] == g2;
    }
  }

  /** The gathered stations decide the outcome: any two lists gathered from
      the same sources are sorted and filled into the same station list. */
  lemma GatheredDetermined(g1: seq<real>, g2: seq<real>, cfg: Config, al: Alignment, profile: Profile,
                           start: real, end: real)
    requires cfg.step > 0.0 && cfg.tolerance >= 0.0
    requires GatheredFrom(g1, cfg, al, profile, start, end) && GatheredFrom(g2, cfg, al, profile, start, end)
    ensures Filled(Sort(g1), cfg.step, cfg.tolerance) == Filled(Sort(g2), cfg.step, cfg.tolerance)
  {
    SeededSameMultiset(g1, g2, start, end);
    SortedPermutationUnique(Sort(g1), Sort(g2));
  }

  /** The list built from the geometry stage and the two later sources is
      gathered from exactly the sourced stations. */
  lemma GatheredExactly(pointStations: seq<real>, gathered: seq<real>, cfg: Config, al: Alignment,
                        profile: Profile, start: real, end: real)
    requires SeededList(gathered, start, end)
    requires cfg.atGeomStations ==> forall k :: k in EntityMap(al.entities) && start <= k <= end ==> k in pointStations
    requires forall x :: x in pointStations ==> x in gathered
    requires cfg.atPviStations ==> forall x :: x in profile.pviStations && start <= x <= end ==> x in gathered
    requires forall x :: x in cfg.mandatoryStations && start <= x <= end ==> x in gathered
    requires forall x :: x in gathered ==> Sourced(x, cfg, al, profile, start, end)
    ensures GatheredFrom(gathered, cfg, al, profile, start, end)
  {
    assert gathered[0] == start && gathered[1] == end;
  }

  /** Lines 97-130 on the gathered list: sort and fill it, audit it, and draw
      one polyline per offset through its points on the chosen profile. */
  method Assemble(cfg: Config, al: Alignment, profile: Profile, start: real, end: real,
                  gathered: seq<real>) returns (o: Outcome)
    requires cfg.step > 0.0 && cfg.tolerance >= 0.0
    requires SeededList(gathered, start, end)
    requires forall x :: x in gathered ==> Sourced(x, cfg, al, profile, start, end)
    ensures o.profile == profile
    ensures o.stations == Filled(Sort(gathered), cfg.step, cfg.tolerance)
    ensures WellSpaced(o.stations, start, end, cfg.step, cfg.tolerance)
    ensures forall x :: x in gathered ==> x in o.stations
    ensures FromSources(o.stations, cfg, al, profile, start, end)
    ensures o.warnings == Warnings(o.stations, cfg.tooClose)
    ensures |o.polylines| == |cfg.offsets|
    ensures forall k :: 0 <= k < |cfg.offsets| ==>
      IsPolyline(o.polylines[k], cfg.offsets[k], o.stations, al.pointLocation, profile.elevationAt)
  {
    var stations := SortAndFill(gathered, start, end, cfg.step, cfg.tolerance);
    SourcedOrStride(stations, gathered, cfg, al, profile, start, end);
    var warnings := Audit(stations, cfg.tooClose);
    var polylines := Materialize(cfg.offsets, stations, al.pointLocation, profile.elevationAt);
    o := Outcome(stations, warnings, polylines, profile);
  }

  /** The whole script (lines 27-130). `answers` are the user's replies to the
      profile prompt, in order. */
  method Run(cfg: Config, al: Alignment, answers: seq<string>) returns (r: Result<Outcome, Failure>)
    requires cfg.step > 0.0 && cfg.tolerance >= 0.0
    ensures r.Ok? ==>
      var o, start, end := r.value, StartOf(cfg, al), EndOf(cfg, al);
      && WellSpaced(o.stations, start, end, cfg.step, cfg.tolerance)
      && (cfg.atGeomStations ==> ChainsUp(EntityMap(al.entities)))
      && (cfg.atGeomStations ==> forall k :: k in EntityMap(al.entities) && start <= k <= end ==> k in o.stations)
      && (cfg.atPviStations ==> forall x :: x in o.profile.pviStations && start <= x <= end ==> x in o.stations)
      && (forall x :: x in cfg.mandatoryStations && start <= x <= end ==> x in o.stations)
      && FromSources(o.stations, cfg, al, o.profile, start, end)
      && (exists g :: GatheredFrom(g, cfg, al, o.profile, start, end)
                      && o.stations == Filled(Sort(g), cfg.step, cfg.tolerance))
      && (exists i :: 0 <= i < |al.profiles| && o.profile == al.profiles[i])
      && (|al.profiles| == 1 ==> o.profile == al.profiles[0])
      && (|al.profiles| != 1 ==>
            exists n :: (&& 0 <= n < |answers| && answers[n] in ByName(al.profiles)
                         && o.profile == ByName(al.profiles)[answers[n]]
                         && NoneKnownBefore(answers, ByName(al.profiles), n)))
      && o.warnings == Warnings(o.stations, cfg.tooClose)
      && |o.polylines| == |cfg.offsets|
      && (forall k :: 0 <= k < |cfg.offsets| ==>
            IsPolyline(o.polylines[k], cfg.offsets[k], o.stations, al.pointLocation, o.profile.elevationAt))
    ensures r.Err? && r.error.ContinuityBroken? ==>
      cfg.atGeomStations && !ChainsUp(EntityMap(al.entities))
    ensures r.Err? && r.error.NoProfileChosen? ==>
      && |al.profiles| != 1
      && (forall i :: 0 <= i < |answers| ==> answers[i] !in ByName(al.profiles))
      && (cfg.atGeomStations ==> ChainsUp(EntityMap(al.entities)))
  {
    var start, end := StartOf(cfg, al), EndOf(cfg, al);
    var broken, pointStations := GeometryStations(cfg, al, start, end);
    if broken.Some? {
      return Err(ContinuityBroken(broken.value));
    }

    var chosen, asked := SelectProfile(al.profiles, answers);
    if chosen.None? {
      return Err(NoProfileChosen);
    }
    var profile := chosen.value;

    var gathered := ProfileAndMandatoryStations(cfg, al, profile, start, end, pointStations);
    GatheredExactly(pointStations, gathered, cfg, al, profile, start, end);
    var outcome := Assemble(cfg, al, profile, start, end, gathered);
    return Ok(outcome);
  }
}
