/** The station collector (measureAlignment.py lines 28-32, 69-72, 86-97): the
    list starts as `[start, end]`, then geometry starting stations, profile PVI
    stations and mandatory stations are appended when they lie in `[start, end]`
    and are not yet in the list (exact equality), and the list is sorted. */
module StationCollector {
  import opened StationLists

  /** The test of lines 71, 90 and 94: inside `[start, end]` (inclusive) and not
      already in the list. */
  predicate Admissible(station: real, start: real, end: real, stations: seq<real>) {
    start <= station <= end && station !in stations
  }

  /** The list after visiting `sources` in order, appending each admissible station. */
  function Collected(stations: seq<real>, sources: seq<real>, start: real, end: real): seq<real>
  {
    if sources == [] then
      stations
    else
      var before := Collected(stations, sources[..|sources| - 1], start, end);
      var station := sources[|sources| - 1];
      if Admissible(station, start, end, before) then before + [station] else before
  }

  /** What collecting from one source promises: the old list is kept as a prefix;
      each appended station lies in `[start, end]`, comes from the source and
      differs from every element before it; and every station of the source that
      lies in `[start, end]` ends up in the list. */
  lemma {:induction false} CollectedProperties(stations: seq<real>, sources: seq<real>, start: real, end: real)
    ensures |stations| <= |Collected(stations, sources, start, end)|
    ensures Collected(stations, sources, start, end)[..|stations|] == stations
    ensures forall j :: |stations| <= j < |Collected(stations, sources, start, end)| ==>
              var r := Collected(stations, sources, start, end);
              start <= r[j] <= end && r[j] !in r[..j] && r[j] in sources
    ensures forall x :: x in sources && start <= x <= end ==> x in Collected(stations, sources, start, end)
  {
    if sources != [] {
      var init := sources[..|sources| - 1];
      var before := Collected(stations, init, start, end);
      CollectedProperties(stations, init, start, end);
      var r := Collected(stations, sources, start, end);
      assert sources == init + [sources[|sources| - 1]];
      forall j | |stations| <= j < |r| ensures start <= r[j] <= end && r[j] !in r[..j] && r[j] in sources {
        if j < |before| {
          assert r[j] == before[j] && r[..j] == before[..j];
        }
      }
      forall x | x in sources && start <= x <= end ensures x in r {
        if x in init {
          assert x in before;
        }
      }
    }
  }

  /** The appending loop of lines 70-72, 88-91 and 93-95 over one source. */
  method AppendStations(stations: seq<real>, sources: seq<real>, start: real, end: real) returns (r: seq<real>)
    ensures r == Collected(stations, sources, start, end)
    ensures |stations| <= |r| && r[..|stations|] == stations
    ensures forall j :: |stations| <= j < |r| ==> start <= r[j] <= end && r[j] !in r[..j] && r[j] in sources
    ensures forall x :: x in sources && start <= x <= end ==> x in r
  {
    r := stations;
    for k := 0 to |sources|
      invariant r == Collected(stations, sources[..k], start, end)
    {
      var station := sources[k];
      assert sources[..k + 1][..k] == sources[..k];
      if start <= station && station <= end && station !in r {
        r := r + [station];
      }
    }
    assert sources[..|sources|] == sources;
    CollectedProperties(stations, sources, start, end);
  }

  /** The shape of the list while it is being collected: it begins with the seed
      pair, and every later element lies in `[start, end]` and repeats nothing
      before it. */
  predicate SeededList(stations: seq<real>, start: real, end: real) {
    && |stations| >= 2
    && stations[0] == start
    && stations[1] == end
    && forall j :: 2 <= j < |stations| ==> start <= stations[j] <= end && stations[j] !in stations[..j]
  }

  /** Collecting from a further source keeps that shape. */
  lemma CollectedKeepsSeeded(stations: seq<real>, sources: seq<real>, start: real, end: real)
    requires SeededList(stations, start, end)
    ensures SeededList(Collected(stations, sources, start, end), start, end)
  {
    var r := Collected(stations, sources, start, end);
    CollectedProperties(stations, sources, start, end);
    assert r[0] == stations[0] && r[1] == stations[1];
    forall j | 2 <= j < |r| ensures start <= r[j] <= end && r[j] !in r[..j] {
      if j < |stations| {
        assert r[j] == stations[j] && r[..j] == stations[..j];
      }
    }
  }

  /** In a collected list the only repeated station can be the seed pair itself,
      when `start == end`. */
  lemma SeededDuplicates(stations: seq<real>, start: real, end: real)
    requires SeededList(stations, start, end)
    ensures forall i, j :: 0 <= i < j < |stations| && stations[i] == stations[j] ==> i == 0 && j == 1
  {
  }

  /** When `start <= end`, every station of a collected list lies in `[start, end]`. */
  lemma SeededBounds(stations: seq<real>, start: real, end: real)
    requires SeededList(stations, start, end)
    requires start <= end
    ensures forall x :: x in stations ==> start <= x <= end
  {
  }
}
