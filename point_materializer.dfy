/** Point assembly (measureAlignment.py lines 117-130): for every offset, one 3D
    polyline with a vertex at every station. The alignment's plan position at a
    station and offset, and the profile's elevation at a station, come from
    Civil 3D; here they are the parameters `locate` and `elevationAt`, where
    `elevationAt` answers `None` when the lookup raises `COMError`. */
module PointMaterializer {
  import opened Wrappers

  /** One vertex of a 3D polyline. */
  datatype Point3D = Point3D(x: real, y: real, z: real)

  /** The elevation used for a vertex: the profile's, or 0.0 when the lookup
      fails (lines 124-127). */
  function Elevation(lookup: Option<real>): real {
    match lookup
    case Some(e) => e
    case None => 0.0
  }

  /** The vertex at `station` on the polyline at `offset` (lines 123-127). */
  function Vertex(station: real, offset: real, locate: (real, real) -> (real, real),
                  elevationAt: real -> Option<real>): Point3D
  {
    var (x, y) := locate(station, offset);
    Point3D(x, y, Elevation(elevationAt(station)))
  }

  /** The polyline at one offset: one vertex per station, in the list's order. */
  predicate IsPolyline(line: seq<Point3D>, offset: real, stations: seq<real>,
                       locate: (real, real) -> (real, real), elevationAt: real -> Option<real>)
  {
    |line| == |stations|
    && forall j :: 0 <= j < |line| ==> line[j] == Vertex(stations[j], offset, locate, elevationAt)
  }

  /** Two polylines over the same stations have the same elevation at every
      vertex: the offset moves a vertex in plan only. */
  lemma ElevationIgnoresOffset(a: seq<Point3D>, b: seq<Point3D>, offsetA: real, offsetB: real,
                               stations: seq<real>, locate: (real, real) -> (real, real),
                               elevationAt: real -> Option<real>)
    requires IsPolyline(a, offsetA, stations, locate, elevationAt)
    requires IsPolyline(b, offsetB, stations, locate, elevationAt)
    ensures |a| == |b|
    ensures forall j :: 0 <= j < |a| ==> a[j].z == b[j].z
  {
    forall j | 0 <= j < |a| ensures a[j].z == b[j].z {
      assert a[j] == Vertex(stations[j], offsetA, locate, elevationAt);
      assert b[j] == Vertex(stations[j], offsetB, locate, elevationAt);
    }
  }

  /** A vertex lies at height 0.0 whenever the profile has no elevation for
      its station, and at the profile's elevation otherwise. */
  lemma VertexHeight(line: seq<Point3D>, offset: real, stations: seq<real>,
                     locate: (real, real) -> (real, real), elevationAt: real -> Option<real>, j: nat)
    requires IsPolyline(line, offset, stations, locate, elevationAt) && j < |line|
    ensures elevationAt(stations[j]).None? ==> line[j].z == 0.0
    ensures elevationAt(stations[j]).Some? ==> line[j].z == elevationAt(stations[j]).value
    ensures (line[j].x, line[j].y) == locate(stations[j], offset)
  {
    assert line[j] == Vertex(stations[j], offset, locate, elevationAt);
  }

  /** The inner loop of lines 121-128: the vertices of one polyline. */
  method BuildPolyline(offset: real, stations: seq<real>, locate: (real, real) -> (real, real),
                       elevationAt: real -> Option<real>) returns (line: seq<Point3D>)
    ensures IsPolyline(line, offset, stations, locate, elevationAt)
  {
    line := [];
    for j := 0 to |stations|
      invariant IsPolyline(line, offset, stations[..j], locate, elevationAt)
    {
      var station := stations[j];
      var (x, y) := locate(station, offset);
      var z := 0.0;
      match elevationAt(station) {
        case Some(e) => z := e;
        case None => z := 0.0;
      }
      line := line + [Point3D(x, y, z)];
    }
    assert stations[..|stations|] == stations;
  }

  /** The outer loop of lines 118-130: one polyline per offset, in order. */
  method Materialize(offsets: seq<real>, stations: seq<real>, locate: (real, real) -> (real, real),
                     elevationAt: real -> Option<real>) returns (polylines: seq<seq<Point3D>>)
    ensures |polylines| == |offsets|
    ensures forall k :: 0 <= k < |offsets| ==>
      IsPolyline(polylines[k], offsets[k], stations, locate, elevationAt)
  {
    polylines := [];
    for k := 0 to |offsets|
      invariant |polylines| == k
      invariant forall m :: 0 <= m < k ==>
        IsPolyline(polylines[m], offsets[m], stations, locate, elevationAt)
    {
      var line := BuildPolyline(offsets[k], stations, locate, elevationAt);
      polylines := polylines + [line];
    }
  }
}
