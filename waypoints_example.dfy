/**
 * The demonstration program of examples/waypoints_example.cc: three points
 * (i, i, i) for i = 0, 1, 2 go into a container of capacity 10, the path is
 * closed, and three times over the previous, current and next points are read
 * and the cursor advanced. Instead of printing, the method returns one `Line`
 * per pass holding what the program prints.
 */
module WaypointsExample {

  import opened RouteModel
  import opened WaypointStore

  /** One printed line: the three reader results, the three latitudes, the advance result. */
  datatype Line = Line(
    previousOk: bool, currentOk: bool, nextOk: bool,
    previousLat: real, currentLat: real, nextLat: real,
    advanced: bool)

  /** The demo's i-th point, (i, i, i). */
  function Point(i: int): (w: Waypoint)
  {
    Waypoint(i as real, i as real, i as real)
  }

  /** Lines 13-22 of the program: three points added in order, then the path closed. */
  method BuildClosedTriangle() returns (activeWaypoints: Waypoints<Waypoint>)
    ensures fresh(activeWaypoints) && fresh(activeWaypoints.waypoints)
    ensures activeWaypoints.Valid() && activeWaypoints.N == 10
    ensures activeWaypoints.Model() == Route([Point(0), Point(1), Point(2)], 0, true, 10)
  {
    activeWaypoints := new Waypoints<Waypoint>(10);
    var i := 0;
    while i < 3
      invariant 0 <= i <= 3
      invariant activeWaypoints.Valid() && fresh(activeWaypoints.waypoints)
      invariant activeWaypoints.N == 10
      invariant activeWaypoints.Model() == Route(seq(i, k => Point(k)), 0, false, 10)
    {
      var point := Point(i);
      var _ := activeWaypoints.Add(point);
      assert seq(i, k => Point(k)) + [point] == seq(i + 1, k => Point(k));
      i := i + 1;
    }
    activeWaypoints.SetClosedPath(true);
    assert seq(3, k => Point(k)) == [Point(0), Point(1), Point(2)];
  }

  /** What the readers and `Advance` give on the closed three-point route with the cursor at `i`. */
  lemma TrianglePass(i: nat)
    requires i < 3
    ensures var r := Route([Point(0), Point(1), Point(2)], i, true, 10);
      Valid(r) &&
      RouteModel.Previous(r) == Some(Point(if i == 0 then 2 else i - 1)) &&
      RouteModel.Current(r) == Some(Point(i)) &&
      RouteModel.Next(r) == Some(Point(if i == 2 then 0 else i + 1)) &&
      RouteModel.Advance(r) == Step(true, r.(cursor := if i == 2 then 0 else i + 1))
  {
  }

  /** Lines 23-36 of the program: three passes of previous, current, next and advance. */
  method ClosedLoopDemo() returns (lines: seq<Line>)
    ensures lines == [
      Line(true, true, true, 2.0, 0.0, 1.0, true),
      Line(true, true, true, 0.0, 1.0, 2.0, true),
      Line(true, true, true, 1.0, 2.0, 0.0, true)]
  {
    var activeWaypoints := BuildClosedTriangle();
    var points := [Point(0), Point(1), Point(2)];
    var expected := [
      Line(true, true, true, 2.0, 0.0, 1.0, true),
      Line(true, true, true, 0.0, 1.0, 2.0, true),
      Line(true, true, true, 1.0, 2.0, 0.0, true)];
    lines := [];
    var i := 0;
    while i < 3
      invariant 0 <= i <= 3
      invariant activeWaypoints.Valid() && fresh(activeWaypoints.waypoints)
      invariant activeWaypoints.Model() == Route(points, if i < 3 then i else 0, true, 10)
      invariant lines == expected[..i]
    {
      var previous := new Slot(Waypoint(0.0, 0.0, 0.0));
      var current := new Slot(Waypoint(0.0, 0.0, 0.0));
      var next := new Slot(Waypoint(0.0, 0.0, 0.0));
      TrianglePass(i);
      var previousOk := activeWaypoints.Previous(previous);
      var currentOk := activeWaypoints.Current(current);
      var nextOk := activeWaypoints.Next(next);
      var advanced := activeWaypoints.Advance();
      var line := Line(previousOk, currentOk, nextOk,
        previous.value.latRad, current.value.latRad, next.value.latRad, advanced);
      assert line == expected[i];
      assert expected[..i + 1] == expected[..i] + [expected[i]];
      lines := lines + [line];
      i := i + 1;
    }
  }
}
