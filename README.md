# Waypoints container, modelled in Dafny

This project models `Waypoints<N>` from `include/waypoints/waypoints.h`. It is a
fixed-capacity, ordered store of route points for navigation code. It keeps a
cursor on the current point and a flag that says whether the route is a closed
loop. Points are appended with `Add`. The cursor moves with `Advance`, which
wraps from the last point to the first only on a closed path. `Current`,
`Next`, `Previous` and `At` copy a point into a caller-supplied location and
report success with a boolean. `Clear` empties the container.

The project has three files:

- `route_model.dfy` (module `RouteModel`): the container's state as a value
  `Route(points, cursor, closed, capacity)`, where `points` are the occupied
  slots in insertion order. It has the class invariant `Valid`, one function
  per operation, and lemmas about single operations and about runs of them:
  traversal of closed and open paths, filling to capacity, and whole histories.
- `waypoint_store.dfy` (module `WaypointStore`): the class itself, with the
  source's fields and an `array` of length `N` for `waypoints_`. Each method
  is proved to change the abstract state `Model()` exactly as the matching
  `RouteModel` function says. The readers take a nullable `Slot`, the
  counterpart of the `Waypoint *` out-pointer. They write through it on
  success and leave it alone on failure. Only the `Slot` is in their
  `modifies` clause, so they cannot change the container.
- `waypoints_example.dfy` (module `WaypointsExample`): the demonstration
  program `examples/waypoints_example.cc`. It returns the lines the program
  prints instead of printing them.

The element type is a type parameter of the class, because the container never
looks inside a point. The demo uses a `Waypoint` datatype with three reals.

Two behaviours of the code are worth noting:

- The readers return `false` for a null pointer (waypoints.h:59, 67, 81, 95)
  instead of requiring a non-null one.
- `Advance` fails on an empty container even when the path is closed
  (waypoints.h:46).

## Model

| member | source | states |
|---|---|---|
| `WaypointStore.Waypoints.constructor` | include/waypoints/waypoints.h:112-121 | a new container is valid, has capacity `N`, holds no points, has its cursor at 0 and an open path |
| `WaypointStore.Waypoints.Model` | include/waypoints/waypoints.h:112-121 | the fields of a valid container form a valid abstract route whose capacity is `N` |
| `WaypointStore.Waypoints.Add` | include/waypoints/waypoints.h:36-42 | keeps the invariant; result and new state are those of `RouteModel.Add` on the old state |
| `WaypointStore.Waypoints.SetClosedPath` | include/waypoints/waypoints.h:43 | keeps the invariant; only the flag changes, to the given value |
| `WaypointStore.Waypoints.ClosedPath` | include/waypoints/waypoints.h:44 | returns the flag of the current state |
| `WaypointStore.Waypoints.Advance` | include/waypoints/waypoints.h:45-57 | keeps the invariant; result and new state are those of `RouteModel.Advance` on the old state |
| `WaypointStore.Waypoints.Current` | include/waypoints/waypoints.h:58-65 | succeeds iff the pointer is non-null and the container is non-empty; then writes the point under the cursor; otherwise the target is untouched |
| `WaypointStore.Waypoints.Next` | include/waypoints/waypoints.h:66-79 | succeeds iff the pointer is non-null and `RouteModel.Next` yields a point; then writes that point; otherwise the target is untouched |
| `WaypointStore.Waypoints.Previous` | include/waypoints/waypoints.h:80-93 | succeeds iff the pointer is non-null and `RouteModel.Previous` yields a point; then writes that point; otherwise the target is untouched |
| `WaypointStore.Waypoints.At` | include/waypoints/waypoints.h:94-103 | succeeds iff the pointer is non-null and the index is occupied; then writes the point stored there; otherwise the target is untouched |
| `WaypointStore.Waypoints.Size` | include/waypoints/waypoints.h:104 | returns the number of stored points |
| `WaypointStore.Waypoints.Capacity` | include/waypoints/waypoints.h:105 | returns `N`, the length of the storage array |
| `WaypointStore.Waypoints.Clear` | include/waypoints/waypoints.h:106-110 | keeps the invariant; the new state is `RouteModel.Clear` of the old one (empty, cursor 0, open path, same capacity) |
| `RouteModel.Init` | include/waypoints/waypoints.h:112-121 | the initial state satisfies the class invariant |
| `RouteModel.Add` | include/waypoints/waypoints.h:36-42 | `Add` preserves the class invariant |
| `RouteModel.SetClosed` | include/waypoints/waypoints.h:43 | the setter preserves the class invariant |
| `RouteModel.Advance` | include/waypoints/waypoints.h:45-57 | `Advance` preserves the class invariant |
| `RouteModel.Clear` | include/waypoints/waypoints.h:106-110 | the cleared state satisfies the class invariant |
| `RouteModel.Current` | include/waypoints/waypoints.h:58-65 | what `Current` writes on success, `None` when it fails: exactly what `At` gives at the cursor index |
| `RouteModel.Next` | include/waypoints/waypoints.h:66-79 | what `Next` writes on success, `None` when it fails: it succeeds iff the container is non-empty and the path is closed or the cursor is below the last index, and then yields the point at (cursor + 1) mod size |
| `RouteModel.Previous` | include/waypoints/waypoints.h:80-93 | what `Previous` writes on success, `None` when it fails: it succeeds iff the container is non-empty and the path is closed or the cursor is above 0, and then yields the point at (cursor + size - 1) mod size |
| `RouteModel.At` | include/waypoints/waypoints.h:94-103 | what `At(index)` writes on success, `None` when it fails: it succeeds iff the index is occupied, and then yields the point stored there |
| `RouteModel.AddAppendsIffRoom` | include/waypoints/waypoints.h:36-42 | `Add` succeeds iff size < capacity; on success the point sits at the old size, earlier points, cursor, flag and capacity are unchanged; on failure nothing changes |
| `RouteModel.AdvanceCases` | include/waypoints/waypoints.h:45-57 | fails on an empty container; below the last index it steps by one; at the last index it succeeds iff closed, wrapping to 0; on failure the state is unchanged; only the cursor ever changes |
| `RouteModel.NextIsCurrentAfterAdvance` | include/waypoints/waypoints.h:45-93 | `Next` succeeds iff `Advance` would, and yields the point under the cursor after that `Advance`; after a successful `Advance`, `Previous` yields the point the cursor left |
| `RouteModel.Wraparound` | include/waypoints/waypoints.h:66-93 | at index 0 `Previous` yields the last point iff closed and fails otherwise; at the last index `Next` yields the first point iff closed and fails otherwise |
| `RouteModel.AtIsIndexed` | include/waypoints/waypoints.h:94-103 | `At(i)` succeeds iff `i` < size, yields the point stored at `i`, and does not depend on the cursor or the flag |
| `RouteModel.ClearResets` | include/waypoints/waypoints.h:106-110 | `Clear` gives the initial state with the same capacity, is idempotent, and afterwards every reader and `Advance` fail |
| `RouteModel.SetClosedOnlyFlag` | include/waypoints/waypoints.h:43-44 | the setter sets the flag to the given value and changes nothing else |
| `RouteModel.ClosedPathAdvances` | include/waypoints/waypoints.h:45-57 | on a closed non-empty path every one of `n` advances succeeds and the cursor ends at (start + n) mod size |
| `RouteModel.ClosedPathFullCircle` | include/waypoints/waypoints.h:45-65 | on a closed non-empty path, size-many advances all succeed and restore the exact starting state, so `Current` yields the same point |
| `RouteModel.OpenPathAdvances` | include/waypoints/waypoints.h:45-57 | on an open non-empty path the i-th of `n` advances succeeds iff cursor + i < size - 1; the cursor ends at min(cursor + n, size - 1) |
| `RouteModel.OpenPathFromStart` | include/waypoints/waypoints.h:45-65 | from index 0 on an open path of m points, exactly the first m - 1 advances succeed, the m-th fails, and `Current` still yields the last point |
| `RouteModel.AddRunFills` | include/waypoints/waypoints.h:36-42 | in a run of adds, the i-th succeeds iff i < free room; the accepted points are appended in call order; cursor and flag are unchanged |
| `RouteModel.RunAppendsAdded` | include/waypoints/waypoints.h:36-57 | in any history without `Clear`, setter and `Advance` calls leave the points alone and the points of the `Add` calls are appended in call order until the container is full |
| `RouteModel.AtAfterAdds` | include/waypoints/waypoints.h:94-103 | after `Clear` and any history without another `Clear` (setter and `Advance` calls allowed in between), the size is the number of adds clipped at capacity, and `At(i)` yields the point of the i-th add or fails beyond that |
| `RouteModel.StaysEmpty` | include/waypoints/waypoints.h:106-110 | without an `Add`, an empty container stays empty and valid under the setter, `Advance` and `Clear` |
| `RouteModel.EmptyUntilAdd` | include/waypoints/waypoints.h:106-110 | after `Clear`, until an `Add`, `Current`, `Next`, `Previous`, `At` and `Advance` all fail |
| `RouteModel.Run` | include/waypoints/waypoints.h:118 | after any sequence of `Add`, setter, `Advance` and `Clear` calls, the invariant holds and the capacity is the initial one |
| `RouteModel.ClosedFlagIsLastSet` | include/waypoints/waypoints.h:43-44 | after the setter stores `b`, any run of `Add` and `Advance` calls leaves the getter's value at `b` |
| `WaypointsExample.BuildClosedTriangle` | examples/waypoints_example.cc:13-22 | adding (0,0,0), (1,1,1), (2,2,2) to a capacity-10 container and closing the path gives those three points, cursor 0, closed |
| `WaypointsExample.TrianglePass` | examples/waypoints_example.cc:27-36 | on the closed three-point route with the cursor at i, `Previous`, `Current` and `Next` yield points i-1, i and i+1 (wrapping), and `Advance` succeeds and moves to i+1 (wrapping) |
| `WaypointsExample.ClosedLoopDemo` | examples/waypoints_example.cc:23-36 | the three passes print previous/current/next latitudes 2,0,1 then 0,1,2 then 1,2,0, every call succeeding |

## Left out

- `Waypoint`'s coordinate fields and their getters and setters (waypoints.h:16-30): the container never inspects them, so the class is generic in its element type. The demo's `Waypoint` uses reals, so `double` and `float` precision and rounding are not modelled.
- The Eigen includes (waypoints.h:12-13) are unused.
- Printing to `std::cout` in the demo: `ClosedLoopDemo` returns the printed values instead.
- `std::size_t` width: sizes and indices are `nat`. No operation can overflow, because `size_` never exceeds `N` and `current_index_ + 1` is formed only below `size_ - 1`.
- `std::array` is stored inside the object in C++. Here it is a separate Dafny `array`, reached through a `const` field. The constructor allocates it fresh (`fresh(waypoints)`), so containers built by it do not share storage; `Valid()` itself does not state this separation. Copying a whole `Waypoints` object by value is not modelled.
- Slots beyond `size_` keep stale points after `Clear`, as in the source. The abstract state ignores them, since no operation can read them.
