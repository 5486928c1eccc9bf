/**
 * The waypoint container of include/waypoints/waypoints.h as a class over a
 * fixed-size array. Every method is proved to do to the abstract state
 * `Model()` what the corresponding function of RouteModel prescribes; the
 * readers write through a caller-owned `Slot`, the counterpart of the
 * `Waypoint *` out-pointer, and leave it untouched when they fail.
 */
module WaypointStore {

  import opened RouteModel

  /**
   * A route point: latitude and longitude in radians, altitude in metres.
   * The container only copies it around and never looks inside.
   */
  datatype Waypoint = Waypoint(latRad: real, lonRad: real, altM: real)

  /** A caller-owned location a reader writes its result into. */
  class Slot<T> {
    var value: T

    constructor (v: T)
      ensures value == v
    {
      value := v;
    }
  }

  /** `Waypoints<N>`: at most `N` points, a cursor and a closed-path flag. */
  class Waypoints<T(0)> {
    /** The template parameter: the fixed capacity. */
    const N: nat

    var closedPath: bool
    var currentIndex: nat
    var capacity: nat
    var size: nat
    const waypoints: array<T>

    /** The class invariant. */
    ghost predicate Valid()
      reads this
    {
      waypoints.Length == N && capacity == N && size <= capacity &&
      (size == 0 ==> currentIndex == 0) &&
      (size > 0 ==> currentIndex < size)
    }

    /** The abstract state: the occupied slots, the cursor, the flag and the capacity. */
    ghost function Model(): (r: Route<T>)
      reads this, waypoints
      requires Valid()
      ensures RouteModel.Valid(r) && r.capacity == N
    {
      Route(waypoints[..size], currentIndex, closedPath, capacity)
    }

    /** A container built with every member at its initial value. */
    constructor (n: nat)
      ensures Valid() && fresh(waypoints)
      ensures N == n && Model() == RouteModel.Init(n)
    {
      N := n;
      closedPath := false;
      currentIndex := 0;
      capacity := n;
      size := 0;
      waypoints := new T[n];
    }

    method Add(w: T) returns (ok: bool)
      requires Valid()
      modifies this, waypoints
      ensures Valid()
      ensures Step(ok, Model()) == RouteModel.Add(old(Model()), w)
    {
      if size < capacity {
        waypoints[size] := w;
        size := size + 1;
        assert waypoints[..size] == old(waypoints[..size]) + [w];
        return true;
      }
      return false;
    }

    /** The `closed_path` setter. */
    method SetClosedPath(flag: bool)
      requires Valid()
      modifies this
      ensures Valid()
      ensures Model() == RouteModel.SetClosed(old(Model()), flag)
    {
      closedPath := flag;
    }

    /** The `closed_path` getter. */
    method ClosedPath() returns (flag: bool)
      requires Valid()
      ensures flag == Model().closed
    {
      return closedPath;
    }

    method Advance() returns (ok: bool)
      requires Valid()
      modifies this
      ensures Valid()
      ensures Step(ok, Model()) == RouteModel.Advance(old(Model()))
    {
      if size > 0 {
        if currentIndex < size - 1 {
          currentIndex := currentIndex + 1;
          return true;
        }
        if closedPath {
          currentIndex := 0;
          return true;
        }
      }
      return false;
    }

    method Current(ptr: Slot?<T>) returns (ok: bool)
      requires Valid()
      modifies ptr
      ensures ok <==> ptr != null && RouteModel.Current(Model()).Some?
      ensures ok ==> ptr != null && ptr.value == RouteModel.Current(Model()).value
      ensures !ok && ptr != null ==> ptr.value == old(ptr.value)
    {
      if ptr == null {
        return false;
      }
      if size > 0 {
        ptr.value := waypoints[currentIndex];
        return true;
      }
      return false;
    }

    method Next(ptr: Slot?<T>) returns (ok: bool)
      requires Valid()
      modifies ptr
      ensures ok <==> ptr != null && RouteModel.Next(Model()).Some?
      ensures ok ==> ptr != null && ptr.value == RouteModel.Next(Model()).value
      ensures !ok && ptr != null ==> ptr.value == old(ptr.value)
    {
      if ptr == null {
        return false;
      }
      if size > 0 {
        if currentIndex < size - 1 {
          ptr.value := waypoints[currentIndex + 1];
          return true;
        }
        if closedPath {
          ptr.value := waypoints[0];
          return true;
        }
      }
      return false;
    }

    method Previous(ptr: Slot?<T>) returns (ok: bool)
      requires Valid()
      modifies ptr
      ensures ok <==> ptr != null && RouteModel.Previous(Model()).Some?
      ensures ok ==> ptr != null && ptr.value == RouteModel.Previous(Model()).value
      ensures !ok && ptr != null ==> ptr.value == old(ptr.value)
    {
      if ptr == null {
        return false;
      }
      if size > 0 {
        if currentIndex > 0 {
          ptr.value := waypoints[currentIndex - 1];
          return true;
        }
        if closedPath {
          ptr.value := waypoints[size - 1];
          return true;
        }
      }
      return false;
    }

    method At(index: nat, ptr: Slot?<T>) returns (ok: bool)
      requires Valid()
      modifies ptr
      ensures ok <==> ptr != null && RouteModel.At(Model(), index).Some?
      ensures ok ==> ptr != null && ptr.value == RouteModel.At(Model(), index).value
      ensures !ok && ptr != null ==> ptr.value == old(ptr.value)
    {
      if ptr == null {
        return false;
      }
      if size > 0 {
        if index < size {
          ptr.value := waypoints[index];
          return true;
        }
      }
      return false;
    }

    method Size() returns (n: nat)
      requires Valid()
      ensures n == |Model().points|
    {
      return size;
    }

    method Capacity() returns (n: nat)
      requires Valid()
      ensures n == N && n == waypoints.Length
    {
      return capacity;
    }

    method Clear()
      requires Valid()
      modifies this
      ensures Valid()
      ensures Model() == RouteModel.Clear(old(Model()))
    {
      closedPath := false;
      currentIndex := 0;
      size := 0;
    }
  }
}
