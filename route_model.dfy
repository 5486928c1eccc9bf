/**
 * The waypoint container of waypoints.h seen as a value: the points it holds
 * (its first `size` slots, in insertion order), the cursor, the closed-path
 * flag and the fixed capacity. One function per operation of the container
 * gives its effect on that value; the lemmas below state what the operations
 * promise, alone and in sequences. The class in waypoint_store.dfy is proved
 * to follow these functions.
 */
module RouteModel {

  datatype Option<T> = None | Some(value: T)

  /** Abstract state of a `Waypoints<N>` container. */
  datatype Route<T> = Route(points: seq<T>, cursor: nat, closed: bool, capacity: nat)

  /** Outcome of a mutating operation: the boolean it returns and the new state. */
  datatype Step<T> = Step(ok: bool, route: Route<T>)

  /** Results of a run of operations, one boolean per call, and the final state. */
  datatype Trace<T> = Trace(results: seq<bool>, last: Route<T>)

  /**
   * The class invariant: never more points than the capacity, and the cursor
   * is an occupied index, or 0 when nothing is stored.
   */
  predicate Valid<T>(r: Route<T>)
  {
    |r.points| <= r.capacity &&
    (|r.points| == 0 ==> r.cursor == 0) &&
    (|r.points| > 0 ==> r.cursor < |r.points|)
  }

  function Min(a: nat, b: nat): (m: nat)
    ensures m <= a && m <= b && (m == a || m == b)
  {
    if a < b then a else b
  }

  // ---------------------------------------------------------------------------
  // Operations
  // ---------------------------------------------------------------------------

  /** A freshly constructed container of capacity `n`. */
  function Init<T>(n: nat): (r: Route<T>)
    ensures Valid(r)
  {
    Route([], 0, false, n)
  }

  /** `Add`: append while there is room. */
  function Add<T>(r: Route<T>, w: T): (s: Step<T>)
    requires Valid(r)
    ensures Valid(s.route)
  {
    if |r.points| < r.capacity then Step(true, r.(points := r.points + [w]))
    else Step(false, r)
  }

  /** The `closed_path` setter. */
  function SetClosed<T>(r: Route<T>, flag: bool): (s: Route<T>)
    requires Valid(r)
    ensures Valid(s)
  {
    r.(closed := flag)
  }

  /** `Advance`: move the cursor one place, wrapping at the end of a closed path. */
  function Advance<T>(r: Route<T>): (s: Step<T>)
    requires Valid(r)
    ensures Valid(s.route)
  {
    if |r.points| > 0 then
      if r.cursor < |r.points| - 1 then Step(true, r.(cursor := r.cursor + 1))
      else if r.closed then Step(true, r.(cursor := 0))
      else Step(false, r)
    else Step(false, r)
  }

  /** `Clear`: forget the points, rewind the cursor, open the path. */
  function Clear<T>(r: Route<T>): (s: Route<T>)
    ensures Valid(s)
  {
    Route([], 0, false, r.capacity)
  }

  /** What `Current` writes on success, or `None` when it fails. */
  function Current<T>(r: Route<T>): (o: Option<T>)
    requires Valid(r)
    ensures o == At(r, r.cursor)
  {
    if |r.points| > 0 then Some(r.points[r.cursor]) else None
  }

  /** What `Next` writes on success, or `None` when it fails. */
  function Next<T>(r: Route<T>): (o: Option<T>)
    requires Valid(r)
    ensures o.Some? <==> |r.points| > 0 && (r.closed || r.cursor + 1 < |r.points|)
    ensures o.Some? ==> o.value == r.points[(r.cursor + 1) % |r.points|]
  {
    if |r.points| > 0 then
      if r.cursor < |r.points| - 1 then
        ModUnique(r.cursor + 1, |r.points|, 0, r.cursor + 1);
        Some(r.points[r.cursor + 1])
      else if r.closed then
        ModUnique(r.cursor + 1, |r.points|, 1, 0);
        Some(r.points[0])
      else None
    else None
  }

  /** What `Previous` writes on success, or `None` when it fails. */
  function Previous<T>(r: Route<T>): (o: Option<T>)
    requires Valid(r)
    ensures o.Some? <==> |r.points| > 0 && (r.closed || r.cursor > 0)
    ensures o.Some? ==> o.value == r.points[(r.cursor + |r.points| - 1) % |r.points|]
  {
    if |r.points| > 0 then
      if r.cursor > 0 then
        ModUnique(r.cursor + |r.points| - 1, |r.points|, 1, r.cursor - 1);
        Some(r.points[r.cursor - 1])
      else if r.closed then
        ModUnique(|r.points| - 1, |r.points|, 0, |r.points| - 1);
        Some(r.points[|r.points| - 1])
      else None
    else None
  }

  /** What `At(index)` writes on success, or `None` when it fails. */
  function At<T>(r: Route<T>, index: nat): (o: Option<T>)
    ensures o.Some? <==> index < |r.points|
    ensures o.Some? ==> o.value == r.points[index]
  {
    if |r.points| > 0 then
      if index < |r.points| then Some(r.points[index]) else None
    else None
  }

  // ---------------------------------------------------------------------------
  // Runs of operations
  // ---------------------------------------------------------------------------

  /** `n` consecutive calls of `Advance`. */
  function AdvanceRun<T>(r: Route<T>, n: nat): (t: Trace<T>)
    requires Valid(r)
    ensures |t.results| == n && Valid(t.last)
    decreases n
  {
    if n == 0 then Trace([], r)
    else
      var s := Advance(r);
      var rest := AdvanceRun(s.route, n - 1);
      Trace([s.ok] + rest.results, rest.last)
  }

  /** One `Add` call per element of `ws`, in order. */
  function AddRun<T>(r: Route<T>, ws: seq<T>): (t: Trace<T>)
    requires Valid(r)
    ensures |t.results| == |ws| && Valid(t.last)
    decreases |ws|
  {
    if ws == [] then Trace([], r)
    else
      var s := Add(r, ws[0]);
      var rest := AddRun(s.route, ws[1..]);
      Trace([s.ok] + rest.results, rest.last)
  }

  /** The operations that change a container's state. */
  datatype Op<T> = AddOp(w: T) | SetClosedOp(flag: bool) | AdvanceOp | ClearOp

  function Apply<T>(r: Route<T>, op: Op<T>): (s: Route<T>)
    requires Valid(r)
    ensures Valid(s)
  {
    match op
    case AddOp(w) => Add(r, w).route
    case SetClosedOp(flag) => SetClosed(r, flag)
    case AdvanceOp => Advance(r).route
    case ClearOp => Clear(r)
  }

  /** The state after applying `ops` in order. */
  function Run<T>(r: Route<T>, ops: seq<Op<T>>): (s: Route<T>)
    requires Valid(r)
    ensures Valid(s) && s.capacity == r.capacity
    decreases |ops|
  {
    if ops == [] then r else Run(Apply(r, ops[0]), ops[1..])
  }

  /** The points passed to the `Add` calls of `ops`, in call order. */
  function Added<T>(ops: seq<Op<T>>): (ws: seq<T>)
    ensures |ws| <= |ops|
    decreases |ops|
  {
    if ops == [] then []
    else if ops[0].AddOp? then [ops[0].w] + Added(ops[1..])
    else Added(ops[1..])
  }

  // ---------------------------------------------------------------------------
  // Single operations
  // ---------------------------------------------------------------------------

  /**
   * `Add` succeeds exactly when there is room; the new point then sits at the
   * old size, and nothing else changes. A failed `Add` changes nothing.
   */
  lemma AddAppendsIffRoom<T>(r: Route<T>, w: T)
    requires Valid(r)
    ensures Add(r, w).ok <==> |r.points| < r.capacity
    ensures Add(r, w).ok ==>
      var s := Add(r, w).route;
      |s.points| == |r.points| + 1 && s.points[|r.points|] == w &&
      s.points[..|r.points|] == r.points &&
      s.cursor == r.cursor && s.closed == r.closed && s.capacity == r.capacity
    ensures !Add(r, w).ok ==> Add(r, w).route == r
  {
  }

  /**
   * `Advance` fails on an empty container, steps forward below the last index,
   * and at the last index wraps to 0 if and only if the path is closed; when
   * it fails the state is unchanged. It never touches the points, the flag or
   * the capacity.
   */
  lemma AdvanceCases<T>(r: Route<T>)
    requires Valid(r)
    ensures |r.points| == 0 ==> !Advance(r).ok
    ensures 0 < |r.points| && r.cursor < |r.points| - 1 ==>
      Advance(r).ok && Advance(r).route.cursor == r.cursor + 1
    ensures 0 < |r.points| && r.cursor == |r.points| - 1 ==>
      (Advance(r).ok <==> r.closed) &&
      (r.closed ==> Advance(r).route.cursor == 0)
    ensures !Advance(r).ok ==> Advance(r).route == r
    ensures Advance(r).route == r.(cursor := Advance(r).route.cursor)
  {
  }

  /**
   * `Next` succeeds exactly when `Advance` would, and then yields the point
   * the cursor would land on; `Previous` after a successful `Advance` yields
   * the point the cursor has just left.
   */
  lemma NextIsCurrentAfterAdvance<T>(r: Route<T>)
    requires Valid(r)
    ensures Next(r).Some? <==> Advance(r).ok
    ensures Advance(r).ok ==> Next(r) == Current(Advance(r).route)
    ensures Advance(r).ok ==> Previous(Advance(r).route) == Current(r)
  {
  }

  /**
   * The wraparound cases: on a closed path the predecessor of the first point
   * is the last and the successor of the last is the first; on an open path
   * both lookups fail.
   */
  lemma Wraparound<T>(r: Route<T>)
    requires Valid(r) && |r.points| > 0
    ensures r.cursor == 0 ==>
      Previous(r) == (if r.closed then Some(r.points[|r.points| - 1]) else None)
    ensures r.cursor == |r.points| - 1 ==>
      Next(r) == (if r.closed then Some(r.points[0]) else None)
  {
  }

  /**
   * `At(index)` succeeds exactly for an occupied index and yields the point
   * stored there, whatever the cursor and the closed flag.
   */
  lemma AtIsIndexed<T>(r: Route<T>, index: nat, cursor: nat, closed: bool)
    ensures At(r, index).Some? <==> index < |r.points|
    ensures index < |r.points| ==> At(r, index).value == r.points[index]
    ensures At(r.(cursor := cursor, closed := closed), index) == At(r, index)
  {
  }

  /**
   * `Clear` keeps the capacity, is idempotent, and leaves a container on
   * which every reader and `Advance` fail.
   */
  lemma ClearResets<T>(r: Route<T>, index: nat)
    ensures Clear(r) == Init(r.capacity)
    ensures Clear(Clear(r)) == Clear(r)
    ensures Current(Clear(r)) == None && Next(Clear(r)) == None
    ensures Previous(Clear(r)) == None && At(Clear(r), index) == None
    ensures Advance(Clear(r)) == Step(false, Clear(r))
  {
  }

  /** The `closed_path` setter changes the flag and nothing else. */
  lemma SetClosedOnlyFlag<T>(r: Route<T>, flag: bool)
    requires Valid(r)
    ensures SetClosed(r, flag).closed == flag
    ensures SetClosed(r, flag).(closed := r.closed) == r
  {
  }

  // ---------------------------------------------------------------------------
  // Traversal
  // ---------------------------------------------------------------------------

  lemma MulAtLeast(d: int, m: int)
    requires d >= 1 && m > 0
    ensures d * m >= m
  {
    assert d * m == (d - 1) * m + m;
    assert (d - 1) * m >= 0;
  }

  /** Euclidean remainders are unique. */
  lemma ModUnique(a: int, m: int, q: int, k: int)
    requires m > 0 && a == q * m + k && 0 <= k < m
    ensures a % m == k
  {
    var q', k' := a / m, a % m;
    assert a == q' * m + k';
    assert q * m - q' * m == k' - k;
    assert (q - q') * m == q * m - q' * m;
    if q > q' {
      MulAtLeast(q - q', m);
    } else if q < q' {
      MulAtLeast(q' - q, m);
    }
  }

  lemma WrapOnePeriod(x: nat, m: nat)
    requires m > 0
    ensures (x + m) % m == x % m
  {
    ModUnique(x + m, m, x / m + 1, x % m);
  }

  /**
   * On a closed, non-empty path every `Advance` succeeds, and after `n` of
   * them the cursor stands `n` places further on, modulo the size.
   */
  lemma {:induction false} ClosedPathAdvances<T>(r: Route<T>, n: nat)
    requires Valid(r) && r.closed && |r.points| > 0
    ensures forall i :: 0 <= i < n ==> AdvanceRun(r, n).results[i]
    ensures AdvanceRun(r, n).last == r.(cursor := (r.cursor + n) % |r.points|)
    decreases n
  {
    var m := |r.points|;
    if n == 0 {
      ModUnique(r.cursor, m, 0, r.cursor);
    } else {
      var s := Advance(r);
      var rest := AdvanceRun(s.route, n - 1);
      ClosedPathAdvances(s.route, n - 1);
      assert AdvanceRun(r, n) == Trace([true] + rest.results, rest.last);
      if r.cursor == m - 1 {
        assert s.route == r.(cursor := 0);
        WrapOnePeriod(n - 1, m);
        assert (n - 1) + m == r.cursor + n;
      } else {
        assert s.route == r.(cursor := r.cursor + 1);
        assert s.route.cursor + (n - 1) == r.cursor + n;
      }
    }
  }

  /**
   * On a closed, non-empty path, as many `Advance` calls as there are points
   * all succeed and bring the container back to exactly where it started, so
   * `Current` yields the same point again.
   */
  lemma ClosedPathFullCircle<T>(r: Route<T>)
    requires Valid(r) && r.closed && |r.points| > 0
    ensures forall i :: 0 <= i < |r.points| ==> AdvanceRun(r, |r.points|).results[i]
    ensures AdvanceRun(r, |r.points|).last == r
    ensures Current(AdvanceRun(r, |r.points|).last) == Current(r)
  {
    var m := |r.points|;
    ClosedPathAdvances(r, m);
    WrapOnePeriod(r.cursor, m);
    ModUnique(r.cursor, m, 0, r.cursor);
    assert r.(cursor := (r.cursor + m) % m) == r;
  }

  /**
   * On an open, non-empty path the `i`-th of `n` consecutive `Advance` calls
   * succeeds exactly while the cursor is short of the last index; the cursor
   * then stays pinned at the last index.
   */
  lemma {:induction false} OpenPathAdvances<T>(r: Route<T>, n: nat)
    requires Valid(r) && !r.closed && |r.points| > 0
    ensures forall i :: 0 <= i < n ==>
      (AdvanceRun(r, n).results[i] <==> r.cursor + i < |r.points| - 1)
    ensures AdvanceRun(r, n).last == r.(cursor := Min(r.cursor + n, |r.points| - 1))
    decreases n
  {
    if n > 0 {
      var s := Advance(r);
      var rest := AdvanceRun(s.route, n - 1);
      OpenPathAdvances(s.route, n - 1);
      assert AdvanceRun(r, n).results == [s.ok] + rest.results;
      forall i | 0 <= i < n
        ensures AdvanceRun(r, n).results[i] <==> r.cursor + i < |r.points| - 1
      {
        if i > 0 {
          assert AdvanceRun(r, n).results[i] == rest.results[i - 1];
        }
      }
    }
  }

  /**
   * Starting from the first point of an open path with `m` points, exactly the
   * first `m - 1` calls of `Advance` succeed and the `m`-th fails, leaving the
   * cursor on the last point, where `Current` still succeeds.
   */
  lemma OpenPathFromStart<T>(r: Route<T>)
    requires Valid(r) && !r.closed && |r.points| > 0 && r.cursor == 0
    ensures AdvanceRun(r, |r.points|).results == seq(|r.points| - 1, _ => true) + [false]
    ensures AdvanceRun(r, |r.points|).last.cursor == |r.points| - 1
    ensures Current(AdvanceRun(r, |r.points|).last) == Some(r.points[|r.points| - 1])
  {
    var m := |r.points|;
    OpenPathAdvances(r, m);
    var expected := seq(m - 1, _ => true) + [false];
    assert forall i :: 0 <= i < m ==> AdvanceRun(r, m).results[i] == expected[i];
  }

  // ---------------------------------------------------------------------------
  // Filling and reading back
  // ---------------------------------------------------------------------------

  /**
   * A run of `Add` calls succeeds for as many points as there is room for and
   * fails for the rest; the accepted points are appended in call order and the
   * cursor and flag are untouched.
   */
  lemma {:induction false} AddRunFills<T>(r: Route<T>, ws: seq<T>)
    requires Valid(r)
    ensures forall i :: 0 <= i < |ws| ==>
      (AddRun(r, ws).results[i] <==> i < r.capacity - |r.points|)
    ensures AddRun(r, ws).last ==
      r.(points := r.points + ws[..Min(|ws|, r.capacity - |r.points|)])
    decreases |ws|
  {
    if ws != [] {
      var s := Add(r, ws[0]);
      var rest := AddRun(s.route, ws[1..]);
      AddRunFills(s.route, ws[1..]);
      assert AddRun(r, ws).results == [s.ok] + rest.results;
      forall i | 0 <= i < |ws|
        ensures AddRun(r, ws).results[i] <==> i < r.capacity - |r.points|
      {
        if i > 0 {
          assert AddRun(r, ws).results[i] == rest.results[i - 1];
        }
      }
      var k := Min(|ws|, r.capacity - |r.points|);
      if s.ok {
        assert ws[1..][..k - 1] == ws[1..k];
        assert r.points + ws[..k] == r.points + [ws[0]] + ws[1..k];
      } else {
        assert k == 0;
      }
    }
  }

  /**
   * In a history without `Clear`, setter and `Advance` calls leave the points
   * alone and the `Add` calls append their points in call order until the
   * container is full.
   */
  lemma {:induction false} RunAppendsAdded<T>(r: Route<T>, ops: seq<Op<T>>)
    requires Valid(r)
    requires forall k :: 0 <= k < |ops| ==> !ops[k].ClearOp?
    ensures Run(r, ops).points ==
      r.points + Added(ops)[..Min(|Added(ops)|, r.capacity - |r.points|)]
    decreases |ops|
  {
    if ops != [] {
      var s := Apply(r, ops[0]);
      var rest := Added(ops[1..]);
      RunAppendsAdded(s, ops[1..]);
      assert Run(r, ops) == Run(s, ops[1..]);
      if ops[0].AddOp? {
        var w := ops[0].w;
        assert Added(ops) == [w] + rest;
        if |r.points| < r.capacity {
          assert s.points == r.points + [w];
          var k := Min(|rest|, r.capacity - |s.points|);
          assert Min(|Added(ops)|, r.capacity - |r.points|) == k + 1;
          assert ([w] + rest)[..k + 1] == [w] + rest[..k];
        } else {
          assert s.points == r.points;
        }
      } else {
        assert Added(ops) == rest;
        assert s.points == r.points;
      }
    }
  }

  /**
   * After a `Clear` and any history without another `Clear`, the size is the
   * number of `Add` calls clipped at the capacity, and `At(i)` yields exactly
   * the point passed to the `i`-th of those calls; later indices fail. Setter
   * and `Advance` calls in between make no difference.
   */
  lemma AtAfterAdds<T>(r: Route<T>, ops: seq<Op<T>>, i: nat)
    requires forall k :: 0 <= k < |ops| ==> !ops[k].ClearOp?
    ensures |Run(Clear(r), ops).points| == Min(|Added(ops)|, r.capacity)
    ensures At(Run(Clear(r), ops), i) ==
      (if i < Min(|Added(ops)|, r.capacity) then Some(Added(ops)[i]) else None)
  {
    RunAppendsAdded(Clear(r), ops);
  }

  /** Without an `Add`, an empty container stays empty and valid. */
  lemma {:induction false} StaysEmpty<T>(r: Route<T>, ops: seq<Op<T>>)
    requires Valid(r) && r.points == []
    requires forall k :: 0 <= k < |ops| ==> !ops[k].AddOp?
    ensures Valid(Run(r, ops)) && Run(r, ops).points == []
    decreases |ops|
  {
    if ops != [] {
      StaysEmpty(Apply(r, ops[0]), ops[1..]);
    }
  }

  /**
   * After `Clear`, calls of the setter and of `Advance` keep the container
   * empty, so every reader and `Advance` keep failing until an `Add`.
   */
  lemma EmptyUntilAdd<T>(r: Route<T>, ops: seq<Op<T>>, index: nat)
    requires forall k :: 0 <= k < |ops| ==> !ops[k].AddOp?
    ensures var s := Run(Clear(r), ops);
      Valid(s) && s.points == [] &&
      Current(s) == None && Next(s) == None && Previous(s) == None &&
      At(s, index) == None && !Advance(s).ok
  {
    StaysEmpty(Clear(r), ops);
  }

  // ---------------------------------------------------------------------------
  // Whole histories
  // ---------------------------------------------------------------------------

  /**
   * The closed-path getter reports the last value set: after `SetClosed(b)`,
   * any run of `Add` and `Advance` calls leaves the flag at `b`.
   */
  lemma {:induction false} ClosedFlagIsLastSet<T>(r: Route<T>, flag: bool, ops: seq<Op<T>>)
    requires Valid(r)
    requires forall k :: 0 <= k < |ops| ==> ops[k].AddOp? || ops[k].AdvanceOp?
    ensures Run(SetClosed(r, flag), ops).closed == flag
    decreases |ops|
  {
    if ops != [] {
      var s := Apply(SetClosed(r, flag), ops[0]);
      assert s == SetClosed(s, flag);
      ClosedFlagIsLastSet(s, flag, ops[1..]);
    }
  }
}
