/** The routing disciplines that the weights enforce, and what they guarantee. */
module MeshDeadlock {
  import opened MeshGeometry
  import opened ShortestPath
  import opened MeshTopology
  import opened MeshRouting

  predicate Horizontal(d: Dir) {
    d.East? || d.West?
  }

  lemma XYDiscipline(cols: nat, r: nat, q: nat, d: Dir)
    requires cols > 0
    ensures Allowed(XY_STYLE.weights, cols, r, q, d) <==>
              Productive(cols, r, q, d) && (Col(cols, r) != Col(cols, q) ==> Horizontal(d))
  {
    if Col(cols, r) != Col(cols, q) && Productive(cols, r, q, d) && !Horizontal(d) {
      var d' := if Col(cols, r) < Col(cols, q) then East else West;
      assert Productive(cols, r, q, d');
    }
  }

  lemma WestFirstDiscipline(cols: nat, r: nat, q: nat, d: Dir)
    requires cols > 0
    ensures Allowed(WESTFIRST_STYLE.weights, cols, r, q, d) <==>
              Productive(cols, r, q, d) && (Col(cols, q) < Col(cols, r) ==> d.West?)
  {
    if Col(cols, q) < Col(cols, r) && Productive(cols, r, q, d) && !d.West? {
      assert Productive(cols, r, q, West);
    }
  }

  /** Direction of a table hop. */
  lemma HopTaken(f: Fabric, i: nat, r: nat, b: nat) returns (d: Dir)
    requires f.Valid() && i < |f.nodes| && r < f.Routers() && Takes(f, i, r, b)
    ensures IsHop(f.net.rows, f.net.cols, r, b, d) && Allowed(f.style.weights, f.net.cols, r, f.Home(i), d)
    ensures Manhattan(f.net.cols, r, f.Home(i)) == 1 + Manhattan(f.net.cols, b, f.Home(i))
    ensures f.Cost(i, r) == f.style.weights.Of(d) + f.Cost(i, b) <= INFINITE_LATENCY
  {
    TakesIsAllowed(f, i, r, b);
    d :| IsHop(f.net.rows, f.net.cols, r, b, d) && Allowed(f.style.weights, f.net.cols, r, f.Home(i), d);
    HopChangesWeight(f.net.rows, f.net.cols, f.style.weights, r, b, f.Home(i), d);
  }

  lemma LightestProductive(w: Weights, cols: nat, r: nat, q: nat, d0: Dir) returns (d: Dir)
    requires cols > 0 && Productive(cols, r, q, d0)
    ensures Allowed(w, cols, r, q, d)
  {
    d := d0;
    if Productive(cols, r, q, East) && w.Of(East) < w.Of(d) { d := East; }
    if Productive(cols, r, q, West) && w.Of(West) < w.Of(d) { d := West; }
    if Productive(cols, r, q, North) && w.Of(North) < w.Of(d) { d := North; }
    if Productive(cols, r, q, South) && w.Of(South) < w.Of(d) { d := South; }
  }

  /** Away from home and within range the table always has an entry to take. */
  lemma SomeHopTaken(f: Fabric, i: nat, r: nat) returns (b: nat)
    requires f.Valid() && i < |f.nodes| && r < f.Routers()
    requires r != f.Home(i) && f.Cost(i, r) <= INFINITE_LATENCY
    ensures b < f.Routers() && Takes(f, i, r, b)
  {
    HomeInMesh(f, i);
    var c, d0 := ProductiveHopExists(f.net.rows, f.net.cols, r, f.Home(i));
    var d := LightestProductive(f.style.weights, f.net.cols, r, f.Home(i), d0);
    b := ProductiveNeighbour(f.net.rows, f.net.cols, r, f.Home(i), d);
    AllowedIsTaken(f, i, r, b, d);
  }

  /** XY routing leaves no choice at any hop. */
  lemma XYHopUnique(f: Fabric, i: nat, r: nat, b: nat, b': nat)
    requires f.Valid() && f.style == XY_STYLE && i < |f.nodes| && r < f.Routers()
    requires Takes(f, i, r, b) && Takes(f, i, r, b')
    ensures b == b'
  {
    var d := HopTaken(f, i, r, b);
    var d' := HopTaken(f, i, r, b');
    XYDiscipline(f.net.cols, r, f.Home(i), d);
    XYDiscipline(f.net.cols, r, f.Home(i), d');
    assert d == d';
    HopUnique(f.net.rows, f.net.cols, r, b, b', d);
  }

  /** A sequence of routers each of which forwards to the next for the i-th controller. */
  ghost predicate TableRoute(f: Fabric, i: nat, route: seq<nat>)
    requires f.Valid() && i < |f.nodes|
  {
    && |route| > 0
    && (forall m | 0 <= m < |route| :: route[m] < f.Routers())
    && (forall m | 0 <= m < |route| - 1 :: Takes(f, i, route[m], route[m + 1]))
  }

  /** Every hop of a table route comes one step closer, whatever choices are made on ties; so a route
      that has arrived took exactly the Manhattan distance. */
  lemma {:induction false} RouteLength(f: Fabric, i: nat, route: seq<nat>)
    requires f.Valid() && i < |f.nodes| && TableRoute(f, i, route)
    ensures Manhattan(f.net.cols, route[0], f.Home(i)) ==
              |route| - 1 + Manhattan(f.net.cols, route[|route| - 1], f.Home(i))
    ensures f.Cost(i, route[|route| - 1]) <= f.Cost(i, route[0])
  {
    if |route| > 1 {
      var d := HopTaken(f, i, route[0], route[1]);
      var rest := route[1..];
      forall m | 0 <= m < |rest| - 1 ensures Takes(f, i, rest[m], rest[m + 1]) {
        assert Takes(f, i, route[m + 1], route[m + 1 + 1]);
      }
      RouteLength(f, i, rest);
    }
  }

  ghost predicate NoHop(f: Fabric, i: nat, r: nat)
    requires f.Valid() && i < |f.nodes|
  {
    forall b: nat :: !Takes(f, i, r, b)
  }

  /** A route that can no longer be extended has arrived, after exactly the Manhattan distance. */
  lemma MaximalRouteArrives(f: Fabric, i: nat, route: seq<nat>)
    requires f.Valid() && i < |f.nodes| && TableRoute(f, i, route)
    requires f.Cost(i, route[0]) <= INFINITE_LATENCY
    requires NoHop(f, i, route[|route| - 1])
    ensures route[|route| - 1] == f.Home(i) && |route| - 1 == Manhattan(f.net.cols, route[0], f.Home(i))
  {
    RouteLength(f, i, route);
    if route[|route| - 1] != f.Home(i) {
      var b := SomeHopTaken(f, i, route[|route| - 1]);
    }
  }

  /** On the XY mesh no east or west hop follows a north or south hop. */
  lemma {:induction false} XYOrder(f: Fabric, i: nat, route: seq<nat>, m: nat, k: nat, d: Dir, d': Dir)
    requires f.Valid() && f.style == XY_STYLE && i < |f.nodes| && TableRoute(f, i, route) && m < k < |route| - 1
    requires IsHop(f.net.rows, f.net.cols, route[m], route[m + 1], d)
    requires IsHop(f.net.rows, f.net.cols, route[k], route[k + 1], d')
    requires !Horizontal(d)
    ensures !Horizontal(d')
    decreases k
  {
    var e := HopTaken(f, i, route[k - 1], route[k]);
    if m < k - 1 {
      XYOrder(f, i, route, m, k - 1, d, e);
    } else {
      HopDirection(f.net.rows, f.net.cols, route[m], route[m + 1], d, e);
    }
    var e' := HopTaken(f, i, route[k], route[k + 1]);
    HopDirection(f.net.rows, f.net.cols, route[k], route[k + 1], d', e');
    XYDiscipline(f.net.cols, route[k - 1], f.Home(i), e);
    XYDiscipline(f.net.cols, route[k], f.Home(i), d');
  }

  /** On the west-first mesh no west hop follows a hop in another direction. */
  lemma {:induction false} WestFirstOrder(f: Fabric, i: nat, route: seq<nat>, m: nat, k: nat, d: Dir, d': Dir)
    requires f.Valid() && f.style == WESTFIRST_STYLE && i < |f.nodes| && TableRoute(f, i, route) && m < k < |route| - 1
    requires IsHop(f.net.rows, f.net.cols, route[m], route[m + 1], d)
    requires IsHop(f.net.rows, f.net.cols, route[k], route[k + 1], d')
    requires !d.West?
    ensures !d'.West?
    decreases k
  {
    var e := HopTaken(f, i, route[k - 1], route[k]);
    if m < k - 1 {
      WestFirstOrder(f, i, route, m, k - 1, d, e);
    } else {
      HopDirection(f.net.rows, f.net.cols, route[m], route[m + 1], d, e);
    }
    var e' := HopTaken(f, i, route[k], route[k + 1]);
    HopDirection(f.net.rows, f.net.cols, route[k], route[k + 1], d', e');
    WestFirstDiscipline(f.net.cols, route[k - 1], f.Home(i), e);
    WestFirstDiscipline(f.net.cols, route[k], f.Home(i), d');
  }
}
