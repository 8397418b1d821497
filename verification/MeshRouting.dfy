/** What the least-weight routing tables do on the two meshes. */
module MeshRouting {
  import opened Arithmetic
  import opened MeshGeometry
  import opened ShortestPath
  import opened MeshTopology
  import opened RoutingTable

  /** A mesh as built, with its weight matrix and least walk weights. */
  datatype Fabric = Fabric(style: Style, nodes: seq<Controller>, latency: int, net: Network, w: Matrix, dist: Matrix) {

    function Routers(): nat {
      net.rows * net.cols
    }

    ghost predicate Valid() {
      && IsMesh(style, nodes, Routers(), net.rows, latency, net)
      && net.cols > 0
      && style.weights.Positive()
      && (forall d: Dir :: style.weights.Of(d) < INFINITE_LATENCY)
      && (forall i | 0 <= i < |nodes| :: nodes[i].machine < |nodes|)
      && (forall i, j | 0 <= i < j < |nodes| :: nodes[i].machine != nodes[j].machine)
      && WeightsOf(net, 2 * |nodes| + Routers(), w)
      && LeastWeights(w, dist)
    }

    /** The router that the i-th controller hangs off. */
    function Home(i: nat): nat
      requires i < |nodes| && Routers() > 0
    {
      RouterOf(|nodes|, Routers(), i)
    }

    /** The switch where packets for the i-th controller leave the network. */
    function Target(i: nat): nat
      requires i < |nodes|
    {
      OutSwitch(net, nodes[i].machine)
    }

    function Switch(r: nat): nat {
      RouterSwitch(net, r)
    }

    /** Weight of the grid-minimal routes from router r to the i-th controller, the last link included. */
    function Cost(i: nat, r: nat): nat
      requires i < |nodes| && Routers() > 0 && net.cols > 0
    {
      GridWeight(net.cols, style.weights, r, Home(i)) + DEFAULT_WEIGHT
    }
  }

  function Min(a: nat, b: nat): nat {
    if a <= b then a else b
  }

  /** The three kinds of link a mesh has. */
  ghost predicate IsEntry(f: Fabric, k: nat, x: nat, y: nat)
    requires k < |f.nodes| && f.Routers() > 0
  {
    x == f.nodes[k].machine && y == f.Switch(f.Home(k))
  }

  ghost predicate IsExit(f: Fabric, k: nat, x: nat, y: nat)
    requires k < |f.nodes| && f.Routers() > 0
  {
    x == f.Switch(f.Home(k)) && y == f.Target(k)
  }

  ghost predicate IsMeshHop(f: Fabric, a: nat, b: nat, d: Dir, x: nat, y: nat) {
    x == f.Switch(a) && y == f.Switch(b) && IsHop(f.net.rows, f.net.cols, a, b, d)
  }

  lemma HomeInMesh(f: Fabric, i: nat)
    requires f.Valid() && i < |f.nodes|
    ensures f.Home(i) < f.Routers()
  {
  }

  lemma ClassifyLink(f: Fabric, x: nat, y: nat, wt: nat) returns (kind: nat, k: nat, a: nat, b: nat, d: Dir)
    requires f.Valid() && HasLink(f.net, x, y, wt)
    ensures kind < 3
    ensures kind == 0 ==> wt == DEFAULT_WEIGHT && k < |f.nodes| && IsEntry(f, k, x, y)
    ensures kind == 1 ==> wt == DEFAULT_WEIGHT && k < |f.nodes| && IsExit(f, k, x, y)
    ensures kind == 2 ==> wt == f.style.weights.Of(d) && IsMeshHop(f, a, b, d, x, y)
  {
    a, b, d := 0, 0, East;
    if wt == DEFAULT_WEIGHT && exists k: nat :: k < |f.net.extLinks| && ExtJoins(f.net, k, x, y) {
      k :| k < |f.net.extLinks| && ExtJoins(f.net, k, x, y);
      assert f.net.extLinks[k] == ExtLink(k, f.nodes[k], f.Home(k), f.latency);
      kind := if x == f.nodes[k].machine && y == f.Switch(f.Home(k)) then 0 else 1;
    } else {
      k :| 0 <= k < |f.net.intLinks| && IntJoins(f.net, k, x, y) && wt == f.net.intLinks[k].weight;
      assert ProperLink(f.net.rows, f.net.cols, f.style, f.latency, f.net.intLinks[k]);
      d :| LinkFor(f.net.rows, f.net.cols, f.style, f.latency, f.net.intLinks[k], d);
      a, b := f.net.intLinks[k].src, f.net.intLinks[k].dst;
      kind := 2;
    }
  }

  lemma EntryIsLink(f: Fabric, x: nat, y: nat, wt: nat)
    requires f.Valid() && HasLink(f.net, x, y, wt) && x < |f.w| && y < |f.w|
    ensures HasLink(f.net, x, y, f.w[x][y])
  {
    assert EntryOf(f.net, f.w, x, y);
  }

  lemma MeshHopIsLink(f: Fabric, a: nat, b: nat, d: Dir)
    requires f.Valid() && IsHop(f.net.rows, f.net.cols, a, b, d)
    ensures f.Switch(a) < |f.w| && f.Switch(b) < |f.w|
    ensures HasLink(f.net, f.Switch(a), f.Switch(b), f.w[f.Switch(a)][f.Switch(b)])
  {
    assert Neighbours(f.net.rows, f.net.cols, a, b);
    assert Covers(f.net.intLinks, a, b);
    var k :| 0 <= k < |f.net.intLinks| && Joins(f.net.intLinks[k], a, b);
    var x, y := f.Switch(a), f.Switch(b);
    assert IntJoins(f.net, k, x, y);
    assert HasLink(f.net, x, y, f.net.intLinks[k].weight);
    EntryIsLink(f, x, y, f.net.intLinks[k].weight);
  }

  lemma EntryHop(f: Fabric, a: nat, b: nat, d: Dir)
    requires f.Valid() && IsHop(f.net.rows, f.net.cols, a, b, d)
    ensures f.Switch(a) < |f.w| && f.Switch(b) < |f.w|
    ensures f.w[f.Switch(a)][f.Switch(b)] == f.style.weights.Of(d)
  {
    MeshHopIsLink(f, a, b, d);
    var kind, k, a', b', d' := ClassifyLink(f, f.Switch(a), f.Switch(b), f.w[f.Switch(a)][f.Switch(b)]);
    HopDirection(f.net.rows, f.net.cols, a, b, d, d');
  }

  lemma EntryHome(f: Fabric, i: nat)
    requires f.Valid() && i < |f.nodes|
    ensures f.Switch(f.Home(i)) < |f.w| && f.Target(i) < |f.w|
    ensures f.w[f.Switch(f.Home(i))][f.Target(i)] == DEFAULT_WEIGHT
  {
    HomeInMesh(f, i);
    var x, y := f.Switch(f.Home(i)), f.Target(i);
    assert f.net.extLinks[i] == ExtLink(i, f.nodes[i], f.Home(i), f.latency);
    assert ExtJoins(f.net, i, x, y);
    assert HasLink(f.net, x, y, DEFAULT_WEIGHT);
    EntryIsLink(f, x, y, DEFAULT_WEIGHT);
    var kind, k, a, b, d := ClassifyLink(f, x, y, f.w[x][y]);
  }

  /** A lower bound on the weight left from any switch to the i-th controller. */
  ghost function Potential(f: Fabric, i: nat, x: nat): nat
    requires f.Valid() && i < |f.nodes|
  {
    if x < |f.nodes| then
      if exists k :: 0 <= k < |f.nodes| && f.nodes[k].machine == x
      then var k :| 0 <= k < |f.nodes| && f.nodes[k].machine == x; Min(f.Cost(i, f.Home(k)) + 1, INFINITE_LATENCY)
      else 0
    else if x < 2 * |f.nodes| then if x == f.Target(i) then 0 else INFINITE_LATENCY
    else Min(f.Cost(i, x - 2 * |f.nodes|), INFINITE_LATENCY)
  }

  lemma PotentialDropsByWeight(f: Fabric, i: nat, x: nat, y: nat)
    requires f.Valid() && i < |f.nodes| && x < |f.w| && y < |f.w|
    ensures Potential(f, i, x) <= f.w[x][y] + Potential(f, i, y)
  {
    assert EntryOf(f.net, f.w, x, y);
    if HasLink(f.net, x, y, f.w[x][y]) {
      var kind, k, a, b, d := ClassifyLink(f, x, y, f.w[x][y]);
      if kind == 0 {
        PotentialAtEntry(f, i, k);
      } else if kind == 1 {
        PotentialAtExit(f, i, k);
      } else {
        PotentialAcrossHop(f, i, a, b, d);
      }
    } else {
      PotentialCapped(f, i, x);
    }
  }

  lemma PotentialAtEntry(f: Fabric, i: nat, k: nat)
    requires f.Valid() && i < |f.nodes| && k < |f.nodes|
    ensures Potential(f, i, f.nodes[k].machine) <= DEFAULT_WEIGHT + Potential(f, i, f.Switch(f.Home(k)))
  {
    var x := f.nodes[k].machine;
    assert exists k' :: 0 <= k' < |f.nodes| && f.nodes[k'].machine == x;
  }

  lemma PotentialAtExit(f: Fabric, i: nat, k: nat)
    requires f.Valid() && i < |f.nodes| && k < |f.nodes|
    ensures Potential(f, i, f.Switch(f.Home(k))) <= DEFAULT_WEIGHT + Potential(f, i, f.Target(k))
  {
    PotentialCapped(f, i, f.Switch(f.Home(k)));
    if k == i {
      assert f.Cost(i, f.Home(i)) == DEFAULT_WEIGHT;
    } else {
      assert f.nodes[k].machine != f.nodes[i].machine;
    }
  }

  lemma PotentialCapped(f: Fabric, i: nat, x: nat)
    requires f.Valid() && i < |f.nodes|
    ensures Potential(f, i, x) <= INFINITE_LATENCY
  {
  }

  lemma PotentialAcrossHop(f: Fabric, i: nat, a: nat, b: nat, d: Dir)
    requires f.Valid() && i < |f.nodes| && IsHop(f.net.rows, f.net.cols, a, b, d)
    ensures Potential(f, i, f.Switch(a)) <= f.style.weights.Of(d) + Potential(f, i, f.Switch(b))
  {
    HopChangesWeight(f.net.rows, f.net.cols, f.style.weights, a, b, f.Home(i), d);
  }

  lemma {:induction false} WalkAbovePotential(f: Fabric, i: nat, p: seq<nat>)
    requires f.Valid() && i < |f.nodes| && |p| > 0 && Within(p, |f.w|)
    ensures Potential(f, i, p[0]) <= Weight(f.w, p) + Potential(f, i, p[|p| - 1])
  {
    if |p| > 1 {
      WalkAbovePotential(f, i, p[1..]);
      PotentialDropsByWeight(f, i, p[0], p[1]);
    }
  }

  lemma {:induction false} GridWalk(f: Fabric, i: nat, r: nat) returns (p: seq<nat>)
    requires f.Valid() && i < |f.nodes| && r < f.Routers()
    ensures IsWalk(|f.w|, p, f.Switch(r), f.Target(i)) && Weight(f.w, p) == f.Cost(i, r)
    decreases Manhattan(f.net.cols, r, f.Home(i))
  {
    HomeInMesh(f, i);
    if r == f.Home(i) {
      EntryHome(f, i);
      p := [f.Switch(r), f.Target(i)];
      assert p[1..] == [f.Target(i)];
    } else {
      var b, d := ProductiveHopExists(f.net.rows, f.net.cols, r, f.Home(i));
      HopChangesWeight(f.net.rows, f.net.cols, f.style.weights, r, b, f.Home(i), d);
      EntryHop(f, r, b, d);
      var rest := GridWalk(f, i, b);
      p := [f.Switch(r)] + rest;
      assert p[1..] == rest;
    }
  }

  lemma DistanceCapped(f: Fabric, x: nat, y: nat)
    requires f.Valid() && x < |f.w| && y < |f.w|
    ensures f.dist[x][y] <= INFINITE_LATENCY
  {
    var p := [x, y];
    assert p[1..] == [y] && Weight(f.w, p) == f.w[x][y] + Weight(f.w, p[1..]);
    assert NotAboveWalk(f.w, f.dist, p);
    assert EntryOf(f.net, f.w, x, y);
    if HasLink(f.net, x, y, f.w[x][y]) {
      var kind, k, a, b, d := ClassifyLink(f, x, y, f.w[x][y]);
    }
  }

  lemma DistanceAbovePotential(f: Fabric, i: nat, x: nat)
    requires f.Valid() && i < |f.nodes| && x < |f.w|
    ensures f.Target(i) < |f.w| && f.dist[x][f.Target(i)] >= Potential(f, i, x)
  {
    var t := f.Target(i);
    assert Attained(f.w, f.dist, x, t);
    var p :| IsWalk(|f.w|, p, x, t) && Weight(f.w, p) == f.dist[x][t];
    WalkAbovePotential(f, i, p);
  }

  lemma DistanceBelowCost(f: Fabric, i: nat, r: nat)
    requires f.Valid() && i < |f.nodes| && r < f.Routers()
    ensures f.Switch(r) < |f.w| && f.Target(i) < |f.w| && f.dist[f.Switch(r)][f.Target(i)] <= f.Cost(i, r)
  {
    var g := GridWalk(f, i, r);
    assert NotAboveWalk(f.w, f.dist, g);
  }

  /** The computed distance from a router to a controller is the grid weight, cut off at the number
      that stands for infinity. */
  lemma DistanceOnMesh(f: Fabric, i: nat, r: nat)
    requires f.Valid() && i < |f.nodes| && r < f.Routers()
    ensures f.Switch(r) < |f.w| && f.Target(i) < |f.w|
    ensures f.dist[f.Switch(r)][f.Target(i)] == Min(f.Cost(i, r), INFINITE_LATENCY)
  {
    DistanceBelowCost(f, i, r);
    DistanceAbovePotential(f, i, f.Switch(r));
    DistanceCapped(f, f.Switch(r), f.Target(i));
  }

  /** Another controller's exit is no way to this one. */
  lemma NoWayFromOtherExit(f: Fabric, i: nat, j: nat)
    requires f.Valid() && i < |f.nodes| && j < |f.nodes| && i != j
    ensures f.dist[f.Target(j)][f.Target(i)] >= INFINITE_LATENCY
  {
    assert f.nodes[i].machine != f.nodes[j].machine;
    DistanceAbovePotential(f, i, f.Target(j));
  }

  /** y is the exit of the i-th controller at its own router r, or the far end of a productive hop. */
  ghost predicate UsefulNext(f: Fabric, i: nat, r: nat, y: nat)
    requires f.Valid() && i < |f.nodes|
  {
    || (r == f.Home(i) && y == f.Target(i))
    || exists b: nat, d: Dir :: IsMeshHop(f, r, b, d, f.Switch(r), y) && Productive(f.net.cols, r, f.Home(i), d)
  }

  lemma PositiveEntryIsLink(f: Fabric, x: nat, y: nat)
    requires f.Valid() && x < |f.w| && y < |f.w| && 0 < f.w[x][y] != INFINITE_LATENCY
    ensures HasLink(f.net, x, y, f.w[x][y])
  {
    assert EntryOf(f.net, f.w, x, y);
  }

  /** A hop lies on a least-weight way within range only if it is productive. */
  lemma HopTowards(f: Fabric, i: nat, a: nat, b: nat, d: Dir)
    requires f.Valid() && i < |f.nodes| && IsHop(f.net.rows, f.net.cols, a, b, d)
    requires f.style.weights.Of(d) + Min(f.Cost(i, b), INFINITE_LATENCY) == Min(f.Cost(i, a), INFINITE_LATENCY)
    ensures Productive(f.net.cols, a, f.Home(i), d) && f.Cost(i, a) <= INFINITE_LATENCY
  {
    HopChangesWeight(f.net.rows, f.net.cols, f.style.weights, a, b, f.Home(i), d);
  }

  lemma CandidateIsUseful(f: Fabric, i: nat, r: nat, y: nat)
    requires f.Valid() && i < |f.nodes| && r < f.Routers()
    requires Candidate(f.net, f.w, f.dist, f.Switch(r), y, f.nodes[i].machine)
    ensures f.Cost(i, r) <= INFINITE_LATENCY && UsefulNext(f, i, r, y)
  {
    var x, t := f.Switch(r), f.Target(i);
    DistanceOnMesh(f, i, r);
    PositiveEntryIsLink(f, x, y);
    var kind, k, a, b, d := ClassifyLink(f, x, y, f.w[x][y]);
    if kind == 1 {
      if k != i {
        NoWayFromOtherExit(f, i, k);
      } else {
        assert f.Cost(i, r) == 1;
      }
    } else {
      assert kind == 2 && a == r;
      DistanceOnMesh(f, i, b);
      HopTowards(f, i, a, b, d);
    }
  }

  lemma UsefulIsCandidate(f: Fabric, i: nat, r: nat, y: nat)
    requires f.Valid() && i < |f.nodes| && r < f.Routers()
    requires f.Cost(i, r) <= INFINITE_LATENCY && UsefulNext(f, i, r, y)
    ensures Candidate(f.net, f.w, f.dist, f.Switch(r), y, f.nodes[i].machine)
  {
    var x, t := f.Switch(r), f.Target(i);
    DistanceOnMesh(f, i, r);
    if r == f.Home(i) && y == t {
      EntryHome(f, i);
      var p := [t];
      assert Within(p, |f.w|);
      assert NotAboveWalk(f.w, f.dist, p);
    } else {
      var b: nat, d: Dir :| IsMeshHop(f, r, b, d, x, y) && Productive(f.net.cols, r, f.Home(i), d);
      EntryHop(f, r, b, d);
      DistanceOnMesh(f, i, b);
      HopChangesWeight(f.net.rows, f.net.cols, f.style.weights, r, b, f.Home(i), d);
    }
  }

  /** The routing table of router r lists a way to the i-th controller exactly when the grid weight
      does not exceed the constant that stands for infinity; the ways are then exactly the grid-minimal ones. */
  lemma RouteExistsExactlyWithinRange(f: Fabric, i: nat, r: nat)
    requires f.Valid() && i < |f.nodes| && r < f.Routers()
    ensures (exists y: nat :: Candidate(f.net, f.w, f.dist, f.Switch(r), y, f.nodes[i].machine))
              <==> f.Cost(i, r) <= INFINITE_LATENCY
    ensures f.Cost(i, r) <= INFINITE_LATENCY ==>
              forall y: nat :: Candidate(f.net, f.w, f.dist, f.Switch(r), y, f.nodes[i].machine) <==>
                   UsefulNext(f, i, r, y)
  {
    forall y: nat | Candidate(f.net, f.w, f.dist, f.Switch(r), y, f.nodes[i].machine)
      ensures f.Cost(i, r) <= INFINITE_LATENCY && UsefulNext(f, i, r, y)
    {
      CandidateIsUseful(f, i, r, y);
    }
    if f.Cost(i, r) <= INFINITE_LATENCY {
      forall y: nat | UsefulNext(f, i, r, y) ensures Candidate(f.net, f.w, f.dist, f.Switch(r), y, f.nodes[i].machine) {
        UsefulIsCandidate(f, i, r, y);
      }
      HomeInMesh(f, i);
      if r == f.Home(i) {
        assert UsefulNext(f, i, r, f.Target(i));
      } else {
        var b, d := ProductiveHopExists(f.net.rows, f.net.cols, r, f.Home(i));
        assert IsMeshHop(f, r, b, d, f.Switch(r), f.Switch(b));
        assert UsefulNext(f, i, r, f.Switch(b));
      }
    }
  }

  lemma {:induction false} StretchAtLeast(d: int, up: nat, down: nat)
    requires up > 0 && down > 0
    ensures Stretch(d, up, down) >= d && Stretch(d, up, down) >= -d
    decreases if d >= 0 then d else -d
  {
    if d > 0 {
      StretchAtLeast(d - 1, up, down);
    } else if d < 0 {
      StretchAtLeast(d + 1, up, down);
    }
  }

  /** Router r has no port towards the i-th controller. */
  ghost predicate NoRoute(f: Fabric, i: nat, r: nat)
    requires f.Valid() && i < |f.nodes|
  {
    forall y: nat :: !Candidate(f.net, f.w, f.dist, f.Switch(r), y, f.nodes[i].machine)
  }

  /** From 10000 hops away on, no router has a route to a controller. */
  lemma NoRouteFromAfar(f: Fabric, i: nat, r: nat)
    requires f.Valid() && i < |f.nodes| && r < f.Routers()
    requires Manhattan(f.net.cols, r, f.Home(i)) >= INFINITE_LATENCY
    ensures NoRoute(f, i, r)
  {
    var cols, q, w := f.net.cols, f.Home(i), f.style.weights;
    StretchAtLeast(Col(cols, q) - Col(cols, r), w.east, w.west);
    StretchAtLeast(Row(cols, q) - Row(cols, r), w.north, w.south);
    RouteExistsExactlyWithinRange(f, i, r);
  }

  lemma EarlyControllerAtOwnRouter(f: Fabric, i: nat)
    requires f.Valid() && |f.nodes| >= f.Routers() && i < f.Routers()
    ensures f.Home(i) == i
  {
    var n, r := |f.nodes|, f.Routers();
    assert n / r >= 1;
    assert n - n % r == r * (n / r);
    MulMonotone(r, 1, n / r);
    DivModUnique(i, r, 0, i);
  }

  /** So on every mesh of more than 10000 columns with a controller on every router, the first router of
      the first row has no route to the controller at its end. */
  lemma LongRowUnroutable(f: Fabric)
    requires f.Valid() && f.net.cols > INFINITE_LATENCY && |f.nodes| >= f.Routers()
    ensures f.net.cols - 1 < f.Routers() && NoRoute(f, f.net.cols - 1, 0)
  {
    var rows, cols := f.net.rows, f.net.cols;
    IdCoordinates(rows, cols, 0, 0);
    IdCoordinates(rows, cols, 0, cols - 1);
    EarlyControllerAtOwnRouter(f, cols - 1);
    NoRouteFromAfar(f, cols - 1, 0);
  }

  /** Direction d may be taken at router r towards q: it is productive and no productive direction is lighter. */
  predicate Allowed(w: Weights, cols: nat, r: nat, q: nat, d: Dir)
    requires cols > 0
  {
    Productive(cols, r, q, d) && forall d': Dir | Productive(cols, r, q, d') :: w.Of(d) <= w.Of(d')
  }

  /** The routing unit of router r may send a packet for the i-th controller to router b. */
  ghost predicate Takes(f: Fabric, i: nat, r: nat, b: nat)
    requires f.Valid() && i < |f.nodes|
  {
    Chosen(f.net, f.w, f.dist, f.Switch(r), f.Switch(b), f.nodes[i].machine)
  }

  lemma ProductiveNeighbour(rows: nat, cols: nat, r: nat, q: nat, d: Dir) returns (b: nat)
    requires cols > 0 && r < rows * cols && q < rows * cols && Productive(cols, r, q, d)
    ensures IsHop(rows, cols, r, b, d)
  {
    CoordinatesId(rows, cols, r);
    CoordinatesId(rows, cols, q);
    var row, col := Row(cols, r), Col(cols, r);
    match d
    case East => IdCoordinates(rows, cols, row, col + 1); b := Id(cols, row, col + 1);
    case West => IdCoordinates(rows, cols, row, col - 1); b := Id(cols, row, col - 1);
    case North => IdCoordinates(rows, cols, row + 1, col); b := Id(cols, row + 1, col);
    case South => IdCoordinates(rows, cols, row - 1, col); b := Id(cols, row - 1, col);
  }

  lemma TakesIsAllowed(f: Fabric, i: nat, r: nat, b: nat)
    requires f.Valid() && i < |f.nodes| && r < f.Routers() && Takes(f, i, r, b)
    ensures f.Cost(i, r) <= INFINITE_LATENCY && r != f.Home(i)
    ensures exists d :: IsHop(f.net.rows, f.net.cols, r, b, d) && Allowed(f.style.weights, f.net.cols, r, f.Home(i), d)
  {
    var e := f.nodes[i].machine;
    CandidateIsUseful(f, i, r, f.Switch(b));
    var b', d :| IsMeshHop(f, r, b', d, f.Switch(r), f.Switch(b)) && Productive(f.net.cols, r, f.Home(i), d);
    EntryHop(f, r, b, d);
    HomeInMesh(f, i);
    forall d': Dir | Productive(f.net.cols, r, f.Home(i), d') ensures f.style.weights.Of(d) <= f.style.weights.Of(d') {
      var c := ProductiveNeighbour(f.net.rows, f.net.cols, r, f.Home(i), d');
      assert IsMeshHop(f, r, c, d', f.Switch(r), f.Switch(c));
      UsefulIsCandidate(f, i, r, f.Switch(c));
      EntryHop(f, r, c, d');
    }
  }

  lemma AllowedIsTaken(f: Fabric, i: nat, r: nat, b: nat, d: Dir)
    requires f.Valid() && i < |f.nodes| && r < f.Routers() && f.Cost(i, r) <= INFINITE_LATENCY
    requires IsHop(f.net.rows, f.net.cols, r, b, d) && Allowed(f.style.weights, f.net.cols, r, f.Home(i), d)
    ensures Takes(f, i, r, b)
  {
    var e := f.nodes[i].machine;
    assert IsMeshHop(f, r, b, d, f.Switch(r), f.Switch(b));
    UsefulIsCandidate(f, i, r, f.Switch(b));
    EntryHop(f, r, b, d);
    forall y: nat | Candidate(f.net, f.w, f.dist, f.Switch(r), y, e)
      ensures f.w[f.Switch(r)][f.Switch(b)] <= f.w[f.Switch(r)][y]
    {
      CandidateIsUseful(f, i, r, y);
      assert r != f.Home(i);
      var b', d' :| IsMeshHop(f, r, b', d', f.Switch(r), y) && Productive(f.net.cols, r, f.Home(i), d');
      EntryHop(f, r, b', d');
    }
  }
}
