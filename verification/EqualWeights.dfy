/** Why the link weights matter: with one weight for all directions the mesh deadlocks. */
module EqualWeights {
  import opened MeshGeometry
  import opened MeshTopology
  import opened MeshRouting
  import opened MeshDeadlock
  import opened ChannelOrder
  import opened NetworkRun

  /** With equal weights a packet may go around any corner to the router behind it. */
  lemma TurnTaken(f: Fabric, a: nat, b: nat, c: nat, d: Dir, d': Dir)
    requires f.Valid() && Prone(f) && IsHop(f.net.rows, f.net.cols, a, b, d) && IsHop(f.net.rows, f.net.cols, b, c, d')
    requires Horizontal(d) != Horizontal(d')
    ensures f.Home(c) == c && Takes(f, c, a, b) && Takes(f, c, b, c)
  {
    var rows, cols, w := f.net.rows, f.net.cols, f.style.weights;
    EarlyControllerAtOwnRouter(f, c);
    HopChangesWeight(rows, cols, w, b, c, c, d');
    HopChangesWeight(rows, cols, w, a, b, c, d);
    assert GridWeight(cols, w, c, c) == 0;
    AllowedIsTaken(f, c, a, b, d);
    AllowedIsTaken(f, c, b, c, d');
  }

  /** One hop away from its router a packet has no choice. */
  lemma LastHopForced(f: Fabric, b: nat, c: nat, d: Dir, x: nat)
    requires f.Valid() && c < |f.nodes| && f.Home(c) == c && IsHop(f.net.rows, f.net.cols, b, c, d)
    requires Takes(f, c, b, x)
    ensures x == c
  {
    TakesIsAllowed(f, c, b, x);
    var d' :| IsHop(f.net.rows, f.net.cols, b, x, d') && Allowed(f.style.weights, f.net.cols, b, f.Home(c), d');
    assert d' == d;
    HopUnique(f.net.rows, f.net.cols, b, c, x, d);
  }

  // ---- Four channels around a square ----

  /** Four routers in a circle and the links from each to the next. */
  datatype Ring = Ring(routers: seq<nat>, links: seq<nat>)

  function Next(j: nat): nat {
    if j == 3 then 0 else j + 1
  }

  /** The router across from the start of the j-th link. */
  function Across(ring: Ring, j: nat): nat
    requires |ring.routers| == 4 && j < 4
  {
    ring.routers[Next(Next(j))]
  }

  /** Link k leads from a to b, and a packet for router c may use it but then has to go on to c. */
  ghost predicate Corner(f: Fabric, k: nat, a: nat, b: nat, c: nat)
    requires f.Valid()
  {
    && k < |f.net.intLinks| && Src(f, k) == a && Dst(f, k) == b
    && c < |f.nodes| && f.Home(c) == c && Uses(f, c, k)
    && (forall x: nat | Takes(f, c, b, x) :: x == c)
  }

  ghost predicate LinkOfRing(f: Fabric, ring: Ring, j: nat)
    requires f.Valid() && |ring.routers| == 4 == |ring.links| && j < 4
  {
    Corner(f, ring.links[j], ring.routers[j], ring.routers[Next(j)], Across(ring, j))
  }

  ghost predicate IsRing(f: Fabric, ring: Ring) {
    && f.Valid() && |ring.routers| == 4 == |ring.links|
    && (forall j, m | 0 <= j < m < 4 :: ring.routers[j] != ring.routers[m])
    && (forall j | 0 <= j < 4 :: LinkOfRing(f, ring, j))
  }

  /** The four routers in the corner of the mesh, once around. */
  lemma SquareHops(rows: nat, cols: nat) returns (sw: nat, se: nat, ne: nat, nw: nat)
    requires rows >= 2 && cols >= 2
    ensures IsHop(rows, cols, sw, se, East) && IsHop(rows, cols, se, ne, North)
    ensures IsHop(rows, cols, ne, nw, West) && IsHop(rows, cols, nw, sw, South)
  {
    sw, se, ne, nw := Id(cols, 0, 0), Id(cols, 0, 1), Id(cols, 1, 1), Id(cols, 1, 0);
    IdCoordinates(rows, cols, 0, 0);
    IdCoordinates(rows, cols, 0, 1);
    IdCoordinates(rows, cols, 1, 1);
    IdCoordinates(rows, cols, 1, 0);
  }

  lemma CornerLink(f: Fabric, a: nat, b: nat, c: nat, d: Dir, d': Dir) returns (k: nat)
    requires f.Valid() && Prone(f) && IsHop(f.net.rows, f.net.cols, a, b, d) && IsHop(f.net.rows, f.net.cols, b, c, d')
    requires Horizontal(d) != Horizontal(d')
    ensures Corner(f, k, a, b, c)
  {
    TurnTaken(f, a, b, c, d, d');
    k := LinkForHop(f, a, b, d);
    forall x: nat | Takes(f, c, b, x) ensures x == c {
      LastHopForced(f, b, c, d', x);
    }
  }

  lemma RingExists(f: Fabric) returns (ring: Ring)
    requires f.Valid() && Prone(f)
    ensures IsRing(f, ring)
  {
    var sw, se, ne, nw := SquareHops(f.net.rows, f.net.cols);
    var k0 := CornerLink(f, sw, se, ne, East, North);
    var k1 := CornerLink(f, se, ne, nw, North, West);
    var k2 := CornerLink(f, ne, nw, sw, West, South);
    var k3 := CornerLink(f, nw, sw, se, South, East);
    ring := FourCorners(f, sw, se, ne, nw, k0, k1, k2, k3);
  }

  lemma FourCorners(f: Fabric, a: nat, b: nat, c: nat, d: nat, k0: nat, k1: nat, k2: nat, k3: nat) returns (ring: Ring)
    requires f.Valid() && a != b && a != c && a != d && b != c && b != d && c != d
    requires Corner(f, k0, a, b, c) && Corner(f, k1, b, c, d) && Corner(f, k2, c, d, a) && Corner(f, k3, d, a, b)
    ensures IsRing(f, ring)
  {
    ring := Ring([a, b, c, d], [k0, k1, k2, k3]);
    assert LinkOfRing(f, ring, 0) && LinkOfRing(f, ring, 1) && LinkOfRing(f, ring, 2) && LinkOfRing(f, ring, 3);
  }

  // ---- Nothing moves once they are full ----

  function Repeat(i: nat, n: nat): (q: seq<nat>)
    ensures |q| == n && forall m | 0 <= m < n :: q[m] == i
  {
    seq(n, _ => i)
  }

  /** The first n links of the ring hold cap packets each for the router across, all other links none. */
  ghost predicate Filled(cap: nat, ring: Ring, n: nat, s: State)
    requires |ring.routers| == 4 == |ring.links| && n <= 4
  {
    && (forall j | 0 <= j < n :: ring.links[j] < |s| && s[ring.links[j]] == Repeat(Across(ring, j), cap))
    && (forall k | 0 <= k < |s| && s[k] != [] :: k in ring.links[..n])
  }

  lemma LinkUnique(f: Fabric, k: nat, m: nat)
    requires f.Valid() && k < |f.net.intLinks| && m < |f.net.intLinks|
    ensures Src(f, k) == Src(f, m) && Dst(f, k) == Dst(f, m) ==> k == m
  {
    var links := f.net.intLinks;
    if k < m {
      assert !Joins(links[m], links[k].src, links[k].dst);
    } else if m < k {
      assert !Joins(links[k], links[m].src, links[m].dst);
    }
  }

  lemma RingBlocked(f: Fabric, cap: nat, ring: Ring, s: State, j: nat, k': nat)
    requires IsRing(f, ring) && Filled(cap, ring, 4, s) && |s| == |f.net.intLinks| && cap > 0 && j < 4
    ensures !Enabled(f, cap, s, Eject(ring.links[j])) && !Enabled(f, cap, s, Advance(ring.links[j], k'))
  {
    assert LinkOfRing(f, ring, j) && LinkOfRing(f, ring, Next(j));
    var k, c := ring.links[j], Across(ring, j);
    assert s[k][0] == c && ring.routers[Next(j)] != c;
    if k' < |s| && Src(f, k') == Dst(f, k) && Uses(f, c, k') {
      LinkUnique(f, k', ring.links[Next(j)]);
      assert |s[k']| == cap;
    }
  }

  lemma NothingMoves(f: Fabric, cap: nat, ring: Ring, s: State, step: Step)
    requires IsRing(f, ring) && Filled(cap, ring, 4, s) && |s| == |f.net.intLinks| && cap > 0 && !step.Inject?
    ensures !Enabled(f, cap, s, step)
  {
    if step.k < |s| && s[step.k] != [] {
      assert step.k in ring.links[..4];
      var j :| 0 <= j < 4 && ring.links[j] == step.k;
      RingBlocked(f, cap, ring, s, j, if step.Advance? then step.k' else 0);
    }
  }

  // ---- The state is reached by injecting packets alone ----

  /** A run of the empty network that only injects packets. */
  ghost predicate Injections(f: Fabric, cap: nat, states: seq<State>, steps: seq<Step>)
    requires f.Valid()
  {
    && IsRun(f, cap, states, steps) && states[0] == EmptyState(f)
    && (forall n | 0 <= n < |steps| :: steps[n].Inject?)
  }

  lemma RunExtended(f: Fabric, cap: nat, states: seq<State>, steps: seq<Step>, step: Step)
    requires f.Valid() && Injections(f, cap, states, steps) && step.Inject?
    requires Enabled(f, cap, states[|steps|], step)
    ensures Injections(f, cap, states + [After(f, cap, states[|steps|], step)], steps + [step])
  {
    var states', steps' := states + [After(f, cap, states[|steps|], step)], steps + [step];
    forall m | 0 <= m < |steps'|
      ensures Enabled(f, cap, states'[m], steps'[m]) && states'[m + 1] == After(f, cap, states'[m], steps'[m])
    {
      if m < |steps| {
        assert states'[m] == states[m] && steps'[m] == steps[m] && states'[m + 1] == states[m + 1];
      }
    }
  }

  /** Link k filled up from n packets for controller i. */
  lemma {:induction false} FillLink(f: Fabric, cap: nat, states: seq<State>, steps: seq<Step>, k: nat, i: nat, n: nat)
    returns (states': seq<State>, steps': seq<Step>)
    requires f.Valid() && Injections(f, cap, states, steps) && Uses(f, i, k) && n <= cap
    requires states[|steps|][k] == Repeat(i, n)
    ensures Injections(f, cap, states', steps') && states'[|steps'|] == states[|steps|][k := Repeat(i, cap)]
    decreases cap - n
  {
    if n == cap {
      states', steps' := states, steps;
      assert states[|steps|][k := Repeat(i, cap)] == states[|steps|];
    } else {
      var s, step := states[|steps|], Inject(i, k);
      RunExtended(f, cap, states, steps, step);
      assert Repeat(i, n) + [i] == Repeat(i, n + 1);
      states', steps' := FillLink(f, cap, states + [After(f, cap, s, step)], steps + [step], k, i, n + 1);
    }
  }

  lemma {:induction false} FillRing(f: Fabric, cap: nat, ring: Ring, n: nat)
    returns (states: seq<State>, steps: seq<Step>)
    requires IsRing(f, ring) && n <= 4
    ensures Injections(f, cap, states, steps) && Filled(cap, ring, n, states[|steps|])
  {
    if n == 0 {
      states, steps := [EmptyState(f)], [];
    } else {
      var states0, steps0 := FillRing(f, cap, ring, n - 1);
      var s, k, c := states0[|steps0|], ring.links[n - 1], Across(ring, n - 1);
      assert LinkOfRing(f, ring, n - 1);
      LinksDiffer(f, ring);
      assert s[k] == [] == Repeat(c, 0);
      states, steps := FillLink(f, cap, states0, steps0, k, c, 0);
      FilledStep(cap, ring, n, s);
    }
  }

  lemma LinksDiffer(f: Fabric, ring: Ring)
    requires IsRing(f, ring)
    ensures forall j, m | 0 <= j < m < 4 :: ring.links[j] != ring.links[m]
  {
    forall j, m | 0 <= j < m < 4 ensures ring.links[j] != ring.links[m] {
      assert LinkOfRing(f, ring, j) && LinkOfRing(f, ring, m);
    }
  }

  lemma FilledStep(cap: nat, ring: Ring, n: nat, s: State)
    requires |ring.routers| == 4 == |ring.links| && 0 < n <= 4 && Filled(cap, ring, n - 1, s)
    requires ring.links[n - 1] < |s| && forall j, m | 0 <= j < m < 4 :: ring.links[j] != ring.links[m]
    ensures Filled(cap, ring, n, s[ring.links[n - 1] := Repeat(Across(ring, n - 1), cap)])
  {
    assert ring.links[..n] == ring.links[..n - 1] + [ring.links[n - 1]];
  }

  /** Some packet is in flight and none can move. */
  ghost predicate Stuck(f: Fabric, cap: nat, s: State)
    requires f.Valid() && |s| == |f.net.intLinks|
  {
    (exists k: nat :: Busy(s, k)) && forall step: Step | !step.Inject? :: !Enabled(f, cap, s, step)
  }

  /** A run of the empty network that ends stuck. */
  ghost predicate DeadlockingRun(f: Fabric, cap: nat, states: seq<State>, steps: seq<Step>)
    requires f.Valid()
  {
    IsRun(f, cap, states, steps) && states[0] == EmptyState(f) && Stuck(f, cap, states[|steps|])
  }

  /** On a mesh that is prone to it, for every buffer capacity, packets can be injected into the empty
      network such that none of them can ever move. */
  lemma EqualWeightsDeadlock(f: Fabric, cap: nat) returns (states: seq<State>, steps: seq<Step>)
    requires f.Valid() && Prone(f) && cap > 0
    ensures Injections(f, cap, states, steps) && DeadlockingRun(f, cap, states, steps)
  {
    var ring := RingExists(f);
    states, steps := FillRing(f, cap, ring, 4);
    var s := states[|steps|];
    assert LinkOfRing(f, ring, 0) && s[ring.links[0]] == Repeat(Across(ring, 0), cap);
    assert Busy(s, ring.links[0]);
    forall step: Step | !step.Inject? ensures !Enabled(f, cap, s, step) {
      NothingMoves(f, cap, ring, s, step);
    }
  }

  /** Exactly which meshes deadlock: for any positive weights, any size, any controllers and any capacity, a
      run from the empty network can get stuck if and only if the mesh is prone. */
  lemma DeadlocksExactlyWhenProne(f: Fabric, cap: nat)
    requires f.Valid() && cap > 0
    ensures (exists states, steps :: DeadlockingRun(f, cap, states, steps)) <==> Prone(f)
  {
    if Prone(f) {
      var states, steps := EqualWeightsDeadlock(f, cap);
    } else {
      forall states, steps | IsRun(f, cap, states, steps) && states[0] == EmptyState(f)
        ensures !Stuck(f, cap, states[|steps|])
      {
        if exists k: nat :: Busy(states[|steps|], k) {
          var step := NoRunDeadlocks(f, cap, states, steps);
        }
      }
    }
  }
}
