/** Putting the pieces together: from the command-line parameters of a mesh to its routing tables. */
module MeshFabric {
  import opened MeshGeometry
  import opened ShortestPath
  import opened MeshTopology
  import opened RoutingTable
  import opened MeshRouting
  import opened ChannelOrder
  import opened Options

  /** Controllers carry distinct machine numbers below their count. */
  ghost predicate Numbered(nodes: seq<Controller>) {
    && (forall i | 0 <= i < |nodes| :: nodes[i].machine < |nodes|)
    && (forall i, j | 0 <= i < j < |nodes| :: nodes[i].machine != nodes[j].machine)
  }

  lemma LinkWithinSize(style: Style, nodes: seq<Controller>, latency: int, net: Network, x: nat, y: nat, wt: nat)
    requires IsMesh(style, nodes, net.rows * net.cols, net.rows, latency, net) && Numbered(nodes)
    requires HasLink(net, x, y, wt)
    ensures x < 2 * |nodes| + net.rows * net.cols && y < 2 * |nodes| + net.rows * net.cols
  {
    if exists k: nat :: k < |net.extLinks| && ExtJoins(net, k, x, y) {
      var k: nat :| k < |net.extLinks| && ExtJoins(net, k, x, y);
      assert net.extLinks[k] == ExtLink(k, nodes[k], RouterOf(|nodes|, net.rows * net.cols, k), latency);
    } else {
      var k :| 0 <= k < |net.intLinks| && IntJoins(net, k, x, y);
      assert ProperLink(net.rows, net.cols, style, latency, net.intLinks[k]);
    }
  }

  lemma LastRouterLinked(style: Style, nodes: seq<Controller>, latency: int, net: Network)
    returns (x: nat, y: nat, wt: nat)
    requires IsMesh(style, nodes, net.rows * net.cols, net.rows, latency, net) && |nodes| > 0
    ensures HasLink(net, x, y, wt) && y == 2 * |nodes| + net.rows * net.cols - 1
  {
    var rows, cols, top := net.rows, net.cols, net.rows * net.cols - 1;
    if top == 0 {
      assert net.extLinks[0] == ExtLink(0, nodes[0], RouterOf(|nodes|, 1, 0), latency);
      x, y, wt := nodes[0].machine, RouterSwitch(net, 0), DEFAULT_WEIGHT;
      assert ExtJoins(net, 0, x, y);
    } else {
      var a, d := ProductiveHopExists(rows, cols, top, 0);
      var b := ReverseHop(rows, cols, top, a, d);
      assert Neighbours(rows, cols, a, top);
      assert Covers(net.intLinks, a, top);
      var k :| 0 <= k < |net.intLinks| && Joins(net.intLinks[k], a, top);
      x, y, wt := RouterSwitch(net, a), RouterSwitch(net, top), net.intLinks[k].weight;
      assert IntJoins(net, k, x, y);
    }
  }

  lemma ReverseHop(rows: nat, cols: nat, a: nat, b: nat, d: Dir) returns (d': Dir)
    requires IsHop(rows, cols, a, b, d)
    ensures IsHop(rows, cols, b, a, d') && d' == Opposite(d)
  {
    d' := Opposite(d);
  }

  /** The matrix has one row for every switch of the mesh. */
  lemma MatrixSize(style: Style, nodes: seq<Controller>, latency: int, net: Network, size: nat)
    requires IsMesh(style, nodes, net.rows * net.cols, net.rows, latency, net) && Numbered(nodes) && |nodes| > 0
    requires size > 0 && forall x: nat, y: nat, wt: nat | HasLink(net, x, y, wt) :: x < size && y < size
    requires size == 1 || exists x: nat, y: nat, wt: nat :: HasLink(net, x, y, wt) && (x == size - 1 || y == size - 1)
    ensures size == 2 * |nodes| + net.rows * net.cols
  {
    var x, y, wt := LastRouterLinked(style, nodes, latency, net);
    if size != 1 {
      var x', y', wt' :| HasLink(net, x', y', wt') && (x' == size - 1 || y' == size - 1);
      LinkWithinSize(style, nodes, latency, net, x', y', wt');
    }
  }

  /** Weights that the analysis takes for those of links. */
  ghost predicate Routable(w: Weights) {
    w.Positive() && forall d: Dir :: w.Of(d) < INFINITE_LATENCY
  }

  /** Runs the mesh builder, the weight matrix and the all-pairs analysis one after the other. The
      network needs at least two controllers. */
  method BuildFabric(style: Style, nodes: seq<Controller>, numRouters: int, numRows: int, latency: int)
    returns (f: Option<Fabric>)
    requires Routable(style.weights) && Numbered(nodes)
    ensures f.Some? <==>
              && 0 < numRows <= numRouters && numRouters % numRows == 0
              && RemainderIsDma(nodes, numRouters) && |nodes| > 1
    ensures f.Some? ==>
              && f.value.Valid() && f.value.style == style && f.value.nodes == nodes
              && f.value.Routers() == numRouters && f.value.net.rows == numRows
    ensures f.Some? && (style == XY_STYLE || style == WESTFIRST_STYLE) ==> Safe(f.value)
  {
    var r := MakeTopology(style, nodes, numRouters, numRows, latency);
    if r.Err? || |nodes| <= 1 {
      return None;
    }
    var fabric := Analyse(style, nodes, latency, r.network);
    f := Some(fabric);
  }

  /** The analysis of a mesh: its weight matrix and the least weights. */
  method Analyse(style: Style, nodes: seq<Controller>, latency: int, net: Network) returns (f: Fabric)
    requires Routable(style.weights) && Numbered(nodes) && |nodes| > 1 && net.rows > 0
    requires IsMesh(style, nodes, net.rows * net.cols, net.rows, latency, net)
    ensures f.Valid() && f.style == style && f.nodes == nodes && f.net == net
  {
    var w := WeightMatrix(net);
    MatrixSize(style, nodes, latency, net, |w|);
    DiagonalZero(style, nodes, latency, net, w);
    var dist := ExtendShortestPath(w);
    f := Fabric(style, nodes, latency, net, w, dist);
  }

  /** A mesh has no link from a switch to itself. */
  lemma DiagonalZero(style: Style, nodes: seq<Controller>, latency: int, net: Network, w: Matrix)
    requires IsMesh(style, nodes, net.rows * net.cols, net.rows, latency, net) && Numbered(nodes)
    requires WeightsOf(net, |w|, w)
    ensures ZeroDiagonal(w)
  {
    forall x | 0 <= x < |w| ensures w[x][x] == 0 {
      assert EntryOf(net, w, x, x);
      forall k: nat | k < |net.extLinks| ensures !ExtJoins(net, k, x, x) {
        assert net.extLinks[k] == ExtLink(k, nodes[k], RouterOf(|nodes|, net.rows * net.cols, k), latency);
      }
      forall k: nat | k < |net.intLinks| ensures !IntJoins(net, k, x, x) {
        assert ProperLink(net.rows, net.cols, style, latency, net.intLinks[k]);
      }
    }
  }

  /** outportCompute of router r: no route is fatal and happens exactly beyond the range of the tables;
      otherwise the packet goes to a least-weight candidate, on any virtual network and for any random number. */
  method OutportCompute(f: Fabric, i: nat, r: nat, ordered: bool, random: nat) returns (y: Option<nat>)
    requires f.Valid() && i < |f.nodes| && r < f.Routers()
    ensures y.None? <==> f.Cost(i, r) > INFINITE_LATENCY
    ensures y.Some? ==> Chosen(f.net, f.w, f.dist, f.Switch(r), y.value, f.nodes[i].machine)
    ensures y.Some? && r == f.Home(i) ==> y.value == f.Target(i)
    ensures y.Some? && r != f.Home(i) ==> y.value >= f.Switch(0) && Takes(f, i, r, y.value - f.Switch(0))
  {
    var e := f.nodes[i].machine;
    var ports := PortsOf(f.net, f.w, f.dist, f.Switch(r));
    var outport := LookupOne(ports, e, ordered, random);
    PortsLight(f, i, r, ports);
    if outport.None? {
      NoPortNoRoute(f, i, r, ports);
      return None;
    }
    LightestPortChosen(f, i, r, ports, outport.value);
    return Some(ports[outport.value].next);
  }

  /** The lookup of a single destination. */
  method LookupOne(ports: seq<Port>, e: nat, ordered: bool, random: nat) returns (outport: Option<nat>)
    ensures outport.None? <==> forall k | 0 <= k < |ports| && e in ports[k].machines :: ports[k].weight > INFINITE
    ensures outport.Some? ==>
              && outport.value < |ports|
              && e in ports[outport.value].machines && ports[outport.value].weight <= INFINITE
              && forall m | 0 <= m < |ports| && e in ports[m].machines :: ports[outport.value].weight <= ports[m].weight
  {
    var candidates;
    outport, candidates := LookupRoutingTable(ports, {e}, ordered, random);
    forall k | 0 <= k < |ports| ensures Serves(ports[k], {e}) <==> e in ports[k].machines {
      ServesOne(ports[k], e);
    }
    if outport.Some? {
      assert outport.value in candidates;
    }
  }

  lemma ServesOne(p: Port, e: nat)
    ensures Serves(p, {e}) <==> e in p.machines
  {
    if e in p.machines {
      assert e in p.machines * {e};
    }
  }

  lemma PortsLight(f: Fabric, i: nat, r: nat, ports: seq<Port>)
    requires f.Valid() && i < |f.nodes| && r < f.Routers() && TableOf(f.net, f.w, f.dist, f.Switch(r), ports)
    ensures forall k | 0 <= k < |ports| && f.nodes[i].machine in ports[k].machines :: ports[k].weight < INFINITE
  {
    var x := f.Switch(r);
    forall k | 0 <= k < |ports| && f.nodes[i].machine in ports[k].machines ensures ports[k].weight < INFINITE {
      assert Candidate(f.net, f.w, f.dist, x, ports[k].next, f.nodes[i].machine);
      PositiveEntryIsLink(f, x, ports[k].next);
      var kind, k', a, b, d := ClassifyLink(f, x, ports[k].next, f.w[x][ports[k].next]);
    }
  }

  lemma NoPortNoRoute(f: Fabric, i: nat, r: nat, ports: seq<Port>)
    requires f.Valid() && i < |f.nodes| && r < f.Routers() && TableOf(f.net, f.w, f.dist, f.Switch(r), ports)
    requires forall k | 0 <= k < |ports| :: f.nodes[i].machine !in ports[k].machines
    ensures f.Cost(i, r) > INFINITE_LATENCY
  {
    RouteExistsExactlyWithinRange(f, i, r);
    forall y: nat ensures !Candidate(f.net, f.w, f.dist, f.Switch(r), y, f.nodes[i].machine) {
      if y < |f.w| && Linked(f.w, f.Switch(r), y) {
        assert HasPort(ports, y);
      }
    }
  }

  lemma LightestPortChosen(f: Fabric, i: nat, r: nat, ports: seq<Port>, k: nat)
    requires f.Valid() && i < |f.nodes| && r < f.Routers() && TableOf(f.net, f.w, f.dist, f.Switch(r), ports)
    requires k < |ports| && f.nodes[i].machine in ports[k].machines && ports[k].weight <= INFINITE
    requires forall m | 0 <= m < |ports| && f.nodes[i].machine in ports[m].machines ::
              ports[k].weight <= ports[m].weight
    ensures Chosen(f.net, f.w, f.dist, f.Switch(r), ports[k].next, f.nodes[i].machine)
    ensures f.Cost(i, r) <= INFINITE_LATENCY
    ensures r == f.Home(i) ==> ports[k].next == f.Target(i)
    ensures r != f.Home(i) ==> ports[k].next >= f.Switch(0) && Takes(f, i, r, ports[k].next - f.Switch(0))
  {
    var e, x, y := f.nodes[i].machine, f.Switch(r), ports[k].next;
    assert Candidate(f.net, f.w, f.dist, x, y, e);
    forall y': nat | Candidate(f.net, f.w, f.dist, x, y', e) ensures f.w[x][y] <= f.w[x][y'] {
      assert Linked(f.w, x, y') && HasPort(ports, y');
      var m :| 0 <= m < |ports| && ports[m].next == y';
      assert e in ports[m].machines;
    }
    CandidateIsUseful(f, i, r, y);
    NothingProductiveAtHome(f, i);
  }

  lemma NothingProductiveAtHome(f: Fabric, i: nat)
    requires f.Valid() && i < |f.nodes|
    ensures forall d: Dir :: !Productive(f.net.cols, f.Home(i), f.Home(i), d)
  {
  }
}
