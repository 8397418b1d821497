/** From link lists to per-router routing tables: the Topology constructor, createLinks and the
    garnet routing unit. Switch numbers: machine m enters the network at m and leaves it at
    n + m, router r is 2n + r, where n is the number of external links. */
module RoutingTable {
  import opened ShortestPath
  import opened MeshTopology
  import opened Options

  /** Weight of a link that the builder leaves at its default. */
  const DEFAULT_WEIGHT: nat := 1

  /** Starting value of the minimum in the routing unit. */
  const INFINITE: nat := 10000

  type LinkMap = map<(nat, nat), nat>

  function Machines(net: Network): nat {
    |net.extLinks|
  }

  function OutSwitch(net: Network, machine: nat): nat {
    machine + Machines(net)
  }

  function RouterSwitch(net: Network, r: nat): nat {
    r + 2 * Machines(net)
  }

  /** The k-th external link, which is used in both directions. */
  ghost predicate ExtJoins(net: Network, k: nat, x: nat, y: nat)
    requires k < |net.extLinks|
  {
    var l := net.extLinks[k];
    || (x == l.node.machine && y == RouterSwitch(net, l.router))
    || (x == RouterSwitch(net, l.router) && y == OutSwitch(net, l.node.machine))
  }

  ghost predicate IntJoins(net: Network, k: nat, x: nat, y: nat)
    requires k < |net.intLinks|
  {
    x == RouterSwitch(net, net.intLinks[k].src) && y == RouterSwitch(net, net.intLinks[k].dst)
  }

  /** One of the first i external or first j internal links leads from switch x to y with weight wt. */
  ghost predicate HasLinkAmong(net: Network, i: nat, j: nat, x: nat, y: nat, wt: nat)
    requires i <= |net.extLinks| && j <= |net.intLinks|
  {
    || (wt == DEFAULT_WEIGHT && exists k :: 0 <= k < i && ExtJoins(net, k, x, y))
    || exists k :: 0 <= k < j && IntJoins(net, k, x, y) && wt == net.intLinks[k].weight
  }

  ghost predicate HasLink(net: Network, x: nat, y: nat, wt: nat) {
    HasLinkAmong(net, |net.extLinks|, |net.intLinks|, x, y, wt)
  }

  /** Weight of the last link from x to y among the first i external and the first j internal ones. */
  ghost function LinkWeight(net: Network, i: nat, j: nat, x: nat, y: nat): Option<nat>
    requires i <= |net.extLinks| && j <= |net.intLinks|
    decreases j, i
  {
    if j > 0 then
      if IntJoins(net, j - 1, x, y) then Some(net.intLinks[j - 1].weight) else LinkWeight(net, i, j - 1, x, y)
    else if i > 0 then
      if ExtJoins(net, i - 1, x, y) then Some(DEFAULT_WEIGHT) else LinkWeight(net, i - 1, 0, x, y)
    else None
  }

  lemma {:induction false} LinkWeightIsLink(net: Network, i: nat, j: nat, x: nat, y: nat, wt: nat)
    requires i <= |net.extLinks| && j <= |net.intLinks|
    ensures LinkWeight(net, i, j, x, y) == Some(wt) ==> HasLinkAmong(net, i, j, x, y, wt)
    ensures HasLinkAmong(net, i, j, x, y, wt) ==> LinkWeight(net, i, j, x, y).Some?
    decreases j, i
  {
    if j > 0 {
      LinkWeightIsLink(net, i, j - 1, x, y, wt);
    } else if i > 0 {
      LinkWeightIsLink(net, i - 1, 0, x, y, wt);
    }
  }

  function Recorded(m: LinkMap, x: nat, y: nat): Option<nat> {
    if (x, y) in m then Some(m[(x, y)]) else None
  }

  /** The map after the first i external and the first j internal links: later links replace earlier ones. */
  ghost predicate MapOf(net: Network, i: nat, j: nat, m: LinkMap)
    requires i <= |net.extLinks| && j <= |net.intLinks|
  {
    forall x: nat, y: nat :: Recorded(m, x, y) == LinkWeight(net, i, j, x, y)
  }

  lemma AddedExt(net: Network, i: nat, m: LinkMap, m': LinkMap)
    requires i < |net.extLinks| && MapOf(net, i, 0, m)
    requires var l := net.extLinks[i];
             var first := m[(l.node.machine, RouterSwitch(net, l.router)) := DEFAULT_WEIGHT];
             m' == first[(RouterSwitch(net, l.router), OutSwitch(net, l.node.machine)) := DEFAULT_WEIGHT]
    ensures MapOf(net, i + 1, 0, m')
  {
    forall x: nat, y: nat ensures Recorded(m', x, y) == LinkWeight(net, i + 1, 0, x, y) {
      assert Recorded(m, x, y) == LinkWeight(net, i, 0, x, y);
    }
  }

  lemma AddedInt(net: Network, j: nat, m: LinkMap, m': LinkMap)
    requires j < |net.intLinks| && MapOf(net, |net.extLinks|, j, m)
    requires var l := net.intLinks[j]; m' == m[(RouterSwitch(net, l.src), RouterSwitch(net, l.dst)) := l.weight]
    ensures MapOf(net, |net.extLinks|, j + 1, m')
  {
    forall x: nat, y: nat ensures Recorded(m', x, y) == LinkWeight(net, |net.extLinks|, j + 1, x, y) {
      assert Recorded(m, x, y) == LinkWeight(net, |net.extLinks|, j, x, y);
    }
  }

  /** The Topology constructor: external links both ways, then the internal links. */
  method CollectLinks(net: Network) returns (m: LinkMap)
    ensures MapOf(net, |net.extLinks|, |net.intLinks|, m)
  {
    m := map[];
    for i := 0 to |net.extLinks|
      invariant MapOf(net, i, 0, m)
    {
      var l := net.extLinks[i];
      ghost var before := m;
      m := m[(l.node.machine, RouterSwitch(net, l.router)) := DEFAULT_WEIGHT];
      m := m[(RouterSwitch(net, l.router), OutSwitch(net, l.node.machine)) := DEFAULT_WEIGHT];
      AddedExt(net, i, before, m);
    }
    for j := 0 to |net.intLinks|
      invariant MapOf(net, |net.extLinks|, j, m)
    {
      var l := net.intLinks[j];
      ghost var before := m;
      m := m[(RouterSwitch(net, l.src), RouterSwitch(net, l.dst)) := l.weight];
      AddedInt(net, j, before, m);
    }
  }

  /** The largest switch number that any link mentions, or 0. */
  method MaxSwitch(m: LinkMap) returns (top: nat)
    ensures forall x: nat, y: nat | (x, y) in m :: x <= top && y <= top
    ensures top == 0 || exists x: nat, y: nat :: (x, y) in m && (x == top || y == top)
  {
    top := 0;
    var left: set<(nat, nat)> := m.Keys;
    while left != {}
      invariant left <= m.Keys
      invariant forall x: nat, y: nat | (x, y) in m && (x, y) !in left :: x <= top && y <= top
      invariant top == 0 || exists x: nat, y: nat :: (x, y) in m && (x == top || y == top)
      decreases left
    {
      var key: (nat, nat) :| key in left;
      assert (key.0, key.1) in m;
      if key.0 > top { top := key.0; }
      if key.1 > top { top := key.1; }
      left := left - {key};
    }
  }

  function Entry(m: LinkMap, x: nat, y: nat): nat {
    if (x, y) in m then m[(x, y)] else if x == y then 0 else INFINITE_LATENCY
  }

  /** The entry that the last link from x to y gives, or the lack of one. */
  ghost function LastEntry(net: Network, x: nat, y: nat): nat {
    match LinkWeight(net, |net.extLinks|, |net.intLinks|, x, y)
    case Some(wt) => wt
    case None => if x == y then 0 else INFINITE_LATENCY
  }

  /** w is the weight matrix of the network over `size` switches. */
  ghost predicate WeightsOf(net: Network, size: nat, w: Matrix) {
    && |w| == size && Square(w)
    && (forall x, y | 0 <= x < size && 0 <= y < size :: EntryOf(net, w, x, y))
  }

  ghost predicate EntryOf(net: Network, w: Matrix, x: nat, y: nat)
    requires Square(w) && x < |w| && y < |w|
  {
    || HasLink(net, x, y, w[x][y])
    || ((forall wt: nat :: !HasLink(net, x, y, wt)) && w[x][y] == if x == y then 0 else INFINITE_LATENCY)
  }

  /** First half of createLinks: the weight matrix. */
  method WeightMatrix(net: Network) returns (w: Matrix)
    ensures WeightsOf(net, |w|, w)
    ensures forall x, y | 0 <= x < |w| && 0 <= y < |w| :: w[x][y] == LastEntry(net, x, y)
    ensures forall x: nat, y: nat, wt: nat | HasLink(net, x, y, wt) :: x < |w| && y < |w|
    ensures |w| > 0
    ensures |w| == 1 || exists x: nat, y: nat, wt: nat :: HasLink(net, x, y, wt) && (x == |w| - 1 || y == |w| - 1)
  {
    var m := CollectLinks(net);
    var top := MaxSwitch(m);
    w := seq(top + 1, x requires 0 <= x => seq(top + 1, y requires 0 <= y => Entry(m, x, y)));
    forall x, y | 0 <= x < |w| && 0 <= y < |w| ensures w[x][y] == LastEntry(net, x, y) && EntryOf(net, w, x, y) {
      assert w[x][y] == Entry(m, x, y);
      assert Recorded(m, x, y) == LinkWeight(net, |net.extLinks|, |net.intLinks|, x, y);
      LastEntryIsLink(net, w, x, y);
    }
    forall x: nat, y: nat, wt: nat | HasLink(net, x, y, wt) ensures (x, y) in m {
      LinkWeightIsLink(net, |net.extLinks|, |net.intLinks|, x, y, wt);
      assert Recorded(m, x, y).Some?;
    }
    if top != 0 {
      var x, y :| (x, y) in m && (x == top || y == top);
      assert Recorded(m, x, y) == Some(m[(x, y)]);
      LinkWeightIsLink(net, |net.extLinks|, |net.intLinks|, x, y, m[(x, y)]);
      assert HasLink(net, x, y, m[(x, y)]);
    }
  }

  lemma LastEntryIsLink(net: Network, w: Matrix, x: nat, y: nat)
    requires Square(w) && x < |w| && y < |w| && w[x][y] == LastEntry(net, x, y)
    ensures EntryOf(net, w, x, y)
  {
    forall wt: nat ensures HasLink(net, x, y, wt) ==> HasLink(net, x, y, w[x][y]) {
      LinkWeightIsLink(net, |net.extLinks|, |net.intLinks|, x, y, wt);
      LinkWeightIsLink(net, |net.extLinks|, |net.intLinks|, x, y, w[x][y]);
    }
    LinkWeightIsLink(net, |net.extLinks|, |net.intLinks|, x, y, w[x][y]);
  }

  ghost predicate SameSize(w: Matrix, dist: Matrix) {
    Square(w) && Square(dist) && |w| == |dist|
  }

  /** Switch y is entered as a way from switch x to machine e: the link x-y begins a walk of least
      weight to the place where e leaves the network. */
  ghost predicate Candidate(net: Network, w: Matrix, dist: Matrix, x: nat, y: nat, e: nat)
    requires SameSize(w, dist)
  {
    && x < |w| && y < |w| && OutSwitch(net, e) < |w|
    && 0 < w[x][y] != INFINITE_LATENCY
    && w[x][y] + dist[y][OutSwitch(net, e)] == dist[x][OutSwitch(net, e)]
  }

  /** What the routing unit may pick: a candidate of least link weight. */
  ghost predicate Chosen(net: Network, w: Matrix, dist: Matrix, x: nat, y: nat, e: nat)
    requires SameSize(w, dist)
  {
    && Candidate(net, w, dist, x, y, e)
    && w[x][y] <= INFINITE
    && forall y': nat | Candidate(net, w, dist, x, y', e) :: w[x][y] <= w[x][y']
  }

  /** An output port with the machines whose packets may use it. */
  datatype Port = Port(next: nat, weight: nat, machines: set<nat>)

  /** There is a real link from x to y. */
  predicate Linked(w: Matrix, x: nat, y: nat)
    requires Square(w) && x < |w| && y < |w|
  {
    0 < w[x][y] != INFINITE_LATENCY
  }

  /** The output ports of switch x: one for every real link, in order of the far switch, each listing
      exactly the machines for which it is a candidate. */
  ghost predicate TableOf(net: Network, w: Matrix, dist: Matrix, x: nat, ports: seq<Port>)
    requires SameSize(w, dist) && x < |w|
  {
    && (forall k, m | 0 <= k < m < |ports| :: ports[k].next < ports[m].next)
    && (forall k | 0 <= k < |ports| ::
          && ports[k].next < |w| && Linked(w, x, ports[k].next) && ports[k].weight == w[x][ports[k].next])
    && (forall y: nat | y < |w| && Linked(w, x, y) :: HasPort(ports, y))
    && (forall k, e | 0 <= k < |ports| && 0 <= e < Machines(net) ::
          e in ports[k].machines <==> Candidate(net, w, dist, x, ports[k].next, e))
  }

  ghost predicate HasPort(ports: seq<Port>, y: nat) {
    exists k :: 0 <= k < |ports| && ports[k].next == y
  }

  /** Second half of createLinks for switch x: one port per link, in order of the far switch. */
  method PortsOf(net: Network, w: Matrix, dist: Matrix, x: nat) returns (ports: seq<Port>)
    requires SameSize(w, dist) && x < |w| && 2 * Machines(net) <= |w|
    ensures TableOf(net, w, dist, x, ports)
  {
    ports := [];
    for y := 0 to |w|
      invariant forall k, m | 0 <= k < m < |ports| :: ports[k].next < ports[m].next
      invariant forall k | 0 <= k < |ports| ::
                  ports[k].next < y && Linked(w, x, ports[k].next) && ports[k].weight == w[x][ports[k].next]
      invariant forall y': nat | y' < y && Linked(w, x, y') :: HasPort(ports, y')
      invariant forall k, e | 0 <= k < |ports| && 0 <= e < Machines(net) ::
                  e in ports[k].machines <==> Candidate(net, w, dist, x, ports[k].next, e)
    {
      var weight := w[x][y];
      ghost var before := ports;
      if Linked(w, x, y) {
        var machines := set e | 0 <= e < Machines(net) &&
             weight + dist[y][OutSwitch(net, e)] == dist[x][OutSwitch(net, e)];
        ports := ports + [Port(y, weight, machines)];
        assert ports[|before|].next == y;
      }
      forall y': nat | y' < y + 1 && Linked(w, x, y') ensures HasPort(ports, y') {
        if y' < y {
          assert HasPort(before, y');
          var k :| 0 <= k < |before| && before[k].next == y';
          assert ports[k].next == y';
        }
      }
    }
  }

  /** The port leads to one of the destinations. */
  predicate Serves(p: Port, dests: set<nat>) {
    p.machines * dests != {}
  }

  /** lookupRoutingTable: the ports of least weight that lead to a destination; the first of them on an
      ordered virtual network, a random one otherwise. */
  method LookupRoutingTable(ports: seq<Port>, dests: set<nat>, ordered: bool, random: nat)
    returns (outport: Option<nat>, candidates: seq<nat>)
    ensures forall k :: k in candidates <==>
              && 0 <= k < |ports| && Serves(ports[k], dests) && ports[k].weight <= INFINITE
              && forall m | 0 <= m < |ports| && Serves(ports[m], dests) :: ports[k].weight <= ports[m].weight
    ensures forall a, b | 0 <= a < b < |candidates| :: candidates[a] < candidates[b]
    ensures outport.None? <==> forall k | 0 <= k < |ports| && Serves(ports[k], dests) :: ports[k].weight > INFINITE
    ensures outport.Some? ==>
              |candidates| > 0 && outport.value == candidates[if ordered then 0 else random % |candidates|]
  {
    var minWeight := INFINITE;
    ghost var best: int := -1;
    for link := 0 to |ports|
      invariant minWeight <= INFINITE
      invariant forall k | 0 <= k < link && Serves(ports[k], dests) ::
                minWeight <= ports[k].weight || ports[k].weight > INFINITE
      invariant best == -1 ==> minWeight == INFINITE && forall k | 0 <= k < link && Serves(ports[k], dests) ::
                ports[k].weight > INFINITE
      invariant best != -1 ==> 0 <= best < link && Serves(ports[best], dests) && ports[best].weight == minWeight
    {
      if Serves(ports[link], dests) {
        if ports[link].weight <= minWeight {
          minWeight := ports[link].weight;
          best := link;
        }
      }
    }
    candidates := [];
    for link := 0 to |ports|
      invariant forall k :: k in candidates <==>
                0 <= k < link && Serves(ports[k], dests) && ports[k].weight == minWeight
      invariant forall a, b | 0 <= a < b < |candidates| :: candidates[a] < candidates[b]
      invariant forall a | 0 <= a < |candidates| :: candidates[a] < link
    {
      if Serves(ports[link], dests) && ports[link].weight == minWeight {
        candidates := candidates + [link];
      }
    }
    if best != -1 {
      assert best in candidates;
    }
    if |candidates| == 0 {
      return None, candidates;
    }
    assert candidates[0] in candidates;
    return Some(candidates[if ordered then 0 else random % |candidates|]), candidates;
  }
}
