/** Topologies made of nested clusters. */
module ClusterTopology {
  import opened Options

  /** Bandwidths and latencies of 0 mean "not given". */
  datatype Cluster = Cluster(nodes: seq<Node>, intBW: nat, extBW: nat, intLatency: nat, extLatency: nat)

  datatype Node = Leaf(controller: nat) | Sub(cluster: Cluster)

  datatype IntLink = IntLink(linkId: nat, src: nat, dst: nat, bandwidth: Option<nat>, latency: Option<nat>)

  datatype ExtLink = ExtLink(linkId: nat, controller: nat, router: nat, bandwidth: Option<nat>, latency: Option<nat>)

  function Given(x: nat): Option<nat> {
    if x != 0 then Some(x) else None
  }

  /** A sub-cluster's external value overrides the internal value of the cluster around it. */
  function Overridden(outer: nat, inner: nat): Option<nat> {
    if inner != 0 then Some(inner) else Given(outer)
  }

  /** What makeTopology adds: so many routers, these links. */
  datatype Built = Built(routers: nat, ints: seq<IntLink>, exts: seq<ExtLink>)

  /** The effect of makeTopology when the counters stand at r, i and e. */
  function Build(c: Cluster, r: nat, i: nat, e: nat): Built
    decreases c, |c.nodes| + 1
  {
    BuildNodes(c, |c.nodes|, r, i, e)
  }

  /** The effect of the router and the first k nodes. */
  function BuildNodes(c: Cluster, k: nat, r: nat, i: nat, e: nat): Built
    requires k <= |c.nodes|
    decreases c, k
  {
    if k == 0 then Built(1, [], []) else
    var b := BuildNodes(c, k - 1, r, i, e);
    match c.nodes[k - 1]
    case Leaf(x) => WithController(c, b, x, r, e)
    case Sub(d) => WithCluster(c, d, b, Build(d, r + b.routers, i + |b.ints|, e + |b.exts|), r, i)
  }

  function WithController(c: Cluster, b: Built, x: nat, r: nat, e: nat): Built {
    b.(exts := b.exts + [ExtLink(e + |b.exts|, x, r, Given(c.intBW), Given(c.intLatency))])
  }

  function WithCluster(c: Cluster, d: Cluster, b: Built, sub: Built, r: nat, i: nat): Built {
    var id, bw, lat := i + |b.ints| + |sub.ints|, Overridden(c.intBW, d.extBW), Overridden(c.intLatency, d.extLatency);
    Built(b.routers + sub.routers,
          b.ints + sub.ints + [IntLink(id, r, r + b.routers, bw, lat), IntLink(id + 1, r + b.routers, r, bw, lat)],
          b.exts + sub.exts)
  }

  /** The network under construction together with the class-wide counters. */
  class Network {
    var numRouters: nat
    var numIntLinks: nat
    var numExtLinks: nat
    var routers: seq<nat>
    var intLinks: seq<IntLink>
    var extLinks: seq<ExtLink>

    constructor ()
      ensures numRouters == numIntLinks == numExtLinks == 0 && routers == [] && intLinks == [] && extLinks == []
    {
      numRouters, numIntLinks, numExtLinks := 0, 0, 0;
      routers, intLinks, extLinks := [], [], [];
    }

    /** The lists are the given ones followed by what b describes, and the counters say so. */
    ghost predicate Grown(rs: seq<nat>, ls: seq<IntLink>, es: seq<ExtLink>, r: nat, i: nat, e: nat, b: Built)
      reads this
    {
      && numRouters == r + b.routers && numIntLinks == i + |b.ints| && numExtLinks == e + |b.exts|
      && routers == rs + Ids(r, b.routers) && intLinks == ls + b.ints && extLinks == es + b.exts
    }

    /** Cluster.makeTopology; returns the id of the cluster's router. */
    method MakeTopology(c: Cluster) returns (router: nat)
      modifies this
      ensures router == old(numRouters)
      ensures Grown(old(routers), old(intLinks), old(extLinks), old(numRouters), old(numIntLinks), old(numExtLinks),
                    Build(c, old(numRouters), old(numIntLinks), old(numExtLinks)))
      decreases c, 1
    {
      router := numRouters;
      numRouters := numRouters + 1;
      routers := routers + [router];
      ghost var i, e := numIntLinks, numExtLinks;
      assert Ids(router, 1) == [router];
      for k := 0 to |c.nodes|
        invariant Grown(old(routers), old(intLinks), old(extLinks), router, i, e, BuildNodes(c, k, router, i, e))
      {
        match c.nodes[k]
        case Sub(d) => AddCluster(c, k, d, router, old(routers), old(intLinks), old(extLinks), i, e);
        case Leaf(x) =>
          extLinks := extLinks + [ExtLink(numExtLinks, x, router, Given(c.intBW), Given(c.intLatency))];
          numExtLinks := numExtLinks + 1;
      }
    }

    /** The branch of the loop that builds a sub-cluster and joins it to the router both ways. */
    method AddCluster(c: Cluster, k: nat, d: Cluster, router: nat,
                      ghost rs: seq<nat>, ghost ls: seq<IntLink>, ghost es: seq<ExtLink>, ghost i: nat, ghost e: nat)
      requires k < |c.nodes| && c.nodes[k] == Sub(d)
      requires Grown(rs, ls, es, router, i, e, BuildNodes(c, k, router, i, e))
      modifies this
      ensures Grown(rs, ls, es, router, i, e, BuildNodes(c, k + 1, router, i, e))
      decreases c, 0
    {
      ghost var b, start := BuildNodes(c, k, router, i, e), numRouters;
      var sub := MakeTopology(d);
      ghost var inner := Build(d, start, i + |b.ints|, e + |b.exts|);
      IdsAppend(router, b.routers, inner.routers);
      assert routers == rs + Ids(router, b.routers + inner.routers);
      assert intLinks == ls + (b.ints + inner.ints) && extLinks == es + (b.exts + inner.exts);
      var bw := if d.extBW != 0 then Some(d.extBW) else if c.intBW != 0 then Some(c.intBW) else None;
      var lat :=
        if d.extLatency != 0 then Some(d.extLatency) else if c.intLatency != 0 then Some(c.intLatency) else None;
      var linkOut := IntLink(numIntLinks, router, sub, bw, lat);
      numIntLinks := numIntLinks + 1;
      var linkIn := IntLink(numIntLinks, sub, router, bw, lat);
      numIntLinks := numIntLinks + 1;
      intLinks := intLinks + [linkOut, linkIn];
      assert intLinks == ls + (b.ints + inner.ints + [linkOut, linkIn]);
    }
  }

  /** n consecutive ids. */
  function Ids(first: nat, n: nat): (s: seq<nat>)
    ensures |s| == n && forall k | 0 <= k < n :: s[k] == first + k
  {
    seq(n, k requires k >= 0 => first + k)
  }

  lemma IdsAppend(first: nat, m: nat, n: nat)
    ensures Ids(first, m + n) == Ids(first, m) + Ids(first + m, n)
  {
  }

  // ---- Counting ----

  function Clusters(c: Cluster): nat
    decreases c, |c.nodes| + 1
  {
    1 + ClustersIn(c, |c.nodes|)
  }

  function ClustersIn(c: Cluster, k: nat): nat
    requires k <= |c.nodes|
    decreases c, k
  {
    if k == 0 then 0 else
    ClustersIn(c, k - 1) + match c.nodes[k - 1] case Leaf(_) => 0 case Sub(d) => Clusters(d)
  }

  /** Controllers of the cluster and everything below it, in order; __len__ is their number. */
  function Controllers(c: Cluster): seq<nat>
    decreases c, |c.nodes| + 1
  {
    ControllersIn(c, |c.nodes|)
  }

  function ControllersIn(c: Cluster, k: nat): seq<nat>
    requires k <= |c.nodes|
    decreases c, k
  {
    if k == 0 then [] else
    ControllersIn(c, k - 1) + match c.nodes[k - 1] case Leaf(x) => [x] case Sub(d) => Controllers(d)
  }

  /** __len__: the leaves here plus the lengths of the sub-clusters. */
  function Length(c: Cluster): nat
    decreases c, |c.nodes| + 1
  {
    Leaves(c, |c.nodes|) + SubLengths(c, |c.nodes|)
  }

  function Leaves(c: Cluster, k: nat): nat
    requires k <= |c.nodes|
    decreases c, k
  {
    if k == 0 then 0 else Leaves(c, k - 1) + if c.nodes[k - 1].Leaf? then 1 else 0
  }

  function SubLengths(c: Cluster, k: nat): nat
    requires k <= |c.nodes|
    decreases c, k
  {
    if k == 0 then 0 else
    SubLengths(c, k - 1) + match c.nodes[k - 1] case Leaf(_) => 0 case Sub(d) => Length(d)
  }

  lemma {:induction false} LengthCountsControllers(c: Cluster, k: nat)
    requires k <= |c.nodes|
    ensures Leaves(c, k) + SubLengths(c, k) == |ControllersIn(c, k)|
    decreases c, k
  {
    if k > 0 {
      LengthCountsControllers(c, k - 1);
      match c.nodes[k - 1]
      case Leaf(_) =>
      case Sub(d) => LengthCountsControllers(d, |d.nodes|);
    }
  }

  ghost predicate Consecutive(b: Built, i: nat, e: nat) {
    && (forall m | 0 <= m < |b.ints| :: b.ints[m].linkId == i + m)
    && (forall m | 0 <= m < |b.exts| :: b.exts[m].linkId == e + m)
  }

  /** One router per cluster, two internal links per sub-cluster. */
  lemma {:induction false} BuildCounts(c: Cluster, k: nat, r: nat, i: nat, e: nat)
    requires k <= |c.nodes|
    ensures var b := BuildNodes(c, k, r, i, e); b.routers == 1 + ClustersIn(c, k) && |b.ints| == 2 * ClustersIn(c, k)
    decreases c, k
  {
    if k > 0 {
      BuildCounts(c, k - 1, r, i, e);
      var b := BuildNodes(c, k - 1, r, i, e);
      match c.nodes[k - 1]
      case Leaf(_) =>
      case Sub(d) => BuildCounts(d, |d.nodes|, r + b.routers, i + |b.ints|, e + |b.exts|);
    }
  }

  /** One external link for each of the controllers, in order. */
  ghost predicate Attaches(exts: seq<ExtLink>, controllers: seq<nat>) {
    |exts| == |controllers| && forall m | 0 <= m < |exts| :: exts[m].controller == controllers[m]
  }

  lemma AttachesAppend(s: seq<ExtLink>, a: seq<nat>, t: seq<ExtLink>, b: seq<nat>)
    requires Attaches(s, a) && Attaches(t, b)
    ensures Attaches(s + t, a + b)
  {
  }

  lemma {:induction false} BuildAttaches(c: Cluster, k: nat, r: nat, i: nat, e: nat)
    requires k <= |c.nodes|
    ensures Attaches(BuildNodes(c, k, r, i, e).exts, ControllersIn(c, k))
    decreases c, k
  {
    if k > 0 {
      BuildAttaches(c, k - 1, r, i, e);
      var b := BuildNodes(c, k - 1, r, i, e);
      match c.nodes[k - 1]
      case Leaf(x) =>
        AttachesAppend(b.exts, ControllersIn(c, k - 1),
                       [ExtLink(e + |b.exts|, x, r, Given(c.intBW), Given(c.intLatency))], [x]);
      case Sub(d) =>
        BuildAttaches(d, |d.nodes|, r + b.routers, i + |b.ints|, e + |b.exts|);
        AttachesAppend(b.exts, ControllersIn(c, k - 1),
                       Build(d, r + b.routers, i + |b.ints|, e + |b.exts|).exts, Controllers(d));
    }
  }

  /** The ids of each kind of link follow each other without gaps. */
  lemma {:induction false} BuildNumbers(c: Cluster, k: nat, r: nat, i: nat, e: nat)
    requires k <= |c.nodes|
    ensures Consecutive(BuildNodes(c, k, r, i, e), i, e)
    decreases c, k
  {
    if k > 0 {
      BuildNumbers(c, k - 1, r, i, e);
      var b := BuildNodes(c, k - 1, r, i, e);
      match c.nodes[k - 1]
      case Leaf(x) => ControllerNumbers(c, b, x, r, i, e);
      case Sub(d) =>
        BuildNumbers(d, |d.nodes|, r + b.routers, i + |b.ints|, e + |b.exts|);
        JoinedNumbers(c, d, b, Build(d, r + b.routers, i + |b.ints|, e + |b.exts|), r, i, e);
    }
  }

  lemma ControllerNumbers(c: Cluster, b: Built, x: nat, r: nat, i: nat, e: nat)
    requires Consecutive(b, i, e)
    ensures Consecutive(WithController(c, b, x, r, e), i, e)
  {
  }

  lemma JoinedNumbers(c: Cluster, d: Cluster, b: Built, sub: Built, r: nat, i: nat, e: nat)
    requires Consecutive(b, i, e) && Consecutive(sub, i + |b.ints|, e + |b.exts|)
    ensures Consecutive(WithCluster(c, d, b, sub, r, i), i, e)
  {
  }

  // ---- Where the links are ----

  /** What a link has: the value given, or none for the default. */
  predicate Has(value: Option<nat>, given: nat) {
    if given == 0 then value == None else value == Some(given)
  }

  /** The external value of the sub-cluster comes first, then the internal value of the cluster around it. */
  predicate HasInner(value: Option<nat>, inner: nat, outer: nat) {
    Has(value, if inner != 0 then inner else outer)
  }

  /** Controller x.controller is listed in the cluster whose router is x.router. Routers are numbered in order
      of construction: a cluster comes before its sub-clusters, and those follow each other. */
  ghost predicate HangsIn(c: Cluster, r: nat, x: ExtLink)
    decreases c, 1
  {
    exists k :: 0 <= k < |c.nodes| && HangsAt(c, k, r, x)
  }

  ghost predicate HangsAt(c: Cluster, k: nat, r: nat, x: ExtLink)
    requires k < |c.nodes|
    decreases c, 0
  {
    match c.nodes[k]
    case Leaf(y) => x.controller == y && x.router == r && Has(x.bandwidth, c.intBW) && Has(x.latency, c.intLatency)
    case Sub(d) => HangsIn(d, r + 1 + ClustersIn(c, k), x)
  }

  /** The link joins the routers of a cluster and of one of its sub-clusters. */
  ghost predicate JoinsIn(c: Cluster, r: nat, l: IntLink)
    decreases c, 1
  {
    exists k :: 0 <= k < |c.nodes| && JoinsAt(c, k, r, l)
  }

  ghost predicate JoinsAt(c: Cluster, k: nat, r: nat, l: IntLink)
    requires k < |c.nodes|
    decreases c, 0
  {
    match c.nodes[k]
    case Leaf(_) => false
    case Sub(d) =>
      var rd := r + 1 + ClustersIn(c, k);
      || JoinsIn(d, rd, l)
      || (&& ((l.src == r && l.dst == rd) || (l.src == rd && l.dst == r))
          && HasInner(l.bandwidth, d.extBW, c.intBW) && HasInner(l.latency, d.extLatency, c.intLatency))
  }

  lemma {:induction false} BuildHangs(c: Cluster, k: nat, r: nat, i: nat, e: nat, x: ExtLink)
    requires k <= |c.nodes| && x in BuildNodes(c, k, r, i, e).exts
    ensures HangsIn(c, r, x)
    decreases c, k
  {
    var b := BuildNodes(c, k - 1, r, i, e);
    if x in b.exts {
      BuildHangs(c, k - 1, r, i, e, x);
    } else {
      match c.nodes[k - 1]
      case Leaf(_) => assert HangsAt(c, k - 1, r, x);
      case Sub(d) =>
        BuildCounts(c, k - 1, r, i, e);
        BuildHangs(d, |d.nodes|, r + b.routers, i + |b.ints|, e + |b.exts|, x);
        assert HangsAt(c, k - 1, r, x);
    }
  }

  lemma {:induction false} BuildJoins(c: Cluster, k: nat, r: nat, i: nat, e: nat, l: IntLink)
    requires k <= |c.nodes| && l in BuildNodes(c, k, r, i, e).ints
    ensures JoinsIn(c, r, l)
    decreases c, k
  {
    var b := BuildNodes(c, k - 1, r, i, e);
    if l in b.ints {
      BuildJoins(c, k - 1, r, i, e, l);
    } else {
      var d := c.nodes[k - 1].cluster;
      BuildCounts(c, k - 1, r, i, e);
      if l in Build(d, r + b.routers, i + |b.ints|, e + |b.exts|).ints {
        BuildJoins(d, |d.nodes|, r + b.routers, i + |b.ints|, e + |b.exts|, l);
      }
      assert JoinsAt(c, k - 1, r, l);
    }
  }

  /** Every controller hangs off the router of the cluster that lists it, every internal link joins a cluster
      and one of its sub-clusters, and all of them have the bandwidth and latency of that place. */
  lemma LinksInPlace(c: Cluster, r: nat, i: nat, e: nat)
    ensures forall x | x in Build(c, r, i, e).exts :: HangsIn(c, r, x)
    ensures forall l | l in Build(c, r, i, e).ints :: JoinsIn(c, r, l)
  {
    forall x | x in Build(c, r, i, e).exts ensures HangsIn(c, r, x) {
      BuildHangs(c, |c.nodes|, r, i, e, x);
    }
    forall l | l in Build(c, r, i, e).ints ensures JoinsIn(c, r, l) {
      BuildJoins(c, |c.nodes|, r, i, e, l);
    }
  }

  // ---- Connectivity ----

  ghost predicate Linked(links: seq<IntLink>, a: nat, b: nat) {
    exists m :: 0 <= m < |links| && links[m].src == a && links[m].dst == b
  }

  ghost predicate IsPath(links: seq<IntLink>, p: seq<nat>, a: nat, b: nat) {
    && |p| > 0 && p[0] == a && p[|p| - 1] == b
    && forall m | 0 <= m < |p| - 1 :: Linked(links, p[m], p[m + 1])
  }

  ghost predicate Reaches(links: seq<IntLink>, a: nat, b: nat) {
    exists p :: IsPath(links, p, a, b)
  }

  lemma LinkedWiden(x: seq<IntLink>, y: seq<IntLink>, z: seq<IntLink>, a: nat, b: nat)
    requires Linked(y, a, b)
    ensures Linked(x + y + z, a, b)
  {
    var m :| 0 <= m < |y| && y[m].src == a && y[m].dst == b;
    assert (x + y + z)[|x| + m] == y[m];
  }

  lemma ReachesWiden(x: seq<IntLink>, y: seq<IntLink>, z: seq<IntLink>, a: nat, b: nat)
    requires Reaches(y, a, b)
    ensures Reaches(x + y + z, a, b)
  {
    var p :| IsPath(y, p, a, b);
    forall m | 0 <= m < |p| - 1 ensures Linked(x + y + z, p[m], p[m + 1]) {
      LinkedWiden(x, y, z, p[m], p[m + 1]);
    }
    assert IsPath(x + y + z, p, a, b);
  }

  lemma ReachesTrans(links: seq<IntLink>, a: nat, b: nat, c: nat)
    requires Reaches(links, a, b) && Reaches(links, b, c)
    ensures Reaches(links, a, c)
  {
    var p :| IsPath(links, p, a, b);
    var q :| IsPath(links, q, b, c);
    var r := p + q[1..];
    forall m | 0 <= m < |r| - 1 ensures Linked(links, r[m], r[m + 1]) {
      if m < |p| - 1 {
        assert Linked(links, p[m], p[m + 1]);
      } else {
        assert Linked(links, q[m - |p| + 1], q[m - |p| + 1 + 1]);
      }
    }
    assert IsPath(links, r, a, c);
  }

  lemma ReachesSelf(links: seq<IntLink>, a: nat)
    ensures Reaches(links, a, a)
  {
    assert IsPath(links, [a], a, a);
  }

  lemma ReachesLink(links: seq<IntLink>, a: nat, b: nat)
    requires Linked(links, a, b)
    ensures Reaches(links, a, b)
  {
    assert IsPath(links, [a, b], a, b);
  }

  /** Router x and the root of the tree reach each other. */
  ghost predicate TiedTo(links: seq<IntLink>, root: nat, x: nat) {
    Reaches(links, root, x) && Reaches(links, x, root)
  }

  lemma TiedThrough(links: seq<IntLink>, root: nat, sub: nat, x: nat)
    requires TiedTo(links, root, sub) && TiedTo(links, sub, x)
    ensures TiedTo(links, root, x)
  {
    ReachesTrans(links, root, sub, x);
    ReachesTrans(links, x, sub, root);
  }

  lemma {:induction false} AllTiedToRoot(c: Cluster, k: nat, r: nat, i: nat, e: nat, x: nat)
    requires k <= |c.nodes| && r <= x < r + BuildNodes(c, k, r, i, e).routers
    ensures TiedTo(BuildNodes(c, k, r, i, e).ints, r, x)
    decreases c, k
  {
    var all := BuildNodes(c, k, r, i, e).ints;
    if k == 0 {
      ReachesSelf(all, r);
    } else {
      var b := BuildNodes(c, k - 1, r, i, e);
      match c.nodes[k - 1]
      case Leaf(_) =>
        AllTiedToRoot(c, k - 1, r, i, e, x);
      case Sub(d) =>
        var root := r + b.routers;
        var sub := Build(d, root, i + |b.ints|, e + |b.exts|);
        if x < root {
          AllTiedToRoot(c, k - 1, r, i, e, x);
          JoinedKeepsOuter(c, d, b, sub, r, i, x);
        } else {
          AllTiedToRoot(d, |d.nodes|, root, i + |b.ints|, e + |b.exts|, x);
          JoinedTiesInner(c, d, b, sub, r, i, x);
        }
    }
  }

  lemma JoinedKeepsOuter(c: Cluster, d: Cluster, b: Built, sub: Built, r: nat, i: nat, x: nat)
    requires TiedTo(b.ints, r, x)
    ensures TiedTo(WithCluster(c, d, b, sub, r, i).ints, r, x)
  {
    var all := WithCluster(c, d, b, sub, r, i).ints;
    TiedWiden([], b.ints, all[|b.ints|..], r, x);
    assert [] + b.ints + all[|b.ints|..] == all;
  }

  /** The two new links tie everything in the sub-cluster to the outer router. */
  lemma JoinedTiesInner(c: Cluster, d: Cluster, b: Built, sub: Built, r: nat, i: nat, x: nat)
    requires TiedTo(sub.ints, r + b.routers, x)
    ensures TiedTo(WithCluster(c, d, b, sub, r, i).ints, r, x)
  {
    var all, root, n := WithCluster(c, d, b, sub, r, i).ints, r + b.routers, |b.ints| + |sub.ints|;
    TiedWiden(b.ints, sub.ints, all[n..], root, x);
    assert b.ints + sub.ints + all[n..] == all;
    assert all[n].src == r && all[n].dst == root && all[n + 1].src == root && all[n + 1].dst == r;
    ReachesLink(all, r, root);
    ReachesLink(all, root, r);
    TiedThrough(all, r, root, x);
  }

  lemma TiedWiden(x: seq<IntLink>, y: seq<IntLink>, z: seq<IntLink>, root: nat, a: nat)
    requires TiedTo(y, root, a)
    ensures TiedTo(x + y + z, root, a)
  {
    ReachesWiden(x, y, z, root, a);
    ReachesWiden(x, y, z, a, root);
  }

  /** For every cluster tree: one router per cluster, 2 * (clusters - 1) internal and len(c) external
      links, and every router can reach every other along directed links. */
  lemma ClusterTopologyConnected(c: Cluster, r: nat, i: nat, e: nat, x: nat, y: nat)
    requires var n := Build(c, r, i, e).routers; r <= x < r + n && r <= y < r + n
    ensures var b := Build(c, r, i, e);
            && b.routers == Clusters(c) && |b.ints| == 2 * (Clusters(c) - 1) && |b.exts| == Length(c)
            && Attaches(b.exts, Controllers(c)) && Consecutive(b, i, e)
            && Reaches(b.ints, x, y)
  {
    BuildCounts(c, |c.nodes|, r, i, e);
    BuildNumbers(c, |c.nodes|, r, i, e);
    BuildAttaches(c, |c.nodes|, r, i, e);
    LengthCountsControllers(c, |c.nodes|);
    AllTiedToRoot(c, |c.nodes|, r, i, e, x);
    AllTiedToRoot(c, |c.nodes|, r, i, e, y);
    ReachesTrans(Build(c, r, i, e).ints, x, r, y);
  }
}
