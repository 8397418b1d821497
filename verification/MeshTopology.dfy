/** The link lists built by the Mesh_XY and Mesh_westfirst topologies. */
module MeshTopology {
  import opened Arithmetic
  import opened MeshGeometry

  /** A cache, directory or DMA controller; `machine` is its number among all controllers. */
  datatype Controller = Controller(machine: nat, isDma: bool)

  datatype ExtLink = ExtLink(linkId: nat, node: Controller, router: nat, latency: int)

  datatype IntLink = IntLink(linkId: nat, src: nat, dst: nat, outport: string, inport: string, latency: int,
                             weight: nat)

  datatype Network = Network(rows: nat, cols: nat, extLinks: seq<ExtLink>, intLinks: seq<IntLink>)

  datatype Failure = DivisionByZero | RowCountOutOfRange | RowsDoNotDivide | RemainderNotDma

  datatype Result = Ok(network: Network) | Err(failure: Failure)

  /** How a mesh labels and weighs its links. */
  datatype Style = Style(weights: Weights, named: bool)

  const XY_STYLE := Style(Weights(1, 1, 2, 2), true)
  const WESTFIRST_STYLE := Style(Weights(2, 1, 2, 2), false)

  function Outport(style: Style, d: Dir): string {
    if !style.named then "" else
    match d
    case East => "East"
    case West => "West"
    case North => "North"
    case South => "South"
  }

  function Opposite(d: Dir): Dir {
    match d
    case East => West
    case West => East
    case North => South
    case South => North
  }

  ghost predicate Joins(l: IntLink, a: nat, b: nat) {
    l.src == a && l.dst == b
  }

  ghost predicate Covers(links: seq<IntLink>, a: nat, b: nat) {
    exists k :: 0 <= k < |links| && Joins(links[k], a, b)
  }

  ghost predicate NoTwins(links: seq<IntLink>) {
    forall k, m | 0 <= k < m < |links| :: !Joins(links[m], links[k].src, links[k].dst)
  }

  ghost predicate NumberedFrom(links: seq<IntLink>, first: nat) {
    forall k | 0 <= k < |links| :: links[k].linkId == first + k
  }

  ghost predicate LinkFor(rows: nat, cols: nat, style: Style, latency: int, l: IntLink, d: Dir) {
    && IsHop(rows, cols, l.src, l.dst, d)
    && l.weight == style.weights.Of(d) && l.latency == latency
    && l.outport == Outport(style, d) && l.inport == Outport(style, Opposite(d))
  }

  ghost predicate ProperLink(rows: nat, cols: nat, style: Style, latency: int, l: IntLink) {
    exists d: Dir :: LinkFor(rows, cols, style, latency, l, d)
  }

  ghost predicate AllFor(rows: nat, cols: nat, style: Style, latency: int, links: seq<IntLink>, d: Dir) {
    forall k | 0 <= k < |links| :: LinkFor(rows, cols, style, latency, links[k], d)
  }

  /** The corner of the link from which the loops count: the westernmost or southernmost router. */
  ghost function Corner(l: IntLink, d: Dir): nat {
    if d.East? || d.North? then l.src else l.dst
  }

  /** The link the builder makes in direction d at the given corner. */
  function LinkAt(cols: nat, style: Style, latency: int, id: nat, d: Dir, row: nat, col: nat): IntLink {
    var near := Id(cols, row, col);
    var far := if d.East? || d.West? then Id(cols, row, col + 1) else Id(cols, row + 1, col);
    if d.East? || d.North?
    then IntLink(id, near, far, Outport(style, d), Outport(style, Opposite(d)), latency, style.weights.Of(d))
    else IntLink(id, far, near, Outport(style, d), Outport(style, Opposite(d)), latency, style.weights.Of(d))
  }

  lemma LinkAtIsFor(rows: nat, cols: nat, style: Style, latency: int, id: nat, d: Dir, row: nat, col: nat)
    requires row < rows && col < cols
    requires d.East? || d.West? ==> col + 1 < cols
    requires d.North? || d.South? ==> row + 1 < rows
    ensures LinkFor(rows, cols, style, latency, LinkAt(cols, style, latency, id, d, row, col), d)
    ensures Corner(LinkAt(cols, style, latency, id, d, row, col), d) == Id(cols, row, col)
  {
    IdCoordinates(rows, cols, row, col);
    if d.East? || d.West? {
      IdCoordinates(rows, cols, row, col + 1);
    } else {
      IdCoordinates(rows, cols, row + 1, col);
    }
  }

  /** Column and row of a link's corner. */
  ghost predicate AtCell(cols: nat, l: IntLink, d: Dir, row: nat, col: nat)
    requires cols > 0
  {
    Row(cols, Corner(l, d)) == row && Col(cols, Corner(l, d)) == col
  }

  ghost predicate CellDone(cols: nat, links: seq<IntLink>, d: Dir, row: nat, col: nat)
    requires cols > 0
  {
    exists k :: 0 <= k < |links| && AtCell(cols, links[k], d, row, col)
  }

  ghost predicate CornersDiffer(links: seq<IntLink>, d: Dir) {
    forall k, m | 0 <= k < m < |links| :: Corner(links[k], d) != Corner(links[m], d)
  }

  lemma CellDoneMonotone(cols: nat, links: seq<IntLink>, l: IntLink, d: Dir, row: nat, col: nat)
    requires cols > 0 && CellDone(cols, links, d, row, col)
    ensures CellDone(cols, links + [l], d, row, col)
  {
    var k :| 0 <= k < |links| && AtCell(cols, links[k], d, row, col);
    assert (links + [l])[k] == links[k];
  }

  /** What one direction's pair of loops delivers: every hop in that direction has exactly one link. */
  ghost predicate DirectionBuilt(rows: nat, cols: nat, style: Style, latency: int, links: seq<IntLink>, d: Dir,
                                 first: nat) {
    && NumberedFrom(links, first)
    && AllFor(rows, cols, style, latency, links, d)
    && NoTwins(links)
    && forall a, b | IsHop(rows, cols, a, b, d) :: Covers(links, a, b)
  }

  lemma CellsDoneMeansBuilt(rows: nat, cols: nat, style: Style, latency: int, links: seq<IntLink>, d: Dir, first: nat)
    requires cols > 0 && NumberedFrom(links, first) && AllFor(rows, cols, style, latency, links, d) &&
              CornersDiffer(links, d)
    requires forall row, col | 0 <= row < rows && 0 <= col < cols
                && (d.East? || d.West? ==> col + 1 < cols) && (d.North? || d.South? ==> row + 1 < rows)
                :: CellDone(cols, links, d, row, col)
    ensures DirectionBuilt(rows, cols, style, latency, links, d, first)
  {
    forall k, m | 0 <= k < m < |links| ensures !Joins(links[m], links[k].src, links[k].dst) {
      assert Corner(links[k], d) != Corner(links[m], d);
    }
    forall a, b | IsHop(rows, cols, a, b, d) ensures Covers(links, a, b) {
      CoordinatesId(rows, cols, a);
      CoordinatesId(rows, cols, b);
      var corner := if d.East? || d.North? then a else b;
      var row, col := Row(cols, corner), Col(cols, corner);
      assert CellDone(cols, links, d, row, col);
      var k :| 0 <= k < |links| && AtCell(cols, links[k], d, row, col);
      assert LinkFor(rows, cols, style, latency, links[k], d);
      SameCoordinates(rows, cols, a, links[k].src);
      SameCoordinates(rows, cols, b, links[k].dst);
      assert Joins(links[k], a, b);
    }
  }

  lemma Appended(rows: nat, cols: nat, style: Style, latency: int, links: seq<IntLink>, d: Dir, first: nat, row: nat,
                 col: nat)
    requires NumberedFrom(links, first) && AllFor(rows, cols, style, latency, links, d) && CornersDiffer(links, d)
    requires row < rows && col < cols
    requires d.East? || d.West? ==> col + 1 < cols
    requires d.North? || d.South? ==> row + 1 < rows
    requires forall k | 0 <= k < |links| :: !AtCell(cols, links[k], d, row, col)
    ensures var links' := links + [LinkAt(cols, style, latency, first + |links|, d, row, col)];
            && NumberedFrom(links', first) && AllFor(rows, cols, style, latency, links', d) && CornersDiffer(links', d)
            && CellDone(cols, links', d, row, col) && AtCell(cols, links'[|links|], d, row, col)
  {
    LinkAtIsFor(rows, cols, style, latency, first + |links|, d, row, col);
    IdCoordinates(rows, cols, row, col);
    var links' := links + [LinkAt(cols, style, latency, first + |links|, d, row, col)];
    assert AtCell(cols, links'[|links|], d, row, col);
    forall k, m | 0 <= k < m < |links'| ensures Corner(links'[k], d) != Corner(links'[m], d) {
      if m == |links| {
        assert !AtCell(cols, links[k], d, row, col);
      }
    }
  }

  /** East and west links: rows outside, columns inside. */
  method HorizontalLinks(rows: nat, cols: nat, style: Style, latency: int, d: Dir, first: nat)
    returns (links: seq<IntLink>)
    requires cols > 0 && (d.East? || d.West?)
    ensures DirectionBuilt(rows, cols, style, latency, links, d, first)
  {
    links := [];
    for row := 0 to rows
      invariant NumberedFrom(links, first) && AllFor(rows, cols, style, latency, links, d) && CornersDiffer(links, d)
      invariant forall k | 0 <= k < |links| :: Row(cols, Corner(links[k], d)) < row
      invariant forall r, c | 0 <= r < row && 0 <= c < cols - 1 :: CellDone(cols, links, d, r, c)
    {
      for col := 0 to cols
        invariant NumberedFrom(links, first) && AllFor(rows, cols, style, latency, links, d) && CornersDiffer(links, d)
        invariant forall k | 0 <= k < |links| ::
            Row(cols, Corner(links[k], d)) < row || (Row(cols, Corner(links[k], d)) == row &&
                 Col(cols, Corner(links[k], d)) < col)
        invariant forall r, c | 0 <= r < row && 0 <= c < cols - 1 :: CellDone(cols, links, d, r, c)
        invariant forall c | 0 <= c < col && c < cols - 1 :: CellDone(cols, links, d, row, c)
      {
        if col + 1 < cols {
          var l := LinkAt(cols, style, latency, first + |links|, d, row, col);
          Appended(rows, cols, style, latency, links, d, first, row, col);
          forall r, c | CellDone(cols, links, d, r, c) ensures CellDone(cols, links + [l], d, r, c) {
            CellDoneMonotone(cols, links, l, d, r, c);
          }
          links := links + [l];
        }
      }
    }
    CellsDoneMeansBuilt(rows, cols, style, latency, links, d, first);
  }

  /** North and south links: columns outside, rows inside. */
  method VerticalLinks(rows: nat, cols: nat, style: Style, latency: int, d: Dir, first: nat)
    returns (links: seq<IntLink>)
    requires cols > 0 && (d.North? || d.South?)
    ensures DirectionBuilt(rows, cols, style, latency, links, d, first)
  {
    links := [];
    for col := 0 to cols
      invariant NumberedFrom(links, first) && AllFor(rows, cols, style, latency, links, d) && CornersDiffer(links, d)
      invariant forall k | 0 <= k < |links| :: Col(cols, Corner(links[k], d)) < col
      invariant forall r, c | 0 <= r < rows - 1 && 0 <= c < col :: CellDone(cols, links, d, r, c)
    {
      for row := 0 to rows
        invariant NumberedFrom(links, first) && AllFor(rows, cols, style, latency, links, d) && CornersDiffer(links, d)
        invariant forall k | 0 <= k < |links| ::
            Col(cols, Corner(links[k], d)) < col || (Col(cols, Corner(links[k], d)) == col &&
                 Row(cols, Corner(links[k], d)) < row)
        invariant forall r, c | 0 <= r < rows - 1 && 0 <= c < col :: CellDone(cols, links, d, r, c)
        invariant forall r | 0 <= r < row && r < rows - 1 :: CellDone(cols, links, d, r, col)
      {
        if row + 1 < rows {
          var l := LinkAt(cols, style, latency, first + |links|, d, row, col);
          Appended(rows, cols, style, latency, links, d, first, row, col);
          forall r, c | CellDone(cols, links, d, r, c) ensures CellDone(cols, links + [l], d, r, c) {
            CellDoneMonotone(cols, links, l, d, r, c);
          }
          links := links + [l];
        }
      }
    }
    CellsDoneMeansBuilt(rows, cols, style, latency, links, d, first);
  }

  /** The internal links are exactly the ordered pairs of grid neighbours, each once, with the
      weight and port names of their direction. */
  ghost predicate MeshLinks(rows: nat, cols: nat, style: Style, latency: int, links: seq<IntLink>, first: nat) {
    && NumberedFrom(links, first)
    && NoTwins(links)
    && (forall k | 0 <= k < |links| :: ProperLink(rows, cols, style, latency, links[k]))
    && (forall a, b | Neighbours(rows, cols, a, b) :: Covers(links, a, b))
  }

  lemma CoversAppend(s: seq<IntLink>, t: seq<IntLink>, a: nat, b: nat)
    requires Covers(s, a, b) || Covers(t, a, b)
    ensures Covers(s + t, a, b)
  {
    if Covers(s, a, b) {
      var k :| 0 <= k < |s| && Joins(s[k], a, b);
      assert Joins((s + t)[k], a, b);
    } else {
      var k :| 0 <= k < |t| && Joins(t[k], a, b);
      assert Joins((s + t)[|s| + k], a, b);
    }
  }

  ghost predicate LinkAmong(rows: nat, cols: nat, style: Style, latency: int, l: IntLink, done: set<Dir>) {
    exists d :: d in done && LinkFor(rows, cols, style, latency, l, d)
  }

  /** Some links of one or more directions, before all four are in. */
  ghost predicate PartlyBuilt(rows: nat, cols: nat, style: Style, latency: int, links: seq<IntLink>, done: set<Dir>,
                              first: nat) {
    && NumberedFrom(links, first)
    && NoTwins(links)
    && (forall k | 0 <= k < |links| :: LinkAmong(rows, cols, style, latency, links[k], done))
    && (forall a, b, d | d in done && IsHop(rows, cols, a, b, d) :: Covers(links, a, b))
  }

  lemma LinkAmongMore(rows: nat, cols: nat, style: Style, latency: int, l: IntLink, done: set<Dir>, d: Dir)
    requires LinkAmong(rows, cols, style, latency, l, done)
    ensures LinkAmong(rows, cols, style, latency, l, done + {d})
  {
    var d' :| d' in done && LinkFor(rows, cols, style, latency, l, d');
    assert d' in done + {d};
  }

  lemma OtherDirection(rows: nat, cols: nat, style: Style, latency: int, l: IntLink, m: IntLink, done: set<Dir>, d: Dir)
    requires LinkAmong(rows, cols, style, latency, l, done) && d !in done && LinkFor(rows, cols, style, latency, m, d)
    ensures !Joins(m, l.src, l.dst)
  {
    var d' :| d' in done && LinkFor(rows, cols, style, latency, l, d');
  }

  lemma AddDirection(rows: nat, cols: nat, style: Style, latency: int, s: seq<IntLink>, t: seq<IntLink>,
                     done: set<Dir>, d: Dir, first: nat)
    requires PartlyBuilt(rows, cols, style, latency, s, done, first) && d !in done
    requires DirectionBuilt(rows, cols, style, latency, t, d, first + |s|)
    ensures PartlyBuilt(rows, cols, style, latency, s + t, done + {d}, first)
  {
    var u := s + t;
    forall k | 0 <= k < |u| ensures LinkAmong(rows, cols, style, latency, u[k], done + {d}) {
      if k >= |s| {
        assert LinkFor(rows, cols, style, latency, t[k - |s|], d);
        assert d in done + {d};
      } else {
        LinkAmongMore(rows, cols, style, latency, s[k], done, d);
      }
    }
    forall k, m | 0 <= k < m < |u| ensures !Joins(u[m], u[k].src, u[k].dst) {
      if m < |s| {
      } else if k < |s| {
        OtherDirection(rows, cols, style, latency, s[k], t[m - |s|], done, d);
      } else {
        assert !Joins(t[m - |s|], t[k - |s|].src, t[k - |s|].dst);
      }
    }
    forall a, b, d' | d' in done + {d} && IsHop(rows, cols, a, b, d') ensures Covers(u, a, b) {
      CoversAppend(s, t, a, b);
    }
  }

  lemma AllDirectionsIn(rows: nat, cols: nat, style: Style, latency: int, links: seq<IntLink>, done: set<Dir>,
                        first: nat)
    requires PartlyBuilt(rows, cols, style, latency, links, done, first)
    requires forall d: Dir :: d in done
    ensures MeshLinks(rows, cols, style, latency, links, first)
  {
    forall k | 0 <= k < |links| ensures ProperLink(rows, cols, style, latency, links[k]) {
      var d :| d in done && LinkFor(rows, cols, style, latency, links[k], d);
    }
    forall a, b | Neighbours(rows, cols, a, b) ensures Covers(links, a, b) {
      var d: Dir :| IsHop(rows, cols, a, b, d);
      assert d in done;
    }
  }

  /** The four pairs of loops, in the builder's order. */
  method MakeIntLinks(rows: nat, cols: nat, style: Style, latency: int, first: nat) returns (links: seq<IntLink>)
    requires cols > 0
    ensures MeshLinks(rows, cols, style, latency, links, first)
  {
    var east := HorizontalLinks(rows, cols, style, latency, East, first);
    AddDirection(rows, cols, style, latency, [], east, {}, East, first);
    links := [] + east;
    var west := HorizontalLinks(rows, cols, style, latency, West, first + |links|);
    AddDirection(rows, cols, style, latency, links, west, {} + {East}, West, first);
    links := links + west;
    var north := VerticalLinks(rows, cols, style, latency, North, first + |links|);
    AddDirection(rows, cols, style, latency, links, north, {} + {East} + {West}, North, first);
    links := links + north;
    var south := VerticalLinks(rows, cols, style, latency, South, first + |links|);
    AddDirection(rows, cols, style, latency, links, south, {} + {East} + {West} + {North}, South, first);
    links := links + south;
    forall d: Dir ensures d in {} + {East} + {West} + {North} + {South} {
      match d case East => case West => case North => case South =>
    }
    AllDirectionsIn(rows, cols, style, latency, links, {} + {East} + {West} + {North} + {South}, first);
  }

  /** Router of the i-th controller: dealt out round-robin, except that the controllers left over
      after the last full round all go to router 0. */
  function RouterOf(numNodes: nat, numRouters: nat, i: nat): nat
    requires numRouters > 0
  {
    if i < numNodes - numNodes % numRouters then i % numRouters else 0
  }

  ghost predicate ControllersAttached(nodes: seq<Controller>, numRouters: nat, latency: int, ext: seq<ExtLink>)
    requires numRouters > 0
  {
    && |ext| == |nodes|
    && forall i | 0 <= i < |nodes| :: ext[i] == ExtLink(i, nodes[i], RouterOf(|nodes|, numRouters, i), latency)
  }

  /** The k-th link is dealt to its router in this round. */
  ghost predicate InRound(ext: seq<ExtLink>, numRouters: nat, k: nat, round: nat)
    requires k < |ext|
  {
    k == numRouters * round + ext[k].router && ext[k].router < numRouters
  }

  ghost predicate InSomeRound(ext: seq<ExtLink>, numRouters: nat, k: nat, rounds: nat)
    requires k < |ext|
  {
    exists round: nat :: round < rounds && InRound(ext, numRouters, k, round)
  }

  /** Links dealt out in full rounds over all routers, each router once per round; what is left over goes
      to router 0. */
  ghost predicate Dealt(ext: seq<ExtLink>, numRouters: nat)
    requires numRouters > 0
  {
    && (forall k | 0 <= k < |ext| - |ext| % numRouters :: InSomeRound(ext, numRouters, k, |ext| / numRouters))
    && (forall k | |ext| - |ext| % numRouters <= k < |ext| :: ext[k].router == 0)
  }

  lemma AttachedIsDealt(nodes: seq<Controller>, numRouters: nat, latency: int, ext: seq<ExtLink>)
    requires numRouters > 0 && ControllersAttached(nodes, numRouters, latency, ext)
    ensures Dealt(ext, numRouters)
  {
    forall k | 0 <= k < |ext| - |ext| % numRouters ensures InSomeRound(ext, numRouters, k, |ext| / numRouters) {
      LevelInRange(k, |ext|, numRouters);
      assert ext[k].router == k % numRouters;
      assert InRound(ext, numRouters, k, k / numRouters);
    }
  }

  /** How many of the first n links hang off router r. */
  function Hanging(ext: seq<ExtLink>, n: nat, r: nat): nat
    requires n <= |ext|
  {
    if n == 0 then 0 else Hanging(ext, n - 1, r) + if ext[n - 1].router == r then 1 else 0
  }

  /** Every router gets its share of the dealt links. */
  lemma {:induction false} DealtSoFar(ext: seq<ExtLink>, numRouters: nat, n: nat, r: nat)
    requires numRouters > 0 && Dealt(ext, numRouters) && r < numRouters && n <= |ext| - |ext| % numRouters
    ensures Hanging(ext, n, r) == n / numRouters + if r < n % numRouters then 1 else 0
  {
    if n == 0 {
      DivModUnique(0, numRouters, 0, 0);
    } else {
      var m: nat := n - 1;
      DealtSoFar(ext, numRouters, m, r);
      assert InSomeRound(ext, numRouters, m, |ext| / numRouters);
      var round: nat :| round < |ext| / numRouters && InRound(ext, numRouters, m, round);
      DivModUnique(m, numRouters, round, ext[m].router);
      NextRemainder(m, numRouters);
    }
  }

  lemma WholeRounds(n: nat, m: nat)
    requires m > 0
    ensures n % m <= n && (n - n % m) / m == n / m && (n - n % m) % m == 0
  {
    MulMonotone(m, 0, n / m);
    assert n - n % m == m * (n / m) + 0;
    DivModUnique(n - n % m, m, n / m, 0);
  }

  lemma EvenShare(ext: seq<ExtLink>, numRouters: nat, r: nat)
    requires numRouters > 0 && Dealt(ext, numRouters) && r < numRouters
    ensures |ext| % numRouters <= |ext|
    ensures Hanging(ext, |ext| - |ext| % numRouters, r) == |ext| / numRouters
  {
    WholeRounds(|ext|, numRouters);
    DealtSoFar(ext, numRouters, |ext| - |ext| % numRouters, r);
  }

  /** The left-over controllers must all be DMA controllers. */
  ghost predicate RemainderIsDma(nodes: seq<Controller>, numRouters: nat)
    requires numRouters > 0
  {
    forall i | |nodes| - |nodes| % numRouters <= i < |nodes| :: nodes[i].isDma
  }

  lemma LevelInRange(i: nat, total: nat, numRouters: nat)
    requires numRouters > 0 && i < total - total % numRouters
    ensures i / numRouters < total / numRouters
  {
    if i / numRouters >= total / numRouters {
      MulMonotone(numRouters, total / numRouters, i / numRouters);
    }
  }

  method MakeExtLinks(nodes: seq<Controller>, numRouters: nat, latency: int) returns (ok: bool, ext: seq<ExtLink>)
    requires numRouters > 0
    ensures ok <==> RemainderIsDma(nodes, numRouters)
    ensures ok ==> ControllersAttached(nodes, numRouters, latency, ext) && Dealt(ext, numRouters)
  {
    var perRouter, remainder := |nodes| / numRouters, |nodes| % numRouters;
    var networkNodes, remainderNodes := [], [];
    for i := 0 to |nodes|
      invariant networkNodes == nodes[..if i < |nodes| - remainder then i else |nodes| - remainder]
      invariant remainderNodes == if i < |nodes| - remainder then [] else nodes[|nodes| - remainder..i]
    {
      if i < |nodes| - remainder {
        networkNodes := networkNodes + [nodes[i]];
      } else {
        remainderNodes := remainderNodes + [nodes[i]];
      }
    }
    ext := [];
    for i := 0 to |networkNodes|
      invariant |ext| == i
      invariant forall k | 0 <= k < i :: ext[k] == ExtLink(k, nodes[k], RouterOf(|nodes|, numRouters, k), latency)
    {
      LevelInRange(i, |nodes|, numRouters);
      assert i / numRouters < perRouter;
      ext := ext + [ExtLink(|ext|, networkNodes[i], i % numRouters, latency)];
    }
    for i := 0 to |remainderNodes|
      invariant |ext| == |networkNodes| + i
      invariant forall k | 0 <= k < i :: remainderNodes[k].isDma
      invariant forall k | 0 <= k < |ext| :: ext[k] == ExtLink(k, nodes[k], RouterOf(|nodes|, numRouters, k), latency)
    {
      assert remainderNodes[i] == nodes[|networkNodes| + i];
      if !remainderNodes[i].isDma {
        return false, ext;
      }
      assert i < remainder;
      ext := ext + [ExtLink(|ext|, remainderNodes[i], 0, latency)];
    }
    forall i | |nodes| - |nodes| % numRouters <= i < |nodes| ensures nodes[i].isDma {
      assert remainderNodes[i - |networkNodes|] == nodes[i];
    }
    AttachedIsDealt(nodes, numRouters, latency, ext);
    ok := true;
  }

  /** What makes a mesh of `style` out of the controllers: external links numbered from 0, one per
      controller, then the internal links numbered on from there. */
  ghost predicate IsMesh(style: Style, nodes: seq<Controller>, numRouters: nat, rows: nat, latency: int, net: Network) {
    && 0 < rows && net.rows == rows && rows * net.cols == numRouters && numRouters > 0
    && ControllersAttached(nodes, numRouters, latency, net.extLinks)
    && MeshLinks(rows, net.cols, style, latency, net.intLinks, |nodes|)
  }

  /** makeTopology of both mesh classes, which differ in style only. */
  method MakeTopology(style: Style, nodes: seq<Controller>, numRouters: int, numRows: int, latency: int)
    returns (r: Result)
    ensures r.Ok? <==> 0 < numRows <= numRouters && numRouters % numRows == 0 && RemainderIsDma(nodes, numRouters)
    ensures r.Ok? ==>
              && IsMesh(style, nodes, numRouters, numRows, latency, r.network)
              && Dealt(r.network.extLinks, numRouters)
    ensures r == Err(DivisionByZero) <==> numRouters == 0
    ensures r == Err(RowCountOutOfRange) <==> numRouters != 0 && !(0 < numRows <= numRouters)
    ensures r == Err(RowsDoNotDivide) <==> 0 < numRows <= numRouters && numRouters % numRows != 0
  {
    if numRouters == 0 {
      return Err(DivisionByZero);
    }
    if !(0 < numRows <= numRouters) {
      return Err(RowCountOutOfRange);
    }
    var cols := numRouters / numRows;
    if cols * numRows != numRouters {
      return Err(RowsDoNotDivide);
    }
    assert numRouters % numRows == 0 && cols > 0;
    var ok, ext := MakeExtLinks(nodes, numRouters, latency);
    if !ok {
      return Err(RemainderNotDma);
    }
    var mesh := MakeIntLinks(numRows, cols, style, latency, |ext|);
    return Ok(Network(numRows, cols, ext, mesh));
  }

  /** Labels of the k-th link of a mesh by the coordinates of its ends. Mesh_XY names both ports after their
      directions and weighs horizontal links 1 and vertical ones 2; Mesh_westfirst names none and weighs only
      west links 1. */
  lemma LinkLabels(style: Style, nodes: seq<Controller>, numRouters: nat, rows: nat, latency: int, net: Network, k: nat)
    requires IsMesh(style, nodes, numRouters, rows, latency, net) && net.cols > 0 && k < |net.intLinks|
    ensures var l, cols := net.intLinks[k], net.cols;
            var x, y := Col(cols, l.dst) - Col(cols, l.src), Row(cols, l.dst) - Row(cols, l.src);
            && l.linkId == |nodes| + k && l.latency == latency
            && ((x, y) == (1, 0) || (x, y) == (-1, 0) || (x, y) == (0, 1) || (x, y) == (0, -1))
            && (style == XY_STYLE ==>
                  && l.weight == (if y == 0 then 1 else 2)
                  && l.outport == (if x == 1 then "East" else if x == -1 then "West"
                                   else if y == 1 then "North" else "South")
                  && l.inport == (if x == 1 then "West" else if x == -1 then "East"
                                  else if y == 1 then "South" else "North"))
            && (style == WESTFIRST_STYLE ==>
                  l.outport == "" && l.inport == "" && l.weight == (if x == -1 then 1 else 2))
  {
    assert ProperLink(rows, net.cols, style, latency, net.intLinks[k]);
    var d :| LinkFor(rows, net.cols, style, latency, net.intLinks[k], d);
  }

  /** No link id is used twice and none is skipped: the ids over both lists are exactly 0, 1, 2, ... */
  lemma LinkIdsContiguous(style: Style, nodes: seq<Controller>, numRouters: nat, rows: nat, latency: int,
                          net: Network, id: nat)
    requires IsMesh(style, nodes, numRouters, rows, latency, net)
    requires id < |net.extLinks| + |net.intLinks|
    ensures id < |net.extLinks| <==> exists k :: 0 <= k < |net.extLinks| && net.extLinks[k].linkId == id
    ensures id >= |net.extLinks| <==> exists k :: 0 <= k < |net.intLinks| && net.intLinks[k].linkId == id
    ensures forall k, m | 0 <= k < m < |net.intLinks| :: net.intLinks[k].linkId != net.intLinks[m].linkId
  {
    if id < |net.extLinks| {
      assert net.extLinks[id].linkId == id;
    } else {
      assert net.intLinks[id - |net.extLinks|].linkId == id;
    }
  }
}
