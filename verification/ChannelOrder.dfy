/** When the dependencies between channels cannot close into a cycle: a numbering that every dependency
    climbs, for every mesh that does not weigh all directions alike. */
module ChannelOrder {
  import opened Arithmetic
  import opened MeshGeometry
  import opened ShortestPath
  import opened MeshTopology
  import opened RoutingTable
  import opened MeshRouting
  import opened MeshDeadlock

  predicate Uniform(w: Weights) {
    w.east == w.west == w.north == w.south
  }

  /** The one kind of mesh that can deadlock: two-dimensional, with a controller on every router, one weight
      for all directions, and two hops within the range of the tables. */
  predicate Prone(f: Fabric) {
    && f.net.rows >= 2 && f.net.cols >= 2 && |f.nodes| >= f.Routers()
    && Uniform(f.style.weights) && 2 * f.style.weights.east + DEFAULT_WEIGHT <= INFINITE_LATENCY
  }

  ghost predicate Safe(f: Fabric) {
    f.Valid() && !Prone(f)
  }

  /** Both meshes of the repository are safe, whatever their size. */
  lemma StylesAreSafe(f: Fabric)
    requires f.Valid() && (f.style == XY_STYLE || f.style == WESTFIRST_STYLE)
    ensures Safe(f)
  {
  }

  // ---- The position of a channel among those of its weight ----

  /** A direction in which no channel of weight u leads. */
  function Absent(w: Weights, rows: nat, cols: nat, u: nat): Dir {
    if w.west != u || cols == 1 then West
    else if w.east != u then East
    else if w.south != u || rows == 1 then South
    else North
  }

  /** Numbers in lines of span + 1. */
  function InLine(span: nat, line: int, at: int): int {
    line * (span + 1) + at
  }

  /** Number of the channel that leaves a in direction d, going line by line away from direction m. */
  function Position(m: Dir, rows: nat, cols: nat, a: nat, d: Dir): int
    requires cols > 0
  {
    var c, r := Col(cols, a), Row(cols, a);
    match m
    case West => InLine(rows, c, if d.North? then r else if d.South? then rows - 1 - r else rows)
    case East => InLine(rows, cols - 1 - c, if d.North? then r else if d.South? then rows - 1 - r else rows)
    case South => InLine(cols, r, if d.East? then c else if d.West? then cols - 1 - c else cols)
    case North => InLine(cols, rows - 1 - r, if d.East? then c else if d.West? then cols - 1 - c else cols)
  }

  lemma NextLine(span: nat, line: int, at: int)
    ensures InLine(span, line + 1, at) == InLine(span, line, at) + span + 1
  {
  }

  /** Without channels in direction m, and without turning back, positions only climb. */
  lemma PositionClimbs(m: Dir, rows: nat, cols: nat, a: nat, b: nat, c: nat, d: Dir, d': Dir)
    requires IsHop(rows, cols, a, b, d) && IsHop(rows, cols, b, c, d')
    requires d != m && d' != m && d' != Opposite(d)
    ensures Position(m, rows, cols, a, d) < Position(m, rows, cols, b, d')
  {
    CoordinatesId(rows, cols, a);
    CoordinatesId(rows, cols, b);
    CoordinatesId(rows, cols, c);
    match m
    case West => NextLine(rows, Col(cols, a), 0);
    case East => NextLine(rows, cols - 1 - Col(cols, a), 0);
    case South => NextLine(cols, Row(cols, a), 0);
    case North => NextLine(cols, rows - 1 - Row(cols, a), 0);
  }

  lemma LineBound(span: nat, lines: nat, line: int, at: int)
    requires 0 <= line < lines && 0 <= at <= span
    ensures 0 <= InLine(span, line, at) < (span + 1) * (lines + 1)
  {
    MulMonotone(span + 1, 0, line);
    MulMonotone(span + 1, line + 1, lines + 1);
  }

  lemma PositionBound(m: Dir, rows: nat, cols: nat, a: nat, d: Dir)
    requires cols > 0 && a < rows * cols
    ensures 0 <= Position(m, rows, cols, a, d) < (rows + 1) * (cols + 1)
  {
    CoordinatesId(rows, cols, a);
    var c, r := Col(cols, a), Row(cols, a);
    if m.West? || m.East? {
      LineBound(rows, cols, if m.West? then c else cols - 1 - c,
                if d.North? then r else if d.South? then rows - 1 - r else rows);
    } else {
      LineBound(cols, rows, if m.South? then r else rows - 1 - r,
                if d.East? then c else if d.West? then cols - 1 - c else cols);
    }
  }

  // ---- The rank of a channel ----

  /** Lighter channels come first, then the position among those of equal weight. If there are fewer
      controllers than routers, all of them are at router 0 and the distance to it decides. */
  function Rank(f: Fabric, a: nat, d: Dir): int
    requires f.net.cols > 0
  {
    var rows, cols, w := f.net.rows, f.net.cols, f.style.weights;
    if |f.nodes| < f.Routers() then 0 - Manhattan(cols, a, 0)
    else ((rows + 1) * (cols + 1)) * w.Of(d) + Position(Absent(w, rows, cols, w.Of(d)), rows, cols, a, d)
  }

  /** The next hop of a packet was possible before the last one: it does not turn back and weighs no less. */
  lemma NextHopNoLighter(rows: nat, cols: nat, w: Weights, q: nat, a: nat, b: nat, d: Dir, d': Dir)
    requires IsHop(rows, cols, a, b, d) && Allowed(w, cols, a, q, d) && Allowed(w, cols, b, q, d')
    ensures d' != Opposite(d) && w.Of(d) <= w.Of(d')
  {
    assert Productive(cols, a, q, d');
  }

  lemma LighterRanksLower(k: nat, u: nat, u': nat, p: int, p': int)
    requires u < u' && 0 <= p < k && 0 <= p' < k
    ensures k * u + p < k * u' + p'
  {
    MulGap(k, u, u');
  }

  lemma AbsentIsAbsent(w: Weights, rows: nat, cols: nat, a: nat, b: nat, d: Dir)
    requires IsHop(rows, cols, a, b, d) && !(Uniform(w) && rows >= 2 && cols >= 2)
    ensures d != Absent(w, rows, cols, w.Of(d))
  {
    CoordinatesId(rows, cols, a);
    CoordinatesId(rows, cols, b);
  }

  lemma DirectedRankClimbs(f: Fabric, q: nat, a: nat, b: nat, c: nat, d: Dir, d': Dir)
    requires f.net.cols > 0 && |f.nodes| >= f.Routers()
    requires !(Uniform(f.style.weights) && f.net.rows >= 2 && f.net.cols >= 2)
    requires IsHop(f.net.rows, f.net.cols, a, b, d) && IsHop(f.net.rows, f.net.cols, b, c, d')
    requires Allowed(f.style.weights, f.net.cols, a, q, d) && Allowed(f.style.weights, f.net.cols, b, q, d')
    ensures Rank(f, a, d) < Rank(f, b, d')
  {
    var rows, cols, w := f.net.rows, f.net.cols, f.style.weights;
    NextHopNoLighter(rows, cols, w, q, a, b, d, d');
    var m, m' := Absent(w, rows, cols, w.Of(d)), Absent(w, rows, cols, w.Of(d'));
    if w.Of(d) < w.Of(d') {
      PositionBound(m, rows, cols, a, d);
      PositionBound(m', rows, cols, b, d');
      LighterRanksLower((rows + 1) * (cols + 1), w.Of(d), w.Of(d'),
                        Position(m, rows, cols, a, d), Position(m', rows, cols, b, d'));
    } else {
      AbsentIsAbsent(w, rows, cols, a, b, d);
      AbsentIsAbsent(w, rows, cols, b, c, d');
      PositionClimbs(m, rows, cols, a, b, c, d, d');
    }
  }

  /** On a safe mesh every two consecutive hops of a packet climb, however ties are resolved. */
  lemma RankClimbs(f: Fabric, i: nat, a: nat, b: nat, c: nat) returns (d: Dir, d': Dir)
    requires Safe(f) && i < |f.nodes| && a < f.Routers() && Takes(f, i, a, b) && Takes(f, i, b, c)
    ensures IsHop(f.net.rows, f.net.cols, a, b, d) && IsHop(f.net.rows, f.net.cols, b, c, d')
    ensures Rank(f, a, d) < Rank(f, b, d')
  {
    d := HopTaken(f, i, a, b);
    d' := HopTaken(f, i, b, c);
    if |f.nodes| < f.Routers() {
      AllAtFirstRouter(f, i);
    } else {
      assert f.style.weights.Of(d) + f.style.weights.Of(d') + DEFAULT_WEIGHT <= INFINITE_LATENCY;
      DirectedRankClimbs(f, f.Home(i), a, b, c, d, d');
    }
  }

  lemma AllAtFirstRouter(f: Fabric, i: nat)
    requires f.Valid() && |f.nodes| < f.Routers() && i < |f.nodes|
    ensures f.Home(i) == 0
  {
    DivModUnique(|f.nodes|, f.Routers(), 0, |f.nodes|);
  }

  // ---- Chains of dependencies ----

  /** The channel dependency relation: a packet for some controller may hold the channel a-b while it
      waits for the channel b-c. */
  ghost predicate Depends(f: Fabric, a: nat, b: nat, c: nat)
    requires f.Valid()
  {
    exists i: nat :: i < |f.nodes| && Takes(f, i, a, b) && Takes(f, i, b, c)
  }

  /** A chain of channels route[0]-route[1], route[1]-route[2], ... each depending on the next;
      different packets may be behind the individual dependencies. */
  ghost predicate WaitChain(f: Fabric, chain: seq<nat>)
    requires f.Valid()
  {
    && |chain| >= 3
    && (forall m | 0 <= m < |chain| :: chain[m] < f.Routers())
    && (forall m | 0 <= m < |chain| - 2 :: Depends(f, chain[m], chain[m + 1], chain[m + 2]))
  }

  lemma DependencyClimbs(f: Fabric, a: nat, b: nat, c: nat) returns (d: Dir, d': Dir)
    requires Safe(f) && a < f.Routers() && Depends(f, a, b, c)
    ensures IsHop(f.net.rows, f.net.cols, a, b, d) && IsHop(f.net.rows, f.net.cols, b, c, d')
    ensures Rank(f, a, d) < Rank(f, b, d')
  {
    var i: nat :| i < |f.nodes| && Takes(f, i, a, b) && Takes(f, i, b, c);
    d, d' := RankClimbs(f, i, a, b, c);
  }

  lemma ChainTail(f: Fabric, chain: seq<nat>)
    requires f.Valid() && WaitChain(f, chain) && |chain| > 3
    ensures WaitChain(f, chain[1..])
  {
    var rest := chain[1..];
    forall m | 0 <= m < |rest| - 2 ensures Depends(f, rest[m], rest[m + 1], rest[m + 2]) {
      assert Depends(f, chain[m + 1], chain[m + 1 + 1], chain[m + 1 + 2]);
    }
  }

  lemma {:induction false} ChainClimbs(f: Fabric, chain: seq<nat>) returns (d: Dir, d': Dir)
    requires Safe(f) && WaitChain(f, chain)
    ensures IsHop(f.net.rows, f.net.cols, chain[0], chain[1], d)
    ensures IsHop(f.net.rows, f.net.cols, chain[|chain| - 2], chain[|chain| - 1], d')
    ensures Rank(f, chain[0], d) < Rank(f, chain[|chain| - 2], d')
  {
    assert Depends(f, chain[0], chain[0 + 1], chain[0 + 2]);
    d, d' := DependencyClimbs(f, chain[0], chain[1], chain[2]);
    if |chain| > 3 {
      ChainTail(f, chain);
      var e, e' := ChainClimbs(f, chain[1..]);
      HopDirection(f.net.rows, f.net.cols, chain[1], chain[2], d', e);
      d' := e';
    }
  }

  /** On a safe mesh the dependency relation has no cycle: no chain returns to the channel it started from. */
  lemma NoCyclicWait(f: Fabric, chain: seq<nat>)
    requires Safe(f) && WaitChain(f, chain)
    ensures !(chain[0] == chain[|chain| - 2] && chain[1] == chain[|chain| - 1])
  {
    var d, d' := ChainClimbs(f, chain);
    if chain[0] == chain[|chain| - 2] && chain[1] == chain[|chain| - 1] {
      HopDirection(f.net.rows, f.net.cols, chain[0], chain[1], d, d');
    }
  }
}
