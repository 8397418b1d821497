/** Packets moving through the bounded channel buffers of a routed mesh. */
module NetworkRun {
  import opened MeshGeometry
  import opened MeshTopology
  import opened MeshRouting
  import opened MeshDeadlock
  import opened ChannelOrder

  /** For every internal link, the controllers its queued packets are bound for, oldest first. */
  type State = seq<seq<nat>>

  datatype Step =
    | Inject(i: nat, k: nat)      // a packet for controller i enters link k at its source router
    | Advance(k: nat, k': nat)    // the oldest packet of link k moves on to link k'
    | Eject(k: nat)               // the oldest packet of link k leaves at its own router

  function Src(f: Fabric, k: nat): nat
    requires k < |f.net.intLinks|
  {
    f.net.intLinks[k].src
  }

  function Dst(f: Fabric, k: nat): nat
    requires k < |f.net.intLinks|
  {
    f.net.intLinks[k].dst
  }

  /** The routing unit at the source of link k may send a packet for controller i over it. */
  ghost predicate Uses(f: Fabric, i: nat, k: nat)
    requires f.Valid()
  {
    i < |f.nodes| && k < |f.net.intLinks| && Takes(f, i, Src(f, k), Dst(f, k))
  }

  ghost predicate Enabled(f: Fabric, cap: nat, s: State, step: Step)
    requires f.Valid() && |s| == |f.net.intLinks|
  {
    match step
    case Inject(i, k) => k < |s| && Uses(f, i, k) && |s[k]| < cap
    case Advance(k, k') =>
      && k < |s| && k' < |s| && s[k] != [] && s[k][0] < |f.nodes|
      && Dst(f, k) != f.Home(s[k][0]) && Src(f, k') == Dst(f, k)
      && Uses(f, s[k][0], k') && |s[k']| < cap
    case Eject(k) => k < |s| && s[k] != [] && s[k][0] < |f.nodes| && Dst(f, k) == f.Home(s[k][0])
  }

  ghost function After(f: Fabric, cap: nat, s: State, step: Step): (s': State)
    requires f.Valid() && |s| == |f.net.intLinks| && Enabled(f, cap, s, step)
    ensures |s'| == |s|
  {
    match step
    case Inject(i, k) => s[k := s[k] + [i]]
    case Advance(k, k') => var popped := s[k := s[k][1..]]; popped[k' := popped[k'] + [s[k][0]]]
    case Eject(k) => s[k := s[k][1..]]
  }

  ghost predicate QueueLegit(f: Fabric, cap: nat, k: nat, q: seq<nat>)
    requires f.Valid()
  {
    |q| <= cap && forall m | 0 <= m < |q| :: Uses(f, q[m], k)
  }

  /** What every run keeps: buffers within capacity, every packet where the tables send it. */
  ghost predicate Legit(f: Fabric, cap: nat, s: State)
    requires f.Valid()
  {
    |s| == |f.net.intLinks| && forall k | 0 <= k < |s| :: QueueLegit(f, cap, k, s[k])
  }

  lemma LinkEnds(f: Fabric, k: nat)
    requires f.Valid() && k < |f.net.intLinks|
    ensures Neighbours(f.net.rows, f.net.cols, Src(f, k), Dst(f, k))
    ensures Src(f, k) < f.Routers() && Dst(f, k) < f.Routers()
  {
    assert ProperLink(f.net.rows, f.net.cols, f.style, f.latency, f.net.intLinks[k]);
    var d :| LinkFor(f.net.rows, f.net.cols, f.style, f.latency, f.net.intLinks[k], d);
  }

  lemma StepKeepsLegit(f: Fabric, cap: nat, s: State, step: Step)
    requires f.Valid() && Legit(f, cap, s) && Enabled(f, cap, s, step)
    ensures Legit(f, cap, After(f, cap, s, step))
  {
    var s' := After(f, cap, s, step);
    forall k | 0 <= k < |s'| ensures QueueLegit(f, cap, k, s'[k]) {
      assert QueueLegit(f, cap, k, s[k]);
    }
  }

  /** Direction of a link. */
  ghost function Heading(f: Fabric, k: nat): (d: Dir)
    requires f.Valid() && k < |f.net.intLinks|
    ensures IsHop(f.net.rows, f.net.cols, Src(f, k), Dst(f, k), d)
  {
    LinkEnds(f, k);
    var d: Dir :| IsHop(f.net.rows, f.net.cols, Src(f, k), Dst(f, k), d);
    d
  }

  ghost function LinkRank(f: Fabric, k: nat): int
    requires f.Valid() && k < |f.net.intLinks|
  {
    Rank(f, Src(f, k), Heading(f, k))
  }

  lemma LinkRankClimbs(f: Fabric, i: nat, k: nat, k': nat)
    requires Safe(f) && Uses(f, i, k) && Uses(f, i, k') && Src(f, k') == Dst(f, k)
    ensures LinkRank(f, k) < LinkRank(f, k')
  {
    LinkEnds(f, k);
    LinkEnds(f, k');
    var d, d' := RankClimbs(f, i, Src(f, k), Dst(f, k), Dst(f, k'));
    HopDirection(f.net.rows, f.net.cols, Src(f, k), Dst(f, k), d, Heading(f, k));
    HopDirection(f.net.rows, f.net.cols, Src(f, k'), Dst(f, k'), d', Heading(f, k'));
  }

  ghost predicate Busy(s: State, k: nat) {
    k < |s| && s[k] != []
  }

  /** A busy link of greatest rank. */
  lemma {:induction false} HighestBusy(f: Fabric, s: State, n: nat) returns (top: nat)
    requires f.Valid() && |s| == |f.net.intLinks| && n <= |s|
    requires exists k: nat :: k < n && Busy(s, k)
    ensures top < n && Busy(s, top)
    ensures forall k: nat | k < n && Busy(s, k) :: LinkRank(f, k) <= LinkRank(f, top)
  {
    if exists k: nat :: k < n - 1 && Busy(s, k) {
      top := HighestBusy(f, s, n - 1);
      if Busy(s, n - 1) && LinkRank(f, n - 1) > LinkRank(f, top) {
        top := n - 1;
      }
    } else {
      top := n - 1;
    }
  }

  lemma LinkForHop(f: Fabric, a: nat, b: nat, d: Dir) returns (k: nat)
    requires f.Valid() && IsHop(f.net.rows, f.net.cols, a, b, d)
    ensures k < |f.net.intLinks| && Src(f, k) == a && Dst(f, k) == b
  {
    assert Neighbours(f.net.rows, f.net.cols, a, b);
    assert Covers(f.net.intLinks, a, b);
    k :| 0 <= k < |f.net.intLinks| && Joins(f.net.intLinks[k], a, b);
  }

  lemma NextLink(f: Fabric, i: nat, k: nat) returns (k': nat)
    requires f.Valid() && Uses(f, i, k) && Dst(f, k) != f.Home(i)
    ensures Uses(f, i, k') && Src(f, k') == Dst(f, k)
  {
    LinkEnds(f, k);
    var d := HopTaken(f, i, Src(f, k), Dst(f, k));
    var b := SomeHopTaken(f, i, Dst(f, k));
    var d' := HopTaken(f, i, Dst(f, k), b);
    k' := LinkForHop(f, Dst(f, k), b, d');
  }

  /** The oldest packet of link k can go wherever the routing unit sends it: it is at its router, or
      it has a next link and every next link it may be given is empty. */
  ghost predicate Unblocked(f: Fabric, s: State, k: nat)
    requires f.Valid() && |s| == |f.net.intLinks|
  {
    && Busy(s, k) && s[k][0] < |f.nodes|
    && (|| Dst(f, k) == f.Home(s[k][0])
        || (&& (exists k': nat :: Uses(f, s[k][0], k') && Src(f, k') == Dst(f, k))
            && (forall k': nat | Uses(f, s[k][0], k') && Src(f, k') == Dst(f, k) :: s[k'] == [])))
  }

  /** Deadlock freedom: in every legitimate state with a packet in flight some packet is unblocked,
      however full the other buffers are and however ties between equal weights are resolved. */
  lemma DeadlockFree(f: Fabric, cap: nat, s: State) returns (k: nat)
    requires Safe(f) && Legit(f, cap, s)
    requires exists k: nat :: Busy(s, k)
    ensures Unblocked(f, s, k)
  {
    var any: nat :| Busy(s, any);
    assert any < |s| && Busy(s, any);
    k := HighestBusy(f, s, |s|);
    assert QueueLegit(f, cap, k, s[k]);
    var i := s[k][0];
    assert Uses(f, i, k);
    if Dst(f, k) != f.Home(i) {
      var next := NextLink(f, i, k);
      forall k': nat | Uses(f, i, k') && Src(f, k') == Dst(f, k) ensures s[k'] == [] {
        LinkRankClimbs(f, i, k, k');
        assert !Busy(s, k');
      }
    }
  }

  /** An unblocked packet can move, since buffers hold at least one packet. */
  lemma UnblockedMoves(f: Fabric, cap: nat, s: State, k: nat) returns (step: Step)
    requires f.Valid() && |s| == |f.net.intLinks| && cap > 0 && Unblocked(f, s, k)
    ensures Enabled(f, cap, s, step) && !step.Inject?
  {
    if Dst(f, k) == f.Home(s[k][0]) {
      step := Eject(k);
    } else {
      var k': nat :| Uses(f, s[k][0], k') && Src(f, k') == Dst(f, k);
      step := Advance(k, k');
    }
  }

  /** Hops and ejection still to come for the packets of one queue that ends at router r. */
  ghost function QueueWork(f: Fabric, r: nat, q: seq<nat>): nat
    requires f.Valid() && Bound(f, q)
  {
    if q == [] then 0 else 1 + Manhattan(f.net.cols, r, f.Home(q[0])) + QueueWork(f, r, q[1..])
  }

  lemma {:induction false} QueueWorkAppend(f: Fabric, r: nat, q: seq<nat>, i: nat)
    requires f.Valid() && i < |f.nodes| && Bound(f, q)
    ensures QueueWork(f, r, q + [i]) == QueueWork(f, r, q) + 1 + Manhattan(f.net.cols, r, f.Home(i))
  {
    if q == [] {
      assert (q + [i])[1..] == [];
    } else {
      assert (q + [i])[1..] == q[1..] + [i];
      QueueWorkAppend(f, r, q[1..], i);
    }
  }

  ghost predicate Bound(f: Fabric, q: seq<nat>) {
    forall m | 0 <= m < |q| :: q[m] < |f.nodes|
  }

  ghost predicate AllBound(f: Fabric, s: State) {
    forall m | 0 <= m < |s| :: Bound(f, s[m])
  }

  /** Hops and ejections to come over the links from k on. */
  ghost function WorkFrom(f: Fabric, s: State, k: nat): nat
    requires f.Valid() && |s| == |f.net.intLinks| && k <= |s|
    requires AllBound(f, s)
    decreases |s| - k
  {
    if k == |s| then 0 else QueueWork(f, Dst(f, k), s[k]) + WorkFrom(f, s, k + 1)
  }

  ghost function Work(f: Fabric, cap: nat, s: State): nat
    requires f.Valid() && Legit(f, cap, s)
  {
    LegitBound(f, cap, s);
    WorkFrom(f, s, 0)
  }

  lemma LegitBound(f: Fabric, cap: nat, s: State)
    requires f.Valid() && Legit(f, cap, s)
    ensures AllBound(f, s)
  {
    forall m | 0 <= m < |s| ensures Bound(f, s[m]) {
      assert QueueLegit(f, cap, m, s[m]);
    }
  }

  lemma {:induction false} WorkFromUpdate(f: Fabric, s: State, k: nat, m: nat, q: seq<nat>)
    requires f.Valid() && |s| == |f.net.intLinks| && k <= |s| && m < |s| && Bound(f, q)
    requires AllBound(f, s)
    ensures AllBound(f, s[m := q])
    ensures WorkFrom(f, s[m := q], k) ==
              WorkFrom(f, s, k) + if k <= m then QueueWork(f, Dst(f, m), q) - QueueWork(f, Dst(f, m), s[m]) else 0
    decreases |s| - k
  {
    if k < |s| {
      WorkFromUpdate(f, s, k + 1, m, q);
    }
  }

  lemma EjectWork(f: Fabric, cap: nat, s: State, k: nat)
    requires f.Valid() && Legit(f, cap, s) && Enabled(f, cap, s, Eject(k))
    requires Legit(f, cap, After(f, cap, s, Eject(k)))
    ensures Work(f, cap, After(f, cap, s, Eject(k))) == Work(f, cap, s) - 1
  {
    LegitBound(f, cap, s);
    assert Bound(f, s[k]);
    WorkFromUpdate(f, s, 0, k, s[k][1..]);
  }

  lemma AdvanceWork(f: Fabric, cap: nat, s: State, k: nat, k': nat)
    requires f.Valid() && Legit(f, cap, s) && Enabled(f, cap, s, Advance(k, k'))
    requires Legit(f, cap, After(f, cap, s, Advance(k, k')))
    ensures Work(f, cap, After(f, cap, s, Advance(k, k'))) == Work(f, cap, s) - 1
  {
    var i := s[k][0];
    LegitBound(f, cap, s);
    assert Bound(f, s[k]) && Bound(f, s[k']);
    WorkFromUpdate(f, s, 0, k, s[k][1..]);
    var popped := s[k := s[k][1..]];
    assert QueueLegit(f, cap, k, s[k]) && Uses(f, i, k);
    LinkEnds(f, k);
    assert Src(f, k) != Dst(f, k) && popped[k'] == s[k'];
    QueueWorkAppend(f, Dst(f, k'), popped[k'], i);
    WorkFromUpdate(f, popped, 0, k', popped[k'] + [i]);
    LinkEnds(f, k');
    var d := HopTaken(f, i, Src(f, k'), Dst(f, k'));
  }

  /** Each move of a packet in flight pays for exactly one unit of remaining work. */
  lemma MovePaysOne(f: Fabric, cap: nat, s: State, step: Step)
    requires f.Valid() && Legit(f, cap, s) && Enabled(f, cap, s, step) && !step.Inject?
    ensures Legit(f, cap, After(f, cap, s, step))
    ensures Work(f, cap, After(f, cap, s, step)) == Work(f, cap, s) - 1
  {
    StepKeepsLegit(f, cap, s, step);
    match step
    case Eject(k) => EjectWork(f, cap, s, k);
    case Advance(k, k') => AdvanceWork(f, cap, s, k, k');
  }

  /** The states of a run: one per step, the first given. */
  ghost predicate IsRun(f: Fabric, cap: nat, states: seq<State>, steps: seq<Step>)
    requires f.Valid()
  {
    && |states| == |steps| + 1
    && (forall m | 0 <= m < |states| :: |states[m]| == |f.net.intLinks|)
    && (forall m | 0 <= m < |steps| ::
         Enabled(f, cap, states[m], steps[m]) && states[m + 1] == After(f, cap, states[m], steps[m]))
  }

  ghost function EmptyState(f: Fabric): State {
    seq(|f.net.intLinks|, _ => [])
  }

  /** Every state of every run from the empty network is legitimate. */
  lemma {:induction false} RunsStayLegit(f: Fabric, cap: nat, states: seq<State>, steps: seq<Step>, m: nat)
    requires f.Valid() && IsRun(f, cap, states, steps) && states[0] == EmptyState(f) && m < |states|
    ensures Legit(f, cap, states[m])
  {
    if m == 0 {
      forall k | 0 <= k < |states[0]| ensures QueueLegit(f, cap, k, states[0][k]) {}
    } else {
      RunsStayLegit(f, cap, states, steps, m - 1);
      assert Enabled(f, cap, states[m - 1], steps[m - 1]) &&
             states[m - 1 + 1] == After(f, cap, states[m - 1], steps[m - 1]);
      StepKeepsLegit(f, cap, states[m - 1], steps[m - 1]);
    }
  }

  /** So no run, of any length, ever gets stuck while a packet is in flight. */
  lemma NoRunDeadlocks(f: Fabric, cap: nat, states: seq<State>, steps: seq<Step>) returns (step: Step)
    requires Safe(f) && cap > 0 && IsRun(f, cap, states, steps) && states[0] == EmptyState(f)
    requires exists k: nat :: Busy(states[|steps|], k)
    ensures Enabled(f, cap, states[|steps|], step) && !step.Inject?
  {
    RunsStayLegit(f, cap, states, steps, |steps|);
    var k := DeadlockFree(f, cap, states[|steps|]);
    step := UnblockedMoves(f, cap, states[|steps|], k);
  }

  lemma {:induction false} DrainAccount(f: Fabric, cap: nat, states: seq<State>, steps: seq<Step>, m: nat)
    requires f.Valid() && IsRun(f, cap, states, steps) && Legit(f, cap, states[0]) && m < |states|
    requires forall n | 0 <= n < |steps| :: !steps[n].Inject?
    ensures Legit(f, cap, states[m]) && Work(f, cap, states[m]) == Work(f, cap, states[0]) - m
  {
    if m > 0 {
      DrainAccount(f, cap, states, steps, m - 1);
      assert Enabled(f, cap, states[m - 1], steps[m - 1]) &&
             states[m - 1 + 1] == After(f, cap, states[m - 1], steps[m - 1]);
      MovePaysOne(f, cap, states[m - 1], steps[m - 1]);
    }
  }

  /** Once injection stops the network drains: no schedule of moves is longer than the remaining work,
      and one that cannot be continued has delivered every packet after exactly that many steps. */
  lemma NetworkDrains(f: Fabric, cap: nat, states: seq<State>, steps: seq<Step>)
    requires Safe(f) && cap > 0 && IsRun(f, cap, states, steps) && Legit(f, cap, states[0])
    requires forall n | 0 <= n < |steps| :: !steps[n].Inject?
    ensures |steps| <= Work(f, cap, states[0])
    ensures (forall step: Step | !step.Inject? :: !Enabled(f, cap, states[|steps|], step)) ==>
              (forall k: nat :: !Busy(states[|steps|], k)) && |steps| == Work(f, cap, states[0])
  {
    DrainAccount(f, cap, states, steps, |steps|);
    var last := states[|steps|];
    if exists k: nat :: Busy(last, k) {
      var k := DeadlockFree(f, cap, last);
      var step := UnblockedMoves(f, cap, last, k);
    } else {
      LegitBound(f, cap, last);
      IdleMeansNoWork(f, last, 0);
    }
  }

  lemma {:induction false} IdleMeansNoWork(f: Fabric, s: State, k: nat)
    requires f.Valid() && |s| == |f.net.intLinks| && k <= |s|
    requires AllBound(f, s)
    requires forall m: nat :: !Busy(s, m)
    ensures WorkFrom(f, s, k) == 0
    decreases |s| - k
  {
    if k < |s| {
      assert !Busy(s, k);
      IdleMeansNoWork(f, s, k + 1);
    }
  }
}
