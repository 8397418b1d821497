/** The reordering print queue of the O3 pipeline viewer. */
module Pipeview {
  import opened Arithmetic
  import opened StableSort

  /** One dynamic instruction: its sequence number, the tick of each stage seen so far, its text. */
  datatype Inst = Inst(sn: int, ticks: map<string, int>, pc: string, upc: string, disasm: string)

  /** Thresholds and printing window. */
  datatype Settings = Settings(
    maxThreshold: nat, minThreshold: nat,
    snStart: int, snStop: int, tickStart: int, tickStop: int, tickDrift: int, onlyCommitted: bool)

  predicate InOrder(a: Inst, b: Inst) {
    a.sn <= b.sn
  }

  function Tick(x: Inst, stage: string): int {
    if stage in x.ticks then x.ticks[stage] else 0
  }

  /** The instruction passes the window filters. */
  predicate Shown(cfg: Settings, x: Inst) {
    && !(cfg.snStart > 0 && x.sn < cfg.snStart)
    && !(cfg.snStop > 0 && x.sn > cfg.snStop)
    && !(cfg.tickStart > 0 && Tick(x, "fetch") < cfg.tickStart)
    && !(cfg.tickStop > 0 && Tick(x, "fetch") > cfg.tickStop)
    && !(cfg.onlyCommitted && Tick(x, "retire") == 0)
  }

  function Filter(cfg: Settings, s: seq<Inst>): seq<Inst> {
    if s == [] then [] else (if Shown(cfg, s[0]) then [s[0]] else []) + Filter(cfg, s[1..])
  }

  lemma {:induction false} FilterAppend(cfg: Settings, s: seq<Inst>, t: seq<Inst>)
    ensures Filter(cfg, s + t) == Filter(cfg, s) + Filter(cfg, t)
  {
    if s == [] {
      assert s + t == t;
    } else {
      assert (s + t)[1..] == s[1..] + t;
      FilterAppend(cfg, s[1..], t);
    }
  }

  /** An instruction is kept if it lies between the bounds, which are inclusive and ignored unless positive,
      and if it was committed when that is asked for. */
  lemma {:induction false} FilterMultiset(cfg: Settings, s: seq<Inst>, x: Inst)
    ensures multiset(Filter(cfg, s))[x] ==
              if && (cfg.snStart <= 0 || cfg.snStart <= x.sn) && (cfg.snStop <= 0 || x.sn <= cfg.snStop)
                 && (cfg.tickStart <= 0 || cfg.tickStart <= Tick(x, "fetch"))
                 && (cfg.tickStop <= 0 || Tick(x, "fetch") <= cfg.tickStop)
                 && (cfg.onlyCommitted ==> Tick(x, "retire") != 0)
              then multiset(s)[x] else 0
  {
    if s != [] {
      FilterMultiset(cfg, s[1..], x);
      assert s == [s[0]] + s[1..];
    }
  }

  /** Contents of the queue, and everything taken off it so far, printed or filtered out. */
  datatype View = View(queue: seq<Inst>, taken: seq<Inst>)

  /** print_insts: sort, then take from the front until `lower` instructions are left. */
  function Flush(v: View, lower: nat): View {
    var sorted := Sort(v.queue, InOrder);
    if |sorted| > lower
    then View(sorted[|sorted| - lower..], v.taken + sorted[..|sorted| - lower])
    else View(sorted, v.taken)
  }

  /** queue_inst */
  function Enqueue(cfg: Settings, v: View, x: Inst): View {
    var v' := View(v.queue + [x], v.taken);
    if |v'.queue| > cfg.maxThreshold then Flush(v', cfg.minThreshold) else v'
  }

  /** All instructions of xs queued one after the other. */
  function Feed(cfg: Settings, xs: seq<Inst>): View {
    if xs == [] then View([], []) else Enqueue(cfg, Feed(cfg, xs[..|xs| - 1]), xs[|xs| - 1])
  }

  /** What is printed for xs, including the final flush. */
  function Output(cfg: Settings, xs: seq<Inst>): seq<Inst> {
    Filter(cfg, Flush(Feed(cfg, xs), 0).taken)
  }

  lemma SortPutsInOrder(s: seq<Inst>)
    ensures Sorted(Sort(s, InOrder), InOrder) && |Sort(s, InOrder)| == |s|
  {
    SortSorted(s, InOrder);
    SortMultiset(s, InOrder);
  }

  // ---- Nothing is lost, invented or printed twice, in whatever order instructions arrive ----

  lemma FlushKeepsAll(v: View, lower: nat)
    ensures var v' := Flush(v, lower); multiset(v'.taken) + multiset(v'.queue) == multiset(v.taken) + multiset(v.queue)
    ensures |Flush(v, lower).queue| == if |v.queue| > lower then lower else |v.queue|
  {
    var sorted := Sort(v.queue, InOrder);
    SortMultiset(v.queue, InOrder);
    if |sorted| > lower {
      SplitMultiset(v.taken, sorted, |sorted| - lower);
    }
  }

  lemma SplitMultiset(p: seq<Inst>, s: seq<Inst>, n: nat)
    requires n <= |s|
    ensures multiset(p + s[..n]) + multiset(s[n..]) == multiset(p) + multiset(s)
  {
    assert s == s[..n] + s[n..];
  }

  lemma {:induction false} FeedKeepsAll(cfg: Settings, xs: seq<Inst>)
    ensures var v := Feed(cfg, xs); multiset(v.taken) + multiset(v.queue) == multiset(xs)
  {
    if xs != [] {
      var before, x := xs[..|xs| - 1], xs[|xs| - 1];
      FeedKeepsAll(cfg, before);
      assert xs == before + [x];
      var v := Feed(cfg, before);
      FlushKeepsAll(View(v.queue + [x], v.taken), cfg.minThreshold);
    }
  }

  /** Conservation: the output is exactly the multiset of queued instructions that pass the filters. */
  lemma OutputIsFilteredInput(cfg: Settings, xs: seq<Inst>)
    ensures multiset(Output(cfg, xs)) == multiset(Filter(cfg, xs))
    ensures forall x :: multiset(Output(cfg, xs))[x] ==
              if && (cfg.snStart <= 0 || cfg.snStart <= x.sn) && (cfg.snStop <= 0 || x.sn <= cfg.snStop)
                 && (cfg.tickStart <= 0 || cfg.tickStart <= Tick(x, "fetch"))
                 && (cfg.tickStop <= 0 || Tick(x, "fetch") <= cfg.tickStop)
                 && (cfg.onlyCommitted ==> Tick(x, "retire") != 0)
              then multiset(xs)[x] else 0
  {
    FeedKeepsAll(cfg, xs);
    var v := Feed(cfg, xs);
    FlushKeepsAll(v, 0);
    var all := Flush(v, 0).taken;
    assert Flush(v, 0).queue == [];
    assert multiset(all) == multiset(xs);
    forall x ensures multiset(Output(cfg, xs))[x] == multiset(Filter(cfg, xs))[x]
             ensures multiset(Filter(cfg, xs))[x] == if Shown(cfg, x) then multiset(xs)[x] else 0 {
      FilterMultiset(cfg, all, x);
      FilterMultiset(cfg, xs, x);
    }
  }

  // ---- Bounded disorder makes streaming as good as sorting everything ----

  /** How many instructions of s have a larger sequence number than sn. */
  function Above(s: seq<Inst>, sn: int): nat {
    if s == [] then 0 else Above(s[..|s| - 1], sn) + if s[|s| - 1].sn > sn then 1 else 0
  }

  /** No instruction is preceded by more than `places` instructions with a larger sequence number. */
  ghost predicate DisorderAtMost(xs: seq<Inst>, places: nat) {
    forall i | 0 <= i < |xs| :: Above(xs[..i], xs[i].sn) <= places
  }

  lemma {:induction false} AboveAppend(s: seq<Inst>, t: seq<Inst>, sn: int)
    ensures Above(s + t, sn) == Above(s, sn) + Above(t, sn)
  {
    if t == [] {
      assert s + t == s;
    } else {
      assert (s + t)[..|s + t| - 1] == s + t[..|t| - 1];
      AboveAppend(s, t[..|t| - 1], sn);
    }
  }

  lemma {:induction false} AboveInsert(s: seq<Inst>, x: Inst, sn: int)
    ensures Above(Insert(s, x, InOrder), sn) == Above(s, sn) + if x.sn > sn then 1 else 0
  {
    if s == [] {
      assert [x][..0] == [];
    } else if InOrder(s[|s| - 1], x) {
      assert (s + [x])[..|s|] == s;
    } else {
      var t, last := s[..|s| - 1], s[|s| - 1];
      AboveInsert(t, x, sn);
      var r := Insert(t, x, InOrder);
      assert (r + [last])[..|r|] == r;
    }
  }

  lemma {:induction false} AboveSort(s: seq<Inst>, sn: int)
    ensures Above(Sort(s, InOrder), sn) == Above(s, sn)
  {
    if s != [] {
      AboveSort(s[..|s| - 1], sn);
      AboveInsert(Sort(s[..|s| - 1], InOrder), s[|s| - 1], sn);
    }
  }

  lemma {:induction false} AllAbove(s: seq<Inst>, sn: int)
    requires forall i | 0 <= i < |s| :: s[i].sn > sn
    ensures Above(s, sn) == |s|
  {
    if s != [] {
      AllAbove(s[..|s| - 1], sn);
    }
  }

  // ---- How long the queue is ----

  /** Length of the queue after n arrivals; it does not depend on which instructions they are. */
  function QueueLength(cfg: Settings, n: nat): nat {
    if n == 0 then 0 else
    var l := QueueLength(cfg, n - 1) + 1;
    if l > cfg.maxThreshold && l > cfg.minThreshold then cfg.minThreshold else l
  }

  lemma {:induction false} QueueLengthIs(cfg: Settings, xs: seq<Inst>)
    ensures |Feed(cfg, xs).queue| == QueueLength(cfg, |xs|)
  {
    if xs != [] {
      var before, x := xs[..|xs| - 1], xs[|xs| - 1];
      QueueLengthIs(cfg, before);
      var v := Feed(cfg, before);
      FlushKeepsAll(View(v.queue + [x], v.taken), cfg.minThreshold);
    }
  }

  /** How many instructions the queue holds before any is taken off it. */
  function Capacity(cfg: Settings): nat {
    if cfg.minThreshold <= cfg.maxThreshold then cfg.maxThreshold else cfg.minThreshold
  }

  /** Its length n arrivals after the first time it overflowed. */
  function Sawtooth(cfg: Settings, n: nat): nat {
    cfg.minThreshold + n % (Capacity(cfg) - cfg.minThreshold + 1)
  }

  lemma SawtoothStep(cfg: Settings, n: nat)
    ensures Sawtooth(cfg, 0) == cfg.minThreshold && Sawtooth(cfg, n) <= Capacity(cfg)
    ensures Sawtooth(cfg, n + 1) == if Sawtooth(cfg, n) == Capacity(cfg) then cfg.minThreshold else Sawtooth(cfg, n) + 1
  {
    NextRemainder(n, Capacity(cfg) - cfg.minThreshold + 1);
  }

  /** It fills up to its capacity once, and from then on goes back and forth between the thresholds. */
  lemma {:induction false} QueueLengthClosed(cfg: Settings, n: nat)
    ensures QueueLength(cfg, n) == if n <= Capacity(cfg) then n else Sawtooth(cfg, n - Capacity(cfg) - 1)
    ensures n > Capacity(cfg) ==> QueueLength(cfg, n) >= cfg.minThreshold
  {
    SawtoothStep(cfg, 0);
    if n > 0 {
      QueueLengthClosed(cfg, n - 1);
      if n - 1 > Capacity(cfg) {
        SawtoothStep(cfg, n - Capacity(cfg) - 2);
      }
    }
  }

  /** No instruction is preceded by more instructions with a larger sequence number than the queue holds
      when it arrives. */
  ghost predicate Timely(cfg: Settings, xs: seq<Inst>) {
    forall i | 0 <= i < |xs| :: TimelyAt(cfg, xs[..i], xs[i])
  }

  ghost predicate TimelyAt(cfg: Settings, before: seq<Inst>, x: Inst) {
    Above(before, x.sn) <= QueueLength(cfg, |before|)
  }

  lemma {:induction false} AboveAtMostAll(s: seq<Inst>, sn: int)
    ensures Above(s, sn) <= |s|
  {
    if s != [] {
      AboveAtMostAll(s[..|s| - 1], sn);
    }
  }

  /** The documented assumption is enough. */
  lemma BoundedIsTimely(cfg: Settings, xs: seq<Inst>)
    requires DisorderAtMost(xs, cfg.minThreshold)
    ensures Timely(cfg, xs)
  {
    forall i | 0 <= i < |xs| ensures TimelyAt(cfg, xs[..i], xs[i]) {
      AboveAtMostAll(xs[..i], xs[i].sn);
      QueueLengthClosed(cfg, i);
    }
  }

  // ---- In-time arrivals keep the printed part sorted ----

  /** What holds between arrivals: sorting everything seen so far gives what was taken followed by the
      sorted queue. */
  ghost predicate InStep(v: View, xs: seq<Inst>) {
    v.taken + Sort(v.queue, InOrder) == Sort(xs, InOrder)
  }

  /** An arrival belongs behind everything taken already exactly if it is not preceded by more larger
      sequence numbers than the queue holds. */
  lemma InTimeExactly(v: View, xs: seq<Inst>, x: Inst)
    requires InStep(v, xs)
    ensures Above(xs, x.sn) <= |v.queue| <==> forall i | 0 <= i < |v.taken| :: InOrder(v.taken[i], x)
  {
    var all, held, n := Sort(xs, InOrder), Sort(v.queue, InOrder), |v.taken|;
    SortPutsInOrder(xs);
    SortPutsInOrder(v.queue);
    AboveSort(xs, x.sn);
    AboveAppend(v.taken, held, x.sn);
    AboveAtMostAll(held, x.sn);
    if forall i | 0 <= i < n :: InOrder(v.taken[i], x) {
      NothingAbove(v.taken, x.sn);
    } else {
      var i :| 0 <= i < n && !InOrder(v.taken[i], x);
      AboveTail(all, i, x.sn);
    }
  }

  lemma AboveTail(s: seq<Inst>, i: nat, sn: int)
    requires i < |s| && Sorted(s, InOrder) && s[i].sn > sn
    ensures Above(s, sn) >= |s| - i
  {
    assert s == s[..i] + s[i..];
    AboveAppend(s[..i], s[i..], sn);
    forall k | 0 <= k < |s[i..]| ensures s[i..][k].sn > sn {
      assert k > 0 ==> InOrder(s[i], s[i + k]);
    }
    AllAbove(s[i..], sn);
  }

  lemma {:induction false} NothingAbove(s: seq<Inst>, sn: int)
    requires forall i | 0 <= i < |s| :: s[i].sn <= sn
    ensures Above(s, sn) == 0
  {
    if s != [] {
      NothingAbove(s[..|s| - 1], sn);
    }
  }

  lemma SplitSorted(p: seq<Inst>, s: seq<Inst>, n: nat)
    requires n <= |s| && Sorted(s, InOrder)
    ensures (p + s[..n]) + Sort(s[n..], InOrder) == p + s
  {
    SortOfSorted(s[n..], InOrder);
    assert s == s[..n] + s[n..];
  }

  lemma FlushStaysInStep(v: View, xs: seq<Inst>, lower: nat)
    requires InStep(v, xs)
    ensures InStep(Flush(v, lower), xs)
  {
    var sorted := Sort(v.queue, InOrder);
    SortPutsInOrder(v.queue);
    if |sorted| > lower {
      SplitSorted(v.taken, sorted, |sorted| - lower);
    } else {
      SortOfSorted(sorted, InOrder);
    }
  }

  lemma EnqueueStaysInStep(cfg: Settings, v: View, xs: seq<Inst>, x: Inst)
    requires InStep(v, xs) && Above(xs, x.sn) <= |v.queue|
    ensures InStep(Enqueue(cfg, v, x), xs + [x])
  {
    InTimeExactly(v, xs, x);
    SortAppend(xs, x, InOrder);
    SortAppend(v.queue, x, InOrder);
    InsertAfterPrefix(v.taken, Sort(v.queue, InOrder), x, InOrder);
    FlushStaysInStep(View(v.queue + [x], v.taken), xs + [x], cfg.minThreshold);
  }

  lemma TimelyPrefix(cfg: Settings, before: seq<Inst>, x: Inst)
    requires Timely(cfg, before + [x])
    ensures Timely(cfg, before) && TimelyAt(cfg, before, x)
  {
    var xs := before + [x];
    forall i | 0 <= i < |before| ensures TimelyAt(cfg, before[..i], before[i]) {
      assert before[..i] == xs[..i];
      assert TimelyAt(cfg, xs[..i], xs[i]);
    }
    assert xs[..|before|] == before;
    assert TimelyAt(cfg, xs[..|before|], xs[|before|]);
  }

  lemma {:induction false} FeedStaysInStep(cfg: Settings, xs: seq<Inst>)
    requires Timely(cfg, xs)
    ensures InStep(Feed(cfg, xs), xs)
  {
    if xs != [] {
      var before, x := xs[..|xs| - 1], xs[|xs| - 1];
      assert xs == before + [x];
      TimelyPrefix(cfg, before, x);
      FeedStaysInStep(cfg, before);
      QueueLengthIs(cfg, before);
      EnqueueStaysInStep(cfg, Feed(cfg, before), before, x);
    }
  }

  lemma TimelySorts(cfg: Settings, xs: seq<Inst>)
    requires Timely(cfg, xs)
    ensures Output(cfg, xs) == Filter(cfg, Sort(xs, InOrder))
  {
    FeedStaysInStep(cfg, xs);
    var v := Feed(cfg, xs);
    var sorted := Sort(v.queue, InOrder);
    if |sorted| > 0 {
      assert sorted[..|sorted| - 0] == sorted;
    }
    assert Flush(v, 0).taken == v.taken + sorted;
  }

  /** What has left the queue before the final flush: all but the largest sequence numbers. */
  lemma TimelyTaken(cfg: Settings, xs: seq<Inst>)
    requires Timely(cfg, xs)
    ensures |Sort(xs, InOrder)| == |xs| && QueueLength(cfg, |xs|) <= |xs|
    ensures Feed(cfg, xs).taken == Sort(xs, InOrder)[..|xs| - QueueLength(cfg, |xs|)]
  {
    FeedStaysInStep(cfg, xs);
    QueueLengthIs(cfg, xs);
    SortPutsInOrder(xs);
    SortPutsInOrder(Feed(cfg, xs).queue);
  }

  /** The streaming queue refines sorting the whole trace: when no instruction is out of order by more
      than minThreshold places, the output is the filtered stable sort of all queued instructions. */
  lemma StreamingIsSorting(cfg: Settings, xs: seq<Inst>)
    requires DisorderAtMost(xs, cfg.minThreshold)
    ensures Output(cfg, xs) == Filter(cfg, Sort(xs, InOrder))
  {
    BoundedIsTimely(cfg, xs);
    TimelySorts(cfg, xs);
  }

  lemma {:induction false} FilterSorted(cfg: Settings, s: seq<Inst>)
    requires Sorted(s, InOrder)
    ensures Sorted(Filter(cfg, s), InOrder)
    ensures forall x | x in Filter(cfg, s) :: x in s
  {
    if s != [] {
      FilterSorted(cfg, s[1..]);
      var rest := Filter(cfg, s[1..]);
      forall j | 0 <= j < |rest| ensures InOrder(s[0], rest[j]) {
        assert rest[j] in s[1..];
      }
    }
  }

  /** In particular the whole output is in order of sequence numbers. */
  lemma OutputSorted(cfg: Settings, xs: seq<Inst>)
    requires DisorderAtMost(xs, cfg.minThreshold)
    ensures Sorted(Output(cfg, xs), InOrder)
  {
    StreamingIsSorting(cfg, xs);
    SortPutsInOrder(xs);
    FilterSorted(cfg, Sort(xs, InOrder));
  }

  // ---- Instructions with equal sequence numbers keep their order ----

  lemma {:induction false} LevelAppend(s: seq<Inst>, t: seq<Inst>, v: Inst)
    ensures Level(s + t, v, InOrder) == Level(s, v, InOrder) + Level(t, v, InOrder)
  {
    if t == [] {
      assert s + t == s;
    } else {
      var n := |t| - 1;
      assert (s + t)[..|s| + n] == s + t[..n];
      LevelAppend(s, t[..n], v);
    }
  }

  lemma {:induction false} FilterLevel(cfg: Settings, s: seq<Inst>, v: Inst)
    ensures Level(Filter(cfg, s), v, InOrder) == Filter(cfg, Level(s, v, InOrder))
  {
    if s != [] {
      var x, rest := s[0], s[1..];
      assert s == [x] + rest && [x][..0] == [] && [x][1..] == [];
      FilterLevel(cfg, rest, v);
      LevelAppend([x], rest, v);
      LevelAppend(if Shown(cfg, x) then [x] else [], Filter(cfg, rest), v);
      FilterAppend(cfg, Level([x], v, InOrder), Level(rest, v, InOrder));
    }
  }

  /** Within the bound, instructions with the sequence number of v are printed in order of arrival. */
  lemma OutputStable(cfg: Settings, xs: seq<Inst>, v: Inst)
    requires DisorderAtMost(xs, cfg.minThreshold)
    ensures Level(Output(cfg, xs), v, InOrder) == Level(Filter(cfg, xs), v, InOrder)
  {
    StreamingIsSorting(cfg, xs);
    FilterLevel(cfg, Sort(xs, InOrder), v);
    SortStable(xs, v, InOrder);
    FilterLevel(cfg, xs, v);
  }

  // ---- Late arrivals always show ----

  ghost predicate Unfiltered(cfg: Settings) {
    forall x: Inst :: Shown(cfg, x)
  }

  lemma {:induction false} FilterNothing(cfg: Settings, s: seq<Inst>)
    requires Unfiltered(cfg)
    ensures Filter(cfg, s) == s
  {
    if s != [] {
      FilterNothing(cfg, s[1..]);
      assert s == [s[0]] + s[1..];
    }
  }

  /** x is still to come behind the instructions of p. */
  ghost predicate Behind(v: View, p: seq<Inst>, x: Inst) {
    |p| <= |v.taken| && v.taken[..|p|] == p && (x in v.queue || x in v.taken[|p|..])
  }

  lemma FlushKeepsBehind(v: View, lower: nat, p: seq<Inst>, x: Inst)
    requires Behind(v, p, x)
    ensures Behind(Flush(v, lower), p, x)
  {
    var sorted, v' := Sort(v.queue, InOrder), Flush(v, lower);
    SortMultiset(v.queue, InOrder);
    if x in v.queue {
      assert x in multiset(sorted);
      var k :| 0 <= k < |sorted| && sorted[k] == x;
      var n := if |sorted| > lower then |sorted| - lower else 0;
      if k < n {
        assert v'.taken[|p|..][|v.taken| - |p| + k] == x;
      } else {
        assert v'.queue[k - n] == x;
      }
    } else {
      var k :| 0 <= k < |v.taken[|p|..]| && v.taken[|p|..][k] == x;
      assert v'.taken[|p|..][k] == x;
    }
  }

  lemma EnqueueKeepsBehind(cfg: Settings, v: View, y: Inst, p: seq<Inst>, x: Inst)
    requires Behind(v, p, x) || (v.taken == p && x == y)
    ensures Behind(Enqueue(cfg, v, y), p, x)
  {
    var v' := View(v.queue + [y], v.taken);
    assert v'.queue[|v.queue|] == y;
    assert Behind(v', p, x);
    FlushKeepsBehind(v', cfg.minThreshold, p, x);
  }

  /** Whatever was taken when xs[i] arrived stays in front of it. */
  lemma {:induction false} FeedKeepsBehind(cfg: Settings, xs: seq<Inst>, i: nat)
    requires i < |xs|
    ensures Behind(Feed(cfg, xs), Feed(cfg, xs[..i]).taken, xs[i])
  {
    var before, p := xs[..|xs| - 1], Feed(cfg, xs[..i]).taken;
    if i < |xs| - 1 {
      FeedKeepsBehind(cfg, before, i);
      assert before[..i] == xs[..i];
    }
    EnqueueKeepsBehind(cfg, Feed(cfg, before), xs[|xs| - 1], p, xs[i]);
  }

  lemma TimelyAppend(cfg: Settings, before: seq<Inst>, x: Inst)
    requires Timely(cfg, before) && TimelyAt(cfg, before, x)
    ensures Timely(cfg, before + [x])
  {
    var xs := before + [x];
    forall i | 0 <= i < |xs| ensures TimelyAt(cfg, xs[..i], xs[i]) {
      if i < |before| {
        assert xs[..i] == before[..i] && TimelyAt(cfg, before[..i], before[i]);
      } else {
        assert xs[..i] == before;
      }
    }
  }

  lemma {:induction false} FirstLate(cfg: Settings, xs: seq<Inst>) returns (i: nat)
    requires !Timely(cfg, xs)
    ensures i < |xs| && !TimelyAt(cfg, xs[..i], xs[i]) && Timely(cfg, xs[..i])
  {
    i := |xs| - 1;
    var before := xs[..i];
    assert xs == before + [xs[i]];
    if !Timely(cfg, before) {
      i := FirstLate(cfg, before);
      assert before[..i] == xs[..i];
    } else if TimelyAt(cfg, before, xs[i]) {
      TimelyAppend(cfg, before, xs[i]);
    }
  }

  lemma BehindShows(cfg: Settings, v: View, p: seq<Inst>, x: Inst, j: nat)
    requires Behind(v, p, x) && v.queue == [] && j < |p| && !InOrder(p[j], x)
    ensures !Sorted(v.taken, InOrder)
  {
    var k :| 0 <= k < |v.taken[|p|..]| && v.taken[|p|..][k] == x;
    assert v.taken[..|p|][j] == v.taken[j];
    assert !InOrder(v.taken[j], v.taken[|p| + k]);
  }

  /** Something larger was taken before the first late arrival. */
  lemma TakenTooSoon(cfg: Settings, xs: seq<Inst>, x: Inst) returns (j: nat)
    requires Timely(cfg, xs) && !TimelyAt(cfg, xs, x)
    ensures j < |Feed(cfg, xs).taken| && !InOrder(Feed(cfg, xs).taken[j], x)
  {
    FeedStaysInStep(cfg, xs);
    QueueLengthIs(cfg, xs);
    InTimeExactly(Feed(cfg, xs), xs, x);
    j :| 0 <= j < |Feed(cfg, xs).taken| && !InOrder(Feed(cfg, xs).taken[j], x);
  }

  lemma LateShows(cfg: Settings, xs: seq<Inst>)
    requires Unfiltered(cfg) && !Timely(cfg, xs)
    ensures !Sorted(Output(cfg, xs), InOrder)
  {
    var i := FirstLate(cfg, xs);
    var p := Feed(cfg, xs[..i]).taken;
    var j := TakenTooSoon(cfg, xs[..i], xs[i]);
    FeedKeepsBehind(cfg, xs, i);
    FlushKeepsBehind(Feed(cfg, xs), 0, p, xs[i]);
    FlushKeepsAll(Feed(cfg, xs), 0);
    BehindShows(cfg, Flush(Feed(cfg, xs), 0), p, xs[i], j);
    FilterNothing(cfg, Flush(Feed(cfg, xs), 0).taken);
  }

  /** Exactly which traces are printed in order, when no window filter hides instructions. */
  lemma SortedExactlyWhenTimely(cfg: Settings, xs: seq<Inst>)
    requires Unfiltered(cfg)
    ensures Sorted(Output(cfg, xs), InOrder) <==> Timely(cfg, xs)
  {
    if Timely(cfg, xs) {
      TimelySorts(cfg, xs);
      SortPutsInOrder(xs);
      FilterSorted(cfg, Sort(xs, InOrder));
    } else {
      LateShows(cfg, xs);
    }
  }

  // ---- The documented bound cannot be raised ----

  function Numbered(sn: int): Inst {
    Inst(sn, map[], "", "", "")
  }

  /** Instructions 0, 2, 4, ..., 2(n-1). */
  function Ramp(n: nat): (s: seq<Inst>)
    ensures |s| == n && forall i | 0 <= i < n :: s[i] == Numbered(2 * i)
  {
    seq(n, i => Numbered(2 * i))
  }

  lemma AboveRamp(n: nat, k: nat)
    requires k < n
    ensures Above(Ramp(n), 2 * k - 1) == n - k
  {
    var s := Ramp(n);
    assert s == s[..k] + s[k..];
    AboveAppend(s[..k], s[k..], 2 * k - 1);
    NothingAbove(s[..k], 2 * k - 1);
    AllAbove(s[k..], 2 * k - 1);
  }

  /** A ramp followed by an instruction that belongs before its k-th one. */
  lemma StragglerDisorder(n: nat, k: nat)
    requires k < n
    ensures DisorderAtMost(Ramp(n) + [Numbered(2 * k - 1)], n - k)
  {
    var xs := Ramp(n) + [Numbered(2 * k - 1)];
    forall i | 0 <= i < |xs| ensures Above(xs[..i], xs[i].sn) <= n - k {
      if i < n {
        assert xs[..i] == Ramp(n)[..i];
        NothingAbove(xs[..i], xs[i].sn);
      } else {
        assert xs[..n] == Ramp(n);
        AboveRamp(n, k);
      }
    }
  }

  /** One place more of disorder and the output can be out of order: the guarantee does not hold for
      minThreshold + 1 places, whatever the thresholds. */
  lemma BoundIsTight(cfg: Settings) returns (xs: seq<Inst>)
    requires Unfiltered(cfg)
    ensures DisorderAtMost(xs, cfg.minThreshold + 1) && !Sorted(Output(cfg, xs), InOrder)
  {
    var n, k := Capacity(cfg) + 1, Capacity(cfg) - cfg.minThreshold;
    xs := Ramp(n) + [Numbered(2 * k - 1)];
    StragglerDisorder(n, k);
    AboveRamp(n, k);
    QueueLengthClosed(cfg, n);
    assert xs[..n] == Ramp(n) && !TimelyAt(cfg, xs[..n], xs[n]);
    SortedExactlyWhenTimely(cfg, xs);
  }
}
