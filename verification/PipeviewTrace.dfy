/** The viewer itself: the global queue, and the trace loop that fills it. */
module PipeviewTrace {
  import opened StableSort
  import opened Pipeview

  /** A trace line. Lines of other trace flags are `Foreign`. */
  datatype Line =
    | Foreign
    | Fetch(tick: int, pc: string, upc: string, sn: int, disasm: string)
    | Stage(name: string, stageTick: int)
    | Retire(retireTick: int, store: string, storeTick: int)

  datatype Outcome = Finished | TypeError

  /** A fetch beyond the end of the window by more than the permitted drift. */
  predicate PastEnd(cfg: Settings, l: Line) {
    l.Fetch? && (|| (cfg.tickStop > 0 && l.tick > cfg.tickStop + cfg.tickDrift)
                 || (cfg.snStop > 0 && l.sn > cfg.snStop + cfg.maxThreshold))
  }

  ghost predicate RunsPastEnd(cfg: Settings, lines: seq<Line>) {
    exists i :: 0 <= i < |lines| && PastEnd(cfg, lines[i])
  }

  /** The instruction record, which the loop never clears, after one more line. */
  function Absorb(cur: Inst, l: Line, storeCompletions: bool): Inst {
    match l
    case Foreign => cur
    case Fetch(tick, pc, upc, sn, disasm) => Inst(sn, cur.ticks["fetch" := tick], pc, upc, disasm)
    case Stage(name, tick) => cur.(ticks := cur.ticks[name := tick])
    case Retire(tick, store, storeTick) =>
      var text := if tick == 0 then "-----" + cur.disasm else cur.disasm;
      var ticks := cur.ticks["retire" := tick];
      cur.(ticks := if storeCompletions then ticks[store := storeTick] else ticks, disasm := text)
  }

  /** The instructions that a stretch of trace queues, in order of retirement. */
  function Retired(cur: Inst, lines: seq<Line>, storeCompletions: bool): seq<Inst>
    decreases lines
  {
    if lines == [] then [] else
    var next := Absorb(cur, lines[0], storeCompletions);
    (if lines[0].Retire? then [next] else []) + Retired(next, lines[1..], storeCompletions)
  }

  /** Number of lines to skip before the region of interest: up to the first line at or after the
      start, then on to the next fetch. */
  predicate AtStart(cfg: Settings, l: Line) {
    if cfg.tickStart != 0 then
      match l
      case Foreign => false
      case Fetch(tick, _, _, _, _) => tick >= cfg.tickStart
      case Stage(_, tick) => tick >= cfg.tickStart
      case Retire(tick, _, _) => tick >= cfg.tickStart
    else if cfg.snStart != 0 then l.Fetch? && l.sn >= cfg.snStart
    else true
  }

  function FirstFrom(lines: seq<Line>, from: nat, p: Line -> bool): (n: nat)
    requires from <= |lines|
    ensures from <= n <= |lines|
    ensures n < |lines| ==> p(lines[n])
    ensures forall i | from <= i < n :: !p(lines[i])
    decreases |lines| - from
  {
    if from == |lines| || p(lines[from]) then from else FirstFrom(lines, from + 1, p)
  }

  function Region(cfg: Settings, lines: seq<Line>): seq<Line> {
    lines[FirstFrom(lines, FirstFrom(lines, 0, l => AtStart(cfg, l)), (l: Line) => l.Fetch?)..]
  }

  /** The lines up to the first that is past the end. */
  function UpToEnd(cfg: Settings, region: seq<Line>): seq<Line> {
    region[..FirstFrom(region, 0, l => PastEnd(cfg, l))]
  }

  lemma OneMore(cfg: Settings, before: seq<Inst>, sorted: seq<Inst>, n: nat)
    requires n < |sorted|
    ensures before + sorted[..n + 1] == (before + sorted[..n]) + [sorted[n]]
    ensures Filter(cfg, (before + sorted[..n]) + [sorted[n]])
              == Filter(cfg, before + sorted[..n]) + if Shown(cfg, sorted[n]) then [sorted[n]] else []
    ensures sorted[n..][1..] == sorted[n + 1..]
  {
    FilterAppend(cfg, before + sorted[..n], [sorted[n]]);
    assert [sorted[n]][1..] == [];
  }

  function Final(cur: Inst, lines: seq<Line>, storeCompletions: bool): Inst
    decreases lines
  {
    if lines == [] then cur else Final(Absorb(cur, lines[0], storeCompletions), lines[1..], storeCompletions)
  }

  lemma {:induction false} RetiredStep(cur: Inst, lines: seq<Line>, l: Line, storeCompletions: bool)
    ensures var next := Absorb(Final(cur, lines, storeCompletions), l, storeCompletions);
            && Final(cur, lines + [l], storeCompletions) == next
            && Retired(cur, lines + [l], storeCompletions)
                 == Retired(cur, lines, storeCompletions) + if l.Retire? then [next] else []
    decreases lines
  {
    var all := lines + [l];
    if lines == [] {
      assert all[1..] == [];
    } else {
      assert all[1..] == lines[1..] + [l];
      RetiredStep(Absorb(cur, lines[0], storeCompletions), lines[1..], l, storeCompletions);
    }
  }

  lemma FeedAppend(cfg: Settings, xs: seq<Inst>, x: Inst)
    ensures Feed(cfg, xs + [x]) == Enqueue(cfg, Feed(cfg, xs), x)
  {
    assert (xs + [x])[..|xs|] == xs;
  }

  const BLANK := Inst(0, map[], "", "", "")

  class Viewer {
    const cfg: Settings
    var queue: seq<Inst>
    var printed: seq<Inst>
    ghost var taken: seq<Inst>

    ghost predicate Valid()
      reads this
    {
      printed == Filter(cfg, taken)
    }

    ghost function AsView(): View
      reads this
    {
      View(queue, taken)
    }

    constructor (cfg: Settings)
      ensures Valid() && this.cfg == cfg && AsView() == View([], [])
    {
      this.cfg := cfg;
      queue, printed, taken := [], [], [];
    }

    /** print_insts */
    method PrintInsts(lower: nat)
      requires Valid()
      modifies this
      ensures Valid() && AsView() == Flush(old(AsView()), lower)
      ensures forall x :: multiset(printed)[x] ==
                if && (cfg.snStart <= 0 || cfg.snStart <= x.sn) && (cfg.snStop <= 0 || x.sn <= cfg.snStop)
                   && (cfg.tickStart <= 0 || cfg.tickStart <= Tick(x, "fetch"))
                   && (cfg.tickStop <= 0 || Tick(x, "fetch") <= cfg.tickStop)
                   && (cfg.onlyCommitted ==> Tick(x, "retire") != 0)
                then multiset(taken)[x] else 0
    {
      SortPutsInOrder(queue);
      queue := Sort(queue, InOrder);
      ghost var sorted, n := queue, 0;
      while |queue| > lower
        invariant n <= |sorted| && queue == sorted[n..] && taken == old(taken) + sorted[..n]
        invariant printed == Filter(cfg, taken)
        invariant n == 0 || |queue| >= lower
      {
        var item := queue[0];
        OneMore(cfg, old(taken), sorted, n);
        queue, taken := queue[1..], taken + [item];
        if Shown(cfg, item) {
          printed := printed + [item];
        }
        n := n + 1;
      }
      assert n == if |sorted| > lower then |sorted| - lower else 0;
      assert sorted[..0] == [] && sorted[0..] == sorted;
      forall x ensures multiset(printed)[x] == if Shown(cfg, x) then multiset(taken)[x] else 0 {
        FilterMultiset(cfg, taken, x);
      }
    }

    /** queue_inst */
    method QueueInst(inst: Inst)
      requires Valid()
      modifies this
      ensures Valid() && AsView() == Enqueue(cfg, old(AsView()), inst)
    {
      queue := queue + [inst];
      if |queue| > cfg.maxThreshold {
        PrintInsts(cfg.minThreshold);
      }
    }

    /** process_trace. The call that should flush the queue at an early stop passes one argument too
        few, so reaching it raises with the queue still full; the end of the trace flushes everything. */
    method ProcessTrace(lines: seq<Line>, storeCompletions: bool) returns (outcome: Outcome)
      requires Valid() && AsView() == View([], [])
      modifies this
      ensures outcome == TypeError <==> RunsPastEnd(cfg, Region(cfg, lines))
      ensures var insts := Retired(BLANK, UpToEnd(cfg, Region(cfg, lines)), storeCompletions);
              printed == if outcome == TypeError then Filter(cfg, Feed(cfg, insts).taken) else Output(cfg, insts)
    {
      outcome := ProcessRegion(Region(cfg, lines), storeCompletions);
    }

    /** The rest of the loop body for a line that is not past the end. */
    method ReadLine(ghost before: seq<Line>, line: Line, cur0: Inst, storeCompletions: bool) returns (cur: Inst)
      requires Valid() && cur0 == Final(BLANK, before, storeCompletions)
      requires AsView() == Feed(cfg, Retired(BLANK, before, storeCompletions))
      modifies this
      ensures Valid() && cur == Final(BLANK, before + [line], storeCompletions)
      ensures AsView() == Feed(cfg, Retired(BLANK, before + [line], storeCompletions))
    {
      ghost var insts := Retired(BLANK, before, storeCompletions);
      RetiredStep(BLANK, before, line, storeCompletions);
      cur := Absorb(cur0, line, storeCompletions);
      if line.Retire? {
        FeedAppend(cfg, insts, cur);
        QueueInst(cur);
      } else {
        assert insts + [] == insts;
      }
    }

    /** The main loop over the region of interest. */
    method ProcessRegion(region: seq<Line>, storeCompletions: bool) returns (outcome: Outcome)
      requires Valid() && AsView() == View([], [])
      modifies this
      ensures outcome == TypeError <==> RunsPastEnd(cfg, region)
      ensures var insts := Retired(BLANK, UpToEnd(cfg, region), storeCompletions);
              printed == if outcome == TypeError then Filter(cfg, Feed(cfg, insts).taken) else Output(cfg, insts)
    {
      var cur, i := BLANK, 0;
      while i < |region|
        invariant 0 <= i <= |region| && Valid() && cur == Final(BLANK, region[..i], storeCompletions)
        invariant AsView() == Feed(cfg, Retired(BLANK, region[..i], storeCompletions))
        invariant forall k | 0 <= k < i :: !PastEnd(cfg, region[k])
      {
        if PastEnd(cfg, region[i]) {
          EndsAt(cfg, region, i);
          return TypeError;
        }
        assert region[..i + 1] == region[..i] + [region[i]];
        cur := ReadLine(region[..i], region[i], cur, storeCompletions);
        i := i + 1;
      }
      EndsAt(cfg, region, i);
      PrintInsts(0);
      return Finished;
    }
  }

  lemma EndsAt(cfg: Settings, region: seq<Line>, i: nat)
    requires i <= |region| && (forall k | 0 <= k < i :: !PastEnd(cfg, region[k]))
    requires i < |region| ==> PastEnd(cfg, region[i])
    ensures UpToEnd(cfg, region) == region[..i] && (RunsPastEnd(cfg, region) <==> i < |region|)
  {
    var n := FirstFrom(region, 0, l => PastEnd(cfg, l));
    assert n == i;
  }

  /** The end is passed exactly if some fetch beyond it comes after the start. */
  lemma RegionPastEnd(cfg: Settings, lines: seq<Line>)
    ensures RunsPastEnd(cfg, Region(cfg, lines)) <==>
              exists k, j :: 0 <= k <= j < |lines| && AtStart(cfg, lines[k]) && PastEnd(cfg, lines[j])
  {
    var start := FirstFrom(lines, 0, l => AtStart(cfg, l));
    var from := FirstFrom(lines, start, (l: Line) => l.Fetch?);
    var region := Region(cfg, lines);
    if RunsPastEnd(cfg, region) {
      var i :| 0 <= i < |region| && PastEnd(cfg, region[i]);
      assert AtStart(cfg, lines[start]) && PastEnd(cfg, lines[from + i]);
    }
    if k, j :| 0 <= k <= j < |lines| && AtStart(cfg, lines[k]) && PastEnd(cfg, lines[j]) {
      assert start <= k && from <= j;
      assert region[j - from] == lines[j];
    }
  }

  lemma {:induction false} RetiredTicked(cur: Inst, lines: seq<Line>, storeCompletions: bool)
    requires "fetch" in cur.ticks || lines == [] || lines[0].Fetch?
    ensures forall x | x in Retired(cur, lines, storeCompletions) :: "fetch" in x.ticks && "retire" in x.ticks
    decreases lines
  {
    if lines != [] {
      RetiredTicked(Absorb(cur, lines[0], storeCompletions), lines[1..], storeCompletions);
    }
  }

  lemma RegionTicked(cfg: Settings, lines: seq<Line>, storeCompletions: bool)
    ensures forall x | x in Retired(BLANK, UpToEnd(cfg, Region(cfg, lines)), storeCompletions) ::
              "fetch" in x.ticks && "retire" in x.ticks
  {
    RetiredTicked(BLANK, UpToEnd(cfg, Region(cfg, lines)), storeCompletions);
  }

  /** The window in terms of the record itself. */
  lemma OutputInWindow(cfg: Settings, insts: seq<Inst>)
    requires forall x | x in insts :: "fetch" in x.ticks && "retire" in x.ticks
    ensures forall x :: multiset(Output(cfg, insts))[x] ==
              if && x in insts
                 && (cfg.snStart <= 0 || cfg.snStart <= x.sn) && (cfg.snStop <= 0 || x.sn <= cfg.snStop)
                 && (cfg.tickStart <= 0 || cfg.tickStart <= x.ticks["fetch"])
                 && (cfg.tickStop <= 0 || x.ticks["fetch"] <= cfg.tickStop)
                 && (cfg.onlyCommitted ==> x.ticks["retire"] != 0)
              then multiset(insts)[x] else 0
  {
    OutputIsFilteredInput(cfg, insts);
  }

  lemma OutputWhenBounded(cfg: Settings, insts: seq<Inst>)
    requires DisorderAtMost(insts, cfg.minThreshold)
    ensures Output(cfg, insts) == Filter(cfg, Sort(insts, InOrder)) && Sorted(Output(cfg, insts), InOrder)
    ensures forall v :: Level(Output(cfg, insts), v, InOrder) == Level(Filter(cfg, insts), v, InOrder)
    ensures var n := |insts| - QueueLength(cfg, |insts|);
            0 <= n <= |Sort(insts, InOrder)| && Feed(cfg, insts).taken == Sort(insts, InOrder)[..n]
  {
    BoundedIsTimely(cfg, insts);
    TimelyTaken(cfg, insts);
    StreamingIsSorting(cfg, insts);
    OutputSorted(cfg, insts);
    forall v ensures Level(Output(cfg, insts), v, InOrder) == Level(Filter(cfg, insts), v, InOrder) {
      OutputStable(cfg, insts, v);
    }
  }

  /** A whole trace whose retirements are out of order by at most minThreshold places and that does not
      run past the end of the window is printed as the filtered stable sort of its instructions. */
  method ViewTrace(cfg: Settings, lines: seq<Line>, storeCompletions: bool)
    returns (outcome: Outcome, printed: seq<Inst>)
    ensures outcome == TypeError <==> exists k, j ::
              && 0 <= k <= j < |lines| && AtStart(cfg, lines[k]) && lines[j].Fetch?
              && (|| (cfg.tickStop > 0 && lines[j].tick > cfg.tickStop + cfg.tickDrift)
                  || (cfg.snStop > 0 && lines[j].sn > cfg.snStop + cfg.maxThreshold))
    ensures var insts := Retired(BLANK, UpToEnd(cfg, Region(cfg, lines)), storeCompletions);
            && (outcome == TypeError ==> printed == Filter(cfg, Feed(cfg, insts).taken))
            && (outcome == TypeError && DisorderAtMost(insts, cfg.minThreshold) ==>
                  var n := |insts| - QueueLength(cfg, |insts|);
                  0 <= n <= |Sort(insts, InOrder)| && printed == Filter(cfg, Sort(insts, InOrder)[..n]))
            && (outcome == Finished ==> multiset(printed) == multiset(Filter(cfg, insts)))
            && (outcome == Finished && Unfiltered(cfg) ==> (Sorted(printed, InOrder) <==> Timely(cfg, insts)))
            && (outcome == Finished && DisorderAtMost(insts, cfg.minThreshold) ==>
                  && printed == Filter(cfg, Sort(insts, InOrder)) && Sorted(printed, InOrder)
                  && forall v :: Level(printed, v, InOrder) == Level(Filter(cfg, insts), v, InOrder))
    ensures var insts := Retired(BLANK, UpToEnd(cfg, Region(cfg, lines)), storeCompletions);
            outcome == Finished ==> forall x ::
              && (x in insts ==> "fetch" in x.ticks && "retire" in x.ticks)
              && multiset(printed)[x] ==
                   if && x in insts
                      && (cfg.snStart <= 0 || cfg.snStart <= x.sn) && (cfg.snStop <= 0 || x.sn <= cfg.snStop)
                      && (cfg.tickStart <= 0 || cfg.tickStart <= x.ticks["fetch"])
                      && (cfg.tickStop <= 0 || x.ticks["fetch"] <= cfg.tickStop)
                      && (cfg.onlyCommitted ==> x.ticks["retire"] != 0)
                   then multiset(insts)[x] else 0
  {
    var viewer := new Viewer(cfg);
    outcome := viewer.ProcessTrace(lines, storeCompletions);
    printed := viewer.printed;
    ghost var insts := Retired(BLANK, UpToEnd(cfg, Region(cfg, lines)), storeCompletions);
    RegionPastEnd(cfg, lines);
    OutputIsFilteredInput(cfg, insts);
    RegionTicked(cfg, lines, storeCompletions);
    OutputInWindow(cfg, insts);
    if Unfiltered(cfg) {
      SortedExactlyWhenTimely(cfg, insts);
    }
    if DisorderAtMost(insts, cfg.minThreshold) {
      OutputWhenBounded(cfg, insts);
    }
  }

  /** One fetch far behind the last sequence number to show is enough for the TypeError. */
  lemma FetchPastStopRaises()
    ensures var cfg := Settings(2000, 1000, 0, 1, 0, 0, 2000, false);
            RunsPastEnd(cfg, Region(cfg, [Fetch(5, "", "", 2002, "")]))
  {
    var cfg, lines := Settings(2000, 1000, 0, 1, 0, 0, 2000, false), [Fetch(5, "", "", 2002, "")];
    assert AtStart(cfg, lines[0]) && lines[0].Fetch? && PastEnd(cfg, lines[0]);
    assert Region(cfg, lines)[0] == lines[0];
  }

  // ---- Skipping to the start hides nothing that would be shown ----

  /** No stage but the fetch writes the fetch tick. */
  predicate Plain(l: Line) {
    match l
    case Stage(name, _) => name != "fetch"
    case Retire(_, store, _) => store != "fetch"
    case _ => true
  }

  /** The two records tell the same about the last fetch. */
  predicate SameFetch(x: Inst, y: Inst) {
    x.sn == y.sn && x.pc == y.pc && x.upc == y.upc && x.disasm == y.disasm && Tick(x, "fetch") == Tick(y, "fetch")
  }

  ghost predicate SameInsts(xs: seq<Inst>, ys: seq<Inst>) {
    && |xs| == |ys|
    && forall i | 0 <= i < |xs| :: SameFetch(xs[i], ys[i]) && Tick(xs[i], "retire") == Tick(ys[i], "retire")
  }

  /** The record was fetched before the start. */
  predicate Early(cfg: Settings, x: Inst) {
    if cfg.tickStart > 0 then Tick(x, "fetch") < cfg.tickStart else x.sn < cfg.snStart
  }

  lemma SameAfter(cfg: Settings, x: Inst, y: Inst, l: Line, storeCompletions: bool)
    requires SameFetch(x, y)
    ensures var x', y' := Absorb(x, l, storeCompletions), Absorb(y, l, storeCompletions);
            && SameFetch(x', y')
            && (l.Retire? ==> Tick(x', "retire") == Tick(y', "retire") && (Shown(cfg, x') <==> Shown(cfg, y')))
  {
  }

  lemma {:induction false} SameFromHere(cfg: Settings, x: Inst, y: Inst, lines: seq<Line>, storeCompletions: bool)
    requires SameFetch(x, y)
    ensures SameInsts(Filter(cfg, Retired(x, lines, storeCompletions)),
                      Filter(cfg, Retired(y, lines, storeCompletions)))
    decreases lines
  {
    if lines != [] {
      var l, rest := lines[0], lines[1..];
      var x', y' := Absorb(x, l, storeCompletions), Absorb(y, l, storeCompletions);
      SameAfter(cfg, x, y, l, storeCompletions);
      SameFromHere(cfg, x', y', rest, storeCompletions);
      FilterOne(cfg, x', l.Retire?, Retired(x', rest, storeCompletions));
      FilterOne(cfg, y', l.Retire?, Retired(y', rest, storeCompletions));
    }
  }

  lemma FilterOne(cfg: Settings, x: Inst, there: bool, rest: seq<Inst>)
    ensures Filter(cfg, (if there then [x] else []) + rest)
              == (if there && Shown(cfg, x) then [x] else []) + Filter(cfg, rest)
  {
    if there {
      assert ([x] + rest)[1..] == rest;
    } else {
      assert [] + rest == rest;
    }
  }

  lemma {:induction false} EarlyHidden(cfg: Settings, cur: Inst, lines: seq<Line>, more: seq<Line>,
                                       storeCompletions: bool)
    requires cfg.tickStart > 0 || (cfg.tickStart == 0 && cfg.snStart > 0)
    requires Early(cfg, cur) || lines == [] || lines[0].Fetch?
    requires forall l | l in lines :: Plain(l) && (l.Fetch? ==> !AtStart(cfg, l))
    ensures Filter(cfg, Retired(cur, lines + more, storeCompletions))
              == Filter(cfg, Retired(Final(cur, lines, storeCompletions), more, storeCompletions))
    decreases lines
  {
    if lines == [] {
      assert lines + more == more;
    } else {
      var next, rest := Absorb(cur, lines[0], storeCompletions), lines[1..];
      assert (lines + more)[1..] == rest + more;
      assert lines[0] in lines && Early(cfg, next);
      EarlyHidden(cfg, next, rest, more, storeCompletions);
      FilterOne(cfg, next, lines[0].Retire?, Retired(next, rest + more, storeCompletions));
    }
  }

  lemma SameAtFetch(cfg: Settings, cur: Inst, lines: seq<Line>, storeCompletions: bool)
    requires lines == [] || lines[0].Fetch?
    ensures SameInsts(Filter(cfg, Retired(cur, lines, storeCompletions)),
                      Filter(cfg, Retired(BLANK, lines, storeCompletions)))
  {
    if lines != [] {
      var x, y := Absorb(cur, lines[0], storeCompletions), Absorb(BLANK, lines[0], storeCompletions);
      SameFromHere(cfg, x, y, lines[1..], storeCompletions);
      assert [] + Retired(x, lines[1..], storeCompletions) == Retired(x, lines[1..], storeCompletions);
      assert [] + Retired(y, lines[1..], storeCompletions) == Retired(y, lines[1..], storeCompletions);
    }
  }

  /** The lines in front of the region of interest only matter for instructions that the bounds hide: reading
      from the first fetch on shows the same instructions. */
  lemma SkippingHidesNothing(cfg: Settings, lines: seq<Line>, storeCompletions: bool)
    requires cfg.tickStart >= 0 && cfg.snStart >= 0 && forall l | l in lines :: Plain(l)
    ensures var first := FirstFrom(lines, 0, (l: Line) => l.Fetch?);
            SameInsts(Filter(cfg, Retired(BLANK, lines[first..], storeCompletions)),
                      Filter(cfg, Retired(BLANK, Region(cfg, lines), storeCompletions)))
  {
    var first := FirstFrom(lines, 0, (l: Line) => l.Fetch?);
    var start := FirstFrom(lines, 0, l => AtStart(cfg, l));
    var from := FirstFrom(lines, start, (l: Line) => l.Fetch?);
    if first < start {
      assert lines[first..] == lines[first..from] + lines[from..];
      assert !AtStart(cfg, lines[first]);
      EarlyHidden(cfg, BLANK, lines[first..from], lines[from..], storeCompletions);
      SameAtFetch(cfg, Final(BLANK, lines[first..from], storeCompletions), lines[from..], storeCompletions);
    } else {
      assert first == from;
    }
  }

  // ---- A trace that lists every stage of every instruction ----

  /** One instruction's life. */
  datatype Life = Life(
    sn: int, pc: string, upc: string, disasm: string,
    fetch: int, decode: int, rename: int, dispatch: int, issue: int, complete: int, retire: int, store: int)

  function Stages(x: Life): seq<Line> {
    [Stage("decode", x.decode), Stage("rename", x.rename), Stage("dispatch", x.dispatch), Stage("issue", x.issue),
     Stage("complete", x.complete)]
  }

  function LifeLines(x: Life): seq<Line> {
    [Fetch(x.fetch, x.pc, x.upc, x.sn, x.disasm)] + Stages(x) + [Retire(x.retire, "store", x.store)]
  }

  function TraceOf(xs: seq<Life>): seq<Line> {
    if xs == [] then [] else LifeLines(xs[0]) + TraceOf(xs[1..])
  }

  /** The record has everything the trace says; a squashed instruction is marked in its text. */
  ghost predicate Records(y: Inst, x: Life, storeCompletions: bool) {
    && y.sn == x.sn && y.pc == x.pc && y.upc == x.upc
    && y.disasm == (if x.retire == 0 then "-----" else "") + x.disasm
    && Tick(y, "fetch") == x.fetch && Tick(y, "decode") == x.decode && Tick(y, "rename") == x.rename
    && Tick(y, "dispatch") == x.dispatch && Tick(y, "issue") == x.issue && Tick(y, "complete") == x.complete
    && Tick(y, "retire") == x.retire && (storeCompletions ==> Tick(y, "store") == x.store)
  }

  lemma {:induction false} NotRetiring(cur: Inst, lines: seq<Line>, rest: seq<Line>, storeCompletions: bool)
    requires forall l | l in lines :: !l.Retire?
    ensures Retired(cur, lines + rest, storeCompletions)
              == Retired(Final(cur, lines, storeCompletions), rest, storeCompletions)
    decreases lines
  {
    if lines == [] {
      assert lines + rest == rest;
    } else {
      assert (lines + rest)[1..] == lines[1..] + rest;
      assert lines[0] in lines;
      NotRetiring(Absorb(cur, lines[0], storeCompletions), lines[1..], rest, storeCompletions);
    }
  }

  lemma {:induction false} FinalStages(cur: Inst, lines: seq<Line>, storeCompletions: bool)
    requires forall l | l in lines :: l.Stage?
    requires forall i, j | 0 <= i < j < |lines| :: lines[i].name != lines[j].name
    ensures var y := Final(cur, lines, storeCompletions);
            && y == cur.(ticks := y.ticks)
            && (forall i | 0 <= i < |lines| :: Tick(y, lines[i].name) == lines[i].stageTick)
            && (forall name | forall i | 0 <= i < |lines| :: lines[i].name != name :: Tick(y, name) == Tick(cur, name))
    decreases lines
  {
    if lines != [] {
      assert lines[0] in lines;
      FinalStages(Absorb(cur, lines[0], storeCompletions), lines[1..], storeCompletions);
    }
  }

  lemma StageNamesDiffer(x: Life)
    ensures forall i, j | 0 <= i < j < |Stages(x)| :: Stages(x)[i].name != Stages(x)[j].name
    ensures forall i | 0 <= i < |Stages(x)| :: Stages(x)[i].name !in {"fetch", "retire", "store"}
  {
    assert "decode"[0] == 'd' && "rename"[0] == 'r' && "issue"[0] == 'i' && "fetch"[0] == 'f' && "store"[0] == 's';
    assert "dispatch"[0] == 'd' && "complete"[0] == 'c' && "rename"[2] == 'n' && "retire"[2] == 't';
  }

  lemma StagesRecorded(cur: Inst, x: Life, storeCompletions: bool)
    ensures var y := Final(cur, Stages(x), storeCompletions);
            && y == cur.(ticks := y.ticks) && Tick(y, "fetch") == Tick(cur, "fetch")
            && Tick(y, "decode") == x.decode && Tick(y, "rename") == x.rename && Tick(y, "dispatch") == x.dispatch
            && Tick(y, "issue") == x.issue && Tick(y, "complete") == x.complete
  {
    var s := Stages(x);
    StageNamesDiffer(x);
    FinalStages(cur, s, storeCompletions);
    assert Tick(Final(cur, s, storeCompletions), s[0].name) == x.decode;
    assert Tick(Final(cur, s, storeCompletions), s[1].name) == x.rename;
    assert Tick(Final(cur, s, storeCompletions), s[2].name) == x.dispatch;
    assert Tick(Final(cur, s, storeCompletions), s[3].name) == x.issue;
    assert Tick(Final(cur, s, storeCompletions), s[4].name) == x.complete;
  }

  lemma RetireRecorded(cur: Inst, x: Life, storeCompletions: bool)
    requires cur.sn == x.sn && cur.pc == x.pc && cur.upc == x.upc && cur.disasm == x.disasm
    requires Tick(cur, "fetch") == x.fetch && Tick(cur, "decode") == x.decode && Tick(cur, "rename") == x.rename
    requires Tick(cur, "dispatch") == x.dispatch && Tick(cur, "issue") == x.issue && Tick(cur, "complete") == x.complete
    ensures Records(Absorb(cur, Retire(x.retire, "store", x.store), storeCompletions), x, storeCompletions)
  {
    StageNamesDiffer(x);
    assert Stages(x)[0].name == "decode" && Stages(x)[1].name == "rename" && Stages(x)[2].name == "dispatch";
    assert Stages(x)[3].name == "issue" && Stages(x)[4].name == "complete";
    assert "fetch"[0] == 'f' && "store"[0] == 's' && "retire"[0] == 'r';
    assert "" + x.disasm == x.disasm;
  }

  lemma LifeRecorded(cur: Inst, x: Life, rest: seq<Line>, storeCompletions: bool) returns (y: Inst)
    ensures Records(y, x, storeCompletions)
    ensures Retired(cur, LifeLines(x) + rest, storeCompletions) == [y] + Retired(y, rest, storeCompletions)
  {
    var retire := Retire(x.retire, "store", x.store);
    var a := Absorb(cur, Fetch(x.fetch, x.pc, x.upc, x.sn, x.disasm), storeCompletions);
    var b := Final(a, Stages(x), storeCompletions);
    y := Absorb(b, retire, storeCompletions);
    StagesRecorded(a, x, storeCompletions);
    RetireRecorded(b, x, storeCompletions);
    var tail := [retire] + rest;
    assert (LifeLines(x) + rest)[1..] == Stages(x) + tail;
    NotRetiring(a, Stages(x), tail, storeCompletions);
    assert tail[1..] == rest;
  }

  /** Every instruction of a complete trace is queued, with its own text and ticks, in order of retirement. */
  lemma {:induction false} CompleteTraceRecorded(cur: Inst, xs: seq<Life>, storeCompletions: bool)
    ensures var ys := Retired(cur, TraceOf(xs), storeCompletions);
            |ys| == |xs| && forall i | 0 <= i < |xs| :: Records(ys[i], xs[i], storeCompletions)
    decreases xs
  {
    if xs != [] {
      var y := LifeRecorded(cur, xs[0], TraceOf(xs[1..]), storeCompletions);
      CompleteTraceRecorded(y, xs[1..], storeCompletions);
    }
  }
}
