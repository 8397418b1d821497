/** Scripted checkpoints and repeated CPU switching around simulator steps. */
module Simulation {
  import opened Arithmetic

  /** Why a call of simulate() returned. */
  datatype Cause = LimitReached | GuestCheckpoint | Other

  /** How a script ends: with the cause of its last call, or in a call with a negative limit, which the
      simulator is not meant to be given. */
  datatype Outcome = Ended(cause: Cause) | NegativeLimit

  /** An event that interrupts a call of simulate() after so many ticks. */
  datatype Interruption = Interruption(after: nat, cause: Cause)

  /** How one call of simulate() ends: the ticks it ran, why it returned, the interruptions left. */
  datatype Return = Return(elapsed: nat, cause: Cause, rest: seq<Interruption>)

  /** One interruption per call; when they are used up every call runs to its limit. */
  function Call(events: seq<Interruption>, ticks: nat): (r: Return)
    ensures r.elapsed <= ticks && (r.cause == LimitReached ==> r.elapsed == ticks)
  {
    if events == [] then Return(ticks, LimitReached, [])
    else if events[0].cause == LimitReached || events[0].after >= ticks then Return(ticks, LimitReached, events[1..])
    else Return(events[0].after, events[0].cause, events[1..])
  }

  /** The simulator: its clock, the interruptions still to come, the active CPUs, and the ticks of the
      checkpoints taken. */
  class Simulator {
    var curTick: nat
    var events: seq<Interruption>
    var active: seq<nat>
    var checkpoints: seq<nat>
    var switches: nat

    constructor (curTick: nat, events: seq<Interruption>, active: seq<nat>)
      ensures this.curTick == curTick && this.events == events && this.active == active
      ensures checkpoints == [] && switches == 0
    {
      this.curTick, this.events, this.active := curTick, events, active;
      checkpoints, switches := [], 0;
    }

    /** m5.simulate(ticks): a limit exit means that exactly the limit has elapsed. */
    method Simulate(ticks: nat) returns (cause: Cause)
      modifies this`curTick, this`events
      ensures var r := Call(old(events), ticks);
              curTick == old(curTick) + r.elapsed && cause == r.cause && events == r.rest
    {
      if events == [] {
        curTick := curTick + ticks;
        return LimitReached;
      }
      var e := events[0];
      events := events[1..];
      if e.cause == LimitReached || e.after >= ticks {
        curTick := curTick + ticks;
        return LimitReached;
      }
      curTick := curTick + e.after;
      return e.cause;
    }

    /** m5.checkpoint(); takes no simulated time. */
    method Checkpoint()
      modifies this`checkpoints
      ensures checkpoints == old(checkpoints) + [curTick]
    {
      checkpoints := checkpoints + [curTick];
    }

    /** m5.switchCpus(); takes no simulated time and must be given the active CPUs. */
    method SwitchCpus(pairs: seq<(nat, nat)>)
      requires active == Firsts(pairs)
      modifies this`active, this`switches
      ensures active == Seconds(pairs) && switches == old(switches) + 1
    {
      active := Seconds(pairs);
      switches := switches + 1;
    }
  }

  function Firsts(pairs: seq<(nat, nat)>): seq<nat> {
    if pairs == [] then [] else Firsts(pairs[..|pairs| - 1]) + [pairs[|pairs| - 1].0]
  }

  function Seconds(pairs: seq<(nat, nat)>): seq<nat> {
    if pairs == [] then [] else Seconds(pairs[..|pairs| - 1]) + [pairs[|pairs| - 1].1]
  }

  function Flipped(pairs: seq<(nat, nat)>): seq<(nat, nat)> {
    if pairs == [] then [] else Flipped(pairs[..|pairs| - 1]) + [(pairs[|pairs| - 1].1, pairs[|pairs| - 1].0)]
  }

  lemma {:induction false} FlippedEnds(pairs: seq<(nat, nat)>)
    ensures Firsts(Flipped(pairs)) == Seconds(pairs) && Seconds(Flipped(pairs)) == Firsts(pairs)
    ensures Flipped(Flipped(pairs)) == pairs
  {
    if pairs != [] {
      var before := pairs[..|pairs| - 1];
      FlippedEnds(before);
      var f := Flipped(pairs);
      assert f[..|f| - 1] == Flipped(before);
      assert pairs == before + [pairs[|pairs| - 1]];
    }
  }

  // ---- Checkpoints at when, when + period, when + 2 * period, ... ----

  /** The k-th checkpoint was taken at when + k * period, with none left out. */
  ghost predicate OnSchedule(ticks: seq<nat>, when: nat, period: nat) {
    forall k | 0 <= k < |ticks| :: ticks[k] == when + k * period
  }

  /** n periods after the tick `when`. */
  function Later(when: nat, period: nat, n: nat): nat {
    if n == 0 then when else Later(when, period, n - 1) + period
  }

  lemma {:induction false} LaterIs(when: nat, period: nat, n: nat)
    ensures Later(when, period, n) == when + n * period
  {
    if n > 0 {
      LaterIs(when, period, n - 1);
      OneMorePeriod(n - 1, period);
    }
  }

  lemma OneMorePeriod(n: nat, period: nat)
    ensures (n + 1) * period == n * period + period
  {
  }

  ghost predicate InSeries(ticks: seq<nat>, when: nat, period: nat) {
    forall k | 0 <= k < |ticks| :: ticks[k] == Later(when, period, k)
  }

  lemma InSeriesOnSchedule(ticks: seq<nat>, when: nat, period: nat)
    requires InSeries(ticks, when, period)
    ensures OnSchedule(ticks, when, period)
  {
    forall k | 0 <= k < |ticks| ensures ticks[k] == when + k * period {
      LaterIs(when, period, k);
    }
  }

  /** A wait that goes on after every checkpoint instruction of the guest, and how many there were. */
  datatype Waiting = Waiting(elapsed: nat, cause: Cause, rest: seq<Interruption>, skipped: nat)

  function Wait(events: seq<Interruption>, ticks: nat): (w: Waiting)
    ensures w.elapsed <= ticks && w.cause != GuestCheckpoint && (w.cause == LimitReached ==> w.elapsed == ticks)
    decreases |events|
  {
    var r := Call(events, ticks);
    if r.cause != GuestCheckpoint then Waiting(r.elapsed, r.cause, r.rest, 0) else
    var w := Wait(r.rest, ticks - r.elapsed);
    Waiting(r.elapsed + w.elapsed, w.cause, w.rest, w.skipped + 1)
  }

  /** Checkpoints that are wanted and fit: as many as asked for, at least one, as far as maxtick allows. */
  function Fitting(when: nat, period: nat, maxCheckpoints: int, maxtick: nat): (n: nat)
    ensures n >= 1
  {
    if maxCheckpoints <= 1 || when > maxtick then 1
    else if period == 0 || maxCheckpoints <= (maxtick - when) / period + 1 then maxCheckpoints
    else (maxtick - when) / period + 1
  }

  /** Checkpoints taken after the first when `more` are still to come. The series ends with the first
      period that is cut short, and also after a period in which the guest's checkpoint instructions
      were skipped, since the loop looks at the cause from before they were. */
  function Series(events: seq<Interruption>, period: nat, more: nat): nat
    decreases more
  {
    if more == 0 then 0 else
    var w := Wait(events, period);
    if w.cause != LimitReached then 0 else if w.skipped > 0 then 1 else 1 + Series(w.rest, period, more - 1)
  }

  /** All checkpoints taken: none if the wait for the first is cut short. */
  function Taken(events: seq<Interruption>, delay: nat, period: nat, fitting: nat): nat
    requires fitting >= 1
  {
    var w := Wait(events, delay);
    if w.cause != LimitReached then 0 else 1 + Series(w.rest, period, fitting - 1)
  }

  /** The interruptions left after n waits of one period. */
  function After(events: seq<Interruption>, period: nat, n: nat): seq<Interruption>
    decreases n
  {
    if n == 0 then events else After(Wait(events, period).rest, period, n - 1)
  }

  /** The first n periods reach their ends and the guest takes no checkpoint in them. */
  ghost predicate Smooth(events: seq<Interruption>, period: nat, n: nat)
    decreases n
  {
    n == 0 || (&& Wait(events, period).cause == LimitReached && Wait(events, period).skipped == 0
               && Smooth(Wait(events, period).rest, period, n - 1))
  }

  /** A series is complete exactly if all its periods but the last are smooth and the last reaches its end:
      in particular it ends early after any earlier period with a checkpoint instruction of the guest. */
  lemma {:induction false} SeriesComplete(events: seq<Interruption>, period: nat, more: nat)
    ensures Series(events, period, more) <= more
    ensures more > 0 ==>
              (Series(events, period, more) == more <==>
                 Smooth(events, period, more - 1) &&
                      Wait(After(events, period, more - 1), period).cause == LimitReached)
    decreases more
  {
    if more > 0 {
      SeriesComplete(Wait(events, period).rest, period, more - 1);
    }
  }

  /** The checkpoint of the first period with a guest checkpoint is the last one. */
  lemma {:induction false} GuestCheckpointEndsSeries(events: seq<Interruption>, period: nat, n: nat, more: nat)
    requires n < more && Smooth(events, period, n)
    requires var w := Wait(After(events, period, n), period); w.cause == LimitReached && w.skipped > 0
    ensures Series(events, period, more) == n + 1
    decreases n
  {
    if n > 0 {
      GuestCheckpointEndsSeries(Wait(events, period).rest, period, n - 1, more - 1);
    }
  }

  lemma WaitPastGuest(after: nat, ticks: nat)
    requires after < ticks
    ensures Wait([Interruption(after, GuestCheckpoint)], ticks) == Waiting(ticks, LimitReached, [], 1)
  {
    var events := [Interruption(after, GuestCheckpoint)];
    assert Call(events, ticks) == Return(after, GuestCheckpoint, []);
    assert Wait([], ticks - after) == Waiting(ticks - after, LimitReached, [], 0);
  }

  /** One checkpoint instruction of the guest in the first period, and one checkpoint is taken, however many
      were due. */
  lemma OneGuestCheckpoint(after: nat, period: nat, more: nat)
    requires after < period && more > 0
    ensures Series([Interruption(after, GuestCheckpoint)], period, more) == 1
  {
    WaitPastGuest(after, period);
    GuestCheckpointEndsSeries([Interruption(after, GuestCheckpoint)], period, 0, more);
  }

  /** Without interruptions nothing is missing. */
  lemma {:induction false} UndisturbedSeries(period: nat, more: nat)
    ensures Series([], period, more) == more
  {
    if more > 0 {
      UndisturbedSeries(period, more - 1);
    }
  }

  /** Never more than fit, and all of them if nothing interrupts. */
  lemma TakenWithin(events: seq<Interruption>, delay: nat, period: nat, fitting: nat)
    requires fitting >= 1
    ensures Taken(events, delay, period, fitting) <= fitting
    ensures events == [] ==> Taken(events, delay, period, fitting) == fitting
  {
    SeriesComplete(Wait(events, delay).rest, period, fitting - 1);
    UndisturbedSeries(period, fitting - 1);
  }

  /** One wait for the tick `when`, skipping checkpoint instructions of the guest. */
  method RunUntil(sim: Simulator, when: nat) returns (cause: Cause)
    requires sim.curTick <= when
    modifies sim`curTick, sim`events
    ensures var w := Wait(old(sim.events), when - old(sim.curTick));
            sim.curTick == old(sim.curTick) + w.elapsed && cause == w.cause && sim.events == w.rest
  {
    ghost var events, start := sim.events, sim.curTick;
    cause := sim.Simulate(when - sim.curTick);
    while cause == GuestCheckpoint
      invariant start <= sim.curTick <= when
      invariant Continues(events, when - start, Return(sim.curTick - start, cause, sim.events))
      decreases |sim.events| + if cause == GuestCheckpoint then 1 else 0
    {
      cause := Resume(sim, when, events, start);
    }
  }

  /** Another call after a checkpoint instruction of the guest. */
  method Resume(sim: Simulator, when: nat, ghost events: seq<Interruption>, ghost start: nat) returns (cause: Cause)
    requires start <= sim.curTick <= when
    requires Continues(events, when - start, Return(sim.curTick - start, GuestCheckpoint, sim.events))
    modifies sim`curTick, sim`events
    ensures start <= sim.curTick <= when && (cause == GuestCheckpoint ==> |sim.events| < |old(sim.events)|)
    ensures |sim.events| <= |old(sim.events)|
    ensures Continues(events, when - start, Return(sim.curTick - start, cause, sim.events))
  {
    cause := sim.Simulate(when - sim.curTick);
  }

  /** The wait for `ticks` goes on, or ends, as r says. */
  ghost predicate Continues(events: seq<Interruption>, ticks: nat, r: Return)
    requires r.elapsed <= ticks
  {
    var w := Wait(events, ticks);
    if r.cause != GuestCheckpoint then w.elapsed == r.elapsed && w.cause == r.cause && w.rest == r.rest else
    var v := Wait(r.rest, ticks - r.elapsed);
    w.elapsed == r.elapsed + v.elapsed && w.cause == v.cause && w.rest == v.rest
  }

  /** One period of the loop. `first` is the cause that the loop condition looks at: it is not updated when
      the guest's checkpoint instructions are skipped, so the series ends after such a period. */
  method RunPeriod(sim: Simulator, period: nat, simTicks: nat) returns (first: Cause, cause: Cause)
    requires sim.curTick + period == simTicks
    modifies sim`curTick, sim`events
    ensures var w := Wait(old(sim.events), period);
            && sim.curTick == old(sim.curTick) + w.elapsed && cause == w.cause && sim.events == w.rest
            && (first == LimitReached <==> w.cause == LimitReached && w.skipped == 0)
  {
    first := sim.Simulate(period);
    cause := first;
    if cause == GuestCheckpoint {
      cause := RunUntil(sim, simTicks);
    }
  }

  /** scriptCheckpoints, taking checkpoints by tick. */
  method ScriptCheckpoints(sim: Simulator, when: nat, period: nat, maxCheckpoints: int, maxtick: nat)
    returns (out: Outcome)
    requires sim.checkpoints == []
    modifies sim`curTick, sim`events, sim`checkpoints
    ensures out.NegativeLimit? <==>
              || when < old(sim.curTick)
              || (&& when > maxtick && maxCheckpoints > 1
                  && Wait(old(sim.events), when - old(sim.curTick)).cause == LimitReached)
    ensures OnSchedule(sim.checkpoints, when, period)
    ensures var fitting := Fitting(when, period, maxCheckpoints, maxtick);
            |sim.checkpoints| ==
              if when < old(sim.curTick) then 0
              else Taken(old(sim.events), when - old(sim.curTick), period, fitting)
    ensures when <= maxtick ==> forall k | 0 <= k < |sim.checkpoints| :: sim.checkpoints[k] <= maxtick
    ensures old(sim.curTick) <= when <= maxtick ==> sim.curTick <= maxtick
    ensures old(sim.events) == [] && old(sim.curTick) <= when <= maxtick ==>
              var fitting := Fitting(when, period, maxCheckpoints, maxtick);
              && out == Ended(LimitReached)
              && sim.curTick == if fitting < maxCheckpoints then maxtick else when + (fitting - 1) * period
  {
    LaterIs(when, period, Fitting(when, period, maxCheckpoints, maxtick) - 1);
    if when < sim.curTick {
      return NegativeLimit;
    }
    var cause := RunUntil(sim, when);
    out := Ended(cause);
    if cause == LimitReached {
      sim.Checkpoint();
      out := RepeatCheckpoints(sim, when, period, maxCheckpoints, maxtick);
    }
    InSeriesOnSchedule(sim.checkpoints, when, period);
  }

  /** What follows the first checkpoint. */
  method RepeatCheckpoints(sim: Simulator, when: nat, period: nat, maxCheckpoints: int, maxtick: nat)
    returns (out: Outcome)
    requires sim.curTick == when && sim.checkpoints == [when]
    modifies sim`curTick, sim`events, sim`checkpoints
    ensures out.NegativeLimit? <==> when > maxtick && maxCheckpoints > 1
    ensures InSeries(sim.checkpoints, when, period)
    ensures |sim.checkpoints| == 1 + Series(old(sim.events), period, Fitting(when, period, maxCheckpoints, maxtick) - 1)
    ensures when <= maxtick ==>
              sim.curTick <= maxtick && forall k | 0 <= k < |sim.checkpoints| :: sim.checkpoints[k] <= maxtick
    ensures old(sim.events) == [] && when <= maxtick ==>
              var fitting := Fitting(when, period, maxCheckpoints, maxtick);
              && out == Ended(LimitReached)
              && sim.curTick == if fitting < maxCheckpoints then maxtick else Later(when, period, fitting - 1)
  {
    out := Ended(LimitReached);
    if maxCheckpoints > 1 {
      if when > maxtick {
        return NegativeLimit;
      }
      FittingFits(when, period, maxCheckpoints, maxtick);
      ghost var fitting := Fitting(when, period, maxCheckpoints, maxtick);
      ghost var total := 1 + Series(sim.events, period, fitting - 1);
      out := CheckpointLoop(sim, when, period, maxCheckpoints, maxtick, fitting, total);
      SeriesFits(sim.checkpoints, when, period, maxCheckpoints, maxtick);
    }
  }

  /** n checkpoints, and no more, are wanted and due by maxtick. */
  ghost predicate Fits(when: nat, period: nat, maxCheckpoints: int, maxtick: nat, n: nat) {
    && 1 <= n <= maxCheckpoints && Later(when, period, n - 1) <= maxtick
    && (n < maxCheckpoints ==> Later(when, period, n) > maxtick)
  }

  lemma FittingFits(when: nat, period: nat, maxCheckpoints: int, maxtick: nat)
    requires when <= maxtick && maxCheckpoints > 1
    ensures Fits(when, period, maxCheckpoints, maxtick, Fitting(when, period, maxCheckpoints, maxtick))
  {
    var n := Fitting(when, period, maxCheckpoints, maxtick);
    LaterIs(when, period, n - 1);
    LaterIs(when, period, n);
    if period > 0 {
      RoomFor(n, period, maxtick - when);
      RoomFor(n - 1, period, maxtick - when);
    }
  }

  lemma {:induction false} LaterMonotone(when: nat, period: nat, m: nat, n: nat)
    requires m <= n
    ensures Later(when, period, m) <= Later(when, period, n)
  {
    if m < n {
      LaterMonotone(when, period, m, n - 1);
    }
  }

  /** The head of the loop: num checkpoints are taken, the clock stands at the last of them, and `total` there
      will be. */
  ghost predicate AtPeriod(when: nat, period: nat, fitting: nat, total: nat, num: nat, now: nat,
                           events: seq<Interruption>)
  {
    && 0 < num <= fitting && now == Later(when, period, num - 1)
    && total == num + Series(events, period, fitting - num)
  }

  /** The loop over the periods. */
  method CheckpointLoop(sim: Simulator, when: nat, period: nat, maxCheckpoints: int, maxtick: nat,
                        ghost fitting: nat, ghost total: nat)
    returns (out: Outcome)
    requires sim.curTick == when && sim.checkpoints == [when]
    requires Fits(when, period, maxCheckpoints, maxtick, fitting)
    requires total == 1 + Series(sim.events, period, fitting - 1)
    modifies sim`curTick, sim`events, sim`checkpoints
    ensures out.Ended? && sim.curTick <= maxtick
    ensures InSeries(sim.checkpoints, when, period) && |sim.checkpoints| == total <= fitting
    ensures old(sim.events) == [] ==>
              && out == Ended(LimitReached)
              && sim.curTick == if fitting < maxCheckpoints then maxtick else Later(when, period, fitting - 1)
  {
    out := Ended(LimitReached);
    LaterMonotone(when, period, 0, fitting - 1);
    var exitCause, num, simTicks := LimitReached, 1, when;
    while num < maxCheckpoints && exitCause == LimitReached
      invariant 0 < num == |sim.checkpoints| <= fitting && out.Ended?
      invariant InSeries(sim.checkpoints, when, period) && sim.curTick <= maxtick
      invariant exitCause == LimitReached ==>
                  simTicks == sim.curTick && AtPeriod(when, period, fitting, total, num, sim.curTick, sim.events)
      invariant exitCause != LimitReached ==> total == num
      invariant old(sim.events) == [] ==> sim.events == [] && exitCause == LimitReached && out == Ended(LimitReached)
      decreases maxCheckpoints - num, if exitCause == LimitReached then 1 else 0
    {
      NextFits(num, when, period, maxCheckpoints, maxtick, fitting);
      var cause;
      if simTicks + period > maxtick {
        cause := sim.Simulate(maxtick - simTicks);
        out := Ended(cause);
        break;
      } else {
        exitCause, cause := NextCheckpoint(sim, when, period, simTicks, fitting, total);
        out := Ended(cause);
        simTicks := simTicks + period;
        if cause == LimitReached {
          num := num + 1;
        }
      }
    }
  }

  /** The body of the loop when another period fits. */
  method NextCheckpoint(sim: Simulator, ghost when: nat, period: nat, simTicks: nat, ghost fitting: nat,
                        ghost total: nat)
    returns (first: Cause, cause: Cause)
    requires sim.curTick == simTicks && InSeries(sim.checkpoints, when, period) && |sim.checkpoints| < fitting
    requires AtPeriod(when, period, fitting, total, |sim.checkpoints|, simTicks, sim.events)
    modifies sim`curTick, sim`events, sim`checkpoints
    ensures sim.curTick <= simTicks + period && InSeries(sim.checkpoints, when, period)
    ensures |sim.checkpoints| == old(|sim.checkpoints|) + if cause == LimitReached then 1 else 0
    ensures first == LimitReached ==>
              && cause == LimitReached && sim.curTick == simTicks + period
              && AtPeriod(when, period, fitting, total, |sim.checkpoints|, sim.curTick, sim.events)
    ensures first != LimitReached ==> total == |sim.checkpoints|
    ensures old(sim.events) == [] ==> sim.events == [] && first == LimitReached
  {
    first, cause := RunPeriod(sim, period, simTicks + period);
    if cause == LimitReached {
      sim.Checkpoint();
    }
  }

  /** Whether another checkpoint fits is what the comparison with maxtick decides. */
  lemma NextFits(num: nat, when: nat, period: nat, maxCheckpoints: int, maxtick: nat, fitting: nat)
    requires 0 < num < maxCheckpoints && num <= fitting && Fits(when, period, maxCheckpoints, maxtick, fitting)
    ensures Later(when, period, num - 1) + period <= maxtick <==> num < fitting
  {
    if num < fitting {
      LaterMonotone(when, period, num, fitting - 1);
    }
  }

  /** No checkpoint that fits is due after maxtick. */
  lemma SeriesFits(ticks: seq<nat>, when: nat, period: nat, maxCheckpoints: int, maxtick: nat)
    requires InSeries(ticks, when, period) && |ticks| <= Fitting(when, period, maxCheckpoints, maxtick)
    ensures when <= maxtick ==> forall k | 0 <= k < |ticks| :: ticks[k] <= maxtick
  {
    if when <= maxtick {
      forall k | 0 <= k < |ticks| ensures ticks[k] <= maxtick {
        LaterIs(when, period, k);
        if period > 0 {
          RoomFor(k, period, maxtick - when);
        }
      }
    }
  }

  lemma RoomFor(n: nat, period: nat, room: nat)
    requires period > 0
    ensures n * period <= room <==> n <= room / period
  {
    var q := room / period;
    if n <= q {
      MulMonotone(period, n, q);
    } else {
      MulMonotone(period, q + 1, n);
    }
  }

  // ---- Switching CPUs back and forth ----

  method SwapPairs(pairs: seq<(nat, nat)>) returns (swapped: seq<(nat, nat)>)
    ensures swapped == Flipped(pairs)
  {
    swapped := [];
    for k := 0 to |pairs|
      invariant swapped == Flipped(pairs[..k])
    {
      assert pairs[..k + 1][..k] == pairs[..k];
      swapped := swapped + [(pairs[k].1, pairs[k].0)];
    }
    assert pairs[..|pairs|] == pairs;
  }

  /** The pair lists after n switches. */
  function Alternated(pairs: seq<(nat, nat)>, n: nat): seq<(nat, nat)> {
    if n == 0 then pairs else Flipped(Alternated(pairs, n - 1))
  }

  /** They alternate between two. */
  lemma {:induction false} AlternatedIs(pairs: seq<(nat, nat)>, n: nat)
    ensures Alternated(pairs, 2 * n) == pairs && Alternated(pairs, 2 * n + 1) == Flipped(pairs)
  {
    if n > 0 {
      AlternatedIs(pairs, n - 1);
      assert Alternated(pairs, 2 * n) == Flipped(Alternated(pairs, 2 * (n - 1) + 1));
      FlippedEnds(pairs);
    }
  }

  /** The number of switches is fixed by where the last stretch begins. */
  lemma SwitchCount(start: nat, freq: nat, n: nat, maxtick: nat)
    requires freq > 0 && n > 0 && start < maxtick
    requires Later(start, freq, n) + freq >= maxtick && (n == 1 || Later(start, freq, n) < maxtick)
    ensures var whole := (maxtick - start - 1) / freq; n == if whole == 0 then 1 else whole
  {
    LaterIs(start, freq, n);
    OneMorePeriod(n, freq);
    RoomFor(n, freq, maxtick - start - 1);
    RoomFor(n + 1, freq, maxtick - start - 1);
  }

  /** repeatSwitch: if the first interval fits, never runs past maxtick; always switches away from the CPUs
      that are active, and leaves the pair lists swapped once per switch. */
  method RepeatSwitch(sim: Simulator, pairs0: seq<(nat, nat)>, maxtick: nat, freq: nat)
    returns (out: Outcome, pairs: seq<(nat, nat)>)
    requires freq > 0 && sim.active == Firsts(pairs0) && sim.switches == 0
    modifies sim`curTick, sim`events, sim`active, sim`switches
    ensures pairs == Alternated(pairs0, sim.switches) && sim.active == Firsts(pairs)
    ensures Later(old(sim.curTick), freq, sim.switches) <= sim.curTick
    ensures out == Ended(LimitReached) ==> sim.curTick == maxtick
    ensures old(sim.curTick) + freq <= maxtick ==> out.Ended? && sim.curTick <= maxtick
    ensures old(sim.curTick) + freq > maxtick ==>
              && sim.curTick <= old(sim.curTick) + freq && sim.switches <= 1
              && (out.NegativeLimit? <==> sim.switches == 1)
    ensures old(sim.events) == [] && old(sim.curTick) + freq <= maxtick ==>
              var whole := (maxtick - old(sim.curTick) - 1) / freq;
              out == Ended(LimitReached) && sim.switches == if whole == 0 then 1 else whole
  {
    pairs := pairs0;
    ghost var start := sim.curTick;
    while true
      invariant (sim.curTick + freq < maxtick || sim.switches == 0) && sim.active == Firsts(pairs)
      invariant start + freq > maxtick ==> sim.switches == 0
      invariant pairs == Alternated(pairs0, sim.switches)
      invariant sim.curTick == Later(start, freq, sim.switches)
      invariant old(sim.events) == [] ==> sim.events == []
      decreases maxtick - sim.curTick, sim.switches == 0
    {
      var cause;
      cause, pairs := SwitchRound(sim, pairs, freq);
      out := Ended(cause);
      if cause != LimitReached {
        return;
      }
      if maxtick - sim.curTick <= freq {
        out := LastStretch(sim, maxtick);
        if start + freq <= maxtick {
          SwitchCount(start, freq, sim.switches, maxtick);
        }
        return;
      }
    }
  }

  /** The call for what is left up to maxtick. */
  method LastStretch(sim: Simulator, maxtick: nat) returns (out: Outcome)
    modifies sim`curTick, sim`events
    ensures old(sim.curTick) <= sim.curTick
    ensures out.NegativeLimit? <==> old(sim.curTick) > maxtick
    ensures out.NegativeLimit? ==> sim.curTick == old(sim.curTick)
    ensures out.Ended? ==> sim.curTick <= maxtick && (out.cause == LimitReached ==> sim.curTick == maxtick)
    ensures old(sim.events) == [] && out.Ended? ==> out.cause == LimitReached
  {
    if sim.curTick > maxtick {
      return NegativeLimit;
    }
    var cause := sim.Simulate(maxtick - sim.curTick);
    return Ended(cause);
  }

  /** One round of the loop: run for the interval and, unless interrupted, switch. */
  method SwitchRound(sim: Simulator, pairs: seq<(nat, nat)>, freq: nat) returns (cause: Cause, swapped: seq<(nat, nat)>)
    requires sim.active == Firsts(pairs)
    modifies sim`curTick, sim`events, sim`active, sim`switches
    ensures old(sim.curTick) <= sim.curTick <= old(sim.curTick) + freq && sim.active == Firsts(swapped)
    ensures cause == LimitReached ==>
              sim.curTick == old(sim.curTick) + freq && sim.switches == old(sim.switches) + 1 &&
                   swapped == Flipped(pairs)
    ensures cause != LimitReached ==> sim.switches == old(sim.switches) && swapped == pairs
    ensures old(sim.events) == [] ==> cause == LimitReached && sim.events == []
  {
    swapped := pairs;
    cause := sim.Simulate(freq);
    if cause == LimitReached {
      sim.SwitchCpus(pairs);
      FlippedEnds(pairs);
      swapped := SwapPairs(pairs);
    }
  }
}
