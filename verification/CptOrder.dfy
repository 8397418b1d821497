/** When the migration loop finishes, for any mix of upgraders and downgraders. */
module CptOrder {
  import opened CptUpgrader

  function Start(reg: Registry, tags0: set<string>): Progress {
    Progress(tags0, ToApply(reg, tags0))
  }

  /** A dependency of t that is there in the round depth[t]: supplied in an earlier round, or present
      from the beginning and not removed in an earlier one. */
  ghost predicate Supplied(reg: Registry, tags0: set<string>, depth: map<string, nat>, t: string, dep: string)
    requires depth.Keys == ToApply(reg, tags0) && t in depth
  {
    if dep in tags0 then dep in reg.untagSet ==> depth[t] <= depth[dep]
    else dep in reg.tagSet && depth[dep] < depth[t]
  }

  /** The first round, or the round after an upgrade that t waits for. */
  ghost predicate Earliest(reg: Registry, depth: map<string, nat>, t: string)
    requires t in depth && t in reg.byTag
  {
    depth[t] == 0 || exists dep ::
      dep in reg.byTag[t].depends && dep in reg.tagSet && dep in depth && depth[dep] + 1 == depth[t]
  }

  /** A layering of the needed scripts by their dependencies alone: every script is in the earliest
      layer after the upgrades it waits for, and no downgrade it depends on lies in an earlier layer. */
  ghost predicate Layered(reg: Registry, tags0: set<string>, depth: map<string, nat>)
    requires Consistent(reg)
  {
    && depth.Keys == ToApply(reg, tags0)
    && (forall t, dep | t in depth && dep in reg.byTag[t].depends :: Supplied(reg, tags0, depth, t, dep))
    && (forall t | t in depth :: Earliest(reg, depth, t))
  }

  // ---- From layers to rounds ----

  ghost function From(depth: map<string, nat>, n: nat): set<string> {
    set t | t in depth && depth[t] >= n
  }

  lemma LayerIsReady(reg: Registry, tags0: set<string>, depth: map<string, nat>, p: Progress, n: nat, t: string)
    requires Consistent(reg) && Layered(reg, tags0, depth) && p.todo == From(depth, n) && t in p.todo
    requires p.tags == RoundTags(reg, tags0, Start(reg, tags0).todo - p.todo)
    ensures Ready(reg, t, p.tags) <==> depth[t] == n
  {
    Disjoint(reg);
    if depth[t] == n {
      forall dep | dep in reg.byTag[t].depends ensures dep in p.tags {
        assert Supplied(reg, tags0, depth, t, dep);
      }
    } else {
      assert Earliest(reg, depth, t);
      var dep :| dep in reg.byTag[t].depends && dep in reg.tagSet && dep in depth && depth[dep] + 1 == depth[t];
      assert dep !in p.tags;
    }
  }

  /** Round n applies layer n. */
  lemma {:induction false} RoundsAreLayers(reg: Registry, tags0: set<string>, depth: map<string, nat>, n: nat)
    requires Consistent(reg) && Layered(reg, tags0, depth)
    ensures Rounds(reg, Start(reg, tags0), n).todo == From(depth, n)
  {
    if n == 0 {
      NothingAppliedYet(reg, tags0, depth);
    } else {
      var m: nat := n - 1;
      RoundsAreLayers(reg, tags0, depth, m);
      NextLayer(reg, tags0, depth, m);
      assert n == m + 1;
    }
  }

  lemma NothingAppliedYet(reg: Registry, tags0: set<string>, depth: map<string, nat>)
    requires Consistent(reg) && depth.Keys == ToApply(reg, tags0)
    ensures Rounds(reg, Start(reg, tags0), 0).todo == From(depth, 0)
  {
  }

  lemma NextLayer(reg: Registry, tags0: set<string>, depth: map<string, nat>, n: nat)
    requires Consistent(reg) && Layered(reg, tags0, depth) && Rounds(reg, Start(reg, tags0), n).todo == From(depth, n)
    ensures Rounds(reg, Start(reg, tags0), n + 1).todo == From(depth, n + 1)
  {
    TagsAccount(reg, tags0, n);
    LayerApplied(reg, tags0, depth, Rounds(reg, Start(reg, tags0), n), n);
  }

  lemma LayerApplied(reg: Registry, tags0: set<string>, depth: map<string, nat>, p: Progress, n: nat)
    requires Consistent(reg) && Layered(reg, tags0, depth) && Known(reg, p) && p.todo == From(depth, n)
    requires p.tags == RoundTags(reg, tags0, Start(reg, tags0).todo - p.todo)
    ensures OneRound(reg, p).todo == From(depth, n + 1)
  {
    forall t | t in p.todo ensures t in ReadySet(reg, p) <==> depth[t] == n {
      LayerIsReady(reg, tags0, depth, p, n, t);
    }
  }

  /** Below every layer that is not empty there is none that is. */
  lemma {:induction false} LayerBelow(reg: Registry, tags0: set<string>, depth: map<string, nat>, t: string, n: nat)
    returns (u: string)
    requires Consistent(reg) && Layered(reg, tags0, depth) && t in depth && depth[t] >= n
    ensures u in depth && depth[u] == n
    decreases depth[t]
  {
    u := t;
    if depth[t] > n {
      assert Earliest(reg, depth, t);
      var dep :| dep in reg.byTag[t].depends && dep in reg.tagSet && dep in depth && depth[dep] + 1 == depth[t];
      u := LayerBelow(reg, tags0, depth, dep, n);
    }
  }

  // ---- From rounds to layers ----

  lemma {:induction false} TodoShrinks(reg: Registry, p: Progress, m: nat, n: nat)
    requires Known(reg, p) && m <= n
    ensures Rounds(reg, p, n).todo <= Rounds(reg, p, m).todo
  {
    if m < n {
      TodoShrinks(reg, p, m, n - 1);
    }
  }

  /** The round in which t is applied. */
  function RoundOf(reg: Registry, p: Progress, t: string, n: nat): (k: nat)
    requires Known(reg, p) && t in p.todo && t !in Rounds(reg, p, n).todo
    ensures k < n && t in Rounds(reg, p, k).todo && t !in Rounds(reg, p, k + 1).todo
  {
    if t !in Rounds(reg, p, n - 1).todo then RoundOf(reg, p, t, n - 1) else n - 1
  }

  lemma AppliedBefore(reg: Registry, p: Progress, t: string, n: nat, k: nat)
    requires Known(reg, p) && t in p.todo && t !in Rounds(reg, p, n).todo
    ensures RoundOf(reg, p, t, n) < k <==> t !in Rounds(reg, p, k).todo
  {
    var r := RoundOf(reg, p, t, n);
    if r < k {
      TodoShrinks(reg, p, r + 1, k);
    } else {
      TodoShrinks(reg, p, k, r);
    }
  }

  ghost function RoundNumbers(reg: Registry, tags0: set<string>, n: nat): map<string, nat>
    requires Consistent(reg) && Rounds(reg, Start(reg, tags0), n).todo == {}
  {
    map t | t in ToApply(reg, tags0) :: RoundOf(reg, Start(reg, tags0), t, n)
  }

  lemma RoundSupplies(reg: Registry, tags0: set<string>, n: nat, t: string, dep: string)
    requires Consistent(reg) && Rounds(reg, Start(reg, tags0), n).todo == {}
    requires t in ToApply(reg, tags0) && dep in reg.byTag[t].depends
    ensures Supplied(reg, tags0, RoundNumbers(reg, tags0, n), t, dep)
  {
    var start := Start(reg, tags0);
    var k := RoundOf(reg, start, t, n);
    var p := Rounds(reg, start, k);
    Disjoint(reg);
    TagsAccount(reg, tags0, k);
    assert t in ReadySet(reg, p) && dep in p.tags;
    if dep in start.todo {
      AppliedBefore(reg, start, dep, n, k);
    }
  }

  lemma NewlyPresent(reg: Registry, tags0: set<string>, todo: set<string>, todo': set<string>, dep: string)
    requires reg.tagSet !! reg.untagSet && todo' <= todo <= ToApply(reg, tags0)
    requires dep !in RoundTags(reg, tags0, ToApply(reg, tags0) - todo) &&
              dep in RoundTags(reg, tags0, ToApply(reg, tags0) - todo')
    ensures dep in reg.tagSet && dep in todo && dep !in todo'
  {
  }

  /** In the round before it is applied, t waits for an upgrade of that very round. */
  lemma AwaitedUpgrade(reg: Registry, tags0: set<string>, k: nat, t: string) returns (dep: string)
    requires Consistent(reg) && k > 0 && t in Rounds(reg, Start(reg, tags0), k).todo
    requires Ready(reg, t, Rounds(reg, Start(reg, tags0), k).tags)
    ensures dep in reg.byTag[t].depends && dep in reg.tagSet && dep in ToApply(reg, tags0)
    ensures dep in Rounds(reg, Start(reg, tags0), k - 1).todo && dep !in Rounds(reg, Start(reg, tags0), k).todo
  {
    var p, p' := Rounds(reg, Start(reg, tags0), k - 1), Rounds(reg, Start(reg, tags0), k);
    assert t in p.todo && t !in ReadySet(reg, p);
    dep :| dep in reg.byTag[t].depends && dep !in p.tags;
    Disjoint(reg);
    TagsAccount(reg, tags0, k - 1);
    TagsAccount(reg, tags0, k);
    NewlyPresent(reg, tags0, p.todo, p'.todo, dep);
  }

  lemma RoundEarliest(reg: Registry, tags0: set<string>, n: nat, t: string)
    requires Consistent(reg) && Rounds(reg, Start(reg, tags0), n).todo == {} && t in ToApply(reg, tags0)
    ensures Earliest(reg, RoundNumbers(reg, tags0, n), t)
  {
    var depth, k := RoundNumbers(reg, tags0, n), RoundOf(reg, Start(reg, tags0), t, n);
    if k > 0 {
      ReadyWhenApplied(reg, Start(reg, tags0), t, k);
      var dep := UpgradeBefore(reg, tags0, n, t, k);
      EarliestAfter(reg, depth, t, dep);
    }
  }

  lemma EarliestAfter(reg: Registry, depth: map<string, nat>, t: string, dep: string)
    requires t in depth && t in reg.byTag && dep in reg.byTag[t].depends && dep in reg.tagSet
    requires dep in depth && depth[dep] + 1 == depth[t]
    ensures Earliest(reg, depth, t)
  {
  }

  lemma UpgradeBefore(reg: Registry, tags0: set<string>, n: nat, t: string, k: nat) returns (dep: string)
    requires Consistent(reg) && Rounds(reg, Start(reg, tags0), n).todo == {} && t in ToApply(reg, tags0)
    requires k > 0 && t in Rounds(reg, Start(reg, tags0), k).todo
    requires Ready(reg, t, Rounds(reg, Start(reg, tags0), k).tags)
    ensures dep in reg.byTag[t].depends && dep in reg.tagSet && dep in ToApply(reg, tags0)
    ensures RoundOf(reg, Start(reg, tags0), dep, n) == k - 1
  {
    dep := AwaitedUpgrade(reg, tags0, k, t);
    RoundIs(reg, Start(reg, tags0), dep, n, k - 1);
  }

  lemma ReadyWhenApplied(reg: Registry, p: Progress, t: string, k: nat)
    requires Known(reg, p) && t in Rounds(reg, p, k).todo && t !in Rounds(reg, p, k + 1).todo
    ensures Ready(reg, t, Rounds(reg, p, k).tags)
  {
    assert t in ReadySet(reg, Rounds(reg, p, k));
  }

  lemma RoundIs(reg: Registry, p: Progress, t: string, n: nat, k: nat)
    requires Known(reg, p) && t in p.todo && t !in Rounds(reg, p, n).todo
    requires t in Rounds(reg, p, k).todo && t !in Rounds(reg, p, k + 1).todo
    ensures RoundOf(reg, p, t, n) == k
  {
    AppliedBefore(reg, p, t, n, k);
    AppliedBefore(reg, p, t, n, k + 1);
  }

  /** For any mix of upgraders and downgraders: the loop finishes normally if and only if the needed
      scripts can be layered. */
  lemma FinishesExactlyWhenLayered(reg: Registry, tags0: set<string>, n: nat)
    requires Consistent(reg) && ReadySet(reg, Rounds(reg, Start(reg, tags0), n)) == {}
    ensures Rounds(reg, Start(reg, tags0), n).todo == {} <==> exists depth :: Layered(reg, tags0, depth)
  {
    var p := Rounds(reg, Start(reg, tags0), n);
    if p.todo == {} {
      var depth := RoundNumbers(reg, tags0, n);
      forall t, dep | t in depth && dep in reg.byTag[t].depends ensures Supplied(reg, tags0, depth, t, dep) {
        RoundSupplies(reg, tags0, n, t, dep);
      }
      forall t | t in depth ensures Earliest(reg, depth, t) {
        RoundEarliest(reg, tags0, n, t);
      }
      assert Layered(reg, tags0, depth);
    }
    forall depth | Layered(reg, tags0, depth) ensures p.todo == {} {
      SomethingReady(reg, tags0, depth, n);
    }
  }

  lemma SomethingReady(reg: Registry, tags0: set<string>, depth: map<string, nat>, n: nat)
    requires Consistent(reg) && Layered(reg, tags0, depth)
    ensures var p := Rounds(reg, Start(reg, tags0), n); p.todo != {} ==> ReadySet(reg, p) != {}
  {
    var p := Rounds(reg, Start(reg, tags0), n);
    RoundsAreLayers(reg, tags0, depth, n);
    TagsAccount(reg, tags0, n);
    if t :| t in p.todo {
      var u := LayerBelow(reg, tags0, depth, t, n);
      LayerIsReady(reg, tags0, depth, p, n, u);
      assert u in ReadySet(reg, p);
    }
  }

  // ---- Aborting although an order exists ----

  function TagsAfter(reg: Registry, tags: set<string>, order: seq<string>): set<string>
    requires forall i | 0 <= i < |order| :: order[i] in reg.byTag
  {
    if order == [] then tags else Updated(reg, order[|order| - 1], TagsAfter(reg, tags, order[..|order| - 1]))
  }

  /** The needed scripts one at a time, each with all its dependencies present. */
  ghost predicate OneByOne(reg: Registry, tags0: set<string>, order: seq<string>) {
    && Lists(order, ToApply(reg, tags0)) && (forall i | 0 <= i < |order| :: order[i] in reg.byTag)
    && (forall i | 0 <= i < |order| :: Ready(reg, order[i], TagsAfter(reg, tags0, order[..i])))
  }

  /** An upgrade t that waits for the upgrade u and depends on d, for which there is a downgrade. */
  function Hasty(): Registry {
    Registry(map["u" := Upgrader([], Upgrade), "t" := Upgrader(["u", "d"], Upgrade), "d" := Upgrader([], Downgrade)],
             {"t", "u"}, {"d"})
  }

  lemma HastyRound()
    ensures Consistent(Hasty()) && ToApply(Hasty(), {"d"}) == {"d", "t", "u"}
    ensures Rounds(Hasty(), Start(Hasty(), {"d"}), 1) == Progress({"u"}, {"t"})
  {
    var reg, start := Hasty(), Start(Hasty(), {"d"});
    assert start.todo == {"d", "t", "u"};
    assert "u" in reg.byTag["t"].depends && "u" !in start.tags;
    assert ReadySet(reg, start) == {"d", "u"};
    assert Rounds(reg, start, 0) == start;
  }

  /** The abort message calls the dependencies impossible to resolve. Here they are resolved by u, t, d in
      this order, yet the loop aborts: it removes d in the first round, before t is ready. */
  lemma AbortsThoughOrderExists()
    ensures Consistent(Hasty()) && OneByOne(Hasty(), {"d"}, ["u", "t", "d"])
    ensures var p := Rounds(Hasty(), Start(Hasty(), {"d"}), 1); ReadySet(Hasty(), p) == {} && p.todo == {"t"}
  {
    var reg, order := Hasty(), ["u", "t", "d"];
    HastyRound();
    assert order[..0] == [] && order[..1] == ["u"] && order[..2] == ["u", "t"];
    assert TagsAfter(reg, {"d"}, order[..0]) == {"d"};
    assert TagsAfter(reg, {"d"}, order[..1]) == {"d", "u"};
    var p := Progress({"u"}, {"t"});
    assert "d" in reg.byTag["t"].depends && "d" !in p.tags;
    assert ReadySet(reg, p) == {};
  }
}
