/** Dependency-driven migration of checkpoints between simulator versions. */
module CptUpgrader {
  import opened Options

  datatype Kind = Upgrade | Downgrade

  datatype Upgrader = Upgrader(depends: seq<string>, kind: Kind)

  /** The class-level registries: every script by tag, and the tags to add and to remove. */
  datatype Registry = Registry(byTag: map<string, Upgrader>, tagSet: set<string>, untagSet: set<string>)

  /** Every tag belongs to one script, which either adds or removes it. */
  ghost predicate Consistent(reg: Registry) {
    && reg.byTag.Keys == reg.tagSet + reg.untagSet
    && (forall t | t in reg.tagSet :: reg.byTag[t].kind == Upgrade)
    && (forall t | t in reg.untagSet :: reg.byTag[t].kind == Downgrade)
  }

  /** Upgrader.ready: every dependency is present. */
  predicate Ready(reg: Registry, t: string, tags: set<string>)
    requires t in reg.byTag
  {
    forall dep | dep in reg.byTag[t].depends :: dep in tags
  }

  /** The tag side of Upgrader.update. */
  function Updated(reg: Registry, t: string, tags: set<string>): set<string>
    requires t in reg.byTag
  {
    if reg.byTag[t].kind == Upgrade then tags + {t} else tags - {t}
  }

  function ToApply(reg: Registry, tags: set<string>): set<string> {
    (reg.tagSet - tags) + (reg.untagSet * tags)
  }

  /** The two sets the migration loop works on. */
  datatype Progress = Progress(tags: set<string>, todo: set<string>)

  predicate Known(reg: Registry, p: Progress) {
    p.todo <= reg.byTag.Keys
  }

  function ReadySet(reg: Registry, p: Progress): set<string>
    requires Known(reg, p)
  {
    set t | t in p.todo && Ready(reg, t, p.tags)
  }

  /** The tags after a round that applied all of `ready`. */
  function RoundTags(reg: Registry, tags: set<string>, ready: set<string>): set<string> {
    (tags + ready * reg.tagSet) - ready * reg.untagSet
  }

  function OneRound(reg: Registry, p: Progress): (p': Progress)
    requires Known(reg, p)
    ensures Known(reg, p')
  {
    var ready := ReadySet(reg, p);
    Progress(RoundTags(reg, p.tags, ready), p.todo - ready)
  }

  function Rounds(reg: Registry, p: Progress, n: nat): (p': Progress)
    requires Known(reg, p)
    ensures Known(reg, p')
  {
    if n == 0 then p else OneRound(reg, Rounds(reg, p, n - 1))
  }

  /** A listing of a set without repetition: one order in which a round may go through it. */
  ghost predicate Lists(order: seq<string>, s: set<string>) {
    && (forall i | 0 <= i < |order| :: order[i] in s)
    && (forall t | t in s :: t in order)
    && (forall i, j | 0 <= i < j < |order| :: order[i] != order[j])
  }

  /** The rounds of the migration loop from p: every round applies, in some order, exactly the pending
      tags whose dependencies were present when the round began. */
  ghost predicate IsRun(reg: Registry, p: Progress, rounds: seq<seq<string>>)
    requires Known(reg, p)
  {
    forall k | 0 <= k < |rounds| :: rounds[k] != [] && Lists(rounds[k], ReadySet(reg, Rounds(reg, p, k)))
  }

  /** A pending migration changes presence of its tag the way it has not been changed yet. */
  ghost predicate Pending(reg: Registry, p: Progress) {
    var Progress(tags, todo) := p;
    && todo <= reg.byTag.Keys
    && (forall t | t in todo && t in reg.tagSet :: t !in tags)
    && (forall t | t in todo && t in reg.untagSet :: t in tags)
  }

  lemma Disjoint(reg: Registry)
    requires Consistent(reg)
    ensures reg.tagSet !! reg.untagSet
  {
    assert forall t | t in reg.tagSet :: t !in reg.untagSet;
  }

  /** One pass over the ready tags, in an order of the set's choosing. */
  method ApplyRound<C>(reg: Registry, tags0: set<string>, ready: set<string>, cpt0: C, apply: (string, C) -> C)
    returns (tags: set<string>, cpt: C, order: seq<string>)
    requires Consistent(reg) && Pending(reg, Progress(tags0, ready))
    ensures tags == RoundTags(reg, tags0, ready)
    ensures Lists(order, ready) && cpt == Fold(apply, cpt0, order)
  {
    tags, cpt, order := tags0, cpt0, [];
    var left := ready;
    Disjoint(reg);
    while left != {}
      invariant left <= ready
      invariant tags == RoundTags(reg, tags0, ready - left)
      invariant forall t | t in left && t in reg.untagSet :: t in tags
      invariant Lists(order, ready - left)
      invariant cpt == Fold(apply, cpt0, order)
      decreases left
    {
      var t :| t in left;
      if reg.byTag[t].kind == Upgrade {
        cpt := apply(t, cpt);
        tags := tags + {t};
      } else {
        cpt := apply(t, cpt);
        assert t in tags;  // removing it does not fail
        tags := tags - {t};
      }
      FoldAppend(apply, cpt0, order, t);
      order := order + [t];
      left := left - {t};
      assert order[|order| - 1] == t;
      forall u | u in ready - left ensures u in order {
        if u != t {
          assert u in order[..|order| - 1];
        }
      }
    }
    assert ready - left == ready;
  }

  function Fold<C>(apply: (string, C) -> C, cpt: C, order: seq<string>): C {
    if order == [] then cpt else apply(order[|order| - 1], Fold(apply, cpt, order[..|order| - 1]))
  }

  lemma FoldAppend<C>(apply: (string, C) -> C, cpt: C, order: seq<string>, t: string)
    ensures Fold(apply, cpt, order + [t]) == apply(t, Fold(apply, cpt, order))
  {
    assert (order + [t])[..|order|] == order;
  }

  lemma PendingInitially(reg: Registry, tags: set<string>)
    requires Consistent(reg)
    ensures Pending(reg, Progress(tags, ToApply(reg, tags)))
  {
    Disjoint(reg);
  }

  lemma RoundKeepsPending(reg: Registry, p: Progress)
    requires Consistent(reg) && Pending(reg, p)
    ensures Pending(reg, OneRound(reg, p))
  {
    Disjoint(reg);
  }

  datatype Outcome<C> = Migrated(tags: set<string>, cpt: C) | Aborted(unapplied: set<string>)

  /** What is known at the head of the migration loop. */
  ghost predicate LoopState(reg: Registry, start: Progress, p: Progress, rounds: seq<seq<string>>) {
    && Known(reg, start) && Pending(reg, p)
    && p == Rounds(reg, start, |rounds|) && IsRun(reg, start, rounds)
    && |rounds| + |p.todo| <= |start.todo|
  }

  lemma LoopStateKept(reg: Registry, start: Progress, p: Progress, rounds: seq<seq<string>>, order: seq<string>)
    requires Consistent(reg) && LoopState(reg, start, p, rounds)
    requires ReadySet(reg, p) != {} && Lists(order, ReadySet(reg, p))
    ensures LoopState(reg, start, OneRound(reg, p), rounds + [order])
  {
    var ready := ReadySet(reg, p);
    RoundKeepsPending(reg, p);
    FewerLeft(p.todo, ready);
    var t :| t in ready;
    assert t in order;
    RunExtended(reg, start, rounds, order);
  }

  lemma RunExtended(reg: Registry, start: Progress, rounds: seq<seq<string>>, order: seq<string>)
    requires Known(reg, start) && IsRun(reg, start, rounds)
    requires order != [] && Lists(order, ReadySet(reg, Rounds(reg, start, |rounds|)))
    ensures IsRun(reg, start, rounds + [order])
  {
    var rounds' := rounds + [order];
    forall k | 0 <= k < |rounds'| ensures rounds'[k] != [] && Lists(rounds'[k], ReadySet(reg, Rounds(reg, start, k))) {
      assert k < |rounds| ==> rounds'[k] == rounds[k];
    }
  }

  /** The migration loop of process_file; `rounds` is what it reports as applied, round by round. */
  method Migrate<C>(reg: Registry, tags0: set<string>, cpt0: C, apply: (string, C) -> C)
    returns (out: Outcome<C>, rounds: seq<seq<string>>)
    requires Consistent(reg)
    ensures var start := Progress(tags0, ToApply(reg, tags0));
            var end := Rounds(reg, start, |rounds|);
            && IsRun(reg, start, rounds)
            && |rounds| <= |start.todo|
            && ReadySet(reg, end) == {}
            && (out.Migrated? ==> end == Progress(out.tags, {}) && out.cpt == Fold(apply, cpt0, Flat(rounds)))
            && (out.Aborted? ==> end.todo == out.unapplied != {})
  {
    var p, cpt := Progress(tags0, ToApply(reg, tags0)), cpt0;
    ghost var start := p;
    rounds := [];
    PendingInitially(reg, tags0);
    while p.todo != {}
      invariant LoopState(reg, start, p, rounds)
      invariant cpt == Fold(apply, cpt0, Flat(rounds))
      decreases |p.todo|
    {
      var ready := ReadySet(reg, p);
      if ready == {} {
        return Aborted(p.todo), rounds;
      }
      var tags, order;
      tags, cpt, order := ApplyRound(reg, p.tags, ready, cpt, apply);
      FoldFlat(apply, cpt0, rounds, order);
      FewerLeft(p.todo, ready);
      LoopStateKept(reg, start, p, rounds, order);
      p := Progress(tags, p.todo - ready);
      rounds := rounds + [order];
    }
    return Migrated(p.tags, cpt), rounds;
  }

  lemma FewerLeft(todo: set<string>, ready: set<string>)
    requires ready <= todo && ready != {}
    ensures |todo - ready| < |todo|
  {
    assert todo == (todo - ready) + ready;
  }

  function Flat(rounds: seq<seq<string>>): seq<string> {
    if rounds == [] then [] else Flat(rounds[..|rounds| - 1]) + rounds[|rounds| - 1]
  }

  lemma {:induction false} FoldConcat<C>(apply: (string, C) -> C, cpt: C, s: seq<string>, t: seq<string>)
    ensures Fold(apply, cpt, s + t) == Fold(apply, Fold(apply, cpt, s), t)
  {
    if t == [] {
      assert s + t == s;
    } else {
      assert (s + t)[..|s + t| - 1] == s + t[..|t| - 1];
      FoldConcat(apply, cpt, s, t[..|t| - 1]);
    }
  }

  lemma FoldFlat<C>(apply: (string, C) -> C, cpt: C, rounds: seq<seq<string>>, order: seq<string>)
    ensures Fold(apply, cpt, Flat(rounds + [order])) == Fold(apply, Fold(apply, cpt, Flat(rounds)), order)
  {
    assert (rounds + [order])[..|rounds|] == rounds;
    FoldConcat(apply, cpt, Flat(rounds), order);
  }

  // ---- Upgraders only: the loop computes a least fixed point ----

  /** s contains the initial tags and every known tag whose dependencies it contains. */
  ghost predicate Closed(reg: Registry, tags0: set<string>, s: set<string>)
    requires reg.tagSet <= reg.byTag.Keys
  {
    tags0 <= s && forall t | t in reg.tagSet && Ready(reg, t, s) :: t in s
  }

  /** The tag is in the least set closed under the dependency rule. */
  ghost predicate Obtainable(reg: Registry, tags0: set<string>, t: string)
    requires reg.tagSet <= reg.byTag.Keys
  {
    forall s | Closed(reg, tags0, s) :: t in s
  }

  lemma {:induction false} RoundsWithinClosed(reg: Registry, tags0: set<string>, n: nat, s: set<string>)
    requires Consistent(reg) && reg.untagSet == {} && Closed(reg, tags0, s)
    ensures var p := Rounds(reg, Progress(tags0, ToApply(reg, tags0)), n);
            p.tags <= s && p.todo == reg.tagSet - p.tags && tags0 <= p.tags
  {
    var start := Progress(tags0, ToApply(reg, tags0));
    if n == 0 {
    } else {
      RoundsWithinClosed(reg, tags0, n - 1, s);
      var p := Rounds(reg, start, n - 1);
      forall t | t in ReadySet(reg, p) ensures t in s {
        assert Ready(reg, t, s);
      }
    }
  }

  /** Where the loop stops, the tags are the least closed set, whatever order the rounds used. */
  lemma StopsAtLeastFixedPoint(reg: Registry, tags0: set<string>, n: nat)
    requires Consistent(reg) && reg.untagSet == {}
    requires ReadySet(reg, Rounds(reg, Progress(tags0, ToApply(reg, tags0)), n)) == {}
    ensures var p := Rounds(reg, Progress(tags0, ToApply(reg, tags0)), n);
            && Closed(reg, tags0, p.tags)
            && (forall s | Closed(reg, tags0, s) :: p.tags <= s)
            && p.todo == set t | t in reg.tagSet && t !in p.tags
  {
    var p := Rounds(reg, Progress(tags0, ToApply(reg, tags0)), n);
    assert Closed(reg, tags0, tags0 + reg.tagSet);
    RoundsWithinClosed(reg, tags0, n, tags0 + reg.tagSet);
    forall t | t in reg.tagSet && Ready(reg, t, p.tags) ensures t in p.tags {
      assert t !in ReadySet(reg, p);
    }
    forall s | Closed(reg, tags0, s) ensures p.tags <= s {
      RoundsWithinClosed(reg, tags0, n, s);
    }
  }

  /** The loop finishes normally exactly when every missing tag is obtainable, and on abort the tags it
      could not apply are exactly those that are not. */
  lemma FinishesExactlyWhenObtainable(reg: Registry, tags0: set<string>, n: nat)
    requires Consistent(reg) && reg.untagSet == {}
    requires ReadySet(reg, Rounds(reg, Progress(tags0, ToApply(reg, tags0)), n)) == {}
    ensures var p := Rounds(reg, Progress(tags0, ToApply(reg, tags0)), n);
            && (forall t :: t in p.todo <==> t in reg.tagSet && !Obtainable(reg, tags0, t))
            && (p.todo == {} <==> forall t | t in reg.tagSet :: Obtainable(reg, tags0, t))
  {
    var p := Rounds(reg, Progress(tags0, ToApply(reg, tags0)), n);
    StopsAtLeastFixedPoint(reg, tags0, n);
    forall t ensures t in p.todo <==> t in reg.tagSet && !Obtainable(reg, tags0, t) {
      if Obtainable(reg, tags0, t) {
        assert t in p.tags;
      }
    }
    if p.todo == {} {
      forall t | t in reg.tagSet ensures Obtainable(reg, tags0, t) {
        assert t !in p.todo;
      }
    }
  }

  /** A set of missing tags each of which waits for another of them or for a tag nobody can supply. */
  ghost predicate Deadlocked(reg: Registry, tags0: set<string>, u: set<string>)
    requires reg.tagSet <= reg.byTag.Keys
  {
    && u != {} && u <= reg.tagSet - tags0
    && forall t | t in u :: exists dep ::
         dep in reg.byTag[t].depends && dep !in tags0 && (dep in u || dep !in reg.tagSet)
  }

  /** Aborting is justified by the dependencies alone: it happens exactly when there is a set of missing
      tags that block each other or wait for an unknown tag. */
  lemma AbortsExactlyOnDeadlock(reg: Registry, tags0: set<string>, n: nat)
    requires Consistent(reg) && reg.untagSet == {}
    requires ReadySet(reg, Rounds(reg, Progress(tags0, ToApply(reg, tags0)), n)) == {}
    ensures Rounds(reg, Progress(tags0, ToApply(reg, tags0)), n).todo != {} <==> exists u :: Deadlocked(reg, tags0, u)
  {
    var p := Rounds(reg, Progress(tags0, ToApply(reg, tags0)), n);
    StopsAtLeastFixedPoint(reg, tags0, n);
    RoundsWithinClosed(reg, tags0, n, tags0 + reg.tagSet);
    if p.todo != {} {
      forall t | t in p.todo ensures exists dep ::
           dep in reg.byTag[t].depends && dep !in tags0 && (dep in p.todo || dep !in reg.tagSet) {
        assert t !in ReadySet(reg, p);
        var dep :| dep in reg.byTag[t].depends && dep !in p.tags;
        assert dep !in tags0;
      }
      assert Deadlocked(reg, tags0, p.todo);
    }
    forall u | Deadlocked(reg, tags0, u) ensures p.todo != {} {
      var s := tags0 + (reg.tagSet - u);
      assert Closed(reg, tags0, s);
      assert p.tags <= s;
      var t :| t in u;
      assert t !in p.tags;
    }
  }

  // ---- Any mix of upgraders and downgraders ----

  lemma {:induction false} TagsAccount(reg: Registry, tags0: set<string>, n: nat)
    requires Consistent(reg)
    ensures var start := Progress(tags0, ToApply(reg, tags0)); var p := Rounds(reg, start, n);
            p.todo <= start.todo && p.tags == RoundTags(reg, tags0, start.todo - p.todo)
  {
    Disjoint(reg);
    if n > 0 {
      TagsAccount(reg, tags0, n - 1);
    }
  }

  /** A normal exit leaves the initial tags plus all upgrade tags, minus all downgrade tags, and a second
      run then finds nothing to apply. */
  lemma FinalTags(reg: Registry, tags0: set<string>, n: nat)
    requires Consistent(reg)
    requires Rounds(reg, Progress(tags0, ToApply(reg, tags0)), n).todo == {}
    ensures var tags := Rounds(reg, Progress(tags0, ToApply(reg, tags0)), n).tags;
            tags == (tags0 + reg.tagSet) - reg.untagSet && ToApply(reg, tags) == {}
  {
    Disjoint(reg);
    TagsAccount(reg, tags0, n);
  }

  lemma ListsConcat(s: seq<string>, a: set<string>, t: seq<string>, b: set<string>)
    requires Lists(s, a) && Lists(t, b) && a !! b
    ensures Lists(s + t, a + b)
  {
    var u := s + t;
    forall x | x in a + b ensures x in u {
      if x in a { assert x in s; } else { assert x in t; }
    }
    forall i, j | 0 <= i < j < |u| ensures u[i] != u[j] {
      if i < |s| <= j {
        assert s[i] in a && t[j - |s|] in b;
      }
    }
  }

  /** Every needed migration that the loop applied was applied exactly once, and nothing else was. */
  lemma {:induction false} AppliedExactlyOnce(reg: Registry, start: Progress, rounds: seq<seq<string>>)
    requires Known(reg, start) && IsRun(reg, start, rounds)
    ensures var end := Rounds(reg, start, |rounds|);
            end.todo <= start.todo && Lists(Flat(rounds), start.todo - end.todo)
  {
    if rounds != [] {
      var before := rounds[..|rounds| - 1];
      forall k | 0 <= k < |before| ensures before[k] != [] && Lists(before[k], ReadySet(reg, Rounds(reg, start, k))) {
        assert before[k] == rounds[k];
      }
      AppliedExactlyOnce(reg, start, before);
      var p := Rounds(reg, start, |before|);
      assert Lists(rounds[|before|], ReadySet(reg, p));
      ListsConcat(Flat(before), start.todo - p.todo, rounds[|before|], ReadySet(reg, p));
      assert (start.todo - p.todo) + ReadySet(reg, p) == start.todo - OneRound(reg, p).todo;
    }
  }

  /** Every script is applied after all scripts that supply a tag it depends on. */
  lemma {:induction false} DependenciesFirst(reg: Registry, tags0: set<string>, rounds: seq<seq<string>>, i: nat,
                                             dep: string)
    requires Consistent(reg)
    requires IsRun(reg, Progress(tags0, ToApply(reg, tags0)), rounds) && i < |Flat(rounds)|
    ensures Flat(rounds)[i] in reg.byTag
    ensures dep in reg.byTag[Flat(rounds)[i]].depends ==> dep in tags0 || dep in Flat(rounds)[..i]
  {
    var start, before := Progress(tags0, ToApply(reg, tags0)), rounds[..|rounds| - 1];
    assert forall k | 0 <= k < |before| :: before[k] == rounds[k];
    assert IsRun(reg, start, before);
    if i < |Flat(before)| {
      DependenciesFirst(reg, tags0, before, i, dep);
      assert Flat(rounds)[..i] == Flat(before)[..i];
    } else {
      var p, t := Rounds(reg, start, |before|), Flat(rounds)[i];
      var last := rounds[|before|];
      assert Lists(last, ReadySet(reg, p));
      assert t == last[i - |Flat(before)|];
      assert t in ReadySet(reg, p);
      TagsAccount(reg, tags0, |before|);
      AppliedExactlyOnce(reg, start, before);
      if dep in reg.byTag[t].depends && dep !in tags0 {
        assert dep in p.tags && dep in start.todo - p.todo;
        assert dep in Flat(before);
        assert Flat(rounds)[..i][..|Flat(before)|] == Flat(before);
      }
    }
  }

  // ---- The result does not depend on the iteration order of sets ----

  ghost predicate Commute<C(!new)>(apply: (string, C) -> C) {
    forall s, t, c :: CommuteAt(apply, s, t, c)
  }

  ghost predicate CommuteAt<C>(apply: (string, C) -> C, s: string, t: string, c: C) {
    apply(s, apply(t, c)) == apply(t, apply(s, c))
  }

  lemma {:induction false} FoldMoveToEnd<C(!new)>(apply: (string, C) -> C, cpt: C, s: seq<string>, i: nat)
    requires Commute(apply) && i < |s|
    ensures Fold(apply, cpt, s) == apply(s[i], Fold(apply, cpt, s[..i] + s[i + 1..]))
  {
    var n := |s| - 1;
    if i == n {
      assert s[..i] + s[i + 1..] == s[..n];
    } else {
      FoldMoveToEnd(apply, cpt, s[..n], i);
      var rest := s[..i] + s[i + 1..];
      assert rest[..n - 1] == s[..n][..i] + s[..n][i + 1..];
      assert rest[n - 1] == s[n];
      assert CommuteAt(apply, s[n], s[i], Fold(apply, cpt, rest[..n - 1]));
    }
  }

  lemma ListsNothing(order: seq<string>, a: set<string>)
    requires Lists(order, a)
    ensures a == {} ==> order == []
  {
    if |order| > 0 {
      assert order[0] in a;
    }
  }

  lemma ListsWithout(t: seq<string>, a: set<string>, i: nat)
    requires Lists(t, a) && i < |t|
    ensures Lists(t[..i] + t[i + 1..], a - {t[i]})
  {
    var t' := t[..i] + t[i + 1..];
    forall y | y in a - {t[i]} ensures y in t' {
      var k :| 0 <= k < |t| && t[k] == y;
      assert t'[if k < i then k else k - 1] == y;
    }
    forall k | 0 <= k < |t'| ensures t'[k] in a - {t[i]} {
      assert t'[k] == t[if k < i then k else k + 1];
    }
  }

  lemma {:induction false} FoldAnyOrder<C(!new)>(apply: (string, C) -> C, cpt: C, s: seq<string>, t: seq<string>,
                                                 a: set<string>)
    requires Commute(apply) && Lists(s, a) && Lists(t, a)
    ensures Fold(apply, cpt, s) == Fold(apply, cpt, t)
    decreases |s|
  {
    if s == [] {
      assert a == {};
      ListsNothing(t, a);
    } else {
      var n, x := |s| - 1, s[|s| - 1];
      assert x in t;
      var i :| 0 <= i < |t| && t[i] == x;
      FoldMoveToEnd(apply, cpt, t, i);
      ListsWithout(t, a, i);
      ListsWithout(s, a, n);
      assert s[..n] + s[n + 1..] == s[..n];
      FoldAnyOrder(apply, cpt, s[..n], t[..i] + t[i + 1..], a - {x});
    }
  }

  lemma StopTogether(reg: Registry, start: Progress, r1: seq<seq<string>>, r2: seq<seq<string>>)
    requires Known(reg, start) && IsRun(reg, start, r2) && ReadySet(reg, Rounds(reg, start, |r1|)) == {}
    ensures |r2| <= |r1|
  {
    if |r1| < |r2| {
      ListsNothing(r2[|r1|], ReadySet(reg, Rounds(reg, start, |r1|)));
    }
  }

  /** Two runs from the same checkpoint stop in the same round with the same sets; if the scripts commute
      they also produce the same checkpoint. */
  lemma OrderIrrelevant<C(!new)>(reg: Registry, start: Progress, r1: seq<seq<string>>, r2: seq<seq<string>>,
                                 apply: (string, C) -> C, cpt: C)
    requires Known(reg, start) && IsRun(reg, start, r1) && IsRun(reg, start, r2)
    requires ReadySet(reg, Rounds(reg, start, |r1|)) == {} && ReadySet(reg, Rounds(reg, start, |r2|)) == {}
    ensures |r1| == |r2|
    ensures Commute(apply) ==> Fold(apply, cpt, Flat(r1)) == Fold(apply, cpt, Flat(r2))
  {
    StopTogether(reg, start, r1, r2);
    StopTogether(reg, start, r2, r1);
    if Commute(apply) {
      AppliedExactlyOnce(reg, start, r1);
      AppliedExactlyOnce(reg, start, r2);
      FoldAnyOrder(apply, cpt, Flat(r1), Flat(r2), start.todo - Rounds(reg, start, |r1|).todo);
    }
  }

  // ---- Depending on a downgraded tag ----

  /** Readiness as the header comment describes it: a dependency on a tag with a downgrader waits for
      that tag to be removed. */
  predicate DocumentedReady(reg: Registry, t: string, tags: set<string>)
    requires t in reg.byTag
  {
    forall dep | dep in reg.byTag[t].depends :: if dep in reg.untagSet then dep !in tags else dep in tags
  }

  /** The code follows the comment for a script exactly when the script depends on no downgraded tag. */
  lemma ReadyAsDocumented(reg: Registry, t: string)
    requires t in reg.byTag
    ensures (forall tags: set<string> :: Ready(reg, t, tags) <==> DocumentedReady(reg, t, tags))
              <==> (forall dep | dep in reg.byTag[t].depends :: dep !in reg.untagSet)
  {
    if dep :| dep in reg.byTag[t].depends && dep in reg.untagSet {
      var all := set d | d in reg.byTag[t].depends;
      assert Ready(reg, t, all) && !DocumentedReady(reg, t, all);
    }
  }

  /** A script that depends on a tag that is absent and has no upgrader is never applied; this includes a
      downgraded tag that is already gone, for which the comment promises the opposite. */
  lemma {:induction false} AbsentDependencyBlocks(reg: Registry, tags0: set<string>, n: nat, t: string, dep: string)
    requires Consistent(reg) && t in ToApply(reg, tags0) && dep in reg.byTag[t].depends
    requires dep !in tags0 && dep !in reg.tagSet
    ensures var p := Rounds(reg, Progress(tags0, ToApply(reg, tags0)), n); dep !in p.tags && t in p.todo
  {
    if n > 0 {
      AbsentDependencyBlocks(reg, tags0, n - 1, t, dep);
    }
  }

  // ---- Whole files ----

  /** A checkpoint file: an old linear version number or a set of tags, and the rest. */
  datatype Checkpoint<C> = Checkpoint(version: Option<int>, tags: Option<set<string>>, body: C)

  datatype FileResult<C> =
    | Written(cpt: Checkpoint<C>)
    | Unchanged
    | NoVersion
    | UnknownVersion(version: int)
    | Unresolved(unapplied: set<string>)

  /** The tags that a linear version number stands for. */
  function LegacyTags(legacy: map<int, string>, version: int): set<string>
    requires forall i | 2 <= i <= version :: i in legacy
  {
    set i | 2 <= i <= version :: legacy[i]
  }

  /** The file says what it was written by. */
  predicate HasTags<C>(legacy: map<int, string>, file: Checkpoint<C>) {
    if file.version.Some? then forall i | 2 <= i <= file.version.value :: i in legacy else file.tags.Some?
  }

  function FileTags<C>(legacy: map<int, string>, file: Checkpoint<C>): set<string>
    requires HasTags(legacy, file)
  {
    if file.version.Some? then LegacyTags(legacy, file.version.value) else file.tags.value
  }

  /** The simulator that wrote the file knew the tag: it is listed, or its legacy version is not too new. */
  ghost predicate Carries<C>(legacy: map<int, string>, file: Checkpoint<C>, t: string)
    requires HasTags(legacy, file)
  {
    if file.version.Some? then exists i :: 2 <= i <= file.version.value && legacy[i] == t else t in file.tags.value
  }

  /** A script is due if it adds a tag that the file lacks or removes one that it carries. */
  ghost predicate Due<C>(reg: Registry, legacy: map<int, string>, file: Checkpoint<C>, t: string)
    requires HasTags(legacy, file)
  {
    (t in reg.tagSet && !Carries(legacy, file, t)) || (t in reg.untagSet && Carries(legacy, file, t))
  }

  /** Only scripts that are due are applied to a file, each once; without an abort all of them are. */
  lemma AppliedAreDue<C>(reg: Registry, legacy: map<int, string>, file: Checkpoint<C>, rounds: seq<seq<string>>)
    requires Consistent(reg) && HasTags(legacy, file)
    requires IsRun(reg, Progress(FileTags(legacy, file), ToApply(reg, FileTags(legacy, file))), rounds)
    ensures var start := Progress(FileTags(legacy, file), ToApply(reg, FileTags(legacy, file)));
            var todo := Rounds(reg, start, |rounds|).todo;
            && (forall t :: t in Flat(rounds) <==> Due(reg, legacy, file, t) && t !in todo)
            && (forall t | t in todo :: Due(reg, legacy, file, t))
            && (forall i, j | 0 <= i < j < |Flat(rounds)| :: Flat(rounds)[i] != Flat(rounds)[j])
  {
    AppliedExactlyOnce(reg, Progress(FileTags(legacy, file), ToApply(reg, FileTags(legacy, file))), rounds);
    forall t ensures Due(reg, legacy, file, t) <==> t in ToApply(reg, FileTags(legacy, file)) {
      assert Carries(legacy, file, t) <==> t in FileTags(legacy, file);
    }
  }

  method ConvertLegacy(legacy: map<int, string>, version: int) returns (tags: Option<set<string>>, missing: int)
    ensures tags.Some? <==> forall i | 2 <= i <= version :: i in legacy
    ensures tags.Some? ==> tags.value == LegacyTags(legacy, version)
    ensures tags.Some? ==> forall t :: t in tags.value <==> exists i :: 2 <= i <= version && legacy[i] == t
    ensures tags.None? ==> 2 <= missing <= version && missing !in legacy
  {
    var found := {};
    var i := 2;
    missing := 0;
    while i <= version
      invariant 2 <= i && (if version >= 2 then i <= version + 1 else i == 2)
      invariant forall k | 2 <= k < i :: k in legacy
      invariant found == LegacyTags(legacy, i - 1)
    {
      if i !in legacy {
        return None, i;
      }
      found := found + {legacy[i]};
      i := i + 1;
    }
    if version < 2 {
      assert i == 2 && found == {} && LegacyTags(legacy, version) == {};
    }
    tags := Some(found);
  }

  /** process_file: what is written back has no version number, carries exactly the initial tags plus
      all upgrade tags minus all downgrade tags, and would be left alone by a second run. */
  method ProcessFile<C>(reg: Registry, legacy: map<int, string>, file: Checkpoint<C>, apply: (string, C) -> C)
    returns (r: FileResult<C>, ghost rounds: seq<seq<string>>)
    requires Consistent(reg)
    ensures r.NoVersion? <==> file.version.None? && file.tags.None?
    ensures r.UnknownVersion? <==> file.version.Some? && exists i :: 2 <= i <= file.version.value && i !in legacy
    ensures r.Unchanged? <==> file.version.None? && file.tags.Some? && ToApply(reg, file.tags.value) == {}
    ensures HasTags(legacy, file) ==>
              var start := Progress(FileTags(legacy, file), ToApply(reg, FileTags(legacy, file)));
              var end := Rounds(reg, start, |rounds|);
              && IsRun(reg, start, rounds) && ReadySet(reg, end) == {}
              && (r.Unresolved? <==> end.todo != {}) && (r.Unresolved? ==> r.unapplied == end.todo)
              && (r.Written? ==> r.cpt == Checkpoint(None, Some(end.tags), Fold(apply, file.body, Flat(rounds))))
    ensures r.Written? ==>
              && HasTags(legacy, file) && r.cpt.tags.Some?
              && r.cpt.tags.value == (FileTags(legacy, file) + reg.tagSet) - reg.untagSet
              && ToApply(reg, r.cpt.tags.value) == {}
              && (forall t :: t in r.cpt.tags.value <==>
                    (Carries(legacy, file, t) || t in reg.tagSet) && t !in reg.untagSet)
    ensures HasTags(legacy, file) ==>
              && (forall t | t in Flat(rounds) :: Due(reg, legacy, file, t))
              && (!r.Unresolved? ==> forall t | Due(reg, legacy, file, t) :: t in Flat(rounds))
              && (r.Unresolved? ==> forall t | Due(reg, legacy, file, t) :: t in r.unapplied <==> t !in Flat(rounds))
              && (forall i, j | 0 <= i < j < |Flat(rounds)| :: Flat(rounds)[i] != Flat(rounds)[j])
  {
    var tags, change := {}, false;
    rounds := [];
    if file.version.Some? {
      var converted, missing := ConvertLegacy(legacy, file.version.value);
      if converted.None? {
        return UnknownVersion(missing), rounds;
      }
      tags, change := converted.value, true;
    } else if file.tags.Some? {
      tags := file.tags.value;
    } else {
      return NoVersion, rounds;
    }
    if ToApply(reg, tags) != {} {
      change := true;
    }
    var out, applied := Migrate(reg, tags, file.body, apply);
    rounds := applied;
    AppliedAreDue(reg, legacy, file, applied);
    assert forall t :: t in tags <==> Carries(legacy, file, t);
    if out.Aborted? {
      assert |applied| == 0 ==> out.unapplied == ToApply(reg, tags);
      assert ToApply(reg, tags) != {} by { TagsAccount(reg, tags, |applied|); }
      return Unresolved(out.unapplied), rounds;
    }
    FinalTags(reg, tags, |applied|);
    if !change {
      return Unchanged, rounds;
    }
    return Written(Checkpoint(None, Some(out.tags), out.cpt)), rounds;
  }

  // ---- The chain of the legacy versions ----

  /** Every legacy version names a registered script, which has no other version. */
  ghost predicate Versions(reg: Registry, legacy: map<int, string>) {
    && (forall k | k in legacy :: legacy[k] in reg.byTag)
    && (forall j, k | j in legacy && k in legacy && j != k :: legacy[j] != legacy[k])
  }

  /** Version k belongs to the gapless versions from 3 on. */
  ghost predicate InChain(legacy: map<int, string>, k: int) {
    k >= 3 && forall j | 3 <= j <= k :: j in legacy
  }

  ghost predicate DependsOnPrevious(legacy: map<int, string>, reg: Registry, k: int) {
    && k in legacy && k - 1 in legacy && legacy[k] in reg.byTag
    && reg.byTag[legacy[k]].depends == [legacy[k - 1]]
  }

  /** Every version of the chain depends on the one before it and on nothing else; other scripts are as before. */
  ghost predicate Chained(reg: Registry, legacy: map<int, string>, reg': Registry) {
    && reg'.tagSet == reg.tagSet && reg'.untagSet == reg.untagSet && reg'.byTag.Keys == reg.byTag.Keys
    && (forall t | t in reg.byTag :: reg'.byTag[t].kind == reg.byTag[t].kind)
    && (forall k | InChain(legacy, k) :: DependsOnPrevious(legacy, reg', k))
    && (forall t | t in reg.byTag :: reg'.byTag[t] == reg.byTag[t] || exists k :: InChain(legacy, k) && legacy[k] == t)
  }

  function Newer(legacy: map<int, string>, i: int): set<int> {
    set k | k in legacy && k >= i
  }

  lemma FewerNewer(legacy: map<int, string>, i: int)
    requires i in legacy
    ensures |Newer(legacy, i + 1)| < |Newer(legacy, i)|
  {
    assert Newer(legacy, i) == Newer(legacy, i + 1) + {i};
  }

  /** The chain up to, but not including, version i. */
  ghost predicate ChainedUpTo(reg: Registry, legacy: map<int, string>, reg': Registry, i: int) {
    && reg'.tagSet == reg.tagSet && reg'.untagSet == reg.untagSet && reg'.byTag.Keys == reg.byTag.Keys
    && (forall t | t in reg.byTag :: reg'.byTag[t].kind == reg.byTag[t].kind)
    && (forall k | 3 <= k < i :: DependsOnPrevious(legacy, reg', k))
    && (forall t | t in reg.byTag ::
          reg'.byTag[t] == reg.byTag[t] || exists k :: 3 <= k < i && k in legacy && legacy[k] == t)
  }

  function LinkedTo(reg: Registry, t: string, dep: string): Registry
    requires t in reg.byTag
  {
    reg.(byTag := reg.byTag[t := reg.byTag[t].(depends := [dep])])
  }

  lemma LinkKept(reg: Registry, legacy: map<int, string>, linked: Registry, i: int)
    requires i >= 3 && Versions(reg, legacy) && i in legacy && i - 1 in legacy && ChainedUpTo(reg, legacy, linked, i)
    ensures ChainedUpTo(reg, legacy, LinkedTo(linked, legacy[i], legacy[i - 1]), i + 1)
  {
    var linked' := LinkedTo(linked, legacy[i], legacy[i - 1]);
    forall k | 3 <= k < i + 1 ensures DependsOnPrevious(legacy, linked', k) {
      if k < i {
        assert DependsOnPrevious(legacy, linked, k);
      }
    }
  }

  /** The part of load_all that makes the legacy versions depend on each other; None is the KeyError. */
  method LinkLegacy(reg: Registry, legacy: map<int, string>) returns (r: Option<Registry>)
    requires Versions(reg, legacy)
    ensures r.None? <==> 3 in legacy && 2 !in legacy
    ensures r.Some? ==> Chained(reg, legacy, r.value)
  {
    var i, linked := 3, reg;
    while i in legacy
      invariant i >= 3 && ChainedUpTo(reg, legacy, linked, i)
      decreases |Newer(legacy, i)|
    {
      assert i > 3 ==> DependsOnPrevious(legacy, linked, i - 1);
      if i - 1 !in legacy {
        return None;
      }
      FewerNewer(legacy, i);
      LinkKept(reg, legacy, linked, i);
      linked := LinkedTo(linked, legacy[i], legacy[i - 1]);
      i := i + 1;
    }
    ChainEnds(reg, legacy, linked, i);
    assert i > 3 ==> DependsOnPrevious(legacy, linked, 3);
    return Some(linked);
  }

  lemma ChainEnds(reg: Registry, legacy: map<int, string>, linked: Registry, i: int)
    requires i >= 3 && i !in legacy && ChainedUpTo(reg, legacy, linked, i)
    ensures Chained(reg, legacy, linked)
  {
    forall k | 3 <= k < i ensures InChain(legacy, k) {
      forall j | 3 <= j <= k ensures j in legacy {
        assert DependsOnPrevious(legacy, linked, j);
      }
    }
    assert forall k | InChain(legacy, k) :: 3 <= k < i;
  }

  /** With the chain in place a file is taken through the versions it lacks in order: the script of a version
      comes after the one of the version before, unless the file has that already. */
  lemma VersionsInOrder<C>(reg: Registry, legacy: map<int, string>, linked: Registry, file: Checkpoint<C>,
                           rounds: seq<seq<string>>, i: nat, k: int)
    requires Consistent(reg) && Chained(reg, legacy, linked) && HasTags(legacy, file)
    requires IsRun(linked, Progress(FileTags(legacy, file), ToApply(linked, FileTags(legacy, file))), rounds)
    requires InChain(legacy, k) && i < |Flat(rounds)| && Flat(rounds)[i] == legacy[k]
    ensures k - 1 in legacy && (Carries(legacy, file, legacy[k - 1]) || legacy[k - 1] in Flat(rounds)[..i])
  {
    assert Consistent(linked);
    DependenciesFirst(linked, FileTags(legacy, file), rounds, i, legacy[k - 1]);
    assert Carries(legacy, file, legacy[k - 1]) <==> legacy[k - 1] in FileTags(legacy, file);
  }
}
