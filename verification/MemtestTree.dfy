/** The cache and tester tree of the memory test configuration. */
module MemtestTree {
  import opened Options
  import opened Text

  const BLOCK_SIZE := 64

  datatype SpecError = NoCaches | LengthMismatch | NoTestersOnTop | NegativeTesters | NoCachesAtLevel | TooManyTesters

  // ---- Counting the testers ----

  /** Testers of the tree: those of the lowest level plus one whole subtree per cache. */
  function Testers(caches: seq<int>, testers: seq<int>): int {
    if testers == [] then 0
    else testers[0] + if caches == [] then 0 else caches[0] * Testers(caches[1..], testers[1..])
  }

  function Product(caches: seq<int>): int {
    if caches == [] then 1 else Product(caches[..|caches| - 1]) * caches[|caches| - 1]
  }

  /** Sum over the first n levels of testers per subsystem times subsystems. */
  function WeightedSum(caches: seq<int>, testers: seq<int>, n: nat): int
    requires n <= |testers| && n <= |caches| + 1
  {
    if n == 0 then 0 else WeightedSum(caches, testers, n - 1) + testers[n - 1] * Product(caches[..n - 1])
  }

  lemma {:induction false} ProductCons(c: int, rest: seq<int>)
    ensures Product([c] + rest) == c * Product(rest)
  {
    if rest == [] {
      assert [c] + rest == [c] && [c][..0] == [];
    } else {
      var all, n := [c] + rest, |rest| - 1;
      assert all[..|all| - 1] == [c] + rest[..n];
      ProductCons(c, rest[..n]);
      assert (c * Product(rest[..n])) * rest[n] == c * (Product(rest[..n]) * rest[n]);
    }
  }

  lemma {:induction false} WeightedSumPeel(caches: seq<int>, testers: seq<int>, n: nat)
    requires 0 < n <= |testers| && n <= |caches| + 1 && caches != []
    ensures WeightedSum(caches, testers, n) == testers[0] + caches[0] * WeightedSum(caches[1..], testers[1..], n - 1)
  {
    if n == 1 {
      assert caches[..0] == [];
    } else {
      WeightedSumPeel(caches, testers, n - 1);
      var rest := caches[1..];
      assert caches[..n - 1] == [caches[0]] + rest[..n - 2];
      ProductCons(caches[0], rest[..n - 2]);
      var a, t, p := WeightedSum(rest, testers[1..], n - 2), testers[n - 1], Product(rest[..n - 2]);
      assert testers[1..][n - 2] == t;
      FactorOut(caches[0], a, t, p);
    }
  }

  lemma FactorOut(c: int, a: int, t: int, p: int)
    ensures c * a + t * (c * p) == c * (a + t * p)
  {
    assert t * (c * p) == c * (t * p);
  }

  /** The closed form agrees with the recursive count. */
  lemma {:induction false} WeightedSumIsTesters(caches: seq<int>, testers: seq<int>, n: nat)
    requires n == if |testers| <= |caches| + 1 then |testers| else |caches| + 1
    ensures WeightedSum(caches, testers, n) == Testers(caches, testers)
  {
    if testers == [] {
    } else if caches == [] {
      assert caches[..0] == [];
    } else {
      WeightedSumPeel(caches, testers, n);
      WeightedSumIsTesters(caches[1..], testers[1..], n - 1);
    }
  }

  /** numtesters */
  method NumTesters(cachespec: seq<int>, testerspec: seq<int>) returns (total: int)
    ensures total == Testers(cachespec, testerspec)
  {
    var multiplier: seq<int> := [1];
    assert cachespec[..0] == [];
    for k := 0 to |cachespec|
      invariant |multiplier| == k + 1
      invariant forall j | 0 <= j <= k :: multiplier[j] == Product(cachespec[..j])
    {
      assert cachespec[..k + 1][..k] == cachespec[..k];
      multiplier := multiplier + [multiplier[|multiplier| - 1] * cachespec[k]];
    }
    total := 0;
    var n := if |testerspec| <= |multiplier| then |testerspec| else |multiplier|;
    for k := 0 to n
      invariant total == WeightedSum(cachespec, testerspec, k)
    {
      total := total + testerspec[k] * multiplier[k];
    }
    WeightedSumIsTesters(cachespec, testerspec, n);
  }

  // ---- The sanity checks ----

  ghost predicate ValidSpec(caches: seq<int>, testers: seq<int>) {
    && |caches| >= 1 && |testers| == |caches| + 1 && testers[|testers| - 1] != 0
    && (forall k | 0 <= k < |testers| :: testers[k] >= 0)
    && (forall k | 0 <= k < |caches| :: caches[k] >= 1)
    && Testers(caches, testers) <= BLOCK_SIZE
  }

  method CheckSpec(caches: seq<int>, testers: seq<int>) returns (err: Option<SpecError>)
    ensures err.None? <==> ValidSpec(caches, testers)
    ensures err == Some(NoCaches) <==> caches == []
    ensures err == Some(LengthMismatch) <==> caches != [] && |testers| != |caches| + 1
    ensures err == Some(NoTestersOnTop) <==> caches != [] && |testers| == |caches| + 1 && testers[|caches|] == 0
    ensures var shape := caches != [] && |testers| == |caches| + 1 && testers[|caches|] != 0;
            var negative := exists k :: 0 <= k < |testers| && testers[k] < 0;
            var none := exists k :: 0 <= k < |caches| && caches[k] < 1;
            && (err == Some(NegativeTesters) <==> shape && negative)
            && (err == Some(NoCachesAtLevel) <==> shape && !negative && none)
            && (err == Some(TooManyTesters) <==> shape && !negative && !none && Testers(caches, testers) > BLOCK_SIZE)
  {
    if |caches| < 1 { return Some(NoCaches); }
    if |caches| != |testers| - 1 { return Some(LengthMismatch); }
    if testers[|testers| - 1] == 0 { return Some(NoTestersOnTop); }
    for k := 0 to |testers|
      invariant forall j | 0 <= j < k :: testers[j] >= 0
    {
      if testers[k] < 0 { return Some(NegativeTesters); }
    }
    for k := 0 to |caches|
      invariant forall j | 0 <= j < k :: caches[j] >= 1
    {
      if caches[k] < 1 { return Some(NoCachesAtLevel); }
    }
    var total := NumTesters(caches, testers);
    if total > BLOCK_SIZE { return Some(TooManyTesters); }
    return None;
  }

  // ---- Building the tree ----

  /** The attribute name of a subsystem. */
  function SubsysName(level: nat, index: nat): string {
    "l" + Decimal(level) + "subsys" + Decimal(index)
  }

  lemma SubsysNameParts(level: nat, index: nat)
    ensures Split(SubsysName(level, index), 's') == ["l" + Decimal(level), "ub", "y", Decimal(index)]
  {
    var head, d := "l" + Decimal(level), Decimal(index);
    DecimalChars(level, 's');
    DecimalChars(index, 's');
    assert SubsysName(level, index) == head + ['s'] + ("ub" + ['s'] + ("y" + ['s'] + d));
    SplitFirst(head, 's', "ub" + ['s'] + ("y" + ['s'] + d));
    SplitFirst("ub", 's', "y" + ['s'] + d);
    SplitFirst("y", 's', d);
    SplitPlain(d, 's');
  }

  /** Different subsystems have different names. */
  lemma SubsysNameInjective(level: nat, index: nat, level': nat, index': nat)
    requires SubsysName(level, index) == SubsysName(level', index')
    ensures level == level' && index == index'
  {
    SubsysNameParts(level, index);
    SubsysNameParts(level', index');
    var a, b := "l" + Decimal(level), "l" + Decimal(level');
    assert a[1..] == Decimal(level) && b[1..] == Decimal(level');
    ParseDecimal(level);
    ParseDecimal(level');
    ParseDecimal(index);
    ParseDecimal(index');
  }

  /** Subsystems that a subtree rooted at `level` adds at level `at`: one per path of caches down to it. */
  function Added(caches: seq<int>, level: nat, at: nat): int
    requires |caches| == level
  {
    if at > level then 0 else Product(caches[..level - at])
  }

  /** Every index handed out at a level belongs to a subsystem that was created. */
  ghost predicate Complete(next: seq<int>, subsystems: seq<(nat, nat)>) {
    forall at: nat, x: nat | at < |next| && x < next[at] :: (at, x) in subsystems
  }

  lemma CompleteStep(next: seq<int>, subsystems: seq<(nat, nat)>, level: nat)
    requires level < |next| && next[level] >= 0 && Complete(next, subsystems)
    ensures Complete(next[level := next[level] + 1], subsystems + [(level, next[level])])
  {
    var next', subsystems' := next[level := next[level] + 1], subsystems + [(level, next[level])];
    forall at: nat, x: nat | at < |next'| && x < next'[at] ensures (at, x) in subsystems' {
      if at == level && x == next[level] {
        assert subsystems'[|subsystems|] == (at, x);
      } else {
        assert (at, x) in subsystems;
      }
    }
  }

  /** Cache parameters that are scaled from level to level. */
  datatype Prototype = Prototype(
    size: int, tagLatency: int, dataLatency: int, responseLatency: int,
    assoc: int, mshrs: int, inclusive: bool, cleanWritebacks: bool)

  /** The prototype one level further from the testers. */
  function Scaled(p: Prototype, scale: int): Prototype {
    Prototype(p.size * scale, p.tagLatency * 10, p.dataLatency * 10, p.responseLatency * 10,
              p.assoc * scale, p.mshrs * scale, !p.inclusive, !p.cleanWritebacks)
  }

  /** The prototypes for the scales seen so far, the last made in front. */
  function Prototypes(l1: Prototype, scales: seq<int>): (ps: seq<Prototype>)
    ensures |ps| == |scales| + 1
  {
    if scales == [] then [l1] else
    var before := Prototypes(l1, scales[..|scales| - 1]);
    [Scaled(before[0], scales[|scales| - 1])] + before
  }

  /** One prototype per level, from the memory side to the testers: the last is the L1 cache, each one before
      has its parameters scaled and the opposite inclusivity. */
  lemma {:induction false} PrototypeLevels(l1: Prototype, scales: seq<int>)
    ensures var ps := Prototypes(l1, scales);
            ps[|scales|] == l1 && forall k | 0 <= k < |scales| :: ps[k] == Scaled(ps[k + 1], scales[|scales| - 1 - k])
  {
    if scales != [] {
      PrototypeLevels(l1, scales[..|scales| - 1]);
    }
  }

  function Pow10(n: nat): nat {
    if n == 0 then 1 else 10 * Pow10(n - 1)
  }

  /** p is m levels further from the testers than the L1 cache, behind caches that fan out `fan` times. */
  ghost predicate Grown(l1: Prototype, p: Prototype, fan: int, m: nat) {
    && p.size == l1.size * fan && p.assoc == l1.assoc * fan && p.mshrs == l1.mshrs * fan
    && p.tagLatency == l1.tagLatency * Pow10(m) && p.dataLatency == l1.dataLatency * Pow10(m)
    && p.responseLatency == l1.responseLatency * Pow10(m)
    && (p.inclusive <==> if m % 2 == 0 then l1.inclusive else !l1.inclusive)
    && (p.cleanWritebacks <==> if m % 2 == 0 then l1.cleanWritebacks else !l1.cleanWritebacks)
  }

  lemma TimesThree(a: int, b: int, c: int)
    ensures (a * b) * c == a * (b * c)
  {
  }

  lemma GrownOnce(l1: Prototype, p: Prototype, fan: int, m: nat, scale: int)
    requires Grown(l1, p, fan, m)
    ensures Grown(l1, Scaled(p, scale), fan * scale, m + 1)
  {
    TimesThree(l1.size, fan, scale);
    TimesThree(l1.assoc, fan, scale);
    TimesThree(l1.mshrs, fan, scale);
    TimesThree(l1.tagLatency, Pow10(m), 10);
    TimesThree(l1.dataLatency, Pow10(m), 10);
    TimesThree(l1.responseLatency, Pow10(m), 10);
  }

  /** Size, associativity and misses outstanding grow with the product of the scales, latencies tenfold, and
      the inclusivity alternates. */
  lemma {:induction false} PrototypeParameters(l1: Prototype, scales: seq<int>)
    ensures forall k | 0 <= k <= |scales| ::
              Grown(l1, Prototypes(l1, scales)[k], Product(scales[..|scales| - k]), |scales| - k)
  {
    if scales == [] {
      assert Product(scales[..0]) == 1;
    } else {
      var n: nat := |scales| - 1;
      var before := scales[..n];
      PrototypeParameters(l1, before);
      var ps := Prototypes(l1, scales);
      assert before[..n] == before && scales[..n + 1] == scales;
      assert Grown(l1, Prototypes(l1, before)[0], Product(before[..n]), n);
      GrownOnce(l1, Prototypes(l1, before)[0], Product(before), n, scales[n]);
      forall k | 0 < k <= n + 1 ensures Grown(l1, ps[k], Product(scales[..n + 1 - k]), n + 1 - k) {
        assert before[..n - (k - 1)] == scales[..n + 1 - k];
        assert ps[k] == Prototypes(l1, before)[k - 1];
      }
    }
  }

  /** The list of cache prototypes, for all counts but the last. */
  method MakePrototypes(l1: Prototype, cachespec: seq<int>) returns (protos: seq<Prototype>)
    requires cachespec != []
    ensures protos == Prototypes(l1, cachespec[..|cachespec| - 1]) && |protos| == |cachespec|
    ensures forall k | 0 <= k < |protos| ::
              Grown(l1, protos[k], Product(cachespec[..|cachespec| - 1 - k]), |cachespec| - 1 - k)
  {
    var scales := cachespec[..|cachespec| - 1];
    protos := [l1];
    for k := 0 to |scales|
      invariant protos == Prototypes(l1, scales[..k]) && |protos| == k + 1
    {
      assert scales[..k + 1][..k] == scales[..k];
      protos := [Scaled(protos[0], scales[k])] + protos;
    }
    assert scales[..|scales|] == scales;
    PrototypeParameters(l1, scales);
    forall k | 0 <= k < |protos|
      ensures Grown(l1, protos[k], Product(cachespec[..|cachespec| - 1 - k]), |cachespec| - 1 - k)
    {
      assert scales[..|scales| - k] == cachespec[..|cachespec| - 1 - k];
    }
  }

  class System {
    const cachespec: seq<int>
    const testerspec: seq<int>
    /** For each level, the next subsystem index to use. */
    var next: seq<int>
    /** Subsystems set on the system, by level and index. */
    var subsystems: seq<(nat, nat)>
    var testers: int

    ghost predicate Valid()
      reads this
    {
      && ValidSpec(cachespec, testerspec) && |next| == |cachespec| + 1
      && (forall k | 0 <= k < |next| :: next[k] >= 0)
      && (forall k | 0 <= k < |subsystems| :: subsystems[k].0 < |next| && subsystems[k].1 < next[subsystems[k].0])
      && (forall k, m | 0 <= k < m < |subsystems| :: subsystems[k] != subsystems[m])
      && Complete(next, subsystems)
    }

    constructor (cachespec: seq<int>, testerspec: seq<int>)
      requires ValidSpec(cachespec, testerspec)
      ensures Valid() && this.cachespec == cachespec && this.testerspec == testerspec
      ensures testers == 0 && subsystems == [] && next == seq(|cachespec| + 1, _ => 0)
    {
      this.cachespec, this.testerspec := cachespec, testerspec;
      next, subsystems, testers := seq(|cachespec| + 1, _ => 0), [], 0;
    }

    /** make_cache_level. Every index into the specs and the prototype list is in range. */
    method MakeCacheLevel(ncaches: seq<int>, prototypes: seq<Prototype>, level: nat, hasNextCache: bool)
      requires Valid() && level <= |cachespec| && ncaches == cachespec[|cachespec| - level..] && |prototypes| == level
      requires level == 0 ==> hasNextCache
      modifies this
      ensures Valid()
      ensures testers == old(testers) + Testers(ncaches, testerspec[|cachespec| - level..])
      ensures |next| == old(|next|) && forall at | 0 <= at < |next| ::
                next[at] == old(next[at]) + Added(ncaches, level, at)
      decreases level, 1
    {
      var index := next[level];
      CompleteStep(next, subsystems, level);
      next := next[level := next[level] + 1];
      subsystems := subsystems + [(level, index)];
      var ntesters := testerspec[|cachespec| - level];
      testers := testers + ntesters;
      assert ncaches[..0] == [];
      ghost var ts := testerspec[|cachespec| - level..];
      if level != 0 {
        var proto := prototypes[0];  // every cache of the level is made from it
        MakeSubtrees(ncaches, prototypes, level);
        forall at | 0 <= at < |next| ensures next[at] == old(next[at]) + Added(ncaches, level, at) {
          AddedStep(ncaches, level, at);
        }
        assert ts[1..] == testerspec[|cachespec| - (level - 1)..];
      } else {
        assert |ts| == 1 && ts[1..] == [];
        assert ntesters > 0;  // the single tester or the crossbar's testers exist
      }
    }

    /** Its loop over the caches of the level, one subtree each. */
    method MakeSubtrees(ncaches: seq<int>, prototypes: seq<Prototype>, level: nat)
      requires Valid() && 0 < level <= |cachespec|
      requires ncaches == cachespec[|cachespec| - level..] && |prototypes| == level
      modifies this
      ensures Valid()
      ensures testers == old(testers) + ncaches[0] * Testers(ncaches[1..], testerspec[|cachespec| - (level - 1)..])
      ensures |next| == old(|next|)
      ensures forall at | 0 <= at < |next| ::
                next[at] == old(next[at]) + ncaches[0] * Added(ncaches[1..], level - 1, at)
      decreases level, 0
    {
      ghost var rest, ts := ncaches[1..], testerspec[|cachespec| - (level - 1)..];
      assert ncaches[0] == cachespec[|cachespec| - level] && rest == cachespec[|cachespec| - (level - 1)..];
      for k := 0 to ncaches[0]
        invariant Valid() && |next| == old(|next|)
        invariant testers == old(testers) + k * Testers(rest, ts)
        invariant forall at | 0 <= at < |next| :: next[at] == old(next[at]) + k * Added(rest, level - 1, at)
      {
        MakeCacheLevel(ncaches[1..], prototypes[1..], level - 1, true);
        RepeatOnce(k, Testers(rest, ts));
        forall at | 0 <= at < |next| ensures next[at] == old(next[at]) + (k + 1) * Added(rest, level - 1, at) {
          RepeatOnce(k, Added(rest, level - 1, at));
        }
      }
    }
  }

  lemma RepeatOnce(k: int, x: int)
    ensures (k + 1) * x == k * x + x
  {
  }

  lemma AddedStep(caches: seq<int>, level: nat, at: nat)
    requires |caches| == level && level > 0
    ensures Added(caches, level, at) ==
              if at == level then 1 else caches[0] * Added(caches[1..], level - 1, at)
  {
    var rest := caches[1..];
    if at < level {
      assert caches[..level - at] == [caches[0]] + rest[..level - 1 - at];
      ProductCons(caches[0], rest[..level - 1 - at]);
    } else if at == level {
      assert caches[..0] == [];
    }
  }

  /** The top-level call: exactly numtesters testers are created, hence at most one per byte of a block,
      and level `at` holds as many subsystems as the caches below it multiply to. */
  method MakeTree(cachespec: seq<int>, testerspec: seq<int>, l1: Prototype)
    returns (testers: int, subsystems: seq<(nat, nat)>, counts: seq<int>)
    requires ValidSpec(cachespec, testerspec)
    ensures testers == Testers(cachespec, testerspec) <= BLOCK_SIZE
    ensures |counts| == |cachespec| + 1
    ensures forall at | 0 <= at <= |cachespec| :: counts[at] == Product(cachespec[..|cachespec| - at])
    ensures forall at: nat, x: nat :: (at, x) in subsystems <==> at <= |cachespec| && x < counts[at]
    ensures forall k, m | 0 <= k < m < |subsystems| ::
              SubsysName(subsystems[k].0, subsystems[k].1) != SubsysName(subsystems[m].0, subsystems[m].1)
  {
    var system := new System(cachespec, testerspec);
    assert cachespec[0..] == cachespec && testerspec[0..] == testerspec;
    var protos := MakePrototypes(l1, cachespec);
    system.MakeCacheLevel(cachespec, protos, |cachespec|, false);
    testers, subsystems, counts := system.testers, system.subsystems, system.next;
    forall k, m | 0 <= k < m < |subsystems|
      ensures SubsysName(subsystems[k].0, subsystems[k].1) != SubsysName(subsystems[m].0, subsystems[m].1)
    {
      if SubsysName(subsystems[k].0, subsystems[k].1) == SubsysName(subsystems[m].0, subsystems[m].1) {
        SubsysNameInjective(subsystems[k].0, subsystems[k].1, subsystems[m].0, subsystems[m].1);
      }
    }
  }
}
