/** All-pairs least-weight analysis of the Ruby network topology.
    A missing link is entered in the weight matrix as the finite number INFINITE_LATENCY,
    so every pair of switches is joined by an entry and walks may use any pair. */
module ShortestPath {

  type Matrix = seq<seq<nat>>

  const INFINITE_LATENCY: nat := 10000

  ghost predicate Square(m: Matrix) {
    forall i | 0 <= i < |m| :: |m[i]| == |m|
  }

  ghost predicate ZeroDiagonal(m: Matrix)
    requires Square(m)
  {
    forall i | 0 <= i < |m| :: m[i][i] == 0
  }

  ghost predicate Within(p: seq<nat>, n: nat) {
    forall k | 0 <= k < |p| :: p[k] < n
  }

  /** A walk is the non-empty sequence of switches it visits. */
  ghost predicate IsWalk(n: nat, p: seq<nat>, i: nat, j: nat) {
    |p| > 0 && p[0] == i && p[|p| - 1] == j && Within(p, n)
  }

  ghost function Weight(w: Matrix, p: seq<nat>): nat
    requires Square(w) && Within(p, |w|)
  {
    if |p| <= 1 then 0 else w[p[0]][p[1]] + Weight(w, p[1..])
  }

  ghost predicate Realised(w: Matrix, i: nat, j: nat, d: nat)
    requires Square(w)
  {
    exists p :: IsWalk(|w|, p, i, j) && Weight(w, p) == d
  }

  /** d[i][j] is the least weight of a walk from i to j, for every pair. */
  ghost predicate LeastWeights(w: Matrix, d: Matrix)
    requires Square(w)
  {
    && Square(d) && |d| == |w|
    && (forall i, j | 0 <= i < |w| && 0 <= j < |w| :: Attained(w, d, i, j))
    && (forall p: seq<nat> :: NotAboveWalk(w, d, p))
  }

  ghost predicate Attained(w: Matrix, d: Matrix, i: nat, j: nat)
    requires Square(w) && Square(d) && |d| == |w| && i < |w| && j < |w|
  {
    Realised(w, i, j, d[i][j])
  }

  ghost predicate NotAboveWalk(w: Matrix, d: Matrix, p: seq<nat>)
    requires Square(w) && Square(d) && |d| == |w|
  {
    |p| > 0 && Within(p, |w|) ==> d[p[0]][p[|p| - 1]] <= Weight(w, p)
  }

  lemma {:induction false} WeightConcat(w: Matrix, p: seq<nat>, q: seq<nat>)
    requires Square(w) && |p| > 0 && |q| > 0 && p[|p| - 1] == q[0]
    requires Within(p, |w|)
    requires Within(q, |w|)
    ensures Within(p + q[1..], |w|)
    ensures Weight(w, p + q[1..]) == Weight(w, p) + Weight(w, q)
  {
    if |p| == 1 {
      assert p + q[1..] == q;
    } else {
      WeightConcat(w, p[1..], q);
      assert (p + q[1..])[1..] == p[1..] + q[1..];
    }
  }

  lemma RealisedConcat(w: Matrix, i: nat, k: nat, j: nat, d1: nat, d2: nat)
    requires Square(w) && Realised(w, i, k, d1) && Realised(w, k, j, d2)
    ensures Realised(w, i, j, d1 + d2)
  {
    var p :| IsWalk(|w|, p, i, k) && Weight(w, p) == d1;
    var q :| IsWalk(|w|, q, k, j) && Weight(w, q) == d2;
    WeightConcat(w, p, q);
    var r := p + q[1..];
    assert r[|r| - 1] == j;
    assert IsWalk(|w|, r, i, j);
  }

  lemma RealisedEntry(w: Matrix, i: nat, j: nat)
    requires Square(w) && i < |w| && j < |w|
    ensures Realised(w, i, j, w[i][j])
  {
    var p := [i, j];
    assert p[1..] == [j];
    assert Weight(w, p) == w[i][j] + Weight(w, p[1..]);
    assert IsWalk(|w|, p, i, j);
  }

  /** What the relaxation keeps: no entry is above the direct weight, none is invented. */
  ghost predicate Approximates(w: Matrix, d: Matrix)
    requires Square(w)
  {
    && Square(d) && |d| == |w|
    && (forall i, j | 0 <= i < |w| && 0 <= j < |w| :: EntryOk(w, d, i, j))
  }

  ghost predicate EntryOk(w: Matrix, d: Matrix, i: nat, j: nat)
    requires Square(w) && Square(d) && |d| == |w| && i < |w| && j < |w|
  {
    d[i][j] <= w[i][j] && Realised(w, i, j, d[i][j])
  }

  ghost predicate TriangleAt(d: Matrix, i: nat, j: nat)
    requires Square(d) && i < |d| && j < |d|
  {
    forall k | 0 <= k < |d| :: d[i][j] <= d[i][k] + d[k][j]
  }

  lemma {:induction false} TriangleBoundsWalks(w: Matrix, d: Matrix, p: seq<nat>)
    requires Square(w) && ZeroDiagonal(w) && Approximates(w, d)
    requires forall i, j | 0 <= i < |d| && 0 <= j < |d| :: TriangleAt(d, i, j)
    requires |p| > 0 && Within(p, |w|)
    ensures d[p[0]][p[|p| - 1]] <= Weight(w, p)
  {
    if |p| == 1 {
      assert EntryOk(w, d, p[0], p[0]);
    } else {
      var t := p[1..];
      TriangleBoundsWalks(w, d, t);
      assert t[|t| - 1] == p[|p| - 1];
      assert TriangleAt(d, p[0], p[|p| - 1]) && EntryOk(w, d, p[0], p[1]);
      assert d[p[0]][p[|p| - 1]] <= d[p[0]][p[1]] + d[p[1]][p[|p| - 1]];
    }
  }

  ghost function RowSum(r: seq<nat>): nat {
    if r == [] then 0 else r[0] + RowSum(r[1..])
  }

  ghost function Total(m: Matrix): nat {
    if m == [] then 0 else RowSum(m[0]) + Total(m[1..])
  }

  lemma {:induction false} RowSumUpdate(r: seq<nat>, j: nat, v: nat)
    requires j < |r|
    ensures RowSum(r[j := v]) == RowSum(r) - r[j] + v
  {
    if j == 0 {
      assert r[0 := v][1..] == r[1..];
    } else {
      assert r[j := v][1..] == r[1..][j - 1 := v];
      RowSumUpdate(r[1..], j - 1, v);
    }
  }

  lemma {:induction false} TotalUpdate(m: Matrix, i: nat, r: seq<nat>)
    requires i < |m|
    ensures Total(m[i := r]) == Total(m) - RowSum(m[i]) + RowSum(r)
  {
    if i == 0 {
      assert m[0 := r][1..] == m[1..];
    } else {
      assert m[i := r][1..] == m[1..][i - 1 := r];
      TotalUpdate(m[1..], i - 1, r);
    }
  }

  function Put(m: Matrix, i: nat, j: nat, v: nat): Matrix
    requires i < |m| && j < |m[i]|
  {
    var row: seq<nat> := m[i][j := v];
    m[i := row]
  }

  /** The innermost loop: the best detour through one intermediate switch. */
  method BestDetour(ghost w: Matrix, d: Matrix, i: nat, j: nat) returns (minimum: nat)
    requires Square(w) && Approximates(w, d) && i < |d| && j < |d|
    ensures minimum <= d[i][j] && Realised(w, i, j, minimum)
    ensures forall k | 0 <= k < |d| :: minimum <= d[i][k] + d[k][j]
  {
    assert EntryOk(w, d, i, j);
    minimum := d[i][j];
    for k := 0 to |d|
      invariant minimum <= d[i][j] && Realised(w, i, j, minimum)
      invariant forall k' | 0 <= k' < k :: minimum <= d[i][k'] + d[k'][j]
    {
      if d[i][k] + d[k][j] < minimum {
        assert EntryOk(w, d, i, k) && EntryOk(w, d, k, j);
        RealisedConcat(w, i, k, j, d[i][k], d[k][j]);
        minimum := d[i][k] + d[k][j];
      }
    }
  }

  lemma PutEntries(d: Matrix, i: nat, j: nat, v: nat)
    requires Square(d) && i < |d| && j < |d|
    ensures Square(Put(d, i, j, v)) && |Put(d, i, j, v)| == |d|
    ensures forall k, m | 0 <= k < |d| && 0 <= m < |d| ::
              Put(d, i, j, v)[k][m] == if k == i && m == j then v else d[k][m]
  {
  }

  lemma EntryLowered(w: Matrix, d: Matrix, i: nat, j: nat, v: nat)
    requires Square(w) && Approximates(w, d) && i < |d| && j < |d|
    requires v < d[i][j] && Realised(w, i, j, v)
    ensures Approximates(w, Put(d, i, j, v)) && Total(Put(d, i, j, v)) < Total(d)
  {
    TotalUpdate(d, i, Put(d, i, j, v)[i]);
    RowSumUpdate(d[i], j, v);
    PutEntries(d, i, j, v);
    assert EntryOk(w, d, i, j);
    forall i', j' | 0 <= i' < |w| && 0 <= j' < |w| ensures EntryOk(w, Put(d, i, j, v), i', j') {
      assert EntryOk(w, d, i', j');
    }
  }

  /** One sweep of the relaxation over all pairs, lowering entries in place. */
  method Sweep(ghost w: Matrix, d0: Matrix) returns (d: Matrix, change: bool)
    requires Square(w) && Approximates(w, d0)
    ensures Approximates(w, d) && Total(d) <= Total(d0)
    ensures change ==> Total(d) < Total(d0)
    ensures !change ==> d == d0 && forall i, j | 0 <= i < |d| && 0 <= j < |d| :: TriangleAt(d, i, j)
  {
    d, change := d0, false;
    var nodes := |d|;
    for i := 0 to nodes
      invariant Approximates(w, d) && |d| == nodes && Total(d) <= Total(d0)
      invariant change ==> Total(d) < Total(d0)
      invariant !change ==> d == d0
      invariant !change ==> forall i', j' | 0 <= i' < i && 0 <= j' < nodes :: TriangleAt(d, i', j')
    {
      for j := 0 to nodes
        invariant Approximates(w, d) && |d| == nodes && Total(d) <= Total(d0)
        invariant change ==> Total(d) < Total(d0)
        invariant !change ==> d == d0
        invariant !change ==> forall i', j' | 0 <= i' < i && 0 <= j' < nodes :: TriangleAt(d, i', j')
        invariant !change ==> forall j' | 0 <= j' < j :: TriangleAt(d, i, j')
      {
        var minimum := BestDetour(w, d, i, j);
        if d[i][j] != minimum {
          EntryLowered(w, d, i, j, minimum);
          change := true;
          d := Put(d, i, j, minimum);
        }
      }
    }
  }

  /** Repeats the sweep until nothing changes; the result is the exact least walk weight for
      every pair of switches. */
  method ExtendShortestPath(w: Matrix) returns (dist: Matrix)
    requires Square(w) && ZeroDiagonal(w)
    ensures LeastWeights(w, dist)
  {
    dist := w;
    forall i, j | 0 <= i < |w| && 0 <= j < |w| ensures EntryOk(w, w, i, j) {
      RealisedEntry(w, i, j);
    }
    var change := true;
    while change
      invariant Approximates(w, dist)
      invariant !change ==> forall i, j | 0 <= i < |dist| && 0 <= j < |dist| :: TriangleAt(dist, i, j)
      decreases Total(dist), change
    {
      dist, change := Sweep(w, dist);
    }
    forall p: seq<nat> ensures NotAboveWalk(w, dist, p) {
      if |p| > 0 && Within(p, |w|) {
        TriangleBoundsWalks(w, dist, p);
      }
    }
    forall i, j | 0 <= i < |w| && 0 <= j < |w| ensures Attained(w, dist, i, j) {
      assert EntryOk(w, dist, i, j);
    }
  }

  /** There is only one table of least weights. */
  lemma LeastWeightsUnique(w: Matrix, d: Matrix, e: Matrix)
    requires Square(w) && LeastWeights(w, d) && LeastWeights(w, e)
    ensures d == e
  {
    forall i, j | 0 <= i < |w| && 0 <= j < |w| ensures d[i][j] == e[i][j] {
      assert Attained(w, d, i, j) && Attained(w, e, i, j);
      var p :| IsWalk(|w|, p, i, j) && Weight(w, p) == d[i][j];
      var q :| IsWalk(|w|, q, i, j) && Weight(w, q) == e[i][j];
      assert NotAboveWalk(w, d, q) && NotAboveWalk(w, e, p);
    }
    forall i | 0 <= i < |w| ensures d[i] == e[i] {}
  }
}
