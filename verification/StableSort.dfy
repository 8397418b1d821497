/** Stable sorting by a total preorder, as the host language's built-in sort does it. */
module StableSort {

  ghost predicate TotalPreorder<T(!new)>(leq: (T, T) -> bool) {
    && (forall x, y :: leq(x, y) || leq(y, x))
    && (forall x, y, z :: leq(x, y) && leq(y, z) ==> leq(x, z))
  }

  ghost predicate Sorted<T>(s: seq<T>, leq: (T, T) -> bool) {
    forall i, j | 0 <= i < j < |s| :: leq(s[i], s[j])
  }

  /** Puts x after all elements of a sorted sequence that are not above it. */
  function Insert<T>(s: seq<T>, x: T, leq: (T, T) -> bool): seq<T> {
    if s == [] then [x]
    else if leq(s[|s| - 1], x) then s + [x]
    else Insert(s[..|s| - 1], x, leq) + [s[|s| - 1]]
  }

  function Sort<T>(s: seq<T>, leq: (T, T) -> bool): seq<T> {
    if s == [] then [] else Insert(Sort(s[..|s| - 1], leq), s[|s| - 1], leq)
  }

  lemma {:induction false} InsertMultiset<T>(s: seq<T>, x: T, leq: (T, T) -> bool)
    ensures multiset(Insert(s, x, leq)) == multiset(s) + multiset{x}
    ensures |Insert(s, x, leq)| == |s| + 1
  {
    if s != [] && !leq(s[|s| - 1], x) {
      InsertMultiset(s[..|s| - 1], x, leq);
      assert s == s[..|s| - 1] + [s[|s| - 1]];
    }
  }

  lemma {:induction false} SortMultiset<T>(s: seq<T>, leq: (T, T) -> bool)
    ensures multiset(Sort(s, leq)) == multiset(s) && |Sort(s, leq)| == |s|
  {
    if s != [] {
      SortMultiset(s[..|s| - 1], leq);
      InsertMultiset(Sort(s[..|s| - 1], leq), s[|s| - 1], leq);
      assert s == s[..|s| - 1] + [s[|s| - 1]];
    }
  }

  lemma TwiceMeansTwo<T>(s: seq<T>, i: nat, j: nat)
    requires i < j < |s|
    ensures s[i] == s[j] ==> multiset(s)[s[i]] >= 2
  {
    assert s == s[..j] + s[j..];
    assert s[..j][i] in s[..j] && s[j..][0] in s[j..];
  }

  lemma {:induction false} OccursOnce<T>(s: seq<T>, y: T)
    requires forall i, j | 0 <= i < j < |s| :: s[i] != s[j]
    ensures multiset(s)[y] <= 1
  {
    if s != [] {
      OccursOnce(s[1..], y);
      assert s == [s[0]] + s[1..];
      if y == s[0] {
        assert y !in s[1..];
      }
    }
  }

  /** Sorting repeats nothing. */
  lemma SortDistinct<T>(s: seq<T>, leq: (T, T) -> bool)
    requires forall i, j | 0 <= i < j < |s| :: s[i] != s[j]
    ensures forall i, j | 0 <= i < j < |Sort(s, leq)| :: Sort(s, leq)[i] != Sort(s, leq)[j]
  {
    var t := Sort(s, leq);
    SortMultiset(s, leq);
    forall i, j | 0 <= i < j < |t| ensures t[i] != t[j] {
      OccursOnce(s, t[i]);
      TwiceMeansTwo(t, i, j);
    }
  }

  lemma {:induction false} InsertSorted<T(!new)>(s: seq<T>, x: T, leq: (T, T) -> bool)
    requires TotalPreorder(leq) && Sorted(s, leq)
    ensures Sorted(Insert(s, x, leq), leq)
  {
    if s != [] && !leq(s[|s| - 1], x) {
      var t, last := s[..|s| - 1], s[|s| - 1];
      InsertSorted(t, x, leq);
      var r := Insert(t, x, leq);
      InsertMultiset(t, x, leq);
      forall i | 0 <= i < |r| ensures leq(r[i], last) {
        assert r[i] in multiset(r);
        assert r[i] in t || r[i] == x;
      }
    }
  }

  lemma {:induction false} SortSorted<T(!new)>(s: seq<T>, leq: (T, T) -> bool)
    requires TotalPreorder(leq)
    ensures Sorted(Sort(s, leq), leq)
  {
    if s != [] {
      SortSorted(s[..|s| - 1], leq);
      InsertSorted(Sort(s[..|s| - 1], leq), s[|s| - 1], leq);
    }
  }

  /** The elements level with v, in order. */
  function Level<T>(s: seq<T>, v: T, leq: (T, T) -> bool): seq<T> {
    if s == [] then []
    else Level(s[..|s| - 1], v, leq) + if leq(v, s[|s| - 1]) && leq(s[|s| - 1], v) then [s[|s| - 1]] else []
  }

  lemma {:induction false} InsertLevel<T(!new)>(s: seq<T>, x: T, v: T, leq: (T, T) -> bool)
    requires TotalPreorder(leq)
    ensures Level(Insert(s, x, leq), v, leq) == Level(s, v, leq) + if leq(v, x) && leq(x, v) then [x] else []
  {
    if s == [] {
      assert [x][..0] == [];
    } else if leq(s[|s| - 1], x) {
      assert (s + [x])[..|s|] == s;
    } else {
      var t, last := s[..|s| - 1], s[|s| - 1];
      InsertLevel(t, x, v, leq);
      var r := Insert(t, x, leq);
      assert (r + [last])[..|r|] == r;
    }
  }

  /** The sort is stable: level elements keep their order. */
  lemma {:induction false} SortStable<T(!new)>(s: seq<T>, v: T, leq: (T, T) -> bool)
    requires TotalPreorder(leq)
    ensures Level(Sort(s, leq), v, leq) == Level(s, v, leq)
  {
    if s != [] {
      SortStable(s[..|s| - 1], v, leq);
      InsertLevel(Sort(s[..|s| - 1], leq), s[|s| - 1], v, leq);
    }
  }

  lemma SortAppend<T>(s: seq<T>, x: T, leq: (T, T) -> bool)
    ensures Sort(s + [x], leq) == Insert(Sort(s, leq), x, leq)
  {
    assert (s + [x])[..|s|] == s;
  }

  /** Sorting what is already sorted changes nothing. */
  lemma {:induction false} SortOfSorted<T>(s: seq<T>, leq: (T, T) -> bool)
    requires Sorted(s, leq)
    ensures Sort(s, leq) == s
  {
    if |s| > 0 {
      SortOfSorted(s[..|s| - 1], leq);
      if |s| > 1 {
        assert leq(s[|s| - 2], s[|s| - 1]);
      }
      assert s == s[..|s| - 1] + [s[|s| - 1]];
    }
  }

  /** Elements that are nowhere above x do not take part in inserting x. */
  lemma {:induction false} InsertAfterPrefix<T>(p: seq<T>, q: seq<T>, x: T, leq: (T, T) -> bool)
    requires forall i | 0 <= i < |p| :: leq(p[i], x)
    ensures Insert(p + q, x, leq) == p + Insert(q, x, leq)
  {
    if q == [] {
      assert p + q == p;
      if p == [] {} else { assert leq(p[|p| - 1], x); }
    } else {
      var s := p + q;
      assert s[|s| - 1] == q[|q| - 1];
      if leq(q[|q| - 1], x) {
        assert s + [x] == p + (q + [x]);
      } else {
        assert s[..|s| - 1] == p + q[..|q| - 1];
        InsertAfterPrefix(p, q[..|q| - 1], x, leq);
        var r := Insert(q[..|q| - 1], x, leq);
        assert (p + r) + [q[|q| - 1]] == p + (r + [q[|q| - 1]]);
      }
    }
  }
}
