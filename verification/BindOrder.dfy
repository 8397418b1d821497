/** Exactly which connection lists the port binder can order. */
module BindOrder {
  import opened BindPorts
  import opened Options
  import opened StableSort

  /** Connections that start at p are looked at before those that start at q. */
  predicate Sooner(p: Port, q: Port) {
    ComparePorts(p, q) < 0
  }

  /** An end of d is the element right before an end of c in their port vector. */
  ghost predicate Precedes(d: Connection, c: Connection) {
    Before(d.from, c.from) || Before(d.from, c.to) || Before(d.to, c.from) || Before(d.to, c.to)
  }

  /** An end for every connection, the `from` of its direction in pick, such that the connections right
      before it in its two vectors have theirs sooner. */
  ghost predicate Selection(connections: seq<Connection>, pick: set<Connection>) {
    && (forall c | c in connections :: (c in pick) != (c.Flip() in pick))
    && (forall c, d | c in connections && d in connections && c in pick && d in pick && Precedes(d, c) ::
          Sooner(d.from, c.from))
  }

  ghost predicate Orderable(connections: seq<Connection>) {
    WellNumbered(connections) && exists pick :: Selection(connections, pick)
  }

  // ---- A selection suffices ----

  ghost predicate Setup(connections: seq<Connection>, order: seq<Connection>, pick: set<Connection>) {
    && Mirrored(connections) && WellNumbered(connections) && Selection(connections, pick)
    && Sorted(order, NotAfter) && (forall c :: c in order <==> c in connections)
  }

  /** After n visits every selected connection among them has been made. */
  ghost predicate Kept(connections: seq<Connection>, order: seq<Connection>, pick: set<Connection>, n: nat, b: Binding)
    requires n <= |order|
  {
    && InStep(b) && b.next.Keys == Vectors(connections) && (forall c | c in b.made :: c in connections)
    && (forall j | 0 <= j < n && order[j] in pick :: Settled(b.made, order[j]))
  }

  lemma VisitedFirst(order: seq<Connection>, k: nat, d: Connection) returns (j: nat)
    requires Sorted(order, NotAfter) && k < |order| && d in order && Sooner(d.from, order[k].from)
    ensures j < k && order[j] == d
  {
    j :| 0 <= j < |order| && order[j] == d;
    ComparePortsFlip(d.from, order[k].from);
    assert !NotAfter(order[k], d);
  }

  /** When it is the turn of a selected connection e, its port p is the next of its vector. */
  lemma EndIsNext(connections: seq<Connection>, order: seq<Connection>, pick: set<Connection>, k: nat, b: Binding,
                  e: Connection)
    requires Setup(connections, order, pick) && k < |order| && Kept(connections, order, pick, k, b)
    requires order[k] in pick && !Settled(b.made, order[k]) && (e == order[k] || e == order[k].Flip())
    ensures e in connections && e.from.Vector() in b.next && b.next[e.from.Vector()] == e.from.index
  {
    var c, d := order[k], e;
    assert c in connections && HasFlip(connections, c) && c.Flip().Flip() == c;
    assert e in connections && e.from.Vector() in Vectors(connections);
    if e.from.index > 0 {
      assert HasPredecessor(connections, e);
      d :| d in connections && Before(d.from, e.from);
      assert HasFlip(connections, d) && d.Flip().Flip() == d;
      var d' := if d in pick then d else d.Flip();
      assert Precedes(d', c);
      var j := VisitedFirst(order, k, d');
      assert Settled(b.made, order[j]);
    }
    VectorEndNext(connections, b, e, d);
  }

  lemma KeptStep(connections: seq<Connection>, order: seq<Connection>, pick: set<Connection>, k: nat, b: Binding)
    requires Setup(connections, order, pick) && k < |order| && Kept(connections, order, pick, k, b)
    requires Visit(b, order[k]).Some?
    ensures Kept(connections, order, pick, k + 1, Visit(b, order[k]).value)
  {
    var c := order[k];
    assert c in connections;
    VisitStaysInStep(b, c);
    MadeGrows(b, c);
    forall j | 0 <= j < k + 1 && order[j] in pick ensures Settled(Visit(b, c).value.made, order[j]) {
      if j < k {
        SettledStays(b, c, order[j]);
      } else {
        TurnMakes(connections, order, pick, k, b);
      }
    }
  }

  /** After its turn a selected connection is made. */
  lemma TurnMakes(connections: seq<Connection>, order: seq<Connection>, pick: set<Connection>, k: nat, b: Binding)
    requires Setup(connections, order, pick) && k < |order| && Kept(connections, order, pick, k, b)
    requires order[k] in pick && Visit(b, order[k]).Some?
    ensures Settled(Visit(b, order[k]).value.made, order[k])
  {
    var c := order[k];
    if Settled(b.made, c) {
      SettledStays(b, c, c);
    } else {
      EndIsNext(connections, order, pick, k, b, c);
      EndIsNext(connections, order, pick, k, b, c.Flip());
      assert Bindable(b, c);
    }
  }

  lemma {:induction false} PassKeeps(connections: seq<Connection>, order: seq<Connection>, pick: set<Connection>,
                                     n: nat)
    requires Setup(connections, order, pick) && n <= |order|
    ensures Greedy(order[..n], Initial(connections)).Some?
    ensures Kept(connections, order, pick, n, Greedy(order[..n], Initial(connections)).value)
  {
    MirroredKnowsPorts(connections, order[..n]);
    if n == 0 {
      GreedyStaysInStep([], Initial(connections));
    } else {
      PassKeeps(connections, order, pick, n - 1);
      PassStep(connections, order, pick, n - 1, Greedy(order[..n - 1], Initial(connections)).value);
    }
  }

  lemma PassStep(connections: seq<Connection>, order: seq<Connection>, pick: set<Connection>, k: nat, b: Binding)
    requires Setup(connections, order, pick) && k < |order| && Kept(connections, order, pick, k, b)
    requires Greedy(order[..k], Initial(connections)) == Some(b) && Greedy(order[..k + 1], Initial(connections)).Some?
    ensures Kept(connections, order, pick, k + 1, Greedy(order[..k + 1], Initial(connections)).value)
  {
    assert order[..k + 1][..k] == order[..k] && order[..k + 1][k] == order[k];
    KeptStep(connections, order, pick, k, b);
  }

  lemma SelectionSuffices(connections: seq<Connection>, pick: set<Connection>)
    requires Mirrored(connections) && WellNumbered(connections) && Selection(connections, pick)
    ensures Bind(connections).Bound?
  {
    var order := Sort(connections, NotAfter);
    SortKeepsMembers(connections);
    SortOrders(connections);
    PassKeeps(connections, order, pick, |order|);
    assert order[..|order|] == order;
    var b := Greedy(order, Initial(connections)).value;
    forall c | c in connections ensures Settled(b.made, c) {
      var e := if c in pick then c else c.Flip();
      assert HasFlip(connections, c) && e in order && c.Flip().Flip() == c;
      var j :| 0 <= j < |order| && order[j] == e;
      assert Settled(b.made, order[j]);
    }
    AllSettledIsHalf(connections, b);
  }

  // ---- What the greedy pass makes is a selection ----

  lemma {:induction false} MadeInOrder(order: seq<Connection>, next: Counts)
    requires Sorted(order, NotAfter) && Greedy(order, next).Some?
    ensures var made := Greedy(order, next).value.made;
            Sorted(made, NotAfter) && forall c | c in made :: c in order
  {
    if order != [] {
      var before, c := order[..|order| - 1], order[|order| - 1];
      MadeInOrder(before, next);
      assert order == before + [c];
      forall d | d in before ensures NotAfter(d, c) {
        var j :| 0 <= j < |before| && before[j] == d;
        assert NotAfter(order[j], order[|order| - 1]);
      }
    }
  }

  /** Whatever comes right before an end of a connection was made earlier. */
  ghost predicate AfterPredecessors(connections: seq<Connection>, made: seq<Connection>) {
    forall k, d | 0 <= k < |made| && d in connections && (Before(d.from, made[k].from) || Before(d.from, made[k].to)) ::
      Settled(made[..k], d)
  }

  lemma PredecessorMade(connections: seq<Connection>, b: Binding, d: Connection, q: Port)
    requires Mirrored(connections) && WellNumbered(connections)
    requires InStep(b) && (forall c | c in b.made :: c in connections)
    requires d in connections && Before(d.from, q) && q.Vector() in b.next && b.next[q.Vector()] == q.index
    ensures Settled(b.made, d)
  {
    assert VectorInStep(b, q.Vector());
    var f, p := EndsSource(b.made, q.Vector(), d.from.index);
    MadeAtPort(connections, b, d, f);
  }

  lemma VisitAfterPredecessors(connections: seq<Connection>, b: Binding, c: Connection)
    requires Mirrored(connections) && WellNumbered(connections)
    requires InStep(b) && (forall c | c in b.made :: c in connections)
    requires AfterPredecessors(connections, b.made) && Visit(b, c).Some?
    ensures AfterPredecessors(connections, Visit(b, c).value.made)
  {
    var made := Visit(b, c).value.made;
    if made != b.made {
      assert made == b.made + [c] && Bindable(b, c);
      forall k, d | 0 <= k < |made| && d in connections && (Before(d.from, made[k].from) || Before(d.from, made[k].to))
        ensures Settled(made[..k], d)
      {
        assert made[..k] == b.made[..k];
        if k == |b.made| {
          assert b.made[..k] == b.made;
          PredecessorMade(connections, b, d, if Before(d.from, c.from) then c.from else c.to);
        } else {
          assert made[k] == b.made[k];
        }
      }
    }
  }

  lemma {:induction false} PassAfterPredecessors(connections: seq<Connection>, order: seq<Connection>)
    requires Mirrored(connections) && WellNumbered(connections) && (forall c | c in order :: c in connections)
    requires Greedy(order, Initial(connections)).Some?
    ensures AfterPredecessors(connections, Greedy(order, Initial(connections)).value.made)
  {
    if order != [] {
      var before, c := order[..|order| - 1], order[|order| - 1];
      assert order == before + [c];
      PassAfterPredecessors(connections, before);
      forall k | 0 <= k < |before| ensures before[k].from != before[k].to {
        assert before[k] in connections;
      }
      GreedyStaysInStep(before, Initial(connections));
      VisitAfterPredecessors(connections, Greedy(before, Initial(connections)).value, c);
    }
  }

  function Members(made: seq<Connection>): set<Connection> {
    set c | c in made
  }

  lemma MadeSooner(connections: seq<Connection>, made: seq<Connection>, c: Connection, d: Connection)
    requires Mirrored(connections) && BindsAll(connections, made) && PortsOnce(made)
    requires Sorted(made, NotAfter) && AfterPredecessors(connections, made)
    requires c in made && d in made && Precedes(d, c)
    ensures Sooner(d.from, c.from)
  {
    var k :| 0 <= k < |made| && made[k] == c;
    var e := if Before(d.from, c.from) || Before(d.from, c.to) then d else d.Flip();
    assert HasFlip(connections, d) && d.Flip().Flip() == d;
    assert Settled(made[..k], e);
    assert d in made[..k];
    var j :| 0 <= j < k && made[j] == d;
    assert NotAfter(made[j], made[k]);
    assert Uses(made[j], d.from);
    ComparePortsFlip(d.from, c.from);
  }

  lemma MadeIsSelection(connections: seq<Connection>)
    requires Mirrored(connections) && Bind(connections).Bound?
    ensures Selection(connections, Members(Bind(connections).made))
  {
    var order, made := Sort(connections, NotAfter), Bind(connections).made;
    SortKeepsMembers(connections);
    SortOrders(connections);
    BoundNeedsWellNumbered(connections);
    BoundIsPerfect(connections);
    GreedyStaysInStep(order, Initial(connections));
    MadeInOrder(order, Initial(connections));
    PassAfterPredecessors(connections, order);
    forall c, d | c in made && d in made && Precedes(d, c) ensures Sooner(d.from, c.from) {
      MadeSooner(connections, made, c, d);
    }
  }

  /** The list is bound if and only if it is well numbered and every connection can be given one of its ends
      such that its predecessors in both vectors have theirs sooner in the sort order. */
  lemma BoundExactlyWhenOrderable(connections: seq<Connection>)
    requires Mirrored(connections)
    ensures Bind(connections).Bound? <==> Orderable(connections)
  {
    if Bind(connections).Bound? {
      BoundNeedsWellNumbered(connections);
      MadeIsSelection(connections);
    }
    if Orderable(connections) {
      var pick :| Selection(connections, pick);
      SelectionSuffices(connections, pick);
    }
  }

  lemma UnorderableFails(connections: seq<Connection>)
    requires Mirrored(connections) && !Orderable(connections)
    ensures Bind(connections) == CannotOrder
  {
    BoundExactlyWhenOrderable(connections);
    SortKeepsMembers(connections);
    MirroredKnowsPorts(connections, Sort(connections, NotAfter));
  }

  // ---- Star-shaped configurations always bind ----

  /** The only port of its vector. */
  ghost predicate Scalar(connections: seq<Connection>, p: Port) {
    p.index == 0 && forall c | c in connections && c.from.Vector() == p.Vector() :: c.from == p
  }

  ghost predicate Star(connections: seq<Connection>) {
    forall c | c in connections :: Scalar(connections, c.from) || Scalar(connections, c.to)
  }

  /** Every connection from its vector end, or from the end that sorts first if both are scalar. */
  ghost predicate FromVector(connections: seq<Connection>, c: Connection) {
    Scalar(connections, c.to) && (Scalar(connections, c.from) ==> Sooner(c.from, c.to))
  }

  /** A well-numbered list whose every connection has a scalar end is always bound completely. */
  lemma StarBinds(connections: seq<Connection>)
    requires Mirrored(connections) && WellNumbered(connections) && Star(connections)
    ensures Bind(connections).Bound?
  {
    var pick := set c | c in connections && FromVector(connections, c);
    forall c | c in connections ensures (c in pick) != (c.Flip() in pick) {
      assert HasFlip(connections, c) && c.Flip() in connections;
      StarPicksOne(connections, c);
    }
    forall c, d | c in pick && d in pick && Precedes(d, c) ensures Sooner(d.from, c.from) {
      StarSooner(connections, c, d);
    }
    SelectionSuffices(connections, pick);
  }

  lemma StarPicksOne(connections: seq<Connection>, c: Connection)
    requires Star(connections) && c in connections && c.from != c.to
    ensures FromVector(connections, c) != FromVector(connections, c.Flip())
  {
    assert Scalar(connections, c.from) || Scalar(connections, c.to);
    ComparePortsFlip(c.from, c.to);
    ComparePortsFlip(c.to, c.from);
  }

  lemma StarSooner(connections: seq<Connection>, c: Connection, d: Connection)
    requires Mirrored(connections) && c in connections && d in connections && Precedes(d, c)
    requires Scalar(connections, c.to) && Scalar(connections, d.to)
    ensures Sooner(d.from, c.from)
  {
    assert HasFlip(connections, c) && c.Flip().from == c.to && HasFlip(connections, d) && d.Flip().from == d.to;
    assert Before(d.from, c.from);
    CompareFlip(c.from.obj, c.from.obj);
    CompareFlip(c.from.name, c.from.name);
  }

  // ---- Lists that cannot be bound, and one that only the pass cannot bind ----

  /** Two vectors of two ports joined crosswise. */
  function Crossed(): seq<Connection> {
    var a0, a1, b0, b1 := Port("a", "p", 0), Port("a", "p", 1), Port("b", "p", 0), Port("b", "p", 1);
    [Connection(a0, b1), Connection(a1, b0), Connection(b0, a1), Connection(b1, a0)]
  }

  lemma CrossedMirrored()
    ensures Mirrored(Crossed())
  {
    var s := Crossed();
    assert s[2] == s[1].Flip() && s[3] == s[0].Flip();
    assert s[0] in s && s[1] in s && s[2] in s && s[3] in s;
    forall c | c in s ensures HasFlip(s, c) {}
  }

  lemma CrossedPorts()
    ensures var s := Crossed();
            && |s| == 4 && (forall k, m | 0 <= k < m < 4 :: s[k].from != s[m].from)
            && s[0].from.index == 0 == s[2].from.index
            && Before(s[0].from, s[1].from) && Before(s[2].from, s[3].from)
  {
  }

  lemma PairsWellNumbered(s: seq<Connection>)
    requires |s| == 4 && (forall k, m | 0 <= k < m < 4 :: s[k].from != s[m].from)
    requires s[0].from.index == 0 == s[2].from.index && Before(s[0].from, s[1].from) && Before(s[2].from, s[3].from)
    ensures WellNumbered(s)
  {
    forall c, d | c in s && d in s && c.from == d.from ensures c == d {
      var k :| 0 <= k < |s| && s[k] == c;
      var m :| 0 <= m < |s| && s[m] == d;
      assert k == m;
    }
    forall c | c in s && c.from.index > 0 ensures HasPredecessor(s, c) {
      var k :| 0 <= k < |s| && s[k] == c;
      assert k == 1 || k == 3;
      assert s[k - 1] in s && Before(s[k - 1].from, c.from);
    }
  }

  /** The comment above the loop says one direction of every pair is bindable because the list is sorted.
      The crossed pairs, well-numbered and mirrored as they are, cannot be bound. */
  lemma CrossedPairsFail()
    ensures Mirrored(Crossed()) && WellNumbered(Crossed()) && Bind(Crossed()) == CannotOrder
  {
    var s := Crossed();
    CrossedMirrored();
    CrossedPorts();
    PairsWellNumbered(s);
    forall pick ensures !Selection(s, pick) {
      CrossedUnselectable(pick);
    }
    UnorderableFails(s);
  }

  lemma CrossedUnselectable(pick: set<Connection>)
    ensures !Selection(Crossed(), pick)
  {
    var s := Crossed();
    assert s[0] in s && s[1] in s && s[0].Flip() == s[3] && s[3] in s && s[1].Flip() == s[2] && s[2] in s;
    var x, y := if s[0] in pick then s[0] else s[3], if s[1] in pick then s[1] else s[2];
    assert Precedes(x, y) && Precedes(y, x);
    ComparePortsFlip(x.from, y.from);
  }

  /** Three connections in a row, each to the second port of the next vector. */
  function Chained(): seq<Connection> {
    var a0, b0, b1, c0, c1, d0 :=
      Port("a", "p", 0), Port("b", "p", 0), Port("b", "p", 1), Port("c", "p", 0), Port("c", "p", 1), Port("d", "p", 0);
    [Connection(a0, b1), Connection(b0, c1), Connection(b1, a0),
     Connection(c0, d0), Connection(c1, b0), Connection(d0, c0)]
  }

  lemma ChainedMirrored()
    ensures Mirrored(Chained())
  {
    var s := Chained();
    assert s[0].Flip() == s[2] && s[2] in s && s[1].Flip() == s[4] && s[4] in s && s[3].Flip() == s[5] && s[5] in s;
    assert s[0] in s && s[1] in s && s[3] in s;
    forall c | c in s ensures HasFlip(s, c) {}
  }

  lemma ChainedUnselectable(pick: set<Connection>)
    ensures !Selection(Chained(), pick)
  {
    var s := Chained();
    assert s[0] in s && s[1] in s && s[3] in s;
    assert s[0].Flip() == s[2] && s[2] in s && s[1].Flip() == s[4] && s[4] in s && s[3].Flip() == s[5] && s[5] in s;
    var x := if s[0] in pick then s[0] else s[2];
    var y := if s[1] in pick then s[1] else s[4];
    var z := if s[3] in pick then s[3] else s[5];
    assert Precedes(z, y) && Precedes(y, x);
    assert !(Sooner(z.from, y.from) && Sooner(y.from, x.from));
  }

  function EndsOne(c: Connection, v: (string, string)): seq<nat> {
    (if c.from.Vector() == v then [c.from.index] else []) + (if c.to.Vector() == v then [c.to.index] else [])
  }

  lemma EndsSnoc(made: seq<Connection>, c: Connection, v: (string, string))
    ensures Ends(made + [c], v) == Ends(made, v) + EndsOne(c, v)
  {
    EndsAppend(made, c, v);
  }

  lemma {:induction false} EndsThree(x: Connection, y: Connection, z: Connection, v: (string, string))
    ensures Ends([x, y, z], v) == EndsOne(x, v) + EndsOne(y, v) + EndsOne(z, v)
  {
    EndsSnoc([], x, v);
    EndsSnoc([x], y, v);
    EndsSnoc([x, y], z, v);
    assert [] + [x] == [x] && [x] + [y] == [x, y] && [x, y] + [z] == [x, y, z];
    assert Ends([], v) == [] && [] + EndsOne(x, v) == EndsOne(x, v);
  }

  lemma ChainedCounts(v: (string, string))
    ensures var s := Chained(); CountsUp(Ends([s[3], s[4], s[2]], v))
  {
    var s := Chained();
    EndsThree(s[3], s[4], s[2], v);
    assert v.0 == "b" || v.0 == "c" || EndsOne(s[4], v) == [];
  }

  lemma ChainedHalf()
    ensures var s := Chained(); var made := [s[3], s[4], s[2]];
            && (forall c | c in made :: c in s && c.from.Vector() != c.to.Vector())
            && (forall c | c in s :: (c in made) != (c.Flip() in made))
  {
    var s := Chained();
    assert s[0].Flip() == s[2] && s[1].Flip() == s[4] && s[3].Flip() == s[5];
    assert s[2] in s && s[3] in s && s[4] in s;
  }

  lemma ChainedBinds()
    ensures var s := Chained(); BindsAll(s, [s[3], s[4], s[2]])
  {
    var s := Chained();
    ChainedHalf();
    forall v ensures CountsUp(Ends([s[3], s[4], s[2]], v)) {
      ChainedCounts(v);
    }
  }

  /** The exception says that the bindings cannot be ordered. Here they can: c0-d0, then c1-b0, then b1-a0.
      The single pass over the sorted list does not find this order. */
  lemma FailsThoughOrderExists()
    ensures var s := Chained(); Mirrored(s) && BindsAll(s, [s[3], s[4], s[2]]) && Bind(s) == CannotOrder
  {
    var s := Chained();
    ChainedMirrored();
    ChainedBinds();
    forall pick ensures !Selection(s, pick) {
      ChainedUnselectable(pick);
    }
    UnorderableFails(s);
  }

  // ---- The example in the comment ----

  /** The connections of the example, from both ends, as they are sorted. */
  function Documented(): seq<Connection> {
    var ab0, ab1, df0, df1, eg, fh :=
      Port("a", "b", 0), Port("a", "b", 1), Port("d", "f", 0), Port("d", "f", 1), Port("e", "g", 0), Port("f", "h", 0);
    [Connection(ab0, df1), Connection(ab1, eg), Connection(df0, fh),
     Connection(df1, ab0), Connection(eg, ab1), Connection(fh, df0)]
  }

  lemma DocumentedSorted()
    ensures Sort(Documented(), NotAfter) == Documented()
  {
    var s := Documented();
    assert CompareStrings("a", "d") < 0 && CompareStrings("a", "e") < 0 && CompareStrings("a", "f") < 0;
    assert CompareStrings("d", "e") < 0 && CompareStrings("d", "f") < 0 && CompareStrings("e", "f") < 0;
    assert CompareStrings("a", "a") == 0 && CompareStrings("d", "d") == 0;
    assert CompareStrings("b", "b") == 0 && CompareStrings("f", "f") == 0;
    assert Sorted(s, NotAfter);
    SortOfSorted(s, NotAfter);
  }

  lemma GreedyStep(order: seq<Connection>, next: Counts, k: nat, b: Binding)
    requires k < |order| && Greedy(order[..k], next) == Some(b)
    ensures Greedy(order[..k + 1], next) == Visit(b, order[k])
  {
    assert order[..k + 1][..k] == order[..k];
  }

  lemma VisitSkips(b: Binding, c: Connection)
    requires c.from.Vector() in b.next && c.to.Vector() in b.next && !Bindable(b, c)
    ensures Visit(b, c) == Some(b)
  {
  }

  lemma VisitMakes(b: Binding, c: Connection)
    requires c.from.Vector() in b.next && c.to.Vector() in b.next && Bindable(b, c)
    requires c.from.Vector() != c.to.Vector()
    ensures var next := b.next[c.from.Vector() := c.from.index + 1][c.to.Vector() := c.to.index + 1];
            Visit(b, c) == Some(Binding(b.made + [c], next))
  {
  }

  /** The pass over such a list, whatever the four vectors are. */
  lemma ExamplePass(s: seq<Connection>, next: Counts, v: seq<(string, string)>)
    requires |v| == 4 && (forall i, j | 0 <= i < j < 4 :: v[i] != v[j]) && forall i | 0 <= i < 4 :: v[i] in next
    requires next[v[0]] == next[v[1]] == next[v[2]] == next[v[3]] == 0
    requires var (a, d, e, f) := (v[0], v[1], v[2], v[3]);
             var ab0, ab1, df0, df1 := Port(a.0, a.1, 0), Port(a.0, a.1, 1), Port(d.0, d.1, 0), Port(d.0, d.1, 1);
             var eg, fh := Port(e.0, e.1, 0), Port(f.0, f.1, 0);
             s == [Connection(ab0, df1), Connection(ab1, eg), Connection(df0, fh),
                   Connection(df1, ab0), Connection(eg, ab1), Connection(fh, df0)]
    ensures var end := Greedy(s, next); end.Some? && end.value.made == [s[2], s[3], s[4]]
  {
    var b0 := Binding([], next);
    VisitSkips(b0, s[0]);
    VisitSkips(b0, s[1]);
    VisitMakes(b0, s[2]);
    var b3 := Visit(b0, s[2]).value;
    VisitMakes(b3, s[3]);
    var b4 := Visit(b3, s[3]).value;
    VisitMakes(b4, s[4]);
    var b5 := Visit(b4, s[4]).value;
    VisitSkips(b5, s[5]);
    assert b5.made == [s[2], s[3], s[4]];
    GreedyStep(s, next, 0, b0);
    GreedyStep(s, next, 1, b0);
    GreedyStep(s, next, 2, b0);
    GreedyStep(s, next, 3, b3);
    GreedyStep(s, next, 4, b4);
    GreedyStep(s, next, 5, b5);
    assert s[..6] == s;
  }

  lemma DocumentedVectors(s: seq<Connection>, v: seq<(string, string)>)
    requires s == Documented() && v == [("a", "b"), ("d", "f"), ("e", "g"), ("f", "h")]
    ensures (forall i, j | 0 <= i < j < 4 :: v[i] != v[j]) && forall i | 0 <= i < 4 :: v[i] in Vectors(s)
  {
    assert s[0] in s && s[2] in s && s[4] in s && s[5] in s;
    assert s[0].from.Vector() == v[0] && s[2].from.Vector() == v[1];
    assert s[4].from.Vector() == v[2] && s[5].from.Vector() == v[3];
  }

  /** The comment has the connection of a.b[1] and e.g made first, which a.b[0] forbids. What happens: d.f[0] to
      f.h, then d.f[1] to a.b[0], then e.g to a.b[1]. */
  lemma DocumentedBinds(s: seq<Connection>)
    requires s == Documented()
    ensures Bind(s) == Bound([s[2], s[3], s[4]])
  {
    var v := [("a", "b"), ("d", "f"), ("e", "g"), ("f", "h")];
    DocumentedSorted();
    DocumentedVectors(s, v);
    ExamplePass(s, Initial(s), v);
  }
}
