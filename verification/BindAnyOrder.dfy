/** When the connections of a list can be bound in any order at all. */
module BindAnyOrder {
  import opened BindPorts
  import opened BindOrder

  /** None of these connections can be the first of them to be made: each has a predecessor among them. */
  ghost predicate Blocked(connections: seq<Connection>, u: set<Connection>) {
    && u != {} && (forall c | c in u :: c in connections)
    && (forall c | c in u :: Preceded(u, c))
  }

  ghost predicate Preceded(u: set<Connection>, c: Connection) {
    exists d :: d in u && Precedes(d, c)
  }

  ghost predicate Unblocked(connections: seq<Connection>) {
    WellNumbered(connections) && forall u :: !Blocked(connections, u)
  }

  // ---- Without a blocked set one connection after the other can be made ----

  ghost predicate Underway(connections: seq<Connection>, b: Binding) {
    && Mirrored(connections) && Unblocked(connections) && InStep(b) && b.next.Keys == Vectors(connections)
    && (forall c | c in b.made :: c in connections && c.from.Vector() != c.to.Vector())
  }

  ghost function Unsettled(connections: seq<Connection>, made: seq<Connection>): set<Connection> {
    set c | c in connections && !Settled(made, c)
  }

  lemma EndReady(connections: seq<Connection>, b: Binding, c: Connection, e: Connection)
    requires Underway(connections, b) && c in Unsettled(connections, b.made) && (e == c || e == c.Flip())
    requires !Preceded(Unsettled(connections, b.made), c)
    ensures e in connections && e.from.Vector() in b.next && b.next[e.from.Vector()] == e.from.index
  {
    assert HasFlip(connections, c) && c.Flip().Flip() == c && e in connections;
    assert e.from.Vector() in Vectors(connections);
    var d := e;
    if e.from.index > 0 {
      assert HasPredecessor(connections, e);
      d :| d in connections && Before(d.from, e.from);
      assert Precedes(d, c);
    }
    VectorEndNext(connections, b, e, d);
  }

  lemma SomeFree(connections: seq<Connection>, u: set<Connection>) returns (c: Connection)
    requires !Blocked(connections, u) && u != {} && forall d | d in u :: d in connections
    ensures c in u && !Preceded(u, c)
  {
    c :| c in u && !Preceded(u, c);
  }

  lemma OneMore(connections: seq<Connection>, b: Binding) returns (b': Binding)
    requires Underway(connections, b) && Unsettled(connections, b.made) != {}
    ensures Underway(connections, b') && Unsettled(connections, b'.made) < Unsettled(connections, b.made)
  {
    var c := SomeFree(connections, Unsettled(connections, b.made));
    EndReady(connections, b, c, c);
    EndReady(connections, b, c, c.Flip());
    b' := Visit(b, c).value;
    MadeOne(connections, b, c);
  }

  lemma MadeOne(connections: seq<Connection>, b: Binding, c: Connection)
    requires Underway(connections, b) && c in Unsettled(connections, b.made)
    requires c.from.Vector() in b.next && c.to.Vector() in b.next && Bindable(b, c)
    ensures Visit(b, c).Some? && Underway(connections, Visit(b, c).value)
    ensures Unsettled(connections, Visit(b, c).value.made) < Unsettled(connections, b.made)
  {
    assert c in connections && c.from != c.to;
    VisitStaysInStep(b, c);
    FewerUnsettled(connections, b.made, c);
  }

  lemma FewerUnsettled(connections: seq<Connection>, made: seq<Connection>, c: Connection)
    requires c in Unsettled(connections, made)
    ensures Unsettled(connections, made + [c]) < Unsettled(connections, made)
  {
    assert c in made + [c];
    forall d | Settled(made, d) ensures Settled(made + [c], d) {}
    assert c !in Unsettled(connections, made + [c]);
  }

  lemma {:induction false} MakeAll(connections: seq<Connection>, b: Binding) returns (b': Binding)
    requires Underway(connections, b)
    ensures Underway(connections, b') && Unsettled(connections, b'.made) == {}
    decreases Unsettled(connections, b.made)
  {
    b' := b;
    if Unsettled(connections, b.made) != {} {
      b' := OneMore(connections, b);
      b' := MakeAll(connections, b');
    }
  }

  lemma UnblockedBinds(connections: seq<Connection>) returns (made: seq<Connection>)
    requires Mirrored(connections) && Unblocked(connections)
    ensures BindsAll(connections, made)
  {
    GreedyStaysInStep([], Initial(connections));
    var b := MakeAll(connections, Binding([], Initial(connections)));
    made := b.made;
    forall c | c in connections ensures (c in made) != (c.Flip() in made) {
      assert c !in Unsettled(connections, made) && c.Flip().Flip() == c;
      NoFlipMade(connections, made, if c in made then c else c.Flip());
    }
    forall v | v in Vectors(connections) ensures CountsUp(Ends(made, v)) {
      assert VectorInStep(b, v);
    }
  }

  // ---- An order rules out blocked sets ----

  lemma EarlierCountsUp(made: seq<Connection>, c: Connection, v: (string, string))
    requires CountsUp(Ends(made + [c], v))
    ensures CountsUp(Ends(made, v))
  {
    EndsAppend(made, c, v);
    forall i | 0 <= i < |Ends(made, v)| ensures Ends(made, v)[i] == i {
      assert Ends(made + [c], v)[i] == i;
    }
  }

  /** The pass over an order that binds everything makes every connection of it. */
  lemma {:induction false} Replayed(connections: seq<Connection>, made: seq<Connection>)
    requires Mirrored(connections)
    requires forall c | c in made :: c in connections && c.from.Vector() != c.to.Vector()
    requires forall v | v in Vectors(connections) :: CountsUp(Ends(made, v))
    ensures Greedy(made, Initial(connections)).Some? && Greedy(made, Initial(connections)).value.made == made
  {
    if made != [] {
      var before, c := made[..|made| - 1], made[|made| - 1];
      assert made == before + [c] && c in made;
      forall v | v in Vectors(connections) ensures CountsUp(Ends(before, v)) {
        EarlierCountsUp(before, c, v);
      }
      Replayed(connections, before);
      ReplayStep(connections, before, c);
    }
  }

  lemma ReplayStep(connections: seq<Connection>, before: seq<Connection>, c: Connection)
    requires Mirrored(connections) && c in connections && c.from.Vector() != c.to.Vector()
    requires forall d | d in before :: d in connections
    requires forall v | v in Vectors(connections) :: CountsUp(Ends(before + [c], v))
    requires Greedy(before, Initial(connections)).Some? && Greedy(before, Initial(connections)).value.made == before
    ensures var r := Visit(Greedy(before, Initial(connections)).value, c); r.Some? && r.value.made == before + [c]
  {
    var b, vf, vt := Greedy(before, Initial(connections)).value, c.from.Vector(), c.to.Vector();
    forall k | 0 <= k < |before| ensures before[k].from != before[k].to {
      assert before[k] in connections;
    }
    GreedyStaysInStep(before, Initial(connections));
    GreedyKeepsVectors(before, Initial(connections));
    assert HasFlip(connections, c) && vf in Vectors(connections) && c.Flip().from.Vector() in Vectors(connections);
    assert VectorInStep(b, vf) && VectorInStep(b, vt);
    EndsAppend(before, c, vf);
    EndsAppend(before, c, vt);
    assert Ends(before + [c], vf)[|Ends(before, vf)|] == c.from.index;
    assert Ends(before + [c], vt)[|Ends(before, vt)|] == c.to.index;
  }

  /** The first connection of u that is made. */
  lemma {:induction false} FirstMade(made: seq<Connection>, u: set<Connection>, k: nat) returns (j: nat, c: Connection)
    requires k <= |made| && exists c :: c in u && Settled(made[..k], c)
    ensures j < k && c in u && (made[j] == c || made[j] == c.Flip()) && forall d | d in u :: !Settled(made[..j], d)
  {
    if exists c :: c in u && Settled(made[..k - 1], c) {
      j, c := FirstMade(made, u, k - 1);
    } else {
      assert made[..k] == made[..k - 1] + [made[k - 1]];
      c :| c in u && Settled(made[..k], c);
      assert c.Flip().Flip() == c;
      j := k - 1;
    }
  }

  lemma NothingBlocked(connections: seq<Connection>, made: seq<Connection>, u: set<Connection>)
    requires Mirrored(connections) && BindsAll(connections, made) && AfterPredecessors(connections, made)
    ensures !Blocked(connections, u)
  {
    if u != {} && forall c | c in u :: c in connections {
      var any :| any in u;
      assert any in connections && made[..|made|] == made && Settled(made[..|made|], any);
      var j, c := FirstMade(made, u, |made|);
      forall d | d in u ensures !Precedes(d, c) {
        NotPreceded(connections, made, j, c, d);
      }
      assert !Preceded(u, c);
    }
  }

  lemma NotPreceded(connections: seq<Connection>, made: seq<Connection>, j: nat, c: Connection, d: Connection)
    requires Mirrored(connections) && AfterPredecessors(connections, made) && j < |made| && d in connections
    requires (made[j] == c || made[j] == c.Flip()) && !Settled(made[..j], d)
    ensures !Precedes(d, c)
  {
    assert HasFlip(connections, d) && d.Flip() in connections && d.Flip().Flip() == d;
    assert !Settled(made[..j], d.Flip());
  }

  /** Some order binds every connection if and only if the list is well numbered and no set of connections is
      blocked: this is the condition under which the bindings can be ordered, by whatever method. */
  lemma OrderExistsExactlyWhenUnblocked(connections: seq<Connection>)
    requires Mirrored(connections)
    ensures (exists made :: BindsAll(connections, made)) <==> Unblocked(connections)
  {
    if Unblocked(connections) {
      var made := UnblockedBinds(connections);
    }
    forall made | BindsAll(connections, made) ensures Unblocked(connections) {
      OrderUnblocks(connections, made);
    }
  }

  lemma OrderUnblocks(connections: seq<Connection>, made: seq<Connection>)
    requires Mirrored(connections) && BindsAll(connections, made)
    ensures Unblocked(connections)
  {
    Replayed(connections, made);
    forall k | 0 <= k < |made| ensures made[k].from != made[k].to {
      assert made[k] in connections;
    }
    GreedyStaysInStep(made, Initial(connections));
    PerfectIsWellNumbered(connections, made);
    PassAfterPredecessors(connections, made);
    forall u ensures !Blocked(connections, u) {
      NothingBlocked(connections, made, u);
    }
  }

  lemma PairBlocks(connections: seq<Connection>, x: Connection, y: Connection)
    requires x in connections && y in connections && Precedes(x, y) && Precedes(y, x)
    ensures Blocked(connections, {x, y})
  {
    assert Preceded({x, y}, x) && Preceded({x, y}, y);
  }

  lemma CrossedPrecede()
    ensures var s := Crossed(); s[0] in s && s[1] in s && Precedes(s[0], s[1]) && Precedes(s[1], s[0])
  {
  }

  lemma BlockedUnorderable(connections: seq<Connection>, u: set<Connection>)
    requires Mirrored(connections) && Blocked(connections, u)
    ensures forall made :: !BindsAll(connections, made)
  {
    forall made ensures !BindsAll(connections, made) {
      if BindsAll(connections, made) {
        OrderUnblocks(connections, made);
      }
    }
  }

  lemma MutualUnorderable(connections: seq<Connection>, x: Connection, y: Connection)
    requires Mirrored(connections)
    requires x in connections && y in connections && Precedes(x, y) && Precedes(y, x)
    ensures forall made :: !BindsAll(connections, made)
  {
    PairBlocks(connections, x, y);
    BlockedUnorderable(connections, {x, y});
  }

  /** The crossed pairs cannot be bound in any order. */
  lemma CrossedUnorderable()
    ensures forall made :: !BindsAll(Crossed(), made)
  {
    CrossedMirrored();
    CrossedPrecede();
    MutualUnorderable(Crossed(), Crossed()[0], Crossed()[1]);
  }
}
