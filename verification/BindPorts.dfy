/** Ordering the port bindings read back from a configuration file. */
module BindPorts {
  import opened Options
  import opened StableSort

  datatype Port = Port(obj: string, name: string, index: nat) {
    /** The port vector this port is an element of. */
    function Vector(): (string, string) {
      (obj, name)
    }
  }

  datatype Connection = Connection(from: Port, to: Port) {
    function Flip(): Connection {
      Connection(to, from)
    }
  }

  type Counts = map<(string, string), nat>

  // ---- The order of sorted() on pairs of ports ----

  function CompareStrings(a: string, b: string): int {
    if a == [] then (if b == [] then 0 else -1)
    else if b == [] then 1
    else if a[0] < b[0] then -1
    else if a[0] > b[0] then 1
    else CompareStrings(a[1..], b[1..])
  }

  function ComparePorts(a: Port, b: Port): int {
    if CompareStrings(a.obj, b.obj) != 0 then CompareStrings(a.obj, b.obj)
    else if CompareStrings(a.name, b.name) != 0 then CompareStrings(a.name, b.name)
    else a.index - b.index
  }

  predicate NotAfter(a: Connection, b: Connection) {
    if ComparePorts(a.from, b.from) != 0 then ComparePorts(a.from, b.from) < 0 else ComparePorts(a.to, b.to) <= 0
  }

  // ---- The binder ----

  /** Connections made so far, and for every port vector the index of the next port to bind. */
  datatype Binding = Binding(made: seq<Connection>, next: Counts)

  function Vectors(connections: seq<Connection>): set<(string, string)> {
    set c | c in connections :: c.from.Vector()
  }

  function Initial(connections: seq<Connection>): Counts {
    map v | v in Vectors(connections) :: 0
  }

  predicate Bindable(b: Binding, c: Connection)
    requires c.from.Vector() in b.next && c.to.Vector() in b.next
  {
    b.next[c.from.Vector()] == c.from.index && b.next[c.to.Vector()] == c.to.index
  }

  /** Looking at one connection; None if its far port vector is not in the table. */
  function Visit(b: Binding, c: Connection): Option<Binding> {
    if c.from.Vector() !in b.next then None
    else if b.next[c.from.Vector()] != c.from.index then Some(b)
    else if c.to.Vector() !in b.next then None
    else if Bindable(b, c) then
      var once := b.next[c.from.Vector() := b.next[c.from.Vector()] + 1];
      Some(Binding(b.made + [c], once[c.to.Vector() := once[c.to.Vector()] + 1]))
    else Some(b)
  }

  function Greedy(order: seq<Connection>, next: Counts): Option<Binding> {
    if order == [] then Some(Binding([], next)) else
    var before := Greedy(order[..|order| - 1], next);
    if before.None? then None else Visit(before.value, order[|order| - 1])
  }

  datatype Result = Bound(made: seq<Connection>) | UnknownPort | CannotOrder

  function Bind(connections: seq<Connection>): Result {
    var end := Greedy(Sort(connections, NotAfter), Initial(connections));
    if end.None? then UnknownPort
    else if |end.value.made| * 2 != |connections| then CannotOrder
    else Bound(end.value.made)
  }

  /** The table of port vectors, nothing bound yet. */
  method ListPorts(connections: seq<Connection>) returns (next: Counts)
    ensures next == Initial(connections)
  {
    next := map[];
    for k := 0 to |connections|
      invariant next == Initial(connections[..k])
    {
      InitialGrows(connections, k);
      next := next[connections[k].from.Vector() := 0];
    }
    assert connections[..|connections|] == connections;
  }

  /** bind_ports up to the point where the connections are made. */
  method BindPorts(connections: seq<Connection>) returns (r: Result)
    ensures r == Bind(connections)
  {
    var next := ListPorts(connections);
    ghost var start := next;
    var order := Sort(connections, NotAfter);
    var made: seq<Connection> := [];
    for k := 0 to |order|
      invariant Greedy(order[..k], start) == Some(Binding(made, next))
    {
      var c := order[k];
      assert order[..k + 1][..k] == order[..k];
      assert order[..k + 1][k] == c;
      GreedyFails(order, start, k);
      if c.from.Vector() !in next {
        return UnknownPort;
      }
      if next[c.from.Vector()] == c.from.index {
        if c.to.Vector() !in next {
          return UnknownPort;
        }
        if next[c.to.Vector()] == c.to.index {
          made := made + [c];
          next := next[c.from.Vector() := next[c.from.Vector()] + 1];
          next := next[c.to.Vector() := next[c.to.Vector()] + 1];
        }
      }
    }
    assert order[..|order|] == order;
    if |made| * 2 != |connections| {
      return CannotOrder;
    }
    return Bound(made);
  }

  lemma InitialGrows(connections: seq<Connection>, k: nat)
    requires k < |connections|
    ensures Initial(connections[..k + 1]) == Initial(connections[..k])[connections[k].from.Vector() := 0]
  {
    var a, b := connections[..k], connections[..k + 1];
    assert b == a + [connections[k]];
    assert forall c :: c in b <==> c in a || c == connections[k];
    assert Vectors(b) == Vectors(a) + {connections[k].from.Vector()};
  }

  /** A failing prefix makes the whole run fail. */
  lemma {:induction false} GreedyFails(order: seq<Connection>, next: Counts, k: nat)
    requires k < |order|
    ensures Greedy(order[..k + 1], next).None? ==> Greedy(order, next).None?
    decreases |order|
  {
    if k == |order| - 1 {
      assert order[..k + 1] == order;
    } else {
      var before := order[..|order| - 1];
      assert before[..k + 1] == order[..k + 1];
      GreedyFails(before, next, k);
    }
  }

  // ---- What a successful binding guarantees ----

  /** Indices of the ports of one vector, in the order in which their connections are made. */
  function Ends(made: seq<Connection>, v: (string, string)): seq<nat> {
    if made == [] then [] else
    var c := made[|made| - 1];
    Ends(made[..|made| - 1], v)
      + (if c.from.Vector() == v then [c.from.index] else [])
      + (if c.to.Vector() == v then [c.to.index] else [])
  }

  ghost predicate CountsUp(s: seq<nat>) {
    forall i | 0 <= i < |s| :: s[i] == i
  }

  ghost predicate Uses(c: Connection, p: Port) {
    c.from == p || c.to == p
  }

  /** No connection joins a port to itself. */
  ghost predicate Proper(connections: seq<Connection>) {
    forall k | 0 <= k < |connections| :: connections[k].from != connections[k].to
  }

  ghost predicate VectorInStep(b: Binding, v: (string, string))
    requires v in b.next
  {
    CountsUp(Ends(b.made, v)) && |Ends(b.made, v)| == b.next[v]
  }

  ghost predicate PortsOnce(made: seq<Connection>) {
    forall k, m, p | 0 <= k < m < |made| && Uses(made[k], p) :: !Uses(made[m], p)
  }

  /** Both ends of c lie below the next free index of their vectors. */
  ghost predicate Passed(next: Counts, c: Connection) {
    && c.from.Vector() in next && c.from.index < next[c.from.Vector()]
    && c.to.Vector() in next && c.to.index < next[c.to.Vector()]
  }

  /** What the pass keeps: per vector the bound indices count up from 0 to the next free one. */
  ghost predicate InStep(b: Binding) {
    && (forall v | v in b.next :: VectorInStep(b, v))
    && (forall k | 0 <= k < |b.made| :: Passed(b.next, b.made[k]))
    && PortsOnce(b.made)
  }

  lemma EndsAppend(made: seq<Connection>, c: Connection, v: (string, string))
    ensures Ends(made + [c], v) == Ends(made, v)
      + (if c.from.Vector() == v then [c.from.index] else [])
      + (if c.to.Vector() == v then [c.to.index] else [])
  {
    assert (made + [c])[..|made|] == made;
  }

  lemma VisitStaysInStep(b: Binding, c: Connection)
    requires InStep(b) && c.from != c.to && Visit(b, c).Some?
    ensures InStep(Visit(b, c).value)
    ensures Visit(b, c).value.next.Keys == b.next.Keys
  {
    var b' := Visit(b, c).value;
    if b' != b {
      assert b'.made == b.made + [c] && Bindable(b, c);
      forall v | v in b'.next ensures VectorInStep(b', v) {
        VisitKeepsVector(b, c, v);
      }
      NewPortsFresh(b, c);
    }
  }

  lemma VisitKeepsVector(b: Binding, c: Connection, v: (string, string))
    requires v in b.next && VectorInStep(b, v) && c.from != c.to && Visit(b, c).Some? && Visit(b, c).value != b
    ensures v in Visit(b, c).value.next && VectorInStep(Visit(b, c).value, v)
  {
    EndsAppend(b.made, c, v);
  }

  lemma NewPortsFresh(b: Binding, c: Connection)
    requires PortsOnce(b.made) && (forall k | 0 <= k < |b.made| :: Passed(b.next, b.made[k]))
    requires c.from.Vector() in b.next && c.to.Vector() in b.next && Bindable(b, c)
    ensures PortsOnce(b.made + [c])
  {
    var made' := b.made + [c];
    forall k, m, p | 0 <= k < m < |made'| && Uses(made'[k], p) ensures !Uses(made'[m], p) {
      if m == |b.made| {
        assert Passed(b.next, b.made[k]);
      } else {
        assert Uses(b.made[k], p);
      }
    }
  }

  lemma {:induction false} GreedyStaysInStep(order: seq<Connection>, next: Counts)
    requires Proper(order) && (forall v | v in next :: next[v] == 0) && Greedy(order, next).Some?
    ensures InStep(Greedy(order, next).value)
    ensures forall c | c in Greedy(order, next).value.made :: c in order
  {
    if order == [] {
      forall v | v in next ensures VectorInStep(Binding([], next), v) {}
    } else {
      var before, c := order[..|order| - 1], order[|order| - 1];
      GreedyStaysInStep(before, next);
      VisitStaysInStep(Greedy(before, next).value, c);
      assert order == before + [c];
    }
  }

  /** The list names every connection from both of its ends, once each, as the caller must arrange. */
  ghost predicate Mirrored(connections: seq<Connection>) {
    && Proper(connections)
    && (forall k, m | 0 <= k < m < |connections| :: connections[k] != connections[m])
    && (forall c {:trigger HasFlip(connections, c)} | c in connections :: HasFlip(connections, c))
  }

  ghost predicate HasFlip(connections: seq<Connection>, c: Connection) {
    c.Flip() in connections
  }

  lemma SortKeepsMembers(connections: seq<Connection>)
    ensures forall c :: c in Sort(connections, NotAfter) <==> c in connections
    ensures Proper(connections) ==> Proper(Sort(connections, NotAfter))
  {
    var s := Sort(connections, NotAfter);
    SortMultiset(connections, NotAfter);
    forall c ensures c in s <==> c in connections {
      assert c in s <==> c in multiset(s);
      assert c in connections <==> c in multiset(connections);
    }
    forall k | 0 <= k < |s| ensures Proper(connections) ==> s[k].from != s[k].to {
      assert s[k] in connections;
    }
  }

  lemma {:induction false} DistinctSeqCard<T>(s: seq<T>, a: set<T>)
    requires forall k, m | 0 <= k < m < |s| :: s[k] != s[m]
    requires a == set x | x in s
    ensures |a| == |s|
  {
    if s != [] {
      var t, x := s[..|s| - 1], s[|s| - 1];
      assert s == t + [x];
      assert a - {x} == set y | y in t;
      DistinctSeqCard(t, a - {x});
    }
  }

  lemma {:induction false} FlipCard(a: set<Connection>, b: set<Connection>)
    requires b == set c | c in a :: c.Flip()
    ensures |a| == |b|
  {
    if a != {} {
      var c :| c in a;
      var b' := set d | d in a - {c} :: d.Flip();
      assert c.Flip().Flip() == c;
      forall d | d in b' ensures d != c.Flip() {
        assert d.Flip() in a - {c};
      }
      assert b == b' + {c.Flip()};
      FlipCard(a - {c}, b');
    }
  }

  lemma SubsetOfEqualCard<T>(a: set<T>, b: set<T>)
    requires a <= b && |a| == |b|
    ensures a == b
  {
    assert b == a + (b - a);
    assert |b - a| == 0;
  }

  lemma MadeDistinct(made: seq<Connection>)
    requires PortsOnce(made)
    ensures forall k, m | 0 <= k < m < |made| :: made[k] != made[m]
  {
    forall k, m | 0 <= k < m < |made| ensures made[k] != made[m] {
      assert Uses(made[k], made[k].from);
    }
  }

  lemma FlipsDisjoint(connections: seq<Connection>, made: seq<Connection>, fwd: set<Connection>, bwd: set<Connection>)
    requires Proper(connections) && PortsOnce(made) && forall d | d in made :: d in connections
    requires fwd == (set c | c in made) && bwd == (set c | c in fwd :: c.Flip())
    ensures fwd !! bwd
  {
    forall c | c in fwd ensures c !in bwd {
      NoFlipMade(connections, made, c);
      assert c.Flip().Flip() == c;
    }
  }

  lemma FlipsWithin(connections: seq<Connection>, fwd: set<Connection>, bwd: set<Connection>)
    requires Mirrored(connections) && (forall c | c in fwd :: c in connections) && bwd == (set c | c in fwd :: c.Flip())
    ensures forall c | c in bwd :: c in connections
  {
    forall c | c in bwd ensures c in connections {
      var d :| d in fwd && c == d.Flip();
      assert HasFlip(connections, d);
    }
  }

  /** Half of a mirrored list, no port used twice: exactly one direction of every connection. */
  lemma HalfIsPerfect(connections: seq<Connection>, made: seq<Connection>)
    requires Mirrored(connections) && |made| * 2 == |connections|
    requires forall c | c in made :: c in connections
    requires PortsOnce(made)
    ensures forall c | c in connections :: (c in made) != (c.Flip() in made)
  {
    var all, fwd := set c | c in connections, set c | c in made;
    var bwd := set c: Connection | c in fwd :: c.Flip();
    MadeDistinct(made);
    DistinctSeqCard(connections, all);
    DistinctSeqCard(made, fwd);
    FlipCard(fwd, bwd);
    FlipsDisjoint(connections, made, fwd, bwd);
    assert |fwd + bwd| == |all|;
    FlipsWithin(connections, fwd, bwd);
    SubsetOfEqualCard(fwd + bwd, all);
    forall c | c in connections ensures (c in made) != (c.Flip() in made) {
      assert c in all && (c in fwd || c in bwd);
      if c in fwd {
        NoFlipMade(connections, made, c);
      } else {
        assert c.Flip() in fwd;
      }
    }
  }

  lemma NoFlipMade(connections: seq<Connection>, made: seq<Connection>, c: Connection)
    requires Proper(connections) && c in made && forall d | d in made :: d in connections
    requires PortsOnce(made)
    ensures c.Flip() !in made
  {
    var k :| 0 <= k < |made| && made[k] == c;
    assert Uses(c, c.from) && Uses(c.Flip(), c.from);
    forall m | 0 <= m < |made| ensures made[m] != c.Flip() {
      if m == k {
        assert c in connections && c.from != c.to;
      }
    }
  }

  /** Making the connections of made in this order makes exactly one direction of every connection, none
      within one vector, and in every port vector the k-th binding made is the one with index k. */
  ghost predicate BindsAll(connections: seq<Connection>, made: seq<Connection>) {
    && (forall c | c in made :: c in connections && c.from.Vector() != c.to.Vector())
    && (forall c | c in connections :: (c in made) != (c.Flip() in made))
    && (forall v | v in Vectors(connections) :: CountsUp(Ends(made, v)))
  }

  /** When bind_ports does not raise, it has bound everything in order. */
  lemma BoundIsPerfect(connections: seq<Connection>)
    requires Mirrored(connections) && Bind(connections).Bound?
    ensures BindsAll(connections, Bind(connections).made)
  {
    var order, next := Sort(connections, NotAfter), Initial(connections);
    SortKeepsMembers(connections);
    GreedyStaysInStep(order, next);
    var b := Greedy(order, next).value;
    HalfIsPerfect(connections, b.made);
    GreedyKeepsVectors(order, next);
    MadeBetweenVectors(order, next);
    forall v | v in Vectors(connections) ensures CountsUp(Ends(b.made, v)) {
      assert v in b.next && VectorInStep(b, v);
    }
  }

  /** Both ends of a connection are the next of one vector only if they are the same port. */
  lemma {:induction false} MadeBetweenVectors(order: seq<Connection>, next: Counts)
    requires Proper(order) && Greedy(order, next).Some?
    ensures forall c | c in Greedy(order, next).value.made :: c.from.Vector() != c.to.Vector()
  {
    if order != [] {
      MadeBetweenVectors(order[..|order| - 1], next);
    }
  }

  lemma {:induction false} GreedyKeepsVectors(order: seq<Connection>, next: Counts)
    requires Greedy(order, next).Some?
    ensures Greedy(order, next).value.next.Keys == next.Keys
  {
    if order != [] {
      GreedyKeepsVectors(order[..|order| - 1], next);
    }
  }

  /** The ports of the list, each in one connection only, and without gaps in any vector. */
  ghost predicate WellNumbered(connections: seq<Connection>) {
    && (forall c, d | c in connections && d in connections && c.from == d.from :: c == d)
    && (forall c {:trigger HasPredecessor(connections, c)} | c in connections && c.from.index > 0 ::
         HasPredecessor(connections, c))
  }

  ghost predicate HasPredecessor(connections: seq<Connection>, c: Connection) {
    exists d :: d in connections && Before(d.from, c.from)
  }

  /** p is the element of its vector right before q. */
  ghost predicate Before(p: Port, q: Port) {
    p.Vector() == q.Vector() && p.index + 1 == q.index
  }

  lemma {:induction false} EndsSource(made: seq<Connection>, v: (string, string), i: nat)
    returns (c: Connection, p: Port)
    requires i < |Ends(made, v)|
    ensures c in made && Uses(c, p) && p.Vector() == v && p.index == Ends(made, v)[i]
  {
    var before, last := made[..|made| - 1], made[|made| - 1];
    assert made == before + [last];
    if i < |Ends(before, v)| {
      c, p := EndsSource(before, v, i);
    } else {
      c := last;
      p := if last.from.Vector() == v && i == |Ends(before, v)| then last.from else last.to;
    }
  }

  lemma {:induction false} EndsHas(made: seq<Connection>, c: Connection, p: Port) returns (i: nat)
    requires c in made && Uses(c, p)
    ensures i < |Ends(made, p.Vector())| && Ends(made, p.Vector())[i] == p.index
  {
    var before, last := made[..|made| - 1], made[|made| - 1];
    assert made == before + [last];
    if c in before {
      i := EndsHas(before, c, p);
    } else {
      i := |Ends(before, p.Vector())|;
      if last.from != p && last.from.Vector() == p.Vector() {
        i := i + 1;
      }
    }
  }

  /** Success needs a well-numbered list: every port in one connection, no gaps in any vector. */
  lemma BoundNeedsWellNumbered(connections: seq<Connection>)
    requires Mirrored(connections) && Bind(connections).Bound?
    ensures WellNumbered(connections)
  {
    SortKeepsMembers(connections);
    GreedyStaysInStep(Sort(connections, NotAfter), Initial(connections));
    BoundIsPerfect(connections);
    PerfectIsWellNumbered(connections, Bind(connections).made);
  }

  lemma PerfectIsWellNumbered(connections: seq<Connection>, made: seq<Connection>)
    requires Mirrored(connections) && BindsAll(connections, made) && PortsOnce(made)
    ensures WellNumbered(connections)
  {
    forall c, d | c in connections && d in connections && c.from == d.from ensures c == d {
      OneConnectionPerPort(connections, made, c, d);
    }
    forall c | c in connections && c.from.index > 0 ensures HasPredecessor(connections, c) {
      PredecessorThere(connections, made, c);
    }
  }

  lemma PredecessorThere(connections: seq<Connection>, made: seq<Connection>, c: Connection)
    requires Mirrored(connections) && BindsAll(connections, made) && c in connections && c.from.index > 0
    ensures HasPredecessor(connections, c)
  {
    var v := c.from.Vector();
    var e := if c in made then c else c.Flip();
    var i := EndsHas(made, e, c.from);
    assert v in Vectors(connections) && CountsUp(Ends(made, v));
    var f, p := EndsSource(made, v, i - 1);
    var d := if f.from == p then f else f.Flip();
    assert HasFlip(connections, f) && d in connections && Before(d.from, c.from);
  }

  lemma OneConnectionPerPort(connections: seq<Connection>, made: seq<Connection>, c: Connection, d: Connection)
    requires Mirrored(connections) && PortsOnce(made)
    requires forall e | e in connections :: (e in made) != (e.Flip() in made)
    requires c in connections && d in connections && c.from == d.from
    ensures c == d
  {
    var c', d' := if c in made then c else c.Flip(), if d in made then d else d.Flip();
    var k :| 0 <= k < |made| && made[k] == c';
    var m :| 0 <= m < |made| && made[m] == d';
    assert Uses(made[k], c.from) && Uses(made[m], c.from);
    assert k == m;
  }

  /** In a mirrored list every port vector is known, so the binder never meets a missing one. */
  lemma {:induction false} MirroredKnowsPorts(connections: seq<Connection>, order: seq<Connection>)
    requires Mirrored(connections) && forall c | c in order :: c in connections
    ensures Greedy(order, Initial(connections)).Some?
  {
    if order != [] {
      var before, c := order[..|order| - 1], order[|order| - 1];
      assert c in order;
      MirroredKnowsPorts(connections, before);
      GreedyKeepsVectors(before, Initial(connections));
      assert c in connections && HasFlip(connections, c);
      assert c.from.Vector() in Vectors(connections) && c.Flip().from.Vector() in Vectors(connections);
    }
  }

  // ---- The order of the visits ----

  lemma {:induction false} CompareFlip(a: string, b: string)
    ensures CompareStrings(a, b) == -CompareStrings(b, a)
    ensures CompareStrings(a, b) == 0 <==> a == b
  {
    if a != [] && b != [] && a[0] == b[0] {
      CompareFlip(a[1..], b[1..]);
      assert a == [a[0]] + a[1..] && b == [b[0]] + b[1..];
    }
  }

  lemma {:induction false} CompareTrans(a: string, b: string, c: string)
    requires CompareStrings(a, b) <= 0 && CompareStrings(b, c) <= 0
    ensures CompareStrings(a, c) <= 0
  {
    if a != [] && b != [] && c != [] && a[0] == b[0] == c[0] {
      CompareTrans(a[1..], b[1..], c[1..]);
    }
  }

  /** a is b cut off at i, or has the smaller character at i, and they agree before. */
  predicate SmallerAt(a: string, b: string, i: nat) {
    i <= |a| && i < |b| && a[..i] == b[..i] && (i == |a| || a[i] < b[i])
  }

  /** Dictionary order. */
  ghost predicate Smaller(a: string, b: string) {
    exists i :: SmallerAt(a, b, i)
  }

  lemma {:induction false} SmallerFound(a: string, b: string) returns (i: nat)
    requires CompareStrings(a, b) < 0
    ensures SmallerAt(a, b, i)
  {
    if a == [] || a[0] < b[0] {
      i := 0;
    } else {
      i := SmallerFound(a[1..], b[1..]);
      i := i + 1;
      assert a[..i] == [a[0]] + a[1..][..i - 1] && b[..i] == [b[0]] + b[1..][..i - 1];
    }
  }

  lemma {:induction false} SmallerCompares(a: string, b: string, i: nat)
    requires SmallerAt(a, b, i)
    ensures CompareStrings(a, b) < 0
  {
    if i > 0 {
      assert a[0] == a[..i][0] == b[..i][0] == b[0];
      assert a[1..][..i - 1] == a[..i][1..] && b[1..][..i - 1] == b[..i][1..];
      SmallerCompares(a[1..], b[1..], i - 1);
    }
  }

  /** Ports are ordered by object, then by name, then by index. */
  ghost predicate PortBefore(a: Port, b: Port) {
    || Smaller(a.obj, b.obj)
    || (a.obj == b.obj && (Smaller(a.name, b.name) || (a.name == b.name && a.index < b.index)))
  }

  lemma CompareIsDictionary(a: string, b: string)
    ensures CompareStrings(a, b) < 0 <==> Smaller(a, b)
  {
    if CompareStrings(a, b) < 0 {
      var i := SmallerFound(a, b);
    }
    if i :| SmallerAt(a, b, i) {
      SmallerCompares(a, b, i);
    }
  }

  lemma PortOrder(a: Port, b: Port)
    ensures ComparePorts(a, b) < 0 <==> PortBefore(a, b)
  {
    CompareIsDictionary(a.obj, b.obj);
    CompareIsDictionary(a.name, b.name);
    CompareFlip(a.obj, b.obj);
    CompareFlip(a.name, b.name);
  }

  /** The sort order of connections: by the first port, then by the second. */
  lemma ConnectionOrder(a: Connection, b: Connection)
    ensures NotAfter(a, b) <==> a == b || PortBefore(a.from, b.from) || (a.from == b.from && PortBefore(a.to, b.to))
  {
    PortOrder(a.from, b.from);
    PortOrder(a.to, b.to);
    ComparePortsFlip(a.from, b.from);
    ComparePortsFlip(a.to, b.to);
  }

  lemma ComparePortsFlip(a: Port, b: Port)
    ensures (ComparePorts(a, b) < 0 <==> ComparePorts(b, a) > 0) && (ComparePorts(a, b) == 0 <==> a == b)
  {
    CompareFlip(a.obj, b.obj);
    CompareFlip(a.name, b.name);
  }

  lemma ComparePortsTrans(a: Port, b: Port, c: Port)
    requires ComparePorts(a, b) <= 0 && ComparePorts(b, c) <= 0
    ensures ComparePorts(a, c) <= 0
  {
    CompareTrans(a.obj, b.obj, c.obj);
    CompareFlip(a.obj, b.obj);
    CompareFlip(b.obj, c.obj);
    CompareFlip(a.obj, c.obj);
    CompareFlip(a.name, b.name);
    CompareFlip(b.name, c.name);
    CompareFlip(a.name, c.name);
    if CompareStrings(a.obj, b.obj) == 0 && CompareStrings(b.obj, c.obj) == 0 {
      CompareTrans(a.name, b.name, c.name);
    }
  }

  lemma NotAfterTotal(a: Connection, b: Connection)
    ensures NotAfter(a, b) || NotAfter(b, a)
  {
    ComparePortsFlip(a.from, b.from);
    ComparePortsFlip(b.from, a.from);
    ComparePortsFlip(a.to, b.to);
    ComparePortsFlip(b.to, a.to);
  }

  lemma NotAfterTrans(a: Connection, b: Connection, c: Connection)
    requires NotAfter(a, b) && NotAfter(b, c)
    ensures NotAfter(a, c)
  {
    ComparePortsFlip(a.from, b.from);
    ComparePortsFlip(b.from, c.from);
    ComparePortsFlip(a.from, c.from);
    ComparePortsTrans(a.from, b.from, c.from);
    if a.from == b.from == c.from {
      ComparePortsTrans(a.to, b.to, c.to);
    }
  }

  lemma NotAfterIsPreorder()
    ensures TotalPreorder(NotAfter)
  {
    forall a, b ensures NotAfter(a, b) || NotAfter(b, a) {
      NotAfterTotal(a, b);
    }
    forall a, b, c | NotAfter(a, b) && NotAfter(b, c) ensures NotAfter(a, c) {
      NotAfterTrans(a, b, c);
    }
  }

  lemma SortOrders(connections: seq<Connection>)
    ensures Sorted(Sort(connections, NotAfter), NotAfter)
  {
    NotAfterIsPreorder();
    SortSorted(connections, NotAfter);
  }

  // ---- Connections already made ----

  /** Made in one of its directions. */
  ghost predicate Settled(made: seq<Connection>, c: Connection) {
    c in made || c.Flip() in made
  }

  /** A connection made at a port is the connection of that port. */
  lemma MadeAtPort(connections: seq<Connection>, b: Binding, e: Connection, f: Connection)
    requires Mirrored(connections) && WellNumbered(connections) && (forall c | c in b.made :: c in connections)
    requires e in connections && f in b.made && Uses(f, e.from)
    ensures Settled(b.made, e)
  {
    var g := if f.from == e.from then f else f.Flip();
    assert HasFlip(connections, f) && g in connections && g == e;
    assert f.Flip().Flip() == f;
  }

  lemma VectorEndNext(connections: seq<Connection>, b: Binding, e: Connection, d: Connection)
    requires Mirrored(connections) && WellNumbered(connections)
    requires InStep(b) && (forall c | c in b.made :: c in connections)
    requires e in connections && !Settled(b.made, e) && e.from.Vector() in b.next
    requires e.from.index > 0 ==> d in connections && Before(d.from, e.from) && Settled(b.made, d)
    ensures b.next[e.from.Vector()] == e.from.index
  {
    var v, i := e.from.Vector(), e.from.index;
    assert VectorInStep(b, v);
    if b.next[v] > i {
      var f, p := EndsSource(b.made, v, i);
      MadeAtPort(connections, b, e, f);
    }
    if i > 0 {
      var d' := if d in b.made then d else d.Flip();
      var k := EndsHas(b.made, d', d.from);
    }
  }

  lemma MadeGrows(b: Binding, e: Connection)
    requires Visit(b, e).Some?
    ensures forall c | c in Visit(b, e).value.made :: c in b.made || c == e
    ensures forall c | c in b.made :: c in Visit(b, e).value.made
  {
  }

  lemma SettledStays(b: Binding, e: Connection, c: Connection)
    requires Visit(b, e).Some? && Settled(b.made, c)
    ensures Settled(Visit(b, e).value.made, c)
  {
    MadeGrows(b, e);
  }

  lemma AllSettledIsHalf(connections: seq<Connection>, b: Binding)
    requires Mirrored(connections) && PortsOnce(b.made) && (forall c | c in b.made :: c in connections)
    requires forall c | c in connections :: Settled(b.made, c)
    ensures |b.made| * 2 == |connections|
  {
    var made := b.made;
    var all, fwd := set c | c in connections, set c | c in made;
    var bwd := set c: Connection | c in fwd :: c.Flip();
    MadeDistinct(made);
    DistinctSeqCard(connections, all);
    DistinctSeqCard(made, fwd);
    FlipCard(fwd, bwd);
    FlipsDisjoint(connections, made, fwd, bwd);
    forall c | c in all ensures c in fwd + bwd {
      assert Settled(b.made, c);
      assert c.Flip().Flip() == c;
    }
    FlipsWithin(connections, fwd, bwd);
    assert fwd + bwd == all;
  }
}
