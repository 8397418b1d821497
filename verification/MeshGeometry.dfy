/** Grid coordinates of the mesh routers: router id = column + row * number of columns. */
module MeshGeometry {
  import opened Arithmetic

  datatype Dir = East | West | North | South

  /** The weight a mesh builder gives to the links leaving in each direction. */
  datatype Weights = Weights(east: nat, west: nat, north: nat, south: nat) {
    function Of(d: Dir): nat {
      match d
      case East => east
      case West => west
      case North => north
      case South => south
    }

    predicate Positive() {
      east > 0 && west > 0 && north > 0 && south > 0
    }
  }

  function Id(cols: nat, row: nat, col: nat): nat {
    col + row * cols
  }

  function Col(cols: nat, r: nat): nat
    requires cols > 0
  {
    r % cols
  }

  function Row(cols: nat, r: nat): nat
    requires cols > 0
  {
    r / cols
  }

  lemma IdCoordinates(rows: nat, cols: nat, row: nat, col: nat)
    requires row < rows && col < cols
    ensures Id(cols, row, col) < rows * cols
    ensures Row(cols, Id(cols, row, col)) == row && Col(cols, Id(cols, row, col)) == col
  {
    assert Id(cols, row, col) == cols * row + col;
    DivModUnique(Id(cols, row, col), cols, row, col);
    MulGap(cols, row, rows);
  }

  lemma CoordinatesId(rows: nat, cols: nat, r: nat)
    requires cols > 0 && r < rows * cols
    ensures Row(cols, r) < rows && Col(cols, r) < cols && r == Id(cols, Row(cols, r), Col(cols, r))
  {
    var row := Row(cols, r);
    if row >= rows {
      MulMonotone(cols, rows, row);
    }
  }

  lemma SameCoordinates(rows: nat, cols: nat, a: nat, b: nat)
    requires cols > 0 && a < rows * cols && b < rows * cols
    requires Row(cols, a) == Row(cols, b) && Col(cols, a) == Col(cols, b)
    ensures a == b
  {
    CoordinatesId(rows, cols, a);
    CoordinatesId(rows, cols, b);
  }

  /** Router b is the neighbour of router a in direction d. */
  predicate IsHop(rows: nat, cols: nat, a: nat, b: nat, d: Dir) {
    && cols > 0 && a < rows * cols && b < rows * cols
    && match d
       case East => Row(cols, b) == Row(cols, a) && Col(cols, b) == Col(cols, a) + 1
       case West => Row(cols, b) == Row(cols, a) && Col(cols, b) + 1 == Col(cols, a)
       case North => Col(cols, b) == Col(cols, a) && Row(cols, b) == Row(cols, a) + 1
       case South => Col(cols, b) == Col(cols, a) && Row(cols, b) + 1 == Row(cols, a)
  }

  predicate Neighbours(rows: nat, cols: nat, a: nat, b: nat) {
    exists d: Dir :: IsHop(rows, cols, a, b, d)
  }

  /** Going from a in direction d brings a packet closer to q. */
  predicate Productive(cols: nat, a: nat, q: nat, d: Dir)
    requires cols > 0
  {
    match d
    case East => Col(cols, a) < Col(cols, q)
    case West => Col(cols, q) < Col(cols, a)
    case North => Row(cols, a) < Row(cols, q)
    case South => Row(cols, q) < Row(cols, a)
  }

  /** Hops needed from a to b on the grid. */
  function Manhattan(cols: nat, a: nat, b: nat): nat
    requires cols > 0
  {
    var x, y := Col(cols, b) - Col(cols, a), Row(cols, b) - Row(cols, a);
    (if x >= 0 then x else -x) + (if y >= 0 then y else -y)
  }

  /** Weight of covering a distance of d in one dimension, `up` per step forward and `down` per step back. */
  function Stretch(d: int, up: nat, down: nat): nat
    decreases if d >= 0 then d else -d
  {
    if d == 0 then 0 else if d > 0 then up + Stretch(d - 1, up, down) else down + Stretch(d + 1, up, down)
  }

  /** Total weight of the grid-minimal routes from a to b. */
  function GridWeight(cols: nat, w: Weights, a: nat, b: nat): nat
    requires cols > 0
  {
    Stretch(Col(cols, b) - Col(cols, a), w.east, w.west) + Stretch(Row(cols, b) - Row(cols, a), w.north, w.south)
  }

  /** A hop changes the remaining grid weight by exactly its own weight when productive, and otherwise
      by the weight of the opposite hop. */
  lemma HopChangesWeight(rows: nat, cols: nat, w: Weights, a: nat, b: nat, q: nat, d: Dir)
    requires IsHop(rows, cols, a, b, d)
    ensures Productive(cols, a, q, d) ==>
              && GridWeight(cols, w, a, q) == w.Of(d) + GridWeight(cols, w, b, q)
              && Manhattan(cols, a, q) == 1 + Manhattan(cols, b, q)
    ensures !Productive(cols, a, q, d) ==>
              && GridWeight(cols, w, a, q) <= GridWeight(cols, w, b, q)
              && Manhattan(cols, b, q) == 1 + Manhattan(cols, a, q)
  {
  }

  /** Away from its target a packet always has a productive hop. */
  lemma ProductiveHopExists(rows: nat, cols: nat, a: nat, q: nat) returns (b: nat, d: Dir)
    requires cols > 0 && a < rows * cols && q < rows * cols && a != q
    ensures IsHop(rows, cols, a, b, d) && Productive(cols, a, q, d)
    ensures Col(cols, a) != Col(cols, q) ==> d.East? || d.West?
  {
    CoordinatesId(rows, cols, a);
    CoordinatesId(rows, cols, q);
    var row, col := Row(cols, a), Col(cols, a);
    if col < Col(cols, q) {
      IdCoordinates(rows, cols, row, col + 1);
      return Id(cols, row, col + 1), East;
    } else if col > Col(cols, q) {
      IdCoordinates(rows, cols, row, col - 1);
      return Id(cols, row, col - 1), West;
    } else if row < Row(cols, q) {
      IdCoordinates(rows, cols, row + 1, col);
      return Id(cols, row + 1, col), North;
    } else {
      SameRowOrSouth(rows, cols, a, q);
      IdCoordinates(rows, cols, row - 1, col);
      return Id(cols, row - 1, col), South;
    }
  }

  lemma SameRowOrSouth(rows: nat, cols: nat, a: nat, q: nat)
    requires cols > 0 && a < rows * cols && q < rows * cols && a != q
    requires Col(cols, a) == Col(cols, q) && Row(cols, a) >= Row(cols, q)
    ensures Row(cols, a) > Row(cols, q)
  {
    if Row(cols, a) == Row(cols, q) {
      SameCoordinates(rows, cols, a, q);
    }
  }

  lemma HopDirection(rows: nat, cols: nat, a: nat, b: nat, d: Dir, d': Dir)
    requires IsHop(rows, cols, a, b, d) && IsHop(rows, cols, a, b, d')
    ensures d == d'
  {
  }

  lemma {:induction false} HopUnique(rows: nat, cols: nat, a: nat, b: nat, b': nat, d: Dir)
    requires IsHop(rows, cols, a, b, d) && IsHop(rows, cols, a, b', d)
    ensures b == b'
  {
    SameCoordinates(rows, cols, b, b');
  }
}
