/** The static geometry of the D2Q9 lattice: the nine directions numbered as
    in the class diagram (0 at rest, 1..4 along the axes counter-clockwise
    from east, 5..8 along the diagonals counter-clockwise from north-east),
    the direction vectors and the lattice units.

        6     2     5
          \   |   /
        3 --- 0 --- 1
          /   |   \
        7     4     8
*/
module D2Q9 {
  import opened Results

  /** num_k(): the number of directions. */
  const NumK: nat := 9

  type Direction = k: nat | k < 9

  datatype Vec = Vec(x: int, y: int)

  function Neg(v: Vec): Vec { Vec(-v.x, -v.y) }

  /** Row k of lat_vecs_[9][2]: the (x, y) vector of direction k, x to the
      right and y upward in the diagram. */
  function Velocity(k: Direction): Vec {
    match k
    case 0 => Vec(0, 0)
    case 1 => Vec(1, 0)
    case 2 => Vec(0, 1)
    case 3 => Vec(-1, 0)
    case 4 => Vec(0, -1)
    case 5 => Vec(1, 1)
    case 6 => Vec(-1, 1)
    case 7 => Vec(-1, -1)
    case 8 => Vec(1, -1)
  }

  /** Component comp (0 = x, 1 = y) of a vector. */
  function Component(v: Vec, comp: nat): int
    requires comp < 2
  {
    if comp == 0 then v.x else v.y
  }

  /** c(k, comp) as intended: component comp of direction k, that is
      lat_vecs_[k][comp]. */
  function C(k: Direction, comp: nat): (r: int)
    requires comp < 2
    ensures -1 <= r <= 1
    ensures k == 0 ==> r == 0
  {
    Component(Velocity(k), comp)
  }

  /** c(k, comp) as written: pc(k) is the address of row 2*k of the [9][2]
      table, so the component read is lat_vecs_[2*k][comp], or lies past the
      table (None) once 2*k >= 9. */
  function CAsWritten(k: Direction, comp: nat): (r: Option<int>)
    requires comp < 2
    ensures r.Some? <==> k <= 4
  {
    if 2 * k < NumK then Some(C(2 * k, comp)) else None
  }

  /** The direction whose vector is the reverse of direction k's. */
  function Opposite(k: Direction): Direction {
    match k
    case 0 => 0
    case 1 => 3
    case 2 => 4
    case 3 => 1
    case 4 => 2
    case 5 => 7
    case 6 => 8
    case 7 => 5
    case 8 => 6
  }

  /** Direction 0 is the rest direction, and the only one. */
  lemma RestDirection(k: Direction)
    ensures Velocity(k) == Vec(0, 0) <==> k == 0
  {
  }

  /** The nine directions have nine distinct vectors. */
  lemma VelocityInjective(k: Direction, l: Direction)
    ensures Velocity(k) == Velocity(l) ==> k == l
  {
  }

  /** The opposite of a direction has the negated vector. */
  lemma OppositeReverses(k: Direction)
    ensures Velocity(Opposite(k)) == Neg(Velocity(k))
  {
  }

  /** The diagram's opposite pairs 1/3, 2/4, 5/7 and 6/8 point in opposite
      directions, and Opposite maps each onto its partner. */
  lemma OppositePairs()
    ensures Velocity(3) == Neg(Velocity(1)) && Opposite(1) == 3
    ensures Velocity(4) == Neg(Velocity(2)) && Opposite(2) == 4
    ensures Velocity(7) == Neg(Velocity(5)) && Opposite(5) == 7
    ensures Velocity(8) == Neg(Velocity(6)) && Opposite(6) == 8
  {
    assert Velocity(1) == Vec(1, 0) && Velocity(3) == Vec(-1, 0);
    assert Velocity(2) == Vec(0, 1) && Velocity(4) == Vec(0, -1);
    assert Velocity(5) == Vec(1, 1) && Velocity(7) == Vec(-1, -1);
    assert Velocity(6) == Vec(-1, 1) && Velocity(8) == Vec(1, -1);
  }

  /** Reversing a direction twice gives the direction back. */
  lemma OppositeInvolution(k: Direction)
    ensures Opposite(Opposite(k)) == k
  {
    OppositeReverses(k);
    OppositeReverses(Opposite(k));
    VelocityInjective(Opposite(Opposite(k)), k);
  }

  /** Opposite(k) is the only direction whose vector reverses direction k's. */
  lemma OppositeUnique(k: Direction, l: Direction)
    ensures Velocity(l) == Neg(Velocity(k)) <==> l == Opposite(k)
  {
    OppositeReverses(k);
    if Velocity(l) == Neg(Velocity(k)) {
      VelocityInjective(l, Opposite(k));
    }
  }

  /** Directions 1..4 are unit steps along one axis; 5..8 are diagonal steps. */
  lemma AxisAndDiagonal(k: Direction)
    ensures 1 <= k <= 4 ==> (C(k, 0) == 0) != (C(k, 1) == 0)
    ensures 5 <= k ==> C(k, 0) != 0 && C(k, 1) != 0
  {
  }

  /** The row read as written differs from the intended one for every moving
      direction, e.g. c(1, 0) yields the x component of direction 2. */
  lemma CAsWrittenMismatch(k: Direction)
    ensures CAsWritten(1, 0) == Some(0) && C(1, 0) == 1
    ensures CAsWritten(k, 0) == Some(C(k, 0)) && CAsWritten(k, 1) == Some(C(k, 1)) <==> k == 0
  {
  }

  /** dx(), dt() and c() = dx()/dt(). */
  function Dx(): real { 1.0 }

  function Dt(): real { 1.0 }

  function LatticeSpeed(): real { Dx() / Dt() }

  /** Lattice units: dx = dt = c = 1. */
  lemma LatticeUnits()
    ensures Dx() == 1.0 && Dt() == 1.0 && LatticeSpeed() == 1.0
  {
  }
}
