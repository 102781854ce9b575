/** The four grid directions and their unit vectors (Types/MovementType.cs). */
module MovementTypes {
  import opened Wrappers

  /** A grid coordinate or offset (Unity's Vector2Int). */
  datatype Vec = Vec(x: int, y: int)
  {
    function Plus(other: Vec): Vec { Vec(x + other.x, y + other.y) }
    function Minus(other: Vec): Vec { Vec(x - other.x, y - other.y) }
    function Negated(): Vec { Vec(-x, -y) }
  }

  const Zero := Vec(0, 0)

  /** Declared in this order; `Enum.GetValues` enumerates them in it. */
  datatype MovementType = Down | Right | Up | Left

  const Declared: seq<MovementType> := [Down, Right, Up, Left]

  /** The vector attribute attached to each member. */
  function Vector(m: MovementType): Vec
  {
    match m
    case Down => Vec(0, -1)
    case Right => Vec(1, 0)
    case Up => Vec(0, 1)
    case Left => Vec(-1, 0)
  }

  /** A vector of length one along an axis. */
  predicate IsUnit(v: Vec)
  {
    (v.x == 0 && (v.y == 1 || v.y == -1)) || (v.y == 0 && (v.x == 1 || v.x == -1))
  }

  /** The lookup loop of `AsMovementType`: the first member of `values` whose
      vector equals `v`. */
  function FirstWithVector(values: seq<MovementType>, v: Vec): (r: Option<MovementType>)
    ensures r.Some? ==> r.value in values && Vector(r.value) == v
    ensures r.None? ==> forall m :: m in values ==> Vector(m) != v
  {
    if values == [] then None
    else if Vector(values[0]) == v then Some(values[0])
    else FirstWithVector(values[1..], v)
  }

  /** The direction whose vector is `v`, or null for every other vector. */
  function AsMovementType(v: Vec): (r: Option<MovementType>)
    ensures r.Some? <==> IsUnit(v)
    ensures r.Some? ==> Vector(r.value) == v
  {
    FirstWithVector(Declared, v)
  }

  /** `GetAngle` on a nullable direction: the zero vector for null. */
  function GetAngle(m: Option<MovementType>): (v: Vec)
    ensures m.None? ==> v == Zero
    ensures m.Some? ==> IsUnit(v) && v == Vector(m.value)
  {
    match m
    case None => Zero
    case Some(d) => Vector(d)
  }

  function GetOpposite(m: MovementType): MovementType
  {
    match m
    case Down => Up
    case Up => Down
    case Left => Right
    case Right => Left
  }

  /** Distinct directions have distinct vectors. */
  lemma VectorInjective(m: MovementType, n: MovementType)
    ensures Vector(m) == Vector(n) <==> m == n
  {
  }

  /** `AsMovementType(GetAngle(m)) == m` for every direction. */
  lemma AngleRoundTrip(m: MovementType)
    ensures AsMovementType(GetAngle(Some(m))) == Some(m)
  {
    VectorInjective(AsMovementType(Vector(m)).value, m);
  }

  /** Every unit vector is the angle of the direction it resolves to. */
  lemma UnitRoundTrip(v: Vec)
    requires IsUnit(v)
    ensures GetAngle(AsMovementType(v)) == v
  {
  }

  /** `GetOpposite` is an involution that negates the vector. */
  lemma OppositeProperties(m: MovementType)
    ensures GetOpposite(GetOpposite(m)) == m
    ensures GetOpposite(m) != m
    ensures Vector(GetOpposite(m)) == Vector(m).Negated()
  {
  }
}
