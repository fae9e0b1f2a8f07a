/**
 * The engine value types the core uses: an entity identity and a 2D vector.
 * Coordinates are reals: the f32 rounding of the engine is not modelled.
 */
module EngineTypes {
  /** An entity identity; only equality between identities matters to the core. */
  type Entity = nat

  datatype Vec2 = Vec2(x: real, y: real)
  {
    function Add(other: Vec2): Vec2 { Vec2(x + other.x, y + other.y) }
    function Sub(other: Vec2): Vec2 { Vec2(x - other.x, y - other.y) }
    function Scale(k: real): Vec2 { Vec2(k * x, k * y) }
    function Neg(): Vec2 { Vec2(-x, -y) }
    function Dot(other: Vec2): real { x * other.x + y * other.y }
  }

  const ZERO: Vec2 := Vec2(0.0, 0.0)

  function Abs(r: real): real { if r < 0.0 then -r else r }
}
