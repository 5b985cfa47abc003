/** The spark particle record that is streamed into the vertex buffer
    (FireApplication.h, struct SparkParticle), with its float layout. */
module Particle {

  /** Size in bytes of one 32-bit float, the only component type of the record. */
  const FloatBytes: nat := 4

  datatype Vec2 = Vec2(x: real, y: real)

  /** Four float channels; the attribute that reads it is declared with 4 components. */
  datatype Color = Color(r: real, g: real, b: real, a: real)

  /** The record, field by field in declaration order. */
  datatype SparkParticle = SparkParticle(
    position: Vec2,
    size: real,
    birth: real,
    duration: real,
    color: Color,
    velocity: Vec2)

  /** Names of the record's fields, in declaration order. */
  datatype Field = Position | Size | Birth | Duration | Tint | Velocity

  const Fields: seq<Field> := [Position, Size, Birth, Duration, Tint, Velocity]

  /** The floats that field `f` of `p` occupies in memory. */
  function FieldFloats(p: SparkParticle, f: Field): (fs: seq<real>)
    ensures |fs| == FieldComponents(f)
  {
    match f
    case Position => [p.position.x, p.position.y]
    case Size => [p.size]
    case Birth => [p.birth]
    case Duration => [p.duration]
    case Tint => [p.color.r, p.color.g, p.color.b, p.color.a]
    case Velocity => [p.velocity.x, p.velocity.y]
  }

  /** Number of floats each field's C++ type holds (vec2, float or Color). */
  function FieldComponents(f: Field): nat
  {
    match f
    case Position => 2
    case Size => 1
    case Birth => 1
    case Duration => 1
    case Tint => 4
    case Velocity => 2
  }

  /** The record's memory image as floats: the fields packed one after another. */
  function Floats(p: SparkParticle): (fs: seq<real>)
    ensures |fs| == RecordFloats
  {
    FieldFloats(p, Position) + FieldFloats(p, Size) + FieldFloats(p, Birth)
      + FieldFloats(p, Duration) + FieldFloats(p, Tint) + FieldFloats(p, Velocity)
  }

  /** Floats in one record: 2 + 1 + 1 + 1 + 4 + 2. */
  const RecordFloats: nat := 11

  /** sizeof(SparkParticle): all members are floats, so there is no padding. */
  const ByteSize: nat := RecordFloats * FloatBytes

  /** A zero record, standing for the unspecified contents of freshly allocated buffer memory. */
  const Blank: SparkParticle :=
    SparkParticle(Vec2(0.0, 0.0), 0.0, 0.0, 0.0, Color(0.0, 0.0, 0.0, 0.0), Vec2(0.0, 0.0))
}
