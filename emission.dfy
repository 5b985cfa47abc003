/** The two kinds of particle FireApplication::Update emits: a spark with randomised
    position, size, lifetime, orange tint and upward velocity, and a grey smoke puff. Each
    random field is RandomRange over the source's constant range; the draws of Random01
    it consumes are passed in as "rolls". */
module Emission {
  import opened Particle
  import opened Random

  /** The arguments of one EmitParticle call; the record adds the birth time. */
  datatype Emit = Emit(position: Vec2, size: real, duration: real, color: Color, velocity: Vec2)

  /** EmitParticle's record: the arguments, stamped with the current time. */
  function Record(e: Emit, now: real): (p: SparkParticle)
    ensures p.birth == now
    ensures p.position == e.position && p.size == e.size && p.duration == e.duration
    ensures p.color == e.color && p.velocity == e.velocity
  {
    SparkParticle(e.position, e.size, now, e.duration, e.color, e.velocity)
  }

  /** One Random01 draw per random field of a spark. */
  datatype SparkRolls = SparkRolls(
    posX: real, posY: real, size: real, duration: real, green: real, velX: real, velY: real)

  predicate ValidSparkRolls(r: SparkRolls)
  {
    InUnit(r.posX) && InUnit(r.posY) && InUnit(r.size) && InUnit(r.duration)
      && InUnit(r.green) && InUnit(r.velX) && InUnit(r.velY)
  }

  /** One Random01 draw per random field of a smoke puff. */
  datatype SmokeRolls = SmokeRolls(posX: real, size: real, duration: real, velX: real, velY: real)

  predicate ValidSmokeRolls(r: SmokeRolls)
  {
    InUnit(r.posX) && InUnit(r.size) && InUnit(r.duration) && InUnit(r.velX) && InUnit(r.velY)
  }

  /** Alpha of a Color built from three channels. */
  const OpaqueAlpha: real := 1.0

  /** A spark: every field lies in its configured range, and the lifetime is positive. */
  function Spark(r: SparkRolls): (e: Emit)
    requires ValidSparkRolls(r)
    ensures -0.3 <= e.position.x <= 0.3 && -0.7 <= e.position.y <= 0.0
    ensures 3.0 <= e.size <= 7.0
    ensures 0.5 <= e.duration <= 1.0
    ensures e.color.r == 1.0 && 0.3 <= e.color.g <= 0.6 && e.color.b == 0.1
    ensures e.color.a == OpaqueAlpha
    ensures -0.1 <= e.velocity.x <= 0.1 && 0.5 <= e.velocity.y <= 1.5
  {
    Emit(
      Vec2(RandomRange(r.posX, -0.3, 0.3), RandomRange(r.posY, -0.7, 0.0)),
      RandomRange(r.size, 3.0, 7.0),
      RandomRange(r.duration, 0.5, 1.0),
      Color(1.0, RandomRange(r.green, 0.3, 0.6), 0.1, OpaqueAlpha),
      Vec2(RandomRange(r.velX, -0.1, 0.1), RandomRange(r.velY, 0.5, 1.5)))
  }

  /** A smoke puff: starts on the line y = -0.7 with a fixed faint grey, is large and
      long-lived, and drifts slowly upward. */
  function Smoke(r: SmokeRolls): (e: Emit)
    requires ValidSmokeRolls(r)
    ensures -0.3 <= e.position.x <= 0.3 && e.position.y == -0.7
    ensures 90.0 <= e.size <= 100.0
    ensures 8.0 <= e.duration <= 10.0
    ensures e.color == Color(0.1, 0.1, 0.1, 0.1)
    ensures -0.02 <= e.velocity.x <= 0.02 && 0.3 <= e.velocity.y <= 0.5
  {
    Emit(
      Vec2(RandomRange(r.posX, -0.3, 0.3), -0.7),
      RandomRange(r.size, 90.0, 100.0),
      RandomRange(r.duration, 8.0, 10.0),
      Color(0.1, 0.1, 0.1, 0.1),
      Vec2(RandomRange(r.velX, -0.02, 0.02), RandomRange(r.velY, 0.3, 0.5)))
  }
}
