/**
 * The plain data of the boid plugin: the `Boid` and `BoidZone` components,
 * the `SpawnBoid` event and the `BoidConfig` resource.
 */
module BoidTypes {
  import opened EngineTypes

  /** Pi to f32 precision, as `std::f32::consts::PI` prints; its exact f32 value 3.14159274... is not used. */
  const PI: real := 3.1415927

  /** A boid's steering state: heading angle in radians and speed on top of the base speed. */
  datatype Boid = Boid(facing: real, speed: real)

  /** The size of the wraparound and spawn rectangle. */
  datatype BoidZone = BoidZone(width: real, height: real)

  /** The zone entity as the systems see it: its size and the translation of its transform. */
  datatype Zone = Zone(size: BoidZone, center: Vec2)

  /** The request to create one boid. */
  datatype SpawnBoid = SpawnBoid(position: Vec2, facing: real, speed: real)

  datatype BoidConfig = BoidConfig(
    boidVisionRadius: real,
    boidCrowdingRadius: real,
    boidVisionConeRadiusRadians: real,
    boidBaseSpeed: real,
    averageGroupDirection: real,
    averageGroupPosition: real,
    avoidCrowding: real,
    targetBoidPopulation: nat)

  /** The configuration the plugin starts with (110 degrees is 110 * pi / 180 radians). */
  const DEFAULT_CONFIG: BoidConfig := BoidConfig(
    boidVisionRadius := 30.0,
    boidCrowdingRadius := 10.0,
    boidVisionConeRadiusRadians := 110.0 * PI / 180.0,
    boidBaseSpeed := 0.6,
    averageGroupDirection := 0.02,
    averageGroupPosition := 0.03,
    avoidCrowding := 0.04,
    targetBoidPopulation := 5000)
}
