/**
 * The per-tick systems of the boid plugin: the population controller, the
 * toroidal screen wrap and the two-phase facing update.
 *
 * The ECS queries become explicit inputs: the live boids in query order, the
 * zone as `Option<Zone>` (`None` when the zone query has no single match), the
 * k-d tree's range query as a function, and the random draws as a function
 * from the event number to four samples. The trigonometry of the facing
 * update is a `Geometry` value, so only its control structure is modelled.
 */
module BoidSystems {
  import opened Wrappers
  import opened EngineTypes
  import opened BoidTypes
  import opened Arithmetic

  // ---------------------------------------------------------------------
  // Population controller: `maintain_boid_population`
  // ---------------------------------------------------------------------

  /** `ceil(gap / 10)`: how many boids one tick spawns or despawns for a gap of `gap`. */
  function BatchSize(gap: nat): (n: nat)
    ensures 10 * n - 10 < gap <= 10 * n
    ensures gap > 0 ==> 1 <= n <= gap
    ensures gap == 0 ==> n == 0
  {
    (gap + 9) / 10
  }

  /** Four samples of the random generator, each meant to lie in [0, 1). */
  datatype Draw = Draw(facing: real, speed: real, x: real, y: real)

  predicate UnitDraw(d: Draw)
  {
    0.0 <= d.facing < 1.0 && 0.0 <= d.speed < 1.0 && 0.0 <= d.x < 1.0 && 0.0 <= d.y < 1.0
  }

  /** The spawn event built from one draw: facing in [-pi, pi), speed in [0, 0.6), a point of the zone. */
  function SpawnEvent(zone: Zone, d: Draw): SpawnBoid
  {
    SpawnBoid(
      position := Vec2(
        Spread(d.x, zone.size.width, zone.center.x),
        Spread(d.y, zone.size.height, zone.center.y)),
      facing := (d.facing * 2.0 - 1.0) * PI,
      speed := d.speed * 0.6)
  }

  /** A sample `u` placed along one zone axis of length `size` around `center`. */
  function Spread(u: real, size: real, center: real): real
  {
    (u * 1.0 - 0.5) * size + center
  }

  /** The rectangle spanned by the zone: `left`/`right` on x, `top`/`bottom` on y. */
  datatype Bounds = Bounds(left: real, right: real, top: real, bottom: real)

  function ZoneBounds(zone: Zone): Bounds
  {
    Bounds(
      zone.center.x - zone.size.width / 2.0,
      zone.center.x + zone.size.width / 2.0,
      zone.center.y - zone.size.height / 2.0,
      zone.center.y + zone.size.height / 2.0)
  }

  predicate InsideBounds(p: Vec2, b: Bounds)
  {
    b.left <= p.x <= b.right && b.top <= p.y <= b.bottom
  }

  /** A spawn event from unit samples faces into [-pi, pi), has speed in [0, 0.6) and lies in a zone of non-negative size. */
  lemma SpawnEventInZone(zone: Zone, d: Draw)
    requires UnitDraw(d)
    requires zone.size.width >= 0.0 && zone.size.height >= 0.0
    ensures -PI <= SpawnEvent(zone, d).facing < PI
    ensures 0.0 <= SpawnEvent(zone, d).speed < 0.6
    ensures InsideBounds(SpawnEvent(zone, d).position, ZoneBounds(zone))
  {
    SpawnPositionInZone(zone, d);
    UnitToHalfOpen(d.facing * 2.0 - 1.0);
  }

  lemma SpawnPositionInZone(zone: Zone, d: Draw)
    requires UnitDraw(d)
    requires zone.size.width >= 0.0 && zone.size.height >= 0.0
    ensures InsideBounds(SpawnEvent(zone, d).position, ZoneBounds(zone))
  {
    HalfSpread(d.x, zone.size.width, zone.center.x);
    HalfSpread(d.y, zone.size.height, zone.center.y);
  }

  lemma HalfSpread(u: real, w: real, c: real)
    requires 0.0 <= u < 1.0 && w >= 0.0
    ensures c - w / 2.0 <= Spread(u, w, c) <= c + w / 2.0
  {
    assert (u * 1.0 - 0.5) * w == u * w - w / 2.0;
    NonNegativeProduct(u, w);
    NonNegativeProduct(1.0 - u, w);
    assert (1.0 - u) * w == w - u * w;
  }

  lemma NonNegativeProduct(a: real, b: real)
    requires a >= 0.0 && b >= 0.0
    ensures a * b >= 0.0
  {
  }

  lemma UnitToHalfOpen(k: real)
    requires -1.0 <= k < 1.0
    ensures -PI <= k * PI < PI
  {
  }

  /**
   * The boids one tick of the controller asks for: spawn events written and
   * entities despawned. Spawning needs the zone; despawning does not.
   */
  method MaintainBoidPopulation(boids: seq<Entity>, config: BoidConfig, zone: Option<Zone>, draw: nat -> Draw)
    returns (events: seq<SpawnBoid>, despawned: seq<Entity>)
    ensures |boids| < config.targetBoidPopulation && zone.None? ==> events == [] && despawned == []
    ensures |boids| < config.targetBoidPopulation && zone.Some? ==>
      |events| == BatchSize(config.targetBoidPopulation - |boids|) && despawned == [] &&
      forall i :: 0 <= i < |events| ==> events[i] == SpawnEvent(zone.value, draw(i))
    ensures |boids| > config.targetBoidPopulation ==>
      events == [] && despawned == boids[..BatchSize(|boids| - config.targetBoidPopulation)]
    ensures |boids| == config.targetBoidPopulation ==> events == [] && despawned == []
    ensures |boids| + |events| - |despawned| == NextCount(|boids|, config.targetBoidPopulation, zone.Some?)
  {
    events, despawned := [], [];
    var numBoids := |boids|;
    if numBoids < config.targetBoidPopulation {
      if zone.None? {
        return;
      }
      var numToSpawn := BatchSize(config.targetBoidPopulation - numBoids);
      var i := 0;
      while i < numToSpawn
        invariant 0 <= i <= numToSpawn
        invariant |events| == i
        invariant forall k :: 0 <= k < i ==> events[k] == SpawnEvent(zone.value, draw(k))
      {
        events := events + [SpawnEvent(zone.value, draw(i))];
        i := i + 1;
      }
    } else if numBoids > config.targetBoidPopulation {
      var numToDespawn := BatchSize(numBoids - config.targetBoidPopulation);
      var i := 0;
      while i < numBoids && i < numToDespawn
        invariant 0 <= i <= numToDespawn
        invariant despawned == boids[..i]
      {
        despawned := despawned + [boids[i]];
        i := i + 1;
      }
    }
  }

  /** The live count after one tick whose spawn or despawn batch has been applied. */
  function NextCount(count: nat, target: nat, hasZone: bool): nat
  {
    if count < target then (if hasZone then count + BatchSize(target - count) else count)
    else if count > target then count - BatchSize(count - target)
    else count
  }

  function Gap(count: nat, target: nat): nat
  {
    if count < target then target - count else count - target
  }

  /**
   * A tick never overshoots the target in either direction, and with a zone
   * it strictly narrows a non-zero gap; at the target nothing changes.
   */
  lemma NextCountApproaches(count: nat, target: nat, hasZone: bool)
    ensures count < target ==> count <= NextCount(count, target, hasZone) <= target
    ensures count > target ==> target <= NextCount(count, target, hasZone) < count
    ensures count == target ==> NextCount(count, target, hasZone) == count
    ensures !hasZone && count < target ==> NextCount(count, target, hasZone) == count
    ensures (hasZone || count > target) && count != target ==>
      Gap(NextCount(count, target, hasZone), target) < Gap(count, target)
  {
  }

  /** The live count after `ticks` ticks with the zone present. */
  function AfterTicks(count: nat, target: nat, ticks: nat): nat
    decreases ticks
  {
    if ticks == 0 then count else AfterTicks(NextCount(count, target, true), target, ticks - 1)
  }

  /** With the zone present the population reaches the target within `Gap` ticks and stays there. */
  lemma {:induction false} ReachesTarget(count: nat, target: nat, ticks: nat)
    requires ticks >= Gap(count, target)
    ensures AfterTicks(count, target, ticks) == target
    decreases ticks
  {
    if ticks > 0 {
      NextCountApproaches(count, target, true);
      ReachesTarget(NextCount(count, target, true), target, ticks - 1);
    }
  }

  /** With the zone present one tick leaves at most nine tenths of the gap. */
  lemma NextCountContracts(count: nat, target: nat)
    ensures 10 * Gap(NextCount(count, target, true), target) <= 9 * Gap(count, target)
  {
  }

  function Pow(b: nat, k: nat): nat
  {
    if k == 0 then 1 else b * Pow(b, k - 1)
  }

  /** With the zone present the gap shrinks at least geometrically: after `ticks` ticks it is at most `(9/10)^ticks` of what it was. */
  lemma {:induction false} GapShrinksGeometrically(count: nat, target: nat, ticks: nat)
    ensures Gap(AfterTicks(count, target, ticks), target) * Pow(10, ticks) <= Gap(count, target) * Pow(9, ticks)
    decreases ticks
  {
    if ticks > 0 {
      var next := NextCount(count, target, true);
      NextCountContracts(count, target);
      GapShrinksGeometrically(next, target, ticks - 1);
      assert AfterTicks(count, target, ticks) == AfterTicks(next, target, ticks - 1);
      ScaledStep(Gap(AfterTicks(next, target, ticks - 1), target), Pow(10, ticks - 1),
        Gap(next, target), Pow(9, ticks - 1), Gap(count, target));
    }
  }

  /** One geometric step: a bound `last * a <= g1 * b` and a contraction `10 * g1 <= 9 * g0` combine. */
  lemma ScaledStep(last: nat, a: nat, g1: nat, b: nat, g0: nat)
    requires last * a <= g1 * b
    requires 10 * g1 <= 9 * g0
    ensures last * (10 * a) <= g0 * (9 * b)
  {
    calc {
      last * (10 * a);
      10 * (last * a);
    <= { MulLeftMonotone(10, last * a, g1 * b); }
      10 * (g1 * b);
      (10 * g1) * b;
    <= { MulMonotone(10 * g1, 9 * g0, b); }
      (9 * g0) * b;
      g0 * (9 * b);
    }
  }

  /**
   * With the zone present the target is reached within logarithmically many
   * ticks: once `gap * 9^ticks < 10^ticks` the population equals the target.
   */
  lemma ReachesTargetGeometrically(count: nat, target: nat, ticks: nat)
    requires Gap(count, target) * Pow(9, ticks) < Pow(10, ticks)
    ensures AfterTicks(count, target, ticks) == target
  {
    GapShrinksGeometrically(count, target, ticks);
    BelowOneIsZero(Gap(AfterTicks(count, target, ticks), target), Pow(10, ticks), Gap(count, target) * Pow(9, ticks));
  }

  lemma BelowOneIsZero(n: nat, p: nat, q: nat)
    requires n * p <= q < p
    ensures n == 0
  {
    if n > 0 {
      MulLeftMonotone(p, 1, n);
    }
  }

  /** Growing from no boids toward a target of 100 ends at exactly 100. */
  lemma GrowsToHundred()
    ensures AfterTicks(0, 100, 100) == 100
  {
    ReachesTarget(0, 100, 100);
  }

  // ---------------------------------------------------------------------
  // Toroidal wrap: `boid_screen_wrap`
  // ---------------------------------------------------------------------

  /** One axis of the wrap: past the high edge goes to the low edge, below the low edge to the high edge. */
  function WrapAxis(v: real, low: real, high: real): (r: real)
    ensures low <= high ==> low <= r <= high
    ensures low <= v <= high ==> r == v
    ensures v > high ==> r == low
    ensures v < low && v <= high ==> r == high
  {
    if v > high then low else if v < low then high else v
  }

  /** The wrap of one translation, axis by axis. */
  function Wrapped(p: Vec2, b: Bounds): (r: Vec2)
    ensures b.left <= b.right && b.top <= b.bottom ==> InsideBounds(r, b)
    ensures InsideBounds(p, b) ==> r == p
  {
    Vec2(WrapAxis(p.x, b.left, b.right), WrapAxis(p.y, b.top, b.bottom))
  }

  /** After the wrap every boid lies in a zone of non-negative size; one already inside does not move. */
  lemma WrappedInsideZone(p: Vec2, zone: Zone)
    requires zone.size.width >= 0.0 && zone.size.height >= 0.0
    ensures InsideBounds(Wrapped(p, ZoneBounds(zone)), ZoneBounds(zone))
    ensures InsideBounds(p, ZoneBounds(zone)) ==> Wrapped(p, ZoneBounds(zone)) == p
  {
  }

  /** Wrapping twice is wrapping once, for a zone of non-negative size. */
  lemma WrapIdempotent(p: Vec2, zone: Zone)
    requires zone.size.width >= 0.0 && zone.size.height >= 0.0
    ensures Wrapped(Wrapped(p, ZoneBounds(zone)), ZoneBounds(zone)) == Wrapped(p, ZoneBounds(zone))
  {
    WrappedInsideZone(p, zone);
  }

  /** `boid_screen_wrap`: wraps every boid's translation in place; without a zone nothing changes. */
  method BoidScreenWrap(translations: array<Vec2>, zone: Option<Zone>)
    modifies translations
    ensures zone.None? ==> translations[..] == old(translations[..])
    ensures zone.Some? ==> forall i :: 0 <= i < translations.Length ==>
      translations[i] == Wrapped(old(translations[i]), ZoneBounds(zone.value))
  {
    if zone.None? {
      return;
    }
    var b := ZoneBounds(zone.value);
    var i := 0;
    while i < translations.Length
      invariant 0 <= i <= translations.Length
      invariant forall k :: 0 <= k < i ==> translations[k] == Wrapped(old(translations[k]), b)
      invariant forall k :: i <= k < translations.Length ==> translations[k] == old(translations[k])
    {
      var p := translations[i];
      if p.x > b.right {
        p := p.(x := b.left);
      } else if p.x < b.left {
        p := p.(x := b.right);
      }
      if p.y > b.bottom {
        p := p.(y := b.top);
      } else if p.y < b.top {
        p := p.(y := b.bottom);
      }
      translations[i] := p;
      i := i + 1;
    }
  }

  // ---------------------------------------------------------------------
  // Facing update: `boid_rotate_to_face_group`
  // ---------------------------------------------------------------------

  /** The floating-point geometry the facing update relies on, left uninterpreted. */
  datatype Geometry = Geometry(
    fromAngle: real -> Vec2,
    toAngle: Vec2 -> real,
    length: Vec2 -> real,
    acos: real -> real,
    lerpAngle: (real, real, real) -> real)

  /** One row of the boid query: entity, `Boid` component and translation. */
  datatype BoidRecord = BoidRecord(entity: Entity, boid: Boid, position: Vec2)

  /** What one visible neighbour contributes. */
  datatype Thought = Thought(groupFacing: Vec2, memberAvoidance: Option<Vec2>, groupCentroid: Vec2)

  /** `boids.get(entity)`: the first row of the query with that entity. */
  function Lookup(table: seq<BoidRecord>, e: Entity): (r: Option<BoidRecord>)
    ensures r.Some? ==> r.value in table && r.value.entity == e
    ensures r.None? ==> forall k :: 0 <= k < |table| ==> table[k].entity != e
  {
    if table == [] then None
    else if table[0].entity == e then Some(table[0])
    else Lookup(table[1..], e)
  }

  /** `ab.length()`: how far `other` is from `me`. */
  function Distance(me: BoidRecord, other: BoidRecord, geo: Geometry): real
  {
    geo.length(other.position.Sub(me.position))
  }

  /** `ab / distance`: the direction from `me` toward `other`. */
  function Heading(me: BoidRecord, other: BoidRecord, geo: Geometry): Vec2
    requires Distance(me, other, geo) != 0.0
  {
    other.position.Sub(me.position).Scale(1.0 / Distance(me, other, geo))
  }

  /**
   * `other` is seen by `me`: it is at a non-zero distance, the direction to it
   * lies inside the vision cone around `me`'s facing, and it is within the
   * vision radius.
   */
  predicate Visible(me: BoidRecord, other: BoidRecord, config: BoidConfig, geo: Geometry)
  {
    Distance(me, other, geo) != 0.0 &&
    Abs(geo.acos(geo.fromAngle(me.boid.facing).Dot(Heading(me, other, geo)))) < config.boidVisionConeRadiusRadians &&
    Distance(me, other, geo) < config.boidVisionRadius
  }

  /**
   * The thought one k-d tree hit yields for boid `me`, if any: hits without an
   * entity, `me` itself and entities missing from the query are skipped, and
   * the other boid counts only when it lies in the vision cone and radius.
   * A zero distance makes `ab / distance` NaN in the source, and every
   * comparison with NaN is false, so a coincident boid is never visible.
   */
  function Consider(table: seq<BoidRecord>, me: BoidRecord, hit: Option<Entity>, config: BoidConfig, geo: Geometry): (r: Option<Thought>)
    ensures r.Some? <==>
      hit.Some? && hit.value != me.entity && Lookup(table, hit.value).Some? &&
      Visible(me, Lookup(table, hit.value).value, config, geo)
    ensures r.Some? ==>
      var other := Lookup(table, hit.value).value;
      r.value == Thought(
        geo.fromAngle(other.boid.facing),
        if Distance(me, other, geo) < config.boidCrowdingRadius then Some(Heading(me, other, geo).Neg()) else None,
        other.position)
  {
    match hit
    case None => None
    case Some(e) =>
      if e == me.entity then None
      else match Lookup(table, e)
        case None => None
        case Some(other) =>
          var facing := geo.fromAngle(me.boid.facing);
          var ab := other.position.Sub(me.position);
          var distance := geo.length(ab);
          if distance == 0.0 then None
          else
            var abNorm := ab.Scale(1.0 / distance);
            var visible :=
              Abs(geo.acos(facing.Dot(abNorm))) < config.boidVisionConeRadiusRadians &&
              distance < config.boidVisionRadius;
            var crowding := distance < config.boidCrowdingRadius;
            if visible then
              Some(Thought(
                geo.fromAngle(other.boid.facing),
                if crowding then Some(abNorm.Neg()) else None,
                other.position))
            else None
  }

  /** The thoughts of boid `me` over the k-d tree hits, in hit order. */
  function Thoughts(table: seq<BoidRecord>, me: BoidRecord, hits: seq<Option<Entity>>, config: BoidConfig, geo: Geometry): (r: seq<Thought>)
    ensures |r| <= |hits|
    ensures forall t :: t in r ==> exists k :: 0 <= k < |hits| && Consider(table, me, hits[k], config, geo) == Some(t)
  {
    if hits == [] then []
    else
      (match Consider(table, me, hits[0], config, geo) case None => [] case Some(t) => [t])
      + Thoughts(table, me, hits[1..], config, geo)
  }

  function SumFacings(ts: seq<Thought>): Vec2
  {
    if ts == [] then ZERO else ts[0].groupFacing.Add(SumFacings(ts[1..]))
  }

  function SumCentroids(ts: seq<Thought>): Vec2
  {
    if ts == [] then ZERO else ts[0].groupCentroid.Add(SumCentroids(ts[1..]))
  }

  /** The fold over the avoidance vectors: their sum and how many there are. */
  function AvoidanceFold(ts: seq<Thought>): (r: (Vec2, nat))
    ensures r.1 <= |ts|
    ensures r.1 == 0 <==> forall k :: 0 <= k < |ts| ==> ts[k].memberAvoidance.None?
  {
    if ts == [] then (ZERO, 0)
    else
      var rest := AvoidanceFold(ts[1..]);
      match ts[0].memberAvoidance
      case None => rest
      case Some(v) => (v.Add(rest.0), rest.1 + 1)
  }

  /** The first two blends: toward the group's mean facing, then toward its centroid. */
  function GroupBlend(me: BoidRecord, ts: seq<Thought>, config: BoidConfig, geo: Geometry): real
    requires |ts| > 0
  {
    var n := |ts| as real;
    var groupFacing := SumFacings(ts).Scale(1.0 / n);
    var groupCentroid := SumCentroids(ts).Scale(1.0 / n);
    var faceGroupCentroid := geo.toAngle(groupCentroid.Sub(me.position));
    geo.lerpAngle(
      geo.lerpAngle(me.boid.facing, geo.toAngle(groupFacing), config.averageGroupDirection),
      faceGroupCentroid,
      config.averageGroupPosition)
  }

  /** The angle away from the crowding neighbours, when there is at least one. */
  function AvoidanceAngle(ts: seq<Thought>, geo: Geometry): real
    requires AvoidanceFold(ts).1 > 0
  {
    var (sum, count) := AvoidanceFold(ts);
    geo.toAngle(sum.Scale(1.0 / (count as real)))
  }

  /** The new facing of boid `me`, computed from the snapshot `table` only. */
  function NewFacing(table: seq<BoidRecord>, me: BoidRecord, hits: seq<Option<Entity>>, config: BoidConfig, geo: Geometry): real
  {
    var ts := Thoughts(table, me, hits, config, geo);
    if |ts| == 0 then me.boid.facing
    else
      var result := GroupBlend(me, ts, config, geo);
      if AvoidanceFold(ts).1 == 0 then result
      else geo.lerpAngle(result, AvoidanceAngle(ts, geo), config.avoidCrowding)
  }

  /** The snapshot the system iterates: one record per row of the query. */
  function Table(entities: seq<Entity>, boids: seq<Boid>, positions: seq<Vec2>): (t: seq<BoidRecord>)
    requires |entities| == |boids| == |positions|
    ensures |t| == |boids|
    ensures forall i :: 0 <= i < |t| ==> t[i] == BoidRecord(entities[i], boids[i], positions[i])
  {
    seq(|boids|, i requires 0 <= i < |boids| => BoidRecord(entities[i], boids[i], positions[i]))
  }

  /** Every row's new facing, each from the same snapshot, in query order. */
  function NewFacings(table: seq<BoidRecord>, tree: (Vec2, real) -> seq<Option<Entity>>, config: BoidConfig, geo: Geometry): (r: seq<real>)
    ensures |r| == |table|
  {
    seq(|table|, i requires 0 <= i < |table| =>
      NewFacing(table, table[i], tree(table[i].position, config.boidVisionRadius), config, geo))
  }

  /**
   * `boid_rotate_to_face_group`: first every new facing is computed from the
   * snapshot, then each boid is given its own; only `facing` changes.
   */
  method BoidRotateToFaceGroup(
    entities: seq<Entity>, boids: array<Boid>, positions: seq<Vec2>,
    tree: (Vec2, real) -> seq<Option<Entity>>, config: BoidConfig, geo: Geometry)
    requires |entities| == boids.Length == |positions|
    modifies boids
    ensures forall i :: 0 <= i < boids.Length ==>
      boids[i] == old(boids[i]).(facing := NewFacings(Table(entities, old(boids[..]), positions), tree, config, geo)[i])
  {
    var newFacings: seq<real> := [];
    var i := 0;
    while i < boids.Length
      invariant 0 <= i <= boids.Length
      invariant newFacings == NewFacings(Table(entities, boids[..], positions), tree, config, geo)[..i]
    {
      var table := Table(entities, boids[..], positions);
      newFacings := newFacings + [NewFacing(table, table[i], tree(positions[i], config.boidVisionRadius), config, geo)];
      i := i + 1;
    }
    ghost var snapshot := NewFacings(Table(entities, boids[..], positions), tree, config, geo);
    assert newFacings == snapshot;
    i := 0;
    while i < boids.Length
      invariant 0 <= i <= boids.Length
      invariant forall k :: 0 <= k < i ==> boids[k] == old(boids[k]).(facing := newFacings[k])
      invariant forall k :: i <= k < boids.Length ==> boids[k] == old(boids[k])
    {
      boids[i] := boids[i].(facing := newFacings[i]);
      i := i + 1;
    }
  }

  /** No hit yields a thought exactly when the thought list is empty. */
  lemma {:induction false} ThoughtsEmptyIff(table: seq<BoidRecord>, me: BoidRecord, hits: seq<Option<Entity>>, config: BoidConfig, geo: Geometry)
    ensures Thoughts(table, me, hits, config, geo) == [] <==>
      forall k :: 0 <= k < |hits| ==> Consider(table, me, hits[k], config, geo).None?
  {
    if hits != [] {
      ThoughtsEmptyIff(table, me, hits[1..], config, geo);
      assert forall k :: 1 <= k < |hits| ==> hits[k] == hits[1..][k - 1];
    }
  }

  /** Every thought a hit yields is in the list: nothing `Consider` keeps is dropped. */
  lemma {:induction false} ThoughtsComplete(table: seq<BoidRecord>, me: BoidRecord, hits: seq<Option<Entity>>, config: BoidConfig, geo: Geometry, k: nat)
    requires k < |hits| && Consider(table, me, hits[k], config, geo).Some?
    ensures Consider(table, me, hits[k], config, geo).value in Thoughts(table, me, hits, config, geo)
  {
    if k > 0 {
      assert hits[1..][k - 1] == hits[k];
      ThoughtsComplete(table, me, hits[1..], config, geo, k - 1);
    }
  }

  /** A boid none of whose hits is a visible other boid keeps its facing ("head empty"). */
  lemma HeadEmptyKeepsFacing(table: seq<BoidRecord>, me: BoidRecord, hits: seq<Option<Entity>>, config: BoidConfig, geo: Geometry)
    requires forall k :: 0 <= k < |hits| ==> Consider(table, me, hits[k], config, geo).None?
    ensures NewFacing(table, me, hits, config, geo) == me.boid.facing
  {
    ThoughtsEmptyIff(table, me, hits, config, geo);
  }

  /** Hit `h` is a visible boid within the crowding radius. */
  predicate Crowds(table: seq<BoidRecord>, me: BoidRecord, h: Option<Entity>, config: BoidConfig, geo: Geometry)
  {
    var t := Consider(table, me, h, config, geo);
    t.Some? && t.value.memberAvoidance.Some?
  }

  lemma {:induction false} AvoidanceCountIff(table: seq<BoidRecord>, me: BoidRecord, hits: seq<Option<Entity>>, config: BoidConfig, geo: Geometry)
    ensures AvoidanceFold(Thoughts(table, me, hits, config, geo)).1 > 0 <==>
      exists k :: 0 <= k < |hits| && Crowds(table, me, hits[k], config, geo)
  {
    if hits != [] {
      var rest := Thoughts(table, me, hits[1..], config, geo);
      AvoidanceCountIff(table, me, hits[1..], config, geo);
      AvoidanceCountStep(table, me, hits, config, geo);
      if exists k :: 0 <= k < |hits| && Crowds(table, me, hits[k], config, geo) {
        var k :| 0 <= k < |hits| && Crowds(table, me, hits[k], config, geo);
        if k > 0 {
          assert hits[1..][k - 1] == hits[k];
        }
      }
      if exists k :: 0 <= k < |hits[1..]| && Crowds(table, me, hits[1..][k], config, geo) {
        var k :| 0 <= k < |hits[1..]| && Crowds(table, me, hits[1..][k], config, geo);
        assert hits[1..][k] == hits[k + 1];
      }
    }
  }

  /** The avoidance count over the hits is the first hit's share plus the count over the rest. */
  lemma AvoidanceCountStep(table: seq<BoidRecord>, me: BoidRecord, hits: seq<Option<Entity>>, config: BoidConfig, geo: Geometry)
    requires hits != []
    ensures AvoidanceFold(Thoughts(table, me, hits, config, geo)).1 ==
      (if Crowds(table, me, hits[0], config, geo) then 1 else 0) + AvoidanceFold(Thoughts(table, me, hits[1..], config, geo)).1
  {
    var rest := Thoughts(table, me, hits[1..], config, geo);
    match Consider(table, me, hits[0], config, geo)
    case None =>
      assert Thoughts(table, me, hits, config, geo) == rest;
    case Some(t) =>
      var ts := Thoughts(table, me, hits, config, geo);
      assert ts == [t] + rest;
      assert ts[0] == t && ts[1..] == rest;
  }

  /**
   * The avoidance blend is applied exactly when some visible neighbour is
   * within the crowding radius; otherwise the result is the two group blends.
   */
  lemma AvoidanceBlendIffCrowded(table: seq<BoidRecord>, me: BoidRecord, hits: seq<Option<Entity>>, config: BoidConfig, geo: Geometry)
    requires Thoughts(table, me, hits, config, geo) != []
    ensures var ts := Thoughts(table, me, hits, config, geo);
      if exists k :: 0 <= k < |hits| && Crowds(table, me, hits[k], config, geo) then
        AvoidanceFold(ts).1 > 0 &&
        NewFacing(table, me, hits, config, geo) == geo.lerpAngle(GroupBlend(me, ts, config, geo), AvoidanceAngle(ts, geo), config.avoidCrowding)
      else
        NewFacing(table, me, hits, config, geo) == GroupBlend(me, ts, config, geo)
  {
    AvoidanceCountIff(table, me, hits, config, geo);
  }

  /** No two rows of the table share an entity. */
  ghost predicate DistinctEntities(table: seq<BoidRecord>)
  {
    forall i, j :: 0 <= i < j < |table| ==> table[i].entity != table[j].entity
  }

  /** With distinct entities a lookup finds the row of that entity wherever it is. */
  lemma LookupSameRows(t1: seq<BoidRecord>, t2: seq<BoidRecord>, e: Entity)
    requires DistinctEntities(t1) && DistinctEntities(t2)
    requires forall r :: r in t1 <==> r in t2
    ensures Lookup(t1, e) == Lookup(t2, e)
  {
    var l1, l2 := Lookup(t1, e), Lookup(t2, e);
    if l1.Some? {
      var j :| 0 <= j < |t2| && t2[j] == l1.value;
      LookupUnique(t2, j);
    }
    if l2.Some? {
      var j :| 0 <= j < |t1| && t1[j] == l2.value;
      LookupUnique(t1, j);
    }
  }

  lemma {:induction false} LookupUnique(table: seq<BoidRecord>, j: nat)
    requires DistinctEntities(table) && j < |table|
    ensures Lookup(table, table[j].entity) == Some(table[j])
  {
    if j > 0 {
      assert DistinctEntities(table[1..]) by {
        forall a, b | 0 <= a < b < |table[1..]| ensures table[1..][a].entity != table[1..][b].entity {
          assert table[1..][a] == table[a + 1] && table[1..][b] == table[b + 1];
        }
      }
      assert table[1..][j - 1] == table[j];
      LookupUnique(table[1..], j - 1);
    }
  }

  lemma {:induction false} ThoughtsSameRows(t1: seq<BoidRecord>, t2: seq<BoidRecord>, me: BoidRecord, hits: seq<Option<Entity>>, config: BoidConfig, geo: Geometry)
    requires DistinctEntities(t1) && DistinctEntities(t2)
    requires forall r :: r in t1 <==> r in t2
    ensures Thoughts(t1, me, hits, config, geo) == Thoughts(t2, me, hits, config, geo)
  {
    if hits != [] {
      if hits[0].Some? {
        LookupSameRows(t1, t2, hits[0].value);
      }
      ThoughtsSameRows(t1, t2, me, hits[1..], config, geo);
    }
  }

  /**
   * The order of the query does not matter: two snapshots holding the same
   * rows (with distinct entities) give every boid the same new facing.
   */
  lemma NewFacingsOrderIndependent(t1: seq<BoidRecord>, t2: seq<BoidRecord>, tree: (Vec2, real) -> seq<Option<Entity>>, config: BoidConfig, geo: Geometry, i: nat, j: nat)
    requires DistinctEntities(t1) && DistinctEntities(t2)
    requires forall r :: r in t1 <==> r in t2
    requires i < |t1| && j < |t2| && t1[i] == t2[j]
    ensures NewFacings(t1, tree, config, geo)[i] == NewFacings(t2, tree, config, geo)[j]
  {
    ThoughtsSameRows(t1, t2, t1[i], tree(t1[i].position, config.boidVisionRadius), config, geo);
  }
}
