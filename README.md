# Boid simulation core in Dafny

This project models two pieces of sequential logic from a boid (flocking)
simulation built on the Bevy engine, and proves properties of them.

1. **The fixed-capacity proximity grid** (`src/components/proximity_grid.rs`).
   The grid is a flat array of `WIDTH * HEIGHT` cells. Each cell holds a fixed
   array of `SLOT_COUNT` (10) optional entity slots.
   - `Cell` is a class over the slot array. Its `TryInsert` and `TryRemove`
     methods update the array in place.
   - `Grid` is a class over the array of cells. Its `TryInsert` and
     `TryRemove` methods change only the addressed cell.
   - Both are proved against pure functions on the slot contents:
     `FirstFree`, `FirstHolding`, `Inserted`, `Removed`, `OccupiedCount`,
     `Occupants`, `InsertOutcome`, `GridInserted`, `RemoveOutcome` and
     `GridRemoved`.
   - The linear index is an arithmetic bounds check, the function `CellIndex`.
     The clipped 3x3 neighbourhood and the list of neighbouring occupants are
     iterator pipelines in the source; here they are the functions
     `NeighboringCells` and `Neighbors`.
2. **The per-tick systems** (`src/plugins/boids/systems.rs`).
   - The population controller (`MaintainBoidPopulation`) writes
     `ceil(gap / 10)` spawn events, or picks that many entities to despawn.
   - The toroidal screen wrap (`BoidScreenWrap`) resets each coordinate that
     leaves the zone to the opposite edge, in place.
   - The two-phase facing update (`BoidRotateToFaceGroup`) first computes every
     new facing from one snapshot. Only then does it write them back, and only
     `facing` changes.

The ECS queries become explicit inputs:
- the live entities in query order;
- the zone as `Option<Zone>` (`None` when the zone query has no single match);
- the k-d tree's `within_distance` as a function from position and radius to
  hits;
- the random generator as a function from the event number to four samples.

The floating-point geometry of the facing update is a `Geometry` value made of
uninterpreted functions: `from_angle`, `to_angle`, `length`, `acos` and
`lerp_angle`. Only the control structure around them is modelled. Positions and
angles are reals.

Files:
- `wrappers.dfy`: `Option`.
- `engine_types.dfy`: `Entity` and `Vec2`.
- `boid_types.dfy`: the config, components and events as datatypes.
- `proximity_grid.dfy`: the grid.
- `boid_systems.dfy`: the three systems.

Three behaviours of the code are worth stating outright:
- The wrap puts a boid exactly on the opposite edge (`x > right` becomes
  `left`). The distance it overshot the edge is dropped, not carried across,
  so a fast boid loses that distance on the tick it wraps.
- Nothing guards against two boids at the same position. There `ab / distance`
  is NaN, and every comparison with NaN is false, so a coincident boid is never
  visible. `Consider` and `Visible` make this explicit: a visible neighbour
  always has a non-zero distance.
- Despawning takes the first `n` entities in query order, whatever they are.

## Model

| member | source | states |
|---|---|---|
| ProximityGrid.FirstFree | src/components/proximity_grid.rs:16-24 | the returned index is the lowest empty slot; it is `None` iff every slot is occupied |
| ProximityGrid.FirstHolding | src/components/proximity_grid.rs:25-36 | the returned index is the lowest slot holding the item; it is `None` iff the item is in no slot |
| ProximityGrid.Occupants | src/components/proximity_grid.rs:95 | the flattened slots hold exactly the entities of the occupied slots, and never more entries than there are slots |
| ProximityGrid.Inserted | src/components/proximity_grid.rs:16-24 | the slots after `try_insert`: same length, only the first free slot can differ, and when there is one it now holds the item |
| ProximityGrid.Removed | src/components/proximity_grid.rs:25-36 | the slots after `try_remove`: same length, only the first slot holding the item can differ, and it is cleared |
| ProximityGrid.OccupiedCount | src/components/proximity_grid.rs:37-39 | the count never exceeds the number of slots |
| ProximityGrid.CountIsOccupants | src/components/proximity_grid.rs:37-39 | `count` equals the number of occupied slots |
| ProximityGrid.FullIffCountIsCapacity | src/components/proximity_grid.rs:16-39 | a cell has no free slot iff its count equals its capacity |
| ProximityGrid.FillAddsOccupant | src/components/proximity_grid.rs:19 | filling an empty slot raises the count by 1 and adds exactly that entity to the occupants |
| ProximityGrid.ClearRemovesOccupant | src/components/proximity_grid.rs:29 | clearing an occupied slot lowers the count by 1 and removes exactly that entity |
| ProximityGrid.InsertedCount | src/components/proximity_grid.rs:16-24 | a successful cell insert raises the count by 1 and adds the item; on a full cell nothing changes |
| ProximityGrid.RemovedCount | src/components/proximity_grid.rs:25-36 | a successful cell remove lowers the count by 1 and takes the item out; if the item is absent nothing changes |
| ProximityGrid.InsertThenRemoveRestores | src/components/proximity_grid.rs:16-36 | after a successful insert, removing the same item succeeds and restores the cell's multiset of occupants |
| ProximityGrid.Cell.constructor | src/components/proximity_grid.rs:9-13 | a default cell has every slot empty |
| ProximityGrid.EmptySlotsHoldNothing | src/components/proximity_grid.rs:9-13 | an empty cell has count 0 and no occupants, and its first free slot is slot 0 |
| ProximityGrid.Cell.TryInsert | src/components/proximity_grid.rs:16-24 | returns the lowest empty index, or `None` when full; only that slot changes, and it now holds the item |
| ProximityGrid.Cell.TryRemove | src/components/proximity_grid.rs:25-36 | returns true iff the item was present; clears only the lowest slot holding it |
| ProximityGrid.Cell.Count | src/components/proximity_grid.rs:37-39 | the count is the number of occupants and at most the capacity |
| ProximityGrid.CellIndex | src/components/proximity_grid.rs:56-63 | the result is `None` exactly when `x + y*WIDTH` reaches `WIDTH*HEIGHT`; otherwise it is `x + y*WIDTH`, below `WIDTH*HEIGHT` |
| ProximityGrid.CellIndexInRange | src/components/proximity_grid.rs:56-63 | an in-range cell always has an index, and that index decodes back to `(x, y)` by `%` and `/` |
| ProximityGrid.CellIndexInjective | src/components/proximity_grid.rs:56-63 | distinct in-range cells have distinct indices |
| ProximityGrid.CellIndexAliasesNextRow | src/components/proximity_grid.rs:56-63 | the column is not checked: `(WIDTH, 0)` and `(0, 1)` both give index `WIDTH` |
| ProximityGrid.CellIndexAliases | src/components/proximity_grid.rs:56-63 | any coordinates that get an index name the same cell as the in-range coordinates `(i % WIDTH, i / WIDTH)` that index decodes to |
| ProximityGrid.NeighboringCells | src/components/proximity_grid.rs:80-90 | for any cell, at most 9 coordinates, each within one step of the cell on both axes |
| ProximityGrid.NeighboringCellsMembers | src/components/proximity_grid.rs:80-90 | for an in-range cell, the neighbourhood holds exactly the in-range cells within one step on each axis; the cell itself is included and nothing wraps around |
| ProximityGrid.NeighboringCellsCount | src/components/proximity_grid.rs:80-90 | the neighbourhood size is the product of the per-axis spans |
| ProximityGrid.NeighboringCellsNineSixFour | src/components/proximity_grid.rs:80-90 | 9 cells for interior cells, 6 for edge cells and 4 for corners |
| ProximityGrid.NeighboringCellsOrdered | src/components/proximity_grid.rs:81 | the cells come out in strictly increasing x-major, then y, order, so no cell repeats |
| ProximityGrid.Gather | src/components/proximity_grid.rs:93-95 | the occupants of each listed cell that has an index, concatenated in list order; its membership is `GatherMembers` |
| ProximityGrid.Neighbors | src/components/proximity_grid.rs:91-96 | `Gather` over `NeighboringCells`; its membership is `NeighborsMembers` and its multiplicity `NeighborsReportEachOnce` |
| ProximityGrid.GatherMembers | src/components/proximity_grid.rs:94-95 | an entity is gathered iff it occupies a slot of one of the listed cells that has an index |
| ProximityGrid.NeighborsMembers | src/components/proximity_grid.rs:91-96 | for an in-range cell, the neighbours are exactly the occupants of the in-range cells within one step, with no distance filter |
| ProximityGrid.GatherOnce | src/components/proximity_grid.rs:94-95 | over cells with distinct indices, an entity that holds at most one slot of the grid is gathered at most once |
| ProximityGrid.NeighborsReportEachOnce | src/components/proximity_grid.rs:91-96 | an entity that holds at most one slot of the grid appears at most once among the neighbours, and exactly once if it appears at all |
| ProximityGrid.InsertOutcome | src/components/proximity_grid.rs:64-69 | grid insert returns `Some((x, y))` iff the index is valid and that cell's count is below its capacity |
| ProximityGrid.GridInserted | src/components/proximity_grid.rs:64-69 | only the addressed cell can change; when the insert fails the grid is unchanged |
| ProximityGrid.RemoveOutcome | src/components/proximity_grid.rs:70-75 | grid remove returns true iff the index is valid and the item occupies that cell; out-of-range coordinates give false |
| ProximityGrid.GridRemoved | src/components/proximity_grid.rs:70-75 | only the addressed cell can change; a failed remove leaves the grid unchanged |
| ProximityGrid.GridInsertThenRemove | src/components/proximity_grid.rs:64-75 | after a successful insert at `(x, y)`, removing at `(x, y)` returns true, restores that cell's multiset of occupants and leaves every other cell as it was |
| ProximityGrid.GridInsertCounts | src/components/proximity_grid.rs:64-69 | a successful grid insert raises the addressed cell's count by 1 |
| ProximityGrid.NewCells | src/components/proximity_grid.rs:52 | builds `n` fresh default cells with pairwise distinct slot arrays |
| ProximityGrid.Grid.constructor | src/components/proximity_grid.rs:50-55 | `new()` gives `WIDTH*HEIGHT` cells, all empty |
| ProximityGrid.Grid.TryInsert | src/components/proximity_grid.rs:64-69 | the result and the new contents are `InsertOutcome` and `GridInserted` of the old contents |
| ProximityGrid.Grid.TryRemove | src/components/proximity_grid.rs:70-75 | the result and the new contents are `RemoveOutcome` and `GridRemoved` of the old contents |
| BoidSystems.BatchSize | src/plugins/boids/systems.rs:36 | the batch is the ceiling of `gap/10` (`10*(n-1) < gap <= 10*n`), at least 1 and at most the gap when the gap is non-zero |
| BoidSystems.MaintainBoidPopulation | src/plugins/boids/systems.rs:25-56 | below the target with a zone, writes exactly `BatchSize(deficit)` spawn events; below the target without a zone, does nothing; above the target, despawns the first `BatchSize(excess)` entities; at the target, does nothing; in every case the population after the tick is `NextCount` of the population before it |
| BoidSystems.SpawnEvent | src/plugins/boids/systems.rs:38-45 | the event built from four samples; its bounds are `SpawnEventInZone` |
| BoidSystems.NextCount | src/plugins/boids/systems.rs:34-54 | the population one tick leaves behind, which `MaintainBoidPopulation`'s result realises; its convergence is `NextCountApproaches` and `NextCountContracts` |
| BoidSystems.NextCountApproaches | src/plugins/boids/systems.rs:34-54 | a tick never overshoots the target in either direction; with a zone it strictly narrows a non-zero gap; at the target nothing changes |
| BoidSystems.ReachesTarget | src/plugins/boids/systems.rs:34-54 | with a zone, the population reaches the target within `|count - target|` ticks and stays there |
| BoidSystems.NextCountContracts | src/plugins/boids/systems.rs:34-54 | with a zone, one tick leaves at most nine tenths of the gap |
| BoidSystems.GapShrinksGeometrically | src/plugins/boids/systems.rs:34-54 | with a zone, after `t` ticks the gap is at most `(9/10)^t` of the starting gap |
| BoidSystems.ReachesTargetGeometrically | src/plugins/boids/systems.rs:34-54 | with a zone, the target is reached once `gap * 9^t < 10^t`, that is within logarithmically many ticks |
| BoidSystems.GrowsToHundred | src/plugins/boids/systems.rs:34-46 | growing from 0 boids toward a target of 100 ends at exactly 100 |
| BoidSystems.SpawnEventInZone | src/plugins/boids/systems.rs:38-45 | from samples in [0, 1), a spawn event faces into [-pi, pi), has speed in [0, 0.6) and lies inside the zone |
| BoidSystems.SpawnPositionInZone | src/plugins/boids/systems.rs:41-44 | a spawn position drawn from samples in [0, 1) lies inside a zone of non-negative size |
| BoidSystems.HalfSpread | src/plugins/boids/systems.rs:42 | a sample in [0, 1) placed along an axis of length `w` stays within `w/2` of the centre |
| BoidSystems.WrapAxis | src/plugins/boids/systems.rs:69-79 | above the high edge goes to the low edge; below the low edge goes to the high edge; inside is unchanged; the result is within the bounds whenever low <= high |
| BoidSystems.Wrapped | src/plugins/boids/systems.rs:69-79 | a wrapped translation lies inside bounds with `left <= right` and `top <= bottom`; a translation already inside does not move |
| BoidSystems.WrappedInsideZone | src/plugins/boids/systems.rs:64-79 | after the wrap a boid lies in `[left, right] x [top, bottom]` whenever width and height are >= 0, and a boid already inside does not move |
| BoidSystems.WrapIdempotent | src/plugins/boids/systems.rs:69-79 | wrapping twice is the same as wrapping once |
| BoidSystems.BoidScreenWrap | src/plugins/boids/systems.rs:59-81 | without a zone no translation changes; with one, every translation becomes its wrap, axis by axis |
| BoidSystems.Lookup | src/plugins/boids/systems.rs:119 | a found row carries the entity asked for; `None` means no row has that entity |
| BoidSystems.Consider | src/plugins/boids/systems.rs:113-143 | a hit yields a thought exactly when it names another boid present in the query that is `Visible` (non-zero distance, inside the vision cone, within the vision radius); the thought carries that boid's facing as a vector, its position, and the avoidance vector `-ab_norm` exactly when it is within the crowding radius |
| BoidSystems.Thoughts | src/plugins/boids/systems.rs:109-143 | at most one thought per hit, and every thought is what `Consider` gives for one of the hits |
| BoidSystems.ThoughtsComplete | src/plugins/boids/systems.rs:109-143 | every thought `Consider` gives for a hit is in the list, so together with `Thoughts` the list holds exactly the thoughts of the hits |
| BoidSystems.ThoughtsEmptyIff | src/plugins/boids/systems.rs:109-143 | the thought list is empty iff no hit yields a thought |
| BoidSystems.HeadEmptyKeepsFacing | src/plugins/boids/systems.rs:147 | a boid with no visible neighbour keeps its facing |
| BoidSystems.AvoidanceFold | src/plugins/boids/systems.rs:153-160 | the avoidance count is at most the number of thoughts, and zero exactly when no thought has an avoidance vector |
| BoidSystems.GroupBlend | src/plugins/boids/systems.rs:150-174 | the two `lerp_angle` steps toward the mean group facing and the group centroid; uninterpreted geometry, so no contract |
| BoidSystems.NewFacing | src/plugins/boids/systems.rs:113-186 | one boid's new facing from the snapshot; its cases are `HeadEmptyKeepsFacing` and `AvoidanceBlendIffCrowded` |
| BoidSystems.NewFacings | src/plugins/boids/systems.rs:107-186 | one new facing per row of the snapshot, in query order; its order independence is `NewFacingsOrderIndependent` |
| BoidSystems.AvoidanceCountStep | src/plugins/boids/systems.rs:153-160 | the avoidance count over the hits is the first hit's share plus the count over the rest |
| BoidSystems.AvoidanceCountIff | src/plugins/boids/systems.rs:153-160 | the avoidance count is positive iff some hit is a visible boid within the crowding radius |
| BoidSystems.AvoidanceBlendIffCrowded | src/plugins/boids/systems.rs:175-185 | the avoidance blend is applied iff at least one crowding neighbour exists; otherwise the result is the two group blends |
| BoidSystems.LookupUnique | src/plugins/boids/systems.rs:119 | with distinct entities, looking up a row's entity finds that row |
| BoidSystems.LookupSameRows | src/plugins/boids/systems.rs:119 | two tables with the same rows and distinct entities give the same lookups |
| BoidSystems.ThoughtsSameRows | src/plugins/boids/systems.rs:109-143 | a boid's thoughts depend only on the set of rows, not on their order |
| BoidSystems.NewFacingsOrderIndependent | src/plugins/boids/systems.rs:107-186 | two snapshots with the same rows give each boid the same new facing, so query order never affects the result |
| BoidSystems.BoidRotateToFaceGroup | src/plugins/boids/systems.rs:101-191 | every new facing is computed from the pre-tick snapshot before any is written; boid i receives the i-th facing; only `facing` changes |

## Left out

- NextCount: the model applies each tick's spawn or despawn batch before the controller's next run, and every convergence lemma about it (`NextCountApproaches`, `ReachesTarget`, `NextCountContracts`, `GapShrinksGeometrically`, `ReachesTargetGeometrically`, `GrowsToHundred`) rests on that. The source does not guarantee it. Spawns go through `SpawnBoid` events that `spawn_boid` turns into deferred `Commands` (systems.rs:9-22, 38), and the systems are registered unordered (mod.rs:29-35). So a batch can land one run late, the controller then counts a stale population, and the population can overshoot the target by up to one batch (99 of 100 can become 101).
- The geometry of the facing update (systems.rs:121-173): `Vec2::from_angle`, `to_angle`, `length`, `acos` and `lerp_angle` (src/lerp_angle.rs). They are f32 trigonometry whose claims hold only up to rounding, so the `Geometry` fields leave them uninterpreted. Dot products, sums and averages are computed exactly over reals, with no f32 rounding.
- `boid_move_forward` (systems.rs:84-91): cos/sin float integration, and setting the render rotation.
- `spawn_boid` (systems.rs:9-22): asset loading and sprite spawning through `Commands`.
- The random generator (systems.rs:32, 39-44): it becomes the `draw` parameter. `SpawnEventInZone` assumes samples in [0, 1).
- The k-d tree, its 0.3 s automatic rebuild and its staleness (mod.rs:19-24): the external `bevy_spatial` library is not part of this model. Its query is an arbitrary function parameter, so any staleness is allowed.
- System registration and scheduling (mod.rs:27-36): Bevy glue. The systems are registered as an unchained tuple, so their order is not fixed.
- Deferred `Commands`: despawning is returned as the list of entities to despawn. Spawn events are returned as a list, not written to an event queue.
- `ProximityGrid::print_counts` (proximity_grid.rs:97-106): stdout output.
- The phantom `Marker` type parameter (proximity_grid.rs:46): it carries no behaviour.
- `Transform` beyond the x and y of its translation (z, rotation, scale): the wrap never touches them.
- src/main.rs (window, camera, UI sliders, fullscreen toggle) and src/systems/exit_app.rs (app exit).
- BatchSize: `ceil(d as f32 / 10.0)` is modelled as the integer `(d + 9) / 10`. The two agree for gaps below 2^24, where f32 represents `d` exactly. Larger gaps are not modelled.
- CellIndex: `x + y*WIDTH` is computed on unbounded naturals. A usize overflow for huge coordinates is not modelled.
- NeighboringCells: requires `WIDTH > 0` and `HEIGHT > 0`, because the source computes `WIDTH - 1` and `HEIGHT - 1` in usize. Coordinates too large for the `as i64` cast are not modelled.
- OccupiedCount: the source's left fold is written as a right fold. Integer addition makes both give the same count.
- Positions, facings and zone bounds are reals, so the f32 rounding of `center ± width/2` is not modelled.
