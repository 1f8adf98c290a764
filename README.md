# Tactical reasoning core of GameAIFinalProject, in Dafny

This project models the decision-making core of an Unreal Engine game-AI
project, and proves properties of that model. It covers four pieces:

- **The spatial reasoner** (`UGASpatialComponent`). It scores every cell of a
  square box around the agent with a stack of layers. Each layer reads a raw
  signal (target range, path distance, line of sight), passes it through a
  response curve, and adds it to or multiplies it into the running score.
  Only cells that are traversable and that Dijkstra's search reached are
  scored. The reasoner then picks the best reached cell and tells the path
  component to go there.
- **The awareness tracker** (`UGAPerceptionComponent`). An observer keeps one
  record per target: whether it has a clear line of sight this tick, and an
  awareness in [0, 1] that rises by 0.1 per tick with line of sight and falls
  by 0.1 without. It answers queries about the current target and all
  targets.
- **The target state machine** (`UGATargetComponent::TickComponent`). A target
  is Unknown until some observer is fully aware of it. It is then Immediate
  while some observer is fully aware, and Hidden otherwise.
- **The occupancy map** of a target. This is a belief grid that can be:
  - reset to one cell;
  - harvested of the cells observers can see;
  - put through a renormalising step, which as written stores nothing, and
    the most likely cell extracted;
  - diffused over the 3x3 neighbourhood of each traversable cell.

Modules:

- `Grid`: cells, boxes, flags and `array2` maps.
- `Spatial`: the reasoner.
- `Awareness`: the pure perception values, the awareness step and the state
  machine.
- `Occupancy`: the belief map as a value and its mass arithmetic.
- `Perception`: the two component classes. They refer to each other, so they
  share one module.
- `Wrappers`: `Option`.

Maps that the source fills in place are `array2` fields or locals of the
classes, and the methods are proved against functions of the `Occupancy` and
`Spatial` modules. The engine's world queries become parameters of function
type. These are the response curve, Dijkstra's result, ray casts, the
cell/world conversions, and each observer's cell-visibility test.

## Where the model follows the code rather than the intent

- **Renormalising writes nothing back** (Source/GameAI/Perception/GATargetComponent.cpp:199-211).
  - The loop rescales a local copy of each value and drops it.
  - `Perception.TargetComponent.RenormaliseAsWritten` has an empty frame.
  - `Perception.TargetComponent.OccupancyMapUpdate`'s contract states that the
    map is the harvested map itself.
  - `Occupancy.UpdateLosesMass` shows that, from a distribution, what remains
    then carries only 1 - h of the mass.
  - `Occupancy.RenormalisedRestoresMass` proves that the rescaling the loop
    computes would have restored total mass 1, had it been stored.
  - In floating point a harvest of exactly 1 divides by zero. The result is
    dropped as well, so the model skips that division.
- **The diffusion's bounds test checks the centre cell** (Source/GameAI/Perception/GATargetComponent.cpp:259).
  - The test is `IsValidCell(current)`, not the neighbour.
  - `Perception.TargetComponent.NeighbourhoodMass` keeps that guard.
  - It is harmless: a neighbour outside the grid has no flags, so the
    "exactly traversable" test already excludes it.
- **TickComponent never touches the occupancy map** (Source/GameAI/Perception/GATargetComponent.cpp:110, 119, 126).
  - The calls to reset, update and diffuse the map are commented out.
  - `Perception.TargetComponent.TickComponent` ensures that the map is
    unchanged.
  - The map operations are modelled as the methods they are, callable on
    their own.
- **The extracted estimate takes the owner's velocity** (Source/GameAI/Perception/GATargetComponent.cpp:224).
  - The heading is not kept from the last sighting: the code calls
    `Owner->GetVelocity()` for every maximal cell.
  - The velocity is therefore a parameter of `OccupancyMapUpdate`.

## Model

| member | source | states |
|---|---|---|
| `Spatial.SpatialComponent.constructor` | Source/GameAI/Spatial/GASpatialComponent.cpp:12-16 | The sample box side defaults to 8000 and no cell is chosen yet. |
| `Spatial.SampleBox` | Source/GameAI/Spatial/GASpatialComponent.cpp:150-155 | The sampled world box is centred on the pawn, and SampleDimensions is its full side length in X and in Y. |
| `Spatial.UnscoredCellKeepsScore` | Source/GameAI/Spatial/GASpatialComponent.cpp:296-300 | A cell that is not traversable, or has no finite distance, keeps its starting score whatever the layers are. |
| `Spatial.LeadingMultipliesStayZero` | Source/GameAI/Spatial/GASpatialComponent.cpp:339-355 | Scores start at 0, so a leading run of Multiply or no-op layers can be dropped from any stack without changing the score, and a stack made only of them scores every cell 0 whatever its curves say. |
| `Spatial.LayerOrderMatters` | Source/GameAI/Spatial/GASpatialComponent.cpp:182-186 | Layers fold in configured order, and swapping an Add and a Multiply layer changes the score (6 against 2 on a concrete cell). |
| `Spatial.ScoreSnoc` | Source/GameAI/Spatial/GASpatialComponent.cpp:182-186 | Evaluating one more layer after a stack is one more layer step on the stack's score. This keeps the layer loop equal to the left fold. |
| `Spatial.SpatialComponent.EvaluateLayer` | Source/GameAI/Spatial/GASpatialComponent.cpp:290-382 | Every cell of the score map becomes the layer's step from its old value: the raw signal through the response curve, combined by the operator. Only cells that are traversable and reached change. |
| `Spatial.SpatialComponent.BuildDistanceMap` | Source/GameAI/Spatial/GASpatialComponent.cpp:166-175 | The distance map covers the box and holds Dijkstra's result for each of its cells. |
| `Spatial.SpatialComponent.ScoreCells` | Source/GameAI/Spatial/GASpatialComponent.cpp:163-186 | The score map starts at 0 over the box and ends as the fold of all layers, in order, at every cell. |
| `Spatial.SpatialComponent.SelectBestCell` | Source/GameAI/Spatial/GASpatialComponent.cpp:190-217 | A cell is found iff some reached cell scores above -FLT_MAX. The found cell is reached, no reached cell scores more, and every reached cell scanned before it (Y outer, X inner) scores strictly less. |
| `Spatial.BestIsUnique` | Source/GameAI/Spatial/GASpatialComponent.cpp:190-217 | At most one cell meets the selection's conditions, so the choice is determined by the maps. |
| `Spatial.CandidateIffReached` | Source/GameAI/Spatial/GASpatialComponent.cpp:200-208 | When every score exceeds -FLT_MAX, selection succeeds exactly when some cell of the box was reached. |
| `Spatial.SpatialComponent.ChoosePosition` | Source/GameAI/Spatial/GASpatialComponent.cpp:114-277 | Without a grid, path component, spatial function or sample rectangle the result is false, BestCell is Invalid, and no path request is made. Otherwise BestCell is the best cell of the scored box (Invalid if none), the result says whether one was chosen, and when asked the path component gets exactly one request: build to BestCell, or clear. |
| `Grid.GetMaxValue` | Source/GameAI/Perception/GATargetComponent.cpp:214-215 | A non-empty map has a maximum that some cell attains and no cell exceeds; an empty map has none. |
| `Awareness.ClearLos` | Source/GameAI/Perception/GAPerceptionComponent.cpp:201-218 | Line of sight is clear iff the target is within half the vision angle and within the vision distance, and the ray does not hit anything. |
| `Awareness.Clamp` | Source/GameAI/Perception/GAPerceptionComponent.cpp:227 | The clamped value lies in the range: the value itself when inside, the nearer bound when outside. |
| `Awareness.NextAwareness` | Source/GameAI/Perception/GAPerceptionComponent.cpp:220-227 | The new awareness is in [0, 1]. It is the old value plus 0.1, capped at 1, with line of sight, and minus 0.1, floored at 0, without. |
| `Awareness.AwarenessMonotone` | Source/GameAI/Perception/GAPerceptionComponent.cpp:220-227 | Line of sight never lowers awareness, and its absence never raises it. |
| `Awareness.AwarenessAfterInRange` | Source/GameAI/Perception/GAPerceptionComponent.cpp:220-227 | Over any run of ticks awareness stays in [0, 1]. |
| `Awareness.ClearRunRaises` | Source/GameAI/Perception/GAPerceptionComponent.cpp:220-227 | n consecutive ticks with line of sight raise awareness by n times 0.1, capped at 1. |
| `Awareness.BlockedRunLowers` | Source/GameAI/Perception/GAPerceptionComponent.cpp:220-227 | n consecutive ticks without line of sight lower awareness by n times 0.1, floored at 0. |
| `Awareness.TenTicksSaturate` | Source/GameAI/Perception/GAPerceptionComponent.cpp:220-227 | From any awareness, ten ticks in sight reach full awareness and ten ticks out of sight reach none. |
| `Awareness.TickData` | Source/GameAI/Perception/GAPerceptionComponent.cpp:218-227 | The record after a tick holds this tick's line of sight and an awareness in [0, 1]. |
| `Awareness.TargetCache.Set` | Source/GameAI/Perception/GATargetComponent.cpp:107 | Refreshing the cache replaces its position and heading and keeps its state. |
| `Awareness.NextCache` | Source/GameAI/Perception/GATargetComponent.cpp:100-115 | The target is Immediate iff some observer is fully aware, and then sits at the owner's location and forward vector. Otherwise position and heading are frozen, and the state is Hidden exactly when the target was known (Unknown stays Unknown). |
| `Awareness.TransitionsAllowed` | Source/GameAI/Perception/GATargetComponent.cpp:100-115 | The only state changes are into Immediate and from Immediate to Hidden; a known target stays known. |
| `Awareness.KnownStaysKnown` | Source/GameAI/Perception/GATargetComponent.cpp:100-115 | Once known, a target stays known over any run of ticks. |
| `Awareness.UnknownUntilImmediate` | Source/GameAI/Perception/GATargetComponent.cpp:100-115 | A target stays Unknown over a run of ticks exactly when no observer was fully aware of it at any of them. |
| `Perception.PerceptionComponent.constructor` | Source/GameAI/Perception/GAPerceptionComponent.cpp:5-14 | The vision cone is 90 degrees wide and 8000 deep, and no target has a record yet. |
| `Perception.PerceptionComponent.GetTargetData` | Source/GameAI/Perception/GAPerceptionComponent.cpp:232-235 | A record is returned iff the target has one, and it is that record. |
| `Perception.PerceptionComponent.GetCurrentTarget` | Source/GameAI/Perception/GAPerceptionComponent.cpp:67-81 | The current target is the first registered target when there is one and it is known, and none otherwise. |
| `Perception.PerceptionComponent.HasTarget` | Source/GameAI/Perception/GAPerceptionComponent.cpp:83-86 | True iff some target is registered and the first one is known. |
| `Perception.PerceptionComponent.GetCurrentTargetState` | Source/GameAI/Perception/GAPerceptionComponent.cpp:89-104 | Succeeds iff there is a current target and this observer has a record of it, and then returns that target's cache and the record. |
| `Perception.PerceptionComponent.GetAllTargetStates` | Source/GameAI/Perception/GAPerceptionComponent.cpp:107-126 | Each output list gains, in target order, the cache (or the record) of every target this observer has a record of, restricted to known targets when asked. |
| `Perception.PerceptionComponent.ReportedAgree` | Source/GameAI/Perception/GAPerceptionComponent.cpp:113-124 | Both lists grow by the same count, at most the number of targets, and the i-th cache and the i-th record belong to the same reported target: its cache and this observer's record of it. |
| `Perception.PerceptionComponent.ReportedOnlyKnown` | Source/GameAI/Perception/GAPerceptionComponent.cpp:118 | When only known targets are asked for, no reported cache is Unknown. |
| `Perception.PerceptionComponent.ReportedAll` | Source/GameAI/Perception/GAPerceptionComponent.cpp:113-124 | When every target has a record and all are asked for, every target is reported. |
| `Perception.PerceptionComponent.UpdateTargetData` | Source/GameAI/Perception/GAPerceptionComponent.cpp:150-229 | A record is created on first sight. The ray is cast iff the target is in the vision cone. The target's record becomes its old record (or the default) after one tick with this sighting's line of sight. No other record changes, and awareness stays in [0, 1]. |
| `Perception.PerceptionComponent.UpdateAllTargetData` | Source/GameAI/Perception/GAPerceptionComponent.cpp:137-148 | The records become TickAll of the old ones: one UpdateTargetData tick per registered target, in order, each with its own sighting. So every target has a record, records of ids no target carries are unchanged, awareness stays in [0, 1], and with distinct ids each target's record is one tick of its old record (or of the default). |
| `Perception.TickAllOnce` | Source/GameAI/Perception/GAPerceptionComponent.cpp:143-146 | When the targets carry distinct ids, the fold gives each target exactly one tick of its old record, or of the default record, with its own sighting. |
| `Perception.TickAllElsewhere` | Source/GameAI/Perception/GAPerceptionComponent.cpp:143-146 | An id that no target of the run carries keeps its record, or its absence. |
| `Perception.TargetComponent.constructor` | Source/GameAI/Perception/GATargetComponent.cpp:48-62 | A registered target has its id, an Unknown cache, and an occupancy map over the whole grid that holds 0. |
| `Perception.TargetComponent.AnyObserverFullyAware` | Source/GameAI/Perception/GATargetComponent.cpp:82-98 | True iff some observer holds a record of this target with awareness at least 1. |
| `Perception.TargetComponent.TickComponent` | Source/GameAI/Perception/GATargetComponent.cpp:78-136 | The new cache is NextCache of the old one, given whether some observer is fully aware. The occupancy map is left exactly as it was. |
| `Perception.TargetComponent.OccupancyMapSetPosition` | Source/GameAI/Perception/GATargetComponent.cpp:139-153 | The map holds 1 at the cell containing the position, when that cell is on the grid, and 0 everywhere else. |
| `Occupancy.DeltaTotal` | Source/GameAI/Perception/GATargetComponent.cpp:143-144 | That reset map is a probability distribution when the cell is on the grid, and is empty otherwise. |
| `Perception.TargetComponent.Harvest` | Source/GameAI/Perception/GATargetComponent.cpp:171-197 | The visible set is exactly the grid cells some observer sees. Those cells are zeroed and the rest untouched, and the harvested amount is the mass they held, each cell counted once however many observers see it. |
| `Perception.TargetComponent.HarvestColumn` | Source/GameAI/Perception/GATargetComponent.cpp:181-195 | One observer's scan of one column adds each newly seen cell to the set and its mass to the harvest, and zeroes it. |
| `Occupancy.SplitMass` | Source/GameAI/Perception/GATargetComponent.cpp:185-191 | The harvested mass and the mass left behind add up to the mass before the harvest. |
| `Perception.TargetComponent.RenormaliseAsWritten` | Source/GameAI/Perception/GATargetComponent.cpp:199-211 | The renormalising loop as written: each value is rescaled in a local that is dropped, so the map is left exactly as it was (the method's frame is empty). The division is skipped for a harvest of exactly 1, whose result the source drops as well. |
| `Occupancy.UpdateLosesMass` | Source/GameAI/Perception/GATargetComponent.cpp:199-211 | As written, a distribution that loses h to the harvest keeps only 1 - h, which is below 1 once anything was harvested. |
| `Occupancy.RenormalisedRestoresMass` | Source/GameAI/Perception/GATargetComponent.cpp:206-208 | Storing the rescaled values by 1 / (1 - h) would make the harvested distribution total 1 again. |
| `Occupancy.TotalScale` | Source/GameAI/Perception/GATargetComponent.cpp:206-208 | Multiplying every value of a map by c multiplies its total mass by c. |
| `Perception.TargetComponent.ExtractEstimate` | Source/GameAI/Perception/GATargetComponent.cpp:213-227 | On a non-empty grid the cache moves to the position of the last cell, X outer and Y inner, that holds the map's maximum, with the owner's velocity; its state is kept. On an empty grid the cache is unchanged. |
| `Occupancy.LastMaxUnique` | Source/GameAI/Perception/GATargetComponent.cpp:216-227 | The extracted cell is determined by the map: at most one cell is the last maximum. |
| `Perception.TargetComponent.OccupancyMapUpdate` | Source/GameAI/Perception/GATargetComponent.cpp:156-231 | The map afterwards is the map before with every visible cell zeroed, and nothing is written back by the renormalising loop. The cache is refreshed from the last maximal cell as in ExtractEstimate. |
| `Perception.TargetComponent.NeighbourhoodMass` | Source/GameAI/Perception/GATargetComponent.cpp:250-273 | For a cell on the grid, the count and the mass of the exactly traversable cells of its 3x3 neighbourhood, itself included. For a cell off the grid, nothing. |
| `Perception.TargetComponent.NeighbourColumn` | Source/GameAI/Perception/GATargetComponent.cpp:257-271 | One pass of the vertical loop adds the three neighbours of one column, in order. Each exactly traversable one raises the count by 1 and the mass by its value; nothing is added when the centre cell is off the grid. |
| `Perception.TargetComponent.NeighbourCell` | Source/GameAI/Perception/GATargetComponent.cpp:259-270 | One neighbour visit: the neighbour is counted and its value added exactly when the centre cell is on the grid and the neighbour's flags are exactly "traversable"; otherwise the tally is unchanged. |
| `Occupancy.NeighbourTotalBounds` | Source/GameAI/Perception/GATargetComponent.cpp:257-271 | For a map with values in [0, 1], the neighbourhood mass lies between 0 and the neighbourhood count. |
| `Occupancy.NeighbourTotalUniform` | Source/GameAI/Perception/GATargetComponent.cpp:257-271 | For a map uniform over the exactly traversable cells, the neighbourhood mass is the count times that value. |
| `Occupancy.CentreCounted` | Source/GameAI/Perception/GATargetComponent.cpp:247-274 | An exactly traversable cell counts itself, so the divisor of its mean is never 0. |
| `Perception.TargetComponent.OccupancyMapDiffuse` | Source/GameAI/Perception/GATargetComponent.cpp:234-288 | The map is replaced by a fresh grid-sized one. Every exactly traversable cell holds the mean of its exactly traversable neighbours in the old map; every other cell holds 0. |
| `Occupancy.DiffusedInUnitRange` | Source/GameAI/Perception/GATargetComponent.cpp:234-288 | Diffusion keeps every value of the map in [0, 1]. |
| `Occupancy.DiffusedUniform` | Source/GameAI/Perception/GATargetComponent.cpp:253-274 | A map uniform over the exactly traversable cells keeps that value at each of them. |
| `Occupancy.VisibleCellsMembers` | Source/GameAI/Perception/GATargetComponent.cpp:177-186 | A cell is in the visible set iff it is on the grid and some observer sees it. |

## Left out

- Engine lookups (`GetGridActor`, `GetPathComponent`, `GetPerceptionComponent`, `GetPerceptionSystem`, `GetOwnerPawn`, `GetOwner`): present or absent collaborators become parameters. An observer's target and observer lists become sequences in registration order.
- `OnRegister` / `OnUnregister`: registration with the perception system is engine bookkeeping. Only the occupancy map's allocation is kept, folded into the `TargetComponent` constructor, with the grid assumed present.
- `UGAPerceptionComponent::TickComponent`: it only calls `UpdateAllTargetData`, which is modelled.
- Perception.PerceptionComponent.UpdateTargetData: the angle from acos of a dot product, the distance and the ray cast are inputs (a `Sighting`), because they are vector geometry and a physics query.
- Perception.TargetComponent.Harvest: `checkCellVisibility` is an input, one test per observer. Its cone and ray geometry is left out for the same reason.
- Spatial.SpatialComponent.EvaluateLayer: the response curve, the distance from a cell to the player, and the ray from a cell plus the 60-unit eye offset are inputs, because they are a foreign curve library, geometry and a physics query.
- Spatial.SpatialComponent.ChoosePosition:
  - Dijkstra's search is an input giving each cell's distance.
  - The path component only records the requests it receives, because path reconstruction lives in a component that is not part of this model.
  - The world-box to cell-rectangle conversion is an input.
  - The debug rendering is dropped.
- The commented-out last-cell bonus and the commented-out "go to the perceived target" hack in `ChoosePosition` are not modelled, because they are not code.
- Floating point: all values are exact reals.
  - `FLT_MAX` is an exact constant.
  - The FLT_MAX distance sentinel is the `Unreached` case.
  - Single-precision rounding is not modelled.
- Awareness.TenTicksSaturate: the claim holds over exact reals. In single precision the sum of ten steps of 0.1 need not be exactly 1 before clamping, so one more tick may be needed.
- Perception.TargetComponent.RenormaliseAsWritten: the division for a harvest of exactly 1 is skipped, because that result is dropped in the source too.
- The unused `harvestedCells` set of the diffusion and its commented-out redistribution loop.
- Perception.TargetComponent.OccupancyMapDiffuse: the contract does not state how total mass changes. The mean of overlapping neighbourhoods does not conserve mass in general, and the source promises nothing about it.
- Perception.TargetComponent.OccupancyMapUpdate: the grid and the perception system are assumed present. Without them the source does nothing.
- Default constructors come from headers that are not part of this model. They are taken to be:
  - `FTargetData()`: no line of sight and awareness 0;
  - `FTargetCache()`: state Unknown, position and velocity at the origin;
  - a default `FCellRef`: the Invalid cell.
- The `UE_LOG` warning that `ChoosePosition` writes when no spatial function is assigned is left out, because it is logging. The return value and the untouched state on that path are modelled.
- The grid actor (`GAGridActor`, `FGAGridMap`) is not part of this model. A cell's flags outside the grid are taken to be none, and `FGAGridMap::GetMaxValue` is taken to return the largest value of the map.
- `IsKnown` is taken to mean "state is not Unknown", and `FTargetCache::Set` to replace position and velocity while keeping the state. The headers declaring them are not part of this model.
