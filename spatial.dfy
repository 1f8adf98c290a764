/** The spatial reasoner (UGASpatialComponent): score the cells reachable from
    the agent with a stack of layers, pick the best one, and hand it to the
    path-following component. */
module Spatial {
  import opened Wrappers
  import opened Grid

  /** -FLT_MAX, the score the selection starts from. */
  const LowestScore: real := -340282346638528859811704183484516925440.0

  /** Default of SampleDimensions, chosen to cover the bulk of the test map. */
  const DefaultSampleDimensions: real := 8000.0

  /** Which raw value a layer reads for a cell (SI_None, SI_TargetRange,
      SI_PathDistance, SI_LOS). */
  datatype SignalInput = NoInput | TargetRange | PathDistance | LineOfSight

  /** How a layer folds its value into a cell's score (SO_None, SO_Add,
      SO_Multiply). */
  datatype Operator = NoOp | Add | Multiply

  /** One scoring layer (FFunctionLayer). The response curve is an arbitrary
      curve, evaluated by a foreign library. */
  datatype FunctionLayer = FunctionLayer(input: SignalInput, responseCurve: real -> real, op: Operator)

  /** The configured stack of layers (UGASpatialFunction). */
  datatype SpatialFunction = SpatialFunction(layers: seq<FunctionLayer>)

  /** A distance-map value: `Unreached` stands for the FLT_MAX sentinel, so
      `Reached(d)` is exactly the test `D < FLT_MAX`. */
  datatype Distance = Reached(d: real) | Unreached

  /** What the world tells a layer about an absolute cell: the straight-line
      distance from the cell to the target, and whether the ray from the cell
      (raised by the eye offset) to the target hits something. */
  datatype LayerWorld = LayerWorld(targetRange: (int, int) -> real, rayHit: (int, int) -> bool)

  /** Everything a layer can observe about one cell. `scored` is the guard of
      the evaluation: the cell is traversable and its distance is finite. */
  datatype CellInputs = CellInputs(scored: bool, pathDistance: real, targetRange: real, rayHit: bool)

  /** The raw signal of a layer input at a cell. */
  function Signal(input: SignalInput, c: CellInputs): real
  {
    match input
    case NoInput => 0.0
    case TargetRange => c.targetRange
    case PathDistance => c.pathDistance
    case LineOfSight => if c.rayHit then 0.0 else 1.0
  }

  /** The combine operator applied to the running score. */
  function Combine(op: Operator, current: real, modified: real): real
  {
    match op
    case NoOp => current
    case Add => current + modified
    case Multiply => current * modified
  }

  /** The new score of one cell after one layer; an unscored cell keeps its
      score. */
  function LayerStep(layer: FunctionLayer, current: real, c: CellInputs): real
  {
    if c.scored then Combine(layer.op, current, layer.responseCurve(Signal(layer.input, c))) else current
  }

  /** The score of a cell after the layers are applied one after another,
      first layer first, starting from `acc`: a left fold of LayerStep. */
  function Score(layers: seq<FunctionLayer>, acc: real, c: CellInputs): real
    decreases |layers|
  {
    if layers == [] then acc else Score(layers[1..], LayerStep(layers[0], acc, c), c)
  }

  /** Applying one more layer after a stack is one more LayerStep on the
      stack's result: the score after k layers is what the (k+1)-th layer
      starts from. */
  lemma {:induction false} ScoreSnoc(layers: seq<FunctionLayer>, layer: FunctionLayer, acc: real, c: CellInputs)
    ensures Score(layers + [layer], acc, c) == LayerStep(layer, Score(layers, acc, c), c)
    decreases |layers|
  {
    if layers != [] {
      assert (layers + [layer])[1..] == layers[1..] + [layer];
      ScoreSnoc(layers[1..], layer, LayerStep(layers[0], acc, c), c);
    }
  }

  /** A cell that is not traversable or has no finite distance keeps whatever
      score it started from, however many layers there are. */
  lemma {:induction false} UnscoredCellKeepsScore(layers: seq<FunctionLayer>, acc: real, c: CellInputs)
    requires !c.scored
    ensures Score(layers, acc, c) == acc
    decreases |layers|
  {
    if layers != [] {
      UnscoredCellKeepsScore(layers[1..], LayerStep(layers[0], acc, c), c);
    }
  }

  /** Since every score starts at zero, layers that multiply (or do nothing)
      before any layer has added leave the score at zero, whatever their
      curves say: such a leading run can be dropped from the stack, and a
      stack made only of them scores every cell zero. */
  lemma {:induction false} LeadingMultipliesStayZero(leading: seq<FunctionLayer>, rest: seq<FunctionLayer>, c: CellInputs)
    requires forall k :: 0 <= k < |leading| ==> leading[k].op != Add
    ensures Score(leading + rest, 0.0, c) == Score(rest, 0.0, c)
    ensures Score(leading, 0.0, c) == 0.0
    decreases |leading|
  {
    if leading != [] {
      assert LayerStep(leading[0], 0.0, c) == 0.0;
      assert (leading + rest)[0] == leading[0] && (leading + rest)[1..] == leading[1..] + rest;
      LeadingMultipliesStayZero(leading[1..], rest, c);
    } else {
      assert leading + rest == rest;
    }
  }

  /** Layer order is part of the configuration: [path-distance, add] then
      [target-range, multiply] scores a cell differently from the reverse
      order. */
  lemma LayerOrderMatters()
    ensures
      var identity := (v: real) => v;
      var addDistance := FunctionLayer(PathDistance, identity, Add);
      var timesRange := FunctionLayer(TargetRange, identity, Multiply);
      var c := CellInputs(true, 2.0, 3.0, false);
      Score([addDistance, timesRange], 0.0, c) == 6.0 &&
      Score([timesRange, addDistance], 0.0, c) == 2.0
  {
    var identity := (v: real) => v;
    var addDistance := FunctionLayer(PathDistance, identity, Add);
    var timesRange := FunctionLayer(TargetRange, identity, Multiply);
    var c := CellInputs(true, 2.0, 3.0, false);
    ScoreSnoc([addDistance], timesRange, 0.0, c);
    assert [addDistance] + [timesRange] == [addDistance, timesRange];
    assert Score([addDistance], 0.0, c) == 2.0 by {
      ScoreSnoc([], addDistance, 0.0, c);
      assert [] + [addDistance] == [addDistance];
    }
    ScoreSnoc([timesRange], addDistance, 0.0, c);
    assert [timesRange] + [addDistance] == [timesRange, addDistance];
    assert Score([timesRange], 0.0, c) == 0.0 by {
      ScoreSnoc([], timesRange, 0.0, c);
      assert [] + [timesRange] == [timesRange];
    }
  }

  /** The inputs of the cell at offset (i, j) of `box`, given its distance. */
  function InputsFor(grid: Grid, world: LayerWorld, box: GridBox, dist: Distance, i: int, j: int): CellInputs
  {
    var x, y := box.minX + i, box.minY + j;
    CellInputs(
      grid.Traversable(x, y) && dist.Reached?,
      if dist.Reached? then dist.d else 0.0,
      world.targetRange(x, y),
      world.rayHit(x, y))
  }

  /** FGAGridMap::GetValue on a distance map: a cell outside the map reads as
      not reached. */
  function DistanceAt(distanceMap: array2<Distance>, i: int, j: int): Distance
    reads distanceMap
  {
    if 0 <= i < distanceMap.Length0 && 0 <= j < distanceMap.Length1 then distanceMap[i, j] else Unreached
  }

  /** Some reached cell scores above -FLT_MAX. */
  ghost predicate AnyCandidate(dist: seq<seq<Distance>>, score: seq<seq<real>>, w: nat, h: nat)
    requires IsRect(dist, w, h) && IsRect(score, w, h)
  {
    exists i, j :: 0 <= i < w && 0 <= j < h && dist[i][j].Reached? && score[i][j] > LowestScore
  }

  /** (i, j) is the cell the selection scan settles on: it is reached, scores
      above -FLT_MAX, no reached cell scores more, and every reached cell that
      the Y-outer/X-inner scan visits before it scores strictly less. */
  ghost predicate IsBest(dist: seq<seq<Distance>>, score: seq<seq<real>>, w: nat, h: nat, i: int, j: int)
    requires IsRect(dist, w, h) && IsRect(score, w, h)
  {
    && 0 <= i < w && 0 <= j < h
    && dist[i][j].Reached?
    && score[i][j] > LowestScore
    && (forall i', j' :: 0 <= i' < w && 0 <= j' < h && dist[i'][j'].Reached? ==> score[i'][j'] <= score[i][j])
    && (forall i', j' :: 0 <= i' < w && 0 <= j' < h && dist[i'][j'].Reached? && RowMajorBefore(i', j', i, j) ==>
          score[i'][j'] < score[i][j])
  }

  /** The selection is deterministic: at most one cell is the best. */
  lemma BestIsUnique(dist: seq<seq<Distance>>, score: seq<seq<real>>, w: nat, h: nat, i1: int, j1: int, i2: int, j2: int)
    requires IsRect(dist, w, h) && IsRect(score, w, h)
    requires IsBest(dist, score, w, h, i1, j1) && IsBest(dist, score, w, h, i2, j2)
    ensures i1 == i2 && j1 == j2
  {
  }

  /** With every score above -FLT_MAX, the selection succeeds exactly when some
      cell of the box was reached. */
  lemma CandidateIffReached(dist: seq<seq<Distance>>, score: seq<seq<real>>, w: nat, h: nat)
    requires IsRect(dist, w, h) && IsRect(score, w, h)
    requires forall i, j :: 0 <= i < w && 0 <= j < h ==> score[i][j] > LowestScore
    ensures AnyCandidate(dist, score, w, h) <==> exists i, j :: 0 <= i < w && 0 <= j < h && dist[i][j].Reached?
  {
  }

  /** The distance map Dijkstra produces over `box`. */
  function DistanceGrid(dijkstra: (GridBox, int, int) -> Distance, box: GridBox): (r: seq<seq<Distance>>)
    ensures IsRect(r, box.Width(), box.Height())
  {
    seq(box.Width(), i requires 0 <= i < box.Width() =>
      seq(box.Height(), j requires 0 <= j < box.Height() => dijkstra(box, box.minX + i, box.minY + j)))
  }

  /** The score map the layer stack produces over `box`: each cell is the
      left fold of the layers from zero. */
  function ScoreGrid(grid: Grid, world: LayerWorld, layers: seq<FunctionLayer>, box: GridBox, dist: seq<seq<Distance>>): (r: seq<seq<real>>)
    requires IsRect(dist, box.Width(), box.Height())
    ensures IsRect(r, box.Width(), box.Height())
  {
    seq(box.Width(), i requires 0 <= i < box.Width() =>
      seq(box.Height(), j requires 0 <= j < box.Height() => Score(layers, 0.0, InputsFor(grid, world, box, dist[i][j], i, j))))
  }

  /** FBox2D around the pawn expanded by half of SampleDimensions on every
      side: SampleDimensions is the full side length of the square. */
  function SampleBox(location: Vec3, sampleDimensions: real): (b: WorldBox)
    ensures b.maxX - b.minX == sampleDimensions && b.maxY - b.minY == sampleDimensions
    ensures b.minX + b.maxX == 2.0 * location.x && b.minY + b.maxY == 2.0 * location.y
  {
    var half := sampleDimensions / 2.0;
    WorldBox(location.x - half, location.y - half, location.x + half, location.y + half)
  }

  /** A request made of the path-following component. */
  datatype PathCommand = BuildPath(destination: CellRef) | ClearPath

  /** The path-following component (UGAPathComponent), reduced to the record
      of the requests it receives. */
  class PathComponent {
    var commands: seq<PathCommand>

    constructor ()
      ensures commands == []
    {
      commands := [];
    }

    /** BuidPathFromDistanceMap: build a path to `destination`. */
    method BuildPathFromDistanceMap(destination: CellRef)
      modifies this
      ensures commands == old(commands) + [BuildPath(destination)]
    {
      commands := commands + [BuildPath(destination)];
    }

    method ClearPathRequest()
      modifies this
      ensures commands == old(commands) + [ClearPath]
    {
      commands := commands + [ClearPath];
    }
  }

  /** The requests ChoosePosition makes of the path component. */
  function PathCommandsFor(pathfindToPosition: bool, bestCell: CellRef): seq<PathCommand>
  {
    if !pathfindToPosition then []
    else if bestCell.Cell? then [BuildPath(bestCell)]
    else [ClearPath]
  }

  /** The collaborators and oracles ChoosePosition consults: the grid actor,
      the configured spatial function, the pawn's location, the conversion of
      a world box to a cell rectangle, the result of Dijkstra's search over a
      box, and what a layer observes in the world. */
  datatype SpatialContext = SpatialContext(
    grid: Option<Grid>,
    spatialFunction: Option<SpatialFunction>,
    pawnLocation: Vec3,
    boundsToRect: WorldBox -> Option<GridBox>,
    dijkstra: (GridBox, int, int) -> Distance,
    world: LayerWorld)

  /** The cell rectangle ChoosePosition samples. */
  function SampledRect(ctx: SpatialContext, sampleDimensions: real): Option<GridBox>
  {
    ctx.boundsToRect(SampleBox(ctx.pawnLocation, sampleDimensions))
  }

  /** ChoosePosition gets past its guards: the grid, the path component and
      the spatial function are present and the sample box maps onto cells. */
  predicate Configured(ctx: SpatialContext, pathComponent: PathComponent?, sampleDimensions: real)
  {
    ctx.grid.Some? && pathComponent != null && ctx.spatialFunction.Some? &&
    SampledRect(ctx, sampleDimensions).Some?
  }

  /** The outcome of scoring `box` with `layers` and selecting from it: the
      selection succeeds exactly when some reached cell scores above -FLT_MAX,
      and then `bestCell` is the best cell, in absolute coordinates. */
  ghost predicate Selected(grid: Grid, world: LayerWorld, layers: seq<FunctionLayer>,
                           dijkstra: (GridBox, int, int) -> Distance, box: GridBox,
                           result: bool, bestCell: CellRef)
  {
    var dist := DistanceGrid(dijkstra, box);
    var score := ScoreGrid(grid, world, layers, box, dist);
    && (result <==> AnyCandidate(dist, score, box.Width(), box.Height()))
    && (result ==> (bestCell.Cell? && box.Contains(bestCell.x, bestCell.y) &&
          IsBest(dist, score, box.Width(), box.Height(), bestCell.x - box.minX, bestCell.y - box.minY)))
  }

  class SpatialComponent {
    /** Side length of the square box, centred on the owner, that positions
        are chosen from. */
    var sampleDimensions: real
    /** The cell the last ChoosePosition picked, or Invalid. */
    var bestCell: CellRef

    constructor ()
      ensures sampleDimensions == DefaultSampleDimensions && bestCell == Invalid
    {
      sampleDimensions := DefaultSampleDimensions;
      bestCell := Invalid;
    }

    /** Fold one layer into the score map. The component and the distance map
        are left alone; a score changes only at cells that are traversable and
        reached, and there it becomes the layer's step from the old score. */
    method EvaluateLayer(layer: FunctionLayer, grid: Grid, world: LayerWorld, box: GridBox,
                         distanceMap: array2<Distance>, gridMap: array2<real>)
      requires gridMap.Length0 == box.Width() && gridMap.Length1 == box.Height()
      modifies gridMap
      ensures forall i, j :: 0 <= i < gridMap.Length0 && 0 <= j < gridMap.Length1 ==>
        gridMap[i, j] == LayerStep(layer, old(gridMap[i, j]), InputsFor(grid, world, box, DistanceAt(distanceMap, i, j), i, j))
    {
      var j := 0;
      while j < gridMap.Length1
        invariant 0 <= j <= gridMap.Length1
        invariant forall i', j' :: 0 <= i' < gridMap.Length0 && 0 <= j' < gridMap.Length1 ==>
          gridMap[i', j'] == if j' < j
            then LayerStep(layer, old(gridMap[i', j']), InputsFor(grid, world, box, DistanceAt(distanceMap, i', j'), i', j'))
            else old(gridMap[i', j'])
      {
        var i := 0;
        while i < gridMap.Length0
          invariant 0 <= i <= gridMap.Length0
          invariant forall i', j' :: 0 <= i' < gridMap.Length0 && 0 <= j' < gridMap.Length1 ==>
            gridMap[i', j'] == if RowMajorBefore(i', j', i, j)
              then LayerStep(layer, old(gridMap[i', j']), InputsFor(grid, world, box, DistanceAt(distanceMap, i', j'), i', j'))
              else old(gridMap[i', j'])
        {
          var x, y := box.minX + i, box.minY + j;
          if HasAllFlags(grid.GetCellData(x, y), CellDataTraversable) {
            var cellDistance := DistanceAt(distanceMap, i, j);
            if cellDistance.Reached? {
              var value := 0.0;
              match layer.input {
                case NoInput =>
                case TargetRange =>
                  value := world.targetRange(x, y);
                case PathDistance =>
                  value := cellDistance.d;
                case LineOfSight =>
                  var hitSomething := world.rayHit(x, y);
                  value := if hitSomething then 0.0 else 1.0;
              }
              var modifiedValue := layer.responseCurve(value);
              var currentValue := gridMap[i, j];
              var resultValue := 0.0;
              match layer.op {
                case NoOp =>
                  resultValue := currentValue;
                case Add =>
                  resultValue := currentValue + modifiedValue;
                case Multiply =>
                  resultValue := currentValue * modifiedValue;
              }
              gridMap[i, j] := resultValue;
            }
          }
          i := i + 1;
        }
        j := j + 1;
      }
    }

    /** Step 3 of ChoosePosition: scan the box with Y outer and X inner and
        keep the first reached cell whose score is strictly greater than the
        best so far, starting from -FLT_MAX. */
    method SelectBestCell(box: GridBox, distanceMap: array2<Distance>, gridMap: array2<real>)
      returns (found: bool, best: CellRef)
      requires distanceMap.Length0 == gridMap.Length0 == box.Width()
      requires distanceMap.Length1 == gridMap.Length1 == box.Height()
      ensures found == best.Cell?
      ensures found <==> AnyCandidate(Snapshot(distanceMap), Snapshot(gridMap), box.Width(), box.Height())
      ensures found ==> (box.Contains(best.x, best.y) &&
        IsBest(Snapshot(distanceMap), Snapshot(gridMap), box.Width(), box.Height(), best.x - box.minX, best.y - box.minY))
    {
      var w, h := gridMap.Length0, gridMap.Length1;
      var bestScore := LowestScore;
      found, best := false, Invalid;
      ghost var bi, bj := 0, 0;
      var j := 0;
      while j < h
        invariant 0 <= j <= h
        invariant found == best.Cell?
        invariant !found ==> bestScore == LowestScore
        invariant found ==> 0 <= bi < w && 0 <= bj < j && best == Cell(box.minX + bi, box.minY + bj)
        invariant found ==> distanceMap[bi, bj].Reached? && gridMap[bi, bj] == bestScore && bestScore > LowestScore
        invariant forall i', j' :: 0 <= i' < w && 0 <= j' < j && distanceMap[i', j'].Reached? ==>
          gridMap[i', j'] <= bestScore
        invariant found ==> forall i', j' :: (0 <= i' < w && 0 <= j' < h && distanceMap[i', j'].Reached? &&
          RowMajorBefore(i', j', bi, bj)) ==> gridMap[i', j'] < bestScore
      {
        var i := 0;
        while i < w
          invariant 0 <= i <= w
          invariant found == best.Cell?
          invariant !found ==> bestScore == LowestScore
          invariant found ==> (0 <= bi < w && 0 <= bj < h && RowMajorBefore(bi, bj, i, j) &&
            best == Cell(box.minX + bi, box.minY + bj))
          invariant found ==> distanceMap[bi, bj].Reached? && gridMap[bi, bj] == bestScore && bestScore > LowestScore
          invariant forall i', j' :: (0 <= i' < w && 0 <= j' < h && RowMajorBefore(i', j', i, j) &&
            distanceMap[i', j'].Reached?) ==> gridMap[i', j'] <= bestScore
          invariant found ==> forall i', j' :: (0 <= i' < w && 0 <= j' < h && distanceMap[i', j'].Reached? &&
            RowMajorBefore(i', j', bi, bj)) ==> gridMap[i', j'] < bestScore
        {
          var d := distanceMap[i, j];
          if d.Reached? {
            var v := gridMap[i, j];
            if v > bestScore {
              bestScore := v;
              best := Cell(box.minX + i, box.minY + j);
              bi, bj := i, j;
              found := true;
            }
          }
          i := i + 1;
        }
        j := j + 1;
      }
      ghost var dist, score := Snapshot(distanceMap), Snapshot(gridMap);
      if found {
        assert IsBest(dist, score, w, h, bi, bj);
      } else {
        assert !AnyCandidate(dist, score, w, h);
      }
    }

    /** Choose the best cell to stand in. With a grid, a path component and a
        spatial function, and a sampled rectangle that maps onto the grid, the
        score map is the layer stack folded over the reached cells, BestCell is
        the cell the selection settles on (or Invalid when no reached cell
        scores above -FLT_MAX), the result says whether a cell was chosen, and,
        when asked to, the path component is told to build a path to it or to
        clear its path. In every other case BestCell is Invalid, the result is
        false and the path component is not touched. */
    method ChoosePosition(pathfindToPosition: bool, ctx: SpatialContext, pathComponent: PathComponent?)
      returns (result: bool)
      modifies this`bestCell, pathComponent
      ensures result == bestCell.Cell?
      ensures sampleDimensions == old(sampleDimensions)
      ensures !Configured(ctx, pathComponent, sampleDimensions) ==> !result
      ensures pathComponent != null && !Configured(ctx, pathComponent, sampleDimensions) ==>
        pathComponent.commands == old(pathComponent.commands)
      ensures Configured(ctx, pathComponent, sampleDimensions) ==>
        && Selected(ctx.grid.value, ctx.world, ctx.spatialFunction.value.layers, ctx.dijkstra,
             SampledRect(ctx, sampleDimensions).value, result, bestCell)
        && pathComponent.commands == old(pathComponent.commands) + PathCommandsFor(pathfindToPosition, bestCell)
    {
      result := false;
      bestCell := Invalid;
      if ctx.grid.None? {
        return false;
      }
      if pathComponent == null {
        return false;
      }
      if ctx.spatialFunction.None? {
        return false;
      }
      var grid := ctx.grid.value;
      var layers := ctx.spatialFunction.value.layers;
      var rect := ctx.boundsToRect(SampleBox(ctx.pawnLocation, sampleDimensions));
      if rect.Some? {
        var box := rect.value;
        // Step 1: the distance map Dijkstra's search fills in.
        var distanceMap := BuildDistanceMap(ctx.dijkstra, box);
        // Step 2: every layer, in the configured order.
        var gridMap := ScoreCells(layers, grid, ctx.world, box, distanceMap);
        // Step 3: the best reached cell.
        var found, cell := SelectBestCell(box, distanceMap, gridMap);
        assert Selected(grid, ctx.world, layers, ctx.dijkstra, box, found, cell);
        bestCell := cell;
        result := found;

        // Step 4: commit or clear the path.
        if pathfindToPosition {
          if bestCell.Cell? {
            pathComponent.BuildPathFromDistanceMap(bestCell);
          } else {
            pathComponent.ClearPathRequest();
          }
        }
      }
    }

    /** Step 1 of ChoosePosition: a fresh distance map holding what Dijkstra's
        search found for every cell of `box`. */
    method BuildDistanceMap(dijkstra: (GridBox, int, int) -> Distance, box: GridBox)
      returns (distanceMap: array2<Distance>)
      ensures fresh(distanceMap)
      ensures distanceMap.Length0 == box.Width() && distanceMap.Length1 == box.Height()
      ensures Snapshot(distanceMap) == DistanceGrid(dijkstra, box)
    {
      distanceMap := new Distance[box.Width(), box.Height()]((i, j) => dijkstra(box, box.minX + i, box.minY + j));
      SameRect(Snapshot(distanceMap), DistanceGrid(dijkstra, box), box.Width(), box.Height());
    }

    /** Step 2 of ChoosePosition: a fresh score map, zero everywhere, with
        every layer evaluated on it in order. */
    method ScoreCells(layers: seq<FunctionLayer>, grid: Grid, world: LayerWorld, box: GridBox,
                      distanceMap: array2<Distance>)
      returns (gridMap: array2<real>)
      requires distanceMap.Length0 == box.Width() && distanceMap.Length1 == box.Height()
      ensures fresh(gridMap)
      ensures gridMap.Length0 == box.Width() && gridMap.Length1 == box.Height()
      ensures Snapshot(gridMap) == ScoreGrid(grid, world, layers, box, Snapshot(distanceMap))
    {
      var w, h := box.Width(), box.Height();
      gridMap := new real[w, h]((i, j) => 0.0);
      var k := 0;
      while k < |layers|
        invariant 0 <= k <= |layers|
        invariant forall i, j :: 0 <= i < w && 0 <= j < h ==>
          gridMap[i, j] == Score(layers[..k], 0.0, InputsFor(grid, world, box, DistanceAt(distanceMap, i, j), i, j))
      {
        EvaluateLayer(layers[k], grid, world, box, distanceMap, gridMap);
        forall i, j | 0 <= i < w && 0 <= j < h
          ensures gridMap[i, j] == Score(layers[..k + 1], 0.0, InputsFor(grid, world, box, DistanceAt(distanceMap, i, j), i, j))
        {
          assert layers[..k + 1] == layers[..k] + [layers[k]];
          ScoreSnoc(layers[..k], layers[k], 0.0, InputsFor(grid, world, box, DistanceAt(distanceMap, i, j), i, j));
        }
        k := k + 1;
      }
      assert layers[..k] == layers;
      SameRect(Snapshot(gridMap), ScoreGrid(grid, world, layers, box, Snapshot(distanceMap)), w, h);
    }
  }
}
