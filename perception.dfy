/** The perception components: an observer's awareness of every target
    (UGAPerceptionComponent) and a target's state machine and occupancy map
    (UGATargetComponent). The two refer to each other, so they share a
    module. The perception system's registries are passed in as sequences:
    `targets` is its list of target components, `observers` its list of
    perception components, in registration order. */
module Perception {
  import opened Wrappers
  import opened Grid
  import opened Awareness
  import opened Occupancy

  /** The record held for `g`, or a default-constructed one when there is none. */
  function DataOrDefault(targetMap: map<Guid, TargetData>, g: Guid): TargetData
  {
    if g in targetMap then targetMap[g] else DefaultTargetData
  }

  /** The records after looking at each target in turn, with the matching
      sighting: a left fold of the one-target tick of UpdateTargetData. */
  function TickAll(vision: VisionParameters, targetMap: map<Guid, TargetData>,
                   targets: seq<TargetComponent>, sightings: seq<Sighting>): map<Guid, TargetData>
    requires |sightings| == |targets|
    decreases |targets|
  {
    if targets == [] then targetMap
    else
      var n := |targets| - 1;
      var before := TickAll(vision, targetMap, targets[..n], sightings[..n]);
      var g := targets[n].targetGuid;
      before[g := TickData(DataOrDefault(before, g), ClearLos(vision, sightings[n]))]
  }

  /** The fold leaves alone every id that no target of the run carries. */
  lemma {:induction false} TickAllElsewhere(vision: VisionParameters, targetMap: map<Guid, TargetData>,
                                            targets: seq<TargetComponent>, sightings: seq<Sighting>, g: Guid)
    requires |sightings| == |targets|
    requires forall k :: 0 <= k < |targets| ==> targets[k].targetGuid != g
    ensures g in TickAll(vision, targetMap, targets, sightings) <==> g in targetMap
    ensures DataOrDefault(TickAll(vision, targetMap, targets, sightings), g) == DataOrDefault(targetMap, g)
    decreases |targets|
  {
    if targets != [] {
      var n := |targets| - 1;
      TickAllElsewhere(vision, targetMap, targets[..n], sightings[..n], g);
    }
  }

  /** The fold gives a record to every target of the run and to no other
      new id. */
  lemma {:induction false} TickAllKeys(vision: VisionParameters, targetMap: map<Guid, TargetData>,
                                       targets: seq<TargetComponent>, sightings: seq<Sighting>)
    requires |sightings| == |targets|
    ensures TickAll(vision, targetMap, targets, sightings).Keys ==
      targetMap.Keys + set t | t in targets :: t.targetGuid
    decreases |targets|
  {
    if targets != [] {
      var n := |targets| - 1;
      TickAllKeys(vision, targetMap, targets[..n], sightings[..n]);
      assert targets == targets[..n] + [targets[n]];
    }
  }

  /** Every awareness held in `targetMap` lies in [0, 1]. */
  predicate AwarenessInRange(targetMap: map<Guid, TargetData>)
  {
    forall g :: g in targetMap ==> 0.0 <= targetMap[g].awareness <= 1.0
  }

  /** The fold keeps every awareness in [0, 1]. */
  lemma {:induction false} TickAllInRange(vision: VisionParameters, targetMap: map<Guid, TargetData>,
                                          targets: seq<TargetComponent>, sightings: seq<Sighting>)
    requires |sightings| == |targets|
    requires AwarenessInRange(targetMap)
    ensures AwarenessInRange(TickAll(vision, targetMap, targets, sightings))
    decreases |targets|
  {
    if targets != [] {
      var n := |targets| - 1;
      var before := TickAll(vision, targetMap, targets[..n], sightings[..n]);
      TickAllInRange(vision, targetMap, targets[..n], sightings[..n]);
      var g := targets[n].targetGuid;
      var d := TickData(DataOrDefault(before, g), ClearLos(vision, sightings[n]));
      assert TickAll(vision, targetMap, targets, sightings) == before[g := d];
    }
  }

  /** Targets carry distinct ids (each is a fresh GUID), so after the fold
      every target's record is exactly one tick of its old record (or of the
      default one), with its own sighting. */
  lemma {:induction false} TickAllOnce(vision: VisionParameters, targetMap: map<Guid, TargetData>,
                                       targets: seq<TargetComponent>, sightings: seq<Sighting>)
    requires |sightings| == |targets|
    requires forall k, l :: 0 <= k < l < |targets| ==> targets[k].targetGuid != targets[l].targetGuid
    ensures forall k :: 0 <= k < |targets| ==>
      targets[k].targetGuid in TickAll(vision, targetMap, targets, sightings) &&
      TickAll(vision, targetMap, targets, sightings)[targets[k].targetGuid] ==
        TickData(DataOrDefault(targetMap, targets[k].targetGuid), ClearLos(vision, sightings[k]))
    decreases |targets|
  {
    if targets != [] {
      var n := |targets| - 1;
      var before := TickAll(vision, targetMap, targets[..n], sightings[..n]);
      TickAllOnce(vision, targetMap, targets[..n], sightings[..n]);
      TickAllElsewhere(vision, targetMap, targets[..n], sightings[..n], targets[n].targetGuid);
      forall k | 0 <= k < n
        ensures targets[k].targetGuid != targets[n].targetGuid
        ensures targets[..n][k] == targets[k] && sightings[..n][k] == sightings[k]
      {
      }
    }
  }

  class PerceptionComponent {
    var visionParameters: VisionParameters
    /** What this observer knows about each target it has looked at, by id. */
    var targetMap: map<Guid, TargetData>

    constructor ()
      ensures visionParameters == DefaultVision && targetMap == map[]
    {
      visionParameters := DefaultVision;
      targetMap := map[];
    }

    /** Every awareness held lies in [0, 1]. */
    ghost predicate Valid()
      reads this
    {
      forall g :: g in targetMap ==> 0.0 <= targetMap[g].awareness <= 1.0
    }

    /** The record for a target, or nothing: a lookup never invents a record. */
    function GetTargetData(targetGuid: Guid): (r: Option<TargetData>)
      reads this
      ensures r.Some? <==> targetGuid in targetMap
      ensures r.Some? ==> r.value == targetMap[targetGuid]
    {
      if targetGuid in targetMap then Some(targetMap[targetGuid]) else None
    }

    /** The target attended to: the first registered target, provided it is known. */
    function GetCurrentTarget(targets: seq<TargetComponent>): (r: TargetComponent?)
      reads targets
      ensures r != null <==> |targets| > 0 && targets[0].IsKnown()
      ensures r != null ==> r == targets[0]
    {
      if |targets| > 0 && targets[0].IsKnown() then targets[0] else null
    }

    function HasTarget(targets: seq<TargetComponent>): (r: bool)
      reads targets
      ensures r <==> |targets| > 0 && Known(targets[0].lastKnownState)
    {
      GetCurrentTarget(targets) != null
    }

    /** The current target's cache and this observer's record of it, when
        there is a current target and a record of it; nothing otherwise. */
    function GetCurrentTargetState(targets: seq<TargetComponent>): (r: Option<(TargetCache, TargetData)>)
      reads this, targets
      ensures r.Some? <==> HasTarget(targets) && targets[0].targetGuid in targetMap
      ensures r.Some? ==> r.value == (targets[0].lastKnownState, targetMap[targets[0].targetGuid])
    {
      var target := GetCurrentTarget(targets);
      if target != null then
        match GetTargetData(target.targetGuid)
        case Some(data) => Some((target.lastKnownState, data))
        case None => None
      else None
    }

    /** A target GetAllTargetStates reports: one with a record, and known
        when only known targets are asked for. */
    predicate Reports(onlyKnown: bool, t: TargetComponent)
      reads this, t
    {
      t.targetGuid in targetMap && (!onlyKnown || t.IsKnown())
    }

    /** The caches GetAllTargetStates appends, in target order. */
    function ReportedCaches(onlyKnown: bool, targets: seq<TargetComponent>): seq<TargetCache>
      reads this, targets
    {
      if targets == [] then []
      else
        var t := targets[|targets| - 1];
        ReportedCaches(onlyKnown, targets[..|targets| - 1]) + if Reports(onlyKnown, t) then [t.lastKnownState] else []
    }

    /** The records GetAllTargetStates appends, in target order. */
    function ReportedDatas(onlyKnown: bool, targets: seq<TargetComponent>): seq<TargetData>
      reads this, targets
    {
      if targets == [] then []
      else
        var t := targets[|targets| - 1];
        ReportedDatas(onlyKnown, targets[..|targets| - 1]) + if Reports(onlyKnown, t) then [targetMap[t.targetGuid]] else []
    }

    /** Append the cache and the record of every reported target to the two
        output lists. */
    method GetAllTargetStates(onlyKnown: bool, targets: seq<TargetComponent>,
                              targetCaches: seq<TargetCache>, targetDatas: seq<TargetData>)
      returns (targetCachesOut: seq<TargetCache>, targetDatasOut: seq<TargetData>)
      ensures targetCachesOut == targetCaches + ReportedCaches(onlyKnown, targets)
      ensures targetDatasOut == targetDatas + ReportedDatas(onlyKnown, targets)
    {
      targetCachesOut, targetDatasOut := targetCaches, targetDatas;
      var k := 0;
      while k < |targets|
        invariant 0 <= k <= |targets|
        invariant targetCachesOut == targetCaches + ReportedCaches(onlyKnown, targets[..k])
        invariant targetDatasOut == targetDatas + ReportedDatas(onlyKnown, targets[..k])
      {
        var targetComponent := targets[k];
        assert targets[..k + 1][..k] == targets[..k];
        var targetData := GetTargetData(targetComponent.targetGuid);
        if targetData.Some? {
          if !onlyKnown || targetComponent.IsKnown() {
            targetCachesOut := targetCachesOut + [targetComponent.lastKnownState];
            targetDatasOut := targetDatasOut + [targetData.value];
          }
        }
        k := k + 1;
      }
      assert targets[..k] == targets;
    }

    /** The targets GetAllTargetStates reports, in target order. */
    function ReportedTargets(onlyKnown: bool, targets: seq<TargetComponent>): seq<TargetComponent>
      reads this, targets
    {
      if targets == [] then []
      else
        var t := targets[|targets| - 1];
        ReportedTargets(onlyKnown, targets[..|targets| - 1]) + if Reports(onlyKnown, t) then [t] else []
    }

    /** The two output lists grow by the same count, at most the number of
        targets, and pairwise belong to the same reported target: the i-th
        cache is that target's cache and the i-th record this observer's
        record of it. */
    lemma {:induction false} ReportedAgree(onlyKnown: bool, targets: seq<TargetComponent>)
      ensures |ReportedCaches(onlyKnown, targets)| == |ReportedTargets(onlyKnown, targets)| == |ReportedDatas(onlyKnown, targets)|
      ensures |ReportedTargets(onlyKnown, targets)| <= |targets|
      ensures forall i :: 0 <= i < |ReportedTargets(onlyKnown, targets)| ==>
        var t := ReportedTargets(onlyKnown, targets)[i];
        t in targets && Reports(onlyKnown, t) &&
        ReportedCaches(onlyKnown, targets)[i] == t.lastKnownState &&
        ReportedDatas(onlyKnown, targets)[i] == targetMap[t.targetGuid]
    {
      if targets != [] {
        var front := targets[..|targets| - 1];
        ReportedAgree(onlyKnown, front);
        assert forall t :: t in front ==> t in targets;
      }
    }

    /** Asked for known targets only, no reported cache is Unknown. */
    lemma {:induction false} ReportedOnlyKnown(targets: seq<TargetComponent>)
      ensures forall c :: c in ReportedCaches(true, targets) ==> Known(c)
    {
      if targets != [] {
        ReportedOnlyKnown(targets[..|targets| - 1]);
      }
    }

    /** When every target has a record and all are asked for, every target is
        reported. */
    lemma {:induction false} ReportedAll(targets: seq<TargetComponent>)
      requires forall t :: t in targets ==> t.targetGuid in targetMap
      ensures |ReportedCaches(false, targets)| == |targets|
    {
      if targets != [] {
        ReportedAll(targets[..|targets| - 1]);
      }
    }

    /** One tick of looking at one target. The record is created
        default-constructed the first time; then line of sight is set (the ray
        is cast only when the target is inside the vision cone), and awareness
        moves a step towards 1 with line of sight and towards 0 without, clamped
        to [0, 1]. No other target's record changes. `rayCast` says whether
        the ray was cast. */
    method UpdateTargetData(target: TargetComponent, sighting: Sighting) returns (rayCast: bool)
      modifies this`targetMap
      ensures rayCast <==> WithinVisionCone(visionParameters, sighting)
      ensures target.targetGuid in targetMap
      ensures targetMap == old(targetMap)[target.targetGuid :=
        TickData(DataOrDefault(old(targetMap), target.targetGuid), ClearLos(visionParameters, sighting))]
      ensures old(Valid()) ==> Valid()
    {
      var targetGuid := target.targetGuid;
      if targetGuid !in targetMap {
        targetMap := targetMap[targetGuid := DefaultTargetData];
      }
      var targetData := targetMap[targetGuid];
      var clearLosRes := false;
      rayCast := false;
      if sighting.angleDegrees <= visionParameters.visionAngle / 2.0 && sighting.distance <= visionParameters.visionDistance {
        rayCast := true;
        var hitSomething := sighting.rayHit;
        if !hitSomething {
          clearLosRes := true;
        }
      }
      targetData := targetData.(clearLos := clearLosRes);
      var oldAwareness := targetData.awareness;
      if targetData.clearLos {
        oldAwareness := oldAwareness + AwarenessStep;
      } else {
        oldAwareness := oldAwareness - AwarenessStep;
      }
      targetData := targetData.(awareness := Clamp(oldAwareness, 0.0, 1.0));
      targetMap := targetMap[targetGuid := targetData];
    }

    /** UpdateTargetData for every registered target in turn, with what this
        observer measures of each. Afterwards every target has a record, and
        the records of ids no target carries are as they were. */
    method UpdateAllTargetData(targets: seq<TargetComponent>, sightings: seq<Sighting>)
      requires |sightings| == |targets|
      modifies this`targetMap
      ensures targetMap.Keys == old(targetMap).Keys + set t | t in targets :: t.targetGuid
      ensures forall g :: g in old(targetMap) && (forall t :: t in targets ==> t.targetGuid != g) ==>
        targetMap[g] == old(targetMap)[g]
      ensures targetMap == TickAll(visionParameters, old(targetMap), targets, sightings)
      ensures (forall k, l :: 0 <= k < l < |targets| ==> targets[k].targetGuid != targets[l].targetGuid) ==>
        forall k :: 0 <= k < |targets| ==>
          targets[k].targetGuid in targetMap &&
          targetMap[targets[k].targetGuid] ==
            TickData(DataOrDefault(old(targetMap), targets[k].targetGuid), ClearLos(visionParameters, sightings[k]))
      ensures old(Valid()) ==> Valid()
    {
      var k := 0;
      while k < |targets|
        invariant 0 <= k <= |targets|
        invariant targetMap == TickAll(visionParameters, old(targetMap), targets[..k], sightings[..k])
      {
        assert targets[..k + 1][..k] == targets[..k] && sightings[..k + 1][..k] == sightings[..k];
        var _ := UpdateTargetData(targets[k], sightings[k]);
        k := k + 1;
      }
      assert targets[..k] == targets && sightings[..k] == sightings;
      TickAllKeys(visionParameters, old(targetMap), targets, sightings);
      forall g | g in old(targetMap) && (forall t :: t in targets ==> t.targetGuid != g)
        ensures targetMap[g] == old(targetMap)[g]
      {
        TickAllElsewhere(visionParameters, old(targetMap), targets, sightings, g);
      }
      if old(Valid()) {
        assert AwarenessInRange(old(targetMap));
        TickAllInRange(visionParameters, old(targetMap), targets, sightings);
        assert AwarenessInRange(targetMap);
      }
      if forall k, l :: 0 <= k < l < |targets| ==> targets[k].targetGuid != targets[l].targetGuid {
        TickAllOnce(visionParameters, old(targetMap), targets, sightings);
      }
    }
  }

  class TargetComponent {
    const targetGuid: Guid
    /** The grid the occupancy map lies over. */
    const grid: Grid
    var lastKnownState: TargetCache
    /** The belief map: `occupancyMap[x, y]` is the probability that the
        target stands in cell (x, y) of the grid. */
    var occupancyMap: array2<real>

    /** A target as it stands after construction and registration: a fresh
        id, an Unknown cache, and an occupancy map over the whole grid
        holding 0. */
    constructor (guid: Guid, grid: Grid)
      ensures targetGuid == guid && this.grid == grid && lastKnownState == DefaultCache
      ensures fresh(occupancyMap) && Valid()
      ensures Snapshot(occupancyMap) == Zero(grid.xCount, grid.yCount)
    {
      targetGuid := guid;
      this.grid := grid;
      lastKnownState := DefaultCache;
      occupancyMap := new real[grid.xCount, grid.yCount]((x, y) => 0.0);
      new;
      SameRect(Snapshot(occupancyMap), Zero(grid.xCount, grid.yCount), grid.xCount, grid.yCount);
    }

    /** The occupancy map covers the grid. */
    ghost predicate Valid()
      reads this
    {
      occupancyMap.Length0 == grid.xCount && occupancyMap.Length1 == grid.yCount
    }

    predicate IsKnown()
      reads this
    {
      Known(lastKnownState)
    }

    /** Some observer holds a record of this target with awareness at least 1. */
    predicate FullyAware(observers: seq<PerceptionComponent>)
      reads observers
    {
      exists k :: 0 <= k < |observers| && targetGuid in observers[k].targetMap &&
        observers[k].targetMap[targetGuid].awareness >= 1.0
    }

    /** The scan of the observers at the start of TickComponent, which stops
        at the first fully aware one. */
    method AnyObserverFullyAware(observers: seq<PerceptionComponent>) returns (isImmediate: bool)
      ensures isImmediate <==> FullyAware(observers)
    {
      isImmediate := false;
      var k := 0;
      while k < |observers|
        invariant 0 <= k <= |observers|
        invariant forall k' :: 0 <= k' < k ==>
          !(targetGuid in observers[k'].targetMap && observers[k'].targetMap[targetGuid].awareness >= 1.0)
      {
        var targetData := observers[k].GetTargetData(targetGuid);
        if targetData.Some? && targetData.value.awareness >= 1.0 {
          isImmediate := true;
          break;
        }
        k := k + 1;
      }
    }

    /** One tick of the target's state machine: the new cache is NextCache of
        the old one. The occupancy map is left exactly as it was, because the
        calls that would reset, update and diffuse it are commented out. */
    method TickComponent(observers: seq<PerceptionComponent>, ownerLocation: Vec3, ownerForward: Vec3)
      modifies this`lastKnownState
      ensures lastKnownState == NextCache(old(lastKnownState), FullyAware(observers), ownerLocation, ownerForward)
      ensures occupancyMap == old(occupancyMap) && unchanged(occupancyMap)
    {
      var isImmediate := AnyObserverFullyAware(observers);
      if isImmediate {
        lastKnownState := lastKnownState.(state := Immediate);
        lastKnownState := lastKnownState.Set(ownerLocation, ownerForward);
        // The source does not call OccupancyMapSetPosition here: the call is commented out.
      } else if IsKnown() {
        lastKnownState := lastKnownState.(state := Hidden);
      }
      // Nor does it call OccupancyMapUpdate when Hidden, or
      // OccupancyMapDiffuse when known: both calls are commented out.
    }

    /** All probability on the cell containing `position`: the map is reset
        to 0 and that cell, when it lies on the map, set to 1. */
    method OccupancyMapSetPosition(position: Vec3)
      requires Valid()
      modifies occupancyMap
      ensures Snapshot(occupancyMap) == Delta(grid.xCount, grid.yCount, grid.GetCellRef(position))
    {
      var cellRef := grid.GetCellRef(position);
      forall x, y | 0 <= x < occupancyMap.Length0 && 0 <= y < occupancyMap.Length1 {
        occupancyMap[x, y] := 0.0;
      }
      if cellRef.Cell? && 0 <= cellRef.x < occupancyMap.Length0 && 0 <= cellRef.y < occupancyMap.Length1 {
        occupancyMap[cellRef.x, cellRef.y] := 1.0;
      }
      SameRect(Snapshot(occupancyMap), Delta(grid.xCount, grid.yCount, cellRef), grid.xCount, grid.yCount);
    }

    /** Partway through the harvest starting from map `m0`: the cells in
        `visibleSet` are zeroed, the others untouched, and `harvested` is the
        total they held. */
    ghost predicate HarvestState(m0: seq<seq<real>>, visibleSet: set<CellRef>, harvested: real)
      reads this, occupancyMap
    {
      && Valid()
      && IsRect(m0, grid.xCount, grid.yCount)
      && (forall x, y :: 0 <= x < grid.xCount && 0 <= y < grid.yCount ==>
            occupancyMap[x, y] == if Cell(x, y) in visibleSet then 0.0 else m0[x][y])
      && harvested == Total(Masked(m0, visibleSet))
    }

    /** Steps 1 and 2 of OccupancyMapUpdate: every cell some observer sees is
        collected once into `visibleSet`, its value added to `harvested` and
        zeroed. `sight[k]` is observer k's visibility test of a world point. */
    method Harvest(sight: seq<Vec3 -> bool>) returns (visibleSet: set<CellRef>, harvested: real)
      requires Valid()
      modifies occupancyMap
      ensures visibleSet == VisibleCells(grid, sight)
      ensures Snapshot(occupancyMap) == Cleared(old(Snapshot(occupancyMap)), visibleSet)
      ensures harvested == Total(Masked(old(Snapshot(occupancyMap)), visibleSet))
    {
      ghost var m0 := Snapshot(occupancyMap);
      visibleSet, harvested := {}, 0.0;
      MaskedNothing(m0);
      var o := 0;
      while o < |sight|
        modifies occupancyMap
        invariant 0 <= o <= |sight|
        invariant forall c :: c in visibleSet <==> c.Cell? && grid.IsValidCell(c.x, c.y) && SeenBy(grid, sight, o, c.x, c.y)
        invariant HarvestState(m0, visibleSet, harvested)
      {
        CollectedStart(grid, sight, o);
        var x := 0;
        while x < grid.xCount
          modifies occupancyMap
          invariant 0 <= x <= grid.xCount
          invariant forall c :: c in visibleSet <==> Collected(grid, sight, o, x, 0, c)
          invariant HarvestState(m0, visibleSet, harvested)
        {
          visibleSet, harvested := HarvestColumn(sight, o, x, m0, visibleSet, harvested);
          x := x + 1;
        }
        CollectedEnd(grid, sight, o);
        o := o + 1;
      }
      VisibleCellsMembers(grid, sight);
      SameRect(Snapshot(occupancyMap), Cleared(m0, visibleSet), grid.xCount, grid.yCount);
    }

    /** The innermost loop of the harvest: observer o scans column x. */
    method HarvestColumn(sight: seq<Vec3 -> bool>, o: int, x: int, ghost m0: seq<seq<real>>,
                         visibleSet: set<CellRef>, harvested: real)
      returns (visibleSet': set<CellRef>, harvested': real)
      requires 0 <= o < |sight| && 0 <= x < grid.xCount
      requires HarvestState(m0, visibleSet, harvested)
      requires forall c :: c in visibleSet <==> Collected(grid, sight, o, x, 0, c)
      modifies occupancyMap
      ensures HarvestState(m0, visibleSet', harvested')
      ensures forall c :: c in visibleSet' <==> Collected(grid, sight, o, x + 1, 0, c)
    {
      visibleSet', harvested' := visibleSet, harvested;
      var y := 0;
      while y < grid.yCount
        modifies occupancyMap
        invariant 0 <= y <= grid.yCount
        invariant forall c :: c in visibleSet' <==> Collected(grid, sight, o, x, y, c)
        invariant HarvestState(m0, visibleSet', harvested')
      {
        CollectedStep(grid, sight, o, x, y);
        var current := Cell(x, y);
        if sight[o](grid.GetCellPosition(x, y)) {
          if current !in visibleSet' {
            HarvestStep(m0, visibleSet', x, y);
            visibleSet' := visibleSet' + {current};
            var visVal := occupancyMap[x, y];
            harvested' := harvested' + visVal;
            occupancyMap[x, y] := 0.0;
          }
        }
        y := y + 1;
      }
      CollectedColumnEnd(grid, sight, o, x);
    }

    /** Harvest the visible cells, run the renormalising loop, then move the
        cache to the last cell, in X-outer, Y-inner order, holding the
        largest value, with the owner's velocity. As written the
        renormalising loop only rescales a local copy of each value, so the
        map afterwards is the harvested map itself. */
    method OccupancyMapUpdate(sight: seq<Vec3 -> bool>, ownerVelocity: Vec3)
      requires Valid()
      modifies occupancyMap, this`lastKnownState
      ensures Snapshot(occupancyMap) == Cleared(old(Snapshot(occupancyMap)), VisibleCells(grid, sight))
      ensures grid.xCount > 0 && grid.yCount > 0 ==>
        exists x, y :: IsLastMax(Snapshot(occupancyMap), grid.xCount, grid.yCount, x, y) &&
          lastKnownState == old(lastKnownState).Set(grid.GetCellPosition(x, y), ownerVelocity)
      ensures grid.xCount == 0 || grid.yCount == 0 ==> lastKnownState == old(lastKnownState)
    {
      // Steps 1 and 2.
      var visibleSet, harvested := Harvest(sight);

      // Step 3, as written.
      RenormaliseAsWritten(harvested);
      // Step 4.
      ExtractEstimate(ownerVelocity);
    }

    /** Step 3 of OccupancyMapUpdate as written: each value is rescaled in a
        local and dropped, so the loop writes nothing (its frame is empty).
        A harvest of exactly 1 would divide by zero; in floating point that
        yields infinity, which is dropped in the same way. */
    method RenormaliseAsWritten(harvested: real)
      requires Valid()
      ensures Snapshot(occupancyMap) == old(Snapshot(occupancyMap))
    {
      var x := 0;
      while x < grid.xCount
        invariant 0 <= x <= grid.xCount
      {
        var y := 0;
        while y < grid.yCount
          invariant 0 <= y <= grid.yCount
        {
          var value := occupancyMap[x, y];
          if value != 0.0 && harvested != 1.0 {
            value := value * (1.0 / (1.0 - harvested));
          }
          y := y + 1;
        }
        x := x + 1;
      }
    }

    /** Step 4 of OccupancyMapUpdate: scanning X outer, Y inner, every cell
        holding the largest value overwrites the cache's position with its
        own and the velocity with the owner's, so the last such cell wins. */
    method ExtractEstimate(ownerVelocity: Vec3)
      requires Valid()
      modifies this`lastKnownState
      ensures grid.xCount > 0 && grid.yCount > 0 ==>
        exists x, y :: IsLastMax(Snapshot(occupancyMap), grid.xCount, grid.yCount, x, y) &&
          lastKnownState == old(lastKnownState).Set(grid.GetCellPosition(x, y), ownerVelocity)
      ensures grid.xCount == 0 || grid.yCount == 0 ==> lastKnownState == old(lastKnownState)
    {
      var found, maxProb := GetMaxValue(occupancyMap);
      ghost var matched, lx, ly := false, 0, 0;
      var x := 0;
      while x < grid.xCount
        invariant 0 <= x <= grid.xCount
        invariant !matched ==> lastKnownState == old(lastKnownState)
        invariant matched ==> (0 <= lx < x && 0 <= ly < grid.yCount && occupancyMap[lx, ly] == maxProb &&
          lastKnownState == old(lastKnownState).Set(grid.GetCellPosition(lx, ly), ownerVelocity))
        invariant forall x', y' :: (0 <= x' < x && 0 <= y' < grid.yCount && occupancyMap[x', y'] == maxProb) ==>
          (matched && !ColumnMajorBefore(lx, ly, x', y'))
      {
        var y := 0;
        while y < grid.yCount
          invariant 0 <= y <= grid.yCount
          invariant !matched ==> lastKnownState == old(lastKnownState)
          invariant matched ==> (0 <= lx < grid.xCount && 0 <= ly < grid.yCount && ColumnMajorBefore(lx, ly, x, y) &&
            occupancyMap[lx, ly] == maxProb && lastKnownState == old(lastKnownState).Set(grid.GetCellPosition(lx, ly), ownerVelocity))
          invariant forall x', y' :: (0 <= x' < grid.xCount && 0 <= y' < grid.yCount && ColumnMajorBefore(x', y', x, y) &&
            occupancyMap[x', y'] == maxProb) ==> (matched && !ColumnMajorBefore(lx, ly, x', y'))
        {
          var value := occupancyMap[x, y];
          if value == maxProb {
            lastKnownState := lastKnownState.Set(grid.GetCellPosition(x, y), ownerVelocity);
            matched, lx, ly := true, x, y;
          }
          y := y + 1;
        }
        x := x + 1;
      }
      if grid.xCount > 0 && grid.yCount > 0 {
        assert matched;
        assert IsLastMax(Snapshot(occupancyMap), grid.xCount, grid.yCount, lx, ly);
      }
    }

    /** The neighbourhood harvest of OccupancyMapDiffuse for cell (x, y): the
        number of exactly traversable cells among its 3x3 neighbours and
        their total mass. The source's in-bounds test inside this loop tests
        (x, y) itself, not the neighbour, so for a cell inside the grid it
        never excludes anything; a neighbour outside the grid is excluded by
        the flags test instead, because it has no flags. */
    method NeighbourhoodMass(x: int, y: int) returns (distroCount: nat, totalProb: real)
      requires Valid()
      ensures grid.IsValidCell(x, y) ==> distroCount == NeighbourCount(grid, x, y, 9)
      ensures grid.IsValidCell(x, y) ==> totalProb == NeighbourTotal(grid, Snapshot(occupancyMap), x, y, 9)
      ensures !grid.IsValidCell(x, y) ==> distroCount == 0 && totalProb == 0.0
    {
      ghost var m := Snapshot(occupancyMap);
      distroCount, totalProb := 0, 0.0;
      var horiz := x - 1;
      while horiz <= x + 1
        invariant x - 1 <= horiz <= x + 2
        invariant Tallied(grid, m, x, y, 3 * (horiz - x + 1), distroCount, totalProb)
      {
        distroCount, totalProb := NeighbourColumn(x, y, horiz - x + 1, m, distroCount, totalProb);
        horiz := horiz + 1;
      }
    }

    /** The inner loop of NeighbourhoodMass: the three neighbours of (x, y) in
        column x - 1 + i, added to the running count and mass. */
    method NeighbourColumn(x: int, y: int, i: int, ghost m: seq<seq<real>>, distroCount: nat, totalProb: real)
      returns (distroCount': nat, totalProb': real)
      requires Valid() && m == Snapshot(occupancyMap) && 0 <= i < 3
      requires Tallied(grid, m, x, y, 3 * i, distroCount, totalProb)
      ensures Tallied(grid, m, x, y, 3 * i + 3, distroCount', totalProb')
    {
      distroCount', totalProb' := distroCount, totalProb;
      var vert := y - 1;
      while vert <= y + 1
        invariant y - 1 <= vert <= y + 2
        invariant Tallied(grid, m, x, y, 3 * i + (vert - y + 1), distroCount', totalProb')
      {
        distroCount', totalProb' := NeighbourCell(x, y, i, vert - y + 1, m, distroCount', totalProb');
        vert := vert + 1;
      }
    }

    /** The body of the vertical loop: neighbour (x - 1 + i, y - 1 + j) is
        counted, and its value added, when the centre cell is on the grid and
        the neighbour's flags are exactly "traversable". */
    method NeighbourCell(x: int, y: int, i: int, j: int, ghost m: seq<seq<real>>, distroCount: nat, totalProb: real)
      returns (distroCount': nat, totalProb': real)
      requires Valid() && m == Snapshot(occupancyMap) && 0 <= i < 3 && 0 <= j < 3
      requires Tallied(grid, m, x, y, 3 * i + j, distroCount, totalProb)
      ensures Tallied(grid, m, x, y, 3 * i + j + 1, distroCount', totalProb')
    {
      TalliedStep(grid, m, x, y, i, j, distroCount, totalProb);
      distroCount', totalProb' := distroCount, totalProb;
      var horiz, vert := x - 1 + i, y - 1 + j;
      if grid.IsValidCell(x, y) {
        var flags2 := grid.GetCellData(horiz, vert);
        if flags2 == CellDataTraversable {
          OnlyTraversableIsValid(grid, horiz, vert);
          distroCount' := distroCount' + 1;
          var harvest := occupancyMap[horiz, vert];
          assert harvest == ValueAt(m, horiz, vert);
          totalProb' := totalProb' + harvest;
        }
      }
    }

    /** Replace the map by a fresh one in which every exactly traversable
        cell holds the mean of its exactly traversable 3x3 neighbours,
        itself included, and every other cell holds 0. */
    method OccupancyMapDiffuse()
      requires Valid()
      modifies this`occupancyMap
      ensures fresh(occupancyMap) && Valid()
      ensures Snapshot(occupancyMap) == Diffused(grid, old(Snapshot(occupancyMap)))
    {
      ghost var m0 := Snapshot(occupancyMap);
      var diffuseMap := new real[grid.xCount, grid.yCount]((x, y) => 0.0);
      var x := 0;
      while x < grid.xCount
        modifies diffuseMap
        invariant 0 <= x <= grid.xCount
        invariant Snapshot(occupancyMap) == m0
        invariant forall x', y' :: 0 <= x' < grid.xCount && 0 <= y' < grid.yCount ==>
          diffuseMap[x', y'] == if x' < x then DiffusedCell(grid, m0, x', y') else 0.0
      {
        var y := 0;
        while y < grid.yCount
          modifies diffuseMap
          invariant 0 <= y <= grid.yCount
          invariant Snapshot(occupancyMap) == m0
          invariant forall x', y' :: 0 <= x' < grid.xCount && 0 <= y' < grid.yCount ==>
            diffuseMap[x', y'] == if ColumnMajorBefore(x', y', x, y) then DiffusedCell(grid, m0, x', y') else 0.0
        {
          var flags := grid.GetCellData(x, y);
          if flags == CellDataTraversable && grid.IsValidCell(x, y) {
            var distroCount, totalProb := NeighbourhoodMass(x, y);
            CentreCounted(grid, x, y);
            diffuseMap[x, y] := totalProb / distroCount as real;
          }
          y := y + 1;
        }
        x := x + 1;
      }
      occupancyMap := diffuseMap;
      SameRect(Snapshot(occupancyMap), Diffused(grid, m0), grid.xCount, grid.yCount);
    }
  }
}
