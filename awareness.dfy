/** The values the perception layer trades in: what an observer knows about a
    target (FTargetData), the target's last-known cache (FTargetCache) and its
    discrete state, the per-tick awareness step, and the target's state
    machine as a function of the previous cache. */
module Awareness {
  import opened Grid

  /** FGuid: a target's stable identifier. */
  type Guid = nat

  /** EGATargetState. */
  datatype TargetState = Unknown | Hidden | Immediate

  /** FTargetCache: the state, a position and a heading- or velocity-like vector. */
  datatype TargetCache = TargetCache(state: TargetState, position: Vec3, velocity: Vec3)
  {
    /** FTargetCache::Set: refresh position and velocity; the state is kept. */
    function Set(newPosition: Vec3, newVelocity: Vec3): (c: TargetCache)
      ensures c.state == state && c.position == newPosition && c.velocity == newVelocity
    {
      this.(position := newPosition, velocity := newVelocity)
    }
  }

  const DefaultCache: TargetCache := TargetCache(Unknown, Origin, Origin)

  /** FTargetData: whether the observer has a clear line of sight to the
      target this tick, and its awareness of it in [0, 1]. */
  datatype TargetData = TargetData(clearLos: bool, awareness: real)

  /** A default-constructed FTargetData. */
  const DefaultTargetData: TargetData := TargetData(false, 0.0)

  /** FGAVisionParameters: the full cone angle in degrees and the range. */
  datatype VisionParameters = VisionParameters(visionAngle: real, visionDistance: real)

  const DefaultVision: VisionParameters := VisionParameters(90.0, 8000.0)

  /** What an observer measures of a target in one tick: the angle in degrees
      between its forward vector and the direction to the target, the
      distance to the target, and whether a ray cast towards it would hit
      something. */
  datatype Sighting = Sighting(angleDegrees: real, distance: real, rayHit: bool)

  /** The amount awareness rises or falls per tick. */
  const AwarenessStep: real := 0.1

  /** FMath::Clamp. */
  function Clamp(v: real, lo: real, hi: real): (r: real)
    requires lo <= hi
    ensures lo <= r <= hi
    ensures lo <= v <= hi ==> r == v
    ensures v < lo ==> r == lo
    ensures hi < v ==> r == hi
  {
    if v < lo then lo else if hi < v then hi else v
  }

  /** The target lies inside the vision cone: within half the cone angle of
      the forward vector and within the vision distance. */
  predicate WithinVisionCone(vision: VisionParameters, s: Sighting)
  {
    s.angleDegrees <= vision.visionAngle / 2.0 && s.distance <= vision.visionDistance
  }

  /** bClearLos: inside the cone and the ray reaches the target unobstructed. */
  function ClearLos(vision: VisionParameters, s: Sighting): (clear: bool)
    ensures clear <==> WithinVisionCone(vision, s) && !s.rayHit
  {
    if WithinVisionCone(vision, s) then !s.rayHit else false
  }

  /** One tick of awareness: up by a step with line of sight, down by a step
      without, clamped to [0, 1]. */
  function NextAwareness(awareness: real, clearLos: bool): (r: real)
    ensures 0.0 <= r <= 1.0
    ensures clearLos && 0.0 <= awareness ==> r == if awareness + AwarenessStep < 1.0 then awareness + AwarenessStep else 1.0
    ensures !clearLos && awareness <= 1.0 ==> r == if awareness - AwarenessStep > 0.0 then awareness - AwarenessStep else 0.0
  {
    Clamp(if clearLos then awareness + AwarenessStep else awareness - AwarenessStep, 0.0, 1.0)
  }

  /** The record an observer keeps after one tick of looking at the target. */
  function TickData(d: TargetData, clearLos: bool): (r: TargetData)
    ensures r.clearLos == clearLos
    ensures 0.0 <= r.awareness <= 1.0
  {
    TargetData(clearLos, NextAwareness(d.awareness, clearLos))
  }

  /** Line of sight never lowers awareness and its absence never raises it. */
  lemma AwarenessMonotone(awareness: real, clearLos: bool)
    requires 0.0 <= awareness <= 1.0
    ensures clearLos ==> NextAwareness(awareness, clearLos) >= awareness
    ensures !clearLos ==> NextAwareness(awareness, clearLos) <= awareness
  {
  }

  /** Awareness after a run of ticks with the given lines of sight, first tick first. */
  function AwarenessAfter(awareness: real, los: seq<bool>): real
    decreases |los|
  {
    if los == [] then awareness else AwarenessAfter(NextAwareness(awareness, los[0]), los[1..])
  }

  /** Awareness stays in [0, 1] over any run of ticks. */
  lemma {:induction false} AwarenessAfterInRange(awareness: real, los: seq<bool>)
    requires 0.0 <= awareness <= 1.0
    ensures 0.0 <= AwarenessAfter(awareness, los) <= 1.0
    decreases |los|
  {
    if los != [] {
      AwarenessAfterInRange(NextAwareness(awareness, los[0]), los[1..]);
    }
  }

  /** n uninterrupted ticks with line of sight raise awareness by n steps,
      up to 1. */
  lemma {:induction false} ClearRunRaises(awareness: real, n: nat)
    requires 0.0 <= awareness <= 1.0
    ensures AwarenessAfter(awareness, seq(n, _ => true)) ==
      if awareness + n as real * AwarenessStep < 1.0 then awareness + n as real * AwarenessStep else 1.0
    decreases n
  {
    if n > 0 {
      var next := NextAwareness(awareness, true);
      assert seq(n, _ => true)[1..] == seq(n - 1, _ => true);
      ClearRunRaises(next, n - 1);
    }
  }

  /** n uninterrupted ticks without line of sight lower awareness by n steps,
      down to 0. */
  lemma {:induction false} BlockedRunLowers(awareness: real, n: nat)
    requires 0.0 <= awareness <= 1.0
    ensures AwarenessAfter(awareness, seq(n, _ => false)) ==
      if awareness - n as real * AwarenessStep > 0.0 then awareness - n as real * AwarenessStep else 0.0
    decreases n
  {
    if n > 0 {
      var next := NextAwareness(awareness, false);
      assert seq(n, _ => false)[1..] == seq(n - 1, _ => false);
      BlockedRunLowers(next, n - 1);
    }
  }

  /** From any awareness, ten ticks in direct sight make an observer fully
      aware, and ten ticks out of sight make it entirely unaware. */
  lemma TenTicksSaturate(awareness: real)
    requires 0.0 <= awareness <= 1.0
    ensures AwarenessAfter(awareness, seq(10, _ => true)) == 1.0
    ensures AwarenessAfter(awareness, seq(10, _ => false)) == 0.0
  {
    ClearRunRaises(awareness, 10);
    BlockedRunLowers(awareness, 10);
  }

  /** IsKnown: the target has been seen at least once. */
  predicate Known(c: TargetCache)
  {
    c.state != Unknown
  }

  /** The state machine of UGATargetComponent::TickComponent. When some
      observer is fully aware, the target is Immediate at the owner's true
      location and heading; otherwise a known target turns Hidden with its
      last position and heading frozen, and an unknown one stays as it is. */
  function NextCache(cache: TargetCache, isImmediate: bool, ownerLocation: Vec3, ownerForward: Vec3): (r: TargetCache)
    ensures r.state == Immediate <==> isImmediate
    ensures isImmediate ==> r.position == ownerLocation && r.velocity == ownerForward
    ensures !isImmediate ==> r.position == cache.position && r.velocity == cache.velocity
    ensures !isImmediate ==> (r.state == Hidden <==> Known(cache))
  {
    if isImmediate then cache.(state := Immediate).Set(ownerLocation, ownerForward)
    else if Known(cache) then cache.(state := Hidden)
    else cache
  }

  /** The only transitions are into Immediate, from Immediate to Hidden, and
      staying put; in particular nothing returns to Unknown once known. */
  lemma TransitionsAllowed(cache: TargetCache, isImmediate: bool, ownerLocation: Vec3, ownerForward: Vec3)
    ensures var next := NextCache(cache, isImmediate, ownerLocation, ownerForward).state;
      next == Immediate || next == cache.state || (cache.state == Immediate && next == Hidden)
    ensures Known(cache) ==> Known(NextCache(cache, isImmediate, ownerLocation, ownerForward))
  {
  }

  /** One tick of the target: whether some observer was fully aware, and the
      owner's location and forward vector at that tick. */
  datatype Tick = Tick(isImmediate: bool, ownerLocation: Vec3, ownerForward: Vec3)

  /** The cache after a run of ticks, first tick first. */
  function CacheAfter(cache: TargetCache, ticks: seq<Tick>): TargetCache
    decreases |ticks|
  {
    if ticks == [] then cache
    else CacheAfter(NextCache(cache, ticks[0].isImmediate, ticks[0].ownerLocation, ticks[0].ownerForward), ticks[1..])
  }

  /** Known-ness persists over any run of ticks. */
  lemma {:induction false} KnownStaysKnown(cache: TargetCache, ticks: seq<Tick>)
    requires Known(cache)
    ensures Known(CacheAfter(cache, ticks))
    decreases |ticks|
  {
    if ticks != [] {
      var t := ticks[0];
      TransitionsAllowed(cache, t.isImmediate, t.ownerLocation, t.ownerForward);
      KnownStaysKnown(NextCache(cache, t.isImmediate, t.ownerLocation, t.ownerForward), ticks[1..]);
    }
  }

  /** A target stays Unknown exactly as long as no observer has been fully
      aware of it. */
  lemma {:induction false} UnknownUntilImmediate(cache: TargetCache, ticks: seq<Tick>)
    requires !Known(cache)
    ensures !Known(CacheAfter(cache, ticks)) <==> forall k :: 0 <= k < |ticks| ==> !ticks[k].isImmediate
    decreases |ticks|
  {
    if ticks != [] {
      var t := ticks[0];
      var next := NextCache(cache, t.isImmediate, t.ownerLocation, t.ownerForward);
      if t.isImmediate {
        KnownStaysKnown(next, ticks[1..]);
      } else {
        assert next == cache;
        UnknownUntilImmediate(next, ticks[1..]);
        assert forall k :: 1 <= k < |ticks| ==> ticks[k] == ticks[1..][k - 1];
      }
    }
  }
}
