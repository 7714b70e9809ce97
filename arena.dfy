/** Arena geometry: the entity footprint, the collision reach, the clamp used
    while dragging and the per-axis move-and-bounce of the animation step.
    Coordinates are CSS pixels of the canvas, modelled as reals. */
module Arena {
  /** `ENTITY_SIZE`: the side of every entity's square footprint. */
  const Size: real := 100.0

  /** `ENTITY_SIZE * 0.7`: two entities collide when their centres are
      closer than this. */
  const Reach: real := 70.0

  function Min(a: real, b: real): real { if a <= b then a else b }

  function Max(a: real, b: real): real { if a >= b then a else b }

  function Abs(a: real): real { if a >= 0.0 then a else -a }

  /** `Math.max(0, Math.min(v, hi))`: project a coordinate onto `[0, hi]`.
      When `hi` is negative (an arena narrower than one entity) the result is 0. */
  function ClampInto(v: real, hi: real): (r: real)
    ensures 0.0 <= r
    ensures 0.0 <= hi ==> r <= hi
    ensures 0.0 <= v <= hi ==> r == v
    ensures hi < 0.0 ==> r == 0.0
  {
    Max(0.0, Min(v, hi))
  }

  /** The clamp moves a coordinate no further than necessary: no point of
      `[0, hi]` is closer to `v`. */
  lemma ClampIsNearest(v: real, hi: real, z: real)
    requires 0.0 <= z <= hi
    ensures Abs(ClampInto(v, hi) - v) <= Abs(z - v)
  {
  }

  /** Clamping twice is clamping once. */
  lemma ClampIdempotent(v: real, hi: real)
    ensures ClampInto(ClampInto(v, hi), hi) == ClampInto(v, hi)
  {
  }

  /** Position and velocity along one axis. */
  datatype Motion = Motion(pos: real, vel: real)

  /** A free position `q` on an axis of extent `bound` touches neither wall:
      the footprint lies strictly between 0 and `bound`. */
  predicate Clear(q: real, bound: real) {
    0.0 < q && q + Size < bound
  }

  /** One axis of the move-and-bounce: advance by the velocity, then, if the
      footprint reached or crossed the near wall, put it on that wall and
      reverse; else if it reached or crossed the far wall, put it against
      that wall and reverse. */
  function Bounce(p: real, v: real, bound: real): (r: Motion)
    ensures Clear(p + v, bound) ==> r == Motion(p + v, v)
    ensures !Clear(p + v, bound) ==> r.vel == -v
    ensures p + v <= 0.0 ==> r.pos == 0.0
    ensures Size <= bound ==> 0.0 <= r.pos <= bound - Size
    ensures Size <= bound ==> r.pos == ClampInto(p + v, bound - Size)
  {
    var q := p + v;
    if q <= 0.0 then Motion(0.0, -v)
    else if q + Size >= bound then Motion(bound - Size, -v)
    else Motion(q, v)
  }

  /** The closed footprint of an entity at `(x, y)` contains `(px, py)`. */
  predicate Covers(x: real, y: real, px: real, py: real) {
    px >= x && px <= x + Size && py >= y && py <= y + Size
  }

  /** The centres of footprints at `(x1, y1)` and `(x2, y2)` are closer
      than `Reach`; `Math.hypot(dx, dy) < Reach` is stated on squares. */
  predicate Close(x1: real, y1: real, x2: real, y2: real) {
    var dx := (x1 + Size / 2.0) - (x2 + Size / 2.0);
    var dy := (y1 + Size / 2.0) - (y2 + Size / 2.0);
    dx * dx + dy * dy < Reach * Reach
  }

  /** Closeness is symmetric and ignores the half-size centre offset. */
  lemma CloseSymmetric(x1: real, y1: real, x2: real, y2: real)
    ensures Close(x1, y1, x2, y2) <==> Close(x2, y2, x1, y1)
    ensures Close(x1, y1, x2, y2) <==> (x1 - x2) * (x1 - x2) + (y1 - y2) * (y1 - y2) < 4900.0
  {
  }
}
