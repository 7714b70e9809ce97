/** Manual placement before the start: the hit test that picks the entity
    under the pointer. Later entities are drawn over earlier ones, so the
    search runs from the last entity down. */
module Placement {
  import opened Wrappers
  import opened Arena
  import opened Entities

  /** The closed footprint of e contains the pointer `(px, py)`. */
  predicate Under(e: Entity, px: real, py: real) {
    Covers(e.x, e.y, px, py)
  }

  /** The top-most entity under the pointer: the highest index whose
      footprint contains the pointer, or none when no footprint does. */
  method TopmostAt(a: array<Entity>, px: real, py: real) returns (hit: Option<nat>)
    ensures hit.Some? ==> hit.value < a.Length && Under(a[hit.value], px, py)
    ensures hit.Some? ==> forall k :: hit.value < k < a.Length ==> !Under(a[k], px, py)
    ensures hit.None? ==> forall k :: 0 <= k < a.Length ==> !Under(a[k], px, py)
  {
    var i := a.Length - 1;
    while i >= 0
      invariant -1 <= i < a.Length
      invariant forall k :: i < k < a.Length ==> !Under(a[k], px, py)
    {
      if Under(a[i], px, py) {
        return Some(i);
      }
      i := i - 1;
    }
    return None;
  }
}
