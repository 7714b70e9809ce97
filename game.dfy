/** The game component's state for one session: the entity store, the
    `startedRef` and `winnerFoundRef` flags with the displayed winner, the
    image-loading gate, the frame scheduling, and the drag state of manual
    placement. Each method is one of the component's handlers or callbacks;
    the canvas's displayed size and the pointer position, already in arena
    coordinates, are passed in. */
module Game {
  import opened Wrappers
  import opened Rules
  import opened Arena
  import opened Entities
  import opened Step
  import opened Placement
  import Lifecycle

  /** A new store as `createEntities` builds it, in a fresh array. */
  method NewStore() returns (a: array<Entity>)
    ensures fresh(a) && a.Length == StoreSize
    ensures forall i :: 0 <= i < a.Length ==> a[i] == Blank(AllKinds[i / PerKind])
  {
    var es := CreateEntities();
    a := new Entity[|es|](i requires 0 <= i < |es| => es[i]);
  }

  class Battle {
    var entities: array<Entity>
    /** `startedRef` */
    var started: bool
    /** `winnerFoundRef` */
    var winnerFound: bool
    /** The winner shown on the overlay. */
    var winner: Option<Kind>
    /** `loadedCount` */
    var loaded: nat
    /** The animation is prepared: `startAnimationRef` holds this session's starter. */
    var prepared: bool
    /** `animationFrameId` has been assigned: a next frame was requested. */
    var scheduled: bool
    /** A frame has run in this session. */
    ghost var launched: bool
    /** `isDragging`, `dragIndex`, `dragOffsetX`, `dragOffsetY` */
    var dragging: bool
    var dragIndex: int
    var dragOffsetX: real
    var dragOffsetY: real

    ghost function Phase(): Lifecycle.Gates
      reads this
    {
      Lifecycle.Gates(started, loaded, prepared, launched)
    }

    ghost function DragState(): (bool, int, real, real)
      reads this
    {
      (dragging, dragIndex, dragOffsetX, dragOffsetY)
    }

    /** The invariant every handler keeps, apart from the lost-start rule. */
    ghost predicate Sound()
      reads this, entities
    {
      && entities.Length == StoreSize
      && Lifecycle.Consistent(Phase())
      && (scheduled ==> launched)
      && (winnerFound ==> launched)
      && (winnerFound <==> winner.Some?)
      && (winner.Some? ==> forall i :: 0 <= i < entities.Length ==> entities[i].kind == winner.value)
      && (dragging ==> 0 <= dragIndex < entities.Length)
      && (!dragging ==> dragIndex == -1)
    }

    /** The full invariant: also, a pressed Start is never lost. */
    ghost predicate Valid()
      reads this, entities
    {
      Sound() && Lifecycle.Honoured(Phase())
    }

    /** Mounting the component: a fresh store, nothing loaded, nothing started. */
    constructor ()
      ensures Valid() && fresh(entities)
      ensures Phase() == Lifecycle.Mounted
      ensures !winnerFound && winner == None && !scheduled && !dragging
      ensures forall i :: 0 <= i < entities.Length ==> entities[i] == Blank(AllKinds[i / PerKind])
    {
      var store := NewStore();
      entities := store;
      started, winnerFound, winner := false, false, None;
      loaded, prepared, scheduled, launched := 0, false, false, false;
      dragging, dragIndex, dragOffsetX, dragOffsetY := false, -1, 0.0, 0.0;
    }

    /** `handleReset` with the remount it triggers: the flags and the winner
        are cleared, and the session starts over with a fresh store, no
        image loaded, no frame pending and no drag. */
    method Reset()
      modifies this
      ensures Valid() && fresh(entities)
      ensures Phase() == Lifecycle.Mounted
      ensures !winnerFound && winner == None && !scheduled && !dragging
      ensures forall i :: 0 <= i < entities.Length ==> entities[i] == Blank(AllKinds[i / PerKind])
    {
      started, winnerFound, winner := false, false, None;
      entities := NewStore();
      loaded, prepared, scheduled, launched := 0, false, false, false;
      dragging, dragIndex, dragOffsetX, dragOffsetY := false, -1, 0.0, 0.0;
    }

    /** `animate`: move and bounce every entity inside the current arena,
        resolve collisions pair by pair, then, unless a winner was already
        recorded, record the winner when one kind remains and stop; in every
        other case request one more frame. */
    method Tick(width: real, height: real) returns (more: bool)
      requires Sound() && started && prepared
      modifies this, entities
      ensures Sound() && launched && entities == old(entities)
      ensures entities[..] == Collided(Moved(old(entities[..]), width, height))
      ensures Size <= width && Size <= height ==> Inside(entities[..], width, height)
      ensures forall i :: 0 <= i < entities.Length ==>
                Abs(entities[i].vx) == Abs(old(entities[i].vx)) && Abs(entities[i].vy) == Abs(old(entities[i].vy))
      ensures !old(winnerFound) ==> (winnerFound <==> AllSame(entities[..])) && (more <==> !winnerFound)
      ensures !old(winnerFound) && winnerFound ==> winner == Some(entities[0].kind)
      ensures old(winnerFound) ==> winnerFound && winner == old(winner) && more
      ensures scheduled == (old(scheduled) || more)
      ensures started && loaded == old(loaded) && prepared == old(prepared)
      ensures DragState() == old(DragState())
    {
      ghost var s0 := entities[..];
      MoveAll(entities, width, height);
      CollideAll(entities);
      launched := true;
      FrameKeepsMotionBounds(s0, width, height);
      if winnerFound {
        FrameKeepsSoleKind(s0, width, height, winner.value);
      }
      more := Settle();
    }

    /** The termination check at the end of `animate`: when exactly one kind
        is present and no winner was recorded yet, record it and request no
        further frame; otherwise request one. */
    method Settle() returns (more: bool)
      requires Sound() && launched
      modifies this`winnerFound, this`winner, this`scheduled
      ensures Sound()
      ensures !old(winnerFound) ==> (winnerFound <==> AllSame(entities[..])) && (more <==> !winnerFound)
      ensures !old(winnerFound) && winnerFound ==> winner == Some(entities[0].kind)
      ensures old(winnerFound) ==> winnerFound && winner == old(winner) && more
      ensures scheduled == (old(scheduled) || more)
    {
      SingleKind(entities[..]);
      var kinds := KindSet(entities[..]);
      if |kinds| == 1 && !winnerFound {
        winnerFound := true;
        var only :| only in kinds;
        winner := Some(only);
        more := false;
      } else {
        scheduled := true;
        more := true;
      }
    }

    /** `handleStart`: refused once started; otherwise marks the game started
        and, if the animation is prepared and no frame was requested yet,
        runs the first frame. */
    method Start(width: real, height: real)
      requires Valid()
      modifies this, entities
      ensures Valid() && entities == old(entities)
      ensures Phase() == Lifecycle.PressStart(old(Phase()))
      ensures old(started) || !old(prepared) ==>
                entities[..] == old(entities[..]) && winner == old(winner) && scheduled == old(scheduled)
      ensures !old(started) && old(prepared) ==>
                && entities[..] == Collided(Moved(old(entities[..]), width, height))
                && (winnerFound <==> AllSame(entities[..]))
                && (winnerFound ==> winner == Some(entities[0].kind))
                && (scheduled <==> !winnerFound)
      ensures DragState() == old(DragState())
    {
      if started {
        return;
      }
      started := true;
      if prepared && !scheduled {
        var _ := Tick(width, height);
      }
    }

    /** One image's `onload` and `tryStartAnimation`: count the image; when
        it is the last one, scatter the store and prepare the animation, and
        (corrected) run the first frame if Start was already pressed. */
    method ImageLoaded(width: real, height: real, draws: seq<Draw>)
      requires Valid() && loaded < StoreSize
      requires |draws| == StoreSize && forall k :: 0 <= k < |draws| ==> ValidDraw(draws[k])
      modifies this, entities
      ensures Valid() && entities == old(entities)
      ensures Phase() == Lifecycle.ImageLoaded(old(Phase()))
      ensures loaded < StoreSize ==>
                entities[..] == old(entities[..]) && !prepared && winner == old(winner) && scheduled == old(scheduled)
      ensures loaded == StoreSize && !started ==>
                && entities[..] == Scattered(old(entities[..]), draws, width, height)
                && winner == None && !scheduled
      ensures loaded == StoreSize && started ==>
                && entities[..] == Collided(Moved(Scattered(old(entities[..]), draws, width, height), width, height))
                && (winnerFound <==> AllSame(entities[..]))
                && (winnerFound ==> winner == Some(entities[0].kind))
                && (scheduled <==> !winnerFound)
      ensures DragState() == old(DragState())
    {
      loaded := loaded + 1;
      if loaded < StoreSize {
        return;
      }
      Randomize(entities, draws, width, height);
      prepared := true;
      if started && !scheduled {
        var _ := Tick(width, height);
      }
    }

    /** `handlePointerDown`: refused once started or once a winner exists;
        otherwise start dragging the top-most entity under the pointer, if
        any, remembering where on it the pointer grabbed it. */
    method PointerDown(px: real, py: real)
      requires Valid()
      modifies this`dragging, this`dragIndex, this`dragOffsetX, this`dragOffsetY
      ensures Valid()
      ensures started || winnerFound ==> DragState() == old(DragState())
      ensures !started && !winnerFound && (forall k :: 0 <= k < entities.Length ==> !Under(entities[k], px, py)) ==>
                DragState() == old(DragState())
      ensures !started && !winnerFound && (exists k :: 0 <= k < entities.Length && Under(entities[k], px, py)) ==>
                && dragging && Under(entities[dragIndex], px, py)
                && (forall k :: dragIndex < k < entities.Length ==> !Under(entities[k], px, py))
                && dragOffsetX == px - entities[dragIndex].x && dragOffsetY == py - entities[dragIndex].y
    {
      if started || winnerFound {
        return;
      }
      var hit := TopmostAt(entities, px, py);
      if hit.Some? {
        var e := entities[hit.value];
        dragging := true;
        dragIndex := hit.value;
        dragOffsetX := px - e.x;
        dragOffsetY := py - e.y;
      }
    }

    /** `handlePointerMove` while dragging: the dragged entity follows the
        pointer, keeping the grab offset, clamped into the arena. Without a
        drag only the hover cursor changes, which is not state. */
    method PointerMove(px: real, py: real, width: real, height: real)
      requires Valid()
      modifies entities
      ensures Valid()
      ensures !dragging ==> entities[..] == old(entities[..])
      ensures dragging ==> entities[..] == old(entities[..])[dragIndex := old(entities[dragIndex]).(
                x := ClampInto(px - dragOffsetX, width - Size), y := ClampInto(py - dragOffsetY, height - Size))]
      ensures dragging ==> 0.0 <= entities[dragIndex].x && 0.0 <= entities[dragIndex].y
      ensures dragging && Size <= width ==> entities[dragIndex].x <= width - Size
      ensures dragging && Size <= height ==> entities[dragIndex].y <= height - Size
      ensures dragging && 0.0 <= px - dragOffsetX <= width - Size ==> px - entities[dragIndex].x == dragOffsetX
      ensures dragging && 0.0 <= py - dragOffsetY <= height - Size ==> py - entities[dragIndex].y == dragOffsetY
    {
      if dragging {
        var e := entities[dragIndex];
        var nextX := ClampInto(px - dragOffsetX, width - Size);
        var nextY := ClampInto(py - dragOffsetY, height - Size);
        entities[dragIndex] := e.(x := nextX, y := nextY);
      }
    }

    /** `stopDragging`: clear the drag, whatever its state; doing it twice is
        doing it once. */
    method StopDragging()
      requires Valid()
      modifies this`dragging, this`dragIndex
      ensures Valid() && !dragging && dragIndex == -1
    {
      dragging := false;
      dragIndex := -1;
    }

    /** `handlePointerUp` and `handlePointerLeave` (also touch end and cancel):
        end the drag if there is one. */
    method PointerUp()
      requires Valid()
      modifies this`dragging, this`dragIndex
      ensures Valid() && !dragging && dragIndex == -1
    {
      if !dragging {
        return;
      }
      StopDragging();
    }
  }
}
