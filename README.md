# Rock-Paper-Scissors-Lizard-Spock battle: a verified Dafny model

This project models the battle simulation of the game page
(`src/pages/game/Game.jsx`). Fifty entities, ten of each type, move inside
the canvas and bounce off its walls. When two of them meet, the loser takes
the winner's type, following the `beats` table. The game ends when one type
is left. Before the start, the player may drag entities to new positions.
Nothing starts until all fifty entity images have loaded.

Modules, one per component of the page's logic:

- `Rules` (`rules.dfy`): the five types, the `beats` table and
  `getWinnerName`. Proved here: the table is a tournament, and the winner
  of a meeting is defined exactly when the two types differ.
- `Arena` (`arena.dfy`): the entity size (100), the collision reach (70),
  the drag clamp, the move-and-bounce of one axis, and the footprint and
  closeness predicates.
- `Entities` (`entities.dfy`): the entity record, `createEntities`, per-type
  counts and the random scatter done once loading completes.
- `Step` (`step.dfy`): the two in-place loops of `animate` (move, then
  collide). Each is a method over the store's array and is specified by a
  function on the store's contents. The lemmas cover containment, motion,
  conservation and kinds.
- `Placement` (`placement.dfy`): the top-most hit test of pointer-down.
- `Lifecycle` (`lifecycle.dfy`): the start and loading gates as pure
  transitions, the as-written loading gate and its correction (see
  Findings).
- `Game` (`game.dfy`): class `Battle`, the state one session of the
  component holds. Its methods are the component's handlers and callbacks:
  `Tick` is one `animate` frame, `Start` is `handleStart`, `ImageLoaded` is
  one image's `onload`, the `Pointer*` methods handle pointer events, and
  `Reset` is `handleReset` with the remount it triggers.

Positions and velocities are Dafny `real`s. This idealises JavaScript
numbers: there is no rounding. `Math.hypot(dx, dy) < 70` is stated as
`dx*dx + dy*dy < 70*70`, which is the same test over the reals. An entity's
image source and loaded image are determined by its type. The code always
copies them together with the type, so the model stores only the type.

In three places the code behaves differently from what a reader might
expect. The model follows the code in each:

- Entities are scattered when the last image loads, not when Start is
  pressed (`Game.Battle.ImageLoaded`).
- A frame that runs after a winner was recorded still moves the entities
  and requests another frame. The guard on `winnerFoundRef` only keeps it
  from recording the winner twice (`Game.Battle.Tick`, `Game.Battle.Settle`).
  No handler of the page calls a frame in that state.
- A drag in progress follows the pointer without checking whether the game
  has started. Only pointer-down is refused once started
  (`Game.Battle.PointerMove`).

## Model

| member | source | states |
|---|---|---|
| `Rules.Name` | src/pages/game/Game.jsx:55-61 | every type's name is non-empty, so the winner found at the end is always shown |
| `Rules.NamesIdentifyKinds` | src/pages/game/Game.jsx:270 | two names are equal exactly when the types are, so comparing names with `===` is comparing types |
| `Rules.AllKindsComplete` | src/pages/game/Game.jsx:55-61 | the five base types list every type |
| `Rules.Beaten` | src/pages/game/Game.jsx:261-267 | each row of `beats` lists two distinct types, never the type itself |
| `Rules.WinnerName` | src/pages/game/Game.jsx:269-274 | the result is null exactly for equal types; it is `a` exactly when `a` beats `b`, and `b` exactly when `b` beats `a` (so the final `null` is unreachable) |
| `Rules.Tournament` | src/pages/game/Game.jsx:261-267 | no type beats itself, no two types beat each other, and of two distinct types one beats the other |
| `Rules.BeatsTwo` | src/pages/game/Game.jsx:261-267 | every type beats exactly two types |
| `Rules.LosesToTwo` | src/pages/game/Game.jsx:261-267 | every type loses to exactly two types, and those are not the ones it beats |
| `Rules.WinnerSymmetric` | src/pages/game/Game.jsx:269-274 | the winner does not depend on the order of the two arguments and is one of them |
| `Arena.ClampInto` | src/pages/game/Game.jsx:171-172 | the clamped coordinate is at least 0 and at most `hi` when `hi >= 0`; a coordinate already inside is kept; a negative `hi` gives 0 |
| `Arena.ClampIsNearest` | src/pages/game/Game.jsx:171-172 | no point of `[0, hi]` is closer to the pointer target than the clamped one |
| `Arena.ClampIdempotent` | src/pages/game/Game.jsx:171-172 | clamping twice is clamping once |
| `Arena.Bounce` | src/pages/game/Game.jsx:293-313 | an axis whose new footprint touches no wall keeps the moved position and the velocity; otherwise the velocity is reversed, and a position at or below 0 becomes 0. With an arena at least one entity wide, the position ends in `[0, bound-100]` and equals the drag clamp of the moved position |
| `Arena.CloseSymmetric` | src/pages/game/Game.jsx:328-339 | collision closeness is symmetric, and testing centres is testing corners (`dx^2 + dy^2 < 4900`) |
| `Entities.CreateEntities` | src/pages/game/Game.jsx:54-80 | exactly 50 entities; entity `i` has the `(i / 10)`-th type of rock, paper, scissors, lizard, spock and is at the origin, at rest |
| `Entities.InitialCounts` | src/pages/game/Game.jsx:65-77 | a created store holds exactly ten entities of every type |
| `Entities.CountsSum` | src/pages/game/Game.jsx:367 | the per-type counts of any store add up to its size |
| `Entities.SingleKind` | src/pages/game/Game.jsx:367-368 | for a non-empty store, the set of names has size 1 exactly when all entities share a type, and that type is then its only member |
| `Entities.Scatter` | src/pages/game/Game.jsx:244-254 | the type is kept; when the arena is at least one entity wide and high, the position is inside it; the speed lies in [1.5, 3) |
| `Entities.ScatteredInside` | src/pages/game/Game.jsx:239-255 | after the scatter every footprint is inside the arena, every type is kept, and every speed lies in [1.5, 3) |
| `Entities.Randomize` | src/pages/game/Game.jsx:239-255 | with zero width or height the store is unchanged; otherwise every entity is scattered with its own draw |
| `Step.Move` | src/pages/game/Game.jsx:290-320 | the type is kept; both coordinates end inside an arena at least one entity wide and high; each velocity component keeps its magnitude, and so does the speed |
| `Step.MovedInside` | src/pages/game/Game.jsx:290-320 | after the move loop every footprint lies inside an arena at least one entity wide and high, whatever the positions before |
| `Step.MoveAll` | src/pages/game/Game.jsx:290-320 | the in-place move loop leaves every entity moved and bounced, as the move specification says |
| `Step.ResolvePair` | src/pages/game/Game.jsx:325-353 | a pair that is out of reach or of the same type is left alone; otherwise the loser under `beats` takes the winner's type and the winner is untouched; no other entity changes; no position or velocity changes |
| `Step.CollideFrom` | src/pages/game/Game.jsx:323-355 | the pass over the remaining pairs keeps the store's length and every position and velocity |
| `Step.CollideAll` | src/pages/game/Game.jsx:323-355 | the in-place nested loops give exactly the ascending-pair pass, each pair seeing the conversions made before it |
| `Step.ResolveKeepsKinds` | src/pages/game/Game.jsx:339-352 | one pair's visit introduces no type that was absent |
| `Step.CollideKeepsKinds` | src/pages/game/Game.jsx:323-355 | the collision pass only removes types: a type absent before it is absent after it |
| `Step.CollideSameKind` | src/pages/game/Game.jsx:323-355 | a store of one type goes through the collision pass unchanged |
| `Step.IsolatedKeepsKind` | src/pages/game/Game.jsx:323-355 | an entity within reach of no other entity keeps its type through the whole pass |
| `Step.CollidePopulation` | src/pages/game/Game.jsx:323-355 | the pass keeps the store size, and the per-type counts still add up to it |
| `Step.FrameKeepsMotionBounds` | src/pages/game/Game.jsx:289-355 | after one frame's move and collision loops the size is kept, every footprint is inside an arena at least one entity wide and high, and every velocity component keeps its magnitude |
| `Step.FrameKeepsSoleKind` | src/pages/game/Game.jsx:289-355 | a frame over a store of one type only moves it, and every entity keeps that type |
| `Step.RockConvertsScissors` | src/pages/game/Game.jsx:339-346 | a rock and a scissors whose centres are 30 apart: the scissors becomes a rock, and motion is kept |
| `Step.SameKindIsInert` | src/pages/game/Game.jsx:339-353 | two overlapping rocks both stay rocks |
| `Step.ConversionsVisibleToLaterPairs` | src/pages/game/Game.jsx:323-355 | rock, scissors and paper at one spot all end as paper, because pair (1, 2) sees index 1 already converted to rock |
| `Step.BounceOffRightWall` | src/pages/game/Game.jsx:301-304 | an entity 0.5 short of the right wall moving right at 2 ends against the wall moving left at 2, while its vertical motion is unaffected |
| `Placement.TopmostAt` | src/pages/game/Game.jsx:138-155 | the result is the highest index whose closed footprint contains the pointer, or none exactly when no footprint contains it |
| `Lifecycle.PressStart` | src/pages/game/Game.jsx:414-421 | Start sets the started flag; it is refused once started; it keeps the gates consistent and does not lose a start |
| `Lifecycle.ImageLoadedAsWritten` | src/pages/game/Game.jsx:381-395 | as written, a load counts the image and prepares the animation at the fiftieth, but never runs a frame |
| `Lifecycle.ImageLoaded` | src/pages/game/Game.jsx:381-395 | corrected: a load counts the image, prepares the animation at the fiftieth, and then a pressed Start is honoured |
| `Lifecycle.LoadsAsWritten` | src/pages/game/Game.jsx:392-395 | k further loads, as written, add k to the count and do not touch the started flag |
| `Lifecycle.Loads` | src/pages/game/Game.jsx:392-395 | k further loads, corrected, add k to the count and do not touch the started flag |
| `Lifecycle.LoadsAsWrittenKeepLaunch` | src/pages/game/Game.jsx:381-395 | as written, loads never run a frame that had not run before |
| `Lifecycle.LoadsHonour` | src/pages/game/Game.jsx:381-395 | corrected, loads keep the gates consistent and never lose a pressed Start |
| `Lifecycle.StartBeforeLastImageIsLost` | src/pages/game/Game.jsx:414-421 | as written, Start pressed after fewer than 50 loads leaves the game started and prepared, with no frame ever run, and every later Start is refused |
| `Lifecycle.StartAlwaysHonoured` | src/pages/game/Game.jsx:414-421 | corrected, Start pressed after any number of loads leads to the first frame once all 50 images have loaded |
| `Lifecycle.StartOnce` | src/pages/game/Game.jsx:414-416 | a second Start changes nothing |
| `Game.NewStore` | src/pages/game/Game.jsx:82 | a fresh array of 50 entities as `createEntities` lays them out |
| `Game.Battle.constructor` | src/pages/game/Game.jsx:82-106 | mount: a fresh store, no image loaded, not started, no winner, no frame pending, no drag |
| `Game.Battle.Reset` | src/pages/game/Game.jsx:423-440 | from any state: the started and winner flags are cleared, no winner is shown, and the session restarts with a fresh store, no image loaded, no frame pending and no drag |
| `Game.Battle.Tick` | src/pages/game/Game.jsx:283-378 | the store becomes the collision pass of the moved store; footprints end inside an arena at least one entity wide and high; velocity magnitudes are kept. Without an earlier winner, a winner is recorded exactly when all 50 share a type, it is that type, and a next frame is requested exactly when none was recorded. With an earlier winner, a next frame is requested. The invariant that a recorded winner's type is every entity's type is kept |
| `Game.Battle.Settle` | src/pages/game/Game.jsx:366-377 | the termination check records the winner exactly when one type is left and none was recorded yet, and requests a further frame exactly when it records none |
| `Game.Battle.Start` | src/pages/game/Game.jsx:414-421 | refused once started; otherwise the game is started, and if the animation is prepared the first frame runs: a winner is recorded exactly when all 50 share a type, it is that type, and a next frame is pending exactly when none was recorded |
| `Game.Battle.ImageLoaded` | src/pages/game/Game.jsx:388-395 | the gates advance as the corrected `Lifecycle.ImageLoaded`. Before the fiftieth load nothing else changes. At the fiftieth the store is scattered; with no Start pressed, no winner is shown and no frame is pending; if Start was already pressed, the first frame runs on it, a winner is recorded exactly when all 50 share a type, it is that type, and a next frame is pending exactly when none was recorded |
| `Game.Battle.PointerDown` | src/pages/game/Game.jsx:133-156 | refused once started or once a winner exists. Otherwise, if some footprint contains the pointer, dragging starts on the top-most such entity, with offset `pointer - position`. Otherwise nothing changes |
| `Game.Battle.PointerMove` | src/pages/game/Game.jsx:158-180 | while dragging, only the dragged entity's position changes, to the clamp of `pointer - offset`. That position is `>= 0`, and `<= size - 100` for an arena at least one entity wide. It keeps the grab offset when no clamping is needed. Without a drag nothing changes |
| `Game.Battle.StopDragging` | src/pages/game/Game.jsx:204-212 | the drag is cleared whatever its state, so a second call changes nothing |
| `Game.Battle.PointerUp` | src/pages/game/Game.jsx:214-222 | pointer-up or pointer-leave ends any drag |

## Left out

- React wiring (`useState`, `useRef`, `useEffect`, `useMemo`, the markup, the reset token) is framework code. Only the values its refs and state carry are modelled, as fields of `Game.Battle`.
- Canvas work is rendering I/O and is left out: `resizeCanvasToDisplaySize` with its device-pixel-ratio rounding, `drawFrame`, and every `clearRect` and `drawImage`. The canvas's displayed size is a parameter of each method that reads it.
- Pointer and touch events come in already in arena coordinates. Event-listener registration, `getPointerPosition`, `preventDefault` and cursor styling are DOM plumbing. This includes the hover-cursor search of pointer-move, which changes only the cursor.
- `requestAnimationFrame` and `cancelAnimationFrame` are host scheduling. A request becomes `Tick`'s `more` result and the `scheduled` flag. Cancelling on reset becomes `Reset` clearing the session.
- Image loading is asynchronous host work. Each `onload` becomes one `ImageLoaded` call, at most fifty per session. Load failure is not modelled.
- `Math.random`, `Math.cos` and `Math.sin` are randomness and trigonometry. Their values are an input `Draw` per entity: fractions in [0, 1), and a cosine and sine whose squares add to 1.
- `Math.hypot` and all arithmetic are exact over the reals. IEEE-754 rounding is not modelled, and neither are NaN or infinite canvas sizes.
- The `startAnimationRef` ref outlives a reset and still holds the previous session's starter until the new images load. The model clears `prepared` on reset. It does not model calling that stale starter.
- The confetti overlay is random and decorative. `src/App.jsx` is a static gallery. Neither is modelled.
- `Game.Battle.ImageLoaded`: runs the first frame when the last image loads after Start was pressed. This is the corrected behaviour, which the code lacks (see Findings).

## Findings

| source | as written | input that shows it | evidently intended | confidence | as-written member | corrected member |
|---|---|---|---|---|---|---|
| src/pages/game/Game.jsx:381-395 | the last image's load only installs the starter in `startAnimationRef` and never calls it; `handleStart` has already set `startedRef`, so it refuses every later press | press Start after k < 50 images have loaded (say none), then let the other images load: the game is started and prepared, but no frame ever runs and Start stays refused | a Start pressed before loading completes runs the animation once the last image has loaded | high; not executed | `Lifecycle.ImageLoadedAsWritten`, `Lifecycle.StartBeforeLastImageIsLost` | `Lifecycle.ImageLoaded`, `Lifecycle.StartAlwaysHonoured`, `Game.Battle.ImageLoaded` |
