# PYE Club arcade portal — verified model of its logic

The portal is a phone web app. It shows a catalog of mini-games. Choosing one
opens its instructions. Starting it asks the platform for fullscreen and a
landscape lock, then mounts the game's widget. Leaving returns to the menu.

This Dafny project models the three pieces of the portal that hold logic:

- **Swipe Strike** (`swipe_strike.dfy`, module `SwipeStrike`). A 3x3 grid of
  nodes lies in a 300x300 space. A stroke collects every node whose centre is
  within radius 35 of a sampled pointer position, in order of first contact and
  at most once each. Releasing the pointer awards 10 points per collected node.
  A deferred timer then empties the path. The widget is the class
  `SwipeStrike.Game`. Its fields are `score`, `path`, `isDrawing` and `pointer`,
  plus `pendingClears`, the number of scheduled path clears that have not run
  yet. There is one method per event: pointer down, move, up, and the timer
  firing. The pointer-down and pointer-move methods are proved against the pure
  function `Collide`. The
  lemmas about `Collide` are proved over exact real coordinates:
  - it appends at most one id;
  - it is idempotent;
  - it keeps the path free of duplicates and of unknown ids, so a path holds at
    most nine ids;
  - no sample can be in range of two nodes, because centres are 100 apart and
    2 x 35 < 100.

  The render decisions (highlighted nodes, the polyline, the live segment) are
  pure functions over the widget's state. Swipe Strike is not registered in the
  app's widget registry, so it is modelled on its own.
- **Navigation** (`navigation.dfy`, module `Navigation`). The class
  `Navigation.App` holds `currentView` (home, instructions, playing) and
  `selectedGame`. The invariant `Valid` states that away from home a catalog
  game is selected. Every transition preserves it, so the "Game Not Found"
  fallback can never be drawn (`App.Screens`). The converse of the invariant
  does not hold. The instructions screen's close button returns home but keeps
  the selection (`web/src/App.jsx:101`); the model follows the code. The fullscreen and orientation
  calls are parameters of type `Capability` (absent, granted or refused).
  Their outcome decides only which calls were made and whether a warning was
  logged (`Guarded`). It never decides the next view.
- **Neon Recall** (`neon_recall.dfy`, module `NeonRecall`). Four fixed buttons.
  Every press adds 10 to the score, whichever button id is pressed. A ghost
  history of presses proves that the score is always 10 x the number of
  presses since mount.
- **The score read-out** (`score_display.dfy`, module `ScoreDisplay`). Both
  games show `score.toString().padStart(4, '0')`. `ToDecimal` models
  `toString` and `PadStart` models `padStart`. `ParseDecimal` is the partner
  that reads the digits back. The lemmas prove that the padded read-out has
  length max(4, digits) and still denotes the score.

Preconditions reflect where each control is rendered. `SelectGame` takes a
catalog entry because only catalog entries have buttons. `EnterGameMode` runs
from the instructions screen because its start button appears only there.
`ClearTimerFires` needs a scheduled clear. `Back` and `ExitGameMode` keep the
invariant from any state.

The scenario members `NeonRecall.ThreePresses`, `Navigation.Walkthrough`,
`SwipeStrike.EmptyStroke` and `SwipeStrike.StrokeBeforeClear` are client code
whose assertions follow from the contracts and the function definitions. `StrokeBeforeClear` shows an
event ordering the code allows. A stroke can start before the previous
stroke's 400 ms clear has run. It then starts from the previous path, cannot
collect those nodes again, and scores them a second time on release.

## Model

| member | source | states |
|---|---|---|
| `ScoreDisplay.ToDecimal` | web/src/games/NeonRecall/NeonRecall.jsx:40 | `score.toString()` is a non-empty run of decimal digits with no leading zero, one character exactly when the score is below 10 |
| `ScoreDisplay.ParseToDecimal` | web/src/games/NeonRecall/NeonRecall.jsx:40 | reading the decimal notation of any score back gives that score (round trip) |
| `ScoreDisplay.PadStart` | web/src/games/NeonRecall/NeonRecall.jsx:40 | `padStart(width, fill)` has length max(width, input length), ends with the input, and every added character is the filler |
| `ScoreDisplay.LeadingZeros` | web/src/games/NeonRecall/NeonRecall.jsx:40 | zeros put in front of a run of digits do not change the number it denotes |
| `ScoreDisplay.ScoreText` | web/src/games/SwipeStrike/SwipeStrike.jsx:108 | the read-out either game shows has length max(4, digit count), is all digits, and reads back as the score |
| `SwipeStrike.NodeLayout` | web/src/games/SwipeStrike/SwipeStrike.jsx:13-17 | there are nine nodes; node `i` has id `i` and centre (50 + 100·(i mod 3), 50 + 100·(i div 3)) |
| `SwipeStrike.Centre` | web/src/games/SwipeStrike/SwipeStrike.jsx:165 | `nodes[id]`, looked up by id, is drawn at column `id mod 3`, row `id div 3` of the 100-unit grid |
| `SwipeStrike.NodesApart` | web/src/games/SwipeStrike/SwipeStrike.jsx:13-17 | two distinct nodes are at least 100 units apart along the x or the y axis |
| `SwipeStrike.AtMostOneHit` | web/src/games/SwipeStrike/SwipeStrike.jsx:70-74 | no pointer position is strictly within radius 35 of two different nodes |
| `SwipeStrike.CentreHitsOnly` | web/src/games/SwipeStrike/SwipeStrike.jsx:70-74 | a sample at a node's centre is in range of that node and of no other |
| `SwipeStrike.Near` | web/src/games/SwipeStrike/SwipeStrike.jsx:73-74 | a node in range of the pointer is less than 35 units away along each axis, and a pointer on the node's centre is in range |
| `SwipeStrike.Scan` | web/src/games/SwipeStrike/SwipeStrike.jsx:72-88 | the `forEach` over the first k nodes only appends to the path, adds at most k ids, and every id it adds names one of those k nodes and is in range of the pointer |
| `SwipeStrike.Collide` | web/src/games/SwipeStrike/SwipeStrike.jsx:66-89 | `checkNodeCollision` leaves the path unchanged for a missing position; otherwise the old path is a prefix of the new one and every added id is in range of the position |
| `SwipeStrike.ScanAppendsHit` | web/src/games/SwipeStrike/SwipeStrike.jsx:72-88 | after the `forEach` over the first k nodes, the one node in range is appended if new; if every node in range is already in the path, the path is unchanged |
| `SwipeStrike.CollideAppendsAtMostOne` | web/src/games/SwipeStrike/SwipeStrike.jsx:66-89 | a null position leaves the path unchanged; a node in range and absent from the path is appended at the end; otherwise the path is unchanged; the old path is always a prefix and at most one id is added |
| `SwipeStrike.CollideInRange` | web/src/games/SwipeStrike/SwipeStrike.jsx:75-86 | a sample in range of node `id` adds `id` exactly when the path does not hold it yet |
| `SwipeStrike.CollideIdempotent` | web/src/games/SwipeStrike/SwipeStrike.jsx:77-85 | checking the same position twice gives the same path as checking it once |
| `SwipeStrike.CollidePreservesWellFormed` | web/src/games/SwipeStrike/SwipeStrike.jsx:75-86 | the collision check keeps the path free of duplicate ids and of ids outside 0..8 |
| `SwipeStrike.PathLengthBound` | web/src/games/SwipeStrike/SwipeStrike.jsx:77-83 | a path without duplicates whose ids are all below 9 holds at most nine ids |
| `SwipeStrike.DiagonalStroke` | web/src/games/SwipeStrike/SwipeStrike.jsx:72-86 | samples in range of nodes 0, 4, 8 and then of node 0 again collect exactly [0, 4, 8] |
| `SwipeStrike.Highlights` | web/src/games/SwipeStrike/SwipeStrike.jsx:191-192 | node `k` is highlighted if and only if id `k` is in the path |
| `SwipeStrike.HighlightsGrow` | web/src/games/SwipeStrike/SwipeStrike.jsx:192 | a collision check never un-highlights a node, and after it every node in range of the sample is highlighted |
| `SwipeStrike.Polyline` | web/src/games/SwipeStrike/SwipeStrike.jsx:163-165 | the polyline is drawn if and only if the path holds at least two ids; its k-th point is the centre of the k-th collected node |
| `SwipeStrike.CentresDistinct` | web/src/games/SwipeStrike/SwipeStrike.jsx:165 | distinct node ids are drawn at distinct centres |
| `SwipeStrike.PolylineVisitsOnce` | web/src/games/SwipeStrike/SwipeStrike.jsx:163-165 | for a path without duplicates, no two points of the polyline coincide |
| `SwipeStrike.LiveLine` | web/src/games/SwipeStrike/SwipeStrike.jsx:176-180 | the live segment is drawn if and only if drawing, the path is non-empty and the pointer is set; it runs from the last collected node's centre to the pointer |
| `SwipeStrike.LiveLineFollowsHit` | web/src/games/SwipeStrike/SwipeStrike.jsx:176-180 | right after a sample collects a new node, the live segment starts at that node's centre and ends at the sample |
| `SwipeStrike.Game.constructor` | web/src/games/SwipeStrike/SwipeStrike.jsx:5-8 | on mount the score is 0, the path is empty, nothing is being drawn and there is no pointer |
| `SwipeStrike.Game.CheckNodeCollision` | web/src/games/SwipeStrike/SwipeStrike.jsx:66-89 | the loop over the node table leaves the path equal to `Collide` of the old path and keeps the widget invariant |
| `SwipeStrike.Game.PointerDown` | web/src/games/SwipeStrike/SwipeStrike.jsx:34-39 | pointer-down sets drawing, records the pointer and runs the collision check on the old path; it never clears a leftover path and keeps the score |
| `SwipeStrike.Game.PointerMove` | web/src/games/SwipeStrike/SwipeStrike.jsx:41-49 | while not drawing, pointer-move changes nothing; while drawing, it records the pointer and runs the collision check |
| `SwipeStrike.Game.PointerUp` | web/src/games/SwipeStrike/SwipeStrike.jsx:51-64 | while not drawing, pointer-up changes nothing. While drawing, it stops drawing, clears the pointer, adds exactly 10·\|path\| to the score and keeps the path; it schedules one clear exactly when the path is non-empty. The score stays a multiple of 10 and never decreases |
| `SwipeStrike.Game.ClearTimerFires` | web/src/games/SwipeStrike/SwipeStrike.jsx:62 | the scheduled clear empties the path and changes nothing else |
| `Navigation.CatalogRegistered` | web/src/App.jsx:5-21 | every catalog id has an entry in the widget registry |
| `Navigation.Guarded` | web/src/App.jsx:23-35 | inside one `try`, the first platform call is made when offered; the second is made only when the first did not throw; a warning is logged exactly when a call that was made threw |
| `Navigation.RenderGameplay` | web/src/App.jsx:138-156 | for no selection or a selection whose id is one of the registry's own keys, the playing screen is the registered widget when the id is registered and the "Game Not Found" fallback otherwise |
| `Navigation.CatalogGameFound` | web/src/App.jsx:139-155 | for a game from the catalog, the playing screen is its registered widget, never the fallback |
| `Navigation.Render` | web/src/App.jsx:158-164 | exactly one screen is drawn for each of the three views, and it is the screen of that view: the whole catalog at home, the selected game's instructions, or the playing screen |
| `Navigation.App.constructor` | web/src/App.jsx:10-11 | the app starts on the home view with no game selected |
| `Navigation.App.SelectGame` | web/src/App.jsx:69-72 | choosing a catalog entry selects it and shows its instructions |
| `Navigation.App.Back` | web/src/App.jsx:101 | the close button returns home and keeps the selection |
| `Navigation.App.EnterGameMode` | web/src/App.jsx:23-35 | starting a game always ends in the playing view with the selection kept, whatever the fullscreen request and orientation lock do |
| `Navigation.App.ExitGameMode` | web/src/App.jsx:37-50 | leaving a game always ends on the home view with no selection, whatever the orientation unlock and fullscreen exit do |
| `Navigation.App.Screens` | web/src/App.jsx:158-164 | in every state reachable through the transitions, exactly one screen is drawn and it is never the "Game Not Found" fallback; in the playing view it is the selected game's widget |
| `NeonRecall.ButtonIdsDistinct` | web/src/games/NeonRecall/NeonRecall.jsx:7-12 | there are exactly four buttons and their ids are distinct |
| `NeonRecall.Game.constructor` | web/src/games/NeonRecall/NeonRecall.jsx:5 | the score starts at 0 with no presses |
| `NeonRecall.Game.HandleButtonPress` | web/src/games/NeonRecall/NeonRecall.jsx:14-18 | each press, whichever id, adds exactly 10 to the score and records the press; the score stays 10 x the number of presses since mount |
| `NeonRecall.Game.ScoreLabel` | web/src/games/NeonRecall/NeonRecall.jsx:40 | the read-out has length max(4, digit count of the score), is all digits, and reads back as the score, which fixes it to `score.toString().padStart(4, '0')` |

## Left out

- Pointer coordinate conversion (`getPointerCoords`) is left out. It depends on the DOM's bounding rectangle, on mouse versus touch event shapes and on floating-point scaling. The collision methods take an already converted position, or none when the drawing surface is missing.
- Floating point is not modelled. Coordinates are exact reals, and `Math.hypot(dx, dy) < 35` is modelled as dx² + dy² < 1225. Rounding right at the radius is not captured.
- Haptic feedback (`navigator.vibrate`) and logging are not modelled. The only logging kept is whether enter/exit logged a warning (`Guarded`). These are platform calls that never influence state.
- The fullscreen, orientation lock/unlock and fullscreen exit calls are modelled as outcome parameters (absent, granted, refused). The platform itself is not modelled.
- The 400 ms `setTimeout` is modelled as the separate event `ClearTimerFires`, not as time. Timer interleavings appear only as event orderings.
- React's asynchronous state batching is not modelled, and neither is the stale `path` that `handlePointerUp` may read from its closure. Each handler sees the latest state.
- The `await`s in `enterGameMode`/`exitGameMode` are not modelled, and neither are clicks that arrive while they are pending. Each transition is atomic.
- Leaving a game discards the widget's score because the widget unmounts. Mounting and unmounting are not modelled, so `Navigation.App` and the widget classes are not linked.
- `Navigation.RenderGameplay`: the widget registry is modelled as a map of its own keys only. In the code it is a plain object, so an id naming an inherited `Object.prototype` member (such as `"constructor"`) would find that member instead of the fallback. The app only ever holds no selection or the catalog entry, so no reachable state is affected.
- `currentView` is a string in the code. It is modelled as a three-value datatype, so views other than the three used are out of scope.
- JavaScript numbers lose integer precision above 2^53. Scores are unbounded naturals in the model.
- JSX/SVG markup, styling, filters and icons are presentation only. The messages to the external light board exist only as comments, so they are not modelled either.
