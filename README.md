# Tree harvest, collision list and building ledger of the sandbox game

This project models the game-state logic of `main.js`, the browser script of a small
three.js sandbox game, and proves properties of it in Dafny. The script keeps its state in
module-level variables and updates it once per animation frame. The model makes that state
the fields of a class `Sandbox.Game`:

- `trees`: tree records holding `health` (5 when fresh), `destroyed` and `respawnTimer`;
- `solidBoxes`: the shared list of collision boxes that the trees, the workbench and the
  placed walls push onto and splice out of;
- `woodCount` and `inventory`: the crafting and building ledger;
- `canChop`: the chop cooldown flag, which a `setTimeout` raises again;
- `placementMode`, `placementGhost`, `placementType`: building mode;
- `playerPos`: the player's position.

Each handler of the script is a method of `Game` that updates these fields in place:

- `createTree` and `spawnTrees`;
- `handleTreeInteraction`;
- the cooldown callback;
- `craftItem`, `startBuilding`, `exitPlacementMode` and `handlePlacement`;
- `handleMovement`;
- one frame of `animate`.

Every method is proved against a specification.

- Module `Trees` describes one pass of the harvest / respawn loop as pure functions (`Pass`,
  `ChopTarget`, `WoodFrom`). `TreePass`, the loop itself, is proved to produce exactly that.
- The method contracts keep the class invariant `Valid()`. The box "book" (module
  `BoxBook`) is part of it:
  - every tree owns a distinct box;
  - a tree's box is in the solid list exactly once while the tree stands, and absent while
    it is down.
- Every tree operation is proved to leave the boxes no tree owns (the workbench, the walls)
  as they were, in order.
- `OtherBoxes()` names the boxes no tree owns.

Geometry is abstracted:

- A box is an opaque identity (`Box = nat`). Fresh identities come from a counter
  `nextBox`, which stands for allocating a new `Box3` object. Boxes are compared by
  identity, as the script's `indexOf` and `includes` compare objects.
- The player's distance to each tree is an input (`dist`, one real per tree).
- The box intersection test of `willCollide` is an input `overlaps: Box -> bool`.
- The ground point of the aim ray is an input (`GroundHit`).
- `delta` is a real number of seconds.

Modules:

- `JsArray`: `indexOf` and `splice(start, 1)` with JavaScript's edge cases (-1 for a
  missing element, a negative start counting back from the end).
- `Collision`: `willCollide`, and `Without`, the list entries no given owner contributed.
- `Grid`: `Math.round` and the even-grid snap of a placed wall.
- `Trees`: the tree record and the pure rules of one pass.
- `Inventory`: the per-item counts built by `updateUI`.
- `BoxBook`: the box bookkeeping invariant and the lemmas that each list update keeps it.
- `Sandbox`: the class `Game`, and the loop of `handleTreeInteraction` on values.

Four facts about the script shape the model of a pass:

- The loop of `handleTreeInteraction` does not stop after the chop (main.js:110-146).
  Later destroyed trees still count down in the same pass. Later standing trees are turned
  away only because the chop lowered `canChop`.
- On respawn the script pushes the tree's own box object back onto the solid list
  (main.js:117-119), so the box keeps its identity.
- A respawned tree's `respawnTimer` keeps its non-positive remainder; it is not reset
  (main.js:112-115).
- Chopping and the respawn countdown share one loop, `handleTreeInteraction` (main.js:110-146).

## Model

| member | source | states |
|---|---|---|
| JsArray.IndexOf | main.js:135 | the result is -1 exactly when the element is absent, otherwise the position of its first occurrence |
| JsArray.Splice1 | main.js:136 | removes the one element at the normalised start, and changes nothing when that start is the end of the list |
| JsArray.RemovedOnce | main.js:135-136 | removing position k takes exactly one copy of the element there out of the list's multiset |
| JsArray.AbsentRemovesLast | main.js:344 | splicing at the `indexOf` of a missing element removes the last entry instead; the placement invariant keeps the game away from this case |
| JsArray.PresentRemovesOne | main.js:344 | splicing at the `indexOf` of a present element removes exactly one copy of it and shortens the list by one |
| JsArray.IndexOfFirstOccurrence | main.js:135 | `indexOf` of an element not seen earlier is its own position |
| Collision.WillCollide | main.js:267-274 | true exactly when some entry of the solid list overlaps the player's box at the candidate position |
| Collision.WithoutMembers | main.js:70 | the boxes kept for others are exactly the list's entries outside the owner's set, and there are no more of them than entries |
| Collision.WithoutAppend | main.js:70 | the entries outside the owner's set are computed piecewise over a concatenation |
| Collision.PushMineKeepsOthers | main.js:93 | pushing one of the owner's boxes leaves the other entries unchanged |
| Collision.PushOtherAppends | main.js:159 | pushing a box the owner does not own appends exactly that box to the other entries |
| Collision.RemoveMineKeepsOthers | main.js:135-136 | splicing out one of the owner's boxes leaves every other entry in place and in order |
| Collision.DropMineHead | main.js:135-136 | a leading box of the owner contributes nothing to the other entries |
| Collision.ClaimAbsentKeepsOthers | main.js:85-93 | adding to the owner's set a box that is not in the list changes none of the other entries |
| Grid.Round | main.js:331-332 | `Math.round` gives the integer within half a unit, a half rounding up |
| Grid.Snap | main.js:331-332 | the snapped coordinate is even and within one unit of the hit point |
| Grid.SnapIsNearestEven | main.js:331-332 | no even grid line is closer to the hit point than the snapped one |
| Grid.SnapKeepsGridPoints | main.js:331-332 | a point already on an even grid line is kept as it is |
| Trees.Plant | main.js:96-101 | planting at a list of points gives one fresh tree per point, in order, the i-th with the i-th box after the first |
| Trees.GroveStands | main.js:85-101 | each planted tree stands at its seed point at full health 5 with its own box |
| Trees.NewTree | main.js:85-91 | the record `createTree` pushes; `GroveStands` states that it starts standing at full health 5 with its own box, and `Sandbox.Game.CreateTree` appends it while keeping `Valid()`, so a new tree satisfies the record invariant |
| Trees.Grove | main.js:96-101 | the trees `spawnTrees` plants; `GroveStands` states its contract |
| Trees.Chop | main.js:127-132 | one chop of a standing tree; `ChopEffect` and `FallsAfterHealthChops` state its contract |
| Trees.Respawn | main.js:112-115 | the countdown step of a destroyed tree; `RespawnEffect` states its contract |
| Trees.Pass | main.js:110-146 | the whole list after one pass of the loop; `AtMostOneLosesHealth`, `PassKeepsValid`, `IdleFrame` and `ChopTargetIsFirst` state its contract, and `Sandbox.TreePass` and `Sandbox.Game.HandleTreeInteraction` are proved to compute it |
| Trees.WoodFrom | main.js:138 | the wood a pass yields: one log exactly when the target was on its last point, as `ChopEffect` and `Sandbox.TreePass` state |
| Trees.FirstChoppable | main.js:110-126 | the first standing tree within 2.5 at or after a position, and none before it |
| Trees.ChopTarget | main.js:110-128 | the chop goes only to a standing tree within range, and only while `canChop` is up |
| Trees.After | main.js:110-145 | a pass keeps the number of trees, and each tree takes its own step: a countdown if destroyed, a chop if it is the target, otherwise nothing |
| Trees.ChopTargetIsFirst | main.js:110-128 | tree i is the pass's target exactly when chopping is allowed, i is choppable, and no earlier tree is |
| Trees.TargetStep | main.js:110-128 | at step i, with chopping still allowed until the target is passed, tree i takes the chop exactly when it is choppable and chopping is allowed |
| Trees.NoTargetWhenNoneInRange | main.js:110-128 | nothing is chopped exactly when chopping is on cooldown or no standing tree is in range |
| Trees.AtMostOneLosesHealth | main.js:109-128 | after a pass at most one tree has lower health: the target, by exactly one point |
| Trees.ChopEffect | main.js:127-132 | a chop takes exactly one point; the tree falls exactly at its last point and then waits 20 seconds |
| Trees.RespawnEffect | main.js:111-116 | the timer drops by `delta`; the tree stands again exactly when it reaches 0 or below, and then at health exactly 5 |
| Trees.PassKeepsValid | main.js:88 | after any pass every tree's health is within 0..5, and a standing tree has at least 1 |
| Trees.IdleFrame | main.js:109-147 | a frame with no time elapsed and no target changes no tree |
| Trees.FallsAfterHealthChops | main.js:127-132 | a tree survives fewer chops than its health and falls at exactly that many, health 0, 20 seconds to wait |
| Trees.SameBoxes | main.js:73 | lists owning the same boxes position by position own the same set of boxes |
| Trees.PlantedBoxes | main.js:85-93 | planting a tree adds exactly its box to the trees' boxes |
| Inventory.TallyStep | main.js:61 | counting one more item bumps its count, or gives it a first count of 1, and the counts stay exact |
| Inventory.ListedSeen | main.js:61 | a later copy of an item already listed leaves the listing as it is |
| Inventory.ListedNew | main.js:61 | the first copy of an item is listed last, after every item first seen earlier |
| Inventory.SumStep | main.js:61 | each item counted raises the sum of the counts by exactly one |
| Inventory.CountItems | main.js:60-67 | each item held gets its exact number of copies and nothing else gets a count; items are listed once each in order of first appearance; the counts sum to the inventory's length |
| BoxBook.PlantKeepsBook | main.js:85-93 | a planted tree gets a fresh box that enters the list exactly once, and the book still holds |
| BoxBook.PlantKeepsOthers | main.js:85-93 | planting a tree leaves the boxes no tree owns unchanged |
| BoxBook.PushOtherKeepsBook | main.js:159 | pushing a fresh box no tree owns keeps the book and appends exactly that box to the others |
| BoxBook.ReplaceKeepsBook | main.js:111-136 | an update to one tree that keeps its box, with the list matching its new state, keeps the book and the set of tree boxes |
| BoxBook.RespawnPushKeepsBook | main.js:113-120 | a tree coming back finds its box absent and pushes it, so it is now there exactly once; the others are unchanged |
| BoxBook.FellSpliceKeepsBook | main.js:130-136 | `indexOf` finds a falling tree's box, and splicing it out leaves it absent while the book holds |
| BoxBook.FellSpliceKeepsOthers | main.js:135-136 | splicing out a falling tree's box leaves the boxes no tree owns unchanged |
| BoxBook.SameStandingKeepsBook | main.js:111-127 | an update that does not change whether a tree stands keeps the book |
| BoxBook.BoxPresentIffStanding | main.js:85-136 | while the book holds, a tree's box is in the solid list exactly when the tree is not destroyed |
| BoxBook.ChopKeepsBook | main.js:126-136 | the whole chop branch fells the tree exactly at its last point, then removes exactly one copy of its box; it keeps the book and leaves the boxes no tree owns unchanged |
| BoxBook.CountDownKeepsBook | main.js:111-122 | the whole countdown branch keeps the book and leaves the boxes no tree owns unchanged |
| Sandbox.Game.constructor | main.js:45-106 | the initial state: no trees, no boxes, no wood, nothing held, chopping allowed, not building, player at (0, 1, 0) |
| Sandbox.Game.Start | main.js:103-159 | loading plants the grove, then pushes the workbench box, which is the only box no tree owns; the solid list holds the five tree boxes in planting order, then the workbench's |
| Sandbox.Game.CreateTree | main.js:75-94 | appends a fresh standing tree at full health and pushes its new box; the other boxes are unchanged |
| Sandbox.Game.SpawnTrees | main.js:96-101 | plants the five seed trees in order, appends their five fresh boxes to the solid list in the same order, and leaves the other boxes unchanged |
| Sandbox.Game.AddSolidBox | main.js:158-159 | pushes a fresh box that no tree owns and that is not in the list, and appends it to the other boxes |
| Sandbox.Game.HandleTreeInteraction | main.js:109-147 | the trees become their one-pass successor; `canChop` drops and the re-enable timer is armed exactly when a tree was chopped; wood grows by the fallen tree's log; the box book and the other boxes are kept |
| Sandbox.Game.CooldownElapsed | main.js:142-144 | the timer firing raises `canChop`; that is the only place it is raised |
| Sandbox.Game.CraftItem | main.js:169-180 | when the wood covers the cost, the cost is paid and the item appended; otherwise wood and inventory are unchanged; wood never goes negative |
| Sandbox.Game.StartBuilding | main.js:303-314 | changes nothing unless the item is held; otherwise building mode is on for that item, with a preview |
| Sandbox.Game.ExitPlacementMode | main.js:316-321 | building mode ends and the preview is gone |
| Sandbox.Game.PlaceWall | main.js:335-347 | one fresh box no tree owns is pushed; the first copy of the chosen item is spliced out of the inventory, the rest keeping their order, so exactly one copy leaves; building mode ends |
| Sandbox.Game.HandlePlacement | main.js:323-353 | outside building mode nothing changes; the preview moves to the snapped even cell; a left click over the ground builds the wall there, pushing one box and splicing out the first copy of the chosen item; a right click ends building mode; with no ground hit and no right click building mode stays on with its preview |
| Sandbox.Game.HandleMovement | main.js:277-295 | the player moves to the candidate position exactly when some key is not cancelled out and `willCollide` is false there |
| Sandbox.Game.Frame | main.js:372-383 | one frame runs movement, placement and the tree pass: the player moves exactly when the keys do not cancel out and `willCollide` is false against the list before the frame; a wall is built exactly on a left click over the ground in building mode, appending one box to the boxes no tree owns and splicing out the first copy of the chosen item, otherwise those boxes and the inventory are unchanged; trees, wood, the flag and the re-enable timer follow the pass |
| Sandbox.CountDown | main.js:111-122 | a destroyed tree's timer drops; when it runs out, the tree stands at health 5 and its box, absent until then, is pushed once |
| Sandbox.ChopTree | main.js:126-140 | a standing tree loses one point; it falls exactly at its last point, and then one copy of its box leaves the list |
| Sandbox.VisitTree | main.js:110-145 | one iteration: count down, chop (which lowers the flag and reports the log gained), or leave the tree alone |
| Sandbox.TreePass | main.js:110-146 | the loop yields exactly the one-pass successor list, flag and wood, keeps the book, and keeps the boxes no tree owns |

## Left out

- Rendering is not modelled: the scene, camera, lights, meshes and visibility flags
  (main.js:1-46, 116, 133).
- `updateCamera`, the wheel zoom and the pitch clamps are floating-point camera math with
  no game state (main.js:234-264).
- The DOM is not modelled: text content, menu toggles and the crafting prompt. `CraftItem`
  returns which message is shown instead (main.js:52-59, 161-166, 174-178, 189-232).
- Key and mouse listeners are not modelled. Their effect reaches the model as the boolean
  arguments of `HandleMovement`, `HandlePlacement` and `Frame`.
- `OrbitControls.js` and `draggable.js` are not part of this model. They are camera and
  drag-to-move UI glue.
- Box geometry is not modelled: `Box3.setFromObject`, `intersectsBox` and `distanceTo`.
  - Boxes are identities.
  - The distance to each tree and the overlap test are inputs.
  - As a result, the per-frame refresh of standing trees' boxes (main.js:385-390) and the
    box refresh on respawn (main.js:117) change no modelled state.
- Raycasting is not modelled. `HandlePlacement` receives the ground hit, if any
  (main.js:326-327).
- `HandleMovement`: the direction normalisation and rotation are not modelled. The caller
  supplies `nextPos`, the rotated and scaled step (main.js:288-290).
- The workbench proximity check and `nearWorkbench` only drive UI prompts, so they are not
  modelled (main.js:355-367).
- The clock is not modelled: `performance.now`, `requestAnimationFrame`, and the
  1000 ms `setTimeout` delay. `delta` is an argument. The timer's firing is the method
  `CooldownElapsed`, which the environment calls at some later point.
- Numbers are mathematical reals and integers, not IEEE doubles. Rounding error in `delta`
  and in the snap is not modelled.
- `Inventory.CountItems`: items are listed in order of first appearance. JavaScript's
  `for ... in` lists integer-like keys first, in numeric order, and that ordering is not
  modelled. The counts are a plain object (main.js:60-61), and the model assumes no item is
  named after an `Object.prototype` property: for "constructor" or "toString" the script
  starts from an inherited function and builds a string, and "__proto__" is never counted,
  while the model's map counts these names like any other.
- `Sandbox.TreePass`: the script mutates each tree record inside the loop. The model
  iterates over copies of the list and the solid list, and writes them back once the loop
  ends. Nothing else runs during a pass, so the two cannot be told apart.
- `Sandbox.Game.ExitPlacementMode`: it also runs from the Escape key (main.js:206-208).
  That path is the same method.
