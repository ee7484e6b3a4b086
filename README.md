# Farm scene: action budget and undo/redo engine

A model, in Dafny, of the simulation core of a turn-based grid farming game
(the `Play` scene of `src/scenes/Play.js`) with the game engine taken out.
It covers:

- the **packed grid store**: a `Uint8Array` of three bytes per tile
  (plantable, species code, growth stage), addressed by
  `(tileY * width + tileX) * 3`;
- the **turn counter**: `actionTaken` / `endTurn` over `actionCount`,
  `currentTurn` and the budget of 10 actions per turn, with the two growth
  passes `endTurn` runs over the plants;
- the **history stacks**: snapshots of player position, plant list and
  counters, pushed onto and popped from `undoStack` / `redoStack`, and the
  destructive rebuild of the plant list from a snapshot;
- the **actions**: planting, harvesting and a committed move, with their
  validation (`getPlantAt`, `plantSeed`, `harvestPlant`, `canMoveTo`);
- **reverse actions**: the total mapping of `getReverseAction`.

Modules, leaf to root:

| file | module | contents |
|---|---|---|
| wrappers.dfy | `Wrappers` | `Option` |
| actions.dfy | `Actions` | positions, the three-variant `Action`, `ReverseAction` |
| grid.dfy | `GridStore` | bytes, record offsets, reads and writes of a record, species codes, `applyGridStateChange` on a byte sequence |
| turns.dfy | `TurnCounter` | `actionTaken` and `endTurn` on the counter pair |
| history.dfy | `History` | plant states, snapshots, the scene state as a value (`World`), record / apply / undo / redo |
| farm.dfy | `Farm` | world-to-tile conversion, `getPlantAt`, `plantSeed`'s plant list, turn-end growth, the plant, harvest and move steps |
| scene.dfy | `Scene` | the `Plant` and `Play` classes: fields updated in place, a `gridState` array, and methods proved against the functions above |

Each `Play` method that changes state says in its postcondition that the new
`Abstract()` value (position, plant states, counters, harvest count, stacks)
is the value-level function of the old one (`History.Undo`,
`Farm.PlantStep`, ...). The properties are proved as lemmas about those
functions. `Play.Valid()` is the object invariant: the grid has
`3 * width * height` bytes, no plant object is listed twice, and the live
counters and every stacked snapshot's counters lie within the budget
(`0 <= actionCount < 10`, `currentTurn >= 1`). The player-facing methods
`UndoAction`, `RedoAction`, `PlantAction`, `HarvestAction`, `MovePlayer` and
`TryMove` require it and keep it. The lower-level methods do not promise it:
`ApplyGameState` with a snapshot whose counters lie outside the budget breaks
it, and only undo and redo call it, with stacked snapshots that are in budget.

Environment collaborators are parameters: the dirt layer's "plantable" tile
property (`isPlantable`, on tile coordinates), the fence layer's tile lookup
(`isWall`, on world coordinates), the physics world bounds, the grid size in
tiles, and the species picked at random (an argument of `PlantAction`).

A plant's growth rule (`checkGrowthConditions` of the `Plant` class) is not
part of this model. It is an uninterpreted step, `Farm.Growth`: from a plant's
state it gives the new growth stage and the new readiness
(`isReadyToHarvest`), and it moves no plant. Every action method takes the
step as an argument, because growth depends on the sun and water values drawn
at random for that turn. When an action ends the turn, `endTurn` applies the
step twice to every plant, once in `updatePlantsWithEnvironment` and once in
`updatePlants`, before that action records its snapshot.

World-to-tile conversion is `floor(w / 16)`. This matches the 16-pixel
`gridSize` and assumes a layer at the origin.

## Behaviour of the code as written

The model follows the code. Where the code does something a reader of the
method names would not expect, a lemma shows it:

- **The snapshot is recorded after the action.** `movePlayer`, `plantAction`
  and `harvestAction` call `recordGameState` after they change the state. An
  immediate undo therefore re-applies the post-action state
  (`Farm.UndoAfterMoveKeepsTarget`, `Farm.UndoAfterPlantKeepsPlant`), not
  the state before the action.
- **Only the last snapshot holds a turn's growth.** The turn-ending action
  records its snapshot after `endTurn` has grown the plants, so an undo
  straight after it keeps the grown stages and the new turn
  (`Farm.UndoAfterTurnEndKeepsGrowth`). The action before it recorded its
  snapshot before that growth, so a second undo goes back to the stages from
  before it, with that action still counted (`Farm.SecondUndoRevertsGrowth`).
- **Undo pushes the state it reached.** `undoAction` pushes onto the redo
  stack the state after applying, not the state before the undo. A redo
  straight after an undo changes nothing live (`History.RedoAfterUndo`).
- **A refused harvest is still recorded.** Harvesting an unready plant
  records a "harvest" snapshot and clears the redo stack
  (`Farm.UnreadyHarvestStillRecords`). With no plant under the player, the
  read of `plant.species` throws before anything is recorded. `HarvestAction`
  reports this as `threw`. `Farm.UndoAfterRefusedHarvestKeepsPlant` works
  through one play sequence (three moves, a planting, a refused harvest,
  undo, redo): the plant stays and four actions stay counted.
- **The grid bytes do not follow the plant list.** `harvestPlant` does not
  touch the grid (`HarvestAction` keeps `gridState`), and neither do
  `applyPlantStates` and undo/redo. So the grid and the plant list agreeing is
  not an invariant of this code, and the model does not claim it.
  `applyGridStateChange` is never called. It is the only path that clears a
  record, and it sets the plantable byte to 0 as well
  (`GridStore.GridAfterChangeReads`).
- **`plantSeed`'s guard looks at the wrong tile.** It passes the sprite's
  world coordinates to the tile lookup. It therefore never sees a plant on the
  tile being seeded (`Farm.SeedGuardMissesOwnTile`,
  `Farm.SeedTwiceDuplicates`). Instead it refuses when a plant stands on tile
  `(16 * tileX + 8, 16 * tileY + 8)`. `plantAction` then still writes the
  grid, counts the action and records, but adds no plant
  (`Farm.PlantStepAddsAtMostOne`, `Farm.FarPlantBlocksSeeding`: a plant on
  tile (8, 8) blocks planting on tile (0, 0)).
- **Tile coordinates are not bounds-checked** when the grid index is
  computed. Out-of-range coordinates can alias another tile
  (`GridStore.LeftEdgeAliases`). Only offsets outside the byte array are
  ignored, as typed arrays ignore them. The turn ends when
  `actionCount >= 10`, not only when it equals 10. `canMoveTo` accepts the
  bounds themselves (`x <= width`).

## Model

| member | source | states |
|---|---|---|
| GridStore.GridStateIndex | src/scenes/Play.js:552-554 | the offset is always a multiple of 3, so records never straddle each other. There is no bounds check (see `LeftEdgeAliases`) |
| GridStore.IndexInRange | src/scenes/Play.js:552-554 | for `0 <= tileX < width`, `0 <= tileY < height` the record offset is non-negative and its 3 bytes end within `3 * width * height` (the array allocated at lines 83-84) |
| GridStore.IndexDisjoint | src/scenes/Play.js:552-554 | two distinct in-bounds tiles get disjoint 3-byte records |
| GridStore.RecordWhollyInside | src/scenes/Play.js:354-362 | an offset whose first byte is inside the array has all three bytes inside, so a read gives either a whole record or three `undefined` fields |
| GridStore.LeftEdgeAliases | src/scenes/Play.js:552-554 | no bounds check: tile `(-1, y + 1)` has the same offset as `(width - 1, y)` |
| GridStore.ToUint8 | src/scenes/Play.js:84 | a stored integer is kept modulo 256, and unchanged when it is in 0..255 |
| GridStore.ReadRecord | src/scenes/Play.js:354-362 | a record exactly when the offset's three bytes lie in the array, each field then a byte value. None stands for the object whose three fields read `undefined` |
| GridStore.WriteByte | src/scenes/Play.js:367 | one typed-array store changes only its own byte, and changes nothing outside the array |
| GridStore.WriteRecord | src/scenes/Play.js:364-370 | `setGridState`'s three stores keep the length and leave every byte outside the tile's record unchanged |
| GridStore.ReadAfterWrite | src/scenes/Play.js:354-370 | `getGridState` after `setGridState` on the same in-array record returns the written record (modulo 256) |
| GridStore.WriteOutsideIgnored | src/scenes/Play.js:364-370 | a record write entirely outside the array changes nothing |
| GridStore.SpeciesCode | src/scenes/Play.js:557-561 | potato, tomato, eggplant map to 1, 2, 3 and every other name to 0, in both directions |
| GridStore.GridAfterChange | src/scenes/Play.js:372-384 | a move changes no byte, and plant or harvest change only the named tile's record |
| GridStore.GridAfterChangeReads | src/scenes/Play.js:372-384 | after the change the tile reads `{1, code(species), 0}` for plant and `{0, 0, 0}` for harvest, plantable byte included |
| Actions.ReverseAction | src/scenes/Play.js:386-405 | move(from, to) becomes move(to, from), and plant and harvest swap with the same tile and species |
| Actions.ReverseIsInvolution | src/scenes/Play.js:386-405 | reversing twice gives back the original action |
| TurnCounter.EndTurn | src/scenes/Play.js:438-441 | the count is reset to 0 and the turn number grows by one, so the result is in budget whenever the turn was at least 1 |
| TurnCounter.ActionTaken | src/scenes/Play.js:428-441 | the turn advances by one exactly when the incremented count reaches the budget, and the count is then 0; otherwise the count goes up by one |
| TurnCounter.ActionKeepsBudget | src/scenes/Play.js:428-441 | from `0 <= actionCount < 10` the range is kept and `currentTurn` never decreases |
| TurnCounter.AfterActionsCounts | src/scenes/Play.js:428-441 | `n` actions from count `c` end at count `(c + n) % 10`, and the turn advances by `(c + n) / 10` |
| TurnCounter.FullTurnAdvances | src/scenes/Play.js:428-441 | ten actions from the start of a turn give the next turn with count 0 |
| History.RecordGameState | src/scenes/Play.js:273-284 | exactly one snapshot (position, plant states, counters, payload) is pushed, the redo stack becomes empty, and nothing else changes |
| History.ApplyGameState | src/scenes/Play.js:322-338 | position, plant list and counters become the snapshot's, and stacks and harvest count are kept |
| History.Undo | src/scenes/Play.js:296-302 | no-op on an empty undo stack. Otherwise the top snapshot becomes live, the undo stack loses it, and the redo stack gains the state reached |
| History.Redo | src/scenes/Play.js:304-310 | the mirror image of undo, from the redo stack to the undo stack |
| History.UndoRedoKeepHeight | src/scenes/Play.js:296-310 | undo and redo keep the combined height of the two stacks |
| History.UndoAfterRecord | src/scenes/Play.js:273-302 | undo straight after a record makes the recorded state live again and restores the previous undo stack |
| History.RedoAfterUndo | src/scenes/Play.js:296-310 | redo straight after undo leaves the live state as the undo left it and gives back the old redo stack |
| History.UndoTimesPopsInOrder | src/scenes/Play.js:296-302 | after `n` undos the `n`-th snapshot from the top is live, the `n` top snapshots are gone, and the redo stack has grown by `n` |
| History.RecordKeepsConsistent | src/scenes/Play.js:273-284 | recording keeps every counter pair on the stacks within the budget |
| History.UndoKeepsConsistent | src/scenes/Play.js:296-302 | undo keeps the live and stacked counters within the budget |
| History.RedoKeepsConsistent | src/scenes/Play.js:304-310 | redo keeps the live and stacked counters within the budget |
| Farm.WorldToTile | src/scenes/Play.js:499-504 | the tile a world coordinate lies in: `16 * t <= w < 16 * (t + 1)` |
| Farm.TileCenter | src/scenes/Play.js:536-537 | the sprite's world coordinate lies within the tile and converts back to it |
| Farm.FindPlant | src/scenes/Play.js:498-505 | the index of the first plant on the tile, or None exactly when no plant is on it |
| Farm.Seed | src/scenes/Play.js:539-542 | the list gains at most one plant and keeps its old entries. It gains one exactly when no plant stands on tile `(16 * tileX + 8, 16 * tileY + 8)`, and that plant is the tile's seedling |
| Farm.SeedGuardMissesOwnTile | src/scenes/Play.js:534-542 | the world-coordinate guard never matches a plant standing on the seeded tile |
| Farm.SeedTwiceDuplicates | src/scenes/Play.js:534-542 | seeding one tile twice lists two plants there |
| Farm.GrowPass | src/scenes/Play.js:461-475 | one pass of the growth step over every plant keeps the list's length and grows each entry once, in order |
| Farm.TakeAction | src/scenes/Play.js:428-451 | the counters advance as `actionTaken` says. When the turn ends, every plant grows twice (two passes). Position, harvest count and stacks are kept |
| Farm.GrowthKeepsLookup | src/scenes/Play.js:461-475 | growth moves no plant, so the tile lookup finds the same plant after a growth pass |
| Farm.PlantStep | src/scenes/Play.js:238-257 | nothing changes unless the tile is plantable and empty. Otherwise seed, count one action (with growth if the turn ends) and record one "plant" snapshot of the new state, with the redo stack emptied |
| Farm.PlantStepAddsAtMostOne | src/scenes/Play.js:238-257 | a successful planting adds at most one plant after the old ones. It adds exactly one, on the tile with the species, unless a plant stands on tile `(16x + 8, 16y + 8)`. The new plant is at stage 0 unless the planting ended the turn, in which case all plants have grown twice |
| Farm.FarPlantBlocksSeeding | src/scenes/Play.js:534-542 | a plant on tile (8, 8) blocks planting on (0, 0): the action is counted and recorded, and no plant appears |
| Farm.HarvestStep | src/scenes/Play.js:259-270 | throws exactly when no plant is on the tile. An unready plant only records a snapshot. A ready one is removed, counted as harvested and as an action (with growth if the turn ends), then recorded |
| Farm.MoveStep | src/scenes/Play.js:211-215 | a committed move sets the position, counts one action (with growth if the turn ends) and records one "move" snapshot of the grown plants |
| Farm.UndoAfterMoveKeepsTarget | src/scenes/Play.js:211-215 | undo straight after a move leaves the player at the target with the action still counted |
| Farm.UndoAfterTurnEndKeepsGrowth | src/scenes/Play.js:211-215 | undo straight after a turn-ending move keeps every plant's twice-grown stage and the new turn |
| Farm.SecondUndoRevertsGrowth | src/scenes/Play.js:211-215 | after a move and then a turn-ending move, two undos bring back the plant states from before both, the first move's target and its counted action |
| Farm.UndoAfterPlantKeepsPlant | src/scenes/Play.js:250-255 | undo straight after a planting keeps the new plant list and the counted action |
| Farm.UnreadyHarvestStillRecords | src/scenes/Play.js:264-269 | harvesting an unready plant changes no live state, but pushes a snapshot and empties the redo stack |
| Farm.UndoAfterRefusedHarvestKeepsPlant | src/scenes/Play.js:259-310 | for every growth step: three moves, a planting and a refused harvest, then undo and then redo both leave the plant and four counted actions |
| Farm.PlantStepKeepsConsistent | src/scenes/Play.js:238-257 | planting keeps the budget invariant |
| Farm.HarvestStepKeepsConsistent | src/scenes/Play.js:259-270 | harvesting keeps the budget invariant |
| Farm.MoveStepKeepsConsistent | src/scenes/Play.js:211-215 | a move keeps the budget invariant |
| Scene.Without | src/scenes/Play.js:487 | the filtered list is no longer, no longer holds the harvested object, and holds only objects of the old list |
| Scene.WithoutAt | src/scenes/Play.js:487 | filtering an object out of a repeat-free list removes exactly its one entry and keeps the order |
| Scene.StatesRemoveAt | src/scenes/Play.js:286-294 | the snapshot view of the filtered list is the old view with that entry removed |
| Scene.Play.constructor | src/scenes/Play.js:2-13 | counters 0 and 1, empty stacks and plant list, a zeroed grid of `3 * width * height` bytes, the player at (100, 100) (line 58), and the invariant holds |
| Scene.Play.PlantStates | src/scenes/Play.js:286-294 | one state (position, species, growth stage) per plant, in list order |
| Scene.Play.CurrentGameState | src/scenes/Play.js:312-320 | an untyped snapshot of the current state |
| Scene.Play.GetPlantAt | src/scenes/Play.js:498-505 | None exactly when no plant's sprite lies on the tile, otherwise the first such plant object |
| Scene.Play.GetGridState | src/scenes/Play.js:354-362 | a record exactly when the offset's three bytes lie in the array, otherwise None for the all-`undefined` object |
| Scene.Play.SetGridState | src/scenes/Play.js:364-370 | the array becomes `WriteRecord` of the old bytes, and an in-array record then reads back as written |
| Scene.Play.StoreRecord | src/scenes/Play.js:367-369 | the three in-place byte stores at `index`, `index + 1`, `index + 2` turn the array into `WriteRecord` of its old bytes |
| Scene.Play.ApplyGridStateChange | src/scenes/Play.js:372-384 | the array becomes `GridAfterChange` of the old bytes |
| Scene.Play.CanMoveTo | src/scenes/Play.js:408-417 | true exactly when the target is within the bounds, both ends included, and not on a wall |
| Scene.Play.GrowthPass | src/scenes/Play.js:461-475 | a loop over the plant objects: each takes its stage and readiness from one growth call on its own state, so the states become `Farm.GrowPass` of the old ones |
| Scene.Play.EndTurn | src/scenes/Play.js:438-451 | next turn with count 0, then two growth passes: each plant is grown twice, and its readiness comes from the second call |
| Scene.Play.ActionTaken | src/scenes/Play.js:428-435 | the new state is `Farm.TakeAction` of the old. When the turn does not end, no plant object changes; when it does, readiness is as after two growth calls |
| Scene.Play.RecordGameState | src/scenes/Play.js:273-284 | the new state is `History.RecordGameState` of the old |
| Scene.Play.ApplyPlantStates | src/scenes/Play.js:340-352 | the plant list is rebuilt from fresh objects whose states equal the snapshot's, in order and not ready |
| Scene.Play.ApplyGameState | src/scenes/Play.js:322-338 | the new state is `History.ApplyGameState` of the old, with fresh plant objects that are not ready |
| Scene.Play.UndoAction | src/scenes/Play.js:296-302 | the new state is `History.Undo` of the old and the invariant is kept. An empty stack keeps the same plant objects; otherwise every plant is a fresh object that is not ready |
| Scene.Play.RedoAction | src/scenes/Play.js:304-310 | the new state is `History.Redo` of the old and the invariant is kept. An empty stack keeps the same plant objects; otherwise every plant is a fresh object that is not ready |
| Scene.Play.PlantSeed | src/scenes/Play.js:534-549 | the plant states become `Farm.Seed` of the old, the old objects stay in front, any added plant is a fresh object that is not ready, and the tile's record becomes `{1, code, 0}` |
| Scene.Play.PlantAction | src/scenes/Play.js:238-257 | the new state is `Farm.PlantStep` of the old. The tile's record is rewritten only when the action acts, and otherwise no plant object changes. Any new plant is fresh. When the turn does not end, it is not ready and the old plants keep their readiness. When the acting path ends the turn, each old plant's readiness is the growth call on its once-grown old state, and the new plant's is the growth call on the once-grown seedling |
| Scene.Play.PlantOnTile | src/scenes/Play.js:247-255 | the acting path: seed, count, record, with the same facts about freshness and readiness on both turn branches |
| Scene.Play.SeedAndCount | src/scenes/Play.js:249-251 | `plantSeed` then `actionTaken`: the new state is `Farm.TakeAction` of the seeded state, with the same grid, freshness and readiness facts |
| Scene.Play.HarvestPlant | src/scenes/Play.js:477-496 | the object is filtered out and the harvest count goes up by one. For the plant at index `i`, the new state is the old one with state `i` removed |
| Scene.Play.HarvestReady | src/scenes/Play.js:263-269 | the ready path: remove plant `i`, count the harvest and one action, record the "harvest" snapshot. The object list is the old one without that plant. No plant object changes unless the turn ends, and then each remaining plant's readiness is the growth call on its once-grown old state |
| Scene.Play.HarvestAction | src/scenes/Play.js:260-270 | the new state is `Farm.HarvestStep` of the old, or unchanged when it throws, and the grid bytes are untouched. When it throws or the plant is not ready, the object list and every plant object are unchanged. When the plant is ready, the list is the old one without it, no object changes unless the turn ends, and then each remaining plant's readiness is the growth call on its once-grown old state |
| Scene.Play.MovePlayer | src/scenes/Play.js:204-217 | the new state is `Farm.MoveStep` of the old. No plant object changes unless the move ends the turn |
| Scene.Play.TryMove | src/scenes/Play.js:197-201 | the move is committed exactly when `canMoveTo` allows the target, so after a move the player is within the bounds and off the walls, the object list is the same, and the plants' readiness is kept or, when the turn ends, the growth call on the once-grown old state; otherwise nothing changes |

## Left out

- `preload`, `create` and `createAnimations`: asset loading, tilemap, layer, camera, sprite and animation setup. Only the state that `create` initialises is modelled, in the constructor.
- `handleKeyDown`, `handleMovementKeys`, `handleUndoRedoKeys`: key decoding, the re-registered `keyup` listener and the `undoPressed`/`redoPressed` debounce are event plumbing. `TryMove` models the `canMoveTo` guard in front of `movePlayer`.
- The tween in `movePlayer`: a move is one atomic commit of the completion callback, so overlapping tweens from key repeat are not modelled.
- `updateUI`, `console.log` and the `window.alert` at 30 harvests: presentation only. The harvest counter itself is kept.
- `updateTileEnvironment`, and the sun and water values that `updatePlantsWithEnvironment` pushes onto each plant: random inputs to growth. The `Plant` class (`checkGrowthConditions`, `sunlight`, `water`) is not part of this model. Growth is the uninterpreted step `Farm.Growth`, a function of the plant's snapshot state passed to each action. A growth rule that depends on a plant's own sun and water history, and so treats two plants in the same state differently, is not captured. Readiness is the field `isReadyToHarvest`, set only by that step.
- Scene.Plant.constructor: the `Plant` constructor is not part of this model. It is taken to start at growth stage 0, not ready to harvest.
- Sprite creation and `sprite.destroy()` for plants.
- `worldToTileX`/`worldToTileY`, `getTileAt` and `getTileAtWorldXY`: engine lookups, replaced by `floor(w / 16)` and the `isPlantable` / `isWall` oracles. The units of the dirt layer's `width` are taken to be tiles.
- `Phaser.Utils.Array.GetRandom`: the species is an argument, restricted to the three names it picks from.
- `attemptPlantingOrHarvesting`: never called.
- GridStore.SpeciesCode: names such as "constructor" hit a prototype property of the lookup object, so the JavaScript function returns a non-number for them. The model returns 0, which is also what the typed array stores for it.
- 53-bit floating-point arithmetic of JavaScript numbers: counters and coordinates are unbounded integers.
