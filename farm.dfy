/**
 * The rules of the three player actions over the scene state as a value:
 * tile lookup (`getPlantAt`), seeding (`plantSeed`), and the successful and
 * rejected paths of `plantAction`, `harvestAction` and a committed move
 * (src/scenes/Play.js:204-270, 477-549).
 */
module Farm {
  import opened Wrappers
  import Actions
  import TurnCounter
  import History

  /** Tile size in pixels (`gridSize`). */
  const GridSize: int := 16

  /** World to tile coordinate for a layer at the origin: `floor(w / 16)`. */
  function WorldToTile(w: int): (t: int)
    ensures t * GridSize <= w < (t + 1) * GridSize
  {
    w / GridSize
  }

  /** The world coordinate of a tile's centre, where `plantSeed` places a sprite. */
  function TileCenter(t: int): (c: int)
    ensures WorldToTile(c) == t
    ensures t * GridSize <= c < (t + 1) * GridSize
  {
    t * GridSize + GridSize / 2
  }

  /** The plant's sprite lies on tile `(tileX, tileY)`. */
  predicate AtTile(p: History.PlantState, tileX: int, tileY: int)
  {
    WorldToTile(p.x) == tileX && WorldToTile(p.y) == tileY
  }

  /** `getPlantAt` (the `find`): the index of the first plant on the tile, or None. */
  function FindPlant(ps: seq<History.PlantState>, tileX: int, tileY: int): (r: Option<nat>)
    ensures r.Some? ==> r.value < |ps| && AtTile(ps[r.value], tileX, tileY)
    ensures r.Some? ==> forall j :: 0 <= j < r.value ==> !AtTile(ps[j], tileX, tileY)
    ensures r.None? <==> forall j :: 0 <= j < |ps| ==> !AtTile(ps[j], tileX, tileY)
  {
    if |ps| == 0 then None
    else if AtTile(ps[0], tileX, tileY) then Some(0)
    else match FindPlant(ps[1..], tileX, tileY)
      case None => None
      case Some(i) => Some(i + 1)
  }

  /** The plant `plantSeed` creates on a tile. */
  function SeedlingAt(tileX: int, tileY: int, species: string): History.PlantState
  {
    History.PlantState(TileCenter(tileX), TileCenter(tileY), species, 0)
  }

  /**
   * `plantSeed`'s plant list: its guard hands the sprite's WORLD coordinates
   * to the tile lookup, so it appends unless some plant stands on tile
   * `(16 * tileX + 8, 16 * tileY + 8)`.
   */
  function Seed(ps: seq<History.PlantState>, tileX: int, tileY: int, species: string): (r: seq<History.PlantState>)
    ensures |ps| <= |r| <= |ps| + 1 && r[..|ps|] == ps
    ensures |r| == |ps| + 1 <==> FindPlant(ps, TileCenter(tileX), TileCenter(tileY)).None?
    ensures |r| == |ps| + 1 ==> r[|ps|] == SeedlingAt(tileX, tileY, species)
  {
    if FindPlant(ps, TileCenter(tileX), TileCenter(tileY)).None? then ps + [SeedlingAt(tileX, tileY, species)]
    else ps
  }

  /** The guard of `plantSeed` never sees a plant that stands on the tile being seeded. */
  lemma SeedGuardMissesOwnTile(p: History.PlantState, tileX: int, tileY: int)
    requires AtTile(p, tileX, tileY)
    ensures !AtTile(p, TileCenter(tileX), TileCenter(tileY))
  {
    assert TileCenter(tileX) != tileX;
  }

  /** Seeding the same tile twice leaves two plants on it: the guard does not stop the second. */
  lemma SeedTwiceDuplicates(ps: seq<History.PlantState>, tileX: int, tileY: int, species: string)
    requires FindPlant(ps, TileCenter(tileX), TileCenter(tileY)).None?
    ensures Seed(Seed(ps, tileX, tileY, species), tileX, tileY, species)
         == ps + [SeedlingAt(tileX, tileY, species), SeedlingAt(tileX, tileY, species)]
  {
    var once := Seed(ps, tileX, tileY, species);
    assert once == ps + [SeedlingAt(tileX, tileY, species)];
    SeedGuardMissesOwnTile(SeedlingAt(tileX, tileY, species), tileX, tileY);
    assert forall j :: 0 <= j < |once| ==> !AtTile(once[j], TileCenter(tileX), TileCenter(tileY));
  }

  /** The tile under the player. */
  function PlayerTile(w: History.World): (int, int)
  {
    (WorldToTile(w.player.x), WorldToTile(w.player.y))
  }

  /**
   * One call of a plant's `checkGrowthConditions`. The Plant class is not
   * part of this model, so the call is uninterpreted: from the plant's state
   * it gives the new growth stage and the new readiness. It moves no plant
   * and changes no species.
   */
  datatype Growth = Growth(stage: History.PlantState -> int, ready: History.PlantState -> bool)

  /** One growth call, seen through the snapshot view of the plant. */
  function GrowOnce(g: Growth, p: History.PlantState): History.PlantState
  {
    p.(growthStage := g.stage(p))
  }

  /** One `forEach` pass that calls `checkGrowthConditions` on every plant, in order. */
  function GrowPass(g: Growth, ps: seq<History.PlantState>): (r: seq<History.PlantState>)
    ensures |r| == |ps|
    ensures forall i :: 0 <= i < |ps| ==> r[i] == GrowOnce(g, ps[i])
  {
    seq(|ps|, i requires 0 <= i < |ps| => GrowOnce(g, ps[i]))
  }

  /**
   * The plant list after `actionTaken`: when the action ends the turn,
   * `endTurn` runs two passes, `updatePlantsWithEnvironment` and then
   * `updatePlants`.
   */
  function AfterTurnGrowth(g: Growth, turnEnds: bool, ps: seq<History.PlantState>): seq<History.PlantState>
  {
    if turnEnds then GrowPass(g, GrowPass(g, ps)) else ps
  }

  /** `actionTaken` on the scene: the counters, and the plants' growth when the turn ends. */
  function TakeAction(w: History.World, g: Growth): (r: History.World)
    ensures r.turn == TurnCounter.ActionTaken(w.turn)
    ensures r.player == w.player && r.harvested == w.harvested
    ensures r.undoStack == w.undoStack && r.redoStack == w.redoStack
    ensures !TurnCounter.TurnEnds(w.turn) ==> r.plants == w.plants
    ensures TurnCounter.TurnEnds(w.turn) ==>
              |r.plants| == |w.plants|
              && forall i :: 0 <= i < |w.plants| ==> r.plants[i] == GrowOnce(g, GrowOnce(g, w.plants[i]))
  {
    w.(turn := TurnCounter.ActionTaken(w.turn), plants := AfterTurnGrowth(g, TurnCounter.TurnEnds(w.turn), w.plants))
  }

  /** Growth moves no plant, so the tile lookup finds the same plant before and after a pass. */
  lemma {:induction false} GrowthKeepsLookup(g: Growth, ps: seq<History.PlantState>, tileX: int, tileY: int)
    ensures FindPlant(GrowPass(g, ps), tileX, tileY) == FindPlant(ps, tileX, tileY)
  {
    if ps != [] {
      GrowthKeepsLookup(g, ps[1..], tileX, tileY);
      assert GrowPass(g, ps)[1..] == GrowPass(g, ps[1..]);
    }
  }

  /** A pass over a list with one more plant at the end grows that plant too and leaves the rest as before. */
  lemma GrowPassAppend(g: Growth, ps: seq<History.PlantState>, q: History.PlantState)
    ensures GrowPass(g, ps + [q]) == GrowPass(g, ps) + [GrowOnce(g, q)]
  {
    assert forall i :: 0 <= i < |ps| ==> (ps + [q])[i] == ps[i];
  }

  /**
   * `plantAction` on the player's tile: nothing unless the tile is plantable
   * and holds no plant; otherwise seed, count one action and record a
   * "plant" snapshot.
   */
  function PlantStep(w: History.World, plantable: bool, species: string, g: Growth): (r: History.World)
    ensures var (tx, ty) := PlayerTile(w);
            !(plantable && FindPlant(w.plants, tx, ty).None?) ==> r == w
    ensures var (tx, ty) := PlayerTile(w);
            plantable && FindPlant(w.plants, tx, ty).None? ==>
              && r.player == w.player && r.harvested == w.harvested
              && r.turn == TurnCounter.ActionTaken(w.turn)
              && r.plants == AfterTurnGrowth(g, TurnCounter.TurnEnds(w.turn), Seed(w.plants, tx, ty, species))
              && r.undoStack == w.undoStack + [History.Snapshot(History.Planted(species, tx, ty), w.player, r.plants, r.turn)]
              && r.redoStack == []
  {
    var (tx, ty) := PlayerTile(w);
    if plantable && FindPlant(w.plants, tx, ty).None? then
      History.RecordGameState(TakeAction(w.(plants := Seed(w.plants, tx, ty, species)), g), History.Planted(species, tx, ty))
    else w
  }

  /**
   * When planting acts, the plant list grows by at most one plant and by
   * exactly one, on the player's tile with the chosen species, unless a
   * plant stands on tile `(16 * tileX + 8, 16 * tileY + 8)`. The new plant is
   * at stage 0, unless the planting was the turn's last action: then it and
   * every other plant have grown twice before the snapshot is taken.
   */
  lemma PlantStepAddsAtMostOne(w: History.World, species: string, g: Growth)
    requires FindPlant(w.plants, PlayerTile(w).0, PlayerTile(w).1).None?
    ensures var r := PlantStep(w, true, species, g);
            var ends := TurnCounter.TurnEnds(w.turn);
            && |w.plants| <= |r.plants| <= |w.plants| + 1
            && r.plants[..|w.plants|] == AfterTurnGrowth(g, ends, w.plants)
            && (|r.plants| == |w.plants| + 1 <==>
                  FindPlant(w.plants, TileCenter(PlayerTile(w).0), TileCenter(PlayerTile(w).1)).None?)
            && (|r.plants| == |w.plants| + 1 ==>
                  var p := r.plants[|w.plants|];
                  && AtTile(p, PlayerTile(w).0, PlayerTile(w).1) && p.species == species
                  && p.growthStage == (if ends then g.stage(GrowOnce(g, SeedlingAt(PlayerTile(w).0, PlayerTile(w).1, species))) else 0))
  {
    var (tx, ty) := PlayerTile(w);
    var seeded := Seed(w.plants, tx, ty, species);
    if TurnCounter.TurnEnds(w.turn) && |seeded| == |w.plants| + 1 {
      var q := SeedlingAt(tx, ty, species);
      assert seeded == w.plants + [q];
      GrowPassAppend(g, w.plants, q);
      GrowPassAppend(g, GrowPass(g, w.plants), GrowOnce(g, q));
    }
  }

  /**
   * A plant on tile (8, 8) stops planting on tile (0, 0): the action is
   * counted and recorded but no plant appears.
   */
  lemma FarPlantBlocksSeeding(g: Growth)
    ensures var w := History.World(Actions.Pos(4, 4), [History.PlantState(136, 136, "potato", 0)],
                                   TurnCounter.Turn(0, 1), 0, [], []);
            var r := PlantStep(w, true, "tomato", g);
            && r.plants == w.plants
            && r.turn == TurnCounter.Turn(1, 1)
            && |r.undoStack| == 1
  {
    var w := History.World(Actions.Pos(4, 4), [History.PlantState(136, 136, "potato", 0)],
                           TurnCounter.Turn(0, 1), 0, [], []);
    assert PlayerTile(w) == (0, 0);
    assert FindPlant(w.plants, 0, 0).None?;
    assert TileCenter(0) == 8;
    assert FindPlant(w.plants, 8, 8) == Some(0);
  }

  /** `filter` of the harvested plant out of the list. */
  function RemoveAt(ps: seq<History.PlantState>, i: nat): seq<History.PlantState>
    requires i < |ps|
  {
    ps[..i] + ps[i + 1..]
  }

  /**
   * `harvestAction` on the player's tile. None: no plant there, and the
   * dereference of `plant.species` throws before anything is recorded.
   * A plant that is not ready: nothing changes, yet a "harvest" snapshot is
   * recorded. A ready plant: removed, harvest count and action counted,
   * then the snapshot recorded.
   */
  function HarvestStep(w: History.World, ready: bool, g: Growth): (r: Option<History.World>)
    ensures var (tx, ty) := PlayerTile(w);
            r.None? <==> FindPlant(w.plants, tx, ty).None?
    ensures var (tx, ty) := PlayerTile(w);
            r.Some? && !ready ==>
              var p := w.plants[FindPlant(w.plants, tx, ty).value];
              r.value == History.RecordGameState(w, History.Harvested(p.species, tx, ty))
    ensures var (tx, ty) := PlayerTile(w);
            r.Some? && ready ==>
              var i := FindPlant(w.plants, tx, ty).value;
              && r.value.player == w.player
              && r.value.plants == AfterTurnGrowth(g, TurnCounter.TurnEnds(w.turn), RemoveAt(w.plants, i))
              && r.value.harvested == w.harvested + 1
              && r.value.turn == TurnCounter.ActionTaken(w.turn)
              && r.value.undoStack == w.undoStack + [History.Snapshot(History.Harvested(w.plants[i].species, tx, ty),
                                                                       w.player, r.value.plants, r.value.turn)]
              && r.value.redoStack == []
  {
    var (tx, ty) := PlayerTile(w);
    match FindPlant(w.plants, tx, ty)
    case None => None
    case Some(i) =>
      var payload := History.Harvested(w.plants[i].species, tx, ty);
      if ready then
        Some(History.RecordGameState(TakeAction(w.(plants := RemoveAt(w.plants, i), harvested := w.harvested + 1), g), payload))
      else
        Some(History.RecordGameState(w, payload))
  }

  /** Proof helper: the outcome of harvesting once the lookup has found plant `i`. */
  lemma HarvestStepFound(w: History.World, ready: bool, g: Growth, i: nat)
    requires FindPlant(w.plants, PlayerTile(w).0, PlayerTile(w).1) == Some(i)
    ensures var payload := History.Harvested(w.plants[i].species, PlayerTile(w).0, PlayerTile(w).1);
            HarvestStep(w, ready, g)
            == Some(if ready
                    then History.RecordGameState(TakeAction(w.(plants := RemoveAt(w.plants, i), harvested := w.harvested + 1), g), payload)
                    else History.RecordGameState(w, payload))
  {
  }

  /** A committed move (the tween's completion): new position, one action, one "move" snapshot. */
  function MoveStep(w: History.World, target: Actions.Pos, g: Growth): (r: History.World)
    ensures r.player == target && r.harvested == w.harvested
    ensures r.plants == AfterTurnGrowth(g, TurnCounter.TurnEnds(w.turn), w.plants)
    ensures r.turn == TurnCounter.ActionTaken(w.turn)
    ensures r.undoStack == w.undoStack + [History.Snapshot(History.MoveTo(target), target, r.plants, r.turn)]
    ensures r.redoStack == []
  {
    History.RecordGameState(TakeAction(w.(player := target), g), History.MoveTo(target))
  }

  /** Undo straight after a move keeps the player at the move's target: the record ran after the move. */
  lemma UndoAfterMoveKeepsTarget(w: History.World, target: Actions.Pos, g: Growth)
    ensures History.Undo(MoveStep(w, target, g)).player == target
    ensures History.Undo(MoveStep(w, target, g)).turn == TurnCounter.ActionTaken(w.turn)
    ensures History.Undo(MoveStep(w, target, g)).undoStack == w.undoStack
  {
    History.UndoAfterRecord(TakeAction(w.(player := target), g), History.MoveTo(target));
  }

  /**
   * The snapshot of a turn-ending action is taken after `endTurn`'s growth,
   * so undo straight after it keeps every plant grown twice.
   */
  lemma UndoAfterTurnEndKeepsGrowth(w: History.World, target: Actions.Pos, g: Growth)
    requires TurnCounter.TurnEnds(w.turn)
    ensures var u := History.Undo(MoveStep(w, target, g));
            && |u.plants| == |w.plants|
            && (forall i :: 0 <= i < |w.plants| ==> u.plants[i].growthStage == g.stage(GrowOnce(g, w.plants[i])))
            && u.turn == TurnCounter.Turn(0, w.turn.currentTurn + 1)
  {
    History.UndoAfterRecord(TakeAction(w.(player := target), g), History.MoveTo(target));
  }

  /**
   * The action before a turn-ending one recorded its snapshot before that
   * turn's growth, so a second undo goes back to the stages from before it,
   * with that action still counted.
   */
  lemma SecondUndoRevertsGrowth(w: History.World, first: Actions.Pos, second: Actions.Pos, g: Growth)
    requires !TurnCounter.TurnEnds(w.turn) && TurnCounter.TurnEnds(TurnCounter.ActionTaken(w.turn))
    ensures var u := History.UndoTimes(MoveStep(MoveStep(w, first, g), second, g), 2);
            && u.plants == w.plants
            && u.player == first
            && u.turn == TurnCounter.ActionTaken(w.turn)
  {
    History.UndoTimesPopsInOrder(MoveStep(MoveStep(w, first, g), second, g), 2);
  }

  /**
   * Undo straight after a successful planting keeps the new plant list and
   * the counted action: it re-applies the post-action snapshot.
   */
  lemma UndoAfterPlantKeepsPlant(w: History.World, species: string, g: Growth)
    requires FindPlant(w.plants, PlayerTile(w).0, PlayerTile(w).1).None?
    ensures var r := PlantStep(w, true, species, g);
            && History.Undo(r).plants == r.plants
            && History.Undo(r).turn == r.turn
            && History.Undo(r).undoStack == w.undoStack
  {
  }

  /** A refused harvest of an unready plant changes no live state but still empties the redo stack. */
  lemma UnreadyHarvestStillRecords(w: History.World, g: Growth)
    requires FindPlant(w.plants, PlayerTile(w).0, PlayerTile(w).1).Some?
    ensures var r := HarvestStep(w, false, g).value;
            && r.player == w.player && r.plants == w.plants && r.turn == w.turn && r.harvested == w.harvested
            && |r.undoStack| == |w.undoStack| + 1 && r.redoStack == []
  {
  }

  /**
   * Three moves, a planting, then a harvest of the unready plant: the
   * refused harvest still records a snapshot, so the following undo
   * re-applies the post-planting state (the plant stays, four actions
   * used) and the redo after it changes nothing either.
   */
  lemma UndoAfterRefusedHarvestKeepsPlant(g: Growth)
    ensures var w0 := History.World(Actions.Pos(100, 100), [], TurnCounter.Turn(0, 1), 0, [], []);
            var w1 := MoveStep(MoveStep(MoveStep(w0, Actions.Pos(84, 100), g), Actions.Pos(84, 84), g), Actions.Pos(84, 68), g);
            var w2 := PlantStep(w1, true, "potato", g);
            var w3 := HarvestStep(w2, false, g).value;
            var w4 := History.Undo(w3);
            && w2.plants == [History.PlantState(88, 72, "potato", 0)]
            && w3.turn == TurnCounter.Turn(4, 1)
            && w4.plants == w2.plants && w4.turn == TurnCounter.Turn(4, 1)
            && History.Redo(w4).plants == w2.plants && History.Redo(w4).turn == TurnCounter.Turn(4, 1)
  {
    var w0 := History.World(Actions.Pos(100, 100), [], TurnCounter.Turn(0, 1), 0, [], []);
    var w1 := MoveStep(MoveStep(MoveStep(w0, Actions.Pos(84, 100), g), Actions.Pos(84, 84), g), Actions.Pos(84, 68), g);
    assert w1.turn == TurnCounter.Turn(3, 1) && w1.plants == [];
    assert PlayerTile(w1) == (5, 4);
    var w2 := PlantStep(w1, true, "potato", g);
    assert w2.plants == [History.PlantState(88, 72, "potato", 0)];
    assert FindPlant(w2.plants, 5, 4) == Some(0);
    var w3 := HarvestStep(w2, false, g).value;
    assert w3 == History.RecordGameState(w2, History.Harvested("potato", 5, 4));
    History.UndoAfterRecord(w2, History.Harvested("potato", 5, 4));
    History.RedoAfterUndo(w3);
  }

  /** Planting keeps the budget invariant. */
  lemma PlantStepKeepsConsistent(w: History.World, plantable: bool, species: string, g: Growth)
    requires History.Consistent(w)
    ensures History.Consistent(PlantStep(w, plantable, species, g))
  {
    TurnCounter.ActionKeepsBudget(w.turn);
    var (tx, ty) := PlayerTile(w);
    if plantable && FindPlant(w.plants, tx, ty).None? {
      History.RecordKeepsConsistent(TakeAction(w.(plants := Seed(w.plants, tx, ty, species)), g), History.Planted(species, tx, ty));
    }
  }

  /** Harvesting, when it does not throw, keeps the budget invariant. */
  lemma HarvestStepKeepsConsistent(w: History.World, ready: bool, g: Growth)
    requires History.Consistent(w)
    ensures HarvestStep(w, ready, g).Some? ==> History.Consistent(HarvestStep(w, ready, g).value)
  {
    TurnCounter.ActionKeepsBudget(w.turn);
    var (tx, ty) := PlayerTile(w);
    match FindPlant(w.plants, tx, ty)
    case None =>
    case Some(i) =>
      var payload := History.Harvested(w.plants[i].species, tx, ty);
      History.RecordKeepsConsistent(TakeAction(w.(plants := RemoveAt(w.plants, i), harvested := w.harvested + 1), g), payload);
      History.RecordKeepsConsistent(w, payload);
  }

  /** A committed move keeps the budget invariant. */
  lemma MoveStepKeepsConsistent(w: History.World, target: Actions.Pos, g: Growth)
    requires History.Consistent(w)
    ensures History.Consistent(MoveStep(w, target, g))
  {
    TurnCounter.ActionKeepsBudget(w.turn);
    History.RecordKeepsConsistent(TakeAction(w.(player := target), g), History.MoveTo(target));
  }
}
