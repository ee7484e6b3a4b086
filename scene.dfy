/**
 * The scene object of src/scenes/Play.js with the engine stripped away: the
 * fields it updates in place (counters, stacks, plant list, player position,
 * grid byte array) and its methods, each proved against the value-level
 * rules of History and Farm.
 */
module Scene {
  import opened Wrappers
  import Actions
  import GridStore
  import TurnCounter
  import History
  import Farm

  /**
   * A crop entity. Its sprite position and species are fixed; growth stage
   * and readiness are updated by growth logic that is not part of this model.
   */
  class Plant {
    const x: int
    const y: int
    const species: string
    var growthStage: int
    var isReadyToHarvest: bool

    /** A new plant has not grown and is not ready. */
    constructor (x: int, y: int, species: string)
      ensures this.x == x && this.y == y && this.species == species
      ensures growthStage == 0 && !isReadyToHarvest
    {
      this.x := x;
      this.y := y;
      this.species := species;
      growthStage := 0;
      isReadyToHarvest := false;
    }

    /** What a snapshot keeps of this plant. */
    function State(): History.PlantState
      reads this
    {
      History.PlantState(x, y, species, growthStage)
    }
  }

  /** No plant object occurs twice in the list. */
  predicate Distinct(ps: seq<Plant>)
  {
    forall i, j :: 0 <= i < j < |ps| ==> ps[i] != ps[j]
  }

  /** `plants.filter((p) => p !== plant)`: drop the given object, keep the order of the rest. */
  function Without(ps: seq<Plant>, plant: Plant): (r: seq<Plant>)
    ensures |r| <= |ps|
    ensures plant !in r
    ensures forall q :: q in r ==> q in ps
  {
    if ps == [] then []
    else (if ps[0] == plant then [] else [ps[0]]) + Without(ps[1..], plant)
  }

  lemma {:induction false} WithoutAbsent(ps: seq<Plant>, plant: Plant)
    requires plant !in ps
    ensures Without(ps, plant) == ps
  {
    if ps != [] {
      WithoutAbsent(ps[1..], plant);
      assert ps == [ps[0]] + ps[1..];
    }
  }

  /** In a list without repeats, filtering out the object at index `i` removes exactly that entry. */
  lemma {:induction false} WithoutAt(ps: seq<Plant>, i: nat)
    requires Distinct(ps) && i < |ps|
    ensures Without(ps, ps[i]) == ps[..i] + ps[i + 1..]
  {
    var tail := ps[1..];
    if i == 0 {
      assert ps[0] !in tail by {
        forall k | 0 <= k < |tail| ensures tail[k] != ps[0] { assert tail[k] == ps[k + 1]; }
      }
      WithoutAbsent(tail, ps[0]);
    } else {
      assert Distinct(tail) by {
        forall a, b | 0 <= a < b < |tail| ensures tail[a] != tail[b] { assert tail[a] == ps[a + 1] && tail[b] == ps[b + 1]; }
      }
      assert ps[0] != ps[i];
      WithoutAt(tail, i - 1);
      assert tail[i - 1] == ps[i];
      assert Without(ps, ps[i]) == [ps[0]] + Without(tail, ps[i]);
      assert tail[..i - 1] + tail[i..] == ps[1..i] + ps[i + 1..];
      assert [ps[0]] + ps[1..i] == ps[..i];
    }
  }

  /** The snapshot view of a list of plants, in order. */
  function StatesOf(ps: seq<Plant>): (r: seq<History.PlantState>)
    reads ps
    ensures |r| == |ps|
    ensures forall i :: 0 <= i < |ps| ==> r[i] == ps[i].State()
  {
    seq(|ps|, i requires 0 <= i < |ps| reads ps => ps[i].State())
  }

  /** Removing one entry keeps a list free of repeats. */
  lemma DistinctRemoveAt(ps: seq<Plant>, i: nat)
    requires Distinct(ps) && i < |ps|
    ensures Distinct(ps[..i] + ps[i + 1..])
  {
    var r := ps[..i] + ps[i + 1..];
    forall a, b | 0 <= a < b < |r|
      ensures r[a] != r[b]
    {
      var a', b' := if a < i then a else a + 1, if b < i then b else b + 1;
      assert r[a] == ps[a'] && r[b] == ps[b'];
    }
  }

  /** The snapshot view of a list with entry `i` removed is the view with state `i` removed. */
  lemma StatesRemoveAt(ps: seq<Plant>, i: nat)
    requires i < |ps|
    ensures StatesOf(ps[..i] + ps[i + 1..]) == Farm.RemoveAt(StatesOf(ps), i)
  {
    var r, s := ps[..i] + ps[i + 1..], StatesOf(ps);
    forall k | 0 <= k < |r|
      ensures StatesOf(r)[k] == Farm.RemoveAt(s, i)[k]
    {
      if k < i {
        assert r[k] == ps[k];
      } else {
        assert r[k] == ps[k + 1];
      }
    }
  }

  /** The scene: counters, history stacks, plant list, player and the grid byte array. */
  class Play {
    /** Grid width and height in tiles (the dirt layer's). */
    const width: nat
    const height: nat
    /** The physics world's bounds. */
    const boundsWidth: int
    const boundsHeight: int
    /** Terrain oracle: the dirt tile at a tile coordinate exists and is flagged plantable. */
    const isPlantable: (int, int) -> bool
    /** Wall oracle: the fence layer holds a tile at a world position. */
    const isWall: (int, int) -> bool
    /** Three bytes per tile: plantable, species code, growth stage. */
    const gridState: array<GridStore.byte>

    var actionCount: int
    var currentTurn: int
    var harvestedPlantsCount: int
    var undoStack: seq<History.Snapshot>
    var redoStack: seq<History.Snapshot>
    var plants: seq<Plant>
    var player: Actions.Pos

    /** The object invariant: the grid's size, a repeat-free plant list and the budget invariant. */
    ghost predicate Valid()
      reads this, plants
    {
      && gridState.Length == GridStore.RecordSize * width * height
      && Distinct(plants)
      && History.Consistent(Abstract())
    }

    /** The scene state as a value. */
    ghost function Abstract(): History.World
      reads this, plants
    {
      History.World(player, PlantStates(), TurnCounter.Turn(actionCount, currentTurn),
                    harvestedPlantsCount, undoStack, redoStack)
    }

    /** `constructor` and the state part of `create`: a zeroed grid, no plants, turn 1 and the player at (100, 100). */
    constructor (width: nat, height: nat, boundsWidth: int, boundsHeight: int,
                 isPlantable: (int, int) -> bool, isWall: (int, int) -> bool)
      ensures this.width == width && this.height == height
      ensures this.boundsWidth == boundsWidth && this.boundsHeight == boundsHeight
      ensures this.isPlantable == isPlantable && this.isWall == isWall
      ensures fresh(gridState) && gridState.Length == GridStore.RecordSize * width * height
      ensures forall i :: 0 <= i < gridState.Length ==> gridState[i] == 0
      ensures Valid()
      ensures Abstract() == History.World(Actions.Pos(100, 100), [], TurnCounter.Turn(0, 1), 0, [], [])
    {
      this.width := width;
      this.height := height;
      this.boundsWidth := boundsWidth;
      this.boundsHeight := boundsHeight;
      this.isPlantable := isPlantable;
      this.isWall := isWall;
      gridState := new GridStore.byte[GridStore.RecordSize * width * height](_ => 0);
      actionCount := 0;
      currentTurn := 1;
      harvestedPlantsCount := 0;
      undoStack := [];
      redoStack := [];
      plants := [];
      player := Actions.Pos(100, 100);
    }

    /** `getPlantStates`: one state per plant, in list order. */
    function PlantStates(): (r: seq<History.PlantState>)
      reads this`plants, plants
      ensures |r| == |plants|
      ensures forall i :: 0 <= i < |plants| ==> r[i] == plants[i].State()
    {
      StatesOf(plants)
    }

    /** `createCurrentGameState`: a snapshot without a type. */
    function CurrentGameState(): (s: History.Snapshot)
      reads this, plants
      ensures s == History.Capture(Abstract(), History.NoType)
    {
      History.Snapshot(History.NoType, player, PlantStates(), TurnCounter.Turn(actionCount, currentTurn))
    }

    /** `getPlantAt` in tile coordinates: the first plant object whose sprite lies on the tile. */
    function GetPlantAt(tileX: int, tileY: int): (r: Option<Plant>)
      reads this, plants
      ensures r.None? <==> forall i :: 0 <= i < |plants| ==> !Farm.AtTile(plants[i].State(), tileX, tileY)
      ensures r.None? <==> Farm.FindPlant(PlantStates(), tileX, tileY).None?
      ensures r.Some? ==> Farm.FindPlant(PlantStates(), tileX, tileY).Some?
                          && r.value == plants[Farm.FindPlant(PlantStates(), tileX, tileY).value]
    {
      match Farm.FindPlant(PlantStates(), tileX, tileY)
      case None => None
      case Some(i) => Some(plants[i])
    }

    /** `getGridState`: the tile's record, or None for the record whose three fields read `undefined`. */
    function GetGridState(tileX: int, tileY: int): (r: Option<GridStore.GridRecord>)
      reads gridState
      ensures r.Some? <==> 0 <= GridStore.GridStateIndex(width, tileX, tileY)
                           && GridStore.GridStateIndex(width, tileX, tileY) + 2 < gridState.Length
    {
      GridStore.ReadRecord(gridState[..], GridStore.GridStateIndex(width, tileX, tileY))
    }

    /** `setGridState`: three typed-array stores, each ignored outside the array. */
    method SetGridState(tileX: int, tileY: int, state: GridStore.GridRecord)
      modifies gridState
      ensures gridState[..] == GridStore.WriteRecord(old(gridState[..]), GridStore.GridStateIndex(width, tileX, tileY), state)
      ensures var index := GridStore.GridStateIndex(width, tileX, tileY);
              0 <= index && index + 2 < gridState.Length ==> GetGridState(tileX, tileY) == Some(GridStore.Stored(state))
    {
      var index := GridStore.GridStateIndex(width, tileX, tileY);
      StoreRecord(index, state);
      if 0 <= index && index + 2 < gridState.Length {
        GridStore.ReadAfterWrite(old(gridState[..]), index, state);
      }
    }

    /** The three stores at `index`, `index + 1` and `index + 2`. */
    method StoreRecord(index: int, state: GridStore.GridRecord)
      modifies gridState
      ensures gridState[..] == GridStore.WriteRecord(old(gridState[..]), index, state)
    {
      ghost var g0 := gridState[..];
      if 0 <= index < gridState.Length {
        gridState[index] := GridStore.ToUint8(state.plantable);
      }
      assert gridState[..] == GridStore.WriteByte(g0, index, state.plantable);
      ghost var g1 := gridState[..];
      if 0 <= index + 1 < gridState.Length {
        gridState[index + 1] := GridStore.ToUint8(state.speciesCode);
      }
      assert gridState[..] == GridStore.WriteByte(g1, index + 1, state.speciesCode);
      ghost var g2 := gridState[..];
      if 0 <= index + 2 < gridState.Length {
        gridState[index + 2] := GridStore.ToUint8(state.growthStage);
      }
      assert gridState[..] == GridStore.WriteByte(g2, index + 2, state.growthStage);
    }

    /** `applyGridStateChange`: plant writes `{1, code, 0}`, harvest `{0, 0, 0}`, a move nothing. */
    method ApplyGridStateChange(action: Actions.Action)
      modifies gridState
      ensures gridState[..] == GridStore.GridAfterChange(old(gridState[..]), width, action)
    {
      match action
      case Move(_, _) =>
      case Plant(x, y, s) =>
        StoreRecord(GridStore.GridStateIndex(width, x, y), GridStore.PlantedRecord(s));
      case Harvest(x, y, _) =>
        StoreRecord(GridStore.GridStateIndex(width, x, y), GridStore.ClearedRecord);
    }

    /** `canMoveTo`: inside the world bounds (both ends included) and not on a wall. */
    function CanMoveTo(x: int, y: int): (ok: bool)
      ensures ok ==> 0 <= x <= boundsWidth && 0 <= y <= boundsHeight
      ensures ok ==> !isWall(x, y)
      ensures !ok ==> x < 0 || x > boundsWidth || y < 0 || y > boundsHeight || isWall(x, y)
    {
      x >= 0 && x <= boundsWidth && y >= 0 && y <= boundsHeight && !isWall(x, y)
    }

    /**
     * One growth pass (the `forEach` of `updatePlantsWithEnvironment` and of
     * `updatePlants`): every plant in turn takes its new stage and readiness
     * from one growth call on its current state.
     */
    method GrowthPass(g: Farm.Growth)
      requires Distinct(plants)
      modifies plants
      ensures PlantStates() == Farm.GrowPass(g, old(PlantStates()))
      ensures forall i :: 0 <= i < |plants| ==> plants[i].isReadyToHarvest == g.ready(old(plants[i].State()))
    {
      var i := 0;
      while i < |plants|
        invariant 0 <= i <= |plants|
        invariant forall j :: 0 <= j < i ==> plants[j].State() == Farm.GrowOnce(g, old(plants[j].State()))
        invariant forall j :: 0 <= j < i ==> plants[j].isReadyToHarvest == g.ready(old(plants[j].State()))
        invariant forall j :: i <= j < |plants| ==> plants[j].growthStage == old(plants[j].growthStage)
      {
        var plant := plants[i];
        var state := plant.State();
        plant.growthStage := g.stage(state);
        plant.isReadyToHarvest := g.ready(state);
        i := i + 1;
      }
    }

    /**
     * `endTurn`: next turn with the count reset, then the two growth passes
     * (`updatePlantsWithEnvironment`, `updatePlants`).
     */
    method EndTurn(g: Farm.Growth)
      requires Distinct(plants)
      modifies this`actionCount, this`currentTurn, plants
      ensures TurnCounter.Turn(actionCount, currentTurn) == TurnCounter.EndTurn(old(TurnCounter.Turn(actionCount, currentTurn)))
      ensures PlantStates() == Farm.GrowPass(g, Farm.GrowPass(g, old(PlantStates())))
      ensures forall i :: 0 <= i < |plants| ==> plants[i].isReadyToHarvest == g.ready(Farm.GrowOnce(g, old(plants[i].State())))
    {
      currentTurn := currentTurn + 1;
      actionCount := 0;
      ghost var before := PlantStates();
      GrowthPass(g);
      assert forall i :: 0 <= i < |plants| ==> plants[i].State() == Farm.GrowOnce(g, before[i]);
      GrowthPass(g);
    }

    /** `actionTaken`: count one action and end the turn once the budget is reached. */
    method ActionTaken(g: Farm.Growth)
      requires Distinct(plants)
      modifies this`actionCount, this`currentTurn, plants
      ensures TurnCounter.Turn(actionCount, currentTurn) == TurnCounter.ActionTaken(old(TurnCounter.Turn(actionCount, currentTurn)))
      ensures Abstract() == Farm.TakeAction(old(Abstract()), g)
      ensures !TurnCounter.TurnEnds(old(TurnCounter.Turn(actionCount, currentTurn))) ==> unchanged(plants)
      ensures TurnCounter.TurnEnds(old(TurnCounter.Turn(actionCount, currentTurn))) ==>
                forall i :: 0 <= i < |plants| ==> plants[i].isReadyToHarvest == g.ready(Farm.GrowOnce(g, old(plants[i].State())))
    {
      ghost var w := Abstract();
      actionCount := actionCount + 1;
      if actionCount >= TurnCounter.ActionsPerTurn {
        EndTurn(g);
        assert PlantStates() == Farm.AfterTurnGrowth(g, true, w.plants);
      }
    }

    /** `recordGameState`: push a snapshot of the current state, clear the redo stack. */
    method RecordGameState(payload: History.Payload)
      modifies this`undoStack, this`redoStack
      ensures Abstract() == History.RecordGameState(old(Abstract()), payload)
    {
      undoStack := undoStack + [History.Snapshot(payload, player, PlantStates(), TurnCounter.Turn(actionCount, currentTurn))];
      redoStack := [];
    }

    /** `applyPlantStates`: discard every plant and recreate one fresh plant per state, in order. */
    method ApplyPlantStates(states: seq<History.PlantState>)
      modifies this`plants
      ensures PlantStates() == states
      ensures Distinct(plants)
      ensures forall p :: p in plants ==> fresh(p) && !p.isReadyToHarvest
    {
      plants := [];
      var i := 0;
      while i < |states|
        invariant 0 <= i <= |states|
        invariant |plants| == i
        invariant forall j :: 0 <= j < i ==> plants[j].State() == states[j]
        invariant forall p :: p in plants ==> fresh(p) && !p.isReadyToHarvest
        invariant Distinct(plants)
      {
        var plant := new Plant(states[i].x, states[i].y, states[i].species);
        plant.growthStage := states[i].growthStage;
        plants := plants + [plant];
        i := i + 1;
      }
    }

    /** `applyGameState`: position, plant list and counters from the snapshot. */
    method ApplyGameState(s: History.Snapshot)
      modifies this`player, this`plants, this`actionCount, this`currentTurn
      ensures Abstract() == History.ApplyGameState(old(Abstract()), s)
      ensures Distinct(plants)
      ensures forall p :: p in plants ==> fresh(p) && !p.isReadyToHarvest
    {
      player := s.playerPosition;
      ApplyPlantStates(s.plantStates);
      actionCount := s.turn.actionCount;
      currentTurn := s.turn.currentTurn;
    }

    /** `undoAction`: pop, apply, then push the state reached onto the redo stack. */
    method UndoAction()
      requires Valid()
      modifies this
      ensures Valid()
      ensures Abstract() == History.Undo(old(Abstract()))
      ensures |old(undoStack)| == 0 ==> plants == old(plants)
      ensures |old(undoStack)| > 0 ==> forall p :: p in plants ==> fresh(p) && !p.isReadyToHarvest
    {
      ghost var w := Abstract();
      History.UndoKeepsConsistent(w);
      if |undoStack| > 0 {
        var prevState := undoStack[|undoStack| - 1];
        undoStack := undoStack[..|undoStack| - 1];
        ApplyGameState(prevState);
        redoStack := redoStack + [CurrentGameState()];
      }
    }

    /** `redoAction`: pop, apply, then push the state reached onto the undo stack. */
    method RedoAction()
      requires Valid()
      modifies this
      ensures Valid()
      ensures Abstract() == History.Redo(old(Abstract()))
      ensures |old(redoStack)| == 0 ==> plants == old(plants)
      ensures |old(redoStack)| > 0 ==> forall p :: p in plants ==> fresh(p) && !p.isReadyToHarvest
    {
      ghost var w := Abstract();
      History.RedoKeepsConsistent(w);
      if |redoStack| > 0 {
        var nextState := redoStack[|redoStack| - 1];
        redoStack := redoStack[..|redoStack| - 1];
        ApplyGameState(nextState);
        undoStack := undoStack + [CurrentGameState()];
      }
    }

    /**
     * `plantSeed`: append a plant at the tile's centre unless the lookup with
     * the centre's world coordinates finds one, then write `{1, code, 0}`.
     */
    method PlantSeed(tileX: int, tileY: int, species: string)
      requires Distinct(plants)
      modifies this`plants, gridState
      ensures PlantStates() == Farm.Seed(old(PlantStates()), tileX, tileY, species)
      ensures |plants| == |old(plants)| || |plants| == |old(plants)| + 1
      ensures plants[..|old(plants)|] == old(plants)
      ensures |plants| == |old(plants)| + 1 ==> fresh(plants[|old(plants)|]) && !plants[|old(plants)|].isReadyToHarvest
      ensures Distinct(plants)
      ensures gridState[..] == GridStore.WriteRecord(old(gridState[..]), GridStore.GridStateIndex(width, tileX, tileY),
                                                     GridStore.PlantedRecord(species))
    {
      var x := tileX * Farm.GridSize + Farm.GridSize / 2;
      var y := tileY * Farm.GridSize + Farm.GridSize / 2;
      if GetPlantAt(x, y).None? {
        var plant := new Plant(x, y, species);
        plants := plants + [plant];
        assert PlantStates() == old(PlantStates()) + [Farm.SeedlingAt(tileX, tileY, species)];
      }
      var index := GridStore.GridStateIndex(width, tileX, tileY);
      StoreRecord(index, GridStore.PlantedRecord(species));
    }

    /** The tile under the player. */
    function PlayerTile(): (int, int)
      reads this
    {
      (Farm.WorldToTile(player.x), Farm.WorldToTile(player.y))
    }

    /**
     * `plantAction` with the chosen species: acts only on a plantable tile
     * without a plant; then seeds, counts one action and records.
     */
    method PlantAction(species: string, g: Farm.Growth)
      requires Valid()
      requires GridStore.IsSpeciesName(species)
      modifies this, gridState, plants
      ensures Valid()
      ensures Abstract() == Farm.PlantStep(old(Abstract()), isPlantable(old(PlayerTile()).0, old(PlayerTile()).1), species, g)
      ensures var (tx, ty) := old(PlayerTile());
              gridState[..] == if isPlantable(tx, ty) && old(GetPlantAt(tx, ty)).None?
                               then GridStore.WriteRecord(old(gridState[..]), GridStore.GridStateIndex(width, tx, ty),
                                                          GridStore.PlantedRecord(species))
                               else old(gridState[..])
      ensures var (tx, ty) := old(PlayerTile());
              !(isPlantable(tx, ty) && old(GetPlantAt(tx, ty)).None?) ==> plants == old(plants) && unchanged(plants)
      ensures |old(plants)| <= |plants| <= |old(plants)| + 1 && plants[..|old(plants)|] == old(plants)
      ensures |plants| == |old(plants)| + 1 ==> fresh(plants[|old(plants)|])
      ensures !TurnCounter.TurnEnds(old(TurnCounter.Turn(actionCount, currentTurn))) ==>
                && (forall i :: 0 <= i < |old(plants)| ==> plants[i].isReadyToHarvest == old(plants[i].isReadyToHarvest))
                && (|plants| == |old(plants)| + 1 ==> !plants[|old(plants)|].isReadyToHarvest)
      ensures var (tx, ty) := old(PlayerTile());
              isPlantable(tx, ty) && old(GetPlantAt(tx, ty)).None? && TurnCounter.TurnEnds(old(TurnCounter.Turn(actionCount, currentTurn))) ==>
                && (forall i :: 0 <= i < |old(plants)| ==>
                      plants[i].isReadyToHarvest == g.ready(Farm.GrowOnce(g, old(plants[i].State()))))
                && (|plants| == |old(plants)| + 1 ==>
                      plants[|old(plants)|].isReadyToHarvest == g.ready(Farm.GrowOnce(g, Farm.SeedlingAt(tx, ty, species))))
    {
      ghost var w := Abstract();
      var (tileX, tileY) := PlayerTile();
      Farm.PlantStepKeepsConsistent(w, isPlantable(tileX, tileY), species, g);
      if isPlantable(tileX, tileY) && GetPlantAt(tileX, tileY).None? {
        PlantOnTile(tileX, tileY, species, g);
      }
    }

    /** The acting path of `plantAction`: seed the tile, count one action, record a "plant" snapshot. */
    method PlantOnTile(tileX: int, tileY: int, species: string, g: Farm.Growth)
      requires Distinct(plants)
      modifies this`plants, this`actionCount, this`currentTurn, this`undoStack, this`redoStack, plants, gridState
      ensures Distinct(plants)
      ensures Abstract() == History.RecordGameState(Farm.TakeAction(old(Abstract()).(plants := Farm.Seed(old(PlantStates()), tileX, tileY, species)), g),
                                                    History.Planted(species, tileX, tileY))
      ensures gridState[..] == GridStore.WriteRecord(old(gridState[..]), GridStore.GridStateIndex(width, tileX, tileY),
                                                     GridStore.PlantedRecord(species))
      ensures |old(plants)| <= |plants| <= |old(plants)| + 1 && plants[..|old(plants)|] == old(plants)
      ensures |plants| == |old(plants)| + 1 ==> fresh(plants[|old(plants)|])
      ensures !TurnCounter.TurnEnds(old(TurnCounter.Turn(actionCount, currentTurn))) ==>
                && (forall i :: 0 <= i < |old(plants)| ==> plants[i].isReadyToHarvest == old(plants[i].isReadyToHarvest))
                && (|plants| == |old(plants)| + 1 ==> !plants[|old(plants)|].isReadyToHarvest)
      ensures TurnCounter.TurnEnds(old(TurnCounter.Turn(actionCount, currentTurn))) ==>
                && (forall i :: 0 <= i < |old(plants)| ==>
                      plants[i].isReadyToHarvest == g.ready(Farm.GrowOnce(g, old(plants[i].State()))))
                && (|plants| == |old(plants)| + 1 ==>
                      plants[|old(plants)|].isReadyToHarvest == g.ready(Farm.GrowOnce(g, Farm.SeedlingAt(tileX, tileY, species))))
    {
      SeedAndCount(tileX, tileY, species, g);
      RecordGameState(History.Planted(species, tileX, tileY));
    }

    /** `plantSeed` followed by `actionTaken`: the seeded tile, then one counted action and its growth. */
    method SeedAndCount(tileX: int, tileY: int, species: string, g: Farm.Growth)
      requires Distinct(plants)
      modifies this`plants, this`actionCount, this`currentTurn, plants, gridState
      ensures Distinct(plants)
      ensures Abstract() == Farm.TakeAction(old(Abstract()).(plants := Farm.Seed(old(PlantStates()), tileX, tileY, species)), g)
      ensures gridState[..] == GridStore.WriteRecord(old(gridState[..]), GridStore.GridStateIndex(width, tileX, tileY),
                                                     GridStore.PlantedRecord(species))
      ensures |old(plants)| <= |plants| <= |old(plants)| + 1 && plants[..|old(plants)|] == old(plants)
      ensures |plants| == |old(plants)| + 1 ==> fresh(plants[|old(plants)|])
      ensures !TurnCounter.TurnEnds(old(TurnCounter.Turn(actionCount, currentTurn))) ==>
                && (forall i :: 0 <= i < |old(plants)| ==> plants[i].isReadyToHarvest == old(plants[i].isReadyToHarvest))
                && (|plants| == |old(plants)| + 1 ==> !plants[|old(plants)|].isReadyToHarvest)
      ensures TurnCounter.TurnEnds(old(TurnCounter.Turn(actionCount, currentTurn))) ==>
                && (forall i :: 0 <= i < |old(plants)| ==>
                      plants[i].isReadyToHarvest == g.ready(Farm.GrowOnce(g, old(plants[i].State()))))
                && (|plants| == |old(plants)| + 1 ==>
                      plants[|old(plants)|].isReadyToHarvest == g.ready(Farm.GrowOnce(g, Farm.SeedlingAt(tileX, tileY, species))))
    {
      ghost var w := Abstract();
      PlantSeed(tileX, tileY, species);
      assert Abstract() == w.(plants := Farm.Seed(w.plants, tileX, tileY, species));
      ActionTaken(g);
    }

    /** `harvestPlant`: filter the plant out and count the harvest. */
    method HarvestPlant(plant: Plant)
      requires Distinct(plants)
      modifies this`plants, this`harvestedPlantsCount
      ensures plants == Without(old(plants), plant)
      ensures Distinct(plants)
      ensures forall i :: 0 <= i < |old(plants)| && old(plants)[i] == plant ==>
                Abstract() == old(Abstract()).(plants := Farm.RemoveAt(old(PlantStates()), i),
                                               harvested := old(harvestedPlantsCount) + 1)
      ensures harvestedPlantsCount == old(harvestedPlantsCount) + 1
    {
      ghost var before := plants;
      if plant in plants {
        var i :| 0 <= i < |plants| && plants[i] == plant;
        WithoutAt(plants, i);
        DistinctRemoveAt(plants, i);
        StatesRemoveAt(plants, i);
        plants := Without(plants, plant);
        assert forall j :: 0 <= j < |before| && before[j] == plant ==> j == i;
      } else {
        WithoutAbsent(plants, plant);
        plants := Without(plants, plant);
      }
      harvestedPlantsCount := harvestedPlantsCount + 1;
    }

    /** Readiness of the plant under the player, false when there is none. */
    function PlayerPlantReady(): bool
      reads this, plants
    {
      match GetPlantAt(PlayerTile().0, PlayerTile().1)
      case None => false
      case Some(p) => p.isReadyToHarvest
    }

    /**
     * `harvestAction`: `threw` when no plant is under the player (the
     * `plant.species` dereference fails before anything is recorded);
     * otherwise harvest a ready plant, and record a snapshot either way.
     * The grid bytes are never touched.
     */
    method HarvestAction(g: Farm.Growth) returns (threw: bool)
      requires Valid()
      modifies this, plants
      ensures Valid()
      ensures var r := Farm.HarvestStep(old(Abstract()), old(PlayerPlantReady()), g);
              && (threw <==> r.None?)
              && Abstract() == (if threw then old(Abstract()) else r.value)
      ensures gridState[..] == old(gridState[..])
      ensures threw || !old(PlayerPlantReady()) ==> plants == old(plants) && unchanged(plants)
      ensures old(PlayerPlantReady()) ==> plants == Without(old(plants), old(GetPlantAt(PlayerTile().0, PlayerTile().1)).value)
      ensures old(PlayerPlantReady()) && !TurnCounter.TurnEnds(old(TurnCounter.Turn(actionCount, currentTurn))) ==> unchanged(old(plants))
      ensures old(PlayerPlantReady()) && TurnCounter.TurnEnds(old(TurnCounter.Turn(actionCount, currentTurn))) ==>
                forall q :: q in plants ==> q.isReadyToHarvest == g.ready(Farm.GrowOnce(g, old(q.State())))
    {
      ghost var w := Abstract();
      ghost var ready := PlayerPlantReady();
      Farm.HarvestStepKeepsConsistent(w, ready, g);
      var (tileX, tileY) := PlayerTile();
      var found := GetPlantAt(tileX, tileY);
      if found.None? {
        threw := true;
        return;
      }
      threw := false;
      var plant := found.value;
      ghost var i := Farm.FindPlant(w.plants, tileX, tileY).value;
      ghost var payload := History.Harvested(plant.species, tileX, tileY);
      assert payload == History.Harvested(w.plants[i].species, tileX, tileY);
      assert Farm.PlayerTile(w) == (tileX, tileY);
      assert ready == plant.isReadyToHarvest;
      if plant.isReadyToHarvest {
        HarvestReady(plant, i, History.Harvested(plant.species, tileX, tileY), g);
        Farm.HarvestStepFound(w, ready, g, i);
      } else {
        RecordGameState(History.Harvested(plant.species, tileX, tileY));
        Farm.HarvestStepFound(w, ready, g, i);
      }
    }

    /** The ready path of `harvestAction`: remove the plant, count the harvest and one action, record. */
    method HarvestReady(plant: Plant, ghost i: nat, payload: History.Payload, g: Farm.Growth)
      requires Distinct(plants) && i < |plants| && plants[i] == plant
      modifies this`plants, this`harvestedPlantsCount, this`actionCount, this`currentTurn, this`undoStack, this`redoStack, plants
      ensures Distinct(plants)
      ensures Abstract() == History.RecordGameState(Farm.TakeAction(old(Abstract()).(plants := Farm.RemoveAt(old(PlantStates()), i),
                                                                                      harvested := old(harvestedPlantsCount) + 1), g),
                                                    payload)
      ensures plants == Without(old(plants), plant)
      ensures !TurnCounter.TurnEnds(old(TurnCounter.Turn(actionCount, currentTurn))) ==> unchanged(old(plants))
      ensures TurnCounter.TurnEnds(old(TurnCounter.Turn(actionCount, currentTurn))) ==>
                forall q :: q in plants ==> q.isReadyToHarvest == g.ready(Farm.GrowOnce(g, old(q.State())))
    {
      HarvestPlant(plant);
      assert forall j :: 0 <= j < |plants| ==> plants[j] in old(plants);
      ActionTaken(g);
      RecordGameState(payload);
    }

    /** The completion of `movePlayer`'s tween: commit the position, count one action, record a "move". */
    method MovePlayer(targetX: int, targetY: int, g: Farm.Growth)
      requires Valid()
      modifies this, plants
      ensures Valid()
      ensures Abstract() == Farm.MoveStep(old(Abstract()), Actions.Pos(targetX, targetY), g)
      ensures plants == old(plants)
      ensures !TurnCounter.TurnEnds(old(TurnCounter.Turn(actionCount, currentTurn))) ==> unchanged(plants)
      ensures TurnCounter.TurnEnds(old(TurnCounter.Turn(actionCount, currentTurn))) ==>
                forall i :: 0 <= i < |plants| ==> plants[i].isReadyToHarvest == g.ready(Farm.GrowOnce(g, old(plants[i].State())))
    {
      Farm.MoveStepKeepsConsistent(Abstract(), Actions.Pos(targetX, targetY), g);
      player := Actions.Pos(targetX, targetY);
      ActionTaken(g);
      RecordGameState(History.MoveTo(Actions.Pos(targetX, targetY)));
    }

    /** A movement key: move only when `canMoveTo` allows the target. */
    method TryMove(targetX: int, targetY: int, g: Farm.Growth) returns (moved: bool)
      requires Valid()
      modifies this, plants
      ensures Valid()
      ensures moved == CanMoveTo(targetX, targetY)
      ensures moved ==> 0 <= player.x <= boundsWidth && 0 <= player.y <= boundsHeight && !isWall(player.x, player.y)
      ensures !moved ==> unchanged(this) && unchanged(plants)
      ensures moved ==> plants == old(plants)
      ensures moved && !TurnCounter.TurnEnds(old(TurnCounter.Turn(actionCount, currentTurn))) ==> unchanged(plants)
      ensures moved && TurnCounter.TurnEnds(old(TurnCounter.Turn(actionCount, currentTurn))) ==>
                forall i :: 0 <= i < |plants| ==> plants[i].isReadyToHarvest == g.ready(Farm.GrowOnce(g, old(plants[i].State())))
      ensures Abstract() == if moved then Farm.MoveStep(old(Abstract()), Actions.Pos(targetX, targetY), g) else old(Abstract())
    {
      moved := CanMoveTo(targetX, targetY);
      if moved {
        MovePlayer(targetX, targetY, g);
      }
    }
  }
}
