/**
 * Snapshots and the undo/redo stacks: `recordGameState`, `getPlantStates`,
 * `createCurrentGameState`, `applyGameState`, `undoAction` and `redoAction`
 * (src/scenes/Play.js:273-338), stated over the scene's state as a value.
 */
module History {
  import Actions
  import TurnCounter

  /** What `getPlantStates` keeps of one plant: sprite position, species and growth stage. */
  datatype PlantState = PlantState(x: int, y: int, species: string, growthStage: int)

  /** The `type` of a snapshot and the data spread into it; `createCurrentGameState` has no type. */
  datatype Payload =
    | MoveTo(to: Actions.Pos)
    | Planted(species: string, tileX: int, tileY: int)
    | Harvested(species: string, tileX: int, tileY: int)
    | NoType

  /** One entry of an undo or redo stack. */
  datatype Snapshot = Snapshot(payload: Payload, playerPosition: Actions.Pos,
                               plantStates: seq<PlantState>, turn: TurnCounter.Turn)

  /** The scene state that undo and redo read and write, plus the harvest counter they leave alone. */
  datatype World = World(player: Actions.Pos, plants: seq<PlantState>, turn: TurnCounter.Turn,
                         harvested: int, undoStack: seq<Snapshot>, redoStack: seq<Snapshot>)

  /** The snapshot of the current state with a given payload. */
  function Capture(w: World, payload: Payload): Snapshot
  {
    Snapshot(payload, w.player, w.plants, w.turn)
  }

  /** The live state (position, plant list, counters) equals the snapshot's. */
  predicate Shows(w: World, s: Snapshot)
  {
    w.player == s.playerPosition && w.plants == s.plantStates && w.turn == s.turn
  }

  /** `recordGameState`: push exactly one snapshot of the current state and empty the redo stack. */
  function RecordGameState(w: World, payload: Payload): (r: World)
    ensures r.undoStack == w.undoStack + [Capture(w, payload)]
    ensures r.redoStack == []
    ensures r.player == w.player && r.plants == w.plants && r.turn == w.turn && r.harvested == w.harvested
  {
    w.(undoStack := w.undoStack + [Capture(w, payload)], redoStack := [])
  }

  /** `applyGameState`: position, plant list and counters from the snapshot; stacks and harvest count kept. */
  function ApplyGameState(w: World, s: Snapshot): (r: World)
    ensures Shows(r, s)
    ensures r.harvested == w.harvested && r.undoStack == w.undoStack && r.redoStack == w.redoStack
  {
    w.(player := s.playerPosition, plants := s.plantStates, turn := s.turn)
  }

  /**
   * `undoAction`: nothing on an empty undo stack; otherwise pop the top
   * snapshot, apply it, then push the state reached (not the state before
   * the undo) onto the redo stack.
   */
  function Undo(w: World): (r: World)
    ensures |w.undoStack| == 0 ==> r == w
    ensures |w.undoStack| > 0 ==>
              && Shows(r, w.undoStack[|w.undoStack| - 1])
              && r.undoStack == w.undoStack[..|w.undoStack| - 1]
              && r.redoStack == w.redoStack + [Capture(r, NoType)]
              && r.harvested == w.harvested
  {
    if |w.undoStack| == 0 then w
    else
      var applied := ApplyGameState(w.(undoStack := w.undoStack[..|w.undoStack| - 1]), w.undoStack[|w.undoStack| - 1]);
      applied.(redoStack := applied.redoStack + [Capture(applied, NoType)])
  }

  /** `redoAction`: the mirror image of `undoAction`, from the redo stack to the undo stack. */
  function Redo(w: World): (r: World)
    ensures |w.redoStack| == 0 ==> r == w
    ensures |w.redoStack| > 0 ==>
              && Shows(r, w.redoStack[|w.redoStack| - 1])
              && r.redoStack == w.redoStack[..|w.redoStack| - 1]
              && r.undoStack == w.undoStack + [Capture(r, NoType)]
              && r.harvested == w.harvested
  {
    if |w.redoStack| == 0 then w
    else
      var applied := ApplyGameState(w.(redoStack := w.redoStack[..|w.redoStack| - 1]), w.redoStack[|w.redoStack| - 1]);
      applied.(undoStack := applied.undoStack + [Capture(applied, NoType)])
  }

  /** Undo and redo move one snapshot between the stacks, so the total height is kept. */
  lemma UndoRedoKeepHeight(w: World)
    ensures |Undo(w).undoStack| + |Undo(w).redoStack| == |w.undoStack| + |w.redoStack|
    ensures |Redo(w).undoStack| + |Redo(w).redoStack| == |w.undoStack| + |w.redoStack|
  {
  }

  /**
   * Undo straight after a record re-applies the state captured by that
   * record, and leaves the undo stack as it was before the record.
   */
  lemma UndoAfterRecord(w: World, payload: Payload)
    ensures Shows(Undo(RecordGameState(w, payload)), Capture(w, payload))
    ensures Undo(RecordGameState(w, payload)).undoStack == w.undoStack
    ensures Undo(RecordGameState(w, payload)).redoStack == [Capture(w, NoType)]
  {
  }

  /**
   * Redo straight after an undo re-applies the state the undo reached: the
   * live state does not change, the redo stack is back as it was, and the
   * undo stack has its old height again.
   */
  lemma RedoAfterUndo(w: World)
    requires |w.undoStack| > 0
    ensures Redo(Undo(w)).player == Undo(w).player
    ensures Redo(Undo(w)).plants == Undo(w).plants
    ensures Redo(Undo(w)).turn == Undo(w).turn
    ensures Redo(Undo(w)).redoStack == w.redoStack
    ensures Redo(Undo(w)).undoStack == w.undoStack[..|w.undoStack| - 1] + [Capture(Undo(w), NoType)]
  {
  }

  /** `n` undos in a row. */
  function UndoTimes(w: World, n: nat): World
  {
    if n == 0 then w else Undo(UndoTimes(w, n - 1))
  }

  /**
   * After `n` undos (with at least `n` snapshots) the `n`-th snapshot from
   * the top is live, the top `n` snapshots are gone from the undo stack and
   * the redo stack has grown by `n`, its old part kept.
   */
  lemma {:induction false} UndoTimesPopsInOrder(w: World, n: nat)
    requires 1 <= n <= |w.undoStack|
    ensures Shows(UndoTimes(w, n), w.undoStack[|w.undoStack| - n])
    ensures UndoTimes(w, n).undoStack == w.undoStack[..|w.undoStack| - n]
    ensures |UndoTimes(w, n).redoStack| == |w.redoStack| + n
    ensures UndoTimes(w, n).redoStack[..|w.redoStack|] == w.redoStack
    ensures UndoTimes(w, n).harvested == w.harvested
  {
    if n > 1 {
      UndoTimesPopsInOrder(w, n - 1);
      var v := UndoTimes(w, n - 1);
      assert v.undoStack[|v.undoStack| - 1] == w.undoStack[|w.undoStack| - n];
      assert Undo(v).redoStack[..|w.redoStack|] == v.redoStack[..|w.redoStack|];
    }
  }

  /** Every snapshot on a stack has its counters within the budget. */
  predicate StackInBudget(stack: seq<Snapshot>)
  {
    forall i :: 0 <= i < |stack| ==> TurnCounter.InBudget(stack[i].turn)
  }

  /** The budget invariant of reachable states: the live counters and every stacked snapshot's. */
  predicate Consistent(w: World)
  {
    TurnCounter.InBudget(w.turn) && StackInBudget(w.undoStack) && StackInBudget(w.redoStack)
  }

  /** Recording keeps the budget invariant. */
  lemma RecordKeepsConsistent(w: World, payload: Payload)
    requires Consistent(w)
    ensures Consistent(RecordGameState(w, payload))
  {
    var r := RecordGameState(w, payload);
    forall i | 0 <= i < |r.undoStack|
      ensures TurnCounter.InBudget(r.undoStack[i].turn)
    {
      if i < |w.undoStack| {
        assert r.undoStack[i] == w.undoStack[i];
      }
    }
  }

  /** Undo keeps the budget invariant: it only ever applies and pushes budgeted counters. */
  lemma UndoKeepsConsistent(w: World)
    requires Consistent(w)
    ensures Consistent(Undo(w))
  {
    if |w.undoStack| > 0 {
      var r := Undo(w);
      assert TurnCounter.InBudget(w.undoStack[|w.undoStack| - 1].turn);
      forall i | 0 <= i < |r.redoStack|
        ensures TurnCounter.InBudget(r.redoStack[i].turn)
      {
        if i < |w.redoStack| {
          assert r.redoStack[i] == w.redoStack[i];
        }
      }
      forall i | 0 <= i < |r.undoStack|
        ensures TurnCounter.InBudget(r.undoStack[i].turn)
      {
        assert r.undoStack[i] == w.undoStack[i];
      }
    }
  }

  /** Redo keeps the budget invariant. */
  lemma RedoKeepsConsistent(w: World)
    requires Consistent(w)
    ensures Consistent(Redo(w))
  {
    if |w.redoStack| > 0 {
      var r := Redo(w);
      assert TurnCounter.InBudget(w.redoStack[|w.redoStack| - 1].turn);
      forall i | 0 <= i < |r.undoStack|
        ensures TurnCounter.InBudget(r.undoStack[i].turn)
      {
        if i < |w.undoStack| {
          assert r.undoStack[i] == w.undoStack[i];
        }
      }
      forall i | 0 <= i < |r.redoStack|
        ensures TurnCounter.InBudget(r.redoStack[i].turn)
      {
        assert r.redoStack[i] == w.redoStack[i];
      }
    }
  }
}
