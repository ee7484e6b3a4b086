/**
 * The action budget: `actionTaken` and the counter part of `endTurn`
 * (src/scenes/Play.js:428-451).
 */
module TurnCounter {

  /** Actions allowed per turn (`actionsPerTurn`). */
  const ActionsPerTurn: int := 10

  /** The pair of counters `actionCount` and `currentTurn`. */
  datatype Turn = Turn(actionCount: int, currentTurn: int)

  /** The budget range every reachable state keeps. */
  predicate InBudget(t: Turn)
  {
    0 <= t.actionCount < ActionsPerTurn && 1 <= t.currentTurn
  }

  /** `endTurn`'s counters: the next turn, no action taken yet. */
  function EndTurn(t: Turn): (r: Turn)
    ensures r.actionCount == 0 && r.currentTurn == t.currentTurn + 1
    ensures 1 <= t.currentTurn ==> InBudget(r)
  {
    Turn(0, t.currentTurn + 1)
  }

  /** The next action uses up the budget, so `actionTaken` calls `endTurn`. */
  predicate TurnEnds(t: Turn)
  {
    t.actionCount + 1 >= ActionsPerTurn
  }

  /**
   * `actionTaken`: one more action; once the count reaches the budget
   * (`>=`), the turn ends.
   */
  function ActionTaken(t: Turn): (r: Turn)
    ensures r.currentTurn == t.currentTurn || r.currentTurn == t.currentTurn + 1
    ensures r.currentTurn == t.currentTurn + 1 <==> TurnEnds(t)
    ensures r.currentTurn == t.currentTurn ==> r.actionCount == t.actionCount + 1
    ensures r.currentTurn != t.currentTurn ==> r.actionCount == 0
  {
    var counted := Turn(t.actionCount + 1, t.currentTurn);
    if counted.actionCount >= ActionsPerTurn then EndTurn(counted) else counted
  }

  /** From within the budget an action stays within it, and the turn number never goes down. */
  lemma ActionKeepsBudget(t: Turn)
    requires InBudget(t)
    ensures InBudget(ActionTaken(t))
    ensures ActionTaken(t).currentTurn >= t.currentTurn
  {
  }

  /** The counters after `n` successive actions. */
  function AfterActions(t: Turn, n: nat): Turn
  {
    if n == 0 then t else ActionTaken(AfterActions(t, n - 1))
  }

  /**
   * From within the budget, `n` actions leave `(count + n) % 10` actions
   * used and advance the turn by `(count + n) / 10`.
   */
  lemma {:induction false} AfterActionsCounts(t: Turn, n: nat)
    requires 0 <= t.actionCount < ActionsPerTurn
    ensures AfterActions(t, n)
         == Turn((t.actionCount + n) % ActionsPerTurn, t.currentTurn + (t.actionCount + n) / ActionsPerTurn)
  {
    if n > 0 {
      AfterActionsCounts(t, n - 1);
      var m := t.actionCount + n - 1;
      assert m == ActionsPerTurn * (m / ActionsPerTurn) + m % ActionsPerTurn;
      if m % ActionsPerTurn == ActionsPerTurn - 1 {
        assert m + 1 == ActionsPerTurn * (m / ActionsPerTurn + 1);
        assert (m + 1) % ActionsPerTurn == 0;
        assert (m + 1) / ActionsPerTurn == m / ActionsPerTurn + 1;
      } else {
        assert m + 1 == ActionsPerTurn * (m / ActionsPerTurn) + (m % ActionsPerTurn + 1);
        assert (m + 1) % ActionsPerTurn == m % ActionsPerTurn + 1;
        assert (m + 1) / ActionsPerTurn == m / ActionsPerTurn;
      }
    }
  }

  /** Ten actions from the start of a turn end it: the next turn begins with no action used. */
  lemma FullTurnAdvances(turn: int)
    ensures AfterActions(Turn(0, turn), ActionsPerTurn) == Turn(0, turn + 1)
  {
    AfterActionsCounts(Turn(0, turn), ActionsPerTurn);
  }
}
