/**
 * Player actions as a tagged union, and the reverse-action mapping of
 * `getReverseAction` (src/scenes/Play.js:386-405).
 */
module Actions {

  /** A world position (pixels), as held by a sprite's `x` and `y`. */
  datatype Pos = Pos(x: int, y: int)

  /** The three action kinds: a move between two positions, and planting or harvesting one species on a tile. */
  datatype Action =
    | Move(from: Pos, to: Pos)
    | Plant(tileX: int, tileY: int, species: string)
    | Harvest(tileX: int, tileY: int, species: string)

  /** A move is reversed by swapping its ends; planting and harvesting reverse each other on the same tile and species. */
  function ReverseAction(a: Action): (r: Action)
    ensures r.Move? <==> a.Move?
    ensures r.Plant? <==> a.Harvest?
    ensures r.Harvest? <==> a.Plant?
    ensures a.Move? ==> r.from == a.to && r.to == a.from
    ensures !a.Move? ==> r.tileX == a.tileX && r.tileY == a.tileY && r.species == a.species
  {
    match a
    case Move(from, to) => Move(to, from)
    case Plant(x, y, s) => Harvest(x, y, s)
    case Harvest(x, y, s) => Plant(x, y, s)
  }

  /** Reversing twice gives back the original action. */
  lemma ReverseIsInvolution(a: Action)
    ensures ReverseAction(ReverseAction(a)) == a
  {
  }
}
