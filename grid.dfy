/**
 * The packed grid store: a byte array with three bytes per tile
 * (plantable, species code, growth stage), addressed row by row
 * (src/scenes/Play.js:83-84, 354-384, 552-561).
 */
module GridStore {
  import opened Wrappers
  import Actions

  /** One element of the Uint8Array that backs the grid. */
  newtype byte = b: int | 0 <= b < 256

  /** Bytes per tile record. */
  const RecordSize: int := 3

  /** A tile record as an object of three numbers, as `getGridState` returns and `setGridState` takes it. */
  datatype GridRecord = GridRecord(plantable: int, speciesCode: int, growthStage: int)

  /** Offset of a tile's record: `(tileY * width + tileX) * 3`. No bounds check is made. */
  function GridStateIndex(width: int, tileX: int, tileY: int): (i: int)
    ensures i % RecordSize == 0
  {
    (tileY * width + tileX) * RecordSize
  }

  lemma MulMonotone(a: int, b: int, c: int)
    requires a <= b && 0 <= c
    ensures a * c <= b * c
  {
    assert b * c - a * c == (b - a) * c;
  }

  /** The row-major cell number of an in-bounds tile lies in `[0, width * height)`. */
  lemma CellInRange(width: int, height: int, tileX: int, tileY: int)
    requires 0 <= tileX < width && 0 <= tileY < height
    ensures 0 <= tileY * width + tileX < width * height
  {
    MulMonotone(0, tileY, width);
    MulMonotone(tileY, height - 1, width);
    assert (height - 1) * width == height * width - width;
  }

  /** An in-bounds tile's whole 3-byte record lies inside the array of `3 * width * height` bytes. */
  lemma IndexInRange(width: int, height: int, tileX: int, tileY: int)
    requires 0 <= tileX < width && 0 <= tileY < height
    ensures 0 <= GridStateIndex(width, tileX, tileY)
    ensures GridStateIndex(width, tileX, tileY) + RecordSize <= RecordSize * width * height
  {
    CellInRange(width, height, tileX, tileY);
    assert RecordSize * width * height == (width * height) * RecordSize;
  }

  /** Two distinct in-bounds tiles get disjoint 3-byte records. */
  lemma IndexDisjoint(width: int, height: int, x1: int, y1: int, x2: int, y2: int)
    requires 0 <= x1 < width && 0 <= y1 < height
    requires 0 <= x2 < width && 0 <= y2 < height
    requires x1 != x2 || y1 != y2
    ensures GridStateIndex(width, x1, y1) + RecordSize <= GridStateIndex(width, x2, y2)
         || GridStateIndex(width, x2, y2) + RecordSize <= GridStateIndex(width, x1, y1)
  {
    var c1, c2 := y1 * width + x1, y2 * width + x2;
    assert GridStateIndex(width, x1, y1) == c1 * RecordSize && GridStateIndex(width, x2, y2) == c2 * RecordSize;
    if y1 < y2 {
      MulMonotone(y1 + 1, y2, width);
      assert c1 < c2;
    } else if y2 < y1 {
      MulMonotone(y2 + 1, y1, width);
      assert c2 < c1;
    } else {
      assert c1 != c2;
    }
  }

  /** Tile coordinates are not checked: stepping off the left edge of a row reaches the last tile of the row above. */
  lemma LeftEdgeAliases(width: int, tileY: int)
    ensures GridStateIndex(width, -1, tileY + 1) == GridStateIndex(width, width - 1, tileY)
  {
  }

  /**
   * Record offsets are multiples of three and the array length is one too, so
   * a record whose first byte is inside the array lies wholly inside it.
   */
  lemma RecordWhollyInside(width: nat, height: nat, tileX: int, tileY: int)
    requires 0 <= GridStateIndex(width, tileX, tileY) < RecordSize * width * height
    ensures GridStateIndex(width, tileX, tileY) + RecordSize <= RecordSize * width * height
  {
    var cell, cells := tileY * width + tileX, width * height;
    assert RecordSize * width * height == cells * RecordSize;
    assert cell < cells;
  }

  /** The conversion a Uint8Array applies to a stored integer: reduction modulo 256. */
  function ToUint8(v: int): (b: byte)
    ensures 0 <= v < 256 ==> b as int == v
    ensures (v - b as int) % 256 == 0
  {
    (v % 256) as byte
  }

  /** A record as the array holds it once stored. */
  function Stored(r: GridRecord): GridRecord
  {
    GridRecord(ToUint8(r.plantable) as int, ToUint8(r.speciesCode) as int, ToUint8(r.growthStage) as int)
  }

  /**
   * `getGridState`: the record at an offset. Outside the array each of the
   * three fields reads `undefined`; None stands for that all-`undefined`
   * record.
   */
  function ReadRecord(g: seq<byte>, index: int): (r: Option<GridRecord>)
    ensures r.Some? <==> 0 <= index && index + 2 < |g|
    ensures r.Some? ==> && 0 <= r.value.plantable < 256 && 0 <= r.value.speciesCode < 256
                        && 0 <= r.value.growthStage < 256
  {
    if 0 <= index && index + 2 < |g| then
      Some(GridRecord(g[index] as int, g[index + 1] as int, g[index + 2] as int))
    else
      None
  }

  /** One typed-array store: ignored outside the array, otherwise the value modulo 256. */
  function WriteByte(g: seq<byte>, i: int, v: int): (r: seq<byte>)
    ensures |r| == |g|
    ensures forall j :: 0 <= j < |g| && j != i ==> r[j] == g[j]
    ensures 0 <= i < |g| ==> r[i] == ToUint8(v)
  {
    if 0 <= i < |g| then g[i := ToUint8(v)] else g
  }

  /** The three stores of `setGridState`; every byte outside that record is left alone. */
  function WriteRecord(g: seq<byte>, index: int, rec: GridRecord): (r: seq<byte>)
    ensures |r| == |g|
    ensures forall j :: 0 <= j < |g| && !(index <= j < index + RecordSize) ==> r[j] == g[j]
  {
    WriteByte(WriteByte(WriteByte(g, index, rec.plantable), index + 1, rec.speciesCode), index + 2, rec.growthStage)
  }

  /** Reading a record just written gives back what was written (reduced modulo 256). */
  lemma ReadAfterWrite(g: seq<byte>, index: int, rec: GridRecord)
    requires 0 <= index && index + 2 < |g|
    ensures ReadRecord(WriteRecord(g, index, rec), index) == Some(Stored(rec))
  {
  }

  /** A write that falls outside the array changes nothing. */
  lemma WriteOutsideIgnored(g: seq<byte>, index: int, rec: GridRecord)
    requires index >= |g| || index + 2 < 0
    ensures WriteRecord(g, index, rec) == g
  {
  }

  /** The species names the planting action chooses from. */
  predicate IsSpeciesName(species: string)
  {
    species == "potato" || species == "tomato" || species == "eggplant"
  }

  /** `getSpeciesCode`: potato 1, tomato 2, eggplant 3, every other name 0. */
  function SpeciesCode(species: string): (code: int)
    ensures 0 <= code <= 3
    ensures code == 1 <==> species == "potato"
    ensures code == 2 <==> species == "tomato"
    ensures code == 3 <==> species == "eggplant"
    ensures code == 0 <==> !IsSpeciesName(species)
  {
    if species == "potato" then 1
    else if species == "tomato" then 2
    else if species == "eggplant" then 3
    else 0
  }

  /** The record planting writes: plantable, the species' code, stage 0. */
  function PlantedRecord(species: string): GridRecord
  {
    GridRecord(1, SpeciesCode(species), 0)
  }

  /** The record a harvest change writes: all three bytes zero, plantable included. */
  const ClearedRecord: GridRecord := GridRecord(0, 0, 0)

  /** `applyGridStateChange`: plant and harvest write one record, a move writes nothing. */
  function GridAfterChange(g: seq<byte>, width: int, a: Actions.Action): (r: seq<byte>)
    ensures |r| == |g|
    ensures a.Move? ==> r == g
    ensures !a.Move? ==> forall j :: 0 <= j < |g| && !(GridStateIndex(width, a.tileX, a.tileY) <= j < GridStateIndex(width, a.tileX, a.tileY) + RecordSize) ==> r[j] == g[j]
  {
    match a
    case Move(_, _) => g
    case Plant(x, y, s) => WriteRecord(g, GridStateIndex(width, x, y), PlantedRecord(s))
    case Harvest(x, y, _) => WriteRecord(g, GridStateIndex(width, x, y), ClearedRecord)
  }

  /** After a grid change on an in-array tile, the tile reads `{1, code, 0}` for plant and `{0, 0, 0}` for harvest. */
  lemma GridAfterChangeReads(g: seq<byte>, width: int, a: Actions.Action)
    requires !a.Move?
    requires 0 <= GridStateIndex(width, a.tileX, a.tileY) && GridStateIndex(width, a.tileX, a.tileY) + 2 < |g|
    ensures a.Plant? ==> ReadRecord(GridAfterChange(g, width, a), GridStateIndex(width, a.tileX, a.tileY))
                         == Some(GridRecord(1, SpeciesCode(a.species), 0))
    ensures a.Harvest? ==> ReadRecord(GridAfterChange(g, width, a), GridStateIndex(width, a.tileX, a.tileY))
                           == Some(GridRecord(0, 0, 0))
  {
    var i := GridStateIndex(width, a.tileX, a.tileY);
    if a.Plant? {
      ReadAfterWrite(g, i, PlantedRecord(a.species));
    } else {
      ReadAfterWrite(g, i, ClearedRecord);
    }
  }
}
