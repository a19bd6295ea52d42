/** The value types the engine's files share (src/types in the game). */
module Types {

  /** `FieldMark`: a player's mark on a hidden cell. A cell with no entry in the marks map is unmarked. */
  datatype Mark = Flag | Maybe

  /** `GameStatus`: "awaiting", "playing", "win" and "lose". */
  datatype GameStatus = Awaiting | Playing | Won | Lost

  /** One entry of the minefield schema: "bomb", or how many bombs surround the cell. */
  datatype SchemaEntry = Bomb | Count(n: nat)

  /** `marks.get(i) === "flag"` */
  predicate IsFlagged(marks: map<int, Mark>, i: int)
  {
    i in marks && marks[i] == Flag
  }

  /** `marks.get(i) === "maybe"` */
  predicate IsMaybe(marks: map<int, Mark>, i: int)
  {
    i in marks && marks[i] == Maybe
  }
}
