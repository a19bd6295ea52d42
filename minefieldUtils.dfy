/** src/components/Minefield/minefieldUtils.ts: what one cell of the board shows. */
module MinefieldUtils {
  import opened Types

  /** `FieldLabel`: nothing, a mark, a bomb, a wrongly flagged cell, or the number of bombs around. */
  datatype FieldLabel = Unlabelled | MarkLabel(mark: Mark) | BombLabel | MistakeLabel | CountLabel(n: nat)

  /** The outcome of `fieldLabel`: a label, or the error it throws for an index outside the schema. */
  datatype LabelResult = Label(shown: FieldLabel) | InvalidFieldIndex(index: int)

  /** How a revealed cell shows its schema entry. */
  function EntryLabel(e: SchemaEntry): FieldLabel
  {
    match e
    case Bomb => BombLabel
    case Count(n) => CountLabel(n)
  }

  /**
   * `fieldLabel`. After a win every bomb shows a flag; after a loss an
   * unflagged bomb shows itself and a flagged safe cell shows the mistake;
   * otherwise a mark shows as it is, a hidden cell shows nothing and an
   * uncovered one shows its schema entry.
   */
  function FieldLabelOf(index: int, status: GameStatus, revealed: set<int>, marks: map<int, Mark>,
                        schema: seq<SchemaEntry>): (r: LabelResult)
    ensures r.InvalidFieldIndex? <==> !(0 <= index < |schema|)
    ensures r.InvalidFieldIndex? ==> r.index == index
    ensures r.Label? && status == Won && schema[index] == Bomb ==> r.shown == MarkLabel(Flag)
    ensures r.Label? && status == Lost && schema[index] == Bomb && !IsFlagged(marks, index) ==> r.shown == BombLabel
    ensures r.Label? ==> (r.shown == MistakeLabel <==>
              status == Lost && schema[index] != Bomb && IsFlagged(marks, index))
    ensures r.Label? && index !in marks && index !in revealed && !(status in {Won, Lost} && schema[index] == Bomb) ==>
              r.shown == Unlabelled
  {
    if !(0 <= index < |schema|) then InvalidFieldIndex(index)
    else
      var isBomb := schema[index] == Bomb;
      if status == Won && isBomb then Label(MarkLabel(Flag))
      else if status == Lost && isBomb && !IsFlagged(marks, index) then Label(BombLabel)
      else if status == Lost && !isBomb && IsFlagged(marks, index) then Label(MistakeLabel)
      else if index in marks then Label(MarkLabel(marks[index]))
      else if index !in revealed then Label(Unlabelled)
      else Label(EntryLabel(schema[index]))
  }

  /**
   * Unless the game has ended and the cell is a bomb to reveal or a wrong flag to
   * point out, a cell shows its mark, or nothing while hidden, or its schema
   * entry once uncovered. While the game is not over this is every cell.
   */
  lemma LabelOfMarkOrEntry(index: int, status: GameStatus, revealed: set<int>, marks: map<int, Mark>,
                           schema: seq<SchemaEntry>)
    requires 0 <= index < |schema|
    requires !(status == Won && schema[index] == Bomb)
    requires !(status == Lost && (schema[index] == Bomb) != IsFlagged(marks, index))
    ensures FieldLabelOf(index, status, revealed, marks, schema) ==
              if index in marks then Label(MarkLabel(marks[index]))
              else if index !in revealed then Label(Unlabelled)
              else Label(EntryLabel(schema[index]))
  {
  }

  /** After a loss every bomb shows as a bomb or as a flag: none stays hidden. */
  lemma LossShowsEveryBomb(index: int, revealed: set<int>, marks: map<int, Mark>, schema: seq<SchemaEntry>)
    requires 0 <= index < |schema| && schema[index] == Bomb
    ensures FieldLabelOf(index, Lost, revealed, marks, schema).shown in {BombLabel, MarkLabel(Flag)}
    ensures FieldLabelOf(index, Lost, revealed, marks, schema).shown == MarkLabel(Flag) <==> IsFlagged(marks, index)
  {
  }
}
