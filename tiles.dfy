/** The tile a memory cell is drawn with: a 17-row, 4-column tile sheet in
    which each row is an operation and the column says the sign of a PUSH
    literal and whether the cell is highlighted. */
module Tiles {
  import opened Opcodes

  const ROWS := 17
  const COLUMNS := 4

  /** The row of an operation's tile: fixed rows for the three instructions,
      and the literal's magnitude for a PUSH. */
  function RowOf(op: int): int {
    if op == COPY as int then 12
    else if op == SPAWN as int then 14
    else if op == HALT as int then 15
    else if op - PUSH as int < 0 then -(op - PUSH as int)
    else op - PUSH as int
  }

  /** The column: 1 for a negative literal, plus 2 for a cell that is not
      highlighted (`modified == 0`; any other value, even a negative one,
      counts as highlighted). */
  function ColumnOf(op: int, modified: int): int {
    (if op != COPY as int && op != SPAWN as int && op != HALT as int && op - PUSH as int < 0 then 1 else 0)
    + (if modified == 0 then 2 else 0)
  }

  function GetTileIndex(op: int, modified: int): (r: int)
    ensures 0 <= r
    ensures r % COLUMNS == ColumnOf(op, modified)
    ensures r / COLUMNS == RowOf(op)
  {
    var (row, column) :=
      if op == COPY as int then (12, 0)
      else if op == SPAWN as int then (14, 0)
      else if op == HALT as int then (15, 0)
      else if op - PUSH as int < 0 then (-(op - PUSH as int), 1)
      else (op - PUSH as int, 0);
    var column' := if modified == 0 then column + 2 else column;
    row * 4 + column'
  }

  /** The operations that occur in memory: the three instructions and the
      PUSH literals that noise writes, -11 through 11. */
  predicate Occurs(op: int) {
    op == COPY as int || op == SPAWN as int || op == HALT as int
    || -11 <= op - PUSH as int <= 11
  }

  /** Every occurring operation has a tile on the 17 x 4 sheet. The blank
      cell is not among them (see BlankTileOffSheet). */
  lemma TileIndexOnSheet(op: int, modified: int)
    requires Occurs(op)
    ensures GetTileIndex(op, modified) < ROWS * COLUMNS
  {
    var r := GetTileIndex(op, modified);
    assert r == (r / COLUMNS) * COLUMNS + r % COLUMNS;
  }

  /** The blank cell, which a randomized memory keeps wherever all four
      weights are zero, is drawn as a PUSH of -127, unhighlighted: tile 511,
      far past the last tile of the sheet. */
  lemma BlankTileOffSheet()
    ensures !Occurs(Blank.op as int)
    ensures GetTileIndex(Blank.op as int, Blank.modified) == 511
    ensures GetTileIndex(Blank.op as int, Blank.modified) >= ROWS * COLUMNS
  {
  }

  /** PUSH literals are drawn on rows 0 to 11, clear of the rows of COPY (12),
      SPAWN (14) and HALT (15). */
  lemma PushRowsAvoidInstructions(op: int, modified: int)
    requires Occurs(op) && op != COPY as int && op != SPAWN as int && op != HALT as int
    ensures GetTileIndex(op, modified) / COLUMNS < 12
  {
  }

  /** Distinct occurring operations, or the same one highlighted and not,
      are drawn with distinct tiles. */
  lemma TileIndexInjective(op1: int, m1: int, op2: int, m2: int)
    requires Occurs(op1) && Occurs(op2)
    requires GetTileIndex(op1, m1) == GetTileIndex(op2, m2)
    ensures op1 == op2 && (m1 == 0 <==> m2 == 0)
  {
    var r := GetTileIndex(op1, m1);
    assert RowOf(op1) == RowOf(op2) && ColumnOf(op1, m1) == ColumnOf(op2, m2);
  }
}
