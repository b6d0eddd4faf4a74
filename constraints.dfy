/**
 * SudokuLadder/Constraints.swift: the earlier per-cell rule predicates and the
 * default constraint names.  Each `valid` scans a list and returns false at the
 * first cell (other than the one being judged) that has the same effective
 * value; optional equality means two empty cells count as equal.
 */
module Constraints {
  import opened Optional
  import opened CellModel

  const UniqueInRowName: string := "UniqueInRow"
  const UniqueInColumnName: string := "UniqueInColumn"
  const UniqueInRegionName: string := "UniqueInRegion"
  const KillerCageName: string := "KillerCage"

  /** The four default names are distinct, so they can key one failure set. */
  lemma DefaultNamesDistinct()
    ensures |{UniqueInRowName, UniqueInColumnName, UniqueInRegionName, KillerCageName}| == 4
  {
    assert |UniqueInRowName| != |UniqueInColumnName| && |UniqueInRowName| != |UniqueInRegionName|;
    assert UniqueInColumnName[8] != UniqueInRegionName[8];
    assert KillerCageName[0] != UniqueInRowName[0];
  }

  /** `UniqueInRow.valid(cell:row:)`: entries in the same column are skipped. */
  function UniqueInRowValid(cell: Cell, row: seq<Cell>): (r: bool)
    ensures r <==> forall k :: 0 <= k < |row| && row[k].col != cell.col
                             ==> row[k].EffectiveValue() != cell.EffectiveValue()
  {
    if row == [] then true
    else if row[0].col == cell.col then UniqueInRowValid(cell, row[1..])
    else if row[0].EffectiveValue() == cell.EffectiveValue() then false
    else UniqueInRowValid(cell, row[1..])
  }

  /** `UniqueInColumn.valid(cell:col:)`: entries in the same row are skipped. */
  function UniqueInColumnValid(cell: Cell, column: seq<Cell>): (r: bool)
    ensures r <==> forall k :: 0 <= k < |column| && column[k].row != cell.row
                             ==> column[k].EffectiveValue() != cell.EffectiveValue()
  {
    if column == [] then true
    else if column[0].row == cell.row then UniqueInColumnValid(cell, column[1..])
    else if column[0].EffectiveValue() == cell.EffectiveValue() then false
    else UniqueInColumnValid(cell, column[1..])
  }

  /** `UniqueInRegion.valid(cell:region:)`: only the entry at the very same position is skipped. */
  function UniqueInRegionValid(cell: Cell, region: seq<Cell>): (r: bool)
    ensures r <==> forall k :: 0 <= k < |region| && region[k].Position() != cell.Position()
                             ==> region[k].EffectiveValue() != cell.EffectiveValue()
  {
    if region == [] then true
    else if region[0].row == cell.row && region[0].col == cell.col then UniqueInRegionValid(cell, region[1..])
    else if region[0].EffectiveValue() == cell.EffectiveValue() then false
    else UniqueInRegionValid(cell, region[1..])
  }

  /** Nil equals nil: an empty cell next to another empty cell of its row is reported invalid. */
  lemma EmptyCellsClashInRow(cell: Cell, row: seq<Cell>, k: int)
    requires 0 <= k < |row| && row[k].col != cell.col
    requires cell.EffectiveValue().None? && row[k].EffectiveValue().None?
    ensures !UniqueInRowValid(cell, row)
  {
  }

  /** A list holding nothing but the judged cell (any number of times) is valid for all three. */
  lemma OnlySelfIsValid(cell: Cell, cells: seq<Cell>)
    requires forall k :: 0 <= k < |cells| ==> cells[k] == cell
    ensures UniqueInRowValid(cell, cells) && UniqueInColumnValid(cell, cells) && UniqueInRegionValid(cell, cells)
  {
  }

  /** The region check compares cells of the same row in other columns, which the row check skips only by column. */
  lemma RegionComparesSameRow(cell: Cell, other: Cell)
    requires other.row == cell.row && other.col != cell.col
    requires other.EffectiveValue() == cell.EffectiveValue()
    ensures !UniqueInRegionValid(cell, [other])
    ensures UniqueInColumnValid(cell, [other])
  {
  }
}
