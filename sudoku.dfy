/**
 * SudokuLadder/Sudoku.swift: the first grid design, with its own `Cell` whose
 * marks are lists that grow by appending, the `Sudoku` grid built row by row,
 * and the if-chain `nineByNineBox` that numbers the 3x3 boxes of a 9x9 grid.
 */
module Sudoku {
  import opened Optional
  import CellModel

  datatype Cell = Cell(box: int, row: int, col: int, value: Option<int>, pencilMarks: seq<int>, centerMarks: seq<int>)
  {
    /** `setValue(value:)` */
    function SetValue(v: int): Cell { this.(value := Some(v)) }

    /** `addPencilMark(value:)`: appends, duplicates allowed. */
    function AddPencilMark(v: int): Cell { this.(pencilMarks := pencilMarks + [v]) }

    /** `addCenterMark(value:)`: appends, duplicates allowed. */
    function AddCenterMark(v: int): Cell { this.(centerMarks := centerMarks + [v]) }
  }

  /** Writing a value touches nothing but the value. */
  lemma SetValueOnlyValue(c: Cell, v: int)
    ensures c.SetValue(v).value == Some(v)
    ensures c.SetValue(v).(value := c.value) == c
  {
  }

  /** A pencil mark grows the list by one, at the end, and keeps what was there. */
  lemma AddPencilMarkAppends(c: Cell, v: int)
    ensures |c.AddPencilMark(v).pencilMarks| == |c.pencilMarks| + 1
    ensures c.AddPencilMark(v).pencilMarks[|c.pencilMarks|] == v
    ensures c.AddPencilMark(v).pencilMarks[..|c.pencilMarks|] == c.pencilMarks
    ensures c.AddPencilMark(v).(pencilMarks := c.pencilMarks) == c
  {
  }

  /** A centre mark grows the list by one, at the end, and keeps what was there. */
  lemma AddCenterMarkAppends(c: Cell, v: int)
    ensures |c.AddCenterMark(v).centerMarks| == |c.centerMarks| + 1
    ensures c.AddCenterMark(v).centerMarks[|c.centerMarks|] == v
    ensures c.AddCenterMark(v).centerMarks[..|c.centerMarks|] == c.centerMarks
    ensures c.AddCenterMark(v).(centerMarks := c.centerMarks) == c
  {
  }

  /** Marking a value that is already there records it once more. */
  lemma MarksKeepDuplicates(c: Cell, v: int)
    ensures multiset(c.AddPencilMark(v).AddPencilMark(v).pencilMarks)[v] == multiset(c.pencilMarks)[v] + 2
    ensures multiset(c.AddCenterMark(v).AddCenterMark(v).centerMarks)[v] == multiset(c.centerMarks)[v] + 2
  {
    assert c.AddPencilMark(v).AddPencilMark(v).pencilMarks == c.pencilMarks + [v] + [v];
    assert c.AddCenterMark(v).AddCenterMark(v).centerMarks == c.centerMarks + [v] + [v];
  }

  /** The grid: `width` is the number of cells per row, `height` the number of rows. */
  datatype Sudoku = Sudoku(cells: seq<seq<Cell>>, width: int, height: int)

  /** `init(cells:)`: the source reads `cells[0]`, so the grid must have a row. */
  function FromCells(cells: seq<seq<Cell>>): (s: Sudoku)
    requires |cells| > 0
    ensures s.cells == cells && s.height == |cells| && s.width == |cells[0]|
  {
    Sudoku(cells, |cells[0]|, |cells|)
  }

  /** `nineByNineBox(row:col:)`: the box of a 9x9 position, or -1 off the grid. */
  function NineByNineBox(row: int, col: int): int {
    if col >= 0 && col <= 2 && row >= 0 && row <= 2 then 0
    else if col >= 3 && col <= 5 && row >= 0 && row <= 2 then 1
    else if col >= 6 && col <= 8 && row >= 0 && row <= 2 then 2
    else if col >= 0 && col <= 2 && row >= 3 && row <= 5 then 3
    else if col >= 3 && col <= 5 && row >= 3 && row <= 5 then 4
    else if col >= 6 && col <= 8 && row >= 3 && row <= 5 then 5
    else if col >= 0 && col <= 2 && row >= 6 && row <= 8 then 6
    else if col >= 3 && col <= 5 && row >= 6 && row <= 8 then 7
    else if col >= 6 && col <= 8 && row >= 6 && row <= 8 then 8
    else -1
  }

  /** On the grid the chain computes the usual box number. */
  lemma NineByNineBoxFormula(row: int, col: int)
    requires 0 <= row <= 8 && 0 <= col <= 8
    ensures NineByNineBox(row, col) == (row / 3) * 3 + col / 3
  {
  }

  /** Off the grid every position gets -1, and on it never. */
  lemma NineByNineBoxOffGrid(row: int, col: int)
    ensures NineByNineBox(row, col) == -1 <==> !(0 <= row <= 8 && 0 <= col <= 8)
    ensures -1 <= NineByNineBox(row, col) <= 8
  {
  }

  /** The on-grid positions of box `k`. */
  ghost function BoxPositions(k: int): set<CellModel.Point> {
    set r, c | 0 <= r <= 8 && 0 <= c <= 8 && NineByNineBox(r, c) == k :: CellModel.Point(r, c)
  }

  /** Three positions of one row, starting at column `c0`. */
  ghost function Triple(r: int, c0: int): set<CellModel.Point> {
    {CellModel.Point(r, c0), CellModel.Point(r, c0 + 1), CellModel.Point(r, c0 + 2)}
  }

  /** The 3x3 block with top-left corner (r0, c0). */
  ghost function Block(r0: int, c0: int): set<CellModel.Point> {
    Triple(r0, c0) + Triple(r0 + 1, c0) + Triple(r0 + 2, c0)
  }

  lemma BlockSize(r0: int, c0: int)
    ensures |Block(r0, c0)| == 9
  {
    assert |Triple(r0, c0)| == 3 && |Triple(r0 + 1, c0)| == 3 && |Triple(r0 + 2, c0)| == 3;
    assert Triple(r0, c0) !! Triple(r0 + 1, c0);
    assert Triple(r0, c0) + Triple(r0 + 1, c0) !! Triple(r0 + 2, c0);
  }

  lemma InBlock(p: CellModel.Point, r0: int, c0: int)
    ensures p in Block(r0, c0) <==> r0 <= p.row < r0 + 3 && c0 <= p.col < c0 + 3
  {
  }

  /** On the grid, box `k` is row band k / 3 and column band k % 3. */
  lemma InBox(r: int, c: int, k: int)
    requires 0 <= r <= 8 && 0 <= c <= 8 && 0 <= k <= 8
    ensures NineByNineBox(r, c) == k <==> r / 3 == k / 3 && c / 3 == k % 3
  {
    NineByNineBoxFormula(r, c);
  }

  /** Box `k` is the block whose corner is row 3 * (k / 3), column 3 * (k % 3). */
  lemma BoxIsBlock(k: int)
    requires 0 <= k <= 8
    ensures BoxPositions(k) == Block((k / 3) * 3, (k % 3) * 3)
  {
    var r0, c0 := (k / 3) * 3, (k % 3) * 3;
    forall p | p in BoxPositions(k) ensures p in Block(r0, c0) {
      InBox(p.row, p.col, k);
      InBlock(p, r0, c0);
    }
    forall p | p in Block(r0, c0) ensures p in BoxPositions(k) {
      InBlock(p, r0, c0);
      InBox(p.row, p.col, k);
    }
  }

  /** Every box holds exactly nine positions. */
  lemma BoxHasNinePositions(k: int)
    requires 0 <= k <= 8
    ensures |BoxPositions(k)| == 9
  {
    BoxIsBlock(k);
    BlockSize((k / 3) * 3, (k % 3) * 3);
  }

  /** Positions off the grid belong to no box. */
  lemma NoBoxOffGrid(k: int)
    requires !(0 <= k <= 8)
    ensures BoxPositions(k) == {}
  {
    forall p | p in BoxPositions(k) ensures false {
      NineByNineBoxOffGrid(p.row, p.col);
    }
  }

  /** The cell `init()` puts at (i, j). */
  function FreshCell(i: int, j: int): Cell {
    Cell(NineByNineBox(i, j), i, j, None, [], [])
  }

  /** `init()`: a 9x9 grid of empty cells, appended row by row, each knowing its box. */
  method NewSudoku() returns (s: Sudoku)
    ensures s.width == 9 && s.height == 9 && |s.cells| == 9
    ensures forall i :: 0 <= i < 9 ==> |s.cells[i]| == 9
    ensures forall i, j :: 0 <= i < 9 && 0 <= j < 9 ==>
      s.cells[i][j] == Cell(NineByNineBox(i, j), i, j, None, [], [])
  {
    var width, height := 9, 9;
    var cells: seq<seq<Cell>> := [];
    var i := 0;
    while i < height
      invariant 0 <= i <= height && |cells| == i
      invariant forall r :: 0 <= r < i ==> |cells[r]| == width
      invariant forall r, c :: 0 <= r < i && 0 <= c < width ==> cells[r][c] == FreshCell(r, c)
    {
      var row: seq<Cell> := [];
      var j := 0;
      while j < width
        invariant 0 <= j <= width && |row| == j
        invariant forall c :: 0 <= c < j ==> row[c] == FreshCell(i, c)
      {
        row := row + [Cell(NineByNineBox(i, j), i, j, None, [], [])];
        j := j + 1;
      }
      cells := cells + [row];
      i := i + 1;
    }
    s := Sudoku(cells, width, height);
  }

  /** Every cell of a fresh grid has its coordinates and the box the formula gives. */
  lemma NewSudokuBoxes(s: Sudoku, i: int, j: int)
    requires |s.cells| == 9 && forall r :: 0 <= r < 9 ==> |s.cells[r]| == 9
    requires forall r, c :: 0 <= r < 9 && 0 <= c < 9 ==> s.cells[r][c] == FreshCell(r, c)
    requires 0 <= i < 9 && 0 <= j < 9
    ensures s.cells[i][j].row == i && s.cells[i][j].col == j
    ensures s.cells[i][j].box == (i / 3) * 3 + j / 3
    ensures s.cells[i][j].value.None? && s.cells[i][j].pencilMarks == [] && s.cells[i][j].centerMarks == []
  {
    NineByNineBoxFormula(i, j);
  }
}
