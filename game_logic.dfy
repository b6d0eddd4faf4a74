/**
 * The `GridGame` controller of SudokuLadder/GameLogic.swift.  The grid is a
 * field the methods update cell by cell; each method is proved against the
 * board function of module GameBoard that describes its result.
 */
module GameLogic {
  import opened Optional
  import opened CellModel
  import opened GameBoard

  class GridGame {
    var cells: Board
    const height: int
    const width: int
    /**
     * The selected cells, by position.  The source's `Set<Cell>` hashes by
     * row and column but compares every field, so it can hold two versions of
     * one cell; the model keeps one entry per position.
     */
    var selected: set<Point>
    var inputMode: ControlMode
    var constraints: seq<Constraint>
    var victory: bool

    /** The grid is a non-empty rectangle whose cells know their coordinates; selections lie on it. */
    ghost predicate Valid()
      reads this
    {
      && WellFormed(cells, height, width)
      && height > 0
      && forall p :: p in selected ==> 0 <= p.row < height && 0 <= p.col < width
    }

    /**
     * `init(cells:constraints:)`.  The source reads `cells[0]`, so the grid
     * must not be empty; it must also be a rectangle whose cells carry their
     * own coordinates, which every later lookup `cells[cell.row][cell.col]`
     * relies on.
     */
    constructor(cells0: Board, constraints0: seq<Constraint>)
      requires |cells0| > 0 && WellFormed(cells0, |cells0|, |cells0[0]|)
      ensures Valid()
      ensures height == |cells0| && width == |cells0[0]|
      ensures cells == Bordered(cells0, height, width)
      ensures selected == {} && inputMode == BigNumber && constraints == constraints0 && !victory
    {
      cells := cells0;
      height := |cells0|;
      width := |cells0[0]|;
      selected := {};
      inputMode := BigNumber;
      constraints := [];
      victory := false;
      new;
      SetStaticBorders();
      constraints := constraints0;
    }

    /** `reset()`: clear value, centre marks and pencil marks of every cell. */
    method Reset()
      requires Valid()
      modifies this`cells
      ensures Valid()
      ensures cells == ResetBoard(old(cells))
    {
      ghost var b0 := cells;
      var i := 0;
      while i < |cells|
        invariant Valid() && 0 <= i <= height && SameShape(cells, b0)
        invariant forall r, c :: 0 <= r < |cells| && 0 <= c < |cells[r]| ==>
          cells[r][c] == if r < i then ResetBoard(b0)[r][c] else b0[r][c]
      {
        var j := 0;
        while j < |cells[i]|
          invariant Valid() && 0 <= j <= width && SameShape(cells, b0)
          invariant forall r, c :: 0 <= r < |cells| && 0 <= c < |cells[r]| ==>
            cells[r][c] == if r < i || (r == i && c < j) then ResetBoard(b0)[r][c] else b0[r][c]
        {
          SetCellWellFormed(cells, height, width, i, j, cells[i][j].ClearValue().ClearCenterMarks().ClearPencilMarks());
          cells := SetCell(cells, i, j, cells[i][j].ClearValue().ClearCenterMarks().ClearPencilMarks());
          j := j + 1;
        }
        i := i + 1;
      }
      BoardEq(cells, ResetBoard(b0));
    }

    /** `selectCell(_:_:)`: mark the cell and add it to the selection. */
    method SelectCell(rowidx: int, colidx: int)
      requires Valid() && InBoard(cells, rowidx, colidx)
      modifies this`cells, this`selected
      ensures Valid()
      ensures cells == SetCell(old(cells), rowidx, colidx, old(cells)[rowidx][colidx].(selected := true))
      ensures selected == old(selected) + {Point(rowidx, colidx)}
    {
      SetCellWellFormed(cells, height, width, rowidx, colidx, cells[rowidx][colidx].(selected := true));
      cells := SetCell(cells, rowidx, colidx, cells[rowidx][colidx].(selected := true));
      selected := selected + {cells[rowidx][colidx].Position()};
    }

    /** `clearSelection()`: unmark every selected cell and empty the selection. */
    method ClearSelection()
      requires Valid()
      modifies this`cells, this`selected
      ensures Valid()
      ensures cells == Deselected(old(cells), old(selected))
      ensures selected == {}
    {
      ghost var b0 := cells;
      var todo := selected;
      DeselectedNone(b0);
      assert selected - todo == {};
      while todo != {}
        invariant Valid() && selected == old(selected) && todo <= selected
        invariant cells == Deselected(b0, selected - todo)
        decreases |todo|
      {
        var c :| c in todo;
        DeselectedNext(b0, selected, todo, c);
        SetCellWellFormed(cells, height, width, c.row, c.col, cells[c.row][c.col].(selected := false));
        cells := SetCell(cells, c.row, c.col, cells[c.row][c.col].(selected := false));
        todo := todo - {c};
      }
      assert selected - todo == selected;
      selected := {};
    }

    /**
     * `setCellValue(row:col:value:)`.  A given cell is left alone.  Clearing
     * empties only this cell's own failure flags.  Writing a value reruns
     * every constraint over the whole board and then checks for victory.
     */
    method SetCellValue(row: int, col: int, value: Option<int>)
      requires Valid() && InBoard(cells, row, col)
      modifies this`cells, this`victory
      ensures Valid()
      ensures cells == AfterSet(old(cells), constraints, row, col, value)
      ensures victory == if old(cells)[row][col].given.None? && value.Some? then old(victory) || Won(cells)
                         else old(victory)
    {
      if cells[row][col].given.Some? {
        return;
      }
      ghost var b0: Board := cells;
      SetCellWellFormed(cells, height, width, row, col, cells[row][col].SetValue(value));
      cells := SetCell(cells, row, col, cells[row][col].SetValue(value));
      if value.None? {
        SetCellWellFormed(cells, height, width, row, col, cells[row][col].(failedConstraints := {}));
        cells := SetCell(cells, row, col, cells[row][col].(failedConstraints := {}));
        ghost var c0: Cell := b0[row][col];
        SetCellTwice(b0, row, col, c0.SetValue(value), c0.SetValue(value).(failedConstraints := {}));
        return;
      }
      RecheckAll();
      CheckVictory();
    }

    /** The constraint loop of `setCellValue`: rerun every constraint over the whole board. */
    method RecheckAll()
      requires Valid()
      modifies this`cells
      ensures Valid()
      ensures cells == Rechecked(old(cells), constraints)
    {
      ghost var b1 := cells;
      RecheckedNone(b1);
      var k := 0;
      while k < |constraints|
        invariant 0 <= k <= |constraints|
        invariant Valid()
        invariant cells == Rechecked(b1, constraints[..k])
      {
        var constraint := constraints[k];
        RecheckStep(b1, height, width, constraints, k);
        RemoveNameEverywhere(constraint.name);
        var activeCells := CellsFromPoints(constraint.points);
        FlaggedIgnoresFlags(cells, b1, constraint);
        var failedCells := Evaluate(constraint.rule, activeCells);
        forall p | p in failedCells ensures InBoard(cells, p.row, p.col) {
          FlaggedInBoard(b1, height, width, constraint, p);
        }
        InsertName(constraint.name, failedCells);
        k := k + 1;
      }
      assert constraints[..|constraints|] == constraints;
    }

    /** The removal loop of `setCellValue`: drop `name` from every cell's flags. */
    method RemoveNameEverywhere(name: string)
      requires Valid()
      modifies this`cells
      ensures Valid()
      ensures cells == WithoutName(old(cells), name)
    {
      ghost var b0 := cells;
      var i := 0;
      while i < |cells|
        invariant Valid() && 0 <= i <= height && SameShape(cells, b0)
        invariant forall r, c :: 0 <= r < |cells| && 0 <= c < |cells[r]| ==>
          cells[r][c] == if r < i then WithoutName(b0, name)[r][c] else b0[r][c]
      {
        var j := 0;
        while j < |cells[i]|
          invariant Valid() && 0 <= j <= width && SameShape(cells, b0)
          invariant forall r, c :: 0 <= r < |cells| && 0 <= c < |cells[r]| ==>
            cells[r][c] == if r < i || (r == i && c < j) then WithoutName(b0, name)[r][c] else b0[r][c]
        {
          var cell := cells[i][j];
          SetCellWellFormed(cells, height, width, cell.row, cell.col,
                            cells[cell.row][cell.col].(failedConstraints := cells[cell.row][cell.col].failedConstraints - {name}));
          cells := SetCell(cells, cell.row, cell.col,
                           cells[cell.row][cell.col].(failedConstraints := cells[cell.row][cell.col].failedConstraints - {name}));
          j := j + 1;
        }
        i := i + 1;
      }
      BoardEq(cells, WithoutName(b0, name));
    }

    /** The insertion loop of `setCellValue`: add `name` to the flags of every reported cell. */
    method InsertName(name: string, failedCells: set<Point>)
      requires Valid() && forall p :: p in failedCells ==> InBoard(cells, p.row, p.col)
      modifies this`cells
      ensures Valid()
      ensures cells == WithName(old(cells), name, failedCells)
    {
      ghost var b0 := cells;
      var todo := failedCells;
      WithNameNone(b0, name);
      assert failedCells - todo == {};
      while todo != {}
        invariant WellFormed(cells, height, width) && todo <= failedCells
        invariant cells == WithName(b0, name, failedCells - todo)
        decreases |todo|
      {
        var cell :| cell in todo;
        WithNameNext(b0, name, failedCells, todo, cell);
        var current := cells[cell.row][cell.col];
        var flagged := current.(failedConstraints := current.failedConstraints + {name});
        SetCellWellFormed(cells, height, width, cell.row, cell.col, flagged);
        cells := SetCell(cells, cell.row, cell.col, flagged);
        todo := todo - {cell};
      }
      assert failedCells - todo == failedCells;
    }

    /** `cellsFromPoints(points:)`: the board cells listed by `points`, row by row. */
    method CellsFromPoints(points: seq<Point>) returns (out: seq<Cell>)
      ensures out == CellsAt(cells, points)
    {
      out := [];
      var i := 0;
      while i < |cells|
        invariant 0 <= i <= |cells|
        invariant out == CellsAt(cells[..i], points)
      {
        var found := RowCells(cells[i], points);
        out := out + found;
        assert cells[..i + 1][..i] == cells[..i];
        i := i + 1;
      }
      assert cells[..|cells|] == cells;
    }

    /** `checkVictory()`: set `victory` when every cell is filled and unflagged; never clear it. */
    method CheckVictory()
      modifies this`victory
      ensures victory == (old(victory) || Won(cells))
    {
      var i := 0;
      while i < |cells|
        invariant 0 <= i <= |cells|
        invariant forall r, c :: 0 <= r < i && 0 <= c < |cells[r]| ==>
          cells[r][c].EffectiveValue().Some? && cells[r][c].failedConstraints == {}
      {
        var j := 0;
        while j < |cells[i]|
          invariant 0 <= j <= |cells[i]|
          invariant forall r, c :: (0 <= r < i && 0 <= c < |cells[r]|) || (r == i && 0 <= c < j) ==>
            cells[r][c].EffectiveValue().Some? && cells[r][c].failedConstraints == {}
        {
          var cell := cells[i][j];
          if cell.EffectiveValue().None? {
            return;
          }
          if |cell.failedConstraints| > 0 {
            return;
          }
          j := j + 1;
        }
        i := i + 1;
      }
      victory := true;
    }

    /** `addPencilMark(row:col:value:)`, guarded against given cells. */
    method AddPencilMark(row: int, col: int, value: int)
      requires Valid() && InBoard(cells, row, col)
      modifies this`cells
      ensures Valid()
      ensures old(cells)[row][col].given.Some? ==> cells == old(cells)
      ensures old(cells)[row][col].given.None? ==>
        cells == SetCell(old(cells), row, col, old(cells)[row][col].AddPencilMark(value))
      ensures cells == SetCell(old(cells), row, col, ApplyEdit(Pencil(value), old(cells)[row][col]))
    {
      if cells[row][col].given.Some? {
        SetCellSame(cells, row, col);
        return;
      }
      SetCellWellFormed(cells, height, width, row, col, cells[row][col].AddPencilMark(value));
      cells := SetCell(cells, row, col, cells[row][col].AddPencilMark(value));
    }

    /** `addCenterMark(row:col:value:)`, guarded against given cells. */
    method AddCenterMark(row: int, col: int, value: int)
      requires Valid() && InBoard(cells, row, col)
      modifies this`cells
      ensures Valid()
      ensures old(cells)[row][col].given.Some? ==> cells == old(cells)
      ensures old(cells)[row][col].given.None? ==>
        cells == SetCell(old(cells), row, col, old(cells)[row][col].AddCenterMark(value))
      ensures cells == SetCell(old(cells), row, col, ApplyEdit(Center(value), old(cells)[row][col]))
    {
      if cells[row][col].given.Some? {
        SetCellSame(cells, row, col);
        return;
      }
      SetCellWellFormed(cells, height, width, row, col, cells[row][col].AddCenterMark(value));
      cells := SetCell(cells, row, col, cells[row][col].AddCenterMark(value));
    }

    /**
     * `handleInput(input:)`: the mode's digit action on every selected cell.
     * In BigNumber mode each write reruns the constraints, so the final board
     * is the board with all writes done, rechecked once.
     */
    method HandleInput(input: int)
      requires Valid()
      modifies this`cells, this`victory
      ensures Valid()
      ensures inputMode == BigNumber ==> cells == AfterWrites(old(cells), constraints, selected, input)
      ensures inputMode == CornerNumber ==> cells == EditAll(old(cells), selected, Pencil(input))
      ensures inputMode == MiddleNumber ==> cells == EditAll(old(cells), selected, Center(input))
      ensures old(victory) ==> victory
      ensures inputMode == BigNumber && AnyWritable(old(cells), selected) && Won(cells) ==> victory
      ensures !(inputMode == BigNumber && AnyWritable(old(cells), selected)) ==> victory == old(victory)
    {
      match inputMode {
        case BigNumber =>
          WriteSelected(input);
        case CornerNumber =>
          MarkSelected(Pencil(input));
        case MiddleNumber =>
          MarkSelected(Center(input));
      }
    }

    /** The BigNumber loop of `handleInput`: `setCellValue` with the digit on every selected cell. */
    method WriteSelected(input: int)
      requires Valid()
      modifies this`cells, this`victory
      ensures Valid()
      ensures cells == AfterWrites(old(cells), constraints, selected, input)
      ensures old(victory) ==> victory
      ensures AnyWritable(old(cells), selected) && Won(cells) ==> victory
      ensures !AnyWritable(old(cells), selected) ==> victory == old(victory)
    {
      ghost var b0, v0 := cells, victory;
      var todo := selected;
      StartWrites(input, todo);
      while todo != {}
        invariant Valid() && todo <= selected && WellFormed(b0, height, width)
        invariant WriteProgress(b0, selected - todo, input, v0)
        decreases |todo|
      {
        var cell :| cell in todo;
        WriteAt(b0, todo, input, v0, cell);
        todo := todo - {cell};
      }
      assert selected - todo == selected;
    }

    /** The state of `handleInput`'s BigNumber loop once the cells `done` are written. */
    ghost predicate WriteProgress(b0: Board, done: set<Point>, input: int, v0: bool)
      reads this
    {
      && cells == AfterWrites(b0, constraints, done, input)
      && (v0 ==> victory)
      && (AnyWritable(b0, done) && Won(cells) ==> victory)
      && (!AnyWritable(b0, done) ==> victory == v0)
    }

    /** Before the BigNumber loop nothing is written yet. */
    ghost method StartWrites(input: int, todo: set<Point>)
      requires todo == selected
      ensures WriteProgress(cells, selected - todo, input, victory)
    {
      EditAllNone(cells, Write(input));
      assert selected - todo == {};
      assert !AnyWritable(cells, {});
    }

    /** One pass of `handleInput`'s BigNumber loop: `setCellValue` on `cell`, which is still to do. */
    method WriteAt(ghost b0: Board, ghost todo: set<Point>, input: int, ghost v0: bool, cell: Point)
      requires Valid() && todo <= selected && cell in todo && WriteProgress(b0, selected - todo, input, v0)
      requires WellFormed(b0, height, width)
      modifies this`cells, this`victory
      ensures Valid() && WriteProgress(b0, selected - (todo - {cell}), input, v0)
    {
      HandledNext(selected, todo, cell);
      AfterWritesStep(b0, constraints, selected - todo, input, cell);
      SetCellValue(cell.row, cell.col, Some(input));
    }

    /** The CornerNumber and MiddleNumber loops of `handleInput`: add the mark to every selected cell. */
    method MarkSelected(e: Edit)
      requires Valid() && (e.Pencil? || e.Center?)
      modifies this`cells
      ensures Valid()
      ensures cells == EditAll(old(cells), selected, e)
    {
      ghost var b0 := cells;
      var todo := selected;
      EditAllNone(b0, e);
      assert selected - todo == {};
      while todo != {}
        invariant Valid() && todo <= selected
        invariant cells == EditAll(b0, selected - todo, e)
        decreases |todo|
      {
        var cell :| cell in todo;
        EditAllNext(b0, selected, todo, e, cell);
        if e.Pencil? {
          AddPencilMark(cell.row, cell.col, e.v);
        } else {
          AddCenterMark(cell.row, cell.col, e.v);
        }
        todo := todo - {cell};
      }
      assert selected - todo == selected;
    }

    /** `handleDelete()`: on every selected cell, clear the first non-empty item in the mode's order. */
    method HandleDelete()
      requires Valid()
      modifies this`cells, this`victory
      ensures Valid()
      ensures cells == EditAll(old(cells), selected, Erase(inputMode))
      ensures victory == old(victory)
    {
      ghost var b0, v0, e := cells, victory, Erase(inputMode);
      var todo := selected;
      EditAllNone(b0, e);
      assert selected - todo == {};
      while todo != {}
        invariant Valid() && victory == v0 && todo <= selected && WellFormed(b0, height, width)
        invariant cells == EditAll(b0, selected - todo, e)
        decreases |todo|
      {
        var cell :| cell in todo;
        DeleteNext(b0, todo, e, cell);
        todo := todo - {cell};
      }
      assert selected - todo == selected;
    }

    /** One pass of `handleDelete`'s loop, on `cell`, which is still to do. */
    method DeleteNext(ghost b0: Board, ghost todo: set<Point>, ghost e: Edit, cell: Point)
      requires Valid() && todo <= selected && cell in todo && WellFormed(b0, height, width)
      requires e == Erase(inputMode) && cells == EditAll(b0, selected - todo, e)
      modifies this`cells, this`victory
      ensures Valid() && victory == old(victory)
      ensures cells == EditAll(b0, selected - (todo - {cell}), e)
    {
      EditAllNext(b0, selected, todo, e, cell);
      DeleteAt(cell.row, cell.col);
    }

    /** The body of `handleDelete`'s loops for one cell, with the mode's clearing order. */
    method DeleteAt(row: int, col: int)
      requires Valid() && InBoard(cells, row, col)
      modifies this`cells, this`victory
      ensures Valid() && victory == old(victory)
      ensures cells == SetCell(old(cells), row, col, ApplyEdit(Erase(inputMode), old(cells)[row][col]))
    {
      ghost var c := cells[row][col];
      match inputMode {
        case BigNumber =>
          if cells[row][col].value.Some? {
            SetCellValue(row, col, None);
          } else if |cells[row][col].centerMarks| > 0 {
            SetCellWellFormed(cells, height, width, row, col, cells[row][col].ClearCenterMarks());
            cells := SetCell(cells, row, col, cells[row][col].ClearCenterMarks());
          } else if |cells[row][col].pencilMarks| > 0 {
            SetCellWellFormed(cells, height, width, row, col, cells[row][col].ClearPencilMarks());
            cells := SetCell(cells, row, col, cells[row][col].ClearPencilMarks());
          }
        case CornerNumber =>
          if |cells[row][col].pencilMarks| > 0 {
            SetCellWellFormed(cells, height, width, row, col, cells[row][col].ClearPencilMarks());
            cells := SetCell(cells, row, col, cells[row][col].ClearPencilMarks());
          } else if cells[row][col].value.Some? {
            SetCellValue(row, col, None);
          } else if |cells[row][col].centerMarks| > 0 {
            SetCellWellFormed(cells, height, width, row, col, cells[row][col].ClearCenterMarks());
            cells := SetCell(cells, row, col, cells[row][col].ClearCenterMarks());
          }
        case MiddleNumber =>
          if |cells[row][col].centerMarks| > 0 {
            SetCellWellFormed(cells, height, width, row, col, cells[row][col].ClearCenterMarks());
            cells := SetCell(cells, row, col, cells[row][col].ClearCenterMarks());
          } else if cells[row][col].value.Some? {
            SetCellValue(row, col, None);
          } else if |cells[row][col].pencilMarks| > 0 {
            SetCellWellFormed(cells, height, width, row, col, cells[row][col].ClearPencilMarks());
            cells := SetCell(cells, row, col, cells[row][col].ClearPencilMarks());
          }
      }
      BoardEq(cells, SetCell(old(cells), row, col, ApplyEdit(Erase(inputMode), c)));
    }

    /** `setStaticBorders()`: append the outer-edge and region borders of every cell. */
    method SetStaticBorders()
      requires Valid()
      modifies this`cells
      ensures Valid()
      ensures cells == Bordered(old(cells), height, width)
    {
      ghost var b0 := cells;
      var i := 0;
      while i < |cells|
        invariant Valid() && 0 <= i <= height && SameShape(cells, b0)
        invariant forall r, c :: 0 <= r < |cells| && 0 <= c < |cells[r]| ==>
          cells[r][c] == if r < i then Bordered(b0, height, width)[r][c] else b0[r][c]
      {
        var j := 0;
        while j < |cells[i]|
          invariant Valid() && 0 <= j <= width && SameShape(cells, b0)
          invariant forall r, c :: 0 <= r < |cells| && 0 <= c < |cells[r]| ==>
            cells[r][c] == if r < i || (r == i && c < j) then Bordered(b0, height, width)[r][c] else b0[r][c]
        {
          BorderCell(b0, i, j);
          j := j + 1;
        }
        i := i + 1;
      }
      BoardEq(cells, Bordered(b0, height, width));
    }

    /** One cell of `setStaticBorders()`; neighbours are read from the current grid. */
    method BorderCell(ghost b0: Board, i: int, j: int)
      requires Valid() && WellFormed(b0, height, width) && 0 <= i < height && 0 <= j < width
      requires SameShape(cells, b0)
      requires forall r, c :: 0 <= r < |cells| && 0 <= c < |cells[r]| ==> cells[r][c].region == b0[r][c].region
      requires cells[i][j] == b0[i][j]
      modifies this`cells
      ensures Valid()
      ensures cells == SetCell(old(cells), i, j, Bordered(b0, height, width)[i][j])
    {
      var cell := cells[i][j];
      // The appends of the source, collected per list and appended together.
      var edges := CellEdges(i, j);
      var regions := CellRegions(b0, i, j);
      var bordered := cell.(edgeBorders := cell.edgeBorders + edges, regionBorders := cell.regionBorders + regions);
      SetCellWellFormed(cells, height, width, i, j, bordered);
      cells := SetCell(cells, i, j, bordered);
    }

    /** The outer-edge appends of `setStaticBorders()` for cell (i, j). */
    method CellEdges(i: int, j: int) returns (edges: seq<Edge>)
      ensures edges == EdgeBorders(height, width, i, j)
    {
      edges := [];
      if i == 0 {
        edges := edges + [Top];
      }
      if i == height - 1 {
        edges := edges + [Bottom];
      }
      if j == 0 {
        edges := edges + [Leading];
      }
      if j == width - 1 {
        edges := edges + [Trailing];
      }
    }

    /** The region-border appends of `setStaticBorders()` for cell (i, j). */
    method CellRegions(ghost b0: Board, i: int, j: int) returns (regions: seq<Edge>)
      requires Valid() && WellFormed(b0, height, width) && 0 <= i < height && 0 <= j < width
      requires SameShape(cells, b0)
      requires forall r, c :: 0 <= r < |cells| && 0 <= c < |cells[r]| ==> cells[r][c].region == b0[r][c].region
      ensures regions == RegionBorders(b0, height, width, i, j)
    {
      var region := cells[i][j].region;
      regions := [];
      if i > 0 && cells[i - 1][j].region != region {
        regions := regions + [Top];
      }
      if i < height - 1 && cells[i + 1][j].region != region {
        regions := regions + [Bottom];
      }
      if j > 0 && cells[i][j - 1].region != region {
        regions := regions + [Leading];
      }
      if j < width - 1 && cells[i][j + 1].region != region {
        regions := regions + [Trailing];
      }
    }
  }

  /** The middle loop of `cellsFromPoints(points:)`: the cells of one row that `points` lists. */
  method RowCells(row: seq<Cell>, points: seq<Point>) returns (out: seq<Cell>)
    ensures out == RowMatches(row, points)
  {
    out := [];
    var j := 0;
    while j < |row|
      invariant 0 <= j <= |row|
      invariant out == RowMatches(row[..j], points)
    {
      var found := CellMatches(row[j], points);
      out := out + found;
      assert row[..j + 1][..j] == row[..j];
      j := j + 1;
    }
    assert row[..|row|] == row;
  }

  /** The inner loop of `cellsFromPoints(points:)`: one copy of `cell` per point naming its position. */
  method CellMatches(cell: Cell, points: seq<Point>) returns (out: seq<Cell>)
    ensures out == Matches(cell, points)
  {
    out := [];
    var k := 0;
    while k < |points|
      invariant 0 <= k <= |points|
      invariant out == Matches(cell, points[..k])
    {
      assert points[..k + 1][..k] == points[..k];
      if points[k].row == cell.row && points[k].col == cell.col {
        out := out + [cell];
      }
      k := k + 1;
    }
    assert points[..|points|] == points;
  }
}
