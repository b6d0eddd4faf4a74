/**
 * SudokuLadder/ContentView.swift: the helpers that feed the views and the
 * earlier `GridGame` design.  `splitArray` cuts a list after four elements,
 * `c` describes one cell of a layout as a dictionary, `layoutToSuduoku` turns
 * such a layout into a 9x9 game, `normalSudoku` is the puzzle the app starts
 * with, and the prototype game's `setCellValue` re-judges only the edited cell
 * against its row and its column.
 */
module ContentView {
  import opened Optional
  import opened CellModel
  import opened Constraints
  import opened GameBoard
  import Sudoku
  import GameLogic

  // splitArray

  /** `splitArray`: the first four elements and the rest, or everything and nothing. */
  function SplitArray<T>(a: seq<T>): (r: (seq<T>, seq<T>))
    ensures r.0 + r.1 == a
    ensures |r.0| == if |a| < 4 then |a| else 4
    ensures r.1 == [] <==> |a| <= 4
  {
    if |a| < 4 then (a, []) else (a[..4], a[4..])
  }

  /** Splitting at four and joining the halves gives back the list. */
  lemma SplitArrayRoundTrip<T>(a: seq<T>, b: seq<T>)
    requires |a| == 4
    ensures SplitArray(a + b) == (a, b)
  {
    assert (a + b)[..4] == a;
    assert (a + b)[4..] == b;
  }

  // Layout entries: `c(row, col, box, given)`

  /** A layout entry: a dictionary from key names to numbers. */
  type Entry = map<string, int>

  /** `c(_:_:_:_:)`: keys row, col and box, and the key given only when a given is supplied. */
  function C(row: int, col: int, box: int, given: Option<int>): (m: Entry)
    ensures "row" in m && "col" in m && "box" in m
    ensures m["row"] == row && m["col"] == col && m["box"] == box
    ensures given.Some? ==> "given" in m && m["given"] == given.value
  {
    var basic := map["row" := row, "col" := col, "box" := box];
    if given.Some? then basic["given" := given.value] else basic
  }

  /** The keys of `c`'s dictionary: row, col and box, and given exactly when a given is supplied. */
  lemma CKeys(row: int, col: int, box: int, given: Option<int>)
    ensures C(row, col, box, given).Keys == {"row", "col", "box"} + (if given.Some? then {"given"} else {})
  {
  }

  /** An entry `layoutToSuduoku` can read without trapping on a forced unwrap. */
  predicate IsEntry(e: Entry) {
    "row" in e && "col" in e && "box" in e
  }

  predicate AllEntries(dic: seq<Entry>) {
    forall n :: 0 <= n < |dic| ==> IsEntry(dic[n])
  }

  /** An entry whose position lies on the 9x9 grid the builder allocates. */
  predicate OnGrid(e: Entry) {
    IsEntry(e) && 0 <= e["row"] < 9 && 0 <= e["col"] < 9
  }

  predicate AllOnGrid(dic: seq<Entry>) {
    forall n :: 0 <= n < |dic| ==> OnGrid(dic[n])
  }

  /** `entry["given"]`: the optional lookup. */
  function GivenOf(e: Entry): Option<int> {
    if "given" in e then Some(e["given"]) else None
  }

  /** The closure passed to `dic.map`: the cell an entry describes. */
  function EntryCell(e: Entry): Cell
    requires IsEntry(e)
  {
    NewCell(e["row"], e["col"], e["box"], GivenOf(e))
  }

  /** Reading back an entry built by `c` gives the cell its arguments describe. */
  lemma EntryRoundTrip(row: int, col: int, box: int, given: Option<int>)
    ensures IsEntry(C(row, col, box, given))
    ensures GivenOf(C(row, col, box, given)) == given
    ensures EntryCell(C(row, col, box, given)) == NewCell(row, col, box, given)
  {
    var m := C(row, col, box, given);
    assert "given" in m <==> given.Some? by {
      assert "given" != "row" && "given" != "col" && "given" != "box";
    }
  }

  // layoutToSuduoku

  predicate At(e: Entry, i: int, j: int)
    requires IsEntry(e)
  {
    e["row"] == i && e["col"] == j
  }

  /** The index of the last entry at (i, j), if any: the one whose write survives. */
  ghost function LastAt(dic: seq<Entry>, i: int, j: int): (k: Option<nat>)
    requires AllEntries(dic)
    ensures k.Some? ==> k.value < |dic| && At(dic[k.value], i, j)
                        && forall m :: k.value < m < |dic| ==> !At(dic[m], i, j)
    ensures k.None? ==> forall m :: 0 <= m < |dic| ==> !At(dic[m], i, j)
    decreases |dic|
  {
    if dic == [] then None
    else if At(dic[|dic| - 1], i, j) then Some(|dic| - 1)
    else LastAt(dic[..|dic| - 1], i, j)
  }

  /** The last entry at a position is the one `LastAt` finds. */
  lemma LastAtUnique(dic: seq<Entry>, n: int)
    requires AllEntries(dic) && 0 <= n < |dic|
    requires forall m :: n < m < |dic| ==> !At(dic[m], dic[n]["row"], dic[n]["col"])
    ensures LastAt(dic, dic[n]["row"], dic[n]["col"]) == Some(n)
  {
  }

  /** The filler `Cell(row: 0, col: 0, region: 0)` of every position no entry covers. */
  function Placeholder(): Cell {
    NewCell(0, 0, 0, None)
  }

  ghost function LayoutCell(dic: seq<Entry>, i: int, j: int): Cell
    requires AllEntries(dic)
  {
    match LastAt(dic, i, j)
    case Some(n) => EntryCell(dic[n])
    case None => Placeholder()
  }

  /** The 9x9 grid the builder produces: at each position the cell of the last entry there. */
  ghost function Layout(dic: seq<Entry>): Board
    requires AllEntries(dic)
  {
    seq(9, i => seq(9, j => LayoutCell(dic, i, j)))
  }

  /** The cell of the entry that comes last for its position is what the grid holds. */
  lemma LayoutLastWins(dic: seq<Entry>, n: int)
    requires AllOnGrid(dic) && 0 <= n < |dic|
    requires forall m :: n < m < |dic| ==> !At(dic[m], dic[n]["row"], dic[n]["col"])
    ensures Layout(dic)[dic[n]["row"]][dic[n]["col"]] == EntryCell(dic[n])
  {
    LastAtUnique(dic, n);
  }

  /** A position no entry names keeps the placeholder. */
  lemma LayoutUncovered(dic: seq<Entry>, i: int, j: int)
    requires AllEntries(dic) && 0 <= i < 9 && 0 <= j < 9
    requires forall m :: 0 <= m < |dic| ==> !At(dic[m], i, j)
    ensures Layout(dic)[i][j] == Placeholder()
  {
  }

  /** Some entry names position (i, j). */
  ghost predicate Named(dic: seq<Entry>, i: int, j: int)
    requires AllEntries(dic)
  {
    exists n :: 0 <= n < |dic| && At(dic[n], i, j)
  }

  /** Every position of the grid is named by some entry. */
  ghost predicate Covers(dic: seq<Entry>)
    requires AllEntries(dic)
  {
    forall i, j :: 0 <= i < 9 && 0 <= j < 9 ==> Named(dic, i, j)
  }

  /** A covering layout yields a grid whose cells carry their own coordinates. */
  lemma LayoutCoveredWellFormed(dic: seq<Entry>)
    requires AllOnGrid(dic) && Covers(dic)
    ensures WellFormed(Layout(dic), 9, 9)
  {
    forall i, j | 0 <= i < 9 && 0 <= j < 9 ensures Layout(dic)[i][j].Position() == Point(i, j) {
      assert Named(dic, i, j);
      var n :| 0 <= n < |dic| && At(dic[n], i, j);
      assert LastAt(dic, i, j).Some?;
    }
  }

  /** The grid of an empty layout: placeholders everywhere. */
  lemma LayoutOfNothing(b: Board)
    requires |b| == 9 && forall i :: 0 <= i < 9 ==> |b[i]| == 9
    requires forall i, j :: 0 <= i < 9 && 0 <= j < 9 ==> b[i][j] == Placeholder()
    ensures b == Layout([])
  {
    BoardEq(b, Layout([]));
  }

  /** One more entry overwrites its own position and nothing else. */
  lemma LayoutSnoc(dic: seq<Entry>)
    requires AllOnGrid(dic) && dic != []
    ensures AllOnGrid(dic[..|dic| - 1])
    ensures Layout(dic) == SetCell(Layout(dic[..|dic| - 1]), dic[|dic| - 1]["row"], dic[|dic| - 1]["col"], EntryCell(dic[|dic| - 1]))
  {
    var n := |dic| - 1;
    var init := dic[..n];
    assert forall m :: 0 <= m < n ==> init[m] == dic[m];
    var r := SetCell(Layout(init), dic[n]["row"], dic[n]["col"], EntryCell(dic[n]));
    forall i, j | 0 <= i < 9 && 0 <= j < 9 ensures Layout(dic)[i][j] == r[i][j] {
      if !At(dic[n], i, j) {
        assert LastAt(dic, i, j) == LastAt(init, i, j);
      }
    }
    BoardEq(Layout(dic), r);
  }

  /** The inner loops of `layoutToSuduoku`: nine rows of nine placeholders. */
  method PlaceholderGrid() returns (sudokuCells: Board)
    ensures sudokuCells == Layout([])
  {
    sudokuCells := [];
    var i := 0;
    while i < 9
      invariant 0 <= i <= 9 && |sudokuCells| == i
      invariant forall r :: 0 <= r < i ==> |sudokuCells[r]| == 9
      invariant forall r, c :: 0 <= r < i && 0 <= c < 9 ==> sudokuCells[r][c] == Placeholder()
    {
      var row: seq<Cell> := [];
      var j := 0;
      while j < 9
        invariant 0 <= j <= 9 && |row| == j
        invariant forall c :: 0 <= c < j ==> row[c] == Placeholder()
      {
        row := row + [NewCell(0, 0, 0, None)];
        j := j + 1;
      }
      sudokuCells := sudokuCells + [row];
      i := i + 1;
    }
    LayoutOfNothing(sudokuCells);
  }

  /**
   * The grid `layoutToSuduoku` builds: map every entry to a cell, fill a 9x9
   * grid with placeholders, then write each cell at its own coordinates in
   * order.  The source indexes the grid by the entry's row and column, so
   * entries must lie on the grid.
   */
  method LayoutCells(dic: seq<Entry>) returns (sudokuCells: Board)
    requires AllOnGrid(dic)
    ensures sudokuCells == Layout(dic)
  {
    var cells := seq(|dic|, n requires 0 <= n < |dic| => EntryCell(dic[n]));
    sudokuCells := PlaceholderGrid();
    var k := 0;
    while k < |cells|
      invariant 0 <= k <= |dic| && AllOnGrid(dic[..k])
      invariant sudokuCells == Layout(dic[..k])
    {
      var cell := cells[k];
      LayoutSnoc(dic[..k + 1]);
      assert dic[..k + 1][..k] == dic[..k];
      sudokuCells := SetCell(sudokuCells, cell.row, cell.col, cell);
      k := k + 1;
    }
    assert dic[..|dic|] == dic;
  }

  /**
   * `layoutToSuduoku`: the game built on that grid.  The game's constructor
   * relies on every cell carrying its own coordinates, which holds when the
   * layout names every position.
   */
  method LayoutToSuduoku(dic: seq<Entry>) returns (game: GameLogic.GridGame)
    requires AllOnGrid(dic) && Covers(dic)
    ensures WellFormed(Layout(dic), 9, 9)
    ensures fresh(game) && game.Valid()
    ensures game.height == 9 && game.width == 9
    ensures game.cells == Bordered(Layout(dic), 9, 9)
    ensures game.constraints == [] && game.selected == {} && game.inputMode == BigNumber && !game.victory
  {
    var sudokuCells := LayoutCells(dic);
    LayoutCoveredWellFormed(dic);
    game := new GameLogic.GridGame(sudokuCells, []);
  }

  // normalSudoku

  // The puzzle the app opens with, listed one grid row per constant.
  const NormalRow0: seq<Entry> :=
    [C(0, 0, 0, Some(9)), C(0, 1, 0, Some(2)), C(0, 2, 0, Some(6)), C(0, 3, 1, None), C(0, 4, 1, Some(4)), C(0, 5, 1, None), C(0, 6, 2, None), C(0, 7, 2, Some(8)), C(0, 8, 2, None)]

  const NormalRow1: seq<Entry> :=
    [C(1, 0, 0, Some(4)), C(1, 1, 0, None), C(1, 2, 0, None), C(1, 3, 1, None), C(1, 4, 1, None), C(1, 5, 1, Some(1)), C(1, 6, 2, None), C(1, 7, 2, None), C(1, 8, 2, None)]

  const NormalRow2: seq<Entry> :=
    [C(2, 0, 0, Some(8)), C(2, 1, 0, Some(5)), C(2, 2, 0, None), C(2, 3, 1, None), C(2, 4, 1, Some(2)), C(2, 5, 1, Some(6)), C(2, 6, 2, Some(4)), C(2, 7, 2, None), C(2, 8, 2, Some(9))]

  const NormalRow3: seq<Entry> :=
    [C(3, 0, 3, None), C(3, 1, 3, Some(9)), C(3, 2, 3, Some(7)), C(3, 3, 4, None), C(3, 4, 4, None), C(3, 5, 4, Some(4)), C(3, 6, 5, None), C(3, 7, 5, Some(6)), C(3, 8, 5, Some(3))]

  const NormalRow4: seq<Entry> :=
    [C(4, 0, 3, Some(3)), C(4, 1, 3, None), C(4, 2, 3, Some(2)), C(4, 3, 4, None), C(4, 4, 4, None), C(4, 5, 4, None), C(4, 6, 5, Some(1)), C(4, 7, 5, None), C(4, 8, 5, None)]

  const NormalRow5: seq<Entry> :=
    [C(5, 0, 3, Some(5)), C(5, 1, 3, None), C(5, 2, 3, None), C(5, 3, 4, None), C(5, 4, 4, Some(1)), C(5, 5, 4, Some(3)), C(5, 6, 5, None), C(5, 7, 5, Some(4)), C(5, 8, 5, None)]

  const NormalRow6: seq<Entry> :=
    [C(6, 0, 6, None), C(6, 1, 6, None), C(6, 2, 6, None), C(6, 3, 7, None), C(6, 4, 7, Some(7)), C(6, 5, 7, Some(9)), C(6, 6, 8, Some(3)), C(6, 7, 8, Some(1)), C(6, 8, 8, None)]

  const NormalRow7: seq<Entry> :=
    [C(7, 0, 6, Some(7)), C(7, 1, 6, None), C(7, 2, 6, Some(4)), C(7, 3, 7, None), C(7, 4, 7, None), C(7, 5, 7, None), C(7, 6, 8, None), C(7, 7, 8, Some(5)), C(7, 8, 8, Some(8))]

  const NormalRow8: seq<Entry> :=
    [C(8, 0, 6, Some(2)), C(8, 1, 6, None), C(8, 2, 6, None), C(8, 3, 7, Some(5)), C(8, 4, 7, Some(3)), C(8, 5, 7, Some(8)), C(8, 6, 8, Some(6)), C(8, 7, 8, None), C(8, 8, 8, None)]

  /** `normalSudoku`: the 81 entries of the starting puzzle. */
  const NormalSudoku: seq<Entry> :=
    NormalRow0 + NormalRow1 + NormalRow2 + NormalRow3 + NormalRow4 + NormalRow5 + NormalRow6 + NormalRow7 + NormalRow8

  /** Entry `e` describes position (r, c) and names the box `nineByNineBox` gives it. */
  predicate EntryFields(e: Entry, r: int, c: int) {
    IsEntry(e) && e["row"] == r && e["col"] == c && e["box"] == Sudoku.NineByNineBox(r, c)
  }

  /** Entries `j..` of `es` are row `r`, columns `j..` in order. */
  predicate RowFrom(es: seq<Entry>, r: int, j: nat)
    decreases |es| - j
  {
    j >= |es| || (EntryFields(es[j], r, j) && RowFrom(es, r, j + 1))
  }

  lemma {:induction false} RowFromAll(es: seq<Entry>, r: int, j: nat)
    requires RowFrom(es, r, j)
    ensures forall m :: j <= m < |es| ==> EntryFields(es[m], r, m)
    decreases |es| - j
  {
    if j < |es| {
      RowFromAll(es, r, j + 1);
    }
  }

  /** `es` is row `r` of the grid: nine entries, column by column. */
  predicate RowFacts(es: seq<Entry>, r: int) {
    |es| == 9 && forall m :: 0 <= m < 9 ==> EntryFields(es[m], r, m)
  }

  /** Entry `k` describes position (k / 9, k % 9): the grid in row-major order. */
  predicate RowMajor(es: seq<Entry>) {
    forall k :: 0 <= k < |es| ==> EntryFields(es[k], k / 9, k % 9)
  }

  lemma AppendRow(p: seq<Entry>, es: seq<Entry>, r: int)
    requires 0 <= r && |p| == 9 * r && RowMajor(p) && RowFacts(es, r)
    ensures RowMajor(p + es)
  {
    forall k | 0 <= k < |p + es| ensures EntryFields((p + es)[k], k / 9, k % 9) {
      if k >= |p| {
        var m := k - 9 * r;
        assert k / 9 == r && k % 9 == m;
        assert (p + es)[k] == es[m];
      }
    }
  }

  lemma NormalRow0Facts()
    ensures RowFacts(NormalRow0, 0)
  {
    assert RowFrom(NormalRow0, 0, 9);
    assert RowFrom(NormalRow0, 0, 8);
    assert RowFrom(NormalRow0, 0, 7);
    assert RowFrom(NormalRow0, 0, 6);
    assert RowFrom(NormalRow0, 0, 5);
    assert RowFrom(NormalRow0, 0, 4);
    assert RowFrom(NormalRow0, 0, 3);
    assert RowFrom(NormalRow0, 0, 2);
    assert RowFrom(NormalRow0, 0, 1);
    assert RowFrom(NormalRow0, 0, 0);
    RowFromAll(NormalRow0, 0, 0);
  }

  lemma NormalRow1Facts()
    ensures RowFacts(NormalRow1, 1)
  {
    assert RowFrom(NormalRow1, 1, 9);
    assert RowFrom(NormalRow1, 1, 8);
    assert RowFrom(NormalRow1, 1, 7);
    assert RowFrom(NormalRow1, 1, 6);
    assert RowFrom(NormalRow1, 1, 5);
    assert RowFrom(NormalRow1, 1, 4);
    assert RowFrom(NormalRow1, 1, 3);
    assert RowFrom(NormalRow1, 1, 2);
    assert RowFrom(NormalRow1, 1, 1);
    assert RowFrom(NormalRow1, 1, 0);
    RowFromAll(NormalRow1, 1, 0);
  }

  lemma NormalRow2Facts()
    ensures RowFacts(NormalRow2, 2)
  {
    assert RowFrom(NormalRow2, 2, 9);
    assert RowFrom(NormalRow2, 2, 8);
    assert RowFrom(NormalRow2, 2, 7);
    assert RowFrom(NormalRow2, 2, 6);
    assert RowFrom(NormalRow2, 2, 5);
    assert RowFrom(NormalRow2, 2, 4);
    assert RowFrom(NormalRow2, 2, 3);
    assert RowFrom(NormalRow2, 2, 2);
    assert RowFrom(NormalRow2, 2, 1);
    assert RowFrom(NormalRow2, 2, 0);
    RowFromAll(NormalRow2, 2, 0);
  }

  lemma NormalRow3Facts()
    ensures RowFacts(NormalRow3, 3)
  {
    assert RowFrom(NormalRow3, 3, 9);
    assert RowFrom(NormalRow3, 3, 8);
    assert RowFrom(NormalRow3, 3, 7);
    assert RowFrom(NormalRow3, 3, 6);
    assert RowFrom(NormalRow3, 3, 5);
    assert RowFrom(NormalRow3, 3, 4);
    assert RowFrom(NormalRow3, 3, 3);
    assert RowFrom(NormalRow3, 3, 2);
    assert RowFrom(NormalRow3, 3, 1);
    assert RowFrom(NormalRow3, 3, 0);
    RowFromAll(NormalRow3, 3, 0);
  }

  lemma NormalRow4Facts()
    ensures RowFacts(NormalRow4, 4)
  {
    assert RowFrom(NormalRow4, 4, 9);
    assert RowFrom(NormalRow4, 4, 8);
    assert RowFrom(NormalRow4, 4, 7);
    assert RowFrom(NormalRow4, 4, 6);
    assert RowFrom(NormalRow4, 4, 5);
    assert RowFrom(NormalRow4, 4, 4);
    assert RowFrom(NormalRow4, 4, 3);
    assert RowFrom(NormalRow4, 4, 2);
    assert RowFrom(NormalRow4, 4, 1);
    assert RowFrom(NormalRow4, 4, 0);
    RowFromAll(NormalRow4, 4, 0);
  }

  lemma NormalRow5Facts()
    ensures RowFacts(NormalRow5, 5)
  {
    assert RowFrom(NormalRow5, 5, 9);
    assert RowFrom(NormalRow5, 5, 8);
    assert RowFrom(NormalRow5, 5, 7);
    assert RowFrom(NormalRow5, 5, 6);
    assert RowFrom(NormalRow5, 5, 5);
    assert RowFrom(NormalRow5, 5, 4);
    assert RowFrom(NormalRow5, 5, 3);
    assert RowFrom(NormalRow5, 5, 2);
    assert RowFrom(NormalRow5, 5, 1);
    assert RowFrom(NormalRow5, 5, 0);
    RowFromAll(NormalRow5, 5, 0);
  }

  lemma NormalRow6Facts()
    ensures RowFacts(NormalRow6, 6)
  {
    assert RowFrom(NormalRow6, 6, 9);
    assert RowFrom(NormalRow6, 6, 8);
    assert RowFrom(NormalRow6, 6, 7);
    assert RowFrom(NormalRow6, 6, 6);
    assert RowFrom(NormalRow6, 6, 5);
    assert RowFrom(NormalRow6, 6, 4);
    assert RowFrom(NormalRow6, 6, 3);
    assert RowFrom(NormalRow6, 6, 2);
    assert RowFrom(NormalRow6, 6, 1);
    assert RowFrom(NormalRow6, 6, 0);
    RowFromAll(NormalRow6, 6, 0);
  }

  lemma NormalRow7Facts()
    ensures RowFacts(NormalRow7, 7)
  {
    assert RowFrom(NormalRow7, 7, 9);
    assert RowFrom(NormalRow7, 7, 8);
    assert RowFrom(NormalRow7, 7, 7);
    assert RowFrom(NormalRow7, 7, 6);
    assert RowFrom(NormalRow7, 7, 5);
    assert RowFrom(NormalRow7, 7, 4);
    assert RowFrom(NormalRow7, 7, 3);
    assert RowFrom(NormalRow7, 7, 2);
    assert RowFrom(NormalRow7, 7, 1);
    assert RowFrom(NormalRow7, 7, 0);
    RowFromAll(NormalRow7, 7, 0);
  }

  lemma NormalRow8Facts()
    ensures RowFacts(NormalRow8, 8)
  {
    assert RowFrom(NormalRow8, 8, 9);
    assert RowFrom(NormalRow8, 8, 8);
    assert RowFrom(NormalRow8, 8, 7);
    assert RowFrom(NormalRow8, 8, 6);
    assert RowFrom(NormalRow8, 8, 5);
    assert RowFrom(NormalRow8, 8, 4);
    assert RowFrom(NormalRow8, 8, 3);
    assert RowFrom(NormalRow8, 8, 2);
    assert RowFrom(NormalRow8, 8, 1);
    assert RowFrom(NormalRow8, 8, 0);
    RowFromAll(NormalRow8, 8, 0);
  }

  /** Nine rows, each listed column by column, listed one after another. */
  lemma RowsAssemble(r0: seq<Entry>, r1: seq<Entry>, r2: seq<Entry>, r3: seq<Entry>, r4: seq<Entry>,
                     r5: seq<Entry>, r6: seq<Entry>, r7: seq<Entry>, r8: seq<Entry>)
    requires RowFacts(r0, 0) && RowFacts(r1, 1) && RowFacts(r2, 2) && RowFacts(r3, 3) && RowFacts(r4, 4)
    requires RowFacts(r5, 5) && RowFacts(r6, 6) && RowFacts(r7, 7) && RowFacts(r8, 8)
    ensures |r0 + r1 + r2 + r3 + r4 + r5 + r6 + r7 + r8| == 81
    ensures RowMajor(r0 + r1 + r2 + r3 + r4 + r5 + r6 + r7 + r8)
  {
    AppendRow([], r0, 0);
    assert [] + r0 == r0;
    AppendRow(r0, r1, 1);
    AppendRow(r0 + r1, r2, 2);
    AppendRow(r0 + r1 + r2, r3, 3);
    AppendRow(r0 + r1 + r2 + r3, r4, 4);
    AppendRow(r0 + r1 + r2 + r3 + r4, r5, 5);
    AppendRow(r0 + r1 + r2 + r3 + r4 + r5, r6, 6);
    AppendRow(r0 + r1 + r2 + r3 + r4 + r5 + r6, r7, 7);
    AppendRow(r0 + r1 + r2 + r3 + r4 + r5 + r6 + r7, r8, 8);
  }

  /** Every grid position is named, by exactly one entry. */
  ghost predicate EachPositionOnce(dic: seq<Entry>) {
    && AllOnGrid(dic)
    && Covers(dic)
    && forall k1, k2 :: 0 <= k1 < |dic| && 0 <= k2 < |dic| && At(dic[k1], dic[k2]["row"], dic[k2]["col"]) ==> k1 == k2
  }

  /** Every entry names the box `nineByNineBox` gives its position. */
  predicate BoxesMatch(dic: seq<Entry>)
    requires AllEntries(dic)
  {
    forall k :: 0 <= k < |dic| ==> dic[k]["box"] == Sudoku.NineByNineBox(dic[k]["row"], dic[k]["col"])
  }

  /** A row-major listing of the 81 positions names each exactly once, with its box. */
  lemma RowMajorPositions(dic: seq<Entry>)
    requires |dic| == 81 && RowMajor(dic)
    ensures EachPositionOnce(dic) && BoxesMatch(dic)
  {
    forall i, j | 0 <= i < 9 && 0 <= j < 9 ensures Named(dic, i, j) {
      var n := 9 * i + j;
      assert n / 9 == i && n % 9 == j;
      assert At(dic[n], i, j);
    }
  }

  /** In a row-major listing cell (i, j) of the grid comes from entry 9 * i + j. */
  lemma RowMajorLayout(dic: seq<Entry>, i: int, j: int)
    requires |dic| == 81 && RowMajor(dic) && 0 <= i < 9 && 0 <= j < 9
    ensures AllOnGrid(dic)
    ensures Layout(dic)[i][j] == EntryCell(dic[9 * i + j])
    ensures Layout(dic)[i][j].Position() == Point(i, j)
    ensures Layout(dic)[i][j].region == Sudoku.NineByNineBox(i, j)
  {
    RowMajorPositions(dic);
    var n := 9 * i + j;
    assert n / 9 == i && n % 9 == j;
    LayoutLastWins(dic, n);
  }

  /** The layout lists the 81 positions row by row. */
  lemma NormalSudokuRowMajor()
    ensures |NormalSudoku| == 81 && RowMajor(NormalSudoku)
  {
    NormalRow0Facts();
    NormalRow1Facts();
    NormalRow2Facts();
    NormalRow3Facts();
    NormalRow4Facts();
    NormalRow5Facts();
    NormalRow6Facts();
    NormalRow7Facts();
    NormalRow8Facts();
    RowsAssemble(NormalRow0, NormalRow1, NormalRow2, NormalRow3, NormalRow4,
                 NormalRow5, NormalRow6, NormalRow7, NormalRow8);
  }

  /**
   * `normalSudoku` names every position of the 9x9 grid exactly once, and
   * gives each the box `nineByNineBox` computes.
   */
  lemma NormalSudokuPositions()
    ensures EachPositionOnce(NormalSudoku) && BoxesMatch(NormalSudoku)
  {
    NormalSudokuRowMajor();
    RowMajorPositions(NormalSudoku);
  }

  /** The game the app starts with: cell (i, j) of its grid is built from entry 9 * i + j. */
  lemma NormalSudokuLayout(i: int, j: int)
    requires 0 <= i < 9 && 0 <= j < 9
    ensures AllOnGrid(NormalSudoku) && Covers(NormalSudoku)
    ensures Layout(NormalSudoku)[i][j] == EntryCell(NormalSudoku[9 * i + j])
    ensures Layout(NormalSudoku)[i][j].Position() == Point(i, j)
    ensures Layout(NormalSudoku)[i][j].region == Sudoku.NineByNineBox(i, j)
  {
    NormalSudokuRowMajor();
    RowMajorPositions(NormalSudoku);
    RowMajorLayout(NormalSudoku, i, j);
  }

  // The prototype GridGame

  /** Insert `name` into the failures when the check fails, remove it when it passes. */
  function Flag(flags: set<string>, name: string, ok: bool): (r: set<string>)
    ensures name in r <==> !ok
    ensures r - {name} == flags - {name}
  {
    if ok then flags - {name} else flags + {name}
  }

  /** The column `setCellValue` collects: the cell at index `col` of every row long enough. */
  ghost function Column(b: Board, col: int): seq<Cell>
    decreases |b|
  {
    if b == [] then []
    else Column(b[..|b| - 1], col) + (if 0 <= col < |b[|b| - 1]| then [b[|b| - 1][col]] else [])
  }

  lemma {:induction false} ColumnMembers(b: Board, col: int, x: Cell)
    ensures x in Column(b, col) <==> exists i :: 0 <= i < |b| && 0 <= col < |b[i]| && b[i][col] == x
    decreases |b|
  {
    if b != [] {
      var n := |b| - 1;
      var init := b[..n];
      ColumnMembers(init, col, x);
      var tail := if 0 <= col < |b[n]| then [b[n][col]] else [];
      assert Column(b, col) == Column(init, col) + tail;
      if x in Column(b, col) && x !in tail {
        var i :| 0 <= i < |init| && 0 <= col < |init[i]| && init[i][col] == x;
        assert b[i] == init[i];
      }
      if exists i :: 0 <= i < |b| && 0 <= col < |b[i]| && b[i][col] == x {
        var i :| 0 <= i < |b| && 0 <= col < |b[i]| && b[i][col] == x;
        if i < n {
          assert init[i] == b[i];
        }
      }
    }
  }

  /** The enumerated double loop that keeps the cells with `j == col`. */
  method ColumnCells(b: Board, col: int) returns (column: seq<Cell>)
    ensures column == Column(b, col)
  {
    column := [];
    var i := 0;
    while i < |b|
      invariant 0 <= i <= |b| && column == Column(b[..i], col)
    {
      var row := b[i];
      var j := 0;
      while j < |row|
        invariant 0 <= j <= |row|
        invariant column == Column(b[..i], col) + (if 0 <= col < j then [row[col]] else [])
      {
        if j == col {
          column := column + [row[j]];
        }
        j := j + 1;
      }
      assert b[..i + 1][..i] == b[..i];
      i := i + 1;
    }
    assert b[..|b|] == b;
  }

  /**
   * The board after the prototype's `setCellValue(row:col:value:)`: a given
   * cell is left alone; clearing empties the cell's failures; otherwise the
   * cell is judged against its row (with the new value in it) and then
   * against its column.
   */
  ghost function PrototypeSet(b: Board, row: int, col: int, value: Option<int>): Board
    requires InBoard(b, row, col)
  {
    var c := b[row][col];
    if c.given.Some? then b
    else if value.None? then SetCell(b, row, col, c.SetValue(None).(failedConstraints := {}))
    else
      var c1 := c.SetValue(value);
      var b1 := SetCell(b, row, col, c1);
      var c2 := c1.(failedConstraints := Flag(c1.failedConstraints, UniqueInRowName, UniqueInRowValid(c1, b1[row])));
      var b2 := SetCell(b1, row, col, c2);
      var c3 := c2.(failedConstraints := Flag(c2.failedConstraints, UniqueInColumnName, UniqueInColumnValid(c2, Column(b2, col))));
      SetCell(b2, row, col, c3)
  }

  /** The earlier game design, which re-judges only the cell that was written. */
  class GridGame {
    var cells: Board

    /** `setCellValue(row:col:value:)` with the fixed rule lists `[UniqueInRow()]` and `[UniqueInColumn()]`. */
    method SetCellValue(row: int, col: int, value: Option<int>)
      requires InBoard(cells, row, col)
      modifies this
      ensures cells == PrototypeSet(old(cells), row, col, value)
    {
      if cells[row][col].given.Some? {
        return;
      }
      ghost var b0: Board := cells;
      cells := SetCell(cells, row, col, cells[row][col].SetValue(value));
      if value.None? {
        cells := SetCell(cells, row, col, cells[row][col].(failedConstraints := {}));
        SetCellTwice(b0, row, col, b0[row][col].SetValue(value), b0[row][col].SetValue(value).(failedConstraints := {}));
        return;
      }
      var cell := cells[row][col];
      if !UniqueInRowValid(cell, cells[row]) {
        cells := SetCell(cells, row, col, cell.(failedConstraints := cell.failedConstraints + {UniqueInRowName}));
      } else {
        cells := SetCell(cells, row, col, cell.(failedConstraints := cell.failedConstraints - {UniqueInRowName}));
      }
      var column := ColumnCells(cells, col);
      cell := cells[row][col];
      if !UniqueInColumnValid(cell, column) {
        cells := SetCell(cells, row, col, cell.(failedConstraints := cell.failedConstraints + {UniqueInColumnName}));
      } else {
        cells := SetCell(cells, row, col, cell.(failedConstraints := cell.failedConstraints - {UniqueInColumnName}));
      }
    }
  }

  /** Only the edited cell changes, and a given cell not at all. */
  lemma PrototypeSetFrame(b: Board, row: int, col: int, value: Option<int>)
    requires InBoard(b, row, col)
    ensures SameShape(PrototypeSet(b, row, col, value), b)
    ensures forall i, j :: InBoard(b, i, j) && (i, j) != (row, col) ==> PrototypeSet(b, row, col, value)[i][j] == b[i][j]
    ensures b[row][col].given.Some? ==> PrototypeSet(b, row, col, value) == b
    ensures b[row][col].given.None? && value.None? ==>
              PrototypeSet(b, row, col, value)[row][col] == b[row][col].(value := None, failedConstraints := {})
  {
  }

  /**
   * Writing a value into an open cell: the cell takes the value; it holds
   * "UniqueInRow" iff another entry of its row whose column differs has the
   * same effective value, and "UniqueInColumn" iff a cell of another row in
   * its column whose row differs has it; its other failures and fields stay.
   */
  lemma PrototypeSetFlags(b: Board, row: int, col: int, v: int)
    requires InBoard(b, row, col) && b[row][col].given.None?
    ensures var c := PrototypeSet(b, row, col, Some(v))[row][col];
      && c.(failedConstraints := b[row][col].failedConstraints) == b[row][col].(value := Some(v))
      && c.failedConstraints - {UniqueInRowName, UniqueInColumnName} == b[row][col].failedConstraints - {UniqueInRowName, UniqueInColumnName}
      && (UniqueInRowName in c.failedConstraints <==>
            exists k :: 0 <= k < |b[row]| && k != col && b[row][k].col != b[row][col].col
                        && b[row][k].EffectiveValue() == Some(v))
      && (UniqueInColumnName in c.failedConstraints <==>
            exists i :: 0 <= i < |b| && i != row && 0 <= col < |b[i]| && b[i][col].row != b[row][col].row
                        && b[i][col].EffectiveValue() == Some(v))
  {
    DefaultNamesDistinct();
    var c := b[row][col];
    var c1 := c.SetValue(Some(v));
    var b1 := SetCell(b, row, col, c1);
    var c2 := c1.(failedConstraints := Flag(c1.failedConstraints, UniqueInRowName, UniqueInRowValid(c1, b1[row])));
    var b2 := SetCell(b1, row, col, c2);
    var column := Column(b2, col);
    var c3 := c2.(failedConstraints := Flag(c2.failedConstraints, UniqueInColumnName, UniqueInColumnValid(c2, column)));
    assert PrototypeSet(b, row, col, Some(v))[row][col] == c3;
    assert c1.EffectiveValue() == Some(v) && c2.EffectiveValue() == Some(v);
    // The row as judged: the new cell at `col`, the old cells elsewhere.
    assert forall k :: 0 <= k < |b[row]| && k != col ==> b1[row][k] == b[row][k];
    // The column as judged, position by position.
    assert !UniqueInColumnValid(c2, column) <==>
           exists i :: 0 <= i < |b| && i != row && 0 <= col < |b[i]| && b[i][col].row != c.row
                       && b[i][col].EffectiveValue() == Some(v) by {
      if !UniqueInColumnValid(c2, column) {
        var k :| 0 <= k < |column| && column[k].row != c2.row && column[k].EffectiveValue() == c2.EffectiveValue();
        ColumnMembers(b2, col, column[k]);
        var i :| 0 <= i < |b2| && 0 <= col < |b2[i]| && b2[i][col] == column[k];
        assert i != row;
        assert b2[i][col] == b[i][col];
      } else {
        forall i | 0 <= i < |b| && i != row && 0 <= col < |b[i]| && b[i][col].row != c.row
          ensures b[i][col].EffectiveValue() != Some(v)
        {
          assert b2[i][col] == b[i][col];
          ColumnMembers(b2, col, b[i][col]);
          var k :| 0 <= k < |column| && column[k] == b[i][col];
        }
      }
    }
  }
}
