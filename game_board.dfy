/**
 * The value-level specification of the `GridGame` controller in
 * SudokuLadder/GameLogic.swift: constraints, the group of cells a constraint
 * looks at (`cellsFromPoints`), the board after each controller operation,
 * and the properties of those boards.  The controller class itself is in
 * module GameLogic and is proved against the functions here.
 */
module GameBoard {
  import opened Optional
  import opened CellModel
  import opened UniqueInRegion
  import opened KillerCage

  /** What a digit key does to the selected cells. */
  datatype ControlMode = BigNumber | CornerNumber | MiddleNumber

  /**
   * The checking closure of a constraint.  The source defines two rule
   * factories, `uniqueInRegion` and `KillerCageWithSumConstraint(sum:)`; no
   * code of the app builds a constraint from them.  `Rule` models exactly
   * those two.
   */
  datatype Rule = Unique | KillerCageWithSum(sum: int)

  /** A named rule over a list of board coordinates. */
  datatype Constraint = Constraint(name: string, points: seq<Point>, rule: Rule)

  /** The grid, row by row. */
  type Board = seq<seq<Cell>>

  /** The positions a rule reports for a group of cells. */
  ghost function Violations(rule: Rule, g: seq<Cell>): set<Point> {
    match rule
    case Unique => Duplicates(g)
    case KillerCageWithSum(sum) => CageViolations(sum, g)
  }

  /** `constraint.valid(activeCells)`: run the rule's closure on a group. */
  method Evaluate(rule: Rule, g: seq<Cell>) returns (out: set<Point>)
    ensures out == Violations(rule, g)
  {
    match rule {
      case Unique =>
        out := UniqueInRegion.UniqueInRegion(g);
      case KillerCageWithSum(sum) =>
        out := KillerCageWithSumConstraint(sum, g);
    }
  }

  /** Every reported position is that of a filled cell of the group. */
  lemma ViolationsWithinGroup(rule: Rule, g: seq<Cell>, p: Point)
    requires p in Violations(rule, g)
    ensures exists a :: 0 <= a < |g| && g[a].Position() == p && g[a].EffectiveValue().Some?
  {
    match rule {
      case Unique =>
        DuplicatesAreFilledGroupCells(g, p);
      case KillerCageWithSum(sum) =>
        CageViolationsCharacterized(sum, g, p);
    }
  }

  /** The cells of a group with their failure flags dropped. */
  function Contents(g: seq<Cell>): (r: seq<Cell>)
    ensures |r| == |g| && forall a :: 0 <= a < |g| ==> r[a] == g[a].Content()
  {
    seq(|g|, a requires 0 <= a < |g| => g[a].Content())
  }

  /** Rules read positions and values, never the failure flags. */
  lemma ViolationsIgnoreFlags(rule: Rule, g1: seq<Cell>, g2: seq<Cell>)
    requires Contents(g1) == Contents(g2)
    ensures Violations(rule, g1) == Violations(rule, g2)
  {
    assert |g1| == |Contents(g1)|;
    forall a | 0 <= a < |g1|
      ensures g1[a].Position() == g2[a].Position() && g1[a].EffectiveValue() == g2[a].EffectiveValue()
    {
      assert Contents(g1)[a] == Contents(g2)[a];
    }
    match rule {
      case Unique =>
        DuplicatesDependOnValuesOnly(g1, g2);
      case KillerCageWithSum(sum) =>
        CageViolationsDependOnValuesOnly(sum, g1, g2);
    }
  }

  // The board.

  /** `cells` is an h-by-w rectangle whose cell at [i][j] carries row i and column j. */
  ghost predicate WellFormed(b: Board, h: int, w: int) {
    && |b| == h
    && (forall i :: 0 <= i < h ==> |b[i]| == w)
    && (forall i, j :: 0 <= i < h && 0 <= j < w ==> b[i][j].Position() == Point(i, j))
  }

  predicate InBoard(b: Board, row: int, col: int) {
    0 <= row < |b| && 0 <= col < |b[row]|
  }

  /** Two boards of the same shape. */
  ghost predicate SameShape(b1: Board, b2: Board) {
    |b1| == |b2| && forall i :: 0 <= i < |b1| ==> |b1[i]| == |b2[i]|
  }

  /** Boards are equal when they agree cell by cell. */
  lemma BoardEq(b1: Board, b2: Board)
    requires SameShape(b1, b2)
    requires forall i, j :: 0 <= i < |b1| && 0 <= j < |b1[i]| ==> b1[i][j] == b2[i][j]
    ensures b1 == b2
  {
    forall i | 0 <= i < |b1| ensures b1[i] == b2[i] {
      assert forall j :: 0 <= j < |b1[i]| ==> b1[i][j] == b2[i][j];
    }
  }

  /** `cells[row][col] = c`. */
  function SetCell(b: Board, row: int, col: int, c: Cell): (r: Board)
    requires InBoard(b, row, col)
    ensures SameShape(r, b) && r[row][col] == c
    ensures forall i, j :: InBoard(b, i, j) && (i, j) != (row, col) ==> r[i][j] == b[i][j]
  {
    b[row := b[row][col := c]]
  }

  /** Writing a cell that keeps its coordinates keeps the board well formed. */
  lemma SetCellWellFormed(b: Board, h: int, w: int, row: int, col: int, c: Cell)
    requires WellFormed(b, h, w) && InBoard(b, row, col) && c.Position() == Point(row, col)
    ensures WellFormed(SetCell(b, row, col, c), h, w)
  {
  }

  /** A second write to the same cell replaces the first. */
  lemma SetCellTwice(b: Board, row: int, col: int, c: Cell, d: Cell)
    requires InBoard(b, row, col)
    ensures SetCell(SetCell(b, row, col, c), row, col, d) == SetCell(b, row, col, d)
  {
    BoardEq(SetCell(SetCell(b, row, col, c), row, col, d), SetCell(b, row, col, d));
  }

  /** Writing a cell's own value back changes nothing. */
  lemma SetCellSame(b: Board, row: int, col: int)
    requires InBoard(b, row, col)
    ensures SetCell(b, row, col, b[row][col]) == b
  {
    BoardEq(SetCell(b, row, col, b[row][col]), b);
  }

  /** The positions a set loop over `all` has handled once `todo` is left, and one more. */
  lemma HandledNext(all: set<Point>, todo: set<Point>, p: Point)
    requires p in todo && todo <= all
    ensures all - (todo - {p}) == (all - todo) + {p} && p !in all - todo
  {
  }

  /** The board with every failure flag dropped: what the rules can see of it. */
  ghost function ContentBoard(b: Board): Board {
    seq(|b|, i requires 0 <= i < |b| => Contents(b[i]))
  }

  // `cellsFromPoints(points:)`: rows in order, cells in order, one copy per matching point.

  /** One copy of `c` for every point of `pts` at its position. */
  ghost function Matches(c: Cell, pts: seq<Point>): seq<Cell> {
    if pts == [] then []
    else Matches(c, pts[..|pts| - 1]) + (if pts[|pts| - 1] == c.Position() then [c] else [])
  }

  /** The contribution of one board row. */
  ghost function RowMatches(row: seq<Cell>, pts: seq<Point>): seq<Cell> {
    if row == [] then []
    else RowMatches(row[..|row| - 1], pts) + Matches(row[|row| - 1], pts)
  }

  /** The cells `cellsFromPoints(points:)` returns. */
  ghost function CellsAt(b: Board, pts: seq<Point>): seq<Cell> {
    if b == [] then []
    else CellsAt(b[..|b| - 1], pts) + RowMatches(b[|b| - 1], pts)
  }

  lemma {:induction false} MatchesMembers(c: Cell, pts: seq<Point>, d: Cell)
    ensures d in Matches(c, pts) <==> d == c && c.Position() in pts
  {
    if pts != [] {
      var n := |pts| - 1;
      MatchesMembers(c, pts[..n], d);
      assert pts == pts[..n] + [pts[n]];
    }
  }

  lemma {:induction false} RowMatchesMembers(row: seq<Cell>, pts: seq<Point>, d: Cell)
    ensures d in RowMatches(row, pts) <==> d in row && d.Position() in pts
  {
    if row != [] {
      var n := |row| - 1;
      RowMatchesMembers(row[..n], pts, d);
      MatchesMembers(row[n], pts, d);
      assert row == row[..n] + [row[n]];
    }
  }

  /** The group holds the board cells whose position is listed, and nothing else. */
  lemma {:induction false} CellsAtMembers(b: Board, pts: seq<Point>, d: Cell)
    ensures d in CellsAt(b, pts) <==>
      (exists i, j :: 0 <= i < |b| && 0 <= j < |b[i]| && b[i][j] == d) && d.Position() in pts
  {
    if b != [] {
      var n := |b| - 1;
      CellsAtMembers(b[..n], pts, d);
      RowMatchesMembers(b[n], pts, d);
      if d in b[n] {
        var j :| 0 <= j < |b[n]| && b[n][j] == d;
      }
      if exists i, j :: 0 <= i < |b| && 0 <= j < |b[i]| && b[i][j] == d {
        var i, j :| 0 <= i < |b| && 0 <= j < |b[i]| && b[i][j] == d;
        if i < n {
          assert b[..n][i][j] == d;
        } else {
          assert d in b[n];
        }
      }
    }
  }

  lemma {:induction false} MatchesCount(c: Cell, pts: seq<Point>, d: Cell)
    ensures multiset(Matches(c, pts))[d] == if d == c then multiset(pts)[c.Position()] else 0
  {
    if pts != [] {
      var n := |pts| - 1;
      MatchesCount(c, pts[..n], d);
      assert pts == pts[..n] + [pts[n]];
    }
  }

  /** Within a row whose cell j sits at (r, j), a cell is collected once per point naming it. */
  lemma {:induction false} RowMatchesCount(row: seq<Cell>, r: int, pts: seq<Point>, d: Cell)
    requires forall j :: 0 <= j < |row| ==> row[j].Position() == Point(r, j)
    ensures multiset(RowMatches(row, pts))[d] ==
      if d.row == r && 0 <= d.col < |row| && row[d.col] == d then multiset(pts)[d.Position()] else 0
  {
    if row != [] {
      var n := |row| - 1;
      RowMatchesCount(row[..n], r, pts, d);
      MatchesCount(row[n], pts, d);
    }
  }

  lemma {:induction false} CellsAtCountAll(b: Board, w: int, pts: seq<Point>, d: Cell)
    requires WellFormed(b, |b|, w)
    ensures multiset(CellsAt(b, pts))[d] ==
      if 0 <= d.row < |b| && 0 <= d.col < w && b[d.row][d.col] == d then multiset(pts)[d.Position()] else 0
  {
    if b != [] {
      var n := |b| - 1;
      assert WellFormed(b[..n], n, w);
      CellsAtCountAll(b[..n], w, pts, d);
      RowMatchesCount(b[n], n, pts, d);
    }
  }

  /** Each board cell appears in the group exactly as often as its position is listed. */
  lemma CellsAtCount(b: Board, h: int, w: int, pts: seq<Point>, i: int, j: int)
    requires WellFormed(b, h, w) && 0 <= i < h && 0 <= j < w
    ensures multiset(CellsAt(b, pts))[b[i][j]] == multiset(pts)[Point(i, j)]
  {
    CellsAtCountAll(b, w, pts, b[i][j]);
  }

  /** Positions in row-major order. */
  predicate PointLe(p: Point, q: Point) {
    p.row < q.row || (p.row == q.row && p.col <= q.col)
  }

  ghost predicate RowMajor(s: seq<Cell>) {
    forall x, y :: 0 <= x < y < |s| ==> PointLe(s[x].Position(), s[y].Position())
  }

  lemma {:induction false} MatchesAreCopies(c: Cell, pts: seq<Point>)
    ensures forall x :: 0 <= x < |Matches(c, pts)| ==> Matches(c, pts)[x] == c
  {
    if pts != [] {
      MatchesAreCopies(c, pts[..|pts| - 1]);
    }
  }

  lemma {:induction false} RowMatchesSorted(row: seq<Cell>, r: int, pts: seq<Point>)
    requires forall j :: 0 <= j < |row| ==> row[j].Position() == Point(r, j)
    ensures RowMajor(RowMatches(row, pts))
    ensures forall x :: 0 <= x < |RowMatches(row, pts)| ==>
      RowMatches(row, pts)[x].row == r && 0 <= RowMatches(row, pts)[x].col < |row|
  {
    if row != [] {
      var n := |row| - 1;
      RowMatchesSorted(row[..n], r, pts);
      MatchesAreCopies(row[n], pts);
    }
  }

  lemma {:induction false} CellsAtSorted(b: Board, w: int, pts: seq<Point>)
    requires WellFormed(b, |b|, w)
    ensures RowMajor(CellsAt(b, pts))
    ensures forall x :: 0 <= x < |CellsAt(b, pts)| ==> 0 <= CellsAt(b, pts)[x].row < |b|
  {
    if b != [] {
      var n := |b| - 1;
      assert WellFormed(b[..n], n, w);
      CellsAtSorted(b[..n], w, pts);
      RowMatchesSorted(b[n], n, pts);
    }
  }

  /** The group lists its cells in row-major board order. */
  lemma CellsAtRowMajor(b: Board, h: int, w: int, pts: seq<Point>)
    requires WellFormed(b, h, w)
    ensures RowMajor(CellsAt(b, pts))
  {
    CellsAtSorted(b, w, pts);
  }

  lemma {:induction false} MatchesContent(c: Cell, pts: seq<Point>)
    ensures Contents(Matches(c, pts)) == Matches(c.Content(), pts)
  {
    if pts != [] {
      var n := |pts| - 1;
      MatchesContent(c, pts[..n]);
      assert Contents(Matches(c, pts)) == Contents(Matches(c, pts[..n]))
        + Contents(if pts[n] == c.Position() then [c] else []);
    }
  }

  lemma {:induction false} RowMatchesContent(row: seq<Cell>, pts: seq<Point>)
    ensures Contents(RowMatches(row, pts)) == RowMatches(Contents(row), pts)
  {
    if row != [] {
      var n := |row| - 1;
      RowMatchesContent(row[..n], pts);
      MatchesContent(row[n], pts);
      assert Contents(row)[..n] == Contents(row[..n]);
      assert Contents(RowMatches(row, pts)) == Contents(RowMatches(row[..n], pts)) + Contents(Matches(row[n], pts));
    }
  }

  /** Collecting cells and then dropping flags is dropping flags and then collecting. */
  lemma {:induction false} CellsAtContent(b: Board, pts: seq<Point>)
    ensures Contents(CellsAt(b, pts)) == CellsAt(ContentBoard(b), pts)
  {
    if b != [] {
      var n := |b| - 1;
      CellsAtContent(b[..n], pts);
      RowMatchesContent(b[n], pts);
      assert ContentBoard(b)[..n] == ContentBoard(b[..n]);
      assert Contents(CellsAt(b, pts)) == Contents(CellsAt(b[..n], pts)) + Contents(RowMatches(b[n], pts));
    }
  }

  // `setCellValue(row:col:value:)` with a value: the clear-then-recheck pass.

  /** The names of the constraints. */
  ghost function Names(cs: seq<Constraint>): set<string> {
    set k | 0 <= k < |cs| :: cs[k].name
  }

  /** What constraint `c` reports on board `b`. */
  ghost function Flagged(b: Board, c: Constraint): set<Point> {
    Violations(c.rule, CellsAt(b, c.points))
  }

  /**
   * The failure flags of the cell at `p` after the constraints of `cs` ran in
   * turn, each removing its name everywhere and inserting it where it reports.
   */
  ghost function RecheckFlags(f: set<string>, b: Board, cs: seq<Constraint>, p: Point): set<string> {
    if cs == [] then f
    else
      var c := cs[|cs| - 1];
      (RecheckFlags(f, b, cs[..|cs| - 1], p) - {c.name}) + (if p in Flagged(b, c) then {c.name} else {})
  }

  /** No later constraint of `cs` has the name of constraint `k`. */
  ghost predicate LastOfName(cs: seq<Constraint>, k: int)
    requires 0 <= k < |cs|
  {
    forall m :: k < m < |cs| ==> cs[m].name != cs[k].name
  }

  /** The last constraint named `n` reports `p`. */
  ghost predicate LastReports(b: Board, cs: seq<Constraint>, p: Point, n: string) {
    exists k :: 0 <= k < |cs| && cs[k].name == n && LastOfName(cs, k) && p in Flagged(b, cs[k])
  }

  lemma NamesSnoc(cs: seq<Constraint>)
    requires cs != []
    ensures Names(cs) == Names(cs[..|cs| - 1]) + {cs[|cs| - 1].name}
  {
    var m := |cs| - 1;
    var init := cs[..m];
    forall x | x in Names(cs) ensures x in Names(init) + {cs[m].name} {
      var k :| 0 <= k < |cs| && cs[k].name == x;
      if k < m {
        assert init[k] == cs[k];
      }
    }
    forall x | x in Names(init) ensures x in Names(cs) {
      var k :| 0 <= k < |init| && init[k].name == x;
      assert cs[k] == init[k];
    }
  }

  lemma LastReportsSnocSame(b: Board, cs: seq<Constraint>, p: Point)
    requires cs != []
    ensures LastReports(b, cs, p, cs[|cs| - 1].name) <==> p in Flagged(b, cs[|cs| - 1])
  {
    var m := |cs| - 1;
    assert LastOfName(cs, m);
    if LastReports(b, cs, p, cs[m].name) {
      var k :| 0 <= k < |cs| && cs[k].name == cs[m].name && LastOfName(cs, k) && p in Flagged(b, cs[k]);
      assert k == m;
    }
  }

  lemma LastReportsSnocOther(b: Board, cs: seq<Constraint>, p: Point, n: string)
    requires cs != [] && n != cs[|cs| - 1].name
    ensures LastReports(b, cs, p, n) <==> LastReports(b, cs[..|cs| - 1], p, n)
  {
    if LastReports(b, cs, p, n) {
      var k :| 0 <= k < |cs| && cs[k].name == n && LastOfName(cs, k) && p in Flagged(b, cs[k]);
      LastOfNameDrop(cs, k);
    }
    if LastReports(b, cs[..|cs| - 1], p, n) {
      var k :| 0 <= k < |cs| - 1 && cs[..|cs| - 1][k].name == n && LastOfName(cs[..|cs| - 1], k)
               && p in Flagged(b, cs[..|cs| - 1][k]);
      LastOfNameExtend(cs, k);
    }
  }

  lemma LastOfNameDrop(cs: seq<Constraint>, k: int)
    requires 0 <= k < |cs| - 1 && LastOfName(cs, k)
    ensures cs[..|cs| - 1][k] == cs[k] && LastOfName(cs[..|cs| - 1], k)
  {
    var init := cs[..|cs| - 1];
    forall j | k < j < |init| ensures init[j].name != init[k].name {
      assert init[j] == cs[j];
    }
  }

  lemma LastOfNameExtend(cs: seq<Constraint>, k: int)
    requires 0 <= k < |cs| - 1 && LastOfName(cs[..|cs| - 1], k) && cs[|cs| - 1].name != cs[k].name
    ensures cs[..|cs| - 1][k] == cs[k] && LastOfName(cs, k)
  {
    var init := cs[..|cs| - 1];
    forall j | k < j < |cs| ensures cs[j].name != cs[k].name {
      if j < |cs| - 1 {
        assert cs[j] == init[j];
      }
    }
  }

  /**
   * After the pass a cell keeps each flag that names no constraint, and holds
   * a constraint name iff the last constraint of that name reports the cell.
   */
  lemma {:induction false} RecheckFlagsCharacterized(f: set<string>, b: Board, cs: seq<Constraint>, p: Point, n: string)
    ensures n in RecheckFlags(f, b, cs, p) <==> (n in f && n !in Names(cs)) || LastReports(b, cs, p, n)
  {
    if cs != [] {
      RecheckFlagsCharacterized(f, b, cs[..|cs| - 1], p, n);
      NamesSnoc(cs);
      if n == cs[|cs| - 1].name {
        LastReportsSnocSame(b, cs, p);
      } else {
        LastReportsSnocOther(b, cs, p, n);
      }
    }
  }

  ghost predicate DistinctNames(cs: seq<Constraint>) {
    forall k, m :: 0 <= k < m < |cs| ==> cs[k].name != cs[m].name
  }

  /** With distinct names a cell holds a constraint's name iff that constraint reports it. */
  lemma FlagsWithDistinctNames(f: set<string>, b: Board, cs: seq<Constraint>, p: Point, k: int)
    requires DistinctNames(cs) && 0 <= k < |cs|
    ensures cs[k].name in RecheckFlags(f, b, cs, p) <==> p in Flagged(b, cs[k])
  {
    RecheckFlagsCharacterized(f, b, cs, p, cs[k].name);
    assert cs[k].name in Names(cs);
    assert LastOfName(cs, k);
    if LastReports(b, cs, p, cs[k].name) {
      var m :| 0 <= m < |cs| && cs[m].name == cs[k].name && LastOfName(cs, m) && p in Flagged(b, cs[m]);
      assert m == k;
    }
  }

  /** Flags that name no constraint survive the pass untouched. */
  lemma ForeignFlagsKept(f: set<string>, b: Board, cs: seq<Constraint>, p: Point, n: string)
    requires n !in Names(cs)
    ensures n in RecheckFlags(f, b, cs, p) <==> n in f
  {
    RecheckFlagsCharacterized(f, b, cs, p, n);
    forall k | 0 <= k < |cs| ensures cs[k].name != n {
      assert cs[k].name in Names(cs);
    }
  }

  /**
   * A second pass over a board with the same contents overrides everything the
   * first one wrote: the result depends on the old flags only through the
   * flags that name no constraint.
   */
  lemma RecheckFlagsAbsorbs(f: set<string>, g: set<string>, b1: Board, b2: Board, cs: seq<Constraint>, p: Point)
    requires f - Names(cs) == g - Names(cs)
    requires ContentBoard(b1) == ContentBoard(b2)
    ensures RecheckFlags(f, b1, cs, p) == RecheckFlags(g, b2, cs, p)
  {
    forall k | 0 <= k < |cs| ensures Flagged(b1, cs[k]) == Flagged(b2, cs[k]) {
      FlaggedIgnoresFlags(b1, b2, cs[k]);
    }
    forall n ensures n in RecheckFlags(f, b1, cs, p) <==> n in RecheckFlags(g, b2, cs, p) {
      RecheckFlagsCharacterized(f, b1, cs, p, n);
      RecheckFlagsCharacterized(g, b2, cs, p, n);
      assert n in f - Names(cs) <==> n in g - Names(cs);
    }
  }

  /** The pass keeps the flags that name no constraint. */
  lemma RecheckFlagsForeign(f: set<string>, b: Board, cs: seq<Constraint>, p: Point)
    ensures RecheckFlags(f, b, cs, p) - Names(cs) == f - Names(cs)
  {
    forall n ensures n in RecheckFlags(f, b, cs, p) - Names(cs) <==> n in f - Names(cs) {
      if n !in Names(cs) {
        ForeignFlagsKept(f, b, cs, p, n);
      }
    }
  }

  /** Constraints see contents only, so failure flags cannot change what they report. */
  lemma FlaggedIgnoresFlags(b1: Board, b2: Board, c: Constraint)
    requires ContentBoard(b1) == ContentBoard(b2)
    ensures Flagged(b1, c) == Flagged(b2, c)
  {
    CellsAtContent(b1, c.points);
    CellsAtContent(b2, c.points);
    ViolationsIgnoreFlags(c.rule, CellsAt(b1, c.points), CellsAt(b2, c.points));
  }

  /** The whole board after the pass. */
  ghost function Rechecked(b: Board, cs: seq<Constraint>): Board {
    seq(|b|, i requires 0 <= i < |b| =>
      seq(|b[i]|, j requires 0 <= j < |b[i]| =>
        b[i][j].(failedConstraints := RecheckFlags(b[i][j].failedConstraints, b, cs, b[i][j].Position()))))
  }

  /** The removal loop of one constraint: its name dropped from every cell. */
  ghost function WithoutName(b: Board, n: string): Board {
    seq(|b|, i requires 0 <= i < |b| =>
      seq(|b[i]|, j requires 0 <= j < |b[i]| =>
        b[i][j].(failedConstraints := b[i][j].failedConstraints - {n})))
  }

  /** The insertion loop of one constraint: its name added at every reported position. */
  ghost function WithName(b: Board, n: string, ps: set<Point>): Board {
    seq(|b|, i requires 0 <= i < |b| =>
      seq(|b[i]|, j requires 0 <= j < |b[i]| =>
        b[i][j].(failedConstraints := b[i][j].failedConstraints + (if Point(i, j) in ps then {n} else {}))))
  }

  lemma WithNameStep(b: Board, n: string, ps: set<Point>, p: Point)
    requires InBoard(b, p.row, p.col)
    ensures WithName(b, n, ps + {p}) ==
      SetCell(WithName(b, n, ps), p.row, p.col,
              WithName(b, n, ps)[p.row][p.col].(failedConstraints := WithName(b, n, ps)[p.row][p.col].failedConstraints + {n}))
  {
    var l: Board, r: Board := WithName(b, n, ps + {p}), SetCell(WithName(b, n, ps), p.row, p.col,
              WithName(b, n, ps)[p.row][p.col].(failedConstraints := WithName(b, n, ps)[p.row][p.col].failedConstraints + {n}));
    BoardEq(l, r);
  }

  lemma WithNameNext(b: Board, n: string, all: set<Point>, todo: set<Point>, p: Point)
    requires InBoard(b, p.row, p.col) && p in todo && todo <= all
    ensures WithName(b, n, all - (todo - {p})) ==
      SetCell(WithName(b, n, all - todo), p.row, p.col,
              WithName(b, n, all - todo)[p.row][p.col].(failedConstraints := WithName(b, n, all - todo)[p.row][p.col].failedConstraints + {n}))
  {
    HandledNext(all, todo, p);
    WithNameStep(b, n, all - todo, p);
  }

  lemma WithNameNone(b: Board, n: string)
    ensures WithName(b, n, {}) == b
  {
    BoardEq(WithName(b, n, {}), b);
  }

  /** Boards whose cells agree up to their flags have the same contents. */
  lemma ContentBoardEq(b1: Board, b2: Board)
    requires SameShape(b1, b2)
    requires forall i, j :: 0 <= i < |b1| && 0 <= j < |b1[i]| ==> b1[i][j].Content() == b2[i][j].Content()
    ensures ContentBoard(b1) == ContentBoard(b2)
  {
    forall i | 0 <= i < |b1| ensures Contents(b1[i]) == Contents(b2[i]) {
    }
  }

  lemma RecheckedNone(b: Board)
    ensures Rechecked(b, []) == b
  {
    BoardEq(Rechecked(b, []), b);
  }

  /** Every position a constraint reports is on the board. */
  lemma FlaggedInBoard(b: Board, h: int, w: int, c: Constraint, p: Point)
    requires WellFormed(b, h, w) && p in Flagged(b, c)
    ensures InBoard(b, p.row, p.col)
  {
    var g := CellsAt(b, c.points);
    ViolationsWithinGroup(c.rule, g, p);
    var a :| 0 <= a < |g| && g[a].Position() == p && g[a].EffectiveValue().Some?;
    CellsAtMembers(b, c.points, g[a]);
  }

  /**
   * One turn of the constraint loop: removing the name everywhere and then
   * inserting it where the constraint reports extends the pass by that constraint.
   */
  lemma RecheckStep(b: Board, h: int, w: int, cs: seq<Constraint>, k: int)
    requires WellFormed(b, h, w) && 0 <= k < |cs|
    ensures ContentBoard(WithoutName(Rechecked(b, cs[..k]), cs[k].name)) == ContentBoard(b)
    ensures WithName(WithoutName(Rechecked(b, cs[..k]), cs[k].name), cs[k].name, Flagged(b, cs[k]))
         == Rechecked(b, cs[..k + 1])
  {
    var cur: Board := Rechecked(b, cs[..k]);
    var mid: Board := WithoutName(cur, cs[k].name);
    ContentBoardEq(mid, b);
    var l: Board, r: Board := WithName(mid, cs[k].name, Flagged(b, cs[k])), Rechecked(b, cs[..k + 1]);
    assert cs[..k + 1][..k] == cs[..k];
    forall i, j | 0 <= i < |l| && 0 <= j < |l[i]| ensures l[i][j] == r[i][j] {
      assert b[i][j].Position() == Point(i, j);
    }
    BoardEq(l, r);
  }

  /** The board after `setCellValue(row:col:value:)`. */
  ghost function AfterSet(b: Board, cs: seq<Constraint>, row: int, col: int, value: Option<int>): Board
    requires InBoard(b, row, col)
  {
    var c := b[row][col];
    if c.given.Some? then b
    else if value.None? then SetCell(b, row, col, c.SetValue(None).(failedConstraints := {}))
    else Rechecked(SetCell(b, row, col, c.SetValue(value)), cs)
  }

  /** Every cell filled and without failures: what `checkVictory` looks for. */
  ghost predicate Won(b: Board) {
    forall i, j :: 0 <= i < |b| && 0 <= j < |b[i]| ==>
      b[i][j].EffectiveValue().Some? && b[i][j].failedConstraints == {}
  }

  lemma ContentBoardOfRechecked(b: Board, cs: seq<Constraint>)
    ensures ContentBoard(Rechecked(b, cs)) == ContentBoard(b)
  {
    var r := Rechecked(b, cs);
    forall i | 0 <= i < |b| ensures Contents(r[i]) == Contents(b[i]) {
      assert forall j :: 0 <= j < |b[i]| ==> r[i][j].Content() == b[i][j].Content();
    }
  }

  /** Two boards with the same contents and the same foreign flags recheck to the same board. */
  lemma RecheckedAgree(b1: Board, b2: Board, cs: seq<Constraint>)
    requires ContentBoard(b1) == ContentBoard(b2) && SameShape(b1, b2)
    requires forall i, j :: 0 <= i < |b1| && 0 <= j < |b1[i]| ==>
      b1[i][j].failedConstraints - Names(cs) == b2[i][j].failedConstraints - Names(cs)
    ensures Rechecked(b1, cs) == Rechecked(b2, cs)
  {
    var r1, r2 := Rechecked(b1, cs), Rechecked(b2, cs);
    forall i, j | 0 <= i < |b1| && 0 <= j < |b1[i]| ensures r1[i][j] == r2[i][j] {
      assert ContentBoard(b1)[i][j] == ContentBoard(b2)[i][j];
      RecheckFlagsAbsorbs(b1[i][j].failedConstraints, b2[i][j].failedConstraints, b1, b2, cs, b1[i][j].Position());
    }
    BoardEq(r1, r2);
  }

  /** Setting the same value twice leaves the board as setting it once. */
  lemma AfterSetIdempotent(b: Board, cs: seq<Constraint>, row: int, col: int, value: Option<int>)
    requires InBoard(b, row, col)
    ensures AfterSet(AfterSet(b, cs, row, col, value), cs, row, col, value) == AfterSet(b, cs, row, col, value)
  {
    var c := b[row][col];
    if c.given.None? && value.Some? {
      var b1: Board := SetCell(b, row, col, c.SetValue(value));
      var r: Board := Rechecked(b1, cs);
      var b2: Board := SetCell(r, row, col, r[row][col].SetValue(value));
      assert b2 == r by {
        assert r[row][col].SetValue(value) == r[row][col];
        BoardEq(b2, r);
      }
      ContentBoardOfRechecked(b1, cs);
      forall i, j | 0 <= i < |r| && 0 <= j < |r[i]|
        ensures r[i][j].failedConstraints - Names(cs) == b1[i][j].failedConstraints - Names(cs)
      {
        RecheckFlagsForeign(b1[i][j].failedConstraints, b1, cs, b1[i][j].Position());
      }
      RecheckedAgree(r, b1, cs);
    } else if c.given.None? {
      var b1: Board := AfterSet(b, cs, row, col, value);
      assert b1[row][col].SetValue(None).(failedConstraints := {}) == b1[row][col];
      BoardEq(SetCell(b1, row, col, b1[row][col]), b1);
    }
  }

  // Delete, input and reset.

  /** One of the three things a delete can clear. */
  datatype Item = ValueItem | CenterItem | PencilItem

  /** The order in which `handleDelete` looks for something to clear, per mode. */
  function Order(mode: ControlMode): (r: seq<Item>)
    ensures |r| == 3 && r[0] != r[1] && r[1] != r[2] && r[0] != r[2]
    ensures multiset(r) == multiset{ValueItem, CenterItem, PencilItem}
  {
    match mode
    case BigNumber => [ValueItem, CenterItem, PencilItem]
    case CornerNumber => [PencilItem, ValueItem, CenterItem]
    case MiddleNumber => [CenterItem, ValueItem, PencilItem]
  }

  predicate HasItem(c: Cell, it: Item) {
    match it
    case ValueItem => c.value.Some?
    case CenterItem => |c.centerMarks| > 0
    case PencilItem => |c.pencilMarks| > 0
  }

  /** `setCellValue(value: nil)` on a cell: without a given, the value and the cell's own flags go. */
  function ClearValueGuarded(c: Cell): Cell {
    if c.given.Some? then c else c.SetValue(None).(failedConstraints := {})
  }

  function ClearItem(c: Cell, it: Item): Cell {
    match it
    case ValueItem => ClearValueGuarded(c)
    case CenterItem => c.ClearCenterMarks()
    case PencilItem => c.ClearPencilMarks()
  }

  /** Clear the first item of `order` the cell has; nothing when it has none. */
  function ClearFirst(c: Cell, order: seq<Item>): Cell
  {
    if order == [] then c
    else if HasItem(c, order[0]) then ClearItem(c, order[0])
    else ClearFirst(c, order[1..])
  }

  /** The body of `handleDelete`'s loop for one selected cell, branch by branch. */
  function DeleteCell(mode: ControlMode, c: Cell): Cell {
    match mode
    case BigNumber =>
      if c.value.Some? then ClearValueGuarded(c)
      else if |c.centerMarks| > 0 then c.ClearCenterMarks()
      else if |c.pencilMarks| > 0 then c.ClearPencilMarks()
      else c
    case CornerNumber =>
      if |c.pencilMarks| > 0 then c.ClearPencilMarks()
      else if c.value.Some? then ClearValueGuarded(c)
      else if |c.centerMarks| > 0 then c.ClearCenterMarks()
      else c
    case MiddleNumber =>
      if |c.centerMarks| > 0 then c.ClearCenterMarks()
      else if c.value.Some? then ClearValueGuarded(c)
      else if |c.pencilMarks| > 0 then c.ClearPencilMarks()
      else c
  }

  lemma ClearFirstOfThree(c: Cell, x: Item, y: Item, z: Item)
    ensures ClearFirst(c, [x, y, z]) ==
      if HasItem(c, x) then ClearItem(c, x)
      else if HasItem(c, y) then ClearItem(c, y)
      else if HasItem(c, z) then ClearItem(c, z)
      else c
  {
    assert [x, y, z][1..] == [y, z];
    assert [y, z][1..] == [z];
    assert [z][1..] == [];
    assert ClearFirst(c, [z]) == if HasItem(c, z) then ClearItem(c, z) else c;
    assert ClearFirst(c, [y, z]) == if HasItem(c, y) then ClearItem(c, y) else ClearFirst(c, [z]);
  }

  /** A delete clears exactly the first non-empty item in the mode's order. */
  lemma DeleteClearsFirstItem(mode: ControlMode, c: Cell)
    ensures DeleteCell(mode, c) == ClearFirst(c, Order(mode))
  {
    var o := Order(mode);
    ClearFirstOfThree(c, o[0], o[1], o[2]);
    assert o == [o[0], o[1], o[2]];
  }

  /** A delete never touches a given cell's value, given or flags. */
  lemma DeleteKeepsGiven(mode: ControlMode, c: Cell)
    requires c.given.Some?
    ensures DeleteCell(mode, c).EffectiveValue() == c.EffectiveValue()
    ensures DeleteCell(mode, c).value == c.value && DeleteCell(mode, c).failedConstraints == c.failedConstraints
  {
  }

  /** What `handleInput` or `handleDelete` does to one selected cell. */
  datatype Edit = Write(v: int) | Pencil(v: int) | Center(v: int) | Erase(mode: ControlMode)

  /** The digit action with the given-cell guard of `setCellValue`, `addPencilMark` and `addCenterMark`. */
  function ApplyEdit(e: Edit, c: Cell): Cell {
    match e
    case Write(v) => if c.given.Some? then c else c.SetValue(Some(v))
    case Pencil(v) => if c.given.Some? then c else c.AddPencilMark(v)
    case Center(v) => if c.given.Some? then c else c.AddCenterMark(v)
    case Erase(mode) => DeleteCell(mode, c)
  }

  /** The board with edit `e` applied to every position of `ps`. */
  ghost function EditAll(b: Board, ps: set<Point>, e: Edit): Board {
    seq(|b|, i requires 0 <= i < |b| =>
      seq(|b[i]|, j requires 0 <= j < |b[i]| =>
        if Point(i, j) in ps then ApplyEdit(e, b[i][j]) else b[i][j]))
  }

  /** Applying the edit at one more position is one more single-cell update. */
  lemma EditAllStep(b: Board, ps: set<Point>, e: Edit, p: Point)
    requires InBoard(b, p.row, p.col) && p !in ps
    ensures EditAll(b, ps + {p}, e) == SetCell(EditAll(b, ps, e), p.row, p.col, ApplyEdit(e, b[p.row][p.col]))
  {
    BoardEq(EditAll(b, ps + {p}, e), SetCell(EditAll(b, ps, e), p.row, p.col, ApplyEdit(e, b[p.row][p.col])));
  }

  /** `EditAllStep` in the form a set loop over `all` with `todo` left uses. */
  lemma EditAllNext(b: Board, all: set<Point>, todo: set<Point>, e: Edit, p: Point)
    requires InBoard(b, p.row, p.col) && p in todo && todo <= all
    ensures EditAll(b, all - todo, e)[p.row][p.col] == b[p.row][p.col]
    ensures EditAll(b, all - (todo - {p}), e) == SetCell(EditAll(b, all - todo, e), p.row, p.col, ApplyEdit(e, b[p.row][p.col]))
  {
    HandledNext(all, todo, p);
    EditAllStep(b, all - todo, e, p);
  }

  lemma EditAllNone(b: Board, e: Edit)
    ensures EditAll(b, {}, e) == b
  {
    BoardEq(EditAll(b, {}, e), b);
  }

  /** Some selected position holds a cell without a given. */
  ghost predicate AnyWritable(b: Board, ps: set<Point>) {
    exists p :: p in ps && InBoard(b, p.row, p.col) && b[p.row][p.col].given.None?
  }

  /** The board after `handleInput` in BigNumber mode has written the positions `ps`. */
  ghost function AfterWrites(b: Board, cs: seq<Constraint>, ps: set<Point>, v: int): Board {
    if AnyWritable(b, ps) then Rechecked(EditAll(b, ps, Write(v)), cs) else b
  }

  lemma RecheckedShape(b: Board, cs: seq<Constraint>)
    ensures SameShape(Rechecked(b, cs), b)
    ensures forall i, j :: InBoard(b, i, j) ==>
      Rechecked(b, cs)[i][j].Content() == b[i][j].Content()
      && Rechecked(b, cs)[i][j].failedConstraints - Names(cs) == b[i][j].failedConstraints - Names(cs)
  {
    forall i, j | InBoard(b, i, j)
      ensures Rechecked(b, cs)[i][j].failedConstraints - Names(cs) == b[i][j].failedConstraints - Names(cs)
    {
      RecheckFlagsForeign(b[i][j].failedConstraints, b, cs, b[i][j].Position());
    }
  }

  lemma EditAllGivenOnly(b: Board, ps: set<Point>, v: int)
    requires !AnyWritable(b, ps)
    ensures EditAll(b, ps, Write(v)) == b
  {
    forall i, j | 0 <= i < |b| && 0 <= j < |b[i]| ensures EditAll(b, ps, Write(v))[i][j] == b[i][j] {
      if Point(i, j) in ps {
        assert InBoard(b, i, j);
      }
    }
    BoardEq(EditAll(b, ps, Write(v)), b);
  }

  /** Writing the digit into one more selected cell is one more `setCellValue`. */
  lemma AfterWritesStep(b: Board, cs: seq<Constraint>, ps: set<Point>, v: int, p: Point)
    requires InBoard(b, p.row, p.col) && p !in ps
    ensures SameShape(AfterWrites(b, cs, ps, v), b)
    ensures AfterWrites(b, cs, ps, v)[p.row][p.col].given == b[p.row][p.col].given
    ensures AfterSet(AfterWrites(b, cs, ps, v), cs, p.row, p.col, Some(v)) == AfterWrites(b, cs, ps + {p}, v)
    ensures AnyWritable(b, ps + {p}) <==> AnyWritable(b, ps) || b[p.row][p.col].given.None?
  {
    var cur: Board := AfterWrites(b, cs, ps, v);
    var e: Board := EditAll(b, ps, Write(v));
    var e2: Board := EditAll(b, ps + {p}, Write(v));
    RecheckedShape(e, cs);
    EditAllStep(b, ps, Write(v), p);
    if b[p.row][p.col].given.Some? {
      assert AnyWritable(b, ps + {p}) ==> AnyWritable(b, ps);
      assert e[p.row][p.col] == b[p.row][p.col];
      BoardEq(e2, e);
    } else {
      assert AnyWritable(b, ps + {p});
      var x: Board := SetCell(cur, p.row, p.col, cur[p.row][p.col].SetValue(Some(v)));
      if !AnyWritable(b, ps) {
        EditAllGivenOnly(b, ps, v);
      }
      forall i, j | 0 <= i < |x| && 0 <= j < |x[i]|
        ensures x[i][j].Content() == e2[i][j].Content()
        ensures x[i][j].failedConstraints - Names(cs) == e2[i][j].failedConstraints - Names(cs)
      {
      }
      ContentBoardEq(x, e2);
      RecheckedAgree(x, e2, cs);
    }
  }

  /** `reset()`: value, centre marks and pencil marks of every cell cleared. */
  ghost function ResetBoard(b: Board): Board {
    seq(|b|, i requires 0 <= i < |b| =>
      seq(|b[i]|, j requires 0 <= j < |b[i]| => b[i][j].ClearValue().ClearCenterMarks().ClearPencilMarks()))
  }

  /** Reset empties every entry but keeps givens, failure flags and selection. */
  lemma ResetKeepsGivens(b: Board, i: int, j: int)
    requires InBoard(b, i, j)
    ensures ResetBoard(b)[i][j].value == None
    ensures ResetBoard(b)[i][j].pencilMarks == {} && ResetBoard(b)[i][j].centerMarks == {}
    ensures ResetBoard(b)[i][j].EffectiveValue() == b[i][j].given
    ensures ResetBoard(b)[i][j].failedConstraints == b[i][j].failedConstraints
    ensures ResetBoard(b)[i][j].selected == b[i][j].selected
  {
  }

  /** A reset board counts as won only when every cell is a given and carries no flag. */
  lemma ResetWonOnlyWhenAllGiven(b: Board)
    ensures Won(ResetBoard(b)) <==>
      forall i, j :: InBoard(b, i, j) ==> b[i][j].given.Some? && b[i][j].failedConstraints == {}
  {
    if forall i, j :: InBoard(b, i, j) ==> b[i][j].given.Some? && b[i][j].failedConstraints == {} {
      forall i, j | 0 <= i < |ResetBoard(b)| && 0 <= j < |ResetBoard(b)[i]|
        ensures ResetBoard(b)[i][j].EffectiveValue().Some? && ResetBoard(b)[i][j].failedConstraints == {}
      {
        assert InBoard(b, i, j);
      }
    }
    if Won(ResetBoard(b)) {
      forall i, j | InBoard(b, i, j) ensures b[i][j].given.Some? && b[i][j].failedConstraints == {} {
        assert ResetBoard(b)[i][j].EffectiveValue().Some?;
      }
    }
  }

  /** `clearSelection()`: the `selected` mark of every listed cell cleared. */
  ghost function Deselected(b: Board, ps: set<Point>): Board {
    seq(|b|, i requires 0 <= i < |b| =>
      seq(|b[i]|, j requires 0 <= j < |b[i]| =>
        if Point(i, j) in ps then b[i][j].(selected := false) else b[i][j]))
  }

  lemma DeselectedStep(b: Board, ps: set<Point>, p: Point)
    requires InBoard(b, p.row, p.col)
    ensures Deselected(b, ps + {p}) ==
      SetCell(Deselected(b, ps), p.row, p.col, Deselected(b, ps)[p.row][p.col].(selected := false))
  {
    BoardEq(Deselected(b, ps + {p}),
            SetCell(Deselected(b, ps), p.row, p.col, Deselected(b, ps)[p.row][p.col].(selected := false)));
  }

  lemma DeselectedShape(b: Board, ps: set<Point>, h: int, w: int)
    requires WellFormed(b, h, w)
    ensures WellFormed(Deselected(b, ps), h, w)
  {
  }

  lemma DeselectedNext(b: Board, all: set<Point>, todo: set<Point>, p: Point)
    requires InBoard(b, p.row, p.col) && p in todo && todo <= all
    ensures Deselected(b, all - (todo - {p})) ==
      SetCell(Deselected(b, all - todo), p.row, p.col, Deselected(b, all - todo)[p.row][p.col].(selected := false))
  {
    HandledNext(all, todo, p);
    DeselectedStep(b, all - todo, p);
  }

  lemma DeselectedNone(b: Board)
    ensures Deselected(b, {}) == b
  {
    BoardEq(Deselected(b, {}), b);
  }

  // `setStaticBorders()`.

  /** The outer edges of cell (i, j) in an h-by-w grid, in the order they are appended. */
  function EdgeBorders(h: int, w: int, i: int, j: int): seq<Edge> {
    (if i == 0 then [Top] else [])
    + (if i == h - 1 then [Bottom] else [])
    + (if j == 0 then [Leading] else [])
    + (if j == w - 1 then [Trailing] else [])
  }

  /** The sides of cell (i, j) whose neighbour lies in another region, in the order they are appended. */
  ghost function RegionBorders(b: Board, h: int, w: int, i: int, j: int): seq<Edge>
    requires WellFormed(b, h, w) && 0 <= i < h && 0 <= j < w
  {
    var r := b[i][j].region;
    (if i > 0 && b[i - 1][j].region != r then [Top] else [])
    + (if i < h - 1 && b[i + 1][j].region != r then [Bottom] else [])
    + (if j > 0 && b[i][j - 1].region != r then [Leading] else [])
    + (if j < w - 1 && b[i][j + 1].region != r then [Trailing] else [])
  }

  /** The board after `setStaticBorders()`: both border lists extended, nothing else changed. */
  ghost function Bordered(b: Board, h: int, w: int): Board
    requires WellFormed(b, h, w)
  {
    seq(|b|, i requires 0 <= i < |b| =>
      seq(|b[i]|, j requires 0 <= j < |b[i]| =>
        b[i][j].(edgeBorders := b[i][j].edgeBorders + EdgeBorders(h, w, i, j),
                 regionBorders := b[i][j].regionBorders + RegionBorders(b, h, w, i, j))))
  }

  /** A cell gets each edge border exactly on the matching side of the grid. */
  lemma EdgeBordersExact(h: int, w: int, i: int, j: int)
    ensures Top in EdgeBorders(h, w, i, j) <==> i == 0
    ensures Bottom in EdgeBorders(h, w, i, j) <==> i == h - 1
    ensures Leading in EdgeBorders(h, w, i, j) <==> j == 0
    ensures Trailing in EdgeBorders(h, w, i, j) <==> j == w - 1
  {
  }

  /** A cell gets a region border on a side exactly when the neighbour there is in another region. */
  lemma RegionBordersExact(b: Board, h: int, w: int, i: int, j: int)
    requires WellFormed(b, h, w) && 0 <= i < h && 0 <= j < w
    ensures Top in RegionBorders(b, h, w, i, j) <==> i > 0 && b[i - 1][j].region != b[i][j].region
    ensures Bottom in RegionBorders(b, h, w, i, j) <==> i < h - 1 && b[i + 1][j].region != b[i][j].region
    ensures Leading in RegionBorders(b, h, w, i, j) <==> j > 0 && b[i][j - 1].region != b[i][j].region
    ensures Trailing in RegionBorders(b, h, w, i, j) <==> j < w - 1 && b[i][j + 1].region != b[i][j].region
  {
  }

  /** Region borders come in pairs: a cell's bottom is its lower neighbour's top, and likewise sideways. */
  lemma RegionBordersSymmetric(b: Board, h: int, w: int, i: int, j: int)
    requires WellFormed(b, h, w) && 0 <= i < h && 0 <= j < w
    ensures i + 1 < h ==> (Bottom in RegionBorders(b, h, w, i, j) <==> Top in RegionBorders(b, h, w, i + 1, j))
    ensures j + 1 < w ==> (Trailing in RegionBorders(b, h, w, i, j) <==> Leading in RegionBorders(b, h, w, i, j + 1))
  {
    RegionBordersExact(b, h, w, i, j);
    if i + 1 < h {
      RegionBordersExact(b, h, w, i + 1, j);
    }
    if j + 1 < w {
      RegionBordersExact(b, h, w, i, j + 1);
    }
  }
}
