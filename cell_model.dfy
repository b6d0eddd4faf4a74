/**
 * The grid cell of SudokuLadder/GameLogic.swift (`struct Cell`) and the small
 * value types it is built from.  A Swift struct has value semantics, so a
 * `mutating func` on it is modelled as a function that returns the updated cell.
 */
module CellModel {
  import opened Optional

  /** A board coordinate; cells are identified (hashed) by this pair alone. */
  datatype Point = Point(row: int, col: int)

  /** SwiftUI's `Edge`, used for the border lists of a cell. */
  datatype Edge = Top | Bottom | Leading | Trailing

  /** The background colour `foregroundColor` picks, as an abstract tag. */
  datatype Tint = FailedAndSelected | ConstraintFailed | SelectedTint | ClearTint

  /** The text colour `displayColor` picks, as an abstract tag. */
  datatype TextTint = GivenColor | InputColor

  datatype Cell = Cell(
    row: int,
    col: int,
    region: int,
    value: Option<int>,
    given: Option<int>,
    selected: bool,
    regionBorders: seq<Edge>,
    edgeBorders: seq<Edge>,
    pencilMarks: set<int>,
    centerMarks: set<int>,
    failedConstraints: set<string>)
  {
    /** The cell's position: what `hash(into:)` combines; `==` still compares every field. */
    function Position(): Point { Point(row, col) }

    /** `given ?? value`: the value every rule looks at. */
    function EffectiveValue(): Option<int> {
      if given.Some? then given else value
    }

    /** Background colour: failure beats selection. */
    function ForegroundColor(): Tint {
      if |failedConstraints| > 0 && selected then FailedAndSelected
      else if |failedConstraints| > 0 then ConstraintFailed
      else if selected then SelectedTint
      else ClearTint
    }

    function DisplayColor(): TextTint {
      if given.Some? then GivenColor else InputColor
    }

    function SetValue(v: Option<int>): Cell { this.(value := v) }

    function AddPencilMark(v: int): Cell { this.(pencilMarks := pencilMarks + {v}) }

    function AddCenterMark(v: int): Cell { this.(centerMarks := centerMarks + {v}) }

    function ClearValue(): Cell { this.(value := None) }

    function ClearCenterMarks(): Cell { this.(centerMarks := {}) }

    function ClearPencilMarks(): Cell { this.(pencilMarks := {}) }

    /** The cell without its failure flags: everything a rule may depend on. */
    function Content(): Cell { this.(failedConstraints := {}) }
  }

  /** Swift's memberwise `Cell(row:col:region:given:)` with every other field at its default. */
  function NewCell(row: int, col: int, region: int, given: Option<int>): (c: Cell)
    ensures c.Position() == Point(row, col) && c.region == region
    ensures c.EffectiveValue() == given && c.value == None
    ensures !c.selected && c.pencilMarks == {} && c.centerMarks == {} && c.failedConstraints == {}
    ensures c.regionBorders == [] && c.edgeBorders == []
  {
    Cell(row, col, region, None, given, false, [], [], {}, {}, {})
  }

  /** A given value always wins: writing `value` cannot change what the rules see. */
  lemma GivenShadowsValue(c: Cell, v: Option<int>)
    ensures c.given.Some? ==> c.SetValue(v).EffectiveValue() == c.EffectiveValue() == c.given
    ensures c.given.None? ==> c.SetValue(v).EffectiveValue() == v
    ensures c.given.None? ==> c.ClearValue().EffectiveValue() == None
  {
  }

  /** Each mutator touches exactly its own field. */
  lemma MutatorsTouchOneField(c: Cell, v: int, o: Option<int>)
    ensures c.SetValue(o).value == o && c.SetValue(o).(value := c.value) == c
    ensures v in c.AddPencilMark(v).pencilMarks && c.pencilMarks <= c.AddPencilMark(v).pencilMarks
    ensures c.AddPencilMark(v).pencilMarks - {v} == c.pencilMarks - {v}
    ensures c.AddPencilMark(v).(pencilMarks := c.pencilMarks) == c
    ensures v in c.AddCenterMark(v).centerMarks && c.centerMarks <= c.AddCenterMark(v).centerMarks
    ensures c.AddCenterMark(v).centerMarks - {v} == c.centerMarks - {v}
    ensures c.AddCenterMark(v).(centerMarks := c.centerMarks) == c
    ensures c.ClearValue().value == None && c.ClearValue().(value := c.value) == c
    ensures c.ClearCenterMarks().centerMarks == {} && c.ClearCenterMarks().(centerMarks := c.centerMarks) == c
    ensures c.ClearPencilMarks().pencilMarks == {} && c.ClearPencilMarks().(pencilMarks := c.pencilMarks) == c
  {
  }

  /** The background colour reflects failures first and selection second. */
  lemma ForegroundColorPriority(c: Cell)
    ensures (c.ForegroundColor() == FailedAndSelected) <==> (c.failedConstraints != {} && c.selected)
    ensures (c.ForegroundColor() == ConstraintFailed) <==> (c.failedConstraints != {} && !c.selected)
    ensures (c.ForegroundColor() == SelectedTint) <==> (c.failedConstraints == {} && c.selected)
    ensures (c.ForegroundColor() == ClearTint) <==> (c.failedConstraints == {} && !c.selected)
  {
  }

  /** Given cells are drawn in the given colour, entered ones in the input colour. */
  lemma DisplayColorOfGiven(c: Cell)
    ensures c.DisplayColor() == GivenColor <==> c.given.Some?
  {
  }
}
