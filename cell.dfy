/** Cell data types of the board: the two states of a cell, the colour a
    state is drawn in, the cell component and the integer position of a cell. */
module Cells {

  /** The colours configured for live and dead cells. Only their identity
      matters to the simulation, so they are two abstract tokens. */
  datatype Color = CellAliveColor | CellDeadColor

  /** The state of one cell. */
  datatype CellState = Alive | Dead {

    /** The colour a cell in this state is drawn with. */
    function Color(): (c: Color)
      ensures c == CellAliveColor <==> this == Alive
      ensures c == CellDeadColor <==> this == Dead
    {
      match this
      case Alive => CellAliveColor
      case Dead => CellDeadColor
    }
  }

  /** The cell component: a cell is nothing but its state. */
  datatype Cell = Cell(state: CellState) {

    /** The cell after `change(newState)`: its state is the new one. */
    function Change(newState: CellState): (c: Cell)
      ensures c.state == newState
    {
      this.(state := newState)
    }

    /** The cell after `toggle`: Alive becomes Dead and Dead becomes Alive. */
    function Toggle(): (c: Cell)
      ensures c.state != state
    {
      match state
      case Alive => Cell(Dead)
      case Dead => Cell(Alive)
    }
  }

  /** The board coordinate of a cell: column x, row y. */
  datatype Position = Position(x: int, y: int)

  /** The two states are drawn in different colours. */
  lemma ColorIsInjective(s: CellState, t: CellState)
    ensures s.Color() == t.Color() <==> s == t
  {
  }

  /** Changing to a state twice is the same as changing to it once, and
      changing a cell to the state it already has leaves it as it was. */
  lemma ChangeIsIdempotent(c: Cell, s: CellState)
    ensures c.Change(s).Change(s) == c.Change(s)
    ensures c.Change(c.state) == c
  {
  }

  /** Toggling twice gives back the cell. */
  lemma ToggleIsInvolution(c: Cell)
    ensures c.Toggle().Toggle() == c
  {
  }
}
