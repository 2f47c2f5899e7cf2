/** Board cells and the vector arithmetic shared by the snake, the round and the level. */
module Grid {

  /** A cell as (row, column). A direction is a cell-sized step (drow, dcol). */
  type Cell = (int, int)

  function Add(a: Cell, b: Cell): Cell { (a.0 + b.0, a.1 + b.1) }

  function Sub(a: Cell, b: Cell): Cell { (a.0 - b.0, a.1 - b.1) }

  /** The exact reverse of a direction. */
  function Neg(d: Cell): Cell { (-d.0, -d.1) }

  datatype Option<T> = None | Some(value: T)
}
