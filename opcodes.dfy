/** The instruction encoding and the memory cell.

    Operations are byte values: COPY, HALT and SPAWN are 1, 2 and 3, and
    every other byte is a PUSH whose literal is its distance from PUSH, the
    middle of the byte range. */
module Opcodes {

  newtype Byte = x: int | 0 <= x < 256

  const COPY: Byte := 1
  const HALT: Byte := 2
  const SPAWN: Byte := 3
  /** byte.MaxValue / 2 */
  const PUSH: Byte := (255 / 2) as Byte

  /** Every byte that is not one of the three instructions pushes a literal. */
  predicate IsPush(op: Byte) {
    op != COPY && op != HALT && op != SPAWN
  }

  /** The value a PUSH operation pushes: `op - PUSH`. */
  function Literal(op: Byte): (v: int)
    ensures -127 <= v <= 128
    ensures (v + PUSH as int) as Byte == op
  {
    op as int - PUSH as int
  }

  /** The PUSH operation that pushes `v`, for the literals a byte can carry. */
  function PushOf(v: int): (op: Byte)
    requires -127 <= v <= 128
    ensures Literal(op) == v
  {
    (PUSH as int + v) as Byte
  }

  /** One memory cell: the operation, the highlight counter the renderer
      decays, and the countdown of a SPAWN cell. */
  datatype Cell = Cell(op: Byte, modified: int, lifespan: int) {
    /** A countdown is only ever carried by a SPAWN cell. */
    predicate Ok() {
      lifespan != 0 ==> op == SPAWN
    }
  }

  /** The cell a fresh array holds before anything is written to it. */
  const Blank := Cell(0, 0, 0)
}
