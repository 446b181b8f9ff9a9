/** The two-valued cell of the world (the `Cell` enum of lib.rs). The enum is
    stored as one byte with `Dead = 0` and `Alive = 1`; its integer view is
    what the neighbour count adds up. */
module Cells {

  datatype Cell = Dead | Alive

  /** The byte an enum value is stored as (`*self as u8`). */
  function Discriminant(c: Cell): nat
  {
    match c
    case Dead => 0
    case Alive => 1
  }

  /** `get_state`: the discriminant masked with `& 1`. */
  function GetState(c: Cell): (s: nat)
    ensures s <= 1
    ensures s == 1 <==> c == Alive
  {
    Discriminant(c) % 2
  }

  /** `is_alive`: the state is 1. */
  predicate IsAlive(c: Cell)
    ensures IsAlive(c) <==> c == Alive
  {
    GetState(c) == 1
  }

  /** `is_dead`: the state is 0; exactly one of IsAlive and IsDead holds. */
  predicate IsDead(c: Cell)
    ensures IsDead(c) <==> c == Dead
    ensures IsDead(c) != IsAlive(c)
  {
    GetState(c) == 0
  }

  /** The new state `toggle_cell` writes: Dead for a live cell, Alive otherwise. */
  function Toggled(c: Cell): (t: Cell)
    ensures t != c
    ensures IsAlive(t) == IsDead(c)
  {
    if IsAlive(c) then Dead else Alive
  }

  /** Toggling is an involution. */
  lemma ToggledTwice(c: Cell)
    ensures Toggled(Toggled(c)) == c
  {
  }
}
