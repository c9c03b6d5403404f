/** Cell states of the percolation grid and the integer code the program
    stores for each of them (0 = empty, 1 = filled, 2 = percolated). */
module Cells {

  datatype Option<+T> = None | Some(value: T)

  /** Empty is drawn white, Filled (its spreading opportunity used) blue,
      Active (it spreads on the next tick) red. */
  datatype Cell = Empty | Filled | Active

  /** The integer the program keeps in the grid for a state. */
  function Code(c: Cell): (k: int)
    ensures 0 <= k <= 2
    ensures k == 0 <==> c == Empty
    ensures k == 2 <==> c == Active
  {
    match c
    case Empty => 0
    case Filled => 1
    case Active => 2
  }

  /** Reads a stored integer back as a state; only 0, 1 and 2 are states. */
  function Decode(k: int): (r: Option<Cell>)
    ensures r.Some? <==> 0 <= k <= 2
    ensures r.Some? ==> Code(r.value) == k
  {
    if k == 0 then Some(Empty)
    else if k == 1 then Some(Filled)
    else if k == 2 then Some(Active)
    else None
  }

  /** The encoding loses nothing: decoding a stored state gives it back. */
  lemma DecodeCode(c: Cell)
    ensures Decode(Code(c)) == Some(c)
  {
  }
}
