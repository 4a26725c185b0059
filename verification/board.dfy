/** Vocabulary shared by both engines: marks, cells, flattened boards and
    the outcome of a game, with the string encoding the application uses. */
module Board {

  /** An optional value; `None` also stands for the source's `null` move
      and for the infinite seed of a running maximum or minimum. */
  datatype Option<+T> = None | Some(value: T)

  /** The two players' marks: the human plays X, the computer plays O. */
  datatype Player = PX | PO

  /** A cell is `''` (empty) or one of the two marks. */
  datatype Cell = Empty | Mark(player: Player)

  /** A board of side S is the row-major flattening of an S x S grid. */
  type Grid = seq<Cell>

  /** Outcome of an evaluation: no winner yet (`''`), a player, or the `'DRAW'` sentinel. */
  datatype Winner = Nobody | Wins(player: Player) | Draw

  /** The winner string the application stores and compares against. */
  function WinnerString(w: Winner): (r: string)
    ensures r in {"", "X", "O", "DRAW"}
    ensures r == "" <==> w == Nobody
  {
    match w
    case Nobody => ""
    case Wins(PX) => "X"
    case Wins(PO) => "O"
    case Draw => "DRAW"
  }

  /** Distinct outcomes are stored as distinct strings, so the stored string
      identifies the outcome. */
  lemma WinnerStringInjective(v: Winner, w: Winner)
    ensures WinnerString(v) == WinnerString(w) ==> v == w
  {
  }

  /** A well-formed board of side `side`. */
  predicate IsSquare(b: Grid, side: nat) {
    side >= 1 && |b| == side * side
  }

  /** No cell of the board is empty. */
  predicate Full(b: Grid) {
    forall i :: 0 <= i < |b| ==> b[i] != Empty
  }
}
