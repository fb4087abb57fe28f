/** Small shared vocabulary: optional values, results of steps that can raise,
    the cells of a game-log table, and the absence tokens. */
module Basics {

  /** A value that may be missing (pandas' NaN after a coercion). */
  datatype Option<+T> = None | Some(value: T)

  /** The outcome of a step whose Python counterpart may raise an exception. */
  datatype Result<+T> = Ok(value: T) | Fails

  /** One cell of the game-log table as pandas holds it in an object column:
      an empty cell (NaN), a string, or a float. */
  datatype Cell = Missing | Text(s: string) | Number(x: real)

  /** The six strings the site writes in the minutes column when the player
      did not play. Both lists in the cleaning script hold these six. */
  const AbsenceTokens: seq<string> :=
    ["Did Not Dress", "Inactive", "Did Not Play", "Not With Team", "Player Suspended", "Suspended"]

  predicate IsAbsence(c: Cell) {
    c.Text? && c.s in AbsenceTokens
  }

  function Pow10(d: nat): (p: nat)
    ensures p >= 1
  {
    if d == 0 then 1 else 10 * Pow10(d - 1)
  }
}
