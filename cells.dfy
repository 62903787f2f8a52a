/** Spreadsheet cells as the sheet decoder hands them over, and the pieces of
    JavaScript value semantics that the report pipeline relies on:
    strict inequality, truthiness, `String.prototype.includes`, and the
    `TypeError` thrown when `.includes` is called on a number. */
module Cells {

  /** One cell of a decoded row. `Absent` is `undefined`: an empty cell (the
      decoder leaves a hole in its sparse row array) or a read past the end
      of the row. Strict inequality `!==` on cells is datatype inequality. */
  datatype Cell = Absent | Str(s: string) | Num(n: int)

  type Row = seq<Cell>

  /** A highlight-map key (row, column). It stands for the A1 address the
      decoder library would encode; that encoding is injective, so the pair
      identifies the same cell. */
  type Address = (nat, nat)

  /** The style dictionary: address to background colour name. */
  type StyleMap = map<Address, string>

  const Blue: string := "blue"
  const White: string := "white"

  /** What can go wrong: `.includes` called on a truthy value that is not a string. */
  datatype Error = TypeError

  datatype Result<T> = Ok(value: T) | Failure(error: Error) {
    predicate IsFailure() { Failure? }
    function PropagateFailure<U>(): Result<U> requires Failure? { Failure(error) }
    function Extract(): T requires Ok? { value }
  }

  /** `row[i]`: indexing past the end yields `undefined`. */
  function At(row: Row, i: nat): Cell {
    if i < |row| then row[i] else Absent
  }

  /** JavaScript truthiness: `undefined`, `""` and `0` are falsy. */
  predicate Truthy(c: Cell) {
    match c
    case Absent => false
    case Str(s) => s != ""
    case Num(n) => n != 0
  }

  /** `t` occurs in `s` starting at position `i`. */
  predicate OccursAt(s: string, t: string, i: int) {
    0 <= i && i + |t| <= |s| && s[i..i + |t|] == t
  }

  /** `s.includes(t)`: `t` occurs in `s` as a contiguous slice. */
  predicate Includes(s: string, t: string) {
    exists i :: 0 <= i <= |s| - |t| && OccursAt(s, t, i)
  }

  /** `c && (c.includes(t0) || c.includes(t1) || ...)` read as a boolean.
      A falsy cell short-circuits to false; a truthy string is searched for
      each target; a truthy number has no `includes` method, so the call
      throws. */
  function NameTest(c: Cell, targets: seq<string>): (r: Result<bool>)
    ensures r.Failure? <==> c.Num? && c.n != 0
    ensures r == Ok(true) <==> c.Str? && c.s != "" && exists t :: t in targets && Includes(c.s, t)
  {
    match c
    case Absent => Ok(false)
    case Str(s) => Ok(s != "" && exists t :: t in targets && Includes(s, t))
    case Num(n) => if n == 0 then Ok(false) else Failure(TypeError)
  }

  /** `styles[a] || 'white'`: a missing key reads `undefined` and an empty
      stored string is falsy; both fall back to white. */
  function StyleOf(styles: StyleMap, a: Address): (colour: string)
    ensures a !in styles ==> colour == White
    ensures (forall b :: b in styles ==> styles[b] == Blue) ==> (colour == Blue <==> a in styles)
  {
    if a in styles && styles[a] != "" then styles[a] else White
  }
}
