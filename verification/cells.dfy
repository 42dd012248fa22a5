/** Spreadsheet rows as the sheet reader hands them over: positional cells
    that are blank, text, or an integer. */
module Cells {
  import opened JsString

  /** Number.MAX_SAFE_INTEGER: up to this magnitude every integer is held
      exactly and `String` prints it digit for digit. Beyond it `String`
      rounds the digits (and from 10^21 switches to exponent form), which
      the model does not follow, so numeric cells stay within it. */
  const MaxSafeInteger: int := 9_007_199_254_740_991

  type SafeInt = n: int | -MaxSafeInteger <= n <= MaxSafeInteger

  datatype Cell = Empty | Text(s: string) | Number(n: SafeInt)

  type Row = seq<Cell>

  /** The fixed column layout of the reservations sheet (0-based). */
  const RoomColumn: nat := 0
  const MonthColumn: nat := 2
  const DateColumn: nat := 3

  /** `r[i]`: a cell past the end of a short row reads as blank (undefined). */
  function CellAt(row: Row, i: nat): (c: Cell)
    ensures i >= |row| ==> c == Empty
  {
    if i < |row| then row[i] else Empty
  }

  /** `String(v)` of a cell value. */
  function ToJsString(c: Cell): (s: string) {
    match c
    case Empty => "undefined"
    case Text(s) => s
    case Number(n) => IntToString(n)
  }

  /** JavaScript truthiness of a cell value: undefined, "" and 0 are falsy. */
  predicate Truthy(c: Cell) {
    match c
    case Empty => false
    case Text(s) => s != ""
    case Number(n) => n != 0
  }

  /** The text content of the table cell rendered for `c`. */
  function DisplayText(c: Cell): (t: string)
    ensures Truthy(c) ==> t == ToJsString(c)
  {
    if c.Empty? then "" else ToJsString(c)
  }
}
