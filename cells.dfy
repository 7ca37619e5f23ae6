/** Values a spreadsheet cell takes once the store has read it into a table. */
module Cells {

  datatype Option<T> = None | Some(value: T)

  /** A cell as the table holds it: text, a whole number, or an undefined
      value (the NaN a table gets when a row or column is added without it). */
  datatype Cell = Text(s: string) | Int(n: int) | Missing

  /** Python truthiness of a cell: empty text and zero are false; NaN is true. */
  predicate Truthy(c: Cell)
  {
    match c
    case Text(s) => s != ""
    case Int(n) => n != 0
    case Missing => true
  }

  /** No two positions of `s` hold the same element. */
  predicate Distinct<T(==)>(s: seq<T>)
  {
    forall i, j :: 0 <= i < j < |s| ==> s[i] != s[j]
  }
}
