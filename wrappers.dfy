/** Failure-compatible wrappers and the cell type the cleaning rules work on. */
module Wrappers {

  datatype Option<+T> = None | Some(value: T)

  datatype Result<+T, +E> = Success(value: T) | Failure(error: E)

  /**
   * One cell of the table. A column read from the CSV file holds text
   * (`Str`) and missing entries (`Missing`, pandas' NaN); the cleaning
   * steps turn some columns into numbers, modelled as exact reals (`Num`).
   */
  datatype Cell = Str(s: string) | Num(x: real) | Missing
}
