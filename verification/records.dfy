/** The rows the dashboard works on, and the small Option/Result wrappers its
    operations return. */
module Records {

  /** One line of the crime CSV: a neighbourhood (`bairro`), a year (`ano`)
      and that year's crime index (`indice_criminalidade`). */
  datatype Record = Record(bairro: string, ano: int, indice: int)

  /** One line of the year-over-year table: the neighbourhood, its index in
      the selected year, and the change against the previous year
      (`dif_criminalidade`).

      `Blank` is a row whose name and index are missing (NaN) and that only
      carries a change. pandas produces such rows when the selected year has
      no rows at all: assigning a non-empty column to a frame without rows
      re-indexes the frame to that column. */
  datatype DeltaRow = DeltaRow(bairro: string, indice: int, delta: int) | Blank(delta: int)

  datatype Option<T> = None | Some(value: T)

  /** `Err` stands for an exception the source would raise. */
  datatype Result<T> = Ok(value: T) | Err(reason: string)
}
