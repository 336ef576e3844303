/** Values of the consolidated table: one row is a mapping from column name to
    cell, since the table takes whatever columns the uploaded spreadsheets have. */
module Cells {

  datatype Option<T> = None | Some(value: T)

  /** A cell as the database hands it back: SQL NULL, a text value, or a date
      (kept abstractly as the text of its year: the year filter and the year
      list read nothing else from it, and no tally groups or counts by the
      date column). */
  datatype Cell = Null | Text(s: string) | Date(year: string)

  type Row = map<string, Cell>

  /** The two provenance columns that ingestion adds to every row. */
  const ArchivoOrigen: string := "archivo_origen"
  const FechaSistemaCarga: string := "fecha_sistema_carga"

  /** The value of column `col` in `r`; a column the row lacks reads as NULL. */
  function Field(r: Row, col: string): Cell
  {
    if col in r then r[col] else Null
  }

  /** strftime("%Y", cell) on the cells ingestion stores: the year of a
      date, NULL for NULL. Text is given no year here. */
  function YearOf(c: Cell): Option<string>
  {
    if c.Date? then Some(c.year) else None
  }

  /** A subset has no more elements than the set containing it. */
  lemma {:induction false} SubsetCardinality<T>(a: set<T>, b: set<T>)
    requires a <= b
    ensures |a| <= |b|
  {
    if a != {} {
      var x :| x in a;
      SubsetCardinality(a - {x}, b - {x});
    }
  }
}
