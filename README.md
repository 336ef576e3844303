# PNSC consolidator — a Dafny model of its core

The PNSC consolidator is a Streamlit dashboard. It appends uploaded Excel
files to one SQLite table and shows statistics about the table. This project
models the logic under that UI and proves properties of it:

- **Formatting** (`Formatting.dfy`): the regional number formats
  `formato_entero` and `formato_decimal`. Thousands are separated by `.` and
  decimals by `,`. `formato_decimal` is modelled on a whole number of
  hundredths.
- **Ingestion** (`Ingestion.dfy`): the table as a class holding a sequence of
  rows.
  - "Ejecutar Consolidación" appends every row of every uploaded file. Each
    row is stamped with `archivo_origen` (the file name) and the one
    `fecha_sistema_carga` of the batch, and its date column is coerced.
  - "Eliminar" deletes every row of one file.
- **Queries** (`Queries.dfy`): the global year filter ("Todos" or one year),
  `COUNT(*)`, `COUNT(DISTINCT col)`, the duplicate percentage, the offered
  years, and the `GROUP BY … ORDER BY Total DESC` tallies of the statistics
  and geography tabs. All of them are stated over the table as a sequence.
- **Grouping** (`Grouping.dfy`): the generic meaning of grouping rows by a
  key and ordering the groups by size, largest first. The queries and the
  area summary both use it.
- **Hierarchy** (`Hierarchy.dfy`): the merged-cell layout of the category
  table.
  - `n1_g`, `n2_g` and `n3_g` are running counts of the rows where a level's
    key changed (`(x != x.shift()).cumsum()`).
  - The rowspan of a merged cell is the number of rows that share its id.
  - Both are methods with loops, proved against reference functions.
- **Classifier** (`Classifier.dfy`): the topic search tab.
  - `normalizar_texto` (lower-case, canonical decomposition, drop nonspacing
    marks) over abstract Unicode tables.
  - `asignar_area`: the first area in `mapeo_areas` order with a keyword
    occurring in the text, otherwise "Otras Áreas".
  - The per-area summary: counted, sorted by count descending, first 15.

Rows are maps from column name to cell. A cell is NULL, text, or a date kept
as its year (`Cells.dfy`). A column a row lacks reads as NULL.

Some behaviour is modelled as the source does it:

- The area classifier reads the whole table. It ignores the year filter.
- The classifier reads the literal columns `SubCatg1` … `SubCatg4`, not the
  level columns configured in the sidebar.
- A NULL level value takes part in the text as `None`.

## Model

| member | source | states |
|---|---|---|
| Formatting.FormatoEntero | PNSC.py:22-27 | A missing value, the empty text and text that `int()` rejects all give "0". An integer, or text that `int()` reads as an integer, renders as that integer grouped by `Miles`. A float is truncated toward zero before it is grouped. |
| Formatting.FormatoEnteroShape | PNSC.py:25 | The result for integer n starts with '-' exactly when n < 0. The rest is the digits of abs(n) in groups split by '.': every group after the first has 3 digits and the first has 1-3. Removing the dots gives the plain decimal text of abs(n). |
| Formatting.FormatoEnteroRoundTrip | PNSC.py:25 | Removing the dots and reading the text back with `int()` gives n again. |
| Formatting.FormatoEnteroExample | PNSC.py:25 | 1234567 is shown as "1.234.567". |
| Formatting.FormatoEnteroTruncates | PNSC.py:25 | -1234.56 is shown as "-1.234": `int()` truncates toward zero. |
| Formatting.TruncateToInt | PNSC.py:25 | `int()` of a float is the whole part: abs(n)·100 ≤ abs(h) < (abs(n)+1)·100, with the sign of the input. |
| Formatting.DigitsValue | PNSC.py:25 | The decimal text of n has no leading zero (unless n = 0) and reads back as n. |
| Formatting.GroupWithUngroups | PNSC.py:25 | Removing the thousands separators from a grouped digit string gives the digits back. |
| Formatting.GroupWithShape | PNSC.py:25 | A grouped digit string has a separator exactly at every fourth position from the right and digits everywhere else. |
| Formatting.RegroupWith | PNSC.py:25 | Grouping with ',' and then replacing ',' by '.' is the same as grouping with '.'. |
| Formatting.MilesIsDotGrouping | PNSC.py:25 | `f"{n:,}".replace(",", ".")` is the sign followed by the '.'-grouped digits of abs(n). |
| Formatting.FormatoDecimal | PNSC.py:29-30 | A missing value is shown as "0,00". |
| Formatting.FormatoDecimalShape | PNSC.py:31 | For h hundredths the result is the sign, then the '.'-grouped integer part, then ',', then exactly two digits. The value h can be read back from these parts. |
| Formatting.TwoDigits | PNSC.py:31 | The decimals are exactly two digits whose value is the number of hundredths. |
| Formatting.FormatoDecimalExample | PNSC.py:31 | 123450 hundredths are shown as "1.234,50". |
| Formatting.FormatoDecimalSmallNegative | PNSC.py:31 | -5 hundredths are shown as "-0,05". |
| Ingestion.CoerceDate | PNSC.py:99 | Date coercion never rejects a row. A date or NULL stays as it is. Text that the file's own date reading parses becomes the date it was read as, and NULL otherwise. |
| Ingestion.StampRow | PNSC.py:97-99 | A stamped row has the original columns plus `archivo_origen` and `fecha_sistema_carga`. They hold the file name and the batch stamp. Every other column except the date column is unchanged. The date column holds `CoerceDate` of its old value under the file's date reading (of the name or stamp if it is one of the two new columns), so a date or NULL. |
| Ingestion.StampAll | PNSC.py:95-100 | A batch appends exactly as many rows as the files have in total. |
| Ingestion.StampAllSnoc | PNSC.py:95-100 | The batch is processed file after file: one more file appends its stamped rows after the others. |
| Ingestion.StampAllAt | PNSC.py:95-100 | Row j of file i lands after the rows of the earlier files, at offset j, stamped with file i's name and its dates read with file i's own date reading. |
| Ingestion.StampAllSharesStamp | PNSC.py:94-98 | Every appended row carries the one load stamp of its batch. |
| Ingestion.Table.Ingest | PNSC.py:95-100 | The table becomes the old rows, unchanged, followed by the batch's stamped rows. |
| Ingestion.RemoveFile | PNSC.py:118 | A row survives deletion exactly when it does not carry the file name. |
| Ingestion.RemoveFileAppend | PNSC.py:118 | Deletion keeps the surviving rows in their order: it works row by row. |
| Ingestion.RemoveFileCount | PNSC.py:118 | The table shrinks by exactly the number of rows of that file. |
| Ingestion.RemoveAbsentFile | PNSC.py:118 | Deleting a name no row carries changes nothing. |
| Ingestion.RemoveFileIsolation | PNSC.py:118 | Deleting one file leaves every other file's rows, and their order, untouched. |
| Ingestion.RemoveWholeFile | PNSC.py:118 | Deleting a name removes every row that carries it. |
| Ingestion.RemoveStampedFile | PNSC.py:97-118 | Every row of an uploaded file is deleted with its name. |
| Ingestion.IngestThenDelete | PNSC.py:95-118 | Uploading a file whose name the table does not hold and then deleting that name restores the table exactly. |
| Ingestion.Table.DeleteFile | PNSC.py:116-118 | The table becomes its rows without the chosen file's rows. The placeholder "---" deletes nothing. |
| Queries.Filtered | PNSC.py:74 | A row passes the year filter exactly when the choice is "Todos" or the row's date has the chosen year. The filtered table is never longer than the table. |
| Queries.FilteredTodos | PNSC.py:74 | With "Todos" every row passes, in order. |
| Queries.FilteredExact | PNSC.py:74 | Every row of the chosen year passes as often as it occurs; no other row passes. |
| Queries.FilteredAppend | PNSC.py:74 | The filter is taken row by row and keeps table order. |
| Queries.DistinctValues | PNSC.py:142 | `COUNT(DISTINCT col)` never counts NULL. |
| Queries.DistinctValuesMembership | PNSC.py:142 | A value is counted exactly when it is not NULL and some row holds it. |
| Queries.DistinctAtMostRows | PNSC.py:141-142 | There are never more distinct IDs than rows. |
| Queries.DistinctFilteredSubset | PNSC.py:142 | Filtering by year only loses distinct values. |
| Queries.FilteredCountsBounded | PNSC.py:141-142 | The filtered row count and the filtered distinct count never exceed the unfiltered ones. |
| Queries.PorcentajeDuplicados | PNSC.py:147 | The percentage is 0 with no rows. Otherwise it times the row count equals (rows − unique)·100. |
| Queries.PorcentajeEnRango | PNSC.py:147 | With unique ≤ total the percentage lies in [0, 100]. It is 0 exactly when every ID is unique, and 100 exactly when no row has an ID. |
| Queries.PorcentajeEjemplo | PNSC.py:147 | 100 rows with 80 distinct IDs give 20. |
| Queries.Estadisticas | PNSC.py:141-147 | The panel shows the number of rows of the chosen year, the number of distinct non-NULL IDs among them and `PorcentajeDuplicados` of the two. Unique ≤ rows ≤ table size, and the percentage is in [0, 100]. Under "Todos" the figures are those of the whole table. |
| Queries.ResumenTerritorial | PNSC.py:173-175 | The numbers of states, municipalities and parishes are the distinct non-NULL values of each column among the rows of the chosen year. Each is at most the filtered row count, and the number of states is at most the unfiltered one. |
| Queries.AniosDisponiblesExactos | PNSC.py:68-69 | A year is offered exactly when filtering by it selects at least one row. |
| Queries.TallyOf | PNSC.py:183 | A tally carries the group's value, its row count and the number of distinct non-NULL IDs in the group, which never exceeds the row count. |
| Queries.ConteoPor | PNSC.py:151 | There are never more tallies than rows. |
| Queries.ConteoPorExacto | PNSC.py:183-184 | Each tally's total is the number of filtered rows holding its value, and is positive. Its unique count is the number of distinct IDs among exactly those rows, and is at most the total. Tallies come largest first, one per value. |
| Queries.ConteoPorCubre | PNSC.py:151 | Every filtered row is counted under its own value. The totals add up to the filtered row count. |
| Queries.ConteoInstituciones | PNSC.py:151 | Each institution's total is exactly its number of filtered rows, and is positive. There is one tally per institution, largest first. The totals add up to the filtered row count. |
| Queries.ConteoEstados | PNSC.py:183-184 | Each state's total and unique count are taken over exactly its filtered rows, largest first, one tally per state. Every filtered row is counted under its own state. |
| Grouping.Members | pestana_busqueda.py:61 | A row is in a key's group exactly when its key is that key. |
| Grouping.AddSpec | pestana_busqueda.py:61 | Counting a row grows its key's group by that row and leaves every other group alone. A new key gets a new group at the end. |
| Grouping.GroupByDistinct | pestana_busqueda.py:61 | No two groups share a key. |
| Grouping.GroupByTotal | pestana_busqueda.py:61 | The groups hold every row exactly once. |
| Grouping.GroupByCovers | pestana_busqueda.py:61 | Every row's key has a group. |
| Grouping.GroupByMembers | pestana_busqueda.py:61 | Each group is exactly the rows with its key, in table order, and is never empty. |
| Grouping.InsertSpec | pestana_busqueda.py:62 | Inserting a group into the sorted list is a permutation of the group and the list. |
| Grouping.InsertDescending | pestana_busqueda.py:62 | Insertion keeps the list ordered by size, largest first. |
| Grouping.SortBySizeSpec | pestana_busqueda.py:62 | Sorting by size is a permutation, ordered largest first, with the same total. |
| Grouping.Summary | pestana_busqueda.py:61-62 | The summary comes largest first, one group per key. Each group is exactly the rows with its key and is non-empty. Every row's key appears, and the counts add up to the number of rows. |
| Grouping.SummaryLength | pestana_busqueda.py:61 | There are never more groups than rows. |
| Grouping.SummaryTop | pestana_busqueda.py:62 | Cutting the sorted summary after n groups keeps the largest: a key left out has no more rows than any kept. |
| Hierarchy.IdsDeGrupo | PNSC.py:211-213 | The computed ids are the running count of rows that open a group (`cumsum` of "differs from the previous row"). |
| Hierarchy.IdsStep | PNSC.py:211 | The first id is 1. Each later id is the previous one plus 1 if the key differs from the previous row's, and unchanged otherwise. |
| Hierarchy.IdsShape | PNSC.py:211 | Ids never decrease, and row i has an id between 1 and i + 1. |
| Hierarchy.SameGroupIff | PNSC.py:211-213 | Two rows share an id exactly when no row between them changes the key, so each group is one contiguous run of rows. |
| Hierarchy.CumsumFlat | PNSC.py:211 | The running count does not move between two rows exactly when no row between them opens a group. |
| Hierarchy.Rowspans | PNSC.py:219-221 | A row that opens a group gets the number of rows sharing its id; any other row emits no cell (span 0). |
| Hierarchy.SpanPositive | PNSC.py:220-221 | A row emits a merged cell exactly when its span is positive. |
| Hierarchy.SpansCoverRows | PNSC.py:219-221 | Over non-decreasing ids the spans add up to the number of rows: the merged cells cover each row exactly once. |
| Hierarchy.OneStartPerId | PNSC.py:220 | In a non-decreasing id column each present id opens exactly one merged cell. |
| Hierarchy.Bloques | PNSC.py:211-221 | For any level keys, each of the three merged columns gets the spans of its ids, and each column's spans add up to the number of rows. |
| Hierarchy.GenerarBloques | PNSC.py:211-221 | The layout as written: N1, N1+N2 and N1+N2+N3 ids, with each column covering every row once. |
| Hierarchy.Concat | PNSC.py:212-213 | A concatenated key is missing exactly when one of its parts is. |
| Hierarchy.ConcatenationMergesAcrossParents | PNSC.py:212 | Rows ("a","bc") and ("ab","c") get different N1 ids but the same N2 id. |
| Hierarchy.Ruta | PNSC.py:212-213 | A path key is missing exactly when one of its levels is NULL; otherwise it lists the level values. |
| Hierarchy.GenerarBloquesAnidados | PNSC.py:211-221 | The layout with the level keys compared value by value: each column covers every row once. |
| Hierarchy.PathOpensNest | PNSC.py:212-213 | Compared value by value, a row that opens a group at one level opens one at the next level down. |
| Hierarchy.PathBlocksNest | PNSC.py:212-213 | Compared value by value, two rows in one lower-level cell are always in one higher-level cell. |
| Classifier.EspanolCoherent | pestana_busqueda.py:10-11 | The Spanish tables satisfy the facts the properties assume. |
| Classifier.DropMarksMembers | pestana_busqueda.py:10-11 | A character is kept exactly when it is in the input and is not a nonspacing mark. |
| Classifier.DropMarksExact | pestana_busqueda.py:10-11 | Marks are dropped; every other character keeps its number of occurrences. |
| Classifier.DropMarksAppend | pestana_busqueda.py:10-11 | The filter keeps the input's order. |
| Classifier.NormalizarTexto | pestana_busqueda.py:5-12 | A missing or empty text gives "". Otherwise the result is the lower-cased, decomposed text with the marks dropped (`DropMarks`). A character is kept exactly when it occurs in the decomposed text and is not a nonspacing mark. |
| Classifier.NoEnie | pestana_busqueda.py:10-11 | With coherent tables a normalised text never holds 'ñ'. |
| Classifier.DisenoEjemplo | pestana_busqueda.py:10-11 | "Diseño" normalises to "diseno", which the keyword "diseño" does not match. |
| Classifier.ContainsIff | pestana_busqueda.py:53 | The substring test succeeds exactly when the word occurs at some position. |
| Classifier.MissingCharNeverMatches | pestana_busqueda.py:53 | A keyword holding a character the text lacks never matches. |
| Classifier.AnyKeyword | pestana_busqueda.py:52-53 | An area matches exactly when one of its keywords occurs. |
| Classifier.MapeoAreasNames | pestana_busqueda.py:27-43 | There are 15 areas with distinct names, none of them the fallback. |
| Classifier.PrimerArea | pestana_busqueda.py:51-54 | The scan stops at the first area with a matching keyword: no earlier area matches. If it stops inside the list, that area matches. |
| Classifier.AsignarArea | pestana_busqueda.py:46-55 | The result is "Otras Áreas" exactly when no keyword of any area occurs. Otherwise it is the area whose keyword occurs, with no earlier area matching. |
| Classifier.AsignarAreaValida | pestana_busqueda.py:51-55 | The result is always one of the 15 area names or "Otras Áreas". |
| Classifier.RoboticaGana | pestana_busqueda.py:28-54 | A text holding "robotica" is classified as Robótica, whatever later area also matches. |
| Classifier.RoboticaYProgramacion | pestana_busqueda.py:28-54 | A text holding both "robotica" and "programacion" matches the Computación area too, yet is classified as Robótica. |
| Classifier.RoboticaAntesQueProgramacion | pestana_busqueda.py:28-54 | Any text with "robotica" and, later, "programacion" is classified as Robótica. |
| Classifier.RoboticaYProgramacionEjemplo | pestana_busqueda.py:46-55 | With the Spanish tables, "Robótica y Programación" normalises to "robotica y programacion" and is classified as Robótica. |
| Classifier.DisenoNuncaCoincide | pestana_busqueda.py:42 | The keyword "diseño" never matches a normalised text. |
| Classifier.IngenieriaSoloPor | pestana_busqueda.py:42 | Ingeniería is chosen only when "ingenieria" or "prototipo" occurs and no earlier area matched. |
| Classifier.IngenieriaSinDiseno | pestana_busqueda.py:42-54 | In a text without "diseño", Ingeniería is chosen only through "ingenieria" or "prototipo". |
| Classifier.SinColumnasEsOtras | pestana_busqueda.py:48 | A missing SubCatg column contributes '': a table with none of the four classifies every row on three spaces, as "Otras Áreas". |
| Classifier.ResumenAreas | pestana_busqueda.py:61-62 | The summary keeps min(15, number of areas in use) entries. |
| Classifier.ResumenAreasCompleto | pestana_busqueda.py:61-62 | With at most 15 areas in use, every row's area is listed. |
| Classifier.ResumenAreasExacto | pestana_busqueda.py:58-62 | Each entry is a valid area with a positive count equal to the number of rows assigned to it. Entries come largest first, one per area. |
| Classifier.ResumenAreasTop | pestana_busqueda.py:62 | An area cut from the summary has no more rows than any area kept. |
| Classifier.ResumenAreasTotal | pestana_busqueda.py:61 | Before the cut the counts add up to the number of rows, over at most 16 areas. |

## Findings

| source | as written | input that shows it | evidently intended | confidence | as-written member | corrected member |
|---|---|---|---|---|---|---|
| PNSC.py:212-213 | The level-2 and level-3 group ids compare the concatenated strings N1+N2 and N1+N2+N3. | Consecutive category rows with (N1, N2) = ("a", "bc") and ("ab", "c"): both have key "abc". They get different N1 cells but share one N2 cell, which then spans across an N1 boundary. | A level's group changes whenever that level or any level above it changes, so merged cells nest. | high (not executed) | Hierarchy.ConcatenationMergesAcrossParents | Hierarchy.PathBlocksNest |

`Hierarchy.GenerarBloques` keeps the layout as written. `Hierarchy.GenerarBloquesAnidados` is the same layout with the keys compared value by value (`Hierarchy.ClavesRuta`), and `Hierarchy.PathBlocksNest` proves its cells nest. Missing values behave the same in both: a NULL level value never equals anything, so each such row opens its own cell.

## Left out

- Streamlit widgets, tabs, metrics, progress bar, `st.rerun`, the Altair charts and their label rewriting: presentation only.
- The HTML markup of the category table and the description sentences of the area summary: presentation only. The group ids and rowspans are modelled.
- SQLite and SQLAlchemy (connection, SQL text, `read_sql`, `to_sql`) and the `.db` suffix rule. The queries' meaning is modelled over a sequence of rows.
- `to_sql` fails when an uploaded file has a column the table does not have. The model appends such rows anyway.
- A query naming a column the table lacks. The queries quote names with double quotes, and SQLite reads a double-quoted name that matches no column as a text literal. This is also why `strftime("%Y", …)` at PNSC.py:68, 74 and 127 works. The model reads a missing column as NULL instead. So without the ID column, `COUNT(DISTINCT "cedula")` (PNSC.py:142) gives 1 on a non-empty table where `Queries.Estadisticas` gives 0 and a duplicate percentage of 100. `GROUP BY` on a missing column gives one group labelled with the column's name where the model gives one NULL group. Without the date column, the year list (PNSC.py:68) holds one NULL year where `Queries.AniosDisponibles` is empty. A missing column within a row of a table that has it is NULL in both.
- Cells.YearOf: SQLite's `strftime` also reads a year from text shaped like a date. The model reads a year only from date cells. Ingestion stores the date column as dates or NULL, so this matters only for a date column that ingestion did not coerce.
- `pd.read_excel`. `pd.to_datetime(errors='coerce')` is the field `parse` of each uploaded file, from text to an optional year. pandas infers one date format per file's column, so each file carries its own reading. The format inference itself is not modelled. SQLite's `strftime("%Y")` reads that year.
- `datetime.now()` for the load stamp is the `stamp` parameter of `Table.Ingest`.
- The dependency installer that starts a `pip` subprocess: process I/O.
- The "Historial de Archivos" (PNSC.py:109) and "Consolidado por Año" (PNSC.py:127) queries, and the list of files offered for deletion (PNSC.py:114): display tables. The deletion they lead to is modelled.
- The category query (PNSC.py:206-207) with its grouping by four levels and its `ORDER BY 1, 2, 3, Total DESC`. The layout methods take its result rows, in any order, as given.
- Queries.AniosDisponibles: the year options are a set; their descending order (PNSC.py:68) is not modelled.
- Grouping.SortBySize: SQL `ORDER BY Total DESC` and pandas `sort_values` leave the order of equal counts unspecified. The model keeps first-appearance order. Which of several equally large areas survive the cut at 15 depends on that order.
- Floating point: `formato_decimal` takes a whole number of hundredths, and the float rounding of `f"{x:,.2f}"` is not modelled. The duplicate percentage is a `real`, and its rounding to hundredths for display is not modelled.
- Formatting.ParseInt: `int()` also accepts surrounding whitespace, `_` between digits and non-ASCII digits; the model accepts only an optional sign and ASCII digits. A float infinity makes `int()` fail (shown as "0"); the model has no infinities.
- The Unicode character database: only the facts in `Classifier.Coherent` are assumed, plus a Spanish subset (`Classifier.Espanol`) for the examples. Canonical reordering of combining marks is not modelled. Lower-casing is per character, so context-dependent rules such as the final sigma are not modelled.
- Classifier.Mostrar: a NULL level value is printed as "None", which is what `read_sql` returns for NULL in a text column; a numeric column would print "nan". A date prints only as its year.
- The catch-and-display error handling around each tab: control flow only.
