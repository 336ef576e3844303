/** The aggregate queries of the statistics and geography tabs (PNSC.py),
    stated over the table as a sequence of rows: the global year filter,
    COUNT(*), COUNT(DISTINCT col), the duplicate percentage and the
    GROUP BY ... ORDER BY Total DESC tallies. */
module Queries {
  import opened Cells
  import Grouping

  /** The column names typed into the sidebar that these queries read (the
      four category levels are parameters of the hierarchy table instead). */
  datatype Config = Config(
    colId: string,
    colFecha: string,
    colEnte: string,
    colEstado: string, colMunicipio: string, colParroquia: string)

  /** The year choice that switches the filter off. */
  const Todos: string := "Todos"

  /** The WHERE clause of every statistics query: "1=1" for "Todos",
      otherwise the year of the date column must equal the chosen year
      (a NULL or non-date cell has no year and never passes). */
  predicate InYear(r: Row, colFecha: string, anio: string)
  {
    anio == Todos || YearOf(Field(r, colFecha)) == Some(anio)
  }

  /** The rows the year filter lets through, in table order. */
  function Filtered(rows: seq<Row>, colFecha: string, anio: string): (s: seq<Row>)
    ensures |s| <= |rows|
    ensures forall r :: r in s <==> r in rows && InYear(r, colFecha, anio)
  {
    if rows == [] then []
    else (if InYear(rows[0], colFecha, anio) then [rows[0]] else []) + Filtered(rows[1..], colFecha, anio)
  }

  /** "Todos" lets every row through. */
  lemma {:induction false} FilteredTodos(rows: seq<Row>, colFecha: string)
    ensures Filtered(rows, colFecha, Todos) == rows
  {
    if rows != [] {
      FilteredTodos(rows[1..], colFecha);
      assert [rows[0]] + rows[1..] == rows;
    }
  }

  /** A specific year keeps every occurrence of exactly the rows of that year
      (and, since |s| is the sum of the multiplicities, COUNT(*) under the
      filter counts exactly those rows). */
  lemma {:induction false} FilteredExact(rows: seq<Row>, colFecha: string, anio: string, r: Row)
    ensures multiset(Filtered(rows, colFecha, anio))[r]
         == if InYear(r, colFecha, anio) then multiset(rows)[r] else 0
  {
    if rows == [] {
    } else {
      FilteredExact(rows[1..], colFecha, anio, r);
      assert rows == [rows[0]] + rows[1..];
      assert multiset(rows) == multiset([rows[0]]) + multiset(rows[1..]);
    }
  }

  /** The filter is taken row by row, so it splits over concatenation. */
  lemma {:induction false} FilteredAppend(a: seq<Row>, b: seq<Row>, colFecha: string, anio: string)
    ensures Filtered(a + b, colFecha, anio) == Filtered(a, colFecha, anio) + Filtered(b, colFecha, anio)
  {
    if a == [] {
      assert a + b == b;
    } else {
      assert (a + b)[1..] == a[1..] + b;
      FilteredAppend(a[1..], b, colFecha, anio);
    }
  }

  /** COUNT(DISTINCT col): the distinct non-NULL values of the column
      (SQL ignores NULL in COUNT(DISTINCT)). */
  function DistinctValues(rows: seq<Row>, col: string): (vs: set<Cell>)
    ensures forall v :: v in vs ==> v != Null
  {
    if rows == [] then {}
    else (if Field(rows[0], col).Null? then {} else {Field(rows[0], col)}) + DistinctValues(rows[1..], col)
  }

  /** A value is counted iff it is not NULL and some row holds it. */
  lemma {:induction false} DistinctValuesMembership(rows: seq<Row>, col: string, v: Cell)
    ensures v in DistinctValues(rows, col) <==> v != Null && exists r :: r in rows && Field(r, col) == v
  {
    if rows != [] {
      DistinctValuesMembership(rows[1..], col, v);
      assert forall r :: r in rows <==> r == rows[0] || r in rows[1..];
    }
  }

  /** There are never more distinct values than rows. */
  lemma {:induction false} DistinctAtMostRows(rows: seq<Row>, col: string)
    ensures |DistinctValues(rows, col)| <= |rows|
  {
    if rows != [] {
      DistinctAtMostRows(rows[1..], col);
      var head := if Field(rows[0], col).Null? then {} else {Field(rows[0], col)};
      assert |head + DistinctValues(rows[1..], col)| <= |head| + |DistinctValues(rows[1..], col)|;
    }
  }

  /** Filtering can only lose distinct values. */
  lemma DistinctFilteredSubset(rows: seq<Row>, colFecha: string, anio: string, col: string)
    ensures DistinctValues(Filtered(rows, colFecha, anio), col) <= DistinctValues(rows, col)
  {
    var s := Filtered(rows, colFecha, anio);
    forall v | v in DistinctValues(s, col) ensures v in DistinctValues(rows, col) {
      DistinctValuesMembership(s, col, v);
      DistinctValuesMembership(rows, col, v);
    }
  }

  /** Whole-table and filtered counts: the filtered figures never exceed the
      unfiltered ones. */
  lemma FilteredCountsBounded(rows: seq<Row>, colFecha: string, anio: string, col: string)
    ensures |Filtered(rows, colFecha, anio)| <= |rows|
    ensures |DistinctValues(Filtered(rows, colFecha, anio), col)| <= |DistinctValues(rows, col)|
  {
    DistinctFilteredSubset(rows, colFecha, anio, col);
    SubsetCardinality(DistinctValues(Filtered(rows, colFecha, anio), col), DistinctValues(rows, col));
  }

  /** The duplicate percentage of the statistics tab: the share of rows whose
      ID repeats an earlier one, 0 when there are no rows. */
  function PorcentajeDuplicados(total: nat, unicos: nat): (p: real)
    ensures total == 0 ==> p == 0.0
    ensures total > 0 ==> p * (total as real) == ((total - unicos) as real) * 100.0
  {
    if total > 0 then ((total - unicos) as real) / (total as real) * 100.0 else 0.0
  }

  /** With no more distinct IDs than rows the percentage is a percentage;
      it is 0 exactly when every ID is distinct and 100 exactly when no row
      has an ID. */
  lemma PorcentajeEnRango(total: nat, unicos: nat)
    requires unicos <= total
    ensures 0.0 <= PorcentajeDuplicados(total, unicos) <= 100.0
    ensures total > 0 ==> (PorcentajeDuplicados(total, unicos) == 0.0 <==> unicos == total)
    ensures total > 0 ==> (PorcentajeDuplicados(total, unicos) == 100.0 <==> unicos == 0)
  {
    var p := PorcentajeDuplicados(total, unicos);
    if total > 0 {
      var t := total as real;
      var d := (total - unicos) as real;
      assert p * t == d * 100.0;
      assert 0.0 <= d <= t;
      SignOfProduct(p, t);
      SignOfProduct(p - 100.0, t);
      assert (p - 100.0) * t == d * 100.0 - t * 100.0;
    }
  }

  /** A product with a positive factor has the sign of the other factor. */
  lemma SignOfProduct(x: real, t: real)
    requires t > 0.0
    ensures x > 0.0 ==> x * t > 0.0
    ensures x < 0.0 ==> x * t < 0.0
    ensures x == 0.0 <==> x * t == 0.0
  {
  }

  lemma PorcentajeEjemplo()
    ensures PorcentajeDuplicados(100, 80) == 20.0
  {
  }

  /** The three figures of the statistics panel. */
  datatype Panel = Panel(total: nat, unicos: nat, duplicados: real)

  /** COUNT(*) and COUNT(DISTINCT id) under the year filter, and the
      duplicate percentage derived from them. */
  function Estadisticas(rows: seq<Row>, cfg: Config, anio: string): (p: Panel)
    ensures var s := Filtered(rows, cfg.colFecha, anio);
            p.total == |s| && p.unicos == |DistinctValues(s, cfg.colId)|
    ensures p.duplicados == PorcentajeDuplicados(p.total, p.unicos)
    ensures p.total <= |rows|
    ensures p.unicos <= p.total
    ensures 0.0 <= p.duplicados <= 100.0
    ensures anio == Todos ==> p.total == |rows| && p.unicos == |DistinctValues(rows, cfg.colId)|
  {
    var s := Filtered(rows, cfg.colFecha, anio);
    DistinctAtMostRows(s, cfg.colId);
    PorcentajeEnRango(|s|, |DistinctValues(s, cfg.colId)|);
    FilteredTodos(rows, cfg.colFecha);
    Panel(|s|, |DistinctValues(s, cfg.colId)|, PorcentajeDuplicados(|s|, |DistinctValues(s, cfg.colId)|))
  }

  /** The geographic figures: distinct states, municipalities and parishes. */
  datatype Territorio = Territorio(estados: nat, municipios: nat, parroquias: nat)

  function ResumenTerritorial(rows: seq<Row>, cfg: Config, anio: string): (t: Territorio)
    ensures var s := Filtered(rows, cfg.colFecha, anio);
            t.estados == |DistinctValues(s, cfg.colEstado)| &&
            t.municipios == |DistinctValues(s, cfg.colMunicipio)| &&
            t.parroquias == |DistinctValues(s, cfg.colParroquia)|
    ensures t.estados <= |Filtered(rows, cfg.colFecha, anio)|
    ensures t.municipios <= |Filtered(rows, cfg.colFecha, anio)|
    ensures t.parroquias <= |Filtered(rows, cfg.colFecha, anio)|
    ensures t.estados <= |DistinctValues(rows, cfg.colEstado)|
  {
    var s := Filtered(rows, cfg.colFecha, anio);
    DistinctAtMostRows(s, cfg.colEstado);
    DistinctAtMostRows(s, cfg.colMunicipio);
    DistinctAtMostRows(s, cfg.colParroquia);
    FilteredCountsBounded(rows, cfg.colFecha, anio, cfg.colEstado);
    Territorio(|DistinctValues(s, cfg.colEstado)|, |DistinctValues(s, cfg.colMunicipio)|,
               |DistinctValues(s, cfg.colParroquia)|)
  }

  /** The year options offered by the sidebar besides "Todos": the year of
      every non-NULL date in the date column. */
  function AniosDisponibles(rows: seq<Row>, colFecha: string): set<string>
  {
    set r | r in rows && Field(r, colFecha).Date? :: Field(r, colFecha).year
  }

  /** A year (other than "Todos") is offered exactly when filtering by it
      selects at least one row. */
  lemma AniosDisponiblesExactos(rows: seq<Row>, colFecha: string, y: string)
    requires y != Todos
    ensures y in AniosDisponibles(rows, colFecha) <==> Filtered(rows, colFecha, y) != []
  {
    if y in AniosDisponibles(rows, colFecha) {
      var r :| r in rows && Field(r, colFecha).Date? && Field(r, colFecha).year == y;
      assert r in Filtered(rows, colFecha, y);
    }
    if Filtered(rows, colFecha, y) != [] {
      var r := Filtered(rows, colFecha, y)[0];
      assert r in Filtered(rows, colFecha, y);
    }
  }

  /** The grouping key of GROUP BY col: the cell itself, NULL forming one
      group of its own. */
  function ColumnKey(col: string): Row -> Cell
  {
    r => Field(r, col)
  }

  /** One row of a GROUP BY tally: the value, COUNT(*) and (for the
      geographic table) COUNT(DISTINCT id). */
  datatype Tally = Tally(value: Cell, total: nat, unicos: nat)

  function TallyOf(g: Grouping.Group<Cell, Row>, colId: string): (t: Tally)
    ensures t.value == g.key && t.total == |g.rows|
    ensures t.unicos == |DistinctValues(g.rows, colId)|
    ensures t.unicos <= t.total
  {
    DistinctAtMostRows(g.rows, colId);
    Tally(g.key, |g.rows|, |DistinctValues(g.rows, colId)|)
  }

  /** The institution table (and the geographic table, with col = estado):
      the tallies of the groups of filtered rows sharing a value of `col`,
      largest COUNT(*) first. */
  function ConteoPor(rows: seq<Row>, cfg: Config, anio: string, col: string): (ts: seq<Tally>)
    ensures |ts| <= |rows|
  {
    var s := Filtered(rows, cfg.colFecha, anio);
    var gs := Grouping.Summary(s, ColumnKey(col));
    assert |gs| <= |rows| by {
      Grouping.SummaryLength(s, ColumnKey(col));
    }
    seq(|gs|, i requires 0 <= i < |gs| => TallyOf(gs[i], cfg.colId))
  }

  /** Each tally counts exactly the filtered rows holding its value, and is
      positive; its unique count is COUNT(DISTINCT id) over those rows; the
      tallies come largest first, one per value. */
  lemma ConteoPorExacto(rows: seq<Row>, cfg: Config, anio: string, col: string)
    ensures var ts := ConteoPor(rows, cfg, anio, col);
            forall i :: 0 <= i < |ts| ==>
              ts[i].total > 0 && ts[i].unicos <= ts[i].total &&
              ts[i].total == |Grouping.Members(Filtered(rows, cfg.colFecha, anio), ColumnKey(col), ts[i].value)| &&
              ts[i].unicos == |DistinctValues(Grouping.Members(Filtered(rows, cfg.colFecha, anio), ColumnKey(col), ts[i].value), cfg.colId)|
    ensures var ts := ConteoPor(rows, cfg, anio, col);
            forall i, j :: 0 <= i < j < |ts| ==> ts[i].total >= ts[j].total && ts[i].value != ts[j].value
  {
    var s := Filtered(rows, cfg.colFecha, anio);
    var gs := Grouping.Summary(s, ColumnKey(col));
    var ts := ConteoPor(rows, cfg, anio, col);
    assert Grouping.DistinctKeys(gs);
    assert Grouping.Descending(gs);
  }

  /** Every filtered row is counted under its own value, and the tallies add
      up to the filtered row count. */
  lemma ConteoPorCubre(rows: seq<Row>, cfg: Config, anio: string, col: string)
    ensures var ts := ConteoPor(rows, cfg, anio, col);
            forall r :: r in Filtered(rows, cfg.colFecha, anio) ==>
              exists i :: 0 <= i < |ts| && ts[i].value == Field(r, col)
    ensures SumTotals(ConteoPor(rows, cfg, anio, col)) == |Filtered(rows, cfg.colFecha, anio)|
  {
    var s := Filtered(rows, cfg.colFecha, anio);
    var gs := Grouping.Summary(s, ColumnKey(col));
    var ts := ConteoPor(rows, cfg, anio, col);
    assert |ts| == |gs| && forall i :: 0 <= i < |gs| ==> ts[i] == TallyOf(gs[i], cfg.colId);
    TalliesCover(s, gs, ts, col);
    SumTotalsIsTotal(gs, ts, cfg.colId);
  }

  /** The institution table of the statistics tab (GROUP BY the institution
      column): each total is exactly the number of filtered rows of that
      institution, one tally per institution, largest first, and the totals
      add up to the filtered row count. */
  function ConteoInstituciones(rows: seq<Row>, cfg: Config, anio: string): (ts: seq<Tally>)
    ensures forall i :: 0 <= i < |ts| ==>
              ts[i].total > 0 &&
              ts[i].total == |Grouping.Members(Filtered(rows, cfg.colFecha, anio), ColumnKey(cfg.colEnte), ts[i].value)|
    ensures forall i, j :: 0 <= i < j < |ts| ==> ts[i].total >= ts[j].total && ts[i].value != ts[j].value
    ensures SumTotals(ts) == |Filtered(rows, cfg.colFecha, anio)|
  {
    ConteoPorExacto(rows, cfg, anio, cfg.colEnte);
    ConteoPorCubre(rows, cfg, anio, cfg.colEnte);
    ConteoPor(rows, cfg, anio, cfg.colEnte)
  }

  /** The state table of the geography tab (GROUP BY the state column, with
      COUNT(DISTINCT id)): each total and unique count is taken over exactly
      the filtered rows of that state, largest first, and every filtered row
      is counted under its own state. */
  function ConteoEstados(rows: seq<Row>, cfg: Config, anio: string): (ts: seq<Tally>)
    ensures forall i :: 0 <= i < |ts| ==>
              ts[i].total == |Grouping.Members(Filtered(rows, cfg.colFecha, anio), ColumnKey(cfg.colEstado), ts[i].value)| &&
              ts[i].unicos == |DistinctValues(Grouping.Members(Filtered(rows, cfg.colFecha, anio), ColumnKey(cfg.colEstado), ts[i].value), cfg.colId)|
    ensures forall i, j :: 0 <= i < j < |ts| ==> ts[i].total >= ts[j].total && ts[i].value != ts[j].value
    ensures forall r :: r in Filtered(rows, cfg.colFecha, anio) ==>
              exists i :: 0 <= i < |ts| && ts[i].value == Field(r, cfg.colEstado)
  {
    ConteoPorExacto(rows, cfg, anio, cfg.colEstado);
    ConteoPorCubre(rows, cfg, anio, cfg.colEstado);
    ConteoPor(rows, cfg, anio, cfg.colEstado)
  }

  lemma TalliesCover(s: seq<Row>, gs: seq<Grouping.Group<Cell, Row>>, ts: seq<Tally>, col: string)
    requires |ts| == |gs|
    requires forall i :: 0 <= i < |gs| ==> ts[i].value == gs[i].key
    requires forall r :: r in s ==> Grouping.HasKey(gs, ColumnKey(col)(r))
    ensures forall r :: r in s ==> exists i :: 0 <= i < |ts| && ts[i].value == Field(r, col)
  {
    forall r | r in s ensures exists i :: 0 <= i < |ts| && ts[i].value == Field(r, col) {
      assert Grouping.HasKey(gs, ColumnKey(col)(r));
      var i :| 0 <= i < |gs| && gs[i].key == ColumnKey(col)(r);
      assert ts[i].value == Field(r, col);
    }
  }

  function SumTotals(ts: seq<Tally>): nat
  {
    if ts == [] then 0 else ts[0].total + SumTotals(ts[1..])
  }

  lemma {:induction false} SumTotalsIsTotal(gs: seq<Grouping.Group<Cell, Row>>, ts: seq<Tally>, colId: string)
    requires |ts| == |gs|
    requires forall i :: 0 <= i < |gs| ==> ts[i].total == |gs[i].rows|
    ensures SumTotals(ts) == Grouping.Total(gs)
  {
    if gs != [] {
      SumTotalsIsTotal(gs[1..], ts[1..], colId);
    }
  }
}
