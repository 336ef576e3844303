/** Ingestion of uploaded spreadsheets into the consolidated table and
    deletion of everything one file contributed (PNSC.py, tab "Cargar
    Archivos"). */
module Ingestion {
  import opened Cells

  /** An uploaded spreadsheet as pd.read_excel hands it over: its file name,
      its rows (each a mapping from column name to cell), and `parse`, the
      reading of date text that pd.to_datetime settles on for this file's
      date column. pandas infers one format per column from its first
      non-null text, so the same text can be a date in one file and NULL in
      another; `parse` belongs to the file, not to the batch. */
  datatype UploadedFile = UploadedFile(name: string, rows: seq<Row>, parse: string -> Option<string>)

  /** pd.to_datetime(..., errors='coerce') on one cell of a column whose
      reading is `parse`: a date stays a date, text becomes the date `parse`
      reads from it or NULL when it reads none; the row is never rejected. */
  function CoerceDate(parse: string -> Option<string>, c: Cell): (r: Cell)
    ensures r.Null? || r.Date?
    ensures c.Date? || c.Null? ==> r == c
    ensures c.Text? ==> (r.Date? <==> parse(c.s).Some?)
    ensures c.Text? && parse(c.s).Some? ==> r == Date(parse(c.s).value)
  {
    match c
    case Null => Null
    case Date(_) => c
    case Text(s) => (match parse(s) case Some(y) => Date(y) case None => Null)
  }

  /** One uploaded row as it is appended: archivo_origen set to the file
      name, fecha_sistema_carga set to the batch stamp, then the date column
      coerced if the frame has it. */
  function StampRow(r: Row, name: string, stamp: string, colFecha: string,
                    parse: string -> Option<string>): (s: Row)
    ensures s.Keys == r.Keys + {ArchivoOrigen, FechaSistemaCarga}
    ensures colFecha != ArchivoOrigen ==> s[ArchivoOrigen] == Text(name)
    ensures colFecha != FechaSistemaCarga ==> s[FechaSistemaCarga] == Text(stamp)
    ensures colFecha in s ==> s[colFecha].Null? || s[colFecha].Date?
    ensures colFecha in r && colFecha != ArchivoOrigen && colFecha != FechaSistemaCarga
            ==> s[colFecha] == CoerceDate(parse, r[colFecha])
    ensures colFecha == ArchivoOrigen ==> s[colFecha] == CoerceDate(parse, Text(name))
    ensures colFecha == FechaSistemaCarga ==> s[colFecha] == CoerceDate(parse, Text(stamp))
    ensures forall k :: k in r && k != ArchivoOrigen && k != FechaSistemaCarga && k != colFecha ==> s[k] == r[k]
  {
    var t := r[ArchivoOrigen := Text(name)][FechaSistemaCarga := Text(stamp)];
    if colFecha in t then t[colFecha := CoerceDate(parse, t[colFecha])] else t
  }

  /** All rows of one file, stamped, in file order. */
  function StampFile(f: UploadedFile, stamp: string, colFecha: string): seq<Row>
  {
    seq(|f.rows|, j requires 0 <= j < |f.rows| => StampRow(f.rows[j], f.name, stamp, colFecha, f.parse))
  }

  /** The rows a whole batch of files appends: each file's stamped rows, file
      after file. */
  function StampAll(files: seq<UploadedFile>, stamp: string, colFecha: string): (s: seq<Row>)
    ensures |s| == TotalRows(files)
  {
    if files == [] then []
    else StampFile(files[0], stamp, colFecha) + StampAll(files[1..], stamp, colFecha)
  }

  /** Number of rows in a batch of files. */
  function TotalRows(files: seq<UploadedFile>): nat
  {
    if files == [] then 0 else |files[0].rows| + TotalRows(files[1..])
  }

  lemma {:induction false} StampAllSnoc(files: seq<UploadedFile>, f: UploadedFile, stamp: string,
                                        colFecha: string)
    ensures StampAll(files + [f], stamp, colFecha)
         == StampAll(files, stamp, colFecha) + StampFile(f, stamp, colFecha)
  {
    if files == [] {
      assert [f][1..] == [];
    } else {
      assert (files + [f])[1..] == files[1..] + [f];
      StampAllSnoc(files[1..], f, stamp, colFecha);
    }
  }

  /** Row j of file i lands at position (rows of the earlier files) + j of
      the appended block, stamped with file i's name. */
  lemma {:induction false} StampAllAt(files: seq<UploadedFile>, stamp: string, colFecha: string,
                                      i: nat, j: nat)
    requires i < |files| && j < |files[i].rows|
    ensures TotalRows(files[..i]) + j < |StampAll(files, stamp, colFecha)|
    ensures StampAll(files, stamp, colFecha)[TotalRows(files[..i]) + j]
         == StampRow(files[i].rows[j], files[i].name, stamp, colFecha, files[i].parse)
  {
    var head := StampFile(files[0], stamp, colFecha);
    var rest := StampAll(files[1..], stamp, colFecha);
    assert StampAll(files, stamp, colFecha) == head + rest;
    assert |head| == |files[0].rows|;
    if i > 0 {
      var k := TotalRows(files[1..][..i - 1]) + j;
      StampAllAt(files[1..], stamp, colFecha, i - 1, j);
      TotalRowsPrefixCons(files, i);
      ConcatIndexRight(head, rest, k);
    } else {
      assert files[..0] == [];
      ConcatIndexLeft(head, rest, j);
    }
  }

  lemma ConcatIndexLeft(a: seq<Row>, b: seq<Row>, n: nat)
    requires n < |a|
    ensures (a + b)[n] == a[n]
  {
  }

  lemma ConcatIndexRight(a: seq<Row>, b: seq<Row>, n: nat)
    requires n < |b|
    ensures (a + b)[|a| + n] == b[n]
  {
  }

  lemma TotalRowsPrefixCons(files: seq<UploadedFile>, i: nat)
    requires 0 < i < |files|
    ensures TotalRows(files[..i]) == |files[0].rows| + TotalRows(files[1..][..i - 1])
    ensures files[1..][i - 1] == files[i]
  {
    assert files[1..][..i - 1] == files[..i][1..];
    assert files[..i][0] == files[0];
  }

  /** Every appended row carries the one load stamp of its batch. */
  lemma {:induction false} StampAllSharesStamp(files: seq<UploadedFile>, stamp: string, colFecha: string)
    requires colFecha != FechaSistemaCarga
    ensures forall r :: r in StampAll(files, stamp, colFecha) ==> Field(r, FechaSistemaCarga) == Text(stamp)
  {
    if files != [] {
      StampAllSharesStamp(files[1..], stamp, colFecha);
    }
  }

  /** A stamped row belongs to its file. */
  predicate FromFile(r: Row, name: string)
  {
    Field(r, ArchivoOrigen) == Text(name)
  }

  /** DELETE FROM table WHERE archivo_origen = name: the rows of other
      files (and rows without a file name) in their order. */
  function RemoveFile(rows: seq<Row>, name: string): (s: seq<Row>)
    ensures |s| <= |rows|
    ensures forall r :: r in s <==> r in rows && !FromFile(r, name)
  {
    if rows == [] then []
    else (if FromFile(rows[0], name) then [] else [rows[0]]) + RemoveFile(rows[1..], name)
  }

  /** The rows that came from file `name`, in table order (what the load
      history counts per file). */
  function RowsOf(rows: seq<Row>, name: string): (s: seq<Row>)
    ensures |s| <= |rows|
    ensures forall r :: r in s <==> r in rows && FromFile(r, name)
  {
    if rows == [] then []
    else (if FromFile(rows[0], name) then [rows[0]] else []) + RowsOf(rows[1..], name)
  }

  lemma {:induction false} RemoveFileAppend(a: seq<Row>, b: seq<Row>, name: string)
    ensures RemoveFile(a + b, name) == RemoveFile(a, name) + RemoveFile(b, name)
  {
    if a == [] {
      assert a + b == b;
    } else {
      var x, rest := a[0], a[1..];
      assert a == [x] + rest;
      assert a + b == [x] + (rest + b);
      var h := if FromFile(x, name) then [] else [x];
      var front, back := RemoveFile(rest, name), RemoveFile(b, name);
      RemoveFileCons(x, rest, name);
      RemoveFileCons(x, rest + b, name);
      RemoveFileAppend(rest, b, name);
      ConcatAssoc(h, front, back);
    }
  }

  lemma ConcatAssoc(a: seq<Row>, b: seq<Row>, c: seq<Row>)
    ensures a + (b + c) == (a + b) + c
  {
  }

  lemma RemoveFileCons(x: Row, rest: seq<Row>, name: string)
    ensures RemoveFile([x] + rest, name) == (if FromFile(x, name) then [] else [x]) + RemoveFile(rest, name)
  {
    assert ([x] + rest)[1..] == rest;
  }

  /** Deletion removes exactly the file's rows: the table shrinks by the
      number of rows the file contributed. */
  lemma {:induction false} RemoveFileCount(rows: seq<Row>, name: string)
    ensures |RemoveFile(rows, name)| == |rows| - |RowsOf(rows, name)|
  {
    if rows != [] {
      RemoveFileCount(rows[1..], name);
    }
  }

  /** Deleting a name no row carries changes nothing. */
  lemma {:induction false} RemoveAbsentFile(rows: seq<Row>, name: string)
    requires forall r :: r in rows ==> !FromFile(r, name)
    ensures RemoveFile(rows, name) == rows
  {
    if rows != [] {
      assert rows[0] in rows;
      RemoveAbsentFile(rows[1..], name);
    }
  }

  /** Deleting file `a` leaves file `b`'s rows, and their order, untouched. */
  lemma {:induction false} RemoveFileIsolation(rows: seq<Row>, a: string, b: string)
    requires a != b
    ensures RowsOf(RemoveFile(rows, a), b) == RowsOf(rows, b)
  {
    if rows != [] {
      RemoveFileIsolation(rows[1..], a, b);
      var rest := RemoveFile(rows[1..], a);
      if FromFile(rows[0], a) {
        assert !FromFile(rows[0], b);
        assert RemoveFile(rows, a) == [] + rest;
        assert [] + rest == rest;
      } else {
        assert RemoveFile(rows, a) == [rows[0]] + rest;
        assert ([rows[0]] + rest)[0] == rows[0];
        assert ([rows[0]] + rest)[1..] == rest;
      }
    }
  }

  /** Deleting a name removes every row that carries it. */
  lemma {:induction false} RemoveWholeFile(rows: seq<Row>, name: string)
    requires forall r :: r in rows ==> FromFile(r, name)
    ensures RemoveFile(rows, name) == []
  {
    if rows != [] {
      assert rows[0] in rows;
      RemoveWholeFile(rows[1..], name);
    }
  }

  /** Every row of an uploaded file is deleted with its file name, unless
      the date column was configured to be archivo_origen itself. */
  lemma RemoveStampedFile(f: UploadedFile, stamp: string, colFecha: string)
    requires colFecha != ArchivoOrigen
    ensures RemoveFile(StampFile(f, stamp, colFecha), f.name) == []
  {
    RemoveWholeFile(StampFile(f, stamp, colFecha), f.name);
  }

  /** Uploading a file whose name the table did not hold and then deleting
      that name restores the table exactly. */
  lemma IngestThenDelete(rows: seq<Row>, f: UploadedFile, stamp: string, colFecha: string)
    requires colFecha != ArchivoOrigen
    requires forall r :: r in rows ==> !FromFile(r, f.name)
    ensures RemoveFile(rows + StampFile(f, stamp, colFecha), f.name) == rows
  {
    RemoveFileAppend(rows, StampFile(f, stamp, colFecha), f.name);
    RemoveAbsentFile(rows, f.name);
    RemoveStampedFile(f, stamp, colFecha);
  }

  /** One more file of the batch extends the appended rows by its block. */
  lemma AppendNextFile(base: seq<Row>, prev: seq<Row>, files: seq<UploadedFile>, i: nat, stamp: string,
                       colFecha: string)
    requires i < |files|
    requires prev == base + StampAll(files[..i], stamp, colFecha)
    ensures prev + StampFile(files[i], stamp, colFecha) == base + StampAll(files[..i + 1], stamp, colFecha)
  {
    StampAllSnoc(files[..i], files[i], stamp, colFecha);
    assert files[..i + 1] == files[..i] + [files[i]];
  }

  /** The placeholder at the head of the deletion choices. */
  const SinSeleccion: string := "---"

  /** The persistent table. */
  class Table {
    var rows: seq<Row>

    constructor ()
      ensures rows == []
    {
      rows := [];
    }

    /** "Ejecutar Consolidación": every file of the batch, in upload order,
        is stamped with its name and the one batch stamp and appended. */
    method Ingest(files: seq<UploadedFile>, stamp: string, colFecha: string)
      modifies this
      ensures rows == old(rows) + StampAll(files, stamp, colFecha)
    {
      var i := 0;
      while i < |files|
        invariant 0 <= i <= |files|
        invariant rows == old(rows) + StampAll(files[..i], stamp, colFecha)
      {
        AppendNextFile(old(rows), rows, files, i, stamp, colFecha);
        rows := rows + StampFile(files[i], stamp, colFecha);
        i := i + 1;
      }
      assert files[..|files|] == files;
    }

    /** "Eliminar": deletes every row whose archivo_origen is `name`; the
        placeholder choice "---" deletes nothing. */
    method DeleteFile(name: string)
      modifies this
      ensures rows == if name == SinSeleccion then old(rows) else RemoveFile(old(rows), name)
    {
      if name != SinSeleccion {
        rows := RemoveFile(rows, name);
      }
    }
  }
}
