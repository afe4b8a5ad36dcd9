/** The per-severity CSV files of `add_to_csv` (get_advisories.py, lines
    85-90) and the folder that holds them. A file is its header (the column
    names written by the first append) and its data rows. Appending never
    rereads or checks the header: rows with other columns are written under
    it as they are. */
module Partition {
  import opened Json

  /** One flattened advisory, as pandas.json_normalize makes it: column names
      with their values, in column order. */
  type Row = seq<(string, Json)>

  function Columns(row: Row): seq<string> {
    Keys(row)
  }

  function Values(row: Row): seq<Json> {
    seq(|row|, i requires 0 <= i < |row| => row[i].1)
  }

  function ValuesOf(rows: seq<Row>): seq<seq<Json>> {
    seq(|rows|, i requires 0 <= i < |rows| => Values(rows[i]))
  }

  datatype CsvFile = CsvFile(header: seq<string>, rows: seq<seq<Json>>)

  /** A zip file holding one member under the given name. */
  datatype Archive = Archive(member: string, content: CsvFile)

  /** Lines 87-90: an existing file gets the row's values at the end
      (`header=False, mode="a"`); a missing one is created with the row's
      columns as header and the row as its only data row. */
  function Appended(files: map<string, CsvFile>, path: string, row: Row): map<string, CsvFile> {
    if path in files then
      files[path := CsvFile(files[path].header, files[path].rows + [Values(row)])]
    else
      files[path := CsvFile(Columns(row), [Values(row)])]
  }

  /** Several appends, in order: each pair is a target file and a row. */
  function AppendAll(files: map<string, CsvFile>, appends: seq<(string, Row)>): map<string, CsvFile> {
    if appends == [] then files
    else
      var last := appends[|appends| - 1];
      Appended(AppendAll(files, appends[..|appends| - 1]), last.0, last.1)
  }

  /** The rows among `appends` that target `path`, in order. */
  function RowsFor(appends: seq<(string, Row)>, path: string): seq<Row> {
    if appends == [] then []
    else
      var last := appends[|appends| - 1];
      RowsFor(appends[..|appends| - 1], path) + (if last.0 == path then [last.1] else [])
  }

  /** The number of data rows over all files. */
  ghost function TotalRows(files: map<string, CsvFile>): nat
    decreases |files|
  {
    if files == map[] then 0
    else
      var p :| p in files;
      |files[p].rows| + TotalRows(files - {p})
  }

  /** `path` lies inside `folder`. */
  predicate Under(folder: string, path: string) {
    folder + "/" <= path
  }

  /** The files inside `folder`. */
  function Partitions<V>(files: map<string, V>, folder: string): map<string, V> {
    map p | p in files && Under(folder, p) :: files[p]
  }

  /** The files outside `folder`. */
  function Outside<V>(files: map<string, V>, folder: string): map<string, V> {
    map p | p in files && !Under(folder, p) :: files[p]
  }

  // ---------------------------------------------------------------------
  // Properties of appending.

  /** A first append creates the file with the row's columns as header and
      exactly one row; a later one adds exactly one row at the end and keeps
      the header, whatever the row's columns; other files are untouched. */
  lemma AppendedFile(files: map<string, CsvFile>, path: string, row: Row)
    ensures var r := Appended(files, path, row);
      && path in r
      && (path !in files ==> r[path].header == Columns(row) && r[path].rows == [Values(row)])
      && (path in files ==>
            && r[path].header == files[path].header
            && |r[path].rows| == |files[path].rows| + 1
            && r[path].rows[..|files[path].rows|] == files[path].rows
            && r[path].rows[|files[path].rows|] == Values(row))
      && (forall p :: p != path ==> (p in r <==> p in files) && (p in files ==> r[p] == files[p]))
  {
  }

  /** The sum of row counts can be taken starting from any file. */
  lemma {:induction false} TotalRowsAt(files: map<string, CsvFile>, k: string)
    requires k in files
    ensures TotalRows(files) == |files[k].rows| + TotalRows(files - {k})
    decreases |files|
  {
    var p :| p in files && TotalRows(files) == |files[p].rows| + TotalRows(files - {p});
    if p != k {
      var rest := files - {p};
      assert k in rest;
      TotalRowsAt(rest, k);
      var without := files - {k};
      assert p in without;
      TotalRowsAt(without, p);
      assert rest - {k} == without - {p};
    }
  }

  /** Each append adds exactly one row to the total. */
  lemma AppendedTotal(files: map<string, CsvFile>, path: string, row: Row)
    ensures TotalRows(Appended(files, path, row)) == TotalRows(files) + 1
  {
    var r := Appended(files, path, row);
    TotalRowsAt(r, path);
    if path in files {
      TotalRowsAt(files, path);
      assert r - {path} == files - {path};
    } else {
      assert r - {path} == files;
    }
  }

  /** After a sequence of appends the total row count has grown by exactly
      the number of appends. */
  lemma {:induction false} AppendAllTotal(files: map<string, CsvFile>, appends: seq<(string, Row)>)
    ensures TotalRows(AppendAll(files, appends)) == TotalRows(files) + |appends|
  {
    if appends != [] {
      var last := appends[|appends| - 1];
      AppendAllTotal(files, appends[..|appends| - 1]);
      AppendedTotal(AppendAll(files, appends[..|appends| - 1]), last.0, last.1);
    }
  }

  /** Starting from an empty folder, a file exists exactly when some append
      targeted it; its one header is the columns of the first row that
      targeted it, and its rows are the values of all rows that targeted it,
      in order. */
  lemma {:induction false} AppendAllFiles(appends: seq<(string, Row)>)
    ensures forall p :: p in AppendAll(map[], appends) <==> RowsFor(appends, p) != []
    ensures forall p :: p in AppendAll(map[], appends) ==>
      AppendAll(map[], appends)[p] == CsvFile(Columns(RowsFor(appends, p)[0]), ValuesOf(RowsFor(appends, p)))
  {
    if appends != [] {
      var prefix := appends[..|appends| - 1];
      var last := appends[|appends| - 1];
      AppendAllFiles(prefix);
      var before := AppendAll(map[], prefix);
      forall p | p in AppendAll(map[], appends)
        ensures AppendAll(map[], appends)[p] == CsvFile(Columns(RowsFor(appends, p)[0]), ValuesOf(RowsFor(appends, p)))
      {
        if p == last.0 {
          var rs := RowsFor(prefix, p);
          assert RowsFor(appends, p) == rs + [last.1];
          if p in before {
            assert ValuesOf(rs + [last.1]) == ValuesOf(rs) + [Values(last.1)];
          } else {
            assert rs == [];
          }
        }
      }
    }
  }

  /** One append into `folder` acts on the files inside it alone. */
  lemma AppendedInside(files: map<string, CsvFile>, path: string, row: Row, folder: string)
    requires Under(folder, path)
    ensures Partitions(Appended(files, path, row), folder) == Appended(Partitions(files, folder), path, row)
    ensures Outside(Appended(files, path, row), folder) == Outside(files, folder)
  {
  }

  /** Appends into `folder` leave the files outside it alone and act on the
      files inside it as if they were the whole store. */
  lemma {:induction false} AppendAllInside(files: map<string, CsvFile>, appends: seq<(string, Row)>, folder: string)
    requires forall i :: 0 <= i < |appends| ==> Under(folder, appends[i].0)
    ensures Partitions(AppendAll(files, appends), folder) == AppendAll(Partitions(files, folder), appends)
    ensures Outside(AppendAll(files, appends), folder) == Outside(files, folder)
  {
    if appends != [] {
      var prefix := appends[..|appends| - 1];
      var last := appends[|appends| - 1];
      assert forall i :: 0 <= i < |prefix| ==> prefix[i] == appends[i];
      AppendAllInside(files, prefix, folder);
      AppendedInside(AppendAll(files, prefix), last.0, last.1, folder);
    }
  }

  /** A folder just cleared holds nothing, and clearing it again changes
      nothing. */
  lemma ClearedFolder<V>(files: map<string, V>, folder: string)
    ensures Partitions(Outside(files, folder), folder) == map[]
    ensures Outside(Outside(files, folder), folder) == Outside(files, folder)
  {
  }

  /** After a sequence of appends a file exists exactly when it existed
      before or some append targeted it. */
  lemma {:induction false} AppendAllKeys(files: map<string, CsvFile>, appends: seq<(string, Row)>)
    ensures forall p :: p in AppendAll(files, appends) <==>
      p in files || exists i :: 0 <= i < |appends| && appends[i].0 == p
  {
    if appends != [] {
      var prefix := appends[..|appends| - 1];
      AppendAllKeys(files, prefix);
      forall p | p in AppendAll(files, appends) && p !in files
        ensures exists i :: 0 <= i < |appends| && appends[i].0 == p
      {
        if p != appends[|appends| - 1].0 {
          var i :| 0 <= i < |prefix| && prefix[i].0 == p;
          assert appends[i] == prefix[i];
        }
      }
      forall p | exists i :: 0 <= i < |appends| && appends[i].0 == p
        ensures p in AppendAll(files, appends)
      {
        var i :| 0 <= i < |appends| && appends[i].0 == p;
        if i < |prefix| {
          assert prefix[i] == appends[i];
        }
      }
    }
  }

  /** Appends into a folder just cleared: the folder then holds exactly the
      files the appends create, with one row per append, and nothing outside
      it changes. */
  lemma AppendAllAfterClear(files: map<string, CsvFile>, appends: seq<(string, Row)>, folder: string)
    requires forall i :: 0 <= i < |appends| ==> Under(folder, appends[i].0)
    ensures Partitions(AppendAll(Outside(files, folder), appends), folder) == AppendAll(map[], appends)
    ensures Outside(AppendAll(Outside(files, folder), appends), folder) == Outside(files, folder)
    ensures TotalRows(AppendAll(map[], appends)) == |appends|
  {
    AppendAllInside(Outside(files, folder), appends, folder);
    ClearedFolder(files, folder);
    AppendAllTotal(map[], appends);
  }

  // ---------------------------------------------------------------------
  // The folders on disk.

  /** The CSV files and zip archives on disk, by path. */
  class Disk {
    var csv: map<string, CsvFile>
    var zips: map<string, Archive>

    constructor (csv: map<string, CsvFile>, zips: map<string, Archive>)
      ensures this.csv == csv && this.zips == zips
    {
      this.csv := csv;
      this.zips := zips;
    }

    /** Lines 87-90: `Path(csv_file).exists()` chooses between appending
        values only and creating the file with a header. */
    method Append(path: string, row: Row)
      modifies this
      ensures csv == Appended(old(csv), path, row)
      ensures zips == old(zips)
    {
      if path in csv {
        csv := csv[path := CsvFile(csv[path].header, csv[path].rows + [Values(row)])];
      } else {
        csv := csv[path := CsvFile(Columns(row), [Values(row)])];
      }
    }

    /** `clear_csv_folder` (lines 46-52): the folder is deleted with all it
        holds and made again, empty. */
    method ClearCsvFolder(folder: string)
      modifies this
      ensures csv == Outside(old(csv), folder)
      ensures zips == Outside(old(zips), folder)
    {
      csv := Outside(csv, folder);
      zips := Outside(zips, folder);
    }
  }
}
