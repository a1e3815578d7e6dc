/** Validation of an uploaded catalog file. Parsing the file is left to the
    CSV reader; what reaches the check is the reader's outcome: the column
    names and the rows projected onto `item_name`, `rarity` and `price`, or a
    read error. */
module CsvUpload {
  import opened Wrappers
  import opened Items

  datatype CsvTable = Table(columns: set<string>, rows: seq<Item>) | Unreadable(message: string)

  datatype UploadedFile = UploadedFile(filename: string, content: CsvTable)

  /** What the upload handler reports; only `Loaded` replaces the catalog. */
  datatype UploadOutcome = Loaded(items: seq<Item>) | NotCsv | MissingColumns | ParseError(message: string)

  const RequiredColumns: set<string> := {"item_name", "rarity", "price"}

  predicate EndsWith(s: string, suffix: string) {
    |suffix| <= |s| && s[|s| - |suffix|..] == suffix
  }

  /** The checks of the upload handler, in its order: a file whose name ends
      in `.csv`, then a readable table, then the three required columns.
      A request without a file (or with an empty file name) fails the first. */
  function CheckUpload(file: Option<UploadedFile>): (o: UploadOutcome)
    ensures o.Loaded? <==>
      && file.Some?
      && EndsWith(file.value.filename, ".csv")
      && file.value.content.Table?
      && RequiredColumns <= file.value.content.columns
    ensures o.Loaded? ==> o.items == file.value.content.rows
    ensures o.NotCsv? <==> file.None? || !EndsWith(file.value.filename, ".csv")
    ensures o.ParseError? <==> file.Some? && EndsWith(file.value.filename, ".csv") && file.value.content.Unreadable?
    ensures o.ParseError? ==> o.message == file.value.content.message
  {
    match file
    case None => NotCsv
    case Some(f) =>
      if !EndsWith(f.filename, ".csv") then NotCsv
      else match f.content
        case Unreadable(msg) => ParseError(msg)
        case Table(columns, rows) =>
          if !(RequiredColumns <= columns) then MissingColumns
          else Loaded(rows)
  }

  /** Nothing rejects a table without rows: a `.csv` file that has the three
      columns and no data rows is loaded, and the catalog becomes empty. */
  lemma EmptyTableAccepted(filename: string, columns: set<string>)
    requires EndsWith(filename, ".csv") && RequiredColumns <= columns
    ensures CheckUpload(Some(UploadedFile(filename, Table(columns, [])))) == Loaded([])
  {
  }
}
