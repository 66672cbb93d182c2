/**
 * The upload handler (upload_results in app.py) from the uploaded file's name
 * and the rows its reader produces to the reply and the new store: the file
 * type is chosen from the name's extension, every row is normalised, rows
 * without an id are dropped, an empty result is refused, and otherwise the
 * records are merged into the store.
 */
module Upload {
  import opened Optional
  import opened Text
  import opened Table
  import opened Ingest
  import opened Results

  /** The two readers: pd.read_csv and pd.read_excel. */
  datatype FileKind = Csv | Excel

  /** What the file name's extension selects. */
  datatype Extension = Known(kind: FileKind) | Unsupported | NoExtension

  /**
   * file.filename.rsplit('.', 1)[1].lower(): "csv" selects the CSV reader,
   * "xls" and "xlsx" the Excel reader, any other extension is unsupported, and
   * a name without '.' has no extension at all.
   */
  function Classify(filename: string): (r: Extension)
    ensures r == NoExtension <==> '.' !in filename
  {
    match AfterLastDot(filename)
    case None => NoExtension
    case Some(ext) =>
      var e := Lower(ext);
      if e == "csv" then Known(Csv)
      else if e == "xls" || e == "xlsx" then Known(Excel)
      else Unsupported
  }

  /**
   * Only the text after the last '.' decides, and its letter case does not
   * matter: "report.v2.CSV" is a CSV file, "marks.XlsX" an Excel file.
   */
  lemma ClassifyByExtension(prefix: string, ext: string)
    requires '.' !in ext
    ensures Classify(prefix + "." + ext) ==
      if SameIgnoringCase(ext, "csv") then Known(Csv)
      else if SameIgnoringCase(ext, "xls") || SameIgnoringCase(ext, "xlsx") then Known(Excel)
      else Unsupported
  {
    AfterLastDotOf(prefix, ext);
    assert Lower("csv") == "csv";
    assert Lower("xls") == "xls";
    assert Lower("xlsx") == "xlsx";
    LowerEqualIff(ext, "csv");
    LowerEqualIff(ext, "xls");
    LowerEqualIff(ext, "xlsx");
  }

  /** Why an upload is refused. */
  datatype UploadError =
    | NoSelectedFile    // the file name is empty
    | MissingExtension  // the name has no '.'; the handler raises here, outside its try block
    | UnsupportedType   // neither a CSV nor an Excel extension
    | NoValidData       // no row has a non-empty student id

  /** The reply: the number of records uploaded, or the reason for refusing. */
  datatype Outcome = Uploaded(count: nat) | Rejected(error: UploadError)

  /**
   * One upload. `read` stands for the reader of each file kind applied to the
   * uploaded bytes. A refused upload leaves the store as it was; an accepted
   * one reports every surviving record, duplicates included, and merges them.
   */
  method Upload(
    store: Store,
    filename: string,
    read: FileKind -> seq<Row>,
    numText: real -> string,
    decode: string -> Option<Json>)
    returns (outcome: Outcome, updated: Store)
    ensures outcome.Rejected? ==> updated == store
    ensures outcome == Rejected(NoSelectedFile) <==> filename == ""
    ensures filename != "" ==> (outcome == Rejected(MissingExtension) <==> '.' !in filename)
    ensures filename != "" ==> (outcome == Rejected(UnsupportedType) <==> Classify(filename) == Unsupported)
    ensures filename != "" && Classify(filename).Known? ==>
      var batch := Batch(read(Classify(filename).kind), numText, decode);
      && (outcome == Rejected(NoValidData) <==> batch == [])
      && (batch != [] ==> outcome == Uploaded(|batch|) && updated == Merged(store, batch))
  {
    if filename == "" {
      return Rejected(NoSelectedFile), store;
    }
    var extension := Classify(filename);
    if extension == NoExtension {
      return Rejected(MissingExtension), store;
    }
    if extension == Unsupported {
      return Rejected(UnsupportedType), store;
    }
    var rows := read(extension.kind);
    var records := NormaliseAll(rows, numText, decode);
    assert records == seq(|rows|, k requires 0 <= k < |rows| => Normalised(rows[k], numText, decode));
    var batch := Identified(records);
    if batch == [] {
      return Rejected(NoValidData), store;
    }
    updated := MergeBatch(store, batch);
    outcome := Uploaded(|batch|);
  }

  /**
   * A row whose id is empty after stripping never reaches the store: the
   * record it becomes is not among the stored records unless it was already
   * there.
   */
  lemma SkippedRowsNeverStored(store: Store, rows: seq<Row>, numText: real -> string, decode: string -> Option<Json>, k: nat)
    requires k < |rows| && Normalised(rows[k], numText, decode).studentId == ""
    requires Normalised(rows[k], numText, decode) !in store.Values
    ensures Normalised(rows[k], numText, decode) !in Merged(store, Batch(rows, numText, decode)).Values
  {
    var records := seq(|rows|, j requires 0 <= j < |rows| => Normalised(rows[j], numText, decode));
    IdentifiedCounts(records, Normalised(rows[k], numText, decode));
    MergedRecordsFromBatch(store, Batch(rows, numText, decode));
  }
}
