/** `flipkart/data_converter.py`: turning the prepared JSON-lines rows into
    the documents handed to the vector store, with every NaN or infinite float
    in the metadata replaced by None. */
module DataConverter {
  import opened Wrappers
  import opened PyValue

  /** A document as stored and retrieved: its text and its metadata dict
      (None when the store hands back a document without one). */
  datatype Document = Document(pageContent: string, metadata: Option<map<string, Value>>)

  /** The eleven metadata keys, in the order the source lists them. */
  const MetadataKeys: seq<string> := [
    "id", "product_name", "brand", "category_path", "product_url", "image",
    "retail_price", "discounted_price", "product_rating", "overall_rating",
    "is_FK_Advantage_product"
  ]

  /** The columns selected from the file: the metadata keys and the text. */
  const Columns: seq<string> := ["id", "embedding_text"] + MetadataKeys[1..]

  /** A value that is not NaN and not infinite. */
  predicate IsClean(v: Value) {
    !(v.Num? && !v.x.Finite?)
  }

  /** `DataConverter.clean_value`: None, NaN and ±infinity become None; every
      other value is returned unchanged. */
  function CleanValue(v: Value): (r: Value)
    ensures r == Null <==> v == Null || (v.Num? && !v.x.Finite?)
    ensures r != Null ==> r == v
    ensures IsClean(r)
  {
    if v.Null? then Null
    else if v.Num? && (v.x.NaN? || v.x.Inf?) then Null
    else v
  }

  lemma CleanValueIdempotent(v: Value)
    ensures CleanValue(CleanValue(v)) == CleanValue(v)
  {
  }

  /** A row read by `pd.read_json(..., lines=True)`: the keys of one JSON line.
      A column another line has and this one lacks reads as NaN. */
  function Cell(row: map<string, Value>, column: string): Value {
    if column in row then row[column] else Num(NaN)
  }

  /** Why `convert` raises. */
  datatype ConvertError =
    | MissingColumn(column: string)   // KeyError from the column selection
    | NotText(row: nat)               // the Document rejects a non-str page_content

  /** The metadata dict built for one row. */
  function RowMetadata(row: map<string, Value>): (m: map<string, Value>)
    ensures m.Keys == set k | k in MetadataKeys
    ensures forall k :: k in m ==> m[k] == CleanValue(Cell(row, k)) && IsClean(m[k])
  {
    map k | k in MetadataKeys :: CleanValue(Cell(row, k))
  }

  /** A column that no line of the file has. */
  predicate ColumnMissing(rows: seq<map<string, Value>>, c: string) {
    forall i :: 0 <= i < |rows| ==> c !in rows[i]
  }

  /** `DataConverter.convert` on the lines of the file. */
  function Convert(rows: seq<map<string, Value>>): (r: Result<seq<Document>, ConvertError>)
    ensures r.Failure? && r.error.MissingColumn? ==>
      r.error.column in Columns && ColumnMissing(rows, r.error.column)
    ensures r.Failure? && r.error.NotText? ==>
      r.error.row < |rows| && !Cell(rows[r.error.row], "embedding_text").Str?
    ensures r.Success? <==>
      (forall c :: c in Columns ==> !ColumnMissing(rows, c)) &&
      (forall i :: 0 <= i < |rows| ==> Cell(rows[i], "embedding_text").Str?)
    ensures r.Success? ==> |r.value| == |rows| && forall i :: 0 <= i < |rows| ==>
      r.value[i].pageContent == Cell(rows[i], "embedding_text").s &&
      r.value[i].metadata == Some(RowMetadata(rows[i]))
  {
    match FirstMissing(rows, Columns)
    case Some(c) => Failure(MissingColumn(c))
    case None =>
      match FirstNotText(rows, 0)
      case Some(i) => Failure(NotText(i))
      case None =>
        Success(seq(|rows|, i requires 0 <= i < |rows| =>
          Document(Cell(rows[i], "embedding_text").s, Some(RowMetadata(rows[i])))))
  }

  /** The first of `columns` that no row has. */
  function FirstMissing(rows: seq<map<string, Value>>, columns: seq<string>): (r: Option<string>)
    ensures r.Some? ==> r.value in columns && ColumnMissing(rows, r.value)
    ensures r.None? <==> forall c :: c in columns ==> !ColumnMissing(rows, c)
  {
    if columns == [] then None
    else if ColumnMissing(rows, columns[0]) then Some(columns[0])
    else FirstMissing(rows, columns[1..])
  }

  /** The first row, from `from` on, whose text is not a string. */
  function FirstNotText(rows: seq<map<string, Value>>, from: nat): (r: Option<nat>)
    requires from <= |rows|
    ensures r.Some? ==> from <= r.value < |rows| && !Cell(rows[r.value], "embedding_text").Str?
    ensures r.Some? ==> forall j :: from <= j < r.value ==> Cell(rows[j], "embedding_text").Str?
    ensures r.None? <==> forall i :: from <= i < |rows| ==> Cell(rows[i], "embedding_text").Str?
    decreases |rows| - from
  {
    if from == |rows| then None
    else if !Cell(rows[from], "embedding_text").Str? then Some(from)
    else FirstNotText(rows, from + 1)
  }

  /** An empty file has no columns at all, so the selection raises. */
  lemma EmptyFileFails()
    ensures Convert([]) == Failure(MissingColumn("id"))
  {
  }
}
