/** The row pipeline of `scripts/prepare_flipkart_dataset.py`: the embedding
    text of a row, the two length filters, de-duplication and the output id.
    Reading and writing the CSV and JSON-lines files is not modelled; a table
    is a sequence of rows, in file order. */
module PreparePipeline {
  import opened Wrappers
  import opened Text
  import opened Sequences

  /** A row after the cleaning steps: the text columns already passed through
      `clean_text_basic` (and the category and specification parsers), the
      identifiers None where the cell is missing. */
  datatype Row = Row(
    pid: Option<string>,
    uniqId: Option<string>,
    productName: string,
    brand: string,
    categoryPath: string,
    productUrl: string,
    description: string,
    specText: string)

  // ---------------------------------------------------------------------
  // build_embedding_text

  /** The lines of the embedding text, in the order they are emitted. */
  datatype Section = ProductLine | BrandLine | CategoryLine | DescriptionLine | SpecificationsLine

  function Rank(sec: Section): nat {
    match sec
    case ProductLine => 0
    case BrandLine => 1
    case CategoryLine => 2
    case DescriptionLine => 3
    case SpecificationsLine => 4
  }

  function LinePrefix(sec: Section): string {
    match sec
    case ProductLine => "Product: "
    case BrandLine => "Brand: "
    case CategoryLine => "Category: "
    case DescriptionLine => "Description: "
    case SpecificationsLine => "Specifications: "
  }

  function Field(row: Row, sec: Section): string {
    match sec
    case ProductLine => row.productName
    case BrandLine => row.brand
    case CategoryLine => row.categoryPath
    case DescriptionLine => row.description
    case SpecificationsLine => row.specText
  }

  /** A line is emitted when its field is non-empty; the brand line also needs
      a brand other than "nan" in any letter case. */
  predicate Included(row: Row, sec: Section) {
    Field(row, sec) != "" && (sec == BrandLine ==> Lower(row.brand) != "nan")
  }

  const AllSections: seq<Section> := [ProductLine, BrandLine, CategoryLine, DescriptionLine, SpecificationsLine]

  predicate RankOrdered(secs: seq<Section>) {
    forall i, j :: 0 <= i < j < |secs| ==> Rank(secs[i]) < Rank(secs[j])
  }

  /** The section, as a one-element list, when its line is emitted. */
  function IfIncluded(row: Row, sec: Section): seq<Section> {
    if Included(row, sec) then [sec] else []
  }

  /** The sections of `secs` whose lines are emitted, in order. */
  function Select(row: Row, secs: seq<Section>): seq<Section> {
    if secs == [] then []
    else Select(row, secs[..|secs| - 1]) + IfIncluded(row, secs[|secs| - 1])
  }

  lemma {:induction false} SelectProps(row: Row, secs: seq<Section>)
    ensures forall x :: x in Select(row, secs) <==> x in secs && Included(row, x)
    ensures RankOrdered(secs) ==> RankOrdered(Select(row, secs))
  {
    if secs != [] {
      var init := secs[..|secs| - 1];
      var last := secs[|secs| - 1];
      assert secs == init + [last];
      SelectProps(row, init);
      var sel := Select(row, init);
      if RankOrdered(secs) && Included(row, last) {
        assert RankOrdered(init);
        forall j | 0 <= j < |sel| ensures Rank(sel[j]) < Rank(last) {
          assert sel[j] in init;
        }
      }
    }
  }

  lemma AllSectionsComplete()
    ensures forall sec: Section :: sec in AllSections
  {
    forall sec: Section ensures sec in AllSections {
      match sec
      case ProductLine => assert AllSections[0] == sec;
      case BrandLine => assert AllSections[1] == sec;
      case CategoryLine => assert AllSections[2] == sec;
      case DescriptionLine => assert AllSections[3] == sec;
      case SpecificationsLine => assert AllSections[4] == sec;
    }
  }

  /** The lines emitted for a row. */
  function EmittedSections(row: Row): seq<Section> {
    Select(row, AllSections)
  }

  /** Exactly the included lines are emitted, each once, in the fixed order
      Product, Brand, Category, Description, Specifications. */
  lemma EmittedSectionsProps(row: Row)
    ensures forall sec :: sec in EmittedSections(row) <==> Included(row, sec)
    ensures RankOrdered(EmittedSections(row))
  {
    SelectProps(row, AllSections);
    AllSectionsComplete();
  }

  function Line(row: Row, sec: Section): string {
    LinePrefix(sec) + Field(row, sec)
  }

  /** The text lines for the given sections, in their order. */
  function LinesOf(row: Row, secs: seq<Section>): (lines: seq<string>)
    ensures |lines| == |secs|
  {
    seq(|secs|, i requires 0 <= i < |secs| => Line(row, secs[i]))
  }

  lemma LinesOfAppend(row: Row, secs: seq<Section>, sec: Section)
    ensures LinesOf(row, secs + [sec]) == LinesOf(row, secs) + [Line(row, sec)]
  {
  }

  function Lines(row: Row): (lines: seq<string>)
    ensures |lines| == |EmittedSections(row)|
  {
    LinesOf(row, EmittedSections(row))
  }

  /** `build_embedding_text`. */
  function EmbeddingText(row: Row): (text: string)
    ensures IsStripped(text)
    ensures EmittedSections(row) == [] ==> text == ""
  {
    Strip(Join(Lines(row), "\n"))
  }

  /** The columns the embedding text is built from, as `clean_text_basic`
      leaves them: without surrounding whitespace. */
  predicate FieldsStripped(row: Row) {
    forall sec: Section :: IsStripped(Field(row, sec))
  }

  /** Every line starts with the label of its section, which starts with a
      letter, so no line is empty or starts with whitespace. */
  lemma LinesStartWithLabel(row: Row)
    ensures forall i :: 0 <= i < |Lines(row)| ==>
      StartsWith(Lines(row)[i], LinePrefix(EmittedSections(row)[i]))
    ensures forall i :: 0 <= i < |Lines(row)| ==> Lines(row)[i] != [] && !IsSpace(Lines(row)[i][0])
  {
    var lines := Lines(row);
    var secs := EmittedSections(row);
    forall i | 0 <= i < |lines|
      ensures StartsWith(lines[i], LinePrefix(secs[i]))
      ensures lines[i] != [] && !IsSpace(lines[i][0])
    {
      assert lines[i] == LinePrefix(secs[i]) + Field(row, secs[i]);
      assert lines[i][..|LinePrefix(secs[i])|] == LinePrefix(secs[i]);
      assert lines[i][0] == LinePrefix(secs[i])[0];
    }
  }

  /** The line of an included, stripped field ends with the field's last
      character, which is not whitespace. */
  lemma LineEnds(row: Row, sec: Section)
    requires Included(row, sec) && IsStripped(Field(row, sec))
    ensures var line := Line(row, sec); line != [] && !IsSpace(line[|line| - 1])
  {
    var f := Field(row, sec);
    var line := Line(row, sec);
    assert line[|line| - 1] == f[|f| - 1];
  }

  /** For cleaned columns the last line does not end in whitespace. */
  lemma LastLineEnds(row: Row)
    requires FieldsStripped(row) && Lines(row) != []
    ensures var last := Lines(row)[|Lines(row)| - 1]; last != [] && !IsSpace(last[|last| - 1])
  {
    var secs := EmittedSections(row);
    var sec := secs[|secs| - 1];
    EmittedSectionsProps(row);
    assert sec in secs;
    assert Lines(row)[|secs| - 1] == Line(row, sec);
    LineEnds(row, sec);
  }


  /** For cleaned columns the joined lines have nothing to strip. */
  lemma JoinedLinesStripped(row: Row)
    requires FieldsStripped(row)
    ensures IsStripped(Join(Lines(row), "\n"))
  {
    var lines := Lines(row);
    if lines != [] {
      LinesStartWithLabel(row);
      LastLineEnds(row);
      JoinStart(lines, "\n");
      JoinEnd(lines, "\n");
    }
  }

  /** For cleaned columns the final strip changes nothing: the text is the
      emitted lines joined by newlines, each line at its join offset. */
  lemma EmbeddingTextIsJoin(row: Row)
    requires FieldsStripped(row)
    ensures EmbeddingText(row) == Join(Lines(row), "\n")
    ensures forall i :: 0 <= i < |Lines(row)| ==>
      OccursAt(Lines(row)[i], EmbeddingText(row), JoinOffset(Lines(row), "\n", i))
  {
    var lines := Lines(row);
    var j := Join(lines, "\n");
    JoinedLinesStripped(row);
    StripStripped(j);
    forall i | 0 <= i < |lines| ensures OccursAt(lines[i], j, JoinOffset(lines, "\n", i)) {
      JoinPlacesParts(lines, "\n", i);
    }
  }

  lemma SelectSnoc(row: Row, init: seq<Section>, sec: Section)
    ensures Select(row, init + [sec]) == Select(row, init) + IfIncluded(row, sec)
  {
    assert (init + [sec])[..|init|] == init;
  }

  lemma EmittedSectionsUnfold(row: Row)
    ensures EmittedSections(row) ==
      IfIncluded(row, ProductLine) + IfIncluded(row, BrandLine) + IfIncluded(row, CategoryLine)
      + IfIncluded(row, DescriptionLine) + IfIncluded(row, SpecificationsLine)
  {
    var s1: seq<Section> := [ProductLine];
    var s2 := s1 + [BrandLine];
    var s3 := s2 + [CategoryLine];
    var s4 := s3 + [DescriptionLine];
    assert AllSections == s4 + [SpecificationsLine];
    assert s1 == [] + [ProductLine];
    SelectSnoc(row, [], ProductLine);
    SelectSnoc(row, s1, BrandLine);
    SelectSnoc(row, s2, CategoryLine);
    SelectSnoc(row, s3, DescriptionLine);
    SelectSnoc(row, s4, SpecificationsLine);
  }


  /** `build_embedding_text`, as the source computes it: append each line
      whose field is set, then join and strip. */
  method BuildEmbeddingText(row: Row) returns (text: string)
    ensures text == EmbeddingText(row)
  {
    var chunks: seq<string> := [];
    ghost var secs: seq<Section> := [];
    if row.productName != "" {
      LinesOfAppend(row, secs, ProductLine);
      chunks, secs := chunks + ["Product: " + row.productName], secs + [ProductLine];
    }
    ghost var due := IfIncluded(row, ProductLine);
    assert chunks == LinesOf(row, secs) && secs == due;
    if row.brand != "" && Lower(row.brand) != "nan" {
      LinesOfAppend(row, secs, BrandLine);
      chunks, secs := chunks + ["Brand: " + row.brand], secs + [BrandLine];
    }
    due := due + IfIncluded(row, BrandLine);
    assert chunks == LinesOf(row, secs) && secs == due;
    if row.categoryPath != "" {
      LinesOfAppend(row, secs, CategoryLine);
      chunks, secs := chunks + ["Category: " + row.categoryPath], secs + [CategoryLine];
    }
    due := due + IfIncluded(row, CategoryLine);
    assert chunks == LinesOf(row, secs) && secs == due;
    if row.description != "" {
      LinesOfAppend(row, secs, DescriptionLine);
      chunks, secs := chunks + ["Description: " + row.description], secs + [DescriptionLine];
    }
    due := due + IfIncluded(row, DescriptionLine);
    assert chunks == LinesOf(row, secs) && secs == due;
    if row.specText != "" {
      LinesOfAppend(row, secs, SpecificationsLine);
      chunks, secs := chunks + ["Specifications: " + row.specText], secs + [SpecificationsLine];
    }
    due := due + IfIncluded(row, SpecificationsLine);
    assert chunks == LinesOf(row, secs) && secs == due;
    EmittedSectionsUnfold(row);
    text := Strip(Join(chunks, "\n"));
  }

  // ---------------------------------------------------------------------
  // the pipeline

  /** A row with its embedding text. */
  datatype Embedded = Embedded(row: Row, text: string)

  /** A row of the exported table. */
  datatype Prepared = Prepared(id: string, embeddingText: string, row: Row)

  /** `df["product_name"].str.len() > 3` */
  predicate NameLongEnough(r: Row) {
    |r.productName| > 3
  }

  /** `df["embedding_text"].str.len() > 80` */
  predicate TextLongEnough(e: Embedded) {
    |e.text| > 80
  }

  /** `df["pid"].fillna(df["uniq_id"]).astype(str)`: a missing uniq_id too
      reads as "nan". */
  function ExportId(r: Row): (id: string)
    ensures r.pid.Some? ==> id == r.pid.value
    ensures r.pid.None? && r.uniqId.Some? ==> id == r.uniqId.value
  {
    match r.pid
    case Some(p) => p
    case None => match r.uniqId case Some(u) => u case None => "nan"
  }

  /** `build_embedding_text` applied to one row. */
  function EmbedRow(row: Row): Embedded {
    Embedded(row, EmbeddingText(row))
  }

  /** `df["embedding_text"] = df.apply(build_embedding_text, axis=1)` */
  function Embed(rows: seq<Row>): seq<Embedded> {
    Map(rows, EmbedRow)
  }

  /** One row of the export table: the id and the columns it keeps. */
  function ExportRow(e: Embedded): Prepared {
    Prepared(ExportId(e.row), e.text, e.row)
  }

  function Export(es: seq<Embedded>): seq<Prepared> {
    Map(es, ExportRow)
  }

  function PidKey(e: Embedded): Option<string> { e.row.pid }

  /** The rows that survive both length filters, with their text. */
  function Candidates(rows: seq<Row>): seq<Embedded> {
    Filter(Embed(Filter(rows, NameLongEnough)), TextLongEnough)
  }

  /** The exported table. Without a pid column the export's `df["pid"]`
      raises KeyError. */
  function Prepare(rows: seq<Row>, hasPidColumn: bool): (r: Result<seq<Prepared>, string>)
    ensures r.Success? <==> hasPidColumn
    ensures r.Success? ==> |r.value| <= |rows|
  {
    if !hasPidColumn then Failure("KeyError: 'pid'")
    else Success(Export(KeepFirst(Candidates(rows), PidKey)))
  }

  /** Lines 173-235 of the script, reassigning the table step by step. */
  method PrepareRows(rows: seq<Row>, hasPidColumn: bool) returns (r: Result<seq<Prepared>, string>)
    ensures r == Prepare(rows, hasPidColumn)
  {
    var df := KeepWhere(rows, NameLongEnough);
    var embedded := Embed(df);
    embedded := KeepWhere(embedded, TextLongEnough);
    assert embedded == Candidates(rows);
    if hasPidColumn {
      embedded := DropDuplicates(embedded, PidKey);
    } else {
      embedded := DropDuplicates(embedded, (e: Embedded) => e.row.productUrl);
    }
    if !hasPidColumn {
      return Failure("KeyError: 'pid'");
    }
    return Success(Export(embedded));
  }

  /** A row of the input with a long enough name, paired with its own
      embedding text, long enough. */
  predicate ValidCandidate(rows: seq<Row>, e: Embedded) {
    e.row in rows && NameLongEnough(e.row) && e.text == EmbeddingText(e.row) && TextLongEnough(e)
  }

  /** What survives both filters is made of valid candidates. */
  lemma CandidatesProperties(rows: seq<Row>)
    ensures forall e :: e in Candidates(rows) ==> ValidCandidate(rows, e)
  {
    var named := Filter(rows, NameLongEnough);
    var embedded := Embed(named);
    forall c | c in Candidates(rows) ensures ValidCandidate(rows, c) {
      assert c in embedded;
      var j :| 0 <= j < |embedded| && embedded[j] == c;
      assert c.row == named[j];
    }
  }

  /** Without a pid column the export fails. */
  lemma PrepareNeedsPid(rows: seq<Row>)
    ensures Prepare(rows, false).Failure?
  {
  }

  /** Every exported row is a row of the input with a product name longer
      than 3 characters and its own embedding text, longer than 80. */
  lemma PrepareRowsValid(rows: seq<Row>)
    ensures forall i :: 0 <= i < |Prepare(rows, true).value| ==>
      var p := Prepare(rows, true).value[i];
      p.row in rows && |p.row.productName| > 3
      && p.embeddingText == EmbeddingText(p.row) && |p.embeddingText| > 80
  {
    var cands := Candidates(rows);
    var kept := KeepFirst(cands, PidKey);
    var out := Export(kept);
    assert Prepare(rows, true).value == out;
    KeepFirstFrom(cands, PidKey);
    CandidatesProperties(rows);
    forall i | 0 <= i < |out|
      ensures out[i].row in rows && |out[i].row.productName| > 3
      ensures out[i].embeddingText == EmbeddingText(out[i].row) && |out[i].embeddingText| > 80
    {
      assert kept[i] in cands;
      assert ValidCandidate(rows, kept[i]);
      assert out[i] == ExportRow(kept[i]);
    }
  }

  /** No two exported rows share a pid. */
  lemma PrepareUniquePids(rows: seq<Row>)
    ensures forall i, j :: 0 <= i < j < |Prepare(rows, true).value| ==>
      Prepare(rows, true).value[i].row.pid != Prepare(rows, true).value[j].row.pid
  {
    var kept := KeepFirst(Candidates(rows), PidKey);
    var out := Export(kept);
    KeepFirstDistinct(Candidates(rows), PidKey);
    forall i, j | 0 <= i < j < |out| ensures out[i].row.pid != out[j].row.pid {
      assert PidKey(kept[i]) != PidKey(kept[j]);
    }
  }

  function EmbeddedRow(e: Embedded): Row { e.row }

  function PreparedRow(p: Prepared): Row { p.row }

  /** The exported rows appear in the order of the input: dropping rows never
      reorders the ones that stay. */
  lemma PrepareInOrder(rows: seq<Row>)
    ensures Subsequence(Map(Prepare(rows, true).value, PreparedRow), rows)
  {
    var named := Filter(rows, NameLongEnough);
    var embedded := Embed(named);
    var cands := Candidates(rows);
    var kept := KeepFirst(cands, PidKey);
    var out := Export(kept);
    assert Prepare(rows, true).value == out;
    FilterSubsequence(rows, NameLongEnough);
    assert Map(embedded, EmbeddedRow) == named;
    FilterSubsequence(embedded, TextLongEnough);
    SubsequenceMap(cands, embedded, EmbeddedRow);
    SubsequenceTrans(Map(cands, EmbeddedRow), named, rows);
    KeepFirstSubsequence(cands, PidKey);
    SubsequenceMap(kept, cands, EmbeddedRow);
    SubsequenceTrans(Map(kept, EmbeddedRow), Map(cands, EmbeddedRow), rows);
    assert Map(out, PreparedRow) == Map(kept, EmbeddedRow);
  }

  /** Every row that passes both filters and is the first of those with its
      pid is exported. */
  lemma PrepareKeepsFirsts(rows: seq<Row>, k: nat)
    requires k < |Candidates(rows)| && FirstWithKey(Candidates(rows), PidKey, k)
    ensures exists i ::
      0 <= i < |Prepare(rows, true).value| && Prepare(rows, true).value[i].row == Candidates(rows)[k].row
  {
    var cands := Candidates(rows);
    var kept := KeepFirst(cands, PidKey);
    var out := Export(kept);
    KeepFirstKeepsFirsts(cands, PidKey, k);
    var i :| 0 <= i < |kept| && kept[i] == cands[k];
    assert Prepare(rows, true).value == out;
    assert out[i].row == cands[k].row;
  }
}
