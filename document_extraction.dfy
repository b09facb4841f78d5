/** Batch extraction of uploaded files into metadata-tagged chunks:
    `cached_process_documents` and `process_documents` of
    src/data_processing.py. The PDF, CSV and UTF-8 parsers are library code
    and enter the model as parameters. */
module DocumentExtraction {

  import opened Wrappers
  import opened Strings

  newtype byte = x: int | 0 <= x < 256

  type Bytes = seq<byte>

  /** Where a chunk sits in its file: a 1-based PDF page, a 1-based CSV data
      row, or the whole file for plain text. */
  datatype Position = Whole | Page(page: nat) | Row(row: nat)

  datatype Metadata = Metadata(source: string, position: Position)

  /** A `Document` with its `page_content` and `metadata`. */
  datatype Document = Document(pageContent: string, metadata: Metadata)

  /** The library parsers, as total functions of the file's bytes.
      - pdfPages: the text of each page in page order (an empty string for a
        page without text), up to the first page whose reading raised; all
        pages when none did, none when the reader itself could not be built.
      - csvRows: the data rows below the header with every cell already
        stringified, or None when reading the table raised; rows are read
        under the default integer index.
      - utf8: the decoded text, or None when decoding raised. */
  datatype Parsers = Parsers(
    pdfPages: Bytes -> seq<string>,
    csvRows: Bytes -> Option<seq<seq<string>>>,
    utf8: Bytes -> Option<string>)

  predicate EndsWith(s: string, suffix: string)
  {
    |suffix| <= |s| && s[|s| - |suffix|..] == suffix
  }

  datatype Kind = Pdf | Csv | Txt | Unsupported

  /** The suffix dispatch, in the order the source tests the suffixes. */
  function KindOf(name: string): Kind
  {
    if EndsWith(name, ".pdf") then Pdf
    else if EndsWith(name, ".csv") then Csv
    else if EndsWith(name, ".txt") then Txt
    else Unsupported
  }

  // ---------------------------------------------------------------------
  // Specification of the assembly

  /** One chunk per page that has text, tagged with its 1-based number. */
  function PageChunks(name: string, pages: seq<string>): seq<Document>
  {
    if pages == [] then []
    else
      var last := |pages| - 1;
      PageChunks(name, pages[..last])
        + (if pages[last] != "" then [Document(pages[last], Metadata(name, Page(last + 1)))] else [])
  }

  /** One chunk per data row: its cells joined by single spaces, tagged with
      its 1-based number. */
  function RowChunks(name: string, rows: seq<seq<string>>): seq<Document>
  {
    if rows == [] then []
    else
      var last := |rows| - 1;
      RowChunks(name, rows[..last]) + [Document(Join(" ", rows[last]), Metadata(name, Row(last + 1)))]
  }

  /** What one `(name, content)` pair contributes to the batch. */
  function FileChunks(name: string, content: Bytes, parsers: Parsers): seq<Document>
  {
    match KindOf(name)
    case Pdf => PageChunks(name, parsers.pdfPages(content))
    case Csv =>
      (match parsers.csvRows(content)
       case None => []
       case Some(rows) => RowChunks(name, rows))
    case Txt =>
      (match parsers.utf8(content)
       case None => []
       case Some(text) => [Document(text, Metadata(name, Whole))])
    case Unsupported => []
  }

  /** The chunks of a whole batch: each file's chunks, in input order. */
  function Assemble(fileData: seq<(string, Bytes)>, parsers: Parsers): seq<Document>
  {
    FlatMap(fileData, (entry: (string, Bytes)) => FileChunks(entry.0, entry.1, parsers))
  }

  // ---------------------------------------------------------------------
  // The operations

  /** `cached_process_documents`: walks the batch once, appending chunks. */
  method CachedProcessDocuments(fileData: seq<(string, Bytes)>, parsers: Parsers)
    returns (documents: seq<Document>)
    ensures documents == Assemble(fileData, parsers)
  {
    documents := [];
    for i := 0 to |fileData|
      invariant documents == Assemble(fileData[..i], parsers)
    {
      var (name, content) := fileData[i];
      AssembleSnoc(fileData, i, parsers);
      if EndsWith(name, ".pdf") {
        var pages := parsers.pdfPages(content);
        for pageNum := 0 to |pages|
          invariant documents == Assemble(fileData[..i], parsers) + PageChunks(name, pages[..pageNum])
        {
          var text := pages[pageNum];
          assert pages[..pageNum + 1][..pageNum] == pages[..pageNum];
          if text != "" {
            documents := documents + [Document(text, Metadata(name, Page(pageNum + 1)))];
          }
        }
        assert pages[..|pages|] == pages;
      } else if EndsWith(name, ".csv") {
        var table := parsers.csvRows(content);
        if table.Some? {
          var rows := table.value;
          for index := 0 to |rows|
            invariant documents == Assemble(fileData[..i], parsers) + RowChunks(name, rows[..index])
          {
            var text := Join(" ", rows[index]);
            assert rows[..index + 1][..index] == rows[..index];
            documents := documents + [Document(text, Metadata(name, Row(index + 1)))];
          }
          assert rows[..|rows|] == rows;
        }
      } else if EndsWith(name, ".txt") {
        var decoded := parsers.utf8(content);
        if decoded.Some? {
          documents := documents + [Document(decoded.value, Metadata(name, Whole))];
        }
      }
      assert documents == Assemble(fileData[..i], parsers) + FileChunks(name, content, parsers);
    }
    assert fileData[..|fileData|] == fileData;
  }

  /** An uploaded file; `value` is None when reading its bytes raised. */
  datatype UploadedFile = UploadedFile(name: string, value: Option<Bytes>)

  /** The batch `process_documents` hands on: the readable files, in order,
      with lower-cased names. */
  function FileData(files: seq<UploadedFile>): seq<(string, Bytes)>
  {
    if files == [] then []
    else
      var last := |files| - 1;
      FileData(files[..last])
        + (match files[last].value
           case None => []
           case Some(content) => [(ToLower(files[last].name), content)])
  }

  /** `process_documents`: collects the readable files, then assembles. */
  method ProcessDocuments(files: seq<UploadedFile>, parsers: Parsers)
    returns (documents: seq<Document>)
    ensures documents == Assemble(FileData(files), parsers)
  {
    var fileData := [];
    for i := 0 to |files|
      invariant fileData == FileData(files[..i])
    {
      assert files[..i + 1][..i] == files[..i];
      var uploaded := files[i];
      if uploaded.value.Some? {
        fileData := fileData + [(ToLower(uploaded.name), uploaded.value.value)];
      }
    }
    assert files[..|files|] == files;
    documents := CachedProcessDocuments(fileData, parsers);
  }

  // ---------------------------------------------------------------------
  // Properties of the assembly

  /** One more file appends exactly its own chunks. */
  lemma AssembleSnoc(fileData: seq<(string, Bytes)>, i: nat, parsers: Parsers)
    requires i < |fileData|
    ensures Assemble(fileData[..i + 1], parsers)
      == Assemble(fileData[..i], parsers) + FileChunks(fileData[i].0, fileData[i].1, parsers)
  {
    assert fileData[..i + 1][..i] == fileData[..i];
  }

  /** Assembly distributes over concatenation of batches: the chunks of
      earlier files come first, those of later files after. */
  lemma AssembleConcat(a: seq<(string, Bytes)>, b: seq<(string, Bytes)>, parsers: Parsers)
    ensures Assemble(a + b, parsers) == Assemble(a, parsers) + Assemble(b, parsers)
  {
    FlatMapConcat(a, b, (entry: (string, Bytes)) => FileChunks(entry.0, entry.1, parsers));
  }

  /** A file that contributes nothing (unsupported, or failed to parse)
      leaves the files around it contributing exactly what they would
      without it. */
  lemma SkippedFile(a: seq<(string, Bytes)>, name: string, content: Bytes, b: seq<(string, Bytes)>, parsers: Parsers)
    requires FileChunks(name, content, parsers) == []
    ensures Assemble(a + [(name, content)] + b, parsers) == Assemble(a, parsers) + Assemble(b, parsers)
  {
    AssembleConcat(a + [(name, content)], b, parsers);
    AssembleConcat(a, [(name, content)], parsers);
    assert [(name, content)][..0] == [];
  }

  predicate HasText(page: string)
  {
    page != ""
  }

  /** The page chunks are exactly the pages with text, in page order, each
      tagged with its 1-based page number. */
  lemma {:induction false} PageChunksSpec(name: string, pages: seq<string>)
    ensures var r := PageChunks(name, pages);
      && |r| == Count(pages, HasText)
      && (forall k :: 0 <= k < |r| ==>
            && r[k].metadata.source == name
            && r[k].metadata.position.Page?
            && 1 <= r[k].metadata.position.page <= |pages|
            && r[k].pageContent == pages[r[k].metadata.position.page - 1]
            && r[k].pageContent != "")
      && (forall k, l :: 0 <= k < l < |r| ==> r[k].metadata.position.page < r[l].metadata.position.page)
  {
    if pages != [] {
      var last := |pages| - 1;
      PageChunksSpec(name, pages[..last]);
      assert pages[..last] + [pages[last]] == pages;
      CountSnoc(pages[..last], pages[last], HasText);
    }
  }

  /** Every page with text has its chunk. */
  lemma {:induction false} PageChunksComplete(name: string, pages: seq<string>, j: nat)
    requires j < |pages| && pages[j] != ""
    ensures Document(pages[j], Metadata(name, Page(j + 1))) in PageChunks(name, pages)
  {
    var last := |pages| - 1;
    if j < last {
      PageChunksComplete(name, pages[..last], j);
    }
  }

  /** A PDF adds nothing exactly when none of its pages has text. */
  lemma {:induction false} PageChunksEmpty(name: string, pages: seq<string>)
    ensures PageChunks(name, pages) == [] <==> forall j :: 0 <= j < |pages| ==> pages[j] == ""
  {
    if pages != [] {
      var last := |pages| - 1;
      PageChunksEmpty(name, pages[..last]);
    }
  }

  /** Row `i` of the table becomes chunk `i`: its cells joined by single
      spaces, tagged with row number `i + 1`. */
  lemma {:induction false} RowChunksSpec(name: string, rows: seq<seq<string>>)
    ensures |RowChunks(name, rows)| == |rows|
    ensures forall i :: 0 <= i < |rows| ==>
      RowChunks(name, rows)[i] == Document(Join(" ", rows[i]), Metadata(name, Row(i + 1)))
  {
    if rows != [] {
      var last := |rows| - 1;
      RowChunksSpec(name, rows[..last]);
    }
  }

  /** When a file contributes nothing: its suffix is unsupported, its parser
      failed, its PDF pages have no text, or its table has no rows. */
  lemma FileChunksEmpty(name: string, content: Bytes, parsers: Parsers)
    ensures FileChunks(name, content, parsers) == [] <==>
      match KindOf(name)
      case Pdf => forall j :: 0 <= j < |parsers.pdfPages(content)| ==> parsers.pdfPages(content)[j] == ""
      case Csv => parsers.csvRows(content).None? || parsers.csvRows(content).value == []
      case Txt => parsers.utf8(content).None?
      case Unsupported => true
  {
    match KindOf(name)
    case Pdf => PageChunksEmpty(name, parsers.pdfPages(content));
    case Csv =>
      if parsers.csvRows(content).Some? {
        RowChunksSpec(name, parsers.csvRows(content).value);
      }
    case Txt =>
    case Unsupported =>
  }

  /** A chunk names its own file as source, and its position kind matches
      the file's kind. */
  predicate ChunkOf(d: Document, name: string)
  {
    && d.metadata.source == name
    && match KindOf(name)
       case Pdf => d.metadata.position.Page?
       case Csv => d.metadata.position.Row?
       case Txt => d.metadata.position.Whole?
       case Unsupported => false
  }

  lemma FileChunksOrigin(name: string, content: Bytes, parsers: Parsers)
    ensures forall d | d in FileChunks(name, content, parsers) :: ChunkOf(d, name)
  {
    match KindOf(name)
    case Pdf => PageChunksSpec(name, parsers.pdfPages(content));
    case Csv =>
      if parsers.csvRows(content).Some? {
        RowChunksSpec(name, parsers.csvRows(content).value);
      }
    case Txt =>
    case Unsupported =>
  }

  /** Every chunk of a batch comes from a supported file of that batch. */
  lemma {:induction false} AssembleOrigin(fileData: seq<(string, Bytes)>, parsers: Parsers)
    ensures forall d | d in Assemble(fileData, parsers) ::
      exists i :: 0 <= i < |fileData| && ChunkOf(d, fileData[i].0)
  {
    if fileData != [] {
      var last := |fileData| - 1;
      AssembleOrigin(fileData[..last], parsers);
      FileChunksOrigin(fileData[last].0, fileData[last].1, parsers);
      forall d | d in Assemble(fileData, parsers)
        ensures exists i :: 0 <= i < |fileData| && ChunkOf(d, fileData[i].0)
      {
        if d in Assemble(fileData[..last], parsers) {
          var i :| 0 <= i < last && ChunkOf(d, fileData[..last][i].0);
          assert fileData[..last][i] == fileData[i];
        } else {
          assert ChunkOf(d, fileData[last].0);
        }
      }
    }
  }

  /** `process_documents` only ever hands on lower-cased names. */
  lemma {:induction false} FileDataLowerCase(files: seq<UploadedFile>)
    ensures forall i :: 0 <= i < |FileData(files)| ==> NoUpper(FileData(files)[i].0)
  {
    if files != [] {
      var last := |files| - 1;
      FileDataLowerCase(files[..last]);
      ToLowerNoUpper(files[last].name);
    }
  }

  /** So every chunk it returns names a lower-cased source. */
  lemma ProcessedSourcesLowerCase(files: seq<UploadedFile>, parsers: Parsers)
    ensures forall d | d in Assemble(FileData(files), parsers) :: NoUpper(d.metadata.source)
  {
    FileDataLowerCase(files);
    AssembleOrigin(FileData(files), parsers);
  }

  lemma AssembleSingle(name: string, content: Bytes, parsers: Parsers)
    ensures Assemble([(name, content)], parsers) == FileChunks(name, content, parsers)
  {
    var single := [(name, content)];
    var f := (entry: (string, Bytes)) => FileChunks(entry.0, entry.1, parsers);
    assert single[..0] == [];
    assert FlatMap(single, f) == FlatMap(single[..0], f) + f(single[0]);
  }

  // ---------------------------------------------------------------------
  // The batches of test/test_data_processing.py

  /** A one-page PDF whose page has no text yields no chunk. */
  lemma BlankPdfExample(parsers: Parsers, content: Bytes)
    requires parsers.pdfPages(content) == [""]
    ensures Assemble([("dummy.pdf", content)], parsers) == []
  {
    AssembleSingle("dummy.pdf", content, parsers);
    assert "dummy.pdf"[5..] == ".pdf";
    assert PageChunks("dummy.pdf", [""]) == PageChunks("dummy.pdf", []);
  }

  /** The CSV "col1,col2\nvalue1,value2\n" has one data row. */
  lemma CsvExample(parsers: Parsers, content: Bytes)
    requires parsers.csvRows(content) == Some([["value1", "value2"]])
    ensures Assemble([("test.csv", content)], parsers)
      == [Document("value1 value2", Metadata("test.csv", Row(1)))]
  {
    AssembleSingle("test.csv", content, parsers);
    assert "test.csv"[4..] == ".csv";
    assert !EndsWith("test.csv", ".pdf");
    assert Join(" ", ["value1", "value2"]) == "value1 value2";
  }

  /** The text file "Hello, this is a test." becomes one whole-file chunk. */
  lemma TxtExample(parsers: Parsers, content: Bytes)
    requires parsers.utf8(content) == Some("Hello, this is a test.")
    ensures Assemble([("test.txt", content)], parsers)
      == [Document("Hello, this is a test.", Metadata("test.txt", Whole))]
  {
    AssembleSingle("test.txt", content, parsers);
    assert "test.txt"[4..] == ".txt";
    assert !EndsWith("test.txt", ".pdf");
    assert !EndsWith("test.txt", ".csv");
  }
}
