/**
 * The upload step: which file names are accepted, which candidate table is
 * kept, whether its first row is a header, and the preview rows built from
 * it, with the four metadata columns in front.
 */
module Upload {
  import opened Text
  import opened Optional
  import opened Identifier
  import opened Headers
  import opened Metadata
  import opened Extraction

  /** The configuration the upload runs with. */
  const AllowedExtensions: set<string> := {"pdf"}
  const PagesToScanForMetadata: nat := 3
  const MaxPagesForTableExtraction: nat := 20
  const MaxPreviewRows: nat := 10

  /* ---------------------------------------------------------------------- */
  /* allowed_file                                                            */

  /** `filename.rsplit(".", 1)[1]`: the text after the last dot, if there is a dot. */
  function Extension(filename: string): (e: Option<string>)
    ensures e.None? <==> '.' !in filename
    ensures e.Some? ==> '.' !in e.value && |e.value| < |filename|
    ensures e.Some? ==> filename[|filename| - |e.value| - 1] == '.' && filename[|filename| - |e.value|..] == e.value
  {
    var i := LastIndexOf(filename, '.');
    if i < 0 then None else Some(filename[i + 1..])
  }

  /** `allowed_file`: the file has an extension, and in lower case it is an allowed one. */
  predicate AllowedFile(filename: string, allowed: set<string>) {
    match Extension(filename)
    case None => false
    case Some(e) => Lower(e) in allowed
  }

  /** With the configured extensions, a file is accepted exactly when its name
      ends in `.pdf`, in any mix of upper and lower case. */
  lemma AllowedPdfFile(filename: string)
    ensures AllowedFile(filename, AllowedExtensions) <==>
              |filename| >= 4 && Lower(filename[|filename| - 4..]) == ".pdf"
  {
    if AllowedFile(filename, AllowedExtensions) {
      AllowedEndsInPdf(filename);
    }
    var n := |filename|;
    if n >= 4 && Lower(filename[n - 4..]) == ".pdf" {
      EndingInPdfAllowed(filename);
    }
  }

  lemma AllowedEndsInPdf(filename: string)
    requires AllowedFile(filename, AllowedExtensions)
    ensures |filename| >= 4 && Lower(filename[|filename| - 4..]) == ".pdf"
  {
    var n := |filename|;
    var e := Extension(filename).value;
    assert Lower(e) == "pdf";
    assert filename[n - 4..] == ['.'] + e;
    DotPdf(e);
  }

  /** A dot before an extension that lower-cases to `pdf` lower-cases to `.pdf`. */
  lemma DotPdf(e: string)
    requires Lower(e) == "pdf"
    ensures Lower(['.'] + e) == ".pdf"
  {
    var s := ['.'] + e;
    assert Lower(s)[0] == LowerChar('.');
    assert forall k :: 1 <= k < 4 ==> Lower(s)[k] == Lower(e)[k - 1];
  }

  lemma EndingInPdfAllowed(filename: string)
    requires |filename| >= 4 && Lower(filename[|filename| - 4..]) == ".pdf"
    ensures AllowedFile(filename, AllowedExtensions)
  {
    var n := |filename|;
    var s := filename[n - 4..];
    PdfSuffix(s);
    assert filename[n - 4] == s[0];
    assert filename[n - 3..] == s[1..];
    ExtensionAfter(filename, n - 4);
  }

  /** Four characters that lower-case to `.pdf` are a dot and then `pdf` in some case. */
  lemma PdfSuffix(s: string)
    requires |s| == 4 && Lower(s) == ".pdf"
    ensures s[0] == '.' && '.' !in s[1..] && Lower(s[1..]) == "pdf"
  {
    assert LowerChar(s[0]) == Lower(s)[0];
    forall k | 1 <= k < 4
      ensures s[k] != '.'
    {
      assert LowerChar(s[k]) == Lower(s)[k];
    }
    assert Lower(s[1..]) == Lower(s)[1..];
  }

  /** After the last dot comes the extension. */
  lemma ExtensionAfter(f: string, i: nat)
    requires i < |f| && f[i] == '.' && '.' !in f[i + 1..]
    ensures Extension(f) == Some(f[i + 1..])
  {
    var j := LastIndexOf(f, '.');
    assert j == i;
  }

  /* ---------------------------------------------------------------------- */
  /* choosing the table                                                      */

  /** `(rows, columns)` of `a` is lexicographically below that of `b`. */
  predicate Smaller(a: Table, b: Table) {
    |a.rows| < |b.rows| || (|a.rows| == |b.rows| && a.width < b.width)
  }

  /** What Python's `max` with a key returns: a greatest element, and the
      first of them, every earlier one being strictly smaller. */
  predicate IsStableMax(ts: seq<Table>, k: int) {
    && 0 <= k < |ts|
    && (forall j :: 0 <= j < |ts| ==> !Smaller(ts[k], ts[j]))
    && (forall j :: 0 <= j < k ==> Smaller(ts[j], ts[k]))
  }

  /** `max(tables, key=lambda d: (d.shape[0], d.shape[1]))`, as an index. */
  function SelectLargest(ts: seq<Table>): (k: nat)
    requires |ts| > 0
    ensures IsStableMax(ts, k)
    decreases |ts|
  {
    if |ts| == 1 then 0
    else
      var n := |ts| - 1;
      var k := SelectLargest(ts[..n]);
      assert forall j :: 0 <= j < n ==> ts[..n][j] == ts[j];
      if Smaller(ts[k], ts[n]) then n else k
  }

  /** There is only one such element: the choice among equally large tables
      is determined, the earliest wins. */
  lemma StableMaxUnique(ts: seq<Table>, a: int, b: int)
    requires IsStableMax(ts, a) && IsStableMax(ts, b)
    ensures a == b
  {
    assert !Smaller(ts[a], ts[b]) && !Smaller(ts[b], ts[a]);
  }

  /* ---------------------------------------------------------------------- */
  /* header or data                                                          */

  /** `str(cell)` of a first-row cell: a missing cell prints as `None`. */
  function CellString(c: Cell): string {
    match c
    case None => "None"
    case Some(s) => s
  }

  /** `best.iloc[0].astype(str).tolist()`. */
  function FirstRow(t: Table): (cells: seq<string>)
    requires |t.rows| > 0
    ensures |cells| == |t.rows[0]|
    ensures forall i :: 0 <= i < |cells| ==> cells[i] == CellString(t.rows[0][i])
  {
    seq(|t.rows[0]|, i requires 0 <= i < |t.rows[0]| => CellString(t.rows[0][i]))
  }

  /** A cell the heuristic counts as non-empty. */
  predicate IsFilled(x: string) {
    x != "" && Lower(x) != "none"
  }

  function FilledCount(cells: seq<string>): (n: nat)
    ensures n <= |cells|
    ensures n == 0 <==> forall i :: 0 <= i < |cells| ==> !IsFilled(cells[i])
    decreases |cells|
  {
    if |cells| == 0 then 0
    else
      var p := cells[..|cells| - 1];
      assert forall i :: 0 <= i < |p| ==> p[i] == cells[i];
      FilledCount(p) + (if IsFilled(cells[|cells| - 1]) then 1 else 0)
  }

  function Distinct(cells: seq<string>): set<string> {
    set i | 0 <= i < |cells| :: cells[i]
  }

  /** `len(set(cells))`. */
  function DistinctCount(cells: seq<string>): (n: nat)
    ensures |cells| > 0 ==> n >= 1
  {
    if |cells| > 0 then assert cells[0] in Distinct(cells); |Distinct(cells)|
    else |Distinct(cells)|
  }

  /** The header test: some cell is filled and at least `max(1, int(n * 0.5))`
      of the `n` cells are different. */
  predicate IsHeaderRow(cells: seq<string>) {
    |cells| > 0 && FilledCount(cells) >= 1 && DistinctCount(cells) >= Max(1, |cells| / 2)
  }

  lemma {:induction false} DistinctOfDistinct(cells: seq<string>)
    requires NoDuplicates(cells)
    ensures DistinctCount(cells) == |cells|
    decreases |cells|
  {
    if |cells| > 0 {
      var p := cells[..|cells| - 1];
      var x := cells[|cells| - 1];
      DistinctOfDistinct(p);
      assert Distinct(cells) == Distinct(p) + {x};
      assert x !in Distinct(p);
    }
  }

  /** A row of different cells, one of them filled, is a header. */
  lemma DistinctRowIsHeader(cells: seq<string>, k: nat)
    requires NoDuplicates(cells)
    requires k < |cells| && IsFilled(cells[k])
    ensures IsHeaderRow(cells)
  {
    DistinctOfDistinct(cells);
  }

  /** One filled word repeated is a header only up to three columns: the
      halving rounds down, so one distinct value suffices below four cells. */
  lemma RepeatedCellRow(cells: seq<string>, x: string)
    requires |cells| > 0 && IsFilled(x)
    requires forall i :: 0 <= i < |cells| ==> cells[i] == x
    ensures IsHeaderRow(cells) <==> |cells| <= 3
  {
    assert cells[0] == x && IsFilled(cells[0]);
    assert FilledCount(cells) >= 1;
    assert Distinct(cells) == {x} by {
      assert cells[0] in Distinct(cells);
    }
    assert DistinctCount(cells) == 1;
  }

  /** A first row with no cell at all is data. */
  lemma MissingCellsRowIsData(t: Table)
    requires |t.rows| > 0
    requires forall i :: 0 <= i < |t.rows[0]| ==> t.rows[0][i].None?
    ensures !IsHeaderRow(FirstRow(t))
  {
    assert Lower("None") == "none";
  }

  /* ---------------------------------------------------------------------- */
  /* splitting off the header                                                */

  /** The raw headers and the data rows of the chosen table. */
  datatype Layout = Layout(rawHeaders: seq<string>, data: seq<seq<Cell>>)

  /** `[f"col{i}" for i in range(1, n + 1)]`. */
  function DefaultHeaders(n: nat): (r: seq<string>)
    ensures |r| == n
    ensures forall i :: 0 <= i < n ==> r[i] == "col" + NatToString(i + 1)
  {
    seq(n, i requires 0 <= i < n => "col" + NatToString(i + 1))
  }

  /** The default headers are all different. */
  lemma DefaultHeadersDistinct(n: nat)
    ensures NoDuplicates(DefaultHeaders(n))
  {
    var r := DefaultHeaders(n);
    forall i, j | 0 <= i < j < n
      ensures r[i] != r[j]
    {
      if r[i] == r[j] {
        assert r[i][3..] == NatToString(i + 1);
        assert r[j][3..] == NatToString(j + 1);
        NatToStringInjective(i + 1, j + 1);
      }
    }
  }

  function SplitHeader(t: Table): (l: Layout)
    requires IsCandidate(t)
    ensures |l.rawHeaders| == t.width
    ensures forall i :: 0 <= i < |l.data| ==> |l.data[i]| == t.width
    // the header row, when there is one, and the data make up the table
    ensures t.rows == (if IsHeaderRow(FirstRow(t)) then [t.rows[0]] else []) + l.data
    ensures IsHeaderRow(FirstRow(t)) ==>
              forall i :: 0 <= i < t.width ==> l.rawHeaders[i] == Strip(CellString(t.rows[0][i]))
    ensures !IsHeaderRow(FirstRow(t)) ==> l.rawHeaders == DefaultHeaders(t.width)
  {
    var first := FirstRow(t);
    if IsHeaderRow(first) then
      BelowHeader(t);
      Layout(seq(t.width, i requires 0 <= i < t.width => Strip(first[i])), t.rows[1..])
    else
      Layout(DefaultHeaders(t.width), t.rows)
  }

  /** The rows under the first one are as wide as the table and follow it. */
  lemma BelowHeader(t: Table)
    requires IsCandidate(t)
    ensures t.rows == [t.rows[0]] + t.rows[1..]
    ensures forall i :: 0 <= i < |t.rows[1..]| ==> |t.rows[1..][i]| == t.width
  {
    assert forall i :: 0 <= i < |t.rows[1..]| ==> t.rows[1..][i] == t.rows[i + 1];
  }

  /* ---------------------------------------------------------------------- */
  /* preview rows                                                            */

  /** `fillna("").astype(str)` of a data cell. */
  function CellValue(c: Cell): string {
    match c
    case None => ""
    case Some(s) => s
  }

  /** A data row cut or padded with `""` to `n` cells, each cell stripped. */
  function ShapeRow(row: seq<Cell>, n: nat): (r: seq<string>)
    ensures |r| == n
    ensures forall i :: 0 <= i < n ==> NoSpaceAtEnds(r[i])
    ensures forall i :: |row| <= i < n ==> r[i] == ""
  {
    var cells := seq(n, i requires 0 <= i < n => if i < |row| then CellValue(row[i]) else "");
    seq(n, i requires 0 <= i < n => Strip(cells[i]))
  }

  /** A cell the row has is stripped. */
  lemma ShapeRowCell(row: seq<Cell>, n: nat, j: nat)
    requires j < n && j < |row|
    ensures ShapeRow(row, n)[j] == Strip(CellValue(row[j]))
  {
  }

  /** When the row is as wide as the header, shaping only strips its cells,
      and what it gives is shaped already. */
  lemma ShapeRowSameWidth(row: seq<Cell>)
    ensures var r := ShapeRow(row, |row|);
            forall i :: 0 <= i < |row| ==> r[i] == Strip(CellValue(row[i])) && Strip(r[i]) == r[i]
  {
    var r := ShapeRow(row, |row|);
    forall i | 0 <= i < |row|
      ensures Strip(r[i]) == r[i]
    {
      StripFixpoint(r[i]);
    }
  }

  const MetadataColumns: seq<string> := ["department", "class", "semester", "course_session"]

  function MetadataValues(md: Metadata): (v: seq<string>)
    ensures |v| == |MetadataColumns|
  {
    [md.department, md.cls, md.semester, md.courseSession]
  }

  datatype Preview = Preview(
    metadata: Metadata,
    rawHeaders: seq<string>,
    canonical: seq<string>,
    mapping: map<string, string>,
    columns: seq<string>,
    rows: seq<seq<string>>,
    previewRows: seq<seq<string>>)

  datatype UploadError =
    | MissingFile
    | EmptyFilename
    | OnlyPdfAllowed
    | NoTablesDetected
      /** `DataFrame.insert` raises: the column is there already. */
    | ColumnExists(column: string)

  /** Every preview row: the metadata values, then the shaped data row. */
  function PreviewRows(md: Metadata, data: seq<seq<Cell>>, n: nat): (rows: seq<seq<string>>)
    ensures |rows| == |data|
    ensures forall i :: 0 <= i < |rows| ==>
              |rows[i]| == |MetadataColumns| + n && rows[i][..4] == MetadataValues(md) && rows[i][4..] == ShapeRow(data[i], n)
  {
    seq(|data|, i requires 0 <= i < |data| => MetadataValues(md) + ShapeRow(data[i], n))
  }

  function Assemble(md: Metadata, l: Layout, s: Schema): (p: Preview)
    requires |s.canonical| == |l.rawHeaders|
    ensures p.canonical == s.canonical && p.mapping == s.mapping
    ensures p.columns == MetadataColumns + s.canonical
    ensures |p.rows| == |l.data|
    ensures p.previewRows == Take(p.rows, MaxPreviewRows)
  {
    var rows := PreviewRows(md, l.data, |s.canonical|);
    Preview(md, l.rawHeaders, s.canonical, s.mapping, MetadataColumns + s.canonical, rows, Take(rows, MaxPreviewRows))
  }

  /** What a preview of table `t` with metadata `md` consists of. */
  predicate PreviewOf(p: Preview, md: Metadata, t: Table)
    requires IsCandidate(t)
  {
    var l := SplitHeader(t);
    && p.metadata == md
    && p.rawHeaders == l.rawHeaders
    && |p.canonical| == t.width
    && p.columns == MetadataColumns + p.canonical
    && NoDuplicates(p.columns)
    && |p.rows| == |l.data|
    && (forall i :: 0 <= i < |p.rows| ==> |p.rows[i]| == |p.columns| && p.rows[i][..4] == MetadataValues(md))
    && (forall i, j :: 0 <= i < |p.rows| && 0 <= j < t.width ==>
          p.rows[i][4 + j] == Strip(CellValue(l.data[i][j])))
    && p.previewRows == Take(p.rows, MaxPreviewRows)
  }

  lemma AssembleIsPreview(md: Metadata, t: Table, s: Schema)
    requires IsCandidate(t)
    requires |s.canonical| == t.width
    requires NoDuplicates(MetadataColumns + s.canonical)
    ensures PreviewOf(Assemble(md, SplitHeader(t), s), md, t)
  {
    var l := SplitHeader(t);
    var w := t.width;
    var rows := PreviewRows(md, l.data, w);
    var p := Assemble(md, l, s);
    assert p == Preview(md, l.rawHeaders, s.canonical, s.mapping, MetadataColumns + s.canonical, rows, Take(rows, MaxPreviewRows));
    forall i, j | 0 <= i < |rows| && 0 <= j < w
      ensures rows[i][4 + j] == Strip(CellValue(l.data[i][j]))
    {
      assert rows[i][4..][j] == ShapeRow(l.data[i], w)[j];
      ShapeRowCell(l.data[i], w, j);
    }
  }

  /* ---------------------------------------------------------------------- */
  /* naming and building                                                     */

  /** The metadata column the insertions trip over first: they run from
      `course_session` back to `department`, each at position 0. */
  function FirstClash(canonical: seq<string>): (r: Option<string>)
    ensures r.Some? ==> r.value in MetadataColumns && r.value in canonical
    ensures r.None? <==> forall i :: 0 <= i < |MetadataColumns| ==> MetadataColumns[i] !in canonical
  {
    if "course_session" in canonical then Some("course_session")
    else if "semester" in canonical then Some("semester")
    else if "class" in canonical then Some("class")
    else if "department" in canonical then Some("department")
    else None
  }

  lemma NoDuplicatesAppend(a: seq<string>, b: seq<string>)
    requires NoDuplicates(a) && NoDuplicates(b)
    requires forall i :: 0 <= i < |b| ==> b[i] !in a
    ensures NoDuplicates(a + b)
  {
    forall i, j | 0 <= i < j < |a + b|
      ensures (a + b)[i] != (a + b)[j]
    {
      if i < |a| && j >= |a| {
        assert (a + b)[j] == b[j - |a|];
      }
    }
  }

  lemma MetadataColumnsDistinct()
    ensures NoDuplicates(MetadataColumns)
  {
  }

  lemma ClashFreeDistinct(canonical: seq<string>)
    requires NoDuplicates(canonical) && FirstClash(canonical).None?
    ensures NoDuplicates(MetadataColumns + canonical)
  {
    MetadataColumnsDistinct();
    NoDuplicatesAppend(MetadataColumns, canonical);
  }

  lemma ReservedNamesDistinct(bases: seq<string>)
    ensures NoDuplicates(MetadataColumns + AssignNames(MetadataColumns, bases))
  {
    MetadataColumnsDistinct();
    NoDuplicatesAppend(MetadataColumns, AssignNames(MetadataColumns, bases));
  }

  /** The upload preview as the code builds it: the headers are named with
      nothing reserved, and a header whose name is a metadata column makes
      the metadata insertion fail. */
  function BuildPreviewAsWritten(md: Metadata, tables: seq<Table>): (r: Result<Preview, UploadError>)
    requires forall i :: 0 <= i < |tables| ==> IsCandidate(tables[i])
    ensures (r.Failure? && r.error == NoTablesDetected) <==> |tables| == 0
    ensures r.Failure? ==> r.error == NoTablesDetected || r.error.ColumnExists?
    // it fails on the first metadata column the code named a header after, and only then
    ensures |tables| > 0 ==>
              var clash := FirstClash(NormalizeHeaders(SplitHeader(tables[SelectLargest(tables)]).rawHeaders).canonical);
              (r.Failure? <==> clash.Some?) && (clash.Some? ==> r.error == ColumnExists(clash.value))
    ensures r.Success? ==> PreviewOf(r.value, md, tables[SelectLargest(tables)])
    // the headers are named by `normalize_headers` alone
    ensures r.Success? ==>
              var s := NormalizeHeaders(SplitHeader(tables[SelectLargest(tables)]).rawHeaders);
              r.value.canonical == s.canonical && r.value.mapping == s.mapping
  {
    if |tables| == 0 then Failure(NoTablesDetected)
    else
      var t := tables[SelectLargest(tables)];
      var l := SplitHeader(t);
      var s := NormalizeHeaders(l.rawHeaders);
      match FirstClash(s.canonical)
      case Some(c) => Failure(ColumnExists(c))
      case None =>
        ClashFreeDistinct(s.canonical);
        AssembleIsPreview(md, t, s);
        Success(Assemble(md, l, s))
  }

  /** `normalize_headers` with the metadata column names taken from the start. */
  function ReservedSchema(raws: seq<string>): (s: Schema)
    ensures |s.canonical| == |raws|
    ensures NoDuplicates(MetadataColumns + s.canonical)
  {
    var canonical := AssignNames(MetadataColumns, BaseNames(raws));
    ReservedNamesDistinct(BaseNames(raws));
    Schema(canonical, LastWins(StripAll(raws), canonical))
  }

  /** The upload preview with the metadata names reserved: a header named
      like a metadata column gets a suffix, and the only failure left is a
      document without tables. */
  function BuildPreview(md: Metadata, tables: seq<Table>): (r: Result<Preview, UploadError>)
    requires forall i :: 0 <= i < |tables| ==> IsCandidate(tables[i])
    ensures r.Failure? <==> |tables| == 0
    ensures r.Failure? ==> r.error == NoTablesDetected
    ensures r.Success? ==> PreviewOf(r.value, md, tables[SelectLargest(tables)])
    // the headers are named with the metadata column names reserved
    ensures r.Success? ==>
              var s := ReservedSchema(SplitHeader(tables[SelectLargest(tables)]).rawHeaders);
              r.value.canonical == s.canonical && r.value.mapping == s.mapping
  {
    if |tables| == 0 then Failure(NoTablesDetected)
    else
      var t := tables[SelectLargest(tables)];
      var l := SplitHeader(t);
      var s := ReservedSchema(l.rawHeaders);
      AssembleIsPreview(md, t, s);
      Success(Assemble(md, l, s))
  }

  /** `upload_pdf`: the file checks in order, then the combined extraction of
      the saved document, then the preview. */
  function Upload(filename: Option<string>, doc: Document, m: Matcher): (r: Result<Preview, UploadError>)
    ensures r == Failure(MissingFile) <==> filename.None?
    ensures r == Failure(EmptyFilename) <==> filename == Some("")
    ensures r == Failure(OnlyPdfAllowed) <==>
              filename.Some? && filename.value != "" && !AllowedFile(filename.value, AllowedExtensions)
    ensures r == Failure(NoTablesDetected) <==>
              filename.Some? && AllowedFile(filename.value, AllowedExtensions) &&
              ExtractAll(doc, PagesToScanForMetadata, MaxPagesForTableExtraction, m).1 == []
    ensures r.Success? <==>
              filename.Some? && AllowedFile(filename.value, AllowedExtensions) &&
              ExtractAll(doc, PagesToScanForMetadata, MaxPagesForTableExtraction, m).1 != []
    ensures r.Failure? ==> !r.error.ColumnExists?
    ensures r.Success? ==>
              var (md, tables) := ExtractAll(doc, PagesToScanForMetadata, MaxPagesForTableExtraction, m);
              |tables| > 0 && PreviewOf(r.value, md, tables[SelectLargest(tables)])
    // the headers are named with the metadata column names reserved
    ensures r.Success? ==>
              var tables := ExtractAll(doc, PagesToScanForMetadata, MaxPagesForTableExtraction, m).1;
              |tables| > 0 &&
              var s := ReservedSchema(SplitHeader(tables[SelectLargest(tables)]).rawHeaders);
              r.value.canonical == s.canonical && r.value.mapping == s.mapping
  {
    match filename
    case None => Failure(MissingFile)
    case Some(f) =>
      if f == "" then Failure(EmptyFilename)
      else if !AllowedFile(f, AllowedExtensions) then Failure(OnlyPdfAllowed)
      else
        var (md, tables) := ExtractAll(doc, PagesToScanForMetadata, MaxPagesForTableExtraction, m);
        BuildPreview(md, tables)
  }

  /* ---------------------------------------------------------------------- */
  /* the metadata-column clash                                               */

  /** A numbered name never is a metadata column name: it ends in a digit. */
  lemma SuffixedIsNoMetadataColumn(base: string, k: nat)
    ensures Suffixed(base, k) !in MetadataColumns
  {
    var s := Suffixed(base, k);
    assert s[|s| - 1] == NatToString(k)[|NatToString(k)| - 1];
  }

  /** Reserving the metadata names renames nothing when the code's own names
      avoid them. */
  lemma ReservedAgreesWithoutClash(raws: seq<string>)
    requires FirstClash(Canonicalize(raws)).None?
    ensures ReservedSchema(raws) == NormalizeHeaders(raws)
  {
    var bases := BaseNames(raws);
    var c := Canonicalize(raws);
    forall b, i: nat
      ensures Suffixed(b, i) !in MetadataColumns
    {
      SuffixedIsNoMetadataColumn(b, i);
    }
    assert forall k :: 0 <= k < |MetadataColumns| ==> MetadataColumns[k] !in c;
    assert forall i :: 0 <= i < |bases| ==> AssignNames([], bases)[i] !in MetadataColumns by {
      forall i | 0 <= i < |bases|
        ensures c[i] !in MetadataColumns
      {
        assert c[i] in c;
      }
    }
    ReservedIrrelevant(MetadataColumns, bases);
    assert ReservedSchema(raws).canonical == c;
    assert ReservedSchema(raws) == Schema(c, LastWins(StripAll(raws), c));
  }

  /** The corrected upload gives the code's preview whenever the code gives one. */
  lemma BuildPreviewAgrees(md: Metadata, tables: seq<Table>)
    requires forall i :: 0 <= i < |tables| ==> IsCandidate(tables[i])
    requires BuildPreviewAsWritten(md, tables).Success?
    ensures BuildPreview(md, tables) == BuildPreviewAsWritten(md, tables)
  {
    var t := tables[SelectLargest(tables)];
    ReservedAgreesWithoutClash(SplitHeader(t).rawHeaders);
  }

  /** The header `Class` is named `class`. */
  lemma ClassHeaderBaseName()
    ensures BaseName("Class") == "class"
  {
    ClassLower();
    ClassNotKeyword();
    ClassIsAlnum();
    OneWordBaseName("Class", "class");
  }

  lemma ClassIsAlnum()
    ensures 0 < |"Class"| <= MaxIdentifierLength && !IsDigit("Class"[0])
    ensures forall i :: 0 <= i < |"Class"| ==> IsAlnum("Class"[i])
  {
    var c := "Class";
    forall i | 0 <= i < |c|
      ensures IsAlnum(c[i])
    {
      if i == 0 {} else if i == 1 {} else if i == 2 {} else if i == 3 {} else {}
    }
  }

  lemma ClassLower()
    ensures Lower("Class") == "class"
  {
  }

  /** A header `Class` trips the code: it is named `class`, the name of a
      metadata column, so the upload of any table whose header row holds it fails. */
  lemma ClassHeaderClash()
    ensures FirstClash(NormalizeHeaders(["Class"]).canonical) == Some("class")
  {
    ClassHeaderCanonical();
    ClassClashes();
  }

  /** With the metadata names reserved, the header `Class` is named `class_2`. */
  lemma ClassHeaderReserved()
    ensures ReservedSchema(["Class"]).canonical == ["class_2"]
  {
    ClassHeaderBaseName();
    ClassSecond();
    OneHeaderReserved("Class");
  }

  /** A lone header is named after its base name, kept apart from the
      metadata names. */
  lemma OneHeaderReserved(raw: string)
    ensures ReservedSchema([raw]).canonical == [Disambiguate(BaseName(raw), MetadataColumns)]
  {
    var bases := BaseNames([raw]);
    assert bases[..0] == [];
    assert MetadataColumns + [] == MetadataColumns;
  }

  lemma ClassSecond()
    ensures Disambiguate("class", MetadataColumns) == "class_2"
  {
    SuffixedIsNoMetadataColumn("class", 2);
    assert NatToString(2) == "2";
    assert FirstFreeIndex("class", MetadataColumns, 2) == 2;
  }

  lemma ClassClashes()
    ensures FirstClash(["class"]) == Some("class")
  {
    assert "course_session" != "class" && "semester" != "class";
  }

  lemma ClassHeaderCanonical()
    ensures NormalizeHeaders(["Class"]).canonical == ["class"]
  {
    ClassHeaderBaseName();
    OneHeaderCanonical("Class");
  }

  /** A lone header is named after its base name. */
  lemma OneHeaderCanonical(raw: string)
    ensures NormalizeHeaders([raw]).canonical == [BaseName(raw)]
  {
    var bases := BaseNames([raw]);
    assert bases[..0] == [];
    assert AssignNames([], bases) == AssignNames([], []) + [Disambiguate(bases[0], [])];
  }
}
