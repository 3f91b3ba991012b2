/**
 * Candidate tables and metadata from a document: the page loops of
 * `extract_tables_from_pdf`, `extract_metadata_from_pdf` and the single-pass
 * `extract_metadata_and_tables_from_pdf`. The PDF library is replaced by its
 * results: a document that opens or not, and per page the extracted text and
 * the detected grids, each either a value or a failure.
 */
module Extraction {
  import opened Text
  import opened Optional
  import opened Metadata

  /** A grid cell: text, or `None` for an empty cell. */
  type Cell = Option<string>

  /** A detected grid: rows of cells, possibly ragged. */
  type Grid = seq<seq<Cell>>

  /** What `page.extract_text()` gives: its text (possibly `None`), or a raised exception. */
  datatype PageText = TextOk(text: Option<string>) | TextFails

  /** What `page.extract_tables()` gives: the grids, or a raised exception. */
  datatype PageTables = TablesOk(grids: seq<Grid>) | TablesFail

  datatype Page = Page(text: PageText, tables: PageTables)

  /** A document that cannot be opened or parsed, or its pages. */
  datatype Document = Unreadable | Readable(pages: seq<Page>)

  /** A candidate table: the DataFrame built from a grid, as its column count
      and its rows, each padded to that count. */
  datatype Table = Table(width: nat, rows: seq<seq<Cell>>)

  predicate HasValue(row: seq<Cell>) {
    exists i | 0 <= i < |row| :: row[i].Some?
  }

  /** What every candidate satisfies: rows of one width, none of them all-`None`, at least one. */
  predicate IsCandidate(t: Table) {
    && |t.rows| > 0
    && t.width > 0
    && forall i :: 0 <= i < |t.rows| ==> |t.rows[i]| == t.width && HasValue(t.rows[i])
  }

  /* ---------------------------------------------------------------------- */
  /* grid to table                                                           */

  /** The column count of `pd.DataFrame(grid)`: the longest row. */
  function MaxWidth(g: Grid): (w: nat)
    ensures forall i :: 0 <= i < |g| ==> |g[i]| <= w
    ensures |g| > 0 ==> exists i :: 0 <= i < |g| && |g[i]| == w
    ensures |g| == 0 ==> w == 0
  {
    if |g| == 0 then 0
    else
      var w := MaxWidth(g[..|g| - 1]);
      assert forall i :: 0 <= i < |g| - 1 ==> g[i] == g[..|g| - 1][i];
      Max(w, |g[|g| - 1]|)
  }

  /** A short row filled up with `None`. */
  function PadRow(row: seq<Cell>, w: nat): (r: seq<Cell>)
    requires |row| <= w
    ensures |r| == w
    ensures r[..|row|] == row
    ensures forall i :: |row| <= i < w ==> r[i].None?
    ensures HasValue(r) <==> HasValue(row)
  {
    var r := row + seq(w - |row|, _ => None);
    assert forall i :: 0 <= i < |row| ==> r[i] == row[i];
    r
  }

  function PadRows(g: Grid, w: nat): (r: Grid)
    requires forall i :: 0 <= i < |g| ==> |g[i]| <= w
    ensures |r| == |g|
    ensures forall i :: 0 <= i < |g| ==> r[i] == PadRow(g[i], w)
  {
    seq(|g|, i requires 0 <= i < |g| => PadRow(g[i], w))
  }

  /** `df.dropna(how="all")`: the rows with some value, in order. */
  function RowsWithValues(rows: Grid): (r: Grid)
    ensures |r| <= |rows|
    ensures forall i :: 0 <= i < |r| ==> HasValue(r[i])
    ensures forall x :: x in r <==> x in rows && HasValue(x)
  {
    if |rows| == 0 then []
    else
      var rest := RowsWithValues(rows[1..]);
      assert forall x :: x in rows <==> x == rows[0] || x in rows[1..];
      if HasValue(rows[0]) then [rows[0]] + rest else rest
  }

  /** Dropping rows works row by row: what is kept keeps its order and its
      repetitions. */
  lemma {:induction false} RowsWithValuesAppend(a: Grid, b: Grid)
    ensures RowsWithValues(a + b) == RowsWithValues(a) + RowsWithValues(b)
    decreases |a|
  {
    if |a| > 0 {
      assert (a + b)[1..] == a[1..] + b;
      RowsWithValuesAppend(a[1..], b);
    } else {
      assert a + b == b;
    }
  }

  /** One row is kept exactly when it has a value. */
  lemma RowsWithValuesOne(row: seq<Cell>)
    ensures RowsWithValues([row]) == if HasValue(row) then [row] else []
  {
    assert [row][1..] == [];
  }

  /** The grid as a candidate table, unless it has no value at all. */
  function GridToTable(g: Grid): (r: Option<Table>)
    ensures r.Some? ==> IsCandidate(r.value)
    ensures r.Some? <==> exists i :: 0 <= i < |g| && HasValue(g[i])
    ensures r.Some? ==> r.value.width == MaxWidth(g)
  {
    if |g| == 0 then None
    else
      var w := MaxWidth(g);
      var rows := RowsWithValues(PadRows(g, w));
      if |rows| == 0 then
        assert forall i :: 0 <= i < |g| ==> !HasValue(PadRows(g, w)[i]);
        None
      else
        assert rows[0] in PadRows(g, w);
        Some(Table(w, rows))
  }

  /** A candidate's rows are the grid's rows, padded, less those without a value. */
  lemma GridToTableKeepsRows(g: Grid)
    requires GridToTable(g).Some?
    ensures GridToTable(g).value.rows == RowsWithValues(PadRows(g, MaxWidth(g)))
  {
  }

  /** The kept rows are exactly the grid's rows that have a value, padded. */
  lemma GridToTableRows(g: Grid, row: seq<Cell>)
    requires GridToTable(g).Some?
    ensures row in GridToTable(g).value.rows <==>
              exists i :: 0 <= i < |g| && HasValue(g[i]) && row == PadRow(g[i], MaxWidth(g))
  {
    var w := MaxWidth(g);
    var p := PadRows(g, w);
    var rows := GridToTable(g).value.rows;
    GridToTableKeepsRows(g);
    if row in rows {
      assert row in p && HasValue(row);
      var i :| 0 <= i < |p| && p[i] == row;
      assert row == PadRow(g[i], w);
    }
    if exists i :: 0 <= i < |g| && HasValue(g[i]) && row == PadRow(g[i], w) {
      var i :| 0 <= i < |g| && HasValue(g[i]) && row == PadRow(g[i], w);
      assert p[i] == row;
      assert row in p && HasValue(row);
    }
  }

  /* ---------------------------------------------------------------------- */
  /* pages to candidates                                                     */

  function GridsToTables(gs: seq<Grid>): (r: seq<Table>)
    ensures forall i :: 0 <= i < |r| ==> IsCandidate(r[i])
    ensures |r| <= |gs|
  {
    if |gs| == 0 then []
    else
      var rest := GridsToTables(gs[1..]);
      match GridToTable(gs[0])
      case Some(t) => [t] + rest
      case None => rest
  }

  /** Grids are turned into candidates one by one, in order. */
  lemma {:induction false} GridsToTablesAppend(a: seq<Grid>, b: seq<Grid>)
    ensures GridsToTables(a + b) == GridsToTables(a) + GridsToTables(b)
    decreases |a|
  {
    if |a| > 0 {
      assert (a + b)[1..] == a[1..] + b;
      GridsToTablesAppend(a[1..], b);
    } else {
      assert a + b == b;
    }
  }

  /** One grid gives its table, or nothing when it holds no value. */
  lemma GridsToTablesOne(g: Grid)
    ensures GridsToTables([g]) == if GridToTable(g).Some? then [GridToTable(g).value] else []
  {
    assert [g][1..] == [];
  }

  /** The `j`-th grid of `gs` becomes the table `t`. */
  predicate GridYields(gs: seq<Grid>, j: int, t: Table) {
    0 <= j < |gs| && GridToTable(gs[j]) == Some(t)
  }

  /** The candidates of a list of grids are the tables of its grids. */
  lemma GridsToTablesMembers(gs: seq<Grid>, t: Table)
    ensures t in GridsToTables(gs) <==> exists j :: GridYields(gs, j, t)
  {
    if t in GridsToTables(gs) {
      CandidateHasGrid(gs, t);
    }
    if exists j :: GridYields(gs, j, t) {
      var j :| GridYields(gs, j, t);
      GridGivesCandidate(gs, j, t);
    }
  }

  lemma {:induction false} CandidateHasGrid(gs: seq<Grid>, t: Table)
    requires t in GridsToTables(gs)
    ensures exists j :: GridYields(gs, j, t)
    decreases |gs|
  {
    var rest := gs[1..];
    HeadTail(gs);
    GridsToTablesAppend([gs[0]], rest);
    GridsToTablesOne(gs[0]);
    if t in GridsToTables([gs[0]]) {
      assert GridYields(gs, 0, t);
    } else {
      assert t in GridsToTables(rest);
      CandidateHasGrid(rest, t);
      var j :| GridYields(rest, j, t);
      assert GridYields(gs, j + 1, t);
    }
  }

  lemma {:induction false} GridGivesCandidate(gs: seq<Grid>, j: int, t: Table)
    requires GridYields(gs, j, t)
    ensures t in GridsToTables(gs)
    decreases |gs|
  {
    var rest := gs[1..];
    HeadTail(gs);
    GridsToTablesAppend([gs[0]], rest);
    var first := GridsToTables([gs[0]]);
    var later := GridsToTables(rest);
    assert GridsToTables(gs) == first + later;
    if j > 0 {
      assert rest[j - 1] == gs[j];
      GridGivesCandidate(rest, j - 1, t);
      assert t in later;
    } else {
      GridsToTablesOne(gs[0]);
      assert first == [t];
    }
  }

  /** The candidates of one page; a page whose table detection fails has none. */
  function PageCandidates(p: Page): (r: seq<Table>)
    ensures forall i :: 0 <= i < |r| ==> IsCandidate(r[i])
    ensures p.tables.TablesFail? ==> r == []
  {
    match p.tables
    case TablesOk(gs) => GridsToTables(gs)
    case TablesFail => []
  }

  /** The candidates of the pages, page after page. */
  function DetectTables(pages: seq<Page>): (r: seq<Table>)
    ensures forall i :: 0 <= i < |r| ==> IsCandidate(r[i])
  {
    if |pages| == 0 then []
    else PageCandidates(pages[0]) + DetectTables(pages[1..])
  }

  /** Candidates keep page order, then the order within a page. */
  lemma {:induction false} DetectTablesAppend(a: seq<Page>, b: seq<Page>)
    ensures DetectTables(a + b) == DetectTables(a) + DetectTables(b)
    decreases |a|
  {
    if |a| > 0 {
      assert (a + b)[1..] == a[1..] + b;
      DetectTablesAppend(a[1..], b);
    } else {
      assert a + b == b;
    }
  }

  /** A page's detection works and one of its grids becomes `t`. */
  ghost predicate PageYields(p: Page, t: Table) {
    p.tables.TablesOk? && exists j :: GridYields(p.tables.grids, j, t)
  }

  /** The `i`-th page yields `t`. */
  ghost predicate PageAtYields(pages: seq<Page>, i: int, t: Table) {
    0 <= i < |pages| && PageYields(pages[i], t)
  }

  lemma DetectTablesOne(p: Page)
    ensures DetectTables([p]) == PageCandidates(p)
  {
    assert [p][1..] == [];
  }

  lemma PageCandidatesMembers(p: Page, t: Table)
    ensures t in PageCandidates(p) <==> PageYields(p, t)
  {
    if p.tables.TablesOk? {
      GridsToTablesMembers(p.tables.grids, t);
    }
  }

  /** The candidates of the pages are the tables their working detections give. */
  lemma {:induction false} DetectTablesMembers(pages: seq<Page>, t: Table)
    ensures t in DetectTables(pages) <==> exists i :: PageAtYields(pages, i, t)
    decreases |pages|
  {
    if |pages| > 0 {
      var p := pages[0];
      var rest := pages[1..];
      HeadTail(pages);
      DetectTablesAppend([p], rest);
      DetectTablesOne(p);
      PageCandidatesMembers(p, t);
      DetectTablesMembers(rest, t);
      if t in PageCandidates(p) {
        assert PageAtYields(pages, 0, t);
      }
      if exists i :: PageAtYields(rest, i, t) {
        var i :| PageAtYields(rest, i, t);
        assert PageAtYields(pages, i + 1, t);
      }
      if exists i :: PageAtYields(pages, i, t) {
        var i :| PageAtYields(pages, i, t);
        if i > 0 {
          assert PageAtYields(rest, i - 1, t);
        } else {
          assert t in PageCandidates(p);
        }
      }
    }
  }

  /** Python's `pages[:n]`. */
  function FirstPages(pages: seq<Page>, n: nat): (r: seq<Page>)
    ensures |r| == Min(n, |pages|)
    ensures r == pages[..|r|]
  {
    Take(pages, n)
  }

  /** `extract_tables_from_pdf`: candidates of the first `maxPages` pages;
      none when the document cannot be opened. */
  function ExtractTables(doc: Document, maxPages: nat): (r: seq<Table>)
    ensures forall i :: 0 <= i < |r| ==> IsCandidate(r[i])
    ensures doc.Unreadable? ==> r == []
  {
    match doc
    case Unreadable => []
    case Readable(pages) => DetectTables(FirstPages(pages, maxPages))
  }

  /** A table is a candidate of a readable document exactly when one of its
      first `maxPages` pages detects a grid that becomes that table. */
  lemma ExtractTablesMembers(ps: seq<Page>, maxPages: nat, t: Table)
    ensures t in ExtractTables(Readable(ps), maxPages) <==>
              exists i :: 0 <= i < Min(maxPages, |ps|) && PageYields(ps[i], t)
  {
    var first := FirstPages(ps, maxPages);
    assert ExtractTables(Readable(ps), maxPages) == DetectTables(first);
    DetectTablesMembers(first, t);
    if exists i :: PageAtYields(first, i, t) {
      var i :| PageAtYields(first, i, t);
      assert first[i] == ps[i];
    }
    if exists i :: 0 <= i < Min(maxPages, |ps|) && PageYields(ps[i], t) {
      var i :| 0 <= i < Min(maxPages, |ps|) && PageYields(ps[i], t);
      assert first[i] == ps[i];
      assert PageAtYields(first, i, t);
    }
  }

  /** Pages past the limit do not matter: two documents that agree on their
      first `maxPages` pages have the same candidates. */
  lemma ExtractTablesIgnoresLaterPages(ps: seq<Page>, qs: seq<Page>, maxPages: nat)
    requires FirstPages(ps, maxPages) == FirstPages(qs, maxPages)
    ensures ExtractTables(Readable(ps), maxPages) == ExtractTables(Readable(qs), maxPages)
  {
  }

  /** A page whose table detection fails contributes nothing, wherever it is. */
  lemma FailingPageContributesNothing(a: seq<Page>, p: Page, b: seq<Page>)
    requires p.tables.TablesFail?
    ensures DetectTables(a + [p] + b) == DetectTables(a) + DetectTables(b)
  {
    var ap := a + [p];
    DetectTablesAppend(ap, b);
    DetectTablesAppend(a, [p]);
    FailingPageAlone(p);
    assert DetectTables(ap) == DetectTables(a);
  }

  lemma FailingPageAlone(p: Page)
    requires p.tables.TablesFail?
    ensures DetectTables([p]) == []
  {
    assert [p][1..] == [];
  }

  /* ---------------------------------------------------------------------- */
  /* metadata text                                                           */

  predicate SomeTextFails(pages: seq<Page>) {
    exists i | 0 <= i < |pages| :: pages[i].text.TextFails?
  }

  /** `text += "\n" + (p.extract_text() or "")` over the pages. */
  function JoinPageTexts(pages: seq<Page>): (text: string)
    requires !SomeTextFails(pages)
    ensures |text| >= |pages|
  {
    if |pages| == 0 then ""
    else
      assert forall i :: 0 <= i < |pages| - 1 ==> pages[1..][i] == pages[i + 1];
      "\n" + pages[0].text.text.GetOr("") + JoinPageTexts(pages[1..])
  }

  /** The text of the pages is the text of each page in turn. */
  lemma {:induction false} JoinPageTextsAppend(a: seq<Page>, b: seq<Page>)
    requires !SomeTextFails(a + b)
    ensures !SomeTextFails(a) && !SomeTextFails(b)
    ensures JoinPageTexts(a + b) == JoinPageTexts(a) + JoinPageTexts(b)
    decreases |a|
  {
    NoFailureInParts(a, b);
    if |a| > 0 {
      assert (a + b)[0] == a[0];
      assert (a + b)[1..] == a[1..] + b;
      JoinPageTextsAppend(a[1..], b);
    } else {
      assert a + b == b;
    }
  }

  lemma NoFailureInParts(a: seq<Page>, b: seq<Page>)
    requires !SomeTextFails(a + b)
    ensures !SomeTextFails(a) && !SomeTextFails(b)
  {
    assert forall i :: 0 <= i < |a| ==> (a + b)[i] == a[i];
    assert forall i :: 0 <= i < |b| ==> (a + b)[|a| + i] == b[i];
  }

  /** One page adds a line break and its text, `""` for a page without text. */
  lemma JoinPageTextsOne(p: Page)
    requires p.text.TextOk?
    ensures !SomeTextFails([p])
    ensures JoinPageTexts([p]) == "\n" + p.text.text.GetOr("")
  {
    assert [p][1..] == [];
  }

  /** `extract_metadata_from_pdf`: the fields of the first `pagesToScan`
      pages' text; all empty when the document cannot be opened or a page's
      text extraction fails. */
  function ExtractMetadata(doc: Document, pagesToScan: nat, m: Matcher): (md: Metadata)
    ensures doc.Unreadable? ==> md == EmptyMetadata
    ensures doc.Readable? && SomeTextFails(FirstPages(doc.pages, pagesToScan)) ==> md == EmptyMetadata
  {
    match doc
    case Unreadable => EmptyMetadata
    case Readable(pages) =>
      var scanned := FirstPages(pages, pagesToScan);
      if SomeTextFails(scanned) then EmptyMetadata
      else ExtractFields(m, SearchText(JoinPageTexts(scanned)))
  }

  /** `extract_metadata_and_tables_from_pdf`: both results from one pass. A
      page whose text extraction fails aborts the pass before any table is
      collected, so both results are then empty. */
  function ExtractAll(doc: Document, pagesToScan: nat, maxPages: nat, m: Matcher): (r: (Metadata, seq<Table>))
    ensures forall i :: 0 <= i < |r.1| ==> IsCandidate(r.1[i])
    ensures doc.Unreadable? ==> r == (EmptyMetadata, [])
    ensures doc.Readable? && SomeTextFails(FirstPages(doc.pages, pagesToScan)) ==> r == (EmptyMetadata, [])
  {
    match doc
    case Unreadable => (EmptyMetadata, [])
    case Readable(pages) =>
      var scanned := FirstPages(pages, pagesToScan);
      if SomeTextFails(scanned) then (EmptyMetadata, [])
      else
        var text := JoinPageTexts(scanned);
        var tables := DetectTables(FirstPages(pages, maxPages));
        if text == "" then (EmptyMetadata, tables)
        else (ExtractFields(m, SearchText(text)), tables)
  }

  /** The single pass gives the metadata of the separate pass, and its
      tables too unless a scanned page's text extraction fails. */
  lemma ExtractAllAgreesWithSeparatePasses(doc: Document, pagesToScan: nat, maxPages: nat, m: Matcher)
    requires NeverMatchesEmpty(m)
    ensures ExtractAll(doc, pagesToScan, maxPages, m).0 == ExtractMetadata(doc, pagesToScan, m)
    ensures doc.Readable? && !SomeTextFails(FirstPages(doc.pages, pagesToScan)) ==>
              ExtractAll(doc, pagesToScan, maxPages, m).1 == ExtractTables(doc, maxPages)
  {
    if doc.Readable? && !SomeTextFails(FirstPages(doc.pages, pagesToScan)) {
      var text := JoinPageTexts(FirstPages(doc.pages, pagesToScan));
      if text == "" {
        assert SearchText(text) == "";
        ExtractFieldsEmpty(m);
      }
    }
  }

  /** The combined pass loses tables the separate pass finds: a page whose
      text fails while another page has a table. */
  lemma TextFailureLosesTables(m: Matcher)
    ensures var g: Grid := [[Some("x")]];
            var doc := Readable([Page(TextFails, TablesOk([g]))]);
            ExtractAll(doc, 1, 1, m).1 == [] && |ExtractTables(doc, 1)| == 1
  {
    var g: Grid := [[Some("x")]];
    var p := Page(TextFails, TablesOk([g]));
    assert g[0][0].Some?;
    assert GridToTable(g).Some?;
    assert GridsToTables([g]) == [GridToTable(g).value] + GridsToTables([]);
    assert [p][..1] == [p];
    assert DetectTables([p]) == PageCandidates(p) + DetectTables([]);
  }
}
