/**
 * The confirm step: the preview read back as a frame of strings, optionally
 * renamed, typed column by column, coerced cell by cell for the insert, and
 * the names derived from the upload: table name, original file name, export
 * name and export title.
 */
module Confirm {
  import opened Text
  import opened Optional
  import opened Identifier
  import opened Headers

  /** The preview as `read_csv(dtype=str).fillna("")` gives it back. */
  datatype Frame = Frame(columns: seq<string>, rows: seq<seq<string>>)

  predicate Rectangular(f: Frame) {
    forall i :: 0 <= i < |f.rows| ==> |f.rows[i]| == |f.columns|
  }

  function Column(f: Frame, j: nat): (vs: seq<string>)
    requires Rectangular(f) && j < |f.columns|
    ensures |vs| == |f.rows|
    ensures forall i :: 0 <= i < |f.rows| ==> vs[i] == f.rows[i][j]
  {
    seq(|f.rows|, i requires 0 <= i < |f.rows| => f.rows[i][j])
  }

  /* ---------------------------------------------------------------------- */
  /* renaming                                                                */

  /** `df.rename(columns=rename_map)`: mapped names change, the others stay. */
  function RenameColumns(cols: seq<string>, rm: map<string, string>): (r: seq<string>)
    ensures |r| == |cols|
    ensures forall i :: 0 <= i < |cols| ==> r[i] == (if cols[i] in rm then rm[cols[i]] else cols[i])
  {
    seq(|cols|, i requires 0 <= i < |cols| => if cols[i] in rm then rm[cols[i]] else cols[i])
  }

  /** Renaming with an empty map, or one that mentions no column, is the identity;
      renaming one column touches no other. */
  lemma RenameLeavesOthers(cols: seq<string>, rm: map<string, string>)
    ensures (forall i :: 0 <= i < |cols| ==> cols[i] !in rm) ==> RenameColumns(cols, rm) == cols
    ensures forall i :: 0 <= i < |cols| && cols[i] !in rm ==> RenameColumns(cols, rm)[i] == cols[i]
  {
  }

  /** Renaming by a map whose values are new names that no column has, and
      that are pairwise different, keeps distinct columns distinct. */
  lemma RenameKeepsDistinct(cols: seq<string>, rm: map<string, string>)
    requires NoDuplicates(cols)
    requires forall a, b :: a in rm && b in rm && a != b ==> rm[a] != rm[b]
    requires forall a :: a in rm ==> forall i :: 0 <= i < |cols| ==> rm[a] != cols[i] || cols[i] in rm
    ensures NoDuplicates(RenameColumns(cols, rm))
  {
    var r := RenameColumns(cols, rm);
    forall i, j | 0 <= i < j < |cols|
      ensures r[i] != r[j]
    {
      if cols[i] in rm && cols[j] !in rm {
        assert r[i] == rm[cols[i]];
      }
    }
  }

  /* ---------------------------------------------------------------------- */
  /* numeric cells                                                           */

  /** `re_full.match(s)` for `-?\d+(\.\d+)?` without anchoring at the end: an
      optional minus sign, then a digit. */
  predicate StartsNumber(t: string) {
    (|t| > 0 && IsDigit(t[0])) || (|t| > 1 && t[0] == '-' && IsDigit(t[1]))
  }

  /** What `is_num` looks at: the value stripped, with every comma dropped. */
  function Cleaned(v: string): string {
    RemoveChar(Strip(v), ',')
  }

  /** `is_num`: strip, then drop every comma, then look for a number at the start. */
  predicate IsNum(v: string) {
    Cleaned(v) != "" && StartsNumber(Cleaned(v))
  }

  /** An unsigned `\d+(\.\d+)?`. */
  predicate IsUnsignedLiteral(d: string) {
    IsDigits(d) || exists j | 0 < j < |d| - 1 :: d[j] == '.' && AllDigits(d[..j]) && IsDigits(d[j + 1..])
  }

  /** The whole of `s` is a number as `-?\d+(\.\d+)?` writes it. */
  predicate IsNumberLiteral(s: string) {
    IsUnsignedLiteral(if |s| > 0 && s[0] == '-' then s[1..] else s)
  }

  lemma UnsignedStartsWithDigit(d: string)
    requires IsUnsignedLiteral(d)
    ensures |d| > 0 && IsDigit(d[0])
  {
    if !IsDigits(d) {
      var j :| 0 < j < |d| - 1 && d[j] == '.' && AllDigits(d[..j]) && IsDigits(d[j + 1..]);
      assert d[..j][0] == d[0];
    }
  }

  /** A number starts `t` exactly when some prefix of `t` is a whole number literal. */
  lemma StartsNumberIff(t: string)
    ensures StartsNumber(t) <==> exists k | 1 <= k <= |t| :: IsNumberLiteral(t[..k])
  {
    if StartsNumber(t) {
      if IsDigit(t[0]) {
        assert IsDigits(t[..1]);
        assert IsNumberLiteral(t[..1]);
      } else {
        assert t[..2][1..] == t[1..2];
        assert IsDigits(t[1..2]);
        assert IsNumberLiteral(t[..2]);
      }
    }
    if exists k | 1 <= k <= |t| :: IsNumberLiteral(t[..k]) {
      var k :| 1 <= k <= |t| && IsNumberLiteral(t[..k]);
      var s := t[..k];
      var d := if s[0] == '-' then s[1..] else s;
      UnsignedStartsWithDigit(d);
    }
  }

  /** `is_num` holds exactly when the cleaned value starts with a whole number
      literal: the match is not anchored at the end, so `12abc` counts. */
  lemma IsNumMeansNumberPrefix(v: string)
    ensures IsNum(v) <==> exists k | 1 <= k <= |Cleaned(v)| :: IsNumberLiteral(Cleaned(v)[..k])
  {
    var t := Cleaned(v);
    StartsNumberIff(t);
    assert IsNum(v) == (t != [] && StartsNumber(t));
  }

  /** On text without commas or whitespace at its ends, `is_num` only looks
      at the start. */
  lemma IsNumOfPlain(v: string)
    requires NoSpaceAtEnds(v) && ',' !in v
    ensures IsNum(v) <==> StartsNumber(v)
  {
    StripFixpoint(v);
  }

  /** Trailing text after the number does not matter. */
  lemma NumberWithSuffix()
    ensures IsNum("12abc")
  {
    DigitThenText("12abc");
  }

  /** A value that starts with a digit, has no comma and does not end in
      whitespace is numeric. */
  lemma DigitThenText(v: string)
    requires |v| > 0 && IsDigit(v[0]) && !IsSpace(v[|v| - 1]) && ',' !in v
    ensures IsNum(v)
  {
    IsNumOfPlain(v);
  }

  /** Commas go after the strip, so a comma can hide a leading digit but
      never a leading space. */
  lemma CommaBeforeDigit()
    ensures IsNum(",5")
  {
    CommaThenDigit(",5");
  }

  /** A comma and then a digit, with nothing else, is numeric. */
  lemma CommaThenDigit(v: string)
    requires |v| == 2 && v[0] == ',' && IsDigit(v[1])
    ensures IsNum(v)
  {
    var rest := v[1..];
    StripFixpoint(v);
    assert RemoveChar(v, ',') == RemoveChar(rest, ',');
    assert rest == [v[1]] && ',' !in rest;
    assert Cleaned(v) == rest;
    assert StartsNumber(rest);
  }

  lemma CommaBeforeSpace()
    ensures !IsNum(", 5")
  {
    StripFixpoint(", 5");
    assert RemoveChar(", 5", ',') == RemoveChar(" 5", ',');
  }

  /** A lone minus sign is no number. */
  lemma MinusAlone()
    ensures !IsNum("-")
  {
    IsNumOfPlain("-");
  }

  /** Counts the cells that satisfy `p`. */
  function CountWhere(vs: seq<string>, p: string -> bool): (n: nat)
    ensures n <= |vs|
    ensures n == |vs| <==> forall i :: 0 <= i < |vs| ==> p(vs[i])
    ensures n == 0 <==> forall i :: 0 <= i < |vs| ==> !p(vs[i])
  {
    if |vs| == 0 then 0
    else (if p(vs[0]) then 1 else 0) + CountWhere(vs[1..], p)
  }

  /** Making one cell satisfy `p` never lowers the count. */
  lemma {:induction false} CountWhereUpdate(vs: seq<string>, p: string -> bool, i: nat, v: string)
    requires i < |vs| && p(v)
    ensures CountWhere(vs[i := v], p) >= CountWhere(vs, p)
    decreases |vs|
  {
    if i > 0 {
      assert vs[i := v][1..] == vs[1..][i - 1 := v];
      CountWhereUpdate(vs[1..], p, i - 1, v);
    } else {
      assert vs[i := v][1..] == vs[1..];
    }
  }

  function NumericCount(vs: seq<string>): (n: nat)
    ensures n <= |vs|
    ensures n == |vs| <==> forall i :: 0 <= i < |vs| ==> IsNum(vs[i])
    ensures n == 0 <==> forall i :: 0 <= i < |vs| ==> !IsNum(vs[i])
  {
    CountWhere(vs, IsNum)
  }

  /* ---------------------------------------------------------------------- */
  /* column types                                                            */

  datatype SqlType = Varchar(size: nat) | FloatType

  /** Columns stored as text whatever they hold. */
  const TextColumns: set<string> := {"department", "class", "semester", "course_session", "student_name", "student_id"}

  /** The share of numeric cells reaches 0.6, the count of cells taken as at least 1. */
  predicate MostlyNumeric(vs: seq<string>) {
    5 * NumericCount(vs) >= 3 * Max(1, |vs|)
  }

  /** The SQL type of a column from its name and cells. */
  function DecideType(name: string, vs: seq<string>): (t: SqlType)
    ensures name in TextColumns ==> t == Varchar(500)
    ensures name !in TextColumns ==> (t == FloatType <==> MostlyNumeric(vs))
    ensures t == FloatType || t == Varchar(500) || t == Varchar(1000)
  {
    if name in TextColumns then Varchar(500)
    else if MostlyNumeric(vs) then FloatType
    else Varchar(1000)
  }

  /** An empty column is text; so is one with no numeric cell. */
  lemma NoNumbersIsText(name: string, vs: seq<string>)
    requires forall i :: 0 <= i < |vs| ==> !IsNum(vs[i])
    ensures DecideType(name, vs) != FloatType
  {
  }

  /** Exactly three numeric cells in five is enough; two is not. */
  lemma ThresholdIsInclusive(name: string, vs: seq<string>)
    requires name !in TextColumns && |vs| == 5
    ensures NumericCount(vs) == 3 ==> DecideType(name, vs) == FloatType
    ensures NumericCount(vs) == 2 ==> DecideType(name, vs) == Varchar(1000)
  {
  }

  /** Turning a cell into a number never turns a float column back into text. */
  lemma DecideTypeMonotone(name: string, vs: seq<string>, i: nat, v: string)
    requires i < |vs| && IsNum(v)
    requires DecideType(name, vs) == FloatType
    ensures DecideType(name, vs[i := v]) == FloatType
  {
    CountWhereUpdate(vs, IsNum, i, v);
  }

  /* ---------------------------------------------------------------------- */
  /* cell coercion                                                           */

  /** Python's `float(s)`: a value, or `None` for a raised `ValueError`. */
  type FloatParse = string -> Option<real>

  datatype SqlValue = Null | Real(value: real) | Str(text: string)

  /** The value inserted for a cell of a column of type `t`. */
  function CoerceCell(v: string, t: SqlType, parse: FloatParse): (r: SqlValue)
    ensures r.Null? <==> v == "" || (t == FloatType && parse(Strip(RemoveChar(v, ','))).None?)
    ensures r.Real? ==> t == FloatType && parse(Strip(RemoveChar(v, ','))) == Some(r.value)
    // a text cell is stored as read, not stripped
    ensures t != FloatType && v != "" ==> r == Str(v)
    ensures t == FloatType ==> !r.Str?
  {
    if v == "" then Null
    else if t == FloatType then
      match parse(Strip(RemoveChar(v, ',')))
      case Some(x) => Real(x)
      case None => Null
    else Str(v)
  }

  /* ---------------------------------------------------------------------- */
  /* the commit                                                              */

  datatype Commit = Commit(columns: seq<string>, types: seq<SqlType>, rows: seq<seq<SqlValue>>)

  /** The column types, in column order. */
  function ColumnTypes(f: Frame): (ts: seq<SqlType>)
    requires Rectangular(f)
    ensures |ts| == |f.columns|
    ensures forall j :: 0 <= j < |ts| ==> ts[j] == DecideType(f.columns[j], Column(f, j))
  {
    seq(|f.columns|, j requires 0 <= j < |f.columns| => DecideType(f.columns[j], Column(f, j)))
  }

  function CoerceRow(row: seq<string>, ts: seq<SqlType>, parse: FloatParse): (r: seq<SqlValue>)
    requires |row| == |ts|
    ensures |r| == |row|
    ensures forall j :: 0 <= j < |row| ==> r[j] == CoerceCell(row[j], ts[j], parse)
  {
    seq(|row|, j requires 0 <= j < |row| => CoerceCell(row[j], ts[j], parse))
  }

  /** The renamed frame, its column types and the rows to insert. The code
      fails on two columns of one name (in the type scan, or for a
      forced-text name when the table is created), so distinct names are
      required. */
  function CommitRows(f: Frame, parse: FloatParse): (c: Commit)
    requires Rectangular(f) && NoDuplicates(f.columns)
    ensures c.columns == f.columns
    ensures c.types == ColumnTypes(f)
    ensures |c.types| == |c.columns|
    ensures |c.rows| == |f.rows|
    ensures forall i :: 0 <= i < |c.rows| ==> |c.rows[i]| == |c.columns|
    ensures forall i, j :: 0 <= i < |c.rows| && 0 <= j < |c.columns| ==>
              c.rows[i][j] == CoerceCell(f.rows[i][j], DecideType(f.columns[j], Column(f, j)), parse)
  {
    var ts := ColumnTypes(f);
    Commit(f.columns, ts, seq(|f.rows|, i requires 0 <= i < |f.rows| => CoerceRow(f.rows[i], ts, parse)))
  }

  /** No cell of a text column is lost: non-empty text cells are inserted as
      they are, empty ones as NULL, and nothing in a text column is NULL otherwise. */
  lemma TextColumnsKept(f: Frame, parse: FloatParse, i: nat, j: nat)
    requires Rectangular(f) && NoDuplicates(f.columns)
    requires i < |f.rows| && j < |f.columns|
    requires CommitRows(f, parse).types[j] != FloatType
    ensures var v := CommitRows(f, parse).rows[i][j];
            (v == Null <==> f.rows[i][j] == "") && (f.rows[i][j] != "" ==> v == Str(f.rows[i][j]))
  {
  }

  /* ---------------------------------------------------------------------- */
  /* paths                                                                   */

  /** `PurePath(p).name` for a POSIX path: the last component, empty and `.`
      components ignored. */
  function PathName(p: string): (r: string)
    ensures '/' !in r
    ensures r != "."
    ensures |r| <= |p|
    decreases |p|
  {
    if p == "" then ""
    else
      var i := LastIndexOf(p, '/');
      var last := p[i + 1..];
      if last == "" || last == "." then PathName(p[..if i < 0 then 0 else i])
      else last
  }

  /** A plain file name in some directory is the name of the path. */
  lemma PathNameOfFile(dir: string, f: string)
    requires f != "" && f != "." && '/' !in f
    ensures PathName(dir + "/" + f) == f
    ensures PathName(f) == f
  {
    var p := dir + "/" + f;
    var i := LastIndexOf(p, '/');
    assert p[|dir|] == '/';
    assert p[|dir| + 1..] == f;
    assert i == |dir|;
  }

  /** `PurePath.stem` (Python 3.13 and before): the name without its last
      suffix, where a leading dot and a trailing dot make no suffix. */
  function Stem(name: string): (r: string)
    ensures |r| <= |name| && r == name[..|r|]
  {
    var i := LastIndexOf(name, '.');
    if 0 < i < |name| - 1 then name[..i] else name
  }

  /** The stem of `n.ext` is `n`. */
  lemma StemDropsExtension(n: string, ext: string)
    requires n != [] && ext != [] && '.' !in ext
    ensures Stem(n + "." + ext) == n
  {
    var s := n + "." + ext;
    var i := LastIndexOf(s, '.');
    assert s[|n|] == '.';
    assert s[|n| + 1..] == ext;
    assert i == |n|;
    assert s[..|n|] == n;
  }

  /** Names without a suffix keep their stem: no dot, a leading dot only, or a trailing dot. */
  lemma StemWithoutSuffix(name: string)
    requires '.' !in name || LastIndexOf(name, '.') == 0 || LastIndexOf(name, '.') == |name| - 1
    ensures Stem(name) == name
  {
  }

  /* ---------------------------------------------------------------------- */
  /* names of the import                                                     */

  const TablePrefix: string := "student_marks_"

  /** `f"student_marks_{sanitize_identifier(Path(filepath).stem)}"`. */
  function TableName(filepath: string): (r: string)
    ensures |r| > |TablePrefix| && r[..|TablePrefix|] == TablePrefix
    ensures IsIdentifier(r[|TablePrefix|..])
  {
    var id := SanitizeIdentifier(Stem(PathName(filepath)));
    assert (TablePrefix + id)[|TablePrefix|..] == id;
    TablePrefix + id
  }

  /** The upload saves `name` as `f"{timestamp}_{name}"`. */
  function SavedName(timestamp: string, name: string): string {
    timestamp + "_" + name
  }

  /** Drops `digits_` from the front: the text before the first `_`, when it
      is all digits (and not empty). */
  function StripTimestamp(name: string): (r: string)
    ensures |r| <= |name| && r == name[|name| - |r|..]
  {
    var i := IndexOf(name, '_');
    if i < |name| && IsDigits(name[..i]) then name[i + 1..] else name
  }

  /** Stripping undoes the saving. */
  lemma StripTimestampOfSaved(timestamp: string, name: string)
    requires IsDigits(timestamp)
    ensures StripTimestamp(SavedName(timestamp, name)) == name
  {
    var s := SavedName(timestamp, name);
    var i := IndexOf(s, '_');
    assert s[|timestamp|] == '_';
    assert i == |timestamp|;
    assert s[..i] == timestamp;
    assert s[i + 1..] == name;
  }

  /** A name that does not start with digits and `_` is kept. */
  lemma StripTimestampKeeps(name: string)
    requires forall i :: 0 <= i < |name| && name[i] == '_' ==> !IsDigits(name[..i])
    ensures StripTimestamp(name) == name
  {
  }

  /** The name of the uploaded PDF: the saved name when one is given, else the
      file path's name, without the timestamp. */
  function OriginalFilename(savedFilename: Option<string>, filepath: string): (r: string)
  {
    var n := if savedFilename.Some? && savedFilename.value != "" then savedFilename.value else PathName(filepath);
    StripTimestamp(n)
  }

  /** The upload's own names come back as they were uploaded. */
  lemma OriginalFilenameRoundTrip(timestamp: string, name: string, dir: string)
    requires IsDigits(timestamp)
    requires name != "" && name != "." && '/' !in name
    ensures OriginalFilename(Some(SavedName(timestamp, name)), dir + "/" + SavedName(timestamp, name)) == name
    ensures OriginalFilename(None, dir + "/" + SavedName(timestamp, name)) == name
  {
    var s := SavedName(timestamp, name);
    assert '/' !in s by {
      assert forall k :: 0 <= k < |s| ==> s[k] == (if k < |timestamp| then timestamp[k] else if k == |timestamp| then '_' else name[k - |timestamp| - 1]);
    }
    PathNameOfFile(dir, s);
    StripTimestampOfSaved(timestamp, name);
  }

  /** The export file name before duplicates are numbered: the stem of the
      original name's last path component, with `.xlsx`. */
  function ExcelName(original: string): (r: string)
    ensures |r| >= 5 && r[|r| - 5..] == ".xlsx"
    ensures '/' !in r
  {
    var stem := Stem(PathName(original));
    NoSlashInStem(PathName(original));
    WithXlsx(stem);
    stem + ".xlsx"
  }

  lemma NoSlashInStem(name: string)
    requires '/' !in name
    ensures '/' !in Stem(name)
  {
    var r := Stem(name);
    assert forall k :: 0 <= k < |r| ==> r[k] == name[k];
  }

  lemma WithXlsx(stem: string)
    requires '/' !in stem
    ensures var r := stem + ".xlsx"; |r| >= 5 && r[|r| - 5..] == ".xlsx" && '/' !in r
  {
    var r := stem + ".xlsx";
    assert r[|r| - 5..] == ".xlsx";
    assert forall k :: 0 <= k < |r| ==> r[k] == (if k < |stem| then stem[k] else ".xlsx"[k - |stem|]);
  }

  /** The export of `n.ext`, in any directory or none, is `n.xlsx`. */
  lemma ExcelNameOfFile(dir: string, n: string, ext: string)
    requires n != [] && ext != [] && '.' !in ext && '/' !in n && '/' !in ext
    ensures ExcelName(dir + "/" + n + "." + ext) == n + ".xlsx"
    ensures ExcelName(n + "." + ext) == n + ".xlsx"
  {
    FileNameOfParts(n, ext);
    PathOfParts(dir, n, ext);
    PathNameOfFile(dir, n + "." + ext);
    StemDropsExtension(n, ext);
  }

  /** The table for `n.ext`, in any directory or none, is named after `n`. */
  lemma TableNameOfFile(dir: string, n: string, ext: string)
    requires n != [] && ext != [] && '.' !in ext && '/' !in n && '/' !in ext
    ensures TableName(dir + "/" + n + "." + ext) == TablePrefix + SanitizeIdentifier(n)
    ensures TableName(n + "." + ext) == TablePrefix + SanitizeIdentifier(n)
  {
    FileNameOfParts(n, ext);
    PathOfParts(dir, n, ext);
    PathNameOfFile(dir, n + "." + ext);
    StemDropsExtension(n, ext);
  }

  /** A saved upload's name starts with the digits of its timestamp, so its
      table name always carries the `c_` prefix. */
  lemma SavedTableName(dir: string, timestamp: string, n: string, ext: string)
    requires IsDigits(timestamp)
    requires ext != [] && '.' !in ext && '/' !in n && '/' !in ext
    ensures var t := TableName(dir + "/" + SavedName(timestamp, n + "." + ext));
            && t == TablePrefix + SanitizeIdentifier(timestamp + "_" + n)
            && |t| >= |TablePrefix| + 2 && t[..|TablePrefix| + 2] == TablePrefix + "c_"
  {
    var m := timestamp + "_" + n;
    SavedParts(timestamp, n, ext);
    PathOfParts(dir, m, ext);
    TableNameOfFile(dir, m, ext);
    DigitFirstGetsPrefix(m);
    PrefixedTable(SanitizeIdentifier(m));
  }

  lemma PrefixedTable(id: string)
    requires |id| >= 2 && id[..2] == "c_"
    ensures |TablePrefix + id| >= |TablePrefix| + 2
    ensures (TablePrefix + id)[..|TablePrefix| + 2] == TablePrefix + "c_"
  {
    assert (TablePrefix + id)[..|TablePrefix| + 2] == TablePrefix + id[..2];
  }

  /** The saved name `timestamp_n.ext` splits into the stem `timestamp_n`,
      which starts with a digit and holds no `/`, and the extension. */
  lemma SavedParts(timestamp: string, n: string, ext: string)
    requires IsDigits(timestamp) && '/' !in n
    ensures var m := timestamp + "_" + n;
            && SavedName(timestamp, n + "." + ext) == m + "." + ext
            && |m| > 0 && IsDigit(m[0]) && '/' !in m
  {
    var m := timestamp + "_" + n;
    assert m == timestamp + ("_" + n);
    assert IsDigit(timestamp[0]);
    assert '/' !in timestamp by { AllDigitsNoSlash(timestamp); }
  }

  lemma AllDigitsNoSlash(t: string)
    requires AllDigits(t)
    ensures '/' !in t
  {
    forall k | 0 <= k < |t|
      ensures t[k] != '/'
    {
      assert IsDigit(t[k]);
    }
  }

  /** Sanitizing a name that starts with a digit puts `c_` in front. */
  lemma DigitFirstGetsPrefix(m: string)
    requires |m| > 0 && IsDigit(m[0])
    ensures |SanitizeIdentifier(m)| >= 2 && SanitizeIdentifier(m)[..2] == "c_"
  {
    StripKeepsFirst(m);
    SanitizeIdentifierKeepsText(m);
  }

  lemma PathOfParts(dir: string, n: string, ext: string)
    ensures dir + "/" + n + "." + ext == dir + "/" + (n + "." + ext)
  {
  }

  /** `n.ext` is a plain file name. */
  lemma FileNameOfParts(n: string, ext: string)
    requires n != [] && ext != [] && '/' !in n && '/' !in ext
    ensures var f := n + "." + ext; f != "" && f != "." && '/' !in f
  {
    var f := n + "." + ext;
    assert |f| >= 3;
    assert forall k :: 0 <= k < |f| ==> f[k] == (if k < |n| then n[k] else if k == |n| then '.' else ext[k - |n| - 1]);
  }

  /** The non-empty ones of the fields, in order. */
  function NonEmpty(fields: seq<string>): (r: seq<string>)
    ensures |r| <= |fields|
    ensures forall i :: 0 <= i < |r| ==> r[i] != ""
    ensures forall x :: x in r <==> x in fields && x != ""
  {
    if |fields| == 0 then []
    else
      var rest := NonEmpty(fields[1..]);
      assert forall x :: x in fields <==> x == fields[0] || x in fields[1..];
      if fields[0] != "" then [fields[0]] + rest else rest
  }

  /** Filtering a concatenation filters each part. */
  lemma {:induction false} NonEmptyAppend(a: seq<string>, b: seq<string>)
    ensures NonEmpty(a + b) == NonEmpty(a) + NonEmpty(b)
    decreases |a|
  {
    if |a| > 0 {
      assert (a + b)[1..] == a[1..] + b;
      NonEmptyAppend(a[1..], b);
    } else {
      assert a + b == b;
    }
  }

  /** One field is kept exactly when it is not empty. */
  lemma NonEmptyOne(x: string)
    ensures NonEmpty([x]) == if x != "" then [x] else []
  {
  }

  /** The three fields of a title, filtered. */
  lemma NonEmptyThree(d: string, c: string, s: string)
    ensures NonEmpty([d, c, s]) == NonEmpty([d]) + NonEmpty([c]) + NonEmpty([s])
  {
    assert [d, c, s] == [d] + [c] + [s];
    NonEmptyAppend([d] + [c], [s]);
    NonEmptyAppend([d], [c]);
  }

  /** The export title: the non-empty ones of department, class and semester
      joined by ` - `, or the original file's stem when all are empty. */
  function Title(department: Option<string>, cls: Option<string>, semester: Option<string>, original: string): (r: string)
  {
    var parts := NonEmpty([department.GetOr(""), cls.GetOr(""), semester.GetOr("")]);
    if |parts| > 0 then JoinWith(" - ", parts) else Stem(PathName(original))
  }

  /** All three fields present: they are joined in order. */
  lemma TitleAllFields(department: Option<string>, cls: Option<string>, semester: Option<string>, original: string)
    requires department.GetOr("") != "" && cls.GetOr("") != "" && semester.GetOr("") != ""
    ensures var d, c, s := department.GetOr(""), cls.GetOr(""), semester.GetOr("");
            Title(department, cls, semester, original) == d + " - " + c + " - " + s
  {
    var d, c, s := department.GetOr(""), cls.GetOr(""), semester.GetOr("");
    NonEmptyThree(d, c, s);
    NonEmptyOne(d);
    NonEmptyOne(c);
    NonEmptyOne(s);
    assert NonEmpty([d, c, s]) == [d, c, s];
    JoinThree(" - ", d, c, s);
  }

  /** A missing middle field is skipped, separator and all. */
  lemma TitleSkipsMissing(department: Option<string>, cls: Option<string>, semester: Option<string>, original: string)
    requires department.GetOr("") != "" && cls.GetOr("") == "" && semester.GetOr("") != ""
    ensures var d, s := department.GetOr(""), semester.GetOr("");
            Title(department, cls, semester, original) == d + " - " + s
  {
    var d, c, s := department.GetOr(""), cls.GetOr(""), semester.GetOr("");
    NonEmptyThree(d, c, s);
    NonEmptyOne(d);
    NonEmptyOne(c);
    NonEmptyOne(s);
    assert NonEmpty([d, c, s]) == [d, s];
    assert [d, s][1..] == [s];
  }

  /** With every field missing or empty, the title is the stem of the
      original name's last path component. */
  lemma TitleFallsBackToStem(department: Option<string>, cls: Option<string>, semester: Option<string>, original: string)
    requires department.GetOr("") == "" && cls.GetOr("") == "" && semester.GetOr("") == ""
    ensures Title(department, cls, semester, original) == Stem(PathName(original))
  {
    NonEmptyThree("", "", "");
    NonEmptyOne("");
  }

  /** With any field given, the title is made of the given fields only. */
  lemma TitleFromFields(department: Option<string>, cls: Option<string>, semester: Option<string>, original: string)
    requires department.GetOr("") != "" || cls.GetOr("") != "" || semester.GetOr("") != ""
    ensures var d, c, s := department.GetOr(""), cls.GetOr(""), semester.GetOr("");
            Title(department, cls, semester, original) == JoinWith(" - ", NonEmpty([d]) + NonEmpty([c]) + NonEmpty([s]))
  {
    var d, c, s := department.GetOr(""), cls.GetOr(""), semester.GetOr("");
    NonEmptyThree(d, c, s);
    NonEmptyOne(d);
    NonEmptyOne(c);
    NonEmptyOne(s);
  }

  /** The title of an upload with no fields is the uploaded file's name
      without directory and extension. */
  lemma TitleOfFile(dir: string, n: string, ext: string)
    requires n != [] && ext != [] && '.' !in ext && '/' !in n && '/' !in ext
    ensures Title(None, None, None, dir + "/" + n + "." + ext) == n
  {
    var f := n + "." + ext;
    TitleFallsBackToStem(None, None, None, dir + "/" + n + "." + ext);
    FileNameOfParts(n, ext);
    PathOfParts(dir, n, ext);
    PathNameOfFile(dir, f);
    StemDropsExtension(n, ext);
  }

  /** A title from fields is never the file's stem unless all fields are empty:
      it starts with the first non-empty field. */
  lemma TitleStartsWithFirstField(department: Option<string>, cls: Option<string>, semester: Option<string>, original: string)
    requires department.GetOr("") != ""
    ensures var d := department.GetOr("");
            var t := Title(department, cls, semester, original);
            |t| >= |d| && t[..|d|] == d
  {
    var fields := [department.GetOr(""), cls.GetOr(""), semester.GetOr("")];
    var parts := NonEmpty(fields);
    assert parts == [fields[0]] + NonEmpty(fields[1..]);
    if |parts| > 1 {
      assert JoinWith(" - ", parts) == parts[0] + " - " + JoinWith(" - ", parts[1..]);
    }
  }

  /* ---------------------------------------------------------------------- */
  /* confirm_import                                                          */

  datatype ConfirmRequest = ConfirmRequest(
    previewToken: Option<string>,
    filepath: Option<string>,
    savedFilename: Option<string>,
    renameMap: Option<map<string, string>>,
    department: Option<string>,
    cls: Option<string>,
    semester: Option<string>)

  datatype ConfirmError =
    | MissingData
      /** Two columns share a name after renaming. For most names the type
          scan fails; for a forced-text name the scan succeeds and creating
          the table fails instead. */
    | DuplicateColumn

  datatype Import = Import(tableName: string, commit: Commit, excelName: string, title: string, originalPdf: string)

  function Present(o: Option<string>): bool {
    o.Some? && o.value != ""
  }

  /** `confirm_import` on the preview frame read back from the token's file. */
  function ConfirmImport(req: ConfirmRequest, preview: Frame, parse: FloatParse): (r: Result<Import, ConfirmError>)
    requires Rectangular(preview)
    ensures r == Failure(MissingData) <==> !Present(req.previewToken) || !Present(req.filepath)
    ensures Present(req.previewToken) && Present(req.filepath) ==>
              (r == Failure(DuplicateColumn) <==> !NoDuplicates(RenameColumns(preview.columns, req.renameMap.GetOr(map[]))))
    ensures r.Success? ==>
              var cols := RenameColumns(preview.columns, req.renameMap.GetOr(map[]));
              && NoDuplicates(cols)
              && r.value.commit.columns == cols
              && r.value.commit == CommitRows(Frame(cols, preview.rows), parse)
              && |r.value.commit.rows| == |preview.rows|
              && r.value.tableName == TableName(req.filepath.value)
              && r.value.originalPdf == OriginalFilename(req.savedFilename, req.filepath.value)
              && r.value.excelName == ExcelName(r.value.originalPdf)
              && r.value.title == Title(req.department, req.cls, req.semester, r.value.originalPdf)
  {
    if !Present(req.previewToken) || !Present(req.filepath) then Failure(MissingData)
    else
      var cols := RenameColumns(preview.columns, req.renameMap.GetOr(map[]));
      if !NoDuplicates(cols) then Failure(DuplicateColumn)
      else
        var f := Frame(cols, preview.rows);
        var original := OriginalFilename(req.savedFilename, req.filepath.value);
        Success(Import(TableName(req.filepath.value), CommitRows(f, parse), ExcelName(original),
                       Title(req.department, req.cls, req.semester, original), original))
  }
}
