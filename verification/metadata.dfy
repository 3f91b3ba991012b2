/**
 * Document metadata: the four labelled fields the extractor looks for in the
 * page text. The regular-expression search itself is a parameter (a
 * `Matcher`); what happens around it is modelled: the whitespace collapse of
 * the text, first-alternative-wins per field, the `""` default and the
 * clean-up of a captured value.
 */
module Metadata {
  import opened Text
  import opened Optional

  datatype Metadata = Metadata(department: string, cls: string, semester: string, courseSession: string)

  /** The record returned when nothing is found or the document cannot be read. */
  const EmptyMetadata: Metadata := Metadata("", "", "", "")

  /** A case-insensitive `re.search(pattern, text)`: the first capture group
      of the leftmost match, or `None` when the pattern does not occur. */
  type Matcher = (string, string) -> Option<string>

  const DepartmentPatterns: seq<string> := [
    @"(?:department\s*[:\-]\s*)([A-Za-z0-9&\-,\s\.]+)",
    @"(?:dept\s*[:\-]\s*)([A-Za-z0-9&\-,\s\.]+)"
  ]
  const ClassPatterns: seq<string> := [
    @"(?:class\s*[:\-]\s*)([A-Za-z0-9\-\s\/&]+)",
    @"(?:section\s*[:\-]\s*)([A-Za-z0-9\-\s\/&]+)"
  ]
  const SemesterPatterns: seq<string> := [
    @"(?:semester\s*[:\-]\s*)([A-Za-z0-9\-\s]+)",
    @"(?:sem\s*[:\-]\s*)([A-Za-z0-9\-\s]+)"
  ]
  const SessionPatterns: seq<string> := [
    @"(?:session\s*[:\-]\s*)([A-Za-z0-9\-\s\/]+)",
    @"(?:course session\s*[:\-]\s*)([A-Za-z0-9\-\s\/]+)"
  ]

  const AllPatterns: seq<string> := DepartmentPatterns + ClassPatterns + SemesterPatterns + SessionPatterns

  /** Every pattern needs its label, so none matches the empty text. */
  predicate NeverMatchesEmpty(m: Matcher) {
    forall i :: 0 <= i < |AllPatterns| ==> m(AllPatterns[i], "").None?
  }

  /* ---------------------------------------------------------------------- */
  /* the searched text                                                       */

  /** `re.sub(r'\s+', ' ', text).strip()`. */
  function SearchText(text: string): (s: string)
    ensures forall i :: 0 <= i < |s| ==> IsSpace(s[i]) ==> s[i] == ' '
    ensures forall i :: 0 <= i < |s| - 1 ==> !(s[i] == ' ' && s[i + 1] == ' ')
    ensures NoSpaceAtEnds(s)
    ensures Squeeze(s) == Squeeze(text)
  {
    var c := CollapseWhitespace(text);
    CollapseShape(text);
    CollapseKeepsContent(text);
    SqueezeStrip(c);
    StripOfCollapsed(c);
    Strip(c)
  }

  /** A word with no whitespace in it is searched as it is. */
  lemma SearchTextOfWord(a: string)
    requires forall i :: 0 <= i < |a| ==> !IsSpace(a[i])
    ensures SearchText(a) == a
  {
    CollapseFixpoint(a);
    StripFixpoint(a);
  }

  /** Whitespace before and after the text is not searched. */
  lemma SearchTextDropsEnds(w: string, t: string, v: string)
    requires AllSpace(w) && AllSpace(v)
    ensures SearchText(w + t + v) == SearchText(t)
  {
    StripCollapseDropsEnds(w, t, v);
  }

  /** A whitespace run of any kind between two pieces of text becomes exactly
      one blank, so the searched text is the pieces' own searched texts
      joined by `" "`. */
  lemma SearchTextSeparatesWords(a: string, w: string, b: string)
    requires |a| > 0 && |b| > 0 && NoSpaceAtEnds(a) && NoSpaceAtEnds(b)
    requires |w| > 0 && AllSpace(w)
    ensures SearchText(a + w + b) == SearchText(a) + " " + SearchText(b)
  {
    StripCollapseJoin(a, w, b);
  }

  lemma StripOfCollapsed(c: string)
    requires forall i :: 0 <= i < |c| ==> IsSpace(c[i]) ==> c[i] == ' '
    requires forall i :: 0 <= i < |c| - 1 ==> !(c[i] == ' ' && c[i + 1] == ' ')
    ensures var s := Strip(c);
            && (forall i :: 0 <= i < |s| ==> IsSpace(s[i]) ==> s[i] == ' ')
            && (forall i :: 0 <= i < |s| - 1 ==> !(s[i] == ' ' && s[i + 1] == ' '))
  {
    StripIsSlice(c);
  }

  lemma SqueezeStrip(s: string)
    ensures Squeeze(Strip(s)) == Squeeze(s)
  {
    SqueezeLStrip(s);
    SqueezeRStripAll(LStrip(s));
  }

  lemma {:induction false} SqueezeRStripAll(s: string)
    ensures Squeeze(RStrip(s)) == Squeeze(s)
    decreases |s|
  {
    if |s| > 0 && IsSpace(s[|s| - 1]) {
      var p := s[..|s| - 1];
      SqueezeRStripAll(p);
      SqueezeDropLastSpace(s);
    }
  }

  lemma {:induction false} SqueezeDropLastSpace(s: string)
    requires |s| > 0 && IsSpace(s[|s| - 1])
    ensures Squeeze(s) == Squeeze(s[..|s| - 1])
    decreases |s|
  {
    if |s| > 1 {
      assert s[1..][..|s[1..]| - 1] == s[..|s| - 1][1..];
      SqueezeDropLastSpace(s[1..]);
    }
  }

  /* ---------------------------------------------------------------------- */
  /* clean-up of a captured value                                            */

  /** The characters `[\s\.:;,\-\/]` cut from the end of a captured value. */
  predicate IsSeparator(c: char) {
    IsSpace(c) || c == '.' || c == ':' || c == ';' || c == ',' || c == '-' || c == '/'
  }

  /** `re.sub(r'[\s\.:;,\-\/]+$', '', s)` on a string that does not end in a
      newline: the longest run of separators at the end goes. */
  function DropTrailingSeparators(s: string): (r: string)
    ensures |r| <= |s| && r == s[..|r|]
    ensures forall i :: |r| <= i < |s| ==> IsSeparator(s[i])
    ensures r == [] || !IsSeparator(r[|r| - 1])
  {
    if |s| > 0 && IsSeparator(s[|s| - 1]) then DropTrailingSeparators(s[..|s| - 1]) else s
  }

  /** `re.sub(r'[\s\.:;,\-\/]+$', '', v.strip()).strip()`. */
  function CleanCapture(v: string): (r: string)
    ensures NoSpaceAtEnds(r)
    ensures r == [] || !IsSeparator(r[|r| - 1])
  {
    var d := DropTrailingSeparators(Strip(v));
    DropKeepsFront(Strip(v));
    StripFixpoint(d);
    Strip(d)
  }

  lemma DropKeepsFront(s: string)
    requires NoSpaceAtEnds(s)
    ensures NoSpaceAtEnds(DropTrailingSeparators(s))
  {
    var d := DropTrailingSeparators(s);
    if |d| > 0 {
      assert d[0] == s[0];
    }
  }

  /** `r` is the piece `v[a..b]`, with only whitespace before it and only
      separators after it. */
  predicate FramedPiece(v: string, r: string, a: int, b: int) {
    && 0 <= a <= b <= |v|
    && r == v[a..b]
    && (forall i :: 0 <= i < a ==> IsSpace(v[i]))
    && (forall i :: b <= i < |v| ==> IsSeparator(v[i]))
  }

  /** The value keeps a piece of the capture: what goes before it is
      whitespace, what goes after it is separators. */
  lemma CleanCaptureIsSlice(v: string)
    ensures exists a, b :: FramedPiece(v, CleanCapture(v), a, b)
  {
    StripIsSlice(v);
    var a, b :| 0 <= a <= b <= |v| && Strip(v) == v[a..b] && SpacesOutside(v, a, b);
    CleanCaptureIsDrop(v);
    DropOfSlice(v, a, b);
  }

  /** Dropping the trailing separators of a piece of `v` framed by whitespace
      leaves a piece framed by whitespace in front and separators behind. */
  lemma DropOfSlice(v: string, a: nat, b: nat)
    requires a <= b <= |v| && SpacesOutside(v, a, b)
    ensures var d := DropTrailingSeparators(v[a..b]);
            FramedPiece(v, d, a, a + |d|)
  {
    var t := v[a..b];
    var d := DropTrailingSeparators(t);
    assert d == v[a..a + |d|];
    SeparatorsAfter(v, t, d, a);
  }

  lemma SeparatorsAfter(v: string, t: string, d: string, a: nat)
    requires a + |t| <= |v| && t == v[a..a + |t|]
    requires forall i :: a + |t| <= i < |v| ==> IsSpace(v[i])
    requires d == DropTrailingSeparators(t)
    ensures forall i :: a + |d| <= i < |v| ==> IsSeparator(v[i])
  {
    forall i | a + |d| <= i < |v|
      ensures IsSeparator(v[i])
    {
      if i < a + |t| {
        assert v[i] == t[i - a];
      }
    }
  }

  /** The final `strip` has nothing left to do. */
  lemma CleanCaptureIsDrop(v: string)
    ensures CleanCapture(v) == DropTrailingSeparators(Strip(v))
  {
    DropKeepsFront(Strip(v));
    StripFixpoint(DropTrailingSeparators(Strip(v)));
  }

  /** A cleaned value is cleaned already. */
  lemma CleanCaptureIdempotent(v: string)
    ensures CleanCapture(CleanCapture(v)) == CleanCapture(v)
  {
    var r := CleanCapture(v);
    StripFixpoint(r);
    assert DropTrailingSeparators(r) == r;
    StripFixpoint(r);
  }

  /* ---------------------------------------------------------------------- */
  /* fields                                                                  */

  /** Index of the first pattern that matches, or `|pats|` when none does. */
  function FirstHit(m: Matcher, pats: seq<string>, s: string): (k: nat)
    ensures k <= |pats|
    ensures k < |pats| ==> m(pats[k], s).Some?
    ensures forall j :: 0 <= j < k ==> m(pats[j], s).None?
  {
    if |pats| == 0 then 0
    else if m(pats[0], s).Some? then 0
    else 1 + FirstHit(m, pats[1..], s)
  }

  /** One field: the cleaned capture of the first alternative that matches,
      `""` when none does. */
  function FieldValue(m: Matcher, pats: seq<string>, s: string): (r: string)
    ensures NoSpaceAtEnds(r)
    ensures r == [] || !IsSeparator(r[|r| - 1])
  {
    var k := FirstHit(m, pats, s);
    if k < |pats| then CleanCapture(m(pats[k], s).value) else ""
  }

  /** The first alternative that matches decides the field, even when its
      cleaned capture is empty and a later alternative would match too. */
  lemma FieldValueFirstWins(m: Matcher, pats: seq<string>, s: string, k: nat)
    requires k < |pats| && m(pats[k], s).Some?
    requires forall j :: 0 <= j < k ==> m(pats[j], s).None?
    ensures FieldValue(m, pats, s) == CleanCapture(m(pats[k], s).value)
  {
    var f := FirstHit(m, pats, s);
    if f < k {
    } else if f > k {
    }
  }

  /** A field no alternative matches is `""`. */
  lemma FieldValueDefault(m: Matcher, pats: seq<string>, s: string)
    requires forall j :: 0 <= j < |pats| ==> m(pats[j], s).None?
    ensures FieldValue(m, pats, s) == ""
  {
  }

  /** A field value as the clean-up leaves it. */
  predicate IsCleanValue(v: string) {
    NoSpaceAtEnds(v) && (v == [] || !IsSeparator(v[|v| - 1]))
  }

  /** The metadata record of a searched text: every field is clean. */
  function ExtractFields(m: Matcher, s: string): (md: Metadata)
    ensures IsCleanValue(md.department) && IsCleanValue(md.cls)
    ensures IsCleanValue(md.semester) && IsCleanValue(md.courseSession)
  {
    Metadata(
      FieldValue(m, DepartmentPatterns, s),
      FieldValue(m, ClassPatterns, s),
      FieldValue(m, SemesterPatterns, s),
      FieldValue(m, SessionPatterns, s))
  }

  /** On the empty text every field takes its default. */
  lemma ExtractFieldsEmpty(m: Matcher)
    requires NeverMatchesEmpty(m)
    ensures ExtractFields(m, "") == EmptyMetadata
  {
    assert AllPatterns[0] == DepartmentPatterns[0] && AllPatterns[1] == DepartmentPatterns[1];
    assert AllPatterns[2] == ClassPatterns[0] && AllPatterns[3] == ClassPatterns[1];
    assert AllPatterns[4] == SemesterPatterns[0] && AllPatterns[5] == SemesterPatterns[1];
    assert AllPatterns[6] == SessionPatterns[0] && AllPatterns[7] == SessionPatterns[1];
    FieldValueDefault(m, DepartmentPatterns, "");
    FieldValueDefault(m, ClassPatterns, "");
    FieldValueDefault(m, SemesterPatterns, "");
    FieldValueDefault(m, SessionPatterns, "");
  }
}
