/**
 * The row validator: header normalisation, and the clean-up that folds the
 * keys of raw extracted rows onto the common set Name, Roll No, Marks,
 * Grade and Course, with a roll number recovered from the row's text when
 * the row names a student but gives no roll number.
 */
module Validator {
  import opened Text
  import opened Optional

  /* ---------------------------------------------------------------------- */
  /* header normalisation                                                    */

  /** Empty stays empty; otherwise strip, lower-case, spaces to `_`. */
  function NormalizeHeader(h: string): (r: string)
    ensures |r| <= |h|
    ensures ' ' !in r
    ensures forall i :: 0 <= i < |r| ==> !IsUpper(r[i])
    ensures NoSpaceAtEnds(r)
  {
    if h == "" then h
    else
      var s := Strip(h);
      LowerUnderscored(s);
      ReplaceChar(Lower(s), ' ', '_')
  }

  /** Lower-casing and turning blanks into `_` leaves no blank and no capital,
      and keeps text without whitespace at its ends so. */
  lemma LowerUnderscored(s: string)
    requires NoSpaceAtEnds(s)
    ensures var r := ReplaceChar(Lower(s), ' ', '_');
            && ' ' !in r
            && (forall i :: 0 <= i < |r| ==> !IsUpper(r[i]))
            && NoSpaceAtEnds(r)
  {
    var l := Lower(s);
    var r := ReplaceChar(l, ' ', '_');
    forall i | 0 <= i < |r|
      ensures r[i] != ' ' && !IsUpper(r[i])
    {
      assert r[i] == (if l[i] == ' ' then '_' else l[i]);
    }
    if |s| > 0 {
      assert !IsSpace(l[0]) && !IsSpace(l[|l| - 1]);
    }
  }

  /** Whitespace around a header does not change its normal form. */
  lemma NormalizeHeaderDropsEnds(w: string, h: string, v: string)
    requires AllSpace(w) && AllSpace(v)
    ensures NormalizeHeader(w + h + v) == NormalizeHeader(h)
  {
    StripDropsRuns(w, h, v);
    NormalizeHeaderOfStrip(w + h + v);
    NormalizeHeaderOfStrip(h);
  }

  /** The normal form depends only on the stripped header, the empty one included. */
  lemma NormalizeHeaderOfStrip(h: string)
    ensures NormalizeHeader(h) == ReplaceChar(Lower(Strip(h)), ' ', '_')
  {
    if h == "" {
      assert Strip(h) == [];
      assert ReplaceChar(Lower(Strip(h)), ' ', '_') == [];
    }
  }

  /** A normalised header is normalised already. */
  lemma NormalizeHeaderIdempotent(h: string)
    ensures NormalizeHeader(NormalizeHeader(h)) == NormalizeHeader(h)
  {
    NormalizedIsFixpoint(NormalizeHeader(h));
  }

  /** A header with no blank, no upper-case letter and no whitespace at its
      ends is its own normal form. */
  lemma NormalizedIsFixpoint(r: string)
    requires ' ' !in r && NoSpaceAtEnds(r)
    requires forall i :: 0 <= i < |r| ==> !IsUpper(r[i])
    ensures NormalizeHeader(r) == r
  {
    NormalizeHeaderOfStrip(r);
    StripFixpoint(r);
    LowerOfLower(r);
    ReplaceAbsent(r, ' ', '_');
  }

  /** Inner whitespace other than the blank is kept: only ` ` becomes `_`. */
  lemma NormalizeHeaderOnlyBlanks(h: string, i: nat)
    requires h != "" && NoSpaceAtEnds(h) && i < |h|
    ensures NormalizeHeader(h)[i] == (if h[i] == ' ' then '_' else LowerChar(h[i]))
  {
    StripFixpoint(h);
  }

  /* ---------------------------------------------------------------------- */
  /* values and rows                                                         */

  /** A cell value: a string, or any other object with its `str()` text and
      its truthiness. */
  datatype Value = Str(s: string) | Other(shown: string, truthy: bool)

  predicate Truthy(v: Value) {
    match v
    case Str(s) => s != ""
    case Other(_, t) => t
  }

  /** `str(v)`. */
  function Shown(v: Value): string {
    match v
    case Str(s) => s
    case Other(shown, _) => shown
  }

  /** Strings are stripped; other values are kept. */
  function Cleaned(v: Value): (r: Value)
    ensures r.Str? <==> v.Str?
    ensures r.Str? ==> NoSpaceAtEnds(r.s)
    ensures !v.Str? ==> r == v
  {
    match v
    case Str(s) => Str(Strip(s))
    case Other(_, _) => v
  }

  /** A raw row: the key/value pairs of the dictionary in insertion order. */
  type RawRow = seq<(string, Value)>

  type Row = map<string, Value>

  const NameKey: string := "Name"
  const RollKey: string := "Roll No"
  const MarksKey: string := "Marks"
  const GradeKey: string := "Grade"
  const CourseKey: string := "Course"

  const CommonKeys: set<string> := {NameKey, RollKey, MarksKey, GradeKey, CourseKey}

  /** Python's `w in s`, scanning `s` from the left. */
  predicate HasSub(s: string, w: string)
    decreases |s|
  {
    |w| <= |s| && (s[..|w|] == w || HasSub(s[1..], w))
  }

  /** The scan finds `w` exactly when `w` occurs somewhere in `s`. */
  lemma {:induction false} HasSubIsContains(s: string, w: string)
    ensures HasSub(s, w) <==> Contains(s, w)
    decreases |s|
  {
    if |w| == 0 {
      assert OccursAt(s, w, 0);
    } else if |w| <= |s| {
      HasSubIsContains(s[1..], w);
      if s[..|w|] == w {
        assert OccursAt(s, w, 0);
      } else {
        ContainsShift(s, w);
      }
    }
  }

  /** Past a first position that does not start `w`, `w` occurs in `s`
      exactly when it occurs in the rest of `s`. */
  lemma ContainsShift(s: string, w: string)
    requires 0 < |w| <= |s| && s[..|w|] != w
    ensures Contains(s[1..], w) <==> Contains(s, w)
  {
    if Contains(s[1..], w) {
      var i :| 0 <= i <= |s[1..]| && OccursAt(s[1..], w, i);
      OccursShift(s, w, i);
    }
    if Contains(s, w) {
      var i :| 0 <= i <= |s| && OccursAt(s, w, i);
      assert i != 0;
      OccursShift(s, w, i - 1);
    }
  }

  /** An occurrence in the rest of `s` is an occurrence one place further in `s`. */
  lemma OccursShift(s: string, w: string, i: nat)
    requires |s| > 0
    ensures OccursAt(s[1..], w, i) <==> OccursAt(s, w, i + 1)
  {
    if i + |w| <= |s| - 1 {
      assert s[1..][i..i + |w|] == s[i + 1..i + 1 + |w|];
    }
  }

  /** The key a raw key is stored under: the first of the rules whose word the
      stripped, lower-cased key contains, or the raw key itself. */
  function KeyFor(k: string): (r: string)
    ensures r in CommonKeys || r == k
  {
    Route(Lower(Strip(k)), k)
  }

  /** The rules on the stripped, lower-cased key. */
  function Route(key: string, k: string): (r: string)
    ensures r in CommonKeys || r == k
  {
    if HasSub(key, "name") then NameKey
    else if HasSub(key, "roll") || HasSub(key, "reg") then RollKey
    else if HasSub(key, "mark") || HasSub(key, "score") then MarksKey
    else if HasSub(key, "grade") then GradeKey
    else if HasSub(key, "course") || HasSub(key, "subject") then CourseKey
    else k
  }

  /** The rules in order, in terms of where the words occur: the first rule
      whose word occurs in the key decides, and a key holding none of the
      words keeps the raw key. */
  lemma RouteByContains(key: string, k: string)
    ensures var r := Route(key, k);
            && (Contains(key, "name") ==> r == NameKey)
            && ((!Contains(key, "name") && (Contains(key, "roll") || Contains(key, "reg")))
                ==> r == RollKey)
            && ((!Contains(key, "name") && !Contains(key, "roll") && !Contains(key, "reg")
                 && (Contains(key, "mark") || Contains(key, "score")))
                ==> r == MarksKey)
            && ((!Contains(key, "name") && !Contains(key, "roll") && !Contains(key, "reg")
                 && !Contains(key, "mark") && !Contains(key, "score") && Contains(key, "grade"))
                ==> r == GradeKey)
            && ((!Contains(key, "name") && !Contains(key, "roll") && !Contains(key, "reg")
                 && !Contains(key, "mark") && !Contains(key, "score") && !Contains(key, "grade")
                 && (Contains(key, "course") || Contains(key, "subject")))
                ==> r == CourseKey)
            && ((!Contains(key, "name") && !Contains(key, "roll") && !Contains(key, "reg")
                 && !Contains(key, "mark") && !Contains(key, "score") && !Contains(key, "grade")
                 && !Contains(key, "course") && !Contains(key, "subject"))
                ==> r == k)
  {
    HasSubIsContains(key, "name");
    HasSubIsContains(key, "roll");
    HasSubIsContains(key, "reg");
    HasSubIsContains(key, "mark");
    HasSubIsContains(key, "score");
    HasSubIsContains(key, "grade");
    HasSubIsContains(key, "course");
    HasSubIsContains(key, "subject");
  }

  /** A raw key that, stripped and lower-cased, holds none of the rules'
      words is kept as it is; one that holds `name` always becomes `Name`. */
  lemma KeyForByContains(k: string)
    ensures var key := Lower(Strip(k));
            && (Contains(key, "name") ==> KeyFor(k) == NameKey)
            && ((!Contains(key, "name") && !Contains(key, "roll") && !Contains(key, "reg")
                 && !Contains(key, "mark") && !Contains(key, "score") && !Contains(key, "grade")
                 && !Contains(key, "course") && !Contains(key, "subject"))
                ==> KeyFor(k) == k)
  {
    RouteByContains(Lower(Strip(k)), k);
  }

  /** No two neighbouring characters of `s` spell the start of `w`. */
  predicate NoPair(s: string, a: char, b: char) {
    forall i :: 0 <= i < |s| - 1 ==> !(s[i] == a && s[i + 1] == b)
  }

  lemma {:induction false} NoPairNoSub(s: string, w: string)
    requires |w| >= 2 && NoPair(s, w[0], w[1])
    ensures !HasSub(s, w)
    decreases |s|
  {
    if |w| <= |s| {
      assert s[..|w|][0] == s[0] && s[..|w|][1] == s[1];
      assert forall i :: 0 <= i < |s[1..]| ==> s[1..][i] == s[i + 1];
      NoPairNoSub(s[1..], w);
    }
  }

  /** A word holding a character `s` lacks is not in `s`. */
  lemma {:induction false} MissingCharNoSub(s: string, w: string, c: char)
    requires c in w && c !in s
    ensures !HasSub(s, w)
    decreases |s|
  {
    if |w| <= |s| {
      assert s[..|w|] != w by {
        var k :| 0 <= k < |w| && w[k] == c;
        assert s[..|w|][k] == s[k];
      }
      assert c !in s[1..];
      MissingCharNoSub(s[1..], w, c);
    }
  }

  /** A key with no whitespace at its ends is routed on its lower-cased self. */
  lemma KeyForOfPlain(k: string, key: string)
    requires NoSpaceAtEnds(k) && Lower(k) == key
    ensures KeyFor(k) == Route(key, k)
  {
    StripFixpoint(k);
  }

  lemma LowerOfCommonKeys()
    ensures Lower(NameKey) == "name" && Lower(RollKey) == "roll no" && Lower(MarksKey) == "marks"
    ensures Lower(GradeKey) == "grade" && Lower(CourseKey) == "course"
  {
    assert Lower(NameKey) == "name";
    assert Lower(RollKey) == "roll no";
    assert Lower(MarksKey) == "marks";
    assert Lower(GradeKey) == "grade";
    assert Lower(CourseKey) == "course";
  }

  lemma NameKeyStays()
    ensures KeyFor(NameKey) == NameKey
  {
    LowerOfCommonKeys();
    KeyForOfPlain(NameKey, "name");
    NameRoute();
  }

  lemma NameRoute()
    ensures Route("name", NameKey) == NameKey
  {
    assert "name"[..4] == "name";
  }

  lemma RollKeyStays()
    ensures KeyFor(RollKey) == RollKey
  {
    LowerOfCommonKeys();
    KeyForOfPlain(RollKey, "roll no");
    RollRoute();
  }

  lemma RollRoute()
    ensures Route("roll no", RollKey) == RollKey
  {
    MissingCharNoSub("roll no", "name", 'a');
    assert "roll no"[..4] == "roll";
  }

  lemma MarksKeyStays()
    ensures KeyFor(MarksKey) == MarksKey
  {
    LowerOfCommonKeys();
    KeyForOfPlain(MarksKey, "marks");
    MarksRoute();
  }

  lemma MarksRoute()
    ensures Route("marks", MarksKey) == MarksKey
  {
    MissingCharNoSub("marks", "name", 'n');
    MissingCharNoSub("marks", "roll", 'o');
    MissingCharNoSub("marks", "reg", 'g');
  }

  lemma GradeKeyStays()
    ensures KeyFor(GradeKey) == GradeKey
  {
    LowerOfCommonKeys();
    KeyForOfPlain(GradeKey, "grade");
    GradeRoute();
  }

  lemma GradeRoute()
    ensures Route("grade", GradeKey) == GradeKey
  {
    GradeMissesNameWords();
    MissingCharNoSub("grade", "mark", 'm');
    MissingCharNoSub("grade", "score", 's');
  }

  /** `grade` contains neither `name`, `roll` nor `reg`. */
  lemma GradeMissesNameWords()
    ensures !HasSub("grade", "name") && !HasSub("grade", "roll") && !HasSub("grade", "reg")
  {
    MissingCharNoSub("grade", "name", 'n');
    MissingCharNoSub("grade", "roll", 'o');
    NoPairNoSub("grade", "reg");
  }

  lemma CourseKeyStays()
    ensures KeyFor(CourseKey) == CourseKey
  {
    LowerOfCommonKeys();
    KeyForOfPlain(CourseKey, "course");
    CourseRoute();
  }

  lemma CourseRoute()
    ensures Route("course", CourseKey) == CourseKey
  {
    CourseMissesEarlierWords();
  }

  /** `course` contains none of the words looked for before `course`. */
  lemma CourseMissesEarlierWords()
    ensures !HasSub("course", "name") && !HasSub("course", "roll") && !HasSub("course", "reg")
    ensures !HasSub("course", "mark") && !HasSub("course", "score") && !HasSub("course", "grade")
  {
    CourseMissesNameWords();
    MissingCharNoSub("course", "mark", 'm');
    CourseMissesScore();
    MissingCharNoSub("course", "grade", 'g');
  }

  /** `course` contains neither `name`, `roll` nor `reg`. */
  lemma CourseMissesNameWords()
    ensures !HasSub("course", "name") && !HasSub("course", "roll") && !HasSub("course", "reg")
  {
    MissingCharNoSub("course", "name", 'n');
    MissingCharNoSub("course", "roll", 'l');
    MissingCharNoSub("course", "reg", 'g');
  }

  /** `course` holds every letter of `score`, but never `s` before `c`. */
  lemma CourseMissesScore()
    ensures !HasSub("course", "score")
  {
    NoPairNoSub("course", "score");
  }

  /** The common keys are fixed points: a cleaned row's common keys clean to
      themselves. */
  lemma CommonKeysStay()
    ensures KeyFor(NameKey) == NameKey && KeyFor(RollKey) == RollKey && KeyFor(MarksKey) == MarksKey
    ensures KeyFor(GradeKey) == GradeKey && KeyFor(CourseKey) == CourseKey
  {
    NameKeyStays();
    RollKeyStays();
    MarksKeyStays();
    GradeKeyStays();
    CourseKeyStays();
  }

  /** The key mapping of one row: each pair with a non-empty key, in order,
      sets the value of its key; a later pair overwrites an earlier one. */
  function Unify(items: RawRow, keyOf: string -> string): Row
    decreases |items|
  {
    if |items| == 0 then map[]
    else
      var n := |items| - 1;
      var row := Unify(items[..n], keyOf);
      if items[n].0 == "" then row else row[keyOf(items[n].0) := Cleaned(items[n].1)]
  }

  /** The `i`-th pair has a non-empty key that maps to `k`. */
  predicate MapsTo(items: RawRow, keyOf: string -> string, i: int, k: string) {
    0 <= i < |items| && items[i].0 != "" && keyOf(items[i].0) == k
  }

  /** The keys of a unified row are the keys its non-empty raw keys map to. */
  lemma {:induction false} UnifyKeys(items: RawRow, keyOf: string -> string, k: string)
    ensures k in Unify(items, keyOf) <==> exists i :: MapsTo(items, keyOf, i, k)
    decreases |items|
  {
    if |items| > 0 {
      var n := |items| - 1;
      var p := items[..n];
      UnifyKeys(p, keyOf, k);
      if MapsTo(items, keyOf, n, k) {
        UnifyLastHit(items, keyOf, k);
      } else {
        UnifyLastMiss(items, keyOf, k);
        MapsToPrefix(items, p, keyOf, k);
      }
    }
  }

  /** When the last pair does not map to `k`, the pairs mapping to `k` are those of the prefix. */
  lemma MapsToPrefix(items: RawRow, p: RawRow, keyOf: string -> string, k: string)
    requires |items| > 0 && p == items[..|items| - 1] && !MapsTo(items, keyOf, |items| - 1, k)
    ensures (exists i :: MapsTo(items, keyOf, i, k)) <==> (exists i :: MapsTo(p, keyOf, i, k))
  {
    if exists i :: MapsTo(items, keyOf, i, k) {
      var i :| MapsTo(items, keyOf, i, k);
      assert p[i] == items[i];
      assert MapsTo(p, keyOf, i, k);
    }
    if exists i :: MapsTo(p, keyOf, i, k) {
      var i :| MapsTo(p, keyOf, i, k);
      assert p[i] == items[i];
      assert MapsTo(items, keyOf, i, k);
    }
  }

  /** A last pair that names `q` sets the value of `q`. */
  lemma UnifyLastHit(items: RawRow, keyOf: string -> string, q: string)
    requires |items| > 0 && items[|items| - 1].0 != "" && keyOf(items[|items| - 1].0) == q
    ensures q in Unify(items, keyOf) && Unify(items, keyOf)[q] == Cleaned(items[|items| - 1].1)
  {
  }

  /** A last pair that does not name `q` leaves `q` as the pairs before it gave it. */
  lemma UnifyLastMiss(items: RawRow, keyOf: string -> string, q: string)
    requires |items| > 0 && !(items[|items| - 1].0 != "" && keyOf(items[|items| - 1].0) == q)
    ensures var row := Unify(items[..|items| - 1], keyOf);
            && (q in Unify(items, keyOf) <==> q in row)
            && (q in row ==> Unify(items, keyOf)[q] == row[q])
  {
  }

  /** A last pair that does not name `q` keeps the value the pairs before it gave `q`. */
  lemma UnifyKeeps(items: RawRow, keyOf: string -> string, q: string, v: Value)
    requires |items| > 0 && !(items[|items| - 1].0 != "" && keyOf(items[|items| - 1].0) == q)
    requires q in Unify(items[..|items| - 1], keyOf) && Unify(items[..|items| - 1], keyOf)[q] == v
    ensures q in Unify(items, keyOf) && Unify(items, keyOf)[q] == v
  {
    UnifyLastMiss(items, keyOf, q);
  }

  /** The last pair that maps to a key decides its value. */
  predicate NoLaterSameKey(items: RawRow, keyOf: string -> string, i: nat)
    requires i < |items|
  {
    forall j :: i < j < |items| && items[j].0 != "" ==> keyOf(items[j].0) != keyOf(items[i].0)
  }

  lemma {:induction false} UnifyLastWins(items: RawRow, keyOf: string -> string, i: nat)
    requires i < |items| && items[i].0 != ""
    requires NoLaterSameKey(items, keyOf, i)
    ensures keyOf(items[i].0) in Unify(items, keyOf)
    ensures Unify(items, keyOf)[keyOf(items[i].0)] == Cleaned(items[i].1)
    decreases |items|
  {
    var n := |items| - 1;
    var q := keyOf(items[i].0);
    if i < n {
      var p := items[..n];
      LaterKeysDifferInPrefix(items, p, keyOf, i);
      UnifyLastWins(p, keyOf, i);
      UnifyKeeps(items, keyOf, q, Cleaned(items[i].1));
    } else {
      UnifyLastHit(items, keyOf, q);
    }
  }

  lemma LaterKeysDifferInPrefix(items: RawRow, p: RawRow, keyOf: string -> string, i: nat)
    requires i < |items| - 1 && p == items[..|items| - 1]
    requires NoLaterSameKey(items, keyOf, i)
    ensures p[i] == items[i]
    ensures NoLaterSameKey(p, keyOf, i)
    ensures !(items[|items| - 1].0 != "" && keyOf(items[|items| - 1].0) == keyOf(items[i].0))
  {
    assert forall j :: i < j < |p| ==> p[j] == items[j];
  }

  /* ---------------------------------------------------------------------- */
  /* the roll-number search                                                  */

  /** Three digits start at `p`. */
  predicate RunAt(s: string, p: int) {
    0 <= p && p + 3 <= |s| && IsDigit(s[p]) && IsDigit(s[p + 1]) && IsDigit(s[p + 2])
  }

  /** Three digits start at `p` and at no earlier position. */
  predicate FirstRunAt(s: string, p: int) {
    RunAt(s, p) && forall j :: 0 <= j < p ==> !RunAt(s, j)
  }

  /** The number of digits in a row from `p`. */
  function RunLength(s: string, p: nat): (n: nat)
    requires p <= |s|
    ensures p + n <= |s|
    ensures forall i :: p <= i < p + n ==> IsDigit(s[i])
    ensures p + n == |s| || !IsDigit(s[p + n])
    decreases |s| - p
  {
    if p < |s| && IsDigit(s[p]) then 1 + RunLength(s, p + 1) else 0
  }

  /** The first position from `p` where three digits start, or `|s|`. */
  function FirstRunFrom(s: string, p: nat): (q: nat)
    requires p <= |s|
    ensures p <= q <= |s|
    ensures q < |s| ==> RunAt(s, q)
    ensures forall j :: p <= j < q ==> !RunAt(s, j)
    decreases |s| - p
  {
    if p == |s| then p
    else if RunAt(s, p) then p
    else FirstRunFrom(s, p + 1)
  }

  /** `re.search(r'(\d{3,10})', s)`: the leftmost place where three digits
      start, and from there as many digits as there are, at most ten. */
  function FirstDigitRun(s: string): (r: Option<string>)
    ensures r.None? <==> forall p :: 0 <= p < |s| ==> !RunAt(s, p)
    ensures r.Some? ==> 3 <= |r.value| <= 10 && IsDigits(r.value)
    ensures r.Some? ==>
              exists p :: FirstRunAt(s, p) &&
                p + |r.value| <= |s| && r.value == s[p..p + |r.value|] &&
                (|r.value| == 10 || p + |r.value| == |s| || !IsDigit(s[p + |r.value|]))
  {
    var p := FirstRunFrom(s, 0);
    if p == |s| then None
    else
      var n := Min(10, RunLength(s, p));
      RunTaken(s, p, n);
      Some(s[p..p + n])
  }

  /** The digits taken from the first run are a witness for the search's result. */
  lemma RunTaken(s: string, p: nat, n: nat)
    requires p < |s| && p == FirstRunFrom(s, 0) && n == Min(10, RunLength(s, p))
    ensures 3 <= n <= 10 && p + n <= |s| && IsDigits(s[p..p + n])
    ensures exists q :: FirstRunAt(s, q) &&
              q + n <= |s| && s[p..p + n] == s[q..q + n] &&
              (n == 10 || q + n == |s| || !IsDigit(s[q + n]))
  {
    var c := s[p..p + n];
    assert RunLength(s, p) >= 3 by {
      assert RunAt(s, p);
      RunLengthAtRun(s, p);
    }
    assert forall i :: 0 <= i < n ==> c[i] == s[p + i];
    assert FirstRunAt(s, p);
  }

  lemma RunLengthAtRun(s: string, p: nat)
    requires RunAt(s, p)
    ensures RunLength(s, p) >= 3
  {
    assert RunLength(s, p + 2) >= 1;
  }

  /** A number of three to ten digits, with no such run before it and a
      non-digit after it, is what the search finds. */
  lemma FirstDigitRunFinds(pre: string, d: string, post: string)
    requires forall p :: 0 <= p < |pre| ==> !RunAt(pre, p)
    requires pre == [] || !IsDigit(pre[|pre| - 1])
    requires 3 <= |d| <= 10 && IsDigits(d)
    requires post == [] || !IsDigit(post[0])
    ensures FirstDigitRun(pre + d + post) == Some(d)
  {
    var s := pre + d + post;
    NoRunBefore(pre, d, post);
    assert RunAt(s, |pre|) by {
      assert s[|pre|] == d[0] && s[|pre| + 1] == d[1] && s[|pre| + 2] == d[2];
    }
    var q := FirstRunFrom(s, 0);
    assert q == |pre|;
    RunLengthOf(pre, d, post);
    assert s[q..q + |d|] == d;
  }

  lemma NoRunBefore(pre: string, d: string, post: string)
    requires forall p :: 0 <= p < |pre| ==> !RunAt(pre, p)
    requires pre == [] || !IsDigit(pre[|pre| - 1])
    ensures forall p :: 0 <= p < |pre| ==> !RunAt(pre + d + post, p)
  {
    var s := pre + d + post;
    forall p | 0 <= p < |pre|
      ensures !RunAt(s, p)
    {
      if p + 3 <= |pre| {
        assert !RunAt(pre, p);
        assert s[p] == pre[p] && s[p + 1] == pre[p + 1] && s[p + 2] == pre[p + 2];
      } else {
        assert s[|pre| - 1] == pre[|pre| - 1];
      }
    }
  }

  lemma RunLengthOf(pre: string, d: string, post: string)
    requires IsDigits(d)
    requires post == [] || !IsDigit(post[0])
    ensures RunLength(pre + d + post, |pre|) == |d|
  {
    var s := pre + d + post;
    assert forall k :: 0 <= k < |d| ==> s[|pre| + k] == d[k];
    assert |post| > 0 ==> s[|pre| + |d|] == post[0];
  }

  /* ---------------------------------------------------------------------- */
  /* rows                                                                    */

  function ShownValues(items: RawRow): (r: seq<string>)
    ensures |r| == |items|
    ensures forall i :: 0 <= i < |items| ==> r[i] == Shown(items[i].1)
  {
    seq(|items|, i requires 0 <= i < |items| => Shown(items[i].1))
  }

  /** The text searched for a roll number: `str` of every original value,
      unstripped, joined by blanks. */
  function RowText(items: RawRow): string {
    JoinWith(" ", ShownValues(items))
  }

  /** The row lacks a roll number but names a student. */
  predicate NeedsRoll(row: Row) {
    !(RollKey in row && Truthy(row[RollKey])) && NameKey in row && Truthy(row[NameKey])
  }

  /** One cleaned row. */
  function CleanRow(items: RawRow): (row: Row)
    ensures !NeedsRoll(Unify(items, KeyFor)) ==> row == Unify(items, KeyFor)
    ensures forall k :: k != RollKey ==> (k in row <==> k in Unify(items, KeyFor))
    ensures forall k :: k in row && k != RollKey ==> row[k] == Unify(items, KeyFor)[k]
    ensures RollKey in row && (RollKey !in Unify(items, KeyFor) || row[RollKey] != Unify(items, KeyFor)[RollKey]) ==>
              NeedsRoll(Unify(items, KeyFor)) && row[RollKey].Str? && FirstDigitRun(RowText(items)) == Some(row[RollKey].s)
  {
    var u := Unify(items, KeyFor);
    if NeedsRoll(u) then
      match FirstDigitRun(RowText(items))
      case Some(c) => u[RollKey := Str(c)]
      case None => u
    else u
  }

  /** A recovered roll number is three to ten digits. */
  lemma RecoveredRollIsDigits(items: RawRow)
    requires NeedsRoll(Unify(items, KeyFor))
    ensures FirstDigitRun(RowText(items)).Some? ==>
              RollKey in CleanRow(items) && IsDigits(CleanRow(items)[RollKey].s) &&
              3 <= |CleanRow(items)[RollKey].s| <= 10
    ensures FirstDigitRun(RowText(items)).None? ==> CleanRow(items) == Unify(items, KeyFor)
  {
  }

  /** A key that no rule claims is kept, under its own unstripped name, with
      the last value given for it. */
  lemma ExtraKeyKept(items: RawRow, i: nat)
    requires i < |items| && items[i].0 != "" && KeyFor(items[i].0) !in CommonKeys
    requires forall j :: i < j < |items| ==> items[j].0 != items[i].0
    ensures items[i].0 in CleanRow(items)
    ensures CleanRow(items)[items[i].0] == Cleaned(items[i].1)
  {
    UnifyLastWins(items, KeyFor, i);
  }

  /** A row with no name column never gets a roll number from the search. */
  lemma NoNameNoSearch(items: RawRow)
    requires forall i :: 0 <= i < |items| && items[i].0 != "" ==> KeyFor(items[i].0) != NameKey
    ensures CleanRow(items) == Unify(items, KeyFor)
  {
    UnifyKeys(items, KeyFor, NameKey);
  }

  /** `clean_and_validate_rows`: one cleaned row per raw row, in order. */
  function CleanAndValidateRows(raw: seq<RawRow>): (rows: seq<Row>)
    ensures |rows| == |raw|
    ensures forall i :: 0 <= i < |raw| ==> rows[i] == CleanRow(raw[i])
  {
    if |raw| == 0 then []
    else [CleanRow(raw[0])] + CleanAndValidateRows(raw[1..])
  }

  /** Rows are cleaned independently of each other. */
  lemma {:induction false} CleanRowsAppend(a: seq<RawRow>, b: seq<RawRow>)
    ensures CleanAndValidateRows(a + b) == CleanAndValidateRows(a) + CleanAndValidateRows(b)
    decreases |a|
  {
    if |a| > 0 {
      assert (a + b)[1..] == a[1..] + b;
      CleanRowsAppend(a[1..], b);
    } else {
      assert a + b == b;
    }
  }
}
