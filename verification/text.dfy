/**
 * Character classes and string operations shared by the extractor, the
 * upload/confirm transformations and the row validator.
 *
 * Python's `str.isalnum`, `str.isdigit`, `str.strip`, `str.lower` and the
 * regular-expression classes `\s`, `\d`, `\w` are Unicode-aware; here they are
 * restricted to ASCII.
 */
module Text {

  /** Python's whitespace within ASCII: space, \t \n \v \f \r and the
      separators \x1c-\x1f. */
  predicate IsSpace(c: char) {
    c == ' ' || (9 <= c as int <= 13) || (28 <= c as int <= 31)
  }

  predicate IsDigit(c: char) {
    '0' <= c <= '9'
  }

  predicate IsLower(c: char) {
    'a' <= c <= 'z'
  }

  predicate IsUpper(c: char) {
    'A' <= c <= 'Z'
  }

  predicate IsAlnum(c: char) {
    IsDigit(c) || IsLower(c) || IsUpper(c)
  }

  /** The regular-expression class `\w`, and the characters `sanitize_identifier` keeps. */
  predicate IsWordChar(c: char) {
    IsAlnum(c) || c == '_'
  }

  predicate AllDigits(s: string) {
    forall i :: 0 <= i < |s| ==> IsDigit(s[i])
  }

  /** Python's `s.isdigit()`: false on the empty string. */
  predicate IsDigits(s: string) {
    |s| > 0 && AllDigits(s)
  }

  function LowerChar(c: char): (r: char)
    ensures !IsUpper(r)
    ensures IsUpper(c) ==> IsLower(r) && r as int == c as int + 32
    ensures !IsUpper(c) ==> r == c
  {
    if IsUpper(c) then (c as int + 32) as char else c
  }

  function Lower(s: string): (r: string)
    ensures |r| == |s|
    ensures forall i :: 0 <= i < |s| ==> r[i] == LowerChar(s[i])
  {
    seq(|s|, i requires 0 <= i < |s| => LowerChar(s[i]))
  }

  /** Text with no upper-case letter is its own lower-case form. */
  lemma LowerOfLower(s: string)
    requires forall i :: 0 <= i < |s| ==> !IsUpper(s[i])
    ensures Lower(s) == s
  {
  }

  function Min(a: int, b: int): int {
    if a <= b then a else b
  }

  function Max(a: int, b: int): int {
    if a <= b then b else a
  }

  /** Python's `s[:n]` for a non-negative `n`. */
  function Take<T>(s: seq<T>, n: nat): (r: seq<T>)
    ensures |r| == Min(n, |s|)
    ensures r == s[..|r|]
  {
    if n <= |s| then s[..n] else s
  }

  /** A non-empty sequence is its head followed by its tail. */
  lemma HeadTail<T>(s: seq<T>)
    requires |s| > 0
    ensures s == [s[0]] + s[1..]
  {
  }

  /* ---------------------------------------------------------------------- */
  /* strip                                                                   */

  /** Drops leading whitespace. */
  function LStrip(s: string): (r: string)
    ensures |r| <= |s| && r == s[|s| - |r|..]
    ensures forall i :: 0 <= i < |s| - |r| ==> IsSpace(s[i])
    ensures r == [] || !IsSpace(r[0])
  {
    if |s| > 0 && IsSpace(s[0]) then LStrip(s[1..]) else s
  }

  /** Drops trailing whitespace. */
  function RStrip(s: string): (r: string)
    ensures |r| <= |s| && r == s[..|r|]
    ensures forall i :: |r| <= i < |s| ==> IsSpace(s[i])
    ensures r == [] || !IsSpace(r[|r| - 1])
  {
    if |s| > 0 && IsSpace(s[|s| - 1]) then RStrip(s[..|s| - 1]) else s
  }

  /** Python's `s.strip()`. */
  function Strip(s: string): (r: string)
    ensures |r| <= |s|
    ensures r == [] || (!IsSpace(r[0]) && !IsSpace(r[|r| - 1]))
  {
    RStrip(LStrip(s))
  }

  /** `strip` removes whitespace from the ends and nothing else. */
  lemma StripIsSlice(s: string)
    ensures exists a, b :: 0 <= a <= b <= |s| && Strip(s) == s[a..b] && SpacesOutside(s, a, b)
  {
    var l := LStrip(s);
    var r := RStrip(l);
    var a := |s| - |l|;
    SuffixSlice(s, l, r, a);
    assert SpacesOutside(s, a, a + |r|);
  }

  /** A prefix `r` of the suffix `l` of `s` that starts at `a` is a slice of
      `s`, and whitespace after `r` in `l` is whitespace after it in `s`. */
  lemma SuffixSlice(s: string, l: string, r: string, a: nat)
    requires a <= |s| && l == s[a..] && |r| <= |l| && r == l[..|r|]
    requires forall j :: |r| <= j < |l| ==> IsSpace(l[j])
    ensures r == s[a..a + |r|]
    ensures forall i :: a + |r| <= i < |s| ==> IsSpace(s[i])
  {
    forall i | a + |r| <= i < |s|
      ensures IsSpace(s[i])
    {
      assert s[i] == l[i - a];
    }
  }

  /** A text that does not start with whitespace keeps its first character. */
  lemma StripKeepsFirst(s: string)
    requires |s| > 0 && !IsSpace(s[0])
    ensures |Strip(s)| > 0 && Strip(s)[0] == s[0]
  {
    LStripFixpoint(s);
  }

  /** Every character of `s` outside `s[a..b]` is whitespace. */
  predicate SpacesOutside(s: string, a: int, b: int)
    requires 0 <= a <= b <= |s|
  {
    (forall i :: 0 <= i < a ==> IsSpace(s[i])) && (forall i :: b <= i < |s| ==> IsSpace(s[i]))
  }

  predicate NoSpaceAtEnds(s: string) {
    s == [] || (!IsSpace(s[0]) && !IsSpace(s[|s| - 1]))
  }

  lemma {:induction false} LStripFixpoint(s: string)
    requires s == [] || !IsSpace(s[0])
    ensures LStrip(s) == s
  {
  }

  lemma {:induction false} RStripFixpoint(s: string)
    requires s == [] || !IsSpace(s[|s| - 1])
    ensures RStrip(s) == s
  {
  }

  /** A string without whitespace at its ends is left alone by `strip`. */
  lemma StripFixpoint(s: string)
    requires NoSpaceAtEnds(s)
    ensures Strip(s) == s
  {
    LStripFixpoint(s);
    RStripFixpoint(s);
  }

  /** `strip` is idempotent. */
  lemma StripIdempotent(s: string)
    ensures Strip(Strip(s)) == Strip(s)
  {
    StripFixpoint(Strip(s));
  }

  /* ---------------------------------------------------------------------- */
  /* whitespace collapse: re.sub(r'\s+', ' ', s)                             */

  /** Replaces every maximal run of whitespace by one space. */
  function CollapseWhitespace(s: string): (r: string)
    ensures |r| <= |s|
    ensures |s| > 0 <==> |r| > 0
    ensures |s| > 0 ==> (IsSpace(s[0]) <==> IsSpace(r[0]))
    ensures |s| > 0 && !IsSpace(s[0]) ==> r[0] == s[0]
    decreases |s|
  {
    if |s| == 0 then []
    else if IsSpace(s[0]) then
      var rest := LStrip(s[1..]);
      [' '] + CollapseWhitespace(rest)
    else
      [s[0]] + CollapseWhitespace(s[1..])
  }

  /** The only whitespace left is single blanks, never two in a row, and
      every other character comes from the input. */
  lemma CollapseShape(s: string)
    ensures var r := CollapseWhitespace(s);
            && (forall i :: 0 <= i < |r| ==> IsSpace(r[i]) ==> r[i] == ' ')
            && (forall i :: 0 <= i < |r| - 1 ==> !(r[i] == ' ' && r[i + 1] == ' '))
            && (forall i :: 0 <= i < |r| ==> r[i] == ' ' || r[i] in s)
  {
    CollapseOnlyBlanks(s);
    CollapseNoDoubleBlank(s);
    CollapseFromInput(s);
  }

  /** What `CollapseWhitespace` reads after the first character or whitespace run. */
  function CollapseTail(s: string): (t: string)
    requires |s| > 0
    ensures |t| < |s| && t == s[|s| - |t|..]
    ensures IsSpace(s[0]) ==> t == [] || !IsSpace(t[0])
  {
    if IsSpace(s[0]) then LStrip(s[1..]) else s[1..]
  }

  /** The first character or run gives one character, the rest is collapsed on. */
  lemma CollapseHead(s: string)
    requires |s| > 0
    ensures var r := CollapseWhitespace(s);
            var c := CollapseWhitespace(CollapseTail(s));
            && |r| == |c| + 1
            && r[0] == (if IsSpace(s[0]) then ' ' else s[0])
            && forall i :: 1 <= i < |r| ==> r[i] == c[i - 1]
  {
    CollapseStep(s);
    if IsSpace(s[0]) {
      ConsIndex(' ', CollapseWhitespace(LStrip(s[1..])));
    } else {
      ConsIndex(s[0], CollapseWhitespace(s[1..]));
    }
  }

  /** The positions of a sequence with one element put in front. */
  lemma ConsIndex<T>(h: T, c: seq<T>)
    ensures var r := [h] + c;
            && |r| == |c| + 1 && r[0] == h
            && forall i :: 1 <= i < |r| ==> r[i] == c[i - 1]
  {
  }

  lemma {:induction false} CollapseOnlyBlanks(s: string)
    ensures var r := CollapseWhitespace(s);
            forall i :: 0 <= i < |r| ==> IsSpace(r[i]) ==> r[i] == ' '
    decreases |s|
  {
    if |s| > 0 {
      CollapseHead(s);
      CollapseOnlyBlanks(CollapseTail(s));
    }
  }

  lemma {:induction false} CollapseNoDoubleBlank(s: string)
    ensures var r := CollapseWhitespace(s);
            forall i :: 0 <= i < |r| - 1 ==> !(r[i] == ' ' && r[i + 1] == ' ')
    decreases |s|
  {
    if |s| > 0 {
      var t := CollapseTail(s);
      CollapseHead(s);
      CollapseNoDoubleBlank(t);
      var r := CollapseWhitespace(s);
      var c := CollapseWhitespace(t);
      assert |r| > 1 ==> !(r[0] == ' ' && r[1] == ' ') by {
        if |r| > 1 {
          assert r[1] == c[0];
        }
      }
    }
  }

  lemma {:induction false} CollapseFromInput(s: string)
    ensures var r := CollapseWhitespace(s);
            forall i :: 0 <= i < |r| ==> r[i] == ' ' || r[i] in s
    decreases |s|
  {
    if |s| > 0 {
      var t := CollapseTail(s);
      CollapseHead(s);
      CollapseFromInput(t);
      assert forall x :: x in t ==> x in s;
    }
  }

  /** Every character class that holds the blank and all of `s` also holds
      all of `s` collapsed. */
  lemma {:induction false} CollapseKeepsClass(s: string, p: char -> bool)
    requires p(' ') && forall i :: 0 <= i < |s| ==> p(s[i])
    ensures forall i :: 0 <= i < |CollapseWhitespace(s)| ==> p(CollapseWhitespace(s)[i])
    decreases |s|
  {
    if |s| > 0 {
      var t := CollapseTail(s);
      CollapseHead(s);
      assert forall i :: 0 <= i < |t| ==> t[i] == s[|s| - |t| + i];
      CollapseKeepsClass(t, p);
    }
  }

  /** Text without whitespace is left as it is. */
  lemma {:induction false} CollapseFixpoint(s: string)
    requires forall i :: 0 <= i < |s| ==> !IsSpace(s[i])
    ensures CollapseWhitespace(s) == s
    decreases |s|
  {
    if |s| > 0 {
      CollapseFixpoint(s[1..]);
    }
  }

  predicate AllSpace(s: string) {
    forall i :: 0 <= i < |s| ==> IsSpace(s[i])
  }

  /** Leading whitespace of `t + b` is that of `t` when `t` holds something else. */
  lemma {:induction false} LStripAppend(t: string, b: string)
    requires !AllSpace(t)
    ensures LStrip(t + b) == LStrip(t) + b
    decreases |t|
  {
    if IsSpace(t[0]) {
      assert (t + b)[1..] == t[1..] + b;
      LStripAppend(t[1..], b);
    }
  }

  /** Whitespace in front of `b` is dropped with `b`'s own. */
  lemma {:induction false} LStripAllSpace(t: string, b: string)
    requires AllSpace(t)
    ensures LStrip(t) == []
    ensures LStrip(t + b) == LStrip(b)
    decreases |t|
  {
    if |t| > 0 {
      assert (t + b)[1..] == t[1..] + b;
      LStripAllSpace(t[1..], b);
    } else {
      assert t + b == b;
    }
  }

  /** A run of whitespace, however long and of whatever kind, becomes one blank. */
  lemma SpaceRunCollapses(w: string)
    requires |w| > 0 && AllSpace(w)
    ensures CollapseWhitespace(w) == " "
  {
    LStripAllSpace(w[1..], []);
    assert w[1..] + [] == w[1..];
  }

  /** Collapsing works piece by piece, as long as the cut does not fall inside
      a run of whitespace. With `CollapseFixpoint` and `SpaceRunCollapses` this
      fixes the result of every input: its pieces without whitespace are kept,
      and each run of whitespace between them becomes one blank. */
  lemma {:induction false} CollapseAppend(a: string, b: string)
    requires a == [] || b == [] || !IsSpace(a[|a| - 1]) || !IsSpace(b[0])
    ensures CollapseWhitespace(a + b) == CollapseWhitespace(a) + CollapseWhitespace(b)
    decreases |a|, 1
  {
    if |a| == 0 {
      assert a + b == b;
    } else if !IsSpace(a[0]) {
      CollapseAppendWord(a, b);
    } else if AllSpace(a[1..]) {
      CollapseAppendRun(a, b);
    } else {
      CollapseAppendBlank(a, b);
    }
  }

  /** `a` starts with a character other than whitespace, which is kept. */
  lemma {:induction false} CollapseAppendWord(a: string, b: string)
    requires |a| > 0 && !IsSpace(a[0])
    requires b == [] || !IsSpace(a[|a| - 1]) || !IsSpace(b[0])
    ensures CollapseWhitespace(a + b) == CollapseWhitespace(a) + CollapseWhitespace(b)
    decreases |a|, 0
  {
    var t := a[1..];
    assert (a + b)[0] == a[0];
    assert (a + b)[1..] == t + b;
    CollapseStep(a);
    CollapseStep(a + b);
    CollapseAppend(t, b);
    Assoc([a[0]], CollapseWhitespace(t), CollapseWhitespace(b));
  }

  /** `a` is one run of whitespace, so `b` starts with something else. */
  lemma CollapseAppendRun(a: string, b: string)
    requires |a| > 0 && IsSpace(a[0]) && AllSpace(a[1..])
    requires b == [] || !IsSpace(a[|a| - 1]) || !IsSpace(b[0])
    ensures CollapseWhitespace(a + b) == CollapseWhitespace(a) + CollapseWhitespace(b)
  {
    RunThenText(a, b);
    SpaceRunCollapses(a);
  }

  lemma RunThenText(a: string, b: string)
    requires |a| > 0 && AllSpace(a)
    requires b == [] || !IsSpace(b[0])
    ensures CollapseWhitespace(a + b) == [' '] + CollapseWhitespace(b)
  {
    var s := a + b;
    assert s[0] == a[0];
    CollapseStep(s);
    LStripAfterRun(a, b);
  }

  lemma LStripAfterRun(a: string, b: string)
    requires |a| > 0 && AllSpace(a)
    requires b == [] || !IsSpace(b[0])
    ensures LStrip((a + b)[1..]) == b
  {
    assert (a + b)[1..] == a[1..] + b;
    LStripAllSpace(a[1..], b);
    LStripFixpoint(b);
  }

  /** `a` starts with whitespace followed, later, by something else. */
  lemma {:induction false} CollapseAppendBlank(a: string, b: string)
    requires |a| > 0 && IsSpace(a[0]) && !AllSpace(a[1..])
    requires b == [] || !IsSpace(a[|a| - 1]) || !IsSpace(b[0])
    ensures CollapseWhitespace(a + b) == CollapseWhitespace(a) + CollapseWhitespace(b)
    decreases |a|, 0
  {
    var u := LStrip(a[1..]);
    BlankThenText(a, b);
    LStripKeepsLast(a[1..]);
    CollapseAppend(u, b);
    Assoc([' '], CollapseWhitespace(u), CollapseWhitespace(b));
  }

  lemma BlankThenText(a: string, b: string)
    requires |a| > 0 && IsSpace(a[0]) && !AllSpace(a[1..])
    ensures CollapseWhitespace(a) == [' '] + CollapseWhitespace(LStrip(a[1..]))
    ensures CollapseWhitespace(a + b) == [' '] + CollapseWhitespace(LStrip(a[1..]) + b)
  {
    var t := a[1..];
    assert (a + b)[1..] == t + b;
    LStripAppend(t, b);
  }

  /** Stripping text that holds something besides whitespace keeps its last character. */
  lemma LStripKeepsLast(t: string)
    requires !AllSpace(t)
    ensures |LStrip(t)| > 0 && LStrip(t)[|LStrip(t)| - 1] == t[|t| - 1]
  {
    var u := LStrip(t);
    assert u == t[|t| - |u|..];
  }

  /** One step of `CollapseWhitespace`. */
  lemma CollapseStep(s: string)
    requires |s| > 0
    ensures CollapseWhitespace(s) ==
              if IsSpace(s[0]) then [' '] + CollapseWhitespace(LStrip(s[1..])) else [s[0]] + CollapseWhitespace(s[1..])
  {
  }

  lemma Assoc<T>(x: seq<T>, y: seq<T>, z: seq<T>)
    ensures x + (y + z) == (x + y) + z
  {
  }

  /** Text that ends in a character other than whitespace still does so collapsed. */
  lemma CollapseKeepsLast(s: string)
    requires |s| > 0 && !IsSpace(s[|s| - 1])
    ensures var r := CollapseWhitespace(s);
            |r| > 0 && r[|r| - 1] == s[|s| - 1]
  {
    var n := |s| - 1;
    assert s == s[..n] + [s[n]];
    CollapseAppend(s[..n], [s[n]]);
    CollapseFixpoint([s[n]]);
  }

  /** `re.sub(r'\s+', ' ', s).strip()` puts exactly one blank between two
      pieces of text separated by whitespace. */
  lemma StripCollapseJoin(a: string, w: string, b: string)
    requires |a| > 0 && |b| > 0 && NoSpaceAtEnds(a) && NoSpaceAtEnds(b)
    requires |w| > 0 && AllSpace(w)
    ensures Strip(CollapseWhitespace(a + w + b)) ==
              Strip(CollapseWhitespace(a)) + " " + Strip(CollapseWhitespace(b))
  {
    var ca := CollapseWhitespace(a);
    var cb := CollapseWhitespace(b);
    CollapseJoin(a, w, b);
    CollapseEnds(a);
    CollapseEnds(b);
    StripFixpoint(ca);
    StripFixpoint(cb);
    JoinedEnds(ca, cb);
    StripFixpoint(ca + " " + cb);
  }

  /** A whitespace run between two pieces of text collapses to one blank. */
  lemma CollapseJoin(a: string, w: string, b: string)
    requires |a| > 0 && |b| > 0 && NoSpaceAtEnds(a) && NoSpaceAtEnds(b)
    requires |w| > 0 && AllSpace(w)
    ensures CollapseWhitespace(a + w + b) == CollapseWhitespace(a) + " " + CollapseWhitespace(b)
  {
    Assoc(a, w, b);
    CollapseAppend(w, b);
    CollapseAppend(a, w + b);
    SpaceRunCollapses(w);
    Assoc(CollapseWhitespace(a), " ", CollapseWhitespace(b));
  }

  /** Collapsing keeps the first and last character when neither is whitespace. */
  lemma CollapseEnds(a: string)
    requires |a| > 0 && NoSpaceAtEnds(a)
    ensures NoSpaceAtEnds(CollapseWhitespace(a)) && |CollapseWhitespace(a)| > 0
  {
    CollapseKeepsLast(a);
  }

  lemma JoinedEnds(x: string, y: string)
    requires |x| > 0 && |y| > 0 && NoSpaceAtEnds(x) && NoSpaceAtEnds(y)
    ensures NoSpaceAtEnds(x + " " + y)
  {
    var r := x + " " + y;
    assert r[0] == x[0] && r[|r| - 1] == y[|y| - 1];
  }

  /** Whitespace in front of `x` does not survive a strip. */
  lemma StripPrependRun(w: string, x: string)
    requires AllSpace(w)
    ensures Strip(w + x) == Strip(x)
  {
    LStripAllSpace(w, x);
  }

  lemma {:induction false} RStripAllSpace(x: string, v: string)
    requires AllSpace(v)
    ensures RStrip(x + v) == RStrip(x)
    decreases |v|
  {
    if |v| == 0 {
      assert x + v == x;
    } else {
      var n := |v| - 1;
      assert (x + v)[..|x + v| - 1] == x + v[..n];
      RStripAllSpace(x, v[..n]);
    }
  }

  /** Whitespace after `x` does not survive a strip. */
  lemma StripAppendRun(x: string, v: string)
    requires AllSpace(v)
    ensures Strip(x + v) == Strip(x)
  {
    if AllSpace(x) {
      LStripAllSpace(x, v);
      LStripAllSpace(v, []);
      assert v + [] == v;
    } else {
      LStripAppend(x, v);
      RStripAllSpace(LStrip(x), v);
    }
  }

  /** `strip` ignores whitespace added at either end. */
  lemma StripDropsRuns(w: string, x: string, v: string)
    requires AllSpace(w) && AllSpace(v)
    ensures Strip(w + x + v) == Strip(x)
  {
    Assoc(w, x, v);
    StripPrependRun(w, x + v);
    StripAppendRun(x, v);
  }

  lemma CollapseAllSpace(s: string)
    requires AllSpace(s)
    ensures AllSpace(CollapseWhitespace(s))
  {
    CollapseKeepsClass(s, c => IsSpace(c));
  }

  /** A text is its leading whitespace followed by the stripped rest. */
  lemma LeadSplit(t: string)
    ensures t == t[..|t| - |LStrip(t)|] + LStrip(t)
    ensures AllSpace(t[..|t| - |LStrip(t)|])
  {
  }

  /** A text is its stripped start followed by its trailing whitespace. */
  lemma TrailSplit(t: string)
    ensures t == RStrip(t) + t[|RStrip(t)|..]
    ensures AllSpace(t[|RStrip(t)|..])
  {
  }

  /** Collapsing a run of whitespace and then a text gives at most one blank
      and then the collapsed text. */
  lemma RunThenCollapsed(run: string, u: string)
    requires AllSpace(run) && (u == [] || !IsSpace(u[0]))
    ensures exists b :: AllSpace(b) && CollapseWhitespace(run + u) == b + CollapseWhitespace(u)
  {
    if |run| == 0 {
      assert run + u == u;
      assert CollapseWhitespace(run + u) == [] + CollapseWhitespace(u);
    } else if u == [] {
      assert run + u == run;
      CollapseAllSpace(run);
      assert CollapseWhitespace(run + u) == CollapseWhitespace(run) + CollapseWhitespace(u);
    } else {
      RunThenText(run, u);
      assert AllSpace([' ']);
    }
  }

  /** Collapsing a text and then a run of whitespace gives the collapsed text
      and then at most one blank. */
  lemma CollapsedThenRun(r: string, run: string)
    requires AllSpace(run) && (r == [] || !IsSpace(r[|r| - 1]))
    ensures exists b :: AllSpace(b) && CollapseWhitespace(r + run) == CollapseWhitespace(r) + b
  {
    CollapseAllSpace(run);
    if r == [] {
      assert r + run == run;
      assert CollapseWhitespace(r + run) == CollapseWhitespace(r) + CollapseWhitespace(run);
    } else {
      CollapseAppend(r, run);
    }
  }

  /** Leading whitespace makes no difference after collapse and strip. */
  lemma StripCollapseOfLStrip(t: string)
    ensures Strip(CollapseWhitespace(t)) == Strip(CollapseWhitespace(LStrip(t)))
  {
    var u := LStrip(t);
    LeadSplit(t);
    RunThenCollapsed(t[..|t| - |u|], u);
    var b :| AllSpace(b) && CollapseWhitespace(t) == b + CollapseWhitespace(u);
    StripPrependRun(b, CollapseWhitespace(u));
  }

  /** Trailing whitespace makes no difference after collapse and strip. */
  lemma StripCollapseOfRStrip(t: string)
    ensures Strip(CollapseWhitespace(t)) == Strip(CollapseWhitespace(RStrip(t)))
  {
    var r := RStrip(t);
    TrailSplit(t);
    CollapsedThenRun(r, t[|r|..]);
    var b :| AllSpace(b) && CollapseWhitespace(t) == CollapseWhitespace(r) + b;
    StripAppendRun(CollapseWhitespace(r), b);
  }

  /** `re.sub(r'\s+', ' ', s).strip()` ignores whitespace in front of the text. */
  lemma StripCollapseDropsLead(w: string, t: string)
    requires AllSpace(w)
    ensures Strip(CollapseWhitespace(w + t)) == Strip(CollapseWhitespace(t))
  {
    LStripAllSpace(w, t);
    StripCollapseOfLStrip(w + t);
    StripCollapseOfLStrip(t);
  }

  /** `re.sub(r'\s+', ' ', s).strip()` ignores whitespace after the text. */
  lemma StripCollapseDropsTrail(t: string, v: string)
    requires AllSpace(v)
    ensures Strip(CollapseWhitespace(t + v)) == Strip(CollapseWhitespace(t))
  {
    RStripAllSpace(t, v);
    StripCollapseOfRStrip(t + v);
    StripCollapseOfRStrip(t);
  }

  /** Runs of whitespace at both ends make no difference after collapse and strip. */
  lemma StripCollapseDropsEnds(w: string, t: string, v: string)
    requires AllSpace(w) && AllSpace(v)
    ensures Strip(CollapseWhitespace(w + t + v)) == Strip(CollapseWhitespace(t))
  {
    Assoc(w, t, v);
    StripCollapseDropsLead(w, t + v);
    StripCollapseDropsTrail(t, v);
  }

  /** The non-whitespace characters of `s`, in order. */
  function Squeeze(s: string): (r: string)
    ensures forall i :: 0 <= i < |r| ==> !IsSpace(r[i])
    ensures |r| <= |s|
  {
    if |s| == 0 then []
    else if IsSpace(s[0]) then Squeeze(s[1..])
    else [s[0]] + Squeeze(s[1..])
  }

  lemma {:induction false} SqueezeLStrip(s: string)
    ensures Squeeze(LStrip(s)) == Squeeze(s)
    decreases |s|
  {
    if |s| > 0 && IsSpace(s[0]) {
      SqueezeLStrip(s[1..]);
    }
  }

  /** Collapsing whitespace changes whitespace only: the other characters
      survive, in order. */
  lemma {:induction false} CollapseKeepsContent(s: string)
    ensures Squeeze(CollapseWhitespace(s)) == Squeeze(s)
    decreases |s|
  {
    if |s| == 0 {
    } else if IsSpace(s[0]) {
      var rest := LStrip(s[1..]);
      CollapseKeepsContent(rest);
      SqueezeLStrip(s[1..]);
      assert ([' '] + CollapseWhitespace(rest))[1..] == CollapseWhitespace(rest);
    } else {
      CollapseKeepsContent(s[1..]);
      assert ([s[0]] + CollapseWhitespace(s[1..]))[1..] == CollapseWhitespace(s[1..]);
    }
  }

  /* ---------------------------------------------------------------------- */
  /* character replacement and removal                                       */

  /** Python's `s.replace(a, b)` for single characters. */
  function ReplaceChar(s: string, a: char, b: char): (r: string)
    ensures |r| == |s|
    ensures forall i :: 0 <= i < |s| ==> r[i] == (if s[i] == a then b else s[i])
  {
    seq(|s|, i requires 0 <= i < |s| => if s[i] == a then b else s[i])
  }

  /** Python's `s.replace(c, '')`. */
  /** Replacing a character that does not occur changes nothing. */
  lemma ReplaceAbsent(s: string, a: char, b: char)
    requires a !in s
    ensures ReplaceChar(s, a, b) == s
  {
  }

  function RemoveChar(s: string, c: char): (r: string)
    ensures c !in r
    ensures |r| <= |s|
    ensures c !in s ==> r == s
    ensures forall x :: x in r ==> x in s
  {
    if |s| == 0 then []
    else if s[0] == c then RemoveChar(s[1..], c)
    else [s[0]] + RemoveChar(s[1..], c)
  }

  /* ---------------------------------------------------------------------- */
  /* searching                                                               */

  predicate OccursAt(s: string, sub: string, i: int) {
    0 <= i && i + |sub| <= |s| && s[i..i + |sub|] == sub
  }

  /** Python's `sub in s`. */
  predicate Contains(s: string, sub: string) {
    exists i | 0 <= i <= |s| :: OccursAt(s, sub, i)
  }

  /** Index of the first `c` in `s`, or `|s|` when there is none. */
  function IndexOf(s: string, c: char): (i: nat)
    ensures i <= |s|
    ensures i < |s| ==> s[i] == c
    ensures c !in s[..i]
    ensures i == |s| <==> c !in s
  {
    if |s| == 0 then 0
    else if s[0] == c then 0
    else
      var j := IndexOf(s[1..], c);
      assert s[..j + 1] == [s[0]] + s[1..][..j];
      1 + j
  }

  /** Index of the last `c` in `s`, or -1 when there is none. */
  function LastIndexOf(s: string, c: char): (i: int)
    ensures -1 <= i < |s|
    ensures 0 <= i ==> s[i] == c
    ensures c !in s[i + 1..]
    ensures i == -1 <==> c !in s
  {
    if |s| == 0 then -1
    else if s[|s| - 1] == c then |s| - 1
    else
      var j := LastIndexOf(s[..|s| - 1], c);
      assert s[j + 1..] == s[..|s| - 1][j + 1..] + [s[|s| - 1]];
      j
  }

  /** `sep.join(parts)`. */
  function JoinWith(sep: string, parts: seq<string>): (r: string)
    ensures |parts| == 1 ==> r == parts[0]
    ensures |parts| == 0 ==> r == []
  {
    if |parts| == 0 then []
    else if |parts| == 1 then parts[0]
    else parts[0] + sep + JoinWith(sep, parts[1..])
  }

  /** Three parts are joined with the separator between each two. */
  lemma JoinThree(sep: string, a: string, b: string, c: string)
    ensures JoinWith(sep, [a, b, c]) == a + sep + b + sep + c
  {
    assert [a, b, c][1..] == [b, c];
    assert [b, c][1..] == [c];
    assert JoinWith(sep, [b, c]) == b + sep + c;
  }

  /* ---------------------------------------------------------------------- */
  /* decimal numerals, as written by Python's f"{n}"                         */

  function DigitChar(d: nat): (c: char)
    requires d < 10
    ensures IsDigit(c)
  {
    ('0' as int + d) as char
  }

  function DigitValue(c: char): (d: nat)
    requires IsDigit(c)
    ensures d < 10
  {
    c as int - '0' as int
  }

  function NatToString(n: nat): (r: string)
    ensures IsDigits(r)
    decreases n
  {
    if n < 10 then [DigitChar(n)] else NatToString(n / 10) + [DigitChar(n % 10)]
  }

  function ParseDigits(s: string): nat
    requires AllDigits(s)
  {
    if |s| == 0 then 0 else ParseDigits(s[..|s| - 1]) * 10 + DigitValue(s[|s| - 1])
  }

  /** Reading back a printed number gives the number. */
  lemma {:induction false} ParseNatToString(n: nat)
    ensures ParseDigits(NatToString(n)) == n
    decreases n
  {
    if n >= 10 {
      var s := NatToString(n);
      assert s[..|s| - 1] == NatToString(n / 10);
      ParseNatToString(n / 10);
    }
  }

  /** Distinct numbers print differently. */
  lemma NatToStringInjective(a: nat, b: nat)
    requires NatToString(a) == NatToString(b)
    ensures a == b
  {
    ParseNatToString(a);
    ParseNatToString(b);
  }
}
