/**
 * The header normaliser: `HEADER_MAP` and `normalize_headers` of the
 * extractor. Each raw header is reduced to lower-case words, classified
 * against an ordered keyword table (first match wins), given a sanitized
 * fallback name when nothing matches, and made unique with `_2`, `_3`, ...
 */
module Headers {
  import opened Text
  import opened Optional
  import opened Identifier

  /* ---------------------------------------------------------------------- */
  /* normalised header text                                                  */

  /** The characters normalised header text is made of: `[a-z0-9 ]`. */
  predicate IsHeaderChar(c: char) {
    IsLower(c) || IsDigit(c) || c == ' '
  }

  function BlankOthers(s: string): (r: string)
    ensures |r| == |s|
    ensures forall i :: 0 <= i < |s| ==> r[i] == (if IsHeaderChar(s[i]) then s[i] else ' ')
  {
    seq(|s|, i requires 0 <= i < |s| => if IsHeaderChar(s[i]) then s[i] else ' ')
  }

  /** Lower-cased words separated by single spaces. */
  predicate IsNormalText(t: string) {
    && (forall i :: 0 <= i < |t| ==> IsHeaderChar(t[i]))
    && (forall i :: 0 <= i < |t| - 1 ==> !(t[i] == ' ' && t[i + 1] == ' '))
    && (t == [] || (t[0] != ' ' && t[|t| - 1] != ' '))
  }

  /** Lower-case, turn everything outside `[a-z0-9 ]` into a space, collapse
      whitespace runs and strip. */
  function NormalizeText(cell: string): (t: string)
    ensures IsNormalText(t)
    // letters and digits survive, lower-cased and in order
    ensures Squeeze(t) == Squeeze(BlankOthers(Lower(cell)))
  {
    var blanked := BlankOthers(Lower(cell));
    var collapsed := CollapseWhitespace(blanked);
    CollapseKeepsHeaderChars(blanked);
    StripOfSpacedWords(collapsed);
    CollapseKeepsContent(blanked);
    StripKeepsContent(collapsed);
    Strip(collapsed)
  }

  /** A character that lower-cases to a letter or a digit: the ones that
      survive normalisation. */
  predicate IsKeptChar(c: char) {
    IsLower(LowerChar(c)) || IsDigit(LowerChar(c))
  }

  /** A word, lower-case letters and digits only, is its own normal text. */
  lemma NormalizeTextOfWord(a: string)
    requires forall i :: 0 <= i < |a| ==> IsLower(a[i]) || IsDigit(a[i])
    ensures NormalizeText(a) == a
  {
    var blanked := BlankOthers(Lower(a));
    assert blanked == a;
    CollapseFixpoint(a);
    StripFixpoint(a);
  }

  /** Characters other than letters and digits at either end of a header
      leave no trace in its normal text. */
  lemma NormalizeTextDropsEnds(w: string, t: string, v: string)
    requires forall i :: 0 <= i < |w| ==> !IsKeptChar(w[i])
    requires forall i :: 0 <= i < |v| ==> !IsKeptChar(v[i])
    ensures NormalizeText(w + t + v) == NormalizeText(t)
  {
    BlankLowerAppend(w + t, v);
    BlankLowerAppend(w, t);
    BlanksOnly(w);
    BlanksOnly(v);
    StripCollapseDropsEnds(BlankOthers(Lower(w)), BlankOthers(Lower(t)), BlankOthers(Lower(v)));
  }

  /** Text with no letter or digit is blanked out entirely. */
  lemma BlanksOnly(w: string)
    requires forall i :: 0 <= i < |w| ==> !IsKeptChar(w[i])
    ensures AllSpace(BlankOthers(Lower(w)))
  {
  }

  /** Any run of characters that are neither letters nor digits, punctuation
      and whitespace alike, between two pieces of text that start and end
      with a letter or digit becomes exactly one blank. */
  lemma NormalizeTextSeparatesWords(a: string, w: string, b: string)
    requires |a| > 0 && IsKeptChar(a[0]) && IsKeptChar(a[|a| - 1])
    requires |b| > 0 && IsKeptChar(b[0]) && IsKeptChar(b[|b| - 1])
    requires |w| > 0 && forall i :: 0 <= i < |w| ==> !IsKeptChar(w[i])
    ensures NormalizeText(a + w + b) == NormalizeText(a) + " " + NormalizeText(b)
  {
    var ba, bw, bb := BlankOthers(Lower(a)), BlankOthers(Lower(w)), BlankOthers(Lower(b));
    BlankLowerAppend(a, w);
    BlankLowerAppend(a + w, b);
    assert AllSpace(bw);
    assert NoSpaceAtEnds(ba) && NoSpaceAtEnds(bb);
    StripCollapseJoin(ba, bw, bb);
  }

  /** Lower-casing and blanking work character by character. */
  lemma BlankLowerAppend(x: string, y: string)
    ensures BlankOthers(Lower(x + y)) == BlankOthers(Lower(x)) + BlankOthers(Lower(y))
  {
  }

  /** Collapsing text made of `[a-z0-9 ]` leaves single blanks between words. */
  lemma CollapseKeepsHeaderChars(s: string)
    requires forall i :: 0 <= i < |s| ==> IsHeaderChar(s[i])
    ensures forall i :: 0 <= i < |CollapseWhitespace(s)| ==> IsHeaderChar(CollapseWhitespace(s)[i])
    ensures forall i :: 0 <= i < |CollapseWhitespace(s)| - 1 ==>
              !(CollapseWhitespace(s)[i] == ' ' && CollapseWhitespace(s)[i + 1] == ' ')
  {
    CollapseNoDoubleBlank(s);
    CollapseKeepsClass(s, IsHeaderChar);
  }

  lemma StripOfSpacedWords(c: string)
    requires forall i :: 0 <= i < |c| ==> IsHeaderChar(c[i])
    requires forall i :: 0 <= i < |c| - 1 ==> !(c[i] == ' ' && c[i + 1] == ' ')
    ensures IsNormalText(Strip(c))
  {
    StripIsSlice(c);
  }

  lemma StripKeepsContent(s: string)
    ensures Squeeze(Strip(s)) == Squeeze(s)
  {
    var l := LStrip(s);
    SqueezeLStrip(s);
    SqueezeRStrip(l);
  }

  lemma {:induction false} SqueezeRStrip(s: string)
    ensures Squeeze(RStrip(s)) == Squeeze(s)
    decreases |s|
  {
    if |s| > 0 && IsSpace(s[|s| - 1]) {
      var p := s[..|s| - 1];
      SqueezeRStrip(p);
      SqueezeAppendSpace(p, s[|s| - 1]);
      assert s == p + [s[|s| - 1]];
    }
  }

  lemma {:induction false} SqueezeAppendSpace(s: string, c: char)
    requires IsSpace(c)
    ensures Squeeze(s + [c]) == Squeeze(s)
    decreases |s|
  {
    if |s| > 0 {
      assert (s + [c])[1..] == s[1..] + [c];
      SqueezeAppendSpace(s[1..], c);
    } else {
      assert Squeeze([c]) == Squeeze([c][1..]);
    }
  }

  /* ---------------------------------------------------------------------- */
  /* HEADER_MAP                                                              */

  /** A keyword pattern, as the set of words it matches in normalised text.
      Normalised text holds only `[a-z0-9 ]` with single spaces, so a `\s*`
      matches "" or " " and `int(er?nals)?` matches "int", "intenals" or
      "internals". */
  type Pattern = seq<string>

  datatype HeaderRule = HeaderRule(canon: string, patterns: seq<Pattern>)

  /** The ordered keyword table: keys in declaration order, patterns in list order. */
  const HeaderMap: seq<HeaderRule> := [
    HeaderRule("student_name", [["studentname", "student name"], ["name"], ["candidatename", "candidate name"]]),
    HeaderRule("student_id", [["regno", "reg no", "registrationno", "registration no"], ["rollno", "roll no"], ["studentid", "student id"]]),
    HeaderRule("internal_marks", [["internal"], ["int", "intenals", "internals"], ["internalmarks", "internal marks"]]),
    HeaderRule("mid_marks", [["mid"], ["midterm", "mid-term"], ["midterm"]]),
    HeaderRule("final_marks", [["final"], ["theory"], ["finalmarks", "final marks"]]),
    HeaderRule("practical_marks", [["practical"], ["lab"], ["practicalmarks", "practical marks"]]),
    HeaderRule("total_marks", [["total"], ["obtained"], ["grandtotal", "grand total"]])
  ]

  /** `word` occurs at `i` with a word boundary (`\b`) on both sides. */
  predicate WholeWordAt(text: string, word: string, i: int) {
    && OccursAt(text, word, i)
    && (i == 0 || !IsWordChar(text[i - 1]))
    && (i + |word| == |text| || !IsWordChar(text[i + |word|]))
  }

  /** `re.search(r"\b" + word + r"\b", text)` for a literal word. */
  predicate SearchWord(text: string, word: string) {
    exists i | 0 <= i <= |text| :: WholeWordAt(text, word, i)
  }

  predicate PatternMatches(text: string, p: Pattern) {
    exists k | 0 <= k < |p| :: SearchWord(text, p[k])
  }

  /** Some pattern of the rule matches; which one it is does not change the outcome. */
  predicate RuleMatches(text: string, rule: HeaderRule) {
    exists k | 0 <= k < |rule.patterns| :: PatternMatches(text, rule.patterns[k])
  }

  /** Index of the first rule that matches, or `|rules|` when none does. */
  function FirstMatchingRule(text: string, rules: seq<HeaderRule>): (k: nat)
    ensures k <= |rules|
    ensures k < |rules| ==> RuleMatches(text, rules[k])
    ensures forall j :: 0 <= j < k ==> !RuleMatches(text, rules[j])
  {
    if |rules| == 0 then 0
    else if RuleMatches(text, rules[0]) then 0
    else 1 + FirstMatchingRule(text, rules[1..])
  }

  /** The canonical key of normalised text, when some rule matches. */
  function Classify(text: string): (r: Option<string>)
  {
    var k := FirstMatchingRule(text, HeaderMap);
    if k < |HeaderMap| then Some(HeaderMap[k].canon) else None
  }

  /** First match wins: the key of the first matching rule is chosen, no
      matter which later rules match too. */
  lemma ClassifyFirstMatch(text: string, k: nat)
    requires k < |HeaderMap| && RuleMatches(text, HeaderMap[k])
    requires forall j :: 0 <= j < k ==> !RuleMatches(text, HeaderMap[j])
    ensures Classify(text) == Some(HeaderMap[k].canon)
  {
    var f := FirstMatchingRule(text, HeaderMap);
    if f < k {
    } else if f > k {
    }
  }

  /** Text that no rule matches is left unclassified, and only such text. */
  lemma ClassifyNone(text: string)
    ensures Classify(text).None? <==> forall j :: 0 <= j < |HeaderMap| ==> !RuleMatches(text, HeaderMap[j])
  {
  }

  /** The name a raw header gets before collisions are resolved. */
  function BaseName(raw: string): (r: string)
    ensures IsIdentifier(r)
  {
    var t := NormalizeText(Strip(raw));
    match Classify(t)
    case Some(c) =>
      CanonsAreIdentifiers();
      c
    case None => SanitizeIdentifier(ReplaceChar(t, ' ', '_'))
  }

  lemma CanonsAreIdentifiers()
    ensures forall k :: 0 <= k < |HeaderMap| ==> IsIdentifier(HeaderMap[k].canon)
  {
    SnakeIsIdentifier("student_name");
    SnakeIsIdentifier("student_id");
    SnakeIsIdentifier("internal_marks");
    SnakeIsIdentifier("mid_marks");
    SnakeIsIdentifier("final_marks");
    SnakeIsIdentifier("practical_marks");
    SnakeIsIdentifier("total_marks");
  }

  /** A short non-empty name of lower-case letters and underscores is an identifier. */
  lemma SnakeIsIdentifier(c: string)
    requires 0 < |c| <= MaxIdentifierLength
    requires forall i :: 0 <= i < |c| ==> IsLower(c[i]) || c[i] == '_'
    ensures IsIdentifier(c)
  {
  }

  /** An unmatched header is named after its normalised text, with spaces
      turned into underscores. */
  lemma BaseNameFallback(raw: string)
    requires Classify(NormalizeText(Strip(raw))) == None
    ensures BaseName(raw) == SanitizeIdentifier(ReplaceChar(NormalizeText(Strip(raw)), ' ', '_'))
  {
    var t := NormalizeText(Strip(raw));
    assert BaseName(raw) == match Classify(t)
      case Some(c) => c
      case None => SanitizeIdentifier(ReplaceChar(t, ' ', '_'));
  }

  /** A header made of letters and digits normalises to its lower-case form. */
  lemma NormalizeAlnumWord(raw: string)
    requires forall i :: 0 <= i < |raw| ==> IsAlnum(raw[i])
    ensures NormalizeText(raw) == Lower(raw)
  {
    var l := Lower(raw);
    assert forall i :: 0 <= i < |l| ==> IsLower(l[i]) || IsDigit(l[i]);
    assert BlankOthers(l) == l;
    CollapseFixpoint(l);
    StripFixpoint(l);
  }

  /** In a single word, a keyword is found exactly when it is the whole word. */
  lemma SearchOneWord(text: string, word: string)
    requires forall i :: 0 <= i < |text| ==> IsWordChar(text[i])
    ensures SearchWord(text, word) <==> word == text
  {
    if word == text {
      assert WholeWordAt(text, word, 0);
    }
    if SearchWord(text, word) {
      var i :| 0 <= i <= |text| && WholeWordAt(text, word, i);
      assert i == 0;
      assert i + |word| == |text|;
    }
  }

  /** A one-word header is classified by the rule holding that very word as
      one of its alternatives, and by nothing else. */
  lemma ClassifyOneWord(text: string, rule: HeaderRule)
    requires forall i :: 0 <= i < |text| ==> IsWordChar(text[i])
    ensures RuleMatches(text, rule) <==>
              exists p, k :: 0 <= p < |rule.patterns| && 0 <= k < |rule.patterns[p]| && rule.patterns[p][k] == text
  {
    forall p, k | 0 <= p < |rule.patterns| && 0 <= k < |rule.patterns[p]|
      ensures SearchWord(text, rule.patterns[p][k]) <==> rule.patterns[p][k] == text
    {
      SearchOneWord(text, rule.patterns[p][k]);
    }
  }

  predicate InPattern(w: string, p: seq<string>) {
    |p| > 0 && (p[0] == w || InPattern(w, p[1..]))
  }

  predicate InPatterns(w: string, ps: seq<seq<string>>) {
    |ps| > 0 && (InPattern(w, ps[0]) || InPatterns(w, ps[1..]))
  }

  /** `w` is one of the alternatives of one of the rules. */
  predicate IsKeyword(w: string, rules: seq<HeaderRule>) {
    |rules| > 0 && (InPatterns(w, rules[0].patterns) || IsKeyword(w, rules[1..]))
  }

  lemma {:induction false} InPatternIff(w: string, p: seq<string>)
    ensures InPattern(w, p) <==> exists k :: 0 <= k < |p| && p[k] == w
    decreases |p|
  {
    if |p| > 0 {
      InPatternIff(w, p[1..]);
      if InPattern(w, p[1..]) {
        var k :| 0 <= k < |p| - 1 && p[1..][k] == w;
        assert p[k + 1] == w;
      }
      forall k | 1 <= k < |p| && p[k] == w
        ensures InPattern(w, p[1..])
      {
        assert p[1..][k - 1] == w;
      }
    }
  }

  lemma {:induction false} InPatternsIff(w: string, ps: seq<seq<string>>)
    ensures InPatterns(w, ps) <==> exists p, k :: 0 <= p < |ps| && 0 <= k < |ps[p]| && ps[p][k] == w
    decreases |ps|
  {
    if |ps| > 0 {
      InPatternIff(w, ps[0]);
      InPatternsIff(w, ps[1..]);
      if InPatterns(w, ps[1..]) {
        var p, k :| 0 <= p < |ps| - 1 && 0 <= k < |ps[1..][p]| && ps[1..][p][k] == w;
        assert ps[p + 1][k] == w;
      }
      forall p, k | 1 <= p < |ps| && 0 <= k < |ps[p]| && ps[p][k] == w
        ensures InPatterns(w, ps[1..])
      {
        assert ps[1..][p - 1][k] == w;
      }
    }
  }

  lemma {:induction false} IsKeywordAt(w: string, rules: seq<HeaderRule>, j: nat)
    requires j < |rules| && InPatterns(w, rules[j].patterns)
    ensures IsKeyword(w, rules)
    decreases j
  {
    if j > 0 {
      IsKeywordAt(w, rules[1..], j - 1);
    }
  }

  /** A one-word header that is no keyword matches none of the rules. */
  lemma OneWordNoKeyword(t: string, rules: seq<HeaderRule>)
    requires forall i :: 0 <= i < |t| ==> IsWordChar(t[i])
    requires !IsKeyword(t, rules)
    ensures forall j :: 0 <= j < |rules| ==> !RuleMatches(t, rules[j])
  {
    forall j | 0 <= j < |rules|
      ensures !RuleMatches(t, rules[j])
    {
      ClassifyOneWord(t, rules[j]);
      InPatternsIff(t, rules[j].patterns);
      if InPatterns(t, rules[j].patterns) {
        IsKeywordAt(t, rules, j);
      }
    }
  }

  /** A one-word header of letters and digits that is no keyword, does not
      start with a digit and fits an identifier is named after its lower-case form. */
  lemma OneWordBaseName(raw: string, t: string)
    requires 0 < |raw| <= MaxIdentifierLength && !IsDigit(raw[0])
    requires forall i :: 0 <= i < |raw| ==> IsAlnum(raw[i])
    requires t == Lower(raw) && !IsKeyword(t, HeaderMap)
    ensures BaseName(raw) == t
  {
    AlnumHeaderText(raw);
    assert forall i :: 0 <= i < |t| ==> IsWordChar(t[i]) by {
      forall i | 0 <= i < |t| ensures IsWordChar(t[i]) {
        assert t[i] == LowerChar(raw[i]);
      }
    }
    NoKeywordUnclassified(t);
    BaseNameFallback(raw);
    LowerWordIsIdentifier(raw);
  }

  lemma AlnumHeaderText(raw: string)
    requires forall i :: 0 <= i < |raw| ==> IsAlnum(raw[i])
    ensures NormalizeText(Strip(raw)) == Lower(raw)
  {
    assert NoSpaceAtEnds(raw) by {
      if |raw| > 0 {
        assert IsAlnum(raw[0]) && IsAlnum(raw[|raw| - 1]);
      }
    }
    StripFixpoint(raw);
    NormalizeAlnumWord(raw);
  }

  lemma LowerWordIsIdentifier(raw: string)
    requires 0 < |raw| <= MaxIdentifierLength && !IsDigit(raw[0])
    requires forall i :: 0 <= i < |raw| ==> IsAlnum(raw[i])
    ensures SanitizeIdentifier(ReplaceChar(Lower(raw), ' ', '_')) == Lower(raw)
  {
    var t := Lower(raw);
    assert ReplaceChar(t, ' ', '_') == t;
    assert IsIdentifier(t);
    SanitizeIdentifierFixpoint(t);
  }

  /** No keyword rule claims the word `class`. */
  lemma ClassIsNoKeyword()
    ensures Classify("class") == None
  {
    ClassNotKeyword();
    ClassIsWord();
    NoKeywordUnclassified("class");
  }

  lemma ClassIsWord()
    ensures forall i :: 0 <= i < |"class"| ==> IsWordChar("class"[i])
  {
    var c := "class";
    forall i | 0 <= i < |c|
      ensures IsWordChar(c[i])
    {
      if i == 0 {} else if i == 1 {} else if i == 2 {} else if i == 3 {} else {}
    }
  }

  /** A single word that is no keyword is left unclassified. */
  lemma NoKeywordUnclassified(t: string)
    requires forall i :: 0 <= i < |t| ==> IsWordChar(t[i])
    requires !IsKeyword(t, HeaderMap)
    ensures Classify(t) == None
  {
    OneWordNoKeyword(t, HeaderMap);
    ClassifyNone(t);
  }

  lemma ClassNotKeyword()
    ensures !IsKeyword("class", HeaderMap)
  {
    forall j | 0 <= j < |HeaderMap|
      ensures !InPatterns("class", HeaderMap[j].patterns)
    {
      if j < 4 { ClassNotInNameRules(j); } else { ClassNotInMarkRules(j); }
    }
    NoKeywordIn("class", HeaderMap);
  }

  /** `class` is none of the alternatives for names, ids, internal and mid marks. */
  lemma ClassNotInNameRules(j: int)
    requires 0 <= j < 4
    ensures !InPatterns("class", HeaderMap[j].patterns)
  {
    // one case per rule, so that each rule's literal is unfolded on its own
    if j == 0 {} else if j == 1 {} else if j == 2 {} else {}
  }

  /** `class` is none of the alternatives for final, practical and total marks. */
  lemma ClassNotInMarkRules(j: int)
    requires 4 <= j < |HeaderMap|
    ensures !InPatterns("class", HeaderMap[j].patterns)
  {
    if j == 4 {} else if j == 5 {} else {}
  }

  lemma {:induction false} NoKeywordIn(w: string, rules: seq<HeaderRule>)
    requires forall j :: 0 <= j < |rules| ==> !InPatterns(w, rules[j].patterns)
    ensures !IsKeyword(w, rules)
    decreases |rules|
  {
    if |rules| > 0 {
      NoKeywordIn(w, rules[1..]);
    }
  }

  /* ---------------------------------------------------------------------- */
  /* collision suffixes                                                      */

  /** `f"{base}_{k}"`. */
  function Suffixed(base: string, k: nat): (r: string)
    ensures |r| > |base| + 1
  {
    base + "_" + NatToString(k)
  }

  /** Different suffix numbers give different names. */
  lemma SuffixedInjective(base: string, a: nat, b: nat)
    requires Suffixed(base, a) == Suffixed(base, b)
    ensures a == b
  {
    var n := |base| + 1;
    assert Suffixed(base, a)[n..] == NatToString(a);
    assert Suffixed(base, b)[n..] == NatToString(b);
    NatToStringInjective(a, b);
  }

  /** The names `base_i`, `i >= k`, that are already taken. */
  ghost function TakenFrom(base: string, used: seq<string>, k: nat): set<string> {
    set s | s in used && exists i: nat :: k <= i && s == Suffixed(base, i)
  }

  lemma TakenFromShrinks(base: string, used: seq<string>, k: nat)
    requires Suffixed(base, k) in used
    ensures TakenFrom(base, used, k + 1) < TakenFrom(base, used, k)
  {
    var s := Suffixed(base, k);
    assert s in TakenFrom(base, used, k);
    if s in TakenFrom(base, used, k + 1) {
      var i: nat :| k + 1 <= i && s == Suffixed(base, i);
      SuffixedInjective(base, k, i);
    }
  }

  /** The first `i >= k` whose `base_i` is unused. */
  function FirstFreeIndex(base: string, used: seq<string>, k: nat): (j: nat)
    ensures k <= j
    ensures Suffixed(base, j) !in used
    ensures forall i :: k <= i < j ==> Suffixed(base, i) in used
    decreases TakenFrom(base, used, k)
  {
    if Suffixed(base, k) !in used then k
    else
      TakenFromShrinks(base, used, k);
      FirstFreeIndex(base, used, k + 1)
  }

  /** The first unused name among `base, base_2, base_3, ...`. */
  /** `r` is `base_j` for a `j` such that `base_2` to `base_(j-1)` are all in `used`. */
  ghost predicate FirstFreeSuffix(base: string, used: seq<string>, r: string) {
    exists j: nat :: 2 <= j && r == Suffixed(base, j) &&
      forall i :: 2 <= i < j ==> Suffixed(base, i) in used
  }

  function Disambiguate(base: string, used: seq<string>): (r: string)
    ensures r !in used
    ensures base !in used ==> r == base
    ensures base in used ==> FirstFreeSuffix(base, used, r)
  {
    if base !in used then base
    else Suffixed(base, FirstFreeIndex(base, used, 2))
  }

  predicate NoDuplicates(s: seq<string>) {
    forall i, j :: 0 <= i < j < |s| ==> s[i] != s[j]
  }

  /** Names for the base names `bases`, each kept apart from `reserved` and
      from the names given before it. The extractor reserves nothing. */
  function AssignNames(reserved: seq<string>, bases: seq<string>): (r: seq<string>)
    ensures |r| == |bases|
    ensures forall i :: 0 <= i < |r| ==> r[i] !in reserved
    ensures NoDuplicates(r)
    decreases |bases|
  {
    if |bases| == 0 then []
    else
      var prev := AssignNames(reserved, bases[..|bases| - 1]);
      var name := Disambiguate(bases[|bases| - 1], reserved + prev);
      prev + [name]
  }

  /** Naming a prefix of the base names gives a prefix of the result. */
  lemma {:induction false} AssignNamesPrefix(reserved: seq<string>, bases: seq<string>, n: nat)
    requires n <= |bases|
    ensures AssignNames(reserved, bases[..n]) == AssignNames(reserved, bases)[..n]
    decreases |bases| - n
  {
    if n < |bases| {
      var p := bases[..|bases| - 1];
      AssignNamesPrefix(reserved, p, n);
      assert p[..n] == bases[..n];
    } else {
      assert bases[..n] == bases;
    }
  }

  /** The free index depends only on which numbered names are taken. */
  lemma {:induction false} FirstFreeIndexSame(base: string, u: seq<string>, v: seq<string>, k: nat)
    requires forall i: nat :: Suffixed(base, i) in u <==> Suffixed(base, i) in v
    ensures FirstFreeIndex(base, u, k) == FirstFreeIndex(base, v, k)
    decreases TakenFrom(base, u, k)
  {
    if Suffixed(base, k) in u {
      TakenFromShrinks(base, u, k);
      FirstFreeIndexSame(base, u, v, k + 1);
    }
  }

  /** Reserving names that are never numbered, and that naming without
      reservation never produces, changes nothing. */
  lemma {:induction false} ReservedIrrelevant(reserved: seq<string>, bases: seq<string>)
    requires forall b, i: nat :: Suffixed(b, i) !in reserved
    requires forall i :: 0 <= i < |bases| ==> AssignNames([], bases)[i] !in reserved
    ensures AssignNames(reserved, bases) == AssignNames([], bases)
    decreases |bases|
  {
    if |bases| > 0 {
      var n := |bases| - 1;
      var p := bases[..n];
      AssignNamesPrefix([], bases, n);
      ReservedIrrelevant(reserved, p);
      var prev := AssignNames([], p);
      var b := bases[n];
      assert [] + prev == prev;
      if b in prev {
        FirstFreeIndexSame(b, reserved + prev, prev, 2);
      }
    }
  }

  /** Each name is the first among `base, base_2, ...` not given before (nor reserved). */
  lemma AssignNamesAt(reserved: seq<string>, bases: seq<string>, i: nat)
    requires i < |bases|
    ensures var r := AssignNames(reserved, bases);
            r[i] == Disambiguate(bases[i], reserved + r[..i])
  {
    AssignNamesPrefix(reserved, bases, i + 1);
    AssignNamesPrefix(reserved, bases, i);
    var q := bases[..i + 1];
    assert q[..|q| - 1] == bases[..i];
  }

  /** Names `base, base_2, ..., base_n`, in this order. */
  predicate IsSuffixRun(base: string, names: seq<string>) {
    && (|names| > 0 ==> names[0] == base)
    && forall i :: 1 <= i < |names| ==> names[i] == Suffixed(base, i + 1)
  }

  /** After `base, base_2, ..., base_n` the next free name is `base_(n+1)`. */
  lemma NextAfterRun(base: string, prev: seq<string>)
    requires |prev| > 0 && IsSuffixRun(base, prev)
    ensures Disambiguate(base, prev) == Suffixed(base, |prev| + 1)
  {
    var n := |prev|;
    var j := FirstFreeIndex(base, prev, 2);
    forall i | 2 <= i <= n
      ensures Suffixed(base, i) in prev
    {
      assert prev[i - 1] == Suffixed(base, i);
    }
    forall m | 0 <= m < n
      ensures prev[m] != Suffixed(base, n + 1)
    {
      if m > 0 && prev[m] == Suffixed(base, n + 1) {
        SuffixedInjective(base, m + 1, n + 1);
      }
    }
  }

  /** `n` copies of one base name become `base, base_2, ..., base_n`. */
  lemma {:induction false} RepeatedBaseSuffixes(base: string, bases: seq<string>)
    requires forall i :: 0 <= i < |bases| ==> bases[i] == base
    ensures IsSuffixRun(base, AssignNames([], bases))
    decreases |bases|
  {
    if |bases| > 0 {
      var n := |bases| - 1;
      RepeatedBaseSuffixes(base, bases[..n]);
      var prev := AssignNames([], bases[..n]);
      var r := AssignNames([], bases);
      assert [] + prev == prev;
      assert r == prev + [Disambiguate(base, prev)];
      if n > 0 {
        NextAfterRun(base, prev);
      }
      RunExtends(base, prev, Disambiguate(base, prev));
    }
  }

  /** A run grows by the next name in line. */
  lemma RunExtends(base: string, prev: seq<string>, x: string)
    requires IsSuffixRun(base, prev)
    requires x == if |prev| == 0 then base else Suffixed(base, |prev| + 1)
    ensures IsSuffixRun(base, prev + [x])
  {
    var r := prev + [x];
    forall i | 1 <= i < |r|
      ensures r[i] == Suffixed(base, i + 1)
    {
      if i < |prev| {
        assert r[i] == prev[i];
      }
    }
  }

  function BaseNames(raws: seq<string>): (r: seq<string>)
    ensures |r| == |raws|
    ensures forall i :: 0 <= i < |raws| ==> r[i] == BaseName(raws[i])
  {
    seq(|raws|, i requires 0 <= i < |raws| => BaseName(raws[i]))
  }

  /** The canonical column list of `normalize_headers`. */
  function Canonicalize(raws: seq<string>): (r: seq<string>)
    ensures |r| == |raws|
    ensures NoDuplicates(r)
  {
    AssignNames([], BaseNames(raws))
  }

  /** Canonicalising a prefix of the headers gives a prefix of the result. */
  lemma CanonicalizePrefix(raws: seq<string>, n: nat)
    requires n <= |raws|
    ensures Canonicalize(raws[..n]) == Canonicalize(raws)[..n]
  {
    assert BaseNames(raws[..n]) == BaseNames(raws)[..n];
    AssignNamesPrefix([], BaseNames(raws), n);
  }

  /** Each header is named after its base name, suffixed by the first number
      that avoids every name given to an earlier header. */
  lemma CanonicalizeAt(raws: seq<string>, i: nat)
    requires i < |raws|
    ensures var r := Canonicalize(raws);
            && r[i] !in r[..i]
            && (BaseName(raws[i]) !in r[..i] ==> r[i] == BaseName(raws[i]))
            && (BaseName(raws[i]) in r[..i] ==> FirstFreeSuffix(BaseName(raws[i]), r[..i], r[i]))
  {
    var bases := BaseNames(raws);
    assert bases[i] == BaseName(raws[i]);
    NamedAt(bases, i, Canonicalize(raws));
  }

  /** Position `i` of the names of `bases`, nothing reserved. */
  lemma NamedAt(bases: seq<string>, i: nat, r: seq<string>)
    requires i < |bases| && r == AssignNames([], bases)
    ensures && r[i] !in r[..i]
            && (bases[i] !in r[..i] ==> r[i] == bases[i])
            && (bases[i] in r[..i] ==> FirstFreeSuffix(bases[i], r[..i], r[i]))
  {
    AssignNamesAt([], bases, i);
    assert [] + r[..i] == r[..i];
  }

  /** `n` copies of one header are named `base, base_2, ..., base_n`. */
  lemma RepeatedHeaderSuffixes(h: string, raws: seq<string>)
    requires forall i :: 0 <= i < |raws| ==> raws[i] == h
    ensures IsSuffixRun(BaseName(h), Canonicalize(raws))
  {
    RepeatedBaseSuffixes(BaseName(h), BaseNames(raws));
  }

  /* ---------------------------------------------------------------------- */
  /* mapping and result                                                      */

  /** Each key to the name at its last position. */
  function LastWins(keys: seq<string>, names: seq<string>): (m: map<string, string>)
    requires |keys| == |names|
    ensures m.Keys == set i | 0 <= i < |keys| :: keys[i]
    decreases |keys|
  {
    if |keys| == 0 then map[]
    else
      var n := |keys| - 1;
      var m := LastWins(keys[..n], names[..n]);
      assert (set i | 0 <= i < |keys| :: keys[i]) == (set i | 0 <= i < n :: keys[..n][i]) + {keys[n]};
      m[keys[n] := names[n]]
  }

  /** A key is sent to the name at its last occurrence. */
  lemma {:induction false} LastWinsAt(keys: seq<string>, names: seq<string>, j: nat)
    requires |keys| == |names| && j < |keys|
    requires forall l :: j < l < |keys| ==> keys[l] != keys[j]
    ensures LastWins(keys, names)[keys[j]] == names[j]
    decreases |keys|
  {
    var n := |keys| - 1;
    if j < n {
      var kp, np := keys[..n], names[..n];
      LaterKeysInPrefix(keys, kp, j);
      LastWinsAt(kp, np, j);
      assert np[j] == names[j];
      LastWinsStep(keys, names, kp, np);
    }
  }

  lemma LaterKeysInPrefix(keys: seq<string>, kp: seq<string>, j: nat)
    requires j < |keys| - 1 && kp == keys[..|keys| - 1]
    requires forall l :: j < l < |keys| ==> keys[l] != keys[j]
    ensures kp[j] == keys[j] && keys[|keys| - 1] != keys[j]
    ensures forall l :: j < l < |kp| ==> kp[l] != kp[j]
  {
    assert forall l :: j <= l < |kp| ==> kp[l] == keys[l];
  }

  /** The last pair is written over the map of the pairs before it. */
  lemma LastWinsStep(keys: seq<string>, names: seq<string>, kp: seq<string>, np: seq<string>)
    requires |keys| == |names| && |keys| > 0
    requires kp == keys[..|keys| - 1] && np == names[..|names| - 1]
    ensures LastWins(keys, names) == LastWins(kp, np)[keys[|keys| - 1] := names[|names| - 1]]
  {
  }

  function StripAll(raws: seq<string>): (r: seq<string>)
    ensures |r| == |raws|
    ensures forall i :: 0 <= i < |raws| ==> r[i] == Strip(raws[i])
  {
    seq(|raws|, i requires 0 <= i < |raws| => Strip(raws[i]))
  }

  /** The `mapping` of `normalize_headers`: each stripped raw header to its
      canonical name, the last occurrence winning. */
  function HeaderMapping(raws: seq<string>): (m: map<string, string>)
  {
    LastWins(StripAll(raws), Canonicalize(raws))
  }

  /** The mapping has one key per distinct stripped header, and sends it to
      the canonical name of its last occurrence. */
  lemma HeaderMappingLastOccurrence(raws: seq<string>, j: nat)
    requires j < |raws|
    requires forall l :: j < l < |raws| ==> Strip(raws[l]) != Strip(raws[j])
    ensures HeaderMapping(raws).Keys == set i | 0 <= i < |raws| :: Strip(raws[i])
    ensures HeaderMapping(raws)[Strip(raws[j])] == Canonicalize(raws)[j]
  {
    var keys := StripAll(raws);
    assert (set i | 0 <= i < |keys| :: keys[i]) == (set i | 0 <= i < |raws| :: Strip(raws[i]));
    LastWinsAt(keys, Canonicalize(raws), j);
  }

  datatype Schema = Schema(canonical: seq<string>, mapping: map<string, string>)

  /** `normalize_headers`. */
  function NormalizeHeaders(raws: seq<string>): (s: Schema)
    ensures |s.canonical| == |raws|
    ensures NoDuplicates(s.canonical)
    ensures s.mapping.Keys == set i | 0 <= i < |raws| :: Strip(raws[i])
    ensures forall k :: k in s.mapping ==> s.mapping[k] in s.canonical
  {
    var canonical := Canonicalize(raws);
    var keys := StripAll(raws);
    StripAllKeys(raws);
    LastWinsValues(keys, canonical);
    Schema(canonical, LastWins(keys, canonical))
  }

  /** The stripped headers, as a set. */
  lemma StripAllKeys(raws: seq<string>)
    ensures var keys := StripAll(raws);
            (set i | 0 <= i < |keys| :: keys[i]) == (set i | 0 <= i < |raws| :: Strip(raws[i]))
  {
  }

  /** Every key is sent to one of the names. */
  lemma LastWinsValues(keys: seq<string>, names: seq<string>)
    requires |keys| == |names|
    ensures forall k :: k in LastWins(keys, names) ==> LastWins(keys, names)[k] in names
  {
    var m := LastWins(keys, names);
    forall k | k in m
      ensures m[k] in names
    {
      var i :| 0 <= i < |keys| && keys[i] == k;
      var j := LastWith(keys, i);
      LastWinsAt(keys, names, j);
    }
  }

  /** The last position holding the same key as position `i`. */
  lemma LastWith(keys: seq<string>, i: nat) returns (j: nat)
    requires i < |keys|
    ensures i <= j < |keys| && keys[j] == keys[i]
    ensures forall l :: j < l < |keys| ==> keys[l] != keys[i]
    decreases |keys| - i
  {
    if exists l :: i < l < |keys| && keys[l] == keys[i] {
      var l :| i < l < |keys| && keys[l] == keys[i];
      j := LastWith(keys, l);
    } else {
      j := i;
    }
  }
}
