/** `sanitize_identifier`: turns free text into a name usable as an SQL identifier. */
module Identifier {
  import opened Text

  /** Longest identifier `sanitize_identifier` produces. */
  const MaxIdentifierLength: nat := 64

  /** Every character that is not a word character becomes `_`. */
  function WordCharsOnly(s: string): (r: string)
    ensures |r| == |s|
    ensures forall i :: 0 <= i < |s| ==> r[i] == (if IsWordChar(s[i]) then s[i] else '_')
  {
    seq(|s|, i requires 0 <= i < |s| => if IsWordChar(s[i]) then s[i] else '_')
  }

  /** What a sanitized name looks like. */
  predicate IsIdentifier(s: string) {
    && 0 < |s| <= MaxIdentifierLength
    && (forall i :: 0 <= i < |s| ==> IsWordChar(s[i]))
    && !IsDigit(s[0])
  }

  /** Length of the `c_` prefix the sanitized form of `t` receives. */
  function PrefixLength(t: string): nat {
    if |t| > 0 && IsDigit(t[0]) then 2 else 0
  }

  function SanitizeIdentifier(name: string): (r: string)
    ensures IsIdentifier(r)
    ensures Strip(name) == [] ==> r == "col"
  {
    if name == [] then "col"
    else
      var safe := WordCharsOnly(Strip(name));
      var prefixed := Prefixed(safe);
      if |prefixed| == 0 then "col"
      else
        CutIsIdentifier(safe, prefixed);
        Take(prefixed, MaxIdentifierLength)
  }

  /** `safe` with `c_` in front when it starts with a digit. */
  function Prefixed(safe: string): string {
    if |safe| > 0 && IsDigit(safe[0]) then "c_" + safe else safe
  }

  /** The word-character form of a text, given a `c_` when it starts with a
      digit, stays an identifier when cut to 64 characters. */
  lemma CutIsIdentifier(safe: string, prefixed: string)
    requires forall i :: 0 <= i < |safe| ==> IsWordChar(safe[i])
    requires prefixed == Prefixed(safe)
    requires |prefixed| > 0
    ensures IsIdentifier(Take(prefixed, MaxIdentifierLength))
  {
    var r := Take(prefixed, MaxIdentifierLength);
    assert forall i :: 0 <= i < |prefixed| ==> IsWordChar(prefixed[i]) by {
      if |safe| > 0 && IsDigit(safe[0]) {
        forall i | 0 <= i < |prefixed| ensures IsWordChar(prefixed[i]) {
          if i >= 2 { assert prefixed[i] == safe[i - 2]; }
        }
      }
    }
    assert r[0] == prefixed[0];
  }

  /** Sanitizing keeps the stripped text in place, after a `c_` when it
      starts with a digit, with every non-word character turned into `_`,
      cut at 64 characters. */
  lemma SanitizeIdentifierKeepsText(name: string)
    requires Strip(name) != []
    ensures var t := Strip(name);
            var off := PrefixLength(t);
            var r := SanitizeIdentifier(name);
            && |r| == Min(MaxIdentifierLength, |t| + off)
            && r[..off] == "c_"[..off]
            && r[off..] == WordCharsOnly(t)[..|r| - off]
  {
    assert name != [];
    CutKeepsText(Strip(name), SanitizeIdentifier(name));
  }

  /** The cut, prefixed word-character form `r` of a non-empty text `t`. */
  lemma CutKeepsText(t: string, r: string)
    requires t != []
    requires r == Take(Prefixed(WordCharsOnly(t)), MaxIdentifierLength)
    ensures |r| == Min(MaxIdentifierLength, |t| + PrefixLength(t))
    ensures r[..PrefixLength(t)] == "c_"[..PrefixLength(t)]
    ensures r[PrefixLength(t)..] == WordCharsOnly(t)[..|r| - PrefixLength(t)]
  {
    var safe := WordCharsOnly(t);
    var prefixed := Prefixed(safe);
    var off := PrefixLength(t);
    assert IsDigit(safe[0]) <==> IsDigit(t[0]);
    assert prefixed[..off] == "c_"[..off];
    assert prefixed[off..] == safe;
  }

  /** A name that already is an identifier is returned unchanged. */
  lemma SanitizeIdentifierFixpoint(s: string)
    requires IsIdentifier(s)
    ensures SanitizeIdentifier(s) == s
  {
    assert !IsSpace(s[0]) && !IsSpace(s[|s| - 1]);
    StripFixpoint(s);
    assert WordCharsOnly(s) == s;
  }

  /** Sanitizing twice is sanitizing once. */
  lemma SanitizeIdentifierIdempotent(name: string)
    ensures SanitizeIdentifier(SanitizeIdentifier(name)) == SanitizeIdentifier(name)
  {
    SanitizeIdentifierFixpoint(SanitizeIdentifier(name));
  }
}
