// String helpers shared by the board view and the two editing components:
// JavaScript's String.prototype.trim, an ASCII model of toLowerCase, the
// `includes` substring test and the case-insensitive `^https?://` test.

module Text {

  /** The characters JavaScript's `trim` strips: WhiteSpace and LineTerminator
      of the ECMAScript grammar (tab, VT, FF, space, NBSP, BOM, the Unicode
      space separators, LF, CR, LS and PS). */
  predicate IsJsWhitespace(c: char) {
    c == '\t' || c == '\n' || c == '\U{000B}' || c == '\U{000C}' || c == '\r' || c == ' '
    || c == '\U{00A0}' || c == '\U{1680}' || ('\U{2000}' <= c <= '\U{200A}')
    || c == '\U{2028}' || c == '\U{2029}' || c == '\U{202F}' || c == '\U{205F}'
    || c == '\U{3000}' || c == '\U{FEFF}'
  }

  predicate IsBlank(s: string) {
    forall k :: 0 <= k < |s| ==> IsJsWhitespace(s[k])
  }

  /** Drops leading whitespace: the result is the longest suffix of `s` that
      does not start with whitespace, and everything before it is whitespace. */
  function TrimStart(s: string): (r: string)
    ensures |r| <= |s| && r == s[|s| - |r|..]
    ensures IsBlank(s[..|s| - |r|])
    ensures r == [] || !IsJsWhitespace(r[0])
  {
    if s != [] && IsJsWhitespace(s[0]) then TrimStart(s[1..]) else s
  }

  /** Drops trailing whitespace: the result is the longest prefix of `s` that
      does not end with whitespace, and everything after it is whitespace. */
  function TrimEnd(s: string): (r: string)
    ensures |r| <= |s| && r == s[..|r|]
    ensures IsBlank(s[|r|..])
    ensures r == [] || !IsJsWhitespace(r[|r| - 1])
  {
    if s != [] && IsJsWhitespace(s[|s| - 1]) then TrimEnd(s[..|s| - 1]) else s
  }

  /** `s` is `r` with blank text on both sides, `r` starting at index `i`. */
  predicate Surrounds(s: string, r: string, i: int) {
    0 <= i <= |s| - |r| && s[i..i + |r|] == r && IsBlank(s[..i]) && IsBlank(s[i + |r|..])
  }

  /** `s.trim()`: `s` is the result with whitespace on both sides. */
  function Trim(s: string): (r: string)
    ensures exists i :: Surrounds(s, r, i)
    ensures r == [] || (!IsJsWhitespace(r[0]) && !IsJsWhitespace(r[|r| - 1]))
  {
    var t := TrimStart(s);
    var r := TrimEnd(t);
    TrimWitness(s, t, r);
    assert Surrounds(s, r, |s| - |t|);
    r
  }

  /** Where the trimmed text `r` sits in `s`: right after the leading
      whitespace that `TrimStart` drops to give `t`. */
  lemma TrimWitness(s: string, t: string, r: string)
    requires |t| <= |s| && t == s[|s| - |t|..] && IsBlank(s[..|s| - |t|])
    requires t == [] || !IsJsWhitespace(t[0])
    requires |r| <= |t| && r == t[..|r|] && IsBlank(t[|r|..])
    requires r == [] || !IsJsWhitespace(r[|r| - 1])
    ensures s[|s| - |t|..|s| - |t| + |r|] == r
    ensures IsBlank(s[|s| - |t| + |r|..])
    ensures r == [] || !IsJsWhitespace(r[0])
  {
    assert s[|s| - |t| + |r|..] == t[|r|..];
    assert r != [] ==> r[0] == t[0];
  }

  /** A string is rejected as empty after trimming exactly when it is blank. */
  lemma {:induction false} TrimEmptyIffBlank(s: string)
    ensures Trim(s) == [] <==> IsBlank(s)
  {
    var t := TrimStart(s);
    if !IsBlank(s) {
      var k :| 0 <= k < |s| && !IsJsWhitespace(s[k]);
      assert t[k - (|s| - |t|)] == s[k];
    }
  }

  lemma {:induction false} TrimStartOfTrimmed(s: string)
    requires s == [] || !IsJsWhitespace(s[0])
    ensures TrimStart(s) == s
  {
  }

  lemma {:induction false} TrimEndOfTrimmed(s: string)
    requires s == [] || !IsJsWhitespace(s[|s| - 1])
    ensures TrimEnd(s) == s
  {
  }

  /** Trimming twice is trimming once. */
  lemma {:induction false} TrimIdempotent(s: string)
    ensures Trim(Trim(s)) == Trim(s)
  {
    var r := Trim(s);
    TrimStartOfTrimmed(r);
    TrimEndOfTrimmed(r);
  }

  /** The ASCII part of `toLowerCase`. */
  function LowerChar(c: char): char {
    if 'A' <= c <= 'Z' then (c as int + 32) as char else c
  }

  function Lower(s: string): (r: string)
    ensures |r| == |s|
    ensures forall k :: 0 <= k < |s| ==> r[k] == LowerChar(s[k])
  {
    seq(|s|, k requires 0 <= k < |s| => LowerChar(s[k]))
  }

  /** Lower-casing an already lower-cased string changes nothing. */
  lemma LowerIdempotent(s: string)
    ensures Lower(Lower(s)) == Lower(s)
  {
  }

  /** `needle` occurs in `hay` starting at position `i`. */
  predicate OccursAt(hay: string, needle: string, i: int) {
    0 <= i <= |hay| - |needle| && hay[i..i + |needle|] == needle
  }

  /** `hay.includes(needle)`, by scanning the start positions left to right. */
  function Contains(hay: string, needle: string): (r: bool)
    ensures r <==> exists i :: OccursAt(hay, needle, i)
    decreases |hay|
  {
    if |needle| > |hay| then false
    else if hay[..|needle|] == needle then assert OccursAt(hay, needle, 0); true
    else
      var rest := Contains(hay[1..], needle);
      assert forall i :: OccursAt(hay[1..], needle, i) <==> OccursAt(hay, needle, i + 1) by {
        forall i ensures OccursAt(hay[1..], needle, i) <==> OccursAt(hay, needle, i + 1) {
          if 0 <= i <= |hay| - 1 - |needle| {
            assert hay[1..][i..i + |needle|] == hay[i + 1..i + 1 + |needle|];
          }
        }
      }
      assert (exists i :: OccursAt(hay, needle, i)) ==> rest by {
        if exists i :: OccursAt(hay, needle, i) {
          var i :| OccursAt(hay, needle, i);
          assert i != 0;
          assert OccursAt(hay[1..], needle, i - 1);
        }
      }
      rest
  }

  /** Case-insensitive prefix test against a lower-case pattern, as the `i`
      flag of a regular expression does for ASCII letters. */
  predicate StartsWithIgnoringCase(s: string, lowerPrefix: string) {
    |lowerPrefix| <= |s| && Lower(s[..|lowerPrefix|]) == lowerPrefix
  }

  /** `/^https?:\/\//i.test(s)` */
  predicate HasHttpScheme(s: string): (r: bool)
    ensures r <==>
      || (|s| >= 7 && Lower(s[..4]) == "http" && s[4..7] == "://")
      || (|s| >= 8 && Lower(s[..5]) == "https" && s[5..8] == "://")
  {
    LowerSplit(s, 4, 7);
    LowerSplit(s, 5, 8);
    StartsWithIgnoringCase(s, "http://") || StartsWithIgnoringCase(s, "https://")
  }

  /** Lower-casing a prefix cut in two; the punctuation of `://` is matched
      only by itself. */
  lemma LowerSplit(s: string, n: nat, m: nat)
    requires n + 3 == m
    ensures |s| >= m ==> (Lower(s[..m]) == Lower(s[..n]) + "://" <==>
      Lower(s[..n]) == Lower(s[..m])[..n] && s[n..m] == "://")
  {
    if |s| >= m {
      var lm := Lower(s[..m]);
      assert lm[..n] == Lower(s[..n]);
      if s[n..m] == "://" {
        assert lm == Lower(s[..n]) + "://";
      }
      if lm == Lower(s[..n]) + "://" {
        assert lm[n] == ':' && lm[n + 1] == '/' && lm[n + 2] == '/';
        assert s[n..m] == [s[n], s[n + 1], s[n + 2]];
      }
    }
  }
}
