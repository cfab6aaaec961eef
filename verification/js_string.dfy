/**
 * `String.prototype.trim` as ECMAScript defines it: it removes leading and
 * trailing WhiteSpace and LineTerminator code points.  The upload path only
 * asks whether the trimmed declared mime type is empty, so the lemma that
 * matters is `Trim(s) == "" <==> IsBlank(s)`.
 */
module JsString {

  /** WhiteSpace (including every Zs code point) and LineTerminator of ECMAScript. */
  predicate IsWhiteSpace(c: char) {
    || c == '\t' || c == '\n' || c == '\U{B}' || c == '\U{C}' || c == '\r'
    || c == ' ' || c == '\U{A0}' || c == '\U{1680}'
    || ('\U{2000}' <= c <= '\U{200A}')
    || c == '\U{2028}' || c == '\U{2029}' || c == '\U{202F}' || c == '\U{205F}'
    || c == '\U{3000}' || c == '\U{FEFF}'
  }

  /** Every code point of `s` is white space (vacuously true of ""). */
  predicate IsBlank(s: string) {
    forall i :: 0 <= i < |s| ==> IsWhiteSpace(s[i])
  }

  /** Drops the longest all-white-space prefix. */
  function TrimStart(s: string): (r: string)
    ensures |r| <= |s| && r == s[|s| - |r|..]
    ensures forall i :: 0 <= i < |s| - |r| ==> IsWhiteSpace(s[i])
    ensures r == "" || !IsWhiteSpace(r[0])
  {
    if |s| > 0 && IsWhiteSpace(s[0]) then TrimStart(s[1..]) else s
  }

  /** Drops the longest all-white-space suffix. */
  function TrimEnd(s: string): (r: string)
    ensures |r| <= |s| && r == s[..|r|]
    ensures forall i :: |r| <= i < |s| ==> IsWhiteSpace(s[i])
    ensures r == "" || !IsWhiteSpace(r[|r| - 1])
  {
    if |s| > 0 && IsWhiteSpace(s[|s| - 1]) then TrimEnd(s[..|s| - 1]) else s
  }

  /** `r` is `s[i..j]`, and everything of `s` before `i` and from `j` on is white space. */
  predicate CutFrom(s: string, i: int, j: int, r: string) {
    0 <= i <= j <= |s| && r == s[i..j] && IsBlank(s[..i]) && IsBlank(s[j..])
  }

  /**
   * `s.trim()`: a slice of `s` with only white space cut off before and
   * after it; the result is empty exactly when `s` is blank, and otherwise
   * starts and ends with a non-blank code point (so nothing more could be cut).
   */
  function Trim(s: string): (r: string)
    ensures |r| <= |s|
    ensures exists i, j :: CutFrom(s, i, j, r)
    ensures r == "" <==> IsBlank(s)
    ensures r != "" ==> !IsWhiteSpace(r[0]) && !IsWhiteSpace(r[|r| - 1])
  {
    var t := TrimStart(s);
    var r := TrimEnd(t);
    assert t == "" ==> IsBlank(s) by {
      if t == "" {
        forall i | 0 <= i < |s| ensures IsWhiteSpace(s[i]) { }
      }
    }
    TrimCut(s);
    r
  }

  /** The two halves of `Trim` cut only white space off the ends of `s`. */
  lemma TrimCut(s: string)
    ensures CutFrom(s, |s| - |TrimStart(s)|, |s| - |TrimStart(s)| + |TrimEnd(TrimStart(s))|, TrimEnd(TrimStart(s)))
  {
    TrimKeepsSlice(s);
    TrimCutsBlankPrefix(s);
    TrimCutsBlankSuffix(s);
  }

  /** What the two halves of `Trim` keep is a slice of `s`. */
  lemma TrimKeepsSlice(s: string)
    ensures TrimEnd(TrimStart(s)) == s[|s| - |TrimStart(s)|..|s| - |TrimStart(s)| + |TrimEnd(TrimStart(s))|]
  {
  }

  /** `TrimStart` cuts only white space. */
  lemma TrimCutsBlankPrefix(s: string)
    ensures IsBlank(s[..|s| - |TrimStart(s)|])
  {
    var i := |s| - |TrimStart(s)|;
    forall k | 0 <= k < i ensures IsWhiteSpace(s[..i][k]) {
      assert s[..i][k] == s[k];
    }
  }

  /** `TrimEnd` after `TrimStart` cuts only white space. */
  lemma TrimCutsBlankSuffix(s: string)
    ensures IsBlank(s[|s| - |TrimStart(s)| + |TrimEnd(TrimStart(s))|..])
  {
    var t := TrimStart(s);
    var r := TrimEnd(t);
    var j := |s| - |t| + |r|;
    forall k | 0 <= k < |s| - j ensures IsWhiteSpace(s[j..][k]) {
      assert s[j..][k] == t[|r| + k];
    }
  }
}
