/** Characters and strings as the script's JavaScript sees them: a string is a
    sequence of characters (a character outside the Basic Multilingual Plane
    is one `char` here, where JavaScript counts two code units), whitespace is
    the set shared by the regular expression class `\s` and by
    `String.prototype.trim`. */
module Text {

  /** ECMAScript WhiteSpace and LineTerminator code points: the members of `\s`
      and exactly what `trim` strips. */
  predicate IsWS(c: char)
  {
    || c == '\t' || c == '\n' || c == '\U{000B}' || c == '\U{000C}' || c == '\r' || c == ' '
    || c == '\U{00A0}' || c == '\U{1680}' || ('\U{2000}' <= c <= '\U{200A}')
    || c == '\U{2028}' || c == '\U{2029}' || c == '\U{202F}' || c == '\U{205F}'
    || c == '\U{3000}' || c == '\U{FEFF}'
  }

  /** Members of the class `\S`. */
  predicate NotWS(c: char)
  {
    !IsWS(c)
  }

  /** ECMAScript LineTerminator: the characters after which `^` matches under the `m` flag. */
  predicate IsLineTerm(c: char)
  {
    c == '\n' || c == '\r' || c == '\U{2028}' || c == '\U{2029}'
  }

  predicate AllWS(s: string)
  {
    forall i :: 0 <= i < |s| ==> IsWS(s[i])
  }

  /** Every character of `s` at an index in `[lo, hi)` is whitespace. */
  predicate WSBetween(s: string, lo: nat, hi: nat)
    requires lo <= hi <= |s|
  {
    forall p :: lo <= p < hi ==> IsWS(s[p])
  }

  /** A slice of a slice is a slice of the whole. */
  lemma SliceOfSlice(s: string, b: nat, c: nat, q: nat, r: nat)
    requires b <= c <= |s| && q <= r <= c - b
    ensures s[b..c][q..r] == s[b + q..b + r]
  {
    assert forall k :: 0 <= k < r - q ==> s[b..c][q..r][k] == s[b + q + k];
  }

  /** `lit` occurs in `s` starting at index `i`. */
  predicate HasAt(s: string, i: nat, lit: string)
  {
    i + |lit| <= |s| && s[i..i + |lit|] == lit
  }

  /** An occurrence at `p` is an occurrence in the suffix from `j`, at `p - j`. */
  lemma HasAtSuffix(s: string, j: nat, p: nat, lit: string)
    requires j <= p && j <= |s|
    ensures HasAt(s, p, lit) <==> HasAt(s[j..], p - j, lit)
  {
    if p + |lit| <= |s| {
      assert s[j..][p - j..p - j + |lit|] == s[p..p + |lit|];
    }
  }

  predicate EndsWith(s: string, suffix: string)
  {
    |suffix| <= |s| && s[|s| - |suffix|..] == suffix
  }

  /** The end of the longest run of characters satisfying `P` that starts at `j`:
      what a greedy quantifier `X+` or `X*` over a class reaches. */
  function RunEnd(s: string, j: nat, P: char -> bool): (k: nat)
    requires j <= |s|
    ensures j <= k <= |s|
    ensures forall p :: j <= p < k ==> P(s[p])
    ensures k == |s| || !P(s[k])
    decreases |s| - j
  {
    if j < |s| && P(s[j]) then RunEnd(s, j + 1, P) else j
  }

  /** A run depends only on the text from where it starts: in the suffix from
      `j` it ends `j` positions earlier. */
  lemma {:induction false} RunEndSuffix(s: string, j: nat, p: nat, P: char -> bool)
    requires j <= p <= |s|
    ensures RunEnd(s, p, P) == j + RunEnd(s[j..], p - j, P)
    decreases |s| - p
  {
    if p < |s| && P(s[p]) {
      RunEndSuffix(s, j, p + 1, P);
      assert s[j..][p - j] == s[p];
    } else if p < |s| {
      assert s[j..][p - j] == s[p];
    }
  }

  /** `s[a..b]` with the whitespace at both of its ends removed, one character
      at a time. */
  function Strip(s: string, a: nat, b: nat): string
    requires a <= b <= |s|
    decreases b - a
  {
    if a < b && IsWS(s[a]) then Strip(s, a + 1, b)
    else if a < b && IsWS(s[b - 1]) then Strip(s, a, b - 1)
    else s[a..b]
  }

  /** `String.prototype.trim`: `s` without the whitespace at either end. */
  function Trim(s: string): string
  {
    Strip(s, 0, |s|)
  }

  /** Strip leaves a slice of `s[a..b]` with only whitespace outside it and
      no whitespace at its ends. */
  lemma {:induction false} StripSlice(s: string, a: nat, b: nat) returns (a': nat, b': nat)
    requires a <= b <= |s|
    ensures a <= a' <= b' <= b && Strip(s, a, b) == s[a'..b']
    ensures WSBetween(s, a, a') && WSBetween(s, b', b)
    ensures a' < b' ==> !IsWS(s[a']) && !IsWS(s[b' - 1])
    decreases b - a
  {
    if a < b && IsWS(s[a]) {
      a', b' := StripSlice(s, a + 1, b);
    } else if a < b && IsWS(s[b - 1]) {
      a', b' := StripSlice(s, a, b - 1);
    } else {
      a', b' := a, b;
    }
  }

  /** What Trim leaves: a slice of `s` with only whitespace outside it, empty
      exactly when `s` is all whitespace, and otherwise starting and ending
      with a non-whitespace character. */
  lemma TrimSpec(s: string)
    ensures Trim(s) == [] <==> AllWS(s)
    ensures Trim(s) != [] ==> !IsWS(Trim(s)[0]) && !IsWS(Trim(s)[|Trim(s)| - 1])
    ensures exists a: nat :: a + |Trim(s)| <= |s| && Trim(s) == s[a..a + |Trim(s)|] && WSBetween(s, 0, a) && WSBetween(s, a + |Trim(s)|, |s|)
  {
    var a, b := StripSlice(s, 0, |s|);
    if a < b {
      assert !IsWS(s[a]);
    }
    assert a + |s[a..b]| <= |s| && s[a..b] == s[a..a + |s[a..b]|] && WSBetween(s, a + |s[a..b]|, |s|);
  }

  /** The characterisation in Trim's contract determines it: any slice of `s`
      with only whitespace outside it and no whitespace at its ends is the
      trimmed string. */
  lemma TrimCharacterized(s: string, a: nat, b: nat)
    requires a <= b <= |s|
    requires WSBetween(s, 0, a) && WSBetween(s, b, |s|)
    requires a < b ==> !IsWS(s[a]) && !IsWS(s[b - 1])
    requires a == b ==> AllWS(s)
    ensures Trim(s) == s[a..b]
  {
    var r := Trim(s);
    TrimSpec(s);
    if a < b {
      var a': nat :| a' + |r| <= |s| && r == s[a'..a' + |r|] && WSBetween(s, 0, a') && WSBetween(s, a' + |r|, |s|);
      assert !IsWS(s[a]);
      assert r != [];
      assert s[a'] == r[0] && s[a' + |r| - 1] == r[|r| - 1];
      assert a' == a && a' + |r| == b;
    }
  }

  /** Trimming twice is trimming once. */
  lemma TrimIdempotent(s: string)
    ensures Trim(Trim(s)) == Trim(s)
  {
    var r := Trim(s);
    TrimSpec(s);
    TrimCharacterized(r, 0, |r|);
  }
}
