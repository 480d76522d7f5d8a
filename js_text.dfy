/** The two pieces of JavaScript string behaviour the add-book form relies on:
    `String.prototype.trim` and the regular expression `/^\d{13}$/`. */
module JsText {

  /** The characters `trim` removes beyond ASCII: NBSP, ZWNBSP, the other
      Unicode space separators, and the line and paragraph separators. */
  const NonAsciiWhitespace: seq<char> := [
    '\U{00A0}', '\U{1680}',
    '\U{2000}', '\U{2001}', '\U{2002}', '\U{2003}', '\U{2004}', '\U{2005}',
    '\U{2006}', '\U{2007}', '\U{2008}', '\U{2009}', '\U{200A}',
    '\U{2028}', '\U{2029}', '\U{202F}', '\U{205F}', '\U{3000}', '\U{FEFF}'
  ]

  /** `c` occurs in `chars`, looked up one entry at a time. */
  predicate OneOf(c: char, chars: seq<char>) {
    chars != [] && (chars[0] == c || OneOf(c, chars[1..]))
  }

  /** The characters `trim` removes: ECMAScript's WhiteSpace and
      LineTerminator. In ASCII these are the space and TAB, LF, VT, FF, CR
      (the code points 9 to 13); every other one is at U+00A0 or above. */
  predicate IsJsWhitespace(c: char) {
    || c == ' ' || ('\t' <= c <= '\r')
    || ('\U{00A0}' <= c && OneOf(c, NonAsciiWhitespace))
  }

  ghost predicate AllWhitespace(s: string) {
    forall k :: 0 <= k < |s| ==> IsJsWhitespace(s[k])
  }

  /** `s` with its leading whitespace removed. */
  function TrimStart(s: string): string {
    if s != [] && IsJsWhitespace(s[0]) then TrimStart(s[1..]) else s
  }

  /** `s` with its trailing whitespace removed. */
  function TrimEnd(s: string): string {
    if s != [] && IsJsWhitespace(s[|s| - 1]) then TrimEnd(s[..|s| - 1]) else s
  }

  /** `String.prototype.trim`. */
  function Trim(s: string): string {
    TrimEnd(TrimStart(s))
  }

  /** TrimStart keeps a suffix of its input, drops only whitespace, and stops
      at the first character that is not whitespace. */
  lemma {:induction false} TrimStartSpec(s: string)
    ensures |TrimStart(s)| <= |s| && TrimStart(s) == s[|s| - |TrimStart(s)|..]
    ensures forall k :: 0 <= k < |s| - |TrimStart(s)| ==> IsJsWhitespace(s[k])
    ensures TrimStart(s) == [] || !IsJsWhitespace(TrimStart(s)[0])
  {
    if s != [] && IsJsWhitespace(s[0]) {
      TrimStartSpec(s[1..]);
      assert forall k :: 1 <= k < |s| ==> s[k] == s[1..][k - 1];
    }
  }

  /** TrimEnd keeps a prefix of its input, drops only whitespace, and stops
      at the last character that is not whitespace. */
  lemma {:induction false} TrimEndSpec(s: string)
    ensures |TrimEnd(s)| <= |s| && TrimEnd(s) == s[..|TrimEnd(s)|]
    ensures forall k :: |TrimEnd(s)| <= k < |s| ==> IsJsWhitespace(s[k])
    ensures TrimEnd(s) == [] || !IsJsWhitespace(TrimEnd(s)[|TrimEnd(s)| - 1])
  {
    if s != [] && IsJsWhitespace(s[|s| - 1]) {
      TrimEndSpec(s[..|s| - 1]);
    }
  }

  /** TrimStart stops exactly at the first character that is not whitespace. */
  lemma TrimStartAt(s: string, i: nat)
    requires i <= |s|
    requires forall k :: 0 <= k < i ==> IsJsWhitespace(s[k])
    requires i == |s| || !IsJsWhitespace(s[i])
    ensures TrimStart(s) == s[i..]
  {
    TrimStartSpec(s);
    var u := TrimStart(s);
    var n := |s| - |u|;
    assert n <= i;
    assert u != [] ==> u[0] == s[n];
    assert n == i;
  }

  /** TrimEnd stops exactly after the last character that is not whitespace. */
  lemma TrimEndAt(s: string, j: nat)
    requires j <= |s|
    requires forall k :: j <= k < |s| ==> IsJsWhitespace(s[k])
    requires j == 0 || !IsJsWhitespace(s[j - 1])
    ensures TrimEnd(s) == s[..j]
  {
    TrimEndSpec(s);
    var t := TrimEnd(s);
    assert |t| >= j;
    assert t != [] ==> t[|t| - 1] == s[|t| - 1];
    assert |t| == j;
  }

  /** Trim is the unique "core" of its input: whenever `s` splits into a
      whitespace prefix, a part that neither starts nor ends with whitespace,
      and a whitespace suffix, Trim returns that middle part. */
  lemma TrimCharacterised(s: string, i: nat, j: nat)
    requires i <= j <= |s|
    requires forall k :: 0 <= k < i ==> IsJsWhitespace(s[k])
    requires forall k :: j <= k < |s| ==> IsJsWhitespace(s[k])
    requires i < j ==> !IsJsWhitespace(s[i]) && !IsJsWhitespace(s[j - 1])
    ensures Trim(s) == s[i..j]
  {
    if i == j {
      TrimStartAt(s, |s|);
      TrimEndAt([], 0);
    } else {
      TrimStartAt(s, i);
      var u := s[i..];
      assert forall k :: 0 <= k < |u| ==> u[k] == s[i + k];
      TrimEndAt(u, j - i);
      assert u[..j - i] == s[i..j];
    }
  }

  lemma TrimStartOfWhitespace(s: string)
    requires AllWhitespace(s)
    ensures TrimStart(s) == []
  {
    TrimStartAt(s, |s|);
  }

  /** Trimming twice is trimming once. */
  lemma TrimIdempotent(s: string)
    ensures Trim(Trim(s)) == Trim(s)
  {
    var u := TrimStart(s);
    TrimStartSpec(s);
    TrimEndSpec(u);
    var t := Trim(s);
    if t != [] {
      assert t[0] == u[0];
    }
    TrimCharacterised(t, 0, |t|);
  }

  /** Trim yields the empty string exactly when the input is all whitespace
      (in particular when it is empty). */
  lemma TrimEmptyIff(s: string)
    ensures Trim(s) == [] <==> AllWhitespace(s)
  {
    var u := TrimStart(s);
    TrimStartSpec(s);
    TrimEndSpec(u);
    if AllWhitespace(s) {
      TrimStartOfWhitespace(s);
    }
    if Trim(s) == [] {
      assert AllWhitespace(u);
    }
  }

  /** A character matched by `\d` in a regular expression without the `u` flag. */
  predicate IsAsciiDigit(c: char) {
    '0' <= c <= '9'
  }

  /** Every character of `s` is matched by `\d`. */
  predicate DigitsOnly(s: string) {
    s == [] || (IsAsciiDigit(s[0]) && DigitsOnly(s[1..]))
  }

  /** The ISBN pattern `/^\d{13}$/`: anchored at both ends, so the whole input
      is the thirteen repetitions of `\d` and nothing else. */
  predicate IsbnPattern(s: string) {
    |s| == 13 && DigitsOnly(s)
  }

  /** The recursive matcher agrees with the quantified definition. */
  lemma {:induction false} DigitsOnlyIff(s: string)
    ensures DigitsOnly(s) <==> forall k :: 0 <= k < |s| ==> IsAsciiDigit(s[k])
  {
    if s != [] {
      DigitsOnlyIff(s[1..]);
      assert forall k :: 1 <= k < |s| ==> s[k] == s[1..][k - 1];
    }
  }

  /** `/^\d{13}$/` accepts a string iff it is exactly thirteen ASCII digits. */
  lemma IsbnPatternIff(s: string)
    ensures IsbnPattern(s) <==>
            |s| == 13 && forall k :: 0 <= k < |s| ==> IsAsciiDigit(s[k])
  {
    DigitsOnlyIff(s);
  }
}
