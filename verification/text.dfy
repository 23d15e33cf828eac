/** Character classes and PHP's `ltrim`, as the storage uses them. */
module Text {

  /** A PCRE `\w` character without the `u` modifier: `[A-Za-z0-9_]`. */
  predicate IsWordChar(c: char) {
    ('a' <= c <= 'z') || ('A' <= c <= 'Z') || ('0' <= c <= '9') || c == '_'
  }

  /** A character of the class `[/\w]`. */
  predicate IsPathChar(c: char) {
    c == '/' || IsWordChar(c)
  }

  predicate AllWordChars(s: string) {
    forall i :: 0 <= i < |s| ==> IsWordChar(s[i])
  }

  predicate AllPathChars(s: string) {
    forall i :: 0 <= i < |s| ==> IsPathChar(s[i])
  }

  /** PHP's `ltrim(s, chars)`: drops the longest prefix of `s` made only of
      characters in `chars`. The result is a suffix of `s`, everything cut
      off was in `chars`, and the result does not start with one of them. */
  function LTrim(s: string, chars: set<char>): (r: string)
    ensures |r| <= |s| && r == s[|s| - |r|..]
    ensures forall i :: 0 <= i < |s| - |r| ==> s[i] in chars
    ensures r == [] || r[0] !in chars
  {
    if |s| == 0 || s[0] !in chars then s else LTrim(s[1..], chars)
  }

  /** The three properties of `LTrim` determine its result: any suffix of `s`
      that cut off only characters of `chars` and does not itself start
      with one is exactly `LTrim(s, chars)`. */
  lemma {:induction false} LTrimUnique(s: string, chars: set<char>, r: string)
    requires |r| <= |s| && r == s[|s| - |r|..]
    requires forall i :: 0 <= i < |s| - |r| ==> s[i] in chars
    requires r == [] || r[0] !in chars
    ensures r == LTrim(s, chars)
    decreases |s|
  {
    if |s| == |r| {
      assert r == s;
    } else {
      assert s[0] in chars;
      assert r == s[1..][|s[1..]| - |r|..];
      forall i | 0 <= i < |s[1..]| - |r|
        ensures s[1..][i] in chars
      {
        assert s[1..][i] == s[i + 1];
      }
      LTrimUnique(s[1..], chars, r);
    }
  }

  /** Trimming twice with the same characters trims nothing more. */
  lemma LTrimIdempotent(s: string, chars: set<char>)
    ensures LTrim(LTrim(s, chars), chars) == LTrim(s, chars)
  {
  }

  /** A string that does not start with a trimmed character is its own trim. */
  lemma LTrimKeepsUntrimmedStart(s: string, chars: set<char>)
    requires s == [] || s[0] !in chars
    ensures LTrim(s, chars) == s
  {
  }

  /** Trimming a prefix made only of trimmed characters gives the same result
      as trimming the whole string. */
  lemma {:induction false} LTrimSkipsTrimmedPrefix(pre: string, s: string, chars: set<char>)
    requires forall i :: 0 <= i < |pre| ==> pre[i] in chars
    ensures LTrim(pre + s, chars) == LTrim(s, chars)
    decreases |pre|
  {
    if |pre| > 0 {
      assert (pre + s)[1..] == pre[1..] + s;
      LTrimSkipsTrimmedPrefix(pre[1..], s, chars);
    } else {
      assert pre + s == s;
    }
  }
}
