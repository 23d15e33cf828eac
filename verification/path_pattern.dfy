/** The whitelist that `normalizePath` applies to a logical path: the PCRE
    pattern `^[/\w]+(/\w+(\.\w+)?)?$`. */
module PathPattern {
  import opened Text

  /** `s[..k]` is a non-empty `[/\w]+`, `s[k]` is the separator and
      `s[k+1..e]` is a non-empty `\w+`. */
  predicate HeadSlashWord(s: string, k: int, e: int)
    requires 0 < k < e <= |s|
  {
    && AllPathChars(s[..k])
    && s[k] == '/'
    && k + 1 < e
    && AllWordChars(s[k + 1..e])
  }

  /** The language of the pattern between its anchors, alternative by
      alternative: the head `[/\w]+` alone, followed by `/\w+`, or followed
      by `/\w+\.\w+`. */
  ghost predicate InPattern(s: string) {
    || (|s| > 0 && AllPathChars(s))
    || (exists k :: 0 < k < |s| && HeadSlashWord(s, k, |s|))
    || (exists k, d :: 0 < k < d < |s| && HeadSlashWord(s, k, d)
                       && s[d] == '.' && d + 1 < |s| && AllWordChars(s[d + 1..]))
  }

  /** Index of the first character outside `[/\w]`, or `|s|` if there is none. */
  function FirstNonPathChar(s: string): (i: nat)
    ensures i <= |s|
    ensures forall j :: 0 <= j < i ==> IsPathChar(s[j])
    ensures i < |s| ==> !IsPathChar(s[i])
  {
    if |s| == 0 || !IsPathChar(s[0]) then 0 else 1 + FirstNonPathChar(s[1..])
  }

  /** Index of the last `/` in `s`, or -1 if there is none. */
  function LastSlash(s: string): (k: int)
    ensures -1 <= k < |s|
    ensures 0 <= k ==> s[k] == '/'
    ensures forall j :: k < j < |s| ==> s[j] != '/'
  {
    if |s| == 0 then -1
    else if s[|s| - 1] == '/' then |s| - 1
    else LastSlash(s[..|s| - 1])
  }

  /** A decision procedure for the pattern: either every character is in
      `[/\w]`, or the first one that is not is a `.` followed by a non-empty
      word, and the text before the dot ends in `/\w+` with a non-empty head
      before that separator. */
  predicate Accepts(s: string) {
    var d := FirstNonPathChar(s);
    if d == |s| then |s| > 0
    else
      && s[d] == '.'
      && d + 1 < |s|
      && AllWordChars(s[d + 1..])
      && var k := LastSlash(s[..d]); 0 < k && k + 1 < d
  }

  /** `preg_match` with this pattern and no `D` modifier: `$` also matches
      just before a single final newline. */
  predicate PregMatches(s: string) {
    || Accepts(s)
    || (|s| > 0 && s[|s| - 1] == '\n' && Accepts(s[..|s| - 1]))
  }

  /** The decision procedure accepts exactly the pattern's language. */
  lemma AcceptsIffInPattern(s: string)
    ensures Accepts(s) <==> InPattern(s)
  {
    if Accepts(s) {
      AcceptsImpliesInPattern(s);
    }
    if InPattern(s) {
      InPatternImpliesAccepts(s);
    }
  }

  lemma AcceptsImpliesInPattern(s: string)
    requires Accepts(s)
    ensures InPattern(s)
  {
    var d := FirstNonPathChar(s);
    if d == |s| {
      assert AllPathChars(s);
    } else {
      var k := LastSlash(s[..d]);
      assert s[k] == s[..d][k];
      forall j | 0 <= j < |s[..k]|
        ensures IsPathChar(s[..k][j])
      {
        assert s[..k][j] == s[j];
      }
      forall j | k + 1 <= j < d
        ensures IsWordChar(s[j])
      {
        assert s[j] == s[..d][j];
      }
      WordSlice(s, k + 1, d);
      assert HeadSlashWord(s, k, d);
    }
  }

  lemma InPatternImpliesAccepts(s: string)
    requires InPattern(s)
    ensures Accepts(s)
  {
    if exists k :: 0 < k < |s| && HeadSlashWord(s, k, |s|) {
      var k :| 0 < k < |s| && HeadSlashWord(s, k, |s|);
      HeadSlashWordAccepted(s, k);
    } else if |s| > 0 && AllPathChars(s) {
      assert FirstNonPathChar(s) == |s|;
    } else {
      var k, e :| 0 < k < e < |s| && HeadSlashWord(s, k, e)
                  && s[e] == '.' && e + 1 < |s| && AllWordChars(s[e + 1..]);
      ExtensionAccepted(s, k, e);
    }
  }

  /** A directory path, a `/` and a word: all path characters. */
  lemma HeadSlashWordAccepted(s: string, k: int)
    requires 0 < k < |s| && HeadSlashWord(s, k, |s|)
    ensures Accepts(s)
  {
    forall j | 0 <= j < |s|
      ensures IsPathChar(s[j])
    {
      if j < k {
        assert s[j] == s[..k][j];
      } else if j > k {
        assert s[j] == s[k + 1..][j - k - 1];
      }
    }
    assert FirstNonPathChar(s) == |s|;
  }

  /** A directory path, a `/`, a word, a `.` and a word: the dot is the
      first character outside `[/\w]` and a `/` lies before the last word. */
  lemma ExtensionAccepted(s: string, k: int, e: int)
    requires 0 < k < e < |s| && HeadSlashWord(s, k, e)
    requires s[e] == '.' && e + 1 < |s| && AllWordChars(s[e + 1..])
    ensures Accepts(s)
  {
    var d := FirstNonPathChar(s);
    forall j | 0 <= j < e
      ensures IsPathChar(s[j])
    {
      if j < k {
        assert s[j] == s[..k][j];
      } else if j > k {
        assert s[j] == s[k + 1..e][j - k - 1];
      }
    }
    assert d == e;
    var m := LastSlash(s[..d]);
    assert s[..d][k] == '/';
    assert k <= m;
    forall j | k < j < d
      ensures s[..d][j] != '/'
    {
      assert s[..d][j] == s[k + 1..e][j - k - 1];
    }
    assert m == k;
  }

  /** A slice whose characters are all word characters. */
  lemma WordSlice(s: string, a: int, b: int)
    requires 0 <= a <= b <= |s|
    requires forall j :: a <= j < b ==> IsWordChar(s[j])
    ensures AllWordChars(s[a..b])
  {
    forall i | 0 <= i < b - a
      ensures IsWordChar(s[a..b][i])
    {
      assert s[a..b][i] == s[a + i];
    }
  }

  /** Every accepted path uses only ASCII letters, digits, `_`, `/` and at
      most one `.`; that dot has word characters on both sides, lies in the
      last segment, and that segment is preceded by a `/` which itself has
      at least one character before it. */
  lemma AcceptedShape(s: string)
    requires Accepts(s)
    ensures forall i :: 0 <= i < |s| ==> IsPathChar(s[i]) || s[i] == '.'
    ensures forall i, j :: 0 <= i < |s| && 0 <= j < |s| && s[i] == '.' && s[j] == '.' ==> i == j
    ensures forall i :: 0 <= i < |s| && s[i] == '.' ==>
              && 0 < i < |s| - 1
              && IsWordChar(s[i - 1]) && IsWordChar(s[i + 1])
              && (forall j :: i < j < |s| ==> IsWordChar(s[j]))
              && 0 < LastSlash(s[..i]) < i - 1
  {
    var d := FirstNonPathChar(s);
    if d < |s| {
      forall j | d < j < |s|
        ensures IsWordChar(s[j])
      {
        assert s[j] == s[d + 1..][j - d - 1];
      }
      var k := LastSlash(s[..d]);
      forall j | k < j < d
        ensures IsWordChar(s[j])
      {
        assert s[j] == s[..d][j];
      }
    }
  }

  /** No `.` in an accepted path starts a segment, so no segment is `.` or
      `..`: every dot has a character before it that is not a separator. */
  predicate NoSegmentStartsWithDot(s: string) {
    forall i :: 0 <= i < |s| && s[i] == '.' ==> 0 < i && s[i - 1] != '/'
  }

  lemma PregMatchesHasNoDotSegment(s: string)
    requires PregMatches(s)
    ensures NoSegmentStartsWithDot(s)
  {
    if Accepts(s) {
      AcceptedShape(s);
    } else {
      var w := s[..|s| - 1];
      AcceptedShape(w);
      forall i | 0 <= i < |s| && s[i] == '.'
        ensures 0 < i && s[i - 1] != '/'
      {
        assert s[i] == w[i];
      }
    }
  }

  /** A character outside `[/\w.]` anywhere but as the one final newline
      makes the path rejected: `$dir`, `~dir`, `!dir`, `@dir` or `#dir`, say. */
  lemma RejectsForeignChar(s: string, i: int)
    requires 0 <= i < |s| && !IsPathChar(s[i]) && s[i] != '.'
    requires !(i == |s| - 1 && s[i] == '\n')
    ensures !PregMatches(s)
  {
    if Accepts(s) {
      AcceptedShape(s);
    }
    if |s| > 0 && s[|s| - 1] == '\n' && Accepts(s[..|s| - 1]) {
      AcceptedShape(s[..|s| - 1]);
    }
  }

  /** A `.` that starts a segment makes the path rejected: `.`, `..`,
      `/../` or `/dir/../../../`, say. */
  lemma RejectsDotSegment(s: string, i: int)
    requires 0 <= i < |s| && s[i] == '.' && (i == 0 || s[i - 1] == '/')
    ensures !PregMatches(s)
  {
    if PregMatches(s) {
      PregMatchesHasNoDotSegment(s);
    }
  }

  /** A non-empty run of `[/\w]` is accepted: a directory path such as
      `/test/subdir`. */
  lemma AcceptsPathChars(s: string)
    requires |s| > 0 && AllPathChars(s)
    ensures Accepts(s)
  {
    AcceptsIffInPattern(s);
  }

  /** A head, a separator, a name, a dot and an extension is accepted: the
      file path such as `/test/subdir/file.txt`. */
  lemma AcceptsFileName(head: string, name: string, ext: string)
    requires |head| > 0 && AllPathChars(head)
    requires |name| > 0 && AllWordChars(name)
    requires |ext| > 0 && AllWordChars(ext)
    ensures Accepts(head + "/" + name + "." + ext)
  {
    var s := head + "/" + name + "." + ext;
    var k := |head|;
    var d := |head| + 1 + |name|;
    assert s[..k] == head;
    assert s[k + 1..d] == name;
    assert s[d + 1..] == ext;
    assert HeadSlashWord(s, k, d);
    AcceptsIffInPattern(s);
  }
}
