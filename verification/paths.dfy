/** Filesystem paths as the kernel sees them: a string is split at `/` into
    segments, and `.` and `..` are resolved lexically (symbolic links are
    not modelled). A resolved path is a sequence of entry names from the
    filesystem root. */
module Paths {
  import opened Text
  import opened PathPattern

  /** A resolved path: the names of the entries from `/` down to the target. */
  type Path = seq<string>

  /** A name a directory entry can have. */
  predicate ValidName(n: string) {
    n != [] && n != "." && n != ".." && '/' !in n
  }

  predicate ValidPath(p: Path) {
    forall i :: 0 <= i < |p| ==> ValidName(p[i])
  }

  /** The parent directory; the root is its own parent, as `dirname("/")`. */
  function Parent(p: Path): (r: Path)
    ensures p == [] ==> r == []
    ensures p != [] ==> r + [p[|p| - 1]] == p
  {
    if |p| == 0 then p else p[..|p| - 1]
  }

  /** `a` is `b` or one of its ancestors. */
  predicate IsPrefix(a: Path, b: Path) {
    |a| <= |b| && b[..|a|] == a
  }

  /** Length of the text before the first `/` (all of `s` if there is none). */
  function SegmentLen(s: string): (n: nat)
    ensures n <= |s|
    ensures forall j :: 0 <= j < n ==> s[j] != '/'
    ensures n < |s| ==> s[n] == '/'
  {
    if |s| == 0 || s[0] == '/' then 0 else 1 + SegmentLen(s[1..])
  }

  /** The non-empty pieces of `s` between separators; repeated, leading and
      trailing separators produce no segment, as in the kernel's lookup. */
  function Segments(s: string): (r: seq<string>)
    ensures forall i :: 0 <= i < |r| ==> r[i] != [] && '/' !in r[i]
    decreases |s|
  {
    if |s| == 0 then []
    else if s[0] == '/' then Segments(s[1..])
    else
      var n := SegmentLen(s);
      [s[..n]] + Segments(s[n..])
  }

  /** One lexical resolution step: `.` stays, `..` goes up (not above the
      root), any other name goes down. */
  function Step(base: Path, seg: string): Path {
    if seg == "." then base
    else if seg == ".." then Parent(base)
    else base + [seg]
  }

  function Walk(base: Path, segs: seq<string>): Path
    decreases |segs|
  {
    if |segs| == 0 then base else Walk(Step(base, segs[0]), segs[1..])
  }

  /** The entry a path string names. The working directory is taken to be
      the root, so relative and absolute strings resolve alike. */
  function Resolve(s: string): (p: Path)
    ensures ValidPath(p)
  {
    WalkValid([], Segments(s));
    Walk([], Segments(s))
  }

  lemma {:induction false} WalkValid(base: Path, segs: seq<string>)
    requires ValidPath(base)
    requires forall i :: 0 <= i < |segs| ==> segs[i] != [] && '/' !in segs[i]
    ensures ValidPath(Walk(base, segs))
    decreases |segs|
  {
    if |segs| > 0 {
      var next := Step(base, segs[0]);
      assert ValidPath(next);
      WalkValid(next, segs[1..]);
    }
  }

  /** Resolving a concatenation resolves the first part, then the second. */
  lemma {:induction false} WalkAppend(base: Path, x: seq<string>, y: seq<string>)
    ensures Walk(base, x + y) == Walk(Walk(base, x), y)
    decreases |x|
  {
    if |x| == 0 {
      assert x + y == y;
    } else {
      assert (x + y)[1..] == x[1..] + y;
      WalkAppend(Step(base, x[0]), x[1..], y);
    }
  }

  /** Segments that are neither `.` nor `..` each descend one level. */
  lemma {:induction false} WalkPlain(base: Path, segs: seq<string>)
    requires forall i :: 0 <= i < |segs| ==> segs[i] != "." && segs[i] != ".."
    ensures Walk(base, segs) == base + segs
    decreases |segs|
  {
    if |segs| > 0 {
      WalkPlain(base + [segs[0]], segs[1..]);
      assert base + [segs[0]] + segs[1..] == base + segs;
    }
  }

  lemma FirstSlashAt(s: string, n: nat)
    requires n <= |s|
    requires forall j :: 0 <= j < n ==> s[j] != '/'
    requires n < |s| ==> s[n] == '/'
    ensures SegmentLen(s) == n
  {
  }

  /** Separators at the front of a string add no segment. */
  lemma {:induction false} SegmentsSkipSlashes(s: string, k: nat)
    requires k <= |s|
    requires forall j :: 0 <= j < k ==> s[j] == '/'
    ensures Segments(s) == Segments(s[k..])
    decreases k
  {
    if k > 0 {
      assert s[1..][k - 1..] == s[k..];
      SegmentsSkipSlashes(s[1..], k - 1);
    }
  }

  /** Joining two strings with a separator joins their segments. */
  lemma {:induction false} SegmentsJoin(a: string, b: string)
    ensures Segments(a + "/" + b) == Segments(a) + Segments(b)
    decreases |a|
  {
    if |a| == 0 {
      assert (a + "/" + b)[1..] == b;
    } else if a[0] == '/' {
      SegmentsJoin(a[1..], b);
      JoinAfterSlash(a, b);
    } else {
      SegmentsJoin(a[SegmentLen(a)..], b);
      JoinAfterName(a, b);
    }
  }

  /** The step of `SegmentsJoin` past a leading separator. */
  lemma JoinAfterSlash(a: string, b: string)
    requires a != [] && a[0] == '/'
    requires Segments(a[1..] + "/" + b) == Segments(a[1..]) + Segments(b)
    ensures Segments(a + "/" + b) == Segments(a) + Segments(b)
  {
    var s := a + "/" + b;
    assert s[1..] == a[1..] + "/" + b;
  }

  /** The step of `SegmentsJoin` past a leading name. */
  lemma JoinAfterName(a: string, b: string)
    requires a != [] && a[0] != '/'
    requires Segments(a[SegmentLen(a)..] + "/" + b) == Segments(a[SegmentLen(a)..]) + Segments(b)
    ensures Segments(a + "/" + b) == Segments(a) + Segments(b)
  {
    var s := a + "/" + b;
    var n := SegmentLen(a);
    JoinedSegmentLen(a, b);
    var x, y, z := [a[..n]], Segments(a[n..]), Segments(b);
    assert Segments(s) == x + (y + z);
    assert Segments(a) == x + y;
    assert x + (y + z) == (x + y) + z;
  }

  /** The first name of `a` is the first name of `a`, a separator and `b`. */
  lemma JoinedSegmentLen(a: string, b: string)
    ensures SegmentLen(a + "/" + b) == SegmentLen(a)
    ensures (a + "/" + b)[..SegmentLen(a)] == a[..SegmentLen(a)]
    ensures (a + "/" + b)[SegmentLen(a)..] == a[SegmentLen(a)..] + "/" + b
  {
    var s := a + "/" + b;
    var n := SegmentLen(a);
    forall j | 0 <= j < n
      ensures s[j] != '/'
    {
      assert s[j] == a[j];
    }
    FirstSlashAt(s, n);
  }

  /** If no `.` starts a segment of `s`, no segment is `.` or `..`. */
  lemma {:induction false} SegmentsAvoidDots(s: string)
    requires NoSegmentStartsWithDot(s)
    ensures forall i :: 0 <= i < |Segments(s)| ==> Segments(s)[i][0] != '.'
    decreases |s|
  {
    if |s| == 0 {
    } else if s[0] == '/' {
      assert NoSegmentStartsWithDot(s[1..]) by {
        forall i | 0 <= i < |s[1..]| && s[1..][i] == '.'
          ensures 0 < i && s[1..][i - 1] != '/'
        {
          assert s[i + 1] == '.';
        }
      }
      SegmentsAvoidDots(s[1..]);
    } else {
      var n := SegmentLen(s);
      assert s[0] != '.';
      assert NoSegmentStartsWithDot(s[n..]) by {
        forall i | 0 <= i < |s[n..]| && s[n..][i] == '.'
          ensures 0 < i && s[n..][i - 1] != '/'
        {
          assert s[n + i] == '.';
        }
      }
      SegmentsAvoidDots(s[n..]);
      var r := Segments(s);
      assert r == [s[..n]] + Segments(s[n..]);
      forall i | 0 <= i < |r|
        ensures r[i][0] != '.'
      {
        if i > 0 {
          assert r[i] == Segments(s[n..])[i - 1];
        }
      }
    }
  }

  /** No segment is `.` or `..`: resolving such segments only descends. */
  predicate PlainSegments(segs: seq<string>) {
    forall i :: 0 <= i < |segs| ==> segs[i] != "." && segs[i] != ".."
  }

  /** `s` without its trailing separators. */
  function TrimTrailingSlashes(s: string): (r: string)
    ensures |r| <= |s| && r == s[..|r|]
    ensures forall i :: |r| <= i < |s| ==> s[i] == '/'
    ensures r == [] || r[|r| - 1] != '/'
    decreases |s|
  {
    if |s| == 0 || s[|s| - 1] != '/' then s else TrimTrailingSlashes(s[..|s| - 1])
  }

  /** `s` without the name it ends with. */
  function TrimTrailingName(s: string): (r: string)
    ensures |r| <= |s| && r == s[..|r|]
    ensures forall i :: |r| <= i < |s| ==> s[i] != '/'
    ensures r == [] || r[|r| - 1] == '/'
    decreases |s|
  {
    if |s| == 0 || s[|s| - 1] == '/' then s else TrimTrailingName(s[..|s| - 1])
  }

  /** PHP's `dirname` on POSIX, which works on the string alone: trailing
      separators go, then the last name, then the separators before it.
      What is left is the result; `/` when only separators were left, and
      `.` when there was no separator. The empty string stays empty. */
  function Dirname(s: string): (d: string)
    ensures d == [] <==> s == []
    ensures d == "/" || d == "." || d == [] || (|d| < |s| && d == s[..|d|] && d[|d| - 1] != '/')
  {
    var a := TrimTrailingSlashes(s);
    if a == [] then (if s == [] then "" else "/")
    else
      var b := TrimTrailingName(a);
      if b == [] then "."
      else
        var c := TrimTrailingSlashes(b);
        if c == [] then "/" else c
  }

  /** Separators at the end of a string add no segment. */
  lemma {:induction false} SegmentsTrailingSlashes(s: string, k: nat)
    requires k <= |s|
    requires forall i :: k <= i < |s| ==> s[i] == '/'
    ensures Segments(s) == Segments(s[..k])
    decreases |s| - k
  {
    if k < |s| {
      var s' := s[..|s| - 1];
      assert s == s' + "/" + "";
      SegmentsJoin(s', "");
      assert s'[..k] == s[..k];
      SegmentsTrailingSlashes(s', k);
    } else {
      assert s[..k] == s;
    }
  }

  /** A name on its own is one segment. */
  lemma SegmentsOfName(name: string)
    requires name != [] && '/' !in name
    ensures Segments(name) == [name]
  {
    FirstSlashAt(name, |name|);
    assert name[..|name|] == name;
  }

  /** A name after a separator (or at the start) adds itself as the last
      segment. */
  lemma SegmentsEndingInName(b: string, name: string)
    requires b == [] || b[|b| - 1] == '/'
    requires name != [] && '/' !in name
    ensures Segments(b + name) == Segments(b) + [name]
  {
    SegmentsOfName(name);
    if b == [] {
      assert b + name == name;
    } else {
      var b' := b[..|b| - 1];
      assert b + name == b' + "/" + name;
      assert b == b' + "/" + "";
      SegmentsJoin(b', name);
      SegmentsJoin(b', "");
    }
  }

  /** What `TrimTrailingName` removes is a name. */
  lemma TrailingName(a: string)
    requires a != [] && a[|a| - 1] != '/'
    ensures var b := TrimTrailingName(a);
            a == b + a[|b|..] && a[|b|..] != [] && '/' !in a[|b|..]
  {
    var b := TrimTrailingName(a);
    var name := a[|b|..];
    forall i | 0 <= i < |name| ensures name[i] != '/' {
      assert name[i] == a[|b| + i];
    }
  }

  /** A string not ending in a separator ends in a name, its last segment. */
  lemma TrimNameSegments(a: string)
    requires a != [] && a[|a| - 1] != '/'
    ensures var b := TrimTrailingName(a);
            Segments(a) == Segments(b) + [a[|b|..]]
  {
    var b := TrimTrailingName(a);
    TrailingName(a);
    SegmentsEndingInName(b, a[|b|..]);
  }

  /** What is left once the last name is gone has the segments before it. */
  lemma TrimmedDirSegments(b: string)
    requires b != []
    ensures var c := TrimTrailingSlashes(b);
            Segments(if c == [] then "/" else c) == Segments(b)
  {
    var c := TrimTrailingSlashes(b);
    SegmentsTrailingSlashes(b, |c|);
    if c == [] {
      assert Segments("/") == Segments("/"[1..]);
    }
  }

  /** `dirname` drops the last segment: its segments are all but the last
      one, except that a lone name gives `.`. */
  lemma DirnameSegments(s: string)
    ensures || Segments(Dirname(s)) == Parent(Segments(s))
            || (Dirname(s) == "." && |Segments(s)| == 1)
  {
    var a := TrimTrailingSlashes(s);
    SegmentsTrailingSlashes(s, |a|);
    if a == [] {
      assert Segments("/") == Segments("/"[1..]);
    } else {
      var b := TrimTrailingName(a);
      TrimNameSegments(a);
      if b != [] {
        TrimmedDirSegments(b);
      }
    }
  }

  /** Resolving `dirname` of a path resolves all its segments but the last,
      and likewise one level further up for `dirname` applied twice. */
  lemma DirnameResolves(s: string)
    ensures Resolve(Dirname(s)) == Walk([], Parent(Segments(s)))
    ensures Resolve(Dirname(Dirname(s))) == Walk([], Parent(Parent(Segments(s))))
  {
    assert Segments(".") == ["."] by {
      SegmentsOfName(".");
    }
    DirnameSegments(s);
    DirnameSegments(Dirname(s));
  }

  /** Parent of a path extended by a non-empty one. */
  lemma ParentOfAppend(a: Path, b: Path)
    requires b != []
    ensures Parent(a + b) == a + Parent(b)
  {
  }

  /** Plain segments resolve to themselves, and so do their ancestors. */
  lemma PlainResolvesToItself(segs: seq<string>)
    requires PlainSegments(segs)
    ensures Walk([], segs) == segs
    ensures Walk([], Parent(segs)) == Parent(segs)
    ensures Walk([], Parent(Parent(segs))) == Parent(Parent(segs))
  {
    WalkPlain([], segs);
    WalkPlain([], Parent(segs));
    WalkPlain([], Parent(Parent(segs)));
  }

  /** A root string, a separator and a path with its leading separators
      trimmed have the root's segments followed by the path's. */
  lemma SegmentsOfJoined(root: string, path: string)
    ensures Segments(root + "/" + LTrim(path, {'/'})) == Segments(root) + Segments(path)
  {
    var rest := LTrim(path, {'/'});
    SegmentsSkipSlashes(path, |path| - |rest|);
    SegmentsJoin(root, rest);
  }

  /** An accepted logical path has no `.` or `..` segment. */
  lemma AcceptedIsPlain(path: string)
    requires PregMatches(path)
    ensures PlainSegments(Segments(path))
  {
    PregMatchesHasNoDotSegment(path);
    SegmentsAvoidDots(path);
    var segs := Segments(path);
    forall i | 0 <= i < |segs|
      ensures segs[i] != "." && segs[i] != ".."
    {
      assert segs[i][0] != '.';
    }
  }

  /** Confinement: a root string, a separator and an accepted logical path
      with its leading separators trimmed name an entry that lies beneath
      the root, one level per segment of the logical path. No accepted path
      resolves outside the root. */
  lemma ResolveUnderRoot(root: string, path: string)
    requires PregMatches(path)
    ensures Resolve(root + "/" + LTrim(path, {'/'})) == Resolve(root) + Segments(path)
    ensures IsPrefix(Resolve(root), Resolve(root + "/" + LTrim(path, {'/'})))
    ensures Segments(root + "/" + LTrim(path, {'/'})) == Segments(root) + Segments(path)
    ensures PlainSegments(Segments(path))
  {
    var x := root + "/" + LTrim(path, {'/'});
    SegmentsOfJoined(root, path);
    AcceptedIsPlain(path);
    WalkAppend([], Segments(root), Segments(path));
    WalkPlain(Resolve(root), Segments(path));
    assert Resolve(x) == Walk([], Segments(root) + Segments(path));
    assert (Resolve(root) + Segments(path))[..|Resolve(root)|] == Resolve(root);
  }

  /** Above a path that descends by plain segments from `sr`: one level up
      resolves to the parent of the entry. */
  lemma ParentWalks(sr: seq<string>, ps: seq<string>)
    requires PlainSegments(ps) && ps != []
    ensures Walk([], Parent(sr + ps)) == Parent(Walk([], sr) + ps)
  {
    ParentOfAppend(sr, ps);
    WalkAppend([], sr, Parent(ps));
    WalkPlain(Walk([], sr), Parent(ps));
    ParentOfAppend(Walk([], sr), ps);
  }

  /** Likewise two levels up, when there are two plain segments. */
  lemma GrandparentWalks(sr: seq<string>, ps: seq<string>)
    requires PlainSegments(ps) && |ps| >= 2
    ensures Walk([], Parent(Parent(sr + ps))) == Parent(Parent(Walk([], sr) + ps))
  {
    ParentOfAppend(sr, ps);
    ParentOfAppend(sr, Parent(ps));
    WalkAppend([], sr, Parent(Parent(ps)));
    WalkPlain(Walk([], sr), Parent(Parent(ps)));
    ParentOfAppend(Walk([], sr), ps);
    ParentOfAppend(Walk([], sr), Parent(ps));
  }

  /** Resolving all segments but the last lands on the way to, or beneath,
      what resolving all of them gives. */
  lemma ParentWalkNear(sr: seq<string>)
    ensures IsPrefix(Walk([], Parent(sr)), Walk([], sr)) || IsPrefix(Walk([], sr), Walk([], Parent(sr)))
  {
    if sr != [] {
      assert Parent(sr) + [sr[|sr| - 1]] == sr;
      WalkAppend([], Parent(sr), [sr[|sr| - 1]]);
    }
  }

  /** The segment-level core of `DirnameOfJoined`. */
  lemma DirnameOfSegments(sr: seq<string>, ps: seq<string>)
    requires PlainSegments(ps)
    ensures var d := Walk([], Parent(sr + ps));
            var p := Walk([], sr) + ps;
            && (ps != [] || PlainSegments(sr) ==> d == Parent(p))
            && (IsPrefix(d, p) || IsPrefix(Walk([], sr), d))
            && (|ps| >= 2 || PlainSegments(sr) ==> Walk([], Parent(Parent(sr + ps))) == Parent(Parent(p)))
  {
    var r := Walk([], sr);
    var d := Walk([], Parent(sr + ps));
    if PlainSegments(sr) {
      PlainDirnames(sr, ps);
    }
    if ps != [] {
      ParentWalks(sr, ps);
      assert d == Parent(r + ps);
      assert IsPrefix(d, r + ps);
      if |ps| >= 2 {
        GrandparentWalks(sr, ps);
      }
    } else {
      assert sr + ps == sr && r + ps == r;
      ParentWalkNear(sr);
    }
  }

  /** Under plain segments throughout, one and two levels up resolve to
      the parent and the grandparent. */
  lemma PlainDirnames(sr: seq<string>, ps: seq<string>)
    requires PlainSegments(sr) && PlainSegments(ps)
    ensures Walk([], Parent(sr + ps)) == Parent(Walk([], sr) + ps)
    ensures Walk([], Parent(Parent(sr + ps))) == Parent(Parent(Walk([], sr) + ps))
  {
    assert PlainSegments(sr + ps);
    PlainResolvesToItself(sr);
    PlainResolvesToItself(sr + ps);
  }

  /** Where `dirname` of a root, a separator and an accepted logical path
      lies: above the entry it names when the logical path has a segment or
      the root has no `.` or `..`; on the way to that entry or beneath the
      root in every case; and `dirname` twice lies two levels up when the
      logical path has two segments or the root is plain. */
  lemma DirnameOfJoined(root: string, path: string)
    requires PregMatches(path)
    ensures var x := root + "/" + LTrim(path, {'/'});
            var p := Resolve(root) + Segments(path);
            && (Segments(path) != [] || PlainSegments(Segments(root)) ==> Resolve(Dirname(x)) == Parent(p))
            && (IsPrefix(Resolve(Dirname(x)), p) || IsPrefix(Resolve(root), Resolve(Dirname(x))))
            && (|Segments(path)| >= 2 || PlainSegments(Segments(root)) ==>
                  Resolve(Dirname(Dirname(x))) == Parent(Parent(p)))
  {
    var x := root + "/" + LTrim(path, {'/'});
    ResolveUnderRoot(root, path);
    DirnameResolves(x);
    assert Segments(x) == Segments(root) + Segments(path);
    assert Resolve(root) == Walk([], Segments(root));
    DirnameOfSegments(Segments(root), Segments(path));
  }
}
