/** Links a discovered component to its code on GitHub by rewriting the
    source path the scanner recorded on the local machine.

    The rewrite is two chained ordinal `String.Replace` calls: first every
    occurrence of the local checkout root becomes the remote blob URL, then
    every backslash becomes a forward slash. */
module SourceLinks {

  /** Root of the local checkout, as recorded in scanned source paths. */
  const LocalRoot: string := @"C:\Users\simon\ContosoUniversity\"

  /** Root of the same tree on GitHub: the owner's URL, then the repository path. */
  const RemoteRoot: string := "https://github.com/simonbrowndotje/" + "ContosoUniversity/blob/master/"

  /** `pat` appears in `s` starting at index `i`. */
  predicate OccursAt(s: string, pat: string, i: int)
  {
    0 <= i && i + |pat| <= |s| && s[i..i + |pat|] == pat
  }

  predicate Contains(s: string, pat: string)
  {
    exists i | 0 <= i <= |s| :: OccursAt(s, pat, i)
  }

  /** Ordinal `String.Replace(pat, rep)`: scanning left to right, each
      occurrence of `pat` that does not overlap an earlier replaced one
      becomes `rep`. An empty `pat` is an argument error there. */
  function ReplaceAll(s: string, pat: string, rep: string): (r: string)
    requires pat != []
    ensures forall c :: c in r ==> c in s || c in rep
    decreases |s|
  {
    if |s| < |pat| then s
    else if s[..|pat|] == pat then rep + ReplaceAll(s[|pat|..], pat, rep)
    else [s[0]] + ReplaceAll(s[1..], pat, rep)
  }

  /** `String.Replace(from, to)` on characters: every `from` becomes `to`. */
  function ReplaceChar(s: string, from: char, to: char): (r: string)
    ensures |r| == |s|
    ensures forall i :: 0 <= i < |s| ==> r[i] == if s[i] == from then to else s[i]
    ensures from != to ==> from !in r
  {
    if s == [] then []
    else [if s[0] == from then to else s[0]] + ReplaceChar(s[1..], from, to)
  }

  /** The new value of a non-null `SourcePath`: root first, separators second. */
  function RewriteSourcePath(path: string): (r: string)
    ensures '\\' !in r
    ensures forall c :: c in r && c != '/' ==> c in path || c in RemoteRoot
  {
    ReplaceChar(ReplaceAll(path, LocalRoot, RemoteRoot), '\\', '/')
  }

  /** A string without `pat` in it is left alone by `ReplaceAll`. */
  lemma {:induction false} ReplaceAllWithoutOccurrence(s: string, pat: string, rep: string)
    requires pat != []
    requires !Contains(s, pat)
    ensures ReplaceAll(s, pat, rep) == s
    decreases |s|
  {
    if |s| >= |pat| {
      assert !OccursAt(s, pat, 0);
      assert s[..|pat|] == s[0..0 + |pat|];
      forall i | OccursAt(s[1..], pat, i)
        ensures OccursAt(s, pat, i + 1)
      {
        assert s[1..][i..i + |pat|] == s[i + 1..i + 1 + |pat|];
      }
      ReplaceAllWithoutOccurrence(s[1..], pat, rep);
      assert s == [s[0]] + s[1..];
    }
  }

  /** An occurrence at the very start is replaced, and the scan resumes after it. */
  lemma ReplaceAllLeadingMatch(pat: string, rest: string, rep: string)
    requires pat != []
    ensures ReplaceAll(pat + rest, pat, rep) == rep + ReplaceAll(rest, pat, rep)
  {
    assert (pat + rest)[..|pat|] == pat;
    assert (pat + rest)[|pat|..] == rest;
  }

  /** The leftmost occurrence, wherever it is, is replaced: everything before
      it is kept, and the scan resumes just after it. */
  lemma {:induction false} FirstOccurrence(s: string, pat: string, rep: string, j: nat)
    requires pat != [] && OccursAt(s, pat, j)
    requires forall k :: 0 <= k < j ==> !OccursAt(s, pat, k)
    ensures ReplaceAll(s, pat, rep) == s[..j] + rep + ReplaceAll(s[j + |pat|..], pat, rep)
    decreases j
  {
    if j == 0 {
      assert s[..|pat|] == s[0..0 + |pat|];
      assert s[..0] + rep == rep;
    } else {
      var t := s[1..];
      ReplaceAllSkip(s, pat, rep);
      ShiftOccurrences(s, pat, j);
      FirstOccurrence(t, pat, rep, j - 1);
      assert t[j - 1 + |pat|..] == s[j + |pat|..];
      assert s[..j] == [s[0]] + t[..j - 1];
    }
  }

  /** No occurrence at the start: the first character is kept as it is. */
  lemma ReplaceAllSkip(s: string, pat: string, rep: string)
    requires pat != [] && |pat| <= |s| && !OccursAt(s, pat, 0)
    ensures ReplaceAll(s, pat, rep) == [s[0]] + ReplaceAll(s[1..], pat, rep)
  {
    assert s[..|pat|] == s[0..0 + |pat|];
  }

  /** Occurrences in `s` past index 0 are occurrences in `s[1..]`, one earlier. */
  lemma ShiftOccurrences(s: string, pat: string, j: nat)
    requires 0 < j && OccursAt(s, pat, j)
    requires forall k :: 0 <= k < j ==> !OccursAt(s, pat, k)
    ensures OccursAt(s[1..], pat, j - 1)
    ensures forall k :: 0 <= k < j - 1 ==> !OccursAt(s[1..], pat, k)
  {
    var t := s[1..];
    assert t[j - 1..j - 1 + |pat|] == s[j..j + |pat|];
    forall k | 0 <= k < j - 1
      ensures !OccursAt(t, pat, k)
    {
      assert !OccursAt(s, pat, k + 1);
      if k + |pat| <= |t| {
        assert t[k..k + |pat|] == s[k + 1..k + 1 + |pat|];
      }
    }
  }

  /** Character replacement distributes over concatenation. */
  lemma {:induction false} ReplaceCharAppend(a: string, b: string, from: char, to: char)
    ensures ReplaceChar(a + b, from, to) == ReplaceChar(a, from, to) + ReplaceChar(b, from, to)
  {
    if a == [] {
      assert a + b == b;
    } else {
      assert (a + b)[1..] == a[1..] + b;
      ReplaceCharAppend(a[1..], b, from, to);
    }
  }

  /** Character replacement leaves a string without `from` unchanged. */
  lemma ReplaceCharAbsent(s: string, from: char, to: char)
    requires from !in s
    ensures ReplaceChar(s, from, to) == s
  {
    var r := ReplaceChar(s, from, to);
    forall i | 0 <= i < |s| ensures r[i] == s[i] {
      assert s[i] in s;
    }
  }

  /** A path under the local root becomes the remote root followed by the
      rewrite of the rest, whatever the rest holds. */
  lemma RewriteRootPrefix(rest: string)
    ensures RewriteSourcePath(LocalRoot + rest) == RemoteRoot + RewriteSourcePath(rest)
  {
    assert '\\' !in RemoteRoot;
    ReplaceRootThenNormalize(LocalRoot, RemoteRoot, rest);
  }

  /** The two steps on `root + rest`, for any root and any backslash-free
      replacement: the replacement, then the two steps on `rest`. */
  lemma ReplaceRootThenNormalize(root: string, remote: string, rest: string)
    requires root != [] && '\\' !in remote
    ensures ReplaceChar(ReplaceAll(root + rest, root, remote), '\\', '/')
         == remote + ReplaceChar(ReplaceAll(rest, root, remote), '\\', '/')
  {
    ReplaceAllLeadingMatch(root, rest, remote);
    ReplaceCharAppend(remote, ReplaceAll(rest, root, remote), '\\', '/');
    ReplaceCharAbsent(remote, '\\', '/');
  }

  /** When the rest holds no second copy of the root, it only has its
      backslashes turned into forward slashes. */
  lemma RewriteUnderRoot(rest: string)
    requires !Contains(rest, LocalRoot)
    ensures RewriteSourcePath(LocalRoot + rest) == RemoteRoot + ReplaceChar(rest, '\\', '/')
  {
    RewriteRootPrefix(rest);
    RewriteOutsideRoot(rest);
  }

  /** A file in the checkout is linked to its blob URL. */
  lemma RewriteExample(path: string)
    requires path == @"C:\Users\simon\ContosoUniversity\Foo\Bar.cs"
    ensures RewriteSourcePath(path)
         == "https://github.com/simonbrowndotje/" + "ContosoUniversity/blob/master/Foo/Bar.cs"
  {
    var rest := path[|LocalRoot|..];
    assert path == LocalRoot + rest;
    ExampleTail(rest);
    RewriteUnderRoot(rest);
    ExampleUrl(ReplaceChar(rest, '\\', '/'));
  }

  lemma ExampleTail(rest: string)
    requires rest == @"Foo\Bar.cs"
    ensures !Contains(rest, LocalRoot)
    ensures ReplaceChar(rest, '\\', '/') == "Foo/Bar.cs"
  {
    assert |rest| < |LocalRoot|;
    var n := ReplaceChar(rest, '\\', '/');
    forall i | 0 <= i < 10 ensures n[i] == "Foo/Bar.cs"[i] { }
  }

  lemma ExampleUrl(tail: string)
    requires tail == "Foo/Bar.cs"
    ensures RemoteRoot + tail
         == "https://github.com/simonbrowndotje/" + "ContosoUniversity/blob/master/Foo/Bar.cs"
  {
    assert "ContosoUniversity/blob/master/" + tail == "ContosoUniversity/blob/master/Foo/Bar.cs";
  }

  /** A path that does not contain the local root only has its backslashes
      turned into slashes: same length, every other character kept. */
  lemma RewriteOutsideRoot(path: string)
    requires !Contains(path, LocalRoot)
    ensures RewriteSourcePath(path) == ReplaceChar(path, '\\', '/')
    ensures |RewriteSourcePath(path)| == |path|
    ensures forall i :: 0 <= i < |path| ==>
      RewriteSourcePath(path)[i] == if path[i] == '\\' then '/' else path[i]
  {
    ReplaceAllWithoutOccurrence(path, LocalRoot, RemoteRoot);
  }

  /** The local root holds a backslash, so a string with none cannot contain it. */
  lemma NoRootWithoutBackslash(s: string)
    requires '\\' !in s
    ensures !Contains(s, LocalRoot)
  {
    assert LocalRoot[2] == '\\';
    forall i | 0 <= i <= |s|
      ensures !OccursAt(s, LocalRoot, i)
    {
      if i + |LocalRoot| <= |s| {
        assert s[i..i + |LocalRoot|][2] == s[i + 2];
        assert s[i + 2] in s;
      }
    }
  }

  /** Why the root is replaced first: once separators are normalised the
      backslash-bearing root can no longer match, so the swapped order never
      links anything, and a path under the root comes out differently. */
  lemma SwappedStepsMissRoot(path: string)
    ensures ReplaceAll(ReplaceChar(path, '\\', '/'), LocalRoot, RemoteRoot) == ReplaceChar(path, '\\', '/')
    ensures LocalRoot <= path ==>
      ReplaceAll(ReplaceChar(path, '\\', '/'), LocalRoot, RemoteRoot) != RewriteSourcePath(path)
  {
    var n := ReplaceChar(path, '\\', '/');
    NoRootWithoutBackslash(n);
    ReplaceAllWithoutOccurrence(n, LocalRoot, RemoteRoot);
    if LocalRoot <= path {
      var rest := path[|LocalRoot|..];
      assert path == LocalRoot + rest;
      ReplaceAllLeadingMatch(LocalRoot, rest, RemoteRoot);
      assert RewriteSourcePath(path)[0] == 'h';
      assert n[0] == 'C';
    }
  }

  /** Linking is idempotent: a path already rewritten has no backslash, so
      neither step changes it again. */
  lemma RewriteIdempotent(path: string)
    ensures RewriteSourcePath(RewriteSourcePath(path)) == RewriteSourcePath(path)
  {
    var r := RewriteSourcePath(path);
    NoRootWithoutBackslash(r);
    ReplaceAllWithoutOccurrence(r, LocalRoot, RemoteRoot);
    ReplaceCharAbsent(r, '\\', '/');
  }
}
