/*
 * POSIX path operations (Python's posixpath) used by lbuild's build log and
 * configuration: isabs, join, dirname, basename, normpath, abspath, relpath.
 * The working directory is a parameter.
 */
module Paths {
  import Text

  predicate IsAbs(p: string)
  {
    Text.StartsWith(p, "/")
  }

  /** `os.path.join(a, b)`. */
  function Join(a: string, b: string): (r: string)
    ensures IsAbs(b) ==> r == b
    ensures !IsAbs(b) ==> Text.EndsWith(r, b)
  {
    if IsAbs(b) then b
    else if a == "" || Text.EndsWith(a, "/") then a + b
    else a + "/" + b
  }

  /** Joining below a directory name that does not end in a slash inserts one. */
  lemma JoinPlain(a: string, b: string)
    requires a != "" && !Text.EndsWith(a, "/") && !IsAbs(b)
    ensures Join(a, b) == a + "/" + b
  {
  }

  /** Index just after the last `/`, or 0 when there is none (`p.rfind('/') + 1`). */
  function AfterLastSlash(p: string): (i: nat)
    ensures i <= |p|
    ensures i > 0 ==> p[i - 1] == '/'
    ensures forall k :: i <= k < |p| ==> p[k] != '/'
  {
    if |p| == 0 then 0
    else if p[|p| - 1] == '/' then |p|
    else AfterLastSlash(p[..|p| - 1])
  }

  predicate AllSlashes(s: string)
  {
    forall k :: 0 <= k < |s| ==> s[k] == '/'
  }

  function RStripSlashes(s: string): (r: string)
    ensures |r| <= |s| && r == s[..|r|]
  {
    if |s| > 0 && s[|s| - 1] == '/' then RStripSlashes(s[..|s| - 1]) else s
  }

  /** `os.path.dirname(p)`. */
  function Dirname(p: string): string
  {
    var head := p[..AfterLastSlash(p)];
    if head != "" && !AllSlashes(head) then RStripSlashes(head) else head
  }

  /** `os.path.basename(p)`. */
  function Basename(p: string): (r: string)
    ensures '/' !in r
  {
    p[AfterLastSlash(p)..]
  }

  function Repeat(s: string, n: nat): seq<string>
  {
    if n == 0 then [] else [s] + Repeat(s, n - 1)
  }

  /** One step of normpath's component loop. */
  function NormStep(acc: seq<string>, comp: string, rooted: bool): seq<string>
  {
    if comp == "" || comp == "." then acc
    else if comp != ".." || (!rooted && |acc| == 0) || (|acc| > 0 && acc[|acc| - 1] == "..") then acc + [comp]
    else if |acc| > 0 then acc[..|acc| - 1]
    else acc
  }

  function NormFold(comps: seq<string>, rooted: bool, acc: seq<string>): seq<string>
    decreases |comps|
  {
    if |comps| == 0 then acc else NormFold(comps[1..], rooted, NormStep(acc, comps[0], rooted))
  }

  /** Number of leading slashes normpath keeps: two exactly when there are exactly two. */
  function InitialSlashes(p: string): nat
  {
    if !Text.StartsWith(p, "/") then 0
    else if Text.StartsWith(p, "//") && !Text.StartsWith(p, "///") then 2
    else 1
  }

  /** `os.path.normpath(p)`. */
  function NormPath(p: string): (r: string)
    ensures r != ""
  {
    if p == "" then "."
    else
      var slashes := InitialSlashes(p);
      var comps := NormFold(Text.Split(p, "/"), slashes > 0, []);
      var path := (if slashes == 2 then "//" else if slashes == 1 then "/" else "") + Text.Join(comps, "/");
      if path == "" then "." else path
  }

  /** `os.path.abspath(p)` with the given working directory. */
  function AbsPath(p: string, cwd: string): string
  {
    if IsAbs(p) then NormPath(p) else NormPath(Join(cwd, p))
  }

  function NonEmpty(xs: seq<string>): (r: seq<string>)
    ensures forall k :: 0 <= k < |r| ==> r[k] != ""
  {
    if |xs| == 0 then [] else (if xs[0] == "" then [] else [xs[0]]) + NonEmpty(xs[1..])
  }

  function CommonPrefixLen(a: seq<string>, b: seq<string>): (n: nat)
    ensures n <= |a| && n <= |b|
    ensures a[..n] == b[..n]
  {
    if |a| == 0 || |b| == 0 || a[0] != b[0] then 0
    else
      var n := 1 + CommonPrefixLen(a[1..], b[1..]);
      assert a[..n] == [a[0]] + a[1..][..n - 1];
      assert b[..n] == [b[0]] + b[1..][..n - 1];
      n
  }

  /** `os.path.relpath(path, start)` for a non-empty path. */
  function RelPath(path: string, start: string, cwd: string): string
    requires path != ""
  {
    var startList := NonEmpty(Text.Split(AbsPath(start, cwd), "/"));
    var pathList := NonEmpty(Text.Split(AbsPath(path, cwd), "/"));
    var i := CommonPrefixLen(startList, pathList);
    var rel := Repeat("..", |startList| - i) + pathList[i..];
    if |rel| == 0 then "." else Text.Join(rel, "/")
  }

  lemma CommonPrefixSelf(a: seq<string>)
    ensures CommonPrefixLen(a, a) == |a|
  {
  }

  /** A path is relative to itself as ".". */
  lemma RelPathSelf(p: string, cwd: string)
    requires p != ""
    ensures RelPath(p, p, cwd) == "."
  {
    var l := NonEmpty(Text.Split(AbsPath(p, cwd), "/"));
    CommonPrefixSelf(l);
    assert Repeat("..", 0) == [];
  }

  /** Stripping trailing slashes leaves something when not every character is a slash. */
  lemma {:induction false} RStripKeeps(s: string)
    requires !AllSlashes(s)
    ensures RStripSlashes(s) != ""
    decreases |s|
  {
    if |s| > 0 && s[|s| - 1] == '/' {
      var init := s[..|s| - 1];
      assert !AllSlashes(init) by {
        var k :| 0 <= k < |s| && s[k] != '/';
        assert k < |s| - 1 && init[k] == s[k];
      }
      RStripKeeps(init);
    }
  }

  /** An absolute path always has a directory part. */
  lemma DirnameAbs(p: string)
    requires IsAbs(p)
    ensures Dirname(p) != ""
  {
    assert p[0] == '/';
    var i := AfterLastSlash(p);
    assert i > 0;
    var head := p[..i];
    if !AllSlashes(head) {
      RStripKeeps(head);
    }
  }

  /** `normpath` keeps a path absolute. */
  lemma NormPathAbs(p: string)
    requires IsAbs(p)
    ensures IsAbs(NormPath(p))
  {
  }

  /** With an absolute working directory, `abspath` is absolute. */
  lemma AbsPathAbs(p: string, cwd: string)
    requires IsAbs(cwd)
    ensures IsAbs(AbsPath(p, cwd))
  {
    if IsAbs(p) {
      NormPathAbs(p);
    } else {
      assert Join(cwd, p)[0] == '/';
      NormPathAbs(Join(cwd, p));
    }
  }
}
