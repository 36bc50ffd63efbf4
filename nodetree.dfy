/*
 * lbuild/node.py: the tree of parser, repositories, modules and options,
 * name resolution over it, dependency resolution and the propagation of
 * inherited traits from parents to children.
 *
 * The anytree nodes live in an arena: a node is its index, its parent an
 * index (or -1 for a root). Children, descendants and glob matches are
 * listed in index order, that is, in the order the nodes were created.
 */
module NodeTree {
  import opened Errors
  import opened PyValue
  import Text
  import Glob
  import Options
  import Utils
  import Filters

  datatype NodeType = ParserNode | RepositoryNode | ModuleNode | OptionNode

  /** `Type.name.lower()`, as resolver messages print a node type. */
  function TypeLabel(t: NodeType): string
  {
    match t
    case ParserNode => "parser"
    case RepositoryNode => "repository"
    case ModuleNode => "module"
    case OptionNode => "option"
  }

  /**
   * Identity and place of a node: its name, type, full name, parent,
   * repository (both indices, -1 for none) and, for an option node, the
   * option's value state.
   */
  datatype Node = Node(name: string, kind: NodeType, fullname: string, parent: int,
                       repository: int, option: Option<Options.OptionData>)

  /** The formatter functions every node starts with, named. */
  const DefaultFormat: string := "lbuild.format.format_description"
  const DefaultShortFormat: string := "lbuild.format.format_short_description"

  /** The traits `_update()` propagates from a parent to its children. */
  datatype Traits = Traits(available: bool, selected: bool,
                           formatDescription: string, formatShortDescription: string,
                           context: Value, ignorePatterns: seq<string>,
                           filters: map<string, string>)

  /** A new node is available unless it is a module, and selected. */
  function InitialTraits(kind: NodeType): (t: Traits)
    ensures t.available <==> kind != ModuleNode
    ensures t.selected
  {
    Traits(kind != ModuleNode, true, DefaultFormat, DefaultShortFormat, NoneV,
           Utils.DefaultIgnorePatterns, Filters.DefaultFilters)
  }

  /** The dependency names of a node, whether they are resolved, and the modules they resolved to. */
  datatype DepState = DepState(names: seq<string>, resolved: bool, deps: seq<nat>)

  /**
   * A measure that grows from parent to child: the parser is below every
   * repository, a repository below every module and option, and a module or
   * option below the nodes whose full names extend its own.
   */
  function Rank(n: Node): nat
  {
    match n.kind
    case ParserNode => 0
    case RepositoryNode => 1
    case _ => 2 + |n.fullname|
  }

  predicate NodeOk(ns: seq<Node>, i: nat)
    requires i < |ns|
  {
    var n := ns[i];
    (n.parent == -1 || (0 <= n.parent < |ns| && Rank(ns[n.parent]) < Rank(n))) &&
    -1 <= n.repository < |ns| &&
    (n.kind == OptionNode <==> n.option.Some?)
  }

  /** Parents are ranked below their children, so the parent links form a forest. */
  predicate WellFormed(ns: seq<Node>)
  {
    forall i :: 0 <= i < |ns| ==> NodeOk(ns, i)
  }

  /** The largest rank in the tree. */
  function MaxRank(ns: seq<Node>): (m: nat)
    ensures forall i :: 0 <= i < |ns| ==> Rank(ns[i]) <= m
  {
    if |ns| == 0 then 0
    else
      var n := |ns| - 1;
      var m := MaxRank(ns[..n]);
      assert forall i :: 0 <= i < n ==> ns[..n][i] == ns[i];
      if Rank(ns[n]) > m then Rank(ns[n]) else m
  }

  /** `a` is `j` or one of `j`'s ancestors. */
  predicate IsAncestor(ns: seq<Node>, a: nat, j: nat)
    requires WellFormed(ns) && a < |ns| && j < |ns|
    decreases Rank(ns[j])
  {
    assert NodeOk(ns, j);
    a == j || (ns[j].parent != -1 && IsAncestor(ns, a, ns[j].parent))
  }

  lemma {:induction false} AncestorRank(ns: seq<Node>, a: nat, j: nat)
    requires WellFormed(ns) && a < |ns| && j < |ns| && IsAncestor(ns, a, j)
    ensures Rank(ns[a]) <= Rank(ns[j])
    ensures a != j ==> Rank(ns[a]) < Rank(ns[j])
    decreases Rank(ns[j])
  {
    assert NodeOk(ns, j);
    if a != j {
      AncestorRank(ns, a, ns[j].parent);
    }
  }

  lemma {:induction false} AncestorTrans(ns: seq<Node>, a: nat, b: nat, j: nat)
    requires WellFormed(ns) && a < |ns| && b < |ns| && j < |ns|
    requires IsAncestor(ns, a, b) && IsAncestor(ns, b, j)
    ensures IsAncestor(ns, a, j)
    decreases Rank(ns[j])
  {
    assert NodeOk(ns, j);
    if b != j {
      AncestorTrans(ns, a, b, ns[j].parent);
    }
  }

  /** Two ancestors of one node are ancestors one of the other. */
  lemma {:induction false} AncestorsComparable(ns: seq<Node>, a: nat, b: nat, j: nat)
    requires WellFormed(ns) && a < |ns| && b < |ns| && j < |ns|
    requires IsAncestor(ns, a, j) && IsAncestor(ns, b, j)
    ensures IsAncestor(ns, a, b) || IsAncestor(ns, b, a)
    decreases Rank(ns[j])
  {
    assert NodeOk(ns, j);
    if a != j && b != j {
      AncestorsComparable(ns, a, b, ns[j].parent);
    }
  }

  /** The child of `i` on the way down to its proper descendant `j`. */
  function ChildToward(ns: seq<Node>, i: nat, j: nat): (c: nat)
    requires WellFormed(ns) && i < |ns| && j < |ns| && i != j && IsAncestor(ns, i, j)
    ensures c < |ns| && ns[c].parent == i && IsAncestor(ns, c, j)
    decreases Rank(ns[j])
  {
    assert NodeOk(ns, j);
    if ns[j].parent == i then j
    else ChildToward(ns, i, ns[j].parent)
  }

  /** Everything below a child `c` of `i` is reached from `i` through `c`. */
  lemma {:induction false} InChild(ns: seq<Node>, i: nat, c: nat, j: nat)
    requires WellFormed(ns) && i < |ns| && c < |ns| && j < |ns|
    requires ns[c].parent == i && IsAncestor(ns, c, j)
    ensures i != j && IsAncestor(ns, i, j) && ChildToward(ns, i, j) == c
    decreases Rank(ns[j])
  {
    assert NodeOk(ns, j);
    assert NodeOk(ns, c);
    AncestorRank(ns, c, j);
    if j != c {
      InChild(ns, i, c, ns[j].parent);
      if ns[j].parent == i {
        AncestorRank(ns, c, i);
      }
    }
  }

  /** Number of ancestors of `j`. */
  function Depth(ns: seq<Node>, j: nat): nat
    requires WellFormed(ns) && j < |ns|
    decreases Rank(ns[j])
  {
    assert NodeOk(ns, j);
    if ns[j].parent == -1 then 0 else 1 + Depth(ns, ns[j].parent)
  }

  lemma {:induction false} AncestorDepth(ns: seq<Node>, a: nat, j: nat)
    requires WellFormed(ns) && a < |ns| && j < |ns| && IsAncestor(ns, a, j)
    ensures Depth(ns, a) <= Depth(ns, j)
    ensures a != j ==> Depth(ns, a) < Depth(ns, j)
    decreases Rank(ns[j])
  {
    assert NodeOk(ns, j);
    if a != j {
      AncestorDepth(ns, a, ns[j].parent);
    }
  }

  /** The root above `j`. */
  function Root(ns: seq<Node>, j: nat): (r: nat)
    requires WellFormed(ns) && j < |ns|
    ensures r < |ns| && ns[r].parent == -1 && IsAncestor(ns, r, j)
    decreases Rank(ns[j])
  {
    assert NodeOk(ns, j);
    if ns[j].parent == -1 then j else Root(ns, ns[j].parent)
  }

  predicate Increasing(r: seq<nat>)
  {
    forall a, b :: 0 <= a < b < |r| ==> r[a] < r[b]
  }

  // ---------------------------------------------------------------- glob

  /** anytree matches a segment with its `*`/`?` translation when it holds either, literally otherwise. */
  predicate SegmentMatch(name: string, pat: string)
  {
    if Glob.IsWildcard(pat) then Glob.WildMatch(name, pat) else name == pat
  }

  /** Looking a plain segment up by name agrees with matching it as a pattern. */
  lemma SegmentMatchWild(name: string, pat: string)
    ensures SegmentMatch(name, pat) <==> Glob.WildMatch(name, pat)
  {
    if !Glob.IsWildcard(pat) {
      Glob.WildLiteral(name, pat);
    }
  }

  /** `j` lies `|segs|` levels below `start`, each node on the way matching its segment. */
  predicate Reached(ns: seq<Node>, start: nat, segs: seq<string>, j: nat)
    requires WellFormed(ns) && start < |ns| && j < |ns|
    decreases |segs|
  {
    assert NodeOk(ns, j);
    if |segs| == 0 then j == start
    else
      ns[j].parent != -1 && SegmentMatch(ns[j].name, segs[|segs| - 1]) &&
      Reached(ns, start, segs[..|segs| - 1], ns[j].parent)
  }

  lemma {:induction false} ReachedDepth(ns: seq<Node>, start: nat, segs: seq<string>, j: nat)
    requires WellFormed(ns) && start < |ns| && j < |ns| && Reached(ns, start, segs, j)
    ensures IsAncestor(ns, start, j) && Depth(ns, j) == Depth(ns, start) + |segs|
    decreases |segs|
  {
    assert NodeOk(ns, j);
    if |segs| > 0 {
      ReachedDepth(ns, start, segs[..|segs| - 1], ns[j].parent);
    }
  }

  /** The nodes below index `n` that the segments reach from `start`, in index order. */
  function Select(ns: seq<Node>, start: nat, segs: seq<string>, n: nat): (r: seq<nat>)
    requires WellFormed(ns) && start < |ns| && n <= |ns|
    ensures forall j: nat :: j in r <==> j < n && Reached(ns, start, segs, j)
    ensures Increasing(r)
    ensures forall k :: 0 <= k < |r| ==> r[k] < n
  {
    if n == 0 then []
    else
      var r := Select(ns, start, segs, n - 1);
      if Reached(ns, start, segs, n - 1) then r + [n - 1] else r
  }

  /** `Resolver.glob` below `start`. */
  function GlobFrom(ns: seq<Node>, start: nat, segs: seq<string>): (r: seq<nat>)
    requires WellFormed(ns) && start < |ns|
    ensures forall j: nat :: j in r <==> j < |ns| && Reached(ns, start, segs, j)
    ensures Increasing(r)
    ensures forall k :: 0 <= k < |r| ==> r[k] < |ns|
  {
    Select(ns, start, segs, |ns|)
  }

  /** Proper descendants of `x` below index `n`, in index order. */
  function DescendantsBelow(ns: seq<Node>, x: nat, n: nat): (r: seq<nat>)
    requires WellFormed(ns) && x < |ns| && n <= |ns|
    ensures forall j: nat :: j in r <==> j < n && j != x && IsAncestor(ns, x, j)
    ensures Increasing(r)
    ensures forall k :: 0 <= k < |r| ==> r[k] < n
  {
    if n == 0 then []
    else
      var r := DescendantsBelow(ns, x, n - 1);
      if n - 1 != x && IsAncestor(ns, x, n - 1) then r + [n - 1] else r
  }

  /** `node.descendants`. */
  function Descendants(ns: seq<Node>, x: nat): (r: seq<nat>)
    requires WellFormed(ns) && x < |ns|
    ensures forall j: nat :: j in r <==> j < |ns| && j != x && IsAncestor(ns, x, j)
    ensures Increasing(r)
    ensures forall k :: 0 <= k < |r| ==> r[k] < |ns|
  {
    DescendantsBelow(ns, x, |ns|)
  }

  predicate InRange(ns: seq<Node>, xs: seq<nat>)
  {
    forall k :: 0 <= k < |xs| ==> xs[k] < |ns|
  }

  /** The descendants of every node of `xs`, one list after the other. */
  function ConcatDescendants(ns: seq<Node>, xs: seq<nat>): (r: seq<nat>)
    requires WellFormed(ns) && InRange(ns, xs)
    ensures InRange(ns, r)
    ensures forall j: nat :: j in r <==> exists k :: 0 <= k < |xs| && j != xs[k] && j < |ns| && IsAncestor(ns, xs[k], j)
  {
    if |xs| == 0 then []
    else
      var r := Descendants(ns, xs[0]) + ConcatDescendants(ns, xs[1..]);
      forall j: nat | j in r
        ensures exists k :: 0 <= k < |xs| && j != xs[k] && j < |ns| && IsAncestor(ns, xs[k], j)
      {
        if j !in Descendants(ns, xs[0]) {
          var k :| 0 <= k < |xs[1..]| && j != xs[1..][k] && j < |ns| && IsAncestor(ns, xs[1..][k], j);
          assert xs[1..][k] == xs[k + 1];
        }
      }
      forall j: nat, k | 0 <= k < |xs| && j != xs[k] && j < |ns| && IsAncestor(ns, xs[k], j)
        ensures j in r
      {
        if k > 0 {
          assert xs[1..][k - 1] == xs[k];
        }
      }
      r
  }

  /** No node occurs twice. */
  predicate Distinct(r: seq<nat>)
  {
    forall p, q :: 0 <= p < q < |r| ==> r[p] != r[q]
  }

  /** No node of `xs` lies below another (nor is repeated). */
  predicate Incomparable(ns: seq<Node>, xs: seq<nat>)
    requires WellFormed(ns) && InRange(ns, xs)
  {
    forall a, b :: 0 <= a < |xs| && 0 <= b < |xs| && a != b ==> !IsAncestor(ns, xs[a], xs[b])
  }

  /** The descendant lists of pairwise unrelated nodes do not overlap. */
  lemma {:induction false} ConcatDistinct(ns: seq<Node>, xs: seq<nat>)
    requires WellFormed(ns) && InRange(ns, xs) && Incomparable(ns, xs)
    ensures Distinct(ConcatDescendants(ns, xs))
    decreases |xs|
  {
    if |xs| > 0 {
      var d := Descendants(ns, xs[0]);
      var rest := xs[1..];
      assert Incomparable(ns, rest) by {
        forall a, b | 0 <= a < |rest| && 0 <= b < |rest| && a != b ensures !IsAncestor(ns, rest[a], rest[b]) {
          assert rest[a] == xs[a + 1] && rest[b] == xs[b + 1];
        }
      }
      ConcatDistinct(ns, rest);
      var c := ConcatDescendants(ns, rest);
      var r := d + c;
      forall p, q | 0 <= p < q < |r| ensures r[p] != r[q] {
        if p < |d| && q >= |d| {
          var j := r[p];
          assert j in d;
          if r[q] == j {
            assert j in c;
            var k :| 0 <= k < |rest| && j != rest[k] && j < |ns| && IsAncestor(ns, rest[k], j);
            assert rest[k] == xs[k + 1];
            AncestorsComparable(ns, xs[0], xs[k + 1], j);
            assert false;
          }
        } else if q < |d| {
          assert r[p] == d[p] && r[q] == d[q];
        } else {
          assert r[p] == c[p - |d|] && r[q] == c[q - |d|];
        }
      }
    }
  }

  /** The nodes a glob reaches are pairwise unrelated: they all lie at the same depth. */
  lemma GlobIncomparable(ns: seq<Node>, start: nat, segs: seq<string>)
    requires WellFormed(ns) && start < |ns|
    ensures Incomparable(ns, GlobFrom(ns, start, segs))
  {
    var r := GlobFrom(ns, start, segs);
    forall a, b | 0 <= a < |r| && 0 <= b < |r| && a != b ensures !IsAncestor(ns, r[a], r[b]) {
      assert r[a] in r && r[b] in r;
      ReachedDepth(ns, start, segs, r[a]);
      ReachedDepth(ns, start, segs, r[b]);
      if IsAncestor(ns, r[a], r[b]) {
        assert r[a] != r[b] by {
          if a < b { assert r[a] < r[b]; } else { assert r[b] < r[a]; }
        }
        AncestorDepth(ns, r[a], r[b]);
      }
    }
  }

  /** Nodes of `xs`, every one ranked at least `floor`. */
  predicate RankedFrom(ns: seq<Node>, xs: seq<nat>, floor: nat)
  {
    InRange(ns, xs) && forall k :: 0 <= k < |xs| ==> Rank(ns[xs[k]]) >= floor
  }

  lemma ConcatRank(ns: seq<Node>, xs: seq<nat>, floor: nat)
    requires WellFormed(ns) && RankedFrom(ns, xs, floor)
    ensures RankedFrom(ns, ConcatDescendants(ns, xs), floor + 1)
  {
    var r := ConcatDescendants(ns, xs);
    forall k | 0 <= k < |r| ensures Rank(ns[r[k]]) >= floor + 1 {
      assert r[k] in r;
      var m :| 0 <= m < |xs| && r[k] != xs[m] && r[k] < |ns| && IsAncestor(ns, xs[m], r[k]);
      AncestorRank(ns, xs[m], r[k]);
    }
  }

  /**
   * The `:**` expansion of `_resolve` as written: the loop runs over the list
   * it extends, so the descendants appended for one match are expanded again,
   * generation after generation.
   */
  function ExpandAsWritten(ns: seq<Node>, xs: seq<nat>, floor: nat): (r: seq<nat>)
    requires WellFormed(ns) && RankedFrom(ns, xs, floor)
    decreases MaxRank(ns) + 1 - floor
  {
    if |xs| == 0 then []
    else
      assert Rank(ns[xs[0]]) <= MaxRank(ns);
      ConcatRank(ns, xs, floor);
      xs + ExpandAsWritten(ns, ConcatDescendants(ns, xs), floor + 1)
  }

  /** One generation of the as-written expansion. */
  lemma ExpandAsWrittenStep(ns: seq<Node>, xs: seq<nat>, floor: nat)
    requires WellFormed(ns) && RankedFrom(ns, xs, floor) && |xs| > 0
    ensures RankedFrom(ns, ConcatDescendants(ns, xs), floor + 1)
    ensures ExpandAsWritten(ns, xs, floor) ==
      xs + ExpandAsWritten(ns, ConcatDescendants(ns, xs), floor + 1)
  {
    ConcatRank(ns, xs, floor);
  }

  lemma InConcat(ns: seq<Node>, xs: seq<nat>, k: nat, j: nat)
    requires WellFormed(ns) && InRange(ns, xs) && k < |xs| && j < |ns|
    requires j != xs[k] && IsAncestor(ns, xs[k], j)
    ensures j in ConcatDescendants(ns, xs)
  {
  }

  /** As written, a grandchild of a match is listed at least twice. */
  lemma ExpandAsWrittenRepeats(ns: seq<Node>, x: nat, c: nat, d: nat)
    requires WellFormed(ns) && x < |ns| && c < |ns| && d < |ns|
    requires ns[c].parent == x && ns[d].parent == c
    ensures multiset(ExpandAsWritten(ns, [x], 0))[d] >= 2
  {
    assert NodeOk(ns, c) && NodeOk(ns, d);
    assert IsAncestor(ns, x, c) && IsAncestor(ns, c, d);
    AncestorTrans(ns, x, c, d);
    var g1 := ConcatDescendants(ns, [x]);
    InConcat(ns, [x], 0, c);
    InConcat(ns, [x], 0, d);
    ExpandAsWrittenStep(ns, [x], 0);
    var kc :| 0 <= kc < |g1| && g1[kc] == c;
    InConcat(ns, g1, kc, d);
    var g2 := ConcatDescendants(ns, g1);
    ExpandAsWrittenStep(ns, g1, 1);
    ExpandAsWrittenStep(ns, g2, 2);
    var rest := ExpandAsWritten(ns, ConcatDescendants(ns, g2), 3);
    TwiceIn(ExpandAsWritten(ns, [x], 0), ExpandAsWritten(ns, g1, 1), ExpandAsWritten(ns, g2, 2),
            [x], g1, g2, rest, d);
  }

  lemma TwiceIn(r: seq<nat>, e1: seq<nat>, e2: seq<nat>, a: seq<nat>, b: seq<nat>, c: seq<nat>, e: seq<nat>, d: nat)
    requires r == a + e1 && e1 == b + e2 && e2 == c + e
    requires d in b && d in c
    ensures multiset(r)[d] >= 2
  {
    assert multiset(r) == multiset(a) + multiset(b) + multiset(c) + multiset(e);
  }

  /** The `:**` expansion as intended: every match followed by the descendants of every match, once. */
  function Expand(ns: seq<Node>, xs: seq<nat>): (r: seq<nat>)
    requires WellFormed(ns) && InRange(ns, xs)
    ensures InRange(ns, r)
    ensures forall j: nat :: j in r <==> j < |ns| && exists k :: 0 <= k < |xs| && IsAncestor(ns, xs[k], j)
  {
    var r := xs + ConcatDescendants(ns, xs);
    forall j: nat | j < |ns| && exists k :: 0 <= k < |xs| && IsAncestor(ns, xs[k], j) ensures j in r {
      var k :| 0 <= k < |xs| && IsAncestor(ns, xs[k], j);
      if j == xs[k] { assert j in xs; }
    }
    r
  }

  /** The intended expansion of pairwise unrelated matches lists no node twice. */
  lemma ExpandDistinct(ns: seq<Node>, xs: seq<nat>)
    requires WellFormed(ns) && InRange(ns, xs) && Incomparable(ns, xs)
    ensures Distinct(Expand(ns, xs))
  {
    ConcatDistinct(ns, xs);
    var c := ConcatDescendants(ns, xs);
    var r := xs + c;
    forall p, q | 0 <= p < q < |r| ensures r[p] != r[q] {
      if q < |xs| {
        assert !IsAncestor(ns, xs[p], xs[q]);
      } else if p < |xs| {
        var j := r[q];
        assert j == c[q - |xs|] && j in c;
        var k :| 0 <= k < |xs| && j != xs[k] && j < |ns| && IsAncestor(ns, xs[k], j);
        if k != p {
          assert !IsAncestor(ns, xs[k], xs[p]);
        }
      } else {
        assert r[p] == c[p - |xs|] && r[q] == c[q - |xs|];
      }
    }
  }

  // ----------------------------------------------------------- _resolve

  /** Empty fields of a query become `*`. */
  function StarFields(parts: seq<string>): (r: seq<string>)
    ensures |r| == |parts|
  {
    seq(|parts|, k requires 0 <= k < |parts| => if parts[k] == "" then "*" else parts[k])
  }

  /** The query `_resolve` works on: stripped, empty fields replaced by `*`. */
  function Normalize(query: string): string
  {
    Text.Join(StarFields(Text.Split(Text.Strip(query), ":")), ":")
  }

  /** After `_resolve`'s normalisation no field of the query is empty: each is the given one or `*`. */
  lemma NormalizeFields(query: string)
    ensures Text.Split(Normalize(query), ":") == StarFields(Text.Split(Text.Strip(query), ":"))
    ensures forall k :: 0 <= k < |Text.Split(Normalize(query), ":")| ==>
      Text.Split(Normalize(query), ":")[k] != ""
  {
    var parts := Text.Split(Text.Strip(query), ":");
    var f := StarFields(parts);
    Text.SplitPiecesFree(Text.Strip(query), ":");
    forall k | 0 <= k < |f| ensures ':' !in f[k] {
      Text.CharFree(parts[k], ':');
      Text.CharFree(f[k], ':');
    }
    Text.SplitJoin(f, ':');
  }

  /** The absolute path handed to `Resolver.glob`: `:**` removed, rooted at `lbuild` under a parser. */
  function RootedPath(ns: seq<Node>, root: nat, q: string): string
    requires root < |ns|
  {
    (if ns[root].kind == ParserNode then ":lbuild" else "") + ":" + Text.Replace(q, ":**", "")
  }

  /**
   * `Resolver.glob(self.root, qquery)`: the first field must name the root;
   * the rest are matched level by level below it. A path that names the
   * wrong root matches nothing.
   */
  function Found(ns: seq<Node>, self: nat, q: string): (r: seq<nat>)
    requires WellFormed(ns) && self < |ns|
    ensures InRange(ns, r) && Incomparable(ns, r)
  {
    var root := Root(ns, self);
    var parts := Text.Split(RootedPath(ns, root, q), ":");
    if |parts| < 2 || parts[1] == "" || parts[1] != ns[root].name then []
    else
      GlobIncomparable(ns, root, parts[2..]);
      GlobFrom(ns, root, parts[2..])
  }

  /** `_resolve(query, [])`: the glob matches, and with a trailing `:**` everything below them too. */
  function Resolve(ns: seq<Node>, self: nat, query: string): (r: seq<nat>)
    requires WellFormed(ns) && self < |ns|
    ensures InRange(ns, r)
  {
    var q := Normalize(query);
    var found := Found(ns, self, q);
    if Text.EndsWith(q, ":**") then Expand(ns, found) else found
  }

  /** `_resolve` never reports a node twice. */
  lemma ResolveDistinct(ns: seq<Node>, self: nat, query: string)
    requires WellFormed(ns) && self < |ns|
    ensures Distinct(Resolve(ns, self, query))
  {
    var q := Normalize(query);
    var found := Found(ns, self, q);
    if Text.EndsWith(q, ":**") {
      ExpandDistinct(ns, found);
    } else {
      forall p, q | 0 <= p < q < |found| ensures found[p] != found[q] {
        assert !IsAncestor(ns, found[p], found[q]);
      }
    }
  }

  /** With a trailing `:**` the result is exactly the matches and everything below them. */
  lemma ResolveRecursive(ns: seq<Node>, self: nat, query: string, j: nat)
    requires WellFormed(ns) && self < |ns|
    requires Text.EndsWith(Normalize(query), ":**")
    ensures j in Resolve(ns, self, query) <==>
      j < |ns| && exists f :: f in Found(ns, self, Normalize(query)) && f < |ns| && IsAncestor(ns, f, j)
  {
    var found := Found(ns, self, Normalize(query));
    if j in Resolve(ns, self, query) {
      var k :| 0 <= k < |found| && IsAncestor(ns, found[k], j);
      assert found[k] in found;
    }
    if j < |ns| && exists f :: f in found && f < |ns| && IsAncestor(ns, f, j) {
      var f :| f in found && f < |ns| && IsAncestor(ns, f, j);
      var k :| 0 <= k < |found| && found[k] == f;
    }
  }

  // ------------------------------------------------- _fill_partial_name

  /** `itertools.zip_longest(parts, fill, fillvalue="")`, keeping a part unless it is empty. */
  function ZipFill(parts: seq<string>, fill: seq<string>): (r: seq<string>)
    requires |fill| <= |parts|
    ensures |r| == |parts|
    ensures forall k :: 0 <= k < |r| ==>
      r[k] == (if parts[k] != "" then parts[k] else if k < |fill| then fill[k] else "")
  {
    if |parts| == 0 then []
    else
      var head := if parts[0] != "" then parts[0] else if |fill| > 0 then fill[0] else "";
      var tail := if |fill| > 0 then fill[1..] else [];
      var rest := ZipFill(parts[1..], tail);
      var r := [head] + rest;
      forall k | 1 <= k < |r|
        ensures r[k] == (if parts[k] != "" then parts[k] else if k < |fill| then fill[k] else "")
      {
        assert r[k] == rest[k - 1] && parts[1..][k - 1] == parts[k];
        if k < |fill| {
          assert tail[k - 1] == fill[k];
        }
      }
      r
  }

  /**
   * `_fill_partial_name(partial)`: a single field is scoped below the
   * caller; empty fields are taken from the caller's full name at the same
   * position, or stay empty beyond its depth.
   */
  function FillPartialName(fullname: string, partial: seq<string>): (name: seq<string>)
    ensures |partial| != 1 ==> |name| == |partial|
    ensures |partial| != 1 ==> forall k :: 0 <= k < |partial| && partial[k] != "" ==> name[k] == partial[k]
    ensures |partial| != 1 ==> forall k :: 0 <= k < |partial| && partial[k] == "" ==>
      name[k] == (if k < |Text.Split(fullname, ":")| then Text.Split(fullname, ":")[k] else "")
  {
    var own := Text.Split(fullname, ":");
    var request := if |partial| == 1 then own + partial else partial;
    var fill := if |own| > |request| then own[..|request|] else own;
    ZipFill(request, fill)
  }

  /** A one-field name is the caller's full name with that field appended. */
  lemma FillLeaf(fullname: string, leaf: string)
    requires leaf != ""
    ensures FillPartialName(fullname, [leaf]) == Text.Split(fullname, ":") + [leaf]
  {
    var own := Text.Split(fullname, ":");
    var r := FillPartialName(fullname, [leaf]);
    var request := own + [leaf];
    assert |r| == |request|;
    forall k | 0 <= k < |r| ensures r[k] == request[k] {
    }
  }

  // -------------------------------------------------- _resolve_partial

  /** `*` fields become empty so that they are filled from the caller. */
  function EmptyStars(parts: seq<string>): (r: seq<string>)
    ensures |r| == |parts|
  {
    seq(|parts|, k requires 0 <= k < |parts| => if parts[k] == "*" then "" else parts[k])
  }

  /** The second attempt of `_resolve_partial`: the query completed from the caller's full name. */
  function FilledQuery(ns: seq<Node>, self: nat, query: string): string
    requires self < |ns|
  {
    Text.Join(FillPartialName(ns[self].fullname, EmptyStars(Text.Split(query, ":"))), ":")
  }

  /**
   * `_resolve_partial(query, None)`: of the literal and the completed query,
   * the non-empty result with fewer matches, the literal one on a tie;
   * None when both are empty.
   */
  function ResolvePartial(ns: seq<Node>, self: nat, query: string): (r: Option<seq<nat>>)
    requires WellFormed(ns) && self < |ns|
    ensures r.None? <==> Resolve(ns, self, query) == [] && Resolve(ns, self, FilledQuery(ns, self, query)) == []
    ensures r.Some? ==> r.value == Resolve(ns, self, query) || r.value == Resolve(ns, self, FilledQuery(ns, self, query))
    ensures r.Some? ==> |r.value| > 0 && InRange(ns, r.value)
    ensures r.Some? && |Resolve(ns, self, query)| > 0 ==> |r.value| <= |Resolve(ns, self, query)|
    ensures r.Some? && |Resolve(ns, self, FilledQuery(ns, self, query))| > 0 ==>
      |r.value| <= |Resolve(ns, self, FilledQuery(ns, self, query))|
    ensures 0 < |Resolve(ns, self, query)| <= |Resolve(ns, self, FilledQuery(ns, self, query))| ==>
      r == Some(Resolve(ns, self, query))
    ensures |Resolve(ns, self, query)| == 1 ==> r == Some(Resolve(ns, self, query))
  {
    var r1 := Resolve(ns, self, query);
    if |r1| == 1 then Some(r1)
    else
      var r2 := Resolve(ns, self, FilledQuery(ns, self, query));
      if |r2| == 0 && |r1| == 0 then None
      else if |r2| == 0 then Some(r1)
      else if |r1| == 0 then Some(r2)
      else if |r2| < |r1| then Some(r2)
      else Some(r1)
  }

  function FullNames(ns: seq<Node>, xs: seq<nat>): (r: seq<string>)
    requires InRange(ns, xs)
    ensures |r| == |xs| && forall k :: 0 <= k < |xs| ==> r[k] == ns[xs[k]].fullname
  {
    seq(|xs|, k requires 0 <= k < |xs| => ns[xs[k]].fullname)
  }

  function UnknownMessage(query: string, fullname: string): string
  {
    "Unknown '" + query + "' in module '" + fullname + "'!"
  }

  function AmbiguousMessage(query: string, fullnames: seq<string>): string
  {
    "Ambiguous '" + query + "'! Found: '" + Text.Join(fullnames, "', '") + "'"
  }

  /**
   * `_resolve_partial_max(query, max_results)`: "Unknown" when nothing
   * resolves, "Ambiguous" with every candidate's full name when more than
   * `max_results` do.
   */
  function ResolvePartialMax(ns: seq<Node>, self: nat, query: string, maxResults: nat): (r: Result<seq<nat>>)
    requires WellFormed(ns) && self < |ns|
    ensures r.Success? ==> 1 <= |r.value| <= maxResults && InRange(ns, r.value)
    ensures r.Success? <==> ResolvePartial(ns, self, query).Some? && |ResolvePartial(ns, self, query).value| <= maxResults
    ensures r.Success? ==> Some(r.value) == ResolvePartial(ns, self, query)
    ensures ResolvePartial(ns, self, query).None? ==> r == Failure(Fail(UnknownMessage(query, ns[self].fullname)))
    ensures ResolvePartial(ns, self, query).Some? && |ResolvePartial(ns, self, query).value| > maxResults ==>
      r == Failure(Fail(AmbiguousMessage(query, FullNames(ns, ResolvePartial(ns, self, query).value))))
  {
    match ResolvePartial(ns, self, query)
    case None => Failure(Fail(UnknownMessage(query, ns[self].fullname)))
    case Some(nodes) =>
      if |nodes| > maxResults then Failure(Fail(AmbiguousMessage(query, FullNames(ns, nodes))))
      else Success(nodes)
  }

  // ------------------------------------------------------ NameResolver

  /** A `NameResolver`: the node type searched for, whether it must be selected, and whether option values are returned. */
  datatype Resolver = Resolver(kind: NodeType, selected: bool, valueResolver: bool)

  /** `module_resolver`. */
  const ModuleResolver: Resolver := Resolver(ModuleNode, true, false)

  /** What a lookup returns: a node, or an option's value. */
  datatype Hit = NodeRef(index: nat) | OptionValue(value: Value)

  /** `option.value`. */
  function OptionOutput(n: Node): Value
  {
    if n.option.Some? then Options.Output(n.option.value) else NoneV
  }

  /**
   * `NameResolver.__getitem__(key)`: the unique node the key resolves to,
   * provided it is available, selected when that is required, and of the
   * type searched for; a value resolver returns an option's value instead.
   */
  function Lookup(ns: seq<Node>, tr: seq<Traits>, self: nat, res: Resolver, key: string): (r: Result<Hit>)
    requires WellFormed(ns) && |tr| == |ns| && self < |ns|
    ensures r.Failure? ==> r.error.Raised? && r.error.kind == LbuildError
    ensures r.Success? && !res.valueResolver ==> r.value.NodeRef?
    ensures r.Success? && r.value.NodeRef? ==>
      r.value.index < |ns| && ns[r.value.index].kind == res.kind && tr[r.value.index].available &&
      (res.selected ==> tr[r.value.index].selected)
  {
    var nodes :- ResolvePartialMax(ns, self, key, 1);
    var j := nodes[0];
    var n := ns[j];
    if !tr[j].available then
      Failure(Fail(TypeLabel(res.kind) + " '" + n.fullname + "' is not available!"))
    else if res.selected && !tr[j].selected then
      Failure(Fail(TypeLabel(res.kind) + " '" + n.fullname + "' is not selected!"))
    else if n.kind != res.kind then
      Failure(Fail("'" + n.fullname + "' is of type '" + TypeLabel(n.kind) + "', but searching for '" +
                   TypeLabel(res.kind) + "'!"))
    else if n.kind == OptionNode && res.valueResolver then Success(OptionValue(OptionOutput(n)))
    else Success(NodeRef(j))
  }

  /**
   * A lookup succeeds exactly when the key resolves to a single node that
   * is available, selected if required, and of the right type; it returns
   * that node, or its value for a value resolver of options.
   */
  lemma LookupSpec(ns: seq<Node>, tr: seq<Traits>, self: nat, res: Resolver, key: string)
    requires WellFormed(ns) && |tr| == |ns| && self < |ns|
    ensures Lookup(ns, tr, self, res, key).Success? <==>
      exists j :: 0 <= j < |ns| && ResolvePartial(ns, self, key) == Some([j]) &&
        tr[j].available && (res.selected ==> tr[j].selected) && ns[j].kind == res.kind
    ensures forall j :: (0 <= j < |ns| && ResolvePartial(ns, self, key) == Some([j]) &&
      Lookup(ns, tr, self, res, key).Success?) ==>
      Lookup(ns, tr, self, res, key).value ==
        (if res.kind == OptionNode && res.valueResolver then OptionValue(OptionOutput(ns[j])) else NodeRef(j))
  {
    var m := ResolvePartialMax(ns, self, key, 1);
    if m.Success? {
      assert m.value == [m.value[0]];
    }
  }

  // ----------------------------------------------------------- _findall

  /**
   * The filter of `_findall`: a node of the type, available, selected unless
   * that is waived, other than the searching node, and at most
   * `maxLevel - 1` levels below it.
   */
  predicate FindAllMatch(ns: seq<Node>, tr: seq<Traits>, self: nat, kind: NodeType,
                         maxLevel: Option<nat>, selected: bool, j: nat)
    requires WellFormed(ns) && |tr| == |ns| && self < |ns| && j < |ns|
  {
    j != self && IsAncestor(ns, self, j) &&
    (maxLevel.Some? ==> Depth(ns, j) < Depth(ns, self) + maxLevel.value) &&
    ns[j].kind == kind && tr[j].available && (tr[j].selected || !selected)
  }

  function FindAllBelow(ns: seq<Node>, tr: seq<Traits>, self: nat, kind: NodeType,
                        maxLevel: Option<nat>, selected: bool, n: nat): (r: seq<nat>)
    requires WellFormed(ns) && |tr| == |ns| && self < |ns| && n <= |ns|
    ensures forall j: nat :: j in r <==> j < n && FindAllMatch(ns, tr, self, kind, maxLevel, selected, j)
    ensures Increasing(r) && forall k :: 0 <= k < |r| ==> r[k] < n
  {
    if n == 0 then []
    else
      var r := FindAllBelow(ns, tr, self, kind, maxLevel, selected, n - 1);
      if FindAllMatch(ns, tr, self, kind, maxLevel, selected, n - 1) then r + [n - 1] else r
  }

  /** `_findall(node_type, depth, selected)`, in index order. */
  function FindAll(ns: seq<Node>, tr: seq<Traits>, self: nat, kind: NodeType,
                   maxLevel: Option<nat>, selected: bool): (r: seq<nat>)
    requires WellFormed(ns) && |tr| == |ns| && self < |ns|
    ensures forall j: nat :: j in r <==> j < |ns| && FindAllMatch(ns, tr, self, kind, maxLevel, selected, j)
    ensures Increasing(r) && InRange(ns, r)
  {
    FindAllBelow(ns, tr, self, kind, maxLevel, selected, |ns|)
  }

  /** `options`, that is `all_options(depth=2)`. */
  function ChildOptions(ns: seq<Node>, tr: seq<Traits>, self: nat): (r: seq<nat>)
    requires WellFormed(ns) && |tr| == |ns| && self < |ns|
    ensures InRange(ns, r)
  {
    FindAll(ns, tr, self, OptionNode, Some(2), true)
  }

  /** `options` are exactly the available, selected option nodes whose parent is the node. */
  lemma ChildOptionsSpec(ns: seq<Node>, tr: seq<Traits>, self: nat, j: nat)
    requires WellFormed(ns) && |tr| == |ns| && self < |ns| && j < |ns|
    ensures j in ChildOptions(ns, tr, self) <==>
      ns[j].parent == self && ns[j].kind == OptionNode && tr[j].available && tr[j].selected
  {
    assert NodeOk(ns, j);
    if j in ChildOptions(ns, tr, self) {
      var p := ns[j].parent;
      assert p != -1 && IsAncestor(ns, self, p);
      AncestorDepth(ns, self, p);
    }
    if ns[j].parent == self && ns[j].kind == OptionNode && tr[j].available && tr[j].selected {
      assert IsAncestor(ns, self, j);
      AncestorRank(ns, self, j);
    }
  }

  // ---------------------------------------------- _resolve_dependencies

  /** The names that contain a `:`. */
  function WithColon(names: seq<string>): (r: seq<string>)
    ensures forall x :: x in r <==> x in names && ':' in x
  {
    if |names| == 0 then []
    else
      var rest := WithColon(names[1..]);
      assert forall x :: x in names <==> x == names[0] || x in names[1..];
      if ':' in names[0] then [names[0]] + rest else rest
  }

  /** `set(n for n in self._dependency_module_names if ":" in n)`. */
  function DependencyNames(names: seq<string>): (r: seq<string>)
    ensures forall x :: x in r <==> x in names && ':' in x
    ensures forall p, q :: 0 <= p < q < |r| ==> r[p] != r[q]
  {
    Options.Dedup(WithColon(names))
  }

  /** `str(error)` for the errors a lookup raises. */
  function Message(e: Error): string
  {
    if e.Raised? then e.msg else ""
  }

  const ResolveFailure: string := "Cannot resolve dependencies!\n"

  /** The lookup of every name from node `j` with the module resolver. */
  function LookupAll(ns: seq<Node>, tr: seq<Traits>, j: nat, names: seq<string>): (r: seq<Result<Hit>>)
    requires WellFormed(ns) && |tr| == |ns| && j < |ns|
    ensures |r| == |names|
    ensures forall k :: 0 <= k < |names| ==> r[k] == Lookup(ns, tr, j, ModuleResolver, names[k])
    decreases |names|
  {
    if |names| == 0 then []
    else
      var rest := LookupAll(ns, tr, j, names[1..]);
      assert forall k :: 0 < k < |names| ==> names[1..][k - 1] == names[k];
      [Lookup(ns, tr, j, ModuleResolver, names[0])] + rest
  }

  /** Every successful lookup of a name finds an available, selected module. */
  lemma LookupAllModules(ns: seq<Node>, tr: seq<Traits>, j: nat, names: seq<string>)
    requires WellFormed(ns) && |tr| == |ns| && j < |ns|
    ensures HitsBelow(LookupAll(ns, tr, j, names), |ns|)
    ensures forall k :: 0 <= k < |names| && LookupAll(ns, tr, j, names)[k].Success? ==>
      var x := LookupAll(ns, tr, j, names)[k].value.index;
      ns[x].kind == ModuleNode && tr[x].available && tr[x].selected
  {
    forall k | 0 <= k < |names| && LookupAll(ns, tr, j, names)[k].Success?
      ensures LookupAll(ns, tr, j, names)[k].value.NodeRef? &&
        LookupAll(ns, tr, j, names)[k].value.index < |ns| &&
        ns[LookupAll(ns, tr, j, names)[k].value.index].kind == ModuleNode &&
        tr[LookupAll(ns, tr, j, names)[k].value.index].available &&
        tr[LookupAll(ns, tr, j, names)[k].value.index].selected
    {
    }
  }

  /** Every hit refers to a node below `n`. */
  predicate HitsBelow(hits: seq<Result<Hit>>, n: nat)
  {
    forall k :: 0 <= k < |hits| && hits[k].Success? ==> hits[k].value.NodeRef? && hits[k].value.index < n
  }

  /**
   * The loop of `_resolve_dependencies` over the lookups of the names: the
   * modules found, each once; a failed lookup is skipped when failures are
   * ignored and raises otherwise.
   */
  function Collect(hits: seq<Result<Hit>>, ignore: bool, n: nat): (r: Result<seq<nat>>)
    requires HitsBelow(hits, n)
    ensures ignore ==> r.Success?
    ensures r.Success? ==> Distinct(r.value) && forall k :: 0 <= k < |r.value| ==> r.value[k] < n
    ensures r.Failure? ==>
      exists k :: 0 <= k < |hits| && hits[k].Failure? && r.error == Fail(ResolveFailure + Message(hits[k].error))
    decreases |hits|
  {
    if |hits| == 0 then Success([])
    else
      assert HitsBelow(hits[1..], n) by {
        forall k | 0 <= k < |hits[1..]| && hits[1..][k].Success?
          ensures hits[1..][k].value.NodeRef? && hits[1..][k].value.index < n
        {
          assert hits[1..][k] == hits[k + 1];
        }
      }
      match hits[0]
      case Failure(e) =>
        if ignore then Collect(hits[1..], ignore, n)
        else Failure(Fail(ResolveFailure + Message(e)))
      case Success(h) =>
        var r := Collect(hits[1..], ignore, n);
        if r.Failure? then
          var k :| 0 <= k < |hits[1..]| && hits[1..][k].Failure? && r.error == Fail(ResolveFailure + Message(hits[1..][k].error));
          assert hits[1..][k] == hits[k + 1];
          Failure(r.error)
        else if h.index in r.value then r
        else
          var v := [h.index] + r.value;
          assert forall p, q :: 1 <= p < q < |v| ==> v[p] == r.value[p - 1] && v[q] == r.value[q - 1];
          Success(v)
  }

  /** Collecting fails, without ignoring, exactly when some lookup failed. */
  lemma {:induction false} CollectFails(hits: seq<Result<Hit>>, ignore: bool, n: nat)
    requires HitsBelow(hits, n)
    ensures Collect(hits, ignore, n).Failure? <==> !ignore && exists k :: 0 <= k < |hits| && hits[k].Failure?
    decreases |hits|
  {
    if |hits| > 0 {
      assert HitsBelow(hits[1..], n) by {
        forall k | 0 <= k < |hits[1..]| && hits[1..][k].Success?
          ensures hits[1..][k].value.NodeRef? && hits[1..][k].value.index < n
        {
          assert hits[1..][k] == hits[k + 1];
        }
      }
      CollectFails(hits[1..], ignore, n);
      if !ignore && exists k :: 0 <= k < |hits| && hits[k].Failure? {
        var k :| 0 <= k < |hits| && hits[k].Failure?;
        if k > 0 {
          assert hits[1..][k - 1] == hits[k];
        }
      }
    }
  }

  /** The modules collected are exactly those some lookup found. */
  lemma {:induction false} CollectMembers(hits: seq<Result<Hit>>, ignore: bool, n: nat, x: nat)
    requires HitsBelow(hits, n) && Collect(hits, ignore, n).Success?
    ensures x in Collect(hits, ignore, n).value <==> exists k :: 0 <= k < |hits| && hits[k] == Success(NodeRef(x))
    decreases |hits|
  {
    if |hits| > 0 {
      assert HitsBelow(hits[1..], n) by {
        forall k | 0 <= k < |hits[1..]| && hits[1..][k].Success?
          ensures hits[1..][k].value.NodeRef? && hits[1..][k].value.index < n
        {
          assert hits[1..][k] == hits[k + 1];
        }
      }
      CollectMembers(hits[1..], ignore, n, x);
      if exists k :: 0 <= k < |hits[1..]| && hits[1..][k] == Success(NodeRef(x)) {
        var k :| 0 <= k < |hits[1..]| && hits[1..][k] == Success(NodeRef(x));
        assert hits[1..][k] == hits[k + 1];
      }
      if exists k :: 0 <= k < |hits| && hits[k] == Success(NodeRef(x)) {
        var k :| 0 <= k < |hits| && hits[k] == Success(NodeRef(x));
        if k > 0 {
          assert hits[1..][k - 1] == hits[k];
        }
      }
    }
  }

  /** What `_resolve_dependencies` computes for node `j` from its dependency names. */
  function Resolution(ns: seq<Node>, tr: seq<Traits>, j: nat, names: seq<string>, ignore: bool)
    : (r: Result<seq<nat>>)
    requires WellFormed(ns) && |tr| == |ns| && j < |ns|
    ensures ignore ==> r.Success?
    ensures r.Success? ==> InRange(ns, r.value) && Distinct(r.value)
  {
    LookupAllModules(ns, tr, j, DependencyNames(names));
    Collect(LookupAll(ns, tr, j, DependencyNames(names)), ignore, |ns|)
  }

  /** A module that a name with a `:` looks up is among the resolved dependencies. */
  lemma ResolutionComplete(ns: seq<Node>, tr: seq<Traits>, j: nat, names: seq<string>, ignore: bool,
                           n: string, x: nat)
    requires WellFormed(ns) && |tr| == |ns| && j < |ns|
    requires Resolution(ns, tr, j, names, ignore).Success?
    requires n in names && ':' in n && Lookup(ns, tr, j, ModuleResolver, n) == Success(NodeRef(x))
    ensures x in Resolution(ns, tr, j, names, ignore).value
  {
    var dn := DependencyNames(names);
    var hits := LookupAll(ns, tr, j, dn);
    LookupAllModules(ns, tr, j, dn);
    CollectMembers(hits, ignore, |ns|, x);
    assert n in dn;
    var k :| 0 <= k < |dn| && dn[k] == n;
  }

  /**
   * Every resolved dependency is an available, selected module that one of
   * the names with a `:` looks up.
   */
  lemma ResolutionSound(ns: seq<Node>, tr: seq<Traits>, j: nat, names: seq<string>, ignore: bool, x: nat)
    requires WellFormed(ns) && |tr| == |ns| && j < |ns|
    requires Resolution(ns, tr, j, names, ignore).Success?
    requires x in Resolution(ns, tr, j, names, ignore).value
    ensures x < |ns| && ns[x].kind == ModuleNode && tr[x].available && tr[x].selected
    ensures exists n :: n in names && ':' in n && Lookup(ns, tr, j, ModuleResolver, n) == Success(NodeRef(x))
  {
    var dn := DependencyNames(names);
    var hits := LookupAll(ns, tr, j, dn);
    LookupAllModules(ns, tr, j, dn);
    CollectMembers(hits, ignore, |ns|, x);
    var k :| 0 <= k < |hits| && hits[k] == Success(NodeRef(x));
    assert dn[k] in dn;
  }

  /** Without ignoring, resolution fails when one of the names with a `:` does not look up. */
  lemma ResolutionFailsOn(ns: seq<Node>, tr: seq<Traits>, j: nat, names: seq<string>, n: string)
    requires WellFormed(ns) && |tr| == |ns| && j < |ns|
    requires n in names && ':' in n && Lookup(ns, tr, j, ModuleResolver, n).Failure?
    ensures Resolution(ns, tr, j, names, false).Failure?
  {
    var dn := DependencyNames(names);
    var hits := LookupAll(ns, tr, j, dn);
    LookupAllModules(ns, tr, j, dn);
    CollectFails(hits, false, |ns|);
    assert n in dn;
    var k :| 0 <= k < |dn| && dn[k] == n;
  }

  /**
   * A failed resolution reports the failed lookup of one of the names with a
   * `:`, behind "Cannot resolve dependencies!".
   */
  lemma ResolutionFailure(ns: seq<Node>, tr: seq<Traits>, j: nat, names: seq<string>, ignore: bool)
    requires WellFormed(ns) && |tr| == |ns| && j < |ns|
    requires Resolution(ns, tr, j, names, ignore).Failure?
    ensures !ignore
    ensures exists n :: (n in names && ':' in n && Lookup(ns, tr, j, ModuleResolver, n).Failure? &&
      Resolution(ns, tr, j, names, ignore).error ==
        Fail(ResolveFailure + Message(Lookup(ns, tr, j, ModuleResolver, n).error)))
  {
    var dn := DependencyNames(names);
    var hits := LookupAll(ns, tr, j, dn);
    LookupAllModules(ns, tr, j, dn);
    var k :| 0 <= k < |hits| && hits[k].Failure? &&
      Resolution(ns, tr, j, names, ignore).error == Fail(ResolveFailure + Message(hits[k].error));
    assert dn[k] in dn;
  }

  /** The elements of `xs` other than `i`, in order. */
  function Without(xs: seq<nat>, i: nat): (r: seq<nat>)
    ensures forall x :: x in r <==> x in xs && x != i
  {
    if |xs| == 0 then []
    else
      assert forall x :: x in xs <==> x == xs[0] || x in xs[1..];
      (if xs[0] == i then [] else [xs[0]]) + Without(xs[1..], i)
  }

  /** The dependencies of the options `os`, without node `i`, one list after the other. */
  function DepsOf(ds: seq<DepState>, os: seq<nat>, i: nat): (r: seq<nat>)
    requires forall k :: 0 <= k < |os| ==> os[k] < |ds|
    ensures forall x :: x in r <==> x != i && exists k :: 0 <= k < |os| && x in ds[os[k]].deps
  {
    if |os| == 0 then []
    else
      var rest := DepsOf(ds, os[1..], i);
      var r := Without(ds[os[0]].deps, i) + rest;
      forall x | x in r ensures x != i && exists k :: 0 <= k < |os| && x in ds[os[k]].deps {
        if x !in ds[os[0]].deps {
          var k :| 0 <= k < |os[1..]| && x in ds[os[1..][k]].deps;
          assert os[1..][k] == os[k + 1];
        }
      }
      forall x, k | x != i && 0 <= k < |os| && x in ds[os[k]].deps ensures x in r {
        if k > 0 {
          assert os[1..][k - 1] == os[k];
        }
      }
      r
  }

  /** The part of `dependencies` that comes from the node's own options. */
  function OptionDeps(ns: seq<Node>, tr: seq<Traits>, ds: seq<DepState>, i: nat): (r: seq<nat>)
    requires WellFormed(ns) && |tr| == |ns| && |ds| == |ns| && i < |ns|
    ensures i !in r
    ensures forall x :: x in r <==> x != i && exists o :: o in ChildOptions(ns, tr, i) && x in ds[o].deps
  {
    var os := ChildOptions(ns, tr, i);
    var r := DepsOf(ds, os, i);
    forall x | x in r ensures exists o :: o in os && x in ds[o].deps {
      var k :| 0 <= k < |os| && x in ds[os[k]].deps;
      assert os[k] in os;
    }
    r
  }

  // ------------------------------------------------------------ _update

  /** `_update_attribute` on a scalar: the parent's value replaces a default one when the parent's is not the default. */
  function InheritScalar<T(==)>(own: T, parent: T, default: T): T
  {
    if parent != default && own == default then parent else own
  }

  /**
   * The traits of a node after `_update_attribute` with its parent's: the
   * formatters, `_available`, `_selected` and `_context` inherit as
   * scalars, the filters are merged with the parent's entries winning,
   * and the ignore patterns stay as they are.
   */
  function Inherit(own: Traits, parent: Traits): Traits
  {
    own.(formatDescription := InheritScalar(own.formatDescription, parent.formatDescription, DefaultFormat),
         formatShortDescription := InheritScalar(own.formatShortDescription, parent.formatShortDescription,
                                                 DefaultShortFormat),
         available := InheritScalar(own.available, parent.available, true),
         selected := InheritScalar(own.selected, parent.selected, true),
         filters := own.filters + parent.filters,
         context := InheritScalar(own.context, parent.context, NoneV))
  }

  /**
   * The traits of node `j` after `_update()` runs on node `i`, which lies
   * above it: each node on the way down inherits from its parent's
   * updated traits.
   */
  function Updated(ns: seq<Node>, t0: seq<Traits>, i: nat, j: nat): Traits
    requires WellFormed(ns) && |t0| == |ns| && i < |ns| && j < |ns| && IsAncestor(ns, i, j)
    decreases Rank(ns[j])
  {
    assert NodeOk(ns, j);
    if j == i then (if ns[i].parent == -1 then t0[i] else Inherit(t0[i], t0[ns[i].parent]))
    else Inherit(t0[j], Updated(ns, t0, i, ns[j].parent))
  }

  /** `_available` or `_selected`. */
  function Flag(t: Traits, selected: bool): bool
  {
    if selected then t.selected else t.available
  }

  /** The flags conjoin in `_update_attribute`, since their default is True. */
  lemma InheritFlag(own: Traits, parent: Traits, selected: bool)
    ensures Flag(Inherit(own, parent), selected) == (Flag(own, selected) && Flag(parent, selected))
  {
  }

  /**
   * After `_update()` on `i`, a node below is available (selected) exactly
   * when it and every node between it and `i`, and `i`'s parent, were.
   */
  lemma {:induction false} UpdateConjoins(ns: seq<Node>, t0: seq<Traits>, i: nat, j: nat, selected: bool)
    requires WellFormed(ns) && |t0| == |ns| && i < |ns| && j < |ns| && IsAncestor(ns, i, j)
    ensures Flag(Updated(ns, t0, i, j), selected) <==>
      (forall k :: 0 <= k < |ns| && IsAncestor(ns, i, k) && IsAncestor(ns, k, j) ==> Flag(t0[k], selected)) &&
      (0 <= ns[i].parent < |ns| ==> Flag(t0[ns[i].parent], selected))
    decreases Rank(ns[j])
  {
    assert NodeOk(ns, j);
    if j == i {
      forall k | 0 <= k < |ns| && IsAncestor(ns, i, k) && IsAncestor(ns, k, j) ensures k == i {
        AncestorRank(ns, i, k);
        AncestorRank(ns, k, j);
      }
      if ns[i].parent != -1 {
        InheritFlag(t0[i], t0[ns[i].parent], selected);
      }
    } else {
      var p := ns[j].parent;
      UpdateConjoins(ns, t0, i, p, selected);
      InheritFlag(t0[j], Updated(ns, t0, i, p), selected);
      forall k | 0 <= k < |ns| && IsAncestor(ns, i, k)
        ensures IsAncestor(ns, k, j) <==> k == j || IsAncestor(ns, k, p)
      {
      }
    }
  }

  /** After `_update()` on `i`, a node below holds every filter of the nodes from `i`'s parent down to it. */
  lemma {:induction false} UpdateFilters(ns: seq<Node>, t0: seq<Traits>, i: nat, j: nat, name: string)
    requires WellFormed(ns) && |t0| == |ns| && i < |ns| && j < |ns| && IsAncestor(ns, i, j)
    ensures name in Updated(ns, t0, i, j).filters <==>
      (exists k :: 0 <= k < |ns| && IsAncestor(ns, i, k) && IsAncestor(ns, k, j) && name in t0[k].filters) ||
      (0 <= ns[i].parent < |ns| && name in t0[ns[i].parent].filters)
    decreases Rank(ns[j])
  {
    assert NodeOk(ns, j);
    if j == i {
      forall k | 0 <= k < |ns| && IsAncestor(ns, i, k) && IsAncestor(ns, k, j) ensures k == i {
        AncestorRank(ns, i, k);
        AncestorRank(ns, k, j);
      }
      assert IsAncestor(ns, i, i);
    } else {
      var p := ns[j].parent;
      UpdateFilters(ns, t0, i, p, name);
      assert IsAncestor(ns, i, j) && IsAncestor(ns, j, j);
      forall k | 0 <= k < |ns| && IsAncestor(ns, i, k)
        ensures IsAncestor(ns, k, j) <==> k == j || IsAncestor(ns, k, p)
      {
      }
    }
  }

  /** The traits of every node after `_update()` on node `i`. */
  ghost function UpdateAt(ns: seq<Node>, t0: seq<Traits>, i: nat): (r: seq<Traits>)
    requires WellFormed(ns) && |t0| == |ns| && i < |ns|
    ensures |r| == |ns|
  {
    seq(|ns|, j requires 0 <= j < |ns| => if IsAncestor(ns, i, j) then Updated(ns, t0, i, j) else t0[j])
  }

  /** Traits that agree with `_update()` on `i` inside its subtree and with `t0` outside are `UpdateAt`. */
  lemma UpdateAtIs(ns: seq<Node>, t0: seq<Traits>, t1: seq<Traits>, i: nat)
    requires WellFormed(ns) && |t0| == |ns| && |t1| == |ns| && i < |ns|
    requires forall j :: 0 <= j < |ns| && IsAncestor(ns, i, j) ==> t1[j] == Updated(ns, t0, i, j)
    requires forall j :: 0 <= j < |ns| && !IsAncestor(ns, i, j) ==> t1[j] == t0[j]
    ensures t1 == UpdateAt(ns, t0, i)
  {
  }

  // ------------------------------------------------ dependency pruning

  /** `_resolve_dependencies` on `i` reaches `j`: no node from `i` down to `j` was resolved already. */
  ghost predicate Unpruned(ns: seq<Node>, ds: seq<DepState>, i: nat, j: nat)
    requires WellFormed(ns) && |ds| == |ns| && i < |ns| && j < |ns|
    decreases Rank(ns[j])
  {
    assert NodeOk(ns, j);
    !ds[j].resolved && (j == i || (ns[j].parent != -1 && Unpruned(ns, ds, i, ns[j].parent)))
  }

  /** A node reached from `i` lies below an unresolved `i`. */
  lemma {:induction false} UnprunedTop(ns: seq<Node>, ds: seq<DepState>, i: nat, j: nat)
    requires WellFormed(ns) && |ds| == |ns| && i < |ns| && j < |ns| && Unpruned(ns, ds, i, j)
    ensures !ds[i].resolved
    decreases Rank(ns[j])
  {
    assert NodeOk(ns, j);
    if j != i {
      UnprunedTop(ns, ds, i, ns[j].parent);
    }
  }

  lemma {:induction false} UnprunedBelow(ns: seq<Node>, ds: seq<DepState>, i: nat, j: nat)
    requires WellFormed(ns) && |ds| == |ns| && i < |ns| && j < |ns| && Unpruned(ns, ds, i, j)
    ensures IsAncestor(ns, i, j)
    decreases Rank(ns[j])
  {
    assert NodeOk(ns, j);
    if j != i {
      UnprunedBelow(ns, ds, i, ns[j].parent);
    }
  }

  /** Below a child `c` of `i`, reaching from `i` is reaching `i` and then from `c`. */
  lemma {:induction false} UnprunedStep(ns: seq<Node>, ds: seq<DepState>, i: nat, c: nat, j: nat)
    requires WellFormed(ns) && |ds| == |ns| && i < |ns| && c < |ns| && j < |ns|
    requires ns[c].parent == i && IsAncestor(ns, c, j)
    ensures Unpruned(ns, ds, i, j) <==> !ds[i].resolved && Unpruned(ns, ds, c, j)
    decreases Rank(ns[j])
  {
    assert NodeOk(ns, j) && NodeOk(ns, c);
    if j != c {
      UnprunedStep(ns, ds, i, c, ns[j].parent);
      AncestorRank(ns, c, j);
    }
  }

  /** Reaching below `c` depends only on the states below `c`. */
  lemma {:induction false} UnprunedFrame(ns: seq<Node>, ds: seq<DepState>, ds2: seq<DepState>, c: nat, j: nat)
    requires WellFormed(ns) && |ds| == |ns| && |ds2| == |ns| && c < |ns| && j < |ns|
    requires IsAncestor(ns, c, j)
    requires forall k :: 0 <= k < |ns| && IsAncestor(ns, c, k) ==> ds[k] == ds2[k]
    ensures Unpruned(ns, ds, c, j) == Unpruned(ns, ds2, c, j)
    decreases Rank(ns[j])
  {
    assert NodeOk(ns, j);
    if j != c {
      UnprunedFrame(ns, ds, ds2, c, ns[j].parent);
    }
  }

  /** The resolution of every node below index `n` from its own dependency names. */
  function Outcomes(ns: seq<Node>, tr: seq<Traits>, ds: seq<DepState>, ignore: bool, n: nat)
    : (r: seq<Result<seq<nat>>>)
    requires WellFormed(ns) && |tr| == |ns| && |ds| == |ns| && n <= |ns|
    ensures |r| == n
  {
    seq(n, j requires 0 <= j < n => Resolution(ns, tr, j, ds[j].names, ignore))
  }

  /** Outcomes depend on the dependency names only. */
  lemma OutcomesNames(ns: seq<Node>, tr: seq<Traits>, ds: seq<DepState>, ds2: seq<DepState>, ignore: bool, n: nat)
    requires WellFormed(ns) && |tr| == |ns| && |ds| == |ns| && |ds2| == |ns| && n <= |ns|
    requires forall k :: 0 <= k < |ns| ==> ds[k].names == ds2[k].names
    ensures Outcomes(ns, tr, ds, ignore, n) == Outcomes(ns, tr, ds2, ignore, n)
  {
    forall k | 0 <= k < n
      ensures Outcomes(ns, tr, ds, ignore, n)[k] == Outcomes(ns, tr, ds2, ignore, n)[k]
    {
      assert ds[k].names == ds2[k].names;
    }
  }

  /** Node `j` was resolved by `_resolve_dependencies` to `out`: its names kept, its modules found. */
  predicate Settled(ds0: seq<DepState>, ignore: bool, j: nat, out: Result<seq<nat>>, d: DepState)
    requires j < |ds0|
  {
    out.Success? && d == DepState(ds0[j].names, !ignore, out.value)
  }

  /** With failures ignored no node's resolution fails, so no walk reports one. */
  lemma IgnoredNeverFails(ns: seq<Node>, tr: seq<Traits>, ds0: seq<DepState>, i: nat)
    requires WellFormed(ns) && |tr| == |ns| && |ds0| == |ns| && i < |ns|
    ensures forall e :: !FailsBelow(ns, ds0, i, Outcomes(ns, tr, ds0, true, |ns|), e)
  {
    var outs := Outcomes(ns, tr, ds0, true, |ns|);
    forall j | 0 <= j < |ns| ensures outs[j].Success? {
      assert outs[j] == Resolution(ns, tr, j, ds0[j].names, true);
    }
  }

  /** Every node changed from `ds0` to `ds` was reached from `i` and settled to its outcome. */
  ghost predicate OnlyReached(ns: seq<Node>, ds0: seq<DepState>, ds: seq<DepState>, i: nat, ignore: bool,
                              outs: seq<Result<seq<nat>>>)
    requires WellFormed(ns) && |ds0| == |ns| && |ds| == |ns| && |outs| == |ns| && i < |ns|
  {
    forall j :: 0 <= j < |ns| ==> ds[j] == ds0[j] || (Unpruned(ns, ds0, i, j) && Settled(ds0, ignore, j, outs[j], ds[j]))
  }

  /** Every node reached from `i` is settled to its outcome. */
  ghost predicate AllReached(ns: seq<Node>, ds0: seq<DepState>, ds: seq<DepState>, i: nat, ignore: bool,
                             outs: seq<Result<seq<nat>>>)
    requires WellFormed(ns) && |ds0| == |ns| && |ds| == |ns| && |outs| == |ns| && i < |ns|
  {
    forall j :: 0 <= j < |ns| && Unpruned(ns, ds0, i, j) ==> Settled(ds0, ignore, j, outs[j], ds[j])
  }

  /** Some node reached from `i` fails to resolve with error `e`. */
  ghost predicate FailsBelow(ns: seq<Node>, ds0: seq<DepState>, i: nat, outs: seq<Result<seq<nat>>>, e: Error)
    requires WellFormed(ns) && |ds0| == |ns| && |outs| == |ns| && i < |ns|
  {
    exists j :: 0 <= j < |ns| && Unpruned(ns, ds0, i, j) && outs[j] == Failure(e)
  }

  /** `j` lies in the subtree of a child of `i` whose index is below `c`. */
  ghost predicate Done(ns: seq<Node>, i: nat, j: nat, c: nat)
    requires WellFormed(ns) && i < |ns| && j < |ns|
  {
    j != i && IsAncestor(ns, i, j) && ChildToward(ns, i, j) < c
  }

  /** A walk that changes nothing changes only nodes it reached. */
  lemma Unchanged(ns: seq<Node>, ds: seq<DepState>, i: nat, ignore: bool, outs: seq<Result<seq<nat>>>)
    requires WellFormed(ns) && |ds| == |ns| && |outs| == |ns| && i < |ns|
    ensures OnlyReached(ns, ds, ds, i, ignore, outs)
  {
  }

  /**
   * The state of the walk of `_resolve_dependencies` on `i` once the
   * children below index `c` are done: `i` is settled, the subtrees done
   * are settled wherever they are reached, and nothing else has changed.
   */
  ghost predicate Walked(ns: seq<Node>, ds0: seq<DepState>, ds: seq<DepState>, i: nat, ignore: bool,
                         outs: seq<Result<seq<nat>>>, c: nat)
    requires WellFormed(ns) && |ds0| == |ns| && |ds| == |ns| && |outs| == |ns| && i < |ns|
  {
    !ds0[i].resolved && Settled(ds0, ignore, i, outs[i], ds[i]) &&
    (forall j :: 0 <= j < |ns| ==> ds[j].names == ds0[j].names) &&
    (forall j :: 0 <= j < |ns| && j != i && !Done(ns, i, j, c) ==> ds[j] == ds0[j]) &&
    OnlyReached(ns, ds0, ds, i, ignore, outs) &&
    (forall j :: 0 <= j < |ns| && Done(ns, i, j, c) && Unpruned(ns, ds0, i, j) ==> Settled(ds0, ignore, j, outs[j], ds[j]))
  }

  /** Settling `i` starts the walk. */
  lemma WalkStart(ns: seq<Node>, ds0: seq<DepState>, i: nat, ignore: bool, outs: seq<Result<seq<nat>>>)
    requires WellFormed(ns) && |ds0| == |ns| && |outs| == |ns| && i < |ns| && !ds0[i].resolved && outs[i].Success?
    ensures Walked(ns, ds0, ds0[i := DepState(ds0[i].names, !ignore, outs[i].value)], i, ignore, outs, 0)
  {
    assert Unpruned(ns, ds0, i, i);
  }

  /** A node that is not a child of `i` leaves the walk as it is. */
  lemma WalkSkip(ns: seq<Node>, ds0: seq<DepState>, ds: seq<DepState>, i: nat, ignore: bool,
                 outs: seq<Result<seq<nat>>>, c: nat)
    requires WellFormed(ns) && |ds0| == |ns| && |ds| == |ns| && |outs| == |ns| && i < |ns| && c < |ns|
    requires ns[c].parent != i && Walked(ns, ds0, ds, i, ignore, outs, c)
    ensures Walked(ns, ds0, ds, i, ignore, outs, c + 1)
  {
    forall j | 0 <= j < |ns| && j != i && IsAncestor(ns, i, j) ensures ChildToward(ns, i, j) != c {
    }
  }

  /** Below the child `c` of `i` nothing has changed yet, and the same nodes are reached from `c` as from `i`. */
  lemma WalkEnter(ns: seq<Node>, ds0: seq<DepState>, before: seq<DepState>, i: nat, ignore: bool,
                  outs: seq<Result<seq<nat>>>, c: nat)
    requires WellFormed(ns) && |ds0| == |ns| && |before| == |ns| && |outs| == |ns|
    requires i < |ns| && c < |ns| && ns[c].parent == i
    requires Walked(ns, ds0, before, i, ignore, outs, c)
    ensures forall j :: 0 <= j < |ns| && IsAncestor(ns, c, j) ==> before[j] == ds0[j]
    ensures forall j :: 0 <= j < |ns| && IsAncestor(ns, c, j) ==> (Unpruned(ns, before, c, j) <==> Unpruned(ns, ds0, i, j))
  {
    forall j | 0 <= j < |ns| && IsAncestor(ns, c, j) ensures before[j] == ds0[j] {
      UnderChild(ns, i, c, j);
    }
    forall j | 0 <= j < |ns| && IsAncestor(ns, c, j) ensures Unpruned(ns, before, c, j) == Unpruned(ns, ds0, i, j) {
      UnprunedFrame(ns, before, ds0, c, j);
      UnprunedStep(ns, ds0, i, c, j);
    }
  }

  /** The walk below the child `c` of `i`, as the recursive call leaves it, extends the walk. */
  lemma WalkChild(ns: seq<Node>, ds0: seq<DepState>, before: seq<DepState>, after: seq<DepState>,
                  i: nat, ignore: bool, outs: seq<Result<seq<nat>>>, c: nat)
    requires WellFormed(ns) && |ds0| == |ns| && |before| == |ns| && |after| == |ns| && |outs| == |ns|
    requires i < |ns| && c < |ns| && ns[c].parent == i
    requires Walked(ns, ds0, before, i, ignore, outs, c)
    requires OnlyReached(ns, before, after, c, ignore, outs) && AllReached(ns, before, after, c, ignore, outs)
    ensures Walked(ns, ds0, after, i, ignore, outs, c + 1)
  {
    WalkEnter(ns, ds0, before, i, ignore, outs, c);
    forall j | 0 <= j < |ns| && after[j] != before[j] ensures IsAncestor(ns, c, j) {
      UnprunedBelow(ns, before, c, j);
    }
    forall j | 0 <= j < |ns| && Done(ns, i, j, c + 1) && Unpruned(ns, ds0, i, j)
      ensures Settled(ds0, ignore, j, outs[j], after[j])
    {
      UnderChild(ns, i, c, j);
    }
    forall j | 0 <= j < |ns| && j != i && !Done(ns, i, j, c + 1) ensures after[j] == ds0[j] {
      UnderChild(ns, i, c, j);
    }
    assert after[i] == before[i] by {
      if IsAncestor(ns, c, i) {
        AncestorRank(ns, c, i);
      }
    }
  }

  /** Whatever the recursive call on the child `c` of `i` changed, it reached from `i`. */
  lemma WalkAbort(ns: seq<Node>, ds0: seq<DepState>, before: seq<DepState>, after: seq<DepState>,
                  i: nat, ignore: bool, outs: seq<Result<seq<nat>>>, c: nat)
    requires WellFormed(ns) && |ds0| == |ns| && |before| == |ns| && |after| == |ns| && |outs| == |ns|
    requires i < |ns| && c < |ns| && ns[c].parent == i
    requires Walked(ns, ds0, before, i, ignore, outs, c)
    requires OnlyReached(ns, before, after, c, ignore, outs)
    ensures OnlyReached(ns, ds0, after, i, ignore, outs)
  {
    WalkEnter(ns, ds0, before, i, ignore, outs, c);
    forall j | 0 <= j < |ns| && after[j] != before[j] ensures IsAncestor(ns, c, j) {
      UnprunedBelow(ns, before, c, j);
    }
  }

  /** A failure below the child `c` of `i` is a failure below `i`. */
  lemma WalkFails(ns: seq<Node>, ds0: seq<DepState>, before: seq<DepState>, i: nat, ignore: bool,
                  outs: seq<Result<seq<nat>>>, c: nat, e: Error)
    requires WellFormed(ns) && |ds0| == |ns| && |before| == |ns| && |outs| == |ns|
    requires i < |ns| && c < |ns| && ns[c].parent == i
    requires Walked(ns, ds0, before, i, ignore, outs, c)
    requires FailsBelow(ns, before, c, outs, e)
    ensures FailsBelow(ns, ds0, i, outs, e)
  {
    WalkEnter(ns, ds0, before, i, ignore, outs, c);
    var j :| 0 <= j < |ns| && Unpruned(ns, before, c, j) && outs[j] == Failure(e);
    UnprunedBelow(ns, before, c, j);
  }

  /** The finished walk settles every node reached from `i`. */
  lemma WalkEnd(ns: seq<Node>, ds0: seq<DepState>, ds: seq<DepState>, i: nat, ignore: bool, outs: seq<Result<seq<nat>>>)
    requires WellFormed(ns) && |ds0| == |ns| && |ds| == |ns| && |outs| == |ns| && i < |ns|
    requires Walked(ns, ds0, ds, i, ignore, outs, |ns|)
    ensures AllReached(ns, ds0, ds, i, ignore, outs) && OnlyReached(ns, ds0, ds, i, ignore, outs)
  {
    forall j | 0 <= j < |ns| && Unpruned(ns, ds0, i, j) ensures Settled(ds0, ignore, j, outs[j], ds[j]) {
      UnprunedBelow(ns, ds0, i, j);
    }
  }

  // --------------------------------------------------------- the tree

  /** The traits of `i`'s subtree after `_update()` agree with `Updated` from another starting state. */
  lemma {:induction false} UpdatedShift(ns: seq<Node>, t0: seq<Traits>, tb: seq<Traits>, i: nat, c: nat, j: nat)
    requires WellFormed(ns) && |t0| == |ns| && |tb| == |ns| && i < |ns| && c < |ns| && j < |ns|
    requires ns[c].parent == i && IsAncestor(ns, c, j)
    requires tb[i] == Updated(ns, t0, i, i)
    requires forall k :: 0 <= k < |ns| && IsAncestor(ns, c, k) ==> tb[k] == t0[k]
    ensures IsAncestor(ns, i, j) && Updated(ns, tb, c, j) == Updated(ns, t0, i, j)
    decreases Rank(ns[j])
  {
    assert NodeOk(ns, j) && NodeOk(ns, c);
    InChild(ns, i, c, j);
    if j != c {
      UpdatedShift(ns, t0, tb, i, c, ns[j].parent);
      AncestorRank(ns, c, j);
    }
  }

  /** Below a child `c` of `i` lie exactly the nodes whose way down from `i` starts at `c`. */
  /**
   * One step of `Update`'s loop over the children: once child `c`'s
   * subtree is updated from the parent's new traits, every node below a
   * child before `c + 1` holds its updated traits and every other node
   * except `i` still holds its old ones.
   */
  lemma {:induction false} ChildUpdated(ns: seq<Node>, t0: seq<Traits>, tb: seq<Traits>, ta: seq<Traits>, i: nat, c: nat)
    requires WellFormed(ns) && |t0| == |ns| && |tb| == |ns| && |ta| == |ns| && i < |ns| && c < |ns|
    requires ns[c].parent == i
    requires tb[i] == Updated(ns, t0, i, i)
    requires forall j :: 0 <= j < |ns| && Done(ns, i, j, c) ==> tb[j] == Updated(ns, t0, i, j)
    requires forall j :: 0 <= j < |ns| && j != i && !Done(ns, i, j, c) ==> tb[j] == t0[j]
    requires forall j :: 0 <= j < |ns| && IsAncestor(ns, c, j) ==> ta[j] == Updated(ns, tb, c, j)
    requires forall j :: 0 <= j < |ns| && !IsAncestor(ns, c, j) ==> ta[j] == tb[j]
    ensures ta[i] == Updated(ns, t0, i, i)
    ensures forall j :: 0 <= j < |ns| && Done(ns, i, j, c + 1) ==> ta[j] == Updated(ns, t0, i, j)
    ensures forall j :: 0 <= j < |ns| && j != i && !Done(ns, i, j, c + 1) ==> ta[j] == t0[j]
  {
    assert NodeOk(ns, c);
    forall k | 0 <= k < |ns| && IsAncestor(ns, c, k) ensures tb[k] == t0[k] {
      InChild(ns, i, c, k);
    }
    forall j | 0 <= j < |ns| && Done(ns, i, j, c + 1)
      ensures ta[j] == Updated(ns, t0, i, j)
    {
      UnderChild(ns, i, c, j);
      if ChildToward(ns, i, j) == c {
        UpdatedShift(ns, t0, tb, i, c, j);
      }
    }
    forall j | 0 <= j < |ns| && j != i && !Done(ns, i, j, c + 1)
      ensures ta[j] == t0[j]
    {
      UnderChild(ns, i, c, j);
    }
    if IsAncestor(ns, c, i) {
      AncestorRank(ns, c, i);
    }
  }

  lemma UnderChild(ns: seq<Node>, i: nat, c: nat, j: nat)
    requires WellFormed(ns) && i < |ns| && c < |ns| && j < |ns| && ns[c].parent == i
    ensures IsAncestor(ns, c, j) <==> (j != i && IsAncestor(ns, i, j) && ChildToward(ns, i, j) == c)
  {
    if IsAncestor(ns, c, j) {
      InChild(ns, i, c, j);
    }
  }

  /**
   * The node tree: the nodes, their inherited traits and their dependency
   * state, each indexed by node.
   */
  class Tree {
    var nodes: seq<Node>
    var traits: seq<Traits>
    var deps: seq<DepState>

    predicate Valid()
      reads this
    {
      WellFormed(nodes) && |traits| == |nodes| && |deps| == |nodes| &&
      forall j :: 0 <= j < |deps| ==> InRange(nodes, deps[j].deps)
    }

    /** A tree holding one root node: the parser, or a repository before it is linked. */
    constructor(name: string, kind: NodeType)
      requires kind != OptionNode
      ensures Valid()
      ensures nodes == [Node(name, kind, name, -1, if kind == RepositoryNode then 0 else -1, None)]
      ensures traits == [InitialTraits(kind)] && deps == [DepState([], false, [])]
    {
      nodes := [Node(name, kind, name, -1, if kind == RepositoryNode then 0 else -1, None)];
      traits := [InitialTraits(kind)];
      deps := [DepState([], false, [])];
    }

    /**
     * `BaseNode.__init__` and linking to a parent: a new repository or
     * module node with its initial traits and no dependencies.
     */
    method AddNode(name: string, kind: NodeType, fullname: string, parent: int, repository: int)
      returns (i: nat)
      requires Valid() && kind != OptionNode
      requires parent == -1 || (0 <= parent < |nodes| && Rank(nodes[parent]) < Rank(Node(name, kind, fullname, parent, repository, None)))
      requires -1 <= repository <= |nodes|
      modifies this
      ensures Valid() && i == |old(nodes)|
      ensures nodes == old(nodes) + [Node(name, kind, fullname, parent, repository, None)]
      ensures traits == old(traits) + [InitialTraits(kind)]
      ensures deps == old(deps) + [DepState([], false, [])]
    {
      i := |nodes|;
      var n := Node(name, kind, fullname, parent, repository, None);
      nodes := nodes + [n];
      traits := traits + [InitialTraits(kind)];
      deps := deps + [DepState([], false, [])];
      assert NodeOk(nodes, i);
      assert forall j :: 0 <= j < i ==> NodeOk(old(nodes), j) && nodes[j] == old(nodes)[j];
    }

    /** `node.parent = p`: re-links a node below a parent ranked lower. */
    method SetParent(j: nat, p: nat)
      requires Valid() && j < |nodes| && p < |nodes| && Rank(nodes[p]) < Rank(nodes[j])
      modifies this
      ensures Valid()
      ensures nodes == old(nodes)[j := old(nodes)[j].(parent := p)]
      ensures traits == old(traits) && deps == old(deps)
    {
      nodes := nodes[j := nodes[j].(parent := p)];
      assert forall k :: 0 <= k < |nodes| && k != j ==> NodeOk(old(nodes), k) && nodes[k] == old(nodes)[k];
      assert NodeOk(old(nodes), j);
    }

    /** `add_dependencies(*names)`: the names are appended, nothing else changes. */
    method AddDependencies(i: nat, names: seq<string>)
      requires Valid() && i < |nodes|
      modifies this
      ensures Valid() && nodes == old(nodes) && traits == old(traits)
      ensures deps == old(deps)[i := old(deps)[i].(names := old(deps)[i].names + names)]
    {
      deps := deps[i := deps[i].(names := deps[i].names + names)];
    }

    /**
     * `add_option(option)`: an option named like a child of the owner is
     * refused; otherwise the option becomes a child of the owner, in the
     * owner's repository, named below the owner, and depending on it.
     */
    method AddOption(owner: nat, name: string, data: Options.OptionData) returns (r: Result<nat>)
      requires Valid() && owner < |nodes|
      modifies this
      ensures Valid()
      ensures r.Failure? <==> exists c :: 0 <= c < |old(nodes)| && old(nodes)[c].parent == owner && old(nodes)[c].name == name
      ensures r.Failure? ==> (r.error == Fail("Option name '" + name + "' is already defined") &&
        nodes == old(nodes) && traits == old(traits) && deps == old(deps))
      ensures r.Success? ==> (r.value == |old(nodes)| &&
        nodes == old(nodes) + [Node(name, OptionNode, old(nodes)[owner].fullname + ":" + name, owner,
                                    old(nodes)[owner].repository, Some(data))] &&
        traits == old(traits) + [InitialTraits(OptionNode)] &&
        deps == old(deps) + [DepState([old(nodes)[owner].fullname], false, [])])
    {
      if exists c :: 0 <= c < |nodes| && nodes[c].parent == owner && nodes[c].name == name {
        return Failure(Fail("Option name '" + name + "' is already defined"));
      }
      var i := |nodes|;
      var own := nodes[owner];
      assert NodeOk(nodes, owner);
      var n := Node(name, OptionNode, own.fullname + ":" + name, owner, own.repository, Some(data));
      nodes := nodes + [n];
      traits := traits + [InitialTraits(OptionNode)];
      deps := deps + [DepState([own.fullname], false, [])];
      assert NodeOk(nodes, i);
      assert forall j :: 0 <= j < i ==> NodeOk(old(nodes), j) && nodes[j] == old(nodes)[j];
      r := Success(i);
    }

    /**
     * The `value` setter of an option node: the option's state becomes what
     * the setter leaves. Once both conversions succeed, the dependency names
     * are marked unresolved and the handler's names appended; a handler that
     * raises appends nothing, and its exception is the setter's.
     */
    method SetOptionValue(i: nat, v: Value) returns (err: Option<Error>)
      requires Valid() && i < |nodes| && nodes[i].option.Some?
      modifies this
      ensures Valid() && traits == old(traits) && |nodes| == |old(nodes)|
      ensures var a := Options.SetValue(old(nodes)[i].option.value, old(nodes)[i].fullname, v);
        err == Options.SetterError(a) &&
        nodes == old(nodes)[i := old(nodes)[i].(option := Some(a.option))] &&
        deps == (if a.error.None?
                 then old(deps)[i := DepState(old(deps)[i].names + Options.AddedNames(a.option), false,
                                              old(deps)[i].deps)]
                 else old(deps))
    {
      assert NodeOk(nodes, i);
      var a := Options.SetValue(nodes[i].option.value, nodes[i].fullname, v);
      nodes := nodes[i := nodes[i].(option := Some(a.option))];
      assert forall k :: 0 <= k < |nodes| && k != i ==> NodeOk(old(nodes), k) && nodes[k] == old(nodes)[k];
      assert NodeOk(nodes, i);
      if a.error.Some? {
        return a.error;
      }
      var names: seq<string> := [];
      err := None;
      if a.option.handler.Some? {
        var h := a.option.handler.value(a.option.input);
        if h.Failure? {
          err := Some(h.error);
        } else {
          names := h.value;
        }
      }
      deps := deps[i := DepState(deps[i].names + names, false, deps[i].deps)];
    }

    /**
     * `_update()` on node `i`: every node of its subtree, from the top
     * down, inherits from its parent's updated traits; nothing else
     * changes.
     */
    method Update(i: nat)
      requires Valid() && i < |nodes|
      modifies this
      ensures Valid() && nodes == old(nodes) && deps == old(deps) && |traits| == |old(traits)|
      ensures forall j :: 0 <= j < |nodes| && IsAncestor(nodes, i, j) ==> traits[j] == Updated(nodes, old(traits), i, j)
      ensures forall j :: 0 <= j < |nodes| && !IsAncestor(nodes, i, j) ==> traits[j] == old(traits)[j]
      decreases MaxRank(nodes) - Rank(nodes[i])
    {
      ghost var t0 := traits;
      assert NodeOk(nodes, i);
      var p := nodes[i].parent;
      if p != -1 {
        AncestorRank(nodes, p, i) by { assert IsAncestor(nodes, p, i); }
        traits := traits[i := Inherit(traits[i], traits[p])];
      }
      var c := 0;
      while c < |nodes|
        invariant 0 <= c <= |nodes|
        invariant Valid() && nodes == old(nodes) && deps == old(deps) && |traits| == |t0|
        invariant traits[i] == Updated(nodes, t0, i, i)
        invariant forall j :: 0 <= j < |nodes| && Done(nodes, i, j, c) ==> traits[j] == Updated(nodes, t0, i, j)
        invariant forall j :: 0 <= j < |nodes| && j != i && !Done(nodes, i, j, c) ==> traits[j] == t0[j]
      {
        if nodes[c].parent == i {
          assert NodeOk(nodes, c);
          ghost var tb := traits;
          Update(c);
          ChildUpdated(nodes, t0, tb, traits, i, c);
        } else {
          forall j | 0 <= j < |nodes| && j != i && IsAncestor(nodes, i, j) && ChildToward(nodes, i, j) == c
            ensures false
          {
          }
        }
        c := c + 1;
      }
      forall j | 0 <= j < |nodes| && IsAncestor(nodes, i, j) ensures traits[j] == Updated(nodes, t0, i, j) {
        if j != i {
          assert Done(nodes, i, j, c);
        }
      }
    }

    /**
     * What `Module.__init__` sets beyond the base node: `_available` from
     * the prepared module, and its filters added to the node's filters.
     */
    method SetModuleTraits(i: nat, available: bool, filters: map<string, string>)
      requires Valid() && i < |nodes|
      modifies this
      ensures Valid() && nodes == old(nodes) && deps == old(deps)
      ensures traits == old(traits)[i := old(traits)[i].(available := available,
                                                           filters := old(traits)[i].filters + filters)]
    {
      traits := traits[i := traits[i].(available := available, filters := traits[i].filters + filters)];
    }

    /**
     * `_resolve_dependencies(ignore_failure)` on node `i`: every node of the
     * subtree reached without passing a resolved node gets the modules its
     * names resolve to, and is marked resolved unless failures are ignored.
     * The first failure stops the walk and is returned.
     */
    method ResolveDependencies(i: nat, ignore: bool) returns (err: Option<Error>)
      requires Valid() && i < |nodes|
      modifies this
      ensures Valid() && nodes == old(nodes) && traits == old(traits) && |deps| == |old(deps)|
      ensures OnlyReached(nodes, old(deps), deps, i, ignore, Outcomes(nodes, traits, old(deps), ignore, |nodes|))
      ensures err.None? ==> AllReached(nodes, old(deps), deps, i, ignore, Outcomes(nodes, traits, old(deps), ignore, |nodes|))
      ensures err.Some? ==> FailsBelow(nodes, old(deps), i, Outcomes(nodes, traits, old(deps), ignore, |nodes|), err.value)
      ensures ignore ==> err.None?
    {
      err := ResolveSubtree(i, ignore, Outcomes(nodes, traits, deps, ignore, |nodes|));
      if ignore {
        IgnoredNeverFails(nodes, traits, old(deps), i);
      }
    }

    /** The walk of `ResolveDependencies` with the outcomes of all nodes fixed at the start. */
    method ResolveSubtree(i: nat, ignore: bool, ghost outs: seq<Result<seq<nat>>>) returns (err: Option<Error>)
      requires Valid() && i < |nodes| && outs == Outcomes(nodes, traits, deps, ignore, |nodes|)
      modifies this
      ensures Valid() && nodes == old(nodes) && traits == old(traits) && |deps| == |old(deps)|
      ensures OnlyReached(nodes, old(deps), deps, i, ignore, outs)
      ensures err.None? ==> AllReached(nodes, old(deps), deps, i, ignore, outs)
      ensures err.Some? ==> FailsBelow(nodes, old(deps), i, outs, err.value)
      decreases MaxRank(nodes) - Rank(nodes[i]), 1
    {
      if deps[i].resolved {
        forall j | 0 <= j < |deps| && Unpruned(nodes, deps, i, j) ensures false {
          UnprunedTop(nodes, deps, i, j);
        }
        Unchanged(nodes, deps, i, ignore, outs);
        return None;
      }
      ghost var ds0 := deps;
      var r := Resolution(nodes, traits, i, deps[i].names, ignore);
      assert outs[i] == r;
      if r.Failure? {
        assert Unpruned(nodes, ds0, i, i);
        Unchanged(nodes, deps, i, ignore, outs);
        return Some(r.error);
      }
      WalkStart(nodes, ds0, i, ignore, outs);
      deps := deps[i := DepState(deps[i].names, !ignore, r.value)];
      err := ResolveChildren(i, ignore, ds0, outs);
    }

    /** The loop of `_resolve_dependencies` over the children of `i`, once `i` itself is settled. */
    method ResolveChildren(i: nat, ignore: bool, ghost ds0: seq<DepState>, ghost outs: seq<Result<seq<nat>>>)
      returns (err: Option<Error>)
      requires Valid() && i < |nodes| && |ds0| == |nodes| && outs == Outcomes(nodes, traits, ds0, ignore, |nodes|)
      requires Walked(nodes, ds0, deps, i, ignore, outs, 0)
      modifies this
      ensures Valid() && nodes == old(nodes) && traits == old(traits) && |deps| == |old(deps)|
      ensures OnlyReached(nodes, ds0, deps, i, ignore, outs)
      ensures err.None? ==> AllReached(nodes, ds0, deps, i, ignore, outs)
      ensures err.Some? ==> FailsBelow(nodes, ds0, i, outs, err.value)
      decreases MaxRank(nodes) - Rank(nodes[i]), 0
    {
      var c := 0;
      while c < |nodes|
        invariant 0 <= c <= |nodes|
        invariant Valid() && nodes == old(nodes) && traits == old(traits) && |deps| == |ds0|
        invariant Walked(nodes, ds0, deps, i, ignore, outs, c)
      {
        if nodes[c].parent == i {
          assert NodeOk(nodes, c);
          ghost var before := deps;
          OutcomesNames(nodes, traits, before, ds0, ignore, |nodes|);
          var e := ResolveSubtree(c, ignore, outs);
          if e.Some? {
            WalkFails(nodes, ds0, before, i, ignore, outs, c, e.value);
            WalkAbort(nodes, ds0, before, deps, i, ignore, outs, c);
            return e;
          }
          WalkChild(nodes, ds0, before, deps, i, ignore, outs, c);
        } else {
          WalkSkip(nodes, ds0, deps, i, ignore, outs, c);
        }
        c := c + 1;
      }
      WalkEnd(nodes, ds0, deps, i, ignore, outs);
      return None;
    }

    /**
     * `dependencies`: resolves the subtree first when the node is not
     * resolved, then the node's own modules followed by those of its
     * options, leaving the node itself out of the latter.
     */
    method Dependencies(i: nat) returns (r: Result<seq<nat>>)
      requires Valid() && i < |nodes|
      modifies this
      ensures Valid() && nodes == old(nodes) && traits == old(traits) && |deps| == |old(deps)|
      ensures old(deps)[i].resolved ==> deps == old(deps)
      ensures r.Success? ==> deps[i].resolved && r.value == deps[i].deps + OptionDeps(nodes, traits, deps, i)
      ensures r.Success? && !old(deps)[i].resolved ==>
        Settled(old(deps), false, i, Resolution(nodes, traits, i, old(deps)[i].names, false), deps[i]) &&
        AllReached(nodes, old(deps), deps, i, false, Outcomes(nodes, traits, old(deps), false, |nodes|))
      ensures r.Failure? ==> FailsBelow(nodes, old(deps), i, Outcomes(nodes, traits, old(deps), false, |nodes|), r.error)
    {
      if !deps[i].resolved {
        var err := ResolveDependencies(i, false);
        if err.Some? {
          return Failure(err.value);
        }
        assert Unpruned(nodes, old(deps), i, i);
      }
      r := Success(deps[i].deps + OptionDeps(nodes, traits, deps, i));
    }
  }
}
