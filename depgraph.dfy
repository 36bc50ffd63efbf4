/*
 * lbuild's dependency graph in the DOT language: identifiers, one box per
 * module grouped in a subgraph per repository, and one edge from each
 * module to each of its dependencies. The modules, the selection and the
 * number of all modules are inputs; finding and resolving them belongs to
 * the parser.
 */
module DependencyGraph {
  import opened Errors
  import Text
  import Sorting
  import Options

  // ------------------------------------------------------------ identifiers

  /** An ASCII word character, `\w`. */
  predicate IsWordChar(c: char)
  {
    'a' <= c <= 'z' || 'A' <= c <= 'Z' || '0' <= c <= '9' || c == '_'
  }

  predicate IsDigit(c: char)
  {
    '0' <= c <= '9'
  }

  /** A DOT identifier: word characters only, not starting with a digit. */
  predicate IsIdentifier(s: string)
  {
    (forall k :: 0 <= k < |s| ==> IsWordChar(s[k])) && (|s| > 0 ==> !IsDigit(s[0]))
  }

  /**
   * `get_valid_identifier(name)`, the substitution `\W|^(?=\d)` -> `_`:
   * every non-word character becomes `_`, and a leading digit gets a `_`
   * before it.
   */
  function Identifier(name: string): (r: string)
    ensures IsIdentifier(r)
    ensures |r| == |name| + (if |name| > 0 && IsDigit(name[0]) then 1 else 0)
  {
    var body := seq(|name|, k requires 0 <= k < |name| => if IsWordChar(name[k]) then name[k] else '_');
    if |name| > 0 && IsDigit(name[0]) then "_" + body else body
  }

  /** A name that is already an identifier is kept as it is; so the substitution is idempotent. */
  lemma IdentifierKeeps(name: string)
    requires IsIdentifier(name)
    ensures Identifier(name) == name
  {
  }

  /** Each character is kept when it is a word character and replaced by `_` otherwise. */
  lemma IdentifierAt(name: string, k: nat)
    requires k < |name|
    ensures var shift := if IsDigit(name[0]) then 1 else 0;
      Identifier(name)[k + shift] == (if IsWordChar(name[k]) then name[k] else '_')
  {
  }

  lemma IdentifierExample()
    ensures Identifier("repo:module2") == "repo_module2"
    ensures Identifier("2nd-repo") == "_2nd_repo"
  {
  }

  // ------------------------------------------------------------ graph input

  /** A module as the graph sees it: its full name and the full names of its dependencies. */
  datatype GraphModule = GraphModule(fullname: string, dependencies: seq<string>)

  /** `module.repository.name`: the first segment of the full name. */
  function RepoOf(m: GraphModule): string
  {
    Text.FirstField(m.fullname, ':')
  }

  /** Modules sort by full name. */
  function NameKey(m: GraphModule): seq<string>
  {
    [m.fullname]
  }

  /** The full names of the modules, for `dep in modules`. */
  function Names(mods: seq<GraphModule>): (r: seq<string>)
    ensures |r| == |mods| && forall k :: 0 <= k < |mods| ==> r[k] == mods[k].fullname
  {
    seq(|mods|, k requires 0 <= k < |mods| => mods[k].fullname)
  }

  function RepoList(mods: seq<GraphModule>): (r: seq<string>)
    ensures |r| == |mods| && forall k :: 0 <= k < |mods| ==> r[k] == RepoOf(mods[k])
  {
    seq(|mods|, k requires 0 <= k < |mods| => RepoOf(mods[k]))
  }

  /** The keys of the `repositories` dictionary: each repository once, in order of first appearance. */
  function Repos(mods: seq<GraphModule>): seq<string>
  {
    Options.Dedup(RepoList(mods))
  }

  /** `repositories[repo]`: the modules of one repository, in input order. */
  function ModulesIn(mods: seq<GraphModule>, repo: string): (r: seq<GraphModule>)
    ensures forall m :: m in r <==> m in mods && RepoOf(m) == repo
  {
    if |mods| == 0 then []
    else
      var n := |mods| - 1;
      assert mods == mods[..n] + [mods[n]];
      ModulesIn(mods[..n], repo) + (if RepoOf(mods[n]) == repo then [mods[n]] else [])
  }

  // ------------------------------------------------------------ node boxes

  /** The box label: the name's segments joined by a DOT line break, without the repository when clustered. */
  function Label(fullname: string, clustered: bool): string
  {
    var parts := Text.Split(fullname, ":");
    Text.Join(if clustered then parts[1..] else parts, ":\\n")
  }

  /** The unclustered label is the repository, a line break and the clustered label. */
  lemma LabelDropsRepository(fullname: string)
    requires ':' in fullname
    ensures Label(fullname, false) == Text.FirstField(fullname, ':') + ":\\n" + Label(fullname, true)
  {
    Text.FindChar(fullname, ':');
    var parts := Text.Split(fullname, ":");
    var i := Text.Find(fullname, ":").value;
    assert parts == [fullname[..i]] + Text.Split(fullname[i + 1..], ":");
    Text.JoinCons(parts[0], parts[1..], ":\\n");
    assert [parts[0]] + parts[1..] == parts;
  }

  /**
   * The box style when not every module is shown: bold for a selected
   * module, dashed when a dependency lies outside the shown modules, solid
   * otherwise; no style when every module is shown.
   */
  function Style(m: GraphModule, allSelected: bool, selected: seq<string>, names: seq<string>): Option<string>
  {
    if allSelected then None
    else if m.fullname in selected then Some("filled,bold")
    else if exists d :: d in m.dependencies && d !in names then Some("filled,dashed")
    else Some("filled,solid")
  }

  function Attributes(m: GraphModule, clustered: bool, allSelected: bool,
                      selected: seq<string>, names: seq<string>): seq<string>
  {
    var style := Style(m, allSelected, selected, names);
    ["label=\"" + Label(m.fullname, clustered) + "\""] +
    (if style.Some? then ["style=\"" + style.value + "\""] else [])
  }

  function NodeLine(m: GraphModule, clustered: bool, allSelected: bool,
                    selected: seq<string>, names: seq<string>): string
  {
    "\t\t" + Identifier(m.fullname) + " [" + Text.Join(Attributes(m, clustered, allSelected, selected, names), ", ") + "];"
  }

  function NodeLines(ms: seq<GraphModule>, clustered: bool, allSelected: bool,
                     selected: seq<string>, names: seq<string>): (r: seq<string>)
    ensures |r| == |ms|
  {
    if |ms| == 0 then []
    else
      var n := |ms| - 1;
      NodeLines(ms[..n], clustered, allSelected, selected, names) + [NodeLine(ms[n], clustered, allSelected, selected, names)]
  }

  /** The opening lines of a repository's subgraph. */
  function ClusterHead(repo: string, clustered: bool): seq<string>
  {
    [(if clustered then "\tsubgraph cluster" else "\tsubgraph ") + Identifier(repo),
     "\t{",
     "\t\tlabel = \"" + repo + "\";",
     "\t\tnode [style=filled, shape=box];",
     ""]
  }

  /** A repository's subgraph around the boxes of its modules, given in the order drawn. */
  function Cluster(repo: string, rmods: seq<GraphModule>, clustered: bool, allSelected: bool,
                   selected: seq<string>, names: seq<string>): seq<string>
  {
    ClusterHead(repo, clustered) + NodeLines(rmods, clustered, allSelected, selected, names) + ["\t}"]
  }

  /** The subgraphs of the repositories in turn, each with its modules in the order drawn. */
  function Clusters(cs: seq<(string, seq<GraphModule>)>, clustered: bool, allSelected: bool,
                    selected: seq<string>, names: seq<string>): seq<string>
  {
    if |cs| == 0 then []
    else
      var n := |cs| - 1;
      Clusters(cs[..n], clustered, allSelected, selected, names) +
      Cluster(cs[n].0, cs[n].1, clustered, allSelected, selected, names)
  }

  /** Each repository with its modules sorted by full name. */
  function GroupingOf(repos: seq<string>, mods: seq<GraphModule>): (r: seq<(string, seq<GraphModule>)>)
    ensures |r| == |repos|
  {
    if |repos| == 0 then []
    else
      var n := |repos| - 1;
      GroupingOf(repos[..n], mods) + [(repos[n], Sorting.Sort(ModulesIn(mods, repos[n]), NameKey))]
  }

  // ------------------------------------------------------------ edges

  /** An edge is drawn when every module is shown or the dependency is among the shown modules. */
  predicate Shown(d: string, allSelected: bool, names: seq<string>)
  {
    allSelected || d in names
  }

  /** The edges from module `a` to each of `deps` that is drawn, in order. */
  function DepEdges(a: string, deps: seq<string>, allSelected: bool, names: seq<string>): seq<(string, string)>
  {
    if |deps| == 0 then []
    else
      var n := |deps| - 1;
      DepEdges(a, deps[..n], allSelected, names) + (if Shown(deps[n], allSelected, names) then [(a, deps[n])] else [])
  }

  /** The edges of each module in turn, each in the order of its dependencies. */
  function Edges(ms: seq<GraphModule>, allSelected: bool, names: seq<string>): seq<(string, string)>
  {
    if |ms| == 0 then []
    else
      var n := |ms| - 1;
      Edges(ms[..n], allSelected, names) + DepEdges(ms[n].fullname, ms[n].dependencies, allSelected, names)
  }

  /** A module with its dependencies sorted by full name. */
  function SortDeps(m: GraphModule): GraphModule
  {
    GraphModule(m.fullname, Sorting.Sort(m.dependencies, Sorting.Single))
  }

  /** The modules in the order their edges are drawn: sorted, each with its dependencies sorted. */
  function WithSortedDeps(ms: seq<GraphModule>): (r: seq<GraphModule>)
    ensures |r| == |ms|
  {
    seq(|ms|, k requires 0 <= k < |ms| => SortDeps(ms[k]))
  }

  /** `A -> B;`: from the module to its dependency. */
  function EdgeLine(e: (string, string)): string
  {
    "\t" + Identifier(e.0) + " -> " + Identifier(e.1) + ";"
  }

  /** The lines of the edges, one each, in order. */
  function EdgeLines(edges: seq<(string, string)>): (r: seq<string>)
    ensures |r| == |edges|
  {
    MapLines(edges, EdgeLine)
  }

  /** One line per element, in order. */
  function MapLines<A>(xs: seq<A>, line: A -> string): (r: seq<string>)
    ensures |r| == |xs|
  {
    if |xs| == 0 then [] else MapLines(xs[..|xs| - 1], line) + [line(xs[|xs| - 1])]
  }

  // ------------------------------------------------------------ the graph

  const Header: seq<string> := ["digraph dependencies", "{", "\trankdir=BT;"]

  /** `clustered` defaults to having more than one repository. */
  function IsClustered(mods: seq<GraphModule>, clustered: Option<bool>): bool
  {
    if clustered.Some? then clustered.value else |Repos(mods)| > 1
  }

  /**
   * The lines of `graphviz(...)`: the header, one subgraph per repository,
   * the edges of the modules sorted by full name, and the closing brace.
   * Every module is shown when the resolved modules are as many as all modules.
   */
  function GraphLines(mods: seq<GraphModule>, selected: seq<string>, allCount: nat,
                      clustered: Option<bool>): (r: seq<string>)
    ensures |r| >= 4 && r[..3] == Header && r[|r| - 1] == "}"
  {
    var names := Names(mods);
    var allSelected := allCount == |mods|;
    Header + Clusters(GroupingOf(Repos(mods), mods), IsClustered(mods, clustered), allSelected, selected, names) +
    EdgeLines(Edges(WithSortedDeps(Sorting.Sort(mods, NameKey)), allSelected, names)) + ["}"]
  }

  // ------------------------------------------------------------ properties

  /** A module's edges are those to its drawn dependencies. */
  lemma {:induction false} DepEdgesSpec(a: string, deps: seq<string>, allSelected: bool, names: seq<string>)
    ensures forall e :: e in DepEdges(a, deps, allSelected, names) <==>
      e.0 == a && e.1 in deps && Shown(e.1, allSelected, names)
    decreases |deps|
  {
    if |deps| > 0 {
      var n := |deps| - 1;
      DepEdgesSpec(a, deps[..n], allSelected, names);
      assert deps == deps[..n] + [deps[n]];
    }
  }

  /** The edges are exactly the pairs of a module and a drawn dependency of it. */
  lemma {:induction false} EdgesSpec(ms: seq<GraphModule>, allSelected: bool, names: seq<string>)
    ensures forall e :: e in Edges(ms, allSelected, names) <==>
      exists m :: m in ms && e.0 == m.fullname && e.1 in m.dependencies && Shown(e.1, allSelected, names)
    decreases |ms|
  {
    if |ms| > 0 {
      var n := |ms| - 1;
      EdgesSpec(ms[..n], allSelected, names);
      DepEdgesSpec(ms[n].fullname, ms[n].dependencies, allSelected, names);
      assert ms == ms[..n] + [ms[n]];
    }
  }

  /**
   * The graph draws an edge from module `a` to `d` exactly when `a` is one
   * of the modules, `d` one of its dependencies, and either every module
   * is shown or `d` is among the shown modules.
   */
  lemma GraphEdges(mods: seq<GraphModule>, allCount: nat)
    ensures var names := Names(mods);
      var allSelected := allCount == |mods|;
      forall e :: e in Edges(WithSortedDeps(Sorting.Sort(mods, NameKey)), allSelected, names) <==>
        exists m :: m in mods && e.0 == m.fullname && e.1 in m.dependencies && Shown(e.1, allSelected, names)
  {
    var names := Names(mods);
    var allSelected := allCount == |mods|;
    var drawn := WithSortedDeps(Sorting.Sort(mods, NameKey));
    EdgesSpec(drawn, allSelected, names);
    forall e: (string, string) | e in Edges(drawn, allSelected, names)
      ensures exists m :: m in mods && e.0 == m.fullname && e.1 in m.dependencies && Shown(e.1, allSelected, names)
    {
      var m' :| m' in drawn && e.0 == m'.fullname && e.1 in m'.dependencies && Shown(e.1, allSelected, names);
      var m := DrawnFromMods(mods, m');
      SortDepsSame(m, e.1);
    }
    forall e: (string, string) | exists m :: m in mods && e.0 == m.fullname && e.1 in m.dependencies && Shown(e.1, allSelected, names)
      ensures e in Edges(drawn, allSelected, names)
    {
      var m :| m in mods && e.0 == m.fullname && e.1 in m.dependencies && Shown(e.1, allSelected, names);
      ModsDrawn(mods, m);
      SortDepsSame(m, e.1);
    }
  }

  /** Each module drawn with edges is one of the modules, its dependencies sorted. */
  lemma DrawnFromMods(mods: seq<GraphModule>, m': GraphModule) returns (m: GraphModule)
    requires m' in WithSortedDeps(Sorting.Sort(mods, NameKey))
    ensures m in mods && m' == SortDeps(m)
  {
    var sorted := Sorting.Sort(mods, NameKey);
    var k :| 0 <= k < |sorted| && WithSortedDeps(sorted)[k] == m';
    m := sorted[k];
    assert m in multiset(sorted);
  }

  /** Each module is drawn with edges, its dependencies sorted. */
  lemma ModsDrawn(mods: seq<GraphModule>, m: GraphModule)
    requires m in mods
    ensures SortDeps(m) in WithSortedDeps(Sorting.Sort(mods, NameKey))
  {
    var sorted := Sorting.Sort(mods, NameKey);
    assert m in multiset(sorted);
    var k :| 0 <= k < |sorted| && sorted[k] == m;
    assert WithSortedDeps(sorted)[k] == SortDeps(m);
  }

  /** Sorting the dependencies keeps the same dependencies. */
  lemma SortDepsSame(m: GraphModule, d: string)
    ensures SortDeps(m).fullname == m.fullname
    ensures d in SortDeps(m).dependencies <==> d in m.dependencies
  {
    assert d in SortDeps(m).dependencies <==> d in multiset(SortDeps(m).dependencies);
  }

  /**
   * When not every module is shown, an unselected module's box is dashed
   * exactly when one of its edges is missing from the graph.
   */
  lemma DashedIffEdgeMissing(mods: seq<GraphModule>, allCount: nat, selected: seq<string>, m: GraphModule)
    requires m in mods && allCount != |mods| && m.fullname !in selected
    ensures Style(m, false, selected, Names(mods)) == Some("filled,dashed") <==>
      exists d :: d in m.dependencies &&
        (m.fullname, d) !in Edges(WithSortedDeps(Sorting.Sort(mods, NameKey)), false, Names(mods))
  {
    var names := Names(mods);
    var drawn := Edges(WithSortedDeps(Sorting.Sort(mods, NameKey)), false, names);
    if Style(m, false, selected, names) == Some("filled,dashed") {
      var d :| d in m.dependencies && d !in names;
      EdgeDrawn(mods, allCount, (m.fullname, d));
    } else {
      forall d | d in m.dependencies ensures (m.fullname, d) in drawn {
        EdgeDrawn(mods, allCount, (m.fullname, d));
      }
    }
  }

  /** One edge of the graph, as `GraphEdges` states for all. */
  lemma EdgeDrawn(mods: seq<GraphModule>, allCount: nat, e: (string, string))
    ensures e in Edges(WithSortedDeps(Sorting.Sort(mods, NameKey)), allCount == |mods|, Names(mods)) <==>
      exists m :: m in mods && e.0 == m.fullname && e.1 in m.dependencies && Shown(e.1, allCount == |mods|, Names(mods))
  {
    GraphEdges(mods, allCount);
  }

  /** The modules of the repositories, taken repository by repository. */
  function Grouped(repos: seq<string>, mods: seq<GraphModule>): seq<GraphModule>
  {
    if |repos| == 0 then [] else Grouped(repos[..|repos| - 1], mods) + ModulesIn(mods, repos[|repos| - 1])
  }

  lemma {:induction false} GroupedSnoc(repos: seq<string>, mods: seq<GraphModule>, m: GraphModule)
    requires forall i, j :: 0 <= i < j < |repos| ==> repos[i] != repos[j]
    ensures multiset(Grouped(repos, mods + [m])) ==
      multiset(Grouped(repos, mods)) + (if RepoOf(m) in repos then multiset{m} else multiset{})
    decreases |repos|
  {
    if |repos| > 0 {
      var n := |repos| - 1;
      GroupedSnoc(repos[..n], mods, m);
      assert (mods + [m])[..|mods|] == mods;
      assert RepoOf(m) in repos <==> RepoOf(m) in repos[..n] || RepoOf(m) == repos[n];
    }
  }

  lemma {:induction false} GroupedEmpty(repos: seq<string>, mods: seq<GraphModule>)
    requires |mods| == 0
    ensures Grouped(repos, mods) == []
    decreases |repos|
  {
    if |repos| > 0 {
      GroupedEmpty(repos[..|repos| - 1], mods);
    }
  }

  /** With every repository listed once, grouping is a permutation of the modules. */
  lemma {:induction false} GroupedPermutation(repos: seq<string>, mods: seq<GraphModule>)
    requires forall i, j :: 0 <= i < j < |repos| ==> repos[i] != repos[j]
    requires forall k :: 0 <= k < |mods| ==> RepoOf(mods[k]) in repos
    ensures multiset(Grouped(repos, mods)) == multiset(mods)
    decreases |mods|
  {
    if |mods| == 0 {
      GroupedEmpty(repos, mods);
    } else {
      var n := |mods| - 1;
      var init := mods[..n];
      assert forall k :: 0 <= k < |init| ==> init[k] == mods[k];
      GroupedPermutation(repos, init);
      GroupedSnoc(repos, init, mods[n]);
      assert mods == init + [mods[n]];
      assert multiset(mods) == multiset(init) + multiset{mods[n]};
    }
  }

  /** The modules boxed in the subgraphs, in the order drawn. */
  function Boxes(cs: seq<(string, seq<GraphModule>)>): seq<GraphModule>
  {
    if |cs| == 0 then [] else Boxes(cs[..|cs| - 1]) + cs[|cs| - 1].1
  }

  lemma {:induction false} BoxesGrouped(repos: seq<string>, mods: seq<GraphModule>)
    ensures multiset(Boxes(GroupingOf(repos, mods))) == multiset(Grouped(repos, mods))
    decreases |repos|
  {
    if |repos| > 0 {
      var n := |repos| - 1;
      assert GroupingOf(repos, mods)[..n] == GroupingOf(repos[..n], mods);
      BoxesGrouped(repos[..n], mods);
    }
  }

  /** Every module gets exactly one box: the subgraphs together hold each module once. */
  lemma EachModuleOneBox(mods: seq<GraphModule>)
    ensures multiset(Boxes(GroupingOf(Repos(mods), mods))) == multiset(mods)
  {
    var repos := Repos(mods);
    forall k | 0 <= k < |mods| ensures RepoOf(mods[k]) in repos {
      assert RepoList(mods)[k] == RepoOf(mods[k]);
    }
    GroupedPermutation(repos, mods);
    BoxesGrouped(repos, mods);
  }

  // ------------------------------------------------------------ emission

  /**
   * `graphviz(builder, selected_modules, depth, clustered)` over the
   * resolved modules `mods`: groups the modules by repository, emits a
   * subgraph per repository and then the edges, line by line.
   */
  method Graphviz(mods: seq<GraphModule>, selected: seq<string>, allCount: nat, clustered: Option<bool>)
    returns (r: string)
    ensures r == Text.Join(GraphLines(mods, selected, allCount, clustered), "\n")
  {
    var names := Names(mods);
    var allSelected := allCount == |mods|;
    var order, groups := GroupByRepository(mods);
    var isClustered := if clustered.Some? then clustered.value else |order| > 1;
    var output := EmitClusters(Header, order, groups, mods, isClustered, allSelected, selected, names);
    output := EmitEdges(output, Sorting.Sort(mods, NameKey), allSelected, names);
    output := output + ["}"];
    r := Text.Join(output, "\n");
  }

  /** The loop filling `repositories`: each module appended to its repository's list. */
  method GroupByRepository(mods: seq<GraphModule>) returns (order: seq<string>, groups: map<string, seq<GraphModule>>)
    ensures order == Repos(mods)
    ensures forall repo :: repo in groups <==> repo in order
    ensures forall repo :: repo in groups ==> groups[repo] == ModulesIn(mods, repo)
  {
    order := [];
    groups := map[];
    for i := 0 to |mods|
      invariant order == Repos(mods[..i])
      invariant forall repo :: repo in groups <==> repo in order
      invariant forall repo :: ModulesIn(mods[..i], repo) == (if repo in groups then groups[repo] else [])
    {
      var m := mods[i];
      var repo := RepoOf(m);
      assert mods[..i + 1][..i] == mods[..i];
      assert RepoList(mods[..i + 1])[..i] == RepoList(mods[..i]);
      if repo in groups {
        groups := groups[repo := groups[repo] + [m]];
      } else {
        groups := groups[repo := [m]];
        order := order + [repo];
      }
    }
    assert mods[..|mods|] == mods;
  }

  lemma ClustersSnoc(cs: seq<(string, seq<GraphModule>)>, c: (string, seq<GraphModule>), clustered: bool,
                     allSelected: bool, selected: seq<string>, names: seq<string>)
    ensures Clusters(cs + [c], clustered, allSelected, selected, names) ==
      Clusters(cs, clustered, allSelected, selected, names) + Cluster(c.0, c.1, clustered, allSelected, selected, names)
  {
    assert (cs + [c])[..|cs|] == cs;
  }

  /** The loop over `repositories`: one subgraph per repository, its modules sorted. */
  method EmitClusters(prefix: seq<string>, order: seq<string>, groups: map<string, seq<GraphModule>>,
                      mods: seq<GraphModule>, clustered: bool, allSelected: bool,
                      selected: seq<string>, names: seq<string>) returns (output: seq<string>)
    requires forall repo :: repo in order ==> repo in groups && groups[repo] == ModulesIn(mods, repo)
    ensures output == prefix + Clusters(GroupingOf(order, mods), clustered, allSelected, selected, names)
  {
    output := prefix;
    for i := 0 to |order|
      invariant output == prefix + Clusters(GroupingOf(order[..i], mods), clustered, allSelected, selected, names)
    {
      var repo := order[i];
      var rmods := Sorting.Sort(groups[repo], NameKey);
      var lines := EmitCluster(repo, rmods, clustered, allSelected, selected, names);
      ClustersStep(prefix, order, i, mods, lines, clustered, allSelected, selected, names);
      output := output + lines;
    }
    assert order[..|order|] == order;
  }

  /** One more repository extends the output by its subgraph. */
  lemma ClustersStep(prefix: seq<string>, order: seq<string>, i: nat, mods: seq<GraphModule>, lines: seq<string>,
                     clustered: bool, allSelected: bool, selected: seq<string>, names: seq<string>)
    requires i < |order|
    requires lines == Cluster(order[i], Sorting.Sort(ModulesIn(mods, order[i]), NameKey), clustered, allSelected, selected, names)
    ensures prefix + Clusters(GroupingOf(order[..i], mods), clustered, allSelected, selected, names) + lines ==
      prefix + Clusters(GroupingOf(order[..i + 1], mods), clustered, allSelected, selected, names)
  {
    var c := (order[i], Sorting.Sort(ModulesIn(mods, order[i]), NameKey));
    GroupingSnoc(order, i, mods);
    ClustersSnoc(GroupingOf(order[..i], mods), c, clustered, allSelected, selected, names);
    AppendStep(prefix, Clusters(GroupingOf(order[..i], mods), clustered, allSelected, selected, names),
               Clusters(GroupingOf(order[..i + 1], mods), clustered, allSelected, selected, names), lines);
  }

  lemma GroupingSnoc(order: seq<string>, i: nat, mods: seq<GraphModule>)
    requires i < |order|
    ensures GroupingOf(order[..i + 1], mods) ==
      GroupingOf(order[..i], mods) + [(order[i], Sorting.Sort(ModulesIn(mods, order[i]), NameKey))]
  {
    assert order[..i + 1][..i] == order[..i];
  }

  lemma AppendStep<T>(prefix: seq<T>, a: seq<T>, b: seq<T>, x: seq<T>)
    requires b == a + x
    ensures prefix + a + x == prefix + b
  {
  }

  /** One repository's subgraph: its heading, a box per module, the closing brace. */
  method EmitCluster(repo: string, rmods: seq<GraphModule>, clustered: bool, allSelected: bool,
                     selected: seq<string>, names: seq<string>) returns (lines: seq<string>)
    ensures lines == Cluster(repo, rmods, clustered, allSelected, selected, names)
  {
    var nodes := EmitNodes([], rmods, clustered, allSelected, selected, names);
    lines := ClusterHead(repo, clustered) + nodes + ["\t}"];
  }

  /** The loop over a repository's sorted modules: one box each. */
  method EmitNodes(prefix: seq<string>, rmods: seq<GraphModule>, clustered: bool, allSelected: bool,
                   selected: seq<string>, names: seq<string>) returns (output: seq<string>)
    ensures output == prefix + NodeLines(rmods, clustered, allSelected, selected, names)
  {
    output := prefix;
    for j := 0 to |rmods|
      invariant output == prefix + NodeLines(rmods[..j], clustered, allSelected, selected, names)
    {
      output := output + [NodeLine(rmods[j], clustered, allSelected, selected, names)];
      assert rmods[..j + 1][..j] == rmods[..j];
    }
    assert rmods[..|rmods|] == rmods;
  }

  lemma {:induction false} MapLinesAppend<A>(x: seq<A>, y: seq<A>, line: A -> string)
    ensures MapLines(x + y, line) == MapLines(x, line) + MapLines(y, line)
    decreases |y|
  {
    if |y| == 0 {
      assert x + y == x;
    } else {
      var n := |y| - 1;
      MapLinesAppend(x, y[..n], line);
      assert (x + y)[..|x + y| - 1] == x + y[..n];
    }
  }

  lemma EdgesSnoc(ms: seq<GraphModule>, m: GraphModule, allSelected: bool, names: seq<string>)
    ensures Edges(ms + [m], allSelected, names) ==
      Edges(ms, allSelected, names) + DepEdges(m.fullname, m.dependencies, allSelected, names)
  {
    assert (ms + [m])[..|ms|] == ms;
  }

  /** One more module's edges extend the output by their lines. */
  lemma EdgesStep(prefix: seq<string>, done: seq<GraphModule>, m: GraphModule, lines: seq<string>,
                  allSelected: bool, names: seq<string>)
    requires lines == [] + EdgeLines(DepEdges(m.fullname, m.dependencies, allSelected, names))
    ensures prefix + EdgeLines(Edges(done, allSelected, names)) + lines ==
      prefix + EdgeLines(Edges(done + [m], allSelected, names))
  {
    EdgesSnoc(done, m, allSelected, names);
    MapLinesAppend(Edges(done, allSelected, names), DepEdges(m.fullname, m.dependencies, allSelected, names), EdgeLine);
  }

  /** The edge loops over the sorted modules: for each, its sorted dependencies. */
  method EmitEdges(prefix: seq<string>, ms: seq<GraphModule>, allSelected: bool, names: seq<string>)
    returns (output: seq<string>)
    ensures output == prefix + EdgeLines(Edges(WithSortedDeps(ms), allSelected, names))
  {
    output := prefix;
    ghost var done: seq<GraphModule> := [];
    for i := 0 to |ms|
      invariant |done| == i
      invariant forall k :: 0 <= k < i ==> done[k] == SortDeps(ms[k])
      invariant output == prefix + EdgeLines(Edges(done, allSelected, names))
    {
      var a := ms[i].fullname;
      var deps := Sorting.Sort(ms[i].dependencies, Sorting.Single);
      var lines := EmitDepEdges([], a, deps, allSelected, names);
      EdgesStep(prefix, done, GraphModule(a, deps), lines, allSelected, names);
      output := output + lines;
      done := done + [GraphModule(a, deps)];
    }
    assert done == WithSortedDeps(ms);
  }

  /** The inner edge loop: `A -> B;` for each drawn dependency `B` of `A`. */
  method EmitDepEdges(prefix: seq<string>, a: string, deps: seq<string>, allSelected: bool, names: seq<string>)
    returns (output: seq<string>)
    ensures output == prefix + EdgeLines(DepEdges(a, deps, allSelected, names))
  {
    output := prefix;
    for j := 0 to |deps|
      invariant output == prefix + EdgeLines(DepEdges(a, deps[..j], allSelected, names))
    {
      ghost var done := DepEdges(a, deps[..j], allSelected, names);
      assert deps[..j + 1][..j] == deps[..j];
      if allSelected || deps[j] in names {
        var e := (a, deps[j]);
        assert DepEdges(a, deps[..j + 1], allSelected, names) == done + [e];
        assert (done + [e])[..|done|] == done;
        output := output + [EdgeLine(e)];
      } else {
        assert DepEdges(a, deps[..j + 1], allSelected, names) == done + [];
        assert done + [] == done;
      }
    }
    assert deps[..|deps|] == deps;
  }
}
