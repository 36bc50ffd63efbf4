/*
 * lbuild/parser.py: the parser node that loads repositories, merges the
 * configured options, prepares and links the modules, closes a module
 * selection under its dependencies and schedules the build phases.
 */
module Parser {
  import opened Errors
  import opened PyValue
  import NodeTree
  import Modules
  import Utils
  import Text
  import Options
  import Config

  // ------------------------------------------------ _filter_dependencies

  /** Every index of `xs` names a node of the graph. */
  predicate InGraph(graph: seq<seq<nat>>, xs: seq<nat>)
  {
    forall k :: 0 <= k < |xs| ==> xs[k] < |graph|
  }

  /** Every dependency names a node of the graph. */
  predicate GraphOk(graph: seq<seq<nat>>)
  {
    forall m :: 0 <= m < |graph| ==> InGraph(graph, graph[m])
  }

  function Members(xs: seq<nat>): set<nat>
  {
    set x | x in xs
  }

  /** No module occurs twice. */
  predicate Distinct(xs: seq<nat>)
  {
    forall p, q :: 0 <= p < q < |xs| ==> xs[p] != xs[q]
  }

  /** The dependencies of the modules of `w`. */
  function Successors(graph: seq<seq<nat>>, w: set<nat>): set<nat>
  {
    set m, d | m in w && 0 <= m < |graph| && d in graph[m] :: d
  }

  /** The modules at most `n` dependency steps away from a requested one. */
  function Within(graph: seq<seq<nat>>, requested: seq<nat>, n: nat): set<nat>
  {
    if n == 0 then Members(requested)
    else
      var w := Within(graph, requested, n - 1);
      w + Successors(graph, w)
  }

  /** No dependency of a member lies outside. */
  predicate Closed(graph: seq<seq<nat>>, s: set<nat>)
  {
    Successors(graph, s) <= s
  }

  /**
   * The inner loop over one module's dependencies: each one not selected
   * and not found yet is appended to `found`.
   */
  function FreshIn(selected: seq<nat>, ds: seq<nat>, found: seq<nat>): seq<nat>
    decreases |ds|
  {
    if |ds| == 0 then found
    else
      var d := ds[0];
      FreshIn(selected, ds[1..], if d in selected || d in found then found else found + [d])
  }

  /** The `additional` list of one round: `FreshIn` over the dependencies of each module of `current`. */
  function Discover(graph: seq<seq<nat>>, selected: seq<nat>, current: seq<nat>, found: seq<nat>): seq<nat>
    requires InGraph(graph, current)
    decreases |current|
  {
    if |current| == 0 then found
    else Discover(graph, selected, current[1..], FreshIn(selected, graph[current[0]], found))
  }

  /** The rounds of the `while depth > 0` loop, from the state `selected`/`current` on. */
  function Rounds(graph: seq<seq<nat>>, selected: seq<nat>, current: seq<nat>, depth: int): seq<nat>
    requires GraphOk(graph) && InGraph(graph, selected) && InGraph(graph, current)
    decreases depth
  {
    if depth <= 0 then selected
    else
      var add := DiscoverInGraph(graph, selected, current);
      if |add| == 0 then selected else Rounds(graph, selected + add, add, depth - 1)
  }

  /** What `_filter_dependencies(requested, depth)` returns. */
  function Filtered(graph: seq<seq<nat>>, requested: seq<nat>, depth: int): seq<nat>
    requires GraphOk(graph) && InGraph(graph, requested)
  {
    Rounds(graph, requested, requested, depth)
  }

  /** A round only finds nodes of the graph. */
  function DiscoverInGraph(graph: seq<seq<nat>>, selected: seq<nat>, current: seq<nat>): (r: seq<nat>)
    requires GraphOk(graph) && InGraph(graph, current)
    ensures InGraph(graph, r)
    ensures Members(r) == Successors(graph, Members(current)) - Members(selected)
    ensures Distinct(r)
  {
    DiscoverSpec(graph, selected, current, []);
    Discover(graph, selected, current, [])
  }

  lemma {:induction false} FreshInSpec(selected: seq<nat>, ds: seq<nat>, found: seq<nat>)
    requires Distinct(found) && Members(found) !! Members(selected)
    ensures var r := FreshIn(selected, ds, found);
      |found| <= |r| && r[..|found|] == found && Distinct(r) &&
      Members(r) == Members(found) + (Members(ds) - Members(selected))
    decreases |ds|
  {
    if |ds| > 0 {
      var d := ds[0];
      var next := if d in selected || d in found then found else found + [d];
      FreshInSpec(selected, ds[1..], next);
      assert Members(ds) == {d} + Members(ds[1..]) by {
        assert forall x :: x in ds <==> x == d || x in ds[1..];
      }
      var r := FreshIn(selected, ds, found);
      assert r[..|next|] == next;
      assert r[..|found|] == next[..|found|];
    }
  }

  lemma {:induction false} DiscoverSpec(graph: seq<seq<nat>>, selected: seq<nat>, current: seq<nat>, found: seq<nat>)
    requires GraphOk(graph) && InGraph(graph, current) && InGraph(graph, found)
    requires Distinct(found) && Members(found) !! Members(selected)
    ensures var r := Discover(graph, selected, current, found);
      |found| <= |r| && r[..|found|] == found && Distinct(r) && InGraph(graph, r) &&
      Members(r) == Members(found) + (Successors(graph, Members(current)) - Members(selected))
    decreases |current|
  {
    if |current| > 0 {
      var m := current[0];
      var next := FreshIn(selected, graph[m], found);
      FreshInSpec(selected, graph[m], found);
      assert InGraph(graph, next) by {
        forall k | 0 <= k < |next| ensures next[k] < |graph| {
          assert next[k] in Members(next);
        }
      }
      DiscoverSpec(graph, selected, current[1..], next);
      var r := Discover(graph, selected, current, found);
      assert r[..|found|] == r[..|next|][..|found|];
      assert Members(current) == {m} + Members(current[1..]) by {
        assert forall x :: x in current <==> x == m || x in current[1..];
      }
      SuccessorsUnion(graph, {m}, Members(current[1..]));
      assert Successors(graph, {m}) == Members(graph[m]);
    }
  }

  lemma SuccessorsUnion(graph: seq<seq<nat>>, a: set<nat>, b: set<nat>)
    ensures Successors(graph, a + b) == Successors(graph, a) + Successors(graph, b)
  {
  }

  lemma SuccessorsMono(graph: seq<seq<nat>>, a: set<nat>, b: set<nat>)
    requires a <= b
    ensures Successors(graph, a) <= Successors(graph, b)
  {
  }

  /** The newest ring of `Within`: all requested modules at first, then those `n` steps away and no closer. */
  function Frontier(graph: seq<seq<nat>>, requested: seq<nat>, n: nat): set<nat>
  {
    if n == 0 then Members(requested) else Within(graph, requested, n) - Within(graph, requested, n - 1)
  }

  /** Only the newest ring can lead to modules not yet within reach. */
  lemma FrontierSuffices(graph: seq<seq<nat>>, requested: seq<nat>, n: nat)
    ensures Successors(graph, Within(graph, requested, n)) - Within(graph, requested, n) ==
            Successors(graph, Frontier(graph, requested, n)) - Within(graph, requested, n)
  {
    var w := Within(graph, requested, n);
    var f := Frontier(graph, requested, n);
    SuccessorsMono(graph, f, w);
    if n > 0 {
      var w0 := Within(graph, requested, n - 1);
      assert w == (w - w0) + w0;
      SuccessorsUnion(graph, w - w0, w0);
    }
  }

  /** The state at the top of the loop after `n` rounds that each found something. */
  predicate RoundState(graph: seq<seq<nat>>, requested: seq<nat>, selected: seq<nat>, current: seq<nat>, n: nat)
  {
    Members(selected) == Within(graph, requested, n) &&
    Members(current) == Frontier(graph, requested, n) &&
    |requested| <= |selected| && selected[..|requested|] == requested &&
    (forall p, q :: |requested| <= p < q < |selected| ==> selected[p] != selected[q]) &&
    (forall p :: |requested| <= p < |selected| ==> selected[p] !in requested)
  }

  /** A set that only adds to `b` and adds nothing new is `b`. */
  lemma NoneNew<T>(a: set<T>, b: set<T>)
    requires b <= a && a - b == {}
    ensures a == b
  {
    forall x | x in a ensures x in b {
      assert x !in a - b;
    }
  }

  /** Reach that stops growing stays put. */
  lemma {:induction false} WithinStable(graph: seq<seq<nat>>, requested: seq<nat>, n: nat, m: nat)
    requires n <= m && Within(graph, requested, n + 1) == Within(graph, requested, n)
    ensures Within(graph, requested, m) == Within(graph, requested, n)
    decreases m
  {
    if m > n {
      WithinStable(graph, requested, n, m - 1);
      var w := Within(graph, requested, n);
      assert Within(graph, requested, m) == Within(graph, requested, m - 1) + Successors(graph, Within(graph, requested, m - 1));
      assert Within(graph, requested, n + 1) == w + Successors(graph, w);
    }
  }

  /** Appending one round's discoveries gives the next round's state. */
  lemma RoundStateStep(graph: seq<seq<nat>>, requested: seq<nat>, selected: seq<nat>, add: seq<nat>, n: nat)
    requires GraphOk(graph) && InGraph(graph, selected) && InGraph(graph, add)
    requires Members(selected) == Within(graph, requested, n) && |requested| <= |selected| && selected[..|requested|] == requested
    requires forall p, q :: |requested| <= p < q < |selected| ==> selected[p] != selected[q]
    requires forall p :: |requested| <= p < |selected| ==> selected[p] !in requested
    requires Members(add) == Within(graph, requested, n + 1) - Within(graph, requested, n) && Distinct(add) && |add| > 0
    ensures RoundState(graph, requested, selected + add, add, n + 1) && InGraph(graph, selected + add)
  {
    var s2 := selected + add;
    var w := Within(graph, requested, n);
    assert Members(s2) == Members(selected) + Members(add) by {
      assert forall x :: x in s2 <==> x in selected || x in add;
    }
    assert s2[..|requested|] == requested by {
      assert s2[..|selected|] == selected;
    }
    forall p, q | |requested| <= p < q < |s2| ensures s2[p] != s2[q] {
      if q >= |selected| && p < |selected| {
        assert s2[p] in Members(selected);
        assert s2[q] in Members(add);
      }
    }
    forall p | |requested| <= p < |s2| ensures s2[p] !in requested {
      if p >= |selected| {
        assert s2[p] in Members(add);
        assert Members(requested) <= w;
      }
    }
  }

  /** From a round state, the remaining rounds reach exactly `depth` more steps. */
  lemma {:induction false} RoundsWithin(graph: seq<seq<nat>>, requested: seq<nat>, selected: seq<nat>,
                                        current: seq<nat>, n: nat, depth: int)
    requires GraphOk(graph) && InGraph(graph, selected) && InGraph(graph, current)
    requires RoundState(graph, requested, selected, current, n)
    ensures var r := Rounds(graph, selected, current, depth);
      Members(r) == Within(graph, requested, n + (if depth < 0 then 0 else depth)) &&
      |selected| <= |r| && r[..|selected|] == selected &&
      (forall p, q :: |requested| <= p < q < |r| ==> r[p] != r[q]) &&
      (forall p :: |requested| <= p < |r| ==> r[p] !in requested)
    decreases depth
  {
    if depth > 0 {
      var add := DiscoverInGraph(graph, selected, current);
      FrontierSuffices(graph, requested, n);
      var w := Within(graph, requested, n);
      assert Members(add) == Within(graph, requested, n + 1) - w;
      if |add| == 0 {
        assert Members(add) == {};
        assert Within(graph, requested, n + 1) == w + Successors(graph, w);
        NoneNew(Within(graph, requested, n + 1), w);
        WithinStable(graph, requested, n, n + depth);
      } else {
        var s2 := selected + add;
        RoundStateStep(graph, requested, selected, add, n);
        RoundsWithin(graph, requested, s2, add, n + 1, depth - 1);
        var r := Rounds(graph, s2, add, depth - 1);
        assert r[..|selected|] == r[..|s2|][..|selected|];
      }
    }
  }

  /**
   * `_filter_dependencies` returns the requested modules in order, then the
   * modules found round by round, none of them twice or requested; as a
   * set, it is every module at most `depth` dependency steps away from a
   * requested one.
   */
  lemma FilteredReach(graph: seq<seq<nat>>, requested: seq<nat>, depth: int)
    requires GraphOk(graph) && InGraph(graph, requested)
    ensures var r := Filtered(graph, requested, depth);
      Members(r) == Within(graph, requested, if depth < 0 then 0 else depth) &&
      |requested| <= |r| && r[..|requested|] == requested &&
      (forall p, q :: |requested| <= p < q < |r| ==> r[p] != r[q]) &&
      (forall p :: |requested| <= p < |r| ==> r[p] !in requested)
  {
    RoundsWithin(graph, requested, requested, requested, 0, depth);
  }

  /** The nodes `0 .. n - 1`. */
  function Range(n: nat): (r: set<nat>)
    ensures forall x: nat :: x in r <==> x < n
    ensures |r| == n
  {
    if n == 0 then {} else Range(n - 1) + {n - 1}
  }

  lemma {:induction false} SubsetSize(a: set<nat>, b: set<nat>)
    requires a <= b
    ensures |a| <= |b|
    decreases |b|
  {
    if a != {} {
      var x :| x in a;
      SubsetSize(a - {x}, b - {x});
    }
  }

  /** Reach that grows in each of the first `n` steps has at least `n` more members than at the start. */
  lemma {:induction false} WithinGrows(graph: seq<seq<nat>>, requested: seq<nat>, n: nat)
    requires forall k :: 0 <= k < n ==> Within(graph, requested, k + 1) != Within(graph, requested, k)
    ensures |Within(graph, requested, n)| >= n
  {
    if n > 0 {
      WithinGrows(graph, requested, n - 1);
      var a := Within(graph, requested, n - 1);
      assert Within(graph, requested, (n - 1) + 1) != a;
      StrictGrowth(a, Within(graph, requested, n));
    }
  }

  /** A proper superset has at least one member more. */
  lemma StrictGrowth(a: set<nat>, b: set<nat>)
    requires a <= b && a != b
    ensures |b| >= |a| + 1
  {
    var x: nat :| x in b && x !in a;
    SubsetSize(a, b - {x});
  }

  /** Reach stays inside the graph. */
  lemma {:induction false} WithinInGraph(graph: seq<seq<nat>>, requested: seq<nat>, n: nat)
    requires GraphOk(graph) && InGraph(graph, requested)
    ensures Within(graph, requested, n) <= Range(|graph|)
  {
    if n > 0 {
      WithinInGraph(graph, requested, n - 1);
    }
  }

  /**
   * With a depth of at least the number of nodes (as with the default
   * `sys.maxsize`), the selection is closed under `dependencies`.
   */
  lemma FilteredClosed(graph: seq<seq<nat>>, requested: seq<nat>, depth: int)
    requires GraphOk(graph) && InGraph(graph, requested) && depth >= |graph|
    ensures Closed(graph, Members(Filtered(graph, requested, depth)))
  {
    FilteredReach(graph, requested, depth);
    if forall k :: 0 <= k < |graph| + 1 ==> Within(graph, requested, k + 1) != Within(graph, requested, k) {
      WithinGrows(graph, requested, |graph| + 1);
      WithinInGraph(graph, requested, |graph| + 1);
      SubsetSize(Within(graph, requested, |graph| + 1), Range(|graph|));
      assert false;
    }
    var k :| 0 <= k < |graph| + 1 && Within(graph, requested, k + 1) == Within(graph, requested, k);
    WithinStable(graph, requested, k, depth);
    WithinStable(graph, requested, k, depth + 1);
  }

  /**
   * `module.dependencies` of every node once all of them are resolved:
   * the modules its names resolved to, then those of its options.
   */
  function DependencyGraph(ns: seq<NodeTree.Node>, tr: seq<NodeTree.Traits>, ds: seq<NodeTree.DepState>)
    : (g: seq<seq<nat>>)
    requires NodeTree.WellFormed(ns) && |tr| == |ns| && |ds| == |ns|
    requires forall j :: 0 <= j < |ds| ==> NodeTree.InRange(ns, ds[j].deps)
    ensures |g| == |ns| && GraphOk(g)
  {
    var g := seq(|ns|, i requires 0 <= i < |ns| => ds[i].deps + NodeTree.OptionDeps(ns, tr, ds, i));
    forall i | 0 <= i < |ns| ensures InGraph(g, g[i]) {
      var o := NodeTree.OptionDeps(ns, tr, ds, i);
      forall k | 0 <= k < |o| ensures o[k] < |ns| {
        assert o[k] in o;
        var c :| c in NodeTree.ChildOptions(ns, tr, i) && o[k] in ds[c].deps;
        assert NodeTree.InRange(ns, ds[c].deps);
      }
      assert NodeTree.InRange(ns, ds[i].deps);
    }
    g
  }

  /**
   * The traits after the loop over `all_modules()`: each listed module
   * that is available is selected exactly when it was kept; every other
   * node keeps its traits.
   */
  function Flipped(tr: seq<NodeTree.Traits>, mods: seq<nat>, keep: seq<nat>): (r: seq<NodeTree.Traits>)
    ensures |r| == |tr|
  {
    seq(|tr|, j requires 0 <= j < |tr| => if j in mods && tr[j].available then tr[j].(selected := j in keep) else tr[j])
  }

  /** The `while depth > 0` loop of `_filter_dependencies`. */
  method SelectRounds(graph: seq<seq<nat>>, requested: seq<nat>, depth: int) returns (selected: seq<nat>)
    requires GraphOk(graph) && InGraph(graph, requested)
    ensures selected == Filtered(graph, requested, depth)
  {
    selected := requested;
    var current := requested;
    var d := depth;
    while d > 0
      invariant InGraph(graph, selected) && InGraph(graph, current)
      invariant Rounds(graph, selected, current, d) == Filtered(graph, requested, depth)
      decreases d
    {
      var additional := [];
      var i := 0;
      while i < |current|
        invariant 0 <= i <= |current|
        invariant Discover(graph, selected, current[i..], additional) == Discover(graph, selected, current, [])
      {
        var deps := graph[current[i]];
        ghost var before := additional;
        var k := 0;
        while k < |deps|
          invariant 0 <= k <= |deps|
          invariant FreshIn(selected, deps[k..], additional) == FreshIn(selected, deps, before)
        {
          var dep := deps[k];
          if dep !in selected && dep !in additional {
            additional := additional + [dep];
          }
          assert deps[k..][1..] == deps[k + 1..];
          k := k + 1;
        }
        assert current[i..][1..] == current[i + 1..];
        i := i + 1;
      }
      assert additional == DiscoverInGraph(graph, selected, current);
      if |additional| == 0 {
        break;
      }
      selected := selected + additional;
      current := additional;
      d := d - 1;
    }
  }

  /**
   * The end of `_filter_dependencies` on the parser node `root`: each
   * available, selected module below it is selected exactly when it was
   * kept, then the parser propagates its traits with `_update()`.
   */
  method Deselect(t: NodeTree.Tree, root: nat, selected: seq<nat>)
    requires t.Valid() && root < |t.nodes|
    modifies t
    ensures t.Valid() && t.nodes == old(t.nodes) && t.deps == old(t.deps)
    ensures t.traits == NodeTree.UpdateAt(t.nodes, Flipped(old(t.traits), NodeTree.FindAll(t.nodes, old(t.traits), root,
                                                    NodeTree.ModuleNode, None, true), selected), root)
  {
    ghost var t0 := t.traits;
    var mods := NodeTree.FindAll(t.nodes, t.traits, root, NodeTree.ModuleNode, None, true);
    var k := 0;
    while k < |mods|
      invariant 0 <= k <= |mods|
      invariant t.Valid() && t.nodes == old(t.nodes) && t.deps == old(t.deps)
      invariant t.traits == Flipped(t0, mods[..k], selected)
    {
      var m := mods[k];
      if t.traits[m].available {
        t.traits := t.traits[m := t.traits[m].(selected := m in selected)];
      }
      assert mods[..k + 1] == mods[..k] + [m];
      k := k + 1;
    }
    assert mods[..k] == mods;
    ghost var t1 := t.traits;
    t.Update(root);
    NodeTree.UpdateAtIs(t.nodes, t1, t.traits, root);
  }

  /**
   * `_filter_dependencies(requested, depth)` on the parser node `root`,
   * after `resolve_dependencies` has resolved every node.
   */
  method FilterDependencies(t: NodeTree.Tree, root: nat, requested: seq<nat>, depth: int) returns (selected: seq<nat>)
    requires t.Valid() && root < |t.nodes| && NodeTree.InRange(t.nodes, requested)
    requires forall j :: 0 <= j < |t.deps| ==> t.deps[j].resolved
    modifies t
    ensures t.Valid() && t.nodes == old(t.nodes) && t.deps == old(t.deps)
    ensures selected == Filtered(DependencyGraph(t.nodes, old(t.traits), t.deps), requested, depth)
    ensures t.traits == NodeTree.UpdateAt(t.nodes, Flipped(old(t.traits), NodeTree.FindAll(t.nodes, old(t.traits), root,
                                                    NodeTree.ModuleNode, None, true), selected), root)
  {
    var graph := DependencyGraph(t.nodes, t.traits, t.deps);
    selected := SelectRounds(graph, requested, depth);
    Deselect(t, root, selected);
  }

  /**
   * The effect of the flag loop: a module `_findall` lists below `root`
   * (available and selected) stays selected exactly when it was kept,
   * and every other node keeps its traits.
   */
  lemma FlippedSpec(ns: seq<NodeTree.Node>, tr: seq<NodeTree.Traits>, root: nat, keep: seq<nat>, j: nat)
    requires NodeTree.WellFormed(ns) && |tr| == |ns| && root < |ns| && j < |ns|
    ensures var r := Flipped(tr, NodeTree.FindAll(ns, tr, root, NodeTree.ModuleNode, None, true), keep);
      (NodeTree.FindAllMatch(ns, tr, root, NodeTree.ModuleNode, None, true, j) ==>
         r[j] == tr[j].(selected := j in keep)) &&
      (!NodeTree.FindAllMatch(ns, tr, root, NodeTree.ModuleNode, None, true, j) ==> r[j] == tr[j])
  {
  }

  // ------------------------------------------------------ build_modules

  datatype Phase = Validate | Build | PostBuild

  /** One hook invocation: the phase and the index of the node it ran on. */
  datatype Call = Call(phase: Phase, node: nat)

  /**
   * A node handed to a `Runner`: its full name, its depth in the tree and
   * the outcome of each of its hooks, `None` where the node has no such
   * hook (a repository has no `validate`, a module may lack one).
   */
  datatype Runnable = Runnable(fullname: string, depth: nat, validate: Option<Result<()>>,
                               build: Option<Result<()>>, postBuild: Option<Result<()>>)

  function Hook(n: Runnable, p: Phase): Option<Result<()>>
  {
    match p
    case Validate => n.validate
    case Build => n.build
    case PostBuild => n.postBuild
  }

  /**
   * An order in which one phase visits the nodes: every node once, the
   * depth groups deepest first, and inside a group whatever order
   * `random.shuffle` produced.
   */
  predicate Schedule(nodes: seq<Runnable>, order: seq<nat>)
  {
    |order| == |nodes| && (forall k :: 0 <= k < |order| ==> order[k] < |nodes|) &&
    (forall p, q :: 0 <= p < q < |order| ==> order[p] != order[q]) &&
    (forall p, q :: 0 <= p < q < |order| ==> nodes[order[p]].depth >= nodes[order[q]].depth)
  }

  /** A phase in progress: the validate errors collected, the exception that stopped it, the calls made. */
  datatype Progress = Progress(errors: seq<Error>, stop: Option<Error>, calls: seq<Call>)

  /** The exception `except LbuildValidateException` catches. */
  predicate IsValidateError(e: Error)
  {
    e.Raised? && e.kind == ValidateError
  }

  /**
   * One runner of a phase: a missing hook does nothing; a hook's outcome
   * passes through `with_forward_exception`; in the validate phase a
   * validate exception is collected, any other exception stops the
   * phase.
   */
  function Step(nodes: seq<Runnable>, p: Phase, c: Progress, i: nat): Progress
    requires i < |nodes|
  {
    match Hook(nodes[i], p)
    case None => c
    case Some(outcome) =>
      var calls := c.calls + [Call(p, i)];
      match Utils.WithForwardException(nodes[i].fullname, outcome)
      case Success(_) => c.(calls := calls)
      case Failure(e) =>
        if p == Validate && IsValidateError(e) then Progress(c.errors + [e], None, calls)
        else Progress(c.errors, Some(e), calls)
  }

  /** A phase after the first `n` runners of `order`, or at the one that raised. */
  function PhaseUpTo(nodes: seq<Runnable>, order: seq<nat>, p: Phase, n: nat): Progress
    requires n <= |order| && forall k :: 0 <= k < |order| ==> order[k] < |nodes|
  {
    if n == 0 then Progress([], None, [])
    else
      var c := PhaseUpTo(nodes, order, p, n - 1);
      if c.stop.Some? then c else Step(nodes, p, c, order[n - 1])
  }

  /** A whole phase. */
  function RunPhase(nodes: seq<Runnable>, order: seq<nat>, p: Phase): Progress
    requires forall k :: 0 <= k < |order| ==> order[k] < |nodes|
  {
    PhaseUpTo(nodes, order, p, |order|)
  }

  const NoModulesSelected: string := "No modules selected, aborting!"

  /**
   * `build_modules(modules, buildlog)` over the modules followed by their
   * repositories: what it raises (`None` when it returns) and the hooks it
   * calls. Validation runs over all nodes; collected validate exceptions
   * are raised together; without a build log nothing is built.
   */
  function BuildSpec(modules: seq<Runnable>, repositories: seq<Runnable>, buildlog: bool,
                     validation: seq<nat>, building: seq<nat>, posting: seq<nat>): (Option<Error>, seq<Call>)
    requires var nodes := modules + repositories;
      Schedule(nodes, validation) && Schedule(nodes, building) && Schedule(nodes, posting)
  {
    if |modules| == 0 then (Some(Fail(NoModulesSelected)), [])
    else
      var nodes := modules + repositories;
      var v := RunPhase(nodes, validation, Validate);
      if v.stop.Some? then (v.stop, v.calls)
      else if |v.errors| > 0 then (Some(Aggregate(v.errors)), v.calls)
      else if !buildlog then (None, v.calls)
      else
        var b := RunPhase(nodes, building, Build);
        if b.stop.Some? then (b.stop, v.calls + b.calls)
        else
          var q := RunPhase(nodes, posting, PostBuild);
          (q.stop, v.calls + b.calls + q.calls)
  }

  /** The runners of one phase, in the given order, until one raises. */
  method RunRunners(nodes: seq<Runnable>, order: seq<nat>, p: Phase) returns (c: Progress)
    requires forall k :: 0 <= k < |order| ==> order[k] < |nodes|
    ensures c == RunPhase(nodes, order, p)
  {
    c := Progress([], None, []);
    var k := 0;
    while k < |order| && c.stop.None?
      invariant 0 <= k <= |order|
      invariant c == PhaseUpTo(nodes, order, p, k)
    {
      c := Step(nodes, p, c, order[k]);
      k := k + 1;
    }
    PhaseStops(nodes, order, p, k, |order|);
  }

  lemma {:induction false} PhaseStops(nodes: seq<Runnable>, order: seq<nat>, p: Phase, k: nat, n: nat)
    requires k <= n <= |order| && forall j :: 0 <= j < |order| ==> order[j] < |nodes|
    requires k == n || PhaseUpTo(nodes, order, p, k).stop.Some?
    ensures PhaseUpTo(nodes, order, p, n) == PhaseUpTo(nodes, order, p, k)
    decreases n
  {
    if n > k {
      PhaseStops(nodes, order, p, k, n - 1);
    }
  }

  /**
   * `Parser.build_modules(modules, buildlog)`, with the shuffled order of
   * each phase given and the build log reduced to whether there is one.
   */
  method BuildModules(modules: seq<Runnable>, repositories: seq<Runnable>, buildlog: bool,
                      validation: seq<nat>, building: seq<nat>, posting: seq<nat>)
    returns (err: Option<Error>, calls: seq<Call>)
    requires var nodes := modules + repositories;
      Schedule(nodes, validation) && Schedule(nodes, building) && Schedule(nodes, posting)
    ensures (err, calls) == BuildSpec(modules, repositories, buildlog, validation, building, posting)
  {
    if |modules| == 0 {
      return Some(Fail(NoModulesSelected)), [];
    }
    var nodes := modules + repositories;
    var v := RunRunners(nodes, validation, Validate);
    if v.stop.Some? {
      return v.stop, v.calls;
    }
    if |v.errors| > 0 {
      return Some(Aggregate(v.errors)), v.calls;
    }
    if !buildlog {
      return None, v.calls;
    }
    var b := RunRunners(nodes, building, Build);
    if b.stop.Some? {
      return b.stop, v.calls + b.calls;
    }
    var q := RunRunners(nodes, posting, PostBuild);
    return q.stop, v.calls + b.calls + q.calls;
  }

  function PhaseRank(p: Phase): nat
  {
    match p
    case Validate => 0
    case Build => 1
    case PostBuild => 2
  }

  /** Calls come phase by phase, and within a phase deepest node first. */
  predicate Ordered(nodes: seq<Runnable>, calls: seq<Call>)
  {
    (forall a :: 0 <= a < |calls| ==> calls[a].node < |nodes|) &&
    forall a, b :: 0 <= a < b < |calls| ==>
      PhaseRank(calls[a].phase) < PhaseRank(calls[b].phase) ||
      (calls[a].phase == calls[b].phase && nodes[calls[a].node].depth >= nodes[calls[b].node].depth)
  }

  /** One runner adds at most its own call and, in the validate phase, a validate exception. */
  lemma StepShape(nodes: seq<Runnable>, p: Phase, c: Progress, i: nat)
    requires i < |nodes| && c.stop.None?
    ensures var d := Step(nodes, p, c, i);
      (d.calls == c.calls || d.calls == c.calls + [Call(p, i)]) &&
      (d.errors == c.errors || (p == Validate && exists e :: IsValidateError(e) && d.errors == c.errors + [e])) &&
      (Hook(nodes[i], p).Some? ==> d.calls == c.calls + [Call(p, i)])
  {
  }

  /** A phase calls only its own hook, on nodes it has reached, deepest first. */
  lemma {:induction false} PhaseCalls(nodes: seq<Runnable>, order: seq<nat>, p: Phase, n: nat)
    requires Schedule(nodes, order) && n <= |order|
    ensures var c := PhaseUpTo(nodes, order, p, n);
      Ordered(nodes, c.calls) &&
      forall a :: 0 <= a < |c.calls| ==>
        (c.calls[a].phase == p && exists j :: 0 <= j < n && c.calls[a].node == order[j])
  {
    if n > 0 {
      PhaseCalls(nodes, order, p, n - 1);
      var c := PhaseUpTo(nodes, order, p, n - 1);
      if c.stop.None? {
        var i := order[n - 1];
        StepShape(nodes, p, c, i);
        forall a | 0 <= a < |c.calls| ensures nodes[c.calls[a].node].depth >= nodes[i].depth {
          var j :| 0 <= j < n - 1 && c.calls[a].node == order[j];
        }
      }
    }
  }

  /** Only the validate phase collects exceptions, and only validate exceptions. */
  lemma {:induction false} PhaseErrors(nodes: seq<Runnable>, order: seq<nat>, p: Phase, n: nat)
    requires n <= |order| && forall k :: 0 <= k < |order| ==> order[k] < |nodes|
    ensures forall e :: e in PhaseUpTo(nodes, order, p, n).errors ==> p == Validate && IsValidateError(e)
  {
    if n > 0 {
      PhaseErrors(nodes, order, p, n - 1);
      var c := PhaseUpTo(nodes, order, p, n - 1);
      if c.stop.None? {
        StepShape(nodes, p, c, order[n - 1]);
      }
    }
  }

  /** A phase that nothing stopped called the hook of every node it passed that has one. */
  lemma {:induction false} PhaseComplete(nodes: seq<Runnable>, order: seq<nat>, p: Phase, n: nat)
    requires n <= |order| && forall k :: 0 <= k < |order| ==> order[k] < |nodes|
    ensures var c := PhaseUpTo(nodes, order, p, n);
      c.stop.None? ==> forall j :: 0 <= j < n && Hook(nodes[order[j]], p).Some? ==> Call(p, order[j]) in c.calls
  {
    if n > 0 {
      PhaseComplete(nodes, order, p, n - 1);
      var c := PhaseUpTo(nodes, order, p, n - 1);
      if c.stop.None? {
        StepShape(nodes, p, c, order[n - 1]);
      }
    }
  }

  /** A whole phase. */
  lemma RunPhaseShape(nodes: seq<Runnable>, order: seq<nat>, p: Phase)
    requires Schedule(nodes, order)
    ensures var c := RunPhase(nodes, order, p);
      Ordered(nodes, c.calls) && (forall a :: 0 <= a < |c.calls| ==> c.calls[a].phase == p) &&
      (forall e :: e in c.errors ==> p == Validate && IsValidateError(e)) &&
      (c.stop.None? ==> forall i :: 0 <= i < |nodes| && Hook(nodes[i], p).Some? ==> Call(p, i) in c.calls)
  {
    PhaseCalls(nodes, order, p, |order|);
    PhaseErrors(nodes, order, p, |order|);
    PhaseComplete(nodes, order, p, |order|);
    var c := RunPhase(nodes, order, p);
    if c.stop.None? {
      forall i | 0 <= i < |nodes| && Hook(nodes[i], p).Some? ensures Call(p, i) in c.calls {
        ScheduleCovers(nodes, order, i);
      }
    }
  }

  /** A schedule lists every node. */
  lemma ScheduleCovers(nodes: seq<Runnable>, order: seq<nat>, i: nat)
    requires Schedule(nodes, order) && i < |nodes|
    ensures exists j :: 0 <= j < |order| && order[j] == i
  {
    var seen := set j | 0 <= j < |order| :: order[j];
    if i !in seen {
      assert seen <= Range(|nodes|) - {i};
      IndexSetSize(order, |order|);
      SubsetSize(seen, Range(|nodes|) - {i});
      assert false;
    }
  }

  lemma {:induction false} IndexSetSize(order: seq<nat>, n: nat)
    requires n <= |order| && forall p, q :: 0 <= p < q < |order| ==> order[p] != order[q]
    ensures |set j | 0 <= j < n :: order[j]| == n
  {
    if n > 0 {
      IndexSetSize(order, n - 1);
      var a := set j | 0 <= j < n - 1 :: order[j];
      assert (set j | 0 <= j < n :: order[j]) == a + {order[n - 1]};
      assert order[n - 1] !in a;
    }
  }

  /**
   * What `build_modules` promises: calls go phase by phase, deepest node
   * first; validation reaches every node with a validate hook unless a
   * hook raised something else; collected validate exceptions are raised
   * together before anything is built; and without a build log, or when
   * validation raised, only validate hooks run.
   */
  lemma BuildPhases(modules: seq<Runnable>, repositories: seq<Runnable>, buildlog: bool,
                    validation: seq<nat>, building: seq<nat>, posting: seq<nat>)
    requires var nodes := modules + repositories;
      Schedule(nodes, validation) && Schedule(nodes, building) && Schedule(nodes, posting)
    ensures var (err, calls) := BuildSpec(modules, repositories, buildlog, validation, building, posting);
      var nodes := modules + repositories;
      var v := RunPhase(nodes, validation, Validate);
      Ordered(nodes, calls) &&
      (|modules| == 0 ==> err == Some(Fail(NoModulesSelected)) && calls == []) &&
      (|modules| > 0 && v.stop.None? ==>
         forall i :: 0 <= i < |nodes| && nodes[i].validate.Some? ==> Call(Validate, i) in calls) &&
      (|modules| > 0 && v.stop.None? && |v.errors| > 0 ==>
         err == Some(Aggregate(v.errors)) && forall e :: e in v.errors ==> IsValidateError(e)) &&
      ((!buildlog || v.stop.Some? || |v.errors| > 0) ==>
         forall a :: 0 <= a < |calls| ==> calls[a].phase == Validate)
  {
    var nodes := modules + repositories;
    if |modules| > 0 {
      RunPhaseShape(nodes, validation, Validate);
      RunPhaseShape(nodes, building, Build);
      RunPhaseShape(nodes, posting, PostBuild);
      var v := RunPhase(nodes, validation, Validate);
      var b := RunPhase(nodes, building, Build);
      var q := RunPhase(nodes, posting, PostBuild);
      OrderedJoin(nodes, v.calls, b.calls);
      OrderedJoin(nodes, v.calls + b.calls, q.calls);
    }
  }

  lemma OrderedJoin(nodes: seq<Runnable>, xs: seq<Call>, ys: seq<Call>)
    requires Ordered(nodes, xs) && Ordered(nodes, ys)
    requires forall a, b :: 0 <= a < |xs| && 0 <= b < |ys| ==> PhaseRank(xs[a].phase) < PhaseRank(ys[b].phase)
    ensures Ordered(nodes, xs + ys)
  {
  }

  /**
   * Repositories sit above their modules, so in every phase no
   * repository runs before a module.
   */
  lemma RepositoriesLast(modules: seq<Runnable>, repositories: seq<Runnable>, calls: seq<Call>)
    requires Ordered(modules + repositories, calls)
    requires forall m, r :: 0 <= m < |modules| && 0 <= r < |repositories| ==> modules[m].depth > repositories[r].depth
    ensures forall a, b :: 0 <= a < b < |calls| && calls[a].phase == calls[b].phase ==>
      !(calls[a].node >= |modules| && calls[b].node < |modules|)
  {
  }

  // ----------------------------------------------------- merge_*_options

  /** The names a merge applies: one `:` for repository options, more than one for module options. */
  predicate AtLevel(name: string, repositoryLevel: bool)
  {
    if repositoryLevel then Text.CountChar(name, ':') == 1 else Text.CountChar(name, ':') > 1
  }

  /** The configured options of one level, in their configured order. */
  function Configured(options: seq<(string, (string, string))>, repositoryLevel: bool): (r: seq<(string, (string, string))>)
    ensures forall x :: x in r <==> x in options && AtLevel(x.0, repositoryLevel)
  {
    if |options| == 0 then []
    else
      var rest := Configured(options[1..], repositoryLevel);
      assert forall x :: x in options <==> x == options[0] || x in options[1..];
      if AtLevel(options[0].0, repositoryLevel) then [options[0]] + rest else rest
  }

  function LevelName(repositoryLevel: bool): string
  {
    if repositoryLevel then "repository" else "module"
  }

  /** `option_resolver`: option nodes that must be selected, returned as nodes. */
  const OptionResolver: NodeTree.Resolver := NodeTree.Resolver(NodeTree.OptionNode, true, false)

  /** The configured `(value, filename)` pair, which the merge assigns as it is. */
  function Assignment(v: (string, string)): Value
  {
    SeqV(TupleKind, [StrV(v.0), StrV(v.1)])
  }

  function MergePrefix(repositoryLevel: bool): string
  {
    "Failed to merge " + LevelName(repositoryLevel) + " options!\n"
  }

  /** `except LbuildException`: lbuild's own errors are wrapped, any other error passes through. */
  function MergeFailure(repositoryLevel: bool, e: Error): Error
  {
    if IsLbuild(e) then Fail(MergePrefix(repositoryLevel) + NodeTree.Message(e)) else e
  }

  /** The node and dependency state a merge leaves, and the error that stopped it. */
  datatype Merged = Merged(nodes: seq<NodeTree.Node>, deps: seq<NodeTree.DepState>, error: Option<Error>)

  lemma SetOptionWellFormed(ns: seq<NodeTree.Node>, i: nat, o: Options.OptionData)
    requires NodeTree.WellFormed(ns) && i < |ns| && ns[i].option.Some?
    ensures NodeTree.WellFormed(ns[i := ns[i].(option := Some(o))])
  {
    var ns' := ns[i := ns[i].(option := Some(o))];
    forall k | 0 <= k < |ns'| ensures NodeTree.NodeOk(ns', k) {
      assert NodeTree.NodeOk(ns, k);
    }
  }

  /**
   * `resolver[name].value = value` for each configured entry in turn: the
   * first lookup or assignment that fails stops the merge.
   */
  function MergeSpec(ns: seq<NodeTree.Node>, tr: seq<NodeTree.Traits>, ds: seq<NodeTree.DepState>, root: nat,
                     entries: seq<(string, (string, string))>, repositoryLevel: bool): (r: Merged)
    requires NodeTree.WellFormed(ns) && |tr| == |ns| && |ds| == |ns| && root < |ns|
    ensures NodeTree.WellFormed(r.nodes) && |r.nodes| == |ns| && |r.deps| == |ds|
    decreases |entries|
  {
    if |entries| == 0 then Merged(ns, ds, None)
    else
      match NodeTree.Lookup(ns, tr, root, OptionResolver, entries[0].0)
      case Failure(e) => Merged(ns, ds, Some(MergeFailure(repositoryLevel, e)))
      case Success(h) =>
        var i := h.index;
        assert NodeTree.NodeOk(ns, i);
        var a := Options.SetValue(ns[i].option.value, ns[i].fullname, Assignment(entries[0].1));
        var ns' := ns[i := ns[i].(option := Some(a.option))];
        SetOptionWellFormed(ns, i, a.option);
        if a.error.Some? then Merged(ns', ds, Some(MergeFailure(repositoryLevel, a.error.value)))
        else
          var ds' := ds[i := NodeTree.DepState(ds[i].names + Options.AddedNames(a.option), false, ds[i].deps)];
          var e := Options.SetterError(a);
          if e.Some? then Merged(ns', ds', Some(MergeFailure(repositoryLevel, e.value)))
          else MergeSpec(ns', tr, ds', root, entries[1..], repositoryLevel)
  }

  /**
   * `merge_repository_options` (`repositoryLevel`) and
   * `merge_module_options`: the configured options of that level are
   * assigned one after the other through the option resolver.
   */
  method MergeOptions(t: NodeTree.Tree, root: nat, options: seq<(string, (string, string))>, repositoryLevel: bool)
    returns (err: Option<Error>)
    requires t.Valid() && root < |t.nodes|
    modifies t
    ensures t.Valid() && t.traits == old(t.traits)
    ensures Merged(t.nodes, t.deps, err) ==
      MergeSpec(old(t.nodes), old(t.traits), old(t.deps), root, Configured(options, repositoryLevel), repositoryLevel)
  {
    var entries := Configured(options, repositoryLevel);
    var k := 0;
    while k < |entries|
      invariant 0 <= k <= |entries| && t.Valid() && t.traits == old(t.traits) && |t.nodes| == |old(t.nodes)|
      invariant MergeSpec(t.nodes, t.traits, t.deps, root, entries[k..], repositoryLevel) ==
        MergeSpec(old(t.nodes), old(t.traits), old(t.deps), root, entries, repositoryLevel)
    {
      assert entries[k..][0] == entries[k] && entries[k..][1..] == entries[k + 1..];
      var h := NodeTree.Lookup(t.nodes, t.traits, root, OptionResolver, entries[k].0);
      if h.Failure? {
        return Some(MergeFailure(repositoryLevel, h.error));
      }
      var i := h.value.index;
      assert NodeTree.NodeOk(t.nodes, i);
      var e := t.SetOptionValue(i, Assignment(entries[k].1));
      if e.Some? {
        return Some(MergeFailure(repositoryLevel, e.value));
      }
      k := k + 1;
    }
    assert entries[k..] == [];
    return None;
  }

  /**
   * A merge changes nothing but the option state and dependency names of
   * available, selected option nodes; their resolved modules are kept.
   */
  lemma {:induction false} MergeOnlyOptions(ns: seq<NodeTree.Node>, tr: seq<NodeTree.Traits>, ds: seq<NodeTree.DepState>,
                                            root: nat, entries: seq<(string, (string, string))>, repositoryLevel: bool, j: nat)
    requires NodeTree.WellFormed(ns) && |tr| == |ns| && |ds| == |ns| && root < |ns| && j < |ns|
    ensures var r := MergeSpec(ns, tr, ds, root, entries, repositoryLevel);
      r.nodes[j] == ns[j].(option := r.nodes[j].option) && r.deps[j].deps == ds[j].deps &&
      ((r.nodes[j] != ns[j] || r.deps[j] != ds[j]) ==>
        ns[j].kind == NodeTree.OptionNode && tr[j].available && tr[j].selected)
    decreases |entries|
  {
    if |entries| > 0 {
      var l := NodeTree.Lookup(ns, tr, root, OptionResolver, entries[0].0);
      if l.Success? {
        var i := l.value.index;
        assert NodeTree.NodeOk(ns, i);
        var a := Options.SetValue(ns[i].option.value, ns[i].fullname, Assignment(entries[0].1));
        var ns' := ns[i := ns[i].(option := Some(a.option))];
        SetOptionWellFormed(ns, i, a.option);
        if a.error.None? {
          var ds' := ds[i := NodeTree.DepState(ds[i].names + Options.AddedNames(a.option), false, ds[i].deps)];
          if Options.SetterError(a).None? {
            MergeOnlyOptions(ns', tr, ds', root, entries[1..], repositoryLevel, j);
          }
        }
      }
    }
  }

  /** A failed merge reports lbuild's own errors under the merge's heading and passes any other error on unchanged. */
  lemma {:induction false} MergeErrors(ns: seq<NodeTree.Node>, tr: seq<NodeTree.Traits>, ds: seq<NodeTree.DepState>,
                                       root: nat, entries: seq<(string, (string, string))>, repositoryLevel: bool)
    requires NodeTree.WellFormed(ns) && |tr| == |ns| && |ds| == |ns| && root < |ns|
    ensures var e := MergeSpec(ns, tr, ds, root, entries, repositoryLevel).error;
      e.Some? ==> (!IsLbuild(e.value) ||
        (e.value.Raised? && e.value.kind == LbuildError && Text.StartsWith(e.value.msg, MergePrefix(repositoryLevel))))
    decreases |entries|
  {
    if |entries| > 0 {
      var l := NodeTree.Lookup(ns, tr, root, OptionResolver, entries[0].0);
      if l.Failure? {
        assert (MergePrefix(repositoryLevel) + NodeTree.Message(l.error))[..|MergePrefix(repositoryLevel)|] == MergePrefix(repositoryLevel);
      } else {
        var i := l.value.index;
        assert NodeTree.NodeOk(ns, i);
        var a := Options.SetValue(ns[i].option.value, ns[i].fullname, Assignment(entries[0].1));
        var ns' := ns[i := ns[i].(option := Some(a.option))];
        SetOptionWellFormed(ns, i, a.option);
        if a.error.Some? {
          assert (MergePrefix(repositoryLevel) + NodeTree.Message(a.error.value))[..|MergePrefix(repositoryLevel)|] == MergePrefix(repositoryLevel);
        } else if Options.SetterError(a).Some? {
          var e := Options.SetterError(a).value;
          assert (MergePrefix(repositoryLevel) + NodeTree.Message(e))[..|MergePrefix(repositoryLevel)|] == MergePrefix(repositoryLevel);
        } else {
          var ds' := ds[i := NodeTree.DepState(ds[i].names + Options.AddedNames(a.option), false, ds[i].deps)];
          MergeErrors(ns', tr, ds', root, entries[1..], repositoryLevel);
        }
      }
    }
  }

  // -------------------------------------------------- _undefined_options

  /** The full names of the listed option nodes whose value is `None`. */
  function UndefinedIn(ns: seq<NodeTree.Node>, js: seq<nat>): (r: seq<string>)
    requires NodeTree.InRange(ns, js)
    ensures forall x :: x in r <==> exists k :: 0 <= k < |js| && ns[js[k]].fullname == x && NodeTree.OptionOutput(ns[js[k]]) == NoneV
  {
    if |js| == 0 then []
    else
      var rest := UndefinedIn(ns, js[1..]);
      assert forall k :: 1 <= k < |js| ==> js[k] == js[1..][k - 1];
      if NodeTree.OptionOutput(ns[js[0]]) == NoneV then [ns[js[0]].fullname] + rest else rest
  }

  /**
   * `_undefined_repo_options()`: the full names of the options at most two
   * levels below the parser whose value is `None`, each named once.
   */
  function UndefinedRepoOptions(ns: seq<NodeTree.Node>, tr: seq<NodeTree.Traits>, root: nat): (r: seq<string>)
    requires NodeTree.WellFormed(ns) && |tr| == |ns| && root < |ns|
    ensures forall x :: x in r <==>
      exists j :: 0 <= j < |ns| && NodeTree.FindAllMatch(ns, tr, root, NodeTree.OptionNode, Some(3), true, j) &&
        ns[j].fullname == x && NodeTree.OptionOutput(ns[j]) == NoneV
    ensures forall p, q :: 0 <= p < q < |r| ==> r[p] != r[q]
  {
    var js := NodeTree.FindAll(ns, tr, root, NodeTree.OptionNode, Some(3), true);
    var u := UndefinedIn(ns, js);
    assert forall x :: x in u ==>
      exists j :: 0 <= j < |ns| && NodeTree.FindAllMatch(ns, tr, root, NodeTree.OptionNode, Some(3), true, j) &&
        ns[j].fullname == x && NodeTree.OptionOutput(ns[j]) == NoneV;
    forall j | 0 <= j < |ns| && NodeTree.FindAllMatch(ns, tr, root, NodeTree.OptionNode, Some(3), true, j) &&
               NodeTree.OptionOutput(ns[j]) == NoneV
      ensures ns[j].fullname in u
    {
      assert j in js;
      var k :| 0 <= k < |js| && js[k] == j;
    }
    Options.Dedup(u)
  }

  // ------------------------------------------------ prepare_repositories

  function UnknownValues(names: seq<string>): string
  {
    "Unknown values for options '" + Text.Join(names, "', '") +
    "'. Please provide a value in the configuration file or on the command line."
  }

  const NoModuleFound: string := "No module found with the selected repository options!"

  /** `_findall(REPOSITORY)` from the parser: the repositories whose modules are prepared, in order. */
  function Repositories(ns: seq<NodeTree.Node>, tr: seq<NodeTree.Traits>, root: nat): (r: seq<nat>)
    requires NodeTree.WellFormed(ns) && |tr| == |ns| && root < |ns|
    ensures forall k :: 0 <= k < |r| ==> r[k] < |ns| && ns[r[k]].kind == NodeTree.RepositoryNode
  {
    var r := NodeTree.FindAll(ns, tr, root, NodeTree.RepositoryNode, None, true);
    assert forall k :: 0 <= k < |r| ==> r[k] in r;
    r
  }

  /** What `repo.prepare()` returned for each repository: its error, or modules of that repository. */
  predicate PreparedBy(repos: seq<nat>, outcomes: seq<Result<seq<Modules.Prepared>>>)
  {
    |outcomes| == |repos| &&
    forall k, i :: 0 <= k < |outcomes| && outcomes[k].Success? && 0 <= i < |outcomes[k].value| ==>
      outcomes[k].value[i].repository == repos[k]
  }

  lemma {:induction false} PreparedIn(ns: seq<NodeTree.Node>, repos: seq<nat>, outcomes: seq<Result<seq<Modules.Prepared>>>)
    requires forall k :: 0 <= k < |repos| ==> repos[k] < |ns| && ns[repos[k]].kind == NodeTree.RepositoryNode
    requires PreparedBy(repos, outcomes)
    ensures Modules.RepositoriesIn(ns, Modules.Flatten(outcomes))
    decreases |outcomes|
  {
    if |outcomes| > 0 {
      var n := |outcomes| - 1;
      assert forall k :: 0 <= k < n ==> outcomes[..n][k] == outcomes[k] && repos[..n][k] == repos[k];
      PreparedIn(ns, repos[..n], outcomes[..n]);
      var a := Modules.Flatten(outcomes[..n]);
      var b: seq<Modules.Prepared> := if outcomes[n].Success? then outcomes[n].value else [];
      assert Modules.Flatten(outcomes) == a + b;
      forall i | 0 <= i < |a + b|
        ensures (a + b)[i].repository < |ns| && ns[(a + b)[i].repository].kind == NodeTree.RepositoryNode
      {
        if i >= |a| {
          assert (a + b)[i] == outcomes[n].value[i - |a|];
        }
      }
    }
  }

  /**
   * `prepare_repositories`: refused while a repository option has no
   * value; otherwise the modules every repository prepared are built and
   * linked, refused when there are none, and their dependencies resolved
   * as far as they can be.
   */
  method PrepareRepositories(t: NodeTree.Tree, root: nat, outcomes: seq<Result<seq<Modules.Prepared>>>)
    returns (r: Result<seq<nat>>)
    requires t.Valid() && root < |t.nodes|
    requires PreparedBy(Repositories(t.nodes, t.traits, root), outcomes)
    modifies t
    ensures t.Valid() && |old(t.nodes)| <= |t.nodes|
    ensures var undefined := UndefinedRepoOptions(old(t.nodes), old(t.traits), root);
      |undefined| > 0 ==> (r == Failure(Fail(UnknownValues(undefined))) && t.nodes == old(t.nodes) && t.deps == old(t.deps))
    ensures UndefinedRepoOptions(old(t.nodes), old(t.traits), root) == [] && Modules.Gather(outcomes).Failure? ==>
      (r == Failure(Modules.Gather(outcomes).error) && t.nodes == old(t.nodes) && t.deps == old(t.deps))
    ensures UndefinedRepoOptions(old(t.nodes), old(t.traits), root) == [] && Modules.Gather(outcomes) == Success([]) ==>
      r == Failure(Raised(BuildError, NoModuleFound))
    ensures (UndefinedRepoOptions(old(t.nodes), old(t.traits), root) == [] && Modules.Gather(outcomes).Success? &&
             |Modules.Gather(outcomes).value| > 0) ==>
      var inits := Modules.Gather(outcomes).value;
      (r.Failure? <==> (exists k :: 0 <= k < |inits| && Modules.DuplicateOption(inits[k].options)) ||
                       (exists k :: 0 <= k < |inits| && Modules.Missing(inits, k)))
    ensures r.Success? ==>
      UndefinedRepoOptions(old(t.nodes), old(t.traits), root) == [] && Modules.Gather(outcomes).Success? &&
      |r.value| == |Modules.Gather(outcomes).value| > 0 &&
      forall k :: 0 <= k < |r.value| ==>
        (r.value[k] < |t.nodes| &&
         t.nodes[r.value[k]] == Modules.ModuleNodeOf(Modules.Gather(outcomes).value[k]).(parent := t.nodes[r.value[k]].parent))
    ensures r.Success? ==>
      BuiltAndResolved(old(t.nodes), old(t.traits), old(t.deps), t.nodes, t.traits, t.deps,
                       Modules.Gather(outcomes).value, r.value, root)
  {
    var undefined := UndefinedRepoOptions(t.nodes, t.traits, root);
    if |undefined| > 0 {
      return Failure(Fail(UnknownValues(undefined)));
    }
    var gathered := Modules.Gather(outcomes);
    if gathered.Failure? {
      return Failure(gathered.error);
    }
    Modules.GatherSpec(outcomes);
    PreparedIn(t.nodes, Repositories(t.nodes, t.traits, root), outcomes);
    r := BuildAndResolve(t, root, gathered.value);
  }

  /**
   * The tail of `prepare_repositories`: `build_modules`, the refusal of an
   * empty result, then `_resolve_dependencies(ignore_failure=True)` from the
   * root.
   */
  method BuildAndResolve(t: NodeTree.Tree, root: nat, inits: seq<Modules.Prepared>) returns (r: Result<seq<nat>>)
    requires t.Valid() && root < |t.nodes| && Modules.RepositoriesIn(t.nodes, inits)
    modifies t
    ensures t.Valid() && |old(t.nodes)| <= |t.nodes|
    ensures |inits| == 0 ==> r == Failure(Raised(BuildError, NoModuleFound))
    ensures |inits| > 0 ==>
      (r.Failure? <==> (exists k :: 0 <= k < |inits| && Modules.DuplicateOption(inits[k].options)) ||
                       (exists k :: 0 <= k < |inits| && Modules.Missing(inits, k)))
    ensures r.Success? ==> (|r.value| == |inits| > 0 &&
      forall k :: 0 <= k < |inits| ==>
        (r.value[k] < |t.nodes| && t.nodes[r.value[k]] == Modules.ModuleNodeOf(inits[k]).(parent := t.nodes[r.value[k]].parent)))
    ensures r.Success? ==> BuiltAndResolved(old(t.nodes), old(t.traits), old(t.deps), t.nodes, t.traits, t.deps,
                                            inits, r.value, root)
  {
    r := BuildNonEmpty(t, inits);
    if r.Failure? {
      return;
    }
    ResolveIgnoring(t, root);
    BuiltAndResolvedIntro(old(t.nodes), old(t.traits), old(t.deps), t.nodes, t.traits, t.deps, inits, r.value, root);
  }

  /** `build_modules` and the refusal of an empty result. */
  method BuildNonEmpty(t: NodeTree.Tree, inits: seq<Modules.Prepared>) returns (r: Result<seq<nat>>)
    requires t.Valid() && Modules.RepositoriesIn(t.nodes, inits)
    modifies t
    ensures t.Valid() && |old(t.nodes)| <= |t.nodes|
    ensures |inits| == 0 ==> r == Failure(Raised(BuildError, NoModuleFound))
    ensures |inits| > 0 ==>
      (r.Failure? <==> (exists k :: 0 <= k < |inits| && Modules.DuplicateOption(inits[k].options)) ||
                       (exists k :: 0 <= k < |inits| && Modules.Missing(inits, k)))
    ensures r.Success? ==> (|r.value| == |inits| > 0 &&
      forall k :: 0 <= k < |inits| ==>
        (r.value[k] < |t.nodes| && t.nodes[r.value[k]] == Modules.ModuleNodeOf(inits[k]).(parent := t.nodes[r.value[k]].parent)))
    ensures r.Success? ==> (t.nodes[..|old(t.nodes)|] == old(t.nodes) && |old(t.traits)| == |old(t.nodes)| &&
      (forall k :: 0 <= k < |inits| ==> !Modules.Missing(inits, k)) &&
      (forall k :: 0 <= k < |inits| ==> r.value[k] < |t.nodes| && t.nodes[r.value[k]].parent == Modules.Link(inits, r.value, k)) &&
      Modules.RepositoriesIn(old(t.nodes), inits) &&
      |old(t.traits) + Modules.CreatedTraits(old(t.nodes), inits)| == |t.nodes| &&
      t.traits == Modules.UpdateAll(t.nodes, old(t.traits) + Modules.CreatedTraits(old(t.nodes), inits), r.value) &&
      t.deps == old(t.deps) + Modules.CreatedDeps(inits))
  {
    r := Modules.BuildModules(t, inits);
    if r.Failure? {
      return;
    }
    if |r.value| == 0 {
      return Failure(Raised(BuildError, NoModuleFound));
    }
    Modules.PrefixPointwise(old(t.nodes), t.nodes);
  }

  lemma BuiltAndResolvedIntro(n0: seq<NodeTree.Node>, t0: seq<NodeTree.Traits>, d0: seq<NodeTree.DepState>,
                              ns: seq<NodeTree.Node>, tr: seq<NodeTree.Traits>, ds: seq<NodeTree.DepState>,
                              inits: seq<Modules.Prepared>, mods: seq<nat>, root: nat)
    requires |mods| == |inits| && |n0| <= |ns| && ns[..|n0|] == n0 && |t0| == |n0|
    requires forall k :: 0 <= k < |inits| ==> !Modules.Missing(inits, k)
    requires forall k :: 0 <= k < |inits| ==> mods[k] < |ns| && ns[mods[k]].parent == Modules.Link(inits, mods, k)
    requires Modules.RepositoriesIn(n0, inits) && NodeTree.WellFormed(ns)
    requires |t0 + Modules.CreatedTraits(n0, inits)| == |ns|
    requires tr == Modules.UpdateAll(ns, t0 + Modules.CreatedTraits(n0, inits), mods)
    requires ResolvedIgnoring(ns, tr, d0 + Modules.CreatedDeps(inits), ds, root)
    ensures BuiltAndResolved(n0, t0, d0, ns, tr, ds, inits, mods, root)
  {
  }

  /** `_resolve_dependencies(ignore_failure=True)` from `root`, which cannot fail. */
  method ResolveIgnoring(t: NodeTree.Tree, root: nat)
    requires t.Valid() && root < |t.nodes|
    modifies t
    ensures t.Valid() && t.nodes == old(t.nodes) && t.traits == old(t.traits)
    ensures ResolvedIgnoring(t.nodes, t.traits, old(t.deps), t.deps, root)
  {
    var _ := t.ResolveDependencies(root, true);
  }

  /**
   * The tree after `build_modules` and the resolution from the root: the old
   * nodes kept, each module linked below its parent module or repository,
   * every module updated from the created traits, and the dependency states
   * the creation left resolved from the root with failures ignored.
   */
  ghost predicate BuiltAndResolved(n0: seq<NodeTree.Node>, t0: seq<NodeTree.Traits>, d0: seq<NodeTree.DepState>,
                                   ns: seq<NodeTree.Node>, tr: seq<NodeTree.Traits>, ds: seq<NodeTree.DepState>,
                                   inits: seq<Modules.Prepared>, mods: seq<nat>, root: nat)
  {
    |mods| == |inits| && |n0| <= |ns| && ns[..|n0|] == n0 && |t0| == |n0| &&
    (forall k :: 0 <= k < |inits| ==>
       (mods[k] < |ns| && !Modules.Missing(inits, k) && ns[mods[k]].parent == Modules.Link(inits, mods, k))) &&
    Modules.RepositoriesIn(n0, inits) && NodeTree.WellFormed(ns) &&
    |t0 + Modules.CreatedTraits(n0, inits)| == |ns| &&
    tr == Modules.UpdateAll(ns, t0 + Modules.CreatedTraits(n0, inits), mods) &&
    ResolvedIgnoring(ns, tr, d0 + Modules.CreatedDeps(inits), ds, root)
  }

  /**
   * `ds` is what `_resolve_dependencies(ignore_failure=True)` from `root`
   * makes of `ds0`: every node reached without passing a resolved one gets
   * the modules its names resolve to and stays unresolved; no other changes.
   */
  ghost predicate ResolvedIgnoring(ns: seq<NodeTree.Node>, tr: seq<NodeTree.Traits>, ds0: seq<NodeTree.DepState>,
                                   ds: seq<NodeTree.DepState>, root: nat)
  {
    NodeTree.WellFormed(ns) && |tr| == |ns| && |ds0| == |ns| && |ds| == |ns| && root < |ns| &&
    var outs := NodeTree.Outcomes(ns, tr, ds0, true, |ns|);
    NodeTree.OnlyReached(ns, ds0, ds, root, true, outs) && NodeTree.AllReached(ns, ds0, ds, root, true, outs)
  }

  // ---------------------------------------------------- parse_repository

  /** No two children of the node share a name. */
  predicate ChildNamesUnique(ns: seq<NodeTree.Node>, p: int)
  {
    forall a, b :: 0 <= a < b < |ns| && ns[a].parent == p && ns[b].parent == p ==> ns[a].name != ns[b].name
  }

  function Ambiguous(name: string): string
  {
    "Repository name '" + name + "' is ambiguous. Name must be unique."
  }

  /**
   * `parse_repository` after the repository file has been read: a
   * repository named like a child of the parser is refused; otherwise it
   * becomes the parser's child, its own repository.
   */
  method ParseRepository(t: NodeTree.Tree, root: nat, name: string) returns (r: Result<nat>)
    requires t.Valid() && root < |t.nodes| && t.nodes[root].kind == NodeTree.ParserNode
    modifies t
    ensures t.Valid()
    ensures r.Failure? <==> exists c :: 0 <= c < |old(t.nodes)| && old(t.nodes)[c].parent == root && old(t.nodes)[c].name == name
    ensures r.Failure? ==>
      (r.error == Fail(Ambiguous(name)) && t.nodes == old(t.nodes) && t.traits == old(t.traits) && t.deps == old(t.deps))
    ensures r.Success? ==> (r.value == |old(t.nodes)| &&
      t.nodes == old(t.nodes) + [NodeTree.Node(name, NodeTree.RepositoryNode, name, root, r.value, None)] &&
      t.traits == old(t.traits) + [NodeTree.InitialTraits(NodeTree.RepositoryNode)] &&
      t.deps == old(t.deps) + [NodeTree.DepState([], false, [])])
    ensures ChildNamesUnique(old(t.nodes), root) ==> ChildNamesUnique(t.nodes, root)
  {
    if exists c :: 0 <= c < |t.nodes| && t.nodes[c].parent == root && t.nodes[c].name == name {
      return Failure(Fail(Ambiguous(name)));
    }
    var i := t.AddNode(name, NodeTree.RepositoryNode, name, root, |t.nodes|);
    return Success(i);
  }

  // ---------------------------------------------------- load_repositories

  /** What reading a repository file yields here: the repository's name and its alias map. */
  datatype RepoFile = RepoFile(name: string, configMap: seq<(string, string)>)

  function AliasMissing(alias: string, configMap: seq<(string, string)>): string
  {
    "Configuration alias '" + alias + "' not found in any map! Available aliases: '" +
    Text.Join(Config.Keys(configMap), "', '") + "'"
  }

  /** `del node._extends[...]` when `find` found no node. */
  const NoNode: Error := Raised(OtherError, "'NoneType' object has no attribute '_extends'")

  const NoRepositories: string := "No repositories loaded!"

  lemma ExtendAt(t: Config.ConfigTree, p: seq<nat>, c: Config.ConfigTree)
    requires Config.ValidPath(t, p)
    ensures Config.ValidPath(Config.Extend(t, p, c), p) && Config.At(Config.Extend(t, p, c), p).data == Config.At(t, p).data
    ensures multiset(Config.PreOrder(t)) <= multiset(Config.PreOrder(Config.Extend(t, p, c)))
  {
    Config.ReplaceAtAt(t, p, Config.Spliced(Config.At(t, p), c));
    Config.ExtendNodes(t, p, c);
  }

  /**
   * The aliases of one file in turn: each must name a file in the alias
   * map, which is loaded and extended below the file's node, when there is
   * one.
   */
  function ExtendAliases(cfg: Config.ConfigTree, p: Option<seq<nat>>, aliases: seq<string>,
                         configMap: seq<(string, string)>, load: string -> Result<Config.ConfigTree>): (r: Result<Config.ConfigTree>)
    requires p.Some? ==> Config.ValidPath(cfg, p.value)
    ensures r.Success? ==> multiset(Config.PreOrder(cfg)) <= multiset(Config.PreOrder(r.value))
    ensures r.Success? && p.Some? ==>
      Config.ValidPath(r.value, p.value) && Config.At(r.value, p.value).data == Config.At(cfg, p.value).data
    decreases |aliases|
  {
    if |aliases| == 0 then Success(cfg)
    else
      match Config.Get(configMap, aliases[0])
      case None => Failure(Fail(AliasMissing(aliases[0], configMap)))
      case Some(path) =>
        match load(path)
        case Failure(e) => Failure(e)
        case Success(c) =>
          if p.None? then ExtendAliases(cfg, p, aliases[1..], configMap, load)
          else
            ExtendAt(cfg, p.value, c);
            ExtendAliases(Config.Extend(cfg, p.value, c), p, aliases[1..], configMap, load)
  }

  /** The node at `p` without the `extends` entry of `filename`, or the `KeyError` of `del` when it has none. */
  function Settle(cfg: Config.ConfigTree, p: seq<nat>, filename: string): (r: Result<Config.ConfigTree>)
    requires Config.ValidPath(cfg, p)
  {
    var node := Config.At(cfg, p);
    if filename !in Config.Keys(node.data.extended) then Failure(Raised(KeyError, filename))
    else Success(Config.ReplaceAt(cfg, p, node.(data := node.data.(extended := Config.Delete(node.data.extended, filename)))))
  }

  /** One `(filename, aliases)` entry of the pass: find the file's node, extend it by each alias, then drop its entry. */
  function ExtendEntry(cfg: Config.ConfigTree, filename: string, aliases: seq<string>,
                       configMap: seq<(string, string)>, load: string -> Result<Config.ConfigTree>): Result<Config.ConfigTree>
  {
    var found :- Config.Find(cfg, filename);
    var ext :- ExtendAliases(cfg, found, aliases, configMap, load);
    if found.None? then Failure(NoNode) else Settle(ext, found.value, filename)
  }

  /** One pass over the flattened `extends` entries, in order. */
  function ExtendsSpec(cfg: Config.ConfigTree, entries: seq<(string, seq<string>)>,
                       configMap: seq<(string, string)>, load: string -> Result<Config.ConfigTree>): Result<Config.ConfigTree>
    decreases |entries|
  {
    if |entries| == 0 then Success(cfg)
    else
      var next :- ExtendEntry(cfg, entries[0].0, entries[0].1, configMap, load);
      ExtendsSpec(next, entries[1..], configMap, load)
  }

  /**
   * The extension of one alias list succeeds only when every alias is in the
   * map, and the first missing alias whose predecessors all loaded is the
   * error.
   */
  lemma {:induction false} ExtendAliasesSpec(cfg: Config.ConfigTree, p: Option<seq<nat>>, aliases: seq<string>,
                                             configMap: seq<(string, string)>, load: string -> Result<Config.ConfigTree>, i: nat)
    requires p.Some? ==> Config.ValidPath(cfg, p.value)
    requires i < |aliases|
    ensures ExtendAliases(cfg, p, aliases, configMap, load).Success? ==> aliases[i] in Config.Keys(configMap)
    ensures (aliases[i] !in Config.Keys(configMap) &&
             forall j :: 0 <= j < i ==> (Config.Get(configMap, aliases[j]).Some? &&
                                         load(Config.Get(configMap, aliases[j]).value).Success?)) ==>
      ExtendAliases(cfg, p, aliases, configMap, load) == Failure(Fail(AliasMissing(aliases[i], configMap)))
    decreases |aliases|
  {
    var m := Config.Get(configMap, aliases[0]);
    if m.Some? && load(m.value).Success? && i > 0 {
      var c := load(m.value).value;
      var next := if p.None? then cfg else Config.Extend(cfg, p.value, c);
      if p.Some? { ExtendAt(cfg, p.value, c); }
      assert forall j :: 0 <= j < i - 1 ==> aliases[1..][j] == aliases[j + 1];
      ExtendAliasesSpec(next, p, aliases[1..], configMap, load, i - 1);
    }
  }

  /**
   * A successful entry found exactly one node of the file, kept every node
   * but that one, and left that node's data as it was except that the
   * file's `extends` entry is gone.
   */
  lemma ExtendEntrySpec(cfg: Config.ConfigTree, filename: string, aliases: seq<string>,
                        configMap: seq<(string, string)>, load: string -> Result<Config.ConfigTree>)
    ensures var r := ExtendEntry(cfg, filename, aliases, configMap, load);
      r.Success? ==>
        exists p :: Config.Find(cfg, filename) == Success(Some(p)) && Config.ValidPath(r.value, p) &&
          filename in Config.Keys(Config.At(cfg, p).data.extended) &&
          Config.At(r.value, p).data ==
            Config.At(cfg, p).data.(extended := Config.Delete(Config.At(cfg, p).data.extended, filename)) &&
          multiset(Config.PreOrder(cfg)) - multiset{Config.At(cfg, p).data} <= multiset(Config.PreOrder(r.value))
  {
    var r := ExtendEntry(cfg, filename, aliases, configMap, load);
    if r.Success? {
      var p := Config.Find(cfg, filename).value.value;
      var ext := ExtendAliases(cfg, Some(p), aliases, configMap, load).value;
      var node := Config.At(ext, p);
      var node' := node.(data := node.data.(extended := Config.Delete(node.data.extended, filename)));
      assert r.value == Config.ReplaceAt(ext, p, node');
      SettleNodes(cfg, ext, p, node');
      assert Config.ValidPath(r.value, p) && Config.At(r.value, p).data == node'.data;
    }
  }

  lemma SettleNodes(cfg: Config.ConfigTree, ext: Config.ConfigTree, p: seq<nat>, node': Config.ConfigTree)
    requires Config.ValidPath(cfg, p) && Config.ValidPath(ext, p)
    requires multiset(Config.PreOrder(cfg)) <= multiset(Config.PreOrder(ext))
    requires Config.At(ext, p).data == Config.At(cfg, p).data && node'.children == Config.At(ext, p).children
    ensures Config.ValidPath(Config.ReplaceAt(ext, p, node'), p) && Config.At(Config.ReplaceAt(ext, p, node'), p) == node'
    ensures multiset(Config.PreOrder(cfg)) - multiset{Config.At(cfg, p).data} <=
            multiset(Config.PreOrder(Config.ReplaceAt(ext, p, node')))
  {
    var node := Config.At(ext, p);
    Config.ReplaceAtAt(ext, p, node');
    Config.ReplaceAtNodes(ext, p, node');
    AtInPreOrder(cfg, p);
    var f := multiset(Config.PreForest(node.children));
    assert multiset(Config.PreOrder(node)) == multiset{node.data} + f;
    assert multiset(Config.PreOrder(node')) == multiset{node'.data} + f;
    NodeExchange(multiset(Config.PreOrder(cfg)), multiset(Config.PreOrder(ext)),
                 multiset(Config.PreOrder(Config.ReplaceAt(ext, p, node'))), f, node.data, node'.data);
  }

  lemma {:induction false} AtInPreOrder(t: Config.ConfigTree, p: seq<nat>)
    requires Config.ValidPath(t, p)
    ensures Config.At(t, p).data in multiset(Config.PreOrder(t))
    decreases |p|
  {
    if |p| > 0 {
      AtInPreOrder(t.children[p[0]], p[1..]);
      ForestHas(t.children, p[0]);
    }
  }

  lemma {:induction false} ForestHas(cs: seq<Config.ConfigTree>, i: nat)
    requires i < |cs|
    ensures multiset(Config.PreOrder(cs[i])) <= multiset(Config.PreForest(cs))
    decreases |cs|
  {
    if i < |cs| - 1 {
      ForestHas(cs[..|cs| - 1], i);
      assert cs[..|cs| - 1][i] == cs[i];
    }
  }

  /** Multiset bookkeeping of replacing one node's data. */
  lemma NodeExchange<T>(c: multiset<T>, e: multiset<T>, r: multiset<T>, f: multiset<T>, d: T, d': T)
    requires c <= e && d in c
    requires r + (multiset{d} + f) == e + (multiset{d'} + f)
    ensures c - multiset{d} <= r
  {
    forall x ensures (c - multiset{d})[x] <= r[x] {
      assert (r + (multiset{d} + f))[x] == r[x] + multiset{d}[x] + f[x];
      assert (e + (multiset{d'} + f))[x] == e[x] + multiset{d'}[x] + f[x];
      assert c[x] <= e[x];
    }
  }

  /**
   * Loaders whose configurations are single nodes: `from_file` gives one
   * only for a file with no `extends` path that exists, since it hangs each
   * file it finds below the new node.
   */
  ghost predicate LoadsLeaves(load: string -> Result<Config.ConfigTree>)
  {
    forall f :: load(f).Success? ==> load(f).value.children == []
  }

  /** Each alias extends a chain by one node, so the tree stays a chain. */
  lemma {:induction false} ExtendAliasesChain(cfg: Config.ConfigTree, p: Option<seq<nat>>, aliases: seq<string>,
                                              configMap: seq<(string, string)>, load: string -> Result<Config.ConfigTree>)
    requires p.Some? ==> Config.ValidPath(cfg, p.value)
    requires Config.Chain(cfg) && LoadsLeaves(load)
    ensures ExtendAliases(cfg, p, aliases, configMap, load).Success? ==>
      Config.Chain(ExtendAliases(cfg, p, aliases, configMap, load).value)
    decreases |aliases|
  {
    if |aliases| > 0 {
      var m := Config.Get(configMap, aliases[0]);
      if m.Some? && load(m.value).Success? {
        var c := load(m.value).value;
        if p.Some? {
          ExtendAt(cfg, p.value, c);
          Config.ExtendChain(cfg, p.value, c);
          ExtendAliasesChain(Config.Extend(cfg, p.value, c), p, aliases[1..], configMap, load);
        } else {
          ExtendAliasesChain(cfg, p, aliases[1..], configMap, load);
        }
      }
    }
  }

  /**
   * A pass over the `extends` entries keeps a chain a chain when every
   * loaded configuration is a single node.
   */
  lemma {:induction false} ExtendsSpecChain(cfg: Config.ConfigTree, entries: seq<(string, seq<string>)>,
                                            configMap: seq<(string, string)>, load: string -> Result<Config.ConfigTree>)
    requires Config.Chain(cfg) && LoadsLeaves(load)
    ensures ExtendsSpec(cfg, entries, configMap, load).Success? ==>
      Config.Chain(ExtendsSpec(cfg, entries, configMap, load).value)
    decreases |entries|
  {
    if |entries| > 0 {
      var next := ExtendEntry(cfg, entries[0].0, entries[0].1, configMap, load);
      if next.Success? {
        var found := Config.Find(cfg, entries[0].0);
        ExtendAliasesChain(cfg, found.value, entries[0].1, configMap, load);
        var ext := ExtendAliases(cfg, found.value, entries[0].1, configMap, load).value;
        var p := found.value.value;
        var node := Config.At(ext, p);
        Config.AtChain(ext, p);
        Config.ReplaceAtChain(ext, p, node.(data := node.data.(extended := Config.Delete(node.data.extended, entries[0].0))));
        ExtendsSpecChain(next.value, entries[1..], configMap, load);
      }
    }
  }

  /**
   * The `for filename, aliases in ...` pass of `load_repositories`, proved
   * to be the pass `ExtendsSpec` describes.
   */
  method ApplyExtends(cfg: Config.ConfigTree, entries: seq<(string, seq<string>)>,
                      configMap: seq<(string, string)>, load: string -> Result<Config.ConfigTree>)
    returns (r: Result<Config.ConfigTree>)
    ensures r == ExtendsSpec(cfg, entries, configMap, load)
  {
    var cur := cfg;
    var k := 0;
    while k < |entries|
      invariant 0 <= k <= |entries|
      invariant ExtendsSpec(cur, entries[k..], configMap, load) == ExtendsSpec(cfg, entries, configMap, load)
    {
      assert entries[k..][0] == entries[k] && entries[k..][1..] == entries[k + 1..];
      var filename, aliases := entries[k].0, entries[k].1;
      var found := Config.Find(cur, filename);
      if found.Failure? {
        return Failure(found.error);
      }
      var node := found.value;
      var ext := cur;
      var a := 0;
      while a < |aliases|
        invariant 0 <= a <= |aliases|
        invariant node.Some? ==> Config.ValidPath(ext, node.value)
        invariant ExtendAliases(ext, node, aliases[a..], configMap, load) == ExtendAliases(cur, node, aliases, configMap, load)
      {
        assert aliases[a..][0] == aliases[a] && aliases[a..][1..] == aliases[a + 1..];
        var path := Config.Get(configMap, aliases[a]);
        if path.None? {
          return Failure(Fail(AliasMissing(aliases[a], configMap)));
        }
        var c := load(path.value);
        if c.Failure? {
          return Failure(c.error);
        }
        if node.Some? {
          ExtendAt(ext, node.value, c.value);
          ext := Config.Extend(ext, node.value, c.value);
        }
        a := a + 1;
      }
      assert aliases[a..] == [];
      if node.None? {
        return Failure(NoNode);
      }
      var settled := Settle(ext, node.value, filename);
      if settled.Failure? {
        return Failure(settled.error);
      }
      cur := settled.value;
      k := k + 1;
    }
    assert entries[k..] == [];
    return Success(cur);
  }

  /** No name occurs twice. */
  predicate Unique(xs: seq<string>)
  {
    forall p, q :: 0 <= p < q < |xs| ==> xs[p] != xs[q]
  }

  /** `xs - ys` on sets, in the order of `xs`. */
  function Minus(xs: seq<string>, ys: seq<string>): (r: seq<string>)
    ensures forall x :: x in r <==> x in xs && x !in ys
    ensures Unique(xs) ==> Unique(r)
  {
    if |xs| == 0 then []
    else
      var rest := Minus(xs[1..], ys);
      assert forall x :: x in xs <==> x == xs[0] || x in xs[1..];
      if xs[0] in ys then rest
      else
        assert Unique(xs) ==> xs[0] !in xs[1..];
        [xs[0]] + rest
  }

  lemma UniqueAppend(a: seq<string>, b: seq<string>)
    requires Unique(a) && Unique(b) && forall x :: x in b ==> x !in a
    ensures Unique(a + b)
  {
    forall p, q | 0 <= p < q < |a + b| ensures (a + b)[p] != (a + b)[q] {
      if p < |a| && q >= |a| {
        assert (a + b)[q] == b[q - |a|];
        assert (a + b)[q] in b;
      }
    }
  }

  /** `(repofiles | found) - parsed`, added to `parsed`, covers both sets. */
  lemma RoundCovers(pending: seq<string>, found: seq<string>, parsed: seq<string>)
    ensures forall f :: f in pending || f in found ==> f in parsed + Minus(Options.Dedup(pending + found), parsed)
  {
    forall f | f in pending || f in found
      ensures f in parsed + Minus(Options.Dedup(pending + found), parsed)
    {
      assert f in pending + found;
    }
  }

  lemma UniquePrefix(a: seq<string>, b: seq<string>, n: nat)
    requires Unique(a + b) && n <= |b|
    ensures Unique(a + b[..n])
  {
    assert a + b[..n] == (a + b)[..|a| + n];
  }

  /** The alias map after `config_map.update(...)` with the map of every file read. */
  function AliasMap(m: seq<(string, string)>, files: seq<string>, parse: string -> Result<RepoFile>): seq<(string, string)>
  {
    if |files| == 0 then m
    else
      var prev := AliasMap(m, files[..|files| - 1], parse);
      var info := parse(files[|files| - 1]);
      if info.Success? then Config.Update(prev, info.value.configMap) else prev
  }

  /**
   * The `for repofile in repofiles` loop: every file is read and its
   * repository registered below the parser, until one fails; `n` files
   * were handed to `parse`.
   */
  method ReadRepositories(t: NodeTree.Tree, root: nat, files: seq<string>, configMap: seq<(string, string)>,
                          parse: string -> Result<RepoFile>)
    returns (err: Option<Error>, m: seq<(string, string)>, n: nat)
    requires t.Valid() && root < |t.nodes| && t.nodes[root].kind == NodeTree.ParserNode
    modifies t
    ensures t.Valid() && |old(t.nodes)| <= |t.nodes| && t.nodes[root] == old(t.nodes)[root]
    ensures n <= |files| && (err.None? ==> n == |files| && m == AliasMap(configMap, files, parse))
    ensures err.Some? ==> n > 0 && (parse(files[n - 1]).Failure? ==> err.value == parse(files[n - 1]).error)
    ensures ChildNamesUnique(old(t.nodes), root) ==> ChildNamesUnique(t.nodes, root)
  {
    m := configMap;
    n := 0;
    while n < |files|
      invariant n <= |files| && m == AliasMap(configMap, files[..n], parse)
      invariant t.Valid() && |old(t.nodes)| <= |t.nodes| && t.nodes[root] == old(t.nodes)[root]
      invariant ChildNamesUnique(old(t.nodes), root) ==> ChildNamesUnique(t.nodes, root)
    {
      assert files[..n + 1][..n] == files[..n];
      var info := parse(files[n]);
      n := n + 1;
      if info.Failure? {
        return Some(info.error), m, n;
      }
      ghost var before := t.nodes;
      var added := ParseRepository(t, root, info.value.name);
      assert t.nodes[root] == before[root];
      if added.Failure? {
        return Some(added.error), m, n;
      }
      m := Config.Update(m, info.value.configMap);
    }
    assert files[..n] == files;
    return None, m, n;
  }

  /**
   * One round's reading: the repository files given or found in the
   * configuration and not read before are read in turn, and when there is
   * none at all, nothing was ever loaded.
   */
  method ReadRound(t: NodeTree.Tree, root: nat, pending: seq<string>, found: seq<string>, parsed: seq<string>,
                   configMap: seq<(string, string)>, parse: string -> Result<RepoFile>)
    returns (err: Option<Error>, repofiles: seq<string>, m: seq<(string, string)>, n: nat)
    requires t.Valid() && root < |t.nodes| && t.nodes[root].kind == NodeTree.ParserNode && Unique(parsed)
    modifies t
    ensures t.Valid() && |old(t.nodes)| <= |t.nodes| && t.nodes[root] == old(t.nodes)[root]
    ensures ChildNamesUnique(old(t.nodes), root) ==> ChildNamesUnique(t.nodes, root)
    ensures repofiles == Minus(Options.Dedup(pending + found), parsed) && Unique(parsed + repofiles)
    ensures forall f :: f in pending || f in found ==> f in parsed + repofiles
    ensures n <= |repofiles| && (err.None? ==> n == |repofiles| && m == AliasMap(configMap, repofiles, parse))
    ensures |repofiles| + |parsed| == 0 <==> err == Some(Fail(NoRepositories)) && n == 0
  {
    repofiles := Minus(Options.Dedup(pending + found), parsed);
    RoundCovers(pending, found, parsed);
    UniqueAppend(parsed, repofiles);
    if |repofiles| + |parsed| == 0 {
      return Some(Fail(NoRepositories)), repofiles, configMap, 0;
    }
    err, m, n := ReadRepositories(t, root, repofiles, configMap, parse);
    if err.Some? {
      assert err.value != Fail(NoRepositories) || n > 0;
    }
  }

  lemma SettledRound(flat: Config.ConfigData, cfg: Config.ConfigTree, pending: seq<string>, loaded: seq<string>)
    requires flat == Config.FlattenAsWritten(cfg) && (Config.Chain(cfg) ==> flat == Config.Flatten(cfg))
    requires flat.extended == [] && |loaded| > 0
    requires forall f :: f in pending || f in flat.repositories ==> f in loaded
    ensures Settled(flat, cfg, pending, loaded)
  {
  }

  /**
   * One round of `load_repositories` on the configuration `cfg`: flatten
   * it, read the repository files not read before, and either finish
   * (`done`) or apply the pending `extends` entries, giving `next`.
   */
  method LoadRound(t: NodeTree.Tree, root: nat, cfg: Config.ConfigTree, pending: seq<string>, parsed: seq<string>,
                   configMap: seq<(string, string)>, parse: string -> Result<RepoFile>, load: string -> Result<Config.ConfigTree>)
    returns (done: Option<Result<Config.ConfigData>>, next: Config.ConfigTree, repofiles: seq<string>, m: seq<(string, string)>, n: nat)
    requires t.Valid() && root < |t.nodes| && t.nodes[root].kind == NodeTree.ParserNode && Unique(parsed)
    modifies t
    ensures t.Valid() && |old(t.nodes)| <= |t.nodes| && t.nodes[root] == old(t.nodes)[root]
    ensures ChildNamesUnique(old(t.nodes), root) ==> ChildNamesUnique(t.nodes, root)
    ensures n <= |repofiles| && Unique(parsed + repofiles[..n])
    ensures done.None? ==> ExtendsSpec(cfg, Config.FlattenAsWritten(cfg).extended, m, load) == Success(next)
    ensures Config.Chain(cfg) && LoadsLeaves(load) ==> Config.Chain(next)
    ensures forall f :: f in pending ==> f in parsed + repofiles
    ensures done.None? ==> n == |repofiles| && Unique(parsed + repofiles)
    ensures done.Some? && done.value.Success? ==> Settled(done.value.value, cfg, pending, parsed + repofiles[..n])
    ensures pending == [] && parsed == [] && Config.FlattenAsWritten(cfg).repositories == [] ==>
      done == Some(Failure(Fail(NoRepositories)))
  {
    next := cfg;
    var flat := Config.FlattenAsWritten(cfg);
    if Config.Chain(cfg) {
      Config.FlattenChain(cfg);
    }
    var err;
    err, repofiles, m, n := ReadRound(t, root, pending, flat.repositories, parsed, configMap, parse);
    assert pending == [] && flat.repositories == [] && parsed == [] ==> |repofiles| == 0 by {
      if |repofiles| > 0 { assert repofiles[0] in repofiles; }
    }
    UniquePrefix(parsed, repofiles, n);
    if err.Some? {
      return Some(Failure(err.value)), next, repofiles, m, n;
    }
    assert repofiles[..n] == repofiles;
    if flat.extended == [] {
      SettledRound(flat, cfg, pending, parsed + repofiles);
      return Some(Success(flat)), next, repofiles, m, n;
    }
    var extended := ApplyExtends(cfg, flat.extended, m, load);
    if Config.Chain(cfg) && LoadsLeaves(load) {
      ExtendsSpecChain(cfg, flat.extended, m, load);
    }
    if extended.Failure? {
      return Some(Failure(extended.error)), next, repofiles, m, n;
    }
    next := extended.value;
    done := None;
  }

  /**
   * How `load_repositories` ends: `flat` is the configuration as `_flatten`
   * is written to merge it (which is the intended merge when the
   * configuration is a chain), nothing is left to extend, and every
   * repository file given or named in the configuration was read.
   */
  ghost predicate Settled(flat: Config.ConfigData, cfg: Config.ConfigTree, repofilenames: seq<string>, loaded: seq<string>)
  {
    flat == Config.FlattenAsWritten(cfg) && (Config.Chain(cfg) ==> flat == Config.Flatten(cfg)) &&
    flat.extended == [] && |loaded| > 0 &&
    (forall f :: f in repofilenames ==> f in loaded) &&
    (forall f :: f in flat.repositories ==> f in loaded)
  }

  /**
   * `load_repositories` for at most `fuel` rounds: each round flattens the
   * configuration, reads the repository files not read before, registers
   * each repository below the parser and merges its alias map, and stops
   * when nothing is left to extend; otherwise every pending `extends` entry
   * is applied and the next round starts. `loaded` lists the files handed
   * to `parse`, in order.
   */
  method LoadRepositories(t: NodeTree.Tree, root: nat, config: Config.ConfigTree, repofilenames: seq<string>,
                          parse: string -> Result<RepoFile>, load: string -> Result<Config.ConfigTree>, fuel: nat)
    returns (r: Result<Config.ConfigData>, cfg: Config.ConfigTree, loaded: seq<string>)
    requires t.Valid() && root < |t.nodes| && t.nodes[root].kind == NodeTree.ParserNode
    modifies t
    ensures t.Valid() && |old(t.nodes)| <= |t.nodes|
    ensures Unique(loaded)
    ensures Config.Chain(config) && LoadsLeaves(load) ==> Config.Chain(cfg)
    ensures fuel > 0 && repofilenames == [] && Config.FlattenAsWritten(config).repositories == [] ==>
      r == Failure(Fail(NoRepositories))
    ensures r.Success? ==> Settled(r.value, cfg, repofilenames, loaded)
    ensures ChildNamesUnique(old(t.nodes), root) ==> ChildNamesUnique(t.nodes, root)
  {
    cfg := config;
    loaded := [];
    var pending := Options.Dedup(repofilenames);
    var parsed: seq<string> := [];
    var configMap: seq<(string, string)> := [];
    var rounds := fuel;
    ghost var given := !(repofilenames == [] && Config.FlattenAsWritten(config).repositories == []);
    while rounds > 0
      invariant t.Valid() && |old(t.nodes)| <= |t.nodes| && root < |t.nodes| && t.nodes[root].kind == NodeTree.ParserNode
      invariant loaded == parsed && Unique(parsed)
      invariant Config.Chain(config) && LoadsLeaves(load) ==> Config.Chain(cfg)
      invariant forall f :: f in repofilenames ==> f in parsed || f in pending
      invariant rounds == fuel ==> cfg == config && parsed == [] && pending == Options.Dedup(repofilenames)
      invariant rounds < fuel ==> given
      invariant ChildNamesUnique(old(t.nodes), root) ==> ChildNamesUnique(t.nodes, root)
      decreases rounds
    {
      var done, next, repofiles, n;
      done, next, repofiles, configMap, n := LoadRound(t, root, cfg, pending, parsed, configMap, parse, load);
      loaded := parsed + repofiles[..n];
      parsed := parsed + repofiles;
      if done.Some? {
        return done.value, cfg, loaded;
      }
      assert repofiles[..n] == repofiles;
      cfg := next;
      pending := repofiles;
      rounds := rounds - 1;
    }
    return Failure(Unsettled), cfg, loaded;
  }

  /** The outcome when `extends` entries are still pending after the rounds allowed. */
  const Unsettled: Error := Raised(OtherError, "configuration extends still pending")
}
