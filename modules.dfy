/*
 * lbuild/module.py: a module script's `init` and `prepare` hooks fill a
 * `ModuleInit`, `prepare` loads the declared submodules recursively, and
 * `build_modules` turns the prepared modules into module nodes of the node
 * tree, links each below its parent module or its repository, and runs
 * `_update()` on each.
 */
module Modules {
  import opened Errors
  import opened PyValue
  import Text
  import Utils
  import Options
  import NodeTree

  /** An option declared by `prepare` through `module.add_option`. */
  datatype OptionDecl = OptionDecl(name: string, data: Options.OptionData)

  /** What the `init(module)` hook sets: `None` leaves a field as it was. */
  datatype InitEffect = InitEffect(name: Option<string>, parent: Option<string>,
                                   description: Option<string>, filters: map<string, string>)

  /**
   * What the `prepare(module, options)` hook does: the value it returns, and
   * the options, dependencies and submodules it declares.
   */
  datatype PrepareEffect = PrepareEffect(result: Value, options: seq<OptionDecl>,
                                         dependencies: seq<string>, submodules: seq<Script>)

  /** A module script: its file and the outcome of each of its two hooks. */
  datatype Script = Script(filename: string, init: Result<InitEffect>, prepare: Result<PrepareEffect>)

  /** The fields of a `ModuleInit` that the hooks fill. */
  datatype InitState = InitState(name: Option<string>, parent: string, description: string,
                                 filters: map<string, string>, options: seq<OptionDecl>,
                                 dependencies: seq<string>)

  /** A prepared `ModuleInit`, as `build_modules` receives it. */
  datatype Prepared = Prepared(repository: nat, name: string, parent: string, description: string,
                               filters: map<string, string>, available: Value,
                               options: seq<OptionDecl>, dependencies: seq<string>)

  const NameMissing: string :=
    "The init(module) function must set a module name! Please set the 'name' attribute."

  function PrepareNone(name: string): string
  {
    "The prepare() function for module '" + name + "' must return True or False."
  }

  // ------------------------------------------------------------ names

  /** The parent part of a full name: every `:` segment but the last, rejoined. */
  function ParentName(fullname: string): string
  {
    var parts := Text.Split(fullname, ":");
    Text.Join(parts[..|parts| - 1], ":")
  }

  /** `ModuleInit.fullname`: the parent, `:`, then the name. */
  function Qualified(parent: string, name: string): string
  {
    parent + ":" + name
  }

  /** Dropping the last segment of `parent:name` gives `parent` back when the name has no `:`. */
  lemma ParentOfFullName(parent: string, name: string)
    requires ':' !in name
    ensures ParentName(Qualified(parent, name)) == parent
  {
    var ps := Text.Split(parent, ":");
    Text.JoinSplit(parent, ":");
    Text.SplitPiecesFree(parent, ":");
    forall k | 0 <= k < |ps| ensures ':' !in ps[k] {
      Text.CharFree(ps[k], ':');
    }
    Text.JoinSnoc(ps, name, ":");
    Text.SplitJoin(ps + [name], ':');
    assert (ps + [name])[..|ps|] == ps;
  }

  /** A parent name that still holds a `:` is strictly shorter than the full name it came from. */
  lemma ParentNameShorter(s: string)
    ensures ':' in ParentName(s) ==> |ParentName(s)| < |s|
  {
    var ps := Text.Split(s, ":");
    var n := |ps| - 1;
    if n == 0 {
      assert ParentName(s) == "";
    } else {
      Text.JoinSplit(s, ":");
      assert ps == ps[..n] + [ps[n]];
      Text.JoinSnoc(ps[..n], ps[n], ":");
    }
  }

  /**
   * The parent normalisation at the end of `init`: a parent starting with
   * `:` gets the repository name in front, and one that does not then start
   * with the repository name gets the repository name and `:` in front.
   */
  function NormalParent(repoName: string, parent: string): (r: string)
    ensures Text.StartsWith(r, repoName)
  {
    var p := if Text.StartsWith(parent, ":") then repoName + parent else parent;
    if Text.StartsWith(p, repoName) then p
    else
      assert (repoName + ":" + p)[..|repoName|] == repoName;
      repoName + ":" + p
  }

  /** A parent already under the repository, not starting with `:`, is kept as it is. */
  lemma NormalParentKeeps(repoName: string, parent: string)
    requires Text.StartsWith(parent, repoName) && !Text.StartsWith(parent, ":")
    ensures NormalParent(repoName, parent) == parent
  {
  }

  /** Normalising twice gives what normalising once gives, for a repository name not starting with `:`. */
  lemma NormalParentIdempotent(repoName: string, parent: string)
    requires !Text.StartsWith(repoName, ":")
    ensures NormalParent(repoName, NormalParent(repoName, parent)) == NormalParent(repoName, parent)
  {
    var r := NormalParent(repoName, parent);
    if |repoName| > 0 {
      assert r[..1] == repoName[..1];
    } else {
      assert repoName + r == r;
    }
  }

  /** The parent forms `init` accepts, and the string-prefix test behind them. */
  lemma NormalParentExamples()
    ensures NormalParent("repo", ":a") == "repo:a"
    ensures NormalParent("repo", "a") == "repo:a"
    ensures NormalParent("repo", "repo:a") == "repo:a"
    ensures NormalParent("repo", "repository:a") == "repository:a"
  {
    assert Text.StartsWith(":a", ":");
    assert |"a"| == 1 && "a"[..1] == "a";
    assert !Text.StartsWith("a", ":") && !Text.StartsWith("a", "repo");
    assert "repo:a"[..4] == "repo";
    assert "repository:a"[..4] == "repo";
    assert "repo:a"[..1] != ":" && "repository:a"[..1] != ":";
  }

  // ------------------------------------------------------------ init

  /** The fields after the `init` hook's assignments. */
  function Apply(st: InitState, e: InitEffect): InitState
  {
    st.(name := if e.name.Some? then e.name else st.name,
        parent := if e.parent.Some? then e.parent.value else st.parent,
        description := if e.description.Some? then e.description.value else st.description,
        filters := st.filters + e.filters)
  }

  datatype InitOutcome = InitOutcome(state: InitState, error: Option<Error>)

  /**
   * `ModuleInit.init`: run the hook (a foreign exception is forwarded with
   * the module), insist on a name, then normalise the parent.
   */
  function InitSpec(repoName: string, owner: string, st: InitState, hook: Result<InitEffect>): (r: InitOutcome)
    ensures r.error.None? <==> hook.Success? && Apply(st, hook.value).name.Some?
    ensures hook.Failure? ==> r == InitOutcome(st, Some(Utils.WithForwardException(owner, hook).error))
    ensures hook.Success? && Apply(st, hook.value).name.None? ==> r.error == Some(Fail(NameMissing))
    ensures r.error.None? ==> r.state.name.Some? && Text.StartsWith(r.state.parent, repoName)
    ensures r.error.None? ==> r.state == Apply(st, hook.value).(parent := r.state.parent)
  {
    match hook
    case Failure(_) => InitOutcome(st, Some(Utils.WithForwardException(owner, hook).error))
    case Success(e) =>
      var s := Apply(st, e);
      if s.name.None? then InitOutcome(s, Some(Fail(NameMissing)))
      else InitOutcome(s.(parent := NormalParent(repoName, s.parent)), None)
  }

  // ------------------------------------------------------------ prepare

  /** The prepared module: the state after `init` and the `prepare` hook's declarations. */
  function Snapshot(repository: nat, st: InitState, e: PrepareEffect): Prepared
    requires st.name.Some?
  {
    Prepared(repository, st.name.value, st.parent, st.description, st.filters, e.result,
             st.options + e.options, st.dependencies + e.dependencies)
  }

  /** The first failure among the outcomes, else all their modules in order. */
  function Gather(rs: seq<Result<seq<Prepared>>>): Result<seq<Prepared>>
  {
    if |rs| == 0 then Success([])
    else
      var a :- Gather(rs[..|rs| - 1]);
      var b :- rs[|rs| - 1];
      Success(a + b)
  }

  /** Concatenation of the modules of successful outcomes. */
  function Flatten(rs: seq<Result<seq<Prepared>>>): seq<Prepared>
  {
    if |rs| == 0 then []
    else Flatten(rs[..|rs| - 1]) + (if rs[|rs| - 1].Success? then rs[|rs| - 1].value else [])
  }

  /** Gathering fails exactly when one outcome fails, with the first failure; otherwise it concatenates. */
  lemma {:induction false} GatherSpec(rs: seq<Result<seq<Prepared>>>)
    ensures Gather(rs).Success? <==> forall k :: 0 <= k < |rs| ==> rs[k].Success?
    ensures Gather(rs).Success? ==> Gather(rs).value == Flatten(rs)
    ensures Gather(rs).Failure? ==>
      exists k :: 0 <= k < |rs| && rs[k] == Failure(Gather(rs).error) &&
        forall j :: 0 <= j < k ==> rs[j].Success?
    decreases |rs|
  {
    if |rs| > 0 {
      var n := |rs| - 1;
      GatherSpec(rs[..n]);
      assert forall k :: 0 <= k < n ==> rs[..n][k] == rs[k];
      if Gather(rs[..n]).Failure? {
        var k :| 0 <= k < n && rs[..n][k] == Failure(Gather(rs[..n]).error) &&
          forall j :: 0 <= j < k ==> rs[..n][j].Success?;
        assert rs[k] == Failure(Gather(rs).error);
      } else if rs[n].Failure? {
        assert rs[n] == Failure(Gather(rs).error);
      }
    }
  }

  /**
   * `load_module_from_file` / `load_module_from_object`: a fresh
   * `ModuleInit` below `parent` (when one is given) goes through `init` and
   * `prepare`.
   */
  function LoadSpec(repository: nat, repoName: string, parent: string, s: Script): Result<seq<Prepared>>
    decreases s, 2
  {
    var st := InitState(None, if parent != "" then parent else repoName, "", map[], [], []);
    var o := InitSpec(repoName, s.filename, st, s.init);
    if o.error.Some? then Failure(o.error.value) else PrepareSpec(repository, repoName, o.state, s)
  }

  /**
   * `ModuleInit.prepare`: run the hook; a `None` result is an error;
   * otherwise the module itself when the result is truthy, then every
   * submodule's modules in declaration order, each loaded below this
   * module's full name.
   */
  function PrepareSpec(repository: nat, repoName: string, st: InitState, s: Script): Result<seq<Prepared>>
    requires st.name.Some?
    decreases s, 1
  {
    match s.prepare
    case Failure(_) => Failure(Utils.WithForwardException(s.filename, s.prepare).error)
    case Success(e) =>
      if e.result.NoneV? then Failure(Fail(PrepareNone(st.name.value)))
      else
        var rest :- Gather(Loads(repository, repoName, Qualified(st.parent, st.name.value), s));
        Success((if Truthy(e.result) then [Snapshot(repository, st, e)] else []) + rest)
  }

  /** The outcome of loading each submodule the `prepare` hook of `owner` declares, below `parent`. */
  function Loads(repository: nat, repoName: string, parent: string, owner: Script): (r: seq<Result<seq<Prepared>>>)
    requires owner.prepare.Success?
    ensures |r| == |owner.prepare.value.submodules|
    decreases owner, 0
  {
    var subs := owner.prepare.value.submodules;
    seq(|subs|, k requires 0 <= k < |subs| => LoadSpec(repository, repoName, parent, subs[k]))
  }

  /** Modules as `prepare` returns them: from the repository, available, below the repository name. */
  predicate AllReturned(repository: nat, repoName: string, xs: seq<Prepared>)
  {
    forall k :: 0 <= k < |xs| ==>
      xs[k].repository == repository && Truthy(xs[k].available) && Text.StartsWith(xs[k].parent, repoName)
  }

  /** Every module loading returns is available and placed below its repository. */
  lemma {:induction false} LoadReturnsAvailable(repository: nat, repoName: string, parent: string, s: Script)
    ensures LoadSpec(repository, repoName, parent, s).Success? ==>
      AllReturned(repository, repoName, LoadSpec(repository, repoName, parent, s).value)
    decreases s, 2
  {
    var st := InitState(None, if parent != "" then parent else repoName, "", map[], [], []);
    var o := InitSpec(repoName, s.filename, st, s.init);
    if o.error.None? {
      PrepareReturnsAvailable(repository, repoName, o.state, s);
    }
  }

  lemma {:induction false} PrepareReturnsAvailable(repository: nat, repoName: string, st: InitState, s: Script)
    requires st.name.Some? && Text.StartsWith(st.parent, repoName)
    ensures PrepareSpec(repository, repoName, st, s).Success? ==>
      AllReturned(repository, repoName, PrepareSpec(repository, repoName, st, s).value)
    decreases s, 1
  {
    match s.prepare
    case Failure(_) =>
    case Success(e) =>
      if !e.result.NoneV? {
        var fullname := Qualified(st.parent, st.name.value);
        var subs := Loads(repository, repoName, fullname, s);
        forall k | 0 <= k < |subs| ensures subs[k].Success? ==> AllReturned(repository, repoName, subs[k].value) {
          LoadReturnsAvailable(repository, repoName, fullname, e.submodules[k]);
        }
        GatherSpec(subs);
        FlattenReturned(repository, repoName, subs);
      }
  }

  lemma {:induction false} FlattenReturned(repository: nat, repoName: string, rs: seq<Result<seq<Prepared>>>)
    requires forall k :: 0 <= k < |rs| && rs[k].Success? ==> AllReturned(repository, repoName, rs[k].value)
    ensures AllReturned(repository, repoName, Flatten(rs))
    decreases |rs|
  {
    if |rs| > 0 {
      var n := |rs| - 1;
      assert forall k :: 0 <= k < n ==> rs[..n][k] == rs[k];
      FlattenReturned(repository, repoName, rs[..n]);
    }
  }

  /**
   * The order `prepare` returns: a truthy result puts the module itself
   * first, followed by each submodule's modules in declaration order; a
   * falsy one leaves only the submodules' modules.
   */
  lemma PrepareOrder(repository: nat, repoName: string, st: InitState, s: Script)
    requires st.name.Some? && s.prepare.Success? && !s.prepare.value.result.NoneV?
    requires PrepareSpec(repository, repoName, st, s).Success?
    ensures var e := s.prepare.value;
      var subs := Loads(repository, repoName, Qualified(st.parent, st.name.value), s);
      (forall k :: 0 <= k < |subs| ==> subs[k].Success?) &&
      PrepareSpec(repository, repoName, st, s).value ==
        (if Truthy(e.result) then [Snapshot(repository, st, e)] else []) + Flatten(subs)
  {
    GatherSpec(Loads(repository, repoName, Qualified(st.parent, st.name.value), s));
  }

  /**
   * The module script a repository registers: its `init` and `prepare`
   * hooks, and the fields of the module they fill.
   */
  class ModuleInit {
    const repository: nat
    const repoName: string
    const script: Script
    var name: Option<string>
    var parent: string
    var description: string
    var filters: map<string, string>
    var options: seq<OptionDecl>
    var dependencies: seq<string>
    var available: Value

    function State(): InitState
      reads this
    {
      InitState(name, parent, description, filters, options, dependencies)
    }

    /** `ModuleInit.__init__`: no name yet, the repository as parent, nothing declared, unavailable. */
    constructor(repository: nat, repoName: string, script: Script)
      ensures this.repository == repository && this.repoName == repoName && this.script == script
      ensures State() == InitState(None, repoName, "", map[], [], []) && available == BoolV(false)
    {
      this.repository := repository;
      this.repoName := repoName;
      this.script := script;
      name := None;
      parent := repoName;
      description := "";
      filters := map[];
      options := [];
      dependencies := [];
      available := BoolV(false);
    }

    /** `ModuleInit.fullname`. */
    function FullName(): string
      reads this
      requires name.Some?
    {
      Qualified(parent, name.value)
    }

    /** `init()`: the hook's assignments, the name check and the parent normalisation. */
    method Init() returns (err: Option<Error>)
      modifies this
      ensures State() == InitSpec(repoName, script.filename, old(State()), script.init).state
      ensures err == InitSpec(repoName, script.filename, old(State()), script.init).error
      ensures available == old(available)
    {
      match script.init
      case Failure(_) =>
        err := Some(Utils.WithForwardException(script.filename, script.init).error);
      case Success(e) =>
        if e.name.Some? { name := e.name; }
        if e.parent.Some? { parent := e.parent.value; }
        if e.description.Some? { description := e.description.value; }
        filters := filters + e.filters;
        if name.None? {
          return Some(Fail(NameMissing));
        }
        if Text.StartsWith(parent, ":") {
          parent := repoName + parent;
        }
        if !Text.StartsWith(parent, repoName) {
          parent := repoName + ":" + parent;
        }
        err := None;
    }

    /**
     * `prepare()`: the hook's declarations are recorded, `available` takes
     * its result, and the submodules are loaded in order.
     */
    method Prepare() returns (r: Result<seq<Prepared>>)
      requires name.Some?
      modifies this
      ensures r == PrepareSpec(repository, repoName, old(State()), script)
      ensures script.prepare.Success? ==>
        options == old(options) + script.prepare.value.options &&
        dependencies == old(dependencies) + script.prepare.value.dependencies
      ensures script.prepare.Success? && !script.prepare.value.result.NoneV? ==>
        available == script.prepare.value.result
      decreases script, 1
    {
      match script.prepare
      case Failure(_) =>
        r := Failure(Utils.WithForwardException(script.filename, script.prepare).error);
      case Success(e) =>
        var st := State();
        options := options + e.options;
        dependencies := dependencies + e.dependencies;
        if e.result.NoneV? {
          return Failure(Fail(PrepareNone(name.value)));
        }
        available := e.result;
        var own := if Truthy(e.result) then [Snapshot(repository, st, e)] else [];
        var rest := LoadAll(repository, repoName, Qualified(st.parent, st.name.value), script);
        if rest.Failure? {
          return Failure(rest.error);
        }
        r := Success(own + rest.value);
    }
  }

  /** The `for submodule in self._submodules` loop of `prepare`. */
  method LoadAll(repository: nat, repoName: string, parent: string, owner: Script)
    returns (r: Result<seq<Prepared>>)
    requires owner.prepare.Success?
    ensures r == Gather(Loads(repository, repoName, parent, owner))
    decreases owner, 0
  {
    var subs := owner.prepare.value.submodules;
    ghost var rs := Loads(repository, repoName, parent, owner);
    var acc := [];
    var k := 0;
    while k < |subs|
      invariant 0 <= k <= |subs|
      invariant Gather(rs[..k]) == Success(acc)
    {
      var m := Load(repository, repoName, subs[k], parent);
      assert rs[..k + 1][..k] == rs[..k];
      if m.Failure? {
        GatherStop(rs, k);
        return Failure(m.error);
      }
      acc := acc + m.value;
      k := k + 1;
    }
    assert rs[..k] == rs;
    r := Success(acc);
  }

  /** A failure at `k` after successes is the failure of every longer prefix. */
  lemma {:induction false} GatherStop(rs: seq<Result<seq<Prepared>>>, k: nat)
    requires k < |rs| && Gather(rs[..k]).Success? && rs[k].Failure?
    ensures Gather(rs) == Failure(rs[k].error)
    decreases |rs| - k
  {
    if k == |rs| - 1 {
      assert rs[..k] == rs[..|rs| - 1];
    } else {
      var n := |rs| - 1;
      assert rs[..n][..k] == rs[..k];
      GatherStop(rs[..n], k);
    }
  }

  /** `load_module_from_file`: a new `ModuleInit` below `parent`, initialised and prepared. */
  method Load(repository: nat, repoName: string, s: Script, parent: string) returns (r: Result<seq<Prepared>>)
    ensures r == LoadSpec(repository, repoName, parent, s)
    decreases s, 2
  {
    var m := new ModuleInit(repository, repoName, s);
    if parent != "" {
      m.parent := parent;
    }
    var err := m.Init();
    if err.Some? {
      return Failure(err.value);
    }
    r := m.Prepare();
  }

  // ------------------------------------------------------------ module nodes

  function Fullname(m: Prepared): string
  {
    Qualified(m.parent, m.name)
  }

  /** The node `Module.__init__` creates: named, typed, in its repository, not yet linked. */
  function ModuleNodeOf(m: Prepared): NodeTree.Node
  {
    NodeTree.Node(m.name, NodeTree.ModuleNode, Fullname(m), -1, m.repository, None)
  }

  /** The names a module depends on: its declared ones, then its parent when that is a module. */
  function ModuleDependencies(m: Prepared): seq<string>
  {
    m.dependencies + (if ':' in m.parent then [m.parent] else [])
  }

  /**
   * A module whose parent holds a `:` depends last on exactly the full name
   * `build_modules` links it below, and on nothing more than its declared
   * dependencies otherwise.
   */
  lemma ImplicitParentDependency(m: Prepared)
    requires ':' !in m.name
    ensures var r := ModuleDependencies(m);
      r[..|m.dependencies|] == m.dependencies &&
      (':' in ParentName(Fullname(m)) ==> |r| == |m.dependencies| + 1 && r[|r| - 1] == ParentName(Fullname(m))) &&
      (':' !in ParentName(Fullname(m)) ==> r == m.dependencies)
  {
    ParentOfFullName(m.parent, m.name);
  }

  /** The module's filters, registered under `<repository>.<name>`. */
  function PrefixedFilters(repoName: string, filters: map<string, string>): (r: map<string, string>)
    ensures forall k :: k in filters ==> repoName + "." + k in r && r[repoName + "." + k] == filters[k]
    ensures forall k :: k in r ==> exists f :: f in filters && k == repoName + "." + f
  {
    PrefixInjective(repoName + ".");
    map f | f in filters :: repoName + "." + f := filters[f]
  }

  lemma PrefixInjective(p: string)
    ensures forall a, b :: p + a == p + b ==> a == b
  {
    forall a, b | p + a == p + b ensures a == b {
      assert (p + a)[|p|..] == a && (p + b)[|p|..] == b;
    }
  }

  /** The option node `add_option` creates below `owner`. */
  function OptionNodeOf(owner: nat, on: NodeTree.Node, o: OptionDecl): NodeTree.Node
  {
    NodeTree.Node(o.name, NodeTree.OptionNode, on.fullname + ":" + o.name, owner, on.repository, Some(o.data))
  }

  function OptionNodes(owner: nat, on: NodeTree.Node, opts: seq<OptionDecl>): (r: seq<NodeTree.Node>)
    ensures |r| == |opts|
  {
    seq(|opts|, k requires 0 <= k < |opts| => OptionNodeOf(owner, on, opts[k]))
  }

  /** Two options share a name. */
  predicate DuplicateOption(opts: seq<OptionDecl>)
  {
    exists a, b :: 0 <= a < b < |opts| && opts[a].name == opts[b].name
  }

  /** Option `b` is the first whose name was taken by an earlier one. */
  predicate FirstRepeat(opts: seq<OptionDecl>, b: nat)
  {
    b < |opts| && !DuplicateOption(opts[..b]) && exists a :: 0 <= a < b && opts[a].name == opts[b].name
  }

  function DuplicateMessage(name: string): string
  {
    "Option name '" + name + "' is already defined"
  }

  lemma DuplicateStep(opts: seq<OptionDecl>, k: nat)
    requires k < |opts|
    ensures DuplicateOption(opts[..k + 1]) <==>
      DuplicateOption(opts[..k]) || exists j :: 0 <= j < k && opts[j].name == opts[k].name
  {
    var p := opts[..k + 1];
    if DuplicateOption(p) {
      var a, b :| 0 <= a < b < |p| && p[a].name == p[b].name;
      if b < k {
        assert opts[..k][a] == p[a] && opts[..k][b] == p[b];
      }
    }
    if DuplicateOption(opts[..k]) {
      var a, b :| 0 <= a < b < k && opts[..k][a].name == opts[..k][b].name;
      assert p[a] == opts[..k][a] && p[b] == opts[..k][b];
    }
    if exists j :: 0 <= j < k && opts[j].name == opts[k].name {
      var j :| 0 <= j < k && opts[j].name == opts[k].name;
      assert p[j] == opts[j] && p[k] == opts[k];
    }
  }

  /** The children of a fresh owner after some of its options are added are exactly those options. */
  lemma ChildrenAreOptions(n0: seq<NodeTree.Node>, owner: nat, opts: seq<OptionDecl>, x: string)
    requires owner < |n0| && forall c :: 0 <= c < |n0| ==> n0[c].parent != owner
    ensures var ns := n0 + OptionNodes(owner, n0[owner], opts);
      (exists c :: 0 <= c < |ns| && ns[c].parent == owner && ns[c].name == x) <==>
      (exists j :: 0 <= j < |opts| && opts[j].name == x)
  {
    var ns := n0 + OptionNodes(owner, n0[owner], opts);
    if exists c :: 0 <= c < |ns| && ns[c].parent == owner && ns[c].name == x {
      var c :| 0 <= c < |ns| && ns[c].parent == owner && ns[c].name == x;
      assert c >= |n0|;
      assert ns[c] == OptionNodeOf(owner, n0[owner], opts[c - |n0|]);
    }
    if exists j :: 0 <= j < |opts| && opts[j].name == x {
      var j :| 0 <= j < |opts| && opts[j].name == x;
      assert ns[|n0| + j] == OptionNodeOf(owner, n0[owner], opts[j]);
    }
  }

  /** The initial traits of `n` fresh option nodes. */
  function OptionTraits(n: nat): (r: seq<NodeTree.Traits>)
    ensures |r| == n && forall j :: 0 <= j < n ==> r[j] == NodeTree.InitialTraits(NodeTree.OptionNode)
  {
    seq(n, _ => NodeTree.InitialTraits(NodeTree.OptionNode))
  }

  /** The dependency states of `n` fresh option nodes: each depends on its owner `owner`. */
  function OptionDeps(owner: string, n: nat): (r: seq<NodeTree.DepState>)
    ensures |r| == n && forall j :: 0 <= j < n ==> r[j] == NodeTree.DepState([owner], false, [])
  {
    seq(n, _ => NodeTree.DepState([owner], false, []))
  }

  /**
   * The dependency states `Module.__init__` leaves: the module depends on its
   * `ModuleDependencies`, each option on the module, and none is resolved yet.
   */
  function ModuleDeps(m: Prepared): (r: seq<NodeTree.DepState>)
    ensures |r| == 1 + |m.options| && r[0].names == ModuleDependencies(m)
  {
    [NodeTree.DepState(ModuleDependencies(m), false, [])] + OptionDeps(Fullname(m), |m.options|)
  }

  /**
   * The traits `Module.__init__` gives a module node and its options: the
   * module is as available as its `available` flag is truthy and adds its
   * filters under the repository's name; the options start as any option does.
   */
  function ModuleTraits(repoName: string, m: Prepared): (r: seq<NodeTree.Traits>)
    ensures |r| == 1 + |m.options| && r[0].available == Truthy(m.available)
    ensures forall j :: 1 <= j < |r| ==> r[j] == NodeTree.InitialTraits(NodeTree.OptionNode)
  {
    var init := NodeTree.InitialTraits(NodeTree.ModuleNode);
    [init.(available := Truthy(m.available), filters := init.filters + PrefixedFilters(repoName, m.filters))] +
    OptionTraits(|m.options|)
  }

  /**
   * The `for option in module._options: self.add_option(option)` loop of
   * `Module.__init__`: the options become children of the fresh module node
   * in order, and the first repeated name is refused.
   */
  method AddOptions(t: NodeTree.Tree, owner: nat, opts: seq<OptionDecl>) returns (err: Option<Error>)
    requires t.Valid() && owner < |t.nodes|
    requires forall c :: 0 <= c < |t.nodes| ==> t.nodes[c].parent != owner
    modifies t
    ensures t.Valid() && |old(t.nodes)| <= |t.nodes|
    ensures t.nodes[..|old(t.nodes)|] == old(t.nodes) && t.traits[..|old(t.nodes)|] == old(t.traits)
    ensures t.deps[..|old(t.nodes)|] == old(t.deps)
    ensures err.Some? <==> DuplicateOption(opts)
    ensures err.Some? ==> exists b: nat :: FirstRepeat(opts, b) && err.value == Fail(DuplicateMessage(opts[b].name))
    ensures err.None? ==> t.nodes == old(t.nodes) + OptionNodes(owner, old(t.nodes)[owner], opts)
    ensures err.None? ==> t.traits == old(t.traits) + OptionTraits(|opts|)
    ensures err.None? ==> t.deps == old(t.deps) + OptionDeps(old(t.nodes)[owner].fullname, |opts|)
  {
    ghost var n0 := t.nodes;
    ghost var t0 := t.traits;
    ghost var d0 := t.deps;
    var k := 0;
    while k < |opts|
      invariant 0 <= k <= |opts|
      invariant t.Valid()
      invariant t.nodes == n0 + OptionNodes(owner, n0[owner], opts[..k])
      invariant t.traits == t0 + OptionTraits(k) && t.deps[..|n0|] == d0
      invariant t.deps == d0 + OptionDeps(n0[owner].fullname, k)
      invariant !DuplicateOption(opts[..k])
    {
      ghost var before := t.nodes;
      ChildrenAreOptions(n0, owner, opts[..k], opts[k].name);
      assert forall j :: 0 <= j < k ==> opts[..k][j] == opts[j];
      DuplicateStep(opts, k);
      var r := t.AddOption(owner, opts[k].name, opts[k].data);
      if r.Failure? {
        assert FirstRepeat(opts, k);
        var j :| 0 <= j < k && opts[j].name == opts[k].name;
        assert opts[j].name == opts[k].name;
        return Some(r.error);
      }
      assert OptionNodes(owner, n0[owner], opts[..k + 1]) ==
        OptionNodes(owner, n0[owner], opts[..k]) + [OptionNodeOf(owner, n0[owner], opts[k])];
      assert OptionTraits(k + 1) == OptionTraits(k) + [NodeTree.InitialTraits(NodeTree.OptionNode)];
      assert OptionDeps(n0[owner].fullname, k + 1) ==
        OptionDeps(n0[owner].fullname, k) + [NodeTree.DepState([n0[owner].fullname], false, [])];
      k := k + 1;
    }
    assert opts[..k] == opts;
    err := None;
  }

  /**
   * `Module.__init__`: the module node with its availability and filters,
   * its options below it, and its dependency names, the parent's last when
   * the parent is a module.
   */
  method NewModule(t: NodeTree.Tree, m: Prepared) returns (r: Result<nat>)
    requires t.Valid() && m.repository < |t.nodes|
    modifies t
    ensures t.Valid() && |old(t.nodes)| < |t.nodes|
    ensures t.nodes[..|old(t.nodes)|] == old(t.nodes) && t.deps[..|old(t.nodes)|] == old(t.deps)
    ensures r.Failure? <==> DuplicateOption(m.options)
    ensures r.Failure? ==>
      exists b: nat :: FirstRepeat(m.options, b) && r.error == Fail(DuplicateMessage(m.options[b].name))
    ensures r.Success? ==> (r.value == |old(t.nodes)| && t.nodes[r.value] == ModuleNodeOf(m) &&
      t.nodes == old(t.nodes) + [ModuleNodeOf(m)] + OptionNodes(r.value, ModuleNodeOf(m), m.options) &&
      t.deps == old(t.deps) + ModuleDeps(m) &&
      t.traits == old(t.traits) + ModuleTraits(old(t.nodes)[m.repository].name, m))
  {
    ghost var n0 := t.nodes;
    var i := AddModuleNode(t, m);
    ghost var n1 := t.nodes;
    ghost var d1 := t.deps;
    var err := AddOptions(t, i, m.options);
    assert t.nodes[..|n1|][i] == n1[i];
    assert t.nodes[..|n0|] == t.nodes[..|n1|][..|n0|];
    assert t.deps[..|n0|] == t.deps[..|n1|][..|n0|];
    if err.Some? {
      return Failure(err.value);
    }
    ghost var d2 := t.deps;
    AddModuleDependencies(t, i, m);
    ModuleDepsFilled(old(t.deps), d2, t.deps, m);
    r := Success(i);
  }

  /** The module node of `Module.__init__` with its availability and filters, still childless. */
  method AddModuleNode(t: NodeTree.Tree, m: Prepared) returns (i: nat)
    requires t.Valid() && m.repository < |t.nodes|
    modifies t
    ensures t.Valid() && i == |old(t.nodes)| && t.nodes == old(t.nodes) + [ModuleNodeOf(m)]
    ensures t.deps == old(t.deps) + [NodeTree.DepState([], false, [])]
    ensures t.traits == old(t.traits) + ModuleTraits(old(t.nodes)[m.repository].name, m)[..1]
    ensures forall c :: 0 <= c < |t.nodes| ==> t.nodes[c].parent != i
  {
    var repoName := t.nodes[m.repository].name;
    ghost var n0 := t.nodes;
    i := t.AddNode(m.name, NodeTree.ModuleNode, Fullname(m), -1, m.repository);
    t.SetModuleTraits(i, Truthy(m.available), PrefixedFilters(repoName, m.filters));
    forall c | 0 <= c < |t.nodes| ensures t.nodes[c].parent != i {
      if c < i {
        assert NodeTree.NodeOk(n0, c) && t.nodes[c] == n0[c];
      }
    }
  }

  lemma ModuleDepsFilled(d0: seq<NodeTree.DepState>, d2: seq<NodeTree.DepState>, d3: seq<NodeTree.DepState>,
                         m: Prepared)
    requires d2 == d0 + [NodeTree.DepState([], false, [])] + OptionDeps(Fullname(m), |m.options|)
    requires d3 == d2[|d0| := d2[|d0|].(names := d2[|d0|].names + ModuleDependencies(m))]
    ensures d3 == d0 + ModuleDeps(m)
  {
    assert [] + ModuleDependencies(m) == ModuleDependencies(m);
  }

  /** The dependency lines of `Module.__init__`: the declared names, then the parent when it is a module. */
  method AddModuleDependencies(t: NodeTree.Tree, i: nat, m: Prepared)
    requires t.Valid() && i < |t.nodes|
    modifies t
    ensures t.Valid() && t.nodes == old(t.nodes) && t.traits == old(t.traits)
    ensures t.deps == old(t.deps)[i := old(t.deps)[i].(names := old(t.deps)[i].names + ModuleDependencies(m))]
  {
    t.AddDependencies(i, m.dependencies);
    if ':' in m.parent {
      t.AddDependencies(i, [m.parent]);
      assert old(t.deps)[i].names + m.dependencies + [m.parent] == old(t.deps)[i].names + ModuleDependencies(m);
    } else {
      assert m.dependencies + [] == m.dependencies;
    }
  }

  // ------------------------------------------------------------ build_modules

  /** Each module's repository is a repository node of the tree. */
  predicate RepositoriesIn(ns: seq<NodeTree.Node>, inits: seq<Prepared>)
  {
    forall k :: 0 <= k < |inits| ==>
      inits[k].repository < |ns| && ns[inits[k].repository].kind == NodeTree.RepositoryNode
  }

  /** Node `mods[k]` is the module node of `inits[k]`, apart from its parent. */
  ghost predicate Created(ns: seq<NodeTree.Node>, inits: seq<Prepared>, mods: seq<nat>)
  {
    |mods| == |inits| &&
    forall k :: 0 <= k < |inits| ==>
      mods[k] < |ns| && ns[mods[k]] == ModuleNodeOf(inits[k]).(parent := ns[mods[k]].parent)
  }

  /** The `rmodules` map of `build_modules` after its first `n` modules: a later full name overwrites. */
  function Registry(inits: seq<Prepared>, mods: seq<nat>, n: nat): map<string, nat>
    requires n <= |inits| && n <= |mods|
  {
    if n == 0 then map[] else Registry(inits, mods, n - 1)[Fullname(inits[n - 1]) := mods[n - 1]]
  }

  /** The registry maps each full name to the last module carrying it. */
  lemma {:induction false} RegistryLast(inits: seq<Prepared>, mods: seq<nat>, n: nat, name: string)
    requires n <= |inits| && n <= |mods|
    ensures name in Registry(inits, mods, n) <==> exists j :: 0 <= j < n && Fullname(inits[j]) == name
    ensures name in Registry(inits, mods, n) ==>
      exists j :: 0 <= j < n && Fullname(inits[j]) == name && Registry(inits, mods, n)[name] == mods[j] &&
        forall j' :: j < j' < n ==> Fullname(inits[j']) != name
  {
    if n > 0 {
      var last := Fullname(inits[n - 1]);
      RegistryLast(inits, mods, n - 1, name);
      if name == last {
        assert Registry(inits, mods, n)[name] == mods[n - 1];
      } else {
        assert name in Registry(inits, mods, n) <==> name in Registry(inits, mods, n - 1);
        if name in Registry(inits, mods, n - 1) {
          var j :| 0 <= j < n - 1 && Fullname(inits[j]) == name && Registry(inits, mods, n - 1)[name] == mods[j] &&
            forall j' :: j < j' < n - 1 ==> Fullname(inits[j']) != name;
          assert Registry(inits, mods, n)[name] == mods[j];
        }
      }
    }
  }

  /** No module has the full name that module `k`'s parent part names, though that part holds a `:`. */
  predicate Missing(inits: seq<Prepared>, k: nat)
    requires k < |inits|
  {
    var p := ParentName(Fullname(inits[k]));
    ':' in p && forall j :: 0 <= j < |inits| ==> Fullname(inits[j]) != p
  }

  /** The node `build_modules` links module `k` below: the registered module of its parent name, or its repository. */
  function Link(inits: seq<Prepared>, mods: seq<nat>, k: nat): nat
    requires k < |inits| == |mods| && !Missing(inits, k)
  {
    var p := ParentName(Fullname(inits[k]));
    if ':' in p then
      RegistryLast(inits, mods, |inits|, p);
      Registry(inits, mods, |inits|)[p]
    else inits[k].repository
  }

  /** The first module whose parent is missing. */
  predicate FirstMissing(inits: seq<Prepared>, k: nat)
  {
    k < |inits| && Missing(inits, k) && forall j :: 0 <= j < k ==> !Missing(inits, j)
  }

  /** The first loop of `build_modules`: create every module node and fill `rmodules`. */
  method CreateModules(t: NodeTree.Tree, inits: seq<Prepared>) returns (r: Result<seq<nat>>, rmodules: map<string, nat>)
    requires t.Valid() && RepositoriesIn(t.nodes, inits)
    modifies t
    ensures t.Valid() && |old(t.nodes)| <= |t.nodes|
    ensures t.nodes[..|old(t.nodes)|] == old(t.nodes) && t.deps[..|old(t.nodes)|] == old(t.deps)
    ensures r.Failure? <==> AnyDuplicated(inits)
    ensures r.Failure? ==> FirstDuplicateError(inits, r.error)
    ensures r.Success? ==> (Created(t.nodes, inits, r.value) && NodeTree.Increasing(r.value) &&
      rmodules == Registry(inits, r.value, |inits|))
    ensures r.Success? ==> (t.traits == old(t.traits) + CreatedTraits(old(t.nodes), inits) &&
      t.deps == old(t.deps) + CreatedDeps(inits) &&
      forall k :: 0 <= k < |r.value| ==> |old(t.nodes)| <= r.value[k])
  {
    r, rmodules := CreateLoop(t, inits);
    if r.Success? {
      assert inits[..|inits|] == inits;
      NoDuplicates(inits);
    }
  }

  /** The creation loop itself; at its end the loop invariants hold for all of `inits`. */
  method CreateLoop(t: NodeTree.Tree, inits: seq<Prepared>) returns (r: Result<seq<nat>>, rmodules: map<string, nat>)
    requires t.Valid() && RepositoriesIn(t.nodes, inits)
    modifies t
    ensures t.Valid() && Extends(old(t.nodes), old(t.deps), t.nodes, t.deps)
    ensures r.Failure? ==> AnyDuplicated(inits) && FirstDuplicateError(inits, r.error)
    ensures r.Success? ==>
      (|r.value| == |inits| && Created(t.nodes, inits[..|inits|], r.value) && NodeTree.Increasing(r.value) &&
       NoneDuplicated(inits, |inits|) && rmodules == Registry(inits, r.value, |inits|) &&
       TraitsFrom(old(t.nodes), old(t.traits), t.traits, old(t.deps), t.deps, inits, |inits|, r.value))
  {
    ghost var n0 := t.nodes;
    ghost var d0 := t.deps;
    var mods: seq<nat> := [];
    rmodules := map[];
    var k := 0;
    while k < |inits|
      invariant 0 <= k <= |inits| && |mods| == k
      invariant t.Valid() && |n0| <= |t.nodes| && t.nodes[..|n0|] == n0
      invariant Created(t.nodes, inits[..k], mods) && NodeTree.Increasing(mods)
      invariant NoneDuplicated(inits, k)
      invariant rmodules == Registry(inits, mods, k)
      invariant TraitsFrom(n0, old(t.traits), t.traits, d0, t.deps, inits, k, mods)
    {
      ghost var before := t.nodes;
      ghost var dbefore := t.deps;
      ghost var tbefore := t.traits;
      RepositoryAt(n0, before, inits, k);
      var m := CreateNext(t, inits, k, mods);
      assert t.nodes[..|n0|] == n0 by {
        PrefixTrans(n0, before, t.nodes);
      }
      if m.Failure? {
        assert Extends(n0, d0, t.nodes, t.deps) by {
          assert (d0 + CreatedDeps(inits[..k]))[..|d0|] == d0;
          ExtendsTrans(n0, d0, before, dbefore, t.nodes, t.deps);
        }
        r := Failure(m.error);
        return;
      }
      assert TraitsFrom(n0, old(t.traits), t.traits, d0, t.deps, inits, k + 1, mods + [m.value]) by {
        CreatedTraitsSnoc(n0, old(t.traits), tbefore, t.traits, d0, dbefore, t.deps, inits, k, mods, m.value);
      }
      assert Registry(inits, mods + [m.value], k + 1) == rmodules[Fullname(inits[k]) := m.value] by {
        RegistrySnoc(inits, mods, k, m.value);
      }
      rmodules := rmodules[Fullname(inits[k]) := m.value];
      mods := mods + [m.value];
      k := k + 1;
    }
    r := Success(mods);
    assert Extends(n0, d0, t.nodes, t.deps) by {
      assert (d0 + CreatedDeps(inits[..k]))[..|d0|] == d0;
    }
  }

  /** One round of the creation loop: the module node of `inits[k]`, or the duplicate-option error. */
  method CreateNext(t: NodeTree.Tree, inits: seq<Prepared>, k: nat, ghost mods: seq<nat>) returns (m: Result<nat>)
    requires t.Valid() && k < |inits| && inits[k].repository < |t.nodes|
    requires |mods| == k && Created(t.nodes, inits[..k], mods) && NodeTree.Increasing(mods)
    requires NoneDuplicated(inits, k)
    modifies t
    ensures t.Valid() && Extends(old(t.nodes), old(t.deps), t.nodes, t.deps)
    ensures m.Failure? ==> AnyDuplicated(inits) && FirstDuplicateError(inits, m.error)
    ensures m.Success? ==> (m.value == |old(t.nodes)| && t.deps == old(t.deps) + ModuleDeps(inits[k]) &&
      t.traits == old(t.traits) + ModuleTraits(old(t.nodes)[inits[k].repository].name, inits[k]))
    ensures m.Success? ==>
      (Created(t.nodes, inits[..k + 1], mods + [m.value]) &&
       NodeTree.Increasing(mods + [m.value]) && NoneDuplicated(inits, k + 1))
  {
    ghost var before := t.nodes;
    ghost var dbefore := t.deps;
    m := NewModule(t, inits[k]);
    if m.Failure? {
      ghost var b: nat :| FirstRepeat(inits[k].options, b) && m.error == Fail(DuplicateMessage(inits[k].options[b].name));
      DuplicateFound(inits, k, b, m.error);
    } else {
      NoneDuplicatedStep(inits, k);
      CreatedStep(before, t.nodes, inits, mods, k, m.value);
    }
  }

  /** The nodes `ns` and dependency states `ds` begin with `n0` and `d0`. */
  ghost predicate Extends(n0: seq<NodeTree.Node>, d0: seq<NodeTree.DepState>, ns: seq<NodeTree.Node>,
                          ds: seq<NodeTree.DepState>)
  {
    |n0| <= |ns| && |n0| <= |ds| && ns[..|n0|] == n0 && ds[..|n0|] == d0
  }

  lemma ExtendsTrans(n0: seq<NodeTree.Node>, d0: seq<NodeTree.DepState>, n1: seq<NodeTree.Node>,
                     d1: seq<NodeTree.DepState>, n2: seq<NodeTree.Node>, d2: seq<NodeTree.DepState>)
    requires |n0| == |d0| && |n1| == |d1|
    requires Extends(n0, d0, n1, d1) && Extends(n1, d1, n2, d2)
    ensures Extends(n0, d0, n2, d2)
  {
    PrefixTrans(n0, n1, n2);
    PrefixTrans(d0, d1, d2);
  }

  /** Some module declares two options of one name. */
  ghost predicate AnyDuplicated(inits: seq<Prepared>)
  {
    exists k :: 0 <= k < |inits| && DuplicateOption(inits[k].options)
  }

  /** `e` reports the first repeated option of the first module that has one. */
  ghost predicate FirstDuplicateError(inits: seq<Prepared>, e: Error)
  {
    exists k: nat, b: nat :: 0 <= k < |inits| && FirstRepeat(inits[k].options, b) &&
      NoneDuplicated(inits, k) && e == Fail(DuplicateMessage(inits[k].options[b].name))
  }

  lemma DuplicateFound(inits: seq<Prepared>, k: nat, b: nat, e: Error)
    requires k < |inits| && NoneDuplicated(inits, k) && FirstRepeat(inits[k].options, b)
    requires e == Fail(DuplicateMessage(inits[k].options[b].name))
    ensures AnyDuplicated(inits) && FirstDuplicateError(inits, e)
  {
    var a :| 0 <= a < b && inits[k].options[a].name == inits[k].options[b].name;
    assert DuplicateOption(inits[k].options);
  }

  lemma NoDuplicates(inits: seq<Prepared>)
    requires NoneDuplicated(inits, |inits|)
    ensures !AnyDuplicated(inits)
  {
  }

  /** No module among the first `k` declares two options of one name. */
  predicate NoneDuplicated(inits: seq<Prepared>, k: nat)
    requires k <= |inits|
  {
    forall j :: 0 <= j < k ==> !DuplicateOption(inits[j].options)
  }

  lemma NoneDuplicatedStep(inits: seq<Prepared>, k: nat)
    requires k < |inits| && NoneDuplicated(inits, k) && !DuplicateOption(inits[k].options)
    ensures NoneDuplicated(inits, k + 1)
  {
  }

  lemma RepositoryAt(n0: seq<NodeTree.Node>, ns: seq<NodeTree.Node>, inits: seq<Prepared>, k: nat)
    requires RepositoriesIn(n0, inits) && k < |inits| && |n0| <= |ns| && ns[..|n0|] == n0
    ensures inits[k].repository < |ns| && ns[inits[k].repository] == n0[inits[k].repository]
  {
    assert ns[..|n0|][inits[k].repository] == ns[inits[k].repository];
  }

  /**
   * After `k` modules of the creation loop: the traits and dependency states
   * are the old ones and the created modules' ones, and every created module
   * is a new node.
   */
  ghost predicate TraitsFrom(n0: seq<NodeTree.Node>, t0: seq<NodeTree.Traits>, ts: seq<NodeTree.Traits>,
                             d0: seq<NodeTree.DepState>, ds: seq<NodeTree.DepState>,
                             inits: seq<Prepared>, k: nat, mods: seq<nat>)
  {
    k <= |inits| && RepositoriesIn(n0, inits) &&
    ts == t0 + CreatedTraits(n0, inits[..k]) && ds == d0 + CreatedDeps(inits[..k]) &&
    forall j :: 0 <= j < |mods| ==> |n0| <= mods[j]
  }

  lemma CreatedTraitsSnoc(n0: seq<NodeTree.Node>, t0: seq<NodeTree.Traits>, tb: seq<NodeTree.Traits>,
                          ts: seq<NodeTree.Traits>, d0: seq<NodeTree.DepState>, db: seq<NodeTree.DepState>,
                          ds: seq<NodeTree.DepState>, inits: seq<Prepared>, k: nat, mods: seq<nat>, m: nat)
    requires k < |inits| && TraitsFrom(n0, t0, tb, d0, db, inits, k, mods) && |n0| <= m
    requires ts == tb + ModuleTraits(n0[inits[k].repository].name, inits[k])
    requires ds == db + ModuleDeps(inits[k])
    ensures TraitsFrom(n0, t0, ts, d0, ds, inits, k + 1, mods + [m])
  {
    assert inits[..k + 1][..k] == inits[..k] && inits[..k + 1][k] == inits[k];
  }

  /** The traits the creation loop of `build_modules` appends, module after module. */
  function CreatedTraits(ns: seq<NodeTree.Node>, inits: seq<Prepared>): seq<NodeTree.Traits>
    requires forall k :: 0 <= k < |inits| ==> inits[k].repository < |ns|
    decreases |inits|
  {
    if |inits| == 0 then []
    else
      var n := |inits| - 1;
      CreatedTraits(ns, inits[..n]) + ModuleTraits(ns[inits[n].repository].name, inits[n])
  }

  /** The dependency states the creation loop of `build_modules` appends, module after module. */
  function CreatedDeps(inits: seq<Prepared>): seq<NodeTree.DepState>
    decreases |inits|
  {
    if |inits| == 0 then [] else CreatedDeps(inits[..|inits| - 1]) + ModuleDeps(inits[|inits| - 1])
  }

  lemma PrefixPointwise<T>(a: seq<T>, b: seq<T>)
    requires |a| <= |b| && forall i :: 0 <= i < |a| ==> b[i] == a[i]
    ensures b[..|a|] == a
  {
  }

  lemma PrefixTrans<T>(a: seq<T>, b: seq<T>, c: seq<T>)
    requires |a| <= |b| <= |c| && b[..|a|] == a && c[..|b|] == b
    ensures c[..|a|] == a
  {
    assert c[..|a|] == c[..|b|][..|a|];
  }

  /** Appending nodes keeps the module nodes already created. */
  lemma CreatedExtend(ns: seq<NodeTree.Node>, ns2: seq<NodeTree.Node>, inits: seq<Prepared>, mods: seq<nat>)
    requires Created(ns, inits, mods) && |ns| <= |ns2| && ns2[..|ns|] == ns
    ensures Created(ns2, inits, mods)
  {
    forall k | 0 <= k < |inits| ensures ns2[mods[k]] == ns[mods[k]] {
      assert ns2[..|ns|][mods[k]] == ns2[mods[k]];
    }
  }

  lemma CreatedStep(before: seq<NodeTree.Node>, ns: seq<NodeTree.Node>, inits: seq<Prepared>, mods: seq<nat>,
                    k: nat, x: nat)
    requires k < |inits| && |mods| == k && Created(before, inits[..k], mods) && NodeTree.Increasing(mods)
    requires |before| <= |ns| && ns[..|before|] == before
    requires x == |before| && x < |ns| && ns[x] == ModuleNodeOf(inits[k])
    ensures Created(ns, inits[..k + 1], mods + [x]) && NodeTree.Increasing(mods + [x])
  {
    CreatedExtend(before, ns, inits[..k], mods);
    CreatedSnoc(ns, inits, mods, k, x);
    assert forall j :: 0 <= j < k ==> mods[j] < x;
  }

  /** The module node just created for `inits[k]` extends the record by one. */
  lemma CreatedSnoc(ns: seq<NodeTree.Node>, inits: seq<Prepared>, mods: seq<nat>, k: nat, x: nat)
    requires k < |inits| && Created(ns, inits[..k], mods)
    requires x < |ns| && ns[x] == ModuleNodeOf(inits[k])
    ensures Created(ns, inits[..k + 1], mods + [x])
  {
    forall j | 0 <= j < k ensures inits[..k + 1][j] == inits[..k][j] {
    }
  }

  /** The registry of the first `n` modules only reads the first `n` entries. */
  lemma {:induction false} RegistryFrame(inits: seq<Prepared>, mods: seq<nat>, mods2: seq<nat>, n: nat)
    requires n <= |inits| && n <= |mods| && n <= |mods2|
    requires forall j :: 0 <= j < n ==> mods[j] == mods2[j]
    ensures Registry(inits, mods, n) == Registry(inits, mods2, n)
    decreases n
  {
    if n > 0 {
      RegistryFrame(inits, mods, mods2, n - 1);
    }
  }

  lemma RegistrySnoc(inits: seq<Prepared>, mods: seq<nat>, k: nat, x: nat)
    requires k < |inits| && |mods| == k
    ensures Registry(inits, mods + [x], k + 1) == Registry(inits, mods, k)[Fullname(inits[k]) := x]
  {
    RegistryFrame(inits, mods, mods + [x], k);
    assert (mods + [x])[k] == x;
  }

  /** Re-linking one node keeps the module nodes, apart from parents. */
  lemma CreatedRelink(ns: seq<NodeTree.Node>, inits: seq<Prepared>, mods: seq<nat>, x: nat, p: int)
    requires Created(ns, inits, mods) && x < |ns|
    ensures Created(ns[x := ns[x].(parent := p)], inits, mods)
  {
  }

  /**
   * One step of the second loop of `build_modules`: module `k` is linked
   * below the registered module named by its full name minus the last
   * segment when that part holds a `:`, and below its repository otherwise.
   * A parent name that no module carries is a KeyError.
   */
  method LinkModule(t: NodeTree.Tree, inits: seq<Prepared>, mods: seq<nat>, rmodules: map<string, nat>, k: nat)
    returns (err: Option<Error>)
    requires t.Valid() && RepositoriesIn(t.nodes, inits) && Created(t.nodes, inits, mods)
    requires rmodules == Registry(inits, mods, |inits|) && k < |inits|
    modifies t
    ensures t.Valid() && t.deps == old(t.deps) && t.traits == old(t.traits)
    ensures err.Some? <==> Missing(inits, k)
    ensures err.Some? ==> err.value == Raised(KeyError, ParentName(Fullname(inits[k]))) && t.nodes == old(t.nodes)
    ensures err.None? ==> t.nodes == old(t.nodes)[mods[k] := old(t.nodes)[mods[k]].(parent := Link(inits, mods, k))]
  {
    var x := mods[k];
    var parent := ParentName(t.nodes[x].fullname);
    assert t.nodes[x].fullname == Fullname(inits[k]);
    if ':' in parent {
      RegistryLast(inits, mods, |inits|, parent);
      if parent !in rmodules {
        return Some(Raised(KeyError, parent));
      }
      var p := rmodules[parent];
      ParentNameShorter(t.nodes[x].fullname);
      t.SetParent(x, p);
    } else {
      t.SetParent(x, inits[k].repository);
    }
    err := None;
  }

  /** The second loop of `build_modules`: every module linked in order, up to the first missing parent. */
  method LinkModules(t: NodeTree.Tree, inits: seq<Prepared>, mods: seq<nat>, rmodules: map<string, nat>)
    returns (err: Option<Error>)
    requires t.Valid() && RepositoriesIn(t.nodes, inits) && Created(t.nodes, inits, mods)
    requires NodeTree.Increasing(mods) && rmodules == Registry(inits, mods, |inits|)
    modifies t
    ensures t.Valid() && t.deps == old(t.deps) && t.traits == old(t.traits) && |t.nodes| == |old(t.nodes)|
    ensures Created(t.nodes, inits, mods)
    ensures forall x :: 0 <= x < |t.nodes| && x !in mods ==> t.nodes[x] == old(t.nodes)[x]
    ensures err.Some? <==> exists k :: 0 <= k < |inits| && Missing(inits, k)
    ensures err.Some? ==>
      (exists k: nat :: (FirstMissing(inits, k) && err.value == Raised(KeyError, ParentName(Fullname(inits[k])))))
    ensures err.None? ==> forall k :: 0 <= k < |inits| ==>
      !Missing(inits, k) && t.nodes[mods[k]].parent == Link(inits, mods, k)
  {
    ghost var n0 := t.nodes;
    var k := 0;
    while k < |mods|
      invariant 0 <= k <= |mods|
      invariant t.Valid() && t.deps == old(t.deps) && t.traits == old(t.traits) && |t.nodes| == |n0|
      invariant Created(t.nodes, inits, mods) && RepositoriesIn(t.nodes, inits)
      invariant Untouched(n0, t.nodes, mods[..k])
      invariant LinkedUpTo(t.nodes, inits, mods, k)
    {
      ghost var before := t.nodes;
      var e := LinkModule(t, inits, mods, rmodules, k);
      if e.Some? {
        LinkedNoneMissing(t.nodes, inits, mods, k);
        UntouchedAll(n0, t.nodes, mods, k);
        return e;
      }
      CreatedRelink(before, inits, mods, mods[k], Link(inits, mods, k));
      LinkFrame(n0, before, inits, mods, k, Link(inits, mods, k));
      assert forall j :: 0 <= j < k ==> mods[j] != mods[k];
      LinkedStep(before, t.nodes, inits, mods, k);
      k := k + 1;
    }
    UntouchedAll(n0, t.nodes, mods, k);
    LinkedAll(t.nodes, inits, mods);
    err := None;
  }

  /** Re-linking one module keeps every node's type, and leaves the nodes not yet linked as they were. */
  lemma LinkFrame(n0: seq<NodeTree.Node>, before: seq<NodeTree.Node>, inits: seq<Prepared>, mods: seq<nat>, k: nat, p: int)
    requires k < |mods| && mods[k] < |before| && RepositoriesIn(before, inits)
    requires Untouched(n0, before, mods[..k])
    ensures var after := before[mods[k] := before[mods[k]].(parent := p)];
      RepositoriesIn(after, inits) && Untouched(n0, after, mods[..k + 1])
  {
    assert forall y :: y in mods[..k + 1] <==> y in mods[..k] || y == mods[k];
  }

  /** `ns` has the length of `n0` and agrees with it outside the nodes `xs`. */
  ghost predicate Untouched(n0: seq<NodeTree.Node>, ns: seq<NodeTree.Node>, xs: seq<nat>)
  {
    |ns| == |n0| && forall x :: 0 <= x < |ns| && x !in xs ==> ns[x] == n0[x]
  }

  lemma UntouchedAll(n0: seq<NodeTree.Node>, ns: seq<NodeTree.Node>, mods: seq<nat>, k: nat)
    requires k <= |mods| && Untouched(n0, ns, mods[..k])
    ensures |ns| == |n0| && forall x :: 0 <= x < |ns| && x !in mods ==> ns[x] == n0[x]
  {
    assert forall x :: x in mods[..k] ==> x in mods;
  }

  /** The first `k` modules are linked where `build_modules` links them. */
  ghost predicate LinkedUpTo(ns: seq<NodeTree.Node>, inits: seq<Prepared>, mods: seq<nat>, k: nat)
    requires k <= |inits| == |mods|
  {
    forall j :: 0 <= j < k ==> !Missing(inits, j) && mods[j] < |ns| && ns[mods[j]].parent == Link(inits, mods, j)
  }

  lemma LinkedNoneMissing(ns: seq<NodeTree.Node>, inits: seq<Prepared>, mods: seq<nat>, k: nat)
    requires k < |inits| == |mods| && LinkedUpTo(ns, inits, mods, k) && Missing(inits, k)
    ensures FirstMissing(inits, k)
  {
  }

  lemma LinkedStep(before: seq<NodeTree.Node>, after: seq<NodeTree.Node>, inits: seq<Prepared>, mods: seq<nat>, k: nat)
    requires k < |inits| == |mods| && LinkedUpTo(before, inits, mods, k) && !Missing(inits, k)
    requires mods[k] < |before| && after == before[mods[k] := before[mods[k]].(parent := Link(inits, mods, k))]
    requires forall j :: 0 <= j < k ==> mods[j] != mods[k]
    ensures LinkedUpTo(after, inits, mods, k + 1)
  {
  }

  lemma LinkedAll(ns: seq<NodeTree.Node>, inits: seq<Prepared>, mods: seq<nat>)
    requires |inits| == |mods| && LinkedUpTo(ns, inits, mods, |inits|)
    ensures forall k :: 0 <= k < |inits| ==> !Missing(inits, k) && ns[mods[k]].parent == Link(inits, mods, k)
  {
  }

  /** The traits after `_update()` on each of `mods` in turn. */
  ghost function UpdateAll(ns: seq<NodeTree.Node>, t0: seq<NodeTree.Traits>, mods: seq<nat>): (r: seq<NodeTree.Traits>)
    requires NodeTree.WellFormed(ns) && |t0| == |ns| && forall k :: 0 <= k < |mods| ==> mods[k] < |ns|
    ensures |r| == |ns|
    decreases |mods|
  {
    if |mods| == 0 then t0
    else NodeTree.UpdateAt(ns, UpdateAll(ns, t0, mods[..|mods| - 1]), mods[|mods| - 1])
  }

  /** The third loop of `build_modules`: `_update()` on every module, in order. */
  method UpdateModules(t: NodeTree.Tree, mods: seq<nat>)
    requires t.Valid() && forall k :: 0 <= k < |mods| ==> mods[k] < |t.nodes|
    modifies t
    ensures t.Valid() && t.nodes == old(t.nodes) && t.deps == old(t.deps)
    ensures t.traits == UpdateAll(t.nodes, old(t.traits), mods)
  {
    var k := 0;
    while k < |mods|
      invariant 0 <= k <= |mods|
      invariant t.Valid() && t.nodes == old(t.nodes) && t.deps == old(t.deps)
      invariant t.traits == UpdateAll(t.nodes, old(t.traits), mods[..k])
    {
      ghost var before := t.traits;
      t.Update(mods[k]);
      NodeTree.UpdateAtIs(t.nodes, before, t.traits, mods[k]);
      assert mods[..k + 1][..k] == mods[..k];
      k := k + 1;
    }
    assert mods[..k] == mods;
  }

  /**
   * `build_modules(initmodules)`: module nodes in the order given, each
   * linked below its parent module or its repository, then updated. It
   * fails on the first module declaring an option name twice, else on the
   * first module whose parent module does not exist. The nodes there were
   * before are left as they were.
   */
  method BuildModules(t: NodeTree.Tree, inits: seq<Prepared>) returns (r: Result<seq<nat>>)
    requires t.Valid() && RepositoriesIn(t.nodes, inits)
    modifies t
    ensures t.Valid() && |old(t.nodes)| <= |t.nodes|
    ensures forall i :: 0 <= i < |old(t.nodes)| ==> t.nodes[i] == old(t.nodes)[i] && t.deps[i] == old(t.deps)[i]
    ensures AnyDuplicated(inits) ==> r.Failure? && FirstDuplicateError(inits, r.error)
    ensures r.Success? ==> |t.nodes| == |old(t.nodes)| + |CreatedTraits(old(t.nodes), inits)|
    ensures r.Success? ==> t.deps == old(t.deps) + CreatedDeps(inits)
    ensures r.Success? ==> ((forall k :: 0 <= k < |r.value| ==> r.value[k] < |t.nodes|) &&
      t.traits == UpdateAll(t.nodes, old(t.traits) + CreatedTraits(old(t.nodes), inits), r.value))
    ensures r.Failure? <==>
      (exists k :: 0 <= k < |inits| && DuplicateOption(inits[k].options)) ||
      (exists k :: 0 <= k < |inits| && Missing(inits, k))
    ensures r.Failure? && (forall k :: 0 <= k < |inits| ==> !DuplicateOption(inits[k].options)) ==>
      exists k: nat :: FirstMissing(inits, k) && r.error == Raised(KeyError, ParentName(Fullname(inits[k])))
    ensures r.Success? ==> (Created(t.nodes, inits, r.value) && NodeTree.Increasing(r.value) &&
      forall k :: 0 <= k < |inits| ==> t.nodes[r.value[k]].parent == Link(inits, r.value, k))
  {
    var created, rmodules := CreateModules(t, inits);
    if created.Failure? {
      return Failure(created.error);
    }
    var mods := created.value;
    ghost var n1 := t.nodes;
    forall k | 0 <= k < |inits| ensures inits[k].repository < |t.nodes| && t.nodes[inits[k].repository].kind == NodeTree.RepositoryNode {
      assert t.nodes[..|old(t.nodes)|][inits[k].repository] == old(t.nodes)[inits[k].repository];
    }
    ghost var n2 := t.nodes;
    var err := LinkModules(t, inits, mods, rmodules);
    forall i | 0 <= i < |old(t.nodes)| ensures t.nodes[i] == old(t.nodes)[i] && t.deps[i] == old(t.deps)[i] {
      assert i !in mods && n2[..|old(t.nodes)|][i] == n2[i];
    }
    if err.Some? {
      return Failure(err.value);
    }
    UpdateModules(t, mods);
    r := Success(mods);
  }

  // ------------------------------------------------------------ order

  /** `Module.__lt__`: modules are ordered by full name. */
  predicate ModuleLess(a: NodeTree.Node, b: NodeTree.Node)
  {
    Text.LexLess(a.fullname, b.fullname)
  }

  /** Full-name order is a strict total order on modules of distinct full names. */
  lemma ModuleOrder(a: NodeTree.Node, b: NodeTree.Node, c: NodeTree.Node)
    ensures !ModuleLess(a, a)
    ensures ModuleLess(a, b) ==> !ModuleLess(b, a)
    ensures ModuleLess(a, b) && ModuleLess(b, c) ==> ModuleLess(a, c)
    ensures a.fullname == b.fullname || ModuleLess(a, b) || ModuleLess(b, a)
  {
    Text.LexIrreflexive(a.fullname);
    Text.LexTotal(a.fullname, b.fullname);
    if ModuleLess(a, b) && ModuleLess(b, a) {
      Text.LexTransitive(a.fullname, b.fullname, a.fullname);
    }
    if ModuleLess(a, b) && ModuleLess(b, c) {
      Text.LexTransitive(a.fullname, b.fullname, c.fullname);
    }
  }
}
