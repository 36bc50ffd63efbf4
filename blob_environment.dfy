/*
 * The module registry of blob, lbuild's predecessor: `Environment.get_module`
 * finds a module by its `repository:module` name, and with an empty
 * repository part searches every repository for the module part, reporting
 * an ambiguity when two repositories have it. The registry is a dict kept
 * in insertion order: a sequence of (full name, module) entries.
 */
module BlobEnvironment {
  import opened Errors
  import Text

  /** The `repository` and `module` parts of `name.split(':')`, or the ValueError of unpacking them into two names. */
  function Parts(name: string): Result<(string, string)>
  {
    var parts := Text.Split(name, ":");
    if |parts| < 2 then Failure(Raised(ValueError, "not enough values to unpack (expected 2, got 1)"))
    else if |parts| > 2 then Failure(Raised(ValueError, "too many values to unpack (expected 2)"))
    else Success((parts[0], parts[1]))
  }

  /** A name has two parts exactly when it holds one `:`, and then it is their join. */
  lemma PartsSpec(name: string)
    ensures Parts(name).Success? <==> Text.CountChar(name, ':') == 1
    ensures Parts(name).Success? ==>
      ':' !in Parts(name).value.0 && ':' !in Parts(name).value.1 &&
      name == Parts(name).value.0 + ":" + Parts(name).value.1
  {
    var parts := Text.Split(name, ":");
    Text.SplitCount(name, ':');
    if |parts| == 2 {
      Text.SplitPiecesFree(name, ":");
      Text.JoinSplit(name, ":");
      PartsFree(parts);
      Text.CharFree(parts[0], ':');
      Text.CharFree(parts[1], ':');
    }
  }

  lemma PartsFree(parts: seq<string>)
    requires |parts| == 2
    ensures Text.Join(parts, ":") == parts[0] + ":" + parts[1]
  {
    assert parts[1..] == [parts[1]];
  }

  function AmbiguousMessage(name: string): string
  {
    "Name '" + name + "' is ambiguous. Please specify the repository."
  }

  function NotFoundMessage(name: string): string
  {
    "Module '" + name + "' not found."
  }

  /**
   * The search of `get_module` over the first `n` entries for module part
   * `part`: the candidate found so far, or the exception raised, which is a
   * ValueError for a registry key that is not a two-part name and the
   * ambiguity error for a second match.
   */
  function Scan<T>(modules: seq<(string, T)>, n: nat, part: string, name: string): Result<Option<T>>
    requires n <= |modules|
  {
    if n == 0 then Success(None)
    else
      var prev := Scan(modules, n - 1, part, name);
      if prev.Failure? then prev
      else
        var key := Parts(modules[n - 1].0);
        if key.Failure? then Failure(key.error)
        else if key.value.1 != part then prev
        else if prev.value.Some? then Failure(Raised(BlobError, AmbiguousMessage(name)))
        else Success(Some(modules[n - 1].1))
  }

  /** The dict lookup `self.modules[name]`: the value of the entry under `name`. */
  function Find<T>(modules: seq<(string, T)>, name: string): (r: Option<T>)
    ensures r.None? <==> forall k :: 0 <= k < |modules| ==> modules[k].0 != name
    ensures r.Some? ==> exists k :: 0 <= k < |modules| && modules[k] == (name, r.value)
  {
    if |modules| == 0 then None
    else if modules[0].0 == name then Some(modules[0].1)
    else
      var r := Find(modules[1..], name);
      assert forall k :: 1 <= k < |modules| ==> modules[k] == modules[1..][k - 1];
      r
  }

  /** The end of the search: the exception it raised, "not found" without a candidate, or the candidate. */
  function Searched<T>(found: Result<Option<T>>, name: string): Result<T>
  {
    if found.Failure? then Failure(found.error)
    else if found.value.None? then Failure(Raised(BlobError, NotFoundMessage(name)))
    else Success(found.value.value)
  }

  /** `Environment.get_module(modulename)`. */
  function GetModule<T>(modules: seq<(string, T)>, name: string): Result<T>
  {
    var parts := Parts(name);
    if parts.Failure? then Failure(parts.error)
    else if parts.value.0 == "" then Searched(Scan(modules, |modules|, parts.value.1, name), name)
    else
      var m := Find(modules, name);
      if m.None? then Failure(Raised(BlobError, NotFoundMessage(name))) else Success(m.value)
  }

  /** Every registry key is a two-part name. */
  predicate WellNamed<T>(modules: seq<(string, T)>)
  {
    forall k :: 0 <= k < |modules| ==> Text.CountChar(modules[k].0, ':') == 1
  }

  /** Entry `k` has module part `part`. */
  predicate MatchesAt<T>(modules: seq<(string, T)>, k: nat, part: string)
    requires k < |modules|
  {
    var key := Parts(modules[k].0);
    key.Success? && key.value.1 == part
  }

  /** The number of the first `n` entries whose module part is `part`. */
  function Matches<T>(modules: seq<(string, T)>, n: nat, part: string): nat
    requires n <= |modules|
  {
    if n == 0 then 0 else Matches(modules, n - 1, part) + (if MatchesAt(modules, n - 1, part) then 1 else 0)
  }

  /**
   * Over well-named entries the search fails exactly on a second match;
   * otherwise it holds the one match, or nothing when there is none.
   */
  lemma {:induction false} ScanCounts<T>(modules: seq<(string, T)>, n: nat, part: string, name: string)
    requires n <= |modules| && WellNamed(modules)
    ensures Scan(modules, n, part, name).Failure? <==> Matches(modules, n, part) >= 2
    ensures Scan(modules, n, part, name).Failure? ==>
      Scan(modules, n, part, name).error == Raised(BlobError, AmbiguousMessage(name))
    ensures Scan(modules, n, part, name).Success? ==>
      (Scan(modules, n, part, name).value.None? <==> Matches(modules, n, part) == 0)
    decreases n
  {
    if n > 0 {
      ScanCounts(modules, n - 1, part, name);
      ScanStep(modules, n, part, name);
    }
  }

  /** A candidate the search holds is the module of a matching entry. */
  lemma {:induction false} ScanFound<T>(modules: seq<(string, T)>, n: nat, part: string, name: string) returns (k: nat)
    requires n <= |modules|
    requires Scan(modules, n, part, name).Success? && Scan(modules, n, part, name).value.Some?
    ensures k < n && MatchesAt(modules, k, part) && Scan(modules, n, part, name).value.value == modules[k].1
    decreases n
  {
    var prev := Scan(modules, n - 1, part, name);
    if prev.Success? && prev.value.Some? && Scan(modules, n, part, name) == prev {
      k := ScanFound(modules, n - 1, part, name);
    } else {
      k := n - 1;
    }
  }

  /** One entry more: over well-named entries a key never raises, and only a match changes the search. */
  lemma ScanStep<T>(modules: seq<(string, T)>, n: nat, part: string, name: string)
    requires 0 < n <= |modules| && WellNamed(modules)
    ensures var prev := Scan(modules, n - 1, part, name); var r := Scan(modules, n, part, name);
      (prev.Failure? || !MatchesAt(modules, n - 1, part) ==> r == prev) &&
      (prev.Success? && MatchesAt(modules, n - 1, part) ==>
        r == if prev.value.Some? then Failure(Raised(BlobError, AmbiguousMessage(name)))
             else Success(Some(modules[n - 1].1)))
  {
    assert Text.CountChar(modules[n - 1].0, ':') == 1;
    PartsSpec(modules[n - 1].0);
  }

  /**
   * `get_module` with an empty repository part over well-named entries:
   * the one module whose module part matches, "ambiguous" for two or more,
   * "not found" for none.
   */
  lemma GetModuleUnqualified<T>(modules: seq<(string, T)>, part: string)
    requires WellNamed(modules) && ':' !in part
    ensures var r := GetModule(modules, ":" + part);
      (Matches(modules, |modules|, part) == 0 ==> r == Failure(Raised(BlobError, NotFoundMessage(":" + part)))) &&
      (Matches(modules, |modules|, part) >= 2 ==> r == Failure(Raised(BlobError, AmbiguousMessage(":" + part)))) &&
      (Matches(modules, |modules|, part) == 1 ==>
        r.Success? && exists k :: 0 <= k < |modules| && MatchesAt(modules, k, part) && r.value == modules[k].1)
  {
    var name := ":" + part;
    GetModuleSearches(modules, part);
    ScanCounts(modules, |modules|, part, name);
    var r := Scan(modules, |modules|, part, name);
    if r.Success? && r.value.Some? {
      var k := ScanFound(modules, |modules|, part, name);
    }
  }

  lemma GetModuleSearches<T>(modules: seq<(string, T)>, part: string)
    requires ':' !in part
    ensures GetModule(modules, ":" + part) == Searched(Scan(modules, |modules|, part, ":" + part), ":" + part)
  {
    assert "" + ":" + part == ":" + part;
    PartsUnique(":" + part, "", part);
  }

  /** The two parts of a two-part name are determined by it. */
  lemma PartsUnique(name: string, repo: string, part: string)
    requires ':' !in repo && ':' !in part && name == repo + ":" + part
    ensures Parts(name) == Success((repo, part))
  {
    Text.SplitJoin([repo, part], ':');
    PartsFree([repo, part]);
    assert Text.Split(name, ":") == [repo, part];
  }

  /** A qualified name finds the entry registered under it, and only that. */
  lemma GetModuleQualified<T>(modules: seq<(string, T)>, repo: string, part: string)
    requires repo != "" && ':' !in repo && ':' !in part
    ensures var name := repo + ":" + part; var r := GetModule(modules, name);
      (r.Success? <==> exists k :: 0 <= k < |modules| && modules[k].0 == name) &&
      (r.Success? ==> exists k :: 0 <= k < |modules| && modules[k] == (name, r.value)) &&
      (r.Failure? ==> r.error == Raised(BlobError, NotFoundMessage(name)))
  {
    PartsUnique(repo + ":" + part, repo, part);
  }

  /** A name without exactly one `:` is a ValueError, whatever the registry holds. */
  lemma GetModuleMalformed<T>(modules: seq<(string, T)>, name: string)
    requires Text.CountChar(name, ':') != 1
    ensures GetModule(modules, name).Failure? && GetModule(modules, name).error.Raised?
    ensures GetModule(modules, name).error.kind == ValueError
  {
    PartsSpec(name);
  }
}
