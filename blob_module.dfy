/*
 * A module definition of blob, lbuild's predecessor: the object a module
 * file fills in through `set_name`, `add_option` and `depends`. Option
 * names are free of `:` and unique; every dependency is a two-part
 * `repository:module` name.
 */
module BlobModule {
  import opened Errors
  import Text
  import PyValue

  /** `environment.Option(name, description, value)`. */
  datatype BlobOption = BlobOption(name: string, description: string, value: PyValue.Value)

  /** `"%s:%s" % (repository, name)`. */
  function FullName(repository: string, name: string): string
  {
    repository + ":" + name
  }

  /** A dependency name splits into exactly two parts at `:`. */
  predicate TwoPart(dependency: string)
  {
    |Text.Split(dependency, ":")| == 2
  }

  /** Two parts at `:` means exactly one `:`. */
  lemma TwoPartOneColon(dependency: string)
    ensures TwoPart(dependency) <==> Text.CountChar(dependency, ':') == 1
  {
    Text.SplitCount(dependency, ':');
  }

  /** The number of leading entries of `deps` that `depends` accepts before the first malformed one. */
  function Accepted(deps: seq<string>): (n: nat)
    ensures n <= |deps|
    ensures forall k :: 0 <= k < n ==> TwoPart(deps[k])
    ensures n < |deps| ==> !TwoPart(deps[n])
  {
    if |deps| == 0 then 0
    else if !TwoPart(deps[0]) then 0
    else
      var n := Accepted(deps[1..]);
      assert forall k :: 1 <= k < n + 1 ==> deps[k] == deps[1..][k - 1];
      n + 1
  }

  function BadNameMessage(dependency: string): string
  {
    "Modulename '" + dependency + "' must contain exactly one ':' as separator between repository and module name"
  }

  class Module {
    const repositoryName: string
    const filename: string
    const path: string
    var name: Option<string>
    var fullName: Option<string>
    var description: string
    var dependencies: seq<string>
    var options: map<string, BlobOption>

    /** Every option is stored under its own name, which holds no `:`. */
    predicate Valid()
      reads this
    {
      forall k :: k in options ==> ':' !in k && options[k].name == k
    }

    /** `Module(repository, filename, path)`: nameless, without options or dependencies. */
    constructor(repositoryName: string, filename: string, path: string)
      ensures Valid()
      ensures this.repositoryName == repositoryName && this.filename == filename && this.path == path
      ensures name == None && fullName == None && description == ""
      ensures dependencies == [] && options == map[]
    {
      this.repositoryName := repositoryName;
      this.filename := filename;
      this.path := path;
      name := None;
      fullName := None;
      description := "";
      dependencies := [];
      options := map[];
    }

    /** `set_name`: the name, and the full name qualified by the repository's. */
    method SetName(n: string)
      modifies this
      ensures name == Some(n) && fullName == Some(FullName(repositoryName, n))
      ensures description == old(description) && dependencies == old(dependencies) && options == old(options)
    {
      name := Some(n);
      fullName := Some(FullName(repositoryName, n));
    }

    /**
     * `add_option`: a name holding `:` and a name already defined are
     * rejected and leave the options as they were; otherwise the option is
     * stored with the default as its value.
     */
    method AddOption(n: string, d: string, default: PyValue.Value) returns (err: Option<Error>)
      requires Valid()
      modifies this
      ensures Valid()
      ensures name == old(name) && fullName == old(fullName)
      ensures description == old(description) && dependencies == old(dependencies)
      ensures err.Some? <==> ':' in n || n in old(options)
      ensures ':' in n ==>
        err == Some(Raised(BlobError, "Character ':' is not allowed in options name '" + n + "'"))
      ensures ':' !in n && n in old(options) ==>
        err == Some(Raised(BlobError, "Option name '" + n + "' is already defined"))
      ensures err.Some? ==> options == old(options)
      ensures err.None? ==> options == old(options)[n := BlobOption(n, d, default)]
    {
      if ':' in n {
        return Some(Raised(BlobError, "Character ':' is not allowed in options name '" + n + "'"));
      }
      if n in options {
        return Some(Raised(BlobError, "Option name '" + n + "' is already defined"));
      }
      options := options[n := BlobOption(n, d, default)];
      err := None;
    }

    /**
     * `depends`: the entries are appended in order; the first one that is
     * not a two-part name raises, and the entries before it stay appended.
     */
    method Depends(deps: seq<string>) returns (err: Option<Error>)
      modifies this
      ensures name == old(name) && fullName == old(fullName)
      ensures description == old(description) && options == old(options)
      ensures dependencies == old(dependencies) + deps[..Accepted(deps)]
      ensures err.Some? <==> Accepted(deps) < |deps|
      ensures err.Some? ==> err.value == Raised(BlobError, BadNameMessage(deps[Accepted(deps)]))
    {
      var i := 0;
      while i < |deps|
        invariant 0 <= i <= |deps| && i <= Accepted(deps)
        invariant dependencies == old(dependencies) + deps[..i]
        invariant name == old(name) && fullName == old(fullName)
        invariant description == old(description) && options == old(options)
      {
        if |Text.Split(deps[i], ":")| != 2 {
          return Some(Raised(BlobError, BadNameMessage(deps[i])));
        }
        assert deps[..i + 1] == deps[..i] + [deps[i]];
        dependencies := dependencies + [deps[i]];
        i := i + 1;
      }
      err := None;
    }
  }
}
