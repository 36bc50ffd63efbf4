/*
 * lbuild/utils.py: listify/listrify, the lookup of a script's global
 * functions, exception forwarding and the copytree ignore callback.
 */
module Utils {
  import opened Errors
  import opened PyValue
  import Glob
  import Paths

  /** `DEFAULT_IGNORE_PATTERNS`, the copy patterns every node starts with. */
  const DefaultIgnorePatterns: seq<string> :=
    ["*/.git*", "*/.DS_Store*", "*/__pycache__", "*/module.lb", "*/repo.lb", "*/*.pyc"]

  /** `_listify(obj)`: None is empty, list/tuple/set/range and plain iterators
      give their elements, anything else (strings and dicts included) is a
      singleton. */
  function ListifyOne(v: Value): (r: seq<Value>)
    ensures v.NoneV? ==> r == []
    ensures v.SeqV? ==> r == v.items
    ensures !v.NoneV? && !v.SeqV? ==> r == [v]
  {
    match v
    case NoneV => []
    case SeqV(_, items) => items
    case _ => [v]
  }

  /** `listify(*objs)`: flattens exactly one level, in order. */
  function Listify(objs: seq<Value>): seq<Value>
  {
    if |objs| == 0 then [] else ListifyOne(objs[0]) + Listify(objs[1..])
  }

  /** listify distributes over concatenation of its arguments. */
  lemma {:induction false} ListifyAppend(a: seq<Value>, b: seq<Value>)
    ensures Listify(a + b) == Listify(a) + Listify(b)
    decreases |a|
  {
    if |a| == 0 {
      assert a + b == b;
    } else {
      ListifyAppend(a[1..], b);
      assert (a + b)[0] == a[0];
      assert (a + b)[1..] == a[1..] + b;
    }
  }

  /** Elements that listify keeps as they are. */
  predicate Atomic(v: Value)
  {
    !v.NoneV? && !v.SeqV?
  }

  /** A list of atomic values is a fixed point of listify. */
  lemma {:induction false} ListifyAtomic(objs: seq<Value>)
    requires forall k :: 0 <= k < |objs| ==> Atomic(objs[k])
    ensures Listify(objs) == objs
    decreases |objs|
  {
    if |objs| > 0 {
      ListifyAtomic(objs[1..]);
    }
  }

  /** listify of one list whose elements are atomic is that list, so listify is idempotent there. */
  lemma ListifyIdempotent(v: Value)
    requires forall k :: 0 <= k < |ListifyOne(v)| ==> Atomic(ListifyOne(v)[k])
    ensures Listify([v]) == ListifyOne(v)
    ensures Listify(Listify([v])) == Listify([v])
  {
    assert Listify([v]) == ListifyOne(v) + Listify([]);
    ListifyAtomic(ListifyOne(v));
  }

  /** `listrify(*objs)`: str() of every listified element. */
  function Listrify(objs: seq<Value>): (r: seq<string>)
    ensures |r| == |Listify(objs)|
    ensures forall k :: 0 <= k < |r| ==> r[k] == Str(Listify(objs)[k])
  {
    StrAll(Listify(objs))
  }

  /** The namespace a script's functions are looked up in: a dict or an object. */
  datatype Env = DictEnv(entries: seq<(Value, Value)>) | ObjEnv(attrs: map<string, Value>)

  /** `get(name)`: a missing entry and an entry holding None both read as None. */
  function EnvGet(env: Env, name: string): (r: Option<Value>)
    ensures r.Some? ==> !r.value.NoneV?
  {
    match env
    case DictEnv(entries) =>
      (match DictGet(entries, StrV(name))
       case None => None
       case Some(v) => if v.NoneV? then None else Some(v))
    case ObjEnv(attrs) =>
      if name in attrs && !attrs[name].NoneV? then Some(attrs[name]) else None
  }

  function MissingMessage(name: string): string
  {
    "No function '" + name + "' found!"
  }

  /** Index of the first required name that the environment lacks. */
  function FirstMissing(env: Env, required: seq<string>): (r: Option<nat>)
    ensures r.Some? ==> (r.value < |required| && EnvGet(env, required[r.value]).None? &&
                         forall k :: 0 <= k < r.value ==> EnvGet(env, required[k]).Some?)
    ensures r.None? ==> forall k :: 0 <= k < |required| ==> EnvGet(env, required[k]).Some?
  {
    if |required| == 0 then None
    else if EnvGet(env, required[0]).None? then Some(0)
    else
      var rest := FirstMissing(env, required[1..]);
      if rest.None? then None else Some(rest.value + 1)
  }

  /**
   * `get_global_functions(env, required, optional)`: fails on the first
   * required name that is missing; otherwise maps exactly the names found.
   */
  method GetGlobalFunctions(env: Env, required: seq<string>, optional: seq<string>)
    returns (r: Result<map<string, Value>>)
    ensures r.Failure? <==> FirstMissing(env, required).Some?
    ensures r.Failure? ==>
      r.error == Fail(MissingMessage(required[FirstMissing(env, required).value]))
    ensures r.Success? ==>
      (forall n :: n in r.value <==> (n in required + optional && EnvGet(env, n).Some?)) &&
      (forall n :: n in r.value ==> r.value[n] == EnvGet(env, n).value)
  {
    var names := required + optional;
    var functions: map<string, Value> := map[];
    var i := 0;
    while i < |names|
      invariant 0 <= i <= |names|
      invariant forall k :: 0 <= k < i && k < |required| ==> EnvGet(env, required[k]).Some?
      invariant forall n :: n in functions <==> (n in names[..i] && EnvGet(env, n).Some?)
      invariant forall n :: n in functions ==> functions[n] == EnvGet(env, n).value
    {
      var name := names[i];
      var val := EnvGet(env, name);
      if name in required && val.None? {
        assert i < |required|;
        FirstMissingAt(env, required, i);
        return Failure(Fail(MissingMessage(name)));
      }
      if val.Some? {
        functions := functions[name := val.value];
      }
      i := i + 1;
      assert names[..i] == names[..i - 1] + [name];
    }
    assert names[..i] == names;
    return Success(functions);
  }

  lemma {:induction false} FirstMissingAt(env: Env, required: seq<string>, i: nat)
    requires i < |required|
    requires forall k :: 0 <= k < i ==> EnvGet(env, required[k]).Some?
    requires EnvGet(env, required[i]).None?
    ensures FirstMissing(env, required) == Some(i)
    decreases i
  {
    if i > 0 {
      FirstMissingAt(env, required[1..], i - 1);
    }
  }

  /**
   * `with_forward_exception(module, function)`: the function's outcome is
   * passed through, except that a non-lbuild exception is wrapped with the
   * module it came from.
   */
  function WithForwardException<T>(owner: string, outcome: Result<T>): (r: Result<T>)
    ensures r.Success? <==> outcome.Success?
    ensures outcome.Success? ==> r == outcome
    ensures outcome.Failure? && IsLbuild(outcome.error) ==> r == outcome
    ensures outcome.Failure? && !IsLbuild(outcome.error) ==> r == Failure(Forward(owner, outcome.error))
  {
    match outcome
    case Success(_) => outcome
    case Failure(e) => if IsLbuild(e) then outcome else Failure(Forward(owner, e))
  }

  /** After forwarding, every failure is an lbuild exception; forwarding twice changes nothing. */
  lemma ForwardIsLbuild<T>(owner: string, outcome: Result<T>)
    ensures WithForwardException(owner, outcome).Failure? ==>
      IsLbuild(WithForwardException(owner, outcome).error)
    ensures WithForwardException(owner, WithForwardException(owner, outcome)) ==
      WithForwardException(owner, outcome)
  {
  }

  /** The files that `ignore_patterns(*patterns)` tells copytree to skip in `path`. */
  ghost function IgnoredSpec(patterns: seq<string>, path: string, files: seq<string>): set<string>
  {
    set f | f in files && exists p :: p in patterns && Glob.Match(Paths.Join(path, f), p)
  }

  /** The `check(path, files)` callback returned by `ignore_patterns`. */
  method IgnoredFiles(patterns: seq<string>, path: string, files: seq<string>)
    returns (ignored: set<string>)
    ensures ignored == IgnoredSpec(patterns, path, files)
  {
    ignored := {};
    var i := 0;
    while i < |patterns|
      invariant 0 <= i <= |patterns|
      invariant ignored == set f | f in files && exists p :: p in patterns[..i] && Glob.Match(Paths.Join(path, f), p)
    {
      var j := 0;
      while j < |files|
        invariant 0 <= j <= |files|
        invariant ignored ==
          (set f | f in files && exists p :: p in patterns[..i] && Glob.Match(Paths.Join(path, f), p)) +
          (set f | f in files[..j] && Glob.Match(Paths.Join(path, f), patterns[i]))
      {
        if Glob.Match(Paths.Join(path, files[j]), patterns[i]) {
          ignored := ignored + {files[j]};
        }
        j := j + 1;
        assert files[..j] == files[..j - 1] + [files[j - 1]];
      }
      assert files[..j] == files;
      i := i + 1;
      assert patterns[..i] == patterns[..i - 1] + [patterns[i - 1]];
    }
    assert patterns[..i] == patterns;
  }
}
