/*
 * lbuild's queries: a plain query hands its function out on every use; an
 * environment query runs its factory on first use and hands out the stored
 * result from then on. A query's description is its docstring, dedented as
 * Python's `textwrap.dedent` does and stripped.
 */
module Queries {
  import opened Errors
  import opened PyValue
  import Text
  import Options

  // ------------------------------------------------------------ textwrap.dedent

  /** The characters `textwrap.dedent` counts as indentation. */
  predicate IndentChar(c: char)
  {
    c == ' ' || c == '\t'
  }

  /** A line of spaces and tabs only (the empty line included). */
  predicate BlankLine(line: string)
  {
    forall k :: 0 <= k < |line| ==> IndentChar(line[k])
  }

  /** The leading run of spaces and tabs of a line. */
  function IndentOf(line: string): (r: string)
    ensures |r| <= |line| && r == line[..|r|]
    ensures forall k :: 0 <= k < |r| ==> IndentChar(r[k])
    ensures |r| < |line| ==> !IndentChar(line[|r|])
  {
    if |line| > 0 && IndentChar(line[0]) then
      var rest := IndentOf(line[1..]);
      assert [line[0]] + rest == line[..1 + |rest|];
      [line[0]] + rest
    else ""
  }

  lemma BlankIndent(line: string)
    ensures BlankLine(line) <==> IndentOf(line) == line
  {
    if !BlankLine(line) {
      var k :| 0 <= k < |line| && !IndentChar(line[k]);
      assert IndentOf(line) != line;
    }
  }

  /** The longest common prefix of two strings. */
  function CommonPrefix(a: string, b: string): (r: string)
    ensures Text.StartsWith(a, r) && Text.StartsWith(b, r)
    ensures |r| == |a| || |r| == |b| || a[|r|] != b[|r|]
  {
    if |a| == 0 || |b| == 0 || a[0] != b[0] then ""
    else
      var rest := CommonPrefix(a[1..], b[1..]);
      assert [a[0]] + rest == a[..1 + |rest|];
      assert [b[0]] + rest == b[..1 + |rest|];
      [a[0]] + rest
  }

  /**
   * The margin `textwrap.dedent` removes: the common leading whitespace of
   * the lines that are not blank, or None when every line is blank.
   */
  function Margin(lines: seq<string>): Option<string>
    decreases |lines|
  {
    if |lines| == 0 then None
    else
      var m := Margin(lines[..|lines| - 1]);
      var line := lines[|lines| - 1];
      if BlankLine(line) then m
      else if m.None? then Some(IndentOf(line))
      else Some(CommonPrefix(m.value, IndentOf(line)))
  }

  /** Every line that is not blank starts its indentation with `m`. */
  ghost predicate Common(lines: seq<string>, m: string)
  {
    forall i :: 0 <= i < |lines| && !BlankLine(lines[i]) ==> Text.StartsWith(IndentOf(lines[i]), m)
  }

  /**
   * No longer prefix is common: some line's indentation is exactly `m`, or
   * two lines' indentations differ right after `m`.
   */
  ghost predicate Maximal(lines: seq<string>, m: string)
  {
    exists i :: 0 <= i < |lines| && !BlankLine(lines[i]) &&
      (IndentOf(lines[i]) == m ||
       exists j :: 0 <= j < |lines| && !BlankLine(lines[j]) && |m| < |IndentOf(lines[j])| &&
         |m| < |IndentOf(lines[i])| && IndentOf(lines[j])[|m|] != IndentOf(lines[i])[|m|])
  }

  /** The margin is the longest common indentation of the lines that are not blank. */
  lemma MarginSpec(lines: seq<string>)
    ensures Margin(lines).None? <==> forall i :: 0 <= i < |lines| ==> BlankLine(lines[i])
    ensures Margin(lines).Some? ==> Common(lines, Margin(lines).value) && Maximal(lines, Margin(lines).value)
  {
    MarginNone(lines);
    if Margin(lines).Some? {
      MarginCommon(lines);
      MarginMaximal(lines);
    }
  }

  lemma {:induction false} MarginNone(lines: seq<string>)
    ensures Margin(lines).None? <==> forall i :: 0 <= i < |lines| ==> BlankLine(lines[i])
    decreases |lines|
  {
    if |lines| > 0 {
      var init := lines[..|lines| - 1];
      MarginNone(init);
      assert forall i :: 0 <= i < |init| ==> init[i] == lines[i];
    }
  }

  lemma {:induction false} MarginCommon(lines: seq<string>)
    requires Margin(lines).Some?
    ensures Common(lines, Margin(lines).value)
    decreases |lines|
  {
    var init := lines[..|lines| - 1];
    var last := |lines| - 1;
    var m := Margin(init);
    assert forall i :: 0 <= i < |init| ==> init[i] == lines[i];
    if m.Some? {
      MarginCommon(init);
    }
    var r := Margin(lines).value;
    if BlankLine(lines[last]) {
      assert r == m.value;
    } else if m.None? {
      MarginNone(init);
    } else {
      forall i | 0 <= i < |lines| && !BlankLine(lines[i])
        ensures Text.StartsWith(IndentOf(lines[i]), r)
      {
        if i < last {
          assert Text.StartsWith(IndentOf(init[i]), m.value);
          assert IndentOf(lines[i])[..|r|] == m.value[..|r|];
        }
      }
    }
  }

  lemma {:induction false} MarginMaximal(lines: seq<string>)
    requires Margin(lines).Some?
    ensures Maximal(lines, Margin(lines).value)
    decreases |lines|
  {
    var init := lines[..|lines| - 1];
    var last := |lines| - 1;
    var m := Margin(init);
    var line := lines[last];
    assert forall i :: 0 <= i < |init| ==> init[i] == lines[i];
    if BlankLine(line) {
      MarginMaximal(init);
      MaximalExtend(init, line, m.value);
      assert init + [line] == lines;
    } else if m.None? {
      assert IndentOf(lines[last]) == IndentOf(line);
    } else {
      var ind := IndentOf(line);
      var r := CommonPrefix(m.value, ind);
      if |r| == |ind| {
        assert IndentOf(lines[last]) == r;
      } else if |r| == |m.value| {
        assert r == m.value;
        MarginMaximal(init);
        MaximalExtend(init, line, m.value);
        assert init + [line] == lines;
      } else {
        MarginCommon(init);
        MarginNone(init);
        var i :| 0 <= i < |init| && !BlankLine(init[i]);
        assert Text.StartsWith(IndentOf(init[i]), m.value);
        assert IndentOf(lines[i])[|r|] == m.value[|r|] != ind[|r|];
        assert |r| < |IndentOf(lines[i])|;
        assert !BlankLine(lines[last]) && |r| < |IndentOf(lines[last])|;
      }
    }
  }

  /** A witness for maximality stays one when a line is added. */
  lemma MaximalExtend(lines: seq<string>, line: string, m: string)
    requires Maximal(lines, m)
    ensures Maximal(lines + [line], m)
  {
    var all := lines + [line];
    var i :| 0 <= i < |lines| && !BlankLine(lines[i]) &&
      (IndentOf(lines[i]) == m ||
       exists j :: 0 <= j < |lines| && !BlankLine(lines[j]) && |m| < |IndentOf(lines[j])| &&
         |m| < |IndentOf(lines[i])| && IndentOf(lines[j])[|m|] != IndentOf(lines[i])[|m|]);
    assert all[i] == lines[i];
    if IndentOf(lines[i]) != m {
      var j :| 0 <= j < |lines| && !BlankLine(lines[j]) && |m| < |IndentOf(lines[j])| &&
         |m| < |IndentOf(lines[i])| && IndentOf(lines[j])[|m|] != IndentOf(lines[i])[|m|];
      assert all[j] == lines[j];
    }
  }

  /** `textwrap.dedent` on one line: a blank line is emptied, any other loses the margin. */
  function DedentLine(line: string, margin: Option<string>): string
  {
    if BlankLine(line) then ""
    else if margin.Some? && Text.StartsWith(line, margin.value) then line[|margin.value|..]
    else line
  }

  function DedentLines(lines: seq<string>): (r: seq<string>)
    ensures |r| == |lines|
    ensures forall k :: 0 <= k < |lines| ==> r[k] == DedentLine(lines[k], Margin(lines))
  {
    seq(|lines|, k requires 0 <= k < |lines| => DedentLine(lines[k], Margin(lines)))
  }

  /** `textwrap.dedent(text)`. */
  function Dedent(text: string): string
  {
    Text.Join(DedentLines(Text.Split(text, "\n")), "\n")
  }

  /**
   * Each line of the dedented text is empty when the line was blank, and
   * otherwise is the line without the common margin, which every such line has.
   */
  lemma DedentEachLine(lines: seq<string>, k: nat)
    requires k < |lines|
    ensures BlankLine(lines[k]) ==> DedentLines(lines)[k] == ""
    ensures !BlankLine(lines[k]) ==>
      Margin(lines).Some? && Text.StartsWith(lines[k], Margin(lines).value) &&
      DedentLines(lines)[k] == lines[k][|Margin(lines).value|..]
  {
    MarginSpec(lines);
    if !BlankLine(lines[k]) {
      var m := Margin(lines).value;
      assert Text.StartsWith(IndentOf(lines[k]), m);
      assert lines[k][..|m|] == IndentOf(lines[k])[..|m|];
    }
  }

  /** Text whose lines are empty or not blank, one of them flush left, is left as it is. */
  lemma DedentFlush(text: string, k: nat)
    requires forall i :: 0 <= i < |Text.Split(text, "\n")| ==>
      Text.Split(text, "\n")[i] == "" || !BlankLine(Text.Split(text, "\n")[i])
    requires k < |Text.Split(text, "\n")| && !BlankLine(Text.Split(text, "\n")[k])
    requires IndentOf(Text.Split(text, "\n")[k]) == ""
    ensures Dedent(text) == text
  {
    var lines := Text.Split(text, "\n");
    MarginSpec(lines);
    assert Text.StartsWith(IndentOf(lines[k]), Margin(lines).value);
    assert Margin(lines) == Some("");
    assert DedentLines(lines) == lines;
    Text.JoinSplit(text, "\n");
  }

  // ------------------------------------------------------------ queries

  /** Python's `function.__name__` for a callable value. */
  function NameOf(f: Value): string
    requires Options.Callable(f)
  {
    if f.FuncV? then f.name else f.cls
  }

  /** `function.__doc__`; an Enum class has the docstring `Enum` gives it. */
  function DocOf(f: Value): Option<string>
    requires Options.Callable(f)
  {
    if f.FuncV? then f.doc else Some("An enumeration.")
  }

  /**
   * The number of parameters `inspect.signature` reports; an Enum class is
   * called through `EnumMeta.__call__(value, names, module, qualname, type, start)`.
   */
  function ParameterCount(f: Value): nat
    requires Options.Callable(f)
  {
    if f.FuncV? then f.arity else 6
  }

  /** `textwrap.dedent("" if fdoc is None else fdoc).strip()`. */
  function Description(doc: Option<string>): (r: string)
    ensures doc.None? ==> r == ""
  {
    Text.Strip(Dedent(if doc.None? then "" else doc.value))
  }

  /** A constructed query: its name, its function and its description. */
  datatype Query = Query(name: string, func: Value, description: string)

  /** `Query(function, name)`. */
  function NewQuery(f: Value, name: Option<string>): (r: Result<Query>)
    ensures r.Success? <==>
      Options.Callable(f) && (name.Some? || Text.Find(NameOf(f), "<lambda>").None?)
    ensures !Options.Callable(f) ==>
      r == Failure(Fail("Query '" + Str(f) + "' (" + TypeName(f) + ") must be callable!"))
    ensures r.Success? ==>
      r.value.func == f && r.value.description == Description(DocOf(f)) &&
      r.value.name == (if name.Some? then name.value else NameOf(f))
  {
    if !Options.Callable(f) then
      Failure(Fail("Query '" + Str(f) + "' (" + TypeName(f) + ") must be callable!"))
    else
      var fname := NameOf(f);
      if name.None? && Text.Find(fname, "<lambda>").Some? then
        Failure(Fail("Query '" + Str(f) + "' (" + TypeName(f) + ") must have a name!"))
      else
        Success(Query(if name.None? then fname else name.value, f, Description(DocOf(f))))
  }

  /** An anonymous function needs an explicit name; a named one defaults to its own. */
  lemma LambdaNeedsName(arity: nat, doc: Option<string>)
    ensures NewQuery(FuncV("<lambda>", arity, doc), None).Failure?
    ensures NewQuery(FuncV("<lambda>", arity, doc), Some("lambda_name")).Success?
    ensures NewQuery(FuncV("<lambda>", arity, doc), Some("lambda_name")).value.name == "lambda_name"
  {
    assert Text.OccursAt("<lambda>", "<lambda>", 0);
  }

  /** `Query.value(env)`: the function itself, whatever the environment. */
  function QueryValue(q: Query, env: Value): (r: Value)
    ensures r == q.func
  {
    q.func
  }

  /** `EnvironmentQuery(factory, name)`: a query whose factory takes exactly one parameter. */
  function NewEnvironmentQuery(factory: Value, name: Option<string>): (r: Result<Query>)
    ensures r.Success? <==> NewQuery(factory, name).Success? && ParameterCount(factory) == 1
    ensures r.Success? ==> r == NewQuery(factory, name)
    ensures NewQuery(factory, name).Success? && ParameterCount(factory) != 1 ==>
      r == Failure(Fail("EnvironmentQuery '" + Str(factory) + "' must take 'env' as argument!"))
  {
    var q :- NewQuery(factory, name);
    if ParameterCount(factory) != 1 then
      Failure(Fail("EnvironmentQuery '" + Str(factory) + "' must take 'env' as argument!"))
    else Success(q)
  }

  // ------------------------------------------------------------ memoisation

  /** The stored state of an environment query: `__called` and `__result`. */
  datatype Memo = Memo(called: bool, result: Value)

  /** What the factory does when called with an environment: return a value or raise. */
  type Factory = Value -> Result<Value>

  /** One `EnvironmentQuery.value(env)`: the new state and what is returned. */
  function Step(m: Memo, factory: Factory, env: Value): (Memo, Result<Value>)
  {
    if m.called then (m, Success(m.result))
    else
      match factory(env)
      case Failure(e) => (m, Failure(e))
      case Success(v) => (Memo(true, v), Success(v))
  }

  /** Successive uses with the given environments: the final state, the results and the factory runs. */
  datatype Runs = Runs(memo: Memo, results: seq<Result<Value>>, calls: nat)

  function RunAll(m: Memo, factory: Factory, envs: seq<Value>): (r: Runs)
    ensures |r.results| == |envs|
    decreases |envs|
  {
    if |envs| == 0 then Runs(m, [], 0)
    else
      var before := RunAll(m, factory, envs[..|envs| - 1]);
      var step := Step(before.memo, factory, envs[|envs| - 1]);
      Runs(step.0, before.results + [step.1], before.calls + (if before.memo.called then 0 else 1))
  }

  /**
   * Once a value is stored, the factory never runs again and every use
   * returns that value, whatever environment is passed, even None.
   */
  lemma {:induction false} StoredForever(m: Memo, factory: Factory, envs: seq<Value>)
    requires m.called
    ensures RunAll(m, factory, envs).memo == m
    ensures RunAll(m, factory, envs).calls == 0
    ensures forall i :: 0 <= i < |envs| ==> RunAll(m, factory, envs).results[i] == Success(m.result)
    decreases |envs|
  {
    if |envs| > 0 {
      StoredForever(m, factory, envs[..|envs| - 1]);
    }
  }

  /** A factory that does not raise runs at most once, and every use returns its first result. */
  lemma {:induction false} AtMostOnce(m: Memo, factory: Factory, envs: seq<Value>)
    requires forall e :: factory(e).Success?
    ensures RunAll(m, factory, envs).calls <= 1
    ensures m.called ==> RunAll(m, factory, envs).calls == 0
    ensures !m.called && |envs| > 0 ==>
      forall i :: 0 <= i < |envs| ==> RunAll(m, factory, envs).results[i] == factory(envs[0])
    decreases |envs|
  {
    if m.called {
      StoredForever(m, factory, envs);
    } else if |envs| > 0 {
      var first := Step(m, factory, envs[0]);
      assert RunAll(m, factory, envs[..1]) == Runs(first.0, [first.1], 1);
      if |envs| > 1 {
        AtMostOnceFrom(m, factory, envs);
      }
    }
  }

  lemma {:induction false} AtMostOnceFrom(m: Memo, factory: Factory, envs: seq<Value>)
    requires forall e :: factory(e).Success?
    requires !m.called && |envs| > 0
    ensures RunAll(m, factory, envs).calls == 1
    ensures RunAll(m, factory, envs).memo == Memo(true, factory(envs[0]).value)
    ensures forall i :: 0 <= i < |envs| ==> RunAll(m, factory, envs).results[i] == factory(envs[0])
    decreases |envs|
  {
    if |envs| == 1 {
      assert envs[..0] == [];
    } else {
      var init := envs[..|envs| - 1];
      AtMostOnceFrom(m, factory, init);
      assert init[0] == envs[0];
    }
  }

  /** An environment query and its stored state. */
  class EnvironmentQuery {
    const query: Query
    const factory: Factory
    var memo: Memo

    constructor(query: Query, factory: Factory)
      ensures this.query == query && this.factory == factory
      ensures memo == Memo(false, NoneV)
    {
      this.query := query;
      this.factory := factory;
      memo := Memo(false, NoneV);
    }

    /** `value(env)`: runs the factory on first use only; a raising factory stores nothing. */
    method Get(env: Value) returns (r: Result<Value>)
      modifies this
      ensures (memo, r) == Step(old(memo), factory, env)
    {
      if !memo.called {
        var v := factory(env);
        if v.Failure? {
          return Failure(v.error);
        }
        memo := Memo(true, v.value);
      }
      r := Success(memo.result);
    }
  }
}
